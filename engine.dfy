/** The engine's session as the component keeps it: mutable fields updated by
    the spawn timer, the animation frame, the player's clicks, the suppression
    button, the one-second countdown and the terminal checks. Each method is
    proved to perform the corresponding step of the Simulation module, which is
    where the properties of the steps are proved. */
module GameEngine {
  import opened Fires
  import opened Simulation

  class Session {
    const level: int
    var fires: seq<Fire>
    var damage: real
    var score: int
    var extinguished: int
    var ticket: Option<Ticket>   // the suppression button and its timer
    var active: bool             // false once the session is lost or won
    var lastId: int              // the fire id counter

    function Snapshot(): Game
      reads this
    {
      Game(level, fires, damage, score, extinguished, ticket, active, lastId)
    }

    predicate Valid()
      reads this
    {
      ValidGame(Snapshot())
    }

    constructor (level: int)
      ensures Valid() && Snapshot() == Start(level)
    {
      this.level := level;
      fires := [];
      damage := 0.0;
      score := 0;
      extinguished := 0;
      ticket := None;
      active := true;
      lastId := 0;
    }

    /** The spawn timer: a new fire from three random draws in [0, 1). */
    method Spawn(ux: real, uy: real, uc: real)
      requires Valid() && IsRandom(ux) && IsRandom(uy) && IsRandom(uc)
      modifies this
      ensures Valid() && Snapshot() == SpawnStep(old(Snapshot()), ux, uy, uc)
    {
      ghost var before := Snapshot();
      SpawnKeepsValid(before, ux, uy, uc);
      if !active {
        return;
      }
      lastId := lastId + 1;
      var id := lastId;
      fires := fires + [SpawnedFire(id, ux, uy, uc)];
      if level == SuppressionLevel {
        ticket := Some(Ticket(id, AutoSuppressTime));
      }
    }

    /** One animation frame of dt seconds. The damage total is taken from the
        fires as they were before this frame's growth. */
    method Tick(dt: real)
      requires Valid() && 0.0 <= dt
      modifies this
      ensures Valid() && Snapshot() == TickStep(old(Snapshot()), dt)
    {
      ghost var before := Snapshot();
      TickKeepsValid(before, dt);
      if !active {
        return;
      }
      var rendered := fires;
      fires := GrowAll(fires, dt);
      var total := TotalIntensity(rendered);
      if 0.0 < total {
        damage := NextDamage(damage, total, dt);
      }
    }

    /** The player clicks the fire with the given id. */
    method Click(id: int)
      requires Valid()
      modifies this
      ensures Valid() && Snapshot() == ClickStep(old(Snapshot()), id)
    {
      ghost var before := Snapshot();
      ClickKeepsValid(before, id);
      if !active {
        return;
      }
      var r := ClickFires(fires, id);
      fires := r.fires;
      score := score + r.points;
      extinguished := extinguished + r.count;
    }

    /** Suppression of the fire with the given id, by the button or by the
        countdown. */
    method Suppress(id: int)
      requires Valid()
      modifies this
      ensures Valid() && Snapshot() == SuppressStep(old(Snapshot()), id)
    {
      ghost var before := Snapshot();
      SuppressKeepsValid(before, id);
      if !active {
        return;
      }
      var found := Find(fires, id);
      if found.Some? {
        score := score + SuppressPoints(found.value);
        extinguished := extinguished + 1;
      }
      fires := RemoveId(fires, id);
      ticket := None;
    }

    /** One second of the suppression countdown. */
    method Countdown()
      requires Valid()
      modifies this
      ensures Valid() && Snapshot() == CountdownStep(old(Snapshot()))
    {
      ghost var before := Snapshot();
      CountdownKeepsValid(before);
      if ticket.None? || level != SuppressionLevel {
        return;
      }
      var t := ticket.value;
      if t.timer <= 1 {
        Suppress(t.fireId);
        ticket := None;
      } else {
        ticket := Some(t.(timer := t.timer - 1));
      }
    }

    /** The terminal checks: at 100 damage the session is lost, with eight fires
        put out it is won and its score is reported. Either one stops it. */
    method CheckTerminal() returns (lost: bool, won: bool, reported: Option<int>)
      requires Valid()
      modifies this
      ensures Valid() && Snapshot() == Settle(old(Snapshot()))
      ensures lost <==> MaxDamage <= damage
      ensures won <==> FiresToWin <= extinguished
      ensures reported == if won then Some(score) else None
      ensures !active <==> old(!active) || lost || won
    {
      ghost var before := Snapshot();
      SettleKeepsValid(before);
      lost := MaxDamage <= damage;
      if lost {
        active := false;
      }
      won := FiresToWin <= extinguished;
      reported := None;
      if won {
        active := false;
        reported := Some(score);
      }
    }
  }
}
