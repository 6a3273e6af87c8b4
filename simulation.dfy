/** One game session as a value, and each operation of the engine as a step
    from one session value to the next. The class in engine.dfy keeps the same
    data in mutable fields and is proved to follow these steps. */
module Simulation {
  import opened Fires

  const AutoSuppressTime: int := 30   // AUTO_SUPPRESS_TIME, seconds on a new ticket
  const FiresToWin: int := 8          // FIRES_TO_WIN
  const SuppressionLevel: int := 2    // the level that has the suppression button

  /** The suppression button: the fire it targets and the seconds left. */
  datatype Ticket = Ticket(fireId: int, timer: int)

  /** Snapshot of a session: level, fires in spawn order, damage, score, fires
      put out, the optional ticket, whether the session still runs, and the last
      fire id handed out. */
  datatype Game = Game(level: int, fires: seq<Fire>, damage: real, score: int,
                       extinguished: int, ticket: Option<Ticket>, active: bool,
                       lastId: int)

  /** Lost (damage at 100) or won (eight fires put out). */
  predicate Terminal(g: Game) {
    MaxDamage <= g.damage || FiresToWin <= g.extinguished
  }

  /** The session invariant. */
  predicate ValidGame(g: Game) {
    && 0 <= g.lastId
    && ValidFires(g.fires, g.lastId)
    && 0.0 <= g.damage <= MaxDamage
    && 0 <= g.score && 0 <= g.extinguished
    && (g.ticket.Some? ==>
          && g.level == SuppressionLevel
          && 1 <= g.ticket.value.timer <= AutoSuppressTime
          && 1 <= g.ticket.value.fireId <= g.lastId)
    && (!g.active ==> Terminal(g))
  }

  /** A fresh session: no fire, no damage, no score, running. */
  function Start(level: int): (g: Game)
    ensures ValidGame(g) && g.active && !Terminal(g)
  {
    Game(level, [], 0.0, 0, 0, None, true, 0)
  }

  /** A draw of Math.random: a real in [0, 1). */
  predicate IsRandom(u: real) { 0.0 <= u < 1.0 }

  // ---------------------------------------------------------------------------
  // Steps

  /** The fire a spawn creates from three random draws. */
  function SpawnedFire(id: int, ux: real, uy: real, uc: real): (f: Fire)
    ensures f.id == id && f.intensity == SpawnIntensity
    ensures f.clicksToExtinguish == f.maxClicks
    ensures IsRandom(ux) && IsRandom(uy) && IsRandom(uc) ==> WellFormed(f)
  {
    var clicks := ClicksBase + (uc * ClickSpread as real).Floor;
    Fire(id, SpawnLeft + ux * SpawnWidth, SpawnTop + uy * SpawnHeight,
         SpawnIntensity, clicks, clicks)
  }

  function SpawnStep(g: Game, ux: real, uy: real, uc: real): (r: Game)
    ensures r.damage == g.damage && r.score == g.score
    ensures r.extinguished == g.extinguished && r.active == g.active
    ensures g.active ==> |r.fires| == |g.fires| + 1 && r.lastId == g.lastId + 1
    ensures !g.active ==> r == g
  {
    if !g.active then g
    else
      var id := g.lastId + 1;
      g.(lastId := id,
         fires := g.fires + [SpawnedFire(id, ux, uy, uc)],
         ticket := if g.level == SuppressionLevel then Some(Ticket(id, AutoSuppressTime))
                   else g.ticket)
  }

  /** One animation frame. Damage is computed from the fires as they were before
      this frame's growth. */
  function TickStep(g: Game, dt: real): (r: Game)
    ensures |r.fires| == |g.fires| && r.score == g.score
    ensures r.extinguished == g.extinguished && r.ticket == g.ticket
    ensures r.active == g.active && r.lastId == g.lastId
    ensures 0.0 <= dt && 0.0 <= g.damage <= MaxDamage ==> g.damage <= r.damage <= MaxDamage
  {
    if !g.active then g
    else
      g.(fires := GrowAll(g.fires, dt),
         damage := NextDamage(g.damage, TotalIntensity(g.fires), dt))
  }

  function ClickStep(g: Game, id: int): (r: Game)
    ensures r.damage == g.damage && r.ticket == g.ticket
    ensures r.active == g.active && r.lastId == g.lastId
    ensures g.extinguished <= r.extinguished
    ensures |r.fires| + (r.extinguished - g.extinguished) == |g.fires|
  {
    if !g.active then g
    else
      var r := ClickFires(g.fires, id);
      g.(fires := r.fires, score := g.score + r.points,
         extinguished := g.extinguished + r.count)
  }

  function SuppressStep(g: Game, id: int): (r: Game)
    ensures r.damage == g.damage && r.active == g.active && r.lastId == g.lastId
    ensures g.active ==> r.ticket == None && Absent(r.fires, id)
    ensures g.extinguished <= r.extinguished <= g.extinguished + 1
    ensures |r.fires| <= |g.fires|
  {
    if !g.active then g
    else
      var found := Find(g.fires, id);
      g.(fires := RemoveId(g.fires, id),
         score := if found.Some? then g.score + SuppressPoints(found.value) else g.score,
         extinguished := if found.Some? then g.extinguished + 1 else g.extinguished,
         ticket := None)
  }

  /** One second of the suppression countdown. It does not look at whether the
      session is still running; the suppression it triggers does. */
  function CountdownStep(g: Game): (r: Game)
    ensures r.damage == g.damage && r.active == g.active && r.lastId == g.lastId
    ensures g.ticket.None? ==> r == g
    ensures r.ticket.Some? ==> r.fires == g.fires && r.score == g.score
  {
    if g.level != SuppressionLevel || g.ticket.None? then g
    else if g.ticket.value.timer <= 1 then SuppressStep(g, g.ticket.value.fireId).(ticket := None)
    else g.(ticket := Some(g.ticket.value.(timer := g.ticket.value.timer - 1)))
  }

  /** The two terminal checks, loss first, then win. */
  function Settle(g: Game): (r: Game)
    ensures r == g.(active := g.active && !Terminal(g))
  {
    var afterLoss := if MaxDamage <= g.damage then g.(active := false) else g;
    if FiresToWin <= afterLoss.extinguished then afterLoss.(active := false) else afterLoss
  }

  /** The health bar: 100 minus the whole damage points, never negative. */
  function HealthPercent(damage: real): (h: int)
    ensures 0 <= h
    ensures 0.0 <= damage ==> h <= 100
    ensures h == 0 <==> MaxDamage <= damage
  {
    var raw := 100 - damage.Floor;
    if raw < 0 then 0 else raw
  }

  // ---------------------------------------------------------------------------
  // Spawn

  lemma SpawnedFireIsWellFormed(id: int, ux: real, uy: real, uc: real)
    requires IsRandom(ux) && IsRandom(uy) && IsRandom(uc)
    ensures WellFormed(SpawnedFire(id, ux, uy, uc))
    ensures SpawnedFire(id, ux, uy, uc).clicksToExtinguish == SpawnedFire(id, ux, uy, uc).maxClicks
  {
  }

  /** A spawn on a running session appends exactly one fire, with an id above
      every earlier one, inside the spawn area, at intensity 8 and with 8 to 12
      clicks to go; in level 2 it re-targets the ticket at the new fire with 30
      seconds, discarding any earlier ticket; elsewhere the ticket is kept. */
  lemma SpawnAppendsFreshFire(g: Game, ux: real, uy: real, uc: real)
    requires ValidGame(g) && g.active
    requires IsRandom(ux) && IsRandom(uy) && IsRandom(uc)
    ensures var g' := SpawnStep(g, ux, uy, uc);
      && |g'.fires| == |g.fires| + 1
      && g'.fires[..|g.fires|] == g.fires
      && var f := g'.fires[|g.fires|];
      && (forall j :: 0 <= j < |g.fires| ==> g.fires[j].id < f.id)
      && SpawnLeft <= f.x < SpawnLeft + SpawnWidth
      && SpawnTop <= f.y < SpawnTop + SpawnHeight
      && f.intensity == SpawnIntensity
      && ClicksBase <= f.clicksToExtinguish == f.maxClicks < ClicksBase + ClickSpread
      && g'.ticket == (if g.level == SuppressionLevel then Some(Ticket(f.id, AutoSuppressTime))
                       else g.ticket)
      && g'.damage == g.damage && g'.score == g.score
      && g'.extinguished == g.extinguished && g'.active
  {
  }

  lemma SpawnKeepsValid(g: Game, ux: real, uy: real, uc: real)
    requires ValidGame(g) && IsRandom(ux) && IsRandom(uy) && IsRandom(uc)
    ensures ValidGame(SpawnStep(g, ux, uy, uc))
  {
  }

  // ---------------------------------------------------------------------------
  // Tick

  /** A frame with a non-negative time step grows every fire towards the
      ceiling without touching ids, positions, click counters or the order;
      damage never decreases, stays at most 100, and does not move when no
      fire burns. */
  lemma TickEffect(g: Game, dt: real)
    requires ValidGame(g) && g.active && 0.0 <= dt
    ensures var g' := TickStep(g, dt);
      && |g'.fires| == |g.fires|
      && (forall j :: 0 <= j < |g.fires| ==>
            var f, f' := g.fires[j], g'.fires[j];
            && f'.id == f.id && f'.x == f.x && f'.y == f.y
            && f'.clicksToExtinguish == f.clicksToExtinguish && f'.maxClicks == f.maxClicks
            && f'.intensity == Min(f.intensity + FireGrowRate * dt * (1.0 + f.intensity * GrowthFeedback), MaxFire)
            && f.intensity <= f'.intensity <= MaxFire)
      && g'.damage == NextDamage(g.damage, TotalIntensity(g.fires), dt)
      && g.damage <= g'.damage <= MaxDamage
      && (g.fires == [] ==> g'.damage == g.damage)
      && g'.score == g.score && g'.extinguished == g.extinguished
      && g'.ticket == g.ticket && g'.active
  {
  }

  lemma TickKeepsValid(g: Game, dt: real)
    requires ValidGame(g) && 0.0 <= dt
    ensures ValidGame(TickStep(g, dt))
  {
  }

  // ---------------------------------------------------------------------------
  // Click

  /** A click on a fire with more than one click left takes exactly one click
      off it and lowers its intensity by 3, not below 1; score, the count of
      fires put out and every other fire stay as they were. */
  lemma ClickCools(g: Game, i: int)
    requires ValidGame(g) && g.active && 0 <= i < |g.fires|
    requires g.fires[i].clicksToExtinguish > 1
    ensures var f := g.fires[i];
      ClickStep(g, f.id) ==
        g.(fires := g.fires[i := f.(clicksToExtinguish := f.clicksToExtinguish - 1,
                                    intensity := Max(MinIntensity, f.intensity - ClickCooling))])
  {
    ClickAt(g.fires, i);
  }

  /** A click on a fire with one click left removes it, counts one more fire
      put out and scores ten times its intensity before the click, rounded
      down; the other fires keep their order. */
  lemma ClickExtinguishes(g: Game, i: int)
    requires ValidGame(g) && g.active && 0 <= i < |g.fires|
    requires g.fires[i].clicksToExtinguish <= 1
    ensures ClickStep(g, g.fires[i].id) ==
      g.(fires := g.fires[..i] + g.fires[i + 1..],
         score := g.score + (g.fires[i].intensity * 10.0).Floor,
         extinguished := g.extinguished + 1)
  {
    ClickAt(g.fires, i);
  }

  /** A click on an id that is not on the scene changes nothing. */
  lemma ClickMissing(g: Game, id: int)
    requires Absent(g.fires, id)
    ensures ClickStep(g, id) == g
  {
  }

  lemma ClickKeepsValid(g: Game, id: int)
    requires ValidGame(g)
    ensures ValidGame(ClickStep(g, id))
  {
    if g.active && !Absent(g.fires, id) {
      var i :| 0 <= i < |g.fires| && g.fires[i].id == id;
      assert WellFormed(g.fires[i]);
      if g.fires[i].clicksToExtinguish > 1 {
        ClickCools(g, i);
        CoolKeepsValid(g.fires, g.lastId, i);
      } else {
        ClickExtinguishes(g, i);
        RemoveKeepsValid(g.fires, g.lastId, i);
      }
    }
  }

  // ---------------------------------------------------------------------------
  // Suppress

  /** Suppressing a fire on the scene removes it whatever its click counter,
      counts one more fire put out, scores five times its intensity rounded
      down and clears the ticket. */
  lemma SuppressRemoves(g: Game, i: int)
    requires ValidGame(g) && g.active && 0 <= i < |g.fires|
    ensures SuppressStep(g, g.fires[i].id) ==
      g.(fires := g.fires[..i] + g.fires[i + 1..],
         score := g.score + (g.fires[i].intensity * 5.0).Floor,
         extinguished := g.extinguished + 1,
         ticket := None)
  {
    SuppressAt(g.fires, i);
  }

  /** Suppressing an id that is not on the scene still clears the ticket and
      changes nothing else. */
  lemma SuppressMissing(g: Game, id: int)
    requires g.active && Absent(g.fires, id)
    ensures SuppressStep(g, id) == g.(ticket := None)
  {
  }

  lemma SuppressKeepsValid(g: Game, id: int)
    requires ValidGame(g)
    ensures ValidGame(SuppressStep(g, id))
  {
    if g.active && !Absent(g.fires, id) {
      var i :| 0 <= i < |g.fires| && g.fires[i].id == id;
      assert WellFormed(g.fires[i]);
      SuppressRemoves(g, i);
      RemoveKeepsValid(g.fires, g.lastId, i);
    }
  }

  // ---------------------------------------------------------------------------
  // Countdown

  lemma CountdownKeepsValid(g: Game)
    requires ValidGame(g)
    ensures ValidGame(CountdownStep(g))
  {
    if g.level == SuppressionLevel && g.ticket.Some? && g.ticket.value.timer <= 1 {
      SuppressKeepsValid(g, g.ticket.value.fireId);
    }
  }

  /** n seconds of countdown. */
  function Countdowns(g: Game, n: nat): Game {
    if n == 0 then g else CountdownStep(Countdowns(g, n - 1))
  }

  /** While the timer stays above 1, each second takes exactly one second off
      it and changes nothing else. */
  lemma {:induction false} CountdownRun(g: Game, t: Ticket, n: nat)
    requires g.level == SuppressionLevel && g.ticket == Some(t) && n < t.timer
    ensures Countdowns(g, n) == g.(ticket := Some(t.(timer := t.timer - n)))
  {
    if n > 0 {
      CountdownRun(g, t, n - 1);
    }
  }

  /** A ticket with timer T suppresses its fire on exactly the T-th second: for
      fewer seconds only the timer has moved, and on the T-th the session is
      the suppression of the ticket's fire with the ticket gone. */
  lemma AutoSuppressOnLastSecond(g: Game, t: Ticket)
    requires g.level == SuppressionLevel && g.ticket == Some(t) && 1 <= t.timer
    ensures forall n: nat :: n < t.timer ==>
              Countdowns(g, n).ticket.Some? && Countdowns(g, n).fires == g.fires
              && Countdowns(g, n).score == g.score
    ensures Countdowns(g, t.timer) == SuppressStep(g, t.fireId).(ticket := None)
  {
    forall n: nat | n < t.timer
      ensures Countdowns(g, n).ticket.Some? && Countdowns(g, n).fires == g.fires
              && Countdowns(g, n).score == g.score
    {
      CountdownRun(g, t, n);
    }
    CountdownRun(g, t, t.timer - 1);
  }

  /** A new ticket starts at 30 seconds, so the 30th second suppresses. */
  lemma AutoSuppressAfterThirty(g: Game, id: int)
    requires g.level == SuppressionLevel && g.ticket == Some(Ticket(id, AutoSuppressTime))
    ensures Countdowns(g, 29).ticket == Some(Ticket(id, 1))
    ensures Countdowns(g, 30) == SuppressStep(g, id).(ticket := None)
  {
    AutoSuppressOnLastSecond(g, Ticket(id, AutoSuppressTime));
    CountdownRun(g, Ticket(id, AutoSuppressTime), 29);
  }

  // ---------------------------------------------------------------------------
  // Repeated clicks

  /** n clicks on the same id, no frame in between. */
  function Clicks(g: Game, id: int, n: nat): Game {
    if n == 0 then g else ClickStep(Clicks(g, id, n - 1), id)
  }

  /** Intensity after n cooling clicks. */
  function CooledIntensity(intensity: real, n: nat): real {
    Max(MinIntensity, intensity - n as real * ClickCooling)
  }

  /** Before the counter runs out, n clicks leave the fire in place with n
      clicks fewer and n times cooled, and nothing else changes. */
  lemma {:induction false} ClicksRun(g: Game, i: int, n: nat)
    requires ValidGame(g) && g.active && 0 <= i < |g.fires|
    requires n < g.fires[i].clicksToExtinguish
    ensures var f := g.fires[i];
      Clicks(g, f.id, n) ==
        g.(fires := g.fires[i := f.(clicksToExtinguish := f.clicksToExtinguish - n,
                                    intensity := CooledIntensity(f.intensity, n))])
  {
    var f := g.fires[i];
    assert WellFormed(f);
    if n == 0 {
      assert f.(clicksToExtinguish := f.clicksToExtinguish, intensity := f.intensity) == f;
      assert g.fires[i := f] == g.fires;
    } else {
      ClicksRun(g, i, n - 1);
      var fn := f.(clicksToExtinguish := f.clicksToExtinguish - (n - 1),
                   intensity := CooledIntensity(f.intensity, n - 1));
      var gn := g.(fires := g.fires[i := fn]);
      assert IdsIncreasing(gn.fires) by {
        assert forall j :: 0 <= j < |gn.fires| ==> gn.fires[j].id == g.fires[j].id;
      }
      ClickAt(gn.fires, i);
      assert gn.fires[i := Cooled(fn)] == g.fires[i := Cooled(fn)];
      assert Cooled(fn).intensity == CooledIntensity(f.intensity, n);
    }
  }

  /** The click that brings the counter to zero removes the fire: c clicks on a
      fire with c clicks left take it off the scene, count one fire put out,
      and score ten times its intensity after c - 1 coolings. */
  lemma ClicksPutOut(g: Game, i: int)
    requires ValidGame(g) && g.active && 0 <= i < |g.fires|
    ensures var f := g.fires[i];
      Clicks(g, f.id, f.clicksToExtinguish as nat) ==
        g.(fires := g.fires[..i] + g.fires[i + 1..],
           score := g.score + (CooledIntensity(f.intensity, f.clicksToExtinguish - 1) * ManualScoreFactor).Floor,
           extinguished := g.extinguished + 1)
  {
    var f := g.fires[i];
    var n: nat := f.clicksToExtinguish - 1;
    var last := f.(clicksToExtinguish := 1, intensity := CooledIntensity(f.intensity, n));
    calc {
      Clicks(g, f.id, f.clicksToExtinguish as nat);
      { assert f.clicksToExtinguish as nat == n + 1 by { assert WellFormed(f); } }
      Clicks(g, f.id, n + 1);
      ClickStep(Clicks(g, f.id, n), f.id);
      { ClicksRun(g, i, n); }
      ClickStep(g.(fires := g.fires[i := last]), last.id);
      { LastClick(g, i, last); }
      g.(fires := g.fires[..i] + g.fires[i + 1..],
         score := g.score + ManualPoints(last),
         extinguished := g.extinguished + 1);
    }
  }

  lemma LastClick(g: Game, i: int, last: Fire)
    requires ValidGame(g) && g.active && 0 <= i < |g.fires|
    requires last.id == g.fires[i].id && last.clicksToExtinguish <= 1
    ensures ClickStep(g.(fires := g.fires[i := last]), last.id) ==
      g.(fires := g.fires[..i] + g.fires[i + 1..],
         score := g.score + ManualPoints(last),
         extinguished := g.extinguished + 1)
  {
    var fs := g.fires[i := last];
    assert IdsIncreasing(fs) by {
      assert forall j :: 0 <= j < |fs| ==> fs[j].id == g.fires[j].id;
    }
    ClickAt(fs, i);
    assert fs[..i] + fs[i + 1..] == g.fires[..i] + g.fires[i + 1..];
  }

  /** A fresh fire with k clicks to go survives k - 1 clicks and is gone after
      exactly k, leaving the scene as it was before the spawn. */
  lemma FreshFireTakesMaxClicks(g: Game, ux: real, uy: real, uc: real)
    requires ValidGame(g) && g.active
    requires IsRandom(ux) && IsRandom(uy) && IsRandom(uc)
    ensures var g' := SpawnStep(g, ux, uy, uc);
      var f := g'.fires[|g.fires|];
      && !Absent(Clicks(g', f.id, f.maxClicks as nat - 1).fires, f.id)
      && Clicks(g', f.id, f.maxClicks as nat).fires == g.fires
      && Clicks(g', f.id, f.maxClicks as nat).extinguished == g.extinguished + 1
  {
    var g' := SpawnStep(g, ux, uy, uc);
    var n := |g.fires|;
    SpawnAppendsFreshFire(g, ux, uy, uc);
    SpawnKeepsValid(g, ux, uy, uc);
    var f := g'.fires[n];
    ClicksRun(g', n, f.maxClicks - 1);
    assert Clicks(g', f.id, f.maxClicks as nat - 1).fires[n].id == f.id;
    ClicksPutOut(g', n);
    assert g'.fires[..n] + g'.fires[n + 1..] == g.fires;
  }

  // ---------------------------------------------------------------------------
  // Terminal states

  lemma SettleKeepsValid(g: Game)
    requires ValidGame(g)
    ensures ValidGame(Settle(g))
    ensures Settle(g).active <==> g.active && !Terminal(g)
    ensures Settle(g) == g.(active := Settle(g).active)
  {
  }

  /** Once the session has stopped, spawn, frame, click, suppression and the
      terminal checks change nothing, and the countdown can only move the
      ticket. */
  lemma InactiveIsFinal(g: Game, ux: real, uy: real, uc: real, dt: real, id: int)
    requires !g.active
    ensures SpawnStep(g, ux, uy, uc) == g && TickStep(g, dt) == g
    ensures ClickStep(g, id) == g && SuppressStep(g, id) == g && Settle(g) == g
    ensures CountdownStep(g) == g.(ticket := CountdownStep(g).ticket)
  {
  }

  /** Damage and the count of fires put out never decrease, so a lost or won
      session stays lost or won whatever happens next. */
  lemma TerminalPersists(g: Game, ux: real, uy: real, uc: real, dt: real, id: int)
    requires ValidGame(g) && Terminal(g) && 0.0 <= dt
    ensures Terminal(SpawnStep(g, ux, uy, uc)) && Terminal(TickStep(g, dt))
    ensures Terminal(ClickStep(g, id)) && Terminal(SuppressStep(g, id))
    ensures Terminal(CountdownStep(g)) && Terminal(Settle(g))
  {
  }

  /** Settling a session at 100 damage stops it; the health bar then reads 0. */
  lemma LossStops(g: Game)
    requires MaxDamage <= g.damage
    ensures !Settle(g).active && HealthPercent(g.damage) == 0
  {
  }

  /** Settling a session with eight fires put out stops it with its score. */
  lemma WinStops(g: Game)
    requires FiresToWin <= g.extinguished
    ensures !Settle(g).active && Settle(g).score == g.score
  {
  }

  /** Fifty intensity points over one second add 1.5 damage. */
  lemma DamageExample()
    ensures NextDamage(10.0, 50.0, 1.0) == 11.5
  {
  }
}
