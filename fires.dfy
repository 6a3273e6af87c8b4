/** The fire entity of the game engine and the expressions the engine evaluates
    over the list of active fires: growth, total intensity, damage, the click
    update and the suppression removal. */
module Fires {

  datatype Option<T> = None | Some(value: T)

  // Tuning constants of the engine.
  const MaxFire: real := 100.0            // MAX_FIRE: intensity ceiling
  const FireGrowRate: real := 3.0         // FIRE_GROW_RATE
  const GrowthFeedback: real := 0.005     // growth accelerates with intensity
  const DamageRate: real := 3.0           // DAMAGE_RATE
  const MaxDamage: real := 100.0          // damage ceiling, also the loss threshold
  const ClicksBase: int := 8              // CLICKS_BASE
  const ClickSpread: int := 5             // clicks are CLICKS_BASE + 0..4
  const SpawnIntensity: real := 8.0       // intensity of a new fire
  const ClickCooling: real := 3.0         // intensity removed by one click
  const MinIntensity: real := 1.0         // floor a click cannot go under
  const ManualScoreFactor: real := 10.0   // score per intensity point, manual extinguish
  const SuppressScoreFactor: real := 5.0  // score per intensity point, suppression
  const SpawnLeft: real := 10.0           // x = 10 + random * 80 (percent of the scene)
  const SpawnWidth: real := 80.0
  const SpawnTop: real := 8.0             // y = 8 + random * 48
  const SpawnHeight: real := 48.0

  function Min(a: real, b: real): real { if a <= b then a else b }
  function Max(a: real, b: real): real { if a >= b then a else b }

  datatype Fire = Fire(id: int, x: real, y: real, intensity: real,
                       clicksToExtinguish: int, maxClicks: int)

  /** What every fire on the scene satisfies. */
  predicate WellFormed(f: Fire) {
    && MinIntensity <= f.intensity <= MaxFire
    && 1 <= f.clicksToExtinguish <= f.maxClicks
    && ClicksBase <= f.maxClicks < ClicksBase + ClickSpread
    && SpawnLeft <= f.x < SpawnLeft + SpawnWidth
    && SpawnTop <= f.y < SpawnTop + SpawnHeight
  }

  /** Fires are kept in spawn order and ids come from a counter, so ids increase
      along the list; in particular no id occurs twice. */
  predicate IdsIncreasing(fs: seq<Fire>) {
    forall i, j :: 0 <= i < j < |fs| ==> fs[i].id < fs[j].id
  }

  predicate ValidFires(fs: seq<Fire>, lastId: int) {
    && (forall j :: 0 <= j < |fs| ==> WellFormed(fs[j]) && 1 <= fs[j].id <= lastId)
    && IdsIncreasing(fs)
  }

  predicate Absent(fs: seq<Fire>, id: int) {
    forall j :: 0 <= j < |fs| ==> fs[j].id != id
  }

  // ---------------------------------------------------------------------------
  // Growth and damage

  /** One frame of growth of one fire: only the intensity moves, it never
      exceeds the ceiling, and for a non-negative time step it never drops. */
  function Grow(f: Fire, dt: real): (g: Fire)
    ensures g.id == f.id && g.x == f.x && g.y == f.y
    ensures g.clicksToExtinguish == f.clicksToExtinguish && g.maxClicks == f.maxClicks
    ensures g.intensity <= MaxFire
    ensures 0.0 <= dt && MinIntensity <= f.intensity <= MaxFire ==> f.intensity <= g.intensity
  {
    var raised := f.intensity + FireGrowRate * dt * (1.0 + f.intensity * GrowthFeedback);
    assert 0.0 <= dt && MinIntensity <= f.intensity ==> f.intensity <= raised by {
      if 0.0 <= dt && MinIntensity <= f.intensity {
        NonNegativeProduct(dt, 1.0 + f.intensity * GrowthFeedback);
      }
    }
    f.(intensity := Min(raised, MaxFire))
  }

  lemma NonNegativeProduct(a: real, b: real)
    requires 0.0 <= a && 0.0 <= b
    ensures 0.0 <= a * b
  {
  }

  /** The growth map over the whole list: same length, fire by fire. */
  function GrowAll(fs: seq<Fire>, dt: real): (r: seq<Fire>)
    ensures |r| == |fs|
    ensures forall j :: 0 <= j < |fs| ==> r[j] == Grow(fs[j], dt)
  {
    if fs == [] then [] else [Grow(fs[0], dt)] + GrowAll(fs[1..], dt)
  }

  /** Growth keeps every fire well formed, keeps ids and their order, and keeps
      the counter bound. */
  lemma GrowAllKeepsValid(fs: seq<Fire>, lastId: int, dt: real)
    requires ValidFires(fs, lastId) && 0.0 <= dt
    ensures ValidFires(GrowAll(fs, dt), lastId)
  {
  }

  /** Sum of the intensities of the fires (the reduce over the list). */
  function TotalIntensity(fs: seq<Fire>): (t: real)
    ensures (forall j :: 0 <= j < |fs| ==> MinIntensity <= fs[j].intensity) ==>
              |fs| as real * MinIntensity <= t
    ensures (forall j :: 0 <= j < |fs| ==> fs[j].intensity <= MaxFire) ==>
              t <= |fs| as real * MaxFire
  {
    if fs == [] then 0.0 else fs[0].intensity + TotalIntensity(fs[1..])
  }

  /** On a valid list the total is positive exactly when a fire burns. */
  lemma TotalPositiveIffBurning(fs: seq<Fire>, lastId: int)
    requires ValidFires(fs, lastId)
    ensures 0.0 < TotalIntensity(fs) <==> fs != []
    ensures TotalIntensity(fs) <= |fs| as real * MaxFire
  {
  }

  /** Growth never lowers the total, so damage computed from the fires before
      growth never exceeds damage computed from the fires after growth. */
  lemma {:induction false} GrowthRaisesTotal(fs: seq<Fire>, dt: real)
    requires 0.0 <= dt
    requires forall j :: 0 <= j < |fs| ==> MinIntensity <= fs[j].intensity <= MaxFire
    ensures TotalIntensity(fs) <= TotalIntensity(GrowAll(fs, dt))
  {
    if fs != [] {
      GrowthRaisesTotal(fs[1..], dt);
      assert GrowAll(fs, dt)[1..] == GrowAll(fs[1..], dt);
    }
  }

  /** Damage after one frame: total intensity relative to the ceiling, times the
      time step and the damage rate, clamped at 100; nothing when no fire burns. */
  function NextDamage(damage: real, total: real, dt: real): (d: real)
    ensures total <= 0.0 ==> d == damage
    ensures 0.0 < total ==> d <= MaxDamage
    ensures 0.0 <= dt && damage <= MaxDamage ==> damage <= d <= MaxDamage
    ensures 0.0 < total && 0.0 <= dt && damage + total / MaxFire * dt * DamageRate <= MaxDamage ==>
              d == damage + total / MaxFire * dt * DamageRate
    ensures 0.0 < total && MaxDamage <= damage + total / MaxFire * dt * DamageRate ==>
              d == MaxDamage
  {
    if 0.0 < total then
      var raised := damage + (total / MaxFire) * dt * DamageRate;
      assert 0.0 <= dt ==> damage <= raised by {
        if 0.0 <= dt { NonNegativeProduct(total / MaxFire, dt); }
      }
      Min(raised, MaxDamage)
    else damage
  }

  /** A larger total never gives less damage. */
  lemma NextDamageMonotone(damage: real, t1: real, t2: real, dt: real)
    requires 0.0 <= dt && 0.0 <= damage <= MaxDamage && 0.0 <= t1 <= t2
    ensures NextDamage(damage, t1, dt) <= NextDamage(damage, t2, dt)
  {
    if 0.0 < t1 {
      assert t1 / MaxFire * dt <= t2 / MaxFire * dt by {
        NonNegativeProduct(t2 / MaxFire - t1 / MaxFire, dt);
      }
    }
  }

  /** The damage a frame adds when computed from the fires before growth, as
      the engine does, never exceeds the damage computed from the grown fires. */
  lemma PreGrowthDamageNoLarger(fs: seq<Fire>, lastId: int, damage: real, dt: real)
    requires ValidFires(fs, lastId) && 0.0 <= dt && 0.0 <= damage <= MaxDamage
    ensures NextDamage(damage, TotalIntensity(fs), dt) <=
            NextDamage(damage, TotalIntensity(GrowAll(fs, dt)), dt)
  {
    assert forall j :: 0 <= j < |fs| ==> WellFormed(fs[j]);
    GrowthRaisesTotal(fs, dt);
    NextDamageMonotone(damage, TotalIntensity(fs), TotalIntensity(GrowAll(fs, dt)), dt);
  }

  // ---------------------------------------------------------------------------
  // Clicks

  /** A fire after a click that does not put it out: one click fewer, three
      intensity points less but never below 1. */
  function Cooled(f: Fire): (g: Fire)
    ensures g.id == f.id && g.x == f.x && g.y == f.y && g.maxClicks == f.maxClicks
    ensures g.clicksToExtinguish == f.clicksToExtinguish - 1
    ensures MinIntensity <= g.intensity && g.intensity <= Max(MinIntensity, f.intensity)
    ensures WellFormed(f) && 1 < f.clicksToExtinguish ==> WellFormed(g)
  {
    f.(clicksToExtinguish := f.clicksToExtinguish - 1,
       intensity := Max(MinIntensity, f.intensity - ClickCooling))
  }

  /** Score for a fire put out by clicking: ten times its intensity, rounded
      down. */
  function ManualPoints(f: Fire): (p: int)
    ensures p as real <= f.intensity * ManualScoreFactor < p as real + 1.0
    ensures MinIntensity <= f.intensity ==> 10 <= p
  {
    (f.intensity * ManualScoreFactor).Floor
  }

  /** Score for a suppressed fire: five times its intensity, rounded down, so
      never more than clicking it out would have scored. */
  function SuppressPoints(f: Fire): (p: int)
    ensures p as real <= f.intensity * SuppressScoreFactor < p as real + 1.0
    ensures MinIntensity <= f.intensity ==> 5 <= p <= ManualPoints(f)
  {
    (f.intensity * SuppressScoreFactor).Floor
  }

  /** Outcome of a click on the list: the remaining fires, the score gained and
      the number of fires put out. */
  datatype Clicked = Clicked(fires: seq<Fire>, points: int, count: nat)

  /** The click as the engine evaluates it: every fire with the id is updated;
      one whose counter would reach zero is dropped and scores its intensity
      before the click. */
  function ClickFires(fs: seq<Fire>, id: int): (r: Clicked)
    ensures |r.fires| + r.count == |fs|
    ensures Absent(fs, id) ==> r == Clicked(fs, 0, 0)
  {
    if fs == [] then Clicked([], 0, 0)
    else
      var rest := ClickFires(fs[1..], id);
      var f := fs[0];
      if f.id != id then Clicked([f] + rest.fires, rest.points, rest.count)
      else if f.clicksToExtinguish - 1 <= 0 then
        Clicked(rest.fires, ManualPoints(f) + rest.points, rest.count + 1)
      else Clicked([Cooled(f)] + rest.fires, rest.points, rest.count)
  }

  /** With increasing ids, no fire after index i has the id of fire i. */
  lemma AbsentAfter(fs: seq<Fire>, i: int)
    requires IdsIncreasing(fs) && 0 <= i < |fs|
    ensures Absent(fs[i + 1..], fs[i].id)
  {
  }

  /** Dropping the first fire keeps ids increasing and the fire at i + 1 becomes
      the one at i. */
  lemma TailIncreasing(fs: seq<Fire>, i: int)
    requires IdsIncreasing(fs) && 0 < i < |fs|
    ensures IdsIncreasing(fs[1..]) && fs[1..][i - 1] == fs[i] && fs[0].id < fs[i].id
  {
  }

  /** Removing or replacing index i of a list equals keeping its head and
      removing or replacing index i - 1 of its tail. */
  lemma SplitAround(fs: seq<Fire>, i: int, x: Fire)
    requires 0 < i < |fs|
    ensures [fs[0]] + (fs[1..][..i - 1] + fs[1..][i..]) == fs[..i] + fs[i + 1..]
    ensures [fs[0]] + fs[1..][i - 1 := x] == fs[i := x]
  {
  }

  /** With distinct ids, a click on the fire at index i either cools that fire
      in place or removes it, scoring its intensity times ten; every other fire
      keeps its value and its position in the order. */
  lemma {:induction false} ClickAt(fs: seq<Fire>, i: int)
    requires IdsIncreasing(fs) && 0 <= i < |fs|
    ensures ClickFires(fs, fs[i].id) ==
              if fs[i].clicksToExtinguish - 1 <= 0
              then Clicked(fs[..i] + fs[i + 1..], ManualPoints(fs[i]), 1)
              else Clicked(fs[i := Cooled(fs[i])], 0, 0)
  {
    if i == 0 {
      ClickHead(fs);
    } else {
      var tail := fs[1..];
      TailIncreasing(fs, i);
      ClickAt(tail, i - 1);
      var rest := ClickFires(tail, tail[i - 1].id);
      assert ClickFires(fs, fs[i].id) == Clicked([fs[0]] + rest.fires, rest.points, rest.count);
      SplitAround(fs, i, Cooled(fs[i]));
    }
  }

  /** ClickAt for the first fire of the list. */
  lemma ClickHead(fs: seq<Fire>)
    requires IdsIncreasing(fs) && 0 < |fs|
    ensures ClickFires(fs, fs[0].id) ==
              if fs[0].clicksToExtinguish - 1 <= 0
              then Clicked(fs[..0] + fs[1..], ManualPoints(fs[0]), 1)
              else Clicked(fs[0 := Cooled(fs[0])], 0, 0)
  {
    var tail := fs[1..];
    AbsentAfter(fs, 0);
    assert ClickFires(tail, fs[0].id) == Clicked(tail, 0, 0);
    if fs[0].clicksToExtinguish - 1 <= 0 {
      assert fs[..0] + tail == tail;
    } else {
      assert fs[0 := Cooled(fs[0])] == [Cooled(fs[0])] + tail;
    }
  }

  /** Removing one fire from a valid list leaves a valid list. */
  lemma RemoveKeepsValid(fs: seq<Fire>, lastId: int, i: int)
    requires ValidFires(fs, lastId) && 0 <= i < |fs|
    ensures ValidFires(fs[..i] + fs[i + 1..], lastId)
  {
  }

  /** Cooling a fire that has more than one click left keeps the list valid. */
  lemma CoolKeepsValid(fs: seq<Fire>, lastId: int, i: int)
    requires ValidFires(fs, lastId) && 0 <= i < |fs| && fs[i].clicksToExtinguish > 1
    ensures ValidFires(fs[i := Cooled(fs[i])], lastId)
  {
  }

  // ---------------------------------------------------------------------------
  // Suppression

  /** First fire with the id, if any (the engine's find). */
  function Find(fs: seq<Fire>, id: int): (r: Option<Fire>)
    ensures r.None? <==> Absent(fs, id)
    ensures r.Some? ==> r.value in fs && r.value.id == id
  {
    if fs == [] then None
    else if fs[0].id == id then Some(fs[0])
    else Find(fs[1..], id)
  }

  /** The list without any fire with the id (the engine's filter). */
  function RemoveId(fs: seq<Fire>, id: int): (r: seq<Fire>)
    ensures Absent(r, id)
    ensures Absent(fs, id) ==> r == fs
    ensures |r| <= |fs|
  {
    if fs == [] then []
    else if fs[0].id == id then RemoveId(fs[1..], id)
    else [fs[0]] + RemoveId(fs[1..], id)
  }

  /** SuppressAt for the first fire of the list. */
  lemma SuppressHead(fs: seq<Fire>)
    requires IdsIncreasing(fs) && 0 < |fs|
    ensures Find(fs, fs[0].id) == Some(fs[0])
    ensures RemoveId(fs, fs[0].id) == fs[..0] + fs[1..]
  {
  }

  /** With distinct ids, suppression finds exactly the fire at index i and
      removes exactly it, keeping the others in order. */
  lemma {:induction false} SuppressAt(fs: seq<Fire>, i: int)
    requires IdsIncreasing(fs) && 0 <= i < |fs|
    ensures Find(fs, fs[i].id) == Some(fs[i])
    ensures RemoveId(fs, fs[i].id) == fs[..i] + fs[i + 1..]
  {
    if i == 0 {
      SuppressHead(fs);
    } else {
      var tail := fs[1..];
      TailIncreasing(fs, i);
      SuppressAt(tail, i - 1);
      assert Find(fs, fs[i].id) == Find(tail, tail[i - 1].id);
      assert RemoveId(fs, fs[i].id) == [fs[0]] + RemoveId(tail, tail[i - 1].id);
      SplitAround(fs, i, fs[i]);
    }
  }
}
