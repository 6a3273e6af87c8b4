# Fire-fighting game engine, modelled in Dafny

This project models the simulation engine of a small browser arcade game. Fires
appear on a scene, grow every animation frame and damage a shared machine. The
player puts them out by clicking each fire several times. In level 2 a
suppression button can also remove one fire outright. If nobody presses the
button in time, its 30-second countdown presses it automatically. The session
is lost when damage reaches 100 and won when eight fires have been put out.

Three modules, one per layer of the engine in `src/components/game/GameEngine.tsx`:

- `Fires` (`fires.dfy`): the fire record, the engine's constants, and the pure
  expressions the engine evaluates over the list of fires. These are per-fire
  growth, the total intensity, the clamped damage update, the click map/filter
  and the suppression find/filter. Lemmas say what these do to a list whose ids
  are distinct.
- `Simulation` (`simulation.dfy`): a session as a value (`Game`) and every
  operation as a step function. The session invariant `ValidGame` is proved to
  be preserved by every step, and each step's effect is proved lemma by lemma.
  Repeated steps are covered too: k clicks on a fresh fire, the 30-second
  countdown, and the fact that a terminal session stays terminal.
- `GameEngine` (`engine.dfy`): class `Session` with the fields the component
  mutates: `fires`, `damage`, `score`, `extinguished`, the suppression
  `ticket`, the `active` flag and the id counter `lastId`. Each method updates
  those fields in the source's order. Each is proved to keep `Valid()` and to
  leave the session in exactly the state the matching `Simulation` step
  computes.

Numbers are Dafny `real`s. Scores are rounded down with `.Floor`, as the code's
`Math.floor` does. Random draws and the frame's elapsed time are parameters.

## Model

| member | source | states |
|---|---|---|
| `Fires.Grow` | src/components/game/GameEngine.tsx:83-86 | a frame's growth changes only intensity, never past 100, and never lowers it when dt ≥ 0 |
| `Fires.GrowAll` | src/components/game/GameEngine.tsx:83-86 | growth is applied fire by fire, keeping the list's length and order |
| `Fires.GrowAllKeepsValid` | src/components/game/GameEngine.tsx:83-86 | for dt ≥ 0, growth keeps every fire within bounds and keeps the ids increasing |
| `Fires.TotalIntensity` | src/components/game/GameEngine.tsx:88 | the sum lies between the fire count times 1 and the fire count times 100 when every fire is within bounds |
| `Fires.TotalPositiveIffBurning` | src/components/game/GameEngine.tsx:88-89 | on a valid list the total-intensity guard passes exactly when some fire burns |
| `Fires.GrowthRaisesTotal` | src/components/game/GameEngine.tsx:46-88 | for dt ≥ 0 and in-bounds fires, the total before growth never exceeds the total after growth |
| `Fires.NextDamage` | src/components/game/GameEngine.tsx:89-93 | damage is unchanged when the total is 0, is at most 100, never decreases when dt ≥ 0, rises by total/100·dt·3 below the cap, and is exactly 100 when that rise would pass the cap |
| `Fires.NextDamageMonotone` | src/components/game/GameEngine.tsx:89-93 | for dt ≥ 0 and damage in [0,100], a larger total never gives less damage |
| `Fires.PreGrowthDamageNoLarger` | src/components/game/GameEngine.tsx:46-93 | on a valid list, damage computed from the pre-growth total (as line 88 does) never exceeds damage computed from the grown list |
| `Fires.ClickFires` | src/components/game/GameEngine.tsx:155-169 | a click removes as many fires as it counts, and a click on an absent id changes nothing |
| `Fires.ClickAt` | src/components/game/GameEngine.tsx:156-169 | with distinct ids, the clicked fire is cooled in place or removed and scores floor(intensity·10); all other fires are untouched and keep their order |
| `Fires.CoolKeepsValid` | src/components/game/GameEngine.tsx:167 | cooling a fire with more than one click left keeps the list valid |
| `Fires.RemoveKeepsValid` | src/components/game/GameEngine.tsx:147 | removing one fire keeps the list valid |
| `Fires.Cooled` | src/components/game/GameEngine.tsx:167 | a cooled fire keeps its id, position and maximum, has one click fewer and intensity at least 1 and at most its old intensity (or 1); it stays well formed when it had more than one click left |
| `Fires.ManualPoints` | src/components/game/GameEngine.tsx:161 | the score is floor(intensity·10), so at least 10 for an in-bounds fire |
| `Fires.SuppressPoints` | src/components/game/GameEngine.tsx:144 | the score is floor(intensity·5), at least 5 and never more than clicking the fire out would give |
| `Fires.Find` | src/components/game/GameEngine.tsx:142 | finds nothing exactly when the id is absent, and otherwise a fire of the list with that id |
| `Fires.RemoveId` | src/components/game/GameEngine.tsx:147 | no fire with the id is left, and on an absent id the list is unchanged |
| `Fires.SuppressAt` | src/components/game/GameEngine.tsx:141-147 | with distinct ids, suppression finds exactly the fire at index i and removes only it |
| `Simulation.Start` | src/components/game/GameEngine.tsx:32-47 | a new session satisfies the invariant, runs, and is not terminal |
| `Simulation.SpawnedFire` | src/components/game/GameEngine.tsx:51-55 | the new fire has the given id, intensity 8 and clicks equal to its maximum; random draws in [0,1) make it well formed (see `SpawnedFireIsWellFormed`) |
| `Simulation.SpawnStep` | src/components/game/GameEngine.tsx:49-58 | spawn leaves damage, score, count and the active flag alone; when running it adds one fire and advances the id counter; when stopped it changes nothing (details in `SpawnAppendsFreshFire`, `SpawnKeepsValid`) |
| `Simulation.TickStep` | src/components/game/GameEngine.tsx:79-94 | a frame keeps the number of fires, score, count, ticket, flag and counter, and for dt ≥ 0 damage stays in [old, 100] (details in `TickEffect`, `TickKeepsValid`) |
| `Simulation.ClickStep` | src/components/game/GameEngine.tsx:152-171 | a click keeps damage, ticket, flag and counter; every fire that leaves the list is counted as put out (details in `ClickCools`, `ClickExtinguishes`, `ClickMissing`) |
| `Simulation.SuppressStep` | src/components/game/GameEngine.tsx:136-150 | suppression keeps damage, flag and counter; when running it clears the ticket and leaves no fire with the id; the count rises by at most 1 (details in `SuppressRemoves`, `SuppressMissing`) |
| `Simulation.CountdownStep` | src/components/game/GameEngine.tsx:121-131 | a countdown second keeps damage, flag and counter; without a ticket it changes nothing; while a ticket remains, fires and score are unchanged (details in `CountdownRun`, `AutoSuppressOnLastSecond`) |
| `Simulation.Settle` | src/components/game/GameEngine.tsx:102-119 | the checks stop the session exactly when it is lost or won and change nothing else |
| `Simulation.HealthPercent` | src/components/game/GameEngine.tsx:173 | health lies in [0,100] for non-negative damage, and is 0 exactly when damage ≥ 100 |
| `Simulation.SpawnedFireIsWellFormed` | src/components/game/GameEngine.tsx:52-55 | random draws in [0,1) give x in [10,90), y in [8,56), intensity 8, and 8 to 12 clicks with clicks equal to the maximum |
| `Simulation.SpawnAppendsFreshFire` | src/components/game/GameEngine.tsx:49-58 | spawn appends exactly one fire, with an id above every earlier one; in level 2 the ticket becomes (new id, 30), otherwise it is kept; damage, score and count are unchanged |
| `Simulation.SpawnKeepsValid` | src/components/game/GameEngine.tsx:49-58 | spawn preserves the session invariant |
| `Simulation.TickEffect` | src/components/game/GameEngine.tsx:79-94 | for dt ≥ 0, each intensity becomes min(old + 3·dt·(1 + old·0.005), 100) ≥ old; ids, positions, clicks and order are unchanged; damage is the update from the pre-growth total, non-decreasing, at most 100, and unchanged with no fires |
| `Simulation.TickKeepsValid` | src/components/game/GameEngine.tsx:79-94 | a frame with dt ≥ 0 preserves the session invariant |
| `Simulation.ClickCools` | src/components/game/GameEngine.tsx:158-167 | with more than one click left, that fire loses exactly one click and its intensity becomes max(1, intensity − 3); nothing else changes |
| `Simulation.ClickExtinguishes` | src/components/game/GameEngine.tsx:158-165 | with one click left, the fire is removed, the count rises by 1, and the score rises by floor(intensity·10) of the pre-click intensity |
| `Simulation.ClickMissing` | src/components/game/GameEngine.tsx:155-169 | a click on an absent id leaves the session unchanged |
| `Simulation.ClickKeepsValid` | src/components/game/GameEngine.tsx:152-171 | a click preserves the session invariant |
| `Simulation.SuppressRemoves` | src/components/game/GameEngine.tsx:141-149 | suppression removes the fire whatever its clicks, adds 1 to the count and floor(intensity·5) to the score, and clears the ticket |
| `Simulation.SuppressMissing` | src/components/game/GameEngine.tsx:141-149 | suppression of an absent id changes only the ticket, which it clears |
| `Simulation.SuppressKeepsValid` | src/components/game/GameEngine.tsx:136-150 | suppression preserves the session invariant |
| `Simulation.CountdownKeepsValid` | src/components/game/GameEngine.tsx:122-131 | a countdown second preserves the session invariant |
| `Simulation.CountdownRun` | src/components/game/GameEngine.tsx:124-130 | while the timer stays above 1, n seconds take exactly n off the timer and change nothing else |
| `Simulation.AutoSuppressOnLastSecond` | src/components/game/GameEngine.tsx:124-131 | a ticket at timer T leaves fires and score alone for fewer than T seconds; on the T-th second the result is the suppression of its fire, with the ticket gone |
| `Simulation.AutoSuppressAfterThirty` | src/components/game/GameEngine.tsx:57 | a fresh 30-second ticket reads 1 after 29 seconds and auto-suppresses on the 30th |
| `Simulation.ClicksRun` | src/components/game/GameEngine.tsx:156-167 | fewer clicks than the counter leave the fire in place, with that many clicks fewer and its intensity max(1, I − 3n) |
| `Simulation.ClicksPutOut` | src/components/game/GameEngine.tsx:158-165 | c clicks on a fire with c left remove it, add 1 to the count, and score floor(max(1, I − 3(c−1))·10) |
| `Simulation.FreshFireTakesMaxClicks` | src/components/game/GameEngine.tsx:54-55 | a freshly spawned fire with k clicks survives k − 1 clicks and is gone after exactly k, restoring the pre-spawn list |
| `Simulation.SettleKeepsValid` | src/components/game/GameEngine.tsx:102-119 | the terminal checks stop the session exactly when damage ≥ 100 or the count ≥ 8, change nothing else, and keep the invariant |
| `Simulation.InactiveIsFinal` | src/components/game/GameEngine.tsx:50 | once inactive, spawn, frame, click, suppression and the checks are no-ops, and the countdown moves only the ticket |
| `Simulation.TerminalPersists` | src/components/game/GameEngine.tsx:102-119 | a lost or won session stays lost or won after any step |
| `Simulation.LossStops` | src/components/game/GameEngine.tsx:102-108 | at damage ≥ 100 the checks stop the session, and health reads 0 |
| `Simulation.WinStops` | src/components/game/GameEngine.tsx:111-118 | at 8 fires put out the checks stop the session and keep the score to report |
| `Simulation.DamageExample` | src/components/game/GameEngine.tsx:91 | 50 intensity points over one second add 1.5 damage |
| `GameEngine.Session.constructor` | src/components/game/GameEngine.tsx:32-47 | a new session is the value `Start(level)` |
| `GameEngine.Session.Spawn` | src/components/game/GameEngine.tsx:49-60 | updates the fields as `SpawnStep` does and keeps `Valid()` |
| `GameEngine.Session.Tick` | src/components/game/GameEngine.tsx:78-94 | updates the fields as `TickStep` does (total from the pre-growth list) and keeps `Valid()` |
| `GameEngine.Session.Click` | src/components/game/GameEngine.tsx:152-171 | updates the fields as `ClickStep` does and keeps `Valid()` |
| `GameEngine.Session.Suppress` | src/components/game/GameEngine.tsx:136-150 | updates the fields as `SuppressStep` does and keeps `Valid()` |
| `GameEngine.Session.Countdown` | src/components/game/GameEngine.tsx:121-134 | updates the fields as `CountdownStep` does and keeps `Valid()` |
| `GameEngine.Session.CheckTerminal` | src/components/game/GameEngine.tsx:102-119 | reports lost iff damage ≥ 100 and won iff the count ≥ 8; reports the score only on a win; the session is stopped iff it already was or either holds |

## Where the code departs from the game's evident intent

In each case the model follows the code.

- Damage per frame is computed from the fire list as it was at the last render
  (`firesRef.current`, lines 46 and 88). That list does not include the growth
  that this frame has just scheduled, so damage lags growth by one render.
  `Fires.PreGrowthDamageNoLarger` shows that the code's damage is never
  larger than damage from the grown list would be.
- A click that puts a fire out does not clear the suppression ticket (lines
  152-171). The ticket stays until it is replaced, pressed or expires.
  Expiry on a fire that is already gone only clears the ticket.
- Suppression clears the ticket whatever id it was given, including an absent
  id (line 149), not only when it targeted that fire.
- The countdown is not guarded by the active flag (lines 121-134). After the
  session stops it still counts down and then clears the ticket. The
  suppression it triggers is a no-op.
- Both terminal checks can succeed in the same pass (lines 102-119), so
  `CheckTerminal` can report lost and won together. The model claims no mutual
  exclusion.

## Left out

- Scheduling is left out: `requestAnimationFrame`, `setTimeout`, `setInterval`,
  `performance.now`, the one-second first-spawn delay, the spawn intervals of
  4.5 s and 6 s (lines 25-26, 62-74), and timer cancellation. The host calls
  `Spawn`, `Tick(dt)`, `Countdown` and `CheckTerminal`. In the code the
  terminal effects run after each render.
- How often the host actually calls `Spawn` is left out. `useGameSounds`
  returns a new object on every render
  (src/components/game/useGameSounds.ts:139), so `spawnFire` and the spawn
  effect (lines 60, 74) are rebuilt after every render. Each rebuild cancels
  the pending one-second first-spawn timeout (lines 70-72) and sets
  `activeRef` back to true (line 63). Since every frame renders, no
  fire may ever spawn while frames keep coming. The model takes spawns as
  given.
- React's state batching and re-running of effects are left out. The win and
  lose effects run again whenever their dependencies change, so "each callback
  at most once" is not modelled. `CheckTerminal` is one evaluation of both
  checks.
- `Math.random` is left out. Each draw is a parameter in [0, 1), and x, y and
  the click count are computed from it as the code does.
- Floating point is left out: intensities, damage, positions and dt are exact
  reals, not IEEE doubles.
- Sound calls and the screen-flash timeouts (lines 138-140, 154, 160-164) are
  left out. They are side effects with no effect on the session.
- Rendering is left out: the JSX (lines 175-256), `Machine.tsx`,
  `FireSpot.tsx`, `useGameSounds.ts` and the screen navigation in
  `src/pages/Index.tsx`.
- Unmounting (lines 69-73 clear the active flag) is left out. The session is
  discarded, so it is not a state of the model.
- `GameEngine.Session.Tick`: requires dt ≥ 0, a clock that never runs
  backwards. For a negative dt the code would shrink fires and damage, and
  the invariant would not hold.
