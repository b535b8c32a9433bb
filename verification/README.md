# Click-and-Shoot target spawner, modelled in Dafny

This project models the per-target bookkeeping of the Click-and-Shoot minigame
(`public/src/utils/spawnTargets.ts`). It is a pure state machine over an
immutable scene record. The record holds the game-over flag, the score and
score label, the correct target id, and the two list-valued slots of the
scene's data store: `activeTargets` (sprites) and `activeTargetsTimer` (ring
graphics). Each spawned target keeps its own record: texture, position,
countdown ring, pending callbacks and status (`Live`, `Fading`, `Destroyed`).

Modules:

- `ActiveSet` (`active_set.dfy`): objects compared by identity (`Sprite(k)`,
  `Overlay(k)` for the k-th spawn) and the two slots with `Get`/`Set`. It also
  holds `indexOf`, `splice(i, 1)` and the removal helper
  `RemoveTargetFromActiveTargets`, with the laws that describe it.
- `Countdown` (`countdown.dfy`): the 30 ms tick, the remaining fraction
  `1 - elapsed/3000`, the arc sweep `360 * percent`, and the ring destroyed
  once `elapsed >= 3000`.
- `ScoreText` (`score_text.dfy`): the label `"Score: " + score` and a reader
  for it. The reader is used to show that the label gives back the score.
- `SpawnTargets` (`spawn_targets.dfy`): one transition per callback (spawn,
  tick, pointer-down, timeout, end of fade-out), the event trace `Run`, and
  the invariant `Valid` that every step keeps.

The random id and the free-position finder are inputs of a spawn event. The
game-over routine is the flag transition `GameOver`. Code outside the spawner
may choose a new correct id at any time; that is the event `CorrectIdChosen`.
Callbacks form an arbitrary sequential trace. A callback the engine would not deliver is no
step: a removed tick event, a click on a destroyed sprite, a second timeout.

What the code does, as the model shows it:

- Overlays are never removed from `activeTargetsTimer`. The helper is always
  given the sprite list and recomputes `indexOf` on that same list for each
  slot. After the first splice the second lookup finds nothing, so only the
  `activeTargets` slot is republished. The ring list therefore holds every
  ring ever created (`RingListNeverShrinks`), and the two lists drift apart
  after the first hit (`ListsDriftApart`). Both removal calls
  (`spawnTargets.ts:66` and `:91`) pass both slot names, `"activeTargets"` and
  `"activeTargetsTimer"`, which shows the lists were meant to be kept parallel,
  with a hit removing from both. The code does not do that, and the model
  follows the code.
- The helper takes out min(c, number of slots) of the c occurrences of the
  target, so a sprite listed more than once loses more than one occurrence
  under the two-slot call. In every reachable state a sprite is listed at
  most once (`ListedIffLive`). So there it takes out at most one, and exactly
  one while the target is live. A second click or a timeout during the fade
  finds the sprite already gone and takes out nothing (`RemovalOfAbsent`).
- The tick event is stopped only by a correct click (`OnlyHitStopsTick`). On
  the timeout path and the wrong-click path it keeps firing past 3000 ms.
- A scored target stays clickable while it fades out. A second click in that
  window scores again (`ClickDuringFadeScoresAgain`).
- A wrong click does not remove the target. Only the hit and timeout paths
  unlist it.

## Model

| member | source | states |
|---|---|---|
| SpawnTargets.SpawnTargets | public/src/utils/spawnTargets.ts:4-9 | with the game-over flag set, or with no free position, the world is unchanged; otherwise exactly one target textured `"target" + id` is added, and one sprite and one ring are appended to the two lists |
| SpawnTargets.SpawnTarget | public/src/utils/spawnTargets.ts:11-26 | no free position leaves everything unchanged; otherwise each list grows by exactly one entry at its end (the new sprite, the new ring), earlier entries stay in place and in order, and nothing else in the scene changes |
| SpawnTargets.NoSpawnAfterGameOver | public/src/utils/spawnTargets.ts:5 | once the game is over it stays over, and no trace of callbacks spawns another target |
| Countdown.TicksFromSpawn | public/src/utils/spawnTargets.ts:38-51 | after n ticks the ring has counted 30 n ms, is still ticking, and is destroyed exactly when n >= 100 |
| Countdown.FirstDestroyedOnTick100 | public/src/utils/spawnTargets.ts:46-48 | the ring survives tick 99 and is destroyed on tick 100 |
| Countdown.Tick | public/src/utils/spawnTargets.ts:41-49 | a removed tick event changes nothing; a live one adds 30 ms, keeps a destroyed ring destroyed, and destroys the ring exactly when the elapsed time reaches 3000 ms |
| Countdown.Percent | public/src/utils/spawnTargets.ts:43 | the remaining fraction is 1 exactly at 0 ms and 0 exactly at 3000 ms, and it lies in [0, 1] exactly up to 3000 ms; `SweepAfterTicks` and `HalfwaySweep` give its values along the countdown |
| Countdown.SweepDegrees | public/src/utils/spawnTargets.ts:34 | the arc's end angle is 360 degrees exactly at 0 ms and 0 exactly at 3000 ms, and it lies in [0, 360] exactly up to 3000 ms; `SweepAfterTicks` and `HalfwaySweep` give its values along the countdown |
| Countdown.SweepAfterTicks | public/src/utils/spawnTargets.ts:34-44 | in exact real arithmetic, the arc drawn on tick n ends at 360 - 3.6 n degrees, and is non-negative exactly up to tick 100 |
| Countdown.HalfwaySweep | public/src/utils/spawnTargets.ts:34-43 | at 1500 ms, reached on tick 50, the arc is exactly 180 degrees |
| Countdown.PercentDecreasing | public/src/utils/spawnTargets.ts:43 | the remaining fraction strictly decreases as elapsed time grows, in both directions |
| SpawnTargets.TickTarget | public/src/utils/spawnTargets.ts:39-51 | one firing of target k's tick event advances its ring by one countdown tick and changes nothing else: not the scene, not the other targets, not target k's other fields |
| SpawnTargets.TickEventsDriveRing | public/src/utils/spawnTargets.ts:39-51 | n firings of a target's tick event advance its ring exactly as n countdown ticks do and change nothing else |
| SpawnTargets.SpawnedTargetTicks | public/src/utils/spawnTargets.ts:38-48 | for a freshly spawned target, n tick events give elapsed = 30 n and a destroyed ring exactly when n >= 100 |
| SpawnTargets.TextureFor | public/src/utils/spawnTargets.ts:8 | the texture is `"target"` followed by the drawn id, and the id can be read back after that prefix |
| SpawnTargets.IsCurrentlyCorrect | public/src/utils/spawnTargets.ts:55 | a texture is a hit exactly when it is the texture a spawn gives the correct id, and then the correct id follows the `"target"` prefix; `CorrectIffSameId` and the first clause of `PointerDown` use it |
| SpawnTargets.CorrectIffSameId | public/src/utils/spawnTargets.ts:54-55 | a spawned target is a correct hit exactly when the id it was spawned with equals the correct id |
| SpawnTargets.PointerDown | public/src/utils/spawnTargets.ts:53-85 | scores exactly when the texture is `"target" + correctTargetID`; a hit adds exactly 1 to the score, sets the label to `"Score: "` followed by the new score (so it reads back as that score), stops the tick event, destroys the ring, starts the fade and unlists the sprite while leaving the ring list alone; the target's texture, position, pending timeout and elapsed time, the other targets and the other scene fields are unchanged; a miss hands the unchanged world to the game-over routine |
| SpawnTargets.OnlyHitStopsTick | public/src/utils/spawnTargets.ts:63 | a scheduled tick event is removed by an event exactly when that event is a correct click on its target that has not been destroyed; timeouts, wrong clicks and fades leave it running |
| SpawnTargets.GameOver | public/src/utils/spawnTargets.ts:82-84 | the game-over routine called by a wrong click sets the game-over flag; no other scene field changes |
| SpawnTargets.FadeComplete | public/src/utils/spawnTargets.ts:76-78 | the end of the second tween destroys target k and clears its pending fade; the scene, the other targets and target k's other fields are unchanged |
| SpawnTargets.ClickReadsCurrentId | public/src/utils/spawnTargets.ts:53-55 | after the correct id is changed, a click scores exactly when the target's texture names the new id |
| SpawnTargets.ScoreStep | public/src/utils/spawnTargets.ts:57-60 | no event changes the score except a correct click, which adds exactly 1 |
| ScoreText.ScoreLabel | public/src/utils/spawnTargets.ts:61 | the label starts with `"Score: "` and has text after it; `ScoreLabelRoundTrip` shows that the text after it reads back as the score |
| ScoreText.ScoreLabelRoundTrip | public/src/utils/spawnTargets.ts:61 | the label `"Score: " + n` reads back as n |
| ScoreText.ScoreLabelInjective | public/src/utils/spawnTargets.ts:61 | two scores give the same label exactly when they are equal |
| ScoreText.NatDecimalRoundTrip | public/src/utils/spawnTargets.ts:61 | the decimal rendering of a natural number parses back to that number |
| ScoreText.IntDecimalRoundTrip | public/src/utils/spawnTargets.ts:61 | the rendering of an integer, with a minus sign for negatives, parses back to that integer |
| SpawnTargets.Timeout | public/src/utils/spawnTargets.ts:87-96 | on an already destroyed target it changes nothing but the spent timeout; otherwise it unlists the sprite, leaves the ring list alone, destroys the ring and the target, and changes no other scene field; the tick event is not removed and a pending fade is kept, so the tick goes on firing after the timeout |
| SpawnTargets.Unlist | public/src/utils/spawnTargets.ts:91 | the two-slot removal call, here and at line 66, changes only the data store; on a sprite listed at most once it filters the sprite out of `activeTargets` and keeps `activeTargetsTimer` |
| ActiveSet.IndexOf | public/src/utils/spawnTargets.ts:106 | returns -1 exactly when the object is absent; otherwise the index holds the object and no earlier index does |
| ActiveSet.RemoveTargetFromActiveTargets | public/src/utils/spawnTargets.ts:99-113 | the helper never lengthens the list; the list is modelled as a value, so a slot it is not given keeps its value; in the source the list is the array stored under `activeTargets`, and `UnlistedData` stores the spliced list back there; its removal laws are `RemovalOfAbsent`, `RemovalKeepsOthers`, `RemovalCount` and `RemoveSingleOccurrence` |
| ActiveSet.Splice | public/src/utils/spawnTargets.ts:109 | `splice(index, 1)`: the list loses exactly the element at the index; the elements before it stay in place, and the ones after it move down by one |
| ActiveSet.Data.Set | public/src/utils/spawnTargets.ts:110 | `scene.data.set`: the named slot holds the new list, and the other slot keeps its value |
| ActiveSet.SpliceAtIndexOf | public/src/utils/spawnTargets.ts:106-109 | splicing at the found index removes one occurrence and keeps all other elements in their relative order |
| ActiveSet.RemovalOfAbsent | public/src/utils/spawnTargets.ts:106-108 | an absent target leaves the list and every slot unchanged, whatever the slots |
| ActiveSet.RemovalKeepsOthers | public/src/utils/spawnTargets.ts:105-111 | only occurrences of the target are removed; all other elements keep their relative order |
| ActiveSet.RemovalCount | public/src/utils/spawnTargets.ts:105-111 | of c occurrences of the target, exactly min(c, number of slots) are removed |
| ActiveSet.RemoveSingleOccurrence | public/src/utils/spawnTargets.ts:105-111 | with the target listed once, that occurrence is removed and only the first slot is republished, whatever the rest of the slot list |
| ActiveSet.OnlyFirstSlotRepublished | public/src/utils/spawnTargets.ts:105-111 | for the call with `["activeTargets", "activeTargetsTimer"]` and a target listed once, `activeTargets` gets the shrunk list and `activeTargetsTimer` keeps its old list |
| ActiveSet.DuplicateLeaksIntoTimerSlot | public/src/utils/spawnTargets.ts:106-110 | a target listed twice loses both occurrences, and the sprite list is stored under `activeTargetsTimer` |
| ActiveSet.RemovalIdempotent | public/src/utils/spawnTargets.ts:106-108 | when there are at least as many slots as occurrences, removing a second time is a no-op |
| SpawnTargets.StepKeepsValid | public/src/utils/spawnTargets.ts:21-111 | every event keeps the invariant: `activeTargets` lists exactly the live targets in spawn order, and `activeTargetsTimer` lists every ring ever created; a fade is pending only on a target that is not live and whose tick event was removed, which only a correct click does (`OnlyHitStopsTick`); a fading target always has its fade pending |
| SpawnTargets.Step | public/src/utils/spawnTargets.ts:4-96 | every event, a callback or a new correct id, adds at most one target, and only a spawn while the game is not over adds one; no event clears the game-over flag, changes a target's texture or position, or brings a destroyed target back |
| SpawnTargets.RunKeepsValid | public/src/utils/spawnTargets.ts:21-111 | every trace of callbacks keeps that invariant |
| SpawnTargets.ListedIffLive | public/src/utils/spawnTargets.ts:63-94 | in a reachable world a sprite is listed exactly when its target is live, and never more than once, so a scored or timed-out target is gone from `activeTargets` |
| SpawnTargets.RingListNeverShrinks | public/src/utils/spawnTargets.ts:24-111 | no callback removes or reorders anything already in `activeTargetsTimer` |
| SpawnTargets.ListsDriftApart | public/src/utils/spawnTargets.ts:21-66 | spawning one correct target and clicking it leaves `activeTargets` empty while `activeTargetsTimer` still lists its ring |
| SpawnTargets.ClickDuringFadeScoresAgain | public/src/utils/spawnTargets.ts:53-81 | clicking a correct target twice before its fade-out ends scores 2, and the label shows 2 |

## Left out

- Rendering (`clear`, `lineStyle`, `arc`, `strokePath`, the colour, the 44.5 radius and the 12-pixel line) is engine drawing. Only the sweep angle is modelled.
- Sprite construction, `setInteractive` and the 100 x 100 display size are engine calls with no logic. A position is just carried in the target record.
- The two tweens (scale 0.3 over 50 ms, then alpha 0 over 100 ms) are collapsed into one pending "fade finished" callback that destroys the target. A second click during the fade starts another tween chain. The model keeps one pending flag for this, which is enough because destroying twice changes nothing.
- `getRandomTargedId` and `findFreeRandomPosition` (with its minimum distance of 100) are not part of this model. Their results are inputs of the spawn event.
- `gameOver` is not part of this model. It is modelled only as setting the game-over flag. Its other effects, such as freezing timers, are not modelled, so a timeout can still fire after a wrong click.
- Real time is not modelled. Callbacks are an arbitrary sequential trace, so the model does not tie the 3000 ms timeout to the 100th tick.
- Floating point is not modelled. The fraction and the sweep are exact `real`s. JavaScript computes them in IEEE doubles, which differ from the exact values at most ticks: at 120 ms the sweep is 345.59999999999997, not 345.6. The exact and double values agree at 0, 1500 and 3000 ms, and the sign of the sweep is the same. So `SweepAfterTicks`'s 360 - 3.6 n is exact only in the real-valued model.
- The score is an unbounded integer. In JavaScript it is a double, so from 2^53 on `score + 1` no longer adds 1 (2^53 + 1 rounds back to 2^53). There the "adds exactly 1" of `PointerDown` and `ScoreStep` is not what the source does. The number-to-string conversion is modelled only for integers, not for exponent notation at 1e21 and above.
- `correctTargetID` and the drawn id are their template-literal renderings (strings).
- Code outside the spawner writes to the scene's data store. Only two of those writes are modelled: a new correct id (`CorrectIdChosen`) and the game-over flag. A reset of `score` or of the two lists from outside is not an event of the model.
- The array captured at spawn is assumed to be the array stored under `activeTargets`. After `DuplicateLeaksIntoTimerSlot` the two slots would share one array. The model does not follow that sharing, because no reachable state lists a sprite twice.
- SpawnTargets.PointerDown: the effect on the lists is stated only for a sprite listed at most once. `ListedIffLive` shows this holds in every reachable world, and `RemovalCount` covers the general case.
- SpawnTargets.Timeout: the effect on the lists is stated only for a sprite listed at most once, for the same reason as above.
