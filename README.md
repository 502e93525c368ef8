# Cyberpunk Graffiti — a verified model of the game core

The game is a multiplication drill. Each question shows `a × b = ?` on a
wall and sprays three graffiti tiles with three numbers. Exactly one of
them is the product. The player aims a water cannon and washes tiles
away. Washing both wrong tiles solves the question. Washing the correct
tile loses the level. Solving a level's last question wins it: the
progress record stores stars, best score and best time, and the next
level is unlocked.

This project models the logic of `game.js` in Dafny and proves what that
logic promises. It has seven modules:

- `Common` (common.dfy): bytes, `Option`, `Math.floor(Math.random() * n)`
  as `Draw`, and `String(n)`.
- `Erosion` (erosion.dfy): the tile surface as values. That is the
  200×130 wear mask, the ink cells taken from the glyph's alpha channel,
  the erosion of one impact, the wash ratio and its one-way latch.
- `Graffiti` (graffiti.dfy): class `GraffitiAnswer`. Its wear mask is an
  `array` that `ApplyWater` and `RecalcWash` update in place, in nested
  loops. Each method is proved equal to its `Erosion` function.
- `Facts` (facts.dfy): `LevelManager`. It covers the level catalogue, the
  in-place Fisher–Yates `Shuffle`, the distractor set (a JavaScript `Set`
  kept as an insertion-ordered sequence), question generation and tile
  placement.
- `Progress` (progress.dfy): class `ProgressManager`. It holds per-level
  records in a map, the unlock frontier and the total score.
- `Round` (round.dfy): the round rules as values. These are the frame
  time, `calcScore`, the water radius, `checkConditions` as `Check`, and
  the pause between questions.
- `GameCore` (game.dfy): class `Game`. It starts levels, enters and
  leaves gameplay, handles the pause and the end-of-level buttons,
  poses questions, runs the hit loop and the win/lose check on each frame,
  and runs the frame loop with its time cap.

Randomness is a parameter, `rand: nat -> real`, with every value in
[0,1). It stands for the successive values of `Math.random` that the core
consumes. `Game.cursor` is the index of the next draw. Each operation
states exactly which draws it uses.

Two behaviours of the code are easy to misread, and the model keeps both:

- `calcScore` is charged against the whole level's elapsed time. That
  time is reset only by `startLevel`; it is not a per-question time.
- `applyWater` returns `true` for any point inside the tile grown by the
  radius. It does so even when the circle touches no painted cell: in
  `Erosion.ApplyWater` the hit flag depends on the range check alone.

## Model

| member | source | states |
|---|---|---|
| Common.Draw | game.js:773 | a draw `u` in [0,1) scaled by `n` gives an index below `n` |
| Common.DrawIsFloor | game.js:840 | the index is the floor of `u*n`: `j <= u*n < j+1` |
| Common.NatToString | game.js:829 | `String(n)`: at least one character, all of them decimal digits, more than one exactly from 10 on |
| Common.NatToStringRoundTrip | game.js:829 | reading the decimal digits of `String(n)` back gives `n` |
| Common.NatToStringInjective | game.js:829 | different numbers get different texts |
| Erosion.TextPixelCount | game.js:472-477 | the ink count, at least 1, equal to the ink count whenever there is ink |
| Erosion.Progress | game.js:532 | the wash ratio `erased / textPixelCount` always lies in [0,1] |
| Erosion.ErasedAtMostInk | game.js:527-531 | the erased count never exceeds the number of ink cells |
| Erosion.ErasedMonotone | game.js:527-531 | wearing cells down can only raise the erased count |
| Erosion.ErasedWhenWiped | game.js:536 | on a wiped mask every ink cell counts as erased |
| Erosion.ErasedWhenIntact | game.js:427 | on an intact mask no cell counts as erased |
| Erosion.ProgressMonotone | game.js:532 | a mask worn down pointwise never has a lower ratio |
| Erosion.ErosionAmount | game.js:505-506 | the erosion of a cell inside the circle lies in [60,150] |
| Erosion.ErosionIsFloor | game.js:505-506 | the erosion is exactly `floor(150 - 90*dist)`, the source's `floor(150*(1-0.6*dist))` |
| Erosion.Worn | game.js:507-509 | a cell never gains paint; what is left is 0 or at least 30; the exact difference when that is at least 30, otherwise 0 |
| Erosion.Impacted | game.js:489-514 | the worn mask after one impact has one cell per mask cell |
| Erosion.ImpactWearsDown | game.js:497-514 | a painted cell in the circle loses at least 60 or drops to 0, and ends at 0 or at 30 or above; every other cell keeps its value |
| Erosion.ImpactedWornDown | game.js:497-514 | no cell ever gains paint from an impact |
| Erosion.ImpactChangesIff | game.js:502-510 | an impact changes the mask exactly when some painted cell lies in the circle |
| Erosion.ImpactOnWiped | game.js:504 | once every cell is wiped, impacts leave the mask as it is |
| Erosion.OutOfRangeTouchesNothing | game.js:486-487 | the range check never discards an impact that would have worn a cell |
| Erosion.Recalc | game.js:523-539 | the ratio is recomputed from the mask; the latch is set exactly when it was set or the ratio reached 0.85; the impact that sets it wipes the mask and marks it for redraw, any other keeps mask and flag |
| Erosion.ApplyWater | game.js:480-521 | the hit flag is exactly the range check; a miss, or a hit that wears no cell, leaves the surface as it is (no recount, no redraw flag), and a changed surface is marked for redraw |
| Erosion.InitialConsistent | game.js:412-427 | a new tile is consistent: ratio 0 with the latch clear |
| Erosion.RecalcStep | game.js:523-539 | recomputing after wear keeps the surface consistent and the ratio non-decreasing; latching wipes the mask at ratio ≥ 0.85 |
| Erosion.ApplyWaterStep | game.js:480-521 | one impact keeps the surface consistent and never adds paint, lowers the ratio or clears the latch; a washed surface stays exactly as it is |
| Erosion.ApplyAllMonotone | game.js:480-539 | over any run of impacts the ratio never falls and a set latch stays set |
| Erosion.NoInkNeverWashes | game.js:477 | a glyph with no ink cell can never be washed, since its count is forced to 1 |
| Graffiti.CountTextPixels | game.js:467-478 | the method's loop fills the alpha channel and counts its ink cells, forcing the count to 1 when there is none |
| Graffiti.CellIndex | game.js:503 | `py*200+px` is a valid cell whose column and row are `px` and `py` |
| Graffiti.BoxCoversCircle | game.js:491-494 | cells outside the swept box lie outside the circle, so clamping the box loses nothing |
| Graffiti.ErodeCircle | game.js:489-514 | the nested loops leave the mask equal to the impact function; `changed` holds exactly when a cell changed |
| Graffiti.ErodeRow | game.js:498-513 | one row of the inner loop erodes that row's cells inside the circle and leaves every other cell unchanged |
| Graffiti.ErodeCell | game.js:499-511 | one cell is eroded, clamped and snapped; every other cell is unchanged |
| Graffiti.GraffitiAnswer.constructor | game.js:402-438 | a fresh full mask, ratio 0, latch clear, rotation from one draw, alpha taken from the glyph picture |
| Graffiti.GraffitiAnswer.ApplyWater | game.js:480-521 | the new state and the hit flag equal `Erosion.ApplyWater` on the old state, and the tile stays consistent |
| Graffiti.GraffitiAnswer.RecalcWash | game.js:523-539 | the counting loop and the latch give `Erosion.Recalc` of the old state |
| Graffiti.GraffitiAnswer.ContainsPoint | game.js:596-600 | the point lies strictly inside the tile's box grown by 20 on every side |
| Graffiti.HitImpliesInRange | game.js:596-600 | with a radius of at least 20, every point the hit test accepts passes the range check of `applyWater` |
| Graffiti.SmallRadiusMissesEdge | game.js:486-487 | with a radius below 20, some point the hit test accepts fails the range check |
| Facts.Shuffled | game.js:838-844 | the Fisher–Yates result keeps the length of its input |
| Facts.FisherYatesPermutes | game.js:838-844 | every swap keeps the multiset, so the shuffle is a permutation |
| Facts.ShuffledPermutes | game.js:838-844 | a shuffle keeps the multiset and the members, and introduces no duplicate |
| Facts.Shuffle | game.js:838-844 | the in-place loop leaves the array as `Shuffled` of its old contents, using one draw per position from the last down to 1 |
| Facts.SetAddMembers | game.js:792-801 | `Set.add` adds exactly `v` and keeps the set duplicate-free |
| Facts.SetDelete | game.js:802 | `Set.delete` removes exactly `v` and keeps the set duplicate-free |
| Facts.DedupMembers | game.js:791-801 | the candidate set holds exactly the ten perturbations, each once |
| Facts.DedupSnoc | game.js:792-801 | each `add` extends the set built so far |
| Facts.Positives | game.js:803-806 | the filter keeps exactly the positive members, in order, without duplicates |
| Facts.WrongPoolMembers | game.js:790-807 | the pool is exactly the positive perturbations other than the product, each once |
| Facts.PoolHasTwo | game.js:798-800 | for a non-negative product, `correct+1` and `correct+10` always survive, so the pool has two members |
| Facts.Wrongs | game.js:808-809 | `slice(0, 2)` of the shuffled pool: at most two distractors |
| Facts.WrongsProperties | game.js:790-810 | at most two distractors, exactly two for a non-negative product; distinct, positive, never the product, each one of the ten perturbations |
| Facts.TwoDistractors | game.js:779-785 | for a positive product the two distractors are positive, distinct and different from the product |
| Facts.GenerateWrongs | game.js:790-810 | the method's result is `Wrongs`, and it uses one draw per shuffled position |
| Facts.AddPerturbations | game.js:791-801 | the ten `add` calls build `Candidates` |
| Facts.DropNonPositive | game.js:803-806 | deleting while iterating leaves the positive members, in order |
| Facts.DropStep | game.js:804-805 | one iteration of the filter loop keeps its invariant |
| Facts.ShuffledAnswers | game.js:781-785 | shuffling the product and two distinct positive distractors gives three distinct positive answers, exactly the one carrying the product being correct |
| Facts.AssembleWellFormed | game.js:778-787 | the assembled question is well formed, and its wrong answers are the distractors |
| Facts.MakeQuestion | game.js:778-787 | the question carries the operands `a`, `b` and the correct value `a*b` |
| Facts.MakeQuestionWellFormed | game.js:778-787 | for positive operands the question is well formed: the correct value is `a*b`, there are three positive pairwise-distinct answers, and `isCorrect` holds exactly for the product |
| Facts.MakeQuestionDistractors | game.js:779-785 | the wrong answers are the generated distractors, hence perturbations of the product |
| Facts.MakeQuestionAssembles | game.js:778-787 | the question is assembled from exactly two distractors, whose draws come before the answers' shuffle |
| Facts.Operands | game.js:771-777 | `a` is the table, or lies in 2..10 for the mixed table; `b` lies in 1..10 |
| Facts.QuestionFor | game.js:770-788 | the correct value is the product of the operands, `b` lies in 1..10, `a` is the level's table or lies in 2..10 for the mixed table, and at least one draw is used |
| Facts.QuestionForShape | game.js:770-788 | the posed question has operands `a` and `b`, correct value `a*b` and text `"a × b = ?"`, and it is well formed |
| Facts.QuestionForOperands | game.js:771-779 | the question for a level is the question for its drawn operands, both at least 1 |
| Facts.GenerateQuestion | game.js:770-788 | the method poses `QuestionFor(level)`, the operands first and then the distractors and the answers' order |
| Facts.Ask | game.js:778-787 | the part after the operands gives `MakeQuestion` |
| Facts.AssembleAnswers | game.js:781-787 | shuffling the three answers in an array gives `Assemble` |
| Facts.ColorsDistinct | game.js:22 | the three graffiti colours are pairwise different |
| Facts.PlaceAnswers | game.js:812-836 | one fresh tile per answer, each placed by its answer (value as text, `isCorrect`), its shuffled zone with jitter, its shuffled colour and its rotation draw; the tiles have pairwise different colours, all from the palette |
| Facts.ShuffleZones | game.js:818-823 | the in-place shuffle of the three zone centres gives `Shuffled(Zones)` |
| Facts.ShuffleColors | game.js:825-826 | the shuffled copy of the palette gives `Shuffled(GraffitiColors)` |
| Facts.ShuffledPalette | game.js:22 | the shuffled palette still has three pairwise different colours, exactly the palette's |
| Facts.DistinctColours | game.js:828-835 | tiles coloured position by position from a duplicate-free palette have pairwise different colours, all from the palette |
| Facts.MapAnswers | game.js:828-835 | the `map` builds one fresh tile per answer, placed by its zone, its colour and three draws each, with distinct tiles and masks |
| Facts.NewTile | game.js:828-835 | a tile for one answer, with the two jitter draws and then the rotation draw |
| Progress.Defaults | game.js:54-61 | level 1 unlocked, no records, total 0, sensitivity 5 |
| Progress.InfoOf | game.js:84-86 | the stored record, or the zero record for a level never completed |
| Progress.Stars | game.js:68 | 3 stars exactly for time < 30 s with score ≥ 800, at least 2 exactly when that holds or score ≥ 400, otherwise 1 |
| Progress.Merge | game.js:69-75 | the record is completed; stars and best score are the larger of old and new; the best time is the new time when none was stored, otherwise the smaller of the two |
| Progress.StarsMonotoneInScore | game.js:68 | a higher score never earns fewer stars |
| Progress.StarsAntitoneInTime | game.js:68 | a faster time never earns fewer stars |
| Progress.SumBest | game.js:79 | no records sum to 0; with no negative best score the sum is not negative |
| Progress.SumBestRemove | game.js:79 | the total of best scores does not depend on the order the records are visited in |
| Progress.SumBestUpdate | game.js:70-79 | replacing one record changes the total by the difference of its best scores |
| Progress.Complete | game.js:67-82 | completing keeps the settings and holds records for exactly the levels recorded before and the completed one |
| Progress.CompleteRecords | game.js:69-75 | the stored stars and best score are the maximum of old and new; the best time is the minimum, or the new time when the old one was 0 or absent; other levels and the settings are unchanged |
| Progress.CompleteUnlocks | game.js:76-78 | the frontier never moves back and never passes level 10; completing an unlocked level below 10 unlocks the next |
| Progress.CompleteTotal | game.js:79 | the total is the sum of best scores after the update; it never drops when the old total was that sum, and it is never negative when no best score is |
| Progress.CompleteThenUnlocked | game.js:76-78 | after completing an unlocked level below 10, the next level is unlocked |
| Progress.ProgressManager.constructor | game.js:40-52 | the stored progress when there is one, otherwise the defaults |
| Progress.ProgressManager.CompleteLevel | game.js:67-82 | the new progress is `Complete` of the old, and the method returns `Stars(score, time)` |
| Progress.ProgressManager.GetLevelInfo | game.js:84-86 | the record of the level, or the zero record |
| Progress.ProgressManager.IsUnlocked | game.js:88 | an id is unlocked when it does not pass the frontier; level 1 always is while the frontier is at least 1 |
| Progress.ProgressManager.UnlockedPrefix | game.js:88 | the unlocked levels form a prefix of the ids |
| Progress.TotalBest | game.js:79 | the reduce over the records yields the sum of their best scores |
| Round.FrameTime | game.js:1233 | the frame time is the elapsed time in seconds, capped at 0.05 s |
| Round.FrameTimeNotClampedBelow | game.js:1233 | there is no lower cap: a timestamp earlier than the last one gives a negative frame time |
| Round.CalcScore | game.js:1345-1347 | the score of a solved question is at least 100, and at most 200 for a non-negative level time |
| Round.CalcScoreAntitone | game.js:1345-1347 | answering later never scores more |
| Round.CalcScoreBaseOnly | game.js:1345-1347 | after 19.8 s of level time only the base 100 remains |
| Round.Radius | game.js:1280-1281 | the radius is 18 plus twice the sensitivity, a stored 0 falls back to 5, and the radius is at least 20 |
| Round.Check | game.js:1298-1343 | the score never drops, the count grows by at most one, the clock is untouched, a washed correct tile always ends the level lost, and an ended level stays ended |
| Round.Elapse | game.js:1247-1256 | the level clock advances by the frame time; during a pause the timer drops by exactly the frame time and the pause goes on exactly while time is left; score, count, outcome and praise do not move |
| Round.CheckLossFirst | game.js:1300-1312 | a washed correct tile ends the level as lost, even when both wrong tiles were washed in the same frame; score and count stay unchanged |
| Round.CheckIdle | game.js:1315-1316 | without a washed correct tile or two washed wrong ones, nothing changes |
| Round.CheckSolved | game.js:1315-1342 | solving adds one to the count and `calcScore` (100 to 200) to the score; the level is won exactly when the count reaches the level's questions; otherwise a 2.2 s pause with praise after an even count, or a 1.2 s pause without; a praise draw is taken exactly then |
| Round.CheckKeepsCount | game.js:1316-1328 | a level in progress never counts past its questions, and reaching the number of questions wins it |
| Round.PauseEnds | game.js:1251-1261 | once the frame times add up to the remaining pause, the pause is over; score, count and outcome are untouched meanwhile |
| Round.PauseLasts | game.js:1251-1256 | while the frame times stay below the timer the pause goes on, the timer down by exactly their sum and the level clock up by it; score and count are untouched |
| GameCore.FindLevel | game.js:1126 | `find` returns the first level with the id, and returns none exactly when no level has it |
| GameCore.CatalogIds | game.js:9-20 | ids 1 to 10 find the catalogue's entries in order; every other id finds nothing |
| GameCore.CatalogTables | game.js:9-20 | every catalogue level has a non-negative table and at least five questions |
| GameCore.Strike | game.js:1282-1292 | the mask keeps its size, and only an unwashed tile containing the aim point can change |
| GameCore.StrikeStep | game.js:1282-1292 | a spray keeps the tile consistent, never adds paint or lowers the ratio, and skips a washed tile; with a radius of at least 20 every sprayed tile is hit |
| GameCore.WrongsWashedOfThree | game.js:1315 | among three tiles with one correct, the count of washed wrong tiles is 2 exactly when both wrong tiles are washed |
| GameCore.OneCorrect | game.js:781-787 | a well-formed question has exactly one correct answer, showing the product, and its answers have different texts |
| GameCore.ShownTiles | game.js:828-835 | three unwashed tiles showing a well-formed question have one correct tile showing the product, different texts, and nothing washed |
| GameCore.Game.PosedTiles | game.js:1170-1178 | a freshly posed question shows three unwashed tiles with different texts, exactly one correct |
| GameCore.Game.ShownQuestion | game.js:1172-1177 | the tiles placed for a well-formed question show it: one correct tile with the product, different texts, nothing washed |
| GameCore.Game.constructor | game.js:883-911 | a game outside gameplay with the loop not started, no level, question or tiles, all counters zero and progress loaded from storage or the defaults |
| GameCore.Game.StartLevel | game.js:1124-1144 | looks the level up, resets count, score, time and end flag, enters gameplay, starts the frame clock at `now` on the first entry only, and poses the first question when the level exists |
| GameCore.Game.EnterGameplay | game.js:930-931 | `setState('gameplay')` with `onEnterGameplay`: frames may run; the first entry starts the loop with the frame clock at `now`, later entries keep the clock; nothing else changes |
| GameCore.Game.LeaveGameplay | game.js:929-935 | `setState` with another screen: frames stop running; nothing else changes |
| GameCore.Game.HidePause | game.js:1226-1229 | the pause is lifted; the frame clock and everything else stay |
| GameCore.Game.Restart | game.js:1008-1011 | the restart button lifts the pause and starts the current level again, with the same guarantees as `StartLevel` |
| GameCore.Game.NextLevel | game.js:991-997 | below level 10 the next level is started, with the same guarantees as `StartLevel`; after level 10 the game leaves gameplay and nothing else changes |
| GameCore.Game.Quit | game.js:1012-1015 | the quit button lifts the pause and leaves gameplay; the level, the question, the tiles and the counters stay |
| GameCore.Game.NextQuestion | game.js:1170-1178 | with level data, poses `QuestionFor(level)` from the next draw and places its three tiles; without, changes nothing |
| GameCore.Game.Pose | game.js:1172-1177 | the question is `QuestionFor(level)` and its three tiles are placed from the following draws; tiles and masks are fresh and distinct |
| GameCore.Game.PlaceTiles | game.js:1173-1177 | `placeAnswers` on the game's canvas places three valid, fresh and distinct tiles, 13 draws after the question's |
| GameCore.Game.Install | game.js:1172-1173 | the assignments replace the question and the tiles and keep the game valid; nothing else changes |
| GameCore.Game.Spray | game.js:1282-1292 | every tile ends in the state `Strike` gives for its old state: unwashed tiles containing the aim point are sprayed, the rest untouched |
| GameCore.Game.SprayOne | game.js:1283-1291 | one tile is sprayed; the others keep their state |
| GameCore.Game.AnyCorrectWashed | game.js:1300-1301 | the first loop finds a washed correct tile exactly when one exists |
| GameCore.Game.CountWrongsWashed | game.js:1315 | the filter counts the washed wrong tiles |
| GameCore.Game.CheckConditions | game.js:1298-1343 | the new round state is `Check` of the old one on the washed tiles; the praise draw is taken exactly when praise is shown; the progress records the level exactly when its last question is solved |
| GameCore.Game.Resolve | game.js:1302-1342 | on the counted flags the branches give `Check` of the old round state, take the praise draw exactly when praise is shown, and record the level exactly when its last question is solved |
| GameCore.Game.Update | game.js:1246-1296 | both clocks advance; during a pause only the timer runs, the tiles keep their state, and the next question is posed once it runs out; otherwise the tiles are sprayed when shooting, then the level is checked |
| GameCore.Game.EndPause | game.js:1251-1262 | during the pause, the next question is posed exactly when the timer has run out; otherwise the question, the tiles and the draws stay |
| GameCore.Game.Play | game.js:1264-1295 | when shooting, every tile takes the spray `Strike` gives; then the round state, the draws and the progress are the ones `Check` and `Complete` give |
| GameCore.Game.TogglePause | game.js:1214-1224 | pausing flips the flag; resuming restarts the frame clock |
| GameCore.Game.GameLoop | game.js:1232-1244 | the frame time is the capped time since the last frame; the frame runs exactly in gameplay, unpaused and before the level has ended; otherwise nothing but the clock changes; the pause flag, the screen and the level never change |

## Left out

- Audio (`AudioManager`), input listeners (`InputManager`), all canvas rendering (`WallRenderer`, `renderGraffiti`, `updateOutput`, `draw`, `render`, the crosshair): these are foreign calls with no logic to verify. Aim point and trigger are parameters of `Update` and `GameLoop`; the rendered glyph picture is the parameter `glyph`.
- `WaterSystem` and its particles, the coloured drips, and the `Math.random() < 0.1` splash draw in the hit loop: these are cosmetic. The draws they make are not part of the modelled random stream.
- `ProgressManager.load`, `save` and JSON: storage becomes the optional value handed to the constructor, and saving is not modelled.
- DOM screens, the HUD and timer text, the pause overlay, `showVictory`'s display and `resizeCanvas`: these are display only. The canvas size is a constant parameter. The end screen is kept as `RoundState.outcome`.
- `setState` is modelled only for what the core reads: `EnterGameplay` for the gameplay screen (with `onEnterGameplay`'s first-entry clock start) and `LeaveGameplay` for every other screen. Stopping the water sound is audio, and clearing `input.isShooting` is the host's business, since the trigger is the per-frame `shooting` parameter.
- The `setTimeout` delays after a lost or won level (1.2 s to the game-over screen, 1 s to the victory screen) are timers of the host: it calls `LeaveGameplay` when one fires. Until then `gameEnded` keeps the frames from running, which the model states.
- The menu and back buttons are `LeaveGameplay` calls by the host, the level-select buttons and `btn-retry` are `StartLevel` calls; the level-select screen's locked-level check is `IsUnlocked`.
- Floating point: numbers are exact reals, and the erosion's `sqrt` is replaced by an exact squared comparison. Rounding differences between the two are not modelled.
- The praise message texts: only the drawn index into the ten messages is kept.
- `LevelData.timeLimit` is carried but never read, as in the source.
- `GameCore.Game.Update`: requires level data. A level id missing from the catalogue starts gameplay without data in the source, which throws at the first solved question.
- `Facts.GenerateQuestion`: requires a non-negative table, which every catalogue level has (`GameCore.CatalogTables`). A negative table would make `Math.random` ranges and the distractor count differ.
- `GameCore.Game.GameLoop`: states the frame time, the guard and the elapsed time of the frame that runs. The rest of the frame is `Update`'s contract.
- Graffiti rotation is stored but used only for drawing.
- Erosion.Impacted: its own contract gives only the mask's size; what each cell becomes is stated by `ImpactWearsDown`, `ImpactedWornDown` and `ImpactChangesIff`.
- Facts.Shuffled: its own contract gives only the length; that the result is a permutation is `ShuffledPermutes`.
- Facts.Wrongs: its own contract bounds the count; that there are exactly two distinct, positive perturbations other than the product is `WrongsProperties`.
- Facts.MakeQuestion: its own contract gives the operands and the product; the answers are stated by `MakeQuestionWellFormed` and `MakeQuestionDistractors`.
- Facts.QuestionFor: its own contract gives the operand ranges; the text and well-formedness are `QuestionForShape`.
