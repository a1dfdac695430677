# harvRTS core in Dafny

A verified model of the game logic of harvRTS, a small real-time strategy
game in which the player farms plots of land and harvests the crops into
units. Four parts of the game are modelled:

- **The plot economy** (`plots.dfy`, module `Plots`). The game has four
  fixed plots. Each one is `Locked`, `Empty`, `Growing(crop, progress)` or
  `Ready(crop, progress)`. Clicking a plot opens a radial menu, the *plot
  circle*, whose buttons are the actions the plot's state allows. The
  actions are unlock, plant, cancel, harvest and compost. Unlocking and
  planting are paid from the *compost* balance, and only when the balance
  covers the cost. A per-frame timer ripens growing plots and decays ripe
  ones. Both timer transitions wait while any plot circle is open. The
  class `Farm` holds the plots, the balance, the open circle and the queue
  of chosen actions. Its methods follow the game's systems: `PlotClick`,
  `RemovePlotCircle`, `PlotButtonClick`, `HandlePlotEvents` and
  `UpdatePlot`.
- **Unit selection** (`selection.dfy`, module `Selection`). The drag box
  follows the left mouse button. Each frame a pass updates every selectable
  entity's `hovered` and `selected` flags and the visibility of its
  indicator children. The pass depends on which entities the box touches,
  whether the box is a single click, whether a selection was confirmed, and
  whether shift is held.
- **Health** (`health.dfy`, module `Health`). Signed health changes are
  applied in order and clamped to `[0, max]`. An entity at zero loses its
  Health and is marked Dead. Damage starts a red flash.
- **Units** (`units.dfy`, module `Units`). A Move or AttackMove order ends
  when the unit is within 4.0 of the destination. Carrot harvests spawn
  units.

`geometry.dfy` holds the vectors and the squared distance. `options.dfy`
holds the `Option` type.

How the model represents the code:

- Entities are indices into arrays or sequences, in query iteration order.
- Physics and hit-test queries become inputs: which entities the box
  touches, which plot or button is under the cursor, and whether a press
  lies outside the circle.
- Mouse and keyboard states become boolean inputs. `shift` stands for
  "left or right shift held".
- Positions and timer progress are `real`. The code only adds, divides by
  constants and compares them.
- Distance checks compare squared distances.
- The compost balance is a `nat`.
- A panic in the event handler is the result `ok == false` of
  `HandlePlotEvents`. The two panics are an `unwrap` on a missing circle and
  an `unreachable!()` arm.

Behaviour of the code that the model keeps as written:

- An illegal plot action panics (`unreachable!()`) rather than being
  ignored.
- While any plot circle is open, every plot's timer transition waits, not
  only the transition of the plot the circle belongs to.
- A carrot harvest spawns exactly one unit, at the plot's position.
- Units have only the arrival rule; the per-state update does nothing in
  every state.
- Harvest and Compost events carry a crop. The handler ignores it and uses
  the plot's own crop.

## Model

| member | source | states |
|---|---|---|
| `Geometry.DistSq` | src/unit.rs:42 | The squared distance used for "within radius" checks is non-negative and is zero for equal points |
| `Plots.Stats` | src/plot.rs:486-490 | The per-crop lookup gives positive growing and decay times on a valid configuration. Carrot times are the 3.0-second constants |
| `Plots.OfferedActions` | src/plot.rs:231-341 | The plot circle offers Unlock on a locked plot, Plant of each of the three crops on an empty plot, Cancel on a growing plot, and Compost and Harvest of the plot's own crop on a ripe plot. Every offered action is one the handler takes |
| `Plots.Handle` | src/plot.rs:472-527 | The handler takes an action exactly when its state's arm is not `unreachable!()`. The balance drops only through a guarded debit on a locked or empty plot, and that debit also moves the plot on. A harvest event comes only from a ripe plot, carries that plot's crop and leaves the plot Empty |
| `Plots.Accepts` | src/plot.rs:472-527 | The actions whose arm in the handler is not `unreachable!()`. Its meaning is stated by `Plots.Handle` and `Plots.MenuMatchesHandler` |
| `Plots.MenuMatchesHandler` | src/plot.rs:472-527 | Every offered action is accepted, and every accepted action has the same effect as some offered button. Menu and handler agree exactly, up to the ignored crop inside Harvest and Compost |
| `Plots.UnlockSpec` | src/plot.rs:473-479 | Unlock on a locked plot with balance >= unlock cost gives Empty and debits exactly that cost. With less, plot and balance are unchanged |
| `Plots.PlantSpec` | src/plot.rs:484-496 | Plant(crop) on an empty plot that can pay gives Growing(crop, 0) and debits that crop's cost. Otherwise plot and balance are unchanged |
| `Plots.CancelSpec` | src/plot.rs:501-502 | Cancel on a growing plot gives Empty without any refund |
| `Plots.HarvestSpec` | src/plot.rs:507-514 | Harvest on Ready(crop, _) gives Empty, emits one harvest of the plot's crop and leaves the balance alone |
| `Plots.CompostSpec` | src/plot.rs:515-522 | Compost on Ready(crop, _) gives Empty and credits the crop's full compost value |
| `Plots.TickPlot` | src/plot.rs:564-593 | While a circle is open, a frame changes no plot's offered menu and credits nothing. A frame credits compost only when a ripe plot decays to Empty |
| `Plots.TickGrowingSpec` | src/plot.rs:568-577 | A frame adds delta / grow time to growing progress. At progress >= 1 with no circle open the plot becomes Ready(crop, 0); otherwise it stays Growing with the new progress |
| `Plots.TickReadySpec` | src/plot.rs:578-591 | A frame adds delta / decay time to ripe progress. At >= 1 with no circle open the plot becomes Empty and credits half the compost value, rounded down |
| `Plots.TickLeavesIdlePlots` | src/plot.rs:567 | Locked and empty plots are untouched by the timer |
| `Plots.ProgressNeverDecreases` | src/plot.rs:568-591 | With a non-negative frame time, a plot that stays Growing or stays Ready keeps its crop and its progress does not go down. The only drop in progress is a Growing plot ripening into Ready(crop, 0) |
| `Plots.CarrotRipensAfterGrowTime` | src/plot.rs:570-575 | A freshly planted carrot is ripe after 3 seconds of frames with no circle open, here split into two frames |
| `Plots.TotalCredit` | src/plot.rs:584-589 | The compost one frame of decay credits over all plots. Its properties are stated by `Plots.FrozenFrameCreditsNothing` and `Plots.CreditBoundedByCompostValues` |
| `Plots.FrozenFrameCreditsNothing` | src/plot.rs:584-591 | While a circle is open, one frame credits no decay compost over all plots |
| `Plots.CreditBoundedByCompostValues` | src/plot.rs:584-589 | One frame's decay credit never exceeds the total compost value of the ripe plots |
| `Plots.Farm.Init` | src/plot.rs:75-160 | The game starts with three locked plots at (32,0), (0,16) and (-32,0), then an empty plot at (0,-16), no open circle and no queued actions |
| `Plots.Farm.PlotClick` | src/plot.rs:172-346 | A left release on a plot opens a circle with that plot's offered actions. This happens only when no selectable is hovered and no circle is open; otherwise nothing changes |
| `Plots.Farm.RemovePlotCircle` | src/plot.rs:357-368 | A left press outside the open circle closes it. Nothing else changes |
| `Plots.Farm.PlotButtonClick` | src/plot.rs:383-396 | A left release on a button queues that button's action and removes the button. The queued action is one the handler accepts for the current state of the circle's plot |
| `Plots.Farm.HandlePlotEvents` | src/plot.rs:464-528 | Draining the queue closes the circle and applies the first action to the circle's plot, emitting the harvest event at the plot's position. It panics (`ok` false) exactly when there is no circle, the action is not accepted, or a second action finds the circle already taken |
| `Plots.Farm.UpdatePlot` | src/plot.rs:564-594 | Every plot becomes its timer successor. The balance grows by the total decay credit. The circle's menu stays valid |
| `Plots.Farm.ChooseAction` | src/plot.rs:383-527 | Clicking a button of the open circle and then handling the click never panics. It closes the circle and applies the chosen action |
| `Selection.IsSingleSelect` | src/selection.rs:90-99 | The box counts as a click when both extents are below 5. Stated as a condition on the corners by `Selection.SingleSelectIffSmallBox` |
| `Selection.Chosen` | src/selection.rs:120-122 | An entity takes the hit branch when the box touches it and, for a click, no earlier entity was touched. Its consequences are stated by `Selection.SingleSelectHoversFirstHit` |
| `Selection.Refresh` | src/selection.rs:122-142 | The new hovered and selected flags of one entity. Stated case by case by `Selection.BoxSelectReplacesSelection`, `Selection.ClickSelectsOnlyFirstHit`, `Selection.ShiftSelectToggles` and `Selection.UnconfirmedOnlyHovers` |
| `Selection.ShowIndicator` | src/selection.rs:144-153 | An indicator child shows its entity's flag. Stated by `Selection.IndicatorsShowFlags` |
| `Selection.RefreshEntity` | src/selection.rs:120-153 | One entity's flags and children after the pass. Stated by `Selection.IndicatorsShowFlags` |
| `Selection.Pass` | src/selection.rs:120-157 | The whole pass keeps the number of entities. `Selection.Update` is proved equal to it, and the selection lemmas state what it does |
| `Selection.SingleSelectIffSmallBox` | src/selection.rs:90-99 | The box is a single click exactly when its corners differ by less than 5 on both axes. A zero-size box is a click |
| `Selection.SingleSelectHoversFirstHit` | src/selection.rs:120-157 | In single-select mode, the only entity hovered after the pass is the first touched entity in iteration order |
| `Selection.BoxSelectReplacesSelection` | src/selection.rs:123-139 | A box selection confirmed without shift selects and hovers exactly the touched entities, and deselects every other entity |
| `Selection.ClickSelectsOnlyFirstHit` | src/selection.rs:121-139 | A click confirmed without shift selects only the first touched entity. Later touched entities are deselected |
| `Selection.ShiftSelectToggles` | src/selection.rs:122-139 | A selection confirmed with shift, box or click, toggles the chosen entities (every touched one for a box, the first touched one for a click), hovers exactly those, and leaves every other entity's selection as it was |
| `Selection.UnconfirmedOnlyHovers` | src/selection.rs:120-142 | Without a confirmation, no entity's selection changes, and hovered is true exactly for the chosen entities |
| `Selection.IndicatorsShowFlags` | src/selection.rs:144-153 | After the pass each selection indicator shows the entity's selected flag and each hover indicator shows its hovered flag |
| `Selection.Update` | src/selection.rs:87-158 | The imperative pass, with its loop-carried single-select state, leaves the entities exactly as the per-entity refresh rule says |
| `Selection.SelectionBox.constructor` | src/selection.rs:161-178 | The box starts at the origin, not selecting and hidden |
| `Selection.SelectionBox.BoxSelect` | src/selection.rs:47-64 | A press anchors both corners at the cursor and shows the box. Holding moves the far corner. A release while shown hides the box, stops selecting and sends exactly one confirm. Otherwise both corners follow the cursor |
| `Health.NewHealth` | src/health.rs:12-17 | A Health starting full. Stated by `Health.NewHealthIsFull` |
| `Health.NewHealthIsFull` | src/health.rs:12-17 | A new Health has current == max == the amount, and is live for a positive amount |
| `Health.Clamp` | src/health.rs:55-60 | Adding a change keeps the maximum. Overheal is cut to the maximum, reaching zero or below gives exactly 0, and with max >= 0 the result lies in [0, max] |
| `Health.Change` | src/health.rs:53-66 | One change keeps the entity's Health, its maximum and its Dead marker. A strictly negative amount starts a fresh flash; any other amount leaves the flash alone |
| `Health.Step` | src/health.rs:53-62 | One event keeps the number of entities and never takes an entity off the removal queue |
| `Health.ApplyAll` | src/health.rs:53-62 | The events applied in order keep the number of entities. `Health.ApplyAllInRange` states the range it keeps |
| `Health.Settle` | src/health.rs:59-61 | The deferred removals at the end of the pass keep the number of entities. `Health.KilledEntityEndsDead` and `Health.HealthStaysLive` state their effect |
| `Health.UpdateHealth` | src/health.rs:48-69 | The pass applies the events in order, then removes Health and sets Dead on every entity that reached zero |
| `Health.ApplyAllInRange` | src/health.rs:53-62 | During the pass every health stays in [0, max], and only an entity queued for removal can sit at 0 |
| `Health.HealthStaysLive` | src/health.rs:55-61 | If every entity is live before a pass, every entity that still has Health afterwards satisfies 0 < current <= max |
| `Health.NoHealthIgnoresEvents` | src/health.rs:54 | Events for entities without Health, dead ones included, change nothing |
| `Health.KilledEntityEndsDead` | src/health.rs:59-61 | A change that brings an entity to zero leaves it Dead and without Health after the pass, whatever later events do |
| `Health.FlashOnlyOnDamage` | src/health.rs:64-66 | An entity's flash changes only if some event aimed at it had a strictly negative amount |
| `Health.DamageFlashes` | src/health.rs:53-66 | A strictly negative change aimed at an entity that still has Health starts a fresh flash, which is still running at the end of the pass, whatever later events do |
| `Health.ChangesAccumulate` | src/health.rs:53-55 | Events are applied one after another: while no clamping is needed, the final health is the start plus the sum of the amounts |
| `Units.Arrive` | src/unit.rs:39-46 | The arrival rule only ever drops an order, leaving the unit Idle, and keeps the unit's stats. `Units.ArrivalClearsCommand` and `Units.NotArrivedUnchanged` state exactly when |
| `Units.ArrivalClearsCommand` | src/unit.rs:39-46 | A unit within 4.0 of its order's destination has the order cleared, becomes Idle and records the destination as its last target. Nothing else changes |
| `Units.NotArrivedUnchanged` | src/unit.rs:39-42 | A unit with no order, or farther than 4.0 from its destination, is unchanged |
| `Units.MoveAndAttackMoveArriveAlike` | src/unit.rs:41 | Move and AttackMove to the same point arrive under the same condition, with the same result |
| `Units.ArriveIdempotent` | src/unit.rs:39-46 | Applying the arrival rule twice at the same position gives the same result as applying it once |
| `Units.ProcessUnitCommands` | src/unit.rs:37-51 | The pass applies the arrival rule to every unit at its own position |
| `Units.SpawnFor` | src/unit.rs:72-90 | A carrot unit spawns at the harvest's x and y with depth 0.1, as a default unit (Idle, no order) that is neither hovered nor selected |
| `Units.CarrotEvents` | src/unit.rs:69-71 | Every harvest kept is a carrot harvest from the queue, and every carrot harvest of the queue is kept. Order and multiplicity are pinned down by `CarrotEventsSplit` and `CarrotEventsSingle` |
| `Units.CarrotEventsSingle` | src/unit.rs:70-71 | A single harvest is kept exactly when it is a carrot |
| `Units.NoCarrotsSpawnNothing` | src/unit.rs:69-71 | A queue without carrot harvests spawns no unit |
| `Units.HandleHarvestEvents` | src/unit.rs:64-108 | Draining the queue spawns exactly one unit per carrot harvest, in queue order. Other crops spawn nothing; the code as shown has no arm for them (see below) |
| `Units.CarrotEventsSplit` | src/unit.rs:69 | Draining the queue in two parts spawns the same units as draining it at once, so every event is processed exactly once |
| `Units.AllCarrotsSpawnOneEach` | src/unit.rs:69-90 | When every harvest is a carrot, each harvest spawns exactly one unit |

## Left out

- Rendering is not modelled. This covers sprites, textures and plot overlay images (`update_plot_overlay`), the compost-cost hover text (`plot_button_hover`), and button placement on the circle (only each button's action is kept). It also covers the selection box sprite's size and translation, the health bar, and the damage-flash colour animation, which ramps float colours.
- `Health::percentage` is left out. It is a float ratio used only for display.
- Hit-testing is not modelled. The point and shape intersection queries, button and circle radius checks, and cursor projection are inputs: `hit`, `outside` and the touched-entity set.
- `process_unit_state` is not modelled because it does nothing in every state. There is no chase, attack, leash or target-selection behaviour in the code.
- HandleHarvestEvents: the `match harvest.crop` at src/unit.rs:70-105 has an arm only for `Crop::Carrot`, although `Crop` has three variants (src/plot.rs:33-37), so that match is not exhaustive as shown. The model reads the missing arms as spawning nothing for clover and wheat harvests; this is the model's reading, not behaviour the code states.
- The crop costs, compost values, clover and wheat times, the unlock cost and the starting balance come from files that are not part of this model. They are the parameter `Config` plus a starting balance. Only the carrot grow and decay times (3.0) are fixed.
- The model does not capture the integer width of the compost balance. Its type is defined in a file that is not part of this model, so additions cannot overflow here.
- Positions and timer progress are `real`, so the model does not capture `f32` rounding.
- Engine scheduling is not modelled. Each system is a separate method, and the order in which the engine runs them within a frame is not fixed here. `ChooseAction` shows one order: a button click, then the handler.
- Physics components of spawned units (rigid body, collider, collision groups, locked rotation) are not modelled.
- The confirm-event queue of the selection pass is the boolean `confirmed`, meaning "at least one confirm event was pending".
