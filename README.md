# Healing item behaviour

A Dafny model of the healing-item behaviour of a collectible in a survival
game (`CollectibleBehaviorHealingItem`): a poultice or bandage held down by
a player heals the player, or a creature the player targets, once it has
been applied for long enough.

The model, in `healing_item.dfy` (module `HealingItem`), has:

- `Config`, the behaviour's configuration record, and `DefaultConfig`, its
  defaults (Health 1, ApplicationTimeSec 2, MaxApplicationTimeSec 10,
  Ticks 10, EffectDurationSec 10, CancelInAir, not CancelWhileSwimming,
  CanRevive, AffectedByArmor, DelayToCancelSec 0.5, the two sound assets,
  SoundRange 8). `DelayToCancelSec` is never read by the behaviour; the
  grace period is the literal 0.5 s, `GraceSec`.
- Pure functions for the cancel condition (`CancelApplication`), the
  application time (`Clamp`, `Effectiveness`, `TimeAt`,
  `ApplicationTime`), the target choice (`CanHeal`, `GetTargetEntity`),
  the completion effect (`EffectOn`) and the outcome of stopping
  (`StopOutcomeOf`).
- One step of a held application as functions (`NextCancelTimer`,
  `GraceExpired`, `ProgressBelowOne`, `StepOf`) and a run of successive steps (`RunSteps`), about which
  the grace-period behaviour is proved.
- The class `HealingItemBehavior`, holding the configuration and the two
  timers the source keeps in fields (`secondsUsedToCancel`,
  `secondsUsedWhenCanceledByPlayer`), with the four interaction callbacks
  `Start`, `Step`, `Cancel` and `Stop`; and the class `ItemSlot`, whose
  stack size `Stop` decrements in place.

Inputs the host engine provides are parameters: the actor's movement
flags, its blended `healingeffectivness` stat, its controls, whether the
selected entity has health and revivable behaviours and is alive, the
answer of the health behaviour's `IsHealable` check (a function
parameter `healable`), and whether the call runs on the server
(`isServer`). Engine effects are returned as a `StopOutcome`: either
`Incomplete`, or `Applied` with one `Effect` (a revive of a target, or a
heal of magnitude Health over EffectDurationSec in Ticks ticks) and the
completion sound played, if the item has one.

Behaviours kept as the code has them:

- `secondsUsedWhenCanceledByPlayer` starts at 0 and only `Cancel` writes
  it; `Start` does not reset it. `Stop` therefore completes only when the
  last cancel, possibly from an earlier attempt, recorded at least the
  application time (`StopNeedsRecordedCancel`).
- The cancel timer uses 0 as "not yet set": a cancelling step at time 0
  leaves it unset, and the next cancelling step sets it
  (`ZeroTimeLeavesTimerUnset`).
- `Start` returns without touching anything while the cancel condition
  holds.

## Model

| member | source | states |
|---|---|---|
| `HealingItem.DefaultConfigValues` | CollectibleBehavior/CollectibleBehaviorHealingItem.cs:15-40 | with the defaults, 0 < ApplicationTimeSec (2) < MaxApplicationTimeSec (10), DelayToCancelSec equals the 0.5 s grace period, and an application is cancelled exactly when the actor is neither on the ground nor swimming |
| `HealingItem.CancelApplication` | CollectibleBehavior/CollectibleBehaviorHealingItem.cs:274 | an application is cancelled only when the actor is off the ground or swimming, and only when CancelInAir or CancelWhileSwimming is set |
| `HealingItem.CancelApplicationCases` | CollectibleBehavior/CollectibleBehaviorHealingItem.cs:274 | a swimming actor is cancelled exactly when CancelWhileSwimming is set; any other actor exactly when off the ground with CancelInAir; an actor on the ground never; with both flags off nobody |
| `HealingItem.Clamp` | CollectibleBehavior/CollectibleBehaviorHealingItem.cs:230 | the result lies in [lo, hi], equals x inside the range and the nearer bound outside it |
| `HealingItem.Effectiveness` | CollectibleBehavior/CollectibleBehaviorHealingItem.cs:225-231 | the effectiveness lies in [-1, 1]; it is 0 when armor does not count, -1 for a stat at or below 0, 1 for a stat at or above 2, stat - 1 in between |
| `HealingItem.TimeAt` | CollectibleBehavior/CollectibleBehaviorHealingItem.cs:233-243 | for 0 <= ApplicationTimeSec <= MaxApplicationTimeSec the time lies in [0, Max]; a negative effectiveness never shortens it below the nominal time, a positive one never lengthens it |
| `HealingItem.ApplicationTime` | CollectibleBehavior/CollectibleBehaviorHealingItem.cs:223-244 | for 0 <= ApplicationTimeSec <= MaxApplicationTimeSec the application time lies in [0, MaxApplicationTimeSec] |
| `HealingItem.ApplicationTimeNominal` | CollectibleBehavior/CollectibleBehaviorHealingItem.cs:225-243 | the time is ApplicationTimeSec when armor does not count or the clamped stat is 1; when 0 < ApplicationTimeSec < Max only then |
| `HealingItem.ApplicationTimeExtremes` | CollectibleBehavior/CollectibleBehaviorHealingItem.cs:229-240 | with armor counting, a stat <= 0 gives MaxApplicationTimeSec and a stat >= 2 gives 0 |
| `HealingItem.TimeAtNominalOnlyAtZero` | CollectibleBehavior/CollectibleBehaviorHealingItem.cs:233-243 | for 0 < ApplicationTimeSec < Max, the formula gives the nominal time exactly at effectiveness 0 |
| `HealingItem.TimeAtNearNominal` | CollectibleBehavior/CollectibleBehaviorHealingItem.cs:233-243 | the two branches meet at the nominal time: for effectiveness e the time lies between nominal - nominal*abs(e) and nominal + (Max - nominal)*abs(e), so it does not jump at e = 0 |
| `HealingItem.TimeAtAntitone` | CollectibleBehavior/CollectibleBehaviorHealingItem.cs:233-243 | a higher effectiveness never gives a longer time (for 0 <= ApplicationTimeSec <= Max) |
| `HealingItem.ApplicationTimeAntitone` | CollectibleBehavior/CollectibleBehaviorHealingItem.cs:229-243 | a higher raw stat never gives a longer application time |
| `HealingItem.CanHeal` | CollectibleBehavior/CollectibleBehaviorHealingItem.cs:218-221 | the base behaviour admits every target |
| `HealingItem.GetTargetEntity` | CollectibleBehavior/CollectibleBehaviorHealingItem.cs:246-271 | the target is the actor or the selected entity; the actor without a selection; the selection exactly when ctrl is held, no movement key is held, and the selection has a health behaviour that reports it healable (CanHeal admits all) |
| `HealingItem.EffectOn` | CollectibleBehavior/CollectibleBehaviorHealingItem.cs:160-179 | the effect is on the target; it is a revive exactly when the target has the revivable behaviour, CanRevive is set and the target is dead; a heal carries Health, EffectDurationSec and Ticks |
| `HealingItem.LivingTargetIsHealed` | CollectibleBehavior/CollectibleBehaviorHealingItem.cs:162-178 | a living target is always healed, never revived |
| `HealingItem.NextCancelTimer` | CollectibleBehavior/CollectibleBehaviorHealingItem.cs:95-102 | without the cancel condition the timer is 0; with it, a set timer is kept and an unset one takes the current time |
| `HealingItem.GraceExpired` | CollectibleBehavior/CollectibleBehaviorHealingItem.cs:104 | a step aborts on the grace period only under the cancel condition, and then exactly when more than 0.5 s have passed since the updated cancel timer |
| `HealingItem.ProgressBelowOne` | CollectibleBehavior/CollectibleBehaviorHealingItem.cs:118-123 | for a nonzero application time t the answer is secondsUsed / t < 1; for t >= 0 it is secondsUsed < t, which at t = 0 matches the float division's infinity or NaN compared with 1 |
| `HealingItem.StepOf` | CollectibleBehavior/CollectibleBehaviorHealingItem.cs:93-124 | without the cancel condition the timer becomes 0 and the step goes on while progress is below 1; the first cancelling step of an episode sets the timer to its own time and goes on while progress is below 1; a later cancelling step keeps the timer and goes on while at most 0.5 s have passed since it and progress is below 1 |
| `HealingItem.RunSteps` | CollectibleBehavior/CollectibleBehaviorHealingItem.cs:93-124 | successive steps give one answer per tick |
| `HealingItem.SustainedCancelFrom` | CollectibleBehavior/CollectibleBehaviorHealingItem.cs:99-107 | while the cancel condition lasts, a set timer stays put and each step goes on exactly while at most 0.5 s have passed since it was set and progress is below 1 |
| `HealingItem.SustainedCancel` | CollectibleBehavior/CollectibleBehaviorHealingItem.cs:99-107 | in a cancel episode whose first step is at a nonzero time t0, each step goes on exactly while at most 0.5 s have passed since t0 and progress is below 1 |
| `HealingItem.ZeroTimeLeavesTimerUnset` | CollectibleBehavior/CollectibleBehaviorHealingItem.cs:101 | a cancelling step at time 0 leaves the timer at 0, so the next cancelling step sets it to its own time |
| `HealingItem.Completes` | CollectibleBehavior/CollectibleBehaviorHealingItem.cs:147-152 | stopping completes only on the server and only when neither the recorded cancel time nor the time used is below the application time; these together suffice |
| `HealingItem.StopOutcomeOf` | CollectibleBehavior/CollectibleBehaviorHealingItem.cs:147-186 | an effect is applied exactly when the recorded cancel time and the time used both reach the application time on the server; then it is the effect on the chosen target (the actor or the selection) and the completion sound is the configured one |
| `HealingItem.StopNeedsRecordedCancel` | CollectibleBehavior/CollectibleBehaviorHealingItem.cs:147-150 | with a recorded cancel time below the application time, stopping applies nothing whatever the time used |
| `HealingItem.CompletedStopTreatsActorUnlessTargeted` | CollectibleBehavior/CollectibleBehaviorHealingItem.cs:160-178 | a completed stop without a selection, without ctrl, or with a movement key held applies its effect to the actor |
| `HealingItem.ItemSlot.TakeOut` | CollectibleBehavior/CollectibleBehaviorHealingItem.cs:186 | takes out the requested quantity or all the slot holds, and the stack shrinks by what was taken |
| `HealingItem.HealingItemBehavior.constructor` | CollectibleBehavior/CollectibleBehaviorHealingItem.cs:46-48 | both timers start at 0 |
| `HealingItem.HealingItemBehavior.Start` | CollectibleBehavior/CollectibleBehaviorHealingItem.cs:71-91 | under the cancel condition nothing changes and the handling arguments come back as given; otherwise they become PreventDefault / PreventSubsequent and the cancel timer becomes 0; the recorded cancel time is never reset |
| `HealingItem.HealingItemBehavior.Step` | CollectibleBehavior/CollectibleBehaviorHealingItem.cs:93-124 | the answer and the new cancel timer are StepOf the old timer and this tick, and handling becomes Handled unless the grace period expired; the recorded cancel time is unchanged |
| `HealingItem.HealingItemBehavior.Cancel` | CollectibleBehavior/CollectibleBehaviorHealingItem.cs:126-132 | records the time used; the cancel timer is unchanged |
| `HealingItem.HealingItemBehavior.Stop` | CollectibleBehavior/CollectibleBehaviorHealingItem.cs:134-188 | the outcome is StopOutcomeOf the recorded cancel time; an applied outcome takes exactly one item from the slot, an incomplete one leaves the slot alone; handling becomes Handled |

## Left out

- Sounds: loading, starting, stopping and positioning the looping
  application sound, and the delayed callback that stops it (including its
  `(int)` truncation of the application time) have no effect on the logic;
  the completion sound appears only as the asset recorded in the outcome.
- The progress bar, console logging, the item-info text and the
  interaction-help arrays are client presentation or display text.
- JSON population of the configuration is library deserialisation; the
  configuration is a record with the source's defaults.
- Engine calls (`Stats.GetBlended`, `GetBehavior`, `IsHealable`,
  `ReceiveDamage`, `AttemptRevive`, `PlaySoundAt`, `slot.MarkDirty`) are
  inputs or recorded outcome values; their internals are not part of this
  model. `ItemSlot.TakeOut` is modelled only by its effect on the stack
  size.
- Single-precision float arithmetic and rounding: times are reals; the one place the source can produce an infinity or NaN (the step's progress at a zero application time) is modelled by its comparison result.
- Signed zero: a zero application time is taken as +0, so the step's
  division by it is +infinity, NaN or -infinity by the sign of the time
  used; a -0 (possible only with a negative configured time) is not
  distinguished.
- The return value and `handled` argument of the base class's cancel
  callback: the base class is not part of this model.
- The client/server split and the engine's callback ordering: the side is
  a boolean parameter, and which callbacks the host calls in which order
  is not modelled. The behaviour object is shared by every user of the
  same item type in the source; the model has one object and one user.
- The `IsHealable` check is given as one function of
  the selected entity, fixed for the acting entity and slot of the call.
