/** A model of the healing-item behaviour of a collectible (a poultice, a
    bandage): how long applying it takes, when a held application is
    cancelled, whom it heals, and what completing it does.

    Times are `real` seconds (the source uses single-precision floats).
    Everything the host engine owns (entity stats, behaviours, controls,
    the client/server side, the item slot) arrives as plain values or as
    the small `ItemSlot` class below. */
module HealingItem {

  datatype Option<+T> = None | Some(value: T)

  // ---------------------------------------------------------------------
  // Configuration

  /** The behaviour's configuration, normally read from the item's JSON. */
  datatype Config = Config(
    health: real,                 // heal magnitude passed to the heal damage
    applicationTimeSec: real,     // nominal application time
    maxApplicationTimeSec: real,  // application time at the worst effectiveness
    ticks: int,                   // heal ticks per effect duration
    effectDurationSec: real,      // heal-over-time duration
    cancelInAir: bool,
    cancelWhileSwimming: bool,
    sound: Option<string>,        // looping application sound
    appliedSound: Option<string>, // one-shot sound on completion
    soundRange: real,
    canRevive: bool,
    affectedByArmor: bool,
    delayToCancelSec: real        // configurable, but never read: the grace period is GraceSec
  )

  /** The configuration an item gets when its JSON sets nothing. */
  const DefaultConfig := Config(
    health := 1.0,
    applicationTimeSec := 2.0,
    maxApplicationTimeSec := 10.0,
    ticks := 10,
    effectDurationSec := 10.0,
    cancelInAir := true,
    cancelWhileSwimming := false,
    sound := Some("game:sounds/player/poultice"),
    appliedSound := Some("game:sounds/player/poultice-applied"),
    soundRange := 8.0,
    canRevive := true,
    affectedByArmor := true,
    delayToCancelSec := 0.5
  )

  /** How long a cancelling condition is tolerated before a step aborts.
      This is a literal in the step callback, not `delayToCancelSec`. */
  const GraceSec: real := 0.5

  /** The defaults: the nominal 2 s lies strictly between 0 and the 10 s
      maximum, the unused `delayToCancelSec` agrees with the grace period,
      and an application is cancelled exactly when the actor is airborne
      (neither on the ground nor swimming). */
  lemma DefaultConfigValues()
    ensures 0.0 < DefaultConfig.applicationTimeSec < DefaultConfig.maxApplicationTimeSec
    ensures DefaultConfig.delayToCancelSec == GraceSec
    ensures forall e: Entity :: CancelApplication(DefaultConfig, e) <==> !e.onGround && !e.swimming
  {
  }

  /** The configurations for which the application time is a sensible
      duration: the nominal time lies between 0 and the maximum. */
  predicate TimesOrdered(c: Config)
  {
    0.0 <= c.applicationTimeSec <= c.maxApplicationTimeSec
  }

  // ---------------------------------------------------------------------
  // Entities, as far as the behaviour looks at them

  /** The movement keys and the modifier key an acting entity holds. */
  datatype Controls = Controls(ctrlKey: bool, forward: bool, backward: bool, left: bool, right: bool)

  /** An entity: its movement state, its blended "healingeffectivness"
      stat, whether it is alive, and which of the two behaviours the
      healing item asks for (health, player-revivable) it carries. */
  datatype Entity = Entity(
    id: nat,
    onGround: bool,
    swimming: bool,
    alive: bool,
    healingEffectiveness: real,
    hasHealthBehavior: bool,
    hasRevivableBehavior: bool
  )

  /** An entity that acts: the entity itself and the controls it holds. */
  datatype EntityAgent = EntityAgent(entity: Entity, controls: Controls)

  predicate HoldsMovementKey(k: Controls)
  {
    k.forward || k.backward || k.left || k.right
  }

  // ---------------------------------------------------------------------
  // Cancel condition

  /** Whether the actor's movement state cancels an application: in the air
      (neither on the ground nor swimming) when `cancelInAir` is set, or
      swimming when `cancelWhileSwimming` is set. */
  predicate CancelApplication(c: Config, e: Entity)
    ensures CancelApplication(c, e) ==> !e.onGround || e.swimming
    ensures CancelApplication(c, e) ==> c.cancelInAir || c.cancelWhileSwimming
  {
    (!e.onGround && !e.swimming && c.cancelInAir) || (e.swimming && c.cancelWhileSwimming)
  }

  /** The cancel condition, case by case on the swimming flag: a swimmer is
      cancelled exactly by `cancelWhileSwimming`, anyone else exactly by
      being off the ground with `cancelInAir`. */
  lemma CancelApplicationCases(c: Config, e: Entity)
    ensures e.swimming ==> (CancelApplication(c, e) <==> c.cancelWhileSwimming)
    ensures !e.swimming ==> (CancelApplication(c, e) <==> !e.onGround && c.cancelInAir)
    ensures e.onGround && !e.swimming ==> !CancelApplication(c, e)
    ensures !c.cancelInAir && !c.cancelWhileSwimming ==> !CancelApplication(c, e)
  {
  }

  // ---------------------------------------------------------------------
  // Application time

  /** `Math.Clamp(x, lo, hi)`. */
  function Clamp(x: real, lo: real, hi: real): (r: real)
    requires lo <= hi
    ensures lo <= r <= hi
    ensures lo <= x <= hi ==> r == x
    ensures x <= lo ==> r == lo
    ensures hi <= x ==> r == hi
  {
    if x < lo then lo else if x > hi then hi else x
  }

  /** The effectiveness `e` in [-1, 1] that scales the application time:
      the actor's stat clamped to [0, 2] and shifted down by 1, or 0 when
      the item ignores armor. */
  function Effectiveness(c: Config, stat: real): (e: real)
    ensures -1.0 <= e <= 1.0
    ensures !c.affectedByArmor ==> e == 0.0
    ensures c.affectedByArmor && stat <= 0.0 ==> e == -1.0
    ensures c.affectedByArmor && stat >= 2.0 ==> e == 1.0
    ensures c.affectedByArmor && 0.0 <= stat <= 2.0 ==> e == stat - 1.0
  {
    if c.affectedByArmor then Clamp(stat, 0.0, 2.0) - 1.0 else 0.0
  }

  /** The application time for effectiveness `e`: a negative `e` moves the
      nominal time toward the maximum (reaching it at e = -1), a positive
      `e` moves it toward 0 (reaching it at e = 1). */
  function TimeAt(c: Config, e: real): (t: real)
    requires -1.0 <= e <= 1.0
    ensures TimesOrdered(c) ==> 0.0 <= t <= c.maxApplicationTimeSec
    ensures TimesOrdered(c) && e < 0.0 ==> c.applicationTimeSec <= t
    ensures TimesOrdered(c) && e > 0.0 ==> t <= c.applicationTimeSec
  {
    if e < 0.0 then
      MulNonPos(c.applicationTimeSec - c.maxApplicationTimeSec, e + 1.0);
      MulNonPos(c.applicationTimeSec - c.maxApplicationTimeSec, -e);
      c.applicationTimeSec + (c.applicationTimeSec - c.maxApplicationTimeSec) * e
    else if e > 0.0 then
      MulNonNeg(c.applicationTimeSec, 1.0 - e);
      MulNonNeg(c.applicationTimeSec, e);
      c.applicationTimeSec * (1.0 - e)
    else
      c.applicationTimeSec
  }

  /** `GetApplicationTime`: the application time for an actor. */
  function ApplicationTime(c: Config, actor: Entity): (t: real)
    ensures TimesOrdered(c) ==> 0.0 <= t <= c.maxApplicationTimeSec
  {
    TimeAt(c, Effectiveness(c, actor.healingEffectiveness))
  }

  lemma MulNonPos(x: real, y: real)
    ensures x <= 0.0 <= y ==> x * y <= 0.0
  {
  }

  lemma MulNonNeg(x: real, y: real)
    ensures 0.0 <= x && 0.0 <= y ==> 0.0 <= x * y
  {
  }

  /** The application time is the nominal one when armor does not count or
      the clamped stat is neutral (1); when the nominal time lies strictly
      between 0 and the maximum, these are the only cases. */
  lemma ApplicationTimeNominal(c: Config, actor: Entity)
    ensures !c.affectedByArmor || Clamp(actor.healingEffectiveness, 0.0, 2.0) == 1.0
            ==> ApplicationTime(c, actor) == c.applicationTimeSec
    ensures 0.0 < c.applicationTimeSec < c.maxApplicationTimeSec && ApplicationTime(c, actor) == c.applicationTimeSec
            ==> !c.affectedByArmor || Clamp(actor.healingEffectiveness, 0.0, 2.0) == 1.0
  {
    var a, m := c.applicationTimeSec, c.maxApplicationTimeSec;
    if 0.0 < a < m {
      TimeAtNominalOnlyAtZero(c, Effectiveness(c, actor.healingEffectiveness));
    }
  }

  /** When the nominal time lies strictly between 0 and the maximum, the
      formula gives the nominal time at effectiveness 0 and nowhere else. */
  lemma TimeAtNominalOnlyAtZero(c: Config, e: real)
    requires 0.0 < c.applicationTimeSec < c.maxApplicationTimeSec
    requires -1.0 <= e <= 1.0
    ensures TimeAt(c, e) == c.applicationTimeSec <==> e == 0.0
  {
    var a, m := c.applicationTimeSec, c.maxApplicationTimeSec;
    if e < 0.0 {
      MulNegNeg(a - m, e);
    } else if e > 0.0 {
      MulPosPos(a, e);
    }
  }

  lemma MulNegNeg(x: real, y: real)
    requires x < 0.0 && y < 0.0
    ensures x * y > 0.0
  {
  }

  lemma MulPosPos(x: real, y: real)
    requires x > 0.0 && y > 0.0
    ensures x * y > 0.0
  {
  }

  /** At the clamp bounds the application time reaches its extremes: the
      maximum for a stat at or below 0, zero for a stat at or above 2. */
  lemma ApplicationTimeExtremes(c: Config, actor: Entity)
    requires c.affectedByArmor
    ensures actor.healingEffectiveness <= 0.0 ==> ApplicationTime(c, actor) == c.maxApplicationTimeSec
    ensures actor.healingEffectiveness >= 2.0 ==> ApplicationTime(c, actor) == 0.0
  {
  }

  function Abs(x: real): real
  {
    if x < 0.0 then -x else x
  }

  /** The two branches of the formula meet at the nominal time: the time
      moves away from it by at most (Max - nominal) * |e| upward and
      nominal * |e| downward, so it does not jump at e = 0. */
  lemma TimeAtNearNominal(c: Config, e: real)
    requires TimesOrdered(c)
    requires -1.0 <= e <= 1.0
    ensures c.applicationTimeSec - c.applicationTimeSec * Abs(e) <= TimeAt(c, e)
    ensures TimeAt(c, e) <= c.applicationTimeSec + (c.maxApplicationTimeSec - c.applicationTimeSec) * Abs(e)
  {
    var a, m := c.applicationTimeSec, c.maxApplicationTimeSec;
    MulNonNeg(a, Abs(e));
    MulNonNeg(m - a, Abs(e));
  }

  /** A higher effectiveness never lengthens the application. */
  lemma TimeAtAntitone(c: Config, e1: real, e2: real)
    requires TimesOrdered(c)
    requires -1.0 <= e1 <= e2 <= 1.0
    ensures TimeAt(c, e2) <= TimeAt(c, e1)
  {
    var a, m := c.applicationTimeSec, c.maxApplicationTimeSec;
    if e1 < 0.0 && e2 < 0.0 {
      MulNonPos(a - m, e2 - e1);
      assert (a - m) * e2 - (a - m) * e1 == (a - m) * (e2 - e1);
    } else if e1 > 0.0 && e2 > 0.0 {
      MulNonNeg(a, e2 - e1);
      assert a * (1.0 - e1) - a * (1.0 - e2) == a * (e2 - e1);
    }
  }

  /** A higher raw stat never lengthens the application. */
  lemma ApplicationTimeAntitone(c: Config, actor1: Entity, actor2: Entity)
    requires TimesOrdered(c)
    requires actor1.healingEffectiveness <= actor2.healingEffectiveness
    ensures ApplicationTime(c, actor2) <= ApplicationTime(c, actor1)
  {
    TimeAtAntitone(c, Effectiveness(c, actor1.healingEffectiveness), Effectiveness(c, actor2.healingEffectiveness));
  }

  // ---------------------------------------------------------------------
  // Target selection and the completion effect

  /** `CanHeal` of the base behaviour: every target may be healed. */
  predicate CanHeal(target: Entity)
    ensures CanHeal(target)
  {
    true
  }

  /** `GetTargetEntity`: the actor heals itself, unless it selected an
      entity, holds ctrl without any movement key, and the selected entity
      may be healed (`CanHeal`), has a health behaviour and that behaviour
      reports it healable by this actor and item (the `healable` oracle). */
  function GetTargetEntity(byEntity: EntityAgent, selection: Option<Entity>, healable: Entity -> bool): (target: Entity)
    ensures target == byEntity.entity || (selection.Some? && target == selection.value)
    ensures selection.None? ==> target == byEntity.entity
    ensures selection.Some? && target != byEntity.entity ==>
              byEntity.controls.ctrlKey && !HoldsMovementKey(byEntity.controls) &&
              selection.value.hasHealthBehavior && healable(selection.value)
    ensures (selection.Some? && byEntity.controls.ctrlKey && !HoldsMovementKey(byEntity.controls) &&
             selection.value.hasHealthBehavior && healable(selection.value)) ==> target == selection.value
  {
    if selection.None? then byEntity.entity
    else
      var selected := selection.value;
      var k := byEntity.controls;
      if k.ctrlKey && !k.forward && !k.backward && !k.left && !k.right &&
         CanHeal(selected) && selected.hasHealthBehavior && healable(selected)
      then selected
      else byEntity.entity
  }

  /** The effect handed to the engine on completion. A heal is an internal
      damage of type Heal, tier 0, spread over `durationSec` in `ticks`
      ticks, of magnitude `amount`. */
  datatype Effect =
    | Revive(target: nat)
    | Heal(target: nat, amount: real, durationSec: real, ticks: int)

  /** The effect completing an application has on `target`. */
  function EffectOn(c: Config, target: Entity): (eff: Effect)
    ensures eff.target == target.id
    ensures eff.Revive? <==> target.hasRevivableBehavior && c.canRevive && !target.alive
    ensures eff.Heal? ==> eff.amount == c.health && eff.durationSec == c.effectDurationSec && eff.ticks == c.ticks
  {
    if target.hasRevivableBehavior && c.canRevive && !target.alive then Revive(target.id)
    else Heal(target.id, c.health, c.effectDurationSec, c.ticks)
  }

  /** A living target is always healed, never revived. */
  lemma LivingTargetIsHealed(c: Config, target: Entity)
    requires target.alive
    ensures EffectOn(c, target) == Heal(target.id, c.health, c.effectDurationSec, c.ticks)
  {
  }

  // ---------------------------------------------------------------------
  // One step of a held application

  /** The new value of the cancel timer after a step at `secondsUsed`: 0
      when the cancel condition does not hold, else the time the condition
      was first seen (0 meaning "not yet seen", so a first sighting at
      time 0 leaves it unset). */
  function NextCancelTimer(c: Config, timer: real, secondsUsed: real, actor: Entity): (t: real)
    ensures !CancelApplication(c, actor) ==> t == 0.0
    ensures CancelApplication(c, actor) && timer != 0.0 ==> t == timer
    ensures CancelApplication(c, actor) && timer == 0.0 ==> t == secondsUsed
  {
    if !CancelApplication(c, actor) then 0.0
    else if timer == 0.0 then secondsUsed
    else timer
  }

  /** Whether the step aborts because the cancel condition has held longer
      than the grace period since the (updated) timer. */
  predicate GraceExpired(c: Config, timer: real, secondsUsed: real, actor: Entity)
    ensures !CancelApplication(c, actor) ==> !GraceExpired(c, timer, secondsUsed, actor)
    ensures CancelApplication(c, actor) ==> (GraceExpired(c, timer, secondsUsed, actor) <==> timer + GraceSec < secondsUsed)
  {
    CancelApplication(c, actor) && secondsUsed - timer > GraceSec
  }

  /** Whether the progress `s / t` is below 1. At t = 0 the source's
      single-precision division gives +infinity (s > 0), NaN (s = 0) or
      -infinity (s < 0), and only -infinity is below 1. */
  predicate ProgressBelowOne(s: real, t: real)
    ensures t != 0.0 ==> (ProgressBelowOne(s, t) <==> s / t < 1.0)
    ensures t >= 0.0 ==> (ProgressBelowOne(s, t) <==> s < t)
  {
    if t == 0.0 then s < 0.0 else s / t < 1.0
  }

  /** A tick of the held interaction, as the host reports it. */
  datatype Tick = Tick(secondsUsed: real, actor: Entity)

  /** What a step yields: whether to go on, and the new cancel timer. */
  datatype StepResult = StepResult(continues: bool, cancelTimer: real)

  /** One step: without the cancel condition the timer resets and the step
      goes on while the progress is below 1; the first cancelling step of
      an episode sets the timer to its own time and is tolerated; later
      cancelling steps keep the timer and also stop once more than the
      grace period has passed since it was set. */
  function StepOf(c: Config, timer: real, tick: Tick): (r: StepResult)
    ensures !CancelApplication(c, tick.actor) ==>
              r.cancelTimer == 0.0 &&
              (r.continues <==> ProgressBelowOne(tick.secondsUsed, ApplicationTime(c, tick.actor)))
    ensures CancelApplication(c, tick.actor) && timer == 0.0 ==>
              r.cancelTimer == tick.secondsUsed &&
              (r.continues <==> ProgressBelowOne(tick.secondsUsed, ApplicationTime(c, tick.actor)))
    ensures CancelApplication(c, tick.actor) && timer != 0.0 ==>
              r.cancelTimer == timer &&
              (r.continues <==> tick.secondsUsed - timer <= GraceSec &&
                                ProgressBelowOne(tick.secondsUsed, ApplicationTime(c, tick.actor)))
  {
    var timer' := NextCancelTimer(c, timer, tick.secondsUsed, tick.actor);
    var go := !GraceExpired(c, timer', tick.secondsUsed, tick.actor) &&
              ProgressBelowOne(tick.secondsUsed, ApplicationTime(c, tick.actor));
    StepResult(go, timer')
  }

  /** The answers of successive steps, starting from cancel timer `timer`. */
  function RunSteps(c: Config, timer: real, ticks: seq<Tick>): (go: seq<bool>)
    ensures |go| == |ticks|
    decreases |ticks|
  {
    if ticks == [] then []
    else
      var s := StepOf(c, timer, ticks[0]);
      [s.continues] + RunSteps(c, s.cancelTimer, ticks[1..])
  }

  predicate AllCancel(c: Config, ticks: seq<Tick>)
  {
    forall i :: 0 <= i < |ticks| ==> CancelApplication(c, ticks[i].actor)
  }

  /** Under a sustained cancel condition whose timer is set to `t0`, every
      step keeps the timer and goes on exactly while no more than the grace
      period has passed since `t0` and time remains. */
  lemma {:induction false} SustainedCancelFrom(c: Config, t0: real, ticks: seq<Tick>)
    requires t0 != 0.0
    requires AllCancel(c, ticks)
    ensures forall i :: 0 <= i < |ticks| ==>
              (RunSteps(c, t0, ticks)[i] <==>
                 ticks[i].secondsUsed - t0 <= GraceSec && ProgressBelowOne(ticks[i].secondsUsed, ApplicationTime(c, ticks[i].actor)))
  {
    if ticks != [] {
      SustainedCancelFrom(c, t0, ticks[1..]);
      forall i | 0 <= i < |ticks|
        ensures RunSteps(c, t0, ticks)[i] <==>
                  ticks[i].secondsUsed - t0 <= GraceSec && ProgressBelowOne(ticks[i].secondsUsed, ApplicationTime(c, ticks[i].actor))
      {
        if i > 0 {
          assert ticks[1..][i - 1] == ticks[i];
        }
      }
    }
  }

  /** A cancel episode that starts at a nonzero time `t0` fixes the timer
      at `t0`: from then on a step aborts exactly when more than the grace
      period has passed since `t0` (or time has run out). */
  lemma SustainedCancel(c: Config, ticks: seq<Tick>)
    requires |ticks| > 0 && ticks[0].secondsUsed != 0.0
    requires AllCancel(c, ticks)
    ensures forall i :: 0 <= i < |ticks| ==>
              (RunSteps(c, 0.0, ticks)[i] <==>
                 ticks[i].secondsUsed - ticks[0].secondsUsed <= GraceSec &&
                 ProgressBelowOne(ticks[i].secondsUsed, ApplicationTime(c, ticks[i].actor)))
  {
    var t0 := ticks[0].secondsUsed;
    SustainedCancelFrom(c, t0, ticks[1..]);
    forall i | 0 <= i < |ticks|
      ensures RunSteps(c, 0.0, ticks)[i] <==>
                ticks[i].secondsUsed - t0 <= GraceSec && ProgressBelowOne(ticks[i].secondsUsed, ApplicationTime(c, ticks[i].actor))
    {
      if i > 0 {
        assert ticks[1..][i - 1] == ticks[i];
      }
    }
  }

  /** The 0 sentinel: a cancelling step at time 0 leaves the timer unset,
      so the next cancelling step sets it to its own time. */
  lemma ZeroTimeLeavesTimerUnset(c: Config, actor: Entity, later: Tick)
    requires CancelApplication(c, actor) && CancelApplication(c, later.actor)
    ensures NextCancelTimer(c, 0.0, 0.0, actor) == 0.0
    ensures NextCancelTimer(c, NextCancelTimer(c, 0.0, 0.0, actor), later.secondsUsed, later.actor) == later.secondsUsed
  {
  }

  // ---------------------------------------------------------------------
  // Completing (stopping) an application

  /** What stopping the interaction does: nothing, or one effect applied,
      with the completion sound (if any) played at the actor. */
  datatype StopOutcome =
    | Incomplete
    | Applied(effect: Effect, soundPlayed: Option<string>)

  /** Whether stopping completes the application: the time recorded by the
      last cancel and the time used both reach the application time, and
      this is the server. */
  predicate Completes(c: Config, canceledAt: real, secondsUsed: real, actor: Entity, isServer: bool)
    ensures Completes(c, canceledAt, secondsUsed, actor, isServer) ==> isServer
    ensures canceledAt < ApplicationTime(c, actor) ==> !Completes(c, canceledAt, secondsUsed, actor, isServer)
    ensures secondsUsed < ApplicationTime(c, actor) ==> !Completes(c, canceledAt, secondsUsed, actor, isServer)
    ensures isServer && canceledAt >= ApplicationTime(c, actor) && secondsUsed >= ApplicationTime(c, actor)
            ==> Completes(c, canceledAt, secondsUsed, actor, isServer)
  {
    canceledAt >= ApplicationTime(c, actor) && secondsUsed >= ApplicationTime(c, actor) && isServer
  }

  /** The outcome of stopping, as a function of the recorded cancel time. */
  function StopOutcomeOf(c: Config, canceledAt: real, secondsUsed: real, byEntity: EntityAgent,
                         selection: Option<Entity>, healable: Entity -> bool, isServer: bool): (o: StopOutcome)
    ensures o.Applied? <==> Completes(c, canceledAt, secondsUsed, byEntity.entity, isServer)
    ensures o.Applied? ==> o.soundPlayed == c.appliedSound
    ensures o.Applied? ==> o.effect.target == byEntity.entity.id || (selection.Some? && o.effect.target == selection.value.id)
    ensures o.Applied? ==> o.effect == EffectOn(c, GetTargetEntity(byEntity, selection, healable))
  {
    var t := ApplicationTime(c, byEntity.entity);
    if canceledAt < t then Incomplete
    else if secondsUsed < t || !isServer then Incomplete
    else Applied(EffectOn(c, GetTargetEntity(byEntity, selection, healable)), c.appliedSound)
  }

  /** Without a cancel recording at least the application time (the
      recorded time starts at 0 and only a cancel writes it), stopping never
      completes an application that takes any time. */
  lemma StopNeedsRecordedCancel(c: Config, canceledAt: real, secondsUsed: real, byEntity: EntityAgent,
                                selection: Option<Entity>, healable: Entity -> bool, isServer: bool)
    requires canceledAt < ApplicationTime(c, byEntity.entity)
    ensures StopOutcomeOf(c, canceledAt, secondsUsed, byEntity, selection, healable, isServer) == Incomplete
  {
  }

  /** A completed stop heals or revives the selected entity only when the
      actor stands still holding ctrl; otherwise it treats the actor. */
  lemma CompletedStopTreatsActorUnlessTargeted(c: Config, canceledAt: real, secondsUsed: real, byEntity: EntityAgent,
                                               selection: Option<Entity>, healable: Entity -> bool)
    requires Completes(c, canceledAt, secondsUsed, byEntity.entity, true)
    requires selection.None? || !byEntity.controls.ctrlKey || HoldsMovementKey(byEntity.controls)
    ensures StopOutcomeOf(c, canceledAt, secondsUsed, byEntity, selection, healable, true)
            == Applied(EffectOn(c, byEntity.entity), c.appliedSound)
  {
  }

  // ---------------------------------------------------------------------
  // State: the item slot and the behaviour

  /** The slot holding the healing items; only its stack size matters here. */
  class ItemSlot {
    var stackSize: nat

    constructor (stackSize: nat)
      ensures this.stackSize == stackSize
    {
      this.stackSize := stackSize;
    }

    /** Takes up to `quantity` items out of the slot (no more than it holds). */
    method TakeOut(quantity: nat) returns (taken: nat)
      modifies this
      ensures taken == if quantity <= old(stackSize) then quantity else old(stackSize)
      ensures stackSize == old(stackSize) - taken
    {
      taken := if quantity <= stackSize then quantity else stackSize;
      stackSize := stackSize - taken;
    }
  }

  /** How the behaviour answers the host's `ref` handling arguments. */
  datatype HandHandling = NotHandled | Handled | PreventDefault | PreventDefaultAction | PreventDefaultAnimation
  datatype Handling = PassThrough | Handled | PreventDefault | PreventSubsequent

  /** The healing-item behaviour of one collectible, with its two timers. */
  class HealingItemBehavior {
    const config: Config
    /** The time the cancel condition was first seen in this episode; 0 = not seen. */
    var secondsUsedToCancel: real
    /** The time used when the interaction was last cancelled. */
    var secondsUsedWhenCanceledByPlayer: real

    constructor (config: Config)
      ensures this.config == config
      ensures secondsUsedToCancel == 0.0 && secondsUsedWhenCanceledByPlayer == 0.0
    {
      this.config := config;
      secondsUsedToCancel := 0.0;
      secondsUsedWhenCanceledByPlayer := 0.0;
    }

    /** `OnHeldInteractStart`: refuses to start (touching nothing) while the
        cancel condition holds; otherwise takes over the interaction and
        resets the cancel timer. The recorded cancel time is kept. */
    method Start(byEntity: Entity, handHandling: HandHandling, handling: Handling)
      returns (handHandling': HandHandling, handling': Handling)
      modifies this`secondsUsedToCancel
      ensures CancelApplication(config, byEntity) ==>
                handHandling' == handHandling && handling' == handling &&
                secondsUsedToCancel == old(secondsUsedToCancel)
      ensures !CancelApplication(config, byEntity) ==>
                handHandling' == HandHandling.PreventDefault && handling' == PreventSubsequent &&
                secondsUsedToCancel == 0.0
      ensures secondsUsedWhenCanceledByPlayer == old(secondsUsedWhenCanceledByPlayer)
    {
      handHandling', handling' := handHandling, handling;
      if CancelApplication(config, byEntity) {
        return;
      }
      handHandling' := HandHandling.PreventDefault;
      handling' := PreventSubsequent;
      secondsUsedToCancel := 0.0;
    }

    /** `OnHeldInteractStep`: updates the cancel timer and says whether the
        application goes on. */
    method Step(secondsUsed: real, byEntity: Entity, handling: Handling) returns (go: bool, handling': Handling)
      modifies this`secondsUsedToCancel
      ensures StepResult(go, secondsUsedToCancel) == StepOf(config, old(secondsUsedToCancel), Tick(secondsUsed, byEntity))
      ensures handling' == if GraceExpired(config, secondsUsedToCancel, secondsUsed, byEntity) then handling else Handling.Handled
      ensures secondsUsedWhenCanceledByPlayer == old(secondsUsedWhenCanceledByPlayer)
    {
      handling' := handling;
      if !CancelApplication(config, byEntity) {
        secondsUsedToCancel := 0.0;
      } else {
        if secondsUsedToCancel == 0.0 {
          secondsUsedToCancel := secondsUsed;
        }
      }
      if CancelApplication(config, byEntity) && secondsUsed - secondsUsedToCancel > GraceSec {
        return false, handling';
      }
      handling' := Handling.Handled;
      var t := ApplicationTime(config, byEntity);
      if t == 0.0 {
        // the single-precision secondsUsed / 0 is below 1 only as -infinity
        go := secondsUsed < 0.0;
      } else {
        var progress := secondsUsed / t;
        go := progress < 1.0;
      }
    }

    /** `OnHeldInteractCancel`: records the time used. */
    method Cancel(secondsUsed: real)
      modifies this`secondsUsedWhenCanceledByPlayer
      ensures secondsUsedWhenCanceledByPlayer == secondsUsed
      ensures secondsUsedToCancel == old(secondsUsedToCancel)
    {
      secondsUsedWhenCanceledByPlayer := secondsUsed;
    }

    /** `OnHeldInteractStop`: unless one of its guards stops it, applies the
        revive or heal to the chosen target and takes one item out of the
        slot. Neither timer changes. */
    method Stop(secondsUsed: real, slot: ItemSlot, byEntity: EntityAgent, selection: Option<Entity>,
                healable: Entity -> bool, isServer: bool, handling: Handling)
      returns (handling': Handling, outcome: StopOutcome)
      modifies slot
      ensures handling' == Handling.Handled
      ensures outcome == StopOutcomeOf(config, secondsUsedWhenCanceledByPlayer, secondsUsed, byEntity, selection, healable, isServer)
      ensures outcome.Applied? ==> slot.stackSize == if old(slot.stackSize) == 0 then 0 else old(slot.stackSize) - 1
      ensures outcome.Incomplete? ==> slot.stackSize == old(slot.stackSize)
    {
      handling' := Handling.Handled;
      var t := ApplicationTime(config, byEntity.entity);
      if secondsUsedWhenCanceledByPlayer < t {
        return handling', Incomplete;
      }
      if secondsUsed < t || !isServer {
        return handling', Incomplete;
      }
      var target := GetTargetEntity(byEntity, selection, healable);
      var effect := EffectOn(config, target);
      outcome := Applied(effect, config.appliedSound);
      var _ := slot.TakeOut(1);
    }
  }

  // ---------------------------------------------------------------------
  // Scenarios

  /** The default item on a neutral actor: stopping before any cancel does
      nothing; a sustained jump aborts once the grace period has passed; a
      player who holds for 2.5 s, releases (cancel) and stops on the server
      heals itself with one item; a cancel at 1.0 s then blocks the next
      stop. */
  method DefaultItemScenario()
  {
    var standing := Entity(1, true, false, true, 1.0, true, false);
    var jumping := standing.(onGround := false);
    var idle := Controls(false, false, false, false, false);
    var item := new HealingItemBehavior(DefaultConfig);
    var slot := new ItemSlot(3);

    var hh, h := item.Start(standing, NotHandled, PassThrough);
    assert hh == HandHandling.PreventDefault && h == PreventSubsequent;

    // Never cancelled: the recorded time is still 0, so stopping does nothing.
    var outcome;
    h, outcome := item.Stop(2.5, slot, EntityAgent(standing, idle), None, _ => true, true, h);
    assert outcome == Incomplete && slot.stackSize == 3;

    var go;
    go, h := item.Step(0.1, jumping, h);
    assert go;
    go, h := item.Step(0.6, jumping, h);
    assert go;
    go, h := item.Step(0.65, jumping, h);
    assert !go;

    hh, h := item.Start(standing, NotHandled, PassThrough);
    go, h := item.Step(1.0, standing, h);
    assert go;
    go, h := item.Step(2.0, standing, h);
    assert !go;
    item.Cancel(2.5);
    h, outcome := item.Stop(2.5, slot, EntityAgent(standing, idle), None, _ => true, true, h);
    assert outcome == Applied(Heal(1, 1.0, 10.0, 10), Some("game:sounds/player/poultice-applied"));
    assert slot.stackSize == 2;

    item.Cancel(1.0);
    h, outcome := item.Stop(2.5, slot, EntityAgent(standing, idle), None, _ => true, true, h);
    assert outcome == Incomplete && slot.stackSize == 2;
  }
}
