/** Health of units: signed health changes are applied in event order, the
    result is clamped to [0, max], an entity whose health reaches zero loses
    its Health and is marked Dead, and damage restarts its red flash.

    The engine defers component insertion and removal to the end of the
    pass, so an entity killed by one event keeps its (zeroed) Health for the
    rest of the same pass; the model keeps that order explicitly with the
    set of "doomed" entities. */
module Health {
  import opened Options

  datatype Health = Health(current: real, max: real)

  /** A Health component starting full. */
  function NewHealth(amount: real): Health
  {
    Health(amount, amount)
  }

  /** The state every living entity keeps between passes. */
  predicate Live(h: Health)
  {
    0.0 < h.current <= h.max
  }

  /** A new Health is full: current and maximum both equal the amount, so a
      positive amount gives a live entity. */
  lemma NewHealthIsFull(amount: real)
    ensures NewHealth(amount).current == NewHealth(amount).max == amount
    ensures amount > 0.0 ==> Live(NewHealth(amount))
  {
  }

  datatype HealthChange = HealthChange(target: nat, amount: real)

  /** The health-related components of one entity: its Health if it still has
      one, the Dead marker, and the progress of its damage flash if one runs. */
  datatype Body = Body(health: Option<Health>, dead: bool, flash: Option<real>)

  /** The change takes the "reached zero" branch: it does not overheal and
      brings current health to zero or below. */
  predicate Kills(h: Health, amount: real)
  {
    !(h.current + amount > h.max) && h.current + amount <= 0.0
  }

  /** Health after adding `amount`: overheal is cut to the maximum and
      anything at or below zero becomes exactly zero. */
  function Clamp(h: Health, amount: real): (r: Health)
    ensures r.max == h.max
    ensures h.max >= 0.0 ==> 0.0 <= r.current <= r.max
    ensures Kills(h, amount) ==> r.current == 0.0
    ensures 0.0 < h.current + amount <= h.max ==> r.current == h.current + amount
    ensures h.current + amount > h.max ==> r.current == h.max
  {
    var c := h.current + amount;
    if c > h.max then h.(current := h.max)
    else if c <= 0.0 then h.(current := 0.0)
    else h.(current := c)
  }

  /** One change applied to one entity that still has Health; a negative
      amount starts a fresh flash. */
  function Change(b: Body, amount: real): (r: Body)
    requires b.health.Some?
    ensures r.health.Some? && r.health.value.max == b.health.value.max && r.dead == b.dead
    ensures amount < 0.0 ==> r.flash == Some(0.0)
    ensures amount >= 0.0 ==> r.flash == b.flash
  {
    Body(Some(Clamp(b.health.value, amount)), b.dead, if amount < 0.0 then Some(0.0) else b.flash)
  }

  /** The entities mid-pass, and the ones whose removal is queued. */
  datatype PassState = PassState(bodies: seq<Body>, doomed: set<nat>)

  /** One event: ignored when its target is gone or has no Health. */
  function Step(s: PassState, e: HealthChange): (r: PassState)
    ensures |r.bodies| == |s.bodies| && s.doomed <= r.doomed
  {
    if e.target < |s.bodies| && s.bodies[e.target].health.Some? then
      var b := s.bodies[e.target];
      PassState(s.bodies[e.target := Change(b, e.amount)],
                if Kills(b.health.value, e.amount) then s.doomed + {e.target} else s.doomed)
    else s
  }

  /** The events applied in order. */
  function ApplyAll(bodies: seq<Body>, events: seq<HealthChange>): (r: PassState)
    ensures |r.bodies| == |bodies|
  {
    if events == [] then PassState(bodies, {})
    else Step(ApplyAll(bodies, events[..|events| - 1]), events[|events| - 1])
  }

  /** The queued commands at the end of the pass: doomed entities lose Health
      and become Dead. */
  function Settle(s: PassState): (r: seq<Body>)
    ensures |r| == |s.bodies|
  {
    seq(|s.bodies|, i requires 0 <= i < |s.bodies| =>
      if i in s.doomed then Body(None, true, s.bodies[i].flash) else s.bodies[i])
  }

  /** The health system's pass over a frame's events. `world` is indexed by
      entity; an event whose target is out of range names a despawned entity. */
  method UpdateHealth(world: array<Body>, events: seq<HealthChange>)
    modifies world
    ensures world[..] == Settle(ApplyAll(old(world[..]), events))
  {
    var doomed: set<nat> := {};
    for i := 0 to |events|
      invariant PassState(world[..], doomed) == ApplyAll(old(world[..]), events[..i])
    {
      assert events[..i + 1][..i] == events[..i];
      var e := events[i];
      if e.target < world.Length && world[e.target].health.Some? {
        var b := world[e.target];
        var h := b.health.value;
        var current := h.current + e.amount;
        if current > h.max {
          current := h.max;
        } else if current <= 0.0 {
          current := 0.0;
          doomed := doomed + {e.target};
        }
        var flash := b.flash;
        if e.amount < 0.0 {
          flash := Some(0.0);
        }
        world[e.target] := Body(Some(h.(current := current)), b.dead, flash);
      }
    }
    assert events[..|events|] == events;
    ghost var pass := PassState(world[..], doomed);
    for i := 0 to world.Length
      invariant forall j :: 0 <= j < i ==> world[j] == Settle(pass)[j]
      invariant forall j :: i <= j < world.Length ==> world[j] == pass.bodies[j]
    {
      if i in doomed {
        world[i] := Body(None, true, world[i].flash);
      }
    }
  }

  // ---------------------------------------------------------------------------
  // Properties of the pass
  // ---------------------------------------------------------------------------

  /** Every entity with Health is alive and in range. */
  predicate AllLive(bodies: seq<Body>)
  {
    forall i :: 0 <= i < |bodies| && bodies[i].health.Some? ==> Live(bodies[i].health.value)
  }

  /** Mid-pass: health stays in [0, max] with a positive maximum, and only a
      doomed entity can sit at zero. */
  predicate InRange(s: PassState)
  {
    forall i :: 0 <= i < |s.bodies| && s.bodies[i].health.Some? ==>
      var h := s.bodies[i].health.value;
      && 0.0 <= h.current <= h.max && h.max > 0.0
      && (i !in s.doomed ==> h.current > 0.0)
  }

  lemma {:induction false} ApplyAllInRange(bodies: seq<Body>, events: seq<HealthChange>)
    requires AllLive(bodies)
    ensures InRange(ApplyAll(bodies, events))
  {
    if events != [] {
      ApplyAllInRange(bodies, events[..|events| - 1]);
    }
  }

  /** After a pass, every entity that still has Health is alive and within
      [0, max]: overheal never exceeds the maximum and no health is negative. */
  lemma HealthStaysLive(bodies: seq<Body>, events: seq<HealthChange>)
    requires AllLive(bodies)
    ensures AllLive(Settle(ApplyAll(bodies, events)))
  {
    ApplyAllInRange(bodies, events);
  }

  /** Entities without Health (dead or never alive) ignore every event. */
  lemma {:induction false} NoHealthIgnoresEvents(bodies: seq<Body>, events: seq<HealthChange>, i: nat)
    requires i < |bodies| && bodies[i].health.None?
    ensures ApplyAll(bodies, events).bodies[i] == bodies[i] && i !in ApplyAll(bodies, events).doomed
    ensures Settle(ApplyAll(bodies, events))[i] == bodies[i]
  {
    if events != [] {
      NoHealthIgnoresEvents(bodies, events[..|events| - 1], i);
    }
  }

  /** An event that brings a live entity to zero leaves it Dead and without
      Health at the end of the pass, whatever later events say. */
  lemma {:induction false} KilledEntityEndsDead(bodies: seq<Body>, events: seq<HealthChange>, k: nat)
    requires k < |events| && events[k].target < |bodies|
    requires var s := ApplyAll(bodies, events[..k]).bodies[events[k].target];
             s.health.Some? && Kills(s.health.value, events[k].amount)
    ensures var r := Settle(ApplyAll(bodies, events))[events[k].target];
            r.health.None? && r.dead
  {
    DoomedStays(bodies, events, k + 1);
    assert events[..k + 1][..k] == events[..k];
  }

  lemma {:induction false} DoomedStays(bodies: seq<Body>, events: seq<HealthChange>, n: nat)
    requires n <= |events|
    ensures ApplyAll(bodies, events[..n]).doomed <= ApplyAll(bodies, events).doomed
    decreases |events| - n
  {
    if n < |events| {
      DoomedStays(bodies, events, n + 1);
      assert events[..n + 1][..n] == events[..n];
    } else {
      assert events[..n] == events;
    }
  }

  /** A flash is started only by a strictly negative change aimed at the entity. */
  lemma {:induction false} FlashOnlyOnDamage(bodies: seq<Body>, events: seq<HealthChange>, i: nat)
    requires i < |bodies|
    requires ApplyAll(bodies, events).bodies[i].flash != bodies[i].flash
    ensures exists k :: 0 <= k < |events| && events[k].target == i && events[k].amount < 0.0
  {
    if events == [] {
      assert false;
    }
    var prefix := events[..|events| - 1];
    var last := events[|events| - 1];
    if ApplyAll(bodies, prefix).bodies[i].flash != bodies[i].flash {
      FlashOnlyOnDamage(bodies, prefix, i);
      var k :| 0 <= k < |prefix| && prefix[k].target == i && prefix[k].amount < 0.0;
      assert events[k] == prefix[k];
    } else {
      assert events[|events| - 1] == last;
    }
  }

  /** A strictly negative change aimed at an entity that still has Health
      starts a fresh flash, and the flash is still running (restarted, if at
      all) at the end of the pass, whatever later events do. */
  lemma {:induction false} DamageFlashes(bodies: seq<Body>, events: seq<HealthChange>, k: nat)
    requires k < |events| && events[k].target < |bodies| && events[k].amount < 0.0
    requires ApplyAll(bodies, events[..k]).bodies[events[k].target].health.Some?
    ensures ApplyAll(bodies, events).bodies[events[k].target].flash == Some(0.0)
    ensures Settle(ApplyAll(bodies, events))[events[k].target].flash == Some(0.0)
  {
    var prefix := events[..|events| - 1];
    if k == |events| - 1 {
      assert prefix == events[..k];
    } else {
      assert prefix[..k] == events[..k];
      assert prefix[k] == events[k];
      DamageFlashes(bodies, prefix, k);
    }
  }

  /** Sum of the amounts of a run of changes. */
  function Total(events: seq<HealthChange>): real
  {
    if events == [] then 0.0 else Total(events[..|events| - 1]) + events[|events| - 1].amount
  }

  /** Changes are applied one after the other: as long as no intermediate
      value needs clamping, the entity ends with its health plus the sum of
      the amounts. */
  lemma {:induction false} ChangesAccumulate(bodies: seq<Body>, events: seq<HealthChange>, t: nat)
    requires t < |bodies| && bodies[t].health.Some?
    requires forall k :: 0 <= k < |events| ==> events[k].target == t
    requires forall n :: 0 <= n <= |events| ==>
               0.0 < bodies[t].health.value.current + Total(events[..n]) <= bodies[t].health.value.max
    ensures ApplyAll(bodies, events).bodies[t].health.Some?
    ensures ApplyAll(bodies, events).bodies[t].health.value.current == bodies[t].health.value.current + Total(events)
    ensures ApplyAll(bodies, events).bodies[t].health.value.max == bodies[t].health.value.max
  {
    if events != [] {
      var prefix := events[..|events| - 1];
      forall n | 0 <= n <= |prefix|
        ensures 0.0 < bodies[t].health.value.current + Total(prefix[..n]) <= bodies[t].health.value.max
      {
        assert prefix[..n] == events[..n];
      }
      ChangesAccumulate(bodies, prefix, t);
      assert events[..|events|] == events;
    }
  }
}
