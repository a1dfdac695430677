/** The plot economy: four fixed plots, each a small state machine driven by
    player actions chosen from a radial menu (the "plot circle") and by a
    per-frame timer, and the compost balance that pays for unlocking and
    planting and is credited by composting and by decay. */
module Plots {
  import opened Options
  import opened Geometry

  datatype Crop = Carrot | Clover | Wheat

  /** The state of one plot. Growing and Ready carry the crop and a progress
      value that rises from 0 towards 1. */
  datatype Plot =
    | Locked
    | Empty
    | Growing(crop: Crop, progress: real)
    | Ready(crop: Crop, progress: real)

  /** The action carried by one button of the plot circle. */
  datatype PlotAction =
    | Plant(crop: Crop)
    | Harvest(crop: Crop)
    | Cancel
    | Compost(crop: Crop)
    | Unlock

  /** Sent when a ripe plot is harvested; turned into units elsewhere. */
  datatype HarvestEvent = HarvestEvent(crop: Crop, pos: Vec3)

  /** Per-crop constants: planting cost, compost value, growing and decay times. */
  datatype CropStats = CropStats(cost: nat, compostValue: nat, growTime: real, decayTime: real)

  /** The economy's constants. Only the carrot times are fixed by the game's
      constants file; everything else is a parameter of the model. */
  datatype Config = Config(unlockCost: nat, carrot: CropStats, clover: CropStats, wheat: CropStats)

  const CarrotGrowTime: real := 3.0
  const CarrotDecayTime: real := 3.0
  const PlotSize: Vec2 := Vec2(32.0, 16.0)

  predicate ValidStats(s: CropStats)
  {
    s.growTime > 0.0 && s.decayTime > 0.0
  }

  predicate ValidConfig(cfg: Config)
  {
    && cfg.carrot.growTime == CarrotGrowTime
    && cfg.carrot.decayTime == CarrotDecayTime
    && ValidStats(cfg.carrot) && ValidStats(cfg.clover) && ValidStats(cfg.wheat)
  }

  /** The crop to constants lookup that each `match crop` in the plot code performs. */
  function Stats(cfg: Config, crop: Crop): (s: CropStats)
    ensures ValidConfig(cfg) ==> ValidStats(s)
    ensures crop == Carrot ==> s.growTime == cfg.carrot.growTime && s.decayTime == cfg.carrot.decayTime
  {
    match crop
    case Carrot => cfg.carrot
    case Clover => cfg.clover
    case Wheat => cfg.wheat
  }

  // ---------------------------------------------------------------------------
  // The menu and the event handler
  // ---------------------------------------------------------------------------

  /** The buttons the plot circle spawns for a plot in state `p`. */
  function OfferedActions(p: Plot): (menu: seq<PlotAction>)
    ensures |menu| > 0
    ensures forall a :: a in menu ==> Accepts(p, a)
  {
    match p
    case Locked => [Unlock]
    case Empty => [Plant(Carrot), Plant(Clover), Plant(Wheat)]
    case Growing(_, _) => [Cancel]
    case Ready(crop, _) => [Compost(crop), Harvest(crop)]
  }

  /** The event arms of the handler that are not `unreachable!()`. The handler
      does not look at the crop inside Harvest and Compost. */
  predicate Accepts(p: Plot, a: PlotAction)
  {
    match p
    case Locked => a.Unlock?
    case Empty => a.Plant?
    case Growing(_, _) => a.Cancel?
    case Ready(_, _) => a.Harvest? || a.Compost?
  }

  /** What handling one action does to its plot and to the balance, and the
      crop of the harvest event it emits, if any. */
  datatype Handled = Handled(plot: Plot, compost: nat, harvested: Option<Crop>)

  /** Handling of one plot action against the plot it targets; `None` is an
      `unreachable!()` arm, that is, an action the plot's state does not take. */
  function Handle(cfg: Config, p: Plot, compost: nat, a: PlotAction): (r: Option<Handled>)
    ensures r.Some? <==> Accepts(p, a)
    // the balance drops only by a guarded debit that also moves the plot on
    ensures r.Some? && r.value.compost < compost ==>
              (p.Locked? || p.Empty?) && r.value.plot != p
    // a harvest event is emitted only from a ripe plot, and carries its crop
    ensures r.Some? && r.value.harvested.Some? ==>
              p.Ready? && r.value.harvested.value == p.crop && r.value.plot == Empty
  {
    match p
    case Locked =>
      if !a.Unlock? then None
      else if compost >= cfg.unlockCost then Some(Handled(Empty, compost - cfg.unlockCost, None))
      else Some(Handled(p, compost, None))
    case Empty =>
      if !a.Plant? then None
      else
        var cost := Stats(cfg, a.crop).cost;
        if compost >= cost then Some(Handled(Growing(a.crop, 0.0), compost - cost, None))
        else Some(Handled(p, compost, None))
    case Growing(_, _) =>
      if a.Cancel? then Some(Handled(Empty, compost, None)) else None
    case Ready(crop, _) =>
      if a.Harvest? then Some(Handled(Empty, compost, Some(crop)))
      else if a.Compost? then Some(Handled(Empty, compost + Stats(cfg, crop).compostValue, None))
      else None
  }

  /** Every action the handler accepts has the same effect as one of the
      buttons the menu offers for that state, so the menu and the handler
      agree exactly, up to the crop inside Harvest and Compost, which the
      handler ignores. */
  lemma MenuMatchesHandler(cfg: Config, p: Plot, compost: nat, a: PlotAction)
    ensures a in OfferedActions(p) ==> Handle(cfg, p, compost, a).Some?
    ensures Handle(cfg, p, compost, a).Some? ==>
              exists b :: b in OfferedActions(p) && Handle(cfg, p, compost, b) == Handle(cfg, p, compost, a)
  {
    if Accepts(p, a) {
      match p
      case Locked =>
        assert OfferedActions(p)[0] == a;
      case Empty =>
        assert OfferedActions(p)[0] == Plant(Carrot);
        assert OfferedActions(p)[1] == Plant(Clover);
        assert OfferedActions(p)[2] == Plant(Wheat);
        assert a in OfferedActions(p) by { assert a.crop == Carrot || a.crop == Clover || a.crop == Wheat; }
      case Growing(_, _) =>
        assert OfferedActions(p)[0] == a;
      case Ready(crop, _) =>
        var b := if a.Harvest? then Harvest(crop) else Compost(crop);
        assert b in OfferedActions(p);
        assert Handle(cfg, p, compost, b) == Handle(cfg, p, compost, a);
    }
  }

  lemma UnlockSpec(cfg: Config, compost: nat)
    ensures compost >= cfg.unlockCost ==>
              Handle(cfg, Locked, compost, Unlock) == Some(Handled(Empty, compost - cfg.unlockCost, None))
    ensures compost < cfg.unlockCost ==>
              Handle(cfg, Locked, compost, Unlock) == Some(Handled(Locked, compost, None))
  {
  }

  lemma PlantSpec(cfg: Config, compost: nat, crop: Crop)
    ensures compost >= Stats(cfg, crop).cost ==>
              Handle(cfg, Empty, compost, Plant(crop))
                == Some(Handled(Growing(crop, 0.0), compost - Stats(cfg, crop).cost, None))
    ensures compost < Stats(cfg, crop).cost ==>
              Handle(cfg, Empty, compost, Plant(crop)) == Some(Handled(Empty, compost, None))
  {
  }

  lemma CancelSpec(cfg: Config, compost: nat, crop: Crop, t: real)
    ensures Handle(cfg, Growing(crop, t), compost, Cancel) == Some(Handled(Empty, compost, None))
  {
  }

  lemma HarvestSpec(cfg: Config, compost: nat, crop: Crop, t: real, any: Crop)
    ensures Handle(cfg, Ready(crop, t), compost, Harvest(any)) == Some(Handled(Empty, compost, Some(crop)))
  {
  }

  lemma CompostSpec(cfg: Config, compost: nat, crop: Crop, t: real, any: Crop)
    ensures Handle(cfg, Ready(crop, t), compost, Compost(any))
              == Some(Handled(Empty, compost + Stats(cfg, crop).compostValue, None))
  {
  }

  // ---------------------------------------------------------------------------
  // The per-frame timer
  // ---------------------------------------------------------------------------

  /** One plot after one frame of `delta` seconds, with the compost its decay
      credits. `circleOpen` is true while any plot circle is open. */
  datatype Ticked = Ticked(plot: Plot, credit: nat)

  function TickPlot(cfg: Config, p: Plot, delta: real, circleOpen: bool): (r: Ticked)
    requires ValidConfig(cfg)
    // while a circle is open no plot changes state, so no menu goes stale
    ensures circleOpen ==> OfferedActions(r.plot) == OfferedActions(p) && r.credit == 0
    ensures r.credit > 0 ==> p.Ready? && r.plot == Empty
  {
    match p
    case Locked => Ticked(p, 0)
    case Empty => Ticked(p, 0)
    case Growing(crop, t) =>
      var t' := t + delta / Stats(cfg, crop).growTime;
      if t' >= 1.0 && !circleOpen then Ticked(Ready(crop, 0.0), 0)
      else Ticked(Growing(crop, t'), 0)
    case Ready(crop, t) =>
      var t' := t + delta / Stats(cfg, crop).decayTime;
      if t' >= 1.0 && !circleOpen then Ticked(Empty, Stats(cfg, crop).compostValue / 2)
      else Ticked(Ready(crop, t'), 0)
  }

  lemma TickGrowingSpec(cfg: Config, crop: Crop, t: real, delta: real, circleOpen: bool)
    requires ValidConfig(cfg)
    ensures var t' := t + delta / Stats(cfg, crop).growTime;
            TickPlot(cfg, Growing(crop, t), delta, circleOpen)
              == if t' >= 1.0 && !circleOpen then Ticked(Ready(crop, 0.0), 0) else Ticked(Growing(crop, t'), 0)
  {
  }

  lemma TickReadySpec(cfg: Config, crop: Crop, t: real, delta: real, circleOpen: bool)
    requires ValidConfig(cfg)
    ensures var t' := t + delta / Stats(cfg, crop).decayTime;
            TickPlot(cfg, Ready(crop, t), delta, circleOpen)
              == if t' >= 1.0 && !circleOpen then Ticked(Empty, Stats(cfg, crop).compostValue / 2)
                 else Ticked(Ready(crop, t'), 0)
  {
  }

  lemma TickLeavesIdlePlots(cfg: Config, p: Plot, delta: real, circleOpen: bool)
    requires ValidConfig(cfg)
    requires p.Locked? || p.Empty?
    ensures TickPlot(cfg, p, delta, circleOpen) == Ticked(p, 0)
  {
  }

  /** With a non-negative frame time, a plot that stays Growing or stays Ready
      keeps its crop and its progress does not go down; the only drop in
      progress is the ripening of a Growing plot into Ready(crop, 0). */
  lemma ProgressNeverDecreases(cfg: Config, p: Plot, delta: real, circleOpen: bool)
    requires ValidConfig(cfg)
    requires delta >= 0.0
    requires p.Growing? || p.Ready?
    ensures var q := TickPlot(cfg, p, delta, circleOpen).plot;
            (q.Growing? || q.Ready?) && q.Growing? == p.Growing? ==> q.crop == p.crop && q.progress >= p.progress
    ensures var q := TickPlot(cfg, p, delta, circleOpen).plot;
            (q.Growing? || q.Ready?) && q.progress < p.progress ==> p.Growing? && q == Ready(p.crop, 0.0)
  {
    var s := Stats(cfg, p.crop);
    assert s.growTime > 0.0 && s.decayTime > 0.0;
    assert delta / s.growTime >= 0.0 && delta / s.decayTime >= 0.0;
  }

  /** A carrot planted now is ready after the carrot growing time (3 seconds)
      of frames with no circle open, whichever way the time is split into
      two frames. */
  lemma CarrotRipensAfterGrowTime(cfg: Config, d1: real, d2: real)
    requires ValidConfig(cfg)
    requires 0.0 <= d1 < CarrotGrowTime && d2 >= 0.0 && d1 + d2 == CarrotGrowTime
    ensures var first := TickPlot(cfg, Growing(Carrot, 0.0), d1, false).plot;
            first == Growing(Carrot, d1 / CarrotGrowTime)
            && TickPlot(cfg, first, d2, false).plot == Ready(Carrot, 0.0)
  {
    assert d1 / CarrotGrowTime + d2 / CarrotGrowTime == (d1 + d2) / CarrotGrowTime;
  }

  /** Total compost that one frame of decay credits over a row of plots. */
  function TotalCredit(cfg: Config, ps: seq<Plot>, delta: real, circleOpen: bool): nat
    requires ValidConfig(cfg)
  {
    if ps == [] then 0
    else TotalCredit(cfg, ps[..|ps| - 1], delta, circleOpen)
         + TickPlot(cfg, ps[|ps| - 1], delta, circleOpen).credit
  }

  /** While a circle is open, no decay credit is paid for any plot. */
  lemma {:induction false} FrozenFrameCreditsNothing(cfg: Config, ps: seq<Plot>, delta: real)
    requires ValidConfig(cfg)
    ensures TotalCredit(cfg, ps, delta, true) == 0
  {
    if ps != [] {
      FrozenFrameCreditsNothing(cfg, ps[..|ps| - 1], delta);
    }
  }

  /** Decay credits half the compost value (rounded down) of every ripe plot
      that decays, so a frame never credits more than the full values. */
  lemma {:induction false} CreditBoundedByCompostValues(cfg: Config, ps: seq<Plot>, delta: real, circleOpen: bool)
    requires ValidConfig(cfg)
    ensures TotalCredit(cfg, ps, delta, circleOpen) <= RipeValue(cfg, ps)
  {
    if ps != [] {
      CreditBoundedByCompostValues(cfg, ps[..|ps| - 1], delta, circleOpen);
    }
  }

  /** Sum of the compost values of the ripe plots in a row. */
  function RipeValue(cfg: Config, ps: seq<Plot>): nat
  {
    if ps == [] then 0
    else RipeValue(cfg, ps[..|ps| - 1])
         + (if ps[|ps| - 1].Ready? then Stats(cfg, ps[|ps| - 1].crop).compostValue else 0)
  }

  // ---------------------------------------------------------------------------
  // The farm: plots, balance, the open circle and the action queue
  // ---------------------------------------------------------------------------

  /** The open plot circle: the plot it was opened on and the buttons that
      have not been clicked yet. */
  datatype PlotCircle = PlotCircle(target: nat, buttons: seq<PlotAction>)

  /** Grid offsets of the three plots that start locked, in spawn order. */
  const LockedOffsets: seq<Vec2> := [Vec2(1.0, 0.0), Vec2(0.0, 1.0), Vec2(-1.0, 0.0)]

  /** World position of a plot spawned at a grid offset. */
  function LayoutPosition(offset: Vec2): Vec3
  {
    Vec3(offset.x * PlotSize.x, offset.y * PlotSize.y, 0.0)
  }

  class Farm {
    const cfg: Config
    /** Plot positions; plots never move. */
    const positions: seq<Vec3>
    var plots: seq<Plot>
    /** The compost balance. */
    var compost: nat
    /** The active plot circle, if one is open. */
    var circle: Option<PlotCircle>
    /** Plot actions sent by button clicks and not handled yet. */
    var pending: seq<PlotAction>

    /** Every button still on the open circle is one the menu offers for the
        current state of its plot. */
    ghost predicate Valid()
      reads this
    {
      && ValidConfig(cfg)
      && |plots| == |positions|
      && (circle.Some? ==>
            && circle.value.target < |plots|
            && forall a :: a in circle.value.buttons ==> a in OfferedActions(plots[circle.value.target]))
    }

    /** Game start: three locked plots right of, above and left of the origin,
        then one empty plot below it. The starting balance is a parameter. */
    constructor Init(config: Config, startCompost: nat)
      requires ValidConfig(config)
      ensures Valid()
      ensures cfg == config && compost == startCompost && circle == None && pending == []
      ensures plots == [Locked, Locked, Locked, Empty]
      ensures positions == [Vec3(32.0, 0.0, 0.0), Vec3(0.0, 16.0, 0.0), Vec3(-32.0, 0.0, 0.0), Vec3(0.0, -16.0, 0.0)]
    {
      var ps: seq<Plot> := [];
      var pos: seq<Vec3> := [];
      for k := 0 to |LockedOffsets|
        invariant |ps| == |pos| == k
        invariant forall j :: 0 <= j < k ==> ps[j] == Locked && pos[j] == LayoutPosition(LockedOffsets[j])
      {
        ps := ps + [Locked];
        pos := pos + [LayoutPosition(LockedOffsets[k])];
      }
      cfg := config;
      positions := pos + [Vec3(0.0, -PlotSize.y, 0.0)];
      plots := ps + [Empty];
      compost := startCompost;
      circle := None;
      pending := [];
    }

    /** A left-button release on a plot opens its circle, unless a selectable
        unit is hovered or a circle is already open. `hit` is the plot under
        the cursor. */
    method PlotClick(hovered: seq<bool>, justReleased: bool, hit: Option<nat>)
      requires Valid()
      requires hit.Some? ==> hit.value < |plots|
      modifies this
      ensures Valid()
      ensures plots == old(plots) && compost == old(compost) && pending == old(pending)
      ensures circle == if true !in hovered && justReleased && old(circle).None? && hit.Some?
                        then Some(PlotCircle(hit.value, OfferedActions(plots[hit.value])))
                        else old(circle)
    {
      if true in hovered {
        return;
      }
      if justReleased && circle.None? {
        if hit.None? {
          return;
        }
        circle := Some(PlotCircle(hit.value, OfferedActions(plots[hit.value])));
      }
    }

    /** A left-button press outside the open circle closes it. */
    method RemovePlotCircle(justPressed: bool, outside: bool)
      requires Valid()
      modifies this
      ensures Valid()
      ensures plots == old(plots) && compost == old(compost) && pending == old(pending)
      ensures circle == if justPressed && outside then None else old(circle)
    {
      if justPressed && circle.Some? && outside {
        circle := None;
      }
    }

    /** A left-button release on a button sends its action and removes the
        button. `hit` is the index of the first button under the cursor. */
    method PlotButtonClick(justReleased: bool, hit: Option<nat>) returns (sent: Option<PlotAction>)
      requires Valid()
      requires hit.Some? ==> circle.Some? && hit.value < |circle.value.buttons|
      modifies this
      ensures Valid()
      ensures plots == old(plots) && compost == old(compost)
      ensures sent == if justReleased && hit.Some? then Some(old(circle).value.buttons[hit.value]) else None
      ensures pending == old(pending) + if sent.Some? then [sent.value] else []
      ensures circle == if sent.Some?
                        then Some(PlotCircle(old(circle).value.target,
                                             old(circle).value.buttons[..hit.value] + old(circle).value.buttons[hit.value + 1..]))
                        else old(circle)
      // what a button sends is an action the handler takes in the current state
      ensures sent.Some? ==> circle.Some? && Accepts(plots[circle.value.target], sent.value)
    {
      sent := None;
      if justReleased && hit.Some? {
        var c := circle.value;
        var k := hit.value;
        sent := Some(c.buttons[k]);
        assert c.buttons[k] in c.buttons;
        circle := Some(PlotCircle(c.target, c.buttons[..k] + c.buttons[k + 1..]));
        assert forall a :: a in circle.value.buttons ==> a in c.buttons;
        pending := pending + [c.buttons[k]];
      }
    }

    /** Drains the queue of plot actions. Each action takes the open circle
        (closing it) and is applied to the circle's plot. A missing circle or
        an action the plot's state does not take stops the game (`ok` is
        false): the first is an `unwrap` of an empty option, the second an
        `unreachable!()` arm. */
    method HandlePlotEvents() returns (harvests: seq<HarvestEvent>, ok: bool)
      requires Valid()
      modifies this
      ensures Valid()
      ensures pending == [] || !ok
      ensures ok <==> old(pending) == []
                      || (|old(pending)| == 1 && old(circle).Some?
                          && Accepts(old(plots)[old(circle).value.target], old(pending)[0]))
      ensures old(pending) == [] ==>
                plots == old(plots) && compost == old(compost) && circle == old(circle) && harvests == []
      ensures old(pending) != [] ==> circle == None
      ensures old(pending) != [] && old(circle).None? ==>
                plots == old(plots) && compost == old(compost) && harvests == []
      // the first action is applied to the circle's plot; nothing else changes
      ensures old(pending) != [] && old(circle).Some? ==>
                var t := old(circle).value.target;
                var h := Handle(cfg, old(plots)[t], old(compost), old(pending)[0]);
                if h.None? then plots == old(plots) && compost == old(compost) && harvests == []
                else
                  && plots == old(plots)[t := h.value.plot]
                  && compost == h.value.compost
                  && harvests == if h.value.harvested.Some? then [HarvestEvent(h.value.harvested.value, positions[t])] else []
    {
      var events := pending;
      pending := [];
      harvests := [];
      ok := true;
      var i := 0;
      while i < |events|
        invariant 0 <= i <= |events| && i <= 1
        invariant Valid() && pending == []
        invariant ok
        invariant i == 0 ==> plots == old(plots) && compost == old(compost) && circle == old(circle) && harvests == []
        invariant i == 1 ==>
                    && old(circle).Some? && circle == None
                    && var t := old(circle).value.target;
                       var h := Handle(cfg, old(plots)[t], old(compost), events[0]);
                       && h.Some?
                       && plots == old(plots)[t := h.value.plot]
                       && compost == h.value.compost
                       && harvests == if h.value.harvested.Some? then [HarvestEvent(h.value.harvested.value, positions[t])] else []
      {
        if circle.None? {
          ok := false;
          return;
        }
        var target := circle.value.target;
        circle := None;
        var h := Handle(cfg, plots[target], compost, events[i]);
        if h.None? {
          ok := false;
          return;
        }
        plots := plots[target := h.value.plot];
        compost := h.value.compost;
        if h.value.harvested.Some? {
          harvests := harvests + [HarvestEvent(h.value.harvested.value, positions[target])];
        }
        i := i + 1;
      }
    }

    /** One frame of the plot timers: every growing or ripe plot advances by
        `delta` seconds, and while no circle is open ripens or decays once its
        progress reaches 1, decay crediting half the crop's compost value. */
    method UpdatePlot(delta: real)
      requires Valid()
      modifies this
      ensures Valid()
      ensures circle == old(circle) && pending == old(pending)
      ensures |plots| == |old(plots)|
      ensures forall i :: 0 <= i < |plots| ==> plots[i] == TickPlot(cfg, old(plots)[i], delta, circle.Some?).plot
      ensures compost == old(compost) + TotalCredit(cfg, old(plots), delta, circle.Some?)
    {
      var open := circle.Some?;
      ghost var before := plots;
      for i := 0 to |plots|
        invariant |plots| == |before|
        invariant circle == old(circle) && pending == old(pending)
        invariant forall j :: 0 <= j < i ==> plots[j] == TickPlot(cfg, before[j], delta, open).plot
        invariant forall j :: i <= j < |plots| ==> plots[j] == before[j]
        invariant compost == old(compost) + TotalCredit(cfg, before[..i], delta, open)
      {
        var r := TickPlot(cfg, plots[i], delta, open);
        assert before[..i + 1][..i] == before[..i];
        plots := plots[i := r.plot];
        compost := compost + r.credit;
      }
      assert before[..|before|] == before;
    }

    /** One frame in which the player clicks button `k` of the open circle and
        the click is then handled: the handler never reaches an
        `unreachable!()` arm, and the circle is closed afterwards. */
    method ChooseAction(k: nat) returns (harvests: seq<HarvestEvent>, ok: bool)
      requires Valid()
      requires pending == [] && circle.Some? && k < |circle.value.buttons|
      modifies this
      ensures Valid()
      ensures ok && circle == None && pending == []
      ensures var t := old(circle).value.target;
              var h := Handle(cfg, old(plots)[t], old(compost), old(circle).value.buttons[k]);
              && h.Some?
              && plots == old(plots)[t := h.value.plot]
              && compost == h.value.compost
              && harvests == if h.value.harvested.Some? then [HarvestEvent(h.value.harvested.value, positions[t])] else []
    {
      var sent := PlotButtonClick(true, Some(k));
      harvests, ok := HandlePlotEvents();
    }
  }
}
