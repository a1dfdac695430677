/** Unit selection: the drag box that follows the left mouse button, and the
    pass that updates every selectable entity's hovered and selected flags
    (and the visibility of its indicator children) from the entities the
    box touches. */
module Selection {
  import opened Options
  import opened Geometry

  datatype Selectable = Selectable(hovered: bool, selected: bool)

  /** A freshly spawned selectable is neither hovered nor selected. */
  const DefaultSelectable: Selectable := Selectable(false, false)

  /** A child entity of a selectable. It may carry the selection-indicator
      marker, the hover-indicator marker, or neither (a health bar, say); its
      visibility is what the pass updates. */
  datatype Child = Child(selectionIndicator: bool, hoverIndicator: bool, visible: bool)

  datatype SelectableEntity = SelectableEntity(data: Selectable, children: seq<Child>)

  /** A box narrower than this on both axes is a click, not a drag. */
  const SingleSelectExtent: real := 5.0

  function Extents(start: Vec2, end: Vec2): (e: Vec2)
    ensures e.x >= 0.0 && e.y >= 0.0
  {
    Vec2(Abs(start.x - end.x), Abs(start.y - end.y))
  }

  /** The box counts as a single click exactly when both extents are below 5. */
  predicate IsSingleSelect(start: Vec2, end: Vec2)
  {
    var e := Extents(start, end);
    e.x < SingleSelectExtent && e.y < SingleSelectExtent
  }

  /** Entity `i` takes the "hit" branch of the pass: the box touched it and,
      in single-select mode, no earlier entity was touched. */
  predicate Chosen(hit: set<nat>, i: nat, single: bool)
  {
    i in hit && (single ==> forall j: nat :: j < i ==> j !in hit)
  }

  /** New flags of one entity. A chosen entity becomes hovered and, on a
      confirmed selection, selected (toggled while shift is held); any other
      entity stops being hovered and, on a confirmation without shift, is
      deselected. */
  function Refresh(s: Selectable, chosen: bool, confirmed: bool, shift: bool): Selectable
  {
    if chosen then
      Selectable(true, if !confirmed then s.selected else if shift then !s.selected else true)
    else if confirmed && !shift then
      Selectable(false, false)
    else
      Selectable(false, s.selected)
  }

  /** An indicator child shows its flag; a child with both markers or with
      neither is matched by neither indicator query and is left alone. */
  function ShowIndicator(c: Child, s: Selectable): Child
  {
    if c.selectionIndicator && !c.hoverIndicator then c.(visible := s.selected)
    else if c.hoverIndicator && !c.selectionIndicator then c.(visible := s.hovered)
    else c
  }

  function RefreshEntity(e: SelectableEntity, chosen: bool, confirmed: bool, shift: bool): SelectableEntity
  {
    var s := Refresh(e.data, chosen, confirmed, shift);
    SelectableEntity(s, seq(|e.children|, k requires 0 <= k < |e.children| => ShowIndicator(e.children[k], s)))
  }

  /** The whole pass over the entities, in iteration order. */
  function Pass(es: seq<SelectableEntity>, hit: set<nat>, single: bool, confirmed: bool, shift: bool)
    : (r: seq<SelectableEntity>)
    ensures |r| == |es|
  {
    seq(|es|, i requires 0 <= i < |es| => RefreshEntity(es[i], Chosen(hit, i, single), confirmed, shift))
  }

  /** In single-select mode only the first touched entity is hovered. */
  lemma SingleSelectHoversFirstHit(es: seq<SelectableEntity>, hit: set<nat>, confirmed: bool, shift: bool)
    ensures var r := Pass(es, hit, true, confirmed, shift);
            && (forall i :: 0 <= i < |r| ==> (r[i].data.hovered <==> i in hit && forall j: nat :: j < i ==> j !in hit))
            && (forall i, j :: 0 <= i < |r| && 0 <= j < |r| && r[i].data.hovered && r[j].data.hovered ==> i == j)
  {
    var r := Pass(es, hit, true, confirmed, shift);
    forall i, j | 0 <= i < |r| && 0 <= j < |r| && r[i].data.hovered && r[j].data.hovered
      ensures i == j
    {
      assert Chosen(hit, i, true) && Chosen(hit, j, true);
    }
  }

  /** A box drag confirmed without shift selects exactly the touched entities. */
  lemma BoxSelectReplacesSelection(es: seq<SelectableEntity>, hit: set<nat>)
    ensures var r := Pass(es, hit, false, true, false);
            forall i :: 0 <= i < |r| ==> r[i].data.selected == (i in hit) && r[i].data.hovered == (i in hit)
  {
  }

  /** A confirmed single click without shift selects the first touched entity
      and deselects every other one. */
  lemma ClickSelectsOnlyFirstHit(es: seq<SelectableEntity>, hit: set<nat>)
    ensures var r := Pass(es, hit, true, true, false);
            forall i :: 0 <= i < |r| ==> (r[i].data.selected <==> Chosen(hit, i, true))
  {
  }

  /** With shift held, a confirmed selection toggles the chosen entities (every
      touched one for a box, the first touched one for a click), hovers exactly
      those, and leaves everyone else's selection alone. */
  lemma ShiftSelectToggles(es: seq<SelectableEntity>, hit: set<nat>, single: bool)
    ensures var r := Pass(es, hit, single, true, true);
            forall i :: 0 <= i < |r| ==>
              && r[i].data.selected == (if Chosen(hit, i, single) then !es[i].data.selected else es[i].data.selected)
              && r[i].data.hovered == Chosen(hit, i, single)
  {
  }

  /** Without a confirmation nobody's selection changes; only hovering does. */
  lemma UnconfirmedOnlyHovers(es: seq<SelectableEntity>, hit: set<nat>, single: bool, shift: bool)
    ensures var r := Pass(es, hit, single, false, shift);
            forall i :: 0 <= i < |r| ==>
              r[i].data.selected == es[i].data.selected && (r[i].data.hovered <==> Chosen(hit, i, single))
  {
  }

  /** After the pass every indicator child shows its entity's flag. */
  lemma IndicatorsShowFlags(es: seq<SelectableEntity>, hit: set<nat>, single: bool, confirmed: bool, shift: bool)
    ensures var r := Pass(es, hit, single, confirmed, shift);
            forall i, k :: 0 <= i < |r| && 0 <= k < |r[i].children| ==>
              && |r[i].children| == |es[i].children|
              && (es[i].children[k].selectionIndicator && !es[i].children[k].hoverIndicator ==>
                    r[i].children[k].visible == r[i].data.selected)
              && (es[i].children[k].hoverIndicator && !es[i].children[k].selectionIndicator ==>
                    r[i].children[k].visible == r[i].data.hovered)
  {
  }

  /** The selection box that follows the left mouse button. */
  class SelectionBox {
    var start: Vec2
    var end: Vec2
    var selecting: bool
    /** Whether the box sprite is shown, i.e. a drag is in progress. */
    var visible: bool

    constructor ()
      ensures start == Vec2(0.0, 0.0) && end == Vec2(0.0, 0.0) && !selecting && !visible
    {
      start, end := Vec2(0.0, 0.0), Vec2(0.0, 0.0);
      selecting, visible := false, false;
    }

    /** One frame of box handling; returns whether a confirm event was sent.
        A press anchors the box at the cursor, holding drags its far corner,
        releasing hides it and confirms, and otherwise the box tracks the
        cursor as a zero-size hover box. */
    method BoxSelect(justPressed: bool, pressed: bool, justReleased: bool, mouse: Vec3) returns (confirm: bool)
      modifies this
      ensures confirm <==> !justPressed && !(pressed && old(visible)) && justReleased && old(visible)
      ensures justPressed ==>
                start == Truncate(mouse) && end == Truncate(mouse) && selecting && visible
      ensures !justPressed && pressed && old(visible) ==>
                start == old(start) && end == Truncate(mouse) && selecting == old(selecting) && visible
      ensures confirm ==>
                start == old(start) && end == old(end) && !selecting && !visible
      ensures !justPressed && !(pressed && old(visible)) && !confirm ==>
                start == Truncate(mouse) && end == Truncate(mouse)
                && selecting == old(selecting) && visible == old(visible)
    {
      confirm := false;
      if justPressed {
        start, end := Truncate(mouse), Truncate(mouse);
        selecting, visible := true, true;
      } else if pressed && visible {
        end := Truncate(mouse);
      } else if justReleased && visible {
        selecting, visible := false, false;
        confirm := true;
      } else {
        start, end := Truncate(mouse), Truncate(mouse);
      }
    }
  }

  /** A box is a click exactly when its corners differ by less than 5 on each
      axis, in either direction; in particular a box whose corners coincide,
      as after a press or while hovering, is a click. */
  lemma SingleSelectIffSmallBox(start: Vec2, end: Vec2)
    ensures IsSingleSelect(start, end) <==>
              -5.0 < start.x - end.x < 5.0 && -5.0 < start.y - end.y < 5.0
    ensures IsSingleSelect(start, start)
  {
  }

  /** The selection pass over every selectable entity, in iteration order.
      `hit` holds the indices of the entities the box touches, `confirmed`
      whether a confirm event was pending, and `shift` whether either shift
      key is held. */
  method Update(entities: array<SelectableEntity>, box: SelectionBox, hit: set<nat>, confirmed: bool, shift: bool)
    modifies entities
    ensures entities[..] == Pass(old(entities[..]), hit, IsSingleSelect(box.start, box.end), confirmed, shift)
  {
    var single := IsSingleSelect(box.start, box.end);
    // Some(false): single select, nobody chosen yet; Some(true): somebody
    // chosen; None: box select
    var selectSingle: Option<bool> := if single then Some(false) else None;
    for i := 0 to entities.Length
      invariant selectSingle == if single then Some(exists j: nat :: j < i && j in hit) else None
      invariant forall j :: 0 <= j < i ==>
                  entities[j] == RefreshEntity(old(entities[j]), Chosen(hit, j, single), confirmed, shift)
      invariant forall j :: i <= j < entities.Length ==> entities[j] == old(entities[j])
    {
      var updated := if selectSingle.Some? then selectSingle.value else false;
      var data := entities[i].data;
      ghost var chosen := Chosen(hit, i, single);
      assert chosen <==> !updated && i in hit;
      if !updated && i in hit {
        if confirmed {
          if shift {
            data := data.(selected := !data.selected);
          } else {
            data := data.(selected := true);
          }
        }
        data := data.(hovered := true);
        updated := true;
      } else if confirmed {
        data := data.(hovered := false);
        if !shift {
          data := data.(selected := false);
        }
      } else {
        data := data.(hovered := false);
      }
      var children := entities[i].children;
      for k := 0 to |children|
        invariant |children| == |entities[i].children|
        invariant forall m :: 0 <= m < k ==> children[m] == ShowIndicator(entities[i].children[m], data)
        invariant forall m :: k <= m < |children| ==> children[m] == entities[i].children[m]
      {
        var c := children[k];
        if c.selectionIndicator && !c.hoverIndicator {
          c := c.(visible := data.selected);
        }
        if c.hoverIndicator && !c.selectionIndicator {
          c := c.(visible := data.hovered);
        }
        children := children[k := c];
      }
      assert data == Refresh(old(entities[i]).data, chosen, confirmed, shift);
      entities[i] := SelectableEntity(data, children);
      if updated {
        selectSingle := if selectSingle.Some? then Some(true) else None;
      }
    }
  }
}
