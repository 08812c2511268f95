/** The experience page's scroll handler: on every scroll, and once when the
    page mounts, it picks the section to highlight in the sidebar, the last
    section (in the order of the navigation list) whose element starts at or
    above a reference line a fixed distance below the top of the window. */
module ScrollSpy {
  import opened Optional

  /** Height of the navigation bar plus spacing, added to the scroll position. */
  const NavbarOffset: int := 140

  /** The reference line for a scroll position. */
  function ReferenceLine(scrollY: int): int
  {
    scrollY + NavbarOffset
  }

  /** The section `id` has an element on the page and that element's top is at
      or above the line `y`.  `tops` maps each id that has an element to that
      element's offsetTop; an id outside it has no element. */
  predicate Qualifies(id: string, tops: map<string, int>, y: int)
  {
    id in tops && tops[id] <= y
  }

  /** The position of the last id that qualifies, if any does. */
  function LastQualifying(ids: seq<string>, tops: map<string, int>, y: int): (k: Option<nat>)
    ensures k.None? <==> forall i :: 0 <= i < |ids| ==> !Qualifies(ids[i], tops, y)
    ensures k.Some? ==>
      && k.value < |ids|
      && Qualifies(ids[k.value], tops, y)
      && forall j :: k.value < j < |ids| ==> !Qualifies(ids[j], tops, y)
    decreases |ids|
  {
    if ids == [] then None
    else if Qualifies(ids[|ids| - 1], tops, y) then Some(|ids| - 1)
    else LastQualifying(ids[..|ids| - 1], tops, y)
  }

  /** The position of the highlighted section: the last qualifying one, or the
      first section when none qualifies. */
  function ActiveIndex(ids: seq<string>, tops: map<string, int>, scrollY: int): (k: nat)
    requires ids != []
    ensures k < |ids|
  {
    match LastQualifying(ids, tops, ReferenceLine(scrollY))
    case Some(k) => k
    case None => 0
  }

  /** The id the handler hands to `setActiveId`: none when there are no ids
      (reading the first of no ids gives `undefined`). */
  function Active(ids: seq<string>, tops: map<string, int>, scrollY: int): (r: Option<string>)
    ensures r.None? <==> ids == []
    ensures r.Some? ==> r.value in ids
  {
    if ids == [] then None else Some(ids[ActiveIndex(ids, tops, scrollY)])
  }

  /** The scroll handler: start from the first id, then walk the ids in order,
      skip those without an element and take every id whose element's top is
      at or above the reference line. */
  method ScrollHandler(ids: seq<string>, tops: map<string, int>, scrollY: int) returns (current: Option<string>)
    ensures current == Active(ids, tops, scrollY)
    ensures current.None? <==> ids == []
    ensures current.Some? ==> current.value in ids
  {
    var y := scrollY + NavbarOffset;
    current := if ids != [] then Some(ids[0]) else None;
    for i := 0 to |ids|
      invariant ids == [] ==> current.None?
      invariant ids != [] ==> current == Some(ids[
        match LastQualifying(ids[..i], tops, y) case Some(k) => k case None => 0])
    {
      var id := ids[i];
      if id !in tops {
        continue;
      }
      if tops[id] <= y {
        current := Some(id);
      }
      assert ids[..i + 1][..i] == ids[..i];
    }
    assert ids[..|ids|] == ids;
  }

  /** When some section qualifies, the highlighted one is the last that does. */
  lemma ActiveIsLastQualifying(ids: seq<string>, tops: map<string, int>, scrollY: int, k: nat)
    requires k < |ids| && Qualifies(ids[k], tops, ReferenceLine(scrollY))
    requires forall j :: k < j < |ids| ==> !Qualifies(ids[j], tops, ReferenceLine(scrollY))
    ensures ActiveIndex(ids, tops, scrollY) == k
    ensures Active(ids, tops, scrollY) == Some(ids[k])
  {
  }

  /** When no section qualifies, the first one is highlighted. */
  lemma ActiveDefaultsToFirst(ids: seq<string>, tops: map<string, int>, scrollY: int)
    requires ids != []
    requires forall i :: 0 <= i < |ids| ==> !Qualifies(ids[i], tops, ReferenceLine(scrollY))
    ensures ActiveIndex(ids, tops, scrollY) == 0
    ensures Active(ids, tops, scrollY) == Some(ids[0])
  {
  }

  /** An id with no element is highlighted only as the first id, when nothing
      qualifies. */
  lemma MissingSectionNotChosen(ids: seq<string>, tops: map<string, int>, scrollY: int, id: string)
    requires id !in tops
    requires Active(ids, tops, scrollY) == Some(id)
    ensures id == ids[0]
    ensures forall i :: 0 <= i < |ids| ==> !Qualifies(ids[i], tops, ReferenceLine(scrollY))
  {
  }

  /** Scrolling further down never moves the highlight to an earlier section:
      every id that qualifies at a line still qualifies at any lower line. */
  lemma ActiveIndexMonotonic(ids: seq<string>, tops: map<string, int>, scrollY: int, scrollY': int)
    requires ids != [] && scrollY <= scrollY'
    ensures ActiveIndex(ids, tops, scrollY) <= ActiveIndex(ids, tops, scrollY')
  {
    match LastQualifying(ids, tops, ReferenceLine(scrollY))
    case None =>
    case Some(k) =>
      assert Qualifies(ids[k], tops, ReferenceLine(scrollY'));
  }
}
