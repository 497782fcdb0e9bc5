/**
 * The selection logic of the map component (src/components/Map/MapView.jsx):
 * which building polygons are drawn, which one is "selected", which drawn
 * polygon is highlighted, and what a click on a polygon does to the
 * selection. Nothing of the map widget itself is modelled.
 *
 * The selection index is an `Option<int>`: `None` is the source's `null`.
 * The polygons are of any type `T`; the source only indexes and copies them.
 */
module MapView {
  import opened Wrappers

  /** `polygons[idx]` is defined (JavaScript yields `undefined` otherwise). */
  predicate InRange<T>(polygons: seq<T>, idx: int)
  {
    0 <= idx < |polygons|
  }

  /** `displayPolygons` (MapView.jsx:67-73). A polygon is an array and so
      always truthy: the test `polygons[selectedBuildingIndex]` only asks
      whether the index is in range. */
  function DisplayPolygons<T>(showBuildings: bool, showOnlySelected: bool, selected: Option<int>,
                              polygons: seq<T>): (shown: seq<T>)
    ensures |shown| <= |polygons|
    ensures forall k :: 0 <= k < |shown| ==> shown[k] in polygons
  {
    if !showBuildings then []
    else if showOnlySelected then
      if selected.Some? && InRange(polygons, selected.value) then [polygons[selected.value]] else []
    else polygons
  }

  /** `selectedPolygon` (MapView.jsx:75-78); `None` covers both the source's
      `null` and the `undefined` of an index out of range. */
  function SelectedPolygon<T>(showBuildings: bool, selected: Option<int>, polygons: seq<T>): (sel: Option<T>)
    ensures sel.Some? ==> sel.value in polygons
  {
    if showBuildings && selected.Some? && InRange(polygons, selected.value)
    then Some(polygons[selected.value])
    else None
  }

  /** The condition shared by `color`, `weight` and `fillOpacity` for the
      polygon drawn at display position `index` (MapView.jsx:124-138). */
  predicate IsHighlighted(showOnlySelected: bool, selected: Option<int>, index: int)
    ensures IsHighlighted(showOnlySelected, selected, index) ==> selected.Some?
  {
    (showOnlySelected && selected.Some?) || (!showOnlySelected && selected == Some(index))
  }

  /** The path options chosen by that condition; `fillOpacity` is kept in
      hundredths (0.55 and 0.4). */
  datatype PathStyle = PathStyle(color: string, weight: int, fillOpacityPercent: int)

  function StyleFor(highlighted: bool): (style: PathStyle)
    ensures style.color == "red" <==> highlighted
  {
    if highlighted then PathStyle("red", 2, 55) else PathStyle("blue", 1, 40)
  }

  /** The highlighted style is red, heavier and more opaque than the plain
      blue one, so a highlighted polygon is told apart from the others. */
  lemma HighlightStandsOut()
    ensures StyleFor(true) != StyleFor(false)
    ensures StyleFor(true).weight > StyleFor(false).weight
    ensures StyleFor(true).fillOpacityPercent > StyleFor(false).fillOpacityPercent
  {
  }

  /** The selection after a click on the polygon drawn at `index`
      (MapView.jsx:141-149): kept while only the selected polygon is shown,
      otherwise the clicked polygon's index is handed to `onSelectBuilding`.
      That this index comes back as the new `selectedBuildingIndex` is an
      assumption about the parent component, which owns the selection. */
  function NextSelection(showOnlySelected: bool, selected: Option<int>, index: int): (next: Option<int>)
    ensures next == selected || next == Some(index)
  {
    if showOnlySelected then selected else Some(index)
  }

  // ---------------------------------------------------------------------
  // What is displayed
  // ---------------------------------------------------------------------

  /** With buildings switched off nothing is drawn and nothing is selected. */
  lemma BuildingsOff<T>(showOnlySelected: bool, selected: Option<int>, polygons: seq<T>)
    ensures DisplayPolygons(false, showOnlySelected, selected, polygons) == []
    ensures SelectedPolygon(false, selected, polygons) == None
  {
  }

  /** Only-selected mode with a valid selection draws exactly that polygon. */
  lemma OnlySelectedShowsIt<T>(selected: Option<int>, polygons: seq<T>)
    requires selected.Some? && InRange(polygons, selected.value)
    ensures DisplayPolygons(true, true, selected, polygons) == [polygons[selected.value]]
  {
  }

  /** Only-selected mode without a valid selection draws nothing. */
  lemma OnlySelectedWithoutSelection<T>(showBuildings: bool, selected: Option<int>, polygons: seq<T>)
    requires selected.None? || !InRange(polygons, selected.value)
    ensures DisplayPolygons(showBuildings, true, selected, polygons) == []
  {
  }

  /** Buildings on, only-selected off: every polygon is drawn, in order. */
  lemma ShowAll<T>(selected: Option<int>, polygons: seq<T>)
    ensures DisplayPolygons(true, false, selected, polygons) == polygons
  {
  }

  /** A polygon is selected exactly when buildings are shown and the index is
      set and in range, and it is then the polygon at that index. */
  lemma SelectedPolygonExactly<T>(showBuildings: bool, selected: Option<int>, polygons: seq<T>)
    ensures SelectedPolygon(showBuildings, selected, polygons).Some? <==>
              showBuildings && selected.Some? && InRange(polygons, selected.value)
    ensures SelectedPolygon(showBuildings, selected, polygons).Some? ==>
              SelectedPolygon(showBuildings, selected, polygons).value == polygons[selected.value]
  {
  }

  // ---------------------------------------------------------------------
  // Highlighting
  // ---------------------------------------------------------------------

  /** At most one drawn polygon is highlighted. */
  lemma AtMostOneHighlighted<T>(showBuildings: bool, showOnlySelected: bool,
                              selected: Option<int>, polygons: seq<T>, i: int, j: int)
    requires 0 <= i < |DisplayPolygons(showBuildings, showOnlySelected, selected, polygons)|
    requires 0 <= j < |DisplayPolygons(showBuildings, showOnlySelected, selected, polygons)|
    requires IsHighlighted(showOnlySelected, selected, i) && IsHighlighted(showOnlySelected, selected, j)
    ensures i == j
  {
    if showOnlySelected {
      assert |DisplayPolygons(showBuildings, showOnlySelected, selected, polygons)| <= 1;
    }
  }

  /** A highlighted drawn polygon is the selected polygon. */
  lemma HighlightedIsSelected<T>(showBuildings: bool, showOnlySelected: bool,
                                 selected: Option<int>, polygons: seq<T>, i: int)
    requires 0 <= i < |DisplayPolygons(showBuildings, showOnlySelected, selected, polygons)|
    requires IsHighlighted(showOnlySelected, selected, i)
    ensures SelectedPolygon(showBuildings, selected, polygons)
            == Some(DisplayPolygons(showBuildings, showOnlySelected, selected, polygons)[i])
  {
  }

  /** A valid selection with buildings shown is drawn, and drawn highlighted:
      at position 0 in only-selected mode, at its own index otherwise. */
  lemma SelectionIsDrawnHighlighted<T>(showOnlySelected: bool, selected: Option<int>, polygons: seq<T>)
    requires selected.Some? && InRange(polygons, selected.value)
    ensures var shown, at := DisplayPolygons(true, showOnlySelected, selected, polygons),
                             if showOnlySelected then 0 else selected.value;
      && at < |shown|
      && shown[at] == polygons[selected.value]
      && IsHighlighted(showOnlySelected, selected, at)
  {
  }

  /** Without a selection nothing drawn is highlighted. */
  lemma NoSelectionNoHighlight(showOnlySelected: bool, index: int)
    ensures !IsHighlighted(showOnlySelected, None, index)
  {
  }

  // ---------------------------------------------------------------------
  // Clicking
  // ---------------------------------------------------------------------

  /** In show-all mode a click selects the clicked polygon, which is then the
      selected polygon and drawn highlighted (provided the parent feeds the
      index given to `onSelectBuilding` back as the selection); in
      only-selected mode a click leaves the selection alone. */
  lemma ClickSelects<T>(showOnlySelected: bool, selected: Option<int>, polygons: seq<T>, index: int)
    ensures showOnlySelected ==> NextSelection(showOnlySelected, selected, index) == selected
    ensures !showOnlySelected ==> NextSelection(showOnlySelected, selected, index) == Some(index)
    ensures !showOnlySelected ==> IsHighlighted(false, NextSelection(false, selected, index), index)
    ensures !showOnlySelected && InRange(polygons, index) ==>
              SelectedPolygon(true, NextSelection(false, selected, index), polygons) == Some(polygons[index])
  {
  }

  /** Clicking the same polygon twice is the same as clicking it once. */
  lemma ClickIdempotent(showOnlySelected: bool, selected: Option<int>, index: int)
    ensures NextSelection(showOnlySelected, NextSelection(showOnlySelected, selected, index), index)
            == NextSelection(showOnlySelected, selected, index)
  {
  }
}
