# Building polygons from Overpass data, and their selection on the map

This project models two pieces of a map application that shows OpenStreetMap
building footprints near a clicked or searched location.

- **`parseBuildings`** turns a raw Overpass API response into closed polygon
  rings (module `Overpass`, `overpass.dfy`). The response is a flat list of
  elements. One pass over it builds an id → position lookup from the nodes and
  collects the ways in encounter order (method `Partition`). Every way's node
  ids are then resolved through the lookup, and ids that do not resolve are
  dropped (`Resolve`). A candidate whose first and last points differ is closed
  by repeating its first point (`CloseRing`). Only closed rings of at least four
  points are kept (`Cleaned`). `ParseBuildings` is the whole routine. It never
  fails, it returns `[]` for a missing input or a missing `elements` field, and
  every ring it returns is closed and has at least four points.
- **The selection logic of `MapView`** (module `MapView`, `mapview.dfy`). It
  decides which polygons are drawn (`DisplayPolygons`) and which polygon is the
  "selected" one (`SelectedPolygon`). It also decides whether a drawn polygon is
  highlighted (`IsHighlighted`, and `StyleFor` for the colour, weight and
  opacity) and what a click does to the selection (`NextSelection`).

Coordinates are modelled as integers (`Overpass.Coord`). The source compares
them only with `===`, so they stand for opaque values. The selection index is an
`Option<int>`, where `None` is JavaScript's `null`.

`parseBuildings` (src/services/overpass.js:39-45) keeps only node and way
elements and ignores relations entirely. It therefore does no multipolygon
stitching of a relation's outer ways, and it puts no relation-derived rings
ahead of the ways: the output follows the ways in encounter order.
`RelationsIgnored` proves that a relation anywhere in the input leaves the
result unchanged, and `BuildingsFollowWays` gives the output order. Three small
worked cases are proved as well (`ClosedWayUnchanged`, `OpenWayClosed`,
`UnknownNodeDropped`).

## Model

| member | source | states |
|---|---|---|
| `Overpass.Partition` | src/services/overpass.js:36-45 | the loop over the elements leaves exactly the node lookup `NodeLookup(els)` and the way list `WaysOf(els)` |
| `Overpass.NodeLookupAppend` | src/services/overpass.js:39-41 | the lookup of `a + b` is the lookup of `a` overridden by the lookup of `b`: later nodes win |
| `Overpass.NodeLookupKeys` | src/services/overpass.js:40-41 | an id has an entry exactly when some node element carries it |
| `Overpass.NodeLookupLastWins` | src/services/overpass.js:41 | the entry for an id is the position of the last node with that id |
| `Overpass.WaysOf` | src/services/overpass.js:42-44 | only way elements are collected, and there are no more ways than elements |
| `Overpass.WaysOfMembers` | src/services/overpass.js:42-44 | an element is among the collected ways exactly when it is a way of the input |
| `Overpass.WaysOfAppend` | src/services/overpass.js:37-44 | ways are collected in encounter order: the ways of `a + b` are those of `a` followed by those of `b` |
| `Overpass.OtherIgnored` | src/services/overpass.js:39-45 | an element that is neither a node nor a way changes neither the lookup nor the ways |
| `Overpass.NodesAndWaysSeparate` | src/services/overpass.js:39-45 | a node never joins the ways; a way never changes the lookup |
| `Overpass.Resolve` | src/services/overpass.js:48 | a resolved ring has at most one point per id, and every point is a position from the lookup |
| `Overpass.ResolveAppend` | src/services/overpass.js:48 | resolution goes id by id in order: resolving `a + b` gives the resolution of `a` followed by that of `b` |
| `Overpass.ResolveAllKnown` | src/services/overpass.js:48 | when every id resolves, the ring has one point per id, the k-th being the position of the k-th id |
| `Overpass.ResolveDropsUnknown` | src/services/overpass.js:48 | an id missing from the lookup is dropped and the other points are unaffected |
| `Overpass.WayBeforeItsNodes` | src/services/overpass.js:39-49 | a leading way leaves the lookup unchanged and heads the list of ways, and its candidate is its ids resolved against the nodes listed after it: the lookup is complete before any way is resolved |
| `Overpass.CloseRing` | src/services/overpass.js:52-60 | empty candidate gives `null`; otherwise the result starts with the candidate, is at most one point longer and has equal ends; it is the candidate unchanged exactly when the candidate's ends agree |
| `Overpass.CloseOpenRing` | src/services/overpass.js:57-58 | an open candidate gains exactly one point, its first |
| `Overpass.CloseIdempotent` | src/services/overpass.js:57-58 | closing a closed ring returns it again |
| `Overpass.Cleaned` | src/services/overpass.js:51-62 | every kept ring has equal ends and at least 4 points, and there are no more rings than candidates |
| `Overpass.CleanedOne` | src/services/overpass.js:53-62 | an empty candidate is dropped; a closed one is kept unchanged iff it has at least 4 points; an open one is kept, with its first point appended, iff it has at least 3 |
| `Overpass.CleanedAppend` | src/services/overpass.js:51-62 | candidates are cleaned one by one, keeping their order |
| `Overpass.CleanedSelects` | src/services/overpass.js:51-62 | the output is an order-preserving selection of the closed candidates: increasing indices, exactly those whose closed form is kept, each output ring the closed form of its candidate |
| `Overpass.SameEnds` | src/services/overpass.js:55-57 | comparing both coordinates of the first and last point is exactly equality of those two positions |
| `Overpass.Candidates` | src/services/overpass.js:47-49 | definition: `ways.map(…)`: the k-th candidate is `Resolve(lookup, ways[k].nodes)` |
| `Overpass.CandidatesAppend` | src/services/overpass.js:47-49 | ways become candidates one by one, in order: the candidates of `a + b` are those of `a` followed by those of `b` |
| `Overpass.Kept` | src/services/overpass.js:62 | definition: a closing result is kept when it is a ring (not `null`) of at least 4 points |
| `Overpass.BuildingsOf` | src/services/overpass.js:33-65 | definition: `[]` for a missing input or `elements`, otherwise the cleaned candidates of the collected ways over the node lookup; its properties are stated by `ParseBuildings` and `BuildingsFollowWays` |
| `Overpass.ParseBuildings` | src/services/overpass.js:33-65 | a missing input or `elements` gives `[]`; every ring is closed with at least 4 points; at most one ring per way; the result is `BuildingsOf(osmData)` |
| `Overpass.BuildingsFollowWays` | src/services/overpass.js:47-62 | the output rings are the kept closed candidates of the ways, in way-encounter order; each candidate is its way's resolved node ids |
| `Overpass.RelationsIgnored` | src/services/overpass.js:39-45 | inserting a relation (any non-node, non-way element) anywhere leaves the output unchanged |
| `Overpass.ClosedWayUnchanged` | src/services/overpass.js:47-62 | a way `[1, 2, 3, 1]` over three nodes comes out as the ring `[A, B, C, A]` unchanged |
| `Overpass.OpenWayClosed` | src/services/overpass.js:55-58 | an open way `[1, 2, 3]` comes out closed as `[A, B, C, A]` |
| `Overpass.UnknownNodeDropped` | src/services/overpass.js:48-62 | a way `[1, 99, 2]` with node 99 missing resolves to `[A, B]`; closed it has at most three points, so no ring is produced |
| `MapView.DisplayPolygons` | src/components/Map/MapView.jsx:67-73 | the displayed list is never longer than `polygons` and holds only polygons of `polygons` |
| `MapView.SelectedPolygon` | src/components/Map/MapView.jsx:75-78 | a selected polygon is always one of `polygons` |
| `MapView.BuildingsOff` | src/components/Map/MapView.jsx:67-78 | with `showBuildings` false nothing is displayed and nothing is selected |
| `MapView.OnlySelectedShowsIt` | src/components/Map/MapView.jsx:69-71 | buildings shown, only-selected on, index set and in range: exactly `[polygons[idx]]` is displayed |
| `MapView.OnlySelectedWithoutSelection` | src/components/Map/MapView.jsx:69-72 | only-selected on with the index `null` or out of range: nothing is displayed |
| `MapView.ShowAll` | src/components/Map/MapView.jsx:73 | buildings shown, only-selected off: the displayed list is exactly `polygons` |
| `MapView.SelectedPolygonExactly` | src/components/Map/MapView.jsx:75-78 | a polygon is selected iff buildings are shown and the index is set and in range, and it is then `polygons[idx]` |
| `MapView.AtMostOneHighlighted` | src/components/Map/MapView.jsx:118-138 | two highlighted display positions are the same position |
| `MapView.HighlightedIsSelected` | src/components/Map/MapView.jsx:118-138 | the polygon drawn at a highlighted position is the selected polygon |
| `MapView.SelectionIsDrawnHighlighted` | src/components/Map/MapView.jsx:67-78 | a valid selection with buildings shown is drawn highlighted, at position 0 in only-selected mode and at its own index otherwise |
| `MapView.NoSelectionNoHighlight` | src/components/Map/MapView.jsx:124-126 | with the index `null` no polygon is highlighted |
| `MapView.IsHighlighted` | src/components/Map/MapView.jsx:124-126 | a polygon is highlighted only when a selection index is set; definition: `(showOnlySelected && idx != null) \|\| (!showOnlySelected && index == idx)` |
| `MapView.StyleFor` | src/components/Map/MapView.jsx:124-138 | the colour is red exactly for a highlighted polygon |
| `MapView.HighlightStandsOut` | src/components/Map/MapView.jsx:124-138 | the highlighted style differs from the plain one and is heavier and more opaque |
| `MapView.NextSelection` | src/components/Map/MapView.jsx:141-149 | a click either keeps the current selection or selects the clicked index |
| `MapView.ClickSelects` | src/components/Map/MapView.jsx:141-149 | in only-selected mode a click keeps the selection; otherwise it selects the clicked index, which is then highlighted and is the selected polygon |
| `MapView.ClickIdempotent` | src/components/Map/MapView.jsx:144-148 | clicking the same polygon twice selects what clicking it once does |

## Left out

- `fetchNearbyBuildings` (src/services/overpass.js:6-28): it builds a query string and sends an HTTP POST. This is network I/O.
- `geocodeAddress` (src/services/geocoding.js): an HTTP call to a geocoding service followed by `parseFloat`. This is I/O and float parsing.
- src/App.jsx and src/components/Search/SearchBox.jsx: React state, effects, `alert` and event wiring. These are not part of this model.
- The Leaflet and React parts of MapView.jsx: map container, tile layers, click capture, `fitBounds`, `setView` and `DomEvent` calls. These are calls into a foreign library. This includes the `enabled` flag of the fit-bounds helper (MapView.jsx:110).
- Floating-point coordinates: `NaN !== NaN` and `0 === -0` are not modelled. Coordinates are compared as plain values.
- JavaScript's loose typing is not modelled. In the source, a way element without a `nodes` array or a `null` element would throw. The model's `Element` type always gives a way its node list, so the model is total. Every falsy `osmData` collapses to `None`.
- Object-key coercion of node ids is not modelled. The source's dictionary keys are strings, and the model keys by `int`.
- MapView: an `undefined` selection index is not modelled separately from `null`. In the source it acts like an out-of-range index for display and selection, but it counts as "set" for highlighting in only-selected mode.
- NextSelection, ClickSelects: MapView owns no selection state; a click only calls `onSelectBuilding(index)` (MapView.jsx:148), and `selectedBuildingIndex` is a prop (MapView.jsx:62-63). The model assumes the parent stores the index given to `onSelectBuilding` and passes it back as the new `selectedBuildingIndex`. No caller in the source supplies these props: App.jsx:38-41 passes none of `polygons`, `selectedBuildingIndex`, `onSelectBuilding`, `showBuildings` or `showOnlySelected`.
- MapView: a missing `polygons` prop is not modelled. `polygons` is always a sequence.
- Multipolygon relation stitching and hole handling are not in the code, so they are not modelled (see above).
- Intermediate arrays: the closing `map` and the length `filter` of lines 51-62 are one recursive pass in the model (`Cleaned`), as are the `map` and `filter(Boolean)` of line 48 (`Resolve`). The `null` placeholders between the two steps are not materialised.
