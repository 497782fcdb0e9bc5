/**
 * The conversion of a raw Overpass API response into the polygon rings the
 * map draws (`parseBuildings` in src/services/overpass.js).
 *
 * The response is a flat list of elements. Nodes feed an id -> position
 * lookup, ways are collected in encounter order, and every other element
 * (relations included) is ignored. Each way becomes a candidate ring by
 * resolving its node ids through the lookup, dropping those that do not
 * resolve; a candidate is closed by repeating its first point when its ends
 * differ, and only closed rings of at least four points are kept.
 */
module Overpass {
  import opened Wrappers

  /** A latitude or longitude. It stands for a JavaScript number and is only
      ever compared with `===`, so any type with equality would do. */
  type Coord = int

  datatype Position = Position(lat: Coord, lon: Coord)

  /** One record of the response's `elements` list, told apart by its `type`. */
  datatype Element =
    | Node(id: int, lat: Coord, lon: Coord)
    | Way(id: int, nodes: seq<int>)
    | Other

  /** The decoded response; `elements` may be missing. */
  datatype Response = Response(elements: Option<seq<Element>>)

  type Ring = seq<Position>

  /** The test of overpass.js:57: both coordinates of the first and the last
      point agree. */
  predicate SameEnds(ring: Ring)
    requires |ring| > 0
    ensures SameEnds(ring) <==> ring[0] == ring[|ring| - 1]
  {
    ring[0].lat == ring[|ring| - 1].lat && ring[0].lon == ring[|ring| - 1].lon
  }

  /** What every ring handed to the map satisfies. */
  predicate IsPolygon(ring: Ring)
  {
    |ring| >= 4 && SameEnds(ring)
  }

  // ---------------------------------------------------------------------
  // The forEach loop over the elements (overpass.js:36-45)
  // ---------------------------------------------------------------------

  /** The `nodes` dictionary after the loop has seen `els`; a later node with
      an id already present overwrites the earlier entry. */
  function NodeLookup(els: seq<Element>): map<int, Position>
  {
    if els == [] then map[]
    else
      var m := NodeLookup(els[..|els| - 1]);
      match els[|els| - 1]
      case Node(id, lat, lon) => m[id := Position(lat, lon)]
      case _ => m
  }

  /** The `ways` array after the loop has seen `els`. */
  function WaysOf(els: seq<Element>): (ws: seq<Element>)
    ensures |ws| <= |els|
    ensures forall k :: 0 <= k < |ws| ==> ws[k].Way?
  {
    if els == [] then []
    else WaysOf(els[..|els| - 1]) + (if els[|els| - 1].Way? then [els[|els| - 1]] else [])
  }

  /** The loop itself: one pass over the elements filling the lookup and the
      list of ways. */
  method Partition(els: seq<Element>) returns (nodes: map<int, Position>, ways: seq<Element>)
    ensures nodes == NodeLookup(els)
    ensures ways == WaysOf(els)
  {
    nodes, ways := map[], [];
    var i := 0;
    while i < |els|
      invariant 0 <= i <= |els|
      invariant nodes == NodeLookup(els[..i])
      invariant ways == WaysOf(els[..i])
    {
      assert els[..i + 1][..i] == els[..i];
      match els[i] {
        case Node(id, lat, lon) =>
          nodes := nodes[id := Position(lat, lon)];
        case Way(_, _) =>
          ways := ways + [els[i]];
        case Other =>
      }
      i := i + 1;
    }
    assert els[..|els|] == els;
  }

  /** Splitting the input splits the lookup: the entries of the later part
      win over those of the earlier part. */
  lemma {:induction false} NodeLookupAppend(a: seq<Element>, b: seq<Element>)
    ensures NodeLookup(a + b) == NodeLookup(a) + NodeLookup(b)
  {
    if b == [] {
      assert a + b == a;
    } else {
      var b' := b[..|b| - 1];
      assert (a + b)[..|a + b| - 1] == a + b';
      assert (a + b)[|a + b| - 1] == b[|b| - 1];
      NodeLookupAppend(a, b');
    }
  }

  /** An id has an entry exactly when some node carries it. */
  lemma {:induction false} NodeLookupKeys(els: seq<Element>, id: int)
    ensures id in NodeLookup(els) <==> exists i :: 0 <= i < |els| && els[i].Node? && els[i].id == id
  {
    if els != [] {
      var init := els[..|els| - 1];
      NodeLookupKeys(init, id);
      if id in NodeLookup(init) {
        var i :| 0 <= i < |init| && init[i].Node? && init[i].id == id;
        assert els[i] == init[i];
      }
      if exists i :: 0 <= i < |els| && els[i].Node? && els[i].id == id {
        var i :| 0 <= i < |els| && els[i].Node? && els[i].id == id;
        if i < |init| {
          assert init[i] == els[i];
        }
      }
    }
  }

  /** Last write wins: the entry for an id is the position of the last node
      that carries it. */
  lemma NodeLookupLastWins(els: seq<Element>, i: int)
    requires 0 <= i < |els| && els[i].Node?
    requires forall j :: i < j < |els| && els[j].Node? ==> els[j].id != els[i].id
    ensures els[i].id in NodeLookup(els)
    ensures NodeLookup(els)[els[i].id] == Position(els[i].lat, els[i].lon)
  {
    var a, b := els[..i + 1], els[i + 1..];
    assert els == a + b;
    NodeLookupAppend(a, b);
    assert a[..|a| - 1] == els[..i];
    NodeLookupKeys(b, els[i].id);
    forall j | 0 <= j < |b|
      ensures !(b[j].Node? && b[j].id == els[i].id)
    {
      assert b[j] == els[i + 1 + j];
    }
  }

  /** A way is collected exactly when it occurs in the input. */
  lemma {:induction false} WaysOfMembers(els: seq<Element>, w: Element)
    ensures w in WaysOf(els) <==> w in els && w.Way?
  {
    if els != [] {
      var init := els[..|els| - 1];
      WaysOfMembers(init, w);
      assert els == init + [els[|els| - 1]];
    }
  }

  /** Ways are collected in encounter order. */
  lemma {:induction false} WaysOfAppend(a: seq<Element>, b: seq<Element>)
    ensures WaysOf(a + b) == WaysOf(a) + WaysOf(b)
  {
    if b == [] {
      assert a + b == a;
    } else {
      var b' := b[..|b| - 1];
      assert (a + b)[..|a + b| - 1] == a + b';
      assert (a + b)[|a + b| - 1] == b[|b| - 1];
      WaysOfAppend(a, b');
    }
  }

  /** An element that is neither a node nor a way (a relation, say) changes
      neither the lookup nor the ways. */
  lemma OtherIgnored(a: seq<Element>, e: Element, b: seq<Element>)
    requires !e.Node? && !e.Way?
    ensures NodeLookup(a + [e] + b) == NodeLookup(a + b)
    ensures WaysOf(a + [e] + b) == WaysOf(a + b)
  {
    NodeLookupAppend(a + [e], b);
    NodeLookupAppend(a, [e]);
    NodeLookupAppend(a, b);
    WaysOfAppend(a + [e], b);
    WaysOfAppend(a, [e]);
    WaysOfAppend(a, b);
    assert [e][..0] == [];
  }

  /** A node only feeds the lookup; a way only joins the list of ways. */
  lemma NodesAndWaysSeparate(a: seq<Element>, e: Element, b: seq<Element>)
    ensures e.Node? ==> WaysOf(a + [e] + b) == WaysOf(a + b)
    ensures e.Way? ==> NodeLookup(a + [e] + b) == NodeLookup(a + b)
  {
    NodeLookupAppend(a + [e], b);
    NodeLookupAppend(a, [e]);
    NodeLookupAppend(a, b);
    WaysOfAppend(a + [e], b);
    WaysOfAppend(a, [e]);
    WaysOfAppend(a, b);
    assert [e][..0] == [];
  }

  // ---------------------------------------------------------------------
  // From ways to candidate rings (overpass.js:47-49)
  // ---------------------------------------------------------------------

  /** `way.nodes.map((id) => nodes[id]).filter(Boolean)`: the positions of the
      ids that resolve, in order. A resolved position is a two-element array
      and so always truthy; only the unresolved ids are filtered out. */
  function Resolve(lookup: map<int, Position>, refs: seq<int>): (ring: Ring)
    ensures |ring| <= |refs|
    ensures forall k :: 0 <= k < |ring| ==> ring[k] in lookup.Values
  {
    if refs == [] then []
    else (if refs[0] in lookup then [lookup[refs[0]]] else []) + Resolve(lookup, refs[1..])
  }

  /** Resolution works id by id, keeping the order of the ids. */
  lemma {:induction false} ResolveAppend(lookup: map<int, Position>, a: seq<int>, b: seq<int>)
    ensures Resolve(lookup, a + b) == Resolve(lookup, a) + Resolve(lookup, b)
  {
    if a == [] {
      assert a + b == b;
    } else {
      assert (a + b)[1..] == a[1..] + b;
      ResolveAppend(lookup, a[1..], b);
    }
  }

  /** When every id resolves, the ring is the ids' positions, one per id. */
  lemma {:induction false} ResolveAllKnown(lookup: map<int, Position>, refs: seq<int>)
    requires forall k :: 0 <= k < |refs| ==> refs[k] in lookup
    ensures |Resolve(lookup, refs)| == |refs|
    ensures forall k :: 0 <= k < |refs| ==> Resolve(lookup, refs)[k] == lookup[refs[k]]
  {
    if refs != [] {
      ResolveAllKnown(lookup, refs[1..]);
    }
  }

  /** An id that does not resolve is dropped and leaves the rest as it was. */
  lemma ResolveDropsUnknown(lookup: map<int, Position>, a: seq<int>, id: int, b: seq<int>)
    requires id !in lookup
    ensures Resolve(lookup, a + [id] + b) == Resolve(lookup, a + b)
  {
    ResolveAppend(lookup, a + [id], b);
    ResolveAppend(lookup, a, [id]);
    ResolveAppend(lookup, a, b);
    assert Resolve(lookup, [id]) == [];
  }

  /** The candidate of every collected way, in the order of the ways. */
  function Candidates(lookup: map<int, Position>, ways: seq<Element>): seq<Ring>
    requires forall k :: 0 <= k < |ways| ==> ways[k].Way?
  {
    seq(|ways|, k requires 0 <= k < |ways| => Resolve(lookup, ways[k].nodes))
  }

  /** Ways are turned into candidates one by one: the candidates of `a + b`
      are those of `a` followed by those of `b`, all over the same lookup. */
  lemma CandidatesAppend(lookup: map<int, Position>, a: seq<Element>, b: seq<Element>)
    requires forall k :: 0 <= k < |a| ==> a[k].Way?
    requires forall k :: 0 <= k < |b| ==> b[k].Way?
    ensures Candidates(lookup, a + b) == Candidates(lookup, a) + Candidates(lookup, b)
  {
  }

  // ---------------------------------------------------------------------
  // Closing and filtering (overpass.js:51-62)
  // ---------------------------------------------------------------------

  /** The `map` callback of lines 52-61: `None` (the source's `null`) for an
      empty candidate, otherwise the candidate closed by repeating its first
      point when its ends differ. */
  function CloseRing(ring: Ring): (c: Option<Ring>)
    ensures c.None? <==> ring == []
    ensures c.Some? ==> |ring| <= |c.value| <= |ring| + 1 && c.value[..|ring|] == ring
    ensures c.Some? ==> SameEnds(c.value)
    ensures c.Some? ==> (c.value == ring <==> SameEnds(ring))
  {
    if ring == [] then None
    else if SameEnds(ring) then Some(ring)
    else Some(ring + [ring[0]])
  }

  /** The `filter` callback of line 62. */
  predicate Kept(c: Option<Ring>)
  {
    c.Some? && |c.value| >= 4
  }

  /** The closing `map` followed by the length `filter`: the kept closed
      candidates, in the candidates' order. */
  function Cleaned(cands: seq<Ring>): (out: seq<Ring>)
    ensures |out| <= |cands|
    ensures forall k :: 0 <= k < |out| ==> IsPolygon(out[k])
  {
    if cands == [] then []
    else
      var c := CloseRing(cands[0]);
      (if Kept(c) then [c.value] else []) + Cleaned(cands[1..])
  }

  /** An open candidate gains exactly one point, its first. */
  lemma CloseOpenRing(ring: Ring)
    requires ring != [] && !SameEnds(ring)
    ensures CloseRing(ring) == Some(ring + [ring[0]])
  {
    var r := CloseRing(ring).value;
    assert |r| == |ring| + 1;
    assert r == r[..|ring|] + [r[|ring|]];
  }

  /** Closing a closed ring changes nothing. */
  lemma CloseIdempotent(ring: Ring)
    requires ring != []
    ensures CloseRing(CloseRing(ring).value) == CloseRing(ring)
  {
  }

  /** Which single candidate survives: an empty one never does, a closed one
      when it has at least four points, an open one when it has at least
      three (it then gains its closing point). */
  lemma CleanedOne(p: Ring)
    ensures p == [] ==> Cleaned([p]) == []
    ensures p != [] && SameEnds(p) ==> Cleaned([p]) == (if |p| >= 4 then [p] else [])
    ensures p != [] && !SameEnds(p) ==> Cleaned([p]) == (if |p| >= 3 then [p + [p[0]]] else [])
  {
    assert [p][1..] == [];
    if p != [] && !SameEnds(p) {
      CloseOpenRing(p);
    }
  }

  /** Cleaning works candidate by candidate, keeping their order. */
  lemma {:induction false} CleanedAppend(a: seq<Ring>, b: seq<Ring>)
    ensures Cleaned(a + b) == Cleaned(a) + Cleaned(b)
  {
    if a == [] {
      assert a + b == b;
    } else {
      assert (a + b)[0] == a[0];
      assert (a + b)[1..] == a[1..] + b;
      CleanedAppend(a[1..], b);
    }
  }

  /** `out` is an order-preserving selection of the closed candidates:
      `idx` lists, in increasing order, exactly the positions of the
      candidates that are kept, and `out[k]` is the closed form of the
      candidate at `idx[k]`. */
  ghost predicate IsSelection(cands: seq<Ring>, out: seq<Ring>, idx: seq<int>)
  {
    PicksOut(cands, out, idx) && Increasing(idx) && PicksKept(cands, idx)
  }

  ghost predicate PicksOut(cands: seq<Ring>, out: seq<Ring>, idx: seq<int>)
  {
    |idx| == |out| &&
    forall k :: 0 <= k < |idx| ==> 0 <= idx[k] < |cands| && CloseRing(cands[idx[k]]) == Some(out[k])
  }

  ghost predicate Increasing(idx: seq<int>)
  {
    forall k, l :: 0 <= k < l < |idx| ==> idx[k] < idx[l]
  }

  ghost predicate PicksKept(cands: seq<Ring>, idx: seq<int>)
  {
    forall i :: 0 <= i < |cands| ==> (Kept(CloseRing(cands[i])) <==> i in idx)
  }

  /** Every index moved one place on, past a dropped or kept head. */
  function Shift(idx: seq<int>): seq<int>
  {
    seq(|idx|, k requires 0 <= k < |idx| => idx[k] + 1)
  }

  lemma ShiftMembers(idx: seq<int>, i: int)
    ensures i in Shift(idx) <==> i - 1 in idx
  {
    if i in Shift(idx) {
      var k :| 0 <= k < |idx| && Shift(idx)[k] == i;
      assert idx[k] == i - 1;
    }
    if i - 1 in idx {
      var k :| 0 <= k < |idx| && idx[k] == i - 1;
      assert Shift(idx)[k] == i;
    }
  }

  lemma PicksOutCons(cands: seq<Ring>, out: seq<Ring>, idx: seq<int>, taken: bool)
    requires cands != [] && PicksOut(cands[1..], out, idx)
    requires taken ==> CloseRing(cands[0]).Some?
    ensures PicksOut(cands, (if taken then [CloseRing(cands[0]).value] else []) + out,
                     (if taken then [0] else []) + Shift(idx))
  {
    var n := if taken then 1 else 0;
    var idx' := (if taken then [0] else []) + Shift(idx);
    var out' := (if taken then [CloseRing(cands[0]).value] else []) + out;
    forall k | n <= k < |idx'|
      ensures 0 <= idx'[k] < |cands| && CloseRing(cands[idx'[k]]) == Some(out'[k])
    {
      assert idx'[k] == idx[k - n] + 1;
      assert out'[k] == out[k - n];
      assert cands[idx'[k]] == cands[1..][idx[k - n]];
    }
  }

  lemma IncreasingCons(idx: seq<int>, taken: bool)
    requires Increasing(idx) && forall k :: 0 <= k < |idx| ==> 0 <= idx[k]
    ensures Increasing((if taken then [0] else []) + Shift(idx))
  {
    var n := if taken then 1 else 0;
    var idx' := (if taken then [0] else []) + Shift(idx);
    forall k, l | 0 <= k < l < |idx'|
      ensures idx'[k] < idx'[l]
    {
      assert idx'[l] == idx[l - n] + 1;
      if k >= n {
        assert idx'[k] == idx[k - n] + 1;
      }
    }
  }

  lemma PicksKeptCons(cands: seq<Ring>, idx: seq<int>)
    requires cands != [] && PicksKept(cands[1..], idx)
    requires forall k :: 0 <= k < |idx| ==> 0 <= idx[k]
    ensures PicksKept(cands, (if Kept(CloseRing(cands[0])) then [0] else []) + Shift(idx))
  {
    var idx' := (if Kept(CloseRing(cands[0])) then [0] else []) + Shift(idx);
    forall i | 0 < i < |cands|
      ensures Kept(CloseRing(cands[i])) <==> i in idx'
    {
      assert cands[i] == cands[1..][i - 1];
      ShiftMembers(idx, i);
    }
    ShiftMembers(idx, 0);
  }

  /** The result of `Cleaned` is such a selection. */
  lemma {:induction false} CleanedSelects(cands: seq<Ring>) returns (idx: seq<int>)
    ensures IsSelection(cands, Cleaned(cands), idx)
  {
    if cands == [] {
      idx := [];
    } else {
      var rest := CleanedSelects(cands[1..]);
      var c := CloseRing(cands[0]);
      PicksOutCons(cands, Cleaned(cands[1..]), rest, Kept(c));
      IncreasingCons(rest, Kept(c));
      PicksKeptCons(cands, rest);
      idx := (if Kept(c) then [0] else []) + Shift(rest);
    }
  }

  // ---------------------------------------------------------------------
  // parseBuildings (overpass.js:33-65)
  // ---------------------------------------------------------------------

  /** What `parseBuildings` returns, as a function of its argument; `None`
      stands for a missing (falsy) argument. */
  function BuildingsOf(osmData: Option<Response>): seq<Ring>
  {
    match osmData
    case None => []
    case Some(resp) =>
      match resp.elements
      case None => []
      case Some(els) => Cleaned(Candidates(NodeLookup(els), WaysOf(els)))
  }

  /** `parseBuildings`: never fails, returns nothing for a missing input or a
      missing `elements` field, and returns at most one ring per way, every
      ring closed and of at least four points. */
  method ParseBuildings(osmData: Option<Response>) returns (polygons: seq<Ring>)
    ensures polygons == BuildingsOf(osmData)
    ensures osmData.None? || osmData.value.elements.None? ==> polygons == []
    ensures osmData.Some? && osmData.value.elements.Some? ==>
              |polygons| <= |WaysOf(osmData.value.elements.value)|
    ensures forall k :: 0 <= k < |polygons| ==> IsPolygon(polygons[k])
  {
    if osmData.None? || osmData.value.elements.None? {
      return [];
    }
    var nodes, ways := Partition(osmData.value.elements.value);
    var candidates := Candidates(nodes, ways);
    polygons := Cleaned(candidates);
  }

  /** The output rings come from the ways in encounter order: the k-th ring
      is the closed candidate of way `idx[k]`, the indices increase, and a
      way contributes exactly when its closed candidate is kept. */
  lemma BuildingsFollowWays(els: seq<Element>) returns (idx: seq<int>)
    ensures var ways := WaysOf(els);
      IsSelection(Candidates(NodeLookup(els), ways), BuildingsOf(Some(Response(Some(els)))), idx)
      && forall i :: 0 <= i < |ways| ==> Candidates(NodeLookup(els), ways)[i] == Resolve(NodeLookup(els), ways[i].nodes)
  {
    var cands := Candidates(NodeLookup(els), WaysOf(els));
    idx := CleanedSelects(cands);
  }

  /** A relation (or any other non-node, non-way element) anywhere in the
      input does not change the result. */
  lemma RelationsIgnored(a: seq<Element>, e: Element, b: seq<Element>)
    requires !e.Node? && !e.Way?
    ensures BuildingsOf(Some(Response(Some(a + [e] + b)))) == BuildingsOf(Some(Response(Some(a + b))))
  {
    OtherIgnored(a, e, b);
  }

  // ---------------------------------------------------------------------
  // Worked cases
  // ---------------------------------------------------------------------

  function Nodes3(p: Position, q: Position, r: Position): seq<Element>
  {
    [Node(1, p.lat, p.lon), Node(2, q.lat, q.lon), Node(3, r.lat, r.lon)]
  }

  /** The loop's effect of a single element. */
  lemma OneElement(e: Element)
    ensures NodeLookup([e]) == (if e.Node? then map[e.id := Position(e.lat, e.lon)] else map[])
    ensures WaysOf([e]) == (if e.Way? then [e] else [])
  {
    assert [e][..0] == [];
  }

  lemma Nodes3Lookup(p: Position, q: Position, r: Position)
    ensures NodeLookup(Nodes3(p, q, r)) == map[1 := p, 2 := q, 3 := r]
    ensures WaysOf(Nodes3(p, q, r)) == []
  {
    var n1, n2, n3 := Node(1, p.lat, p.lon), Node(2, q.lat, q.lon), Node(3, r.lat, r.lon);
    assert Nodes3(p, q, r) == [n1] + [n2] + [n3];
    NodeLookupAppend([n1] + [n2], [n3]);
    NodeLookupAppend([n1], [n2]);
    WaysOfAppend([n1] + [n2], [n3]);
    WaysOfAppend([n1], [n2]);
    OneElement(n1);
    OneElement(n2);
    OneElement(n3);
  }

  /** A way listed before its nodes: the lookup sees every node first, so
      the way heads the list of ways and its candidate is its ids resolved
      against the nodes that follow it. */
  lemma WayBeforeItsNodes(w: Element, rest: seq<Element>)
    requires w.Way?
    ensures NodeLookup([w] + rest) == NodeLookup(rest)
    ensures WaysOf([w] + rest) == [w] + WaysOf(rest)
    ensures Candidates(NodeLookup([w] + rest), WaysOf([w] + rest))[0] == Resolve(NodeLookup(rest), w.nodes)
  {
    NodeLookupAppend([w], rest);
    WaysOfAppend([w], rest);
    assert [w][..0] == [];
  }

  /** A closed way [A, B, C, A] comes out unchanged. */
  lemma ClosedWayUnchanged(p: Position, q: Position, r: Position)
    ensures BuildingsOf(Some(Response(Some([Way(10, [1, 2, 3, 1])] + Nodes3(p, q, r))))) == [[p, q, r, p]]
  {
    var w := Way(10, [1, 2, 3, 1]);
    WayBeforeItsNodes(w, Nodes3(p, q, r));
    Nodes3Lookup(p, q, r);
    var lookup := map[1 := p, 2 := q, 3 := r];
    ResolveAllKnown(lookup, w.nodes);
    assert Resolve(lookup, w.nodes) == [p, q, r, p];
    assert Candidates(lookup, [w]) == [[p, q, r, p]];
    CleanedOne([p, q, r, p]);
  }

  /** An open way [A, B, C] is closed to [A, B, C, A]. */
  lemma OpenWayClosed(p: Position, q: Position, r: Position)
    requires p != r
    ensures BuildingsOf(Some(Response(Some([Way(10, [1, 2, 3])] + Nodes3(p, q, r))))) == [[p, q, r, p]]
  {
    var w := Way(10, [1, 2, 3]);
    WayBeforeItsNodes(w, Nodes3(p, q, r));
    Nodes3Lookup(p, q, r);
    var lookup := map[1 := p, 2 := q, 3 := r];
    ResolveAllKnown(lookup, w.nodes);
    assert Resolve(lookup, w.nodes) == [p, q, r];
    assert Candidates(lookup, [w]) == [[p, q, r]];
    assert !SameEnds([p, q, r]);
    CleanedOne([p, q, r]);
    assert [p, q, r] + [p] == [p, q, r, p];
  }

  /** A way [1, 99, 2] whose node 99 is missing resolves to the two points of
      nodes 1 and 2; closed, it has at most three points (two when both nodes
      share a position), so it is discarded. */
  lemma UnknownNodeDropped(p: Position, q: Position, r: Position)
    ensures Resolve(NodeLookup(Nodes3(p, q, r)), [1, 99, 2]) == [p, q]
    ensures BuildingsOf(Some(Response(Some([Way(10, [1, 99, 2])] + Nodes3(p, q, r))))) == []
  {
    var w := Way(10, [1, 99, 2]);
    WayBeforeItsNodes(w, Nodes3(p, q, r));
    Nodes3Lookup(p, q, r);
    var lookup := map[1 := p, 2 := q, 3 := r];
    ResolveDropsUnknown(lookup, [1], 99, [2]);
    ResolveAllKnown(lookup, [1, 2]);
    assert [1] + [99] + [2] == w.nodes;
    assert Resolve(lookup, w.nodes) == [p, q];
    assert Candidates(lookup, [w]) == [[p, q]];
    CleanedOne([p, q]);
  }
}
