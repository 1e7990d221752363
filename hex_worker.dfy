/**
 * The web worker of src/h3.worker.ts: its `message` handler, which covers
 * every ring of a feature with hexagonal cells and posts the de-duplicated
 * cell ids back, and the recursive ring collector traverseCoordinates.
 *
 * h3.polygonToCellsExperimental is a foreign call: it is the parameter
 * `polyfill`, a function from a ring and a resolution to either the cell
 * ids or the exception it throws.
 */
module HexWorker {
  import opened Wrappers
  import opened JsValues

  /** The data `pool.run` posts to the worker. `None` resolution is `undefined`. */
  datatype Request = Request(ringSet: Value, resolution: Option<nat>, polygonColor: string)

  /** What the worker posts back: the result record, or `{error}` when something threw. */
  datatype Reply =
    | Computed(cellIds: seq<string>, fromCache: bool, polygonColor: string)
    | Failed(error: string)

  /** One call of polygonToCellsExperimental: the cells, or the exception thrown. */
  datatype Cover =
    | Cells(ids: seq<string>)
    | Thrown(message: string, text: string)   // the exception's `message` and its `toString()`

  type Polyfill = (Value, Option<nat>) -> Cover

  /** The TypeError `ringSet.forEach(…)` raises when `ringSet` is not an array. */
  const NotAnArray := "ringSet.forEach is not a function"

  /** `e.message || e.toString()`: an empty message is falsy. */
  function ErrorText(message: string, text: string): (s: string)
    ensures message != "" ==> s == message
    ensures message == "" ==> s == text
  {
    if message != "" then message else text
  }

  /** `ids` in front of the cells of `c`; a throw stays a throw. */
  function Prepend(ids: seq<string>, c: Cover): Cover {
    match c
    case Cells(rest) => Cells(ids + rest)
    case Thrown(_, _) => c
  }

  /**
   * The per-ring cell lists of `rings` concatenated in ring order, or the
   * first exception thrown.
   */
  function AllCells(rings: seq<Value>, resolution: Option<nat>, polyfill: Polyfill): (c: Cover)
    ensures c.Thrown? ==> exists i :: 0 <= i < |rings| && polyfill(rings[i], resolution) == c
    decreases |rings|
  {
    if rings == [] then Cells([])
    else match polyfill(rings[0], resolution)
      case Thrown(m, t) => Thrown(m, t)
      case Cells(ids) => Prepend(ids, AllCells(rings[1..], resolution, polyfill))
  }

  /** The elements of `s` not in `seen`, each once, in the order of their first occurrence. */
  function Unique(s: seq<string>, seen: set<string>): (r: seq<string>)
    ensures NoDuplicates(r)
    ensures forall x :: x in r <==> x in s && x !in seen
  {
    if s == [] then []
    else if s[0] in seen then Unique(s[1..], seen)
    else [s[0]] + Unique(s[1..], seen + {s[0]})
  }

  /** `Array.from(new Set(s))`: a Set iterates in insertion order. */
  function Distinct(s: seq<string>): (r: seq<string>)
    ensures NoDuplicates(r)
    ensures forall x :: x in r <==> x in s
  {
    Unique(s, {})
  }

  /** The position of the first occurrence of `x` in `s`. */
  function FirstIndex(s: seq<string>, x: string): (k: nat)
    requires x in s
    ensures k < |s| && s[k] == x && x !in s[..k]
  {
    if s[0] == x then 0 else 1 + FirstIndex(s[1..], x)
  }

  /** Past a different head, the first occurrence is one further on than in the tail. */
  lemma FirstIndexPastHead(s: seq<string>, y: string)
    requires |s| > 0 && y in s[1..] && y != s[0]
    ensures FirstIndex(s, y) == 1 + FirstIndex(s[1..], y)
  {
  }

  /** Of two elements of Unique's result, the earlier one occurs first in `s`. */
  lemma {:induction false} UniqueOrderAt(s: seq<string>, seen: set<string>, i: nat, j: nat)
    requires i < j < |Unique(s, seen)|
    ensures FirstIndex(s, Unique(s, seen)[i]) < FirstIndex(s, Unique(s, seen)[j])
  {
    var r := Unique(s, seen);
    if s[0] in seen {
      var rest := Unique(s[1..], seen);
      assert r == rest;
      FirstIndexPastHead(s, rest[i]);
      FirstIndexPastHead(s, rest[j]);
      UniqueOrderAt(s[1..], seen, i, j);
    } else {
      var rest := Unique(s[1..], seen + {s[0]});
      assert r == [s[0]] + rest;
      assert r[j] == rest[j - 1];
      FirstIndexPastHead(s, rest[j - 1]);
      if i > 0 {
        assert r[i] == rest[i - 1];
        FirstIndexPastHead(s, rest[i - 1]);
        UniqueOrderAt(s[1..], seen + {s[0]}, i - 1, j - 1);
      }
    }
  }

  /** Unique keeps the order in which elements first occur in `s`. */
  lemma UniqueKeepsFirstOccurrenceOrder(s: seq<string>, seen: set<string>)
    ensures var r := Unique(s, seen);
            forall i, j :: 0 <= i < j < |r| ==> FirstIndex(s, r[i]) < FirstIndex(s, r[j])
  {
    forall i, j | 0 <= i < j < |Unique(s, seen)|
      ensures FirstIndex(s, Unique(s, seen)[i]) < FirstIndex(s, Unique(s, seen)[j])
    {
      UniqueOrderAt(s, seen, i, j);
    }
  }

  /**
   * The reply to one request. A `ringSet` that is not an array, or a ring
   * whose cover throws, gives `{error}`; otherwise the record with the
   * de-duplicated cells, `fromCache` false and the colour echoed.
   */
  function Response(request: Request, polyfill: Polyfill): (reply: Reply)
    ensures !request.ringSet.Arr? ==> reply == Failed(NotAnArray)
    ensures reply.Computed? ==> && NoDuplicates(reply.cellIds) && !reply.fromCache
                                && reply.polygonColor == request.polygonColor
  {
    if !request.ringSet.Arr? then Failed(NotAnArray)
    else match AllCells(request.ringSet.items, request.resolution, polyfill)
      case Thrown(m, t) => Failed(ErrorText(m, t))
      case Cells(ids) => Computed(Distinct(ids), false, request.polygonColor)
  }

  /**
   * The `message` handler: pushes each ring's cells onto `allCellIds`,
   * stops at the first exception, then de-duplicates.
   */
  method HandleMessage(request: Request, polyfill: Polyfill) returns (reply: Reply)
    ensures reply == Response(request, polyfill)
    ensures reply.Computed? ==> NoDuplicates(reply.cellIds) && !reply.fromCache
                                && reply.polygonColor == request.polygonColor
  {
    if !request.ringSet.Arr? {
      return Failed(NotAnArray);
    }
    var rings := request.ringSet.items;
    var allCellIds: seq<string> := [];
    for i := 0 to |rings|
      invariant AllCells(rings, request.resolution, polyfill)
                == Prepend(allCellIds, AllCells(rings[i..], request.resolution, polyfill))
    {
      assert rings[i..][0] == rings[i] && rings[i..][1..] == rings[i + 1..];
      var cover := polyfill(rings[i], request.resolution);
      if cover.Thrown? {
        return Failed(ErrorText(cover.message, cover.text));
      }
      allCellIds := allCellIds + cover.ids;
    }
    assert rings[|rings|..] == [];
    assert allCellIds + [] == allCellIds;
    reply := Computed(Distinct(allCellIds), false, request.polygonColor);
  }

  /** Every ring is covered without throwing exactly when the whole ring set is. */
  lemma {:induction false} AllCellsSucceeds(rings: seq<Value>, resolution: Option<nat>, polyfill: Polyfill)
    ensures AllCells(rings, resolution, polyfill).Cells?
            <==> forall i :: 0 <= i < |rings| ==> polyfill(rings[i], resolution).Cells?
  {
    if rings != [] {
      AllCellsSucceeds(rings[1..], resolution, polyfill);
      assert forall i :: 1 <= i < |rings| ==> rings[i] == rings[1..][i - 1];
    }
  }

  /** On success, the cells are those of the rings taken together. */
  lemma {:induction false} AllCellsIsUnion(rings: seq<Value>, resolution: Option<nat>, polyfill: Polyfill)
    requires AllCells(rings, resolution, polyfill).Cells?
    ensures forall x :: x in AllCells(rings, resolution, polyfill).ids
              <==> exists i :: 0 <= i < |rings| && polyfill(rings[i], resolution).Cells?
                               && x in polyfill(rings[i], resolution).ids
  {
    if rings != [] {
      AllCellsIsUnion(rings[1..], resolution, polyfill);
      forall x
        ensures x in AllCells(rings, resolution, polyfill).ids
                <==> exists i :: 0 <= i < |rings| && polyfill(rings[i], resolution).Cells?
                                 && x in polyfill(rings[i], resolution).ids
      {
        if x in AllCells(rings, resolution, polyfill).ids {
          if x !in polyfill(rings[0], resolution).ids {
            var k :| 0 <= k < |rings[1..]| && polyfill(rings[1..][k], resolution).Cells?
                     && x in polyfill(rings[1..][k], resolution).ids;
            assert rings[1..][k] == rings[k + 1];
          }
        } else {
          forall i | 1 <= i < |rings| && polyfill(rings[i], resolution).Cells?
            ensures x !in polyfill(rings[i], resolution).ids
          {
            assert rings[i] == rings[1..][i - 1];
          }
        }
      }
    }
  }

  /** A failure reports the first ring whose cover threw, all rings before it having succeeded. */
  lemma {:induction false} AllCellsFirstError(rings: seq<Value>, resolution: Option<nat>, polyfill: Polyfill)
    requires AllCells(rings, resolution, polyfill).Thrown?
    ensures exists i :: && 0 <= i < |rings|
                        && polyfill(rings[i], resolution) == AllCells(rings, resolution, polyfill)
                        && forall j :: 0 <= j < i ==> polyfill(rings[j], resolution).Cells?
  {
    var c := polyfill(rings[0], resolution);
    if c.Cells? {
      AllCellsFirstError(rings[1..], resolution, polyfill);
      var i :| && 0 <= i < |rings[1..]|
               && polyfill(rings[1..][i], resolution) == AllCells(rings[1..], resolution, polyfill)
               && forall j :: 0 <= j < i ==> polyfill(rings[1..][j], resolution).Cells?;
      assert rings[1..][i] == rings[i + 1];
      forall j | 0 <= j < i + 1 ensures polyfill(rings[j], resolution).Cells? {
        if j > 0 { assert rings[j] == rings[1..][j - 1]; }
      }
    } else {
      assert polyfill(rings[0], resolution) == AllCells(rings, resolution, polyfill);
    }
  }

  /**
   * A successful reply: no id twice, exactly the union of the rings' cells,
   * `fromCache` false and the request's colour.
   */
  lemma ComputedReply(request: Request, polyfill: Polyfill)
    requires Response(request, polyfill).Computed?
    ensures var reply := Response(request, polyfill);
            && NoDuplicates(reply.cellIds)
            && !reply.fromCache && reply.polygonColor == request.polygonColor
            && forall x :: x in reply.cellIds
                 <==> exists i :: 0 <= i < |request.ringSet.items|
                                  && polyfill(request.ringSet.items[i], request.resolution).Cells?
                                  && x in polyfill(request.ringSet.items[i], request.resolution).ids
  {
    AllCellsIsUnion(request.ringSet.items, request.resolution, polyfill);
  }

  /**
   * The reply is `{error}` exactly when `ringSet` is not an array or some
   * ring's cover throws; the error text is then the first thrown exception's.
   */
  lemma FailedReply(request: Request, polyfill: Polyfill)
    ensures Response(request, polyfill).Failed?
            <==> !request.ringSet.Arr?
                 || exists i :: 0 <= i < |request.ringSet.items|
                                && polyfill(request.ringSet.items[i], request.resolution).Thrown?
    ensures request.ringSet.Arr? && Response(request, polyfill).Failed? ==>
              exists i :: && 0 <= i < |request.ringSet.items|
                          && var c := polyfill(request.ringSet.items[i], request.resolution);
                          && c.Thrown? && Response(request, polyfill).error == ErrorText(c.message, c.text)
                          && forall j :: 0 <= j < i ==> polyfill(request.ringSet.items[j], request.resolution).Cells?
  {
    if request.ringSet.Arr? {
      AllCellsSucceeds(request.ringSet.items, request.resolution, polyfill);
      if AllCells(request.ringSet.items, request.resolution, polyfill).Thrown? {
        AllCellsFirstError(request.ringSet.items, request.resolution, polyfill);
      }
    }
  }

  /** The cells appear in the order of their first occurrence, rings in ring-set order. */
  lemma ReplyInFirstOccurrenceOrder(request: Request, polyfill: Polyfill)
    requires request.ringSet.Arr?
    requires AllCells(request.ringSet.items, request.resolution, polyfill).Cells?
    ensures var all := AllCells(request.ringSet.items, request.resolution, polyfill).ids;
            var reply := Response(request, polyfill);
            && reply == Computed(Distinct(all), false, request.polygonColor)
            && forall i, j :: 0 <= i < j < |reply.cellIds| ==>
                 FirstIndex(all, reply.cellIds[i]) < FirstIndex(all, reply.cellIds[j])
  {
    var all := AllCells(request.ringSet.items, request.resolution, polyfill).ids;
    UniqueKeepsFirstOccurrenceOrder(all, {});
    assert Response(request, polyfill).cellIds == Unique(all, {});
  }

  /** An empty ring set yields no cells. */
  lemma EmptyRingSet(resolution: Option<nat>, color: string, polyfill: Polyfill)
    ensures Response(Request(Arr([]), resolution, color), polyfill) == Computed([], false, color)
  {
    assert Distinct([]) == [];
  }

  // ---------------------------------------------------------------------
  // traverseCoordinates

  /** The arrays handed to the callback, in call order, and whether the walk ended by throwing. */
  datatype Walk = Walk(calls: seq<seq<Value>>, threw: bool)

  /** An array whose first element is an array starting with a number: a ring of points. */
  predicate IsRing(items: seq<Value>) {
    |items| > 0 && items[0].Arr? && StartsWithNumber(items[0].items)
  }

  /**
   * traverseCoordinates: nothing for a non-array or an array starting with a
   * number; the callback on an array whose first element starts with a
   * number; otherwise a depth-first walk of the elements. Reading
   * `coords[0][0]` throws when the array is empty or its first element is
   * null or undefined. Nothing in the worker calls traverseCoordinates but
   * itself; this states what it would do if called.
   */
  function Traverse(coords: Value): (w: Walk)
    ensures forall k :: 0 <= k < |w.calls| ==> IsRing(w.calls[k])
    decreases coords, 1
  {
    if !coords.Arr? then Walk([], false)
    else if |coords.items| == 0 then Walk([], true)
    else match coords.items[0]
      case Num(_) => Walk([], false)
      case Nullish => Walk([], true)
      case Arr(inner) => if StartsWithNumber(inner) then Walk([coords.items], false) else TraverseFrom(coords, 0)
      case Other => TraverseFrom(coords, 0)
  }

  /** `coords.forEach(c => traverseCoordinates(c, callback))` from element `i` on; a throw stops it. */
  function TraverseFrom(parent: Value, i: nat): (w: Walk)
    requires parent.Arr? && i <= |parent.items|
    ensures forall k :: 0 <= k < |w.calls| ==> IsRing(w.calls[k])
    decreases parent, 0, |parent.items| - i
  {
    if i == |parent.items| then Walk([], false)
    else
      var head := Traverse(parent.items[i]);
      if head.threw then head
      else
        var tail := TraverseFrom(parent, i + 1);
        Walk(head.calls + tail.calls, tail.threw)
  }

  /** A non-array, or an array of bare numbers, gives no callback and no exception. */
  lemma TraverseLeaves(coords: Value)
    requires !coords.Arr? || StartsWithNumber(coords.items)
    ensures Traverse(coords) == Walk([], false)
  {
  }

  /** An empty array throws before any callback: the function needs a non-empty array. */
  lemma TraverseEmptyThrows()
    ensures Traverse(Arr([])) == Walk([], true)
  {
  }

  /** A polygon whose rings are all well formed gives one callback per ring, in order. */
  lemma TraversePolygon(rings: seq<Value>)
    requires |rings| > 0
    requires forall k :: 0 <= k < |rings| ==> rings[k].Arr? && IsRing(rings[k].items)
    ensures Traverse(Arr(rings)) == Walk(seq(|rings|, k requires 0 <= k < |rings| => rings[k].items), false)
  {
    TraverseRings(Arr(rings), 0);
  }

  lemma {:induction false} TraverseRings(parent: Value, i: nat)
    requires parent.Arr? && i <= |parent.items|
    requires forall k :: 0 <= k < |parent.items| ==> parent.items[k].Arr? && IsRing(parent.items[k].items)
    ensures TraverseFrom(parent, i)
            == Walk(seq(|parent.items| - i, k requires 0 <= k < |parent.items| - i => parent.items[i + k].items), false)
    decreases |parent.items| - i
  {
    if i < |parent.items| {
      TraverseRings(parent, i + 1);
    }
  }

  /** A polygon: a non-empty array of well-formed rings. */
  predicate IsPolygon(v: Value) {
    && v.Arr? && |v.items| > 0
    && forall k :: 0 <= k < |v.items| ==> v.items[k].Arr? && IsRing(v.items[k].items)
  }

  /** The rings of the polygons of `polygons`, polygon by polygon, each in its own order. */
  function AllRings(polygons: seq<Value>): seq<seq<Value>>
    requires forall k :: 0 <= k < |polygons| ==> IsPolygon(polygons[k])
  {
    if polygons == [] then []
    else
      assert IsPolygon(polygons[0]);
      var rings := polygons[0].items;
      seq(|rings|, k requires 0 <= k < |rings| => rings[k].items) + AllRings(polygons[1..])
  }

  lemma {:induction false} TraversePolygons(parent: Value, i: nat)
    requires parent.Arr? && i <= |parent.items|
    requires forall k :: 0 <= k < |parent.items| ==> IsPolygon(parent.items[k])
    ensures TraverseFrom(parent, i) == Walk(AllRings(parent.items[i..]), false)
    decreases |parent.items| - i
  {
    if i < |parent.items| {
      var p := parent.items[i];
      TraversePolygon(p.items);
      TraversePolygons(parent, i + 1);
      assert parent.items[i..][0] == p && parent.items[i..][1..] == parent.items[i + 1..];
    } else {
      assert parent.items[i..] == [];
    }
  }

  /**
   * A MultiPolygon of well-formed polygons gives one callback per ring,
   * polygon after polygon, and does not throw.
   */
  lemma TraverseMultiPolygon(polygons: seq<Value>)
    requires |polygons| > 0
    requires forall k :: 0 <= k < |polygons| ==> IsPolygon(polygons[k])
    ensures Traverse(Arr(polygons)) == Walk(AllRings(polygons), false)
  {
    TraversePolygons(Arr(polygons), 0);
    assert polygons[0..] == polygons;
  }
}
