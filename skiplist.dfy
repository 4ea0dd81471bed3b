// The skip list itself: a header node, a tail pointer, the element count
// and the active level, updated in place by its operations.

module Skiplist {

  import opened SortedKeys
  import opened Levels
  import opened SkiplistState
  import opened SkiplistInsertProof
  import opened SkiplistDeleteProof

  datatype Option<T> = None | Some(value: T)

  /**
   * What the pop operations as written end in: a returned value, or the
   * nil-pointer dereference that panics.
   */
  datatype Popped = Popped(obj: Option<int>) | NilDereference

  /**
   * The comparison the list is ordered by: negative, zero or positive as `a`
   * is below, equal to or above `b`.
   */
  function Compare(a: int, b: int): (c: int)
    ensures c < 0 <==> a < b
    ensures c == 0 <==> a == b
    ensures c > 0 <==> a > b
  {
    if a > b then 1 else if a < b then -1 else 0
  }

  /**
   * The walk along level `i` shared by insertion, deletion and lookup
   * (skiplist/skiplist.go:89-92, 176-179, 195-197): starting from the node of
   * rank `r0`, follow links while they lead to an element below `obj`,
   * adding up the spans crossed. It stops at the last node on level `i`
   * before the position of `obj`.
   */
  method WalkLevel(nodes: seq<Node>, ghost keys: seq<int>, ghost ids: seq<nat>, ghost hs: seq<nat>,
                   obj: int, i: nat, x0: int, r0: nat) returns (x: int, r: nat)
    requires Searchable(nodes, keys, ids, hs, i)
    requires r0 <= LowerBound(keys, obj) && x0 == At(ids, r0)
    requires r0 == 0 || i < hs[r0 - 1]
    requires LowerBound(keys, obj) <= Next(hs, r0, i + 1)
    ensures r0 <= r <= LowerBound(keys, obj) && x == At(ids, r)
    ensures r == 0 || i < hs[r - 1]
    ensures LowerBound(keys, obj) <= Next(hs, r, i)
  {
    x, r := x0, r0;
    WalkStart(nodes, keys, ids, hs, obj, i, x, r);
    while nodes[x].level[i].forward != Nil && Compare(nodes[nodes[x].level[i].forward].obj, obj) < 0
      invariant r0 <= r && Walking(nodes, keys, ids, hs, obj, i, x, r)
      decreases LowerBound(keys, obj) - r
    {
      WalkStep(nodes, keys, ids, hs, obj, i, x, r);
      r := r + nodes[x].level[i].span;
      x := nodes[x].level[i].forward;
    }
    WalkStop(nodes, keys, ids, hs, obj, i, x, r);
  }

  /**
   * The descent shared by insertion and deletion
   * (skiplist/skiplist.go:80-93, 174-181): from the top level down, walk
   * each level from where the level above stopped and record the last node
   * before the position of `obj` in update[i] and its rank in rank[i].
   */
  method Predecessors(nodes: seq<Node>, ghost tail: int, ghost n: nat, top: nat,
                      ghost keys: seq<int>, ghost ids: seq<nat>, ghost hs: seq<nat>,
                      obj: int) returns (update: seq<int>, rank: seq<nat>)
    requires ValidAt(nodes, tail, n, top, keys, ids, hs)
    ensures |update| == MaxLevel && |rank| == MaxLevel
    ensures Descent(ids, hs, LowerBound(keys, obj), 0, top, update, rank)
  {
    ghost var L := LowerBound(keys, obj);
    update := seq(MaxLevel, _ => Nil);
    rank := seq(MaxLevel, _ => 0);
    var x := Header;
    var r: nat := 0;
    var i := top;
    NextAtTop(nodes, tail, n, top, keys, ids, hs);
    while i > 0
      invariant 0 <= i <= top
      invariant |update| == MaxLevel && |rank| == MaxLevel
      invariant r == if i == top then 0 else rank[i]
      invariant r <= L && x == At(ids, r) && (r == 0 || i <= hs[r - 1]) && L <= Next(hs, r, i)
      invariant Descent(ids, hs, L, i, top, update, rank)
    {
      i := i - 1;
      r := if i == top - 1 then 0 else rank[i + 1];
      SearchableAt(nodes, tail, n, top, keys, ids, hs, i);
      x, r := WalkLevel(nodes, keys, ids, hs, obj, i, x, r);
      DescentExtend(ids, hs, L, i, top, update, rank, x, r);
      rank := rank[i := r];
      update := update[i := x];
    }
  }

  /**
   * The header's part of raising the active level from `top` to `lvl`
   * (skiplist/skiplist.go:104-110): every new level starts its descent at
   * the header with rank 0, and the header's span there becomes the length.
   */
  method RaiseLevel(nodes: seq<Node>, top: nat, lvl: nat, n: nat, update: seq<int>, rank: seq<nat>)
    returns (nodes': seq<Node>, update': seq<int>, rank': seq<nat>)
    requires |nodes| >= 1 && |nodes[Header].level| == MaxLevel
    requires top <= lvl <= MaxLevel && |update| == MaxLevel && |rank| == MaxLevel
    ensures |nodes'| == |nodes| && (forall id :: 0 < id < |nodes| ==> nodes'[id] == nodes[id])
    ensures nodes'[Header].obj == nodes[Header].obj && nodes'[Header].backward == nodes[Header].backward
    ensures |nodes'[Header].level| == MaxLevel
    ensures forall i :: 0 <= i < MaxLevel ==>
      nodes'[Header].level[i] == if top <= i < lvl then nodes[Header].level[i].(span := n) else nodes[Header].level[i]
    ensures |update'| == MaxLevel && |rank'| == MaxLevel
    ensures forall i :: 0 <= i < MaxLevel ==>
      && update'[i] == (if top <= i < lvl then Header else update[i])
      && rank'[i] == (if top <= i < lvl then 0 else rank[i])
  {
    nodes', update', rank' := nodes, update, rank;
    var i := top;
    while i < lvl
      invariant top <= i <= lvl
      invariant |nodes'| == |nodes| && (forall id :: 0 < id < |nodes| ==> nodes'[id] == nodes[id])
      invariant nodes'[Header].obj == nodes[Header].obj && nodes'[Header].backward == nodes[Header].backward
      invariant |nodes'[Header].level| == MaxLevel
      invariant forall j :: 0 <= j < MaxLevel ==>
        nodes'[Header].level[j] == if top <= j < i then nodes[Header].level[j].(span := n) else nodes[Header].level[j]
      invariant |update'| == MaxLevel && |rank'| == MaxLevel
      invariant forall j :: 0 <= j < MaxLevel ==>
        && update'[j] == (if top <= j < i then Header else update[j])
        && rank'[j] == (if top <= j < i then 0 else rank[j])
    {
      rank' := rank'[i := 0];
      update' := update'[i := Header];
      nodes' := SetLevel(nodes', Header, i, nodes'[Header].level[i].(span := n));
      i := i + 1;
    }
  }

  /**
   * Linking a fresh node of height `h` holding `obj` in after the recorded
   * predecessors (skiplist/skiplist.go:112-127); `L` is the position it
   * takes, which is rank[0]. The span written at line 120 never goes below
   * zero: the caller passes the bound SpanCoversRankGap proves.
   */
  method LinkNode(nodes: seq<Node>, top: nat, h: nat, obj: int, update: seq<int>, rank: seq<nat>, ghost L: nat)
    returns (nodes': seq<Node>, x: int)
    requires forall id :: 0 <= id < |nodes| ==> |nodes[id].level| == MaxLevel
    requires 1 <= h <= top <= MaxLevel && |update| == MaxLevel && |rank| == MaxLevel
    requires forall k :: 0 <= k < top ==> 0 <= update[k] < |nodes| && rank[k] <= L
    requires rank[0] == L
    requires forall k :: 0 <= k < h ==> L - rank[k] <= nodes[update[k]].level[k].span
    ensures x == |nodes|
    ensures Spliced(nodes, nodes', top, L, h, x, update, rank, top)
    ensures nodes'[x].obj == obj && nodes'[x].backward == Nil
    ensures forall id :: 0 <= id < |nodes| ==>
      nodes'[id].obj == nodes[id].obj && nodes'[id].backward == nodes[id].backward
  {
    x := |nodes|;
    nodes' := nodes + [CreateNode(obj)];
    SpliceStart(nodes, top, L, h, obj, update, rank);
    nodes' := LinkLevels(nodes, nodes', top, h, x, update, rank, L);
    nodes' := IncrementSpans(nodes, nodes', top, h, x, update, rank, L);
  }

  /**
   * The levels the new node reaches (skiplist/skiplist.go:112-123): on each,
   * `x` takes over update[i]'s link less the rank gap, and update[i] points
   * at `x` across the gap plus one. Payloads and backward links stay.
   */
  method LinkLevels(N0: seq<Node>, nodes: seq<Node>, top: nat, h: nat, x: nat,
                    update: seq<int>, rank: seq<nat>, ghost L: nat)
    returns (nodes': seq<Node>)
    requires Spliced(N0, nodes, top, L, h, x, update, rank, 0)
    requires rank[0] == L
    requires forall k :: 0 <= k < h ==> L - rank[k] <= N0[update[k]].level[k].span
    ensures Spliced(N0, nodes', top, L, h, x, update, rank, h)
    ensures |nodes'| == |nodes|
    ensures forall id :: 0 <= id < |nodes| ==>
      nodes'[id].obj == nodes[id].obj && nodes'[id].backward == nodes[id].backward
  {
    nodes' := nodes;
    var i := 0;
    while i < h
      invariant 0 <= i <= h
      invariant Spliced(N0, nodes', top, L, h, x, update, rank, i)
      invariant forall id :: 0 <= id < |nodes| ==>
        nodes'[id].obj == nodes[id].obj && nodes'[id].backward == nodes[id].backward
    {
      var u := update[i];
      var old' := nodes';
      assert nodes'[u].level[i] == N0[u].level[i];
      nodes' := SetLevel(nodes', x, i, Level(nodes'[u].level[i].forward, nodes'[u].level[i].span - (rank[0] - rank[i])));
      nodes' := SetLevel(nodes', u, i, Level(x, (rank[0] - rank[i]) + 1));
      LinkStep(N0, old', top, L, h, x, update, rank, i, nodes');
      i := i + 1;
    }
  }

  /**
   * The active levels above the new node's height
   * (skiplist/skiplist.go:125-127): each update[i]'s link now passes over one
   * more node, so its span grows by one. Payloads and backward links stay.
   */
  method IncrementSpans(N0: seq<Node>, nodes: seq<Node>, top: nat, h: nat, x: nat,
                        update: seq<int>, rank: seq<nat>, ghost L: nat)
    returns (nodes': seq<Node>)
    requires Spliced(N0, nodes, top, L, h, x, update, rank, h)
    ensures Spliced(N0, nodes', top, L, h, x, update, rank, top)
    ensures |nodes'| == |nodes|
    ensures forall id :: 0 <= id < |nodes| ==>
      nodes'[id].obj == nodes[id].obj && nodes'[id].backward == nodes[id].backward
  {
    nodes' := nodes;
    var i := h;
    while i < top
      invariant h <= i <= top
      invariant Spliced(N0, nodes', top, L, h, x, update, rank, i)
      invariant forall id :: 0 <= id < |nodes| ==>
        nodes'[id].obj == nodes[id].obj && nodes'[id].backward == nodes[id].backward
    {
      var u := update[i];
      var old' := nodes';
      nodes' := SetLevel(nodes', u, i, nodes'[u].level[i].(span := nodes'[u].level[i].span + 1));
      IncrementStep(N0, old', top, L, h, x, update, rank, i, nodes');
      i := i + 1;
    }
  }


  /**
   * Raising the active level to the drawn height `h` when it is above it
   * (skiplist/skiplist.go:104-111), with the new levels' descent starting at
   * the header. The store stays valid and the descent stays complete.
   */
  method RaiseTo(nodes: seq<Node>, ghost tail: int, n: nat, top: nat,
                 ghost keys: seq<int>, ghost ids: seq<nat>, ghost hs: seq<nat>,
                 ghost L: nat, update: seq<int>, rank: seq<nat>, h: nat)
    returns (nodes': seq<Node>, top': nat, update': seq<int>, rank': seq<nat>)
    requires ValidAt(nodes, tail, n, top, keys, ids, hs)
    requires |update| == MaxLevel && |rank| == MaxLevel
    requires Descent(ids, hs, L, 0, top, update, rank)
    requires h <= MaxLevel
    ensures |nodes'| == |nodes| && top' == Max(top, h)
    ensures ValidAt(nodes', tail, n, top', keys, ids, hs)
    ensures |update'| == MaxLevel && |rank'| == MaxLevel
    ensures Descent(ids, hs, L, 0, top', update', rank')
  {
    nodes', top', update', rank' := nodes, top, update, rank;
    if h > top {
      nodes', update', rank' := RaiseLevel(nodes, top, h, n, update, rank);
      assert forall i :: 0 <= i < MaxLevel ==>
        nodes'[Header].level[i] == (if top <= i < h then Level(Nil, n) else nodes[Header].level[i]);
      RaiseKeepsValid(nodes, nodes', tail, n, top, h, keys, ids, hs);
      DescentRaise(ids, hs, L, top, h, update, rank, update', rank');
      top' := h;
    }
  }

  /**
   * The new node's backward link is its level-0 predecessor, nil for the
   * header; its successor's backward link is the new node, or the new node
   * becomes the tail (skiplist/skiplist.go:129-139).
   */
  method LinkBackward(nodes: seq<Node>, tail: int, x: int, u: int) returns (nodes': seq<Node>, tail': int)
    requires 0 <= x < |nodes|
    requires nodes[x].level != [] && (nodes[x].level[0].forward == Nil || 0 <= nodes[x].level[0].forward < |nodes|)
    requires nodes[x].level[0].forward != x
    ensures |nodes'| == |nodes|
    ensures forall id :: 0 <= id < |nodes| ==> nodes'[id].level == nodes[id].level && nodes'[id].obj == nodes[id].obj
    ensures nodes'[x].backward == (if u == Header then Nil else u)
    ensures forall id :: 0 <= id < |nodes| && id != x ==>
              nodes'[id].backward == (if id == nodes[x].level[0].forward then x else nodes[id].backward)
    ensures tail' == (if nodes[x].level[0].forward == Nil then x else tail)
  {
    if u == Header {
      nodes' := SetBackward(nodes, x, Nil);
    } else {
      nodes' := SetBackward(nodes, x, u);
    }
    tail' := tail;
    if nodes'[x].level[0].forward != Nil {
      nodes' := SetBackward(nodes', nodes'[x].level[0].forward, x);
    } else {
      tail' := x;
    }
  }

  /**
   * Raising the active level to the drawn height `h` when it is above it,
   * then linking a fresh node of height `h` holding `obj` in after the
   * recorded predecessors and setting its backward link, its successor's and
   * the tail (skiplist/skiplist.go:104-139). The store then holds `obj` at
   * its lower bound `L` in a node of height `h`, every other element in its
   * old node, on level max(top, h).
   */
  method Splice(nodes: seq<Node>, tail: int, n: nat, top: nat,
                ghost keys: seq<int>, ghost ids: seq<nat>, ghost hs: seq<nat>,
                obj: int, update: seq<int>, rank: seq<nat>, h: nat)
    returns (nodes': seq<Node>, tail': int, top': nat, x: nat,
             ghost keys': seq<int>, ghost ids': seq<nat>, ghost hs': seq<nat>)
    requires ValidState(nodes, tail, n, top, keys, ids, hs)
    requires |update| == MaxLevel && |rank| == MaxLevel
    requires Descent(ids, hs, LowerBound(keys, obj), 0, top, update, rank)
    requires obj !in keys && 1 <= h <= MaxLevel
    ensures x == |nodes| && |nodes'| == |nodes| + 1 && nodes'[x].obj == obj
    ensures top' == Max(top, h)
    ensures keys' == InsertKey(keys, obj)
    ensures var L := LowerBound(keys, obj);
      ids' == ids[..L] + [x] + ids[L..] && hs' == hs[..L] + [h] + hs[L..]
    ensures ValidState(nodes', tail', n + 1, top', keys', ids', hs')
  {
    ghost var L := LowerBound(keys, obj);
    var N1, update', rank';
    N1, top', update', rank' := RaiseTo(nodes, tail, n, top, keys, ids, hs, L, update, rank, h);
    NextAtLevel0(hs, rank'[0]);
    forall k | 0 <= k < top'
      ensures 0 <= update'[k] < |N1| && rank'[k] <= L
      ensures L - rank'[k] <= N1[update'[k]].level[k].span
    {
      SpanCoversRankGap(N1, top', ids, hs, L, update', rank', k);
    }
    ForwardAt(N1, tail, n, top', keys, ids, hs, rank'[0], 0);
    var N3, y := LinkNode(N1, top', h, obj, update', rank', L);
    x := y;
    nodes', tail' := LinkBackward(N3, tail, x, update'[0]);
    SplicedKeepsLevels(N1, N3, top', L, h, x, update', rank', nodes');
    InsertRelinked(N1, N3, nodes', tail, tail', n, top', keys, ids, hs, obj, L, h, x, update', rank');
    InsertKeepsValid(N1, nodes', tail, tail', n, top', keys, ids, hs, obj, L, h, x, update', rank');
    TopLevelIns(hs, L, h);
    keys', ids', hs' := Ins(keys, L, obj), Ins(ids, L, x), Ins(hs, L, h);
  }

  /**
   * The check that ends every search (skiplist/skiplist.go:96, 183, 199-200):
   * the level-0 successor of the last node before the position of `obj` is
   * its node when it holds an element equal to `obj`, and nil otherwise.
   */
  method Successor(nodes: seq<Node>, ghost tail: int, ghost n: nat, ghost top: nat,
                   ghost keys: seq<int>, ghost ids: seq<nat>, ghost hs: seq<nat>,
                   obj: int, x0: int, ghost r0: nat) returns (x: int)
    requires ValidAt(nodes, tail, n, top, keys, ids, hs)
    requires 0 < top && r0 <= LowerBound(keys, obj) && x0 == At(ids, r0)
    requires LowerBound(keys, obj) <= Next(hs, r0, 0)
    ensures obj in keys ==> x == ids[LowerBound(keys, obj)] && 0 <= x < |nodes| && nodes[x].obj == obj
    ensures obj !in keys ==> x == Nil
  {
    NextAtLevel0(hs, r0);
    ForwardAt(nodes, tail, n, top, keys, ids, hs, r0, 0);
    LowerBoundFinds(keys, obj);
    x := nodes[x0].level[0].forward;
    if x != Nil && Compare(nodes[x].obj, obj) == 0 {
      return x;
    }
    return Nil;
  }

  /**
   * Unlinking node `x` from every active level (skiplist/skiplist.go:148-155):
   * a predecessor pointing at x takes over x's link and both spans less
   * one, any other loses one from its span. The spans never go below zero:
   * every predecessor's span is at least one.
   */
  method UnlinkNode(nodes: seq<Node>, top: nat, x: int, update: seq<int>) returns (nodes': seq<Node>)
    requires forall id :: 0 <= id < |nodes| ==> |nodes[id].level| == MaxLevel
    requires 0 <= x < |nodes| && top <= MaxLevel && |update| == MaxLevel
    requires forall k :: 0 <= k < top ==>
      0 <= update[k] < |nodes| && update[k] != x && 1 <= nodes[update[k]].level[k].span
    ensures Unspliced(nodes, nodes', top, x, update, top)
    ensures forall id :: 0 <= id < |nodes| ==>
      nodes'[id].obj == nodes[id].obj && nodes'[id].backward == nodes[id].backward
  {
    nodes' := nodes;
    UnspliceStart(nodes, top, x, update);
    var i := 0;
    while i < top
      invariant 0 <= i <= top
      invariant Unspliced(nodes, nodes', top, x, update, i)
      invariant forall id :: 0 <= id < |nodes| ==>
        nodes'[id].obj == nodes[id].obj && nodes'[id].backward == nodes[id].backward
    {
      var u := update[i];
      var old' := nodes';
      assert nodes'[u].level[i] == nodes[u].level[i];
      if nodes'[u].level[i].forward == x {
        nodes' := SetLevel(nodes', u, i, Level(nodes'[x].level[i].forward, nodes'[u].level[i].span + nodes'[x].level[i].span - 1));
      } else {
        nodes' := SetLevel(nodes', u, i, nodes'[u].level[i].(span := nodes'[u].level[i].span - 1));
      }
      UnlinkStep(nodes, old', top, x, update, i, nodes');
      i := i + 1;
    }
  }

  /**
   * The successor of `x` on level 0 points back at x's predecessor, or that
   * predecessor becomes the tail when x is last (skiplist/skiplist.go:157-161).
   */
  method UnlinkBackward(nodes: seq<Node>, tail: int, x: int) returns (nodes': seq<Node>, tail': int)
    requires 0 <= x < |nodes|
    requires nodes[x].level != [] && (nodes[x].level[0].forward == Nil || 0 <= nodes[x].level[0].forward < |nodes|)
    ensures |nodes'| == |nodes|
    ensures forall id :: 0 <= id < |nodes| ==> nodes'[id].level == nodes[id].level && nodes'[id].obj == nodes[id].obj
    ensures forall id :: 0 <= id < |nodes| ==>
              nodes'[id].backward == (if id == nodes[x].level[0].forward then nodes[x].backward else nodes[id].backward)
    ensures tail' == (if nodes[x].level[0].forward == Nil then nodes[x].backward else tail)
  {
    nodes', tail' := nodes, tail;
    if nodes[x].level[0].forward != Nil {
      nodes' := SetBackward(nodes, nodes[x].level[0].forward, nodes[x].backward);
    } else {
      tail' := nodes[x].backward;
    }
  }

  /**
   * Unlinking the node `x` of the element at position `L` from every active
   * level and from the backward chain (skiplist/skiplist.go:148-161) leaves
   * the store holding the list without that element, on the same levels.
   */
  method Unlink(nodes: seq<Node>, tail: int, ghost n: nat, top: nat,
                ghost keys: seq<int>, ghost ids: seq<nat>, ghost hs: seq<nat>,
                x: int, update: seq<int>, ghost rank: seq<nat>, ghost L: nat)
    returns (nodes': seq<Node>, tail': int)
    requires ValidAt(nodes, tail, n, top, keys, ids, hs)
    requires |update| == MaxLevel && |rank| == MaxLevel
    requires L < n && x == ids[L]
    requires Descent(ids, hs, L, 0, top, update, rank)
    ensures |nodes'| == |nodes|
    ensures ValidAt(nodes', tail', n - 1, top, Del(keys, L), Del(ids, L), Del(hs, L))
  {
    ValidInjective(nodes, tail, n, top, keys, ids, hs);
    PredecessorsAvoid(nodes, top, ids, hs, L, update, rank);
    ForwardAt(nodes, tail, n, top, keys, ids, hs, L + 1, 0);
    var N1 := UnlinkNode(nodes, top, x, update);
    nodes', tail' := UnlinkBackward(N1, tail, x);
    UnsplicedKeepsLevels(nodes, N1, top, x, update, nodes');
    DeleteRelinked(nodes, N1, nodes', tail, tail', n, top, keys, ids, hs, L, update);
    DeleteKeepsValid(nodes, nodes', tail, tail', n, top, keys, ids, hs, L, update, rank, Del(keys, L), Del(ids, L), Del(hs, L));
  }

  /**
   * Lowering the active level while its top level is empty, but not below 1
   * (skiplist/skiplist.go:163-165), leaves it at the height of the tallest
   * node.
   */
  method TrimLevel(nodes: seq<Node>, ghost tail: int, ghost n: nat, top: nat,
                   ghost keys: seq<int>, ghost ids: seq<nat>, ghost hs: seq<nat>)
    returns (top': nat)
    requires ValidAt(nodes, tail, n, top, keys, ids, hs) && 1 <= top
    ensures 1 <= top' <= top
    ensures ValidState(nodes, tail, n, top', keys, ids, hs)
  {
    top' := top;
    while top' > 1 && nodes[Header].level[top' - 1].forward == Nil
      invariant 1 <= top' <= top
      invariant ValidAt(nodes, tail, n, top', keys, ids, hs)
    {
      TrimKeepsValid(nodes, tail, n, top', keys, ids, hs);
      top' := top' - 1;
    }
    TrimmedAtTop(nodes, tail, n, top', keys, ids, hs);
  }

  /**
   * One more insertion result: `x` is nil exactly when `xs[j]` was already
   * among the keys it was inserted into.
   */
  lemma InsertResultsStep(s: seq<int>, xs: seq<int>, results: seq<int>, x: int)
    requires StrictlySorted(s) && |results| < |xs|
    requires forall k :: 0 <= k < |results| ==> (results[k] == Nil <==> xs[k] in InsertAll(s, xs[..k]))
    requires x == Nil <==> xs[|results|] in InsertAll(s, xs[..|results|])
    ensures forall k :: 0 <= k < |results| + 1 ==>
      ((results + [x])[k] == Nil <==> xs[k] in s || xs[k] in xs[..k])
  {
    var j := |results|;
    forall k | 0 <= k < j + 1
      ensures (results + [x])[k] == Nil <==> xs[k] in s || xs[k] in xs[..k]
    {
      if k == j {
        var r := InsertAll(s, xs[..j]);
        assert xs[j] in r <==> xs[j] in s || xs[j] in xs[..j];
      } else {
        assert (results + [x])[k] == results[k];
      }
    }
  }

  /**
   * One more deletion result: `res` is 1 exactly when `xs[j]` was still
   * among the keys it was removed from.
   */
  lemma DeleteResultsStep(s: seq<int>, xs: seq<int>, results: seq<int>, res: int)
    requires StrictlySorted(s) && |results| < |xs|
    requires forall k :: 0 <= k < |results| ==> results[k] == (if xs[k] in s && xs[k] !in xs[..k] then 1 else 0)
    requires res == if xs[|results|] in RemoveAll(s, xs[..|results|]) then 1 else 0
    ensures forall k :: 0 <= k < |results| + 1 ==>
      (results + [res])[k] == (if xs[k] in s && xs[k] !in xs[..k] then 1 else 0)
  {
    var j := |results|;
    forall k | 0 <= k < j + 1
      ensures (results + [res])[k] == (if xs[k] in s && xs[k] !in xs[..k] then 1 else 0)
    {
      if k == j {
        var r := RemoveAll(s, xs[..j]);
        assert xs[j] in r <==> xs[j] in s && xs[j] !in xs[..j];
      } else {
        assert (results + [res])[k] == results[k];
      }
    }
  }

  class Skiplist {
    /** Every node ever allocated, by id; id 0 is the header. */
    var nodes: seq<Node>
    var tail: int
    var length: nat
    var level: nat

    /** The elements in level-0 order, the ids of their nodes and the nodes' heights. */
    ghost var keys: seq<int>
    ghost var ids: seq<nat>
    ghost var heights: seq<nat>

    ghost predicate Valid()
      reads this
    {
      ValidState(nodes, tail, length, level, keys, ids, heights)
    }

    /**
     * SkiplistCreate: an empty list on one level whose header has nil links
     * with span 0 on every level.
     */
    constructor ()
      ensures Valid()
      ensures keys == [] && length == 0 && level == 1 && tail == Nil && |nodes| == 1
      ensures forall j :: 0 <= j < MaxLevel ==> nodes[Header].level[j] == Level(Nil, 0)
    {
      var h := CreateNode(0);
      var j := 0;
      while j < MaxLevel
        invariant 0 <= j <= MaxLevel
        invariant h == CreateNode(0)
      {
        h := h.(level := h.level[j := Level(Nil, 0)]);
        j := j + 1;
      }
      h := h.(backward := Nil);
      level := 1;
      length := 0;
      nodes := [h];
      tail := Nil;
      keys, ids, heights := [], [], [];
      EmptyValid(0);
    }

    /** SkiplistLength: the number of elements. */
    function Length(): (n: nat)
      reads this
      requires Valid()
      ensures n == |keys|
    {
      length
    }

    /**
     * The part of SkiplistInsert after the search found no equal element
     * (skiplist/skiplist.go:104-141): raise the active level to the drawn
     * height `h` if it is above it, link a fresh node holding `obj` in after
     * the recorded predecessors, set its backward link, its successor's and
     * the tail, and count one element more. The new node sits at the lower
     * bound of `obj` with height `h`; every other element keeps its node.
     */
    method InsertNode(obj: int, update: seq<int>, rank: seq<nat>, h: nat) returns (x: int)
      requires Valid()
      requires |update| == MaxLevel && |rank| == MaxLevel
      requires Descent(ids, heights, LowerBound(keys, obj), 0, level, update, rank)
      requires obj !in keys && 1 <= h <= MaxLevel
      modifies this
      ensures x == old(|nodes|) && |nodes| == old(|nodes|) + 1 && nodes[x].obj == obj
      ensures length == old(length) + 1 && level == Max(old(level), h)
      ensures keys == InsertKey(old(keys), obj)
      ensures var L := LowerBound(old(keys), obj);
        ids == old(ids)[..L] + [x] + old(ids)[L..] && heights == old(heights)[..L] + [h] + old(heights)[L..]
      ensures Valid()
    {
      var nodes', tail', top', y;
      ghost var keys', ids', hs';
      nodes', tail', top', y, keys', ids', hs' := Splice(nodes, tail, length, level, keys, ids, heights, obj, update, rank, h);
      x := y;
      nodes, tail, level, length := nodes', tail', top', length + 1;
      keys, ids, heights := keys', ids', hs';
    }

    /**
     * SkiplistInsert: add `obj` at its place in the order and return its new
     * node, or return nil and change nothing when an equal element is already
     * present. The new node's height is drawn from `draws` only once the
     * element is known to be new (skiplistRandomLevel, skiplist/skiplist.go:101).
     * The new node takes the element's place in the order; every other
     * element keeps its node and height.
     */
    method Insert(obj: int, draws: seq<nat>) returns (x: int)
      requires Valid()
      modifies this
      ensures obj in old(keys) ==> x == Nil && unchanged(this)
      ensures obj !in old(keys) ==>
        && x == old(|nodes|) && |nodes| == old(|nodes|) + 1 && nodes[x].obj == obj
        && length == old(length) + 1
        && level == Max(old(level), DrawnLevel(draws))
        && var L := LowerBound(old(keys), obj);
           && ids == old(ids)[..L] + [x] + old(ids)[L..]
           && heights == old(heights)[..L] + [DrawnLevel(draws)] + old(heights)[L..]
      ensures Valid()
      ensures keys == InsertKey(old(keys), obj)
    {
      var update, rank := Predecessors(nodes, tail, length, level, keys, ids, heights, obj);
      x := Successor(nodes, tail, length, level, keys, ids, heights, obj, update[0], rank[0]);
      if x != Nil {
        x := Nil;
        return x;
      }
      var lvl := RandomLevel(draws);
      x := InsertNode(obj, update, rank, lvl);
    }

    /**
     * skiplistDeleteNode: remove the node `x` of the element at position `L`,
     * given the predecessors the search recorded, then lower the active level
     * while its top level is empty and count one element less
     * (skiplist/skiplist.go:147-168). The other elements keep their nodes and
     * heights, and the level stays between 1 and where it was.
     */
    method DeleteNode(x: int, update: seq<int>, ghost rank: seq<nat>, ghost L: nat)
      requires Valid()
      requires |update| == MaxLevel && |rank| == MaxLevel
      requires L < length && x == ids[L]
      requires Descent(ids, heights, L, 0, level, update, rank)
      modifies this
      ensures |nodes| == old(|nodes|) && 1 <= level <= old(level) && length == old(length) - 1
      ensures keys == RemoveKey(old(keys), old(keys)[L])
      ensures ids == Del(old(ids), L) && heights == Del(old(heights), L)
      ensures Valid()
    {
      var nodes', tail' := Unlink(nodes, tail, length, level, keys, ids, heights, x, update, rank, L);
      ghost var keys', ids', hs' := Del(keys, L), Del(ids, L), Del(heights, L);
      var level' := TrimLevel(nodes', tail', length - 1, level, keys', ids', hs');
      LowerBoundAt(keys, L);
      nodes, tail, level, length := nodes', tail', level', length - 1;
      keys, ids, heights := keys', ids', hs';
    }

    /**
     * SkiplistDelete: remove the element equal to `obj` and return 1, or
     * return 0 and change nothing when there is none. Every other element
     * keeps its node and height.
     */
    method Delete(obj: int) returns (res: int)
      requires Valid()
      modifies this
      ensures obj !in old(keys) ==> res == 0 && unchanged(this)
      ensures obj in old(keys) ==>
        && res == 1 && length == old(length) - 1
        && 1 <= level <= old(level) && |nodes| == old(|nodes|)
        && var L := LowerBound(old(keys), obj);
           && ids == old(ids)[..L] + old(ids)[L + 1..]
           && heights == old(heights)[..L] + old(heights)[L + 1..]
      ensures Valid()
      ensures keys == RemoveKey(old(keys), obj)
    {
      var update, rank := Predecessors(nodes, tail, length, level, keys, ids, heights, obj);
      var x := Successor(nodes, tail, length, level, keys, ids, heights, obj, update[0], rank[0]);
      if x != Nil {
        LowerBoundFinds(keys, obj);
        DeleteNode(x, update, rank, LowerBound(keys, obj));
        return 1;
      }
      return 0;
    }

    /**
     * SkiplistPopHead with its guard as evidently intended: on an empty list
     * return nil; otherwise remove the first element and return it. The
     * source tests `x != nil` at skiplist/skiplist.go:215 where `x == nil`
     * is meant; PopHeadAsWritten models that.
     */
    method PopHead() returns (res: Option<int>)
      requires Valid()
      modifies this
      ensures old(keys) == [] ==> res == None && unchanged(this)
      ensures old(keys) != [] ==> res == Some(old(keys)[0]) && length == old(length) - 1
      ensures old(keys) != [] ==> ids == old(ids)[1..] && heights == old(heights)[1..]
      ensures Valid()
      ensures keys == if old(keys) == [] then [] else old(keys)[1..]
    {
      NextAtLevel0(heights, 0);
      ForwardAt(nodes, tail, length, level, keys, ids, heights, 0, 0);
      var x := nodes[Header].level[0].forward;
      if x == Nil {
        return None;
      }
      var obj := nodes[x].obj;
      RemoveFirst(keys);
      LowerBoundAt(keys, 0);
      var deleted := Delete(obj);
      return Some(obj);
    }

    /**
     * SkiplistPopTail with its guard as evidently intended: on an empty list
     * return nil; otherwise remove the last element and return it. The
     * source tests `x != nil` at skiplist/skiplist.go:227 where `x == nil`
     * is meant; PopTailAsWritten models that.
     */
    method PopTail() returns (res: Option<int>)
      requires Valid()
      modifies this
      ensures old(keys) == [] ==> res == None && unchanged(this)
      ensures old(keys) != [] ==> res == Some(old(keys)[|old(keys)| - 1]) && length == old(length) - 1
      ensures old(keys) != [] ==> ids == old(ids)[..|old(ids)| - 1] && heights == old(heights)[..|old(heights)| - 1]
      ensures Valid()
      ensures keys == if old(keys) == [] then [] else old(keys)[..|old(keys)| - 1]
    {
      var x := tail;
      if x == Nil {
        return None;
      }
      var obj := nodes[x].obj;
      RemoveLast(keys);
      LowerBoundAt(keys, |keys| - 1);
      var deleted := Delete(obj);
      return Some(obj);
    }

    /**
     * SkiplistPopHead as written (skiplist/skiplist.go:210-222): the guard
     * returns nil whenever the list has a first element, and an empty list
     * reaches `x.Obj` with `x` nil. The list never changes.
     */
    method PopHeadAsWritten() returns (res: Popped)
      requires Valid()
      ensures keys != [] ==> res == Popped(None)
      ensures keys == [] ==> res == NilDereference
    {
      NextAtLevel0(heights, 0);
      ForwardAt(nodes, tail, length, level, keys, ids, heights, 0, 0);
      var x := nodes[Header].level[0].forward;
      if x != Nil {
        return Popped(None);
      }
      return NilDereference;
    }

    /**
     * SkiplistPopTail as written (skiplist/skiplist.go:224-235): the guard
     * returns nil whenever the list has a last element, and an empty list
     * reaches `x.Obj` with `x` nil. The list never changes.
     */
    method PopTailAsWritten() returns (res: Popped)
      requires Valid()
      ensures keys != [] ==> res == Popped(None)
      ensures keys == [] ==> res == NilDereference
    {
      var x := tail;
      if x != Nil {
        return Popped(None);
      }
      return NilDereference;
    }

    /**
     * Popping from the head until the list is empty yields the elements in
     * ascending order (the pop-head check in skiplist/skiplist_test.go).
     */
    method DrainHead() returns (popped: seq<int>)
      requires Valid()
      modifies this
      ensures Valid() && keys == [] && length == 0
      ensures popped == old(keys)
    {
      popped := [];
      while Length() > 0
        invariant Valid()
        invariant old(keys) == popped + keys
        decreases |keys|
      {
        ghost var before := keys;
        var res := PopHead();
        assert before == [res.value] + keys;
        popped := popped + [res.value];
      }
    }

    /**
     * Popping from the tail until the list is empty yields the elements in
     * descending order (the pop-tail check in skiplist/skiplist_test.go).
     */
    method DrainTail() returns (popped: seq<int>)
      requires Valid()
      modifies this
      ensures Valid() && keys == [] && length == 0
      ensures popped == Reverse(old(keys))
    {
      popped := [];
      while Length() > 0
        invariant Valid()
        invariant |keys| + |popped| == |old(keys)| && keys == old(keys)[..|keys|]
        invariant forall k :: 0 <= k < |popped| ==> popped[k] == old(keys)[|old(keys)| - 1 - k]
        decreases |keys|
      {
        ghost var before := keys;
        var res := PopTail();
        assert res.value == old(keys)[|keys|] && keys == old(keys)[..|keys|];
        popped := popped + [res.value];
      }
    }

    /**
     * Inserting each element of `xs` in turn, the i-th new node's height drawn
     * from draws[i] (the insert and duplicate checks in
     * skiplist/skiplist_test.go): a call returns nil exactly when its element
     * was already present, and afterwards the list holds the old elements
     * and those of `xs`.
     */
    method InsertEach(xs: seq<int>, draws: seq<seq<nat>>) returns (results: seq<int>)
      requires Valid() && |draws| == |xs|
      modifies this
      ensures Valid()
      ensures |results| == |xs|
      ensures forall k :: 0 <= k < |xs| ==> (results[k] == Nil <==> xs[k] in old(keys) || xs[k] in xs[..k])
      ensures forall v :: v in keys <==> v in old(keys) || v in xs
    {
      ghost var keys0 := keys;
      results := [];
      var j := 0;
      while j < |xs|
        invariant 0 <= j <= |xs| && |results| == j
        invariant Valid()
        invariant forall k :: 0 <= k < j ==> (results[k] == Nil <==> xs[k] in keys0 || xs[k] in xs[..k])
        invariant keys == InsertAll(keys0, xs[..j])
      {
        InsertAllStep(keys0, xs, j);
        var x := Insert(xs[j], draws[j]);
        InsertResultsStep(keys0, xs, results, x);
        results := results + [x];
        j := j + 1;
      }
      assert xs[..j] == xs;
    }

    /**
     * Deleting each element of `xs` in turn (the delete check in
     * skiplist/skiplist_test.go): a call returns 1 exactly when its element
     * was still present, and afterwards the list holds the old elements not
     * in `xs`; deleting every element empties it.
     */
    method DeleteEach(xs: seq<int>) returns (results: seq<int>)
      requires Valid()
      modifies this
      ensures Valid()
      ensures |results| == |xs|
      ensures forall k :: 0 <= k < |xs| ==> results[k] == (if xs[k] in old(keys) && xs[k] !in xs[..k] then 1 else 0)
      ensures forall v :: v in keys <==> v in old(keys) && v !in xs
      ensures (forall v :: v in old(keys) ==> v in xs) ==> keys == [] && length == 0
    {
      ghost var keys0 := keys;
      results := [];
      var j := 0;
      while j < |xs|
        invariant 0 <= j <= |xs| && |results| == j
        invariant Valid()
        invariant forall k :: 0 <= k < j ==> results[k] == (if xs[k] in keys0 && xs[k] !in xs[..k] then 1 else 0)
        invariant keys == RemoveAll(keys0, xs[..j])
      {
        RemoveAllStep(keys0, xs, j);
        var res := Delete(xs[j]);
        DeleteResultsStep(keys0, xs, results, res);
        results := results + [res];
        j := j + 1;
      }
      assert xs[..j] == xs;
      if keys != [] {
        assert keys[0] in keys;
      }
    }

    /**
     * SkiplistFind: the node holding `obj`, or nil when no element compares
     * equal to it. The list is not changed.
     */
    method Find(obj: int) returns (x: int)
      requires Valid()
      ensures obj in keys ==> x == ids[LowerBound(keys, obj)] && 0 <= x < |nodes| && nodes[x].obj == obj
      ensures obj !in keys ==> x == Nil
    {
      ghost var L := LowerBound(keys, obj);
      var r: nat := 0;
      x := Header;
      var i := level;
      NextAtTop(nodes, tail, length, level, keys, ids, heights);
      while i > 0
        invariant 0 <= i <= level
        invariant r <= L && x == At(ids, r)
        invariant r == 0 || i <= heights[r - 1]
        invariant L <= Next(heights, r, i)
      {
        i := i - 1;
        SearchableAt(nodes, tail, length, level, keys, ids, heights, i);
        x, r := WalkLevel(nodes, keys, ids, heights, obj, i, x, r);
      }
      x := Successor(nodes, tail, length, level, keys, ids, heights, obj, x, r);
    }
  }
}
