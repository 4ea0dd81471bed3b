// The node store of a skip list and the invariant that ties it to the
// abstract contents (keys in level-0 order, node ids, node heights).
//
// Nodes live in a store indexed by id: id 0 is the header sentinel and -1
// stands for the nil pointer. A node's Level array of MaxLevel slots is a
// Go value array, so it is a sequence here.

module SkiplistState {

  import opened SortedKeys
  import opened Levels

  /** The nil pointer. */
  const Nil: int := -1

  /** The id of the header sentinel. */
  const Header: int := 0

  /** SkiplistLevel: where the link on one level goes, and how many level-0 steps it covers. */
  datatype Level = Level(forward: int, span: nat)

  /** SkiplistNode: payload, level-0 predecessor and MaxLevel link slots. */
  datatype Node = Node(obj: int, backward: int, level: seq<Level>)

  /** skiplistCreateNode: a zero-valued node holding `obj`; the drawn level is not used. */
  function CreateNode(obj: int): Node
  {
    Node(obj, Nil, seq(MaxLevel, _ => Level(Nil, 0)))
  }

  /** The store with slot `i` of node `id` replaced. */
  function SetLevel(nodes: seq<Node>, id: int, i: nat, l: Level): seq<Node>
    requires 0 <= id < |nodes| && i < |nodes[id].level|
  {
    nodes[id := nodes[id].(level := nodes[id].level[i := l])]
  }

  /** The store with the backward link of node `id` replaced. */
  function SetBackward(nodes: seq<Node>, id: int, b: int): seq<Node>
    requires 0 <= id < |nodes|
  {
    nodes[id := nodes[id].(backward := b)]
  }

  /** The node of 1-based rank `r` in level-0 order; rank 0 is the header. */
  function At(ids: seq<nat>, r: nat): int
    requires r <= |ids|
  {
    if r == 0 then Header else ids[r - 1]
  }

  /**
   * The link the node of rank `r` must hold on level `i`: the next node tall
   * enough for that level and the number of level-0 steps to it, or nil and
   * the number of nodes after rank `r`.
   */
  function Expected(ids: seq<nat>, hs: seq<nat>, r: nat, i: nat): Level
    requires |ids| == |hs| && r <= |hs|
  {
    var q := Next(hs, r, i);
    if q < |hs| then Level(ids[q], q + 1 - r) else Level(Nil, |hs| - r)
  }

  /**
   * The link structure of the store for a list of node ids `ids` with
   * heights `hs`: the header's links are right on levels below `top`, every
   * node's links are right up to its height and nil above it. Every level
   * chain is then ascending and a sub-chain of level 0, and every span is
   * the level-0 distance its link covers.
   */
  ghost predicate Linked(nodes: seq<Node>, top: nat, ids: seq<nat>, hs: seq<nat>)
  {
    && |nodes| >= 1
    && (forall id :: 0 <= id < |nodes| ==> |nodes[id].level| == MaxLevel)
    && |ids| == |hs|
    && (forall k :: 0 <= k < |ids| ==> 1 <= ids[k] < |nodes|)
    && (forall k :: 0 <= k < |hs| ==> 1 <= hs[k])
    && TopLevel(hs) <= top <= MaxLevel
    && (forall i :: 0 <= i < top ==> nodes[Header].level[i] == Expected(ids, hs, 0, i))
    && (forall i :: top <= i < MaxLevel ==> nodes[Header].level[i].forward == Nil)
    && (forall k, i :: 0 <= k < |ids| && 0 <= i < MaxLevel ==>
          nodes[ids[k]].level[i] == (if i < hs[k] then Expected(ids, hs, k + 1, i) else Level(Nil, 0)))
  }

  /** Distinct ranks hold distinct nodes. */
  ghost predicate Injective(ids: seq<nat>)
  {
    forall r, s :: 0 <= r <= |ids| && 0 <= s <= |ids| && r != s ==> At(ids, r) != At(ids, s)
  }

  /**
   * The store holds the list `keys` (node ids `ids`, heights `hs`): its
   * links are right, every node holds its key, the keys ascend, level 0 is
   * linked backward too, and `tail` is the last node.
   */
  ghost predicate ValidAt(nodes: seq<Node>, tail: int, length: nat, top: nat,
                          keys: seq<int>, ids: seq<nat>, hs: seq<nat>)
  {
    && Linked(nodes, top, ids, hs)
    && |keys| == length && |ids| == length
    && StrictlySorted(keys)
    && (forall k {:trigger nodes[ids[k]].obj} :: 0 <= k < |ids| ==> nodes[ids[k]].obj == keys[k])
    && (forall k {:trigger nodes[ids[k]].backward} :: 0 <= k < |ids| ==>
          nodes[ids[k]].backward == (if k == 0 then Nil else ids[k - 1]))
    && tail == (if length == 0 then Nil else ids[length - 1])
  }

  /** The list invariant: valid, with the active level trimmed to the tallest node. */
  ghost predicate ValidState(nodes: seq<Node>, tail: int, length: nat, level: nat,
                             keys: seq<int>, ids: seq<nat>, hs: seq<nat>)
  {
    ValidAt(nodes, tail, length, level, keys, ids, hs) && level == TopLevel(hs)
  }

  /**
   * What a search for a key of lower bound `L` leaves behind on the levels
   * from `lo` up to `top`: `update[i]` is the node of rank `rank[i]`, the
   * last one on level `i` before position `L`. With `lo` = 0 the search is
   * complete; a larger `lo` is what it has recorded so far.
   */
  ghost predicate Descent(ids: seq<nat>, hs: seq<nat>, L: nat, lo: nat, top: nat,
                          update: seq<int>, rank: seq<nat>)
  {
    && |ids| == |hs| && L <= |hs| && top <= |update| && top <= |rank|
    && forall i :: lo <= i < top ==>
         && rank[i] <= L && update[i] == At(ids, rank[i])
         && (rank[i] == 0 || i < hs[rank[i] - 1])
         && L <= Next(hs, rank[i], i)
  }

  /** Recording the node where the walk along level `lo - 1` stopped extends the descent by that level. */
  lemma {:induction false} DescentExtend(ids: seq<nat>, hs: seq<nat>, L: nat, lo: nat, top: nat,
                      update: seq<int>, rank: seq<nat>, x: int, r: nat)
    requires Descent(ids, hs, L, lo + 1, top, update, rank)
    requires lo < top
    requires r <= L && x == At(ids, r) && (r == 0 || lo < hs[r - 1]) && L <= Next(hs, r, lo)
    ensures Descent(ids, hs, L, lo, top, update[lo := x], rank[lo := r])
  {
    var update', rank' := update[lo := x], rank[lo := r];
    forall i | lo <= i < top
      ensures && rank'[i] <= L && update'[i] == At(ids, rank'[i])
              && (rank'[i] == 0 || i < hs[rank'[i] - 1])
              && L <= Next(hs, rank'[i], i)
    {
      if i == lo {
        assert rank'[i] == r && update'[i] == x;
      } else {
        assert rank'[i] == rank[i] && update'[i] == update[i];
      }
    }
  }

  /** Levels above every node's height start their descent at the header. */
  lemma {:induction false} DescentRaise(ids: seq<nat>, hs: seq<nat>, L: nat, top: nat, top': nat,
                     update: seq<int>, rank: seq<nat>, update': seq<int>, rank': seq<nat>)
    requires Descent(ids, hs, L, 0, top, update, rank)
    requires TopLevel(hs) <= top <= top' <= |update'| && |update'| == |rank'|
    requires forall i :: 0 <= i < top ==> update'[i] == update[i] && rank'[i] == rank[i]
    requires forall i :: top <= i < top' ==> update'[i] == Header && rank'[i] == 0
    ensures Descent(ids, hs, L, 0, top', update', rank')
  {
    forall i | top <= i < top'
      ensures L <= Next(hs, 0, i)
    {
      NextIs(hs, 0, i, |hs|);
    }
  }

  /** The link a node holds on a level it takes part in. */
  lemma LinkAt(nodes: seq<Node>, top: nat, ids: seq<nat>, hs: seq<nat>, r: nat, i: nat)
    requires Linked(nodes, top, ids, hs)
    requires r <= |hs| && i < top && (r == 0 || i < hs[r - 1])
    ensures 0 <= At(ids, r) < |nodes|
    ensures nodes[At(ids, r)].level[i] == Expected(ids, hs, r, i)
  {
  }

  /**
   * Following the link of the node of rank `r` on level `i`: it is nil
   * exactly when no later node reaches that level, and otherwise it leads to
   * that node, `span` level-0 steps further on.
   */
  lemma {:induction false} ForwardAt(nodes: seq<Node>, tail: int, n: nat, top: nat, keys: seq<int>, ids: seq<nat>, hs: seq<nat>,
                  r: nat, i: nat)
    requires ValidAt(nodes, tail, n, top, keys, ids, hs)
    requires r <= n && i < top && (r == 0 || i < hs[r - 1])
    ensures LinkRead(nodes, keys, ids, hs, r, i)
  {
    LinkAt(nodes, top, ids, hs, r, i);
  }

  /** On the active level no node reaches higher, so every link there ends at nil. */
  lemma {:induction false} NextAtTop(nodes: seq<Node>, tail: int, n: nat, top: nat, keys: seq<int>, ids: seq<nat>, hs: seq<nat>)
    requires ValidAt(nodes, tail, n, top, keys, ids, hs)
    ensures Next(hs, 0, top) == n
  {
    NextIs(hs, 0, top, n);
  }

  /** The backward link of the node at position k. */
  lemma BackwardAt(nodes: seq<Node>, tail: int, n: nat, top: nat, keys: seq<int>, ids: seq<nat>, hs: seq<nat>, k: nat)
    requires ValidAt(nodes, tail, n, top, keys, ids, hs)
    requires k < n
    ensures 1 <= ids[k] < |nodes|
    ensures nodes[ids[k]].backward == if k == 0 then Nil else ids[k - 1]
  {
  }

  /** Distinct ranks hold distinct nodes: the nodes hold strictly ascending keys. */
  lemma ValidInjective(nodes: seq<Node>, tail: int, n: nat, top: nat, keys: seq<int>, ids: seq<nat>, hs: seq<nat>)
    requires ValidAt(nodes, tail, n, top, keys, ids, hs)
    ensures Injective(ids)
  {
    forall r, s | 0 <= r <= |ids| && 0 <= s <= |ids| && r != s
      ensures At(ids, r) != At(ids, s)
    {
      if 0 < r && 0 < s {
        if r < s { SortedAt(keys, r - 1, s - 1); } else { SortedAt(keys, s - 1, r - 1); }
        assert nodes[ids[r - 1]].obj == keys[r - 1] && nodes[ids[s - 1]].obj == keys[s - 1];
      }
    }
  }

  /** Two ranks hold the same node exactly when they are equal. */
  lemma AtInjective(ids: seq<nat>, r: nat, s: nat)
    requires Injective(ids) && r <= |ids| && s <= |ids|
    ensures At(ids, r) == At(ids, s) <==> r == s
  {
  }

  /** SkiplistCreate's store is a valid empty list on one level. */
  lemma EmptyValid(obj: int)
    ensures ValidState([CreateNode(obj)], Nil, 0, 1, [], [], [])
  {
    assert Next([], 0, 0) == 0;
  }

  /**
   * Raising the active level from `top` to `top'` while setting the header's
   * span on each new level to the length keeps the store valid.
   */
  lemma RaiseKeepsValid(N0: seq<Node>, N: seq<Node>, tail: int, n: nat, top: nat, top': nat,
                        keys: seq<int>, ids: seq<nat>, hs: seq<nat>)
    requires ValidAt(N0, tail, n, top, keys, ids, hs)
    requires top <= top' <= MaxLevel
    requires |N| == |N0|
    requires forall id :: 0 < id < |N| ==> N[id] == N0[id]
    requires |N[Header].level| == MaxLevel
    requires forall i :: 0 <= i < MaxLevel ==>
               N[Header].level[i] == (if top <= i < top' then Level(Nil, n) else N0[Header].level[i])
    ensures ValidAt(N, tail, n, top', keys, ids, hs)
  {
    forall i | top <= i < top'
      ensures N[Header].level[i] == Expected(ids, hs, 0, i)
    {
      NextIs(hs, 0, i, |hs|);
    }
  }

  /** Dropping an empty top level keeps the store valid. */
  lemma TrimKeepsValid(N: seq<Node>, tail: int, n: nat, top: nat, keys: seq<int>, ids: seq<nat>, hs: seq<nat>)
    requires ValidAt(N, tail, n, top, keys, ids, hs)
    requires 1 < top && N[Header].level[top - 1].forward == Nil
    ensures ValidAt(N, tail, n, top - 1, keys, ids, hs)
  {
    assert Next(hs, 0, top - 1) == |hs|;
    TopLevelIs(hs, TopLevel(hs));
  }

  /** Once the top level is in use (or it is level 1), the active level is trimmed. */
  lemma {:induction false} TrimmedAtTop(N: seq<Node>, tail: int, n: nat, top: nat, keys: seq<int>, ids: seq<nat>, hs: seq<nat>)
    requires ValidAt(N, tail, n, top, keys, ids, hs)
    requires top == 1 || N[Header].level[top - 1].forward != Nil
    ensures top == TopLevel(hs)
  {
    if top != 1 {
      var q := Next(hs, 0, top - 1);
      assert q < |hs| && top <= hs[q];
    }
  }

  /** A link that ends before the insertion point at L is the same in the longer list. */
  lemma {:induction false} ExpectedInsBefore(ids: seq<nat>, hs: seq<nat>, L: nat, x: nat, h: nat, r: nat, i: nat)
    requires |ids| == |hs| && r <= L <= |hs| && Next(hs, r, i) < L
    ensures Expected(Ins(ids, L, x), Ins(hs, L, h), r, i) == Expected(ids, hs, r, i)
  {
    NextInsBefore(hs, L, h, r, i);
  }

  /** A node after the insertion point moves up one rank and keeps its link. */
  lemma ExpectedInsAfter(ids: seq<nat>, hs: seq<nat>, L: nat, x: nat, h: nat, r: nat, i: nat)
    requires |ids| == |hs| && L <= r <= |hs|
    ensures Expected(Ins(ids, L, x), Ins(hs, L, h), r + 1, i) == Expected(ids, hs, r, i)
  {
    NextInsAfter(hs, L, h, r, i);
  }

  /**
   * A link passing over the insertion point now ends at the new node when it
   * is tall enough, and otherwise covers one more level-0 step.
   */
  lemma {:induction false} ExpectedInsOver(ids: seq<nat>, hs: seq<nat>, L: nat, x: nat, h: nat, r: nat, i: nat)
    requires |ids| == |hs| && r <= L <= |hs| && L <= Next(hs, r, i)
    ensures var e, e' := Expected(ids, hs, r, i), Expected(Ins(ids, L, x), Ins(hs, L, h), r, i);
      if i < h then e' == Level(x, L + 1 - r) else e'.forward == e.forward && e'.span == e.span + 1
  {
    NextInsOver(hs, L, h, r, i);
  }

  /** The new node's link continues where the passing link went, minus the rank gap. */
  lemma {:induction false} ExpectedInsNew(ids: seq<nat>, hs: seq<nat>, L: nat, x: nat, h: nat, r: nat, i: nat)
    requires |ids| == |hs| && r <= L <= |hs| && L <= Next(hs, r, i)
    ensures var e, e' := Expected(ids, hs, r, i), Expected(Ins(ids, L, x), Ins(hs, L, h), L + 1, i);
      e'.forward == e.forward && e'.span + (L - r) == e.span
  {
    NextFrom(hs, r, L, i);
    NextInsAfter(hs, L, h, L, i);
  }

  /** A link that ends before the removed position L is the same in the shorter list. */
  lemma {:induction false} ExpectedDelBefore(ids: seq<nat>, hs: seq<nat>, L: nat, r: nat, i: nat)
    requires |ids| == |hs| && r <= L < |hs| && Next(hs, r, i) < L
    ensures Expected(Del(ids, L), Del(hs, L), r, i) == Expected(ids, hs, r, i)
  {
    NextDelBefore(hs, L, r, i);
  }

  /** A node after the removed position moves down one rank and keeps its link. */
  lemma ExpectedDelAfter(ids: seq<nat>, hs: seq<nat>, L: nat, r: nat, i: nat)
    requires |ids| == |hs| && L < r <= |hs|
    ensures Expected(Del(ids, L), Del(hs, L), r - 1, i) == Expected(ids, hs, r, i)
  {
    NextDelAfter(hs, L, r, i);
  }

  /**
   * A link passing over the removed position: when it ended at the removed
   * node it now goes where that node's link went, covering both spans less
   * one; otherwise it covers one level-0 step fewer.
   */
  lemma {:induction false} ExpectedDelOver(ids: seq<nat>, hs: seq<nat>, L: nat, r: nat, i: nat)
    requires |ids| == |hs| && r <= L < |hs| && L <= Next(hs, r, i)
    ensures var e, ex, e' := Expected(ids, hs, r, i), Expected(ids, hs, L + 1, i), Expected(Del(ids, L), Del(hs, L), r, i);
      if Next(hs, r, i) == L then e'.forward == ex.forward && e'.span + 1 == e.span + ex.span
      else e'.forward == e.forward && e'.span + 1 == e.span
  {
    NextDelOver(hs, L, r, i);
    if Next(hs, r, i) != L {
      NextFrom(hs, r, L + 1, i);
    }
  }

  /**
   * The link of the node of rank `r` on level `i`, as a search along that
   * level reads it: nil exactly when no later node reaches level `i`, and
   * otherwise the next such node, holding its element, `span` ranks on.
   */
  ghost predicate LinkRead(nodes: seq<Node>, keys: seq<int>, ids: seq<nat>, hs: seq<nat>, r: nat, i: nat)
    requires |ids| == |hs| == |keys| && r <= |hs|
  {
    && 0 <= At(ids, r) < |nodes| && i < |nodes[At(ids, r)].level|
    && var l, q := nodes[At(ids, r)].level[i], Next(hs, r, i);
       && (l.forward == Nil <==> q == |hs|)
       && (q < |hs| ==> && l.forward == ids[q] && 1 <= l.forward < |nodes| && nodes[l.forward].obj == keys[q]
                        && r + l.span == q + 1 && i < hs[q])
  }

  /** Level `i` can be searched: every node on it has the link LinkRead describes. */
  ghost predicate Searchable(nodes: seq<Node>, keys: seq<int>, ids: seq<nat>, hs: seq<nat>, i: nat)
  {
    && |ids| == |hs| == |keys| && StrictlySorted(keys)
    && forall r :: 0 <= r <= |hs| && (r == 0 || i < hs[r - 1]) ==> LinkRead(nodes, keys, ids, hs, r, i)
  }

  /** Every active level of a valid list can be searched. */
  lemma SearchableAt(nodes: seq<Node>, tail: int, n: nat, top: nat, keys: seq<int>, ids: seq<nat>, hs: seq<nat>, i: nat)
    requires ValidAt(nodes, tail, n, top, keys, ids, hs) && i < top
    ensures Searchable(nodes, keys, ids, hs, i)
  {
    forall r | 0 <= r <= |hs| && (r == 0 || i < hs[r - 1])
      ensures LinkRead(nodes, keys, ids, hs, r, i)
    {
      ForwardAt(nodes, tail, n, top, keys, ids, hs, r, i);
    }
  }

  /**
   * A search for `obj` along level `i` stands at `x`, the node of rank `r`:
   * it has not passed the position of `obj`, `x` takes part in level `i`,
   * and no node above level `i` lies between rank `r` and that position.
   */
  ghost predicate Walking(nodes: seq<Node>, keys: seq<int>, ids: seq<nat>, hs: seq<nat>, obj: int, i: nat, x: int, r: nat)
  {
    && StrictlySorted(keys) && |ids| == |hs| && r <= LowerBound(keys, obj) && r <= |hs|
    && x == At(ids, r) && (r == 0 || i < hs[r - 1])
    && LowerBound(keys, obj) <= Next(hs, r, i + 1)
    && 0 <= x < |nodes| && i < |nodes[x].level|
    && (nodes[x].level[i].forward == Nil || 0 <= nodes[x].level[i].forward < |nodes|)
  }

  /** A search along level `i` may start wherever the search on level `i + 1` stopped. */
  lemma {:induction false} WalkStart(nodes: seq<Node>, keys: seq<int>, ids: seq<nat>, hs: seq<nat>,
                  obj: int, i: nat, x: int, r: nat)
    requires Searchable(nodes, keys, ids, hs, i)
    requires r <= LowerBound(keys, obj) && x == At(ids, r) && (r == 0 || i < hs[r - 1])
    requires LowerBound(keys, obj) <= Next(hs, r, i + 1)
    ensures Walking(nodes, keys, ids, hs, obj, i, x, r)
  {
    assert LinkRead(nodes, keys, ids, hs, r, i);
  }

  /**
   * One step of a search for `obj` along level `i`: when the link from `x`
   * leads to an element below `obj`, the search may move to that node, whose
   * rank is `span` higher.
   */
  lemma {:induction false} WalkStep(nodes: seq<Node>, keys: seq<int>, ids: seq<nat>, hs: seq<nat>,
                 obj: int, i: nat, x: int, r: nat)
    requires Searchable(nodes, keys, ids, hs, i) && Walking(nodes, keys, ids, hs, obj, i, x, r)
    requires var f := nodes[x].level[i].forward; f != Nil && nodes[f].obj < obj
    ensures r < r + nodes[x].level[i].span <= LowerBound(keys, obj)
    ensures Walking(nodes, keys, ids, hs, obj, i, nodes[x].level[i].forward, r + nodes[x].level[i].span)
  {
    assert LinkRead(nodes, keys, ids, hs, r, i);
    var q := Next(hs, r, i);
    NextFrom(hs, r, q + 1, i + 1);
    assert LinkRead(nodes, keys, ids, hs, q + 1, i);
  }

  /**
   * Where a search for `obj` along level `i` stops: the link from the node of
   * rank `r` is nil or leads to an element not below `obj`, so no node of
   * level `i` lies between rank `r` and the position of `obj`.
   */
  lemma {:induction false} WalkStop(nodes: seq<Node>, keys: seq<int>, ids: seq<nat>, hs: seq<nat>,
                 obj: int, i: nat, x: int, r: nat)
    requires Searchable(nodes, keys, ids, hs, i) && Walking(nodes, keys, ids, hs, obj, i, x, r)
    requires var f := nodes[x].level[i].forward; f == Nil || obj <= nodes[f].obj
    ensures LowerBound(keys, obj) <= Next(hs, r, i)
  {
    assert LinkRead(nodes, keys, ids, hs, r, i);
  }
}
