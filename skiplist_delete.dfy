// Why skiplistDeleteNode keeps the store valid: the links of the
// predecessors update[i] that it rewrites are exactly the ones the shorter
// list needs, and no other live link mentions the removed node.

module SkiplistDeleteProof {

  import opened SortedKeys
  import opened Levels
  import opened SkiplistState

  /**
   * The store N is N0 after node x was unlinked from the levels below `d`
   * (skiplist/skiplist.go:148-155): where update[i] pointed at x it takes
   * over x's link and both spans less one, elsewhere its span drops by one,
   * and nothing else changes. Spans are related by sums, so that the
   * equations hold in unbounded arithmetic.
   */
  ghost predicate Unspliced(N0: seq<Node>, N: seq<Node>, top: nat, x: int, update: seq<int>, d: nat)
  {
    && |N| == |N0| && 0 <= x < |N0| && d <= top <= MaxLevel && |update| == MaxLevel
    && (forall id :: 0 <= id < |N| ==> |N[id].level| == MaxLevel)
    && (forall id :: 0 <= id < |N0| ==> |N0[id].level| == MaxLevel)
    && (forall k :: 0 <= k < top ==> 0 <= update[k] < |N0|)
    && (forall k :: 0 <= k < d ==>
          if N0[update[k]].level[k].forward == x then
            && N[update[k]].level[k].forward == N0[x].level[k].forward
            && N[update[k]].level[k].span + 1 == N0[update[k]].level[k].span + N0[x].level[k].span
          else
            && N[update[k]].level[k].forward == N0[update[k]].level[k].forward
            && N[update[k]].level[k].span + 1 == N0[update[k]].level[k].span)
    && (forall id, k {:trigger N[id].level[k]} :: 0 <= id < |N0| && 0 <= k < MaxLevel && !(k < d && id == update[k]) ==>
          N[id].level[k] == N0[id].level[k])
  }

  /**
   * Payloads and backward links after the removal (skiplist/skiplist.go:157-161):
   * x's successor (if any) points back at x's predecessor, and otherwise
   * that predecessor becomes the tail.
   */
  ghost predicate Unlinked(N0: seq<Node>, N: seq<Node>, tail0: int, tail: int, ids: seq<nat>, L: nat)
  {
    && L < |ids| && ids[L] < |N0| && |N| == |N0|
    && (forall id :: 0 <= id < |N0| ==>
          && N[id].obj == N0[id].obj
          && N[id].backward == (if L + 1 < |ids| && id == ids[L + 1] then N0[ids[L]].backward else N0[id].backward))
    && tail == (if L + 1 == |ids| then N0[ids[L]].backward else tail0)
  }

  /** Before any level is unlinked, nothing has changed. */
  lemma UnspliceStart(N0: seq<Node>, top: nat, x: int, update: seq<int>)
    requires forall id :: 0 <= id < |N0| ==> |N0[id].level| == MaxLevel
    requires 0 <= x < |N0| && top <= MaxLevel && |update| == MaxLevel
    requires forall k :: 0 <= k < top ==> 0 <= update[k] < |N0|
    ensures Unspliced(N0, N0, top, x, update, 0)
  {
  }

  /**
   * Unlinking level d (skiplist/skiplist.go:149-154): a predecessor pointing
   * at x takes over x's link and both spans less one; any other loses one
   * from its span.
   */
  lemma UnlinkStep(N0: seq<Node>, N: seq<Node>, top: nat, x: int, update: seq<int>, d: nat, N': seq<Node>)
    requires Unspliced(N0, N, top, x, update, d)
    requires d < top && forall k :: 0 <= k < top ==> update[k] != x
    requires 1 <= N[update[d]].level[d].span
    requires N' == SetLevel(N, update[d], d,
                            if N[update[d]].level[d].forward == x
                            then Level(N[x].level[d].forward, N[update[d]].level[d].span + N[x].level[d].span - 1)
                            else N[update[d]].level[d].(span := N[update[d]].level[d].span - 1))
    ensures Unspliced(N0, N', top, x, update, d + 1)
  {
    var u := update[d];
    assert N[u].level[d] == N0[u].level[d];
    assert N[x].level[d] == N0[x].level[d];
    assert forall id, k {:trigger N'[id].level[k]} :: 0 <= id < |N| && 0 <= k < MaxLevel && !(k == d && id == u) ==>
      N'[id].level[k] == N[id].level[k];
  }

  /** Changing only backward links leaves every level slot, and so the unlinking, as it was. */
  lemma UnsplicedKeepsLevels(N0: seq<Node>, N: seq<Node>, top: nat, x: int, update: seq<int>, N': seq<Node>)
    requires Unspliced(N0, N, top, x, update, top)
    requires |N'| == |N| && forall id :: 0 <= id < |N| ==> N'[id].level == N[id].level
    ensures Unspliced(N0, N', top, x, update, top)
  {
  }

  /** The predecessor recorded on level `i` is not the node being removed, and its span there is at least one. */
  lemma {:induction false} PredecessorAvoids(N0: seq<Node>, top: nat, ids: seq<nat>, hs: seq<nat>,
                                             L: nat, update: seq<int>, rank: seq<nat>, i: nat)
    requires Linked(N0, top, ids, hs) && Injective(ids)
    requires Descent(ids, hs, L, 0, top, update, rank)
    requires L < |ids| && i < top
    ensures 0 <= update[i] < |N0| && update[i] != ids[L] && 1 <= N0[update[i]].level[i].span
  {
    PredecessorLink(N0, top, ids, hs, L, update, rank, i);
    AtInjective(ids, rank[i], L + 1);
  }

  /** No recorded predecessor is the node being removed. */
  lemma PredecessorsAvoid(N0: seq<Node>, top: nat, ids: seq<nat>, hs: seq<nat>,
                          L: nat, update: seq<int>, rank: seq<nat>)
    requires Linked(N0, top, ids, hs) && Injective(ids)
    requires Descent(ids, hs, L, 0, top, update, rank)
    requires L < |ids|
    ensures forall k :: 0 <= k < top ==>
      0 <= update[k] < |N0| && update[k] != ids[L] && 1 <= N0[update[k]].level[k].span
  {
    forall k | 0 <= k < top
      ensures 0 <= update[k] < |N0| && update[k] != ids[L] && 1 <= N0[update[k]].level[k].span
    {
      PredecessorAvoids(N0, top, ids, hs, L, update, rank, k);
    }
  }

  /**
   * Pointing the successor of x back at x's predecessor, or making that
   * predecessor the tail when x is last (skiplist/skiplist.go:157-161),
   * relinks level 0 around x.
   */
  lemma DeleteRelinked(N0: seq<Node>, N: seq<Node>, N': seq<Node>, tail0: int, tail: int, n: nat, top: nat,
                       keys: seq<int>, ids: seq<nat>, hs: seq<nat>, L: nat, update: seq<int>)
    requires ValidAt(N0, tail0, n, top, keys, ids, hs)
    requires L < n && Unspliced(N0, N, top, ids[L], update, top)
    requires 0 < top && update[0] != ids[L]
    requires forall id :: 0 <= id < |N0| ==> N[id].obj == N0[id].obj && N[id].backward == N0[id].backward
    requires |N'| == |N| && forall id :: 0 <= id < |N| ==> N'[id].level == N[id].level && N'[id].obj == N[id].obj
    requires forall id :: 0 <= id < |N| ==>
               N'[id].backward == (if id == N[ids[L]].level[0].forward then N[ids[L]].backward else N[id].backward)
    requires tail == (if N[ids[L]].level[0].forward == Nil then N[ids[L]].backward else tail0)
    ensures Unlinked(N0, N', tail0, tail, ids, L)
  {
    ForwardAt(N0, tail0, n, top, keys, ids, hs, L + 1, 0);
    NextAtLevel0(hs, L + 1);
    assert N[ids[L]].level[0] == N0[ids[L]].level[0];
  }

  /** Slots the unlinking does not touch keep their link. */
  lemma UnsplicedElsewhere(N0: seq<Node>, N: seq<Node>, top: nat, x: int, update: seq<int>, id: int, k: nat)
    requires Unspliced(N0, N, top, x, update, top)
    requires 0 <= id < |N0| && k < MaxLevel && !(k < top && id == update[k])
    ensures N[id].level[k] == N0[id].level[k]
  {
  }

  /**
   * A predecessor's link points at the removed node exactly when no node
   * between them reaches its level, and its span is at least one either way
   * (skiplist/skiplist.go:149-153 never takes a span below zero).
   */
  lemma {:induction false} PredecessorLink(N0: seq<Node>, top: nat, ids: seq<nat>, hs: seq<nat>,
                        L: nat, update: seq<int>, rank: seq<nat>, i: nat)
    requires Linked(N0, top, ids, hs) && Injective(ids)
    requires Descent(ids, hs, L, 0, top, update, rank)
    requires L < |ids| && i < top
    ensures 0 <= update[i] < |N0|
    ensures N0[update[i]].level[i].forward == ids[L] <==> Next(hs, rank[i], i) == L
    ensures 1 <= N0[update[i]].level[i].span
  {
    var ru := rank[i];
    LinkAt(N0, top, ids, hs, ru, i);
    var q := Next(hs, ru, i);
    if q < |ids| {
      AtInjective(ids, q + 1, L + 1);
    }
  }

  /** A node left in the list keeps the link it should have, at its new rank. */
  lemma DeleteOldLink(N0: seq<Node>, N: seq<Node>, top: nat, ids: seq<nat>, hs: seq<nat>,
                      L: nat, update: seq<int>, rank: seq<nat>, r: nat, i: nat)
    requires Linked(N0, top, ids, hs) && Injective(ids)
    requires Descent(ids, hs, L, 0, top, update, rank)
    requires L < |ids| && Unspliced(N0, N, top, ids[L], update, top)
    requires r <= |ids| && r != L + 1 && i < top && (r == 0 || i < hs[r - 1])
    ensures 0 <= At(ids, r) < |N0|
    ensures N[At(ids, r)].level[i] == Expected(Del(ids, L), Del(hs, L), if r <= L then r else r - 1, i)
  {
    if r == rank[i] {
      DeleteLinkAtPredecessor(N0, N, top, ids, hs, L, update, rank, i);
    } else if r < rank[i] {
      DeleteLinkBefore(N0, N, top, ids, hs, L, update, rank, r, i);
    } else {
      DeleteLinkAfter(N0, N, top, ids, hs, L, update, rank, r, i);
    }
  }

  /** The predecessor on level i takes over the removed node's link, the spans added less one. */
  lemma DeleteLinkAtPredecessor(N0: seq<Node>, N: seq<Node>, top: nat, ids: seq<nat>, hs: seq<nat>,
                                L: nat, update: seq<int>, rank: seq<nat>, i: nat)
    requires Linked(N0, top, ids, hs) && Injective(ids)
    requires Descent(ids, hs, L, 0, top, update, rank)
    requires L < |ids| && Unspliced(N0, N, top, ids[L], update, top) && i < top
    ensures rank[i] <= L && 0 <= At(ids, rank[i]) < |N0|
    ensures N[At(ids, rank[i])].level[i] == Expected(Del(ids, L), Del(hs, L), rank[i], i)
  {
    if Next(hs, rank[i], i) == L {
      DeleteLinkBypass(N0, N, top, ids, hs, L, update, rank, i);
    } else {
      DeleteLinkShorten(N0, N, top, ids, hs, L, update, rank, i);
    }
  }

  /** A predecessor that pointed at the removed node now points where the removed node did. */
  lemma DeleteLinkBypass(N0: seq<Node>, N: seq<Node>, top: nat, ids: seq<nat>, hs: seq<nat>,
                         L: nat, update: seq<int>, rank: seq<nat>, i: nat)
    requires Linked(N0, top, ids, hs) && Injective(ids)
    requires Descent(ids, hs, L, 0, top, update, rank)
    requires L < |ids| && Unspliced(N0, N, top, ids[L], update, top) && i < top
    requires Next(hs, rank[i], i) == L
    ensures rank[i] <= L && 0 <= At(ids, rank[i]) < |N0|
    ensures N[At(ids, rank[i])].level[i] == Expected(Del(ids, L), Del(hs, L), rank[i], i)
  {
    var r := rank[i];
    LinkAt(N0, top, ids, hs, r, i);
    PredecessorLink(N0, top, ids, hs, L, update, rank, i);
    ExpectedDelOver(ids, hs, L, r, i);
    LinkAt(N0, top, ids, hs, L + 1, i);
  }

  /** A predecessor whose link passes over the removed node keeps it, one step shorter. */
  lemma DeleteLinkShorten(N0: seq<Node>, N: seq<Node>, top: nat, ids: seq<nat>, hs: seq<nat>,
                          L: nat, update: seq<int>, rank: seq<nat>, i: nat)
    requires Linked(N0, top, ids, hs) && Injective(ids)
    requires Descent(ids, hs, L, 0, top, update, rank)
    requires L < |ids| && Unspliced(N0, N, top, ids[L], update, top) && i < top
    requires Next(hs, rank[i], i) != L
    ensures rank[i] <= L && 0 <= At(ids, rank[i]) < |N0|
    ensures N[At(ids, rank[i])].level[i] == Expected(Del(ids, L), Del(hs, L), rank[i], i)
  {
    var r := rank[i];
    LinkAt(N0, top, ids, hs, r, i);
    PredecessorLink(N0, top, ids, hs, L, update, rank, i);
    ExpectedDelOver(ids, hs, L, r, i);
  }

  /** A node before the predecessor on level i keeps its link, which ends before the removed node. */
  lemma DeleteLinkBefore(N0: seq<Node>, N: seq<Node>, top: nat, ids: seq<nat>, hs: seq<nat>,
                         L: nat, update: seq<int>, rank: seq<nat>, r: nat, i: nat)
    requires Linked(N0, top, ids, hs) && Injective(ids)
    requires Descent(ids, hs, L, 0, top, update, rank)
    requires L < |ids| && Unspliced(N0, N, top, ids[L], update, top)
    requires i < top && r < rank[i] && (r == 0 || i < hs[r - 1])
    ensures 0 <= At(ids, r) < |N0|
    ensures N[At(ids, r)].level[i] == Expected(Del(ids, L), Del(hs, L), r, i)
  {
    var ru := rank[i];
    LinkAt(N0, top, ids, hs, ru, i);
    LinkAt(N0, top, ids, hs, r, i);
    AtInjective(ids, r, ru);
    assert i < hs[ru - 1];
    ExpectedDelBefore(ids, hs, L, r, i);
    UnsplicedElsewhere(N0, N, top, ids[L], update, At(ids, r), i);
  }

  /** A node after the removed one keeps its link, one rank lower. */
  lemma DeleteLinkAfter(N0: seq<Node>, N: seq<Node>, top: nat, ids: seq<nat>, hs: seq<nat>,
                        L: nat, update: seq<int>, rank: seq<nat>, r: nat, i: nat)
    requires Linked(N0, top, ids, hs) && Injective(ids)
    requires Descent(ids, hs, L, 0, top, update, rank)
    requires L < |ids| && Unspliced(N0, N, top, ids[L], update, top)
    requires i < top && rank[i] < r <= |ids| && r != L + 1 && i < hs[r - 1]
    ensures 0 <= At(ids, r) < |N0|
    ensures N[At(ids, r)].level[i] == Expected(Del(ids, L), Del(hs, L), r - 1, i)
  {
    var ru := rank[i];
    LinkAt(N0, top, ids, hs, ru, i);
    LinkAt(N0, top, ids, hs, r, i);
    AtInjective(ids, r, ru);
    assert L + 1 < r;
    ExpectedDelAfter(ids, hs, L, r, i);
    UnsplicedElsewhere(N0, N, top, ids[L], update, At(ids, r), i);
  }

  /** Slots above a node's height stay nil with span 0. */
  lemma DeleteInert(N0: seq<Node>, N: seq<Node>, top: nat, ids: seq<nat>, hs: seq<nat>,
                    L: nat, update: seq<int>, rank: seq<nat>, k: nat, i: nat)
    requires Linked(N0, top, ids, hs) && Injective(ids)
    requires Descent(ids, hs, L, 0, top, update, rank)
    requires L < |ids| && Unspliced(N0, N, top, ids[L], update, top)
    requires k < |ids| && hs[k] <= i < MaxLevel
    ensures N[ids[k]].level[i] == Level(Nil, 0)
  {
    if i < top {
      AtInjective(ids, k + 1, rank[i]);
    }
    UnsplicedElsewhere(N0, N, top, ids[L], update, ids[k], i);
  }

  /** The header's links in the shorter list. */
  lemma DeleteHeaderLinks(N0: seq<Node>, N: seq<Node>, top: nat, ids: seq<nat>, hs: seq<nat>,
                          L: nat, update: seq<int>, rank: seq<nat>, ids': seq<nat>, hs': seq<nat>)
    requires Linked(N0, top, ids, hs) && Injective(ids)
    requires Descent(ids, hs, L, 0, top, update, rank)
    requires L < |ids| && Unspliced(N0, N, top, ids[L], update, top)
    requires ids' == Del(ids, L) && hs' == Del(hs, L)
    ensures forall i :: 0 <= i < top ==> N[Header].level[i] == Expected(ids', hs', 0, i)
    ensures forall i :: top <= i < MaxLevel ==> N[Header].level[i].forward == Nil
  {
    forall i | 0 <= i < top
      ensures N[Header].level[i] == Expected(ids', hs', 0, i)
    {
      DeleteOldLink(N0, N, top, ids, hs, L, update, rank, 0, i);
    }
    forall i | top <= i < MaxLevel
      ensures N[Header].level[i].forward == Nil
    {
      UnsplicedElsewhere(N0, N, top, ids[L], update, Header, i);
    }
  }

  /** One slot of a remaining node in the shorter list, at its new position k. */
  lemma DeleteNodeLink(N0: seq<Node>, N: seq<Node>, top: nat, ids: seq<nat>, hs: seq<nat>,
                       L: nat, update: seq<int>, rank: seq<nat>, ids': seq<nat>, hs': seq<nat>, k: nat, i: nat)
    requires Linked(N0, top, ids, hs) && Injective(ids)
    requires Descent(ids, hs, L, 0, top, update, rank)
    requires L < |ids| && Unspliced(N0, N, top, ids[L], update, top)
    requires ids' == Del(ids, L) && hs' == Del(hs, L)
    requires k < |ids'| && i < MaxLevel
    ensures N[ids'[k]].level[i] == (if i < hs'[k] then Expected(ids', hs', k + 1, i) else Level(Nil, 0))
  {
    if k < L {
      assert ids'[k] == ids[k] && hs'[k] == hs[k];
      if i < hs[k] {
        DeleteOldLink(N0, N, top, ids, hs, L, update, rank, k + 1, i);
      } else {
        DeleteInert(N0, N, top, ids, hs, L, update, rank, k, i);
      }
    } else {
      assert ids'[k] == ids[k + 1] && hs'[k] == hs[k + 1];
      if i < hs[k + 1] {
        DeleteOldLink(N0, N, top, ids, hs, L, update, rank, k + 2, i);
      } else {
        DeleteInert(N0, N, top, ids, hs, L, update, rank, k + 1, i);
      }
    }
  }

  /** Every remaining node's links in the shorter list. */
  lemma DeleteNodeLinks(N0: seq<Node>, N: seq<Node>, top: nat, ids: seq<nat>, hs: seq<nat>,
                        L: nat, update: seq<int>, rank: seq<nat>, ids': seq<nat>, hs': seq<nat>)
    requires Linked(N0, top, ids, hs) && Injective(ids)
    requires Descent(ids, hs, L, 0, top, update, rank)
    requires L < |ids| && Unspliced(N0, N, top, ids[L], update, top)
    requires ids' == Del(ids, L) && hs' == Del(hs, L)
    ensures forall k, i :: 0 <= k < |ids'| && 0 <= i < MaxLevel ==>
              N[ids'[k]].level[i] == (if i < hs'[k] then Expected(ids', hs', k + 1, i) else Level(Nil, 0))
  {
    forall k, i | 0 <= k < |ids'| && 0 <= i < MaxLevel
      ensures N[ids'[k]].level[i] == (if i < hs'[k] then Expected(ids', hs', k + 1, i) else Level(Nil, 0))
    {
      DeleteNodeLink(N0, N, top, ids, hs, L, update, rank, ids', hs', k, i);
    }
  }

  /** Backward links and the tail of the shorter list. */
  lemma DeleteBackLinks(N0: seq<Node>, N: seq<Node>, tail0: int, tail: int, n: nat, top: nat,
                        keys: seq<int>, ids: seq<nat>, hs: seq<nat>, L: nat, ids': seq<nat>)
    requires ValidAt(N0, tail0, n, top, keys, ids, hs)
    requires Unlinked(N0, N, tail0, tail, ids, L)
    requires ids' == Del(ids, L)
    ensures forall k :: 0 <= k < |ids'| ==> N[ids'[k]].backward == (if k == 0 then Nil else ids'[k - 1])
    ensures tail == (if n - 1 == 0 then Nil else ids'[n - 2])
  {
    ValidInjective(N0, tail0, n, top, keys, ids, hs);
    forall k | 0 <= k < |ids'|
      ensures N[ids'[k]].backward == (if k == 0 then Nil else ids'[k - 1])
    {
      if k < L {
        assert ids'[k] == ids[k];
        if L + 1 < n {
          AtInjective(ids, k + 1, L + 2);
        }
        assert N[ids[k]].backward == N0[ids[k]].backward;
        BackwardAt(N0, tail0, n, top, keys, ids, hs, k);
        if k > 0 {
          assert ids'[k - 1] == ids[k - 1];
        }
      } else if k == L {
        assert ids'[k] == ids[L + 1];
        assert N[ids[L + 1]].backward == N0[ids[L]].backward;
        BackwardAt(N0, tail0, n, top, keys, ids, hs, L);
        if L > 0 {
          assert ids'[L - 1] == ids[L - 1];
        }
      } else {
        assert ids'[k] == ids[k + 1] && ids'[k - 1] == ids[k];
        AtInjective(ids, k + 2, L + 2);
        assert N[ids[k + 1]].backward == N0[ids[k + 1]].backward;
        BackwardAt(N0, tail0, n, top, keys, ids, hs, k + 1);
      }
    }
    if L + 1 == n {
      assert tail == N0[ids[L]].backward;
      BackwardAt(N0, tail0, n, top, keys, ids, hs, L);
      if L > 0 {
        assert ids'[n - 2] == ids[L - 1];
      }
    } else {
      assert tail == ids[n - 1] && ids'[n - 2] == ids[n - 1];
    }
  }

  /** skiplistDeleteNode's unlinking keeps the store valid, now without the node at position L. */
  lemma DeleteKeepsValid(N0: seq<Node>, N: seq<Node>, tail0: int, tail: int, n: nat, top: nat,
                         keys: seq<int>, ids: seq<nat>, hs: seq<nat>,
                         L: nat, update: seq<int>, rank: seq<nat>, keys': seq<int>, ids': seq<nat>, hs': seq<nat>)
    requires ValidAt(N0, tail0, n, top, keys, ids, hs)
    requires Descent(ids, hs, L, 0, top, update, rank)
    requires L < n && Unspliced(N0, N, top, ids[L], update, top)
    requires Unlinked(N0, N, tail0, tail, ids, L)
    requires keys' == Del(keys, L) && ids' == Del(ids, L) && hs' == Del(hs, L)
    ensures ValidAt(N, tail, n - 1, top, keys', ids', hs')
  {
    SortedDel(keys, L);
    assert TopLevel(hs') <= top by {
      TopLevelDel(hs, L);
    }
    assert forall k :: 0 <= k < |ids'| ==> 1 <= ids'[k] < |N| && N[ids'[k]].obj == keys'[k] by {
      forall k | 0 <= k < |ids'|
        ensures 1 <= ids'[k] < |N| && N[ids'[k]].obj == keys'[k]
      {
        var k0 := if k < L then k else k + 1;
        assert ids'[k] == ids[k0] && keys'[k] == keys[k0];
      }
    }
    assert forall k :: 0 <= k < |hs'| ==> 1 <= hs'[k];
    ValidInjective(N0, tail0, n, top, keys, ids, hs);
    DeleteHeaderLinks(N0, N, top, ids, hs, L, update, rank, ids', hs');
    DeleteNodeLinks(N0, N, top, ids, hs, L, update, rank, ids', hs');
    DeleteBackLinks(N0, N, tail0, tail, n, top, keys, ids, hs, L, ids');
  }
}
