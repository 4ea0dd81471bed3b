// Why SkiplistInsert keeps the store valid: the links it rewrites (the new
// node's, and those of the predecessors update[i]) and the spans it bumps
// are exactly the ones the longer list needs; every other link already was.

module SkiplistInsertProof {

  import opened SortedKeys
  import opened Levels
  import opened SkiplistState

  /**
   * The store N is N0 after the new node x of height h was linked in at
   * position L on the levels below `d` (skiplist/skiplist.go:113-127): on its
   * own levels x takes over update[i]'s link with the span reduced by the
   * rank difference, update[i] now points at x, update[i]'s span on the
   * levels above h grows by one, and nothing else changes.
   */
  ghost predicate Spliced(N0: seq<Node>, N: seq<Node>, top: nat, L: nat, h: nat, x: nat,
                          update: seq<int>, rank: seq<nat>, d: nat)
  {
    && x == |N0| && |N| == |N0| + 1
    && h <= top <= MaxLevel && d <= top && |update| == MaxLevel && |rank| == MaxLevel
    && (forall id :: 0 <= id < |N| ==> |N[id].level| == MaxLevel)
    && (forall id :: 0 <= id < |N0| ==> |N0[id].level| == MaxLevel)
    && (forall k :: 0 <= k < top ==> 0 <= update[k] < |N0| && rank[k] <= L)
    && (forall k :: 0 <= k < h && k < d ==>
          && N[x].level[k].forward == N0[update[k]].level[k].forward
          && N[x].level[k].span + (L - rank[k]) == N0[update[k]].level[k].span)
    && (forall k :: (h <= k || d <= k) && k < MaxLevel ==> N[x].level[k] == Level(Nil, 0))
    && (forall k :: 0 <= k < h && k < d ==> N[update[k]].level[k] == Level(x, L - rank[k] + 1))
    && (forall k :: h <= k < d ==>
          && N[update[k]].level[k].forward == N0[update[k]].level[k].forward
          && N[update[k]].level[k].span == N0[update[k]].level[k].span + 1)
    && (forall id, k {:trigger N[id].level[k]} :: 0 <= id < |N0| && 0 <= k < MaxLevel && !(k < d && id == update[k]) ==>
          N[id].level[k] == N0[id].level[k])
  }

  /**
   * Payloads and backward links after the insertion (skiplist/skiplist.go:129-139):
   * x holds obj and points back at its level-0 predecessor, its successor (if
   * any) points back at x, and otherwise x becomes the tail.
   */
  ghost predicate Relinked(N0: seq<Node>, N: seq<Node>, tail0: int, tail: int, ids: seq<nat>,
                           L: nat, x: nat, obj: int)
  {
    && x < |N| && L <= |ids|
    && N[x].obj == obj && N[x].backward == (if L == 0 then Nil else ids[L - 1])
    && (forall id :: 0 <= id < |N0| && id < |N| ==>
          && N[id].obj == N0[id].obj
          && N[id].backward == (if L < |ids| && id == ids[L] then x else N0[id].backward))
    && tail == (if L == |ids| then x else tail0)
  }

  /** The insertion never makes a span negative: update[i]'s span covers the rank difference (skiplist/skiplist.go:120). */
  lemma SpanCoversRankGap(N0: seq<Node>, top: nat, ids: seq<nat>, hs: seq<nat>,
                          L: nat, update: seq<int>, rank: seq<nat>, i: nat)
    requires Linked(N0, top, ids, hs)
    requires Descent(ids, hs, L, 0, top, update, rank)
    requires i < top
    ensures 0 <= update[i] < |N0|
    ensures L - rank[i] <= N0[update[i]].level[i].span
  {
    LinkAt(N0, top, ids, hs, rank[i], i);
  }

  /** Before any level is linked, the store is N0 with the fresh node appended. */
  lemma SpliceStart(N0: seq<Node>, top: nat, L: nat, h: nat, obj: int, update: seq<int>, rank: seq<nat>)
    requires forall id :: 0 <= id < |N0| ==> |N0[id].level| == MaxLevel
    requires h <= top <= MaxLevel && |update| == MaxLevel && |rank| == MaxLevel
    requires forall k :: 0 <= k < top ==> 0 <= update[k] < |N0| && rank[k] <= L
    ensures Spliced(N0, N0 + [CreateNode(obj)], top, L, h, |N0|, update, rank, 0)
  {
    var N := N0 + [CreateNode(obj)];
    assert forall id :: 0 <= id < |N0| ==> N[id] == N0[id];
  }

  /**
   * Linking level d of a node of height above d (skiplist/skiplist.go:115-121):
   * the new node takes update[d]'s link less the rank gap, and update[d]
   * points at the new node across the gap plus one.
   */
  lemma LinkStep(N0: seq<Node>, N: seq<Node>, top: nat, L: nat, h: nat, x: nat,
                 update: seq<int>, rank: seq<nat>, d: nat, N': seq<Node>)
    requires Spliced(N0, N, top, L, h, x, update, rank, d)
    requires d < h
    requires L - rank[d] <= N[update[d]].level[d].span
    requires N' == SetLevel(SetLevel(N, x, d, Level(N[update[d]].level[d].forward,
                                                    N[update[d]].level[d].span - (L - rank[d]))),
                            update[d], d, Level(x, L - rank[d] + 1))
    ensures Spliced(N0, N', top, L, h, x, update, rank, d + 1)
    ensures forall id :: 0 <= id < |N| ==> N'[id].obj == N[id].obj && N'[id].backward == N[id].backward
  {
    var u := update[d];
    assert N[u].level[d] == N0[u].level[d];
    assert forall id, k {:trigger N'[id].level[k]} :: 0 <= id < |N| && 0 <= k < MaxLevel && !(k == d && (id == u || id == x)) ==>
      N'[id].level[k] == N[id].level[k];
  }

  /** An untouched level above the new node's height gains one in update[d]'s span (skiplist/skiplist.go:125-127). */
  lemma IncrementStep(N0: seq<Node>, N: seq<Node>, top: nat, L: nat, h: nat, x: nat,
                      update: seq<int>, rank: seq<nat>, d: nat, N': seq<Node>)
    requires Spliced(N0, N, top, L, h, x, update, rank, d)
    requires h <= d < top
    requires N' == SetLevel(N, update[d], d, N[update[d]].level[d].(span := N[update[d]].level[d].span + 1))
    ensures Spliced(N0, N', top, L, h, x, update, rank, d + 1)
    ensures forall id :: 0 <= id < |N| ==> N'[id].obj == N[id].obj && N'[id].backward == N[id].backward
  {
    var u := update[d];
    assert N[u].level[d] == N0[u].level[d];
    assert forall id, k {:trigger N'[id].level[k]} :: 0 <= id < |N| && 0 <= k < MaxLevel && !(k == d && id == u) ==>
      N'[id].level[k] == N[id].level[k];
  }

  /** Changing only payloads and backward links leaves every level slot, and so the splice, as it was. */
  lemma SplicedKeepsLevels(N0: seq<Node>, N: seq<Node>, top: nat, L: nat, h: nat, x: nat,
                           update: seq<int>, rank: seq<nat>, N': seq<Node>)
    requires Spliced(N0, N, top, L, h, x, update, rank, top)
    requires |N'| == |N| && forall id :: 0 <= id < |N| ==> N'[id].level == N[id].level
    ensures Spliced(N0, N', top, L, h, x, update, rank, top)
  {
  }

  /**
   * Setting the new node's backward link to update[0] (nil for the header)
   * and its successor's to the new node, or the tail to it when it is last
   * (skiplist/skiplist.go:129-139), relinks level 0 around it.
   */
  lemma InsertRelinked(N0: seq<Node>, N: seq<Node>, N': seq<Node>, tail0: int, tail: int, n: nat, top: nat,
                       keys: seq<int>, ids: seq<nat>, hs: seq<nat>,
                       obj: int, L: nat, h: nat, x: nat, update: seq<int>, rank: seq<nat>)
    requires ValidAt(N0, tail0, n, top, keys, ids, hs)
    requires Descent(ids, hs, L, 0, top, update, rank)
    requires 1 <= h && rank[0] == L
    requires Spliced(N0, N, top, L, h, x, update, rank, top)
    requires N[x].obj == obj
    requires forall id :: 0 <= id < |N0| ==> N[id].obj == N0[id].obj && N[id].backward == N0[id].backward
    requires |N'| == |N| && forall id :: 0 <= id < |N| ==> N'[id].level == N[id].level && N'[id].obj == N[id].obj
    requires N'[x].backward == (if update[0] == Header then Nil else update[0])
    requires forall id :: 0 <= id < |N| && id != x ==>
               N'[id].backward == (if id == N[x].level[0].forward then x else N[id].backward)
    requires tail == (if N[x].level[0].forward == Nil then x else tail0)
    ensures Relinked(N0, N', tail0, tail, ids, L, x, obj)
  {
    ForwardAt(N0, tail0, n, top, keys, ids, hs, L, 0);
    NextAtLevel0(hs, L);
    assert N[x].level[0].forward == N0[update[0]].level[0].forward;
    if L > 0 {
      assert update[0] == ids[L - 1] && ids[L - 1] != Header;
    }
  }

  /** Slots the splice does not touch keep their link. */
  lemma SplicedElsewhere(N0: seq<Node>, N: seq<Node>, top: nat, L: nat, h: nat, x: nat,
                         update: seq<int>, rank: seq<nat>, id: int, k: nat)
    requires Spliced(N0, N, top, L, h, x, update, rank, top)
    requires 0 <= id < |N0| && k < MaxLevel && !(k < top && id == update[k])
    ensures N[id].level[k] == N0[id].level[k]
  {
  }

  /** A node already in the list keeps the link it should have, at its new rank. */
  lemma InsertOldLink(N0: seq<Node>, N: seq<Node>, top: nat, ids: seq<nat>, hs: seq<nat>,
                      L: nat, h: nat, x: nat, update: seq<int>, rank: seq<nat>, r: nat, i: nat)
    requires Linked(N0, top, ids, hs) && Injective(ids)
    requires Descent(ids, hs, L, 0, top, update, rank)
    requires Spliced(N0, N, top, L, h, x, update, rank, top)
    requires 1 <= h
    requires r <= |ids| && i < top && (r == 0 || i < hs[r - 1])
    ensures 0 <= At(ids, r) < |N0|
    ensures N[At(ids, r)].level[i] == Expected(Ins(ids, L, x), Ins(hs, L, h), if r <= L then r else r + 1, i)
  {
    var ru := rank[i];
    LinkAt(N0, top, ids, hs, ru, i);
    LinkAt(N0, top, ids, hs, r, i);
    AtInjective(ids, r, ru);
    if r == ru {
      ExpectedInsOver(ids, hs, L, x, h, r, i);
    } else if r < ru {
      assert i < hs[ru - 1];
      ExpectedInsBefore(ids, hs, L, x, h, r, i);
      assert N[At(ids, r)].level[i] == N0[At(ids, r)].level[i];
    } else {
      assert L < r by {
        assert i < hs[r - 1];
      }
      ExpectedInsAfter(ids, hs, L, x, h, r, i);
      assert N[At(ids, r)].level[i] == N0[At(ids, r)].level[i];
    }
  }

  /** The new node holds the links it should have. */
  lemma InsertNewLink(N0: seq<Node>, N: seq<Node>, top: nat, ids: seq<nat>, hs: seq<nat>,
                      L: nat, h: nat, x: nat, update: seq<int>, rank: seq<nat>, i: nat)
    requires Linked(N0, top, ids, hs)
    requires Descent(ids, hs, L, 0, top, update, rank)
    requires Spliced(N0, N, top, L, h, x, update, rank, top)
    requires i < h
    ensures N[x].level[i] == Expected(Ins(ids, L, x), Ins(hs, L, h), L + 1, i)
  {
    var ru := rank[i];
    LinkAt(N0, top, ids, hs, ru, i);
    ExpectedInsNew(ids, hs, L, x, h, ru, i);
  }

  /** Slots above a node's height stay nil with span 0. */
  lemma InsertInert(N0: seq<Node>, N: seq<Node>, top: nat, ids: seq<nat>, hs: seq<nat>,
                    L: nat, h: nat, x: nat, update: seq<int>, rank: seq<nat>, k: nat, i: nat)
    requires Linked(N0, top, ids, hs) && Injective(ids)
    requires Descent(ids, hs, L, 0, top, update, rank)
    requires Spliced(N0, N, top, L, h, x, update, rank, top)
    requires k < |ids| && hs[k] <= i < MaxLevel
    ensures N[ids[k]].level[i] == Level(Nil, 0)
  {
    if i < top {
      AtInjective(ids, k + 1, rank[i]);
      assert ids[k] != update[i];
    }
    assert N[ids[k]].level[i] == N0[ids[k]].level[i];
  }

  /** Backward links and the tail of the longer list. */
  lemma InsertBackLinks(N0: seq<Node>, N: seq<Node>, tail0: int, tail: int, n: nat, top: nat,
                        keys: seq<int>, ids: seq<nat>, hs: seq<nat>, L: nat, x: nat, obj: int, ids': seq<nat>)
    requires ValidAt(N0, tail0, n, top, keys, ids, hs)
    requires x == |N0| && |N| == |N0| + 1
    requires Relinked(N0, N, tail0, tail, ids, L, x, obj)
    requires ids' == Ins(ids, L, x)
    ensures forall k :: 0 <= k < |ids'| ==> N[ids'[k]].backward == (if k == 0 then Nil else ids'[k - 1])
    ensures tail == ids'[n]
  {
    ValidInjective(N0, tail0, n, top, keys, ids, hs);
    forall k | 0 <= k < |ids'|
      ensures N[ids'[k]].backward == (if k == 0 then Nil else ids'[k - 1])
    {
      if k == L {
        assert ids'[k] == x;
        assert N[x].backward == (if L == 0 then Nil else ids[L - 1]);
      } else if k < L {
        assert ids'[k] == ids[k];
        if L < |ids| {
          AtInjective(ids, k + 1, L + 1);
        }
        assert N[ids[k]].backward == N0[ids[k]].backward;
      } else if k == L + 1 {
        assert ids'[k] == ids[L] && ids'[L] == x;
        assert ids[L] < |N0|;
        assert N[ids[L]].backward == x;
      } else if L + 1 < k {
        assert ids'[k] == ids[k - 1] && ids'[k - 1] == ids[k - 2];
        AtInjective(ids, k, L + 1);
        assert N[ids[k - 1]].backward == N0[ids[k - 1]].backward;
      }
    }
  }

  /** The header's links in the longer list. */
  lemma InsertHeaderLinks(N0: seq<Node>, N: seq<Node>, top: nat, ids: seq<nat>, hs: seq<nat>,
                          L: nat, h: nat, x: nat, update: seq<int>, rank: seq<nat>, ids': seq<nat>, hs': seq<nat>)
    requires Linked(N0, top, ids, hs) && Injective(ids)
    requires Descent(ids, hs, L, 0, top, update, rank)
    requires 1 <= h && ids' == Ins(ids, L, x) && hs' == Ins(hs, L, h)
    requires Spliced(N0, N, top, L, h, x, update, rank, top)
    ensures forall i :: 0 <= i < top ==> N[Header].level[i] == Expected(ids', hs', 0, i)
    ensures forall i :: top <= i < MaxLevel ==> N[Header].level[i].forward == Nil
  {
    forall i | 0 <= i < top
      ensures N[Header].level[i] == Expected(ids', hs', 0, i)
    {
      InsertOldLink(N0, N, top, ids, hs, L, h, x, update, rank, 0, i);
    }
    forall i | top <= i < MaxLevel
      ensures N[Header].level[i].forward == Nil
    {
      SplicedElsewhere(N0, N, top, L, h, x, update, rank, Header, i);
    }
  }

  /** Every node's links in the longer list. */
  lemma InsertNodeLinks(N0: seq<Node>, N: seq<Node>, top: nat, ids: seq<nat>, hs: seq<nat>,
                        L: nat, h: nat, x: nat, update: seq<int>, rank: seq<nat>, ids': seq<nat>, hs': seq<nat>)
    requires Linked(N0, top, ids, hs) && Injective(ids)
    requires Descent(ids, hs, L, 0, top, update, rank)
    requires 1 <= h && ids' == Ins(ids, L, x) && hs' == Ins(hs, L, h)
    requires Spliced(N0, N, top, L, h, x, update, rank, top)
    ensures forall k, i :: 0 <= k < |ids'| && 0 <= i < MaxLevel ==>
              N[ids'[k]].level[i] == (if i < hs'[k] then Expected(ids', hs', k + 1, i) else Level(Nil, 0))
  {
    forall k, i | 0 <= k < |ids'| && 0 <= i < MaxLevel
      ensures N[ids'[k]].level[i] == (if i < hs'[k] then Expected(ids', hs', k + 1, i) else Level(Nil, 0))
    {
      if k < L {
        if i < hs'[k] {
          InsertOldLink(N0, N, top, ids, hs, L, h, x, update, rank, k + 1, i);
        } else {
          InsertInert(N0, N, top, ids, hs, L, h, x, update, rank, k, i);
        }
      } else if k == L {
        if i < h {
          InsertNewLink(N0, N, top, ids, hs, L, h, x, update, rank, i);
        }
      } else {
        if i < hs'[k] {
          InsertOldLink(N0, N, top, ids, hs, L, h, x, update, rank, k, i);
        } else {
          InsertInert(N0, N, top, ids, hs, L, h, x, update, rank, k - 1, i);
        }
      }
    }
  }

  /** Every element's node still holds it after the insertion, and the new node holds obj. */
  lemma InsertPayloads(N0: seq<Node>, N: seq<Node>, tail0: int, tail: int, n: nat, top: nat,
                       keys: seq<int>, ids: seq<nat>, hs: seq<nat>,
                       obj: int, L: nat, x: nat, keys': seq<int>, ids': seq<nat>)
    requires ValidAt(N0, tail0, n, top, keys, ids, hs)
    requires L <= n && x == |N0| && |N| == |N0| + 1
    requires Relinked(N0, N, tail0, tail, ids, L, x, obj)
    requires keys' == Ins(keys, L, obj) && ids' == Ins(ids, L, x)
    ensures forall k :: 0 <= k < |ids'| ==> 1 <= ids'[k] < |N| && N[ids'[k]].obj == keys'[k]
  {
    forall k | 0 <= k < |ids'|
      ensures 1 <= ids'[k] < |N| && N[ids'[k]].obj == keys'[k]
    {
      if k < L {
        assert ids'[k] == ids[k] && keys'[k] == keys[k];
      } else if L < k {
        assert ids'[k] == ids[k - 1] && keys'[k] == keys[k - 1];
      }
    }
  }

  /** Inserting a fresh id and a positive height keeps ids in the store and heights positive. */
  lemma InsertRanges(ids: seq<nat>, hs: seq<nat>, L: nat, h: nat, x: nat, size: nat)
    requires |ids| == |hs| && L <= |ids| && 1 <= h && 1 <= x < size
    requires forall k :: 0 <= k < |ids| ==> 1 <= ids[k] < size
    requires forall k :: 0 <= k < |hs| ==> 1 <= hs[k]
    ensures forall k :: 0 <= k < |ids| + 1 ==> 1 <= Ins(ids, L, x)[k] < size && 1 <= Ins(hs, L, h)[k]
  {
    var ids', hs' := Ins(ids, L, x), Ins(hs, L, h);
    forall k | 0 <= k < |ids'|
      ensures 1 <= ids'[k] < size && 1 <= hs'[k]
    {
      if k < L {
        assert ids'[k] == ids[k] && hs'[k] == hs[k];
      } else if L < k {
        assert ids'[k] == ids[k - 1] && hs'[k] == hs[k - 1];
      }
    }
  }

  /** The splice links the new node in on every level it reaches, at position L. */
  lemma InsertKeepsLinked(N0: seq<Node>, N: seq<Node>, top: nat, ids: seq<nat>, hs: seq<nat>,
                          L: nat, h: nat, x: nat, update: seq<int>, rank: seq<nat>)
    requires Linked(N0, top, ids, hs) && Injective(ids)
    requires Descent(ids, hs, L, 0, top, update, rank) && 1 <= h
    requires Spliced(N0, N, top, L, h, x, update, rank, top)
    ensures Linked(N, top, Ins(ids, L, x), Ins(hs, L, h))
  {
    var ids', hs' := Ins(ids, L, x), Ins(hs, L, h);
    TopLevelIns(hs, L, h);
    InsertRanges(ids, hs, L, h, x, |N|);
    InsertHeaderLinks(N0, N, top, ids, hs, L, h, x, update, rank, ids', hs');
    InsertNodeLinks(N0, N, top, ids, hs, L, h, x, update, rank, ids', hs');
  }

  /** SkiplistInsert keeps the store valid, now holding obj at its lower bound. */
  lemma {:induction false} InsertKeepsValid(N0: seq<Node>, N: seq<Node>, tail0: int, tail: int, n: nat, top: nat,
                         keys: seq<int>, ids: seq<nat>, hs: seq<nat>,
                         obj: int, L: nat, h: nat, x: nat, update: seq<int>, rank: seq<nat>)
    requires ValidAt(N0, tail0, n, top, keys, ids, hs)
    requires obj !in keys && L == LowerBound(keys, obj) && 1 <= h
    requires Descent(ids, hs, L, 0, top, update, rank)
    requires Spliced(N0, N, top, L, h, x, update, rank, top)
    requires Relinked(N0, N, tail0, tail, ids, L, x, obj)
    ensures ValidAt(N, tail, n + 1, top, Ins(keys, L, obj), Ins(ids, L, x), Ins(hs, L, h))
  {
    var keys', ids' := Ins(keys, L, obj), Ins(ids, L, x);
    assert StrictlySorted(keys') by {
      assert keys' == InsertKey(keys, obj);
    }
    ValidInjective(N0, tail0, n, top, keys, ids, hs);
    InsertKeepsLinked(N0, N, top, ids, hs, L, h, x, update, rank);
    InsertPayloads(N0, N, tail0, tail, n, top, keys, ids, hs, obj, L, x, keys', ids');
    InsertBackLinks(N0, N, tail0, tail, n, top, keys, ids, hs, L, x, obj, ids');
  }
}
