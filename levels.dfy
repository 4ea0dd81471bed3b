// Node heights: the drawn level of a new node, the next node tall enough to
// appear on a given level, and the list's active level.

module Levels {

  import opened SortedKeys

  /** SKIPLIST_MAXLEVEL: the number of (forward, span) slots of every node. */
  const MaxLevel: nat := 32

  /** int(0.25 * 0xFFFF): a 16-bit draw below this adds one level. */
  const Threshold: nat := 16383

  function Max(a: int, b: int): int
  {
    if a < b then b else a
  }

  /** How many draws, from the first, fall below the threshold once masked to 16 bits. */
  function LowRun(draws: seq<nat>): (k: nat)
    ensures k <= |draws|
    ensures forall j :: 0 <= j < k ==> draws[j] % 0x10000 < Threshold
    ensures k < |draws| ==> Threshold <= draws[k] % 0x10000
  {
    if |draws| == 0 || Threshold <= draws[0] % 0x10000 then 0
    else 1 + LowRun(draws[1..])
  }

  /** The level a run of draws yields: one more than the run of low draws, capped at MaxLevel. */
  function DrawnLevel(draws: seq<nat>): (level: nat)
    ensures 1 <= level <= MaxLevel
    ensures level <= LowRun(draws) + 1
    ensures level < MaxLevel ==> level == LowRun(draws) + 1
  {
    if LowRun(draws) < MaxLevel then LowRun(draws) + 1 else MaxLevel
  }

  /**
   * skiplistRandomLevel: start at 1 and add a level for every draw below the
   * threshold, stopping at the first draw that is not; cap at MaxLevel.
   * `draws` stands for the successive values of rand.Int(); running out of
   * draws ends the loop as a high draw would.
   */
  method RandomLevel(draws: seq<nat>) returns (level: nat)
    ensures level == DrawnLevel(draws)
  {
    level := 1;
    var t := 0;
    while t < |draws| && draws[t] % 0x10000 < Threshold
      invariant t <= LowRun(draws)
      invariant level == t + 1
    {
      level := level + 1;
      t := t + 1;
    }
    if level > MaxLevel {
      return MaxLevel;
    }
    return level;
  }

  /**
   * The first position at or after `p` whose height reaches above level `i`,
   * or |hs| when there is none: where a level-`i` forward link lands.
   */
  function Next(hs: seq<nat>, p: nat, i: nat): (q: nat)
    requires p <= |hs|
    ensures p <= q <= |hs|
    ensures q < |hs| ==> i < hs[q]
    ensures forall k :: p <= k < q ==> hs[k] <= i
    decreases |hs| - p
  {
    if p == |hs| || i < hs[p] then p else Next(hs, p + 1, i)
  }

  /** The three properties of Next determine it. */
  lemma {:induction false} NextIs(hs: seq<nat>, p: nat, i: nat, q: nat)
    requires p <= q <= |hs|
    requires q < |hs| ==> i < hs[q]
    requires forall k :: p <= k < q ==> hs[k] <= i
    ensures Next(hs, p, i) == q
  {
    var n := Next(hs, p, i);
    var m := if n < q then n else q;
    if m < |hs| { assert hs[m] <= i <==> m < q; }
  }

  /** Every node takes part in level 0, so a level-0 link is to the very next position. */
  lemma {:induction false} NextAtLevel0(hs: seq<nat>, p: nat)
    requires p <= |hs|
    requires forall k :: 0 <= k < |hs| ==> 1 <= hs[k]
    ensures Next(hs, p, 0) == p
  {
    NextIs(hs, p, 0, p);
  }

  /** A link that already passes position `L` lands where a search from `L` would. */
  lemma {:induction false} NextFrom(hs: seq<nat>, p: nat, L: nat, i: nat)
    requires p <= |hs| && p <= L <= Next(hs, p, i)
    ensures Next(hs, L, i) == Next(hs, p, i)
  {
    NextIs(hs, L, i, Next(hs, p, i));
  }

  /** A search that ends before the insertion point is not affected by it. */
  lemma {:induction false} NextInsBefore(hs: seq<nat>, L: nat, h: nat, p: nat, i: nat)
    requires p <= L <= |hs| && Next(hs, p, i) < L
    ensures Next(Ins(hs, L, h), p, i) == Next(hs, p, i)
  {
    NextIs(Ins(hs, L, h), p, i, Next(hs, p, i));
  }

  /** A search over the insertion point stops at the new node exactly when it is tall enough. */
  lemma {:induction false} NextInsOver(hs: seq<nat>, L: nat, h: nat, p: nat, i: nat)
    requires p <= |hs| && p <= L <= Next(hs, p, i)
    ensures Next(Ins(hs, L, h), p, i) == if i < h then L else Next(hs, p, i) + 1
  {
    var hs' := Ins(hs, L, h);
    if i < h {
      NextIs(hs', p, i, L);
    } else {
      NextIs(hs', p, i, Next(hs, p, i) + 1);
    }
  }

  /** A search starting after the insertion point moves up by one. */
  lemma NextInsAfter(hs: seq<nat>, L: nat, h: nat, p: nat, i: nat)
    requires L <= p <= |hs|
    ensures Next(Ins(hs, L, h), p + 1, i) == Next(hs, p, i) + 1
  {
    NextIs(Ins(hs, L, h), p + 1, i, Next(hs, p, i) + 1);
  }

  /** A search that ends before the removed position is not affected by it. */
  lemma {:induction false} NextDelBefore(hs: seq<nat>, L: nat, p: nat, i: nat)
    requires p <= L < |hs| && Next(hs, p, i) < L
    ensures Next(Del(hs, L), p, i) == Next(hs, p, i)
  {
    NextIs(Del(hs, L), p, i, Next(hs, p, i));
  }

  /** A search over the removed position continues where the removed node's own link went. */
  lemma NextDelOver(hs: seq<nat>, L: nat, p: nat, i: nat)
    requires p <= L < |hs| && L <= Next(hs, p, i)
    ensures L + 1 <= Next(hs, L + 1, i)
    ensures Next(Del(hs, L), p, i) == Next(hs, L + 1, i) - 1
  {
    NextIs(Del(hs, L), p, i, Next(hs, L + 1, i) - 1);
  }

  /** A search starting after the removed position moves down by one. */
  lemma NextDelAfter(hs: seq<nat>, L: nat, p: nat, i: nat)
    requires L < p <= |hs|
    ensures Next(Del(hs, L), p - 1, i) == Next(hs, p, i) - 1
  {
    NextIs(Del(hs, L), p - 1, i, Next(hs, p, i) - 1);
  }

  /**
   * The active level a list of these heights needs: the tallest height, and
   * at least 1.
   */
  function TopLevel(hs: seq<nat>): (t: nat)
    ensures 1 <= t
    ensures forall k :: 0 <= k < |hs| ==> hs[k] <= t
    ensures t == 1 || exists k :: 0 <= k < |hs| && hs[k] == t
  {
    if |hs| == 0 then 1
    else
      var rest := TopLevel(hs[1..]);
      assert forall k :: 1 <= k < |hs| ==> hs[k] == hs[1..][k - 1];
      if rest < hs[0] then hs[0] else rest
  }

  /** The three properties of TopLevel determine it. */
  lemma {:induction false} TopLevelIs(hs: seq<nat>, t: nat)
    requires 1 <= t
    requires forall k :: 0 <= k < |hs| ==> hs[k] <= t
    requires t == 1 || exists k :: 0 <= k < |hs| && hs[k] == t
    ensures TopLevel(hs) == t
  {
    var u := TopLevel(hs);
    if u != 1 {
      var k :| 0 <= k < |hs| && hs[k] == u;
    }
    if t != 1 {
      var k :| 0 <= k < |hs| && hs[k] == t;
    }
  }

  /** A new node of height h raises the active level to h when h is above it. */
  lemma {:induction false} TopLevelIns(hs: seq<nat>, L: nat, h: nat)
    requires L <= |hs| && 1 <= h
    ensures TopLevel(Ins(hs, L, h)) == Max(TopLevel(hs), h)
  {
    var hs' := Ins(hs, L, h);
    var t := Max(TopLevel(hs), h);
    assert forall k :: 0 <= k < |hs'| ==> hs'[k] <= t by {
      forall k | 0 <= k < |hs'|
        ensures hs'[k] <= t
      {
        if k < L {
          assert hs'[k] == hs[k];
        } else if L < k {
          assert hs'[k] == hs[k - 1];
        }
      }
    }
    assert t == 1 || exists k :: 0 <= k < |hs'| && hs'[k] == t by {
      if t == h {
        assert hs'[L] == t;
      } else if t != 1 {
        var k :| 0 <= k < |hs| && hs[k] == t;
        var k' := if k < L then k else k + 1;
        assert hs'[k'] == hs[k];
      }
    }
    TopLevelIs(hs', t);
  }

  /** Removing a node never raises the active level. */
  lemma {:induction false} TopLevelDel(hs: seq<nat>, L: nat)
    requires L < |hs|
    ensures TopLevel(Del(hs, L)) <= TopLevel(hs)
  {
    var hs' := Del(hs, L);
    var t := TopLevel(hs');
    if t != 1 {
      var k :| 0 <= k < |hs'| && hs'[k] == t;
      var k' := if k < L then k else k + 1;
      assert hs[k'] == hs'[k];
    }
  }
}
