// The abstract contents of a skip list: its keys in level-0 order.

module SortedKeys {

  /** The key at position `j` is below the key at position `k`. */
  ghost predicate Below(s: seq<int>, j: int, k: int)
    requires 0 <= j < |s| && 0 <= k < |s|
  {
    s[j] < s[k]
  }

  /**
   * Strictly ascending: no two keys compare equal. The comparison is
   * wrapped in Below so that the fact is used only for the pairs a proof
   * names, through SortedAt.
   */
  ghost predicate StrictlySorted(s: seq<int>)
  {
    forall j, k :: 0 <= j < k < |s| ==> Below(s, j, k)
  }

  /** Of two positions in ascending keys, the earlier holds the smaller key. */
  lemma SortedAt(s: seq<int>, j: int, k: int)
    requires StrictlySorted(s) && 0 <= j < k < |s|
    ensures s[j] < s[k]
  {
    assert Below(s, j, k);
  }

  /** The first of ascending keys is below all the others. */
  lemma SortedFirst(s: seq<int>)
    requires StrictlySorted(s)
    ensures forall k :: 0 < k < |s| ==> s[0] < s[k]
  {
    forall k | 0 < k < |s|
      ensures s[0] < s[k]
    {
      SortedAt(s, 0, k);
    }
  }

  /** Dropping the first key keeps the keys ascending. */
  lemma SortedTail(s: seq<int>)
    requires StrictlySorted(s) && |s| > 0
    ensures StrictlySorted(s[1..])
  {
    var t := s[1..];
    forall j, k | 0 <= j < k < |t|
      ensures Below(t, j, k)
    {
      SortedAt(s, j + 1, k + 1);
    }
  }

  /** `s` with `v` placed at position `p`. */
  function Ins<T>(s: seq<T>, p: nat, v: T): (r: seq<T>)
    requires p <= |s|
    ensures |r| == |s| + 1 && r[p] == v
    ensures forall k :: 0 <= k < p ==> r[k] == s[k]
    ensures forall k :: p < k < |r| ==> r[k] == s[k - 1]
  {
    s[..p] + [v] + s[p..]
  }

  /** `s` without the element at position `p`. */
  function Del<T>(s: seq<T>, p: nat): (r: seq<T>)
    requires p < |s|
    ensures |r| == |s| - 1
    ensures forall k :: 0 <= k < p ==> r[k] == s[k]
    ensures forall k :: p <= k < |r| ==> r[k] == s[k + 1]
  {
    s[..p] + s[p + 1..]
  }

  /** The number of keys of `s` below `x`: where `x` is, or would go. */
  function LowerBound(s: seq<int>, x: int): (p: nat)
    requires StrictlySorted(s)
    ensures p <= |s|
    ensures forall k :: 0 <= k < p ==> s[k] < x
    ensures forall k :: p <= k < |s| ==> x <= s[k]
  {
    if |s| == 0 then 0
    else if x <= s[0] then SortedFirst(s); 0
    else SortedTail(s); 1 + LowerBound(s[1..], x)
  }

  /** The three properties of a lower bound determine it. */
  lemma {:induction false} LowerBoundIs(s: seq<int>, x: int, p: nat)
    requires StrictlySorted(s) && p <= |s|
    requires forall k :: 0 <= k < p ==> s[k] < x
    requires forall k :: p <= k < |s| ==> x <= s[k]
    ensures LowerBound(s, x) == p
  {
    var q := LowerBound(s, x);
    var m := if q < p then q else p;
    if m < |s| { assert s[m] < x <==> m < p; }
  }

  /** A key that is present has its own position as lower bound. */
  lemma {:induction false} LowerBoundAt(s: seq<int>, p: nat)
    requires StrictlySorted(s) && p < |s|
    ensures LowerBound(s, s[p]) == p
  {
    forall k | 0 <= k < |s| && k != p
      ensures k < p <==> s[k] < s[p]
    {
      if k < p { SortedAt(s, k, p); } else { SortedAt(s, p, k); }
    }
    LowerBoundIs(s, s[p], p);
  }

  /** A key is present exactly when it sits at its lower bound. */
  lemma {:induction false} LowerBoundFinds(s: seq<int>, x: int)
    requires StrictlySorted(s)
    ensures x in s <==> LowerBound(s, x) < |s| && s[LowerBound(s, x)] == x
  {
    var p := LowerBound(s, x);
    if x in s {
      var k :| 0 <= k < |s| && s[k] == x;
      assert p <= k;
      if p < k {
        SortedAt(s, p, k);
      }
    }
  }

  /** Placing `x` where it belongs keeps the keys ascending. */
  lemma SortedIns(s: seq<int>, p: nat, x: int)
    requires StrictlySorted(s) && p <= |s|
    requires forall k :: 0 <= k < p ==> s[k] < x
    requires forall k :: p <= k < |s| ==> x < s[k]
    ensures StrictlySorted(Ins(s, p, x))
  {
    var r := Ins(s, p, x);
    forall j, k | 0 <= j < k < |r|
      ensures Below(r, j, k)
    {
      if j < p && k < p {
        SortedAt(s, j, k);
      } else if p < j {
        SortedAt(s, j - 1, k - 1);
      } else if j < p && p < k {
        SortedAt(s, j, k - 1);
      }
    }
  }

  /** Removing any one key keeps the keys ascending. */
  lemma SortedDel(s: seq<int>, p: nat)
    requires StrictlySorted(s) && p < |s|
    ensures StrictlySorted(Del(s, p))
  {
    var r := Del(s, p);
    forall j, k | 0 <= j < k < |r|
      ensures Below(r, j, k)
    {
      var j0, k0 := if j < p then j else j + 1, if k < p then k else k + 1;
      assert r[j] == s[j0] && r[k] == s[k0];
      SortedAt(s, j0, k0);
    }
  }

  /** The keys after inserting `x`: unchanged when `x` is already there. */
  function InsertKey(s: seq<int>, x: int): (r: seq<int>)
    requires StrictlySorted(s)
    ensures StrictlySorted(r)
    ensures forall v :: v in r <==> v in s || v == x
    ensures |r| == if x in s then |s| else |s| + 1
  {
    if x in s then s
    else
      var p := LowerBound(s, x);
      var r := Ins(s, p, x);
      LowerBoundFinds(s, x);
      SortedIns(s, p, x);
      assert forall v :: v in r <==> v in s || v == x by {
        forall v ensures v in r <==> v in s || v == x {
          if v in s {
            var k :| 0 <= k < |s| && s[k] == v;
            if k < p { assert r[k] == v; } else { assert r[k + 1] == v; }
          }
          if v in r {
            var k :| 0 <= k < |r| && r[k] == v;
            if k < p { assert s[k] == v; } else if k > p { assert s[k - 1] == v; }
          }
        }
      }
      r
  }

  /** The keys after removing `x`: unchanged when `x` is absent. */
  function RemoveKey(s: seq<int>, x: int): (r: seq<int>)
    requires StrictlySorted(s)
    ensures StrictlySorted(r)
    ensures forall v :: v in r <==> v in s && v != x
    ensures |r| == if x in s then |s| - 1 else |s|
  {
    if x in s then
      LowerBoundFinds(s, x);
      var p := LowerBound(s, x);
      var r := Del(s, p);
      SortedDel(s, p);
      assert forall v :: v in r <==> v in s && v != x by {
        forall v ensures v in r <==> v in s && v != x {
          if v in s && v != x {
            var k :| 0 <= k < |s| && s[k] == v;
            if k < p { assert r[k] == v; } else { assert k != p; assert r[k - 1] == v; }
          }
          if v in r {
            var k :| 0 <= k < |r| && r[k] == v;
            if k < p {
              SortedAt(s, k, p);
            } else {
              assert s[k + 1] == v;
              SortedAt(s, p, k + 1);
            }
          }
        }
      }
      r
    else s
  }

  /** Removing the smallest key drops the head. */
  lemma RemoveFirst(s: seq<int>)
    requires StrictlySorted(s) && |s| > 0
    ensures RemoveKey(s, s[0]) == s[1..]
  {
    LowerBoundFinds(s, s[0]);
    assert LowerBound(s, s[0]) == 0;
  }

  /** Removing the largest key drops the last element. */
  lemma RemoveLast(s: seq<int>)
    requires StrictlySorted(s) && |s| > 0
    ensures RemoveKey(s, s[|s| - 1]) == s[..|s| - 1]
  {
    var x := s[|s| - 1];
    LowerBoundFinds(s, x);
    var p := LowerBound(s, x);
    if p < |s| - 1 {
      SortedAt(s, p, |s| - 1);
    }
  }

  /** Inserting a new key and removing it again gives back the original keys. */
  lemma InsertThenRemove(s: seq<int>, x: int)
    requires StrictlySorted(s) && x !in s
    ensures RemoveKey(InsertKey(s, x), x) == s
  {
    var p := LowerBound(s, x);
    var r := InsertKey(s, x);
    assert r == Ins(s, p, x);
    LowerBoundFinds(r, x);
    var q := LowerBound(r, x);
    assert q == p;
    assert Del(r, p) == s;
  }

  /** Removing a key and inserting it again gives back the original keys. */
  lemma RemoveThenInsert(s: seq<int>, x: int)
    requires StrictlySorted(s) && x in s
    ensures InsertKey(RemoveKey(s, x), x) == s
  {
    LowerBoundFinds(s, x);
    var p := LowerBound(s, x);
    var r := RemoveKey(s, x);
    assert r == Del(s, p);
    assert x !in r;
    LowerBoundIs(r, x, p);
    assert Ins(r, p, x) == s;
  }

  /** The keys after inserting each element of `xs` in turn. */
  function InsertAll(s: seq<int>, xs: seq<int>): (r: seq<int>)
    requires StrictlySorted(s)
    ensures StrictlySorted(r)
    ensures forall v :: v in r <==> v in s || v in xs
  {
    if xs == [] then s
    else
      var front := xs[..|xs| - 1];
      assert xs == front + [xs[|xs| - 1]];
      InsertKey(InsertAll(s, front), xs[|xs| - 1])
  }

  /** The keys after removing each element of `xs` in turn. */
  function RemoveAll(s: seq<int>, xs: seq<int>): (r: seq<int>)
    requires StrictlySorted(s)
    ensures StrictlySorted(r)
    ensures forall v :: v in r <==> v in s && v !in xs
  {
    if xs == [] then s
    else
      var front := xs[..|xs| - 1];
      assert xs == front + [xs[|xs| - 1]];
      RemoveKey(RemoveAll(s, front), xs[|xs| - 1])
  }

  /** Inserting one more element of `xs` extends the fold by one insertion. */
  lemma InsertAllStep(s: seq<int>, xs: seq<int>, j: nat)
    requires StrictlySorted(s) && j < |xs|
    ensures InsertAll(s, xs[..j + 1]) == InsertKey(InsertAll(s, xs[..j]), xs[j])
  {
    assert xs[..j + 1][..j] == xs[..j];
  }

  /** Removing one more element of `xs` extends the fold by one removal. */
  lemma RemoveAllStep(s: seq<int>, xs: seq<int>, j: nat)
    requires StrictlySorted(s) && j < |xs|
    ensures RemoveAll(s, xs[..j + 1]) == RemoveKey(RemoveAll(s, xs[..j]), xs[j])
  {
    assert xs[..j + 1][..j] == xs[..j];
  }

  /** The keys listed last-first. */
  function Reverse(s: seq<int>): (r: seq<int>)
    ensures |r| == |s|
    ensures forall k :: 0 <= k < |s| ==> r[k] == s[|s| - 1 - k]
  {
    if s == [] then [] else [s[|s| - 1]] + Reverse(s[..|s| - 1])
  }
}
