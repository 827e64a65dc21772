/** The JavaScript array operations the rotation engine is built from
    (`indexOf`, `splice`, `filter`, `slice`), stated over sequences of
    camera ids, plus the fixed camera universe 1..26. */
module Seqs {

  datatype Option<T> = None | Some(value: T)

  /** Size of the fixed camera universe. */
  const NumCameras: nat := 26

  predicate IsCamera(c: int) {
    1 <= c <= NumCameras
  }

  /** No element occurs twice. */
  predicate Distinct(s: seq<int>) {
    forall i, j :: 0 <= i < j < |s| ==> s[i] != s[j]
  }

  function Min(a: int, b: int): int {
    if a <= b then a else b
  }

  /** `Array.prototype.indexOf`: the first position of `x`, or -1. */
  function IndexOf(s: seq<int>, x: int): (r: int)
    ensures -1 <= r < |s|
    ensures r == -1 <==> x !in s
    ensures 0 <= r ==> s[r] == x && x !in s[..r]
  {
    if |s| == 0 then -1
    else if s[0] == x then 0
    else
      var k := IndexOf(s[1..], x);
      assert k >= 0 ==> s[..k + 1] == [s[0]] + s[1..][..k];
      if k == -1 then -1 else k + 1
  }

  /** In a duplicate-free sequence the index of an element is its position. */
  lemma IndexOfDistinct(s: seq<int>, i: int)
    requires Distinct(s)
    requires 0 <= i < |s|
    ensures IndexOf(s, s[i]) == i
  {
    var k := IndexOf(s, s[i]);
    assert s[k] == s[i];
    assert k <= i by {
      assert s[..i + 1][i] == s[i];
    }
  }

  /** The two halves of a duplicate-free list are duplicate-free and share
      nothing. */
  lemma DistinctSlices(s: seq<int>, k: int)
    requires Distinct(s)
    requires 0 <= k <= |s|
    ensures Distinct(s[..k]) && Distinct(s[k..])
    ensures forall x :: x in s[k..] ==> x !in s[..k]
  {
    forall x | x in s[k..] ensures x !in s[..k] {
      var i :| 0 <= i < |s[k..]| && s[k..][i] == x;
      assert s[k + i] == x;
      forall j | 0 <= j < k ensures s[..k][j] != x {
        assert s[j] != s[k + i];
      }
    }
  }

  /** `s.splice(i, 1)`: drop the element at position `i`. */
  function RemoveAt(s: seq<int>, i: int): (r: seq<int>)
    requires 0 <= i < |s|
    ensures |r| == |s| - 1
    ensures multiset(r) == multiset(s) - multiset{s[i]}
    ensures forall j :: 0 <= j < i ==> r[j] == s[j]
    ensures forall j :: i <= j < |r| ==> r[j] == s[j + 1]
  {
    assert s == s[..i] + [s[i]] + s[i + 1..];
    s[..i] + s[i + 1..]
  }

  /** `s.splice(j, 1, x)`: overwrite the element at position `j` with `x`. */
  function Replace(s: seq<int>, j: int, x: int): (r: seq<int>)
    requires 0 <= j < |s|
    ensures |r| == |s| && r[j] == x && x in r
    ensures forall i :: 0 <= i < |s| && i != j ==> r[i] == s[i]
  {
    s[j := x]
  }

  /** Overwriting one entry of a duplicate-free list with a new value gives
      a duplicate-free list that has lost exactly the overwritten entry. */
  lemma ReplaceFresh(s: seq<int>, j: int, x: int)
    requires Distinct(s) && x !in s
    requires 0 <= j < |s|
    ensures Distinct(Replace(s, j, x))
    ensures forall c :: c in Replace(s, j, x) <==> c == x || (c in s && c != s[j])
  {
    var r := Replace(s, j, x);
    forall a, b | 0 <= a < b < |r| ensures r[a] != r[b] {
      if a != j && b != j {
        assert r[a] == s[a] && r[b] == s[b];
      } else if a == j {
        var y := s[b];
        assert r[b] == y && y in s;
      } else {
        var y := s[a];
        assert r[a] == y && y in s;
      }
    }
    forall c | c in s && c != s[j] ensures c in r {
      var a :| 0 <= a < |s| && s[a] == c;
      assert r[a] == c;
    }
    forall c | c in r && c != x ensures c in s && c != s[j] {
      var a :| 0 <= a < |r| && r[a] == c;
      assert a != j && s[a] == c;
    }
  }

  /** In a duplicate-free list each member occurs once. */
  lemma DistinctCount(s: seq<int>, x: int)
    requires Distinct(s) && x in s
    ensures multiset(s)[x] == 1
  {
    var i := IndexOf(s, x);
    assert s == s[..i] + [x] + s[i + 1..];
    DistinctSlices(s, i + 1);
    assert x in s[..i + 1];
    assert x !in s[i + 1..];
  }

  /** The two-step idiom `i = s.indexOf(x); if (i !== -1) s.splice(i, 1)`:
      remove the first occurrence of `x`, if any. */
  function RemoveFirst(s: seq<int>, x: int): (r: seq<int>)
    ensures x !in s ==> r == s
    ensures x in s ==> |r| == |s| - 1 && multiset(r) == multiset(s) - multiset{x}
    ensures forall y :: y in r ==> y in s
    ensures forall y :: y in s && y != x ==> y in r
    ensures Distinct(s) ==> Distinct(r) && x !in r
  {
    var i := IndexOf(s, x);
    if i == -1 then s
    else
      RemoveAtMembers(s, i);
      if Distinct(s) then RemoveAtDistinct(s, i); RemoveAt(s, i) else RemoveAt(s, i)
  }

  /** Where `RemoveFirst` cuts: just before the first occurrence. */
  lemma RemoveFirstShape(s: seq<int>, x: int)
    ensures var k := IndexOf(s, x);
            && (k == -1 ==> RemoveFirst(s, x) == s)
            && (k != -1 ==> RemoveFirst(s, x) == s[..k] + s[k + 1..])
  {
  }

  /** `if (!s.includes(x)) s.push(x)`: append `x` unless it is there. */
  function AppendNew(s: seq<int>, x: int): (r: seq<int>)
    ensures forall y :: y in r <==> y in s || y == x
    ensures x in s ==> r == s
    ensures x !in s ==> r == s + [x]
  {
    if x in s then s else s + [x]
  }

  /** Appending only what is absent keeps a list duplicate-free, and the
      appended element then occurs once. */
  lemma AppendNewDistinct(s: seq<int>, x: int)
    requires Distinct(s)
    ensures Distinct(AppendNew(s, x))
    ensures multiset(AppendNew(s, x))[x] == 1
  {
    if x !in s {
      DistinctConcat(s, [x]);
    }
    DistinctCount(AppendNew(s, x), x);
  }

  /** What `splice(i, 1)` keeps: every element other than the one at `i`,
      and nothing new. */
  lemma RemoveAtMembers(s: seq<int>, i: int)
    requires 0 <= i < |s|
    ensures forall y :: y in RemoveAt(s, i) ==> y in s
    ensures forall y :: y in s && y != s[i] ==> y in RemoveAt(s, i)
  {
    var r := RemoveAt(s, i);
    assert forall y :: y in r <==> y in multiset(r);
    assert forall y :: y in s <==> y in multiset(s);
  }

  /** Removing from a duplicate-free list leaves a duplicate-free list
      without the removed element. */
  lemma RemoveAtDistinct(s: seq<int>, i: int)
    requires Distinct(s)
    requires 0 <= i < |s|
    ensures Distinct(RemoveAt(s, i)) && s[i] !in RemoveAt(s, i)
  {
    var r := RemoveAt(s, i);
    forall a, b | 0 <= a < b < |r| ensures r[a] != r[b] {
      var a' := if a < i then a else a + 1;
      var b' := if b < i then b else b + 1;
      assert r[a] == s[a'] && r[b] == s[b'] && a' < b';
    }
    forall j | 0 <= j < |r| ensures r[j] != s[i] {
      var j' := if j < i then j else j + 1;
      assert r[j] == s[j'] && j' != i;
    }
  }

  /** `s.filter(c => !excl.includes(c))`: keep, in order, the elements of `s`
      that do not occur in `excl`. */
  function Without(s: seq<int>, excl: seq<int>): (r: seq<int>)
    ensures |r| <= |s|
    ensures forall x :: x in r <==> x in s && x !in excl
    ensures Distinct(s) ==> Distinct(r)
  {
    if |s| == 0 then []
    else if s[0] in excl then Without(s[1..], excl)
    else [s[0]] + Without(s[1..], excl)
  }

  /** Filtering a one-element list keeps or drops that element. */
  lemma WithoutOne(x: int, excl: seq<int>)
    ensures x in excl ==> Without([x], excl) == []
    ensures x !in excl ==> Without([x], excl) == [x]
  {
    assert [x][1..] == [];
  }

  /** The filter distributes over concatenation; with `WithoutOne` this
      fixes the survivors' order: they keep the order they had in `s`. */
  lemma {:induction false} WithoutConcat(s: seq<int>, t: seq<int>, excl: seq<int>)
    ensures Without(s + t, excl) == Without(s, excl) + Without(t, excl)
    decreases |s|
  {
    if |s| == 0 {
      assert s + t == t;
    } else {
      assert (s + t)[0] == s[0];
      assert (s + t)[1..] == s[1..] + t;
      WithoutConcat(s[1..], t, excl);
    }
  }

  /** Filtering by a list that shares nothing with `s` changes nothing. */
  lemma {:induction false} WithoutDisjoint(s: seq<int>, excl: seq<int>)
    requires forall x :: x in s ==> x !in excl
    ensures Without(s, excl) == s
  {
    if |s| > 0 {
      var y := s[0];
      assert y in s;
      assert forall x :: x in s[1..] ==> x in s;
      WithoutDisjoint(s[1..], excl);
      assert s == [y] + s[1..];
    }
  }

  /** Filtering by a list that covers all of `s` leaves nothing. */
  lemma {:induction false} WithoutCovered(s: seq<int>, excl: seq<int>)
    requires forall x :: x in s ==> x in excl
    ensures Without(s, excl) == []
  {
    if |s| > 0 {
      var y := s[0];
      assert y in s;
      assert forall x :: x in s[1..] ==> x in s;
      WithoutCovered(s[1..], excl);
    }
  }

  /** Filtering a duplicate-free list in which `d` is the only survivor
      yields exactly `[d]`. */
  lemma {:induction false} WithoutSingle(s: seq<int>, excl: seq<int>, d: int)
    requires Distinct(s)
    requires d in s && d !in excl
    requires forall x :: x in s && x != d ==> x in excl
    ensures Without(s, excl) == [d]
  {
    if s[0] == d {
      assert forall x :: x in s[1..] ==> x in excl by {
        forall x | x in s[1..] ensures x in excl {
          var j :| 0 <= j < |s[1..]| && s[1..][j] == x;
          assert s[j + 1] == x && s[0] != s[j + 1];
        }
      }
      var t := Without(s[1..], excl);
      if |t| > 0 {
        assert t[0] in t;
      }
    } else {
      WithoutSingle(s[1..], excl, d);
    }
  }

  /** `s.slice(0, n)` for `n >= 0`: at most the first `n` elements. */
  function Take(s: seq<int>, n: nat): (r: seq<int>)
    ensures |r| == Min(n, |s|)
    ensures r == s[..|r|]
  {
    if n <= |s| then s[..n] else s
  }

  /** Joining two duplicate-free lists with nothing in common gives a
      duplicate-free list. */
  lemma DistinctConcat(a: seq<int>, b: seq<int>)
    requires Distinct(a) && Distinct(b)
    requires forall x :: x in a ==> x !in b
    ensures Distinct(a + b)
  {
    var s := a + b;
    forall i, j | 0 <= i < j < |s| ensures s[i] != s[j] {
      if i < |a| && |a| <= j {
        var x := s[i];
        assert x == a[i] && x in a;
        assert s[j] == b[j - |a|] && s[j] in b;
      }
    }
  }

  /** `Array.from({length: 26}, (_, i) => i + 1)`: the camera ids in
      ascending order. */
  function AllCameras(): (r: seq<int>)
    ensures |r| == NumCameras
    ensures forall i :: 0 <= i < |r| ==> r[i] == i + 1
  {
    seq(NumCameras, i => i + 1)
  }

  lemma AllCamerasFacts()
    ensures Distinct(AllCameras())
    ensures forall c :: c in AllCameras() <==> IsCamera(c)
  {
    var u := AllCameras();
    forall c | IsCamera(c) ensures c in u {
      assert u[c - 1] == c;
    }
  }

  /** The cameras that are in neither list, in ascending order: what the
      invariant repair appends to the tail of `recent`. */
  function Missing(recent: seq<int>, active: seq<int>): (r: seq<int>)
    ensures forall c :: c in r <==> IsCamera(c) && c !in recent && c !in active
    ensures Distinct(r)
  {
    AllCamerasFacts();
    Without(Without(AllCameras(), active), recent)
  }

  /** When every camera is accounted for, the repair appends nothing. */
  lemma MissingNone(recent: seq<int>, active: seq<int>)
    requires forall c :: IsCamera(c) ==> c in recent || c in active
    ensures Missing(recent, active) == []
  {
    AllCamerasFacts();
    WithoutCovered(Without(AllCameras(), active), recent);
  }

  /** When exactly one camera `d` is unaccounted for, the repair appends
      exactly `[d]`. */
  lemma MissingOne(recent: seq<int>, active: seq<int>, d: int)
    requires IsCamera(d) && d !in recent && d !in active
    requires forall c :: IsCamera(c) && c != d ==> c in recent || c in active
    ensures Missing(recent, active) == [d]
  {
    AllCamerasFacts();
    var u := Without(AllCameras(), active);
    WithoutSingle(u, recent, d);
  }

  /** The set of elements of a sequence. */
  function Elems(s: seq<int>): set<int> {
    set x | x in s
  }

  lemma {:induction false} DistinctCard(s: seq<int>)
    requires Distinct(s)
    ensures |Elems(s)| == |s|
  {
    if |s| > 0 {
      DistinctCard(s[1..]);
      assert Elems(s) == {s[0]} + Elems(s[1..]);
      assert s[0] !in Elems(s[1..]);
    }
  }

  /** Two duplicate-free, disjoint lists that together hold exactly the
      cameras `u` have |u| elements between them. */
  lemma PartitionSize(r: seq<int>, a: seq<int>, u: set<int>)
    requires Distinct(r) && Distinct(a)
    requires forall c :: c in r ==> c !in a
    requires forall c :: c in r || c in a <==> c in u
    ensures |r| + |a| == |u|
  {
    DistinctCard(r);
    DistinctCard(a);
    assert Elems(r) + Elems(a) == u;
    assert Elems(r) * Elems(a) == {};
  }

  /** The camera universe as a set. */
  function CameraSet(): (u: set<int>)
    ensures forall c :: c in u <==> IsCamera(c)
  {
    AllCamerasFacts();
    Elems(AllCameras())
  }

  /** The camera universe has 26 members. */
  lemma CameraSetSize()
    ensures |CameraSet()| == NumCameras
  {
    AllCamerasFacts();
    DistinctCard(AllCameras());
  }
}
