/** Facts about sequences that several components share. */
module Collections {
  datatype Option<+T> = None | Some(value: T)

  function Max(a: int, b: int): int {
    if a >= b then a else b
  }

  function Min(a: int, b: int): int {
    if a <= b then a else b
  }

  /** The last `n` elements of `s`, or all of `s` when it is shorter. */
  function LastN<T>(n: nat, s: seq<T>): seq<T> {
    if |s| <= n then s else s[|s| - n..]
  }

  lemma LastNAppend<T>(limit: nat, u: seq<T>, a: seq<T>)
    ensures LastN(limit, LastN(limit, u) + a) == LastN(limit, u + a)
  {
    if |u| > limit {
      var cut := |u| - limit;
      assert u == u[..cut] + u[cut..];
      assert u + a == u[..cut] + (u[cut..] + a);
    }
  }

  lemma LastNPrepend<T>(limit: nat, a: seq<T>, u: seq<T>)
    ensures LastN(limit, a + LastN(limit, u)) == LastN(limit, a + u)
  {
    if |u| > limit {
      assert LastN(limit, a + LastN(limit, u)) == LastN(limit, u);
      assert LastN(limit, a + u) == LastN(limit, u);
    }
  }

  lemma LastNMiddle<T>(limit: nat, a: seq<T>, b: seq<T>, c: seq<T>)
    ensures LastN(limit, LastN(limit, a + LastN(limit, b)) + c) == LastN(limit, a + (b + c))
  {
    LastNPrepend(limit, a, b);
    LastNAppend(limit, a + b, c);
    assert (a + b) + c == a + (b + c);
  }

  function InsertAt<T>(s: seq<T>, i: nat, x: T): seq<T>
    requires i <= |s|
  {
    s[..i] + [x] + s[i..]
  }

  function RemoveAt<T>(s: seq<T>, i: nat): seq<T>
    requires i < |s|
  {
    s[..i] + s[i + 1..]
  }

  function Concat<T>(parts: seq<seq<T>>): seq<T> {
    if |parts| == 0 then [] else parts[0] + Concat(parts[1..])
  }

  ghost predicate Distinct<T(!new)>(s: seq<T>) {
    forall i, j :: 0 <= i < j < |s| ==> s[i] != s[j]
  }

  lemma {:induction false} ConcatSplit<T>(a: seq<seq<T>>, b: seq<seq<T>>)
    ensures Concat(a + b) == Concat(a) + Concat(b)
  {
    if |a| == 0 {
      assert a + b == b;
    } else {
      ConcatSplit(a[1..], b);
      assert (a + b)[1..] == a[1..] + b;
      ConcatAssociates(a[0], Concat(a[1..]), Concat(b));
    }
  }

  lemma ConcatOne<T>(a: seq<T>)
    ensures Concat([a]) == a
  {
    assert [a][1..] == [];
  }

  lemma InsertAtMultiset<T>(s: seq<T>, i: nat, x: T)
    requires i <= |s|
    ensures multiset(InsertAt(s, i, x)) == multiset(s) + multiset{x}
  {
    assert s == s[..i] + s[i..];
  }

  lemma InsertAtConcat<T>(a: seq<T>, b: seq<T>, i: nat, x: T)
    requires i <= |a|
    ensures InsertAt(a + b, i, x) == InsertAt(a, i, x) + b
  {
  }

  lemma InsertAtBehind<T>(a: seq<T>, b: seq<T>, i: nat, x: T)
    requires i <= |b|
    ensures InsertAt(a + b, |a| + i, x) == a + InsertAt(b, i, x)
  {
  }

  lemma UpdateConcat<T>(a: seq<T>, b: seq<T>, i: nat, x: T)
    requires i < |a|
    ensures (a + b)[i := x] == a[i := x] + b
  {
  }

  lemma UpdateBehind<T>(a: seq<T>, b: seq<T>, i: nat, x: T)
    requires i < |b|
    ensures (a + b)[|a| + i := x] == a + b[i := x]
  {
  }

  lemma ConcatAssociates<T>(a: seq<T>, b: seq<T>, c: seq<T>)
    ensures (a + b) + c == a + (b + c)
  {
  }

  lemma SubSlice<T>(s: seq<T>, lo: nat, hi: nat, a: nat, b: nat)
    requires lo <= a <= b <= hi <= |s|
    ensures s[lo..hi][a - lo..b - lo] == s[a..b]
  {
    assert |s[lo..hi][a - lo..b - lo]| == b - a;
    forall k | 0 <= k < b - a
      ensures s[lo..hi][a - lo..b - lo][k] == s[a..b][k]
    {
    }
  }

  lemma MultisetSplit<T>(s: seq<T>, i: nat)
    requires i < |s|
    ensures multiset(s) == multiset(s[..i]) + multiset{s[i]} + multiset(s[i + 1..])
  {
    assert s == s[..i] + [s[i]] + s[i + 1..];
  }

  /** `Distinct` depends only on the elements, not on their order. */
  lemma DistinctIsMultiset<T(!new)>(s: seq<T>)
    ensures Distinct(s) <==> forall x :: multiset(s)[x] <= 1
  {
    if !Distinct(s) {
      var i, j :| 0 <= i < j < |s| && s[i] == s[j];
      MultisetSplit(s, i);
      assert s[j] in multiset(s[i + 1..]);
      assert multiset(s)[s[i]] >= 2;
    } else {
      forall i | 0 <= i < |s|
        ensures multiset(s)[s[i]] == 1
      {
        MultisetSplit(s, i);
        assert s[i] !in s[..i] && s[i] !in s[i + 1..];
      }
      assert forall x :: x in multiset(s) ==> x in s;
    }
  }

  lemma DistinctPart<T(!new)>(s: seq<T>, t: seq<T>)
    requires multiset(t) <= multiset(s) && Distinct(s)
    ensures Distinct(t)
  {
    DistinctIsMultiset(s);
    DistinctIsMultiset(t);
  }
}
