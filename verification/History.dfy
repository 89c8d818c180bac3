/**
 * The order in which src/common/Channel.cpp (fillInMissingMessages) puts historical messages
 * between the messages of a snapshot, independently of queues and concurrency.
 */
module History {
  import opened Collections
  import opened LimitedQueues

  /** A message as the history sees it. `address` is its identity: two messages are the same
      object exactly if they are equal. */
  datatype Message = Message(address: nat, id: string, receivedTime: int, isSystem: bool)

  /** The ids that count as already present. */
  function Ids(s: seq<Message>): set<string> {
    set m | m in s && !m.isSystem && m.id != "" :: m.id
  }

  /** The messages of `fill` whose id is not in `ids`. */
  function Without(ids: set<string>, fill: seq<Message>): seq<Message> {
    if fill == [] then [] else
      var m := fill[|fill| - 1];
      Without(ids, fill[..|fill| - 1]) + (if m.id in ids then [] else [m])
  }

  function Missing(s: seq<Message>, fill: seq<Message>): seq<Message> {
    Without(Ids(s), fill)
  }

  predicate Later(x: Message, m: Message) {
    !x.isSystem && m.receivedTime < x.receivedTime
  }

  /** The first user message of `s` that is strictly later than `m`, or `|s|`. */
  function Anchor(s: seq<Message>, m: Message): (j: nat)
    ensures j <= |s| && (j < |s| ==> Later(s[j], m))
  {
    if s == [] || Later(s[0], m) then 0 else 1 + Anchor(s[1..], m)
  }

  lemma {:induction false} AnchorIsFirst(s: seq<Message>, m: Message, i: nat)
    requires i < |s| && Later(s[i], m)
    ensures Anchor(s, m) <= i
  {
    if !Later(s[0], m) {
      AnchorIsFirst(s[1..], m, i - 1);
    }
  }

  /** The messages of `n` that go directly before `s[j]` (at the end for `j == |s|`). */
  function At(s: seq<Message>, n: seq<Message>, j: nat): seq<Message> {
    if n == [] then [] else
      var m := n[|n| - 1];
      At(s, n[..|n| - 1], j) + (if Anchor(s, m) == j then [m] else [])
  }

  function WeaveFrom(s: seq<Message>, n: seq<Message>, j: nat): seq<Message>
    requires j <= |s|
    decreases |s| - j
  {
    At(s, n, j) + if j == |s| then [] else [s[j]] + WeaveFrom(s, n, j + 1)
  }

  /** The snapshot with every message of `n` placed at its anchor, in the order of `n`. */
  function Weave(s: seq<Message>, n: seq<Message>): seq<Message> {
    WeaveFrom(s, n, 0)
  }

  // ---- What is inserted ----

  lemma {:induction false} WithoutSplit(ids: set<string>, a: seq<Message>, b: seq<Message>)
    ensures Without(ids, a + b) == Without(ids, a) + Without(ids, b)
  {
    if b == [] {
      assert a + b == a;
    } else {
      assert (a + b)[..|a + b| - 1] == a + b[..|b| - 1];
      WithoutSplit(ids, a, b[..|b| - 1]);
    }
  }

  lemma {:induction false} WithoutMember(ids: set<string>, fill: seq<Message>, m: Message)
    ensures m in Without(ids, fill) <==> m in fill && m.id !in ids
  {
    if fill != [] {
      var last := |fill| - 1;
      WithoutMember(ids, fill[..last], m);
      assert fill == fill[..last] + [fill[last]];
    }
  }

  // ---- The effect of one insertion on the weave ----

  lemma {:induction false} WeaveNothing(s: seq<Message>, j: nat)
    requires j <= |s|
    ensures WeaveFrom(s, [], j) == s[j..]
    decreases |s| - j
  {
    if j < |s| {
      WeaveNothing(s, j + 1);
    }
  }

  /** A message with an anchor lands directly before it. */
  lemma {:induction false} WeaveBefore(s: seq<Message>, n: seq<Message>, m: Message, j: nat) returns (p: nat)
    requires j <= Anchor(s, m) < |s|
    ensures p < |WeaveFrom(s, n, j)| && WeaveFrom(s, n, j)[p] == s[Anchor(s, m)]
    ensures WeaveFrom(s, n + [m], j) == InsertAt(WeaveFrom(s, n, j), p, m)
    decreases |s| - j
  {
    if j == Anchor(s, m) {
      WeaveLater(s, n, m, j + 1);
      p := InsertBetween(At(s, n, j), s[j], WeaveFrom(s, n, j + 1), m);
    } else {
      var q := WeaveBefore(s, n, m, j + 1);
      p := InsertDeep(At(s, n, j), s[j], WeaveFrom(s, n, j + 1), q, m);
    }
  }

  lemma InsertBetween(a: seq<Message>, x: Message, rest: seq<Message>, m: Message) returns (p: nat)
    ensures p < |a + ([x] + rest)| && (a + ([x] + rest))[p] == x
    ensures (a + [m]) + ([x] + rest) == InsertAt(a + ([x] + rest), p, m)
  {
    p := |a|;
    InsertAtBehind(a, [x] + rest, 0, m);
    assert InsertAt([x] + rest, 0, m) == [m] + ([x] + rest);
    ConcatAssociates(a, [m], [x] + rest);
  }

  lemma InsertDeep(a: seq<Message>, x: Message, rest: seq<Message>, q: nat, m: Message) returns (p: nat)
    requires q < |rest|
    ensures p < |a + ([x] + rest)| && (a + ([x] + rest))[p] == rest[q]
    ensures a + ([x] + InsertAt(rest, q, m)) == InsertAt(a + ([x] + rest), p, m)
  {
    p := |a| + 1 + q;
    InsertAtBehind([x], rest, q, m);
    InsertAtBehind(a, [x] + rest, 1 + q, m);
  }

  lemma {:induction false} WeaveLater(s: seq<Message>, n: seq<Message>, m: Message, j: nat)
    requires Anchor(s, m) < j <= |s|
    ensures WeaveFrom(s, n + [m], j) == WeaveFrom(s, n, j)
    decreases |s| - j
  {
    if j < |s| {
      WeaveLater(s, n, m, j + 1);
    }
  }

  /** A message without an anchor lands at the end. */
  lemma {:induction false} WeaveAtEnd(s: seq<Message>, n: seq<Message>, m: Message, j: nat)
    requires j <= |s| == Anchor(s, m)
    ensures WeaveFrom(s, n + [m], j) == WeaveFrom(s, n, j) + [m]
    decreases |s| - j
  {
    if j < |s| {
      WeaveAtEnd(s, n, m, j + 1);
    }
  }

  lemma WeaveGrows(s: seq<Message>, n: seq<Message>, m: Message) returns (p: nat)
    ensures p <= |Weave(s, n)| && Weave(s, n + [m]) == InsertAt(Weave(s, n), p, m)
    ensures Anchor(s, m) < |s| ==> p < |Weave(s, n)| && Weave(s, n)[p] == s[Anchor(s, m)]
    ensures Anchor(s, m) == |s| ==> p == |Weave(s, n)|
  {
    if Anchor(s, m) < |s| {
      p := WeaveBefore(s, n, m, 0);
    } else {
      p := |Weave(s, n)|;
      WeaveAtEnd(s, n, m, 0);
      assert InsertAt(Weave(s, n), p, m) == Weave(s, n) + [m];
    }
  }

  /** Nothing is lost, invented or repeated. */
  lemma {:induction false} WeaveConserves(s: seq<Message>, n: seq<Message>)
    ensures multiset(Weave(s, n)) == multiset(s) + multiset(n)
  {
    if n == [] {
      WeaveNothing(s, 0);
    } else {
      var m := n[|n| - 1];
      var n' := n[..|n| - 1];
      assert n == n' + [m];
      WeaveConserves(s, n');
      var p := WeaveGrows(s, n', m);
      InsertAtMultiset(Weave(s, n'), p, m);
    }
  }

  ghost predicate InFront(w: seq<Message>, x: Message, y: Message) {
    exists a, b :: 0 <= a < b < |w| && w[a] == x && w[b] == y
  }

  lemma {:induction false} AtMember(s: seq<Message>, n: seq<Message>, j: nat, m: Message)
    ensures m in At(s, n, j) <==> m in n && Anchor(s, m) == j
  {
    if n != [] {
      var last := |n| - 1;
      AtMember(s, n[..last], j, m);
      assert n == n[..last] + [n[last]];
    }
  }

  lemma FrontGrows(at: seq<Message>, x: Message, front: seq<Message>, y: Message, back: seq<Message>)
    ensures at + ([x] + (front + ([y] + back))) == (at + ([x] + front)) + ([y] + back)
  {
    ConcatAssociates([x], front, [y] + back);
    ConcatAssociates(at, [x] + front, [y] + back);
  }

  /** What stands in front of `s[i]` in the weave from `j` on. */
  lemma {:induction false} WeaveSplits(s: seq<Message>, n: seq<Message>, j: nat, i: nat, m: Message)
    returns (front: seq<Message>, back: seq<Message>)
    requires j <= i < |s| && m in n && m !in s
    ensures WeaveFrom(s, n, j) == front + ([s[i]] + back)
    ensures m in front <==> j <= Anchor(s, m) <= i
    decreases i - j
  {
    var at := At(s, n, j);
    AtMember(s, n, j, m);
    if j == i {
      front, back := at, WeaveFrom(s, n, j + 1);
    } else {
      front, back := WeaveSplits(s, n, j + 1, i, m);
      FrontGrows(at, s[j], front, s[i], back);
      assert m in at + ([s[j]] + front) <==> m in at || m in front;
      front := at + ([s[j]] + front);
    }
  }

  lemma FrontIsInFront(front: seq<Message>, y: Message, back: seq<Message>, m: Message)
    requires Distinct(front + ([y] + back))
    ensures InFront(front + ([y] + back), m, y) <==> m in front
  {
    var w := front + ([y] + back);
    assert w[|front|] == y;
    if m in front {
      var a :| 0 <= a < |front| && front[a] == m;
      assert w[a] == m;
    }
  }

  lemma AnchorWithin(s: seq<Message>, m: Message, i: nat)
    requires i < |s|
    ensures Anchor(s, m) <= i <==> exists j :: 0 <= j <= i && !s[j].isSystem && m.receivedTime < s[j].receivedTime
  {
    if exists j :: 0 <= j <= i && !s[j].isSystem && m.receivedTime < s[j].receivedTime {
      var j :| 0 <= j <= i && !s[j].isSystem && m.receivedTime < s[j].receivedTime;
      AnchorIsFirst(s, m, j);
    }
  }

  /** Where a message goes, for any snapshot and any list: in front of a snapshot message exactly if that
      one, or one before it, is a user message with a strictly later time. */
  lemma WeavePlaces(s: seq<Message>, n: seq<Message>, m: Message, i: nat)
    requires Distinct(s + n) && m in n && m !in s && i < |s|
    ensures InFront(Weave(s, n), m, s[i]) <==>
            exists j :: 0 <= j <= i && !s[j].isSystem && m.receivedTime < s[j].receivedTime
  {
    WeaveConserves(s, n);
    DistinctPart(s + n, Weave(s, n));
    var front, back := WeaveSplits(s, n, 0, i, m);
    FrontIsInFront(front, s[i], back, m);
    AnchorWithin(s, m, i);
  }

  /** The call `fillInMissingMessages` makes for `m`, given the messages woven so far. */
  function FillOp(s: seq<Message>, last: Message, m: Message): Op<Message> {
    if Anchor(s, m) < |s| then InsertBefore(s[Anchor(s, m)], m) else InsertAfter(last, m)
  }

  lemma ApplyAt<T(!new)>(u: seq<T>, p: nat, op: Op<T>)
    requires Distinct(u) && p < |u| && Searches(op) && op.needle == u[p]
    ensures Apply(u, op) == Edit(u, p, op)
  {
    ApplyFound(u, p, op);
  }

  lemma InsertIntoWeave(w: seq<Message>, appended: seq<Message>, p: nat, needle: Message, m: Message)
    requires Distinct(w + appended) && p < |w| && w[p] == needle
    ensures Apply(w + appended, InsertBefore(needle, m)) == InsertAt(w, p, m) + appended
    ensures Apply(w + appended, InsertAfter(needle, m)) == InsertAt(w, p + 1, m) + appended
  {
    ApplyAt(w + appended, p, InsertBefore(needle, m));
    ApplyAt(w + appended, p, InsertAfter(needle, m));
    InsertAtConcat(w, appended, p, m);
    InsertAtConcat(w, appended, p + 1, m);
  }

  function Last<T>(s: seq<T>): T
    requires s != []
  {
    s[|s| - 1]
  }

  /** One iteration of the fill loop on the unbounded list. */
  lemma FillApplies(s: seq<Message>, n: seq<Message>, appended: seq<Message>, m: Message)
    requires s != [] && Weave(s, n) != [] && Distinct(Weave(s, n) + appended)
    ensures Apply(Weave(s, n) + appended, FillOp(s, Last(Weave(s, n)), m)) == Weave(s, n + [m]) + appended
    ensures Weave(s, n + [m]) != []
    ensures Last(Weave(s, n + [m])) == if Anchor(s, m) < |s| then Last(Weave(s, n)) else m
  {
    var p := WeaveGrows(s, n, m);
    var w := Weave(s, n);
    var at := if Anchor(s, m) < |s| then p else |w| - 1;
    InsertIntoWeave(w, appended, at, w[at], m);
  }

  /** The same iteration on the bounded queue, whatever has been evicted meanwhile. */
  lemma FillStep(limit: nat, s: seq<Message>, n: seq<Message>, appended: seq<Message>, m: Message)
    requires s != [] && Weave(s, n) != [] && Distinct(Weave(s, n) + appended)
    ensures LastN(limit, Apply(LastN(limit, Weave(s, n) + appended), FillOp(s, Last(Weave(s, n)), m)))
         == LastN(limit, Weave(s, n + [m]) + appended)
  {
    var u := Weave(s, n) + appended;
    var op := FillOp(s, Last(Weave(s, n)), m);
    FillApplies(s, n, appended, m);
    UniqueNeedleIsResolved(limit, u, op.needle);
    StepRefines(limit, u, op);
  }

  /** In an ascending snapshot: in front of a user message exactly if it is strictly earlier, so that the
      snapshot comes first on ties. */
  lemma TiesStayBehind(s: seq<Message>, n: seq<Message>, m: Message, i: nat)
    requires Distinct(s + n) && m in n && m !in s && i < |s| && !s[i].isSystem
    requires forall j :: 0 <= j <= i && !s[j].isSystem ==> s[j].receivedTime <= s[i].receivedTime
    ensures InFront(Weave(s, n), m, s[i]) <==> m.receivedTime < s[i].receivedTime
  {
    WeavePlaces(s, n, m, i);
  }

  // ---- The weave is a stable merge ----

  /** The stable merge by received time: snapshot first on ties, system messages of the snapshot
      stay where they are. */
  function Merge(s: seq<Message>, n: seq<Message>): seq<Message>
    decreases |s| + |n|
  {
    if s == [] then n
    else if n == [] then s
    else if Later(s[0], n[0]) then [n[0]] + Merge(s, n[1..])
    else [s[0]] + Merge(s[1..], n)
  }

  ghost predicate SortedByTime(n: seq<Message>) {
    forall i, j :: 0 <= i < j < |n| ==> n[i].receivedTime <= n[j].receivedTime
  }

  lemma {:induction false} AtFront(s: seq<Message>, n: seq<Message>, j: nat)
    requires n != []
    ensures Anchor(s, n[0]) == j ==> At(s, n, j) == [n[0]] + At(s, n[1..], j)
    ensures Anchor(s, n[0]) != j ==> At(s, n, j) == At(s, n[1..], j)
  {
    if |n| > 1 {
      var last := |n| - 1;
      AtFront(s, n[..last], j);
      assert n[..last][1..] == n[1..][..last - 1];
    }
  }

  lemma {:induction false} AtAll(s: seq<Message>, n: seq<Message>, j: nat)
    requires forall m :: m in n ==> Anchor(s, m) == j
    ensures At(s, n, j) == n
  {
    if n != [] {
      AtAll(s, n[..|n| - 1], j);
    }
  }

  lemma {:induction false} AtNone(s: seq<Message>, n: seq<Message>, j: nat)
    requires forall m :: m in n ==> Anchor(s, m) != j
    ensures At(s, n, j) == []
  {
    if n != [] {
      AtNone(s, n[..|n| - 1], j);
    }
  }

  lemma {:induction false} WeaveDropsPlaced(s: seq<Message>, n: seq<Message>, j: nat)
    requires n != [] && Anchor(s, n[0]) < j <= |s|
    ensures WeaveFrom(s, n, j) == WeaveFrom(s, n[1..], j)
    decreases |s| - j
  {
    AtFront(s, n, j);
    if j < |s| {
      WeaveDropsPlaced(s, n, j + 1);
    }
  }

  lemma WeaveTakesFirst(s: seq<Message>, n: seq<Message>, j: nat)
    requires n != [] && Anchor(s, n[0]) == j < |s|
    ensures WeaveFrom(s, n, j) == [n[0]] + WeaveFrom(s, n[1..], j)
  {
    AtFront(s, n, j);
    WeaveDropsPlaced(s, n, j + 1);
    var rest := [s[j]] + WeaveFrom(s, n, j + 1);
    assert [n[0]] + (At(s, n[1..], j) + rest) == At(s, n, j) + rest;
  }

  lemma MergeStep(s: seq<Message>, n: seq<Message>, j: nat)
    requires j < |s| && n != []
    ensures Merge(s[j..], n) == if Later(s[j], n[0]) then [n[0]] + Merge(s[j..], n[1..])
                                else [s[j]] + Merge(s[j + 1..], n)
  {
    assert s[j..][1..] == s[j + 1..];
  }

  lemma {:induction false} MergeIsWeaveFrom(s: seq<Message>, n: seq<Message>, j: nat)
    requires j <= |s| && SortedByTime(n) && forall m :: m in n ==> j <= Anchor(s, m)
    ensures Merge(s[j..], n) == WeaveFrom(s, n, j)
    decreases |s| - j + |n|
  {
    if n == [] {
      WeaveNothing(s, j);
    } else if j == |s| {
      WeaveEnds(s, n);
    } else {
      MergeStep(s, n, j);
      if Later(s[j], n[0]) {
        AnchorIsFirst(s, n[0], j);
        WeaveTakesFirst(s, n, j);
        MergeIsWeaveFrom(s, n[1..], j);
      } else {
        NoneAt(s, n, j);
        MergeIsWeaveFrom(s, n, j + 1);
      }
    }
  }

  lemma WeaveEnds(s: seq<Message>, n: seq<Message>)
    requires forall m :: m in n ==> Anchor(s, m) == |s|
    ensures WeaveFrom(s, n, |s|) == n
  {
    AtAll(s, n, |s|);
    assert n + [] == n;
  }

  lemma NoneAt(s: seq<Message>, n: seq<Message>, j: nat)
    requires j < |s| && n != [] && SortedByTime(n) && !Later(s[j], n[0])
    requires forall m :: m in n ==> j <= Anchor(s, m)
    ensures At(s, n, j) == [] && forall m :: m in n ==> j + 1 <= Anchor(s, m)
  {
    forall i | 0 <= i < |n|
      ensures !Later(s[j], n[i])
    {
      assert i > 0 ==> n[0].receivedTime <= n[i].receivedTime;
    }
    AtNone(s, n, j);
  }

  /** For an ascending fill list, whatever the order of the snapshot, the result is the stable merge. */
  lemma WeaveIsMerge(s: seq<Message>, n: seq<Message>)
    requires SortedByTime(n)
    ensures Weave(s, n) == Merge(s, n)
  {
    MergeIsWeaveFrom(s, n, 0);
    assert s[0..] == s;
  }

  /** Everything but the `skip` messages is ascending by received time. */
  ghost predicate AscendingExcept(s: seq<Message>, skip: set<Message>) {
    forall i, j :: 0 <= i < j < |s| && s[i] !in skip && s[j] !in skip
      ==> s[i].receivedTime <= s[j].receivedTime
  }

  lemma AscendsWithHead(h: Message, rest: seq<Message>, skip: set<Message>)
    requires AscendingExcept(rest, skip)
    requires h in skip || forall m :: m in rest && m !in skip ==> h.receivedTime <= m.receivedTime
    ensures AscendingExcept([h] + rest, skip)
  {
    var s := [h] + rest;
    forall i, j | 0 <= i < j < |s| && s[i] !in skip && s[j] !in skip
      ensures s[i].receivedTime <= s[j].receivedTime
    {
      assert s[j] == rest[j - 1] && s[j] in rest;
      assert i > 0 ==> s[i] == rest[i - 1];
    }
  }

  lemma AscendingTail(s: seq<Message>, skip: set<Message>)
    requires s != [] && AscendingExcept(s, skip)
    ensures AscendingExcept(s[1..], skip)
    ensures s[0] in skip || forall m :: m in s && m !in skip ==> s[0].receivedTime <= m.receivedTime
  {
    forall i, j | 0 <= i < j < |s[1..]| && s[1..][i] !in skip && s[1..][j] !in skip
      ensures s[1..][i].receivedTime <= s[1..][j].receivedTime
    {
      assert s[1..][i] == s[i + 1] && s[1..][j] == s[j + 1];
    }
  }

  lemma {:induction false} MergeMembers(s: seq<Message>, n: seq<Message>)
    ensures forall m :: m in Merge(s, n) ==> m in s || m in n
    decreases |s| + |n|
  {
    if s != [] && n != [] {
      if Later(s[0], n[0]) {
        MergeMembers(s, n[1..]);
      } else {
        MergeMembers(s[1..], n);
      }
    }
  }

  /** The merge of ascending lists is ascending; `skip` stands for the system messages. */
  lemma {:induction false} MergeAscends(s: seq<Message>, n: seq<Message>, skip: set<Message>)
    requires AscendingExcept(s, skip) && SortedByTime(n)
    requires forall m :: m in s ==> (m in skip <==> m.isSystem)
    ensures AscendingExcept(Merge(s, n), skip)
    decreases |s| + |n|
  {
    if s != [] && n != [] {
      AscendingTail(s, skip);
      if Later(s[0], n[0]) {
        MergeAscends(s, n[1..], skip);
        MergeMembers(s, n[1..]);
        AscendsWithHead(n[0], Merge(s, n[1..]), skip);
      } else {
        MergeAscends(s[1..], n, skip);
        MergeMembers(s[1..], n);
        AscendsWithHead(s[0], Merge(s[1..], n), skip);
      }
    }
  }

  /** The elements of `s` that belong to `keep`, in order. */
  function Restrict(s: seq<Message>, keep: set<Message>): seq<Message> {
    if s == [] then [] else (if s[0] in keep then [s[0]] else []) + Restrict(s[1..], keep)
  }

  lemma {:induction false} RestrictAll(s: seq<Message>, keep: set<Message>)
    requires forall m :: m in s ==> m in keep
    ensures Restrict(s, keep) == s
  {
    if s != [] {
      RestrictAll(s[1..], keep);
    }
  }

  lemma {:induction false} RestrictNone(s: seq<Message>, keep: set<Message>)
    requires forall m :: m in s ==> m !in keep
    ensures Restrict(s, keep) == []
  {
    if s != [] {
      RestrictNone(s[1..], keep);
    }
  }

  /** The merge keeps the order of the snapshot and the order of the fill list. */
  lemma {:induction false} MergeKeepsOrder(s: seq<Message>, n: seq<Message>, inS: set<Message>, inN: set<Message>)
    requires inS !! inN
    requires forall m :: m in s ==> m in inS
    requires forall m :: m in n ==> m in inN
    ensures Restrict(Merge(s, n), inS) == s && Restrict(Merge(s, n), inN) == n
    decreases |s| + |n|
  {
    if s == [] {
      RestrictAll(n, inN);
      RestrictNone(n, inS);
    } else if n == [] {
      RestrictAll(s, inS);
      RestrictNone(s, inN);
    } else if Later(s[0], n[0]) {
      MergeKeepsOrder(s, n[1..], inS, inN);
    } else {
      MergeKeepsOrder(s[1..], n, inS, inN);
    }
  }
}
