/**
 * The bounded message history of src/messages/LimitedQueue.hpp.
 *
 * The specification of every modifier is the same modifier on an unbounded list
 * (`Apply`) followed by `LastN(limit, _)`.
 */
module LimitedQueues {
  import opened Collections

  /** The calls that change a queue. */
  datatype Op<T> =
    | PushBack(item: T)
    | PushFront(items: seq<T>)
    | InsertBefore(needle: T, item: T)
    | InsertAfter(needle: T, item: T)
    | Replace(needle: T, item: T)
    | Clear

  /** `x` is not among the first `n` elements. */
  predicate AbsentBelow<T(==)>(s: seq<T>, x: T, n: nat)
    requires n <= |s|
  {
    forall j :: 0 <= j < n ==> s[j] != x
  }

  /** The index of the first `x` in `s`, or `|s|`. */
  function IndexOf<T(==)>(s: seq<T>, x: T): (i: nat)
    ensures i <= |s| && AbsentBelow(s, x, i)
    ensures i < |s| ==> s[i] == x
  {
    if s == [] then 0 else if s[0] == x then 0 else
      var i := 1 + IndexOf(s[1..], x);
      assert forall j :: 0 < j < i ==> s[j] == s[1..][j - 1];
      i
  }

  lemma IndexOfUnique<T>(s: seq<T>, x: T, i: nat)
    requires i < |s| && s[i] == x && AbsentBelow(s, x, i)
    ensures IndexOf(s, x) == i
  {
  }

  lemma IndexOfIn<T>(s: seq<T>, x: T)
    ensures x in s <==> IndexOf(s, x) < |s|
  {
  }

  /** The effect of a call on a list without a limit. */
  function Apply<T(==)>(u: seq<T>, op: Op<T>): seq<T> {
    match op
    case PushBack(x) => u + [x]
    case PushFront(items) => items + u
    case Clear => []
    case _ =>
      var i := IndexOf(u, op.needle);
      if i < |u| then Edit(u, i, op) else u
  }

  predicate Searches<T>(op: Op<T>) {
    op.InsertBefore? || op.InsertAfter? || op.Replace?
  }

  /** The effect of a searching call once its needle is found at `i`. */
  function Edit<T>(u: seq<T>, i: nat, op: Op<T>): seq<T>
    requires i < |u| && Searches(op)
  {
    match op
    case InsertBefore(_, x) => InsertAt(u, i, x)
    case InsertAfter(_, x) => InsertAt(u, i + 1, x)
    case Replace(_, x) => u[i := x]
  }

  /** What `boost::circular_buffer::insert` documents: a full buffer loses its first element,
      and an insertion before the first element of a full buffer is dropped. */
  function CircularInsert<T>(limit: nat, b: seq<T>, pos: nat, x: T): seq<T>
    requires pos <= |b| <= limit
  {
    if |b| < limit then InsertAt(b, pos, x)
    else if pos == 0 then b
    else b[1..pos] + [x] + b[pos..]
  }

  lemma CircularInsertIsLastN<T>(limit: nat, b: seq<T>, pos: nat, x: T)
    requires pos <= |b| <= limit
    ensures CircularInsert(limit, b, pos, x) == LastN(limit, InsertAt(b, pos, x))
  {
  }

  lemma PushFrontFits<T>(limit: nat, items: seq<T>, b: seq<T>)
    requires |b| <= limit
    ensures LastN(limit, items + b) == LastN(limit - |b|, items) + b
    ensures LastN(limit - |b|, items) == items[|items| - Min(|items|, limit - |b|)..]
    ensures LastN(limit, Apply(b, PushFront(items))) == LastN(limit, items + b)
  {
  }

  lemma PushedFrontStep<T>(items: seq<T>, b: seq<T>, k: nat, lo: nat, f: nat)
    requires k < |items| && lo <= f < |items|
    ensures [items[k]] + (items[k + 1..] + b) == items[k..] + b
    ensures items[lo..f] + [items[f]] == items[lo..f + 1]
  {
  }

  class LimitedQueue<T(==)> {
    const limit: nat
    var buffer: seq<T>

    ghost predicate Valid()
      reads this
    {
      |buffer| <= limit
    }

    constructor (limit: nat := 1000)
      ensures Valid() && this.limit == limit && buffer == []
    {
      this.limit := limit;
      buffer := [];
    }

    method ClearAll()
      requires Valid()
      modifies this`buffer
      ensures Valid() && buffer == LastN(limit, Apply(old(buffer), Clear))
    {
      buffer := [];
    }

    /** The plain call: a queue without room drops the item. */
    method PushBackPlain(item: T) returns (full: bool)
      requires Valid()
      modifies this`buffer
      ensures Valid() && buffer == LastN(limit, Apply(old(buffer), PushBack(item)))
      ensures full == (|old(buffer)| == limit)
    {
      full := |buffer| == limit;
      if !full {
        buffer := buffer + [item];
      } else if |buffer| > 0 {
        buffer := buffer[1..] + [item];
      }
    }

    /** The call that hands back the deleted element, which a full queue must have. */
    method PushBackItem(item: T) returns (full: bool, deleted: Option<T>)
      requires Valid() && 0 < limit
      modifies this`buffer
      ensures Valid() && buffer == LastN(limit, Apply(old(buffer), PushBack(item)))
      ensures full == deleted.Some? == (|old(buffer)| == limit)
      ensures full ==> deleted.value == old(buffer)[0]
    {
      full := |buffer| == limit;
      deleted := None;
      if full {
        deleted := Some(buffer[0]);
        buffer := buffer[1..] + [item];
      } else {
        buffer := buffer + [item];
      }
    }

    method PushFrontItems(items: seq<T>) returns (pushed: seq<T>)
      requires Valid()
      modifies this`buffer
      ensures Valid() && pushed == LastN(limit - |old(buffer)|, items) && buffer == pushed + old(buffer)
      ensures buffer == LastN(limit, Apply(old(buffer), PushFront(items)))
    {
      var numToPush := Min(|items|, limit - |buffer|);
      pushed := [];
      var f, b := |items| - numToPush, |items| - 1;
      ghost var from, was := f, buffer;
      while f < |items|
        invariant from <= f <= |items| && b == |items| - 1 - (f - from)
        invariant buffer == items[b + 1..] + was && pushed == items[from..f]
      {
        PushedFrontStep(items, was, b, from, f);
        buffer := [items[b]] + buffer;
        pushed := pushed + [items[f]];
        f, b := f + 1, b - 1;
      }
      assert items[from..|items|] == items[from..];
      PushFrontFits(limit, items, was);
    }

    method ReplaceItem(needle: T, replacement: T) returns (index: int)
      requires Valid()
      modifies this`buffer
      ensures Valid() && buffer == LastN(limit, Apply(old(buffer), Replace(needle, replacement)))
      ensures buffer == if needle in old(buffer) then old(buffer)[IndexOf(old(buffer), needle) := replacement]
                        else old(buffer)
      ensures index == if needle in old(buffer) then IndexOf(old(buffer), needle) else -1
    {
      for i := 0 to |buffer|
        invariant buffer == old(buffer) && AbsentBelow(buffer, needle, i)
      {
        if buffer[i] == needle {
          IndexOfUnique(buffer, needle, i);
          buffer := buffer[i := replacement];
          return i;
        }
      }
      index := -1;
    }

    method ReplaceItemAt(index: nat, replacement: T) returns (prev: Option<T>)
      requires Valid()
      modifies this`buffer
      ensures Valid() && prev.Some? == (index < |old(buffer)|)
      ensures prev.Some? ==> prev.value == old(buffer)[index] && buffer == old(buffer)[index := replacement]
      ensures prev.None? ==> buffer == old(buffer)
    {
      if index >= |buffer| {
        return None;
      }
      prev := Some(buffer[index]);
      buffer := buffer[index := replacement];
    }

    method ReplaceItemHinted(hint: nat, needle: T, replacement: T) returns (index: int)
      requires Valid()
      modifies this`buffer
      ensures Valid() && index == HintedIndex(old(buffer), hint, needle)
      ensures buffer == if index < 0 then old(buffer) else old(buffer)[index := replacement]
    {
      if hint < |buffer| && buffer[hint] == needle {
        buffer := buffer[hint := replacement];
        return hint;
      }
      index := ReplaceItem(needle, replacement);
    }

    method InsertBeforeItem(needle: T, item: T) returns (found: bool)
      requires Valid()
      modifies this`buffer
      ensures Valid() && buffer == LastN(limit, Apply(old(buffer), InsertBefore(needle, item)))
      ensures found <==> needle in old(buffer)
    {
      for i := 0 to |buffer|
        invariant buffer == old(buffer) && AbsentBelow(buffer, needle, i)
      {
        if buffer[i] == needle {
          IndexOfUnique(buffer, needle, i);
          CircularInsertIsLastN(limit, buffer, i, item);
          buffer := CircularInsert(limit, buffer, i, item);
          return true;
        }
      }
      found := false;
    }

    method InsertAfterItem(needle: T, item: T) returns (found: bool)
      requires Valid()
      modifies this`buffer
      ensures Valid() && buffer == LastN(limit, Apply(old(buffer), InsertAfter(needle, item)))
      ensures found <==> needle in old(buffer)
    {
      for i := 0 to |buffer|
        invariant buffer == old(buffer) && AbsentBelow(buffer, needle, i)
      {
        if buffer[i] == needle {
          IndexOfUnique(buffer, needle, i);
          CircularInsertIsLastN(limit, buffer, i + 1, item);
          buffer := CircularInsert(limit, buffer, i + 1, item);
          return true;
        }
      }
      found := false;
    }

    method GetSnapshot() returns (items: seq<T>)
      requires Valid()
      ensures items == buffer
    {
      items := buffer;
    }

    method GetLastN(n: nat) returns (items: seq<T>)
      requires Valid()
      ensures items == LastN(n, buffer)
    {
      items := buffer[|buffer| - Min(n, |buffer|)..];
    }

    /** The match closest to the end. */
    method RFind(pred: T -> bool) returns (r: Option<T>)
      requires Valid()
      ensures r.None? ==> forall x :: x in buffer ==> !pred(x)
      ensures r.Some? ==> exists i :: 0 <= i < |buffer| && buffer[i] == r.value && pred(r.value)
                                      && forall j :: i < j < |buffer| ==> !pred(buffer[j])
    {
      var i := |buffer|;
      while i > 0
        invariant 0 <= i <= |buffer| && forall j :: i <= j < |buffer| ==> !pred(buffer[j])
      {
        i := i - 1;
        if pred(buffer[i]) {
          return Some(buffer[i]);
        }
      }
      r := None;
    }
  }

  /** The index that a hinted replacement writes to, or -1. */
  function HintedIndex<T(==)>(b: seq<T>, hint: nat, needle: T): int {
    if hint < |b| && b[hint] == needle then hint
    else if needle in b then IndexOf(b, needle)
    else -1
  }

  // ---- Refinement of the unbounded list ----

  function Evicted<T>(limit: nat, u: seq<T>): seq<T> {
    u[..|u| - |LastN(limit, u)|]
  }

  /** The needle was evicted, but another copy of it is still in the window. */
  predicate Shadowed<T(==)>(limit: nat, u: seq<T>, needle: T) {
    needle in Evicted(limit, u) && needle in LastN(limit, u)
  }

  predicate AllEqual<T(==)>(s: seq<T>, x: T) {
    forall i :: 0 <= i < |s| ==> s[i] == x
  }

  /** The searching call changes nothing in a full window: a replacement by the needle itself,
      or an insertion that only shifts equal elements (in particular one before the first). */
  predicate Harmless<T(==)>(w: seq<T>, op: Op<T>)
    requires Searches(op) && op.needle in w
  {
    var k := IndexOf(w, op.needle);
    if op.Replace? then op.needle == op.item
    else AllEqual(w[..if op.InsertBefore? then k else k + 1], op.item)
  }

  /** When a call on the window of `u` does what the call on `u` does to its window. */
  predicate Resolved<T(==)>(limit: nat, u: seq<T>, op: Op<T>) {
    Searches(op) && Shadowed(limit, u, op.needle) ==> Harmless(LastN(limit, u), op)
  }

  /** A needle that occurs at most once in the whole history is always resolved. */
  lemma UniqueNeedleIsResolved<T(!new)>(limit: nat, u: seq<T>, needle: T)
    requires Distinct(u)
    ensures !Shadowed(limit, u, needle)
  {
    var w := LastN(limit, u);
    var e := Evicted(limit, u);
    assert u == e + w;
    forall i, j | 0 <= i < |e| && 0 <= j < |w|
      ensures e[i] != w[j]
    {
      assert u[i] == e[i] && u[|e| + j] == w[j];
    }
  }

  lemma LastNOfSuffix<T>(n: nat, e: seq<T>, w: seq<T>)
    requires n <= |w|
    ensures LastN(n, e + w) == LastN(n, w)
  {
  }

  lemma ShiftIsIdentity<T>(w: seq<T>, pos: nat, x: T)
    requires 0 < pos <= |w|
    ensures w[1..pos] + [x] + w[pos..] == w <==> AllEqual(w[..pos], x)
  {
    var s := w[1..pos] + [x] + w[pos..];
    if s == w {
      forall i | 0 <= i < pos
        ensures w[i] == x
      {
        ShiftedFrom(w, pos, x, i);
      }
    } else {
      if AllEqual(w[..pos], x) {
        forall i | 0 <= i < |w|
          ensures s[i] == w[i]
        {
          if i + 1 < pos {
            assert s[i] == w[i + 1] == w[..pos][i + 1] && w[i] == w[..pos][i];
          } else if i + 1 == pos {
            assert w[i] == w[..pos][i];
          }
        }
      }
    }
  }

  lemma {:induction false} ShiftedFrom<T>(w: seq<T>, pos: nat, x: T, i: nat)
    requires i < pos <= |w| && w[1..pos] + [x] + w[pos..] == w
    ensures w[i] == x
    decreases pos - i
  {
    var s := w[1..pos] + [x] + w[pos..];
    if i + 1 < pos {
      ShiftedFrom(w, pos, x, i + 1);
      assert s[i] == w[i + 1];
    } else {
      assert s[i] == x;
    }
  }

  /** One call: the bounded queue refines the unbounded list exactly for resolved calls. */
  lemma StepRefines<T>(limit: nat, u: seq<T>, op: Op<T>)
    ensures LastN(limit, Apply(LastN(limit, u), op)) == LastN(limit, Apply(u, op)) <==> Resolved(limit, u, op)
  {
    var w := LastN(limit, u);
    var e := Evicted(limit, u);
    assert u == e + w;
    match op
    case PushBack(x) =>
      assert u + [x] == e + (w + [x]);
    case PushFront(items) =>
      assert items + u == (items + e) + w;
      assert e != [] ==> |w| == limit;
    case Clear =>
    case _ =>
      NeedleStep(limit, u, op);
  }

  lemma NeedleStep<T>(limit: nat, u: seq<T>, op: Op<T>)
    requires Searches(op)
    ensures LastN(limit, Apply(LastN(limit, u), op)) == LastN(limit, Apply(u, op)) <==> Resolved(limit, u, op)
  {
    var w := LastN(limit, u);
    var e := Evicted(limit, u);
    assert u == e + w;
    if e == [] {
      assert u == w;
    } else if op.needle in e {
      ApplyInFront(e, w, op);
      LastNOfSuffix(limit, Apply(e, op), w);
      if op.needle in w {
        ShadowedStep(limit, w, op);
      }
    } else {
      ApplyBehind(e, w, op);
      LastNOfSuffix(limit, e, Apply(w, op));
    }
  }

  lemma EditInFront<T>(e: seq<T>, w: seq<T>, i: nat, op: Op<T>)
    requires i < |e| && Searches(op)
    ensures Edit(e + w, i, op) == Edit(e, i, op) + w
  {
    match op
    case InsertBefore(_, x) => InsertAtConcat(e, w, i, x);
    case InsertAfter(_, x) => InsertAtConcat(e, w, i + 1, x);
    case Replace(_, x) => UpdateConcat(e, w, i, x);
  }

  lemma EditBehind<T>(e: seq<T>, w: seq<T>, i: nat, op: Op<T>)
    requires i < |w| && Searches(op)
    ensures Edit(e + w, |e| + i, op) == e + Edit(w, i, op)
  {
    match op
    case InsertBefore(_, x) => InsertAtBehind(e, w, i, x);
    case InsertAfter(_, x) => InsertAtBehind(e, w, i + 1, x);
    case Replace(_, x) => UpdateBehind(e, w, i, x);
  }

  lemma ApplyFound<T>(u: seq<T>, i: nat, op: Op<T>)
    requires Searches(op) && i < |u| && u[i] == op.needle && AbsentBelow(u, op.needle, i)
    ensures Apply(u, op) == Edit(u, i, op)
  {
    IndexOfUnique(u, op.needle, i);
  }

  lemma ApplyAbsent<T>(u: seq<T>, op: Op<T>)
    requires Searches(op) && AbsentBelow(u, op.needle, |u|)
    ensures Apply(u, op) == u
  {
  }

  lemma ApplyInFront<T>(e: seq<T>, w: seq<T>, op: Op<T>)
    requires Searches(op) && op.needle in e
    ensures Apply(e + w, op) == Apply(e, op) + w
  {
    IndexOfIn(e, op.needle);
    var i := IndexOf(e, op.needle);
    ApplyFound(e + w, i, op);
    ApplyFound(e, i, op);
    EditInFront(e, w, i, op);
  }

  lemma FoundBehind<T>(e: seq<T>, w: seq<T>, x: T, i: nat)
    requires AbsentBelow(e, x, |e|) && i <= |w| && AbsentBelow(w, x, i)
    ensures AbsentBelow(e + w, x, |e| + i) && (i < |w| ==> (e + w)[|e| + i] == w[i])
  {
  }

  lemma ApplyBehind<T>(e: seq<T>, w: seq<T>, op: Op<T>)
    requires Searches(op) && op.needle !in e
    ensures Apply(e + w, op) == e + Apply(w, op)
    ensures |Apply(w, op)| >= |w| && (op.needle !in w ==> Apply(w, op) == w)
  {
    IndexOfIn(w, op.needle);
    var i := IndexOf(w, op.needle);
    assert AbsentBelow(e, op.needle, |e|);
    if i < |w| {
      FoundBehind(e, w, op.needle, i);
      ApplyFound(e + w, |e| + i, op);
      ApplyFound(w, i, op);
      EditBehind(e, w, i, op);
    } else {
      FoundBehind(e, w, op.needle, i);
      ApplyAbsent(e + w, op);
      ApplyAbsent(w, op);
    }
  }

  /** A call on a full window that holds the needle, compared with leaving the window alone. */
  lemma ShadowedStep<T>(limit: nat, w: seq<T>, op: Op<T>)
    requires limit == |w| && Searches(op) && op.needle in w
    ensures LastN(limit, Apply(w, op)) == w <==> Harmless(w, op)
  {
    var k := IndexOf(w, op.needle);
    if op.Replace? {
      assert w[k := op.item][k] == op.item;
      assert w[k := w[k]] == w;
    } else {
      var pos := if op.InsertBefore? then k else k + 1;
      CircularInsertIsLastN(limit, w, pos, op.item);
      if pos > 0 {
        ShiftIsIdentity(w, pos, op.item);
      }
    }
  }

  function Run<T(==)>(u: seq<T>, ops: seq<Op<T>>): seq<T>
    decreases |ops|
  {
    if ops == [] then u else Run(Apply(u, ops[0]), ops[1..])
  }

  /** What the methods of `LimitedQueue` do, one after the other. */
  function BoundedRun<T(==)>(limit: nat, b: seq<T>, ops: seq<Op<T>>): seq<T>
    decreases |ops|
  {
    if ops == [] then b else BoundedRun(limit, LastN(limit, Apply(b, ops[0])), ops[1..])
  }

  predicate AllResolved<T(==)>(limit: nat, u: seq<T>, ops: seq<Op<T>>)
    decreases |ops|
  {
    ops == [] || (Resolved(limit, u, ops[0]) && AllResolved(limit, Apply(u, ops[0]), ops[1..]))
  }

  /** After the first `n` calls the queue holds the last `limit` elements of the unbounded list. */
  predicate RefinesAfter<T(==)>(limit: nat, u: seq<T>, ops: seq<Op<T>>, n: nat) {
    n <= |ops| ==> BoundedRun(limit, LastN(limit, u), ops[..n]) == LastN(limit, Run(u, ops[..n]))
  }

  lemma RefinesAfterMore<T>(limit: nat, u: seq<T>, ops: seq<Op<T>>, n: nat)
    requires n < |ops| && Resolved(limit, u, ops[0])
    ensures RefinesAfter(limit, u, ops, n + 1) <==> RefinesAfter(limit, Apply(u, ops[0]), ops[1..], n)
  {
    StepRefines(limit, u, ops[0]);
    assert ops[..n + 1][1..] == ops[1..][..n];
  }

  lemma RunOne<T>(limit: nat, u: seq<T>, b: seq<T>, op: Op<T>)
    ensures Run(u, [op]) == Apply(u, op) && BoundedRun(limit, b, [op]) == LastN(limit, Apply(b, op))
  {
    assert [op][1..] == [];
  }

  lemma RefinesAfterOne<T>(limit: nat, u: seq<T>, ops: seq<Op<T>>, op: Op<T>)
    requires |ops| > 0 && op == ops[0]
    ensures RefinesAfter(limit, u, ops, 1) <==> Resolved(limit, u, op)
  {
    StepRefines(limit, u, op);
    RunOne(limit, u, LastN(limit, u), op);
    assert ops[..1] == [op];
  }

  /** Every run: after each of its calls the queue holds the last `limit` elements of the unbounded
      list, exactly if every call is resolved. */
  lemma {:induction false} RunRefines<T>(limit: nat, u: seq<T>, ops: seq<Op<T>>)
    ensures (forall n: nat :: RefinesAfter(limit, u, ops, n)) <==> AllResolved(limit, u, ops)
    decreases |ops|
  {
    if ops == [] {
      assert forall n: nat :: n <= |ops| ==> ops[..n] == [];
    } else {
      RefinesAfterOne(limit, u, ops, ops[0]);
      assert RefinesAfter(limit, u, ops, 1) <==> Resolved(limit, u, ops[0]);
      if Resolved(limit, u, ops[0]) {
        RunRefines(limit, Apply(u, ops[0]), ops[1..]);
        RefinesLater(limit, u, ops);
      }
    }
  }

  lemma RefinesLater<T>(limit: nat, u: seq<T>, ops: seq<Op<T>>)
    requires |ops| > 0 && Resolved(limit, u, ops[0])
    ensures (forall n: nat :: RefinesAfter(limit, u, ops, n))
       <==> (forall n: nat :: RefinesAfter(limit, Apply(u, ops[0]), ops[1..], n))
  {
    forall n: nat | n < |ops|
      ensures RefinesAfter(limit, u, ops, n + 1) <==> RefinesAfter(limit, Apply(u, ops[0]), ops[1..], n)
    {
      RefinesAfterMore(limit, u, ops, n);
    }
    if forall n: nat :: RefinesAfter(limit, u, ops, n) {
      forall n: nat
        ensures RefinesAfter(limit, Apply(u, ops[0]), ops[1..], n)
      {
        assert RefinesAfter(limit, u, ops, n + 1);
      }
    }
    if forall n: nat :: RefinesAfter(limit, Apply(u, ops[0]), ops[1..], n) {
      assert ops[..0] == [];
      forall n: nat
        ensures RefinesAfter(limit, u, ops, n)
      {
        assert n > 0 ==> RefinesAfter(limit, Apply(u, ops[0]), ops[1..], n - 1);
      }
    }
  }

  /** A call that introduces only elements the history has not seen yet. */
  ghost predicate Fresh<T(!new)>(u: seq<T>, op: Op<T>) {
    match op
    case PushBack(x) => x !in u
    case PushFront(items) => Distinct(items + u)
    case InsertBefore(_, x) => x !in u
    case InsertAfter(_, x) => x !in u
    case Replace(_, x) => x !in u
    case Clear => true
  }

  ghost predicate AllFresh<T(!new)>(u: seq<T>, ops: seq<Op<T>>)
    decreases |ops|
  {
    ops == [] || (Fresh(u, ops[0]) && AllFresh(Apply(u, ops[0]), ops[1..]))
  }

  lemma FreshKeepsDistinct<T(!new)>(u: seq<T>, op: Op<T>)
    requires Distinct(u) && Fresh(u, op)
    ensures Distinct(Apply(u, op))
  {
  }

  lemma {:induction false} FreshIsResolved<T(!new)>(limit: nat, u: seq<T>, ops: seq<Op<T>>)
    requires Distinct(u) && AllFresh(u, ops)
    ensures AllResolved(limit, u, ops)
    decreases |ops|
  {
    if ops != [] {
      if Searches(ops[0]) {
        UniqueNeedleIsResolved(limit, u, ops[0].needle);
      }
      FreshKeepsDistinct(u, ops[0]);
      FreshIsResolved(limit, Apply(u, ops[0]), ops[1..]);
    }
  }

  /** With pairwise distinct identities every run refines, evicted needles and full buffers included. */
  lemma FreshRunRefines<T(!new)>(limit: nat, u: seq<T>, ops: seq<Op<T>>)
    requires Distinct(u) && AllFresh(u, ops)
    ensures BoundedRun(limit, LastN(limit, u), ops) == LastN(limit, Run(u, ops))
  {
    FreshIsResolved(limit, u, ops);
    RunRefines(limit, u, ops);
    assert RefinesAfter(limit, u, ops, |ops|) && ops[..|ops|] == ops;
  }

  /** Without distinct identities the queue can diverge: `a`, `b`, `a` were pushed into a queue of
      two, and replacing `a` reaches the second copy while the unbounded list changes the first. */
  lemma DuplicateNeedleDiverges<T>(a: T, b: T, c: T)
    requires a != b && a != c
    ensures LastN(2, Apply(LastN(2, [a, b, a]), Replace(a, c))) == [b, c]
    ensures LastN(2, Apply([a, b, a], Replace(a, c))) == [b, a]
  {
    var u := [a, b, a];
    var w := [b, a];
    assert LastN(2, u) == w;
    IndexOfUnique(w, a, 1);
    IndexOfUnique(u, a, 0);
    assert w[1 := c] == [b, c] && u[0 := c] == [c, b, a];
  }

  /** `insertBefore` answers "needle found" even when a full buffer drops the item. */
  lemma FoundButDropped<T>(limit: nat, b: seq<T>, needle: T, x: T)
    requires |b| <= limit && needle in b && x !in b
    ensures x !in LastN(limit, Apply(b, InsertBefore(needle, x))) <==> |b| == limit && b[0] == needle
  {
    var i := IndexOf(b, needle);
    CircularInsertIsLastN(limit, b, i, x);
    var r := CircularInsert(limit, b, i, x);
    if |b| < limit {
      assert r[i] == x;
    } else if i > 0 {
      assert r[i - 1] == x;
      assert b[..i][0] != needle;
    }
  }
}
