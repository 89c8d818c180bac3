/**
 * The message operations of src/common/Channel.cpp on top of the bounded queue.
 */
module Channels {
  import opened Collections
  import opened LimitedQueues
  import opened History

  /** The signals a channel emits. */
  datatype Signal =
    | Appended(message: Message)
    | RemovedFromStart(message: Message)
    | AddedAtStart(messages: seq<Message>)
    | FilledIn(messages: seq<Message>)
    | Replaced(index: int, message: Message, replacement: Message)
    | ClearedAll

  /** The queue after a fill during which other threads appended `appended`. */
  function FillResult(limit: nat, s: seq<Message>, fill: seq<Message>, appended: seq<Message>): seq<Message> {
    LastN(limit, Weave(s, Missing(s, fill)) + appended)
  }

  /** The signals of appending `items`: every message is signalled as appended, in order, at most behind
      the removal of one other message. */
  predicate AppendsOf(added: seq<Signal>, items: seq<Message>)
    decreases |added|
  {
    if items == [] then added == []
    else if added == [] then false
    else if added[0].RemovedFromStart?
    then |added| > 1 && added[1] == Appended(items[0]) && AppendsOf(added[2..], items[1..])
    else added[0] == Appended(items[0]) && AppendsOf(added[1..], items[1..])
  }

  /** The messages that are signalled as removed. */
  function RemovedOf(added: seq<Signal>): seq<Message> {
    if added == [] then []
    else (if added[0].RemovedFromStart? then [added[0].message] else []) + RemovedOf(added[1..])
  }

  /** `after` extends `before` by the signals of appending `items`. */
  predicate AppendsSince(before: seq<Signal>, after: seq<Signal>, items: seq<Message>) {
    before <= after && AppendsOf(after[|before|..], items)
  }

  /** `after` extends `before` by such signals and one final `FilledIn(fill)`. */
  predicate FilledOnce(before: seq<Signal>, after: seq<Signal>, items: seq<Message>, fill: seq<Message>) {
    after != [] && after[|after| - 1] == FilledIn(fill) && AppendsSince(before, after[..|after| - 1], items)
  }

  class Channel {
    const messages: LimitedQueue<Message>
    var signals: seq<Signal>

    ghost predicate Valid()
      reads this, messages
    {
      messages.Valid()
    }

    /** A channel without room takes no message at its end: appending reads the front of the queue. */
    predicate Appendable(items: seq<Message>)
      reads this
    {
      items == [] || 0 < messages.limit
    }

    constructor (limit: nat := 1000)
      ensures Valid() && fresh(messages)
      ensures messages.limit == limit && messages.buffer == [] && signals == []
    {
      messages := new LimitedQueue(limit);
      signals := [];
    }

    method AddMessage(message: Message)
      requires Valid() && 0 < messages.limit
      modifies this`signals, messages`buffer
      ensures Valid() && messages.buffer == LastN(messages.limit, old(messages.buffer) + [message])
      ensures signals == old(signals)
                         + (if |old(messages.buffer)| < messages.limit then []
                            else [RemovedFromStart(old(messages.buffer)[0])])
                         + [Appended(message)]
    {
      var full, deleted := messages.PushBackItem(message);
      if full {
        signals := signals + [RemovedFromStart(deleted.value)];
      }
      signals := signals + [Appended(message)];
    }

    method AddMessagesAtStart(items: seq<Message>)
      requires Valid()
      modifies this`signals, messages`buffer
      ensures Valid() && messages.buffer == LastN(messages.limit, items + old(messages.buffer))
      ensures var added := LastN(messages.limit - |old(messages.buffer)|, items);
              messages.buffer == added + old(messages.buffer)
              && signals == old(signals) + if added == [] then [] else [AddedAtStart(added)]
    {
      var added := messages.PushFrontItems(items);
      if |added| != 0 {
        signals := signals + [AddedAtStart(added)];
      }
    }

    /** Appends of other threads between two critical sections. */
    method AppendConcurrently(items: seq<Message>)
      requires Valid() && Appendable(items)
      modifies this`signals, messages`buffer
      ensures Valid() && messages.buffer == LastN(messages.limit, old(messages.buffer) + items)
      ensures AppendsSince(old(signals), signals, items)
      ensures RemovedOf(signals[|old(signals)|..]) + messages.buffer == old(messages.buffer) + items
    {
      ghost var before, start := signals, messages.buffer;
      for i := 0 to |items|
        invariant Valid() && messages.buffer == LastN(messages.limit, start + items[..i])
        invariant AppendsSince(before, signals, items[..i])
        invariant RemovedOf(signals[|before|..]) + messages.buffer == start + items[..i]
      {
        ghost var was, b := signals, messages.buffer;
        AddMessage(items[i]);
        AppendStep(before, was, signals, messages.limit, start, items, i, b);
      }
      assert items[..|items|] == items;
    }

    method CollectIds(snapshot: seq<Message>) returns (ids: set<string>)
      ensures ids == Ids(snapshot)
    {
      ids := {};
      for i := 0 to |snapshot|
        invariant ids == Ids(snapshot[..i])
      {
        IdsOneMore(snapshot[..i], snapshot[i]);
        assert snapshot[..i + 1] == snapshot[..i] + [snapshot[i]];
        if snapshot[i].isSystem || snapshot[i].id == "" {
          continue;
        }
        ids := ids + {snapshot[i].id};
      }
      assert snapshot[..|snapshot|] == snapshot;
    }

    /** Merges `fill` into the history. `appends[i]` is what other threads append between the
        insertions for `fill[i - 1]` and `fill[i]`. The contents are stated for pairwise distinct
        messages, the signals for all. */
    method FillInMissingMessages(fill: seq<Message>, appends: seq<seq<Message>>)
      requires Valid() && |appends| == |fill| && forall i :: 0 <= i < |appends| ==> Appendable(appends[i])
      modifies this`signals, messages`buffer
      ensures Valid()
      ensures Distinct(old(messages.buffer) + Missing(old(messages.buffer), fill) + Concat(appends))
              ==> messages.buffer == FillResult(messages.limit, old(messages.buffer), fill, Concat(appends))
      ensures if Missing(old(messages.buffer), fill) == [] then AppendsSince(old(signals), signals, Concat(appends))
              else FilledOnce(old(signals), signals, Concat(appends), fill)
    {
      if fill == [] {
        NothingFilled(messages.limit, messages.buffer, fill, appends);
        AllFilled(messages.limit, messages.buffer, fill, appends);
        return;
      }
      var snapshot := messages.GetSnapshot();
      if |snapshot| == 0 {
        FillEmpty(fill, appends);
        return;
      }
      var existing := CollectIds(snapshot);
      var anyInserted := false;
      var lastMsg := snapshot[|snapshot| - 1];
      ghost var distinct := Distinct(snapshot + Missing(snapshot, fill) + Concat(appends));
      NothingFilled(messages.limit, snapshot, fill, appends);
      for i := 0 to |fill|
        invariant Valid()
        invariant distinct ==> messages.buffer == Filled(messages.limit, snapshot, fill, appends, i)
        invariant distinct ==> Woven(snapshot, fill, i) != [] && Last(Woven(snapshot, fill, i)) == lastMsg
        invariant anyInserted <==> Without(existing, fill[..i]) != []
        invariant AppendsSince(old(signals), signals, Concat(appends[..i]))
      {
        ghost var was := signals;
        NewsSoFar(existing, fill, i);
        if distinct {
          FillIteration(messages.limit, snapshot, fill, appends, i);
        }
        var inserted;
        inserted, lastMsg := FillOne(snapshot, existing, lastMsg, fill[i], appends[i]);
        AppendsNext(old(signals), was, signals, appends, i);
        anyInserted := anyInserted || inserted;
      }
      AllFilled(messages.limit, snapshot, fill, appends);
      assert appends[..|fill|] == appends;
      if anyInserted {
        signals := signals + [FilledIn(fill)];
      }
    }

    /** One iteration of the fill loop, after the concurrent appends `appended`. */
    method FillOne(snapshot: seq<Message>, existing: set<string>, lastMsg: Message, message: Message,
                   appended: seq<Message>) returns (inserted: bool, newLast: Message)
      requires Valid() && Appendable(appended)
      modifies this`signals, messages`buffer
      ensures Valid() && AppendsSince(old(signals), signals, appended) && inserted == (message.id !in existing)
      ensures var b := LastN(messages.limit, old(messages.buffer) + appended);
              messages.buffer == if inserted then LastN(messages.limit, Apply(b, FillOp(snapshot, lastMsg, message)))
                                 else b
      ensures newLast == if inserted && Anchor(snapshot, message) == |snapshot| then message else lastMsg
    {
      AppendConcurrently(appended);
      if message.id in existing {
        return false, lastMsg;
      }
      newLast := Place(snapshot, lastMsg, message);
      inserted := true;
    }

    /** Puts one message before the first later user message of the snapshot, or after `lastMsg`,
        which it then replaces as the end. */
    method Place(snapshot: seq<Message>, lastMsg: Message, message: Message) returns (newLast: Message)
      requires Valid()
      modifies messages`buffer
      ensures Valid()
      ensures messages.buffer
           == LastN(messages.limit, Apply(old(messages.buffer), FillOp(snapshot, lastMsg, message)))
      ensures newLast == if Anchor(snapshot, message) < |snapshot| then lastMsg else message
    {
      for j := 0 to |snapshot|
        invariant messages.buffer == old(messages.buffer) && j <= Anchor(snapshot, message)
      {
        if snapshot[j].isSystem {
          continue;
        }
        if message.receivedTime < snapshot[j].receivedTime {
          AnchorIsFirst(snapshot, message, j);
          var _ := messages.InsertBeforeItem(snapshot[j], message);
          return lastMsg;
        }
      }
      var _ := messages.InsertAfterItem(lastMsg, message);
      newLast := message;
    }

    /** The fill of an empty channel: everything goes to the front, before concurrent appends. */
    method FillEmpty(fill: seq<Message>, appends: seq<seq<Message>>)
      requires Valid() && messages.buffer == [] && fill != [] && |appends| == |fill|
      requires forall i :: 0 <= i < |appends| ==> Appendable(appends[i])
      modifies this`signals, messages`buffer
      ensures Valid()
      ensures messages.buffer == FillResult(messages.limit, [], fill, Concat(appends))
      ensures Missing([], fill) != [] && FilledOnce(old(signals), signals, Concat(appends), fill)
    {
      AppendConcurrently(appends[0]);
      assert [] + appends[0] == appends[0];
      var _ := messages.PushFrontItems(fill);
      if messages.limit == 0 {
        ConcatOfEmpty(appends[1..]);
      }
      ghost var was := signals;
      AppendConcurrently(Concat(appends[1..]));
      AppendsBoth(old(signals), was, signals, appends[0], Concat(appends[1..]));
      signals := signals + [FilledIn(fill)];
      FillOfEmpty(messages.limit, fill, appends);
    }

    method ReplaceMessage(message: Message, replacement: Message)
      requires Valid()
      modifies this`signals, messages`buffer
      ensures Valid()
      ensures messages.buffer == LastN(messages.limit, Apply(old(messages.buffer), Replace(message, replacement)))
      ensures signals == old(signals) + if message !in old(messages.buffer) then []
                         else [Replaced(IndexOf(old(messages.buffer), message), message, replacement)]
    {
      var index := messages.ReplaceItem(message, replacement);
      if index >= 0 {
        signals := signals + [Replaced(index, message, replacement)];
      }
    }

    /** The emitted index is the hint, not the index that was written. */
    method ReplaceMessageHinted(hint: nat, message: Message, replacement: Message)
      requires Valid()
      modifies this`signals, messages`buffer
      ensures Valid()
      ensures messages.buffer ==
              if message !in old(messages.buffer) then old(messages.buffer)
              else old(messages.buffer)[HintedIndex(old(messages.buffer), hint, message) := replacement]
      ensures signals == old(signals) + if message !in old(messages.buffer) then []
                                        else [Replaced(hint, message, replacement)]
    {
      var index := messages.ReplaceItemHinted(hint, message, replacement);
      if index >= 0 {
        signals := signals + [Replaced(hint, message, replacement)];
      }
    }

    method ClearMessages()
      requires Valid()
      modifies this`signals, messages`buffer
      ensures Valid() && messages.buffer == [] && signals == old(signals) + [ClearedAll]
    {
      messages.ClearAll();
      signals := signals + [ClearedAll];
    }

    /** The newest message with the id. */
    method FindMessageByID(id: string) returns (r: Option<Message>)
      requires Valid()
      ensures r.None? <==> forall m :: m in messages.buffer ==> m.id != id
      ensures r.Some? ==> exists i :: 0 <= i < |messages.buffer| && messages.buffer[i] == r.value && r.value.id == id
                                      && forall j :: i < j < |messages.buffer| ==> messages.buffer[j].id != id
    {
      r := messages.RFind((m: Message) => m.id == id);
    }
  }

  // ---- Steps of the fill loop ----

  lemma {:induction false} AppendsConcat(a: seq<Signal>, b: seq<Signal>, x: seq<Message>, y: seq<Message>)
    requires AppendsOf(a, x) && AppendsOf(b, y)
    ensures AppendsOf(a + b, x + y)
    decreases |a|
  {
    if x == [] {
      assert a + b == b && x + y == y;
    } else {
      var n := if a[0].RemovedFromStart? then 2 else 1;
      AppendsConcat(a[n..], b, x[1..], y);
      assert (a + b)[n..] == a[n..] + b && (x + y)[1..] == x[1..] + y;
    }
  }

  lemma AppendsBoth(before: seq<Signal>, was: seq<Signal>, now: seq<Signal>, x: seq<Message>, y: seq<Message>)
    requires AppendsSince(before, was, x) && AppendsSince(was, now, y)
    ensures AppendsSince(before, now, x + y)
  {
    AppendsConcat(was[|before|..], now[|was|..], x, y);
    assert now == was + now[|was|..];
    assert now[|before|..] == was[|before|..] + now[|was|..];
  }

  lemma {:induction false} RemovedConcat(a: seq<Signal>, b: seq<Signal>)
    ensures RemovedOf(a + b) == RemovedOf(a) + RemovedOf(b)
  {
    if a == [] {
      assert a + b == b;
    } else {
      RemovedConcat(a[1..], b);
      assert (a + b)[1..] == a[1..] + b && (a + b)[0] == a[0];
      ConcatAssociates(if a[0].RemovedFromStart? then [a[0].message] else [], RemovedOf(a[1..]), RemovedOf(b));
    }
  }

  lemma AppendsNext(before: seq<Signal>, was: seq<Signal>, now: seq<Signal>, appends: seq<seq<Message>>, i: nat)
    requires i < |appends| && AppendsSince(before, was, Concat(appends[..i])) && AppendsSince(was, now, appends[i])
    ensures AppendsSince(before, now, Concat(appends[..i + 1]))
  {
    AppendsBoth(before, was, now, Concat(appends[..i]), appends[i]);
    ConcatNext(appends, i);
  }

  /** One more append: its signals, and what it evicts. */
  lemma AppendStep(before: seq<Signal>, was: seq<Signal>, now: seq<Signal>, limit: nat, start: seq<Message>,
                   items: seq<Message>, i: nat, b: seq<Message>)
    requires i < |items| && |b| <= limit && 0 < limit && b == LastN(limit, start + items[..i])
    requires AppendsSince(before, was, items[..i]) && RemovedOf(was[|before|..]) + b == start + items[..i]
    requires now == was + (if |b| < limit then [] else [RemovedFromStart(b[0])]) + [Appended(items[i])]
    ensures AppendsSince(before, now, items[..i + 1])
    ensures LastN(limit, b + [items[i]]) == LastN(limit, start + items[..i + 1])
    ensures RemovedOf(now[|before|..]) + LastN(limit, b + [items[i]]) == start + items[..i + 1]
  {
    var m, added := items[i], now[|was|..];
    assert items[..i + 1] == items[..i] + [m];
    assert added == (if |b| < limit then [] else [RemovedFromStart(b[0])]) + [Appended(m)];
    AppendsOne(added, b, limit, m);
    AppendsBoth(before, was, now, items[..i], [m]);
    assert now[|before|..] == was[|before|..] + added;
    RemovedConcat(was[|before|..], added);
    LastNAppend(limit, start + items[..i], [m]);
    ConcatAssociates(start, items[..i], [m]);
    NothingLost(RemovedOf(was[|before|..]), b, limit, m, start + items[..i]);
  }

  lemma NothingLost(gone: seq<Message>, b: seq<Message>, limit: nat, m: Message, all: seq<Message>)
    requires |b| <= limit && 0 < limit && gone + b == all
    ensures (gone + if |b| < limit then [] else [b[0]]) + LastN(limit, b + [m]) == all + [m]
  {
    var first := if |b| < limit then [] else [b[0]];
    assert first + LastN(limit, b + [m]) == b + [m];
    ConcatAssociates(gone, first, LastN(limit, b + [m]));
    ConcatAssociates(gone, b, [m]);
  }

  lemma AppendsOne(added: seq<Signal>, b: seq<Message>, limit: nat, m: Message)
    requires |b| <= limit && 0 < limit
    requires added == (if |b| < limit then [] else [RemovedFromStart(b[0])]) + [Appended(m)]
    ensures AppendsOf(added, [m]) && RemovedOf(added) == if |b| < limit then [] else [b[0]]
  {
    assert [m][1..] == [] && [Appended(m)][1..] == [];
    if |b| < limit {
      assert added == [Appended(m)];
    } else {
      assert added == [RemovedFromStart(b[0]), Appended(m)];
      assert added[1..] == [Appended(m)] && added[2..] == [];
      assert RemovedOf([Appended(m)]) == [];
    }
  }

  lemma ConcatNext(appends: seq<seq<Message>>, i: nat)
    requires i < |appends|
    ensures Concat(appends[..i + 1]) == Concat(appends[..i]) + appends[i]
  {
    assert appends[..i + 1] == appends[..i] + [appends[i]];
    ConcatSplit(appends[..i], [appends[i]]);
    ConcatOne(appends[i]);
  }

  lemma {:induction false} ConcatOfEmpty(lists: seq<seq<Message>>)
    requires forall i :: 0 <= i < |lists| ==> lists[i] == []
    ensures Concat(lists) == []
  {
    if lists != [] {
      ConcatOfEmpty(lists[1..]);
    }
  }

  lemma IdsOneMore(s: seq<Message>, m: Message)
    ensures Ids(s + [m]) == Ids(s) + if m.isSystem || m.id == "" then {} else {m.id}
  {
    forall x
      ensures x in Ids(s + [m]) <==> x in Ids(s) + if m.isSystem || m.id == "" then {} else {m.id}
    {
      if x in Ids(s) {
        var y :| y in s && !y.isSystem && y.id != "" && y.id == x;
        assert y in s + [m];
      }
      if !m.isSystem && m.id == x && x != "" {
        assert m in s + [m];
      }
    }
  }

  lemma NewsSoFar(ids: set<string>, fill: seq<Message>, i: nat)
    requires i < |fill|
    ensures Without(ids, fill[..i + 1])
         == Without(ids, fill[..i]) + if fill[i].id in ids then [] else [fill[i]]
  {
    assert fill[..i + 1][..i] == fill[..i];
  }

  /** The snapshot with the first `i` fill messages in place. */
  function Woven(s: seq<Message>, fill: seq<Message>, i: nat): seq<Message>
    requires i <= |fill|
  {
    Weave(s, Without(Ids(s), fill[..i]))
  }

  /** The queue before iteration `i` of the fill loop. */
  function Filled(limit: nat, s: seq<Message>, fill: seq<Message>, appends: seq<seq<Message>>, i: nat): seq<Message>
    requires i <= |fill| == |appends|
  {
    LastN(limit, Woven(s, fill, i) + Concat(appends[..i]))
  }

  lemma NothingFilled(limit: nat, s: seq<Message>, fill: seq<Message>, appends: seq<seq<Message>>)
    requires |fill| == |appends| && |s| <= limit
    ensures Woven(s, fill, 0) == s && Filled(limit, s, fill, appends, 0) == s
  {
    WeaveNothing(s, 0);
    assert fill[..0] == [] && appends[..0] == [] && s[0..] == s && s + [] == s;
  }

  lemma AllFilled(limit: nat, s: seq<Message>, fill: seq<Message>, appends: seq<seq<Message>>)
    requires |fill| == |appends|
    ensures Without(Ids(s), fill[..|fill|]) == Missing(s, fill)
    ensures Filled(limit, s, fill, appends, |fill|) == FillResult(limit, s, fill, Concat(appends))
  {
    assert fill[..|fill|] == fill && appends[..|appends|] == appends;
  }

  /** One iteration: the concurrent appends, then nothing or one insertion. */
  lemma FillIteration(limit: nat, s: seq<Message>, fill: seq<Message>, appends: seq<seq<Message>>, i: nat)
    requires s != [] && i < |fill| == |appends|
    requires Distinct(s + Missing(s, fill) + Concat(appends)) && Woven(s, fill, i) != []
    ensures var b := LastN(limit, Filled(limit, s, fill, appends, i) + appends[i]);
            var n := Without(Ids(s), fill[..i]);
            var n' := Without(Ids(s), fill[..i + 1]);
            var last := Last(Woven(s, fill, i));
            if fill[i].id in Ids(s) then
              n' == n && b == Filled(limit, s, fill, appends, i + 1)
            else
              && n' == n + [fill[i]]
              && LastN(limit, Apply(b, FillOp(s, last, fill[i]))) == Filled(limit, s, fill, appends, i + 1)
              && Woven(s, fill, i + 1) != []
              && Last(Woven(s, fill, i + 1)) == if Anchor(s, fill[i]) < |s| then last else fill[i]
  {
    var w := Woven(s, fill, i);
    var n := Without(Ids(s), fill[..i]);
    AppendedSoFar(limit, w, appends, i);
    assert fill[..i + 1][..i] == fill[..i];
    if fill[i].id in Ids(s) {
      assert n + [] == n;
    } else {
      FillIsDistinct(s, fill, appends, i);
      FillStep(limit, s, n, Concat(appends[..i + 1]), fill[i]);
      FillApplies(s, n, Concat(appends[..i + 1]), fill[i]);
    }
  }

  lemma AppendedSoFar(limit: nat, w: seq<Message>, appends: seq<seq<Message>>, i: nat)
    requires i < |appends|
    ensures LastN(limit, LastN(limit, w + Concat(appends[..i])) + appends[i])
         == LastN(limit, w + Concat(appends[..i + 1]))
  {
    ConcatNext(appends, i);
    var u := w + Concat(appends[..i]);
    assert w + Concat(appends[..i + 1]) == u + appends[i];
    LastNAppend(limit, u, appends[i]);
  }

  lemma FillIsDistinct(s: seq<Message>, fill: seq<Message>, appends: seq<seq<Message>>, i: nat)
    requires i < |appends| == |fill|
    requires Distinct(s + Missing(s, fill) + Concat(appends))
    ensures Distinct(Woven(s, fill, i) + Concat(appends[..i + 1]))
  {
    var n := Without(Ids(s), fill[..i]);
    assert fill == fill[..i] + fill[i..] && appends == appends[..i + 1] + appends[i + 1..];
    WithoutSplit(Ids(s), fill[..i], fill[i..]);
    ConcatSplit(appends[..i + 1], appends[i + 1..]);
    WeaveConserves(s, n);
    DistinctPart(s + Missing(s, fill) + Concat(appends), Woven(s, fill, i) + Concat(appends[..i + 1]));
  }

  lemma {:induction false} WithoutNothing(fill: seq<Message>)
    ensures Without({}, fill) == fill
  {
    if fill != [] {
      WithoutNothing(fill[..|fill| - 1]);
    }
  }

  lemma {:induction false} AtOfEmpty(n: seq<Message>)
    ensures At([], n, 0) == n
  {
    if n != [] {
      AtOfEmpty(n[..|n| - 1]);
    }
  }

  lemma WeaveOfEmpty(fill: seq<Message>)
    ensures Missing([], fill) == fill && Weave([], fill) == fill
  {
    assert Ids([]) == {};
    WithoutNothing(fill);
    AtOfEmpty(fill);
    assert fill + [] == fill;
  }

  lemma FillOfEmpty(limit: nat, fill: seq<Message>, appends: seq<seq<Message>>)
    requires appends != []
    ensures Missing([], fill) == fill
    ensures LastN(limit, LastN(limit, fill + LastN(limit, appends[0])) + Concat(appends[1..]))
         == FillResult(limit, [], fill, Concat(appends))
  {
    WeaveOfEmpty(fill);
    LastNMiddle(limit, fill, appends[0], Concat(appends[1..]));
  }

  // ---- Main results about fills ----

  /** With an ascending fill list the queue is the end of the stable merge followed by the
      concurrent appends; the merge is ascending but for the system messages of the snapshot,
      and keeps the order of both lists. */
  lemma FillIsSortedMerge(limit: nat, s: seq<Message>, fill: seq<Message>, appended: seq<Message>)
    requires SortedByTime(fill) && Distinct(s + Missing(s, fill))
    ensures var n := Missing(s, fill);
            var system := set m | m in s && m.isSystem;
            var merged := Merge(s, n);
            && FillResult(limit, s, fill, appended) == LastN(limit, merged + appended)
            && multiset(merged) == multiset(s) + multiset(n)
            && Restrict(merged, set m | m in s) == s && Restrict(merged, set m | m in n) == n
            && (AscendingExcept(s, system) ==> AscendingExcept(merged, system))
            && forall m, i :: m in n && 0 <= i < |s| ==>
                 (InFront(merged, m, s[i]) <==>
                  exists j :: 0 <= j <= i && !s[j].isSystem && m.receivedTime < s[j].receivedTime)
  {
    var n := Missing(s, fill);
    var system := set m | m in s && m.isSystem;
    var merged := Merge(s, n);
    MissingSorted(Ids(s), fill);
    WeaveIsMerge(s, n);
    WeaveConserves(s, n);
    forall x, y | x in s && y in n
      ensures x != y
    {
      var i :| 0 <= i < |s| && s[i] == x;
      var j :| 0 <= j < |n| && n[j] == y;
      assert (s + n)[i] == x && (s + n)[|s| + j] == y;
    }
    MergeKeepsOrder(s, n, set m | m in s, set m | m in n);
    forall m, i | m in n && 0 <= i < |s|
      ensures InFront(merged, m, s[i]) <==>
              exists j :: 0 <= j <= i && !s[j].isSystem && m.receivedTime < s[j].receivedTime
    {
      WeavePlaces(s, n, m, i);
    }
    if AscendingExcept(s, system) {
      MergeAscends(s, n, system);
    }
  }

  lemma {:induction false} MissingSorted(ids: set<string>, fill: seq<Message>)
    requires SortedByTime(fill)
    ensures SortedByTime(Without(ids, fill))
  {
    if fill != [] {
      var last := |fill| - 1;
      MissingSorted(ids, fill[..last]);
      var rest := Without(ids, fill[..last]);
      forall i | 0 <= i < |rest|
        ensures rest[i].receivedTime <= fill[last].receivedTime
      {
        WithoutMember(ids, fill[..last], rest[i]);
        var k :| 0 <= k < last && fill[..last][k] == rest[i];
        assert fill[k].receivedTime <= fill[last].receivedTime;
      }
    }
  }

  /** A user message has the id. */
  ghost predicate Findable(s: seq<Message>, id: string) {
    exists x :: x in s && !x.isSystem && x.id == id != ""
  }

  /** Exactly the fill messages whose id no user message of the snapshot has are inserted. */
  lemma FillInsertsMissing(s: seq<Message>, fill: seq<Message>, m: Message)
    ensures m in Weave(s, Missing(s, fill)) <==>
            m in s || (m in fill && !Findable(s, m.id))
    ensures Findable(s, m.id) ==> multiset(Weave(s, Missing(s, fill)))[m] == multiset(s)[m]
  {
    var n := Missing(s, fill);
    WeaveConserves(s, n);
    WithoutMember(Ids(s), fill, m);
    assert m in multiset(Weave(s, n)) <==> m in multiset(s) || m in multiset(n);
  }

  lemma IdsOfPermutation(a: seq<Message>, b: seq<Message>)
    requires multiset(a) == multiset(b)
    ensures Ids(a) == Ids(b)
  {
    forall m
      ensures m in a <==> m in b
    {
      assert m in a <==> m in multiset(a);
      assert m in b <==> m in multiset(b);
    }
  }

  /** When everything fits, a second fill with the same list inserts nothing exactly if every
      message of the first fill left a findable id behind. */
  lemma SecondFill(limit: nat, s: seq<Message>, fill: seq<Message>, appended: seq<Message>)
    requires |s| + |Missing(s, fill)| + |appended| <= limit
    ensures var r := FillResult(limit, s, fill, appended);
            Missing(r, fill) == [] <==>
            forall m :: m in Missing(s, fill) ==> Findable(Missing(s, fill) + appended, m.id)
  {
    var n := Missing(s, fill);
    var r := FillResult(limit, s, fill, appended);
    WeaveConserves(s, n);
    assert |multiset(Weave(s, n))| == |s| + |n|;
    assert r == Weave(s, n) + appended;
    IdsOfPermutation(r, s + (n + appended));
    forall m
      ensures m in Missing(r, fill) <==> m in fill && m.id !in Ids(r)
      ensures m in n <==> m in fill && m.id !in Ids(s)
    {
      WithoutMember(Ids(r), fill, m);
      WithoutMember(Ids(s), fill, m);
    }
    assert forall m :: m in n ==> (m.id in Ids(n + appended) <==> Findable(n + appended, m.id));
    if Missing(r, fill) != [] {
      assert Missing(r, fill)[0] in n;
    }
  }

  /** The law for real messages: the second fill, under any appends, only appends. */
  lemma FillTwice(limit: nat, s: seq<Message>, fill: seq<Message>, first: seq<Message>, second: seq<Message>)
    requires |s| + |Missing(s, fill)| + |first| <= limit
    requires forall m :: m in fill ==> !m.isSystem && m.id != ""
    ensures var r := FillResult(limit, s, fill, first);
            Missing(r, fill) == [] && FillResult(limit, r, fill, second) == LastN(limit, r + second)
  {
    var n := Missing(s, fill);
    var r := FillResult(limit, s, fill, first);
    forall m | m in n
      ensures m.id in Ids(n + first)
    {
      WithoutMember(Ids(s), fill, m);
      assert m in n + first;
    }
    SecondFill(limit, s, fill, first);
    WeaveNothing(r, 0);
    assert r[0..] == r;
  }

  // ---- Hinted replacement ----

  /** The index in the signal of a hinted replacement is right exactly if the hint was. */
  lemma HintedSignalAccuracy(b: seq<Message>, hint: nat, m: Message)
    requires m in b
    ensures HintedIndex(b, hint, m) == hint <==> hint < |b| && b[hint] == m
    ensures Distinct(b) ==> HintedIndex(b, hint, m) == IndexOf(b, m)
  {
    if Distinct(b) && hint < |b| && b[hint] == m {
      IndexOfUnique(b, m, hint);
    }
  }
}
