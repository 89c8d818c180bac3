/**
 * The argument string that the crash handler gets (src/singletons/CrashHandler.cpp). The decoder,
 * crash-handler/src/CommandLine.cpp, is not part of this model: `Decode` is what the comment on the
 * encoder says, read from left to right.
 */
module ArgumentEncoding {
  import opened CodeUnits
  import opened Collections

  const PLUS: Unit := '+' as int

  /** Every plus doubled. */
  function Escape(arg: Text): Text {
    if |arg| == 0 then [] else (if arg[0] == PLUS then [PLUS, PLUS] else [arg[0]]) + Escape(arg[1..])
  }

  function Encode(args: seq<Text>): Text {
    if |args| == 0 then [] else
      var front := Encode(args[..|args| - 1]);
      (if |front| > 0 then front + [PLUS] else []) + Escape(args[|args| - 1])
  }

  method EncodeArguments(currentArguments: seq<Text>) returns (args: Text)
    ensures args == Encode(currentArguments)
  {
    args := [];
    for k := 0 to |currentArguments|
      invariant args == Encode(currentArguments[..k])
    {
      assert currentArguments[..k + 1][..k] == currentArguments[..k];
      if |args| > 0 {
        args := args + [PLUS];
      }
      args := args + Escape(currentArguments[k]);
    }
    assert currentArguments[..|currentArguments|] == currentArguments;
  }

  /** `u` in front of the first part. */
  function OnFirst(u: Unit, parts: seq<Text>): (r: seq<Text>)
    requires |parts| > 0
    ensures |r| == |parts|
  {
    [[u] + parts[0]] + parts[1..]
  }

  /** Two pluses are a plus, a single one separates. */
  function Split(s: Text): (parts: seq<Text>)
    ensures |parts| > 0
  {
    if |s| == 0 then [[]]
    else if s[0] != PLUS then OnFirst(s[0], Split(s[1..]))
    else if |s| > 1 && s[1] == PLUS then OnFirst(PLUS, Split(s[2..]))
    else [[]] + Split(s[1..])
  }

  function Decode(s: Text): seq<Text> {
    if |s| == 0 then [] else Split(s)
  }

  // ---- Which lists survive ----

  predicate StartsWithPlus(t: Text) {
    |t| > 0 && t[0] == PLUS
  }

  /** Behind the first argument none starts with a plus, and only the last one may be empty. */
  predicate TailIsPlain(args: seq<Text>) {
    forall k :: 1 <= k < |args| ==> !StartsWithPlus(args[k]) && (|args[k]| == 0 ==> k == |args| - 1)
  }

  predicate Survives(args: seq<Text>) {
    |args| == 0 || (|args[0]| > 0 && TailIsPlain(args))
  }

  /** The arguments from the first one on, each escaped, with a plus between them. */
  function Joined(args: seq<Text>): Text
    requires |args| > 0
  {
    if |args| == 1 then Escape(args[0]) else Escape(args[0]) + [PLUS] + Joined(args[1..])
  }

  lemma {:induction false} JoinedLast(args: seq<Text>)
    requires |args| > 1
    ensures Joined(args) == Joined(args[..|args| - 1]) + [PLUS] + Escape(args[|args| - 1])
  {
    var front := args[..|args| - 1];
    if |args| == 2 {
      assert args[1..] == [args[1]];
    } else {
      JoinedLast(args[1..]);
      assert args[1..][..|args| - 2] == front[1..];
      var head, mid, last := Escape(args[0]) + [PLUS], Joined(front[1..]), [PLUS] + Escape(args[|args| - 1]);
      assert Joined(front) == head + mid;
      assert Joined(args[1..]) == mid + last;
      assert head + (mid + last) == (head + mid) + last;
    }
  }

  lemma {:induction false} EncodeIsJoined(args: seq<Text>)
    requires |args| > 0 && |args[0]| > 0
    ensures Encode(args) == Joined(args) && |Encode(args)| > 0
  {
    if |args| == 1 {
      assert Encode(args[..0]) == [] && [] + Escape(args[0]) == Escape(args[0]);
    } else {
      EncodeIsJoined(args[..|args| - 1]);
      JoinedLast(args);
    }
  }

  /** `front` in front of the first part. */
  function OnFirstAll(front: Text, parts: seq<Text>): seq<Text>
    requires |parts| > 0
  {
    [front + parts[0]] + parts[1..]
  }

  lemma EscapeFirst(arg: Text, s: Text)
    requires |arg| > 0
    ensures Escape(arg) + s == (if arg[0] == PLUS then [PLUS, PLUS] else [arg[0]]) + (Escape(arg[1..]) + s)
  {
    ConcatAssociates(if arg[0] == PLUS then [PLUS, PLUS] else [arg[0]], Escape(arg[1..]), s);
  }

  /** An escaped argument in front of a text is read back in front of its first part. */
  lemma {:induction false} SplitEscaped(arg: Text, s: Text)
    ensures Split(Escape(arg) + s) == OnFirstAll(arg, Split(s))
  {
    if |arg| == 0 {
      assert Escape(arg) + s == s && arg + Split(s)[0] == Split(s)[0];
    } else {
      SplitEscaped(arg[1..], s);
      EscapeFirst(arg, s);
      assert [arg[0]] + (arg[1..] + Split(s)[0]) == ([arg[0]] + arg[1..]) + Split(s)[0];
      assert [arg[0]] + arg[1..] == arg;
    }
  }

  lemma SplitSeparator(arg: Text, rest: Text)
    requires !StartsWithPlus(rest)
    ensures Split(Escape(arg) + [PLUS] + rest) == [arg] + Split(rest)
  {
    assert ([PLUS] + rest)[1..] == rest;
    assert Split([PLUS] + rest) == [[]] + Split(rest);
    SplitEscaped(arg, [PLUS] + rest);
    assert Escape(arg) + [PLUS] + rest == Escape(arg) + ([PLUS] + rest);
    assert arg + [] == arg;
  }

  lemma {:induction false} SplitJoined(args: seq<Text>)
    requires |args| > 0 && TailIsPlain(args)
    ensures Split(Joined(args)) == args
  {
    if |args| == 1 {
      SplitEscaped(args[0], []);
      assert Escape(args[0]) + [] == Escape(args[0]) && args[0] + [] == args[0];
    } else {
      SplitJoined(args[1..]);
      SplitSeparator(args[0], Joined(args[1..]));
    }
  }

  /** What is split is plain behind its first part. */
  lemma {:induction false} SplitIsPlain(s: Text)
    ensures TailIsPlain(Split(s))
    ensures !StartsWithPlus(s) ==> !StartsWithPlus(Split(s)[0]) && (|Split(s)[0]| == 0 ==> |s| == 0 && |Split(s)| == 1)
  {
    if |s| > 0 {
      if s[0] != PLUS {
        SplitIsPlain(s[1..]);
      } else if |s| > 1 && s[1] == PLUS {
        SplitIsPlain(s[2..]);
      } else {
        SplitIsPlain(s[1..]);
      }
    }
  }

  /** An encoding does not begin with a separator. */
  lemma {:induction false} EncodeStart(args: seq<Text>)
    ensures var e := Encode(args); |e| > 0 ==> e[0] != PLUS || (|e| > 1 && e[1] == PLUS)
  {
    if |args| > 0 {
      EncodeStart(args[..|args| - 1]);
    }
  }

  /** The round trip gives back exactly the lists whose first argument is not empty and whose others
      do not start with a plus and are not empty, except the last. */
  lemma RoundTrip(args: seq<Text>)
    ensures Decode(Encode(args)) == args <==> Survives(args)
  {
    if |args| > 0 && Survives(args) {
      EncodeIsJoined(args);
      SplitJoined(args);
    }
    if |args| > 0 && Decode(Encode(args)) == args {
      EncodeStart(args);
      SplitIsPlain(Encode(args));
    }
  }

  /** So lists that survive have different encodings. */
  lemma EncodingIsInjective(x: seq<Text>, y: seq<Text>)
    requires Survives(x) && Survives(y) && Encode(x) == Encode(y)
    ensures x == y
  {
    RoundTrip(x);
    RoundTrip(y);
  }
}
