/**
 * Which texts src/common/LinkParser.cpp recognises as links: the converse of what LinkTheorems says about
 * the links it returns.
 */
module LinkAcceptance {
  import opened CodeUnits
  import opened Collections
  import opened Ipv4
  import opened LinkParser
  import opened LinkPorts
  import opened LinkTheorems

  // ---- Characters and protocols ----

  function Lower(c: char): char {
    if 'A' <= c <= 'Z' then c - 'A' + 'a' else c
  }

  /** The classes of characters, as the comments of the recogniser list them. */
  lemma CharacterClasses(c: Unit)
    ensures IsPrefixChar(c) <==> c < 0x80 && c as char in "<*_~("
    ensures IsSuffixChar(c) <==> c < 0x80 && c as char in ">?!.,:*~)"
    ensures IsPathStart(c) <==> c < 0x80 && c as char in "/?#"
    ensures IsDomainChar(c) <==>
            c >= 0x80 || c as char in "-_." || '0' <= c as char <= '9' || 'a' <= Lower(c as char) <= 'z'
  {
  }

  /** The text is `characters`, in any case. */
  predicate Says(t: Text, characters: string) {
    |t| == |characters| && forall k :: 0 <= k < |t| ==> t[k] < 0x80 && Lower(t[k] as char) == characters[k]
  }

  lemma ProtocolSays(t: Text)
    ensures IsProtocol(t) <==> t == [] || Says(t, "http://") || Says(t, "https://")
  {
  }

  /** Nothing, a path, or a colon and digits only, at least five digits, or digits and then a path. */
  ghost predicate IsRestText(r: Recognizer, rest: Text) {
    || rest == []
    || rest[0] == '/' as int || rest[0] == '?' as int || rest[0] == '#' as int
    || (rest[0] == ':' as int
        && var k := DigitRun(r, rest[1..], 0); k == |rest| - 1 || k >= 5 || PathFollows(r, rest[1..]))
  }

  /** A protocol or none, a domain with a dot, and such a rest. */
  ghost predicate AreParts(r: Recognizer, p: Text, h: Text, rest: Text) {
    IsProtocol(p) && IsDomain(r, h) && DOT in h && IsRestText(r, rest)
  }

  predicate IsBare(t: Text) {
    t != [] && !IsPrefixChar(t[0]) && !IsSuffixChar(t[|t| - 1])
  }

  lemma RestIsAccepted(r: Recognizer, rest: Text)
    requires DigitsAreNoPaths(r)
    ensures IsRest(r, rest) <==> IsRestText(r, rest)
  {
    if rest != [] {
      PortIsAccepted(r, rest[1..]);
    }
  }

  lemma HostIsAccepted(r: Recognizer, h: Text)
    requires IsDomain(r, h) && DOT in h
    ensures IsHost(r, h)
  {
    DotsAreSections(h);
  }

  /** The first `n` units of the body are those of a domain with a dot. */
  ghost predicate StartsWithDomain(body: Text, n: nat) {
    && n <= |body| && (forall k :: 0 <= k < n ==> IsDomainChar(body[k]))
    && exists i :: 0 <= i < n && body[i] == DOT
  }

  /** A domain has no colon. */
  lemma DomainIsNoProtocol(body: Text, n: nat)
    requires StartsWithDomain(body, n)
    ensures ProtocolLen(body) == 0
  {
    var i :| 0 <= i < n && body[i] == DOT;
  }

  lemma ProtocolIsFound(p: Text, body: Text, s: Text)
    requires IsProtocol(p) && p != [] && body != [] && s == p + body
    ensures ProtocolLen(s) == |p|
  {
    assert forall k :: 0 <= k < |p| ==> s[k] == p[k];
    if |p| == 7 {
      assert p[4..] == s[4..7] == s[4..][..3];
    } else {
      assert p[5..] == s[5..8] == s[5..][..3];
    }
  }

  lemma BareIsStripped(s: Text)
    requires IsBare(s)
    ensures Strip(s) == View(0, |s|) && Slice(s, Strip(s)) == s
  {
    StripIs(s, 0, |s|);
    assert s[0..|s|] == s;
  }

  lemma HostIsFound(r: Recognizer, h: Text, rest: Text, body: Text)
    requires IsDomain(r, h) && DOT in h && body == h + rest && (rest != [] ==> !IsDomainChar(rest[0]))
    ensures StartsWithDomain(body, |h|) && HostLen(body) == |h|
    ensures body[..|h|] == h && body[|h|..] == rest
  {
    var i :| 0 <= i < |h| && h[i] == DOT;
    assert body[i] == DOT;
    HostLenIs(body, |h|);
  }

  lemma PartsAreLink(r: Recognizer, p: Text, h: Text, rest: Text, body: Text, s: Text)
    requires DigitsAreNoPaths(r) && AreParts(r, p, h, rest) && body == h + rest && s == p + body
    ensures IsLink(r, s) && ProtocolLen(s) == |p| && HostLen(s[|p|..]) == |h|
  {
    HostIsFound(r, h, rest, body);
    assert s[|p|..] == body;
    if p == [] {
      DomainIsNoProtocol(body, |h|);
    } else {
      ProtocolIsFound(p, body, s);
    }
    HostIsAccepted(r, h);
    RestIsAccepted(r, rest);
  }

  lemma ViewsOfBare(s: Text, n: nat, m: nat)
    requires IsBare(s) && ProtocolLen(s) == n && HostLen(s[n..]) == m
    ensures ViewsOf(s) == Segments(0, n, n + m, |s|)
  {
    BareIsStripped(s);
  }

  /** Such a text is recognised, with exactly these segments. */
  lemma PartsAreRecognised(r: Recognizer, p: Text, h: Text, rest: Text, s: Text)
    requires DigitsAreNoPaths(r) && AreParts(r, p, h, rest) && s == p + (h + rest) && IsBare(s)
    ensures Parse(r, s) == Some(Segments(0, |p|, |p| + |h|, |s|))
  {
    PartsAreLink(r, p, h, rest, h + rest, s);
    BareIsStripped(s);
    ViewsOfBare(s, |p|, |h|);
  }

  // ---- Exactly these texts are links ----

  /** A bare text that is made of such parts. */
  ghost predicate IsLinkText(r: Recognizer, t: Text) {
    IsBare(t) && exists p, h, rest :: AreParts(r, p, h, rest) && t == p + (h + rest)
  }

  lemma LinkHasDomain(r: Recognizer, t: Text, body: Text, h: Text)
    requires Usable(r) && IsLink(r, t) && body == t[ProtocolLen(t)..] && h == body[..HostLen(body)]
    ensures IsDomain(r, h)
  {
    HostIsDomain(r, t);
  }

  lemma PartsAreLinkText(r: Recognizer, t: Text, p: Text, h: Text, rest: Text)
    requires DigitsAreNoPaths(r) && IsBare(t) && t == p + (h + rest)
    requires IsProtocol(p) && IsDomain(r, h) && IsHost(r, h) && IsRest(r, rest)
    ensures IsLinkText(r, t)
  {
    RestIsAccepted(r, rest);
    assert AreParts(r, p, h, rest);
  }

  lemma CutText(t: Text, p: Text, body: Text, h: Text, rest: Text, n: nat, m: nat)
    requires n <= |t| && p == t[..n] && body == t[n..] && m <= |body| && h == body[..m] && rest == body[m..]
    ensures t == p + (h + rest)
  {
    assert body == h + rest;
  }

  lemma LinkCut(r: Recognizer, t: Text, p: Text, body: Text, h: Text, rest: Text)
    requires Usable(r) && IsLink(r, t) && p == t[..ProtocolLen(t)] && body == t[ProtocolLen(t)..]
    requires h == body[..HostLen(body)] && rest == body[HostLen(body)..]
    ensures IsProtocol(p) && IsDomain(r, h) && IsHost(r, h) && IsRest(r, rest) && t == p + (h + rest)
  {
    LinkHasDomain(r, t, body, h);
    ProtocolShape(t);
    CutText(t, p, body, h, rest, ProtocolLen(t), HostLen(body));
  }

  lemma LinkIsLinkText(r: Recognizer, t: Text, p: Text, body: Text, h: Text, rest: Text)
    requires Usable(r) && DigitsAreNoPaths(r) && IsBare(t) && IsLink(r, t)
    requires p == t[..ProtocolLen(t)] && body == t[ProtocolLen(t)..]
    requires h == body[..HostLen(body)] && rest == body[HostLen(body)..]
    ensures IsLinkText(r, t)
  {
    LinkCut(r, t, p, body, h, rest);
    PartsAreLinkText(r, t, p, h, rest);
  }

  lemma LinkTextIsRecognised(r: Recognizer, t: Text)
    requires DigitsAreNoPaths(r) && IsLinkText(r, t)
    ensures Parse(r, t).Some?
  {
    var p, h, rest :| AreParts(r, p, h, rest) && t == p + (h + rest);
    PartsAreRecognised(r, p, h, rest, t);
  }

  /** The source is the link text in prefix and suffix characters. */
  ghost predicate Holds(r: Recognizer, s: Text, before: Text, t: Text, after: Text) {
    s == before + t + after && AllPrefix(before) && AllSuffix(after) && IsLinkText(r, t)
  }

  ghost predicate HoldsLink(r: Recognizer, s: Text) {
    exists before, t, after :: Holds(r, s, before, t, after)
  }

  lemma StrippedTiles(s: Text, v: View, t: Text)
    requires v == Strip(s) && t == Slice(s, v)
    ensures AllPrefix(s[..v.lo]) && AllSuffix(s[v.hi..]) && s == s[..v.lo] + t + s[v.hi..]
    ensures t != [] ==> IsBare(t)
  {
    StripStrips(s);
  }

  lemma TilesHold(r: Recognizer, s: Text, before: Text, t: Text, after: Text)
    requires Holds(r, s, before, t, after)
    ensures HoldsLink(r, s)
  {
  }

  lemma ParsedHolds(r: Recognizer, s: Text, v: View, t: Text)
    requires Usable(r) && DigitsAreNoPaths(r) && v == Strip(s) && t == Slice(s, v)
    ensures IsLink(r, t) ==> HoldsLink(r, s)
  {
    if IsLink(r, t) {
      StrippedTiles(s, v, t);
      var p, body := t[..ProtocolLen(t)], t[ProtocolLen(t)..];
      LinkIsLinkText(r, t, p, body, body[..HostLen(body)], body[HostLen(body)..]);
      TilesHold(r, s, s[..v.lo], t, s[v.hi..]);
    }
  }

  lemma HeldIsParsed(r: Recognizer, s: Text)
    requires DigitsAreNoPaths(r) && HoldsLink(r, s)
    ensures Parse(r, s).Some?
  {
    var before, t, after :| Holds(r, s, before, t, after);
    LinkTextIsRecognised(r, t);
    PunctuationIsIgnored(r, t, before, after);
  }

  /** A source holds a link exactly if it is a link text in prefix and suffix characters. */
  lemma RecognisedExactly(r: Recognizer, s: Text)
    requires Usable(r) && DigitsAreNoPaths(r)
    ensures Parse(r, s).Some? <==> HoldsLink(r, s)
  {
    ParsedHolds(r, s, Strip(s), Slice(s, Strip(s)));
    if HoldsLink(r, s) {
      HeldIsParsed(r, s);
    }
  }

  // ---- Dotted quads ----

  /** One to three digits that say at most 255. */
  predicate IsOctet(t: Text) {
    && 1 <= |t| <= 3 && (forall k :: 0 <= k < |t| ==> '0' as int <= t[k] <= '9' as int)
    && (|t| == 3 ==> 100 * (t[0] - '0' as int) + 10 * (t[1] - '0' as int) + (t[2] - '0' as int) <= 255)
  }

  lemma OctetIs(t: Text)
    ensures IsOctet(t) <==> t != [] && IsOctetPrefix(t)
  {
    if |t| <= 3 && AllDecimal(t) {
      assert |t| > 0 ==> t[0] in t;
      assert |t| > 1 ==> t[1] in t && t[..|t| - 1][0] == t[0];
      assert |t| > 2 ==> t[2] in t && t[..2][..1][0] == t[0] && t[..2][1] == t[1];
      assert |t| == 3 ==> Value(t) == 10 * Value(t[..2]) + DigitValue(t[2]);
      assert |t| >= 2 ==> Value(t[..2]) == 10 * Value(t[..2][..1]) + DigitValue(t[1]);
      assert |t| >= 1 ==> Value(t[..1]) == DigitValue(t[0]);
    }
  }

  lemma {:induction false} SectionsAppend(x: Text, y: Text)
    requires DOT !in y
    ensures Sections(x + [DOT] + y) == Sections(x) + [y]
  {
    var all := x + [DOT] + y;
    if y == [] {
      assert all[..|all| - 1] == x;
    } else {
      var shorter := y[..|y| - 1];
      SectionsAppend(x, shorter);
      assert all[..|all| - 1] == x + [DOT] + shorter;
      assert shorter + [y[|y| - 1]] == y;
    }
  }

  lemma {:induction false} OneSection(x: Text)
    requires DOT !in x
    ensures Sections(x) == [x]
  {
    if x != [] {
      OneSection(x[..|x| - 1]);
      assert x == x[..|x| - 1] + [x[|x| - 1]];
    }
  }

  lemma QuadIsValid(a: Text, b: Text, c: Text, d: Text, h: Text)
    requires IsOctet(a) && IsOctet(b) && IsOctet(c) && IsOctet(d)
    requires h == a + [DOT] + b + [DOT] + c + [DOT] + d
    ensures IsDottedQuad(h) && Sections(h) == [a, b, c, d]
  {
    OneSection(a);
    SectionsAppend(a, b);
    SectionsAppend(a + [DOT] + b, c);
    SectionsAppend(a + [DOT] + b + [DOT] + c, d);
    OctetIs(a);
    OctetIs(b);
    OctetIs(c);
    OctetIs(d);
  }

  lemma ValidIsQuad(h: Text)
    requires IsDottedQuad(h)
    ensures var o := Sections(h);
            && IsOctet(o[0]) && IsOctet(o[1]) && IsOctet(o[2]) && IsOctet(o[3])
            && h == o[0] + [DOT] + o[1] + [DOT] + o[2] + [DOT] + o[3]
  {
    var o := Sections(h);
    SectionsSplit(h);
    OctetIs(o[0]);
    OctetIs(o[1]);
    OctetIs(o[2]);
    OctetIs(o[3]);
    assert o[..3][..2] == o[..2] && o[..2][..1] == o[..1];
    assert Joined(o[..1]) == o[0] && Joined(o[..2]) == o[0] + [DOT] + o[1];
    assert Joined(o[..3]) == Joined(o[..2]) + [DOT] + o[2];
  }

  /** What the IPv4 check accepts: four octets with dots between them. */
  ghost predicate IsQuad(h: Text) {
    exists a, b, c, d :: IsOctet(a) && IsOctet(b) && IsOctet(c) && IsOctet(d)
                         && h == a + [DOT] + b + [DOT] + c + [DOT] + d
  }

  lemma QuadExactly(h: Text)
    ensures IsDottedQuad(h) <==> IsQuad(h)
  {
    if IsDottedQuad(h) {
      ValidIsQuad(h);
    }
    if IsQuad(h) {
      var a, b, c, d :| IsOctet(a) && IsOctet(b) && IsOctet(c) && IsOctet(d)
                        && h == a + [DOT] + b + [DOT] + c + [DOT] + d;
      QuadIsValid(a, b, c, d, h);
    }
  }

  lemma QuadIsDomain(r: Recognizer, h: Text)
    requires IsQuad(h)
    ensures IsDomain(r, h) && DOT in h
  {
    var a, b, c, d :| IsOctet(a) && IsOctet(b) && IsOctet(c) && IsOctet(d)
                      && h == a + [DOT] + b + [DOT] + c + [DOT] + d;
    QuadExactly(h);
    assert h[|a|] == DOT;
  }

  /** A quad is a host whatever the top level domains are. */
  lemma QuadIsRecognised(r: Recognizer, p: Text, h: Text, rest: Text, s: Text)
    requires DigitsAreNoPaths(r) && IsProtocol(p) && IsQuad(h) && IsRestText(r, rest)
    requires s == p + (h + rest) && IsBare(s)
    ensures Parse(r, s) == Some(Segments(0, |p|, |p| + |h|, |s|))
  {
    QuadIsDomain(r, h);
    PartsAreRecognised(r, p, h, rest, s);
  }
}
