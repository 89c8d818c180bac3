/**
 * Ports in recognised links: what src/common/LinkParser.cpp reads as a port, and when a path follows
 * it as src/common/LinkParser.hpp promises.
 */
module LinkPorts {
  import opened CodeUnits
  import opened Collections
  import opened Ipv4
  import opened LinkParser
  import opened LinkTheorems

  /** The number of digits at the beginning, from `i` on. */
  function DigitRun(r: Recognizer, t: Text, i: nat): (k: nat)
    requires i <= |t|
    ensures i <= k <= |t| && (k < |t| ==> !r.isDigit(t[k]))
    decreases |t| - i
  {
    if i < |t| && r.isDigit(t[i]) then DigitRun(r, t, i + 1) else i
  }

  lemma {:induction false} DigitRunIsRun(r: Recognizer, t: Text, i: nat)
    requires i <= |t|
    ensures forall j :: i <= j < DigitRun(r, t, i) ==> r.isDigit(t[j])
    decreases |t| - i
  {
    if i < |t| && r.isDigit(t[i]) {
      DigitRunIsRun(r, t, i + 1);
    }
  }

  /** What the header promises behind the colon: digits, and then the start of a path. */
  predicate PathAt(r: Recognizer, t: Text, k: nat) {
    1 <= k < |t| && IsPathStart(t[k]) && forall j :: 0 <= j < k ==> r.isDigit(t[j])
  }

  ghost predicate PathFollows(r: Recognizer, t: Text) {
    exists k: nat :: PathAt(r, t, k)
  }

  /** `QChar::isDigit` is false for the start of a path. */
  ghost predicate DigitsAreNoPaths(r: Recognizer) {
    forall c: Unit :: IsPathStart(c) ==> !r.isDigit(c)
  }

  lemma PathIsBehindDigits(r: Recognizer, t: Text)
    requires DigitsAreNoPaths(r)
    ensures var k := DigitRun(r, t, 0); PathFollows(r, t) <==> 1 <= k < |t| && IsPathStart(t[k])
  {
    var k := DigitRun(r, t, 0);
    DigitRunIsRun(r, t, 0);
    if 1 <= k < |t| && IsPathStart(t[k]) {
      assert PathAt(r, t, k);
    }
    if PathFollows(r, t) {
      var l: nat :| PathAt(r, t, l);
      assert l == k;
    }
  }

  /** What the scan accepts behind the colon: digits only, or at least five, or digits and a path. */
  lemma PortIsAccepted(r: Recognizer, t: Text)
    requires DigitsAreNoPaths(r)
    ensures var k := DigitRun(r, t, 0); IsPortStart(r, t) <==> k == |t| || k >= 5 || PathFollows(r, t)
  {
    var k := DigitRun(r, t, 0);
    DigitRunIsRun(r, t, 0);
    PathIsBehindDigits(r, t);
    if IsPortStart(r, t) {
      var l: nat :| PortEndsAt(r, t, l);
      assert l <= k;
    }
    if k == |t| || k >= 5 {
      assert PortEndsAt(r, t, Min(5, |t|));
    } else if PathFollows(r, t) {
      assert PortEndsAt(r, t, k);
    }
  }

  /** So an accepted port keeps the promise exactly if a path starts right behind its digits; if it does
      not, it has at least five of them or nothing behind them. */
  lemma PortKeepsPromise(r: Recognizer, t: Text)
    requires DigitsAreNoPaths(r) && IsPortStart(r, t)
    ensures var k := DigitRun(r, t, 0);
            && (PathFollows(r, t) <==> k < |t| && IsPathStart(t[k]))
            && (!PathFollows(r, t) ==> k == |t| || k >= 5)
  {
    PathIsBehindDigits(r, t);
    PortIsAccepted(r, t);
  }

  /** A port in `s[lo..hi]` that does not end with its colon has digits, whatever is behind `hi`. */
  lemma PortHasDigit(r: Recognizer, s: Text, lo: nat, hi: nat, end: nat)
    requires DigitsAreNoPaths(r) && lo < hi <= end <= |s|
    requires s[lo] == ':' as int && !IsSuffixChar(s[hi - 1]) && IsPortStart(r, s[lo + 1..hi])
    ensures DigitRun(r, s[lo + 1..end], 0) >= 1
  {
    var port := s[lo + 1..hi];
    PortIsAccepted(r, port);
    PathIsBehindDigits(r, port);
    assert port <= s[lo + 1..end];
  }

  lemma RestText(s: Text, t: Text, body: Text)
    requires t == Slice(s, Strip(s)) && body == t[ProtocolLen(t)..]
    ensures body[HostLen(body)..] == s[RestStart(s)..Strip(s).hi]
  {
    SubSlice(s, Strip(s).lo, Strip(s).hi, RestStart(s), Strip(s).hi);
    SubSlice(t, ProtocolLen(t), |t|, RestStart(s) - Strip(s).lo, |t|);
  }

  lemma RestIsPort(r: Recognizer, s: Text, lo: nat, hi: nat)
    requires lo < hi <= |s| && s[lo] == ':' as int && IsRest(r, s[lo..hi])
    ensures IsPortStart(r, s[lo + 1..hi])
  {
    assert s[lo..hi][1..] == s[lo + 1..hi];
  }

  /** The port of an accepted text, with what the extension of the link adds. */
  lemma AcceptedPortHasDigit(r: Recognizer, s: Text, t: Text, lo: nat, hi: nat)
    requires DigitsAreNoPaths(r) && t == Slice(s, Strip(s))
    requires lo == RestStart(s) < hi == Strip(s).hi && s[lo] == ':' as int
    ensures IsLink(r, t) ==> DigitRun(r, s[lo + 1..End(s)], 0) >= 1
  {
    if IsLink(r, t) {
      var body := t[ProtocolLen(t)..];
      RestText(s, t, body);
      RestIsPort(r, s, lo, hi);
      StripStrips(s);
      PortHasDigit(r, s, lo, hi, End(s));
    }
  }

  /** Behind the colon there is a digit, and the promise holds exactly if a path starts right behind the digits. */
  ghost predicate PromiseDecided(r: Recognizer, port: Text) {
    var k := DigitRun(r, port, 0);
    k >= 1 && (PathFollows(r, port) <==> k < |port| && IsPathStart(port[k]))
  }

  ghost predicate HasPort(p: Parsed, s: Text) {
    p.rest.lo < p.rest.hi <= |s| && s[p.rest.lo] == ':' as int
  }

  ghost predicate PortDecided(r: Recognizer, s: Text, p: Parsed) {
    HasPort(p, s) ==> PromiseDecided(r, s[p.rest.lo + 1..p.rest.hi])
  }

  lemma PromiseOfViews(r: Recognizer, s: Text, t: Text, p: Parsed)
    requires DigitsAreNoPaths(r) && t == Slice(s, Strip(s)) && p == ViewsOf(s)
    ensures IsLink(r, t) ==> PortDecided(r, s, p)
  {
    if IsLink(r, t) && HasPort(p, s) {
      AcceptedPortHasDigit(r, s, t, RestStart(s), Strip(s).hi);
      PathIsBehindDigits(r, s[p.rest.lo + 1..p.rest.hi]);
    }
  }

  /** The same for recognised links: their port has a digit, and keeps the promise exactly if a path
      starts right behind its digits. */
  lemma LinkPortKeepsPromise(r: Recognizer, s: Text)
    requires DigitsAreNoPaths(r)
    ensures Parse(r, s).Some? ==> PortDecided(r, s, Parse(r, s).value)
  {
    if Parse(r, s).Some? {
      PromiseOfViews(r, s, Slice(s, Strip(s)), ViewsOf(s));
    }
  }

  /** `a.b:12345x`, when `b` is a top level domain, is a link whose port no path follows. */
  lemma PortWithoutPath(r: Recognizer, s: Text)
    requires s == ['a' as int, '.' as int, 'b' as int, ':' as int,
                   '1' as int, '2' as int, '3' as int, '4' as int, '5' as int, 'x' as int]
    requires r.isTld(['b' as int]) && DigitsAreNoPaths(r)
    requires (forall k :: 4 <= k < 9 ==> r.isDigit(s[k])) && !r.isDigit('x' as int)
    ensures Parse(r, s).Some? && Parse(r, s).value.rest == View(3, 10) && !PathFollows(r, s[4..])
  {
    StripIs(s, 0, 10);
    assert s[0..] == s && s[0..10] == s && ProtocolLen(s) == 0;
    HostLenIs(s, 3);
    assert s[..3][2..] == ['b' as int];
    assert LastDot(s[..3][..2]) == 1;
    assert s[3..][1..] == s[4..];
    assert PortEndsAt(r, s[4..], 5);
    DigitRunIsRun(r, s[4..], 0);
    LastCloseIsLast(s[3..], 7);
    PathIsBehindDigits(r, s[4..]);
  }

}
