/**
 * The link recogniser of src/common/LinkParser.cpp and the views of src/common/LinkParser.hpp.
 * Views are ranges over the source text.
 */
module LinkParser {
  import opened CodeUnits
  import opened Collections
  import opened Ipv4

  /** What the scanner asks of its surroundings: the list of top level domains (compared without
      regard to case) and `QChar::isDigit`. */
  datatype Recognizer = Recognizer(isTld: Text -> bool, isDigit: Unit -> bool)

  /** The list of top level domains has no empty line. */
  predicate Usable(r: Recognizer) {
    !r.isTld([])
  }

  datatype View = View(lo: nat, hi: nat)

  datatype Parsed = Parsed(protocol: View, host: View, rest: View, link: View)

  predicate Within(v: View, s: Text) {
    v.lo <= v.hi <= |s|
  }

  function Slice(s: Text, v: View): Text
    requires Within(v, s)
  {
    s[v.lo..v.hi]
  }

  const EMPTY := View(0, 0)

  function Prefix(p: Parsed): View {
    View(0, p.link.lo)
  }

  function Suffix(p: Parsed, s: Text): View {
    View(p.link.hi, |s|)
  }

  predicate HasPrefix(p: Parsed) {
    p.link.lo != 0
  }

  predicate HasSuffix(p: Parsed, s: Text) {
    p.link.hi != |s|
  }

  // ---- Characters ----

  predicate IsPrefixChar(c: Unit) {
    c == '<' as int || c == '*' as int || c == '_' as int || c == '~' as int || c == '(' as int
  }

  predicate IsSuffixChar(c: Unit) {
    || c == '>' as int || c == '?' as int || c == '!' as int || c == '.' as int || c == ',' as int
    || c == ':' as int || c == '*' as int || c == '~' as int || c == ')' as int
  }

  predicate IsDomainChar(c: Unit) {
    || c >= 0x80 || '0' as int <= c <= '9' as int || 'A' as int <= c <= 'Z' as int
    || 'a' as int <= c <= 'z' as int || c == '_' as int || c == '-' as int || c == '.' as int
  }

  predicate IsPathStart(c: Unit) {
    c == '/' as int || c == '?' as int || c == '#' as int
  }

  predicate AllPrefix(s: Text) {
    forall k :: 0 <= k < |s| ==> IsPrefixChar(s[k])
  }

  predicate AllSuffix(s: Text) {
    forall k :: 0 <= k < |s| ==> IsSuffixChar(s[k])
  }

  // ---- Stripping ----

  /** `s[lo..hi]` is `s` without its leading prefix and trailing suffix characters. */
  ghost predicate Stripped(s: Text, lo: nat, hi: nat) {
    && lo <= hi <= |s|
    && (forall k :: 0 <= k < lo ==> IsPrefixChar(s[k]))
    && (lo < |s| ==> !IsPrefixChar(s[lo]))
    && (forall k :: hi <= k < |s| ==> IsSuffixChar(s[k]))
    && (lo < hi ==> !IsSuffixChar(s[hi - 1]))
  }

  lemma StrippedIsUnique(s: Text, lo: nat, hi: nat, lo': nat, hi': nat)
    requires Stripped(s, lo, hi) && Stripped(s, lo', hi')
    ensures lo == lo' && hi == hi'
  {
    assert lo < |s| ==> !IsPrefixChar(s[lo]);
    assert lo' < |s| ==> !IsPrefixChar(s[lo']);
  }

  function TrimStart(s: Text, lo: nat): (r: nat)
    requires lo <= |s|
    ensures lo <= r <= |s|
    decreases |s| - lo
  {
    if lo < |s| && IsPrefixChar(s[lo]) then TrimStart(s, lo + 1) else lo
  }

  function TrimEnd(s: Text, lo: nat, hi: nat): (r: nat)
    requires lo <= hi <= |s|
    ensures lo <= r <= hi
    decreases hi
  {
    if lo < hi && IsSuffixChar(s[hi - 1]) then TrimEnd(s, lo, hi - 1) else hi
  }

  function Strip(s: Text): (v: View)
    ensures Within(v, s)
  {
    var lo := TrimStart(s, 0);
    View(lo, TrimEnd(s, lo, |s|))
  }

  lemma {:induction false} TrimStartStops(s: Text, lo: nat)
    requires lo <= |s|
    ensures forall k :: lo <= k < TrimStart(s, lo) ==> IsPrefixChar(s[k])
    ensures TrimStart(s, lo) < |s| ==> !IsPrefixChar(s[TrimStart(s, lo)])
    decreases |s| - lo
  {
    if lo < |s| && IsPrefixChar(s[lo]) {
      TrimStartStops(s, lo + 1);
    }
  }

  lemma {:induction false} TrimEndStops(s: Text, lo: nat, hi: nat)
    requires lo <= hi <= |s|
    ensures forall k :: TrimEnd(s, lo, hi) <= k < hi ==> IsSuffixChar(s[k])
    ensures lo < TrimEnd(s, lo, hi) ==> !IsSuffixChar(s[TrimEnd(s, lo, hi) - 1])
    decreases hi
  {
    if lo < hi && IsSuffixChar(s[hi - 1]) {
      TrimEndStops(s, lo, hi - 1);
    }
  }

  lemma StripStrips(s: Text)
    ensures Stripped(s, Strip(s).lo, Strip(s).hi)
  {
    TrimStartStops(s, 0);
    TrimEndStops(s, TrimStart(s, 0), |s|);
  }

  /** Whatever is stripped is what `Strip` returns. */
  lemma StripIs(s: Text, lo: nat, hi: nat)
    requires Stripped(s, lo, hi)
    ensures Strip(s) == View(lo, hi)
  {
    StripStrips(s);
    StrippedIsUnique(s, lo, hi, Strip(s).lo, Strip(s).hi);
  }

  method StripView(source: Text) returns (v: View)
    ensures v == Strip(source)
  {
    v := View(0, |source|);
    while v.lo < v.hi
      invariant v.hi == |source| && v.lo <= v.hi
      invariant forall k :: 0 <= k < v.lo ==> IsPrefixChar(source[k])
    {
      var c := source[v.lo];
      if c == '<' as int || c == '*' as int || c == '_' as int || c == '~' as int || c == '(' as int {
        v := v.(lo := v.lo + 1);
        continue;
      }
      break;
    }
    while v.lo < v.hi
      invariant v.lo <= v.hi <= |source|
      invariant forall k :: 0 <= k < v.lo ==> IsPrefixChar(source[k])
      invariant v.lo < |source| ==> !IsPrefixChar(source[v.lo])
      invariant forall k :: v.hi <= k < |source| ==> IsSuffixChar(source[k])
    {
      var c := source[v.hi - 1];
      if c == '>' as int || c == '?' as int || c == '!' as int || c == '.' as int || c == ',' as int ||
         c == ':' as int || c == '*' as int || c == '~' as int || c == ')' as int {
        v := v.(hi := v.hi - 1);
        continue;
      }
      break;
    }
    StripIs(source, v.lo, v.hi);
  }

  // ---- Port ----

  /** At most five digits up to the end, the fifth position or a path character. */
  ghost predicate IsPortStart(r: Recognizer, t: Text) {
    exists k: nat :: PortEndsAt(r, t, k)
  }

  ghost predicate PortEndsAt(r: Recognizer, t: Text, k: nat) {
    && k <= Min(5, |t|)
    && (forall i :: 0 <= i < k ==> r.isDigit(t[i]))
    && (k == Min(5, |t|) || (k >= 1 && IsPathStart(t[k])))
  }

  method StartsWithPort(r: Recognizer, t: Text) returns (b: bool)
    ensures b <==> IsPortStart(r, t)
  {
    for i := 0 to Min(5, |t|)
      invariant forall j :: 0 <= j < i ==> r.isDigit(t[j])
      invariant forall j :: 1 <= j < i ==> !IsPathStart(t[j])
    {
      var c := t[i];
      if i >= 1 && (c == '/' as int || c == '?' as int || c == '#' as int) {
        assert PortEndsAt(r, t, i);
        return true;
      }
      if !r.isDigit(c) {
        forall k: nat
          ensures !PortEndsAt(r, t, k)
        {
        }
        return false;
      }
    }
    assert PortEndsAt(r, t, Min(5, |t|));
    b := true;
  }

  // ---- The structure of a stripped link ----

  predicate IsLetter(c: Unit, lower: char, upper: char) {
    c == lower as int || c == upper as int
  }

  predicate StartsWithHttp(t: Text) {
    && |t| >= 4 && IsLetter(t[0], 'h', 'H') && IsLetter(t[1], 't', 'T')
    && IsLetter(t[2], 't', 'T') && IsLetter(t[3], 'p', 'P')
  }

  predicate StartsWithSlashes(t: Text) {
    |t| >= 3 && t[0] == ':' as int && t[1] == '/' as int && t[2] == '/' as int
  }

  function ProtocolLen(t: Text): (n: nat)
    ensures n <= |t|
  {
    if !StartsWithHttp(t) || |t| < 8 then 0 else
      var n := if IsLetter(t[4], 's', 'S') then 5 else 4;
      if StartsWithSlashes(t[n..]) then n + 3 else 0
  }

  /** The number of leading domain characters. */
  function HostLen(body: Text): (h: nat)
    ensures h <= |body| && forall k :: 0 <= k < h ==> IsDomainChar(body[k])
    ensures h < |body| ==> !IsDomainChar(body[h])
  {
    if body == [] || !IsDomainChar(body[0]) then 0 else
      var h := 1 + HostLen(body[1..]);
      assert forall k :: 1 <= k < h ==> body[k] == body[1..][k - 1];
      h
  }

  lemma HostLenIs(body: Text, h: nat)
    requires h <= |body| && (forall k :: 0 <= k < h ==> IsDomainChar(body[k]))
    requires h < |body| ==> !IsDomainChar(body[h])
    ensures HostLen(body) == h
  {
  }

  predicate NoEmptyLabel(host: Text) {
    (host != [] ==> host[0] != DOT) && forall k :: 0 < k < |host| ==> !(host[k - 1] == DOT && host[k] == DOT)
  }

  function LastDot(t: Text): (d: int)
    ensures -1 <= d < |t| && (d >= 0 ==> t[d] == DOT)
    ensures forall k :: d < k < |t| ==> t[k] != DOT
  {
    if t == [] then -1
    else if t[|t| - 1] == DOT then |t| - 1
    else LastDot(t[..|t| - 1])
  }

  /** A dotted quad or a name with dots whose last label is a top level domain. */
  ghost predicate IsHost(r: Recognizer, host: Text) {
    && NoEmptyLabel(host) && LastDot(host) >= 0
    && ((CountDots(host) == 3 && IsDottedQuad(host)) || r.isTld(host[LastDot(host) + 1..]))
  }

  ghost predicate IsRest(r: Recognizer, rest: Text) {
    rest != [] ==> IsPathStart(rest[0]) || (rest[0] == ':' as int && IsPortStart(r, rest[1..]))
  }

  /** A stripped text is a link: the longest run of domain characters after the protocol is a
      host, and what follows it starts a path or a port. */
  ghost predicate IsLink(r: Recognizer, t: Text) {
    var body := t[ProtocolLen(t)..];
    var h := HostLen(body);
    IsHost(r, body[..h]) && IsRest(r, body[h..])
  }

  // ---- Parentheses ----

  /** The nesting level after the first `k` units; closing without an opening is ignored. */
  function Depth(u: Text, k: nat): nat
    requires k <= |u|
  {
    if k == 0 then 0 else
      var d := Depth(u, k - 1);
      if u[k - 1] == '(' as int then d + 1
      else if u[k - 1] == ')' as int && d > 0 then d - 1
      else d
  }

  /** How many more parentheses open than close from `j` to `k`. */
  function Opened(u: Text, j: nat, k: nat): int
    requires j <= k <= |u|
  {
    multiset(u[j..k])['(' as int] as int - multiset(u[j..k])[')' as int] as int
  }

  /** The nesting level is the largest number of parentheses that any end of the text opens. */
  lemma {:induction false} DepthIsLargest(u: Text, k: nat) returns (j: nat)
    requires k <= |u|
    ensures j <= k && Depth(u, k) == Opened(u, j, k)
    ensures forall i :: 0 <= i <= k ==> Opened(u, i, k) <= Depth(u, k)
  {
    if k == 0 {
      j := 0;
    } else {
      j := DepthIsLargest(u, k - 1);
      forall i | 0 <= i < k
        ensures Opened(u, i, k) == Opened(u, i, k - 1) + Opened(u, k - 1, k)
      {
        assert u[i..k] == u[i..k - 1] + u[k - 1..k];
      }
      assert u[k - 1..k] == [u[k - 1]] && u[k..k] == [];
      if u[k - 1] == ')' as int && Depth(u, k - 1) == 0 {
        j := k;
      }
    }
  }

  /** The unit before `k` closes the outermost parenthesis. */
  predicate ClosesAt(u: Text, k: nat)
    requires k <= |u|
  {
    k > 0 && u[k - 1] == ')' as int && Depth(u, k - 1) == 1
  }

  /** The last such position up to `n`, or 0. */
  function LastClose(u: Text, n: nat): (k: nat)
    requires n <= |u|
    ensures k <= n
  {
    if n == 0 || ClosesAt(u, n) then n else LastClose(u, n - 1)
  }

  lemma {:induction false} LastCloseIsLast(u: Text, n: nat)
    requires n <= |u|
    ensures LastClose(u, n) > 0 ==> ClosesAt(u, LastClose(u, n))
    ensures forall j :: LastClose(u, n) < j <= n ==> !ClosesAt(u, j)
  {
    if n > 0 && !ClosesAt(u, n) {
      LastCloseIsLast(u, n - 1);
    }
  }

  // ---- Parsing ----

  /** The end of the link: the stripped end, or just after the last outermost closing
      parenthesis between the start of the rest and the end of the source. */
  function LinkEnd(s: Text, restLo: nat, hi: nat): nat
    requires restLo <= hi <= |s|
  {
    if restLo == hi then hi else Max(hi, restLo + LastClose(s[restLo..], |s| - restLo))
  }

  function HostStart(s: Text): nat {
    Strip(s).lo + ProtocolLen(Slice(s, Strip(s)))
  }

  function RestStart(s: Text): (restLo: nat)
    ensures HostStart(s) <= restLo <= Strip(s).hi
  {
    var t := Slice(s, Strip(s));
    HostStart(s) + HostLen(t[ProtocolLen(t)..])
  }

  function End(s: Text): (end: nat)
    ensures Strip(s).hi <= end <= |s| && (RestStart(s) == Strip(s).hi ==> end == Strip(s).hi)
  {
    LinkEnd(s, RestStart(s), Strip(s).hi)
  }

  /** Segments that start at `lo`, `hostLo` and `restLo` in a link that ends at `end`; missing
      ones are empty views. */
  function Segments(lo: nat, hostLo: nat, restLo: nat, end: nat): Parsed {
    Parsed(if hostLo == lo then EMPTY else View(lo, hostLo), View(hostLo, restLo),
           if restLo == end then EMPTY else View(restLo, end), View(lo, end))
  }

  function ViewsOf(s: Text): Parsed {
    Segments(Strip(s).lo, HostStart(s), RestStart(s), End(s))
  }

  /** The views of `s` if `isLink` accepts its stripped text. */
  ghost function ParseWith(isLink: Text -> bool, s: Text): Option<Parsed> {
    if isLink(Slice(s, Strip(s))) then Some(ViewsOf(s)) else None
  }

  ghost function Accepts(r: Recognizer): Text -> bool {
    (t: Text) => IsLink(r, t)
  }

  ghost function Parse(r: Recognizer, s: Text): Option<Parsed> {
    ParseWith(Accepts(r), s)
  }

  lemma TrailingDotIsNoHost(r: Recognizer, host: Text)
    requires Usable(r) && host != [] && host[|host| - 1] == DOT
    ensures !IsHost(r, host)
  {
    DotsAreSections(host);
    assert LastDot(host) == |host| - 1;
    assert host[LastDot(host) + 1..] == [];
  }

  lemma EmptyLabelIsNoHost(r: Recognizer, body: Text, i: nat)
    requires i < |body| && body[i] == DOT && (i == 0 || body[i - 1] == DOT)
    requires forall k :: 0 <= k < i ==> IsDomainChar(body[k])
    ensures !IsHost(r, body[..HostLen(body)])
  {
    var h := HostLen(body);
    assert h > i;
    assert body[..h][i] == DOT && (i > 0 ==> body[..h][i - 1] == DOT);
  }

  /** What the host loop knows after `i` units of `body`. */
  ghost predicate HostSoFar(body: Text, i: nat, lastWasDot: bool, lastDotPos: int, nDots: nat) {
    && i <= |body| && (forall k :: 0 <= k < i ==> IsDomainChar(body[k]))
    && NoEmptyLabel(body[..i]) && lastDotPos == LastDot(body[..i]) && nDots == CountDots(body[..i])
    && (lastWasDot <==> i == 0 || body[i - 1] == DOT)
  }

  lemma HostSoFarStep(body: Text, i: nat, lastWasDot: bool, lastDotPos: int, nDots: nat)
    requires HostSoFar(body, i, lastWasDot, lastDotPos, nDots) && i < |body| && IsDomainChar(body[i])
    requires body[i] == DOT ==> !lastWasDot
    ensures HostSoFar(body, i + 1, body[i] == DOT, if body[i] == DOT then i else lastDotPos,
                      if body[i] == DOT then nDots + 1 else nDots)
  {
    assert body[..i + 1] == body[..i] + [body[i]];
  }

  /** The host of `remaining`: its length, last dot and number of dots; fails for malformed hosts
      and ports. */
  method ScanHost(r: Recognizer, remaining: Text) returns (ok: bool, h: nat, lastDotPos: int, nDots: nat)
    requires Usable(r)
    ensures ok ==> h == HostLen(remaining) && NoEmptyLabel(remaining[..h]) && IsRest(r, remaining[h..])
                   && lastDotPos == LastDot(remaining[..h]) >= 0 && nDots == CountDots(remaining[..h])
    ensures !ok ==> !IsHost(r, remaining[..HostLen(remaining)]) || !IsRest(r, remaining[HostLen(remaining)..])
  {
    h, lastDotPos, nDots := 0, -1, 0;
    var lastWasDot := true;
    while h < |remaining|
      invariant HostSoFar(remaining, h, lastWasDot, lastDotPos, nDots)
    {
      var currentChar := remaining[h];
      if currentChar == '.' as int && lastWasDot {
        EmptyLabelIsNoHost(r, remaining, h);
        return false, h, lastDotPos, nDots;
      }
      if IsDomainChar(currentChar) {
        HostSoFarStep(remaining, h, lastWasDot, lastDotPos, nDots);
      } else {
        HostLenIs(remaining, h);
      }
      if currentChar == '.' as int {
        lastDotPos := h;
        lastWasDot := true;
        nDots := nDots + 1;
      } else {
        lastWasDot := false;
      }
      if currentChar == ':' as int {
        assert remaining[h..][1..] == remaining[h + 1..];
        var port := StartsWithPort(r, remaining[h + 1..]);
        if !port {
          return false, h, lastDotPos, nDots;
        }
        break;
      }
      if currentChar == '/' as int || currentChar == '?' as int || currentChar == '#' as int {
        break;
      }
      if !IsDomainChar(currentChar) {
        return false, h, lastDotPos, nDots;
      }
      h := h + 1;
    }
    HostLenIs(remaining, h);
    if lastWasDot && h > 0 {
      TrailingDotIsNoHost(r, remaining[..h]);
    }
    ok := !(lastWasDot || lastDotPos <= 0);
  }

  /** The position after the last outermost closing parenthesis of the rest, extended to the end
      of the source, or `linkHi`. */
  method ScanParentheses(source: Text, restLo: nat, linkHi: nat) returns (lastClose: nat)
    requires restLo <= linkHi <= |source|
    ensures Max(linkHi, lastClose) == Max(linkHi, restLo + LastClose(source[restLo..], |source| - restLo))
    ensures lastClose <= |source|
  {
    ghost var u := source[restLo..];
    var nestingLevel := 0;
    lastClose := linkHi;
    for it := restLo to |source|
      invariant nestingLevel == Depth(u, it - restLo)
      invariant var k := LastClose(u, it - restLo); lastClose == if k == 0 then linkHi else restLo + k
    {
      assert source[it] == u[it - restLo];
      if source[it] == '(' as int {
        nestingLevel := nestingLevel + 1;
        continue;
      }
      if nestingLevel != 0 && source[it] == ')' as int {
        nestingLevel := nestingLevel - 1;
        if nestingLevel == 0 {
          lastClose := it + 1;
        }
      }
    }
  }

  /** The protocol of the stripped link `t`: its length. */
  method ScanProtocol(t: Text) returns (n: nat)
    ensures n == ProtocolLen(t)
  {
    n := 0;
    if StartsWithHttp(t) && |t| >= 4 + 3 + 1 {
      var withProto := 4;
      if t[withProto] == 's' as int || t[withProto] == 'S' as int {
        withProto := withProto + 1;
      }
      if StartsWithSlashes(t[withProto..]) {
        n := withProto + 3;
      }
    }
  }

  /** Extends the link and its rest over balanced parentheses among the stripped characters. */
  method Extend(source: Text, link: View, rest: View) returns (newLink: View, newRest: View)
    requires link.lo <= rest.lo < rest.hi == link.hi <= |source| || (rest == EMPTY && Within(link, source))
    ensures newLink == View(link.lo, if rest == EMPTY then link.hi else LinkEnd(source, rest.lo, link.hi))
    ensures newRest == if rest == EMPTY then EMPTY else View(rest.lo, newLink.hi)
  {
    newLink, newRest := link, rest;
    if link.hi != |source| && rest.lo != rest.hi {
      var lastClose := ScanParentheses(source, rest.lo, link.hi);
      newLink := View(link.lo, Max(link.hi, lastClose));
      newRest := View(rest.lo, Max(rest.hi, lastClose));
    }
  }

  /** The link and its segments for a stripped range, a protocol of `n` and a host of `h` units. */
  method Assemble(source: Text, link: View, n: nat, h: nat) returns (p: Parsed)
    requires link == Strip(source) && link.lo + n == HostStart(source) && link.lo + n + h == RestStart(source)
    ensures p == ViewsOf(source)
  {
    var protocol := if n == 0 then EMPTY else View(link.lo, link.lo + n);
    var host := View(link.lo + n, link.lo + n + h);
    var rest := if host.hi == link.hi then EMPTY else View(host.hi, link.hi);
    var longLink, longRest := Extend(source, link, rest);
    p := Parsed(protocol, host, longRest, longLink);
  }

  method ParseLink(r: Recognizer, source: Text) returns (result: Option<Parsed>)
    requires Usable(r)
    ensures result == Parse(r, source)
  {
    var link := StripView(source);
    var t := Slice(source, link);
    var n := ScanProtocol(t);
    var remaining := t[n..];
    var ok, h, lastDotPos, nDots := ScanHost(r, remaining);
    if !ok {
      return None;
    }
    var isQuad := false;
    if nDots == 3 {
      isQuad := IsValidIpv4(remaining[..h]);
    }
    var isHost := isQuad || r.isTld(remaining[..h][lastDotPos + 1..]);
    assert isHost <==> IsHost(r, remaining[..h]);
    if isHost {
      var p := Assemble(source, link, n, h);
      result := Some(p);
    } else {
      result := None;
    }
  }
}
