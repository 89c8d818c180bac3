/**
 * What the link recogniser promises: parsed links tile their source, parsing a link again gives
 * the same link, and surrounding punctuation does not matter.
 */
module LinkTheorems {
  import opened CodeUnits
  import opened Collections
  import opened Ipv4
  import opened LinkParser

  // ---- Tiling ----

  predicate IsProtocol(t: Text) {
    t == [] || (StartsWithHttp(t) && ((|t| == 7 && StartsWithSlashes(t[4..]))
                                      || (|t| == 8 && IsLetter(t[4], 's', 'S') && StartsWithSlashes(t[5..]))))
  }

  lemma ProtocolShape(t: Text)
    ensures IsProtocol(t[..ProtocolLen(t)])
  {
    var n := ProtocolLen(t);
    var p := t[..n];
    if n == 7 {
      assert p[4..] == t[4..][..3];
    } else if n == 8 {
      assert p[5..] == t[5..][..3];
    }
  }

  predicate AllWithin(p: Parsed, s: Text) {
    Within(p.protocol, s) && Within(p.host, s) && Within(p.rest, s) && Within(p.link, s)
  }

  /** The segments make up the link, and prefix, link and suffix make up the source. */
  predicate Tiles(p: Parsed, s: Text) {
    && AllWithin(p, s)
    && Slice(s, p.protocol) + Slice(s, p.host) + Slice(s, p.rest) == Slice(s, p.link)
    && Slice(s, Prefix(p)) + Slice(s, p.link) + Slice(s, Suffix(p, s)) == s
    && AllPrefix(Slice(s, Prefix(p))) && AllSuffix(Slice(s, Suffix(p, s)))
    && (HasPrefix(p) <==> Slice(s, Prefix(p)) != []) && (HasSuffix(p, s) <==> Slice(s, Suffix(p, s)) != [])
  }

  lemma CutInFour<T>(s: seq<T>, a: nat, b: nat, c: nat, d: nat)
    requires a <= b <= c <= d <= |s|
    ensures s[a..b] + s[b..c] + s[c..d] == s[a..d]
    ensures s[0..a] + s[a..d] + s[d..|s|] == s
  {
  }

  lemma SegmentsTile(s: Text, v: View, hostLo: nat, restLo: nat, end: nat)
    requires v.lo <= hostLo <= restLo <= v.hi <= end <= |s| && Stripped(s, v.lo, v.hi)
    ensures Tiles(Segments(v.lo, hostLo, restLo, end), s)
  {
    CutInFour(s, v.lo, hostLo, restLo, end);
  }

  lemma ViewsTile(s: Text)
    ensures Tiles(ViewsOf(s), s)
  {
    StripStrips(s);
    SegmentsTile(s, Strip(s), HostStart(s), RestStart(s), End(s));
  }

  /** Every successful parse tiles the source. */
  lemma ParseTiles(r: Recognizer, s: Text)
    ensures Parse(r, s).Some? ==> Tiles(Parse(r, s).value, s)
  {
    ViewsTile(s);
  }

  /** A host has characters of a domain only, no empty label, and is a dotted quad or ends in a
      top level domain. */
  ghost predicate IsDomain(r: Recognizer, host: Text) {
    && host != [] && NoEmptyLabel(host) && host[|host| - 1] != DOT
    && (forall k :: 0 <= k < |host| ==> IsDomainChar(host[k]))
    && (IsDottedQuad(host) || r.isTld(host[LastDot(host) + 1..]))
  }

  lemma HostIsDomain(r: Recognizer, t: Text)
    requires Usable(r) && IsLink(r, t)
    ensures IsDomain(r, t[ProtocolLen(t)..][..HostLen(t[ProtocolLen(t)..])])
  {
    var body := t[ProtocolLen(t)..];
    var host := body[..HostLen(body)];
    assert LastDot(host) >= 0;
    if host[|host| - 1] == DOT {
      TrailingDotIsNoHost(r, host);
    }
  }

  lemma Parts<T>(s: seq<T>, lo: nat, hi: nat, n: nat, h: nat)
    requires lo + n + h <= hi <= |s|
    ensures s[lo..hi][..n] == s[lo..lo + n]
    ensures s[lo..hi][n..][..h] == s[lo + n..lo + n + h]
  {
    SubSlice(s, lo, hi, lo, lo + n);
    SubSlice(s, lo, hi, lo + n, hi);
    SubSlice(s, lo + n, hi, lo + n, lo + n + h);
  }

  lemma PartTexts(s: Text, t: Text, body: Text)
    requires t == Slice(s, Strip(s)) && body == t[ProtocolLen(t)..]
    ensures t[..ProtocolLen(t)] == s[Strip(s).lo..HostStart(s)]
    ensures body[..HostLen(body)] == s[HostStart(s)..RestStart(s)]
  {
    Parts(s, Strip(s).lo, Strip(s).hi, ProtocolLen(t), HostLen(body));
  }

  lemma SegmentTexts(s: Text, p: Parsed, t: Text)
    requires p == ViewsOf(s) && t == Slice(s, Strip(s))
    ensures AllWithin(p, s) && IsProtocol(Slice(s, p.protocol))
    ensures Slice(s, p.host) == t[ProtocolLen(t)..][..HostLen(t[ProtocolLen(t)..])]
  {
    var lo, hostLo, restLo := Strip(s).lo, HostStart(s), RestStart(s);
    StripStrips(s);
    SegmentsTile(s, Strip(s), hostLo, restLo, End(s));
    PartTexts(s, t, t[ProtocolLen(t)..]);
    ProtocolShape(t);
  }

  /** The segments of a parsed link are a protocol and a domain, whatever the rest. */
  lemma ParseSegments(r: Recognizer, s: Text)
    requires Usable(r)
    ensures Parse(r, s).Some? ==>
              var p := Parse(r, s).value;
              AllWithin(p, s) && IsProtocol(Slice(s, p.protocol)) && IsDomain(r, Slice(s, p.host))
  {
    if Parse(r, s).Some? {
      SegmentTexts(s, ViewsOf(s), Slice(s, Strip(s)));
      HostIsDomain(r, Slice(s, Strip(s)));
    }
  }

  /** The link ends at `hi` or after the last position of `u` that closes the outermost parenthesis. */
  ghost predicate EndsAtClose(u: Text, restLo: nat, hi: nat, end: nat)
    requires restLo <= end <= restLo + |u|
  {
    && (end == hi || ClosesAt(u, end - restLo))
    && forall k :: end - restLo < k <= |u| ==> !ClosesAt(u, k)
  }

  lemma LinkEndCloses(s: Text, restLo: nat, hi: nat)
    requires restLo < hi <= |s|
    ensures restLo <= LinkEnd(s, restLo, hi) <= |s|
    ensures EndsAtClose(s[restLo..], restLo, hi, LinkEnd(s, restLo, hi))
  {
    LastCloseIsLast(s[restLo..], |s| - restLo);
  }

  /** The link starts where the stripped text `v` does, and ends with it or, if there is a rest, after
      the last outermost closing parenthesis behind it. */
  ghost predicate EndsRight(p: Parsed, s: Text, v: View) {
    && p.link.lo == v.lo && v.hi <= p.link.hi <= |s|
    && AllSuffix(s[v.hi..p.link.hi])
    && (p.rest == EMPTY ==> p.link.hi == v.hi)
    && (p.rest != EMPTY ==> p.rest.lo <= p.link.hi == p.rest.hi
                            && EndsAtClose(s[p.rest.lo..], p.rest.lo, v.hi, p.link.hi))
  }

  /** Where a link ends: at the stripped end or after the last outermost closing parenthesis,
      whichever is later; only stripped suffix characters are taken back. */
  lemma ParseEnd(r: Recognizer, s: Text)
    ensures Parse(r, s).Some? ==> EndsRight(Parse(r, s).value, s, Strip(s))
  {
    StripStrips(s);
    if RestStart(s) < Strip(s).hi {
      LinkEndCloses(s, RestStart(s), Strip(s).hi);
    }
  }

  // ---- Nesting in prefixes and extensions ----

  lemma {:induction false} DepthAgrees(u: Text, w: Text, k: nat)
    requires k <= |u| && k <= |w| && u[..k] == w[..k]
    ensures Depth(u, k) == Depth(w, k)
  {
    if k > 0 {
      assert u[..k - 1] == u[..k][..k - 1] == w[..k - 1];
      assert u[k - 1] == u[..k][k - 1] == w[k - 1];
      DepthAgrees(u, w, k - 1);
    }
  }

  lemma {:induction false} LastCloseAgrees(u: Text, w: Text, n: nat)
    requires n <= |u| && n <= |w| && u[..n] == w[..n]
    ensures LastClose(u, n) == LastClose(w, n)
  {
    if n > 0 {
      assert u[..n - 1] == u[..n][..n - 1] == w[..n - 1];
      assert u[n - 1] == u[..n][n - 1] == w[n - 1];
      DepthAgrees(u, w, n - 1);
      LastCloseAgrees(u, w, n - 1);
    }
  }

  /** Cutting a rest at the end of its link does not move that end. */
  lemma LinkEndIsStable(s: Text, lo: nat, restLo: nat, hi: nat)
    requires lo <= restLo <= hi <= |s|
    ensures var end := LinkEnd(s, restLo, hi);
            end <= |s| && LinkEnd(s[lo..end], restLo - lo, hi - lo) == end - lo
  {
    var end := LinkEnd(s, restLo, hi);
    if restLo < hi {
      var u := s[restLo..];
      var cut := s[lo..end];
      var w := cut[restLo - lo..];
      var n := end - restLo;
      assert w == u[..n];
      LastCloseAgrees(u, w, n);
      if end > hi {
        LastCloseIsLast(u, |u|);
        assert ClosesAt(u, n);
      }
    }
  }

  // ---- Stability ----

  /** `p` in `s` and `q` in `link` have the same segments, and `q` is all of `link`. */
  predicate SameSegments(p: Parsed, s: Text, q: Parsed, link: Text) {
    && AllWithin(p, s) && AllWithin(q, link)
    && Slice(s, p.link) == link && q.link == View(0, |link|)
    && Slice(link, q.protocol) == Slice(s, p.protocol)
    && Slice(link, q.host) == Slice(s, p.host)
    && Slice(link, q.rest) == Slice(s, p.rest)
  }

  lemma StripOfLink(s: Text, v: View, end: nat)
    requires Stripped(s, v.lo, v.hi) && v.lo < v.hi <= end <= |s|
    ensures Strip(s[v.lo..end]) == View(0, v.hi - v.lo)
    ensures Slice(s[v.lo..end], View(0, v.hi - v.lo)) == Slice(s, v)
  {
    var link := s[v.lo..end];
    assert forall k :: 0 <= k < |link| ==> link[k] == s[v.lo + k];
    StripIs(link, 0, v.hi - v.lo);
    SubSlice(s, v.lo, end, v.lo, v.hi);
  }

  /** The positions in a link are those in its source, moved to the start of the link. */
  lemma PositionsOfLink(s: Text, link: Text)
    requires Strip(s).lo < Strip(s).hi && link == s[Strip(s).lo..End(s)]
    ensures Strip(link) == View(0, Strip(s).hi - Strip(s).lo)
    ensures Slice(link, Strip(link)) == Slice(s, Strip(s))
    ensures HostStart(link) == HostStart(s) - Strip(s).lo
    ensures RestStart(link) == RestStart(s) - Strip(s).lo
  {
    StripStrips(s);
    StripOfLink(s, Strip(s), End(s));
  }

  lemma EndOfLink(s: Text, link: Text)
    requires Strip(s).lo < Strip(s).hi && link == s[Strip(s).lo..End(s)]
    ensures End(link) == |link|
  {
    PositionsOfLink(s, link);
    EndIs(s, RestStart(s), Strip(s).hi);
    LinkEndIsStable(s, Strip(s).lo, RestStart(s), Strip(s).hi);
    EndIs(link, RestStart(s) - Strip(s).lo, Strip(s).hi - Strip(s).lo);
  }

  lemma SegmentsCorrespond(s: Text, lo: nat, hostLo: nat, restLo: nat, end: nat)
    requires lo <= hostLo <= restLo <= end <= |s|
    ensures SameSegments(Segments(lo, hostLo, restLo, end), s,
                         Segments(0, hostLo - lo, restLo - lo, end - lo), s[lo..end])
  {
    SubSlice(s, lo, end, lo, hostLo);
    SubSlice(s, lo, end, hostLo, restLo);
    SubSlice(s, lo, end, restLo, end);
  }

  lemma ViewsAreStable(s: Text, link: Text)
    requires Strip(s).lo < Strip(s).hi && link == s[Strip(s).lo..End(s)]
    ensures SameSegments(ViewsOf(s), s, ViewsOf(link), link)
    ensures Slice(link, Strip(link)) == Slice(s, Strip(s))
  {
    var lo, hostLo, restLo, end := Strip(s).lo, HostStart(s), RestStart(s), End(s);
    PositionsOfLink(s, link);
    EndOfLink(s, link);
    SegmentsCorrespond(s, lo, hostLo, restLo, end);
  }

  lemma StableWith(isLink: Text -> bool, s: Text)
    requires !isLink([]) && ParseWith(isLink, s).Some?
    ensures var p := ParseWith(isLink, s).value;
            && Within(p.link, s) && ParseWith(isLink, Slice(s, p.link)).Some?
            && SameSegments(p, s, ParseWith(isLink, Slice(s, p.link)).value, Slice(s, p.link))
  {
    var link := s[Strip(s).lo..End(s)];
    ViewsAreStable(s, link);
    assert Slice(s, ViewsOf(s).link) == link;
  }

  /** Parsing a recognised link again recognises all of it, with the same segments. */
  lemma ParseIsStable(r: Recognizer, s: Text)
    ensures Parse(r, s).Some? ==>
              var p := Parse(r, s).value;
              && Within(p.link, s) && Parse(r, Slice(s, p.link)).Some?
              && SameSegments(p, s, Parse(r, Slice(s, p.link)).value, Slice(s, p.link))
  {
    if Parse(r, s).Some? {
      StableWith(Accepts(r), s);
    }
  }

  // ---- Surrounding punctuation ----

  /** The number of closing parentheses. */
  function CountCloses(q: Text): nat {
    if q == [] then 0 else CountCloses(q[..|q| - 1]) + if q[|q| - 1] == ')' as int then 1 else 0
  }

  lemma {:induction false} ClosingTail(u: Text, q: Text)
    requires AllSuffix(q)
    ensures var d := Depth(u, |u|);
            var c := CountCloses(q);
            && Depth(u + q, |u + q|) == Max(0, d - c)
            && (d == 0 || c < d ==> LastClose(u + q, |u + q|) == LastClose(u, |u|))
            && (0 < d <= c ==> LastClose(u + q, |u + q|) > |u|)
  {
    var w := u + q;
    if q == [] {
      assert w == u;
    } else {
      var shorter := q[..|q| - 1];
      var w' := u + shorter;
      ClosingTail(u, shorter);
      assert w[..|w'|] == w' == w'[..|w'|];
      DepthAgrees(w, w', |w'|);
      LastCloseAgrees(w, w', |w'|);
      assert w[|w| - 1] == q[|q| - 1] && IsSuffixChar(q[|q| - 1]);
    }
  }

  /** `after` closes all the parentheses that are still open at the end of `u`. */
  predicate Completes(u: Text, after: Text) {
    0 < Depth(u, |u|) <= CountCloses(after)
  }

  lemma StripOfDecorated(s: Text, before: Text, after: Text)
    requires AllPrefix(before) && AllSuffix(after)
    ensures var v := Strip(s);
            var w := Strip(before + s + after);
            if v.lo == |s| then w.lo == w.hi else w == View(|before| + v.lo, |before| + v.hi)
  {
    var v := Strip(s);
    var all := before + s + after;
    var w := Strip(all);
    StripStrips(s);
    StripStrips(all);
    assert forall k :: 0 <= k < |s| ==> all[|before| + k] == s[k];
    assert forall k :: 0 <= k < |after| ==> all[|before| + |s| + k] == after[k];
    if v.lo == |s| {
      assert forall k :: 0 <= k < |before| + |s| ==> IsPrefixChar(all[k]);
      assert w.lo >= |before| + |s|;
      assert forall k :: w.lo <= k < |all| ==> IsSuffixChar(all[k]);
    } else {
      StripIs(all, |before| + v.lo, |before| + v.hi);
    }
  }

  lemma LinkEndOfDecorated(s: Text, before: Text, after: Text, restLo: nat, hi: nat)
    requires AllSuffix(after) && restLo <= hi <= |s|
    ensures LinkEnd(before + s + after, |before| + restLo, |before| + hi) == |before| + LinkEnd(s, restLo, hi) <==>
            restLo == hi || !Completes(s[restLo..], after)
  {
    var all := before + s + after;
    var u := s[restLo..];
    assert all[|before| + restLo..] == u + after;
    ClosingTail(u, after);
  }

  /** Decoration moves all positions but the end. */
  lemma PositionsOfDecorated(s: Text, before: Text, after: Text)
    requires AllPrefix(before) && AllSuffix(after) && Strip(s).lo < |s|
    ensures var all := before + s + after;
            && Strip(all) == View(|before| + Strip(s).lo, |before| + Strip(s).hi)
            && Slice(all, Strip(all)) == Slice(s, Strip(s))
            && HostStart(all) == |before| + HostStart(s) && RestStart(all) == |before| + RestStart(s)
  {
    StripOfDecorated(s, before, after);
    var all := before + s + after;
    assert Slice(all, Strip(all)) == Slice(s, Strip(s));
  }

  lemma EndOfDecorated(s: Text, before: Text, after: Text)
    requires AllPrefix(before) && AllSuffix(after) && Strip(s).lo < |s|
    ensures End(before + s + after) == |before| + End(s) <==>
            RestStart(s) == Strip(s).hi || !Completes(s[RestStart(s)..], after)
  {
    var restLo, hi := RestStart(s), Strip(s).hi;
    PositionsOfDecorated(s, before, after);
    EndIs(s, restLo, hi);
    EndIs(before + s + after, |before| + restLo, |before| + hi);
    LinkEndOfDecorated(s, before, after, restLo, hi);
  }

  lemma EndIs(s: Text, restLo: nat, hi: nat)
    requires RestStart(s) == restLo && Strip(s).hi == hi
    ensures End(s) == LinkEnd(s, restLo, hi)
  {
  }

  lemma IgnoredWith(isLink: Text -> bool, s: Text, before: Text, after: Text)
    requires AllPrefix(before) && AllSuffix(after) && !isLink([])
    ensures ParseWith(isLink, before + s + after).Some? <==> ParseWith(isLink, s).Some?
  {
    var all := before + s + after;
    StripOfDecorated(s, before, after);
    if Strip(s).lo == |s| {
      assert Slice(s, Strip(s)) == [] && Slice(all, Strip(all)) == [];
    } else {
      PositionsOfDecorated(s, before, after);
    }
  }

  /** Prefix characters before and suffix characters after a text neither make nor break a link. */
  lemma PunctuationIsIgnored(r: Recognizer, s: Text, before: Text, after: Text)
    requires AllPrefix(before) && AllSuffix(after)
    ensures Parse(r, before + s + after).Some? <==> Parse(r, s).Some?
  {
    IgnoredWith(Accepts(r), s, before, after);
  }

  /** `q` is `p` moved by `n`, up to the end of the link. */
  predicate Shifted(p: Parsed, q: Parsed, n: nat) {
    && q.link.lo == n + p.link.lo
    && q.host == View(n + p.host.lo, n + p.host.hi)
    && (q.protocol == EMPTY <==> p.protocol == EMPTY) && (q.rest == EMPTY <==> p.rest == EMPTY)
    && (p.rest != EMPTY ==> q.rest.lo == n + p.rest.lo)
  }

  /** The views of a text and of the same text in punctuation. */
  ghost predicate StaysOutside(p: Parsed, q: Parsed, s: Text, before: Text, after: Text) {
    && p.rest.lo <= |s| && Shifted(p, q, |before|)
    && (q.link.hi == |before| + p.link.hi <==> p.rest == EMPTY || !Completes(s[p.rest.lo..], after))
  }

  lemma SegmentsStayOutside(s: Text, before: Text, after: Text, p: Parsed, q: Parsed,
                            lo: nat, hostLo: nat, restLo: nat, hi: nat, end: nat, end': nat)
    requires lo <= hostLo < restLo <= hi <= end && |before| + hi <= end' && restLo <= |s|
    requires restLo == hi ==> end == hi && end' == |before| + hi
    requires end' == |before| + end <==> restLo == hi || !Completes(s[restLo..], after)
    requires p == Segments(lo, hostLo, restLo, end)
    requires q == Segments(|before| + lo, |before| + hostLo, |before| + restLo, end')
    ensures StaysOutside(p, q, s, before, after)
  {
  }

  lemma ViewsStayOutside(s: Text, before: Text, after: Text, all: Text, p: Parsed, q: Parsed)
    requires AllPrefix(before) && AllSuffix(after) && all == before + s + after
    requires p == ViewsOf(s) && q == ViewsOf(all)
    ensures Strip(s).lo < |s| && HostStart(s) < RestStart(s) ==> StaysOutside(p, q, s, before, after)
  {
    if Strip(s).lo < |s| && HostStart(s) < RestStart(s) {
      var lo, hi := Strip(s).lo, Strip(s).hi;
      PositionsOfDecorated(s, before, after);
      EndOfDecorated(s, before, after);
      SegmentsStayOutside(s, before, after, p, q, lo, HostStart(s), RestStart(s), hi, End(s), End(all));
    }
  }

  /** Surrounding punctuation leaves the views where they were, except that a closing parenthesis
      in it is taken in exactly when it closes one that is still open at the end of the text. */
  lemma PunctuationStaysOutside(r: Recognizer, s: Text, before: Text, after: Text)
    requires AllPrefix(before) && AllSuffix(after)
    ensures Parse(r, s).Some? ==>
              && Parse(r, before + s + after).Some?
              && StaysOutside(Parse(r, s).value, Parse(r, before + s + after).value, s, before, after)
  {
    if Parse(r, s).Some? {
      assert LastDot([]) == -1;
      PunctuationIsIgnored(r, s, before, after);
      ViewsStayOutside(s, before, after, before + s + after, ViewsOf(s), ViewsOf(before + s + after));
    }
  }
}
