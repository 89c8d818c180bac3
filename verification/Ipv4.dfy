/** The IPv4 check of src/common/LinkParser.cpp. */
module Ipv4 {
  import opened CodeUnits

  newtype uint8 = x: int | 0 <= x < 0x100
  newtype uint16 = x: int | 0 <= x < 0x1_0000

  const DOT: Unit := '.' as int

  predicate IsDecimal(c: Unit) {
    '0' as int <= c <= '9' as int
  }

  // ---- What a dotted quad is ----

  /** The sections of `t` between its dots. */
  function Sections(t: Text): (r: seq<Text>)
    ensures |r| >= 1
  {
    if t == [] then [[]] else
      var r := Sections(t[..|t| - 1]);
      var c := t[|t| - 1];
      if c == DOT then r + [[]] else r[|r| - 1 := r[|r| - 1] + [c]]
  }

  function Joined(sections: seq<Text>): Text
    requires sections != []
  {
    var last := |sections| - 1;
    if last == 0 then sections[0] else Joined(sections[..last]) + [DOT] + sections[last]
  }

  /** Sections are the only way to cut a text at all its dots. */
  lemma {:induction false} SectionsSplit(t: Text)
    ensures Joined(Sections(t)) == t
    ensures forall s :: s in Sections(t) ==> DOT !in s
  {
    if t != [] {
      var r := Sections(t[..|t| - 1]);
      var last := |r| - 1;
      SectionsSplit(t[..|t| - 1]);
      assert t == t[..|t| - 1] + [t[|t| - 1]];
      if t[|t| - 1] == DOT {
        assert (r + [[]])[..|r|] == r;
      } else if last > 0 {
        assert r[last := r[last] + [t[|t| - 1]]][..last] == r[..last];
      }
    }
  }

  function DigitValue(c: Unit): nat
    requires IsDecimal(c)
  {
    c - '0' as int
  }

  function Value(digits: Text): nat
    requires forall c :: c in digits ==> IsDecimal(c)
  {
    if digits == [] then 0
    else
      assert digits[|digits| - 1] in digits && IsDecimal(digits[|digits| - 1]);
      10 * Value(digits[..|digits| - 1]) + DigitValue(digits[|digits| - 1])
  }

  predicate AllDecimal(t: Text) {
    forall c :: c in t ==> IsDecimal(c)
  }

  /** Up to three digits with a value of at most 255; leading zeros are fine. */
  predicate IsOctetPrefix(t: Text) {
    AllDecimal(t) && |t| <= 3 && Value(t) <= 255
  }

  predicate IsDottedQuad(t: Text) {
    var r := Sections(t);
    |r| == 4 && forall k :: 0 <= k < 4 ==> r[k] != [] && IsOctetPrefix(r[k])
  }

  // ---- Sections of a prefix ----

  lemma {:induction false} SectionsOfPrefix(t: Text, i: nat)
    requires i <= |t|
    ensures |Sections(t[..i])| <= |Sections(t)|
    ensures var last := |Sections(t[..i])| - 1;
            && (forall k :: 0 <= k < last ==> Sections(t)[k] == Sections(t[..i])[k])
            && Sections(t[..i])[last] <= Sections(t)[last]
    decreases |t| - i
  {
    if i < |t| {
      SectionsOfPrefix(t, i + 1);
      assert t[..i + 1][..i] == t[..i];
    } else {
      assert t[..i] == t;
    }
  }

  lemma SectionsStep(t: Text, i: nat)
    requires i < |t|
    ensures var r := Sections(t[..i]);
            Sections(t[..i + 1]) == if t[i] == DOT then r + [[]] else r[|r| - 1 := r[|r| - 1] + [t[i]]]
  {
    assert t[..i + 1][..i] == t[..i];
  }

  lemma {:induction false} OctetPrefixIsPrefixClosed(p: Text, t: Text)
    requires p <= t && IsOctetPrefix(t)
    ensures IsOctetPrefix(p)
    decreases |t|
  {
    if p != t {
      var shorter := t[..|t| - 1];
      assert forall c :: c in shorter ==> c in t;
      OctetPrefixIsPrefixClosed(p, shorter);
    }
  }

  /** What the scan has established about the first `i` units. */
  ghost predicate PrefixOk(t: Text, i: nat)
    requires i <= |t|
  {
    var r := Sections(t[..i]);
    |r| <= 4 && (forall k :: 0 <= k < |r| ==> IsOctetPrefix(r[k]))
    && forall k :: 0 <= k < |r| - 1 ==> r[k] != []
  }

  lemma QuadHasGoodPrefixes(t: Text, i: nat)
    requires i <= |t| && IsDottedQuad(t)
    ensures PrefixOk(t, i)
  {
    SectionsOfPrefix(t, i);
    var last := |Sections(t[..i])| - 1;
    OctetPrefixIsPrefixClosed(Sections(t[..i])[last], Sections(t)[last]);
  }

  lemma ValueStep(digits: Text, c: Unit)
    requires AllDecimal(digits) && IsDecimal(c)
    ensures AllDecimal(digits + [c]) && Value(digits + [c]) == 10 * Value(digits) + DigitValue(c)
  {
    assert (digits + [c])[..|digits|] == digits;
  }

  lemma OctetStep(digits: Text, c: Unit)
    requires IsOctetPrefix(digits)
    ensures IsOctetPrefix(digits + [c]) <==>
            IsDecimal(c) && 10 * Value(digits) + DigitValue(c) < 256 && |digits| < 3
  {
    if IsDecimal(c) {
      ValueStep(digits, c);
    } else {
      assert c in digits + [c];
    }
  }

  /** The section that the first `i` units end in. */
  function LastSection(t: Text, i: nat): Text
    requires i <= |t|
  {
    Sections(t[..i])[|Sections(t[..i])| - 1]
  }

  lemma PrefixStep(t: Text, i: nat)
    requires i < |t| && PrefixOk(t, i)
    ensures PrefixOk(t, i + 1) <==>
            if t[i] == DOT then LastSection(t, i) != [] && |Sections(t[..i])| < 4
            else IsOctetPrefix(LastSection(t, i) + [t[i]])
    ensures LastSection(t, i + 1) == if t[i] == DOT then [] else LastSection(t, i) + [t[i]]
    ensures |Sections(t[..i + 1])| == |Sections(t[..i])| + if t[i] == DOT then 1 else 0
  {
    SectionsStep(t, i);
    var r := Sections(t[..i]);
    var r' := Sections(t[..i + 1]);
    if t[i] == DOT {
      assert Value([]) == 0;
      assert r'[|r| - 1] == r[|r| - 1];
    } else {
      assert r'[|r| - 1] == r[|r| - 1] + [t[i]];
    }
  }

  /** Accepts exactly the dotted quads; the machine-sized counters do not overflow. */
  method IsValidIpv4(host: Text) returns (valid: bool)
    ensures valid <==> IsDottedQuad(host)
  {
    var sectionValue: uint16 := 0;
    var octetNumber: uint8 := 0;
    var sectionDigits: uint8 := 0;
    var lastWasDot := true;
    for i := 0 to |host|
      invariant PrefixOk(host, i) && octetNumber as int == |Sections(host[..i])| - 1
      invariant sectionDigits as int == |LastSection(host, i)|
      invariant sectionValue as int == Value(LastSection(host, i))
      invariant lastWasDot <==> LastSection(host, i) == []
    {
      ghost var section := LastSection(host, i);
      PrefixStep(host, i);
      if IsDottedQuad(host) {
        QuadHasGoodPrefixes(host, i + 1);
      }
      var current := host[i];
      if current == DOT {
        if lastWasDot || octetNumber == 3 {
          return false;
        }
        lastWasDot := true;
        octetNumber := octetNumber + 1;
        sectionValue := 0;
        sectionDigits := 0;
        continue;
      }
      lastWasDot := false;
      OctetStep(section, current);
      if current > '9' as int || current < '0' as int {
        return false;
      }
      ValueStep(section, current);
      sectionValue := sectionValue * 10 + (current - '0' as int) as uint16;
      sectionDigits := sectionDigits + 1;
      if sectionValue >= 256 || sectionDigits > 3 {
        return false;
      }
    }
    assert host[..|host|] == host;
    valid := octetNumber == 3 && !lastWasDot;
  }

  // ---- Consequences for the shape of a quad ----

  function CountDots(t: Text): nat {
    if t == [] then 0 else CountDots(t[..|t| - 1]) + if t[|t| - 1] == DOT then 1 else 0
  }

  lemma {:induction false} DotsAreSections(t: Text)
    ensures |Sections(t)| == CountDots(t) + 1
    ensures t != [] && t[|t| - 1] == DOT ==> Sections(t)[|Sections(t)| - 1] == []
  {
    if t != [] {
      DotsAreSections(t[..|t| - 1]);
    }
  }
}
