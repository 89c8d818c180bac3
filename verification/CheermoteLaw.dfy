/**
 * The prefixes with which every cheermote takes the remainder of its amount by the bits that are left
 * (src/messages/MessageBuilder.cpp, tryAppendCheermote).
 */
module CheermoteLaw {
  import opened Arithmetic
  import opened CodeUnits
  import opened Collections
  import opened Cheermotes

  const ONE: Text := [ZERO + 1]

  /** Every set has a tier for one bit, and none for less. */
  predicate BitsFromOne(sets: seq<CheerSet>) {
    forall k :: 0 <= k < |sets| ==> Offers(sets[k].tiers, 1) && !Offers(sets[k].tiers, 0)
  }

  /** Every amount that is recognised as written takes its remainder from every budget. */
  ghost predicate LawHolds(fold: Unit -> Unit, sets: seq<CheerSet>) {
    forall front: Text, v: nat, b: nat :: 0 < v <= MAX_INT && 0 < b && ReadsAs(fold, sets, front, v) ==>
      Takes(Try(fold, sets, false, b, false, front + Number(v)), b, Remainder(v, b))
  }

  // ---- The set that reads a token ----

  /** The set reads the token as some bits. */
  predicate Reads(fold: Unit -> Unit, cheers: CheerSet, token: Text) {
    var captured := Capture(fold, cheers.prefix, token);
    captured.Some? && ToInt(captured.value) > 0
  }

  /** The first set that reads the token reads it as `e`. */
  predicate IsReader(fold: Unit -> Unit, sets: seq<CheerSet>, k: nat, token: Text, e: Text) {
    && k < |sets| && Reads(fold, sets[k], token) && Capture(fold, sets[k].prefix, token) == Some(e)
    && forall l :: 0 <= l < k ==> !Reads(fold, sets[l], token)
  }

  lemma OffersFromOne(sets: seq<CheerSet>, k: nat, amount: nat)
    requires BitsFromOne(sets) && k < |sets|
    ensures Offers(sets[k].tiers, amount) <==> amount > 0
  {
    var t :| 0 <= t < |sets[k].tiers| && sets[k].tiers[t].minBits <= 1;
    assert amount > 0 ==> sets[k].tiers[t].minBits <= amount;
  }

  lemma TierFromOne(sets: seq<CheerSet>, k: nat, amount: nat)
    requires BitsFromOne(sets) && k < |sets|
    ensures TierFrom(sets[k].tiers, 0, amount).Some? <==> amount > 0
  {
    TierIsOffered(sets[k].tiers, 0, amount);
    OffersFromOne(sets, k, amount);
  }

  lemma FindStep(fold: Unit -> Unit, sets: seq<CheerSet>, i: nat, token: Text)
    requires BitsFromOne(sets) && i < |sets|
    ensures Reads(fold, sets[i], token) ==>
              FindFrom(fold, sets, i, token).Some? &&
              Capture(fold, sets[i].prefix, token) == Some(FindFrom(fold, sets, i, token).value.captured)
    ensures !Reads(fold, sets[i], token) ==> FindFrom(fold, sets, i, token) == FindFrom(fold, sets, i + 1, token)
  {
    var captured := Capture(fold, sets[i].prefix, token);
    if captured.Some? {
      TierFromOne(sets, i, ToInt(captured.value));
    }
  }

  lemma {:induction false} FoundBy(fold: Unit -> Unit, sets: seq<CheerSet>, i: nat, token: Text) returns (k: nat)
    requires BitsFromOne(sets) && i <= |sets| && FindFrom(fold, sets, i, token).Some?
    ensures i <= k < |sets| && Reads(fold, sets[k], token)
    ensures Capture(fold, sets[k].prefix, token) == Some(FindFrom(fold, sets, i, token).value.captured)
    ensures forall l :: i <= l < k ==> !Reads(fold, sets[l], token)
    decreases |sets| - i
  {
    FindStep(fold, sets, i, token);
    if Reads(fold, sets[i], token) {
      k := i;
    } else {
      k := FoundBy(fold, sets, i + 1, token);
    }
  }

  /** A recognised token is read by the first set that reads it. */
  lemma ReaderOf(fold: Unit -> Unit, sets: seq<CheerSet>, token: Text) returns (k: nat)
    requires BitsFromOne(sets) && Find(fold, sets, token).Some?
    ensures IsReader(fold, sets, k, token, Find(fold, sets, token).value.captured)
  {
    k := FoundBy(fold, sets, 0, token);
  }

  lemma ReadIsRecognised(fold: Unit -> Unit, sets: seq<CheerSet>, k: nat, token: Text)
    requires BitsFromOne(sets) && k < |sets| && Reads(fold, sets[k], token)
    ensures Find(fold, sets, token).Some?
  {
    OffersFromOne(sets, k, ToInt(Capture(fold, sets[k].prefix, token).value));
    ReadIsFound(fold, sets, 0, k, token);
  }

  lemma WholeIsRead(fold: Unit -> Unit, sets: seq<CheerSet>, j: nat, front: Text, w: nat)
    requires j < |sets| && Alike(fold, sets[j].prefix, front) && 0 < w <= MAX_INT
    ensures Capture(fold, sets[j].prefix, front + Number(w)) == Some(Number(w))
    ensures Reads(fold, sets[j], front + Number(w))
  {
    NumberRoundTrip(w);
    CaptureAlike(fold, sets[j].prefix, front, Number(w));
  }

  /** Behind a prefix, an amount is recognised, if not as what is written. */
  lemma AmountIsFound(fold: Unit -> Unit, sets: seq<CheerSet>, j: nat, front: Text, w: nat)
    requires BitsFromOne(sets) && j < |sets| && Alike(fold, sets[j].prefix, front) && 0 < w <= MAX_INT
    ensures Find(fold, sets, front + Number(w)).Some?
  {
    WholeIsRead(fold, sets, j, front, w);
    ReadIsRecognised(fold, sets, j, front + Number(w));
  }

  /** If the reader of `w` misreads it and also reads `more`, then `more` is misread, too: a set that
      reads it whole would read `w` whole. */
  lemma StaysMisread(fold: Unit -> Unit, sets: seq<CheerSet>, k: nat, front: Text, w: nat, e: Text, more: nat)
    requires BitsFromOne(sets) && 0 < w <= MAX_INT && 0 < more <= MAX_INT
    requires IsReader(fold, sets, k, front + Number(w), e) && e != Number(w)
    requires Reads(fold, sets[k], front + Number(more))
    ensures !ReadWhole(fold, sets, front, more)
  {
    ReadIsRecognised(fold, sets, k, front + Number(more));
    var l := ReaderOf(fold, sets, front + Number(more));
    if Capture(fold, sets[l].prefix, front + Number(more)) == Some(Number(more)) {
      WholeIsRead(fold, sets, l, front, w);
    }
  }

  // ---- What a set captures ----

  /** What is captured is the end of the token. */
  lemma CaptureIs(fold: Unit -> Unit, p: Text, token: Text, e: Text)
    requires Capture(fold, p, token) == Some(e)
    ensures |p| + |e| == |token| && IsNumeral(e) && token[|p|..] == e && Alike(fold, p, token[..|p|])
  {
    assert e == token[|p|..];
    assert forall k :: 0 <= k < |e| ==> e[k] == token[|p| + k];
  }

  lemma CaptureOf(fold: Unit -> Unit, p: Text, token: Text, e: Text)
    requires |p| <= |token| && Alike(fold, p, token[..|p|]) && token[|p|..] == e && IsNumeral(e)
    ensures Capture(fold, p, token) == Some(e)
  {
    CaptureAlike(fold, p, token[..|p|], e);
    assert token == token[..|p|] + e;
  }

  /** A set that reads less than the amount reads the end of it, behind some of its digits. */
  lemma ShortCapture(fold: Unit -> Unit, p: Text, front: Text, n: Text, e: Text)
    requires Capture(fold, p, front + n) == Some(e) && |e| < |n| && IsNumeral(n)
    ensures var d := n[..|n| - |e|]; IsNumeral(d) && IsNumeral(e) && n == d + e && Alike(fold, p, front + d)
  {
    CaptureIs(fold, p, front + n, e);
    assert (front + n)[..|p|] == front + n[..|n| - |e|];
    assert (front + n)[|p|..] == n[|n| - |e|..];
  }

  /** A set that reads more than the amount has a shorter prefix. */
  lemma LongCapture(fold: Unit -> Unit, p: Text, front: Text, n: Text, e: Text)
    requires Capture(fold, p, front + n) == Some(e) && |e| > |n|
    ensures |p| < |front| && e == front[|p|..] + n && IsNumeral(front[|p|..]) && Alike(fold, p, front[..|p|])
  {
    CaptureIs(fold, p, front + n, e);
    assert (front + n)[..|p|] == front[..|p|];
    assert (front + n)[|p|..] == front[|p|..] + n;
    assert forall k :: 0 <= k < |front[|p|..]| ==> front[|p|..][k] == e[k];
  }

  lemma SameCapture(fold: Unit -> Unit, p: Text, front: Text, n: Text, e: Text)
    requires Capture(fold, p, front + n) == Some(e) && |e| == |n|
    ensures e == n
  {
    CaptureIs(fold, p, front + n, e);
    assert (front + n)[|p|..] == n;
  }

  // ---- Numbers of several parts ----

  lemma {:induction false} ExtendParts(x: nat, d: Text, e: Text)
    ensures Extend(x, d + e) == Extend(Extend(x, d), e)
  {
    if |e| == 0 {
      assert d + e == d;
    } else {
      ExtendParts(x, d, e[..|e| - 1]);
      assert (d + e)[..|d + e| - 1] == d + e[..|e| - 1];
    }
  }

  lemma {:induction false} ExtendAtLeast(x: nat, e: Text)
    requires AllDigits(e) && |e| > 0
    ensures Extend(x, e) >= 10 * x && Extend(x, e) >= Extend(0, e)
    ensures Extend(0, e) > 0 ==> Extend(x, e) > 10 * x
  {
    if |e| > 1 {
      ExtendAtLeast(x, e[..|e| - 1]);
    } else {
      assert e[..0] == [];
    }
  }

  /** A number in two parts is more than either part says. */
  lemma PartsAreLess(d: Text, e: Text)
    requires IsNumeral(d) && IsNumeral(e)
    ensures Extend(0, d + e) > 10 * Extend(0, d) && Extend(0, d + e) > Extend(0, e)
    ensures Extend(0, d + ONE) == 10 * Extend(0, d) + 1 <= Extend(0, d + e)
  {
    NumberIsCanonical(d);
    NumberIsCanonical(e);
    ExtendParts(0, d, e);
    ExtendAtLeast(Extend(0, d), e);
    MoreInFront(Extend(0, d), e);
    assert (d + ONE)[..|d|] == d;
  }

  lemma {:induction false} MoreInFront(x: nat, e: Text)
    requires x > 0
    ensures Extend(x, e) > Extend(0, e)
  {
    if |e| > 0 {
      MoreInFront(x, e[..|e| - 1]);
    }
  }

  lemma ShortNumeral(d: Text)
    requires IsNumeral(d) && |d| <= 9
    ensures 0 < ToInt(d) < 1_000_000_000 && Number(ToInt(d)) == d
  {
    NumberIsCanonical(d);
    if Extend(0, d) >= 1_000_000_000 {
      NumberGrows(1_000_000_000, Extend(0, d));
    }
  }

  /** Amounts have at most ten digits; a longer numeral is beyond the int range. */
  lemma AmountLength(w: nat)
    requires w <= MAX_INT
    ensures |Number(w)| <= 10 && (w >= 1_000_000_000 ==> |Number(w)| == 10)
  {
    NumberGrows(w, MAX_INT);
    if w >= 1_000_000_000 {
      NumberGrows(1_000_000_000, w);
    }
  }

  lemma LongNumeral(d: Text)
    requires IsNumeral(d) && |d| > 10
    ensures ToInt(d) == 0
  {
    if Extend(0, d) <= MAX_INT {
      NumberIsCanonical(d);
      AmountLength(Extend(0, d));
    }
  }

  // ---- Two thousand million ----

  const ROUND: nat := 2_000_000_000

  /** A two with `k` zeros. */
  function Round(k: nat): nat {
    if k == 0 then 2 else 10 * Round(k - 1)
  }

  lemma {:induction false} RoundDigits(k: nat)
    ensures Round(k) > 0 && |Number(Round(k))| == k + 1
    ensures forall i :: 1 <= i <= k ==> Number(Round(k))[i] == ZERO
  {
    if k > 0 {
      RoundDigits(k - 1);
      assert Round(k) / 10 == Round(k - 1) && Round(k) % 10 == 0;
    }
  }

  lemma OnlyWhole(fold: Unit -> Unit, p: Text, front: Text, d: Text)
    requires Capture(fold, p, front + d).Some? && |d| > 0 && forall i :: 1 <= i < |d| ==> d[i] == ZERO
    ensures |p| <= |front| && |Capture(fold, p, front + d).value| == |d| + |front| - |p|
    ensures |p| == |front| ==> Capture(fold, p, front + d) == Some(d)
  {
    if |p| == |front| {
      assert (front + d)[|p|..] == d;
    }
  }

  /** Behind any prefix, two thousand million is recognised as that: behind a longer prefix only zeros
      are left, and behind a shorter one it is beyond the int range. */
  lemma RoundReadsAs(fold: Unit -> Unit, sets: seq<CheerSet>, front: Text, j: nat)
    requires BitsFromOne(sets) && j < |sets| && Alike(fold, sets[j].prefix, front)
    ensures ReadsAs(fold, sets, front, ROUND)
  {
    var d := Number(ROUND);
    RoundDigits(9);
    assert Round(3) == 2000 && Round(6) == 2_000_000 && Round(9) == ROUND;
    AmountIsFound(fold, sets, j, front, ROUND);
    var k := ReaderOf(fold, sets, front + d);
    OnlyWhole(fold, sets[k].prefix, front, d);
    if |sets[k].prefix| < |front| {
      LongNumeral(Capture(fold, sets[k].prefix, front + d).value);
    }
  }

  // ---- Small amounts that are misread ----

  lemma StepDown(fold: Unit -> Unit, sets: seq<CheerSet>, front: Text, v: nat, b: nat)
    requires 0 < b < v <= MAX_INT && ReadsAs(fold, sets, front, v)
    ensures Try(fold, sets, false, b, false, front + Number(v))
         == Try(fold, sets, false, b, false, front + Number(v - b))
  {
    TryStep(fold, sets, b, false, front, v);
  }

  /** The law for what is left after one rewriting. */
  lemma LawAfterStep(fold: Unit -> Unit, sets: seq<CheerSet>, front: Text, v: nat, b: nat)
    requires LawHolds(fold, sets) && 0 < b < v <= MAX_INT && ReadsAs(fold, sets, front, v)
    ensures Takes(Try(fold, sets, false, b, false, front + Number(v - b)), b, Remainder(v, b))
  {
    StepDown(fold, sets, front, v, b);
  }

  /** One rewriting of two thousand million leads to `w`. */
  lemma RoundLeadsTo(fold: Unit -> Unit, sets: seq<CheerSet>, front: Text, j: nat, w: nat)
    requires BitsFromOne(sets) && j < |sets| && Alike(fold, sets[j].prefix, front)
    requires LawHolds(fold, sets) && 0 < w <= ROUND - w
    ensures Takes(Try(fold, sets, false, ROUND - w, false, front + Number(w)), ROUND - w, w)
  {
    RoundReadsAs(fold, sets, front, j);
    var b: nat := ROUND - w;
    LawAfterStep(fold, sets, front, ROUND, b);
    assert Remainder(ROUND - b, b) == w && Remainder(ROUND, b) == w;
  }

  /** What is read as `u` within the budget takes that. */
  lemma TakesWhatIsRead(fold: Unit -> Unit, sets: seq<CheerSet>, b: nat, token: Text, w: nat)
    requires 0 < b && Find(fold, sets, token).Some? && ToInt(Find(fold, sets, token).value.captured) <= b
    requires Takes(Try(fold, sets, false, b, false, token), b, w)
    ensures ToInt(Find(fold, sets, token).value.captured) == w
  {
  }

  lemma WholeTakes(fold: Unit -> Unit, sets: seq<CheerSet>, b: nat, front: Text, u: nat, w: nat)
    requires 0 < u <= b && u <= MAX_INT && ReadsAs(fold, sets, front, u)
    requires Takes(Try(fold, sets, false, b, false, front + Number(u)), b, w)
    ensures u == w
  {
    NumberRoundTrip(u);
    TakesWhatIsRead(fold, sets, b, front + Number(u), w);
  }

  /** An amount that is read as less breaks the law. */
  lemma ShortBreaksLaw(fold: Unit -> Unit, sets: seq<CheerSet>, front: Text, j: nat, w: nat)
    requires BitsFromOne(sets) && j < |sets| && Alike(fold, sets[j].prefix, front)
    requires 0 < w <= 1_000_000_000 && Find(fold, sets, front + Number(w)).Some?
    requires |Find(fold, sets, front + Number(w)).value.captured| < |Number(w)|
    ensures !LawHolds(fold, sets)
  {
    if LawHolds(fold, sets) {
      var e := Find(fold, sets, front + Number(w)).value.captured;
      var k := ReaderOf(fold, sets, front + Number(w));
      NumberRoundTrip(w);
      ShortCapture(fold, sets[k].prefix, front, Number(w), e);
      PartsAreLess(Number(w)[..|Number(w)| - |e|], e);
      RoundLeadsTo(fold, sets, front, j, w);
      TakesWhatIsRead(fold, sets, ROUND - w, front + Number(w), w);
    }
  }

  /** A set that reads an amount together with the end of its prefix reads one bit that way. */
  lemma LongReadsOne(fold: Unit -> Unit, sets: seq<CheerSet>, k: nat, front: Text, w: nat, e: Text)
    requires BitsFromOne(sets) && 0 < w <= MAX_INT
    requires IsReader(fold, sets, k, front + Number(w), e) && |e| > |Number(w)|
    ensures !ReadWhole(fold, sets, front, 1)
  {
    var p := sets[k].prefix;
    NumberRoundTrip(w);
    LongCapture(fold, p, front, Number(w), e);
    var tail := front[|p|..];
    PartsAreLess(tail, Number(w));
    assert (front + ONE)[..|p|] == front[..|p|] && (front + ONE)[|p|..] == tail + ONE;
    assert IsNumeral(tail + ONE);
    CaptureOf(fold, p, front + ONE, tail + ONE);
    assert Number(1) == ONE;
    StaysMisread(fold, sets, k, front, w, e, 1);
  }

  lemma OneAndMore(fold: Unit -> Unit, p: Text, front: Text, e: Text)
    requires Capture(fold, p, front + ONE) == Some(e) && e != ONE
    ensures |p| < |front| && Alike(fold, p, front[..|p|]) && front + ONE == front[..|p|] + e
    ensures IsNumeral(e) && Extend(0, e) > 1 && Extend(0, e) % 10 == 1
  {
    CaptureIs(fold, p, front + ONE, e);
    if |e| == 1 {
      SameCapture(fold, p, front, ONE, e);
    }
    LongCapture(fold, p, front, ONE, e);
    PartsAreLess(front[|p|..], ONE);
    assert front == front[..|p|] + front[|p|..];
  }

  /** A bit that is misread is read as a longer amount behind a shorter prefix. */
  lemma MoreThanOne(fold: Unit -> Unit, sets: seq<CheerSet>, front: Text, e: Text) returns (k: nat, u: nat)
    requires BitsFromOne(sets) && Find(fold, sets, front + ONE).Some?
    requires Find(fold, sets, front + ONE).value.captured == e != ONE
    ensures k < |sets| && |sets[k].prefix| < |front|
    ensures var shorter := front[..|sets[k].prefix|];
            && Alike(fold, sets[k].prefix, shorter)
            && front + ONE == shorter + Number(u) && ReadsAs(fold, sets, shorter, u)
    ensures 1 < u <= MAX_INT && u % 10 == 1
  {
    k := ReaderOf(fold, sets, front + ONE);
    OneAndMore(fold, sets[k].prefix, front, e);
    NumberIsCanonical(e);
    u := Extend(0, e);
  }

  lemma LawForOne(fold: Unit -> Unit, sets: seq<CheerSet>, front: Text, j: nat, token: Text)
    requires BitsFromOne(sets) && j < |sets| && Alike(fold, sets[j].prefix, front)
    requires LawHolds(fold, sets) && token == front + ONE
    ensures Takes(Try(fold, sets, false, ROUND - 1, false, token), ROUND - 1, 1)
  {
    assert Number(1) == ONE;
    RoundLeadsTo(fold, sets, front, j, 1);
  }

  lemma OneIsBeyond(fold: Unit -> Unit, sets: seq<CheerSet>, front: Text, j: nat, shorter: Text, u: nat)
    requires BitsFromOne(sets) && j < |sets| && Alike(fold, sets[j].prefix, front)
    requires 1 < u <= MAX_INT && ReadsAs(fold, sets, shorter, u) && front + ONE == shorter + Number(u)
    ensures LawHolds(fold, sets) ==> u > ROUND - 1
  {
    if LawHolds(fold, sets) {
      LawForOne(fold, sets, front, j, shorter + Number(u));
      if u <= ROUND - 1 {
        WholeTakes(fold, sets, ROUND - 1, shorter, u, 1);
      }
    }
  }

  lemma OneLeavesRest(fold: Unit -> Unit, sets: seq<CheerSet>, front: Text, j: nat, shorter: Text, u: nat, rest: nat)
    requires BitsFromOne(sets) && j < |sets| && Alike(fold, sets[j].prefix, front)
    requires ReadsAs(fold, sets, shorter, u) && front + ONE == shorter + Number(u)
    requires ROUND - 1 < u <= MAX_INT && rest == u - (ROUND - 1) != 1
    ensures LawHolds(fold, sets) ==> !ReadsAs(fold, sets, shorter, rest)
  {
    if LawHolds(fold, sets) {
      LawForOne(fold, sets, front, j, shorter + Number(u));
      StepDown(fold, sets, shorter, u, ROUND - 1);
      if ReadsAs(fold, sets, shorter, rest) {
        WholeTakes(fold, sets, ROUND - 1, shorter, rest, 1);
      }
    }
  }

  /** One bit that is read as `u` behind a shorter prefix leaves a rest of `u` that is misread. */
  lemma MoreBreaksLaw(fold: Unit -> Unit, sets: seq<CheerSet>, front: Text, j: nat, k: nat, shorter: Text, u: nat)
    requires BitsFromOne(sets) && j < |sets| && Alike(fold, sets[j].prefix, front)
    requires k < |sets| && Alike(fold, sets[k].prefix, shorter) && |shorter| < |front|
    requires ReadsAs(fold, sets, shorter, u) && front + ONE == shorter + Number(u)
    requires 1 < u <= MAX_INT && u % 10 == 1
    ensures !LawHolds(fold, sets)
    decreases |front|, 0
  {
    if LawHolds(fold, sets) {
      OneIsBeyond(fold, sets, front, j, shorter, u);
      var rest := u - (ROUND - 1);
      OneLeavesRest(fold, sets, front, j, shorter, u, rest);
      AmountIsFound(fold, sets, k, shorter, rest);
      SmallBreaksLaw(fold, sets, shorter, k, rest);
    }
  }

  lemma OneBreaksLaw(fold: Unit -> Unit, sets: seq<CheerSet>, front: Text, j: nat)
    requires BitsFromOne(sets) && j < |sets| && Alike(fold, sets[j].prefix, front)
    requires !ReadWhole(fold, sets, front, 1)
    ensures !LawHolds(fold, sets)
    decreases |front|, 1
  {
    assert Number(1) == ONE;
    var k, u := MoreThanOne(fold, sets, front, Find(fold, sets, front + ONE).value.captured);
    MoreBreaksLaw(fold, sets, front, j, k, front[..|sets[k].prefix|], u);
  }

  /** A small amount that is misread breaks the law: with the budget that is one rewriting away from two
      thousand million, or behind a shorter prefix. */
  lemma SmallBreaksLaw(fold: Unit -> Unit, sets: seq<CheerSet>, front: Text, j: nat, w: nat)
    requires BitsFromOne(sets) && j < |sets| && Alike(fold, sets[j].prefix, front)
    requires 0 < w <= 1_000_000_000 && !ReadWhole(fold, sets, front, w)
    ensures !LawHolds(fold, sets)
    decreases |front|, 2
  {
    var e := Find(fold, sets, front + Number(w)).value.captured;
    var k := ReaderOf(fold, sets, front + Number(w));
    if |e| < |Number(w)| {
      ShortBreaksLaw(fold, sets, front, j, w);
    } else if |e| == |Number(w)| {
      SameCapture(fold, sets[k].prefix, front, Number(w), e);
    } else {
      LongReadsOne(fold, sets, k, front, w, e);
      OneBreaksLaw(fold, sets, front, j);
    }
  }

  // ---- Amounts of ten digits ----

  /** The set that reads the end of an amount behind the digits `d` reads the end of `d1`. */
  lemma ReadsOneBehind(fold: Unit -> Unit, p: Text, front: Text, d: Text, e: Text)
    requires Capture(fold, p, front + (d + e)) == Some(e) && IsNumeral(d)
    ensures Capture(fold, p, front + (d + ONE)) == Some(ONE)
  {
    assert front + (d + e) == (front + d) + e;
    CaptureAlike(fold, p, front + d, ONE);
    assert front + (d + ONE) == (front + d) + ONE;
  }

  /** While the law holds, only the last one of ten digits can be misread as the amount. */
  lemma OnlyLastDigit(fold: Unit -> Unit, sets: seq<CheerSet>, front: Text, j: nat, w: nat) returns (k: nat)
    requires BitsFromOne(sets) && j < |sets| && Alike(fold, sets[j].prefix, front)
    requires LawHolds(fold, sets) && 0 < w <= MAX_INT && !ReadWhole(fold, sets, front, w)
    ensures w > 1_000_000_000 && w % 10 > 0 && Number(w) == Number(w / 10) + [ZERO + w % 10]
    ensures IsReader(fold, sets, k, front + Number(w), [ZERO + w % 10])
    ensures Find(fold, sets, front + Number(w)).value.captured == [ZERO + w % 10]
  {
    if w <= 1_000_000_000 {
      SmallBreaksLaw(fold, sets, front, j, w);
    }
    var e := Find(fold, sets, front + Number(w)).value.captured;
    k := ReaderOf(fold, sets, front + Number(w));
    NumberRoundTrip(w);
    if |e| > |Number(w)| {
      LongReadsOne(fold, sets, k, front, w, e);
      OneBreaksLaw(fold, sets, front, j);
    } else if |e| == |Number(w)| {
      SameCapture(fold, sets[k].prefix, front, Number(w), e);
    } else {
      ShortCapture(fold, sets[k].prefix, front, Number(w), e);
      ShortIsLastDigit(fold, sets, front, j, w, k, Number(w)[..|Number(w)| - |e|], e);
    }
  }

  lemma ShortIsLastDigit(fold: Unit -> Unit, sets: seq<CheerSet>, front: Text, j: nat, w: nat,
                         k: nat, d: Text, e: Text)
    requires BitsFromOne(sets) && j < |sets| && Alike(fold, sets[j].prefix, front)
    requires LawHolds(fold, sets) && 0 < w <= MAX_INT && IsReader(fold, sets, k, front + Number(w), e)
    requires IsNumeral(d) && IsNumeral(e) && Number(w) == d + e
    ensures |e| == 1
  {
    if |e| > 1 {
      AmountLength(w);
      ReadsOneBehind(fold, sets[k].prefix, front, d, e);
      ShortNumeral(d + ONE);
      var more := ToInt(d + ONE);
      ShortNumeral(ONE);
      StaysMisread(fold, sets, k, front, w, e, more);
      SmallBreaksLaw(fold, sets, front, j, more);
    }
  }

  /** The step from ten times `d` plus `x` to a multiple of ten does not divide ten times `d`. */
  predicate Step(d: nat, m: nat, x: nat) {
    && 1 <= x <= 9 && 2 * x <= 10 * m && 10 * (d + m) <= MAX_INT && (10 * d) % (10 * m - x) != 0
  }

  /** Some step of at most 23 exists: ten times `d` is too small for all of 7, 8, 9, 11, 13, 17, 19 and 23
      to divide it. */
  lemma StepExists(d: nat) returns (m: nat, x: nat)
    requires 0 < d < MAX_INT / 10
    ensures Step(d, m, x)
  {
    var n := 10 * d;
    if n % 9 != 0 {
      m, x := 1, 1;
    } else if n % 8 != 0 {
      m, x := 1, 2;
    } else if n % 7 != 0 {
      m, x := 1, 3;
    } else {
      var k := n / 8 - n / 9;
      assert n == 72 * k;
      m, x := LargerStep(d, 4 * (n / 7) - 41 * k);
    }
  }

  lemma LargerStep(d: nat, k: int) returns (m: nat, x: nat)
    requires 0 < d < MAX_INT / 10 && 10 * d == 504 * k
    ensures Step(d, m, x)
  {
    var n := 10 * d;
    if n % 11 != 0 {
      m, x := 2, 9;
    } else if n % 13 != 0 {
      m, x := 2, 7;
    } else {
      var j := 5 * (n / 11) - 229 * k;
      assert n == 5544 * j;
      var i := 11 * (n / 13) - 4691 * j;
      assert n == 72072 * i;
      if n % 17 != 0 {
        m, x := 2, 3;
      } else if n % 19 != 0 {
        m, x := 2, 1;
      } else {
        m, x := 3, 7;
        var h := 2 * (n / 17) - 8479 * i;
        assert n == 1225224 * h;
        var g := 17 * (n / 19) - 1096253 * h;
        assert n == 23279256 * g;
        if n % 23 == 0 {
          assert n == 535422888 * (16 * (n / 23) - 16194265 * g);
        }
      }
    }
  }

  lemma Divides(a: nat, b: nat, x: nat, v: nat)
    requires 0 < x <= b && v == a + b + x - 1 && v % b == x - 1
    ensures a % b == 0
  {
    var q := v / b;
    assert v == q * b + x - 1;
    assert a == (q - 1) * b;
    ModUnique(a, b, q - 1, 0);
  }

  lemma StepMisses(d: nat, m: nat, x: nat)
    requires Step(d, m, x)
    ensures Remainder(10 * (d + m), 10 * m - x) != x
  {
    RemainderIsModulo(10 * (d + m), 10 * m - x);
    if Remainder(10 * (d + m), 10 * m - x) == x {
      Divides(10 * d, 10 * m - x, x, 10 * (d + m) - 1);
    }
  }

  lemma WrongStep(d: nat) returns (b: nat, x: nat, v: nat)
    requires 0 < d < MAX_INT / 10
    ensures 0 < x < 10 && x <= b < v <= MAX_INT && v - b == 10 * d + x && v % 10 == 0
    ensures Remainder(v, b) != x
  {
    var m;
    m, x := StepExists(d);
    StepMisses(d, m, x);
    b, v := 10 * m - x, 10 * (d + m);
  }

  /** The set that reads the last digit reads every other one there. */
  lemma ReadsOtherDigit(fold: Unit -> Unit, p: Text, front: Text, n: nat, x: nat, y: nat)
    requires 0 < n && 0 < x < 10 && 0 < y < 10
    requires Capture(fold, p, front + Number(10 * n + x)) == Some([ZERO + x])
    ensures Capture(fold, p, front + Number(10 * n + y)) == Some([ZERO + y])
  {
    var all, other := front + Number(10 * n + x), front + Number(10 * n + y);
    assert all == (front + Number(n)) + [ZERO + x] && other == (front + Number(n)) + [ZERO + y];
    CaptureAlike(fold, p, front + Number(n), [ZERO + y]);
  }

  lemma DigitIs(x: nat)
    requires 0 < x < 10
    ensures ToInt([ZERO + x]) == x && IsNumeral([ZERO + x]) && Number(x) == [ZERO + x]
  {
    NumberRoundTrip(x);
  }

  /** A multiple of ten is read whole while the law holds. */
  lemma TensAreWhole(fold: Unit -> Unit, sets: seq<CheerSet>, front: Text, j: nat, w: nat)
    requires BitsFromOne(sets) && j < |sets| && Alike(fold, sets[j].prefix, front)
    requires LawHolds(fold, sets) && 0 < w <= MAX_INT && w % 10 == 0
    ensures ReadsAs(fold, sets, front, w)
  {
    AmountIsFound(fold, sets, j, front, w);
    if !ReadWhole(fold, sets, front, w) {
      var k := OnlyLastDigit(fold, sets, front, j, w);
    }
  }

  /** One step down from a multiple of ten leads to an amount whose last digit is taken. */
  lemma StepBreaksLaw(fold: Unit -> Unit, sets: seq<CheerSet>, front: Text, b: nat, x: nat, v: nat, w: nat)
    requires 0 < x < 10 && x <= b && b < v <= MAX_INT && w == v - b && Remainder(v, b) != x
    requires ReadsAs(fold, sets, front, v)
    ensures var found := Find(fold, sets, front + Number(w));
            found.Some? && found.value.captured == [ZERO + x] ==> !LawHolds(fold, sets)
  {
    var found := Find(fold, sets, front + Number(w));
    if found.Some? && found.value.captured == [ZERO + x] && LawHolds(fold, sets) {
      LawAfterStep(fold, sets, front, v, b);
      DigitIs(x);
      TakesWhatIsRead(fold, sets, b, front + Number(w), Remainder(v, b));
    }
  }

  lemma DigitStaysMisread(fold: Unit -> Unit, sets: seq<CheerSet>, front: Text, k: nat, d: nat, y: nat, x: nat)
    requires BitsFromOne(sets) && 0 < d < MAX_INT / 10 && 0 < y < 10 && 0 < x < 10
    requires IsReader(fold, sets, k, front + Number(10 * d + y), [ZERO + y])
    ensures !ReadWhole(fold, sets, front, 10 * d + x)
  {
    ReadsOtherDigit(fold, sets[k].prefix, front, d, y, x);
    DigitIs(x);
    StaysMisread(fold, sets, k, front, 10 * d + y, [ZERO + y], 10 * d + x);
  }

  lemma DigitIsMisread(fold: Unit -> Unit, sets: seq<CheerSet>, front: Text, j: nat, w: nat, x: nat)
    requires BitsFromOne(sets) && j < |sets| && Alike(fold, sets[j].prefix, front) && LawHolds(fold, sets)
    requires 0 < w <= MAX_INT && w % 10 == x && !ReadWhole(fold, sets, front, w)
    ensures Find(fold, sets, front + Number(w)).Some?
    ensures Find(fold, sets, front + Number(w)).value.captured == [ZERO + x]
  {
    var k := OnlyLastDigit(fold, sets, front, j, w);
  }

  lemma StepIsWrong(fold: Unit -> Unit, sets: seq<CheerSet>, front: Text, j: nat, b: nat, x: nat, v: nat, w: nat)
    requires BitsFromOne(sets) && j < |sets| && Alike(fold, sets[j].prefix, front) && LawHolds(fold, sets)
    requires 0 < x <= b < v <= MAX_INT && w == v - b && Remainder(v, b) != x && v % 10 == 0 && w % 10 == x
    ensures ReadWhole(fold, sets, front, w)
  {
    if !ReadWhole(fold, sets, front, w) {
      TensAreWhole(fold, sets, front, j, v);
      DigitIsMisread(fold, sets, front, j, w, x);
      StepBreaksLaw(fold, sets, front, b, x, v, w);
    }
  }

  /** A set that reads the last digit of an amount breaks the law. */
  lemma DigitBreaksLaw(fold: Unit -> Unit, sets: seq<CheerSet>, front: Text, j: nat, k: nat, d: nat, y: nat)
    requires BitsFromOne(sets) && j < |sets| && Alike(fold, sets[j].prefix, front)
    requires 0 < d < MAX_INT / 10 && 0 < y < 10
    requires IsReader(fold, sets, k, front + Number(10 * d + y), [ZERO + y])
    ensures !LawHolds(fold, sets)
  {
    if LawHolds(fold, sets) {
      var b, x, v := WrongStep(d);
      DigitStaysMisread(fold, sets, front, k, d, y, x);
      StepIsWrong(fold, sets, front, j, b, x, v, 10 * d + x);
    }
  }

  /** Any amount up to 2147483640 that is misread behind a prefix breaks the law. */
  lemma MisreadBreaksLaw(fold: Unit -> Unit, sets: seq<CheerSet>, front: Text, j: nat, w: nat)
    requires BitsFromOne(sets) && j < |sets| && Alike(fold, sets[j].prefix, front)
    requires 0 < w <= MAX_INT / 10 * 10 && !ReadWhole(fold, sets, front, w)
    ensures !LawHolds(fold, sets)
  {
    if LawHolds(fold, sets) {
      var k := OnlyLastDigit(fold, sets, front, j, w);
      DigitBreaksLaw(fold, sets, front, j, k, w / 10, w % 10);
    }
  }

  // ---- Amounts that are read whole ----

  /** Behind every prefix, every amount up to 2147483640 is read as written. */
  ghost predicate ReadsAll(fold: Unit -> Unit, sets: seq<CheerSet>) {
    forall j, front: Text, w: nat ::
      0 <= j < |sets| && Alike(fold, sets[j].prefix, front) && 0 < w <= MAX_INT / 10 * 10 ==>
        ReadWhole(fold, sets, front, w)
  }

  /** A set that reads an end of an amount reads that end with another last digit, too. */
  lemma ReadsOtherEnd(fold: Unit -> Unit, p: Text, front: Text, start: Text, x: Unit, y: Unit, e: Text)
    requires Capture(fold, p, front + (start + [x])) == Some(e) && |e| <= |start| <= 9
    requires IsNumeral(start + [x]) && IsDigit(y) && y != ZERO
    ensures var captured := Capture(fold, p, front + (start + [y])); captured.Some? && ToInt(captured.value) > 0
  {
    var n := start + [x];
    ShortCapture(fold, p, front, n, e);
    var d, other := n[..|n| - |e|], e[..|e| - 1] + [y];
    assert front + (start + [y]) == (front + d) + other by {
      assert start == d + e[..|e| - 1];
    }
    assert IsNumeral(other);
    CaptureAlike(fold, p, front + d, other);
    ShortNumeral(other);
  }

  lemma AtMostNine(fold: Unit -> Unit, sets: seq<CheerSet>, k: nat, front: Text, w: nat, e: Text)
    requires ROUND <= w <= MAX_INT && IsReader(fold, sets, k, front + Number(w), e) && e != Number(w)
    ensures |e| <= 9 && |Number(w)| == 10
  {
    AmountLength(w);
    CaptureIs(fold, sets[k].prefix, front + Number(w), e);
    if |e| > 10 {
      LongNumeral(e);
    }
  }

  lemma ReaderReadsOther(fold: Unit -> Unit, p: Text, front: Text, d: nat, x: nat, y: nat, e: Text)
    requires 0 < d && 0 < x < 10 && 0 < y < 10 && |Number(d)| == 9
    requires Capture(fold, p, front + Number(10 * d + x)) == Some(e) && |e| <= 9
    ensures var captured := Capture(fold, p, front + Number(10 * d + y));
            captured.Some? && ToInt(captured.value) > 0
  {
    NumberRoundTrip(10 * d + x);
    ReadsOtherEnd(fold, p, front, Number(d), ZERO + x, ZERO + y, e);
  }

  /** Of the largest amounts, which differ in the last digit only, all are misread or none. */
  lemma LastAmountsAgree(fold: Unit -> Unit, sets: seq<CheerSet>, front: Text, d: nat, x: nat, y: nat)
    requires BitsFromOne(sets) && ROUND <= 10 * d && 0 < x < 10 && 0 < y < 10
    requires 10 * d + x <= MAX_INT && 10 * d + y <= MAX_INT && !ReadWhole(fold, sets, front, 10 * d + x)
    ensures !ReadWhole(fold, sets, front, 10 * d + y)
  {
    var w := 10 * d + x;
    var e := Find(fold, sets, front + Number(w)).value.captured;
    var k := ReaderOf(fold, sets, front + Number(w));
    AtMostNine(fold, sets, k, front, w, e);
    ReaderReadsOther(fold, sets[k].prefix, front, d, x, y, e);
    StaysMisread(fold, sets, k, front, w, e, 10 * d + y);
  }

  /** If all these are read as written, the law holds. */
  lemma ReadsAllHolds(fold: Unit -> Unit, sets: seq<CheerSet>)
    requires BitsFromOne(sets) && ReadsAll(fold, sets)
    ensures LawHolds(fold, sets)
  {
    forall front: Text, v: nat, b: nat | 0 < v <= MAX_INT && 0 < b && ReadsAs(fold, sets, front, v)
      ensures Takes(Try(fold, sets, false, b, false, front + Number(v)), b, Remainder(v, b))
    {
      WholeOnWay(fold, sets, front, v, b);
      ReadAlongTakes(fold, sets, b, false, front, v, Try(fold, sets, false, b, false, front + Number(v)));
    }
  }

  lemma WholeOnWay(fold: Unit -> Unit, sets: seq<CheerSet>, front: Text, v: nat, b: nat)
    requires BitsFromOne(sets) && ReadsAll(fold, sets)
    requires 0 < v <= MAX_INT && 0 < b && ReadsAs(fold, sets, front, v)
    ensures ReadAlong(fold, sets, front, v, b)
  {
    var j := FrontIsPrefix(fold, sets, front, Number(v));
    forall w: nat | OnWay(v, b, w)
      ensures ReadWhole(fold, sets, front, w)
    {
      WayGoesOn(v, b, w);
      if w > MAX_INT / 10 * 10 {
        WholeAtTop(fold, sets, front, v, w, MAX_INT / 10);
      }
    }
  }

  lemma WholeAtTop(fold: Unit -> Unit, sets: seq<CheerSet>, front: Text, v: nat, w: nat, d: nat)
    requires BitsFromOne(sets) && ReadsAs(fold, sets, front, v)
    requires d == MAX_INT / 10 && 10 * d < w <= v <= MAX_INT
    ensures ReadWhole(fold, sets, front, w)
  {
    if !ReadWhole(fold, sets, front, w) {
      LastAmountsAgree(fold, sets, front, d, w - 10 * d, v - 10 * d);
    }
  }

  // ---- The condition on the prefixes ----

  /** The longer prefix `j` is the shorter one `i` followed by a numeral: by less than a tenth of the largest
      int, or by just this tenth when no set with the longer prefix stands before `i`. */
  ghost predicate Collide(fold: Unit -> Unit, sets: seq<CheerSet>, i: nat, j: nat, d: Text)
    requires i < |sets| && j < |sets|
  {
    && IsNumeral(d) && Alike(fold, sets[j].prefix, sets[i].prefix + d)
    && (Extend(0, d) < MAX_INT / 10 ||
        (Extend(0, d) == MAX_INT / 10 && forall k :: 0 <= k < i ==> !Alike(fold, sets[k].prefix, sets[j].prefix)))
  }

  ghost predicate Apart(fold: Unit -> Unit, sets: seq<CheerSet>) {
    forall i, j, d: Text :: 0 <= i < |sets| && 0 <= j < |sets| ==> !Collide(fold, sets, i, j, d)
  }

  /** Separate prefixes, of which none is another one followed by a numeral, do not collide. */
  lemma SeparateIsApart(fold: Unit -> Unit, sets: seq<CheerSet>)
    requires Separate(fold, sets)
    ensures Apart(fold, sets)
  {
    forall i, j, d: Text | 0 <= i < |sets| && 0 <= j < |sets|
      ensures !Collide(fold, sets, i, j, d)
    {
      assert !Extends(fold, sets[j].prefix, sets[i].prefix);
    }
  }

  lemma AlikeBehind(fold: Unit -> Unit, p: Text, q: Text, front: Text, d: Text)
    requires Alike(fold, p, front + d) && Alike(fold, q, front)
    ensures Alike(fold, p, q + d)
  {
    assert forall k :: 0 <= k < |p| ==> (q + d)[k] == if k < |q| then q[k] else (front + d)[k];
  }

  lemma AlikeToo(fold: Unit -> Unit, p: Text, q: Text, front: Text)
    requires Alike(fold, p, q) && Alike(fold, q, front)
    ensures Alike(fold, p, front)
  {
  }

  lemma ApartReadsWhole(fold: Unit -> Unit, sets: seq<CheerSet>, j: nat, front: Text, w: nat)
    requires BitsFromOne(sets) && Apart(fold, sets) && j < |sets| && Alike(fold, sets[j].prefix, front)
    requires 0 < w <= MAX_INT / 10 * 10
    ensures ReadWhole(fold, sets, front, w)
  {
    NumberRoundTrip(w);
    var found := Find(fold, sets, front + Number(w));
    if found.Some? {
      var e := found.value.captured;
      var k := ReaderOf(fold, sets, front + Number(w));
      if |e| < |Number(w)| {
        ShortCapture(fold, sets[k].prefix, front, Number(w), e);
        var d := Number(w)[..|Number(w)| - |e|];
        PartsAreLess(d, e);
        AlikeBehind(fold, sets[k].prefix, sets[j].prefix, front, d);
        assert Collide(fold, sets, j, k, d);
      } else if |e| == |Number(w)| {
        SameCapture(fold, sets[k].prefix, front, Number(w), e);
      } else {
        LongCapture(fold, sets[k].prefix, front, Number(w), e);
        ApartReadsNoLonger(fold, sets, j, k, front, w, e);
      }
    }
  }

  lemma ApartReadsNoLonger(fold: Unit -> Unit, sets: seq<CheerSet>, j: nat, k: nat, front: Text, w: nat, e: Text)
    requires Apart(fold, sets) && j < |sets| && Alike(fold, sets[j].prefix, front)
    requires 0 < w <= MAX_INT && k < |sets|
    requires |sets[k].prefix| < |front| && Alike(fold, sets[k].prefix, front[..|sets[k].prefix|])
    requires IsNumeral(front[|sets[k].prefix|..]) && e == front[|sets[k].prefix|..] + Number(w)
    ensures !IsReader(fold, sets, k, front + Number(w), e)
  {
    if IsReader(fold, sets, k, front + Number(w), e) {
      var tail := front[|sets[k].prefix|..];
      NumberRoundTrip(w);
      PartsAreLess(tail, Number(w));
      assert !Collide(fold, sets, k, j, tail);
      var l :| 0 <= l < k && Alike(fold, sets[l].prefix, sets[j].prefix);
      AlikeToo(fold, sets[l].prefix, sets[j].prefix, front);
      WholeIsRead(fold, sets, l, front, w);
    }
  }

  /** Colliding prefixes break the law. */
  lemma CollisionBreaksLaw(fold: Unit -> Unit, sets: seq<CheerSet>, i: nat, j: nat, d: Text)
    requires BitsFromOne(sets) && i < |sets| && j < |sets| && Collide(fold, sets, i, j, d)
    ensures !LawHolds(fold, sets)
  {
    var p, w := sets[i].prefix, Extend(0, d + ONE);
    var front := p + d;
    assert front + ONE == p + (d + ONE) && IsNumeral(d + ONE) && Number(1) == ONE && IsNumeral(ONE);
    PartsAreLess(d, ONE);
    NumberIsCanonical(d + ONE);
    AmountIsFound(fold, sets, i, p, w);
    if !ReadWhole(fold, sets, front, 1) {
      SmallBreaksLaw(fold, sets, front, j, 1);
    } else if Extend(0, d) < MAX_INT / 10 {
      MisreadBreaksLaw(fold, sets, p, i, w);
    } else {
      WholeIsRead(fold, sets, i, p, w);
      var k := ReaderOf(fold, sets, front + ONE);
      AlikeBoth(fold, sets[k].prefix, sets[j].prefix, front);
    }
  }

  lemma AlikeBoth(fold: Unit -> Unit, p: Text, q: Text, front: Text)
    requires Alike(fold, p, front) && Alike(fold, q, front)
    ensures Alike(fold, p, q)
  {
  }

  /** When tiers start at one bit, the law of the remainder holds for exactly the sets whose prefixes do
      not collide. */
  lemma LawHoldsExactly(fold: Unit -> Unit, sets: seq<CheerSet>)
    requires BitsFromOne(sets)
    ensures LawHolds(fold, sets) <==> Apart(fold, sets)
  {
    if Apart(fold, sets) {
      forall j, front: Text, w: nat |
        0 <= j < |sets| && Alike(fold, sets[j].prefix, front) && 0 < w <= MAX_INT / 10 * 10
        ensures ReadWhole(fold, sets, front, w)
      {
        ApartReadsWhole(fold, sets, j, front, w);
      }
      ReadsAllHolds(fold, sets);
    } else {
      var i, j, d: Text :| 0 <= i < |sets| && 0 <= j < |sets| && Collide(fold, sets, i, j, d);
      CollisionBreaksLaw(fold, sets, i, j, d);
    }
  }
}
