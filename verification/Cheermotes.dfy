/**
 * Cheermotes: how a token spends the bits of a message (src/messages/MessageBuilder.cpp,
 * tryAppendCheermote) and how the channel recognises it (src/providers/twitch/TwitchChannel.cpp).
 */
module Cheermotes {
  import opened Arithmetic
  import opened CodeUnits
  import opened Collections

  // ---- Numbers in texts ----

  const ZERO: Unit := '0' as int
  const MAX_INT := 0x7FFF_FFFF

  predicate IsDigit(u: Unit) {
    ZERO <= u <= ZERO + 9
  }

  predicate AllDigits(d: Text) {
    forall k :: 0 <= k < |d| ==> IsDigit(d[k])
  }

  function Digit(u: Unit): nat {
    if IsDigit(u) then u - ZERO else 0
  }

  /** The number whose digits are those of `x` followed by `d`. */
  function Extend(x: nat, d: Text): nat {
    if |d| == 0 then x else Extend(x, d[..|d| - 1]) * 10 + Digit(d[|d| - 1])
  }

  /** `QString::toInt`: zero when the number does not fit. */
  function ToInt(d: Text): nat {
    if Extend(0, d) <= MAX_INT then Extend(0, d) else 0
  }

  /** What the regular expression captures: a number without leading zeros. */
  predicate IsNumeral(d: Text) {
    |d| > 0 && AllDigits(d) && d[0] != ZERO
  }

  /** `QString::number` */
  function Number(n: nat): Text {
    if n < 10 then [ZERO + n] else Number(n / 10) + [ZERO + n % 10]
  }

  lemma {:induction false} NumberRoundTrip(n: nat)
    ensures Extend(0, Number(n)) == n && AllDigits(Number(n)) && (n > 0 ==> IsNumeral(Number(n)))
  {
    if n >= 10 {
      NumberRoundTrip(n / 10);
      var front := Number(n / 10);
      assert Number(n)[..|front|] == front;
    } else {
      assert |Number(n)[..0]| == 0;
    }
  }

  lemma {:induction false} NumberIsCanonical(d: Text)
    requires IsNumeral(d)
    ensures Extend(0, d) > 0 && Number(Extend(0, d)) == d
  {
    var front, last := d[..|d| - 1], d[|d| - 1] - ZERO;
    if |front| == 0 {
      assert d == [ZERO + last];
    } else {
      NumberIsCanonical(front);
      assert d == front + [ZERO + last];
    }
  }

  lemma {:induction false} NumberGrows(m: nat, n: nat)
    requires m <= n
    ensures |Number(m)| <= |Number(n)|
  {
    if m >= 10 {
      NumberGrows(m / 10, n / 10);
    }
  }

  // ---- Recognising a token ----

  datatype Tier = Tier(minBits: int, colored: bool)

  datatype CheerSet = CheerSet(prefix: Text, tiers: seq<Tier>)

  datatype Found = Found(tier: Tier, captured: Text)

  /** The token begins with the prefix, up to case. */
  predicate Begins(fold: Unit -> Unit, prefix: Text, token: Text) {
    |prefix| <= |token| && forall k :: 0 <= k < |prefix| ==> fold(prefix[k]) == fold(token[k])
  }

  /** The token is a numeral from `n` on. */
  predicate NumeralFrom(token: Text, n: nat) {
    n < |token| && token[n] != ZERO && forall k :: n <= k < |token| ==> IsDigit(token[k])
  }

  /** The numeral behind a prefix. */
  function Capture(fold: Unit -> Unit, prefix: Text, token: Text): Option<Text> {
    if Begins(fold, prefix, token) && NumeralFrom(token, |prefix|) then Some(token[|prefix|..]) else None
  }

  /** The first tier from `i` on that the amount reaches. */
  function TierFrom(tiers: seq<Tier>, i: nat, amount: int): Option<Tier>
    requires i <= |tiers|
    decreases |tiers| - i
  {
    if i == |tiers| then None
    else if amount >= tiers[i].minBits then Some(tiers[i])
    else TierFrom(tiers, i + 1, amount)
  }

  /** TwitchChannel::cheerEmote, on the sets from `i` on. A set that matches but has no tier for the
      amount leaves the token to the sets behind it. */
  function FindFrom(fold: Unit -> Unit, sets: seq<CheerSet>, i: nat, token: Text): (r: Option<Found>)
    requires i <= |sets|
    ensures r.Some? ==> |r.value.captured| <= |token|
    decreases |sets| - i
  {
    if i == |sets| then None else
      match Capture(fold, sets[i].prefix, token)
      case None => FindFrom(fold, sets, i + 1, token)
      case Some(captured) =>
        match TierFrom(sets[i].tiers, 0, ToInt(captured))
        case None => FindFrom(fold, sets, i + 1, token)
        case Some(tier) => Some(Found(tier, captured))
  }

  lemma {:induction false} FoundAtEnd(fold: Unit -> Unit, sets: seq<CheerSet>, i: nat, token: Text, f: Found)
    requires i <= |sets| && FindFrom(fold, sets, i, token) == Some(f)
    ensures IsNumeral(f.captured)
    ensures |f.captured| <= |token| && token == token[..|token| - |f.captured|] + f.captured
    decreases |sets| - i
  {
    var captured := Capture(fold, sets[i].prefix, token);
    if captured.None? || TierFrom(sets[i].tiers, 0, ToInt(captured.value)).None? {
      FoundAtEnd(fold, sets, i + 1, token, f);
    }
  }

  function Find(fold: Unit -> Unit, sets: seq<CheerSet>, token: Text): Option<Found> {
    FindFrom(fold, sets, 0, token)
  }

  // ---- Spending bits ----

  /** A cheermote that is shown: its tier and the amount written behind it. */
  datatype Shown = Shown(tier: Tier, amount: Text)

  datatype Outcome = Outcome(success: bool, bitsLeft: nat, bitsStacked: bool, shown: Option<Shown>)

  /** The number at the end of a token, leading zeros and digits of the prefix included. */
  function Tail(token: Text): nat {
    if |token| > 0 && IsDigit(token[|token| - 1])
    then Tail(token[..|token| - 1]) * 10 + Digit(token[|token| - 1]) else 0
  }

  /** The token that stands for what a cheermote lacks: its numeral is replaced. */
  function Rewritten(token: Text, v: nat, b: nat): Text
    requires b <= v && |Number(v)| <= |token|
  {
    token[..|token| - |Number(v)|] + Number(v - b)
  }

  lemma {:induction false} TailExtends(front: Text, d: Text)
    requires AllDigits(d)
    ensures Tail(front + d) == Extend(Tail(front), d)
  {
    if |d| == 0 {
      assert front + d == front;
    } else {
      TailExtends(front, d[..|d| - 1]);
      assert (front + d)[..|front + d| - 1] == front + d[..|d| - 1];
    }
  }

  lemma {:induction false} ExtendSameLength(x: nat, d: Text, d': Text)
    requires |d| == |d'| && AllDigits(d) && AllDigits(d')
    ensures Extend(x, d) - Extend(x, d') == Extend(0, d) - Extend(0, d')
  {
    if |d| > 0 {
      ExtendSameLength(x, d[..|d| - 1], d'[..|d| - 1]);
    }
  }

  /** Why the recursion ends whatever the sets are: the token gets shorter, or the number at its end
      gets smaller. */
  lemma RewrittenShrinks(fold: Unit -> Unit, sets: seq<CheerSet>, token: Text, f: Found, v: nat, b: nat)
    requires Find(fold, sets, token) == Some(f) && v == ToInt(f.captured) && 0 < b < v
    ensures f.captured == Number(v) && |Number(v)| <= |token|
    ensures |Rewritten(token, v, b)| < |token| ||
            (|Rewritten(token, v, b)| == |token| && Tail(Rewritten(token, v, b)) < Tail(token))
  {
    var captured := f.captured;
    FoundAtEnd(fold, sets, 0, token, f);
    NumberIsCanonical(captured);
    NumberGrows(v - b, v);
    NumberRoundTrip(v - b);
    var front := token[..|token| - |captured|];
    TailExtends(front, captured);
    TailExtends(front, Number(v - b));
    if |Number(v - b)| == |captured| {
      ExtendSameLength(Tail(front), captured, Number(v - b));
    }
  }

  /** What tryAppendCheermote does with a token when `bits` are left. */
  function Try(fold: Unit -> Unit, sets: seq<CheerSet>, stackBits: bool,
               bits: nat, stacked: bool, token: Text): Outcome
    decreases |token|, Tail(token)
  {
    if bits == 0 then Outcome(false, bits, stacked, None) else
      match Find(fold, sets, token)
      case None => Outcome(false, bits, stacked, None)
      case Some(Found(tier, captured)) =>
        var v := ToInt(captured);
        if stackBits then
          Outcome(true, bits, true, if stacked then None else Some(Shown(tier, Number(bits))))
        else if bits >= v then
          Outcome(true, bits - v, stacked, Some(Shown(tier, captured)))
        else
          RewrittenShrinks(fold, sets, token, Found(tier, captured), v, bits);
          Try(fold, sets, stackBits, bits, stacked, Rewritten(token, v, bits))
  }

  datatype Element = StaticEmote(tier: Tier) | AnimatedEmote(tier: Tier) | Amount(text: Text)

  /** The elements of a cheermote: the amount is written only in the colour of the tier. */
  function Elements(shown: Option<Shown>): seq<Element> {
    match shown
    case None => []
    case Some(Shown(tier, amount)) =>
      [StaticEmote(tier), AnimatedEmote(tier)] + if tier.colored then [Amount(amount)] else []
  }

  class TextState {
    const fold: Unit -> Unit
    const sets: seq<CheerSet>
    const stackBits: bool
    var bitsLeft: nat
    var bitsStacked: bool
    var elements: seq<Element>

    constructor (fold: Unit -> Unit, sets: seq<CheerSet>, stackBits: bool, bits: nat)
      ensures this.fold == fold && this.sets == sets && this.stackBits == stackBits
      ensures bitsLeft == bits && !bitsStacked && elements == []
    {
      this.fold, this.sets, this.stackBits := fold, sets, stackBits;
      bitsLeft, bitsStacked, elements := bits, false, [];
    }

    method Emit(tier: Tier, amount: Text)
      modifies this`elements
      ensures elements == old(elements) + [StaticEmote(tier), AnimatedEmote(tier)]
                          + if tier.colored then [Amount(amount)] else []
      ensures elements == old(elements) + Elements(Some(Shown(tier, amount)))
    {
      elements := elements + [StaticEmote(tier)];
      elements := elements + [AnimatedEmote(tier)];
      if tier.colored {
        elements := elements + [Amount(amount)];
      }
    }

    method TryAppendCheermote(token: Text) returns (success: bool)
      modifies this
      ensures var outcome := Try(fold, sets, stackBits, old(bitsLeft), old(bitsStacked), token);
              && success == outcome.success
              && bitsLeft == outcome.bitsLeft && bitsStacked == outcome.bitsStacked
              && elements == old(elements) + Elements(outcome.shown)
      decreases |token|, Tail(token)
    {
      if bitsLeft == 0 {
        return false;
      }
      var found := Find(fold, sets, token);
      if found.None? {
        return false;
      }
      var tier, captured := found.value.tier, found.value.captured;
      var cheerValue := ToInt(captured);
      if stackBits {
        if bitsStacked {
          return true;
        }
        Emit(tier, Number(bitsLeft));
        bitsStacked := true;
        return true;
      }
      if bitsLeft >= cheerValue {
        bitsLeft := bitsLeft - cheerValue;
      } else {
        RewrittenShrinks(fold, sets, token, found.value, cheerValue, bitsLeft);
        success := TryAppendCheermote(Rewritten(token, cheerValue, bitsLeft));
        return;
      }
      Emit(tier, captured);
      success := true;
    }
  }

  // ---- A whole message ----

  datatype Ledger = Ledger(bitsLeft: nat, bitsStacked: bool, shown: seq<Shown>)

  /** The tokens of a message, one after the other. */
  function Spend(fold: Unit -> Unit, sets: seq<CheerSet>, stackBits: bool, bits: nat, tokens: seq<Text>): Ledger {
    if |tokens| == 0 then Ledger(bits, false, []) else
      var l := Spend(fold, sets, stackBits, bits, tokens[..|tokens| - 1]);
      var outcome := Try(fold, sets, stackBits, l.bitsLeft, l.bitsStacked, tokens[|tokens| - 1]);
      Ledger(outcome.bitsLeft, outcome.bitsStacked,
             l.shown + if outcome.shown.None? then [] else [outcome.shown.value])
  }

  /** The bits that the shown amounts say. */
  function Total(shown: seq<Shown>): nat {
    if |shown| == 0 then 0 else Total(shown[..|shown| - 1]) + ToInt(shown[|shown| - 1].amount)
  }

  /** One token: what is taken is what is shown, and a token that is not a cheermote takes nothing. */
  lemma {:induction false} TryConserves(fold: Unit -> Unit, sets: seq<CheerSet>,
                                        bits: nat, stacked: bool, token: Text)
    ensures var o := Try(fold, sets, false, bits, stacked, token);
            && o.success == o.shown.Some? && o.bitsStacked == stacked
            && bits == o.bitsLeft + if o.shown.Some? then ToInt(o.shown.value.amount) else 0
    decreases |token|, Tail(token)
  {
    var found := Find(fold, sets, token);
    if bits > 0 && found.Some? && ToInt(found.value.captured) > bits {
      var v := ToInt(found.value.captured);
      RewrittenShrinks(fold, sets, token, found.value, v, bits);
      TryConserves(fold, sets, bits, stacked, Rewritten(token, v, bits));
    }
  }

  /** The bits of a message are what is left and what the amounts say, whatever the tokens are. */
  lemma {:induction false} SpendConserves(fold: Unit -> Unit, sets: seq<CheerSet>, bits: nat, tokens: seq<Text>)
    ensures var l := Spend(fold, sets, false, bits, tokens);
            l.bitsLeft + Total(l.shown) == bits && !l.bitsStacked
  {
    if |tokens| > 0 {
      var front, last := tokens[..|tokens| - 1], tokens[|tokens| - 1];
      SpendConserves(fold, sets, bits, front);
      var l := Spend(fold, sets, false, bits, front);
      TryConserves(fold, sets, l.bitsLeft, l.bitsStacked, last);
      var o := Try(fold, sets, false, l.bitsLeft, l.bitsStacked, last);
      if o.shown.Some? {
        assert (l.shown + [o.shown.value])[..|l.shown|] == l.shown;
      } else {
        assert l.shown + [] == l.shown;
      }
    }
  }

  /** With stacking, no bits are taken and one cheermote stands for all of them: it is shown once a
      token is recognised. */
  lemma {:induction false} StackedSpending(fold: Unit -> Unit, sets: seq<CheerSet>, bits: nat, tokens: seq<Text>)
    requires bits > 0
    ensures var l := Spend(fold, sets, true, bits, tokens);
            && l.bitsLeft == bits && |l.shown| == (if l.bitsStacked then 1 else 0)
            && (l.bitsStacked ==> l.shown[0].amount == Number(bits))
            && (l.bitsStacked <==> exists k :: 0 <= k < |tokens| && Find(fold, sets, tokens[k]).Some?)
  {
    if |tokens| > 0 {
      StackedSpending(fold, sets, bits, tokens[..|tokens| - 1]);
      var last := |tokens| - 1;
      assert Find(fold, sets, tokens[last]).Some? ==>
               exists k :: 0 <= k < |tokens| && Find(fold, sets, tokens[k]).Some?;
      assert forall k :: 0 <= k < last ==> tokens[..last][k] == tokens[k];
    }
  }

  // ---- What one token takes ----

  /** Equal up to case. */
  predicate Alike(fold: Unit -> Unit, a: Text, b: Text) {
    |a| == |b| && forall k :: 0 <= k < |a| ==> fold(a[k]) == fold(b[k])
  }

  predicate Offers(tiers: seq<Tier>, amount: int) {
    exists k :: 0 <= k < |tiers| && tiers[k].minBits <= amount
  }

  /** Some set of this prefix has a tier for the amount. */
  predicate Offered(fold: Unit -> Unit, sets: seq<CheerSet>, front: Text, amount: int) {
    exists k :: 0 <= k < |sets| && Alike(fold, sets[k].prefix, front) && Offers(sets[k].tiers, amount)
  }

  lemma {:induction false} TierIsOffered(tiers: seq<Tier>, i: nat, amount: int)
    requires i <= |tiers|
    ensures TierFrom(tiers, i, amount).Some? <==> exists k :: i <= k < |tiers| && tiers[k].minBits <= amount
    decreases |tiers| - i
  {
    if i < |tiers| {
      TierIsOffered(tiers, i + 1, amount);
    }
  }

  /** On tiers sorted by cost, the tier of an amount is the dearest one it reaches. */
  lemma {:induction false} TierIsDearest(tiers: seq<Tier>, i: nat, amount: int)
    requires i <= |tiers| && forall j, k :: 0 <= j < k < |tiers| ==> tiers[j].minBits >= tiers[k].minBits
    requires TierFrom(tiers, i, amount).Some?
    ensures var t := TierFrom(tiers, i, amount).value;
            && t in tiers && t.minBits <= amount
            && forall k :: i <= k < |tiers| && tiers[k].minBits <= amount ==> tiers[k].minBits <= t.minBits
    decreases |tiers| - i
  {
    if amount < tiers[i].minBits {
      TierIsDearest(tiers, i + 1, amount);
    }
  }

  /** The bits that stay when the budget is taken off an amount again and again, at least one. */
  function Remainder(v: nat, b: nat): (r: nat)
    requires v > 0 && b > 0
    ensures 0 < r <= b && r <= v
  {
    if v <= b then v else Remainder(v - b, b)
  }

  lemma {:induction false} RemainderIsModulo(v: nat, b: nat)
    requires v > 0 && b > 0
    ensures Remainder(v, b) == (v - 1) % b + 1
  {
    if v > b {
      ModPlus(v - b - 1, b);
      RemainderIsModulo(v - b, b);
    } else {
      ModUnique(v - 1, b, 0, v - 1);
    }
  }

  /** One step for a recognised token: spend its amount, or go on with the rewritten token. */
  lemma TryStep(fold: Unit -> Unit, sets: seq<CheerSet>, b: nat, stacked: bool, front: Text, v: nat)
    requires 0 < b && 0 < v <= MAX_INT && Find(fold, sets, front + Number(v)).Some?
    requires Find(fold, sets, front + Number(v)).value.captured == Number(v)
    ensures var shown := Shown(Find(fold, sets, front + Number(v)).value.tier, Number(v));
            Try(fold, sets, false, b, stacked, front + Number(v))
              == if v <= b then Outcome(true, b - v, stacked, Some(shown))
                 else Try(fold, sets, false, b, stacked, front + Number(v - b))
  {
    NumberRoundTrip(v);
    assert (front + Number(v))[..|front + Number(v)| - |Number(v)|] == front;
    assert v > b ==> Rewritten(front + Number(v), v, b) == front + Number(v - b);
  }

  /** `taken` bits are taken from `b` and shown, or nothing is. */
  predicate Takes(o: Outcome, b: nat, taken: nat) {
    if o.success then o.bitsLeft + taken == b && o.shown.Some? && o.shown.value.amount == Number(taken)
    else o.bitsLeft == b && o.shown.None?
  }

  /** A set that reads the token and has a tier for what it reads makes it recognised. */
  lemma {:induction false} ReadIsFound(fold: Unit -> Unit, sets: seq<CheerSet>, i: nat, k: nat, token: Text)
    requires i <= k < |sets| && Capture(fold, sets[k].prefix, token).Some?
    requires Offers(sets[k].tiers, ToInt(Capture(fold, sets[k].prefix, token).value))
    ensures FindFrom(fold, sets, i, token).Some?
    decreases k - i
  {
    if i == k {
      TierIsOffered(sets[k].tiers, 0, ToInt(Capture(fold, sets[k].prefix, token).value));
    } else {
      ReadIsFound(fold, sets, i + 1, k, token);
    }
  }

  /** A recognised token is read by some set with a tier for what it reads. */
  lemma {:induction false} FoundIsRead(fold: Unit -> Unit, sets: seq<CheerSet>, i: nat, token: Text) returns (k: nat)
    requires i <= |sets| && FindFrom(fold, sets, i, token).Some?
    ensures i <= k < |sets|
    ensures Capture(fold, sets[k].prefix, token) == Some(FindFrom(fold, sets, i, token).value.captured)
    ensures Offers(sets[k].tiers, ToInt(FindFrom(fold, sets, i, token).value.captured))
    decreases |sets| - i
  {
    var captured := Capture(fold, sets[i].prefix, token);
    if captured.Some? && TierFrom(sets[i].tiers, 0, ToInt(captured.value)).Some? {
      TierIsOffered(sets[i].tiers, 0, ToInt(captured.value));
      k := i;
    } else {
      k := FoundIsRead(fold, sets, i + 1, token);
    }
  }

  lemma CaptureAlike(fold: Unit -> Unit, prefix: Text, front: Text, d: Text)
    requires Alike(fold, prefix, front) && IsNumeral(d)
    ensures Capture(fold, prefix, front + d) == Some(d)
  {
    assert (front + d)[|prefix|..] == d;
  }

  // ---- The tier that is shown ----

  /** On tiers sorted by cost: the tier is the dearest one within the amount. */
  ghost predicate Dearest(tiers: seq<Tier>, tier: Tier, amount: int) {
    tier in tiers && tier.minBits <= amount
    && forall t :: t in tiers && t.minBits <= amount ==> t.minBits <= tier.minBits
  }

  ghost predicate SortedTiers(sets: seq<CheerSet>) {
    forall i, j, k :: 0 <= i < |sets| && 0 <= j < k < |sets[i].tiers| ==>
      sets[i].tiers[j].minBits >= sets[i].tiers[k].minBits
  }

  /** The tier belongs to a set that reads the token as that amount, and is the dearest one of it; no set
      before it that reads the token has a tier within what it reads. */
  ghost predicate ShownFor(fold: Unit -> Unit, sets: seq<CheerSet>, i: nat, token: Text, tier: Tier, amount: Text) {
    exists k :: i <= k < |sets| && Capture(fold, sets[k].prefix, token) == Some(amount)
      && Dearest(sets[k].tiers, tier, ToInt(amount))
      && forall l, t :: i <= l < k && Capture(fold, sets[l].prefix, token).Some? && t in sets[l].tiers ==>
           t.minBits > ToInt(Capture(fold, sets[l].prefix, token).value)
  }

  lemma {:induction false} FoundIsDearest(fold: Unit -> Unit, sets: seq<CheerSet>, i: nat, token: Text)
    requires i <= |sets| && SortedTiers(sets) && FindFrom(fold, sets, i, token).Some?
    ensures var f := FindFrom(fold, sets, i, token).value; ShownFor(fold, sets, i, token, f.tier, f.captured)
    decreases |sets| - i
  {
    var captured := Capture(fold, sets[i].prefix, token);
    if captured.Some? {
      TierIsOffered(sets[i].tiers, 0, ToInt(captured.value));
    }
    if captured.Some? && TierFrom(sets[i].tiers, 0, ToInt(captured.value)).Some? {
      TierIsDearest(sets[i].tiers, 0, ToInt(captured.value));
      var f := FindFrom(fold, sets, i, token).value;
      assert Dearest(sets[i].tiers, f.tier, ToInt(f.captured));
    } else {
      FoundIsDearest(fold, sets, i + 1, token);
    }
  }

  /** What a token shows: the dearest tier of a set that reads the token, or what it was rewritten to, as
      the amount that is shown. With stacking, the tier is that of the token itself. */
  lemma {:induction false} ShownIsDearest(fold: Unit -> Unit, sets: seq<CheerSet>, stackBits: bool, bits: nat,
                                          stacked: bool, token: Text) returns (last: Text)
    requires SortedTiers(sets) && Try(fold, sets, stackBits, bits, stacked, token).shown.Some?
    ensures var s := Try(fold, sets, stackBits, bits, stacked, token).shown.value;
            if stackBits then last == token && exists e :: ShownFor(fold, sets, 0, token, s.tier, e)
            else ShownFor(fold, sets, 0, last, s.tier, s.amount)
    ensures !stackBits && Find(fold, sets, token).Some? && ToInt(Find(fold, sets, token).value.captured) <= bits ==>
              last == token
    decreases |token|, Tail(token)
  {
    var found := Find(fold, sets, token).value;
    var v := ToInt(found.captured);
    FoundIsDearest(fold, sets, 0, token);
    if !stackBits && bits < v {
      RewrittenShrinks(fold, sets, token, found, v, bits);
      last := ShownIsDearest(fold, sets, stackBits, bits, stacked, Rewritten(token, v, bits));
    } else {
      last := token;
    }
  }

  // ---- The general law ----

  /** If `front` with the amount `w` is recognised, then as `w`. */
  predicate ReadWhole(fold: Unit -> Unit, sets: seq<CheerSet>, front: Text, w: nat) {
    var found := Find(fold, sets, front + Number(w));
    found.Some? ==> found.value.captured == Number(w)
  }

  /** The amounts from `v` down to its remainder. */
  predicate OnWay(v: nat, b: nat, w: nat)
    requires 0 < b
    decreases v
  {
    w == v || (v > b && OnWay(v - b, b, w))
  }

  lemma {:induction false} WayGoesOn(v: nat, b: nat, w: nat)
    requires 0 < b && 0 < v && OnWay(v, b, w)
    ensures 0 < w <= v && Remainder(w, b) == Remainder(v, b)
    ensures w > b ==> OnWay(v, b, w - b)
    decreases v
  {
    if w != v {
      WayGoesOn(v - b, b, w);
    }
  }

  /** No rewritten token is read as another amount than the one that was written. */
  ghost predicate ReadAlong(fold: Unit -> Unit, sets: seq<CheerSet>, front: Text, v: nat, b: nat)
    requires 0 < b
  {
    forall w: nat :: OnWay(v, b, w) ==> ReadWhole(fold, sets, front, w)
  }

  /** What is recognised as `w` is recognised for larger amounts too. */
  lemma FoundMore(fold: Unit -> Unit, sets: seq<CheerSet>, front: Text, w: nat, more: nat)
    requires 0 < w <= more <= MAX_INT && ReadWhole(fold, sets, front, w)
    requires Find(fold, sets, front + Number(w)).Some?
    ensures Find(fold, sets, front + Number(more)).Some?
  {
    var k := FoundIsRead(fold, sets, 0, front + Number(w));
    NumberRoundTrip(w);
    NumberRoundTrip(more);
    CaptureAlike(fold, sets[k].prefix, front, Number(more));
    assert Offers(sets[k].tiers, more);
    ReadIsFound(fold, sets, 0, k, front + Number(more));
  }

  /** The steps from `w` to `w - b`: `t` is the outcome for an amount and `found` whether it is
      recognised. */
  ghost predicate Steps(t: nat -> Outcome, found: nat -> bool, b: nat, w: nat) {
    && (!found(w) ==> !t(w).success && Takes(t(w), b, w))
    && (found(w) && w <= b ==> t(w).success && Takes(t(w), b, w))
    && (found(w) && w > b ==> t(w) == t(w - b))
    && (w > b && found(w - b) ==> found(w))
  }

  lemma {:induction false} StepsToRemainder(t: nat -> Outcome, found: nat -> bool, b: nat, v: nat)
    requires 0 < b && 0 < v && forall w: nat :: OnWay(v, b, w) ==> Steps(t, found, b, w)
    ensures t(v).success <==> found(Remainder(v, b))
    ensures Takes(t(v), b, Remainder(v, b))
    ensures found(Remainder(v, b)) ==> found(v)
    decreases v
  {
    assert OnWay(v, b, v) && Steps(t, found, b, v);
    if b < v {
      assert forall w: nat :: OnWay(v - b, b, w) ==> OnWay(v, b, w);
      StepsToRemainder(t, found, b, v - b);
    }
  }

  lemma StepIs(fold: Unit -> Unit, sets: seq<CheerSet>, b: nat, stacked: bool, front: Text, w: nat,
               t: nat -> Outcome, found: nat -> bool)
    requires 0 < b && 0 < w <= MAX_INT && ReadWhole(fold, sets, front, w)
    requires w > b ==> ReadWhole(fold, sets, front, w - b)
    requires t(w) == Try(fold, sets, false, b, stacked, front + Number(w))
    requires w > b ==> t(w - b) == Try(fold, sets, false, b, stacked, front + Number(w - b))
    requires found(w) == Find(fold, sets, front + Number(w)).Some?
    requires w > b ==> found(w - b) == Find(fold, sets, front + Number(w - b)).Some?
    ensures Steps(t, found, b, w)
  {
    if found(w) {
      TryStep(fold, sets, b, stacked, front, w);
    } else {
      if w > b && found(w - b) {
        FoundMore(fold, sets, front, w - b, w);
      }
    }
  }

  /** A cheermote of `v` bits, for any sets. If no rewritten token is read as another amount, it
      takes the remainder of `v` by the budget when that is recognised, and else nothing. */
  lemma ReadAlongTakes(fold: Unit -> Unit, sets: seq<CheerSet>, b: nat, stacked: bool, front: Text, v: nat,
                       o: Outcome)
    requires 0 < v <= MAX_INT && 0 < b && ReadAlong(fold, sets, front, v, b)
    requires o == Try(fold, sets, false, b, stacked, front + Number(v))
    ensures o.success <==> Find(fold, sets, front + Number(Remainder(v, b))).Some?
    ensures Takes(o, b, Remainder(v, b))
  {
    var t := (w: nat) => Try(fold, sets, false, b, stacked, front + Number(w));
    var found := (w: nat) => Find(fold, sets, front + Number(w)).Some?;
    AllSteps(fold, sets, b, stacked, front, v, t, found);
    StepsToRemainder(t, found, b, v);
  }

  lemma AllSteps(fold: Unit -> Unit, sets: seq<CheerSet>, b: nat, stacked: bool, front: Text, v: nat,
                 t: nat -> Outcome, found: nat -> bool)
    requires 0 < v <= MAX_INT && 0 < b && ReadAlong(fold, sets, front, v, b)
    requires forall w: nat :: t(w) == Try(fold, sets, false, b, stacked, front + Number(w))
    requires forall w: nat :: found(w) == Find(fold, sets, front + Number(w)).Some?
    ensures forall w: nat :: OnWay(v, b, w) ==> Steps(t, found, b, w)
  {
    forall w: nat | OnWay(v, b, w)
      ensures Steps(t, found, b, w)
    {
      WayGoesOn(v, b, w);
      StepIs(fold, sets, b, stacked, front, w, t, found);
    }
  }

  // ---- Where the law ends ----

  /** All amounts above the remainder are recognised, and as what was written. */
  ghost predicate ReadAbove(fold: Unit -> Unit, sets: seq<CheerSet>, front: Text, v: nat, b: nat)
    requires 0 < b && 0 < v
  {
    forall w: nat :: OnWay(v, b, w) && w != Remainder(v, b) ==>
      ReadWhole(fold, sets, front, w) && Find(fold, sets, front + Number(w)).Some?
  }

  /** `t` does not change on the way down. */
  lemma {:induction false} SameOnWay(t: nat -> Outcome, b: nat, v: nat)
    requires 0 < b && 0 < v && forall w: nat :: OnWay(v, b, w) && w != Remainder(v, b) && w > b ==> t(w) == t(w - b)
    ensures t(v) == t(Remainder(v, b))
    decreases v
  {
    if v > b {
      assert OnWay(v, b, v) && v != Remainder(v, b);
      assert forall w: nat :: OnWay(v - b, b, w) ==> OnWay(v, b, w);
      SameOnWay(t, b, v - b);
    }
  }

  /** If the amounts above the remainder are read as written, the token does what the remainder's
      token does. */
  lemma DownToRemainder(fold: Unit -> Unit, sets: seq<CheerSet>, b: nat, stacked: bool, front: Text, v: nat)
    requires 0 < v <= MAX_INT && 0 < b && ReadAbove(fold, sets, front, v, b)
    ensures Try(fold, sets, false, b, stacked, front + Number(v))
         == Try(fold, sets, false, b, stacked, front + Number(Remainder(v, b)))
  {
    var t := (w: nat) => Try(fold, sets, false, b, stacked, front + Number(w));
    AllSame(fold, sets, b, stacked, front, v, t);
    SameOnWay(t, b, v);
  }

  lemma AllSame(fold: Unit -> Unit, sets: seq<CheerSet>, b: nat, stacked: bool, front: Text, v: nat,
                t: nat -> Outcome)
    requires 0 < v <= MAX_INT && 0 < b && ReadAbove(fold, sets, front, v, b)
    requires forall w: nat :: t(w) == Try(fold, sets, false, b, stacked, front + Number(w))
    ensures forall w: nat :: OnWay(v, b, w) && w != Remainder(v, b) && w > b ==> t(w) == t(w - b)
  {
    forall w: nat | OnWay(v, b, w) && w != Remainder(v, b) && w > b
      ensures t(w) == t(w - b)
    {
      WayGoesOn(v, b, w);
      TryStep(fold, sets, b, stacked, front, w);
    }
  }

  /** When the remainder's token is read as an amount within the budget, that is what is taken; so
      the remainder is taken if and only if it is read as written. */
  lemma MisreadIsTaken(fold: Unit -> Unit, sets: seq<CheerSet>, b: nat, stacked: bool, front: Text, v: nat)
    requires 0 < v <= MAX_INT && 0 < b && ReadAbove(fold, sets, front, v, b)
    requires Find(fold, sets, front + Number(Remainder(v, b))).Some?
    requires ToInt(Find(fold, sets, front + Number(Remainder(v, b))).value.captured) <= b
    ensures var o, r := Try(fold, sets, false, b, stacked, front + Number(v)), Remainder(v, b);
            && o.success && o.bitsLeft == b - ToInt(Find(fold, sets, front + Number(r)).value.captured)
            && (Takes(o, b, r) <==> ReadWhole(fold, sets, front, r))
  {
    var r := Remainder(v, b);
    var found := Find(fold, sets, front + Number(r)).value;
    DownToRemainder(fold, sets, b, stacked, front, v);
    FoundAtEnd(fold, sets, 0, front + Number(r), found);
    NumberRoundTrip(r);
    if ToInt(found.captured) == r {
      NumberIsCanonical(found.captured);
    }
  }

  lemma FindInPair(fold: Unit -> Unit, sets: seq<CheerSet>, token: Text, tier: Tier, d: Text)
    requires |sets| == 2 && IsNumeral(d) && ToInt(d) > 0
    requires sets[0].tiers == [tier] && sets[1].tiers == [tier] && tier.minBits == 1
    requires Capture(fold, sets[0].prefix, token) == Some(d) ||
             (Capture(fold, sets[0].prefix, token).None? && Capture(fold, sets[1].prefix, token) == Some(d))
    ensures Find(fold, sets, token) == Some(Found(tier, d))
  {
    assert TierFrom([tier], 0, ToInt(d)) == Some(tier);
    assert Capture(fold, sets[0].prefix, token).None? ==> FindFrom(fold, sets, 1, token) == Some(Found(tier, d));
  }

  /** A prefix that ends in a digit misleads: the rewritten token is read by another set. With the
      prefixes `c` and `c1` and seven bits left, `c20` is rewritten to `c13`, read as three bits, and
      takes these instead of the remainder six. */
  lemma DigitPrefixMisleads(c: Unit, fold: Unit -> Unit, tier: Tier, sets: seq<CheerSet>)
    requires fold(ZERO + 1) != fold(ZERO + 2) && tier.minBits == 1
    requires sets == [CheerSet([c, ZERO + 1], [tier]), CheerSet([c], [tier])]
    ensures Find(fold, sets, [c] + Number(20)) == Some(Found(tier, Number(20)))
    ensures Try(fold, sets, false, 7, false, [c] + Number(20)).bitsLeft == 7 - 3
    ensures (20 - 1) % 7 + 1 == 6
  {
    MisreadAsThree(c, fold, tier, sets);
    MisreadTakesThree(fold, sets, [c], [c, ZERO + 1]);
  }

  lemma MisreadTakesThree(fold: Unit -> Unit, sets: seq<CheerSet>, front: Text, longer: Text)
    requires Find(fold, sets, front + Number(20)).Some? && Find(fold, sets, longer + Number(3)).Some?
    requires Find(fold, sets, front + Number(20)).value.captured == Number(20)
    requires Find(fold, sets, longer + Number(3)).value.captured == Number(3)
    requires front + Number(20 - 7) == longer + Number(3)
    ensures Try(fold, sets, false, 7, false, front + Number(20)).bitsLeft == 7 - 3
  {
    TryStep(fold, sets, 7, false, front, 20);
    TryStep(fold, sets, 7, false, longer, 3);
  }

  lemma MisreadAsThree(c: Unit, fold: Unit -> Unit, tier: Tier, sets: seq<CheerSet>)
    requires fold(ZERO + 1) != fold(ZERO + 2) && tier.minBits == 1
    requires sets == [CheerSet([c, ZERO + 1], [tier]), CheerSet([c], [tier])]
    ensures Find(fold, sets, [c] + Number(20)) == Some(Found(tier, Number(20)))
    ensures Find(fold, sets, [c, ZERO + 1] + Number(3)) == Some(Found(tier, Number(3)))
  {
    NumberRoundTrip(20);
    NumberRoundTrip(3);
    CaptureAlike(fold, [c], [c], Number(20));
    FindInPair(fold, sets, [c] + Number(20), tier, Number(20));
    CaptureAlike(fold, [c, ZERO + 1], [c, ZERO + 1], Number(3));
    FindInPair(fold, sets, [c, ZERO + 1] + Number(3), tier, Number(3));
  }

  // ---- Sets under which the law holds ----

  /** The longer prefix is the shorter one followed by a numeral, up to case. */
  ghost predicate Extends(fold: Unit -> Unit, longer: Text, shorter: Text) {
    exists d: Text :: IsNumeral(d) && Alike(fold, longer, shorter + d)
  }

  /** No prefix is another one followed by a numeral. */
  ghost predicate Separate(fold: Unit -> Unit, sets: seq<CheerSet>) {
    forall i, j :: 0 <= i < |sets| && 0 <= j < |sets| ==> !Extends(fold, sets[j].prefix, sets[i].prefix)
  }

  /** The prefix does not end in a digit, not even up to case. */
  ghost predicate PlainPrefix(fold: Unit -> Unit, prefix: Text) {
    |prefix| > 0 ==> forall u: Unit :: IsDigit(u) ==> fold(prefix[|prefix| - 1]) != fold(u)
  }

  /** Prefixes that do not end in digits are separate. */
  lemma PlainIsSeparate(fold: Unit -> Unit, sets: seq<CheerSet>)
    requires forall k :: 0 <= k < |sets| ==> PlainPrefix(fold, sets[k].prefix)
    ensures Separate(fold, sets)
  {
    forall i, j | 0 <= i < |sets| && 0 <= j < |sets|
      ensures !Extends(fold, sets[j].prefix, sets[i].prefix)
    {
      forall d: Text | IsNumeral(d)
        ensures !Alike(fold, sets[j].prefix, sets[i].prefix + d)
      {
        var all := sets[i].prefix + d;
        assert all[|all| - 1] == d[|d| - 1] && IsDigit(d[|d| - 1]);
      }
    }
  }

  lemma LongerReads(fold: Unit -> Unit, p: Text, q: Text, front: Text, d: Text)
    requires Alike(fold, q, front) && IsNumeral(d) && |front| < |p|
    requires Capture(fold, p, front + d).Some?
    ensures Extends(fold, p, q)
  {
    var n := |p| - |front|;
    assert |front + d| > |p|;
    assert forall k :: 0 <= k < |p| ==> (q + d[..n])[k] == if k < |q| then q[k] else d[k - |q|];
    assert forall k :: 0 <= k < |p| ==> (front + d)[k] == if k < |q| then front[k] else d[k - |q|];
    assert IsNumeral(d[..n]);
    assert Alike(fold, p, q + d[..n]);
  }

  lemma ShorterReads(fold: Unit -> Unit, p: Text, q: Text, front: Text, d: Text)
    requires Alike(fold, q, front) && IsNumeral(d) && |p| < |front|
    requires Capture(fold, p, front + d).Some?
    ensures IsNumeral(front[|p|..]) && Alike(fold, q, p + front[|p|..]) && Extends(fold, q, p)
  {
    var e := front[|p|..];
    assert forall k :: 0 <= k < |e| ==> e[k] == (front + d)[|p| + k];
    assert forall k :: 0 <= k < |p| ==> front[k] == (front + d)[k];
    assert forall k :: 0 <= k < |q| ==> (p + e)[k] == if k < |p| then p[k] else front[k];
    assert Alike(fold, q, p + e);
  }

  /** With separate prefixes, what stands behind a prefix is read whole or not at all. */
  lemma OneReading(fold: Unit -> Unit, sets: seq<CheerSet>, k: nat, j: nat, front: Text, d: Text)
    requires Separate(fold, sets) && k < |sets| && j < |sets|
    requires Alike(fold, sets[j].prefix, front) && IsNumeral(d)
    ensures Capture(fold, sets[k].prefix, front + d)
         == if Alike(fold, sets[k].prefix, front) then Some(d) else None
  {
    var p := sets[k].prefix;
    if Capture(fold, p, front + d).Some? {
      if |front| < |p| {
        LongerReads(fold, p, sets[j].prefix, front, d);
      } else if |p| < |front| {
        ShorterReads(fold, p, sets[j].prefix, front, d);
      } else {
        assert (front + d)[|p|..] == d;
        assert forall k :: 0 <= k < |p| ==> (front + d)[k] == front[k];
      }
    } else if Alike(fold, p, front) {
      CaptureAlike(fold, p, front, d);
    }
  }

  lemma {:induction false} FindIsOffered(fold: Unit -> Unit, sets: seq<CheerSet>, i: nat, j: nat, front: Text, d: Text)
    requires i <= |sets| && Separate(fold, sets) && j < |sets|
    requires Alike(fold, sets[j].prefix, front) && IsNumeral(d)
    ensures FindFrom(fold, sets, i, front + d).Some? ==> FindFrom(fold, sets, i, front + d).value.captured == d
    ensures FindFrom(fold, sets, i, front + d).Some? <==>
            exists k :: i <= k < |sets| && Alike(fold, sets[k].prefix, front) && Offers(sets[k].tiers, ToInt(d))
    decreases |sets| - i
  {
    if i < |sets| {
      OneReading(fold, sets, i, j, front, d);
      TierIsOffered(sets[i].tiers, 0, ToInt(d));
      FindIsOffered(fold, sets, i + 1, j, front, d);
    }
  }

  /** `front` with the amount `v` is recognised as `v`. */
  predicate ReadsAs(fold: Unit -> Unit, sets: seq<CheerSet>, front: Text, v: nat) {
    var found := Find(fold, sets, front + Number(v));
    found.Some? && found.value.captured == Number(v)
  }

  lemma FrontIsPrefix(fold: Unit -> Unit, sets: seq<CheerSet>, front: Text, d: Text) returns (j: nat)
    requires Find(fold, sets, front + d).Some? && Find(fold, sets, front + d).value.captured == d
    ensures j < |sets| && Alike(fold, sets[j].prefix, front) && IsNumeral(d)
  {
    j := FoundIsRead(fold, sets, 0, front + d);
    FoundAtEnd(fold, sets, 0, front + d, Find(fold, sets, front + d).value);
  }

  /** With separate prefixes, a cheermote of `v` bits takes the remainder of `v` by the budget if some
      tier is that cheap, and is shown with that amount; else it takes nothing. */
  lemma TakesRemainder(fold: Unit -> Unit, sets: seq<CheerSet>, b: nat, stacked: bool, front: Text, v: nat,
                       o: Outcome)
    requires Separate(fold, sets) && 0 < v <= MAX_INT && 0 < b && ReadsAs(fold, sets, front, v)
    requires o == Try(fold, sets, false, b, stacked, front + Number(v))
    ensures o.success <==> Offered(fold, sets, front, Remainder(v, b))
    ensures Takes(o, b, Remainder(v, b))
  {
    var j := FrontIsPrefix(fold, sets, front, Number(v));
    forall w: nat | OnWay(v, b, w)
      ensures ReadWhole(fold, sets, front, w)
    {
      WayGoesOn(v, b, w);
      NumberRoundTrip(w);
      FindIsOffered(fold, sets, 0, j, front, Number(w));
    }
    ReadAlongTakes(fold, sets, b, stacked, front, v, o);
    NumberRoundTrip(Remainder(v, b));
    FindIsOffered(fold, sets, 0, j, front, Number(Remainder(v, b)));
  }

  /** What a recognised token takes from a budget. A numeral beyond the int range is worth nothing. */
  lemma RecognisedTokenTakes(fold: Unit -> Unit, sets: seq<CheerSet>, b: nat, stacked: bool,
                             front: Text, captured: Text, tier: Tier, o: Outcome)
    requires Separate(fold, sets) && 0 < b
    requires Find(fold, sets, front + captured) == Some(Found(tier, captured))
    requires o == Try(fold, sets, false, b, stacked, front + captured)
    ensures var taken := if ToInt(captured) == 0 then 0 else (ToInt(captured) - 1) % b + 1;
            && (o.success <==> Offered(fold, sets, front, taken))
            && o.bitsLeft == if o.success then b - taken else b
  {
    var j := FrontIsPrefix(fold, sets, front, captured);
    if ToInt(captured) > 0 {
      NumberIsCanonical(captured);
      RemainderIsModulo(ToInt(captured), b);
      TakesRemainder(fold, sets, b, stacked, front, ToInt(captured), o);
    } else {
      FindIsOffered(fold, sets, 0, j, front, captured);
    }
  }
}
