/**
 * The words of a message, its emote occurrences, and the cursor that addWords moves through them
 * (src/messages/MessageBuilder.cpp:427-450, 3711-3806).
 */
module WordCursor {
  import opened CodeUnits
  import opened Collections

  const SPACE: Unit := ' ' as int

  /** An emote covers the units `start` to `end`, both included. */
  datatype Occurrence = Occurrence(start: int, end: int, name: Text)

  // ---- The content and its words ----

  /** The content that splits into `words`. */
  function Content(words: seq<Text>): Text {
    if |words| == 0 then []
    else if |words| == 1 then words[0]
    else Content(words[..|words| - 1]) + [SPACE] + words[|words| - 1]
  }

  /** The offset of word `w` in the content. */
  function WordStart(words: seq<Text>, w: nat): nat
    requires w <= |words|
  {
    if w == 0 then 0 else WordStart(words, w - 1) + |words[w - 1]| + 1
  }

  function WordEnd(words: seq<Text>, w: nat): nat
    requires w < |words|
  {
    WordStart(words, w) + |words[w]|
  }

  lemma {:induction false} WordStartOfPrefix(words: seq<Text>, n: nat, w: nat)
    requires w <= n <= |words|
    ensures WordStart(words[..n], w) == WordStart(words, w)
  {
    if w > 0 {
      WordStartOfPrefix(words, n, w - 1);
    }
  }

  /** The content has word `w` at `WordStart`. */
  lemma {:induction false} WordsInContent(words: seq<Text>, w: nat)
    requires w < |words|
    ensures WordEnd(words, w) <= |Content(words)|
    ensures Content(words)[WordStart(words, w)..WordEnd(words, w)] == words[w]
  {
    var last := |words| - 1;
    ContentLength(words);
    if last > 0 {
      var front := words[..last];
      ContentLength(front);
      WordStartOfPrefix(words, last, last);
      WordStartOfPrefix(words, last, w);
      if w < last {
        WordsInContent(front, w);
        SliceOfFront(Content(front), [SPACE] + words[last], WordStart(words, w), WordEnd(words, w));
        ConcatAssociates(Content(front), [SPACE], words[last]);
      }
    }
  }

  lemma {:induction false} ContentLength(words: seq<Text>)
    requires |words| > 0
    ensures |Content(words)| + 1 == WordStart(words, |words|)
  {
    var last := |words| - 1;
    if last > 0 {
      WordStartOfPrefix(words, last, last);
      ContentLength(words[..last]);
    }
  }

  lemma SliceOfFront<T>(s: seq<T>, t: seq<T>, a: nat, b: nat)
    requires a <= b <= |s|
    ensures (s + t)[a..b] == s[a..b]
  {
  }

  lemma {:induction false} WordStartsGrow(words: seq<Text>, v: nat, w: nat)
    requires v < w <= |words|
    ensures WordEnd(words, v) < WordStart(words, w)
    decreases w
  {
    if v + 1 < w {
      WordStartsGrow(words, v, w - 1);
    }
  }

  // ---- Where occurrences may be ----

  predicate InWord(words: seq<Text>, w: nat, o: Occurrence) {
    w < |words| && WordStart(words, w) <= o.start <= o.end < WordEnd(words, w)
  }

  ghost predicate HasWord(words: seq<Text>, o: Occurrence) {
    exists w: nat :: InWord(words, w, o)
  }

  /** Occurrences are inside single words, in order, disjoint, and as long as their names. */
  ghost predicate WellPlaced(words: seq<Text>, emotes: seq<Occurrence>) {
    && (forall i :: 0 <= i < |emotes| ==> |emotes[i].name| == emotes[i].end - emotes[i].start + 1)
    && (forall i :: 0 <= i < |emotes| ==> HasWord(words, emotes[i]))
    && (forall i, j :: 0 <= i < j < |emotes| ==> emotes[i].end < emotes[j].start)
  }

  /** Word `w` lets occurrence `m` in behind the one before it: it reaches neither before the word nor
      beyond the separator behind it, and when its turn comes some of the word is left. */
  predicate LetsIn(words: seq<Text>, emotes: seq<Occurrence>, m: nat, w: nat) {
    && m < |emotes| && w < |words| && |words[w]| > 0
    && WordStart(words, w) <= emotes[m].start && emotes[m].end <= WordEnd(words, w)
    && (m > 0 ==> emotes[m - 1].end < emotes[m].start && emotes[m - 1].end + 1 != WordEnd(words, w))
  }

  /** No word lets occurrence `m` in. */
  ghost predicate Misfit(words: seq<Text>, emotes: seq<Occurrence>, m: nat)
    requires m < |emotes|
  {
    forall w: nat :: !LetsIn(words, emotes, m, w)
  }

  /** The first `m` occurrences are well placed, and the next one is not let in. */
  ghost predicate Fitting(words: seq<Text>, emotes: seq<Occurrence>, m: nat) {
    m <= |emotes| && WellPlaced(words, emotes[..m]) && (m < |emotes| ==> Misfit(words, emotes, m))
  }

  /** The first `m` occurrences are well placed, and none of the first `n` words lets the next one in. */
  ghost predicate FitsBefore(words: seq<Text>, emotes: seq<Occurrence>, m: nat, n: nat) {
    m <= |emotes| && WellPlaced(words, emotes[..m]) && forall w: nat :: w < n ==> !LetsIn(words, emotes, m, w)
  }

  /** The name of every occurrence is what the content has in its place. */
  ghost predicate Named(content: Text, emotes: seq<Occurrence>) {
    forall i :: 0 <= i < |emotes| && 0 <= emotes[i].start <= emotes[i].end < |content| ==>
      emotes[i].name == content[emotes[i].start..emotes[i].end + 1]
  }

  /** The first occurrence from `i` on that starts at or after `limit`. */
  function FirstFrom(emotes: seq<Occurrence>, i: nat, limit: int): (n: nat)
    requires i <= |emotes|
    ensures i <= n <= |emotes| && (n < |emotes| ==> emotes[n].start >= limit)
    decreases |emotes| - i
  {
    if i == |emotes| || emotes[i].start >= limit then i else FirstFrom(emotes, i + 1, limit)
  }

  /** The number of occurrences before an offset. */
  function Before(emotes: seq<Occurrence>, limit: int): nat {
    FirstFrom(emotes, 0, limit)
  }

  // ---- Occurrences of a word ----

  /** The occurrences `i` to `n` lie inside the word of `size` units at `base`, in order, disjoint, and
      as long as their names. */
  ghost predicate Inside(size: nat, base: int, emotes: seq<Occurrence>, i: nat, n: nat) {
    && i <= n <= |emotes|
    && (forall k :: i <= k < n ==> base <= emotes[k].start <= emotes[k].end < base + size)
    && (forall k :: i <= k < n ==> |emotes[k].name| == emotes[k].end - emotes[k].start + 1)
    && (forall j, k :: i <= j < k < n ==> emotes[j].end < emotes[k].start)
  }

  /** The occurrence `n` is not let in behind the occurrences `i` to `n`. */
  predicate Blocked(size: nat, base: int, emotes: seq<Occurrence>, i: nat, n: nat) {
    n < |emotes| ==>
      || emotes[n].end > base + size || emotes[n].start < base
      || (i < n && (emotes[n].start <= emotes[n - 1].end || emotes[n - 1].end + 1 == base + size))
  }

  /** The occurrences `i` to `n` lie inside the word, and the next one is not let in. */
  ghost predicate OfWord(size: nat, base: int, emotes: seq<Occurrence>, i: nat, n: nat) {
    Inside(size, base, emotes, i, n) && Blocked(size, base, emotes, i, n)
  }

  lemma {:induction false} FirstFromIsFirst(emotes: seq<Occurrence>, i: nat, limit: int)
    requires i <= |emotes|
    ensures forall k :: i <= k < FirstFrom(emotes, i, limit) ==> emotes[k].start < limit
    decreases |emotes| - i
  {
    if i < |emotes| && emotes[i].start < limit {
      FirstFromIsFirst(emotes, i + 1, limit);
    }
  }

  /** The word of an occurrence that starts in word `w`. */
  lemma OccurrenceWord(words: seq<Text>, w: nat, v: nat, o: Occurrence)
    requires w < |words| && InWord(words, v, o) && WordStart(words, w) <= o.start <= WordEnd(words, w)
    ensures v == w
  {
    if v < w {
      WordStartsGrow(words, v, w);
    } else if w < v {
      WordStartsGrow(words, w, v);
    }
  }

  lemma InOwnWord(words: seq<Text>, emotes: seq<Occurrence>, w: nat, k: nat)
    requires w < |words| && WellPlaced(words, emotes) && k < |emotes|
    ensures WordStart(words, w) <= emotes[k].start <= WordEnd(words, w) ==> InWord(words, w, emotes[k])
    ensures emotes[k].start <= emotes[k].end
  {
    assert HasWord(words, emotes[k]);
    var v: nat :| InWord(words, v, emotes[k]);
    if WordStart(words, w) <= emotes[k].start <= WordEnd(words, w) {
      OccurrenceWord(words, w, v, emotes[k]);
    }
  }

  /** The occurrences between the counters at the start and at the end of a word are its own, and
      the next one starts behind the separator. */
  lemma GroupIsInside(words: seq<Text>, emotes: seq<Occurrence>, w: nat)
    requires w < |words| && WellPlaced(words, emotes)
    ensures var i, n := Before(emotes, WordStart(words, w)), Before(emotes, WordStart(words, w + 1));
            Inside(|words[w]|, WordStart(words, w), emotes, i, n)
            && (n < |emotes| ==> emotes[n].start > WordEnd(words, w))
  {
    var i, n := Before(emotes, WordStart(words, w)), Before(emotes, WordEnd(words, w));
    FirstFromIsFirst(emotes, 0, WordEnd(words, w));
    FirstFromGrows(emotes, 0, WordStart(words, w), WordEnd(words, w));
    forall k | i <= k < n
      ensures InWord(words, w, emotes[k])
    {
      InOwnWord(words, emotes, w, i);
      assert k > i ==> emotes[i].end < emotes[k].start;
      InOwnWord(words, emotes, w, k);
    }
    if n < |emotes| {
      InOwnWord(words, emotes, w, n);
    }
    FirstFromAgrees(emotes, 0, WordEnd(words, w), WordStart(words, w + 1));
  }

  /** The same for the first `m` occurrences of a list; a word that does not let the next one in is
      left with its own ones. */
  lemma GroupFits(words: seq<Text>, emotes: seq<Occurrence>, m: nat, w: nat)
    requires m <= |emotes| && w < |words| && WellPlaced(words, emotes[..m])
    ensures var i, n := Before(emotes[..m], WordStart(words, w)), Before(emotes[..m], WordStart(words, w + 1));
            && Inside(|words[w]|, WordStart(words, w), emotes, i, n) && n <= m
            && (n < m ==> emotes[n].start > WordEnd(words, w))
            && (i == m && m > 0 ==> emotes[m - 1].end < WordStart(words, w))
            && (|words[w]| > 0 && !LetsIn(words, emotes, m, w) ==>
                  OfWord(|words[w]|, WordStart(words, w), emotes, i, n))
  {
    var placed := emotes[..m];
    var i, n := Before(placed, WordStart(words, w)), Before(placed, WordStart(words, w + 1));
    GroupIsInside(words, placed, w);
    assert forall k :: 0 <= k < m ==> placed[k] == emotes[k];
    if i == m > 0 {
      LastIsBehind(words, placed, w);
    }
    if n < m {
      assert HasWord(words, placed[n]);
    } else {
      MisfitIsBlocked(words, emotes, m, w, i);
    }
  }

  lemma MisfitIsBlocked(words: seq<Text>, emotes: seq<Occurrence>, m: nat, w: nat, i: nat)
    requires w < |words| && m <= |emotes| && i <= m
    requires i == m > 0 ==> emotes[m - 1].end < WordStart(words, w)
    ensures |words[w]| > 0 && !LetsIn(words, emotes, m, w) ==>
              Blocked(|words[w]|, WordStart(words, w), emotes, i, m)
  {
  }

  lemma LastIsBehind(words: seq<Text>, placed: seq<Occurrence>, w: nat)
    requires w < |words| && WellPlaced(words, placed) && |placed| > 0
    requires Before(placed, WordStart(words, w)) == |placed|
    ensures placed[|placed| - 1].end < WordStart(words, w)
  {
    FirstFromIsFirst(placed, 0, WordStart(words, w));
    var v: nat :| InWord(words, v, placed[|placed| - 1]);
    if v < w {
      WordStartsGrow(words, v, w);
    } else if w < v {
      WordStartsGrow(words, w, v);
    }
  }

  lemma {:induction false} FirstFromGrows(emotes: seq<Occurrence>, i: nat, a: int, b: int)
    requires i <= |emotes| && a <= b
    ensures FirstFrom(emotes, i, a) <= FirstFrom(emotes, i, b)
    decreases |emotes| - i
  {
    if i < |emotes| && emotes[i].start < a {
      FirstFromGrows(emotes, i + 1, a, b);
    }
  }

  lemma {:induction false} FirstFromAgrees(emotes: seq<Occurrence>, i: nat, a: int, b: int)
    requires i <= |emotes| && a <= b
    requires FirstFrom(emotes, i, a) < |emotes| ==> emotes[FirstFrom(emotes, i, a)].start >= b
    ensures FirstFrom(emotes, i, a) == FirstFrom(emotes, i, b)
    decreases |emotes| - i
  {
    if i < |emotes| && emotes[i].start < a {
      FirstFromAgrees(emotes, i + 1, a, b);
    }
  }

  // ---- The cursor ----

  /** The check of doesWordContainATwitchEmote for what is left of a word. */
  predicate Contained(cursor: int, left: nat, emotes: seq<Occurrence>, it: nat) {
    it < |emotes| && !(emotes[it].start < cursor || emotes[it].end > cursor + left)
  }

  predicate StartFirst(emotes: seq<Occurrence>) {
    forall i :: 0 <= i < |emotes| ==> emotes[i].start <= emotes[i].end
  }

  /** The cursor and the iterator. */
  datatype Place = Place(cursor: int, it: nat)

  /** Where the inner loop leaves them when `left` units of a word are left; only the lengths of the
      names matter. */
  function WordWalk(cursor: int, left: nat, emotes: seq<Occurrence>, it: nat): (p: Place)
    requires it <= |emotes| && StartFirst(emotes)
    ensures p.it <= |emotes|
    decreases |emotes| - it, if it < |emotes| && emotes[it].start > cursor then 1 else 0
  {
    if !Contained(cursor, left, emotes, it) then Place(if left == 0 then cursor else cursor + left + 1, it)
    else if emotes[it].start > cursor then
      WordWalk(emotes[it].start, left - (emotes[it].start - cursor), emotes, it)
    else
      var len := |emotes[it].name|;
      if left <= len then Place(cursor + len + 1, it + 1) else WordWalk(cursor + len, left - len, emotes, it + 1)
  }

  lemma WalkTakesEmote(cursor: int, left: nat, emotes: seq<Occurrence>, it: nat, cursor': int, left': nat)
    requires StartFirst(emotes) && Contained(cursor, left, emotes, it) && emotes[it].start == cursor
    requires cursor' == cursor + |emotes[it].name| && left' == Max(0, left - |emotes[it].name|)
    ensures WordWalk(cursor, left, emotes, it)
         == if left' == 0 then Place(cursor' + 1, it + 1) else WordWalk(cursor', left', emotes, it + 1)
  {
  }

  lemma WalkTakesText(cursor: int, left: nat, emotes: seq<Occurrence>, it: nat)
    requires StartFirst(emotes) && Contained(cursor, left, emotes, it) && emotes[it].start > cursor
    ensures WordWalk(cursor, left, emotes, it)
         == WordWalk(emotes[it].start, left - (emotes[it].start - cursor), emotes, it)
  {
  }

  /** Where they are at word `w`, for every list. */
  function Walk(words: seq<Text>, emotes: seq<Occurrence>, w: nat): (p: Place)
    requires w <= |words| && StartFirst(emotes)
    ensures p.it <= |emotes|
  {
    if w == 0 then Place(0, 0) else
      var p := Walk(words, emotes, w - 1);
      if |words[w - 1]| == 0 then Place(p.cursor + 1, p.it)
      else WordWalk(p.cursor, |words[w - 1]|, emotes, p.it)
  }

  /** Where the cursor is behind the occurrences `i` to `n`. */
  function Behind(cursor: int, emotes: seq<Occurrence>, i: nat, n: nat): int
    requires i <= n <= |emotes|
  {
    if i < n then emotes[n - 1].end + 1 else cursor
  }

  /** Taking all occurrences of the word; the last one may end it. */
  lemma {:induction false} TakesGroup(size: nat, base: int, emotes: seq<Occurrence>, cursor: int,
                                      i: nat, n: nat, c: int)
    requires StartFirst(emotes) && Inside(size, base, emotes, i, n) && base <= cursor < base + size
    requires c == Behind(cursor, emotes, i, n) && (i < n ==> cursor <= emotes[i].start)
    ensures base <= c <= base + size
    ensures WordWalk(cursor, base + size - cursor, emotes, i)
         == if c == base + size then Place(base + size + 1, n) else WordWalk(c, base + size - c, emotes, n)
    decreases n - i
  {
    if i < n {
      if emotes[i].end + 1 < base + size {
        TakesGroup(size, base, emotes, emotes[i].end + 1, i + 1, n, c);
      }
    }
  }

  /** Behind its own occurrences, a word that lets the next one not in is left at its end. */
  lemma WalkOfWord(size: nat, base: int, emotes: seq<Occurrence>, i: nat, n: nat)
    requires StartFirst(emotes) && size > 0 && OfWord(size, base, emotes, i, n)
    ensures WordWalk(base, size, emotes, i) == Place(base + size + 1, n)
  {
    TakesGroup(size, base, emotes, base, i, n, Behind(base, emotes, i, n));
  }

  /** An occurrence that ends at the separator takes the cursor one further. */
  lemma WalkBeyondWord(size: nat, base: int, emotes: seq<Occurrence>, i: nat, n: nat)
    requires StartFirst(emotes) && size > 0 && Inside(size, base, emotes, i, n) && n < |emotes|
    requires base <= emotes[n].start && emotes[n].end == base + size
    requires i < n ==> emotes[n - 1].end < emotes[n].start && emotes[n - 1].end + 1 != base + size
    requires |emotes[n].name| == emotes[n].end - emotes[n].start + 1
    ensures WordWalk(base, size, emotes, i) == Place(base + size + 2, n + 1)
  {
    var c := Behind(base, emotes, i, n);
    TakesGroup(size, base, emotes, base, i, n, c);
    if emotes[n].start > c {
      WalkTakesText(c, base + size - c, emotes, n);
    }
  }

  /** As long as no word lets the next occurrence in, the cursor is at the starts of the words. */
  lemma {:induction false} WalkIsTrue(words: seq<Text>, emotes: seq<Occurrence>, m: nat, w: nat)
    requires StartFirst(emotes) && w <= |words| && FitsBefore(words, emotes, m, w)
    ensures Walk(words, emotes, w) == Place(WordStart(words, w), Before(emotes[..m], WordStart(words, w)))
  {
    if w == 0 {
      NoneBeforeContent(words, emotes[..m]);
    } else {
      WalkIsTrue(words, emotes, m, w - 1);
      WalkStep(words, emotes, m, w - 1, Before(emotes[..m], WordStart(words, w - 1)),
               Before(emotes[..m], WordStart(words, w)));
    }
  }

  lemma WalkStep(words: seq<Text>, emotes: seq<Occurrence>, m: nat, w: nat, i: nat, n: nat)
    requires StartFirst(emotes) && m <= |emotes| && w < |words| && WellPlaced(words, emotes[..m])
    requires !LetsIn(words, emotes, m, w) && Walk(words, emotes, w) == Place(WordStart(words, w), i)
    requires i == Before(emotes[..m], WordStart(words, w)) && n == Before(emotes[..m], WordStart(words, w + 1))
    ensures Walk(words, emotes, w + 1) == Place(WordStart(words, w + 1), n)
  {
    GroupFits(words, emotes, m, w);
    if |words[w]| > 0 {
      WalkOfWord(|words[w]|, WordStart(words, w), emotes, i, n);
    }
  }

  lemma NoneBeforeContent(words: seq<Text>, emotes: seq<Occurrence>)
    requires WellPlaced(words, emotes)
    ensures Before(emotes, 0) == 0
  {
    if |emotes| > 0 {
      assert HasWord(words, emotes[0]);
    }
  }

  lemma AllBeforeEnd(words: seq<Text>, emotes: seq<Occurrence>)
    requires WellPlaced(words, emotes)
    ensures Before(emotes, WordStart(words, |words|)) == |emotes|
  {
    var n := Before(emotes, WordStart(words, |words|));
    if n < |emotes| {
      assert HasWord(words, emotes[n]);
      var v: nat :| InWord(words, v, emotes[n]);
      WordStartsGrow(words, v, |words|);
    }
  }

  // ---- When the cursor is true to the content ----

  /** The names are as long as their occurrences. */
  predicate Sized(emotes: seq<Occurrence>) {
    forall i :: 0 <= i < |emotes| ==>
      emotes[i].start <= emotes[i].end && |emotes[i].name| == emotes[i].end - emotes[i].start + 1
  }

  /** The first `m` occurrences are well placed, but not one more. */
  ghost predicate FirstUnplaced(words: seq<Text>, emotes: seq<Occurrence>, m: nat) {
    && m <= |emotes| && WellPlaced(words, emotes[..m])
    && (m < |emotes| ==> !WellPlaced(words, emotes[..m + 1]))
  }

  /** Word `w` lets occurrence `m` in, although it ends at the separator. */
  predicate Overhangs(words: seq<Text>, emotes: seq<Occurrence>, m: nat, w: nat) {
    LetsIn(words, emotes, m, w) && emotes[m].end == WordEnd(words, w)
  }

  lemma PlacedNext(words: seq<Text>, before: seq<Occurrence>, o: Occurrence, w: nat)
    requires WellPlaced(words, before) && InWord(words, w, o) && |o.name| == o.end - o.start + 1
    requires |before| > 0 ==> before[|before| - 1].end < o.start
    ensures WellPlaced(words, before + [o])
  {
    assert HasWord(words, o);
    forall i | 0 <= i < |before|
      ensures before[i].end < o.start
    {
      var last := |before| - 1;
      assert HasWord(words, before[last]);
      assert i < last ==> before[i].end < before[last].start;
    }
  }

  /** A word that lets the first unplaced occurrence in lets it in up to the separator. */
  lemma LetInOverhangs(words: seq<Text>, emotes: seq<Occurrence>, m: nat, w: nat)
    requires Sized(emotes) && FirstUnplaced(words, emotes, m)
    ensures LetsIn(words, emotes, m, w) <==> Overhangs(words, emotes, m, w)
  {
    if LetsIn(words, emotes, m, w) && emotes[m].end < WordEnd(words, w) {
      assert emotes[..m + 1] == emotes[..m] + [emotes[m]];
      PlacedNext(words, emotes[..m], emotes[m], w);
    }
  }

  lemma OnlyOneLetsIn(words: seq<Text>, emotes: seq<Occurrence>, m: nat, v: nat, w: nat)
    requires Sized(emotes) && LetsIn(words, emotes, m, v) && LetsIn(words, emotes, m, w)
    ensures v == w
  {
    if v < w {
      WordStartsGrow(words, v, w);
    } else if w < v {
      WordStartsGrow(words, w, v);
    }
  }

  /** Behind the word that an occurrence overhangs, the cursor is one too far. */
  lemma OverhangShifts(words: seq<Text>, emotes: seq<Occurrence>, m: nat, w: nat)
    requires Sized(emotes) && m <= |emotes| && WellPlaced(words, emotes[..m]) && Overhangs(words, emotes, m, w)
    ensures forall v: nat :: v <= w ==> Walk(words, emotes, v).cursor == WordStart(words, v)
    ensures Walk(words, emotes, w + 1) == Place(WordStart(words, w + 1) + 1, m + 1)
  {
    forall v: nat | v <= w
      ensures Walk(words, emotes, v) == Place(WordStart(words, v), Before(emotes[..m], WordStart(words, v)))
    {
      forall u: nat | u < v
        ensures !LetsIn(words, emotes, m, u)
      {
        if LetsIn(words, emotes, m, u) {
          OnlyOneLetsIn(words, emotes, m, u, w);
        }
      }
      WalkIsTrue(words, emotes, m, v);
    }
    GroupFits(words, emotes, m, w);
    OverhangIsNext(words, emotes, m, w);
    WalkBeyondWord(|words[w]|, WordStart(words, w), emotes, Before(emotes[..m], WordStart(words, w)), m);
  }

  lemma OverhangIsNext(words: seq<Text>, emotes: seq<Occurrence>, m: nat, w: nat)
    requires Sized(emotes) && m <= |emotes| && WellPlaced(words, emotes[..m]) && Overhangs(words, emotes, m, w)
    ensures Before(emotes[..m], WordStart(words, w + 1)) == m
  {
    GroupFits(words, emotes, m, w);
    var n := Before(emotes[..m], WordStart(words, w + 1));
    if n < m {
      LastIsLater(words, emotes[..m], n);
    }
  }

  lemma LastIsLater(words: seq<Text>, placed: seq<Occurrence>, n: nat)
    requires WellPlaced(words, placed) && n < |placed|
    ensures placed[n].start <= placed[|placed| - 1].end
  {
    assert HasWord(words, placed[n]) && HasWord(words, placed[|placed| - 1]);
    assert n < |placed| - 1 ==> placed[n].end < placed[|placed| - 1].start;
  }

  /** A word is never left before its end. */
  lemma {:induction false} WalkAdvances(cursor: int, left: nat, emotes: seq<Occurrence>, it: nat)
    requires it <= |emotes| && StartFirst(emotes) && (left > 0 || Contained(cursor, left, emotes, it))
    ensures WordWalk(cursor, left, emotes, it).cursor >= cursor + left + 1
    decreases |emotes| - it, if it < |emotes| && emotes[it].start > cursor then 1 else 0
  {
    if Contained(cursor, left, emotes, it) {
      if emotes[it].start > cursor {
        WalkAdvances(emotes[it].start, left - (emotes[it].start - cursor), emotes, it);
      } else if left > |emotes[it].name| {
        WalkAdvances(cursor + |emotes[it].name|, left - |emotes[it].name|, emotes, it + 1);
      }
    }
  }

  /** A cursor that is too far stays too far. */
  lemma {:induction false} ShiftStays(words: seq<Text>, emotes: seq<Occurrence>, w: nat, v: nat)
    requires StartFirst(emotes) && w <= v <= |words| && Walk(words, emotes, w).cursor > WordStart(words, w)
    ensures Walk(words, emotes, v).cursor > WordStart(words, v)
    decreases v - w
  {
    if w < v {
      ShiftStays(words, emotes, w, v - 1);
      var p := Walk(words, emotes, v - 1);
      if |words[v - 1]| > 0 {
        WalkAdvances(p.cursor, |words[v - 1]|, emotes, p.it);
      }
    }
  }

  ghost predicate StartsTrue(words: seq<Text>, emotes: seq<Occurrence>)
    requires StartFirst(emotes)
  {
    forall w: nat :: w < |words| ==> Walk(words, emotes, w).cursor == WordStart(words, w)
  }

  /** The cursor is at the start of every word exactly if the first occurrence that is not placed does
      not exist, is never let in, or overhangs the last word. */
  lemma StartsAreTrue(words: seq<Text>, emotes: seq<Occurrence>, m: nat)
    requires Sized(emotes) && FirstUnplaced(words, emotes, m)
    ensures StartsTrue(words, emotes) <==>
            (m < |emotes| ==> Misfit(words, emotes, m) || (|words| > 0 && Overhangs(words, emotes, m, |words| - 1)))
  {
    if m < |emotes| && !Misfit(words, emotes, m) {
      var w: nat :| LetsIn(words, emotes, m, w);
      LetInOverhangs(words, emotes, m, w);
      OverhangShifts(words, emotes, m, w);
      if Overhangs(words, emotes, m, |words| - 1) {
        OnlyOneLetsIn(words, emotes, m, w, |words| - 1);
      }
    } else {
      FittingStarts(words, emotes, m);
    }
  }

  lemma FittingStarts(words: seq<Text>, emotes: seq<Occurrence>, m: nat)
    requires StartFirst(emotes) && Fitting(words, emotes, m)
    ensures StartsTrue(words, emotes) && Walk(words, emotes, |words|).it == m
  {
    forall w: nat | w <= |words|
      ensures Walk(words, emotes, w) == Place(WordStart(words, w), Before(emotes[..m], WordStart(words, w)))
    {
      WalkIsTrue(words, emotes, m, w);
    }
    AllBeforeEnd(words, emotes[..m]);
  }

  /** Every list has exactly one such occurrence, and the beginning before it fits exactly if it does
      not overhang a word. */
  lemma OneUnplaced(words: seq<Text>, emotes: seq<Occurrence>) returns (m: nat)
    requires Sized(emotes)
    ensures FirstUnplaced(words, emotes, m) && forall n: nat :: FirstUnplaced(words, emotes, n) ==> n == m
    ensures Fitting(words, emotes, m) <==> forall w: nat :: !Overhangs(words, emotes, m, w)
  {
    m := 0;
    while m < |emotes| && WellPlaced(words, emotes[..m + 1])
      invariant m <= |emotes| && WellPlaced(words, emotes[..m])
    {
      m := m + 1;
    }
    forall n: nat | FirstUnplaced(words, emotes, n)
      ensures n == m
    {
      if n < m {
        PlacedBeginning(words, emotes, m, n + 1);
      } else if m < n {
        PlacedBeginning(words, emotes, n, m + 1);
      }
    }
    forall w: nat
      ensures LetsIn(words, emotes, m, w) <==> Overhangs(words, emotes, m, w)
    {
      LetInOverhangs(words, emotes, m, w);
    }
    if m == |emotes| {
      assert forall w: nat :: !Overhangs(words, emotes, m, w);
    }
  }

  lemma PlacedBeginning(words: seq<Text>, emotes: seq<Occurrence>, m: nat, n: nat)
    requires n <= m <= |emotes| && WellPlaced(words, emotes[..m])
    ensures WellPlaced(words, emotes[..n])
  {
    assert forall i :: 0 <= i < n ==> emotes[..n][i] == emotes[..m][i];
  }

  lemma FittingIsUnplaced(words: seq<Text>, emotes: seq<Occurrence>, n: nat)
    requires Fitting(words, emotes, n)
    ensures FirstUnplaced(words, emotes, n)
  {
    if n < |emotes| && WellPlaced(words, emotes[..n + 1]) {
      var placed := emotes[..n + 1];
      assert placed[n] == emotes[n] && (n > 0 ==> placed[n - 1] == emotes[n - 1]);
      assert HasWord(words, placed[n]);
      var w: nat :| InWord(words, w, placed[n]);
      assert LetsIn(words, emotes, n, w);
    }
  }

  /** If no occurrence ends at a separator, exactly one beginning of the list fits. */
  lemma OneBeginningFits(words: seq<Text>, emotes: seq<Occurrence>) returns (m: nat)
    requires Sized(emotes)
    requires forall k, w: nat :: 0 <= k < |emotes| && w < |words| ==> emotes[k].end != WordEnd(words, w)
    ensures Fitting(words, emotes, m) && forall n: nat :: Fitting(words, emotes, n) ==> n == m
  {
    m := OneUnplaced(words, emotes);
    assert forall w: nat :: !Overhangs(words, emotes, m, w);
    forall n: nat | Fitting(words, emotes, n)
      ensures n == m
    {
      FittingIsUnplaced(words, emotes, n);
    }
  }

  const KAPPA: Text := ['K' as int, 'a' as int, 'p' as int, 'p' as int, 'a' as int]
  const FOO: Text := ['f' as int, 'o' as int, 'o' as int]

  /** In `Kappa foo`, an occurrence of `Kappa` with the separator leaves the cursor at the second unit of
      `foo`, and the occurrence of `foo` is lost. */
  lemma KappaFoo(words: seq<Text>, emotes: seq<Occurrence>)
    requires words == [KAPPA, FOO]
    requires emotes == [Occurrence(0, 5, KAPPA + [SPACE]), Occurrence(6, 8, FOO)]
    ensures Content(words) == KAPPA + [0x20] + FOO && WordStart(words, 1) == 6
    ensures Walk(words, emotes, 1).cursor == 7
    ensures Walk(words, emotes, 2).it == 1
  {
    assert WordWalk(0, 5, emotes, 0) == Place(7, 1);
    assert Walk(words, emotes, 0) == Place(0, 0);
  }
}
