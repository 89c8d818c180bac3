/**
 * How src/messages/MessageBuilder.cpp (addWords) turns the words of a message and its emote
 * occurrences into elements.
 */
module MessageWords {
  import opened CodeUnits
  import opened Collections
  import opened WordCursor

  /** An emote, or a run of text that goes on to emoji parsing and word rendering. */
  datatype Element =
    | EmoteElement(occurrence: Occurrence, trailingSpace: bool)
    | TextElement(text: Text)

  // ---- What a list of elements says ----

  function TextOf(e: Element): Text {
    match e
    case EmoteElement(o, _) => o.name
    case TextElement(t) => t
  }

  function OccurrenceOf(e: Element): seq<Occurrence> {
    if e.EmoteElement? then [e.occurrence] else []
  }

  /** The source text of an element list. */
  function Source(elements: seq<Element>): Text {
    if |elements| == 0 then [] else Source(elements[..|elements| - 1]) + TextOf(elements[|elements| - 1])
  }

  function Occurrences(elements: seq<Element>): seq<Occurrence> {
    if |elements| == 0 then []
    else Occurrences(elements[..|elements| - 1]) + OccurrenceOf(elements[|elements| - 1])
  }

  /** `e` may follow `front` in a word of `size` units at `base`: an emote stands where it occurs and
      keeps its trailing space only at the end of the word; a text is not empty and does not follow
      another one. */
  predicate Fits(front: seq<Element>, e: Element, base: int, size: nat) {
    match e
    case EmoteElement(o, space) =>
      o.start == base + |Source(front)| && |o.name| == o.end - o.start + 1 && space == (o.end + 1 == base + size)
    case TextElement(t) =>
      |t| > 0 && (|front| == 0 || front[|front| - 1].EmoteElement?)
  }

  predicate Laid(elements: seq<Element>, base: int, size: nat) {
    |elements| == 0 ||
    (Laid(elements[..|elements| - 1], base, size) &&
     Fits(elements[..|elements| - 1], elements[|elements| - 1], base, size))
  }

  lemma Snoc(elements: seq<Element>, e: Element, base: int, size: nat)
    ensures Source(elements + [e]) == Source(elements) + TextOf(e)
    ensures Occurrences(elements + [e]) == Occurrences(elements) + OccurrenceOf(e)
    ensures Laid(elements + [e], base, size) == (Laid(elements, base, size) && Fits(elements, e, base, size))
  {
    assert (elements + [e])[..|elements|] == elements;
  }

  lemma {:induction false} OccurrencesSplit(a: seq<Element>, b: seq<Element>)
    ensures Occurrences(a + b) == Occurrences(a) + Occurrences(b)
  {
    if |b| == 0 {
      assert a + b == a;
    } else {
      var front, last := b[..|b| - 1], b[|b| - 1];
      OccurrencesSplit(a, front);
      assert (a + b)[..|a + b| - 1] == a + front;
      ConcatAssociates(Occurrences(a), Occurrences(front), OccurrenceOf(last));
    }
  }

  // ---- The loops ----

  /** doesWordContainATwitchEmote */
  predicate ContainsEmote(cursor: int, word: Text, emotes: seq<Occurrence>, it: nat) {
    Contained(cursor, |word|, emotes, it)
  }

  /** The occurrences `i` to `n` are those of the word `text` at `base`, and named in it. */
  ghost predicate Given(text: Text, base: int, emotes: seq<Occurrence>, i: nat, n: nat) {
    && OfWord(|text|, base, emotes, i, n)
    && (forall k :: i <= k < n ==> emotes[k].name == text[emotes[k].start - base..emotes[k].end + 1 - base])
  }

  /** The state of the inner loop: what is added and what is left of the word make up its text. */
  ghost predicate Progress(text: Text, base: int, emotes: seq<Occurrence>, e: nat, n: nat,
                           added: seq<Element>, word: Text, cursor: int, it: nat) {
    && e <= it <= n <= |emotes|
    && Source(added) + word == text && cursor == base + |Source(added)|
    && Occurrences(added) == emotes[e..it]
    && Laid(added, base, |text|)
    && (it < n ==> cursor <= emotes[it].start)
    && (|added| > 0 && added[|added| - 1].TextElement? ==> it < n && cursor == emotes[it].start)
  }

  lemma SliceSnoc<T>(s: seq<T>, i: nat, n: nat)
    requires i <= n < |s|
    ensures s[i..n] + [s[n]] == s[i..n + 1]
  {
  }

  /** What is emitted is the beginning of the list from `e` on, in order. */
  predicate Emitted(emotes: seq<Occurrence>, e: nat, it: nat, added: seq<Element>) {
    e <= it <= |emotes| && Occurrences(added) == emotes[e..it]
  }

  lemma EmitsNext(emotes: seq<Occurrence>, e: nat, it: nat, added: seq<Element>, space: bool)
    requires Emitted(emotes, e, it, added) && it < |emotes|
    ensures Emitted(emotes, e, it + 1, added + [EmoteElement(emotes[it], space)])
  {
    Snoc(added, EmoteElement(emotes[it], space), 0, 0);
    SliceSnoc(emotes, e, it);
  }

  lemma EmitsText(emotes: seq<Occurrence>, e: nat, it: nat, added: seq<Element>, t: Text)
    requires Emitted(emotes, e, it, added)
    ensures Emitted(emotes, e, it, added + [TextElement(t)])
  {
    Snoc(added, TextElement(t), 0, 0);
  }

  lemma EmoteStep(text: Text, base: int, emotes: seq<Occurrence>, e: nat, n: nat,
                  added: seq<Element>, word: Text, cursor: int, it: nat,
                  added': seq<Element>, word': Text, cursor': int)
    requires Given(text, base, emotes, e, n) && Progress(text, base, emotes, e, n, added, word, cursor, it)
    requires it < n && emotes[it].start == cursor
    requires word' == Mid(word, |emotes[it].name|) && cursor' == cursor + |emotes[it].name|
    requires added' == added + [EmoteElement(emotes[it], |word'| == 0)]
    ensures Progress(text, base, emotes, e, n, added', word', cursor', it + 1)
  {
    Snoc(added, EmoteElement(emotes[it], |word'| == 0), base, |text|);
    SliceSnoc(emotes, e, it);
  }

  lemma TextStep(text: Text, base: int, emotes: seq<Occurrence>, e: nat, n: nat,
                 added: seq<Element>, word: Text, cursor: int, it: nat,
                 added': seq<Element>, preText: Text, word': Text, cursor': int)
    requires Given(text, base, emotes, e, n) && Progress(text, base, emotes, e, n, added, word, cursor, it)
    requires it < n && emotes[it].start > cursor
    requires preText == Left(word, emotes[it].start - cursor) && word' == Mid(word, |preText|)
    requires cursor' == cursor + |preText| && added' == added + [TextElement(preText)]
    ensures |preText| > 0 && Progress(text, base, emotes, e, n, added', word', cursor', it)
  {
    Snoc(added, TextElement(preText), base, |text|);
  }

  /** The elements of a word: they spell it, show its occurrences in order, and each is in place. */
  ghost predicate Shows(text: Text, base: int, emotes: seq<Occurrence>, e: nat, n: nat, added: seq<Element>) {
    && Source(added) == text && Laid(added, base, |text|)
    && e <= n <= |emotes| && Occurrences(added) == emotes[e..n]
  }

  lemma LastStep(text: Text, base: int, emotes: seq<Occurrence>, e: nat, n: nat,
                 added: seq<Element>, word: Text, cursor: int, it: nat)
    requires Given(text, base, emotes, e, n) && Progress(text, base, emotes, e, n, added, word, cursor, it)
    requires it == n || !ContainsEmote(cursor, word, emotes, it)
    ensures it == n && cursor + |word| == base + |text|
    ensures Shows(text, base, emotes, e, n, if |word| == 0 then added else added + [TextElement(word)])
  {
    if |word| > 0 {
      Snoc(added, TextElement(word), base, |text|);
    }
  }

  /** Where the source text of a list ends that does not end with a text. */
  lemma EndOfLastEmote(p: seq<Element>, base: int, size: nat)
    requires Laid(p, base, size) && (|p| == 0 || p[|p| - 1].EmoteElement?)
    ensures var os := Occurrences(p);
            |Source(p)| == if |os| == 0 then 0 else os[|os| - 1].end + 1 - base
  {
  }

  /** Behind the last occurrence of the word, the next one is not let in while some of it is left. */
  lemma BlockedNow(text: Text, base: int, emotes: seq<Occurrence>, e: nat, n: nat,
                   added: seq<Element>, word: Text, cursor: int)
    requires Given(text, base, emotes, e, n) && Progress(text, base, emotes, e, n, added, word, cursor, n)
    requires |word| > 0
    ensures !ContainsEmote(cursor, word, emotes, n)
  {
    if e < n {
      assert Occurrences(added)[n - 1 - e] == emotes[n - 1];
      EndOfLastEmote(added, base, |text|);
    }
  }

  lemma WordDone(text: Text, base: int, emotes: seq<Occurrence>, e: nat, n: nat,
                 added: seq<Element>, word: Text, cursor: int, it: nat)
    requires Given(text, base, emotes, e, n) && Progress(text, base, emotes, e, n, added, word, cursor, it)
    requires |word| == 0
    ensures it == n
  {
    assert cursor == base + |text|;
  }

  /** Adds the emote at the cursor and takes its name off the word. */
  method TakeEmote(text: Text, base: int, emotes: seq<Occurrence>, e: nat, ghost n: nat,
                   added: seq<Element>, word: Text, cursor: int, it: nat)
    returns (added': seq<Element>, word': Text, cursor': int)
    requires Emitted(emotes, e, it, added) && StartFirst(emotes)
    requires ContainsEmote(cursor, word, emotes, it) && emotes[it].start == cursor
    ensures Emitted(emotes, e, it + 1, added')
    ensures WordWalk(cursor, |word|, emotes, it)
         == if |word'| == 0 then Place(cursor' + 1, it + 1) else WordWalk(cursor', |word'|, emotes, it + 1)
    ensures Given(text, base, emotes, e, n) && Progress(text, base, emotes, e, n, added, word, cursor, it) && it < n ==>
              Progress(text, base, emotes, e, n, added', word', cursor', it + 1)
  {
    var current := emotes[it];
    word' := Mid(word, |current.name|);
    added' := added + [EmoteElement(current, |word'| == 0)];
    cursor' := cursor + |current.name|;
    EmitsNext(emotes, e, it, added, |word'| == 0);
    WalkTakesEmote(cursor, |word|, emotes, it, cursor', |word'|);
    if Given(text, base, emotes, e, n) && Progress(text, base, emotes, e, n, added, word, cursor, it) && it < n {
      EmoteStep(text, base, emotes, e, n, added, word, cursor, it, added', word', cursor');
    }
  }

  /** Adds the text in front of the emote and takes it off the word; the cursor is at the emote. */
  method TakeText(text: Text, base: int, emotes: seq<Occurrence>, e: nat, ghost n: nat,
                  added: seq<Element>, word: Text, cursor: int, it: nat)
    returns (added': seq<Element>, word': Text, cursor': int)
    requires Emitted(emotes, e, it, added) && StartFirst(emotes)
    requires ContainsEmote(cursor, word, emotes, it) && emotes[it].start > cursor
    ensures Emitted(emotes, e, it, added')
    ensures cursor' == emotes[it].start
    ensures WordWalk(cursor, |word|, emotes, it) == WordWalk(cursor', |word'|, emotes, it)
    ensures Given(text, base, emotes, e, n) && Progress(text, base, emotes, e, n, added, word, cursor, it) && it < n ==>
              Progress(text, base, emotes, e, n, added', word', cursor', it) && |word'| > 0
  {
    var preText := Left(word, emotes[it].start - cursor);
    added' := added + [TextElement(preText)];
    cursor' := cursor + |preText|;
    word' := Mid(word, |preText|);
    EmitsText(emotes, e, it, added, preText);
    WalkTakesText(cursor, |word|, emotes, it);
    if Given(text, base, emotes, e, n) && Progress(text, base, emotes, e, n, added, word, cursor, it) && it < n {
      TextStep(text, base, emotes, e, n, added, word, cursor, it, added', preText, word', cursor');
    }
  }

  /** The inner loop over one word: the elements it adds, and the cursor and the iterator behind it. */
  method AddWord(text: Text, base: int, emotes: seq<Occurrence>, e: nat, ghost n: nat)
    returns (added: seq<Element>, cursor: int, it: nat)
    requires |text| > 0 && e <= |emotes| && StartFirst(emotes)
    ensures Emitted(emotes, e, it, added) && Place(cursor, it) == WordWalk(base, |text|, emotes, e)
    ensures Given(text, base, emotes, e, n) ==>
              it == n && cursor == base + |text| + 1 && Shows(text, base, emotes, e, n, added)
  {
    ghost var given := Given(text, base, emotes, e, n);
    var word := text;
    added, cursor, it := [], base, e;
    while ContainsEmote(cursor, word, emotes, it)
      invariant Emitted(emotes, e, it, added)
      invariant WordWalk(cursor, |word|, emotes, it) == WordWalk(base, |text|, emotes, e)
      invariant given ==> |word| > 0 && Progress(text, base, emotes, e, n, added, word, cursor, it)
      decreases |emotes| - it, if it < |emotes| && emotes[it].start > cursor then 1 else 0
    {
      if given {
        StillBefore(text, base, emotes, e, n, added, word, cursor, it);
      }
      if emotes[it].start == cursor {
        added, word, cursor := TakeEmote(text, base, emotes, e, n, added, word, cursor, it);
        it := it + 1;
        if |word| == 0 {
          if given {
            WordDone(text, base, emotes, e, n, added, word, cursor, it);
            LastStep(text, base, emotes, e, n, added, word, cursor, it);
          }
          cursor := cursor + 1;
          return;
        }
        continue;
      }
      added, word, cursor := TakeText(text, base, emotes, e, n, added, word, cursor, it);
    }
    if given {
      LastStep(text, base, emotes, e, n, added, word, cursor, it);
    }
    if |word| == 0 {
      return;
    }
    EmitsText(emotes, e, it, added, word);
    added := added + [TextElement(word)];
    cursor := cursor + |word| + 1;
  }

  /** What the word contains is one of its own occurrences. */
  lemma StillBefore(text: Text, base: int, emotes: seq<Occurrence>, e: nat, n: nat,
                    added: seq<Element>, word: Text, cursor: int, it: nat)
    requires Given(text, base, emotes, e, n) && Progress(text, base, emotes, e, n, added, word, cursor, it)
    requires ContainsEmote(cursor, word, emotes, it) && |word| > 0
    ensures it < n
  {
    if it == n {
      BlockedNow(text, base, emotes, e, n, added, word, cursor);
    }
  }

  /** What it means that a word is shown: every emote stands where the text in front of it ends, and has a
      trailing space exactly at the end of the word; no text is empty or follows another one. */
  lemma {:induction false} ShownMeans(added: seq<Element>, base: int, size: nat, k: nat)
    requires Laid(added, base, size) && k < |added|
    ensures added[k].EmoteElement? ==>
              && added[k].occurrence.start == base + |Source(added[..k])|
              && (added[k].trailingSpace <==> added[k].occurrence.end == base + size - 1)
    ensures added[k].TextElement? ==> added[k].text != [] && (k > 0 ==> added[k - 1].EmoteElement?)
  {
    if k < |added| - 1 {
      ShownMeans(added[..|added| - 1], base, size, k);
      assert added[..|added| - 1][..k] == added[..k];
    }
  }

  // ---- All words ----

  /** Word `w` is shown by `group`, at its own place and with its own occurrences. */
  ghost predicate GroupShows(words: seq<Text>, emotes: seq<Occurrence>, w: nat, group: seq<Element>)
    requires w < |words|
  {
    var start := WordStart(words, w);
    Shows(words[w], start, emotes, Before(emotes, start), Before(emotes, WordStart(words, w + 1)), group)
  }

  lemma GroupAdded(groups: seq<seq<Element>>, elements: seq<Element>, added: seq<Element>)
    requires elements == Concat(groups)
    ensures elements + added == Concat(groups + [added])
  {
    ConcatSplit(groups, [added]);
    ConcatOne(added);
  }

  lemma OccurrencesAdded(emotes: seq<Occurrence>, e: nat, n: nat, elements: seq<Element>, added: seq<Element>)
    requires e <= n <= |emotes| && Occurrences(elements) == emotes[..e] && Occurrences(added) == emotes[e..n]
    ensures Occurrences(elements + added) == emotes[..n]
  {
    OccurrencesSplit(elements, added);
  }

  lemma WordGiven(words: seq<Text>, emotes: seq<Occurrence>, m: nat, w: nat)
    requires w < |words| && |words[w]| > 0 && FitsBefore(words, emotes, m, w + 1) && Named(Content(words), emotes)
    ensures var start := WordStart(words, w);
            Given(words[w], start, emotes, Before(emotes[..m], start), Before(emotes[..m], WordStart(words, w + 1)))
  {
    assert !LetsIn(words, emotes, m, w);
    GroupFits(words, emotes, m, w);
    WordsInContent(words, w);
    NamedInWord(Content(words), words[w], WordStart(words, w), emotes,
                Before(emotes[..m], WordStart(words, w)), Before(emotes[..m], WordStart(words, w + 1)));
  }

  lemma NamedInWord(content: Text, word: Text, start: nat, emotes: seq<Occurrence>, i: nat, n: nat)
    requires start + |word| <= |content| && content[start..start + |word|] == word
    requires Named(content, emotes) && OfWord(|word|, start, emotes, i, n)
    ensures Given(word, start, emotes, i, n)
  {
    forall k | i <= k < n
      ensures emotes[k].name == word[emotes[k].start - start..emotes[k].end + 1 - start]
    {
      SubSlice(content, start, start + |word|, emotes[k].start, emotes[k].end + 1);
    }
  }

  /** An empty word is shown by nothing and has no occurrences. */
  lemma EmptyWord(words: seq<Text>, emotes: seq<Occurrence>, w: nat)
    requires w < |words| && |words[w]| == 0 && WellPlaced(words, emotes)
    ensures Before(emotes, WordStart(words, w)) == Before(emotes, WordStart(words, w + 1))
    ensures GroupShows(words, emotes, w, [])
  {
    GroupIsInside(words, emotes, w);
  }

  /** The groups so far show the words, up to the first `n` ones. */
  ghost predicate GroupsSoFar(words: seq<Text>, emotes: seq<Occurrence>, groups: seq<seq<Element>>, n: nat) {
    |groups| <= |words| && forall k :: 0 <= k < |groups| && k < n ==> GroupShows(words, emotes, k, groups[k])
  }

  lemma GroupsNext(words: seq<Text>, emotes: seq<Occurrence>, groups: seq<seq<Element>>, n: nat, added: seq<Element>)
    requires GroupsSoFar(words, emotes, groups, n) && |groups| < |words|
    requires |groups| < n ==> GroupShows(words, emotes, |groups|, added)
    ensures GroupsSoFar(words, emotes, groups + [added], n)
  {
  }

  lemma ShownOfPrefix(text: Text, base: int, emotes: seq<Occurrence>, m: nat, e: nat, n: nat, added: seq<Element>)
    requires Shows(text, base, emotes, e, n, added) && n <= m <= |emotes|
    ensures Shows(text, base, emotes[..m], e, n, added)
  {
    assert emotes[..m][e..n] == emotes[e..n];
  }

  /** The word behind the groups so far is shown by what is added for it. */
  lemma WordShown(words: seq<Text>, emotes: seq<Occurrence>, m: nat, w: nat, p: Place, q: Place, added: seq<Element>)
    requires StartFirst(emotes) && w < |words| && FitsBefore(words, emotes, m, w + 1) && Named(Content(words), emotes)
    requires p == Walk(words, emotes, w) && q == Walk(words, emotes, w + 1)
    requires |words[w]| == 0 ==> |added| == 0
    requires |words[w]| > 0 && Given(words[w], p.cursor, emotes, p.it, q.it) ==>
               Shows(words[w], p.cursor, emotes, p.it, q.it, added)
    ensures GroupShows(words, emotes[..m], w, added)
  {
    WalkIsTrue(words, emotes, m, w);
    WalkIsTrue(words, emotes, m, w + 1);
    if |words[w]| == 0 {
      EmptyWord(words, emotes[..m], w);
    } else {
      WordGiven(words, emotes, m, w);
      ShownOfPrefix(words[w], p.cursor, emotes, m, p.it, q.it, added);
    }
  }

  /** After `w` words: cursor and iterator are those of `Walk`, and a beginning of the list is
      emitted. */
  ghost predicate Walked(words: seq<Text>, emotes: seq<Occurrence>, w: nat, p: Place,
                         elements: seq<Element>, starts: seq<int>, groups: seq<seq<Element>>)
    requires StartFirst(emotes)
  {
    && w <= |words| && p == Walk(words, emotes, w)
    && Occurrences(elements) == emotes[..p.it]
    && |starts| == |groups| == w && elements == Concat(groups)
    && forall k :: 0 <= k < w ==> starts[k] == Walk(words, emotes, k).cursor
  }

  lemma WalkedOn(words: seq<Text>, emotes: seq<Occurrence>, w: nat, p: Place, q: Place,
                 elements: seq<Element>, starts: seq<int>, groups: seq<seq<Element>>, added: seq<Element>)
    requires StartFirst(emotes) && w < |words| && Walked(words, emotes, w, p, elements, starts, groups)
    requires q == if |words[w]| == 0 then Place(p.cursor + 1, p.it) else WordWalk(p.cursor, |words[w]|, emotes, p.it)
    requires Emitted(emotes, p.it, q.it, added)
    ensures Walked(words, emotes, w + 1, q, elements + added, starts + [p.cursor], groups + [added])
  {
    GroupAdded(groups, elements, added);
    OccurrencesAdded(emotes, p.it, q.it, elements, added);
  }

  /** Emits the elements of all words. What is emitted is always a beginning of the list, up to
      `reached`, and the cursor at the start of every word, recorded in `starts`, is that of `Walk`. If
      the first `m` occurrences are well placed and none of the first `n` words lets the next one in,
      these words are shown with their own occurrences. If no word at all does, exactly the first `m`
      occurrences are emitted. */
  method AddWords(words: seq<Text>, emotes: seq<Occurrence>, ghost m: nat, ghost n: nat)
    returns (elements: seq<Element>, starts: seq<int>, reached: nat, ghost groups: seq<seq<Element>>)
    requires StartFirst(emotes) && n <= |words|
    ensures |starts| == |words| && forall w :: 0 <= w < |words| ==> starts[w] == Walk(words, emotes, w).cursor
    ensures reached == Walk(words, emotes, |words|).it && Occurrences(elements) == emotes[..reached]
    ensures Fitting(words, emotes, m) ==> reached == m && StartsTrue(words, emotes)
    ensures |groups| == |words| && elements == Concat(groups)
    ensures FitsBefore(words, emotes, m, n) && Named(Content(words), emotes) ==>
              GroupsSoFar(words, emotes[..m], groups, n)
  {
    ghost var placed := FitsBefore(words, emotes, m, n) && Named(Content(words), emotes);
    elements, starts, groups := [], [], [];
    var cursor := 0;
    var it: nat := 0;
    for w := 0 to |words|
      invariant it <= |emotes| && Walked(words, emotes, w, Place(cursor, it), elements, starts, groups)
      invariant placed ==> GroupsSoFar(words, emotes[..m], groups, n)
    {
      ghost var i := Walk(words, emotes, w + 1).it;
      ghost var before := Place(cursor, it);
      var added: seq<Element> := [];
      ghost var startsBefore := starts;
      starts := starts + [cursor];
      if |words[w]| == 0 {
        cursor := cursor + 1;
      } else {
        added, cursor, it := AddWord(words[w], cursor, emotes, it, i);
      }
      WalkedOn(words, emotes, w, before, Place(cursor, it), elements, startsBefore, groups, added);
      if placed {
        if w < n {
          WordShown(words, emotes, m, w, before, Place(cursor, it), added);
        }
        GroupsNext(words, emotes[..m], groups, n, added);
      }
      elements, groups := elements + added, groups + [added];
    }
    reached := it;
    if Fitting(words, emotes, m) {
      FittingStarts(words, emotes, m);
    }
  }

  /** Joined with the separators, the source texts of the groups give back the content. */
  lemma GroupsGiveBackContent(words: seq<Text>, emotes: seq<Occurrence>, groups: seq<seq<Element>>)
    requires |groups| == |words| && GroupsSoFar(words, emotes, groups, |words|)
    ensures Content(seq(|groups|, w requires 0 <= w < |groups| => Source(groups[w]))) == Content(words)
  {
    assert seq(|groups|, w requires 0 <= w < |groups| => Source(groups[w])) == words;
  }

  // ---- Only one element list shows a word ----

  /** Spelling, occurrences and places leave no choice. */
  lemma {:induction false} ShownOneWay(x: seq<Element>, y: seq<Element>, base: int, size: nat)
    requires Laid(x, base, size) && Laid(y, base, size)
    requires Source(x) == Source(y) && Occurrences(x) == Occurrences(y)
    ensures x == y
  {
    if |x| == 0 {
      NothingShown(y, base, size);
    } else if |y| == 0 {
      NothingShown(x, base, size);
    } else {
      var p, q, a, b := x[..|x| - 1], y[..|y| - 1], x[|x| - 1], y[|y| - 1];
      EndsAlike(p, a, q, b, base, size);
      ShownOneWay(p, q, base, size);
      LastAndFront(x);
      LastAndFront(y);
    }
  }

  lemma LastAndFront(x: seq<Element>)
    requires |x| > 0
    ensures x == x[..|x| - 1] + [x[|x| - 1]]
  {
  }

  lemma NothingShown(x: seq<Element>, base: int, size: nat)
    requires Laid(x, base, size) && |Source(x)| == 0 && |Occurrences(x)| == 0
    ensures |x| == 0
  {
  }

  lemma EndsAlike(p: seq<Element>, a: Element, q: seq<Element>, b: Element, base: int, size: nat)
    requires Laid(p, base, size) && Fits(p, a, base, size) && Laid(q, base, size) && Fits(q, b, base, size)
    requires Source(p) + TextOf(a) == Source(q) + TextOf(b)
    requires Occurrences(p) + OccurrenceOf(a) == Occurrences(q) + OccurrenceOf(b)
    ensures a == b && Source(p) == Source(q) && Occurrences(p) == Occurrences(q)
  {
    if a.TextElement? {
      EndOfLastEmote(p, base, size);
    }
    if b.TextElement? {
      EndOfLastEmote(q, base, size);
    }
    var os := Occurrences(p) + OccurrenceOf(a);
    assert a.EmoteElement? ==> os[|os| - 1] == a.occurrence;
    assert b.EmoteElement? ==> os[|os| - 1] == b.occurrence;
    SplitAlike(Occurrences(p), OccurrenceOf(a), Occurrences(q), OccurrenceOf(b));
    SplitAlike(Source(p), TextOf(a), Source(q), TextOf(b));
  }

  lemma SplitAlike<T>(p: seq<T>, a: seq<T>, q: seq<T>, b: seq<T>)
    requires p + a == q + b
    ensures |p| == |q| ==> p == q && a == b
  {
    if |p| == |q| {
      assert p == (p + a)[..|p|] && a == (p + a)[|p|..];
      assert q == (q + b)[..|p|] && b == (q + b)[|p|..];
    }
  }

  // ---- Why start <= end matters ----

  /** An occurrence that starts behind the word and ends before its end stops the inner loop from
      advancing: taking the text before it empties the word, and nothing changes any more. No
      other occurrence that passes the check does this. */
  lemma StuckExactlyBehindWord(cursor: int, word: Text, emotes: seq<Occurrence>, it: nat)
    requires ContainsEmote(cursor, word, emotes, it) && emotes[it].start > cursor
    ensures var preText := Left(word, emotes[it].start - cursor);
            var cursor' := cursor + |preText|;
            var word' := Mid(word, |preText|);
            && (cursor' == emotes[it].start <==> emotes[it].start <= cursor + |word|)
            && (emotes[it].start > cursor + |word| ==>
                && |word'| == 0 && ContainsEmote(cursor', word', emotes, it) && emotes[it].start > cursor'
                && |Left(word', emotes[it].start - cursor')| == 0)
    ensures emotes[it].start <= emotes[it].end ==> emotes[it].start <= cursor + |word|
  {
  }
}
