/**
 * The fallback loop of src/messages/MessageElement.cpp (TextElement::addToContainer) that wraps a
 * word that fits no line. Font metrics and the container are parameters: `advance` gives the width
 * of a glyph, and `room` what fits in a line, counted from the line the word starts in.
 */
module Wrapping {
  import opened CodeUnits

  predicate IsHighSurrogate(u: Unit) {
    0xD800 <= u < 0xDC00
  }

  predicate IsLowSurrogate(u: Unit) {
    0xDC00 <= u < 0xE000
  }

  /** Where the glyph at `i` ends: a high surrogate takes the next unit with it, whatever it is. */
  function GlyphEnd(word: Text, i: nat): (e: nat)
    requires i < |word|
    ensures i < e <= |word|
  {
    if i + 1 < |word| && IsHighSurrogate(word[i]) then i + 2 else i + 1
  }

  function GlyphWidth(advance: Text -> real, word: Text, i: nat): real
    requires i < |word|
  {
    advance(word[i..GlyphEnd(word, i)])
  }

  /** `b` is reached from `a` glyph by glyph. */
  predicate Aligned(word: Text, a: nat, b: nat)
    requires a <= b <= |word|
    decreases b - a
  {
    a == b || (GlyphEnd(word, a) <= b && Aligned(word, GlyphEnd(word, a), b))
  }

  /** The widths of the glyphs from `a` to `b`. */
  function Width(advance: Text -> real, word: Text, a: nat, b: nat): real
    requires a <= b <= |word| && Aligned(word, a, b)
    decreases b - a
  {
    if a == b then 0.0 else GlyphWidth(advance, word, a) + Width(advance, word, GlyphEnd(word, a), b)
  }

  lemma {:induction false} GlyphAtEnd(advance: Text -> real, word: Text, a: nat, b: nat)
    requires a <= b < |word| && Aligned(word, a, b)
    ensures Aligned(word, a, GlyphEnd(word, b))
    ensures Width(advance, word, a, GlyphEnd(word, b)) == Width(advance, word, a, b) + GlyphWidth(advance, word, b)
    decreases b - a
  {
    if a < b {
      GlyphAtEnd(advance, word, GlyphEnd(word, a), b);
    }
  }

  lemma {:induction false} AlignedJoins(word: Text, a: nat, b: nat, c: nat)
    requires a <= b <= c <= |word| && Aligned(word, a, b) && Aligned(word, b, c)
    ensures Aligned(word, a, c)
    decreases b - a
  {
    if a < b {
      AlignedJoins(word, GlyphEnd(word, a), b, c);
    }
  }

  // ---- Pieces ----

  /** The units `lo` to `hi` of the word, laid out in a line of their own. */
  datatype Piece = Piece(lo: nat, hi: nat, width: real)

  /** A piece is made of whole glyphs and as wide as they are, and fits line `k`. Behind the first
      line, a single glyph may be too wide, and no piece is empty. */
  predicate GoodPiece(advance: Text -> real, room: nat -> real, word: Text, k: nat, p: Piece) {
    && p.lo <= p.hi <= |word| && Aligned(word, p.lo, p.hi)
    && p.width == Width(advance, word, p.lo, p.hi)
    && (p.lo < p.hi && (k == 0 || GlyphEnd(word, p.lo) < p.hi) ==> p.width <= room(k))
    && (p.lo == p.hi ==> k == 0)
  }

  /** The glyph behind piece `k` would not have fit its line. */
  predicate Greedy(advance: Text -> real, room: nat -> real, word: Text, k: nat, p: Piece) {
    p.hi < |word| && p.width + GlyphWidth(advance, word, p.hi) > room(k)
  }

  /** The pieces cover the word up to `end`. */
  predicate Tile(pieces: seq<Piece>, end: nat) {
    if |pieces| == 0 then end == 0
    else pieces[|pieces| - 1].hi == end && Tile(pieces[..|pieces| - 1], pieces[|pieces| - 1].lo)
  }

  /** Full lines, and what `end` leaves of the word is still to be laid out. */
  ghost predicate Lines(advance: Text -> real, room: nat -> real, word: Text, pieces: seq<Piece>, end: nat) {
    && Tile(pieces, end)
    && (forall k :: 0 <= k < |pieces| ==> GoodPiece(advance, room, word, k, pieces[k]))
    && (forall k :: 0 <= k < |pieces| ==> Greedy(advance, room, word, k, pieces[k]))
  }

  /** The piece with the next glyph, and the piece that begins with it. */
  lemma GlyphTaken(advance: Text -> real, room: nat -> real, word: Text, k: nat, lo: nat, i: nat, width: real)
    requires i < |word| && GoodPiece(advance, room, word, k, Piece(lo, i, width))
    ensures var e, wide := GlyphEnd(word, i), width + GlyphWidth(advance, word, i);
            wide <= room(k) ==> GoodPiece(advance, room, word, k, Piece(lo, e, wide))
    ensures GoodPiece(advance, room, word, k + 1, Piece(i, GlyphEnd(word, i), GlyphWidth(advance, word, i)))
  {
    GlyphAtEnd(advance, word, lo, i);
    GlyphAtEnd(advance, word, i, i);
  }

  method Wrap(advance: Text -> real, room: nat -> real, word: Text) returns (pieces: seq<Piece>)
    ensures |pieces| > 0 && Tile(pieces, |word|)
    ensures forall k :: 0 <= k < |pieces| ==> GoodPiece(advance, room, word, k, pieces[k])
    ensures forall k :: 0 <= k < |pieces| - 1 ==> Greedy(advance, room, word, k, pieces[k])
  {
    pieces := [];
    var textLength := |word|;
    var wordStart := 0;
    var width := 0.0;
    var i := 0;
    while i < textLength
      invariant 0 <= wordStart <= i <= |word|
      invariant wordStart < i || (i == 0 && |pieces| == 0)
      invariant GoodPiece(advance, room, word, |pieces|, Piece(wordStart, i, width))
      invariant Lines(advance, room, word, pieces, wordStart)
    {
      GlyphTaken(advance, room, word, |pieces|, wordStart, i, width);
      var isSurrogate := i + 1 < |word| && IsHighSurrogate(word[i]);
      var charWidth := if isSurrogate then advance(word[i..i + 2]) else advance(word[i..i + 1]);
      if !(width + charWidth <= room(|pieces|)) {
        pieces := pieces + [Piece(wordStart, i, width)];
        wordStart := i;
        width := charWidth;
        if isSurrogate {
          i := i + 1;
        }
        i := i + 1;
        continue;
      }
      width := width + charWidth;
      if isSurrogate {
        i := i + 1;
      }
      i := i + 1;
    }
    PieceAdded(pieces, Piece(wordStart, textLength, width));
    pieces := pieces + [Piece(wordStart, textLength, width)];
  }

  lemma PieceAdded(pieces: seq<Piece>, p: Piece)
    requires Tile(pieces, p.lo)
    ensures Tile(pieces + [p], p.hi)
  {
    assert (pieces + [p])[..|pieces|] == pieces;
  }

  // ---- What the pieces say ----

  function Said(word: Text, pieces: seq<Piece>): Text {
    if |pieces| == 0 then [] else
      var p := pieces[|pieces| - 1];
      Said(word, pieces[..|pieces| - 1]) + if p.lo <= p.hi <= |word| then word[p.lo..p.hi] else []
  }

  /** Put together, the pieces give the word; every cut is between glyphs, counted from its start. */
  lemma {:induction false} PiecesSayWord(advance: Text -> real, room: nat -> real, word: Text,
                                         pieces: seq<Piece>, end: nat)
    requires Tile(pieces, end) && end <= |word|
    requires forall k :: 0 <= k < |pieces| ==> GoodPiece(advance, room, word, k, pieces[k])
    ensures Said(word, pieces) == word[..end]
    ensures Aligned(word, 0, end)
    ensures forall k :: 0 <= k < |pieces| ==> pieces[k].hi <= |word| && Aligned(word, 0, pieces[k].hi)
  {
    if |pieces| > 0 {
      var front, p := pieces[..|pieces| - 1], pieces[|pieces| - 1];
      PiecesSayWord(advance, room, word, front, p.lo);
      AlignedJoins(word, 0, p.lo, p.hi);
      assert word[..p.lo] + word[p.lo..p.hi] == word[..p.hi];
    }
  }

  /** High and low surrogates stand in pairs. */
  predicate WellFormed(word: Text) {
    && (forall i :: 0 <= i < |word| && IsHighSurrogate(word[i]) ==> i + 1 < |word| && IsLowSurrogate(word[i + 1]))
    && (forall i :: 0 <= i < |word| && IsLowSurrogate(word[i]) ==> i > 0 && IsHighSurrogate(word[i - 1]))
  }

  predicate CutsPair(word: Text, c: nat) {
    0 < c < |word| && IsHighSurrogate(word[c - 1]) && IsLowSurrogate(word[c])
  }

  /** A cut between glyphs is inside a pair exactly if its high surrogate was taken along by another
      one in front of it. */
  lemma {:induction false} CutInsidePair(word: Text, a: nat, c: nat)
    requires a < c <= |word| && Aligned(word, a, c)
    ensures CutsPair(word, c) <==>
            c >= a + 2 && c < |word| && IsHighSurrogate(word[c - 2]) && IsHighSurrogate(word[c - 1])
              && IsLowSurrogate(word[c]) && Aligned(word, a, c - 2)
    decreases c - a
  {
    var e := GlyphEnd(word, a);
    if e < c {
      CutInsidePair(word, e, c);
      if c == e + 1 {
        assert Aligned(word, e, c);
      }
    }
  }

  /** Two high surrogates and a low one, each glyph as wide as a line: the pair is cut. */
  lemma DoubledHighIsCut(advance: Text -> real, room: nat -> real, word: Text, pieces: seq<Piece>)
    requires (forall t :: advance(t) == 1.0) && (forall k :: room(k) == 1.0) && word == [0xD800, 0xD800, 0xDC00]
    requires |pieces| > 0 && Tile(pieces, |word|)
    requires forall k :: 0 <= k < |pieces| ==> GoodPiece(advance, room, word, k, pieces[k])
    requires forall k :: 0 <= k < |pieces| - 1 ==> Greedy(advance, room, word, k, pieces[k])
    ensures pieces[0].hi == 2 && CutsPair(word, 2)
  {
    var p := pieces[0];
    TileStart(pieces, |word|);
    assert GoodPiece(advance, room, word, 0, p);
    assert GlyphEnd(word, 0) == 2 && GlyphEnd(word, 2) == 3;
    assert Aligned(word, 2, 3) && Width(advance, word, 2, 3) == 1.0;
    assert Aligned(word, 0, 3) && Width(advance, word, 0, 3) == 2.0;
  }

  /** A well-formed word is never cut inside a surrogate pair. */
  lemma PairsStayTogether(advance: Text -> real, room: nat -> real, word: Text, pieces: seq<Piece>)
    requires WellFormed(word) && Tile(pieces, |word|)
    requires forall k :: 0 <= k < |pieces| ==> GoodPiece(advance, room, word, k, pieces[k])
    ensures forall k :: 0 <= k < |pieces| ==> !CutsPair(word, pieces[k].hi)
  {
    PiecesSayWord(advance, room, word, pieces, |word|);
    forall k | 0 <= k < |pieces|
      ensures !CutsPair(word, pieces[k].hi)
    {
      if pieces[k].hi > 0 {
        CutInsidePair(word, 0, pieces[k].hi);
      }
    }
  }

  lemma {:induction false} WidthIsNotNegative(advance: Text -> real, word: Text, a: nat, b: nat)
    requires a <= b <= |word| && Aligned(word, a, b) && forall t :: advance(t) >= 0.0
    ensures Width(advance, word, a, b) >= 0.0
    decreases b - a
  {
    if a < b {
      WidthIsNotNegative(advance, word, GlyphEnd(word, a), b);
    }
  }

  /** The first piece is empty exactly if the first glyph does not fit its line. */
  lemma EmptyFirstPiece(advance: Text -> real, room: nat -> real, word: Text, pieces: seq<Piece>)
    requires |word| > 0 && |pieces| > 0 && Tile(pieces, |word|)
    requires forall k :: 0 <= k < |pieces| ==> GoodPiece(advance, room, word, k, pieces[k])
    requires forall k :: 0 <= k < |pieces| - 1 ==> Greedy(advance, room, word, k, pieces[k])
    requires forall t :: advance(t) >= 0.0
    ensures var glyph := if |word| > 1 && 0xD800 <= word[0] < 0xDC00 then word[..2] else word[..1];
            pieces[0].lo == 0 && (pieces[0].hi == 0 <==> advance(glyph) > room(0))
  {
    TileStart(pieces, |word|);
    if pieces[0].hi == 0 {
      assert |pieces| > 1;
      assert Greedy(advance, room, word, 0, pieces[0]);
    } else {
      assert GoodPiece(advance, room, word, 0, pieces[0]);
      WidthIsNotNegative(advance, word, GlyphEnd(word, 0), pieces[0].hi);
    }
  }

  lemma {:induction false} TileStart(pieces: seq<Piece>, end: nat)
    requires Tile(pieces, end) && |pieces| > 0
    ensures pieces[0].lo == 0 && pieces[|pieces| - 1].hi == end
  {
    if |pieces| > 1 {
      TileStart(pieces[..|pieces| - 1], pieces[|pieces| - 1].lo);
    }
  }
}
