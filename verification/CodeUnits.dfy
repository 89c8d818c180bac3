/** Texts as sequences of UTF-16 code units, and their slices as `QString` takes them. */
module CodeUnits {
  import opened Collections

  type Unit = u: int | 0 <= u < 0x1_0000
  type Text = seq<Unit>

  /** `QString::left`: at most `n` units. */
  function Left(t: Text, n: nat): Text {
    t[..Min(n, |t|)]
  }

  /** `QString::mid`: everything after `n` units, possibly nothing. */
  function Mid(t: Text, n: nat): Text {
    t[Min(n, |t|)..]
  }
}
