/**
 * `rm_fmt_progress_print_text`: the status text is right-justified in a
 * column of `width` printable characters by leading spaces, and printed
 * unchanged.
 */
module TextColumn {
  import opened Seqs
  import opened Escapes
  import opened ColorStrip

  /** One more than the largest `guint32`. */
  const Word: nat := 0x1_0000_0000

  /** Number of leading spaces: the shortfall of `textLen` against `width`,
      and none when the width is negative. */
  function Padding(textLen: nat, width: int): (r: nat)
    ensures textLen < width ==> textLen + r == width
    ensures width <= textLen ==> r == 0
  {
    if textLen < width then width - textLen else 0
  }

  /** The padding loop as written: `width` is cast to `unsigned` for the test
      and the count `width - text_len` is taken in 32-bit unsigned arithmetic. */
  function PaddingAsWritten(textLen: nat, width: int): (r: nat)
    requires textLen < Word
    requires -(Word / 2) <= width < Word / 2
    ensures r < Word
  {
    if textLen < width % Word then (width - textLen) % Word else 0
  }

  /** For every width the terminal can give (`0 <= width < 2^31`) the loop as
      written pads exactly as `Padding` does. */
  lemma PaddingAsWrittenAgrees(textLen: nat, width: int)
    requires textLen < Word && 0 <= width < Word / 2
    ensures PaddingAsWritten(textLen, width) == Padding(textLen, width)
  {
  }

  /** A negative width (`ws_col == 0` gives `-1`) wraps to more than 2^31
      columns: the loop as written prints over two billion spaces. */
  lemma NegativeWidthFloods(textLen: nat, width: int)
    requires textLen < Capacity && -(Word / 2) <= width < 0
    ensures PaddingAsWritten(textLen, width) == Word + width - textLen
    ensures PaddingAsWritten(textLen, width) > Word / 2 - Capacity
    ensures PaddingAsWritten(0, -1) == Word - 1
  {
    assert width % Word == Word + width;
    assert (width - textLen) % Word == Word + width - textLen;
    assert (-1) % Word == Word - 1;
  }

  /** A space is printable, so leading spaces add one column each. */
  lemma {:induction false} SpacesVisible(n: nat, text: seq<char>)
    ensures VisibleLength(Repeat(' ', n) + text) == n + VisibleLength(text)
  {
    if n > 0 {
      var rest := Repeat(' ', n - 1) + text;
      assert Repeat(' ', n) + text == [' '] + rest;
      PrependGlyph(' ', rest);
      assert Segments([' '] + rest)[1..] == Segments(rest);
      SpacesVisible(n - 1, text);
    } else {
      assert Repeat(' ', n) + text == text;
    }
  }

  /** What the text column prints for a buffer whose length is `textLen`. */
  function RightJustify(textLen: nat, width: int, text: seq<char>): (r: seq<char>)
    ensures |r| == |text| + Padding(textLen, width)
    ensures r[|r| - |text|..] == text
    ensures forall k :: 0 <= k < |r| - |text| ==> r[k] == ' '
    ensures textLen < width ==> |r| - |text| == width - textLen
    ensures textLen >= width ==> r == text
    ensures VisibleLength(r) == Padding(textLen, width) + VisibleLength(text)
  {
    SpacesVisible(Padding(textLen, width), text);
    Repeat(' ', Padding(textLen, width)) + text
  }

  /** Truncating to `width` and then justifying to `width` fills the column
      exactly: the printed text is always `width` printable characters wide,
      and nothing printable is left when the width is negative. */
  lemma ColumnFilled(formatted: seq<char>, width: int)
    requires NoNul(formatted) && |formatted| < Capacity
    ensures VisibleLength(RightJustify(StripColors(formatted, width).textLen, width,
                                       StripColors(formatted, width).buf)) == Budget(width)
  {
    StripColorsFacts(formatted, width);
  }
}
