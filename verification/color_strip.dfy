/**
 * The tail of `rm_fmt_progress_format_text`: after the status line has been
 * formatted into the fixed 1024-byte buffer, the colour codes are discounted
 * from its length and the buffer is cut once `max_len` printable characters
 * have been seen.
 */
module ColorStrip {
  import opened Wrappers
  import opened Seqs
  import opened Escapes

  /** Size of `text_buf`, including the terminating NUL. */
  const Capacity: nat := 1024

  /** The formatted text is a C string: it holds no NUL. */
  predicate NoNul(s: seq<char>)
  {
    '\0' !in s
  }

  /** What `g_snprintf` leaves in the buffer: at most `Capacity - 1` characters. */
  function Buffered(formatted: seq<char>): (r: seq<char>)
    ensures |r| < Capacity && |r| <= |formatted|
    ensures r == formatted[..|r|]
    ensures |formatted| < Capacity ==> r == formatted
    ensures Capacity <= |formatted| ==> |r| == Capacity - 1
  {
    if |formatted| < Capacity then formatted else formatted[..Capacity - 1]
  }

  /** The printable budget `max_len` gives: a negative one allows nothing. */
  function Budget(maxLen: int): nat
  {
    if maxLen < 0 then 0 else maxLen
  }

  /** The buffer contents and `text_len` after the walk. */
  datatype TextLine = TextLine(buf: seq<char>, textLen: nat)

  /**
   * Reference definition of the walk.  `text_len` starts as the length
   * `g_snprintf` reports, which is the full formatted length even when the
   * buffer holds less.  Without a cut every span is subtracted from it; with a
   * cut it becomes the number of printable characters kept.
   */
  function StripColors(formatted: seq<char>, maxLen: int): (r: TextLine)
    requires NoNul(formatted)
    ensures NoNul(r.buf) && |r.buf| < Capacity
  {
    var s := Buffered(formatted);
    var b := Budget(maxLen);
    KeepFacts(s, b);
    LengthSplit(s);
    assert forall k :: 0 <= k < |Keep(s, b)| ==> Keep(s, b)[k] == formatted[k];
    TextLine(Keep(s, b), if VisibleLength(s) > b then b else |formatted| - HiddenLength(s))
  }

  /**
   * What the walk leaves: a prefix of the buffer that splits no colour code
   * and holds `min(visible, max_len)` printable characters.  It is cut short
   * exactly when the buffer has more than `max_len` printable characters, and
   * then at a printable character, with `text_len` equal to `max_len`.
   * Otherwise `text_len` is the formatted length less the colour codes, which
   * is the printable length whenever the text fitted the buffer.
   */
  lemma StripColorsFacts(formatted: seq<char>, maxLen: int)
    requires NoNul(formatted)
    ensures var r := StripColors(formatted, maxLen);
      && |r.buf| <= |Buffered(formatted)| && r.buf == Buffered(formatted)[..|r.buf|]
      && VisibleLength(r.buf) == Min(VisibleLength(Buffered(formatted)), Budget(maxLen))
      && (|r.buf| < |Buffered(formatted)| <==> VisibleLength(Buffered(formatted)) > Budget(maxLen))
      && Segments(Buffered(formatted)) == Segments(r.buf) + SegmentsFrom(Buffered(formatted), |r.buf|)
      && (|r.buf| < |Buffered(formatted)| ==>
            r.textLen == Budget(maxLen) && SpanEndAt(Buffered(formatted), |r.buf|).None?)
      && (r.buf == Buffered(formatted) ==> r.textLen == |formatted| - HiddenLength(Buffered(formatted)))
      && (|formatted| < Capacity ==> r.textLen == VisibleLength(r.buf))
  {
    var s := Buffered(formatted);
    KeepFacts(s, Budget(maxLen));
    LengthSplit(s);
  }

  /** A span found by `strchr` is the segment at `i`: the walk jumps over it
      and subtracts its length from `text_len`. */
  lemma WalkSpan(s: seq<char>, i: nat, done: seq<Segment>, span: nat)
    requires i < |s| && Walked(s, i, done)
    requires s[i] == ESC && IndexFrom(s, i, 'm').Some? && span == IndexFrom(s, i, 'm').value - i + 1
    ensures i + span <= |s| && Walked(s, i + span, done + [SegmentAt(s, i)])
    ensures GlyphCount(done + [SegmentAt(s, i)]) == GlyphCount(done)
    ensures HiddenCount(done + [SegmentAt(s, i)]) == HiddenCount(done) + span <= i + span
  {
    assert SpanEndAt(s, i) == Some(i + span);
    assert NextAt(s, i) == i + span;
    assert SegmentAt(s, i).Span?;
    WalkOn(s, i, done);
  }

  /** Any other character is a glyph: the walk counts it and moves on. */
  lemma WalkGlyph(s: seq<char>, i: nat, done: seq<Segment>)
    requires i < |s| && Walked(s, i, done)
    requires s[i] != ESC || IndexFrom(s, i, 'm').None?
    ensures SpanEndAt(s, i).None? && SegmentAt(s, i) == Glyph(s[i])
    ensures Walked(s, i + 1, done + [SegmentAt(s, i)])
    ensures GlyphCount(done + [SegmentAt(s, i)]) == GlyphCount(done) + 1
    ensures HiddenCount(done + [SegmentAt(s, i)]) == HiddenCount(done)
  {
    assert SpanEndAt(s, i).None?;
    WalkOn(s, i, done);
  }

  /** The reference result when the walk stops at a glyph at `i` with the
      budget used up. */
  lemma StripAtCut(formatted: seq<char>, maxLen: int, i: nat, done: seq<Segment>)
    requires NoNul(formatted)
    requires i < |Buffered(formatted)| && Walked(Buffered(formatted), i, done)
    requires GlyphCount(done) == Budget(maxLen) && SpanEndAt(Buffered(formatted), i).None?
    ensures StripColors(formatted, maxLen) == TextLine(Buffered(formatted)[..i], Budget(maxLen))
  {
    WalkCut(Buffered(formatted), i, done, Budget(maxLen));
  }

  /** The reference result when the walk reads the whole buffer. */
  lemma StripAtEnd(formatted: seq<char>, maxLen: int, done: seq<Segment>, textLen: nat)
    requires NoNul(formatted)
    requires Walked(Buffered(formatted), |Buffered(formatted)|, done) && GlyphCount(done) <= Budget(maxLen)
    requires textLen + HiddenCount(done) == |formatted|
    ensures StripColors(formatted, maxLen) == TextLine(Buffered(formatted), textLen)
  {
    WalkEnd(Buffered(formatted), done, Budget(maxLen));
  }

  /**
   * The walk as the C loop performs it: one character at a time, jumping over
   * an ESC ... 'm' span when `strchr` finds the 'm', and cutting the buffer at
   * the first printable character met once `max_len` have been counted.
   */
  method FormatText(formatted: seq<char>, maxLen: int) returns (buf: seq<char>, textLen: nat)
    requires NoNul(formatted)
    ensures TextLine(buf, textLen) == StripColors(formatted, maxLen)
  {
    var s := Buffered(formatted);
    ghost var budget := Budget(maxLen);
    textLen := |formatted|;
    var textIter: nat := 0;
    var i := 0;
    ghost var done: seq<Segment> := [];
    WalkStart(s);
    while i < |s|
      invariant i <= |s| && Walked(s, i, done)
      invariant textIter == GlyphCount(done) <= budget
      invariant textLen + HiddenCount(done) == |formatted|
      decreases |s| - i
    {
      if s[i] == ESC {
        var jump := IndexFrom(s, i, 'm');
        if jump.Some? {
          var span := jump.value - i + 1;
          WalkSpan(s, i, done, span);
          textLen := textLen - span;
          done := done + [SegmentAt(s, i)];
          i := i + span;
          continue;
        }
      }
      WalkGlyph(s, i, done);
      if textIter >= maxLen {
        StripAtCut(formatted, maxLen, i, done);
        return s[..i], textIter;
      }
      done := done + [SegmentAt(s, i)];
      textIter := textIter + 1;
      i := i + 1;
    }
    StripAtEnd(formatted, maxLen, done, textLen);
    buf := s;
  }
}
