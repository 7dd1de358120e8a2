/**
 * Colour codes inside the progress text.  A colour code ("escape span") runs
 * from an ESC character up to and including the first 'm' after it; an ESC
 * with no 'm' anywhere after it is an ordinary printable character.  A text is
 * read left to right as a sequence of segments: printable glyphs and spans.
 *
 * The reading is defined by position in one text (`SegmentsFrom(s, i)` reads
 * `s` from index `i` on), which is also how the C loop walks its buffer.
 */
module Escapes {
  import opened Wrappers
  import opened Seqs

  const ESC: char := '\U{1B}'

  /** Position of the first `c` at or after index `i`, as `strchr(s + i, c)`
      finds it. */
  function IndexFrom(s: seq<char>, i: nat, c: char): (r: Option<nat>)
    requires i <= |s|
    ensures r.Some? ==> i <= r.value < |s| && s[r.value] == c
    decreases |s| - i
  {
    if i == |s| then None
    else if s[i] == c then Some(i)
    else IndexFrom(s, i + 1, c)
  }

  /** `IndexFrom` finds nothing exactly when no `c` follows, and otherwise the
      first `c`. */
  lemma {:induction false} IndexFromFacts(s: seq<char>, i: nat, c: char)
    requires i <= |s|
    ensures IndexFrom(s, i, c).None? <==> forall j :: i <= j < |s| ==> s[j] != c
    ensures IndexFrom(s, i, c).Some? ==> forall j :: i <= j < IndexFrom(s, i, c).value ==> s[j] != c
    decreases |s| - i
  {
    if i < |s| && s[i] != c {
      IndexFromFacts(s, i + 1, c);
    }
  }

  /** When an escape span starts at index `i`, the index just past its 'm'. */
  function SpanEndAt(s: seq<char>, i: nat): (r: Option<nat>)
    requires i < |s|
    ensures r.Some? ==> i + 2 <= r.value <= |s|
  {
    if s[i] == ESC then
      match IndexFrom(s, i, 'm')
      case None => None
      case Some(j) => Some(j + 1)
    else None
  }

  /** A span starts at `i` exactly when `s[i]` is ESC and an 'm' follows;
      it ends just past the first such 'm'. */
  lemma SpanEndFacts(s: seq<char>, i: nat)
    requires i < |s|
    ensures SpanEndAt(s, i).None? <==> s[i] != ESC || forall j :: i < j < |s| ==> s[j] != 'm'
    ensures SpanEndAt(s, i).Some? ==> s[i] == ESC && s[SpanEndAt(s, i).value - 1] == 'm'
    ensures SpanEndAt(s, i).Some? ==> forall j :: i <= j < SpanEndAt(s, i).value - 1 ==> s[j] != 'm'
  {
    IndexFromFacts(s, i, 'm');
  }

  /** A well-formed colour code: ESC, anything but 'm', then 'm'. */
  predicate IsEscapeCode(code: seq<char>)
  {
    && |code| >= 2 && code[0] == ESC && code[|code| - 1] == 'm'
    && forall j :: 0 <= j < |code| - 1 ==> code[j] != 'm'
  }

  datatype Segment = Glyph(c: char) | Span(code: seq<char>)

  function Chars(g: Segment): seq<char>
  {
    match g
    case Glyph(c) => [c]
    case Span(code) => code
  }

  function Flatten(segs: seq<Segment>): seq<char>
  {
    if |segs| == 0 then [] else Chars(segs[0]) + Flatten(segs[1..])
  }

  /** Where the segment that starts at index `i` ends. */
  function NextAt(s: seq<char>, i: nat): (r: nat)
    requires i < |s|
    ensures i < r <= |s|
  {
    match SpanEndAt(s, i)
    case Some(e) => e
    case None => i + 1
  }

  /** The segment that starts at index `i`: a span when one starts there,
      otherwise the single character. */
  function SegmentAt(s: seq<char>, i: nat): (r: Segment)
    requires i < |s|
    ensures r.Glyph? <==> SpanEndAt(s, i).None?
    ensures r.Glyph? ==> r == Glyph(s[i]) && NextAt(s, i) == i + 1
  {
    match SpanEndAt(s, i)
    case Some(e) => Span(s[i..e])
    case None => Glyph(s[i])
  }

  /** The left-to-right reading of `s` from index `i` on. */
  function SegmentsFrom(s: seq<char>, i: nat): seq<Segment>
    requires i <= |s|
    decreases |s| - i
  {
    if i == |s| then [] else [SegmentAt(s, i)] + SegmentsFrom(s, NextAt(s, i))
  }

  /** The reading of a whole text into glyphs and escape spans. */
  function Segments(s: seq<char>): seq<Segment>
  {
    SegmentsFrom(s, 0)
  }

  /** Number of printable characters among the segments. */
  function GlyphCount(segs: seq<Segment>): nat
  {
    if |segs| == 0 then 0 else (if segs[0].Glyph? then 1 else 0) + GlyphCount(segs[1..])
  }

  /** Number of characters taken up by escape spans. */
  function HiddenCount(segs: seq<Segment>): nat
  {
    if |segs| == 0 then 0 else (if segs[0].Span? then |segs[0].code| else 0) + HiddenCount(segs[1..])
  }

  /** The printable length of a text: characters outside every escape span. */
  function VisibleLength(s: seq<char>): nat
  {
    GlyphCount(Segments(s))
  }

  /** Total length of the escape spans of a text. */
  function HiddenLength(s: seq<char>): nat
  {
    HiddenCount(Segments(s))
  }

  /** Segments up to, but not including, the glyph that would exceed `budget`.
      Spans are free, so a span right after the last allowed glyph is kept. */
  function KeepSegs(segs: seq<Segment>, budget: nat): seq<Segment>
  {
    if |segs| == 0 then []
    else if segs[0].Span? then [segs[0]] + KeepSegs(segs[1..], budget)
    else if budget == 0 then []
    else [segs[0]] + KeepSegs(segs[1..], budget - 1)
  }

  /** The characters kept from `s` when at most `budget` printable ones are allowed. */
  function Keep(s: seq<char>, budget: nat): seq<char>
  {
    Flatten(KeepSegs(Segments(s), budget))
  }

  /** Position reached after reading `k` segments from index `i`. */
  function PosAfter(s: seq<char>, i: nat, k: nat): (r: nat)
    requires i <= |s|
    ensures i <= r <= |s|
    decreases |s| - i
  {
    if k == 0 || i == |s| then i else PosAfter(s, NextAt(s, i), k - 1)
  }

  // ----- one segment -----

  /** A segment spells the characters from where it starts to where it ends. */
  lemma SegmentChars(s: seq<char>, i: nat)
    requires i < |s|
    ensures Chars(SegmentAt(s, i)) == s[i..NextAt(s, i)]
  {
    if SpanEndAt(s, i).None? {
      assert s[i..i + 1] == [s[i]];
    }
  }

  /** A span of the reading is a well-formed colour code. */
  lemma SpanIsEscapeCode(s: seq<char>, i: nat)
    requires i < |s| && SpanEndAt(s, i).Some?
    ensures IsEscapeCode(SegmentAt(s, i).code)
  {
    SpanEndFacts(s, i);
    var e := SpanEndAt(s, i).value;
    var code := s[i..e];
    assert code[0] == s[i] && code[|code| - 1] == s[e - 1];
    forall j | 0 <= j < |code| - 1
      ensures code[j] != 'm'
    {
      assert code[j] == s[i + j];
    }
  }

  /** `strchr` on a prefix finds what it finds on the whole text, when that
      lies inside the prefix. */
  lemma {:induction false} IndexFromPrefix(s: seq<char>, n: nat, i: nat, c: char)
    requires i <= n <= |s|
    ensures IndexFrom(s[..n], i, c) ==
              if IndexFrom(s, i, c).Some? && IndexFrom(s, i, c).value < n then IndexFrom(s, i, c) else None
    decreases n - i
  {
    if i < n {
      assert s[..n][i] == s[i];
      if s[i] != c {
        IndexFromPrefix(s, n, i + 1, c);
      }
    }
  }

  /** `strchr` on a suffix finds what it finds on the whole text, shifted. */
  lemma {:induction false} IndexFromSuffix(s: seq<char>, k: nat, i: nat, c: char)
    requires k <= i <= |s|
    ensures IndexFrom(s[k..], i - k, c) ==
              if IndexFrom(s, i, c).Some? then Some(IndexFrom(s, i, c).value - k) else None
    decreases |s| - i
  {
    if i < |s| {
      assert s[k..][i - k] == s[i];
      if s[i] != c {
        IndexFromSuffix(s, k, i + 1, c);
      }
    }
  }

  /** Cutting the text after a segment ends does not change that segment. */
  lemma SegmentStable(s: seq<char>, n: nat, i: nat)
    requires i < |s| && NextAt(s, i) <= n <= |s|
    ensures SpanEndAt(s[..n], i) == SpanEndAt(s, i)
    ensures NextAt(s[..n], i) == NextAt(s, i) && SegmentAt(s[..n], i) == SegmentAt(s, i)
  {
    IndexFromPrefix(s, n, i, 'm');
    assert s[..n][i] == s[i];
    if SpanEndAt(s, i).Some? {
      var e := SpanEndAt(s, i).value;
      assert s[..n][i..e] == s[i..e];
    }
  }

  /** The segment at `i` is the same segment at `i - k` once the first `k`
      characters are dropped. */
  lemma SegmentSuffix(s: seq<char>, k: nat, i: nat)
    requires k <= i < |s|
    ensures NextAt(s[k..], i - k) == NextAt(s, i) - k
    ensures SegmentAt(s[k..], i - k) == SegmentAt(s, i)
  {
    IndexFromSuffix(s, k, i, 'm');
    assert s[k..][i - k] == s[i];
    if SpanEndAt(s, i).Some? {
      var e := SpanEndAt(s, i).value;
      assert s[k..][i - k..e - k] == s[i..e];
    }
  }

  /** Dropping the characters before `k` does not change the reading from `i >= k`. */
  lemma {:induction false} SegmentsFromSuffix(s: seq<char>, k: nat, i: nat)
    requires k <= i <= |s|
    ensures SegmentsFrom(s, i) == SegmentsFrom(s[k..], i - k)
    decreases |s| - i
  {
    if i < |s| {
      SegmentSuffix(s, k, i);
      SegmentsFromSuffix(s, k, NextAt(s, i));
      assert NextAt(s, i) - k == NextAt(s[k..], i - k);
    }
  }

  /** A character other than ESC in front of a text is read as one more glyph. */
  lemma PrependGlyph(c: char, t: seq<char>)
    requires c != ESC
    ensures Segments([c] + t) == [Glyph(c)] + Segments(t)
  {
    var x := [c] + t;
    assert SegmentAt(x, 0) == Glyph(c);
    SegmentsFromSuffix(x, 1, 1);
    assert x[1..] == t;
  }

  // ----- the reading as a whole -----

  lemma FlattenAppend(a: seq<Segment>, b: seq<Segment>)
    ensures Flatten(a + b) == Flatten(a) + Flatten(b)
  {
    if |a| > 0 {
      assert (a + b)[1..] == a[1..] + b;
      FlattenAppend(a[1..], b);
    } else {
      assert a + b == b;
    }
  }

  lemma GlyphCountAppend(a: seq<Segment>, b: seq<Segment>)
    ensures GlyphCount(a + b) == GlyphCount(a) + GlyphCount(b)
  {
    if |a| > 0 {
      assert (a + b)[1..] == a[1..] + b;
      GlyphCountAppend(a[1..], b);
    } else {
      assert a + b == b;
    }
  }

  lemma HiddenCountAppend(a: seq<Segment>, b: seq<Segment>)
    ensures HiddenCount(a + b) == HiddenCount(a) + HiddenCount(b)
  {
    if |a| > 0 {
      assert (a + b)[1..] == a[1..] + b;
      HiddenCountAppend(a[1..], b);
    } else {
      assert a + b == b;
    }
  }

  /** Glyphs and span characters together make up the spelled text. */
  lemma CountsSplit(segs: seq<Segment>)
    ensures GlyphCount(segs) + HiddenCount(segs) == |Flatten(segs)|
  {
    if |segs| > 0 {
      CountsSplit(segs[1..]);
    }
  }

  /** The reading from `i` spells the rest of the text. */
  lemma {:induction false} FromRoundTrip(s: seq<char>, i: nat)
    requires i <= |s|
    ensures Flatten(SegmentsFrom(s, i)) == s[i..]
    decreases |s| - i
  {
    if i < |s| {
      var n := NextAt(s, i);
      FromRoundTrip(s, n);
      SegmentChars(s, i);
      var segs := SegmentsFrom(s, i);
      assert segs[1..] == SegmentsFrom(s, n);
      assert s[i..] == s[i..n] + s[n..];
    }
  }

  /** Reading a text into segments loses nothing: the segments spell the text. */
  lemma SegmentsRoundTrip(s: seq<char>)
    ensures Flatten(Segments(s)) == s
  {
    FromRoundTrip(s, 0);
  }

  /** Printable and hidden characters together make up the whole text. */
  lemma LengthSplit(s: seq<char>)
    ensures VisibleLength(s) + HiddenLength(s) == |s|
  {
    CountsSplit(Segments(s));
    SegmentsRoundTrip(s);
  }

  /** Every span of the reading from `i` is a well-formed colour code, and an
      ESC read as a glyph has no 'm' anywhere after it. */
  lemma {:induction false} FromWellFormed(s: seq<char>, i: nat)
    requires i <= |s|
    ensures forall k :: 0 <= k < |SegmentsFrom(s, i)| && SegmentsFrom(s, i)[k].Span? ==>
              IsEscapeCode(SegmentsFrom(s, i)[k].code)
    ensures forall k :: 0 <= k < |SegmentsFrom(s, i)| && SegmentsFrom(s, i)[k] == Glyph(ESC) ==>
              'm' !in Flatten(SegmentsFrom(s, i)[k + 1..])
    decreases |s| - i
  {
    if i < |s| {
      var segs := SegmentsFrom(s, i);
      var n := NextAt(s, i);
      var rest := SegmentsFrom(s, n);
      FromWellFormed(s, n);
      assert segs == [SegmentAt(s, i)] + rest;
      forall k | 0 < k < |segs|
        ensures segs[k] == rest[k - 1] && segs[k + 1..] == rest[k..]
      {
      }
      if SpanEndAt(s, i).Some? {
        SpanIsEscapeCode(s, i);
      } else if s[i] == ESC {
        SpanEndFacts(s, i);
        FromRoundTrip(s, n);
        assert segs[1..] == rest;
        assert forall j :: 0 <= j < |s[n..]| ==> s[n..][j] == s[n + j];
      }
    }
  }

  /** Every span of the reading is a well-formed colour code, and an ESC read
      as a glyph has no 'm' anywhere after it. */
  lemma SegmentsWellFormed(s: seq<char>)
    ensures forall k :: 0 <= k < |Segments(s)| && Segments(s)[k].Span? ==> IsEscapeCode(Segments(s)[k].code)
    ensures forall k :: 0 <= k < |Segments(s)| && Segments(s)[k] == Glyph(ESC) ==> 'm' !in Flatten(Segments(s)[k + 1..])
  {
    FromWellFormed(s, 0);
  }

  /** Without any 'm' from `i` on, each character from `i` is its own glyph. */
  lemma {:induction false} FromNoTerminator(s: seq<char>, i: nat)
    requires i <= |s| && forall j :: i <= j < |s| ==> s[j] != 'm'
    ensures SegmentsFrom(s, i) == seq(|s| - i, k requires 0 <= k < |s| - i => Glyph(s[i + k]))
    ensures GlyphCount(SegmentsFrom(s, i)) == |s| - i && HiddenCount(SegmentsFrom(s, i)) == 0
    decreases |s| - i
  {
    if i < |s| {
      FromNoTerminator(s, i + 1);
      var segs := SegmentsFrom(s, i);
      assert segs[1..] == SegmentsFrom(s, i + 1);
    }
  }

  /** Without any 'm' there is no span: an ESC then counts as one printable
      character like any other, so every character is printable. */
  lemma NoTerminatorAllVisible(s: seq<char>)
    requires 'm' !in s
    ensures Segments(s) == seq(|s|, k requires 0 <= k < |s| => Glyph(s[k]))
    ensures VisibleLength(s) == |s| && HiddenLength(s) == 0
  {
    FromNoTerminator(s, 0);
  }

  // ----- cutting the reading -----

  /** After `k` segments the reading goes on from the position they reach. */
  lemma {:induction false} SplitAt(s: seq<char>, i: nat, k: nat)
    requires i <= |s| && k <= |SegmentsFrom(s, i)|
    ensures SegmentsFrom(s, i)[k..] == SegmentsFrom(s, PosAfter(s, i, k))
    decreases |s| - i
  {
    if k > 0 {
      var n := NextAt(s, i);
      SplitAt(s, n, k - 1);
      assert SegmentsFrom(s, i)[k..] == SegmentsFrom(s, n)[k - 1..];
    }
  }

  /** One more segment in front of a prefix reading: cutting after the
      segments from `NextAt(s, i)` on, the segment at `i` is read unchanged. */
  lemma PrefixStep(s: seq<char>, i: nat, k: nat, n: nat)
    requires i < |s| && k >= 1 && NextAt(s, i) <= n <= |s|
    requires k - 1 <= |SegmentsFrom(s, NextAt(s, i))|
    requires SegmentsFrom(s[..n], NextAt(s, i)) == SegmentsFrom(s, NextAt(s, i))[..k - 1]
    ensures SegmentsFrom(s[..n], i) == SegmentsFrom(s, i)[..k]
  {
    var p := s[..n];
    var g := SegmentAt(s, i);
    var later := SegmentsFrom(s, NextAt(s, i));
    SegmentStable(s, n, i);
    assert SegmentsFrom(p, i) == [g] + SegmentsFrom(p, NextAt(s, i));
    assert SegmentsFrom(s, i) == [g] + later;
    assert ([g] + later)[..k] == [g] + later[..k - 1];
  }

  /** The text up to the position `k` segments reach reads as exactly those
      segments: cutting there splits no span. */
  lemma {:induction false} PrefixReading(s: seq<char>, i: nat, k: nat)
    requires i <= |s| && k <= |SegmentsFrom(s, i)|
    ensures SegmentsFrom(s[..PosAfter(s, i, k)], i) == SegmentsFrom(s, i)[..k]
    decreases |s| - i
  {
    var n := PosAfter(s, i, k);
    if k == 0 {
      assert SegmentsFrom(s[..n], i) == [];
    } else {
      var m := NextAt(s, i);
      assert n == PosAfter(s, m, k - 1);
      PrefixReading(s, m, k - 1);
      PrefixStep(s, i, k, n);
    }
  }

  // ----- truncation by printable budget -----

  lemma {:induction false} KeepSegsFacts(segs: seq<Segment>, budget: nat)
    ensures |KeepSegs(segs, budget)| <= |segs|
    ensures KeepSegs(segs, budget) == segs[..|KeepSegs(segs, budget)|]
    ensures GlyphCount(KeepSegs(segs, budget)) == Min(GlyphCount(segs), budget)
    ensures |KeepSegs(segs, budget)| < |segs| <==> GlyphCount(segs) > budget
    ensures |KeepSegs(segs, budget)| < |segs| ==> segs[|KeepSegs(segs, budget)|].Glyph?
  {
    if |segs| > 0 {
      if segs[0].Span? {
        KeepSegsFacts(segs[1..], budget);
      } else if budget > 0 {
        KeepSegsFacts(segs[1..], budget - 1);
      }
      assert segs == [segs[0]] + segs[1..];
    }
  }

  /** Keeping every segment of a prefix that stays within the budget. */
  lemma {:induction false} KeepSegsAppend(a: seq<Segment>, rest: seq<Segment>, budget: nat)
    requires GlyphCount(a) <= budget
    ensures KeepSegs(a + rest, budget) == a + KeepSegs(rest, budget - GlyphCount(a))
  {
    if |a| == 0 {
      assert a + rest == rest;
    } else {
      var x := a + rest;
      var b: nat := if a[0].Span? then budget else budget - 1;
      var k := KeepSegs(rest, budget - GlyphCount(a));
      assert x[0] == a[0] && x[1..] == a[1..] + rest;
      assert GlyphCount(a) == (if a[0].Glyph? then 1 else 0) + GlyphCount(a[1..]);
      KeepSegsAppend(a[1..], rest, b);
      assert KeepSegs(x[1..], b) == a[1..] + k;
      calc {
        KeepSegs(x, budget);
        [a[0]] + KeepSegs(x[1..], b);
        [a[0]] + (a[1..] + k);
        { assert a == [a[0]] + a[1..]; }
        a + k;
      }
    }
  }

  /** What truncating to `budget` printable characters does to a text: it
      keeps a prefix, splits no span (the prefix reads as the first segments
      and the rest of the text as the others), keeps exactly
      `min(visible, budget)` printable characters, and when it cuts, the cut
      falls on a printable character. */
  lemma KeepFacts(s: seq<char>, budget: nat)
    ensures |Keep(s, budget)| <= |s| && Keep(s, budget) == s[..|Keep(s, budget)|]
    ensures Segments(s) == Segments(Keep(s, budget)) + SegmentsFrom(s, |Keep(s, budget)|)
    ensures VisibleLength(Keep(s, budget)) == Min(VisibleLength(s), budget)
    ensures |Keep(s, budget)| < |s| <==> VisibleLength(s) > budget
    ensures |Keep(s, budget)| < |s| ==> SpanEndAt(s, |Keep(s, budget)|).None?
  {
    var segs := Segments(s);
    var kept := KeepSegs(segs, budget);
    var m := |kept|;
    KeepSegsFacts(segs, budget);
    var n := PosAfter(s, 0, m);
    SplitAt(s, 0, m);
    PrefixReading(s, 0, m);
    FromRoundTrip(s[..n], 0);
    assert s[..n][0..] == s[..n];
    assert Keep(s, budget) == s[..n];
    assert segs == kept + segs[m..];
    if n < |s| {
      assert SegmentsFrom(s, n)[0] == SegmentAt(s, n);
    }
  }

  // ----- the walk of the C loop -----

  /** Appending one segment to a reading adds its characters and its count. */
  lemma AppendSegment(done: seq<Segment>, g: Segment)
    ensures Flatten(done + [g]) == Flatten(done) + Chars(g)
    ensures GlyphCount(done + [g]) == GlyphCount(done) + (if g.Glyph? then 1 else 0)
    ensures HiddenCount(done + [g]) == HiddenCount(done) + (if g.Glyph? then 0 else |Chars(g)|)
    ensures HiddenCount(done + [g]) <= |Flatten(done + [g])|
  {
    assert [g][1..] == [];
    FlattenAppend(done, [g]);
    GlyphCountAppend(done, [g]);
    HiddenCountAppend(done, [g]);
    CountsSplit(done + [g]);
  }

  /** A left-to-right walk stands at index `i` having read the segments
      `done`, which spell out `s[..i]` and are followed by the reading from `i`. */
  predicate Walked(s: seq<char>, i: nat, done: seq<Segment>)
  {
    i <= |s| && Segments(s) == done + SegmentsFrom(s, i) && Flatten(done) == s[..i]
  }

  /** The walk starts at index 0 having read nothing. */
  lemma WalkStart(s: seq<char>)
    ensures Walked(s, 0, [])
  {
    assert [] + SegmentsFrom(s, 0) == Segments(s);
  }

  /** The segments of one step of a walk: the segment at `i`, then the rest. */
  lemma WalkStep(s: seq<char>, i: nat, done: seq<Segment>)
    requires i < |s| && Segments(s) == done + SegmentsFrom(s, i)
    ensures Segments(s) == (done + [SegmentAt(s, i)]) + SegmentsFrom(s, NextAt(s, i))
  {
    var g := SegmentAt(s, i);
    var later := SegmentsFrom(s, NextAt(s, i));
    assert SegmentsFrom(s, i) == [g] + later;
    assert done + ([g] + later) == (done + [g]) + later;
  }

  /** The counts of a walk that has read `s[..i]` and then the segment at `i`. */
  lemma WalkCounts(s: seq<char>, i: nat, done: seq<Segment>)
    requires i < |s| && Flatten(done) == s[..i]
    ensures Flatten(done + [SegmentAt(s, i)]) == s[..NextAt(s, i)]
    ensures GlyphCount(done + [SegmentAt(s, i)]) == GlyphCount(done) + (if SegmentAt(s, i).Glyph? then 1 else 0)
    ensures HiddenCount(done + [SegmentAt(s, i)]) ==
              HiddenCount(done) + (if SegmentAt(s, i).Glyph? then 0 else NextAt(s, i) - i)
    ensures HiddenCount(done + [SegmentAt(s, i)]) <= NextAt(s, i)
  {
    var n := NextAt(s, i);
    AppendSegment(done, SegmentAt(s, i));
    SegmentChars(s, i);
    assert s[..n] == s[..i] + s[i..n];
  }

  /** One step of a walk: it reads the segment at `i` and moves past it. */
  lemma WalkOn(s: seq<char>, i: nat, done: seq<Segment>)
    requires i < |s| && Walked(s, i, done)
    ensures Walked(s, NextAt(s, i), done + [SegmentAt(s, i)])
    ensures GlyphCount(done + [SegmentAt(s, i)]) == GlyphCount(done) + (if SegmentAt(s, i).Glyph? then 1 else 0)
    ensures HiddenCount(done + [SegmentAt(s, i)]) ==
              HiddenCount(done) + (if SegmentAt(s, i).Glyph? then 0 else NextAt(s, i) - i)
    ensures HiddenCount(done + [SegmentAt(s, i)]) <= NextAt(s, i)
  {
    WalkStep(s, i, done);
    WalkCounts(s, i, done);
  }

  /** A walk that meets a glyph with its budget used up keeps exactly what it has read. */
  lemma WalkCut(s: seq<char>, i: nat, done: seq<Segment>, budget: nat)
    requires i < |s| && Walked(s, i, done)
    requires GlyphCount(done) == budget && SpanEndAt(s, i).None?
    ensures Keep(s, budget) == s[..i]
    ensures VisibleLength(s) > budget
  {
    var rest := SegmentsFrom(s, i);
    assert rest[0] == SegmentAt(s, i);
    KeepSegsAppend(done, rest, budget);
    GlyphCountAppend(done, rest);
    assert done + [] == done;
  }

  /** A walk that reaches the end within its budget keeps the whole text. */
  lemma WalkEnd(s: seq<char>, done: seq<Segment>, budget: nat)
    requires Walked(s, |s|, done) && GlyphCount(done) <= budget
    ensures Keep(s, budget) == s
    ensures VisibleLength(s) <= budget && HiddenLength(s) == HiddenCount(done)
  {
    assert SegmentsFrom(s, |s|) == [];
    assert Segments(s) == done;
    KeepSegsFacts(done, budget);
    assert KeepSegs(done, budget) == done;
    SegmentsRoundTrip(s);
  }
}
