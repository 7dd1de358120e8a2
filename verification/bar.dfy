/**
 * `rm_fmt_progress_print_bar`: a bracketed bar of `width - 2` cells in which
 * the first `cells` are done ('#'), the next one is the cursor ('>') and the
 * rest are to do ('-').  `cells` is the already truncated `width * percent`.
 */
module ProgressBar {
  import opened Seqs

  /** Number of cells between the brackets; the loop runs no times below 2. */
  function Interior(width: int): nat
  {
    if width < 2 then 0 else width - 2
  }

  /** The glyph drawn for cell `i`. */
  function CellAt(i: int, cells: int): char
  {
    if i < cells then '#' else if i == cells then '>' else '-'
  }

  /** The bar exactly as printed, cell by cell. */
  function Bar(width: int, cells: int): seq<char>
  {
    ['['] + seq(Interior(width), i => CellAt(i, cells)) + [']']
  }

  /** Number of '#' cells: `cells` clamped to the interior. */
  function Hashes(width: int, cells: int): nat
  {
    if cells < 0 then 0 else Min(cells, Interior(width))
  }

  /** Number of '>' cells: one exactly when the cursor cell lies inside the bar. */
  function Arrows(width: int, cells: int): nat
  {
    if 0 <= cells < Interior(width) then 1 else 0
  }

  /** The bar as three runs: done cells, at most one cursor, cells to do. */
  lemma {:induction false} BarShape(width: int, cells: int)
    ensures Hashes(width, cells) + Arrows(width, cells) <= Interior(width)
    ensures Bar(width, cells) ==
      ['['] + Repeat('#', Hashes(width, cells)) + Repeat('>', Arrows(width, cells))
      + Repeat('-', Interior(width) - Hashes(width, cells) - Arrows(width, cells)) + [']']
  {
    var n := Interior(width);
    var h := Hashes(width, cells);
    var a := Arrows(width, cells);
    var inner := Repeat('#', h) + Repeat('>', a) + Repeat('-', n - h - a);
    var cellwise := seq(n, i => CellAt(i, cells));
    assert |inner| == n;
    forall k | 0 <= k < n
      ensures inner[k] == cellwise[k]
    {
      if k < h {
        assert inner[k] == '#';
      } else if k < h + a {
        assert inner[k] == '>';
      } else {
        assert inner[k] == '-';
      }
    }
    assert inner == cellwise;
    assert Bar(width, cells) == ['['] + inner + [']'];
  }

  /** Occurrences of a non-bracket glyph in a bracketed bar of three runs. */
  lemma CountRuns(c: char, h: nat, a: nat, d: nat)
    requires c != '[' && c != ']'
    ensures Count(c, ['['] + Repeat('#', h) + Repeat('>', a) + Repeat('-', d) + [']']) ==
      (if c == '#' then h else 0) + (if c == '>' then a else 0) + (if c == '-' then d else 0)
  {
    var hs, ar, ds := Repeat('#', h), Repeat('>', a), Repeat('-', d);
    CountAppend(c, ['['], hs);
    CountAppend(c, ['['] + hs, ar);
    CountAppend(c, ['['] + hs + ar, ds);
    CountAppend(c, ['['] + hs + ar + ds, [']']);
    CountRepeat(c, '#', h);
    CountRepeat(c, '>', a);
    CountRepeat(c, '-', d);
  }

  /** The bar is bracketed, `max(width - 2, 0)` cells wide, has
      `min(max(cells, 0), width - 2)` done cells, a cursor iff
      `0 <= cells < width - 2`, and dashes for the rest. */
  lemma BarCounts(width: int, cells: int)
    ensures |Bar(width, cells)| == Interior(width) + 2
    ensures Bar(width, cells)[0] == '[' && Bar(width, cells)[Interior(width) + 1] == ']'
    ensures Count('#', Bar(width, cells)) == Hashes(width, cells)
    ensures Count('>', Bar(width, cells)) == Arrows(width, cells) <= 1
    ensures Arrows(width, cells) == 1 <==> 0 <= cells < width - 2
    ensures Count('-', Bar(width, cells)) == Interior(width) - Hashes(width, cells) - Arrows(width, cells)
  {
    BarShape(width, cells);
    var h := Hashes(width, cells);
    var a := Arrows(width, cells);
    var d := Interior(width) - h - a;
    CountRuns('#', h, a, d);
    CountRuns('>', h, a, d);
    CountRuns('-', h, a, d);
  }

  /** The printing loop: one glyph per interior cell, between brackets. */
  method RenderBar(width: int, cells: int) returns (bar: seq<char>)
    ensures bar == Bar(width, cells)
  {
    bar := "[";
    var i := 0;
    while i < width - 2
      invariant 0 <= i <= Interior(width)
      invariant |bar| == i + 1 && bar[0] == '['
      invariant forall k :: 0 <= k < i ==> bar[k + 1] == CellAt(k, cells)
    {
      if i < cells {
        bar := bar + "#";
      } else if i == cells {
        bar := bar + ">";
      } else {
        bar := bar + "-";
      }
      i := i + 1;
    }
    bar := bar + "]";
    assert bar == Bar(width, cells);
  }
}
