# rmlint progress bar, modelled in Dafny

This project models rmlint's terminal progress bar (`src/formats/progressbar.c`).
The host calls the handler `rm_fmt_prog` once per progress report, passing the
phase it has reached: INIT, traversal, preprocessing, matching ("shredder"),
merging, SUMMARY. The handler does three things:

- INIT hides the cursor and settles the `update_interval` option.
- SUMMARY or an aborted session shows the cursor again.
- Any other call redraws one self-overwriting line, subject to a throttle:
  - a `[###>---]` bar;
  - the status text, with colour codes discounted, cut to its column and
    right-justified in it;
  - the colour reset and a carriage return.

A change to a new phase redraws at once, after a line break. The first phase
drawn after INIT is the exception: the remembered phase is still INIT, so that
call goes through the throttle and prints no line break. Within a phase, a
call redraws only when the post-incremented 32-bit counter value it reads is a
multiple of the interval.

The model has these modules:

- `Escapes`: the reading of a text into printable glyphs and colour codes.
  A colour code runs from an ESC up to and including the first 'm' after it,
  found as `strchr` finds it. An ESC with no 'm' after it is printable.
  The module also holds truncation to a printable budget and the facts about
  it.
- `ColorStrip`: the tail of `rm_fmt_progress_format_text`.
  - `Buffered` is what `g_snprintf` leaves in the 1024-byte buffer.
  - `StripColors` is a reference definition of the strip-and-cut loop.
  - `FormatText` is the loop as written, character by character. It jumps
    over spans and is proved equal to the reference.
- `TextColumn`: `rm_fmt_progress_print_text`, i.e. leading spaces, then the
  buffer.
- `ProgressBar`: `rm_fmt_progress_print_bar`, as a cell-by-cell reference
  and the printing loop.
- `Throttle`: the arithmetic of the counter-modulo-interval throttle.
- `ProgressHandler`: the handler state, one call as a pure step returning
  the next state and the output tokens, runs of calls, and the properties
  of a call and of a run.

Everything the handler takes from outside is a parameter of the step:
- the configuration value;
- the abort flag;
- the text as the phase's template formats it;
- the column widths and done cells the terminal size gives.

Output is a sequence of tokens: hide/show cursor, line break, bar cells, text
cells, line end. `Transcript` gives the characters they send to the terminal.

Two facts about the code shape the model:
- The bar has `width - 2` cells between its brackets.
- The throttle counter is never reset on a change of phase. So `n` calls
  within a phase redraw `ceil(n / interval)` times when the counter starts
  at a multiple of the interval. From another start they can redraw one
  fewer. `ThrottleRunCeil` states both bounds, and `ThrottleRun` states the
  exact count.

## Model

| member | source | states |
|---|---|---|
| Escapes.IndexFrom | src/formats/progressbar.c:98 | `strchr(iter, 'm')`: a position it reports lies at or after the start and holds the character |
| Escapes.IndexFromFacts | src/formats/progressbar.c:98-99 | it reports nothing exactly when the character does not occur from the start on, and otherwise its first occurrence |
| Escapes.SpanEndFacts | src/formats/progressbar.c:97-101 | a colour code starts at a position exactly when it holds ESC and an 'm' follows; it ends just past the first such 'm' |
| Escapes.SegmentAt | src/formats/progressbar.c:96-104 | the thing read at a position is a printable glyph exactly when no colour code starts there, and a glyph is one character long |
| Escapes.SegmentsRoundTrip | src/formats/progressbar.c:96-113 | the reading into glyphs and colour codes loses nothing: the segments spell the text again |
| Escapes.SegmentsWellFormed | src/formats/progressbar.c:97-103 | every colour code read is ESC, no 'm', then 'm'; an ESC read as printable has no 'm' anywhere after it |
| Escapes.LengthSplit | src/formats/progressbar.c:100 | printable length plus the length of the colour codes is the text length |
| Escapes.NoTerminatorAllVisible | src/formats/progressbar.c:98-99 | a text without 'm' has no colour code: every character, an ESC included, is printable |
| Escapes.KeepSegsFacts | src/formats/progressbar.c:106-112 | the kept segments are a prefix with `min(printable, budget)` glyphs, cut short exactly when there are more glyphs than the budget, and then at a glyph |
| Escapes.PrefixReading | src/formats/progressbar.c:106-109 | cutting the text where the first `k` segments end reads back exactly those `k` segments: a cut splits no colour code |
| Escapes.KeepFacts | src/formats/progressbar.c:106-110 | truncation to a budget keeps a prefix that splits no colour code and holds `min(printable, budget)` printable characters, cuts exactly when the text has more, and cuts at a printable character |
| Escapes.WalkCut | src/formats/progressbar.c:106-109 | a walk that meets a printable character with its budget spent has kept exactly the truncation, and the text was over budget |
| Escapes.WalkEnd | src/formats/progressbar.c:96-113 | a walk that reaches the end within its budget keeps the whole text, and what it subtracted is the length of the colour codes |
| ColorStrip.Buffered | src/formats/progressbar.c:54-55 | `g_snprintf` into the 1024-byte buffer keeps a prefix of at most 1023 characters, and all of a shorter text |
| ColorStrip.StripColors | src/formats/progressbar.c:94-113 | the stripped buffer stays a C string within the buffer's capacity |
| ColorStrip.StripColorsFacts | src/formats/progressbar.c:94-113 | the walk leaves a prefix of the buffer that splits no colour code and holds `min(printable, max_len)` printable characters. When cut, `text_len` is `max_len` and the cut is at a printable character. When not cut, `text_len` is the reported length less the colour codes, which is the printable length whenever the text fitted |
| ColorStrip.WalkSpan | src/formats/progressbar.c:97-103 | when `strchr` finds an 'm' after an ESC, the jump covers exactly one colour code, and `text_len` loses exactly its length |
| ColorStrip.WalkGlyph | src/formats/progressbar.c:104-112 | any other character is one printable glyph, counted once |
| ColorStrip.FormatText | src/formats/progressbar.c:94-113 | the C loop (jump over a found span, cut at the first printable character once `max_len` are counted) computes exactly the reference buffer and `text_len` |
| TextColumn.Padding | src/formats/progressbar.c:117-121 | the padding makes up the shortfall of `text_len` against the width exactly, and is zero when the text is as wide or the width is negative |
| TextColumn.PaddingAsWritten | src/formats/progressbar.c:117-118 | the padding loop with its `unsigned` cast and 32-bit subtraction stays below 2^32 |
| TextColumn.PaddingAsWrittenAgrees | src/formats/progressbar.c:117-121 | for every width from 0 to 2^31 - 1 the loop as written pads exactly as `Padding` |
| TextColumn.NegativeWidthFloods | src/formats/progressbar.c:117-118 | for a negative width the loop as written prints `2^32 + width - text_len` spaces, over two billion; `2^32 - 1` for width -1 and an empty text |
| TextColumn.SpacesVisible | src/formats/progressbar.c:118-119 | each leading space adds one printable column |
| TextColumn.RightJustify | src/formats/progressbar.c:116-124 | the printed column is the padding spaces followed by the unchanged buffer, and its printable width is padding plus the buffer's |
| TextColumn.ColumnFilled | src/formats/progressbar.c:106-121 | for a text that fits the buffer, cutting to `max_len` and padding to the same width fills the column exactly: `max(width, 0)` printable characters |
| ProgressBar.BarShape | src/formats/progressbar.c:126-140 | the bar is '[', a run of '#', at most one '>', a run of '-', then ']' |
| ProgressBar.BarCounts | src/formats/progressbar.c:126-140 | the bar has `max(width - 2, 0)` cells between brackets, `min(max(cells, 0), width - 2)` of them '#', a '>' exactly when `0 <= cells < width - 2`, and '-' for the rest |
| ProgressBar.RenderBar | src/formats/progressbar.c:129-139 | the printing loop emits exactly the cell-by-cell bar |
| Throttle.TicksClosedForm | src/formats/progressbar.c:177 | the number of multiples of the interval among `n` consecutive counter values, in closed form |
| Throttle.CeilSplit | src/formats/progressbar.c:177 | rounding a sum up loses at most one against rounding its parts up, and nothing when the first part is a multiple |
| Throttle.TicksNearCeil | src/formats/progressbar.c:177 | from any counter, `n` consecutive values hold `ceil(n / interval)` multiples of the interval or one fewer; exactly `ceil(n / interval)` from a multiple |
| ProgressHandler.ResolveInterval | src/formats/progressbar.c:156-162 | the interval INIT settles on is at least 1 and fits 32 bits |
| ProgressHandler.Frame | src/formats/progressbar.c:189-191 | a redraw prints one bar, then the text, then the line end with the colour reset, and no `LineBreak` token |
| ProgressHandler.FrameTranscript | src/formats/progressbar.c:189-191 | on the terminal a redraw is the bar, then the justified text, then the colour reset and `"\r"` |
| ProgressHandler.Step | src/formats/progressbar.c:150-191 | one call keeps the handler's invariants, redraws at most once, changes the remembered phase and text only when it redraws, advances the counter by at most one modulo 2^32, and leaves the interval alone unless the call is INIT |
| ProgressHandler.Run | src/formats/progressbar.c:150-191 | any run of calls the C code can make without a remainder by zero keeps the invariants, redraws at most once per call, and ends with an interval of at least 1 once an interval was set or any call was INIT |
| ProgressHandler.RenderableRunnable | src/formats/progressbar.c:150-179 | calls that can each draw, with an interval set before or by the first call, never take a remainder by zero |
| ProgressHandler.StopThenRun | src/formats/progressbar.c:169-173 | a stopping call (SUMMARY, or an abort) may come anywhere, even before INIT: it adds only a show-cursor token and leaves the state to the calls after it |
| ProgressHandler.InitStep | src/formats/progressbar.c:150-167 | INIT only hides the cursor and sets the interval: to the option's 32-bit value, to 15 when that is 0, and to 15 when the option is unset and no interval was set before |
| ProgressHandler.StopStep | src/formats/progressbar.c:169-173 | SUMMARY, or any call after an abort, only shows the cursor and changes nothing |
| ProgressHandler.PhaseChangeStep | src/formats/progressbar.c:175-176 | a change to a new phase (not the first phase drawn after INIT) redraws after a line break and leaves the counter and the interval alone |
| ProgressHandler.Ticked | src/formats/progressbar.c:177 | the post-increment of the `guint32` counter adds one below 2^32 and wraps to 0 at 2^32; nothing else in the state changes |
| ProgressHandler.ThrottleSkip | src/formats/progressbar.c:177-178 | a call within the phase whose counter value is not a multiple of the interval prints nothing and only advances the counter |
| ProgressHandler.ThrottleDraw | src/formats/progressbar.c:177-191 | a call within the phase whose counter value is a multiple of the interval advances the counter and redraws without a `LineBreak` token |
| ProgressHandler.ThrottleStep | src/formats/progressbar.c:175-179 | within a phase, a call redraws exactly when the counter value it reads is a multiple of the interval, never prints a `LineBreak` token, and advances the counter modulo 2^32 |
| ProgressHandler.LineBreakIff | src/formats/progressbar.c:175-176 | a `LineBreak` token is printed exactly on a change to a new phase |
| ProgressHandler.DrawnFrame | src/formats/progressbar.c:185-191 | a redraw prints the frame, after a line break at most. The handler keeps the cut text and its length. A text that fitted the buffer fills the column |
| ProgressHandler.ThrottledRunStep | src/formats/progressbar.c:175-179 | the first call of a run within a phase (any texts and geometries, no abort) leaves such a run behind, with the counter one further, and redraws exactly when the counter value is a multiple |
| ProgressHandler.ThrottledRunnable | src/formats/progressbar.c:175-179 | a run within a phase never takes a remainder by zero |
| ProgressHandler.ThrottledRunHead | src/formats/progressbar.c:175-179 | a run within a phase is its first call followed by the rest |
| ProgressHandler.ThrottleRunCounter | src/formats/progressbar.c:177 | over any `n` calls within a phase the counter advances by `n` and the interval stays |
| ProgressHandler.ThrottleRunNoBreak | src/formats/progressbar.c:175-179 | no `LineBreak` token is printed within a phase |
| ProgressHandler.ThrottleRun | src/formats/progressbar.c:175-179 | any `n` calls within a phase, whatever text each carries, redraw once per multiple of the interval among the counter values they read |
| ProgressHandler.ThrottleRunCeil | src/formats/progressbar.c:175-179 | any `n` calls within a phase redraw `ceil(n / interval)` times or one fewer, and exactly `ceil(n / interval)` times from a counter that is a multiple of the interval |
| ProgressHandler.RunFromInitial | src/formats/progressbar.c:198-215 | from the statically registered handler, any run that starts with INIT and can draw is defined, keeps every invariant and ends with an interval of at least 1 |

## Left out

- The `ioctl(TIOCGWINSZ)` query and its warning (lines 181-183): the terminal size is a foreign call. The widths it yields are inputs.
- Floating point: the 0.7/0.3 split of the columns, `percent`, the matching-phase ratio and the GiB figure (lines 72, 78, 127, 187-189). The model takes the text width, the bar width and the number of done cells as integers.
- The `g_snprintf` templates and the `MAYBE_*` colour macros (lines 54-84): the formatted text is an input. Its truncation to the 1024-byte buffer, and the full length `g_snprintf` reports, are modelled.
- The `default` branch of the template switch (lines 86-91), which clears the buffer: no redraw reaches it, since INIT and SUMMARY return earlier.
- `fprintf` and `fflush`: output is a sequence of tokens, and `Transcript` gives their characters.
- The configuration lookup and `g_ascii_strtoull` (lines 152-157): the option is an `Option<nat>`. Only the truncation of its value to `guint32` is modelled.
- The SUMMARY newline after a redraw (lines 193-195): it is unreachable, because SUMMARY returns at line 169.
- The registration fields of the static handler struct (lines 198-207). Its initial field values are `Initial`.
- Formatted text containing NUL: the templates produce C strings, so `NoNul` is required of the text.
- ProgressHandler.Defined excludes a throttled call before any INIT. There `update_interval` is still 0, and the C code would take a remainder by zero.
- ProgressHandler.Run requires `Runnable`: every call is `Defined` in the state the calls before it leave. This excludes only the remainder by zero above and a text with NUL.
- ProgressHandler.Step requires, through `Drawable`, a NUL-free text even on calls that skip the redraw.
- Characters: a `char` of the model stands for one byte of the C buffer. `text_iter` and the 1023-byte limit of `g_snprintf` count bytes, so a multi-byte character would count once here and several times in C. The templates emit ASCII only.
- Line breaks inside the text: the Merge template ends in `'\n'` (line 84), which reaches the terminal inside the text cells and is counted as one printable character. "No `LineBreak` token" statements are about the token of line 176 only.
- ProgressHandler.ThrottledRun assumes the run does not wrap the counter (`updateCounter + n < 2^32`). Across the wrap the counter restarts at 0, which is a multiple of every interval. `Ticks` over consecutive integers then no longer counts the redraws.
- ProgressHandler.ThrottledRunStep is stated only for runs that do not wrap the counter (through `ThrottledRun`).
- ProgressHandler.ThrottledRunHead is stated only for runs that do not wrap the counter (through `ThrottledRun`).
- ProgressHandler.ThrottleRunCounter is stated only for runs that do not wrap the counter: across the wrap the counter ends at `(c + n) mod 2^32`.
- ProgressHandler.ThrottleRunNoBreak is stated only for runs that do not wrap the counter, though a wrap does not add a line break.
- ProgressHandler.ThrottleRun is stated only for runs that do not wrap the counter.
- ProgressHandler.ThrottleRunCeil is stated only for runs that do not wrap the counter.
- TextColumn.Padding gives no padding for a negative width, where the loop as written prints `2^32 + width - text_len` spaces (see Findings; `PaddingAsWritten` models the loop as written).
- TextColumn.RightJustify uses the corrected `Padding`, so for a negative width it prints the text with no leading spaces.
- ProgressHandler.Frame draws the text column with the corrected padding, so for a negative text width its text cells hold no leading spaces.
- ProgressHandler.Step redraws a negative text width with the corrected padding rather than the flood of spaces of lines 117-118.
- ProgressHandler.DrawnFrame states a filled column of `max(width, 0)` printable characters, which for a negative width is the corrected behaviour, not the `2^32 - 1 - text_len` spaces the code prints.
- ColorStrip.FormatText: `text_len` is a `guint32` but is not wrapped. It never goes below zero, because the spans subtracted lie within the reported length.

## Findings

| source | as written | input that shows it | evidently intended | confidence | as-written member | corrected member |
|---|---|---|---|---|---|---|
| src/formats/progressbar.c:117-118 | `width` is cast to `unsigned` and the padding count `width - text_len` is computed in 32-bit unsigned arithmetic | `ws_col == 0` (no terminal size known yet) gives `text_width == -1`; with `text_len == 0` the loop prints 4294967295 spaces | no padding for a negative width | medium, not executed | TextColumn.NegativeWidthFloods | TextColumn.ColumnFilled |
