/**
 * `rm_fmt_prog`, the progress-bar handler.  Each call reports the phase the
 * host has reached; the handler hides the cursor on INIT, shows it again on
 * SUMMARY or abort, and otherwise redraws one self-overwriting line: a bar,
 * then the status text right-justified in its column.  Redraws are throttled
 * by a counter, except that a change to a new phase redraws at once after a
 * line break, which keeps the previous phase's line on screen.  The first
 * phase drawn after INIT is not such a change: the remembered phase is still
 * INIT, so that call goes through the throttle and prints no line break.
 *
 * The handler state is an immutable record and one call is a pure step that
 * returns the next state and the output as tokens.  Everything the C code
 * takes from outside (the configuration, the abort flag, the formatted text,
 * the terminal geometry) arrives in an `Env`.
 */
module ProgressHandler {
  import opened Wrappers
  import opened Escapes
  import opened ColorStrip
  import opened ProgressBar
  import opened TextColumn
  import opened Throttle

  /** The host's progress phases; `Matching` is the shredder phase. */
  datatype Phase = Init | Traverse | Preprocess | Matching | Merge | Summary

  /** `update_interval` when the configuration gives none, or zero. */
  const DefaultInterval: nat := 15

  datatype Token =
    | HideCursor
    | ShowCursor
    | LineBreak
    | BarCells(bar: seq<char>)
    | TextCells(text: seq<char>)
    | LineEnd(reset: seq<char>)

  /** The characters a token stands for on the terminal. */
  function Emit(t: Token): seq<char>
  {
    match t
    case HideCursor => "\U{1B}[?25l"
    case ShowCursor => "\U{1B}[?25h"
    case LineBreak => "\n"
    case BarCells(bar) => bar
    case TextCells(text) => text
    case LineEnd(reset) => reset + "\r"
  }

  /** The characters a whole output sends to the terminal. */
  function Transcript(out: seq<Token>): seq<char>
  {
    if |out| == 0 then [] else Emit(out[0]) + Transcript(out[1..])
  }

  /** The handler's own fields (the percentage and terminal size are inputs). */
  datatype Handler = Handler(
    lastState: Phase,
    updateCounter: nat,
    updateInterval: nat,
    textBuf: seq<char>,
    textLen: nat)

  /** The handler as statically registered, before any call. */
  const Initial: Handler := Handler(Init, 0, 0, [], 0)

  /**
   * What one call takes from outside the handler: whether the session was
   * aborted, the parsed `update_interval` option (None when it is not set),
   * the status text as the phase's template formats it, the text column
   * width (`ws_col * 0.7 - 1`), the bar width (`ws_col * 0.3`), the number
   * of done cells (`bar width * percent`), and the colour reset sequence
   * (empty when colours are off).
   */
  datatype Env = Env(
    aborted: bool,
    configInterval: Option<nat>,
    formatted: seq<char>,
    textWidth: int,
    barWidth: int,
    cells: int,
    reset: seq<char>)

  datatype Event = Event(phase: Phase, env: Env)

  datatype Outcome = Outcome(next: Handler, out: seq<Token>)

  /** Facts every reachable handler state has. */
  predicate Sane(h: Handler)
  {
    && h.updateCounter < Word
    && h.updateInterval < Word
    && h.lastState != Summary
    && |h.textBuf| < Capacity
    && NoNul(h.textBuf)
  }

  /** The call only restores the cursor. */
  predicate Stops(phase: Phase, env: Env)
  {
    phase == Summary || env.aborted
  }

  /** A change to a new phase after one has already been drawn. */
  predicate PhaseChanged(h: Handler, phase: Phase)
  {
    h.lastState != phase && h.lastState != Init
  }

  /** Inputs a redraw can use: the formatted text is a C string. */
  predicate Drawable(env: Env)
  {
    NoNul(env.formatted)
  }

  /** Inputs for which a call that reaches the drawing code can draw. */
  predicate Renderable(e: Event)
  {
    e.phase == Init || Stops(e.phase, e.env) || Drawable(e.env)
  }

  /** The call is defined: it does not take a remainder by a zero interval
      (a throttled call before any INIT) and it can draw if it must. */
  predicate Defined(h: Handler, phase: Phase, env: Env)
  {
    && Renderable(Event(phase, env))
    && (phase == Init || Stops(phase, env) || PhaseChanged(h, phase) || h.updateInterval >= 1)
  }

  /** Number of redraws in an output: each draws exactly one bar. */
  function Redraws(out: seq<Token>): nat
  {
    if |out| == 0 then 0 else (if out[0].BarCells? then 1 else 0) + Redraws(out[1..])
  }

  lemma {:induction false} RedrawsAppend(a: seq<Token>, b: seq<Token>)
    ensures Redraws(a + b) == Redraws(a) + Redraws(b)
    decreases |a|
  {
    if |a| == 0 {
      assert a + b == b;
    } else {
      assert (a + b)[0] == a[0];
      assert (a + b)[1..] == a[1..] + b;
      RedrawsAppend(a[1..], b);
    }
  }

  /** The interval INIT settles on: the option's value cut to 32 bits when the
      option is set, the current one otherwise, and the default instead of 0. */
  function ResolveInterval(current: nat, config: Option<nat>): (r: nat)
    ensures 1 <= r
    ensures current < Word ==> r < Word
  {
    var v := match config
      case Some(n) => n % Word
      case None => current;
    if v == 0 then DefaultInterval else v
  }

  /** A bar, a text and an end of line make one redraw and no line break. */
  lemma OneRedraw(bar: seq<char>, text: seq<char>, reset: seq<char>)
    ensures Redraws([BarCells(bar), TextCells(text), LineEnd(reset)]) == 1
    ensures LineBreak !in [BarCells(bar), TextCells(text), LineEnd(reset)]
  {
    var r := [BarCells(bar), TextCells(text), LineEnd(reset)];
    assert r[1..][1..][1..] == [];
    assert Redraws(r[1..][1..]) == 0;
    assert Redraws(r[1..]) == 0;
  }

  /** The justified text column of a redraw. */
  function Column(env: Env): seq<char>
    requires Drawable(env)
  {
    var line := StripColors(env.formatted, env.textWidth);
    RightJustify(line.textLen, env.textWidth, line.buf)
  }

  /** What a redraw prints: the bar for the given geometry, the text cut to
      its column and justified in it, then the end of line. */
  function Frame(env: Env): (r: seq<Token>)
    requires Drawable(env)
    ensures |r| == 3 && Redraws(r) == 1 && LineBreak !in r
    ensures r[0].BarCells? && r[1].TextCells? && r[2] == LineEnd(env.reset)
  {
    OneRedraw(Bar(env.barWidth, env.cells), Column(env), env.reset);
    [BarCells(Bar(env.barWidth, env.cells)), TextCells(Column(env)), LineEnd(env.reset)]
  }

  /** The characters of a bar, a text and an end of line. */
  lemma {:induction false} ThreeTranscript(bar: seq<char>, text: seq<char>, reset: seq<char>)
    ensures Transcript([BarCells(bar), TextCells(text), LineEnd(reset)]) == bar + text + reset + "\r"
  {
    var r := [BarCells(bar), TextCells(text), LineEnd(reset)];
    assert r[1..][1..][1..] == [];
    assert Transcript(r[1..][1..]) == reset + "\r";
    assert Transcript(r[1..]) == text + (reset + "\r");
  }

  /** On the terminal a redraw is the bar, then the justified text, then the
      colour reset and a carriage return that brings the cursor back to the
      start of the line for the next redraw. */
  lemma FrameTranscript(env: Env)
    requires Drawable(env)
    ensures Transcript(Frame(env)) == Bar(env.barWidth, env.cells) + Column(env) + env.reset + "\r"
  {
    ThreeTranscript(Bar(env.barWidth, env.cells), Column(env), env.reset);
  }

  /** A redraw: remember the phase and the cut text, and print the frame
      after `lead`. */
  function Draw(h: Handler, phase: Phase, env: Env, lead: seq<Token>): (r: Outcome)
    requires Drawable(env)
    ensures r.out == lead + Frame(env)
    ensures Redraws(r.out) == Redraws(lead) + 1
    ensures r.next == h.(lastState := phase,
                         textBuf := StripColors(env.formatted, env.textWidth).buf,
                         textLen := StripColors(env.formatted, env.textWidth).textLen)
  {
    var line := StripColors(env.formatted, env.textWidth);
    RedrawsAppend(lead, Frame(env));
    Outcome(h.(lastState := phase, textBuf := line.buf, textLen := line.textLen), lead + Frame(env))
  }

  /** One call of the handler for `phase`. */
  function Step(h: Handler, phase: Phase, env: Env): (r: Outcome)
    requires Defined(h, phase, env)
    ensures Sane(h) ==> Sane(r.next)
    ensures phase == Init || h.updateInterval >= 1 ==> r.next.updateInterval >= 1
    ensures Redraws(r.out) <= 1
    ensures Redraws(r.out) == 1 ==> r.next.lastState == phase
    ensures Redraws(r.out) == 0 ==>
              r.next.lastState == h.lastState && r.next.textBuf == h.textBuf && r.next.textLen == h.textLen
    ensures r.next.updateCounter == h.updateCounter || r.next.updateCounter == (h.updateCounter + 1) % Word
    ensures phase != Init ==> r.next.updateInterval == h.updateInterval
  {
    if phase == Init then
      Outcome(h.(updateInterval := ResolveInterval(h.updateInterval, env.configInterval)), [HideCursor])
    else if Stops(phase, env) then
      Outcome(h, [ShowCursor])
    else if PhaseChanged(h, phase) then
      Draw(h, phase, env, [LineBreak])
    else
      if h.updateCounter % h.updateInterval > 0 then Outcome(Ticked(h), [])
      else Draw(Ticked(h), phase, env, [])
  }

  /** A sequence of calls each of which is defined in the state the previous
      ones leave. */
  predicate Runnable(h: Handler, evs: seq<Event>)
    decreases |evs|
  {
    |evs| > 0 ==>
      && Defined(h, evs[0].phase, evs[0].env)
      && Runnable(Step(h, evs[0].phase, evs[0].env).next, evs[1..])
  }

  /** The calls of a whole run, one after the other. */
  function Run(h: Handler, evs: seq<Event>): (r: Outcome)
    requires Runnable(h, evs)
    ensures Sane(h) ==> Sane(r.next)
    ensures h.updateInterval >= 1 || (exists k :: 0 <= k < |evs| && evs[k].phase == Init) ==>
      r.next.updateInterval >= 1
    ensures Redraws(r.out) <= |evs|
    decreases |evs|
  {
    if |evs| == 0 then Outcome(h, [])
    else
      var o := Step(h, evs[0].phase, evs[0].env);
      var rest := Run(o.next, evs[1..]);
      RedrawsAppend(o.out, rest.out);
      InitInTail(evs);
      Outcome(rest.next, o.out + rest.out)
  }

  /** An INIT that is not the first call is among the later ones. */
  lemma InitInTail(evs: seq<Event>)
    requires |evs| > 0
    ensures evs[0].phase != Init && (exists k :: 0 <= k < |evs| && evs[k].phase == Init) ==>
      exists k :: 0 <= k < |evs[1..]| && evs[1..][k].phase == Init
  {
    if evs[0].phase != Init && exists k :: 0 <= k < |evs| && evs[k].phase == Init {
      var k :| 0 <= k < |evs| && evs[k].phase == Init;
      assert evs[1..][k - 1].phase == Init;
    }
  }

  /** Every call renderable, and an interval set before or by the first call:
      then no call takes a remainder by zero. */
  lemma {:induction false} RenderableRunnable(h: Handler, evs: seq<Event>)
    requires h.updateInterval >= 1 || (|evs| > 0 && evs[0].phase == Init)
    requires forall k :: 0 <= k < |evs| ==> Renderable(evs[k])
    ensures Runnable(h, evs)
    decreases |evs|
  {
    if |evs| > 0 {
      var o := Step(h, evs[0].phase, evs[0].env);
      var rest := evs[1..];
      assert forall k :: 0 <= k < |rest| ==> rest[k] == evs[k + 1];
      RenderableRunnable(o.next, rest);
    }
  }

  // ----- one call -----

  /** INIT only hides the cursor and settles the interval: to the option's
      32-bit value, or 15 when that is 0 or the option is unset and no
      interval was set before.  Nothing else changes. */
  lemma InitStep(h: Handler, env: Env)
    ensures Step(h, Init, env).out == [HideCursor]
    ensures Step(h, Init, env).next == h.(updateInterval := Step(h, Init, env).next.updateInterval)
    ensures Step(h, Init, env).next.updateInterval >= 1
    ensures env.configInterval.Some? && env.configInterval.value % Word != 0 ==>
              Step(h, Init, env).next.updateInterval == env.configInterval.value % Word
    ensures env.configInterval.Some? && env.configInterval.value % Word == 0 ==>
              Step(h, Init, env).next.updateInterval == DefaultInterval
    ensures env.configInterval.None? ==>
              Step(h, Init, env).next.updateInterval == if h.updateInterval == 0 then DefaultInterval else h.updateInterval
  {
  }

  /** SUMMARY, or any call after an abort, only shows the cursor. */
  lemma StopStep(h: Handler, phase: Phase, env: Env)
    requires phase != Init && Stops(phase, env)
    ensures Step(h, phase, env) == Outcome(h, [ShowCursor])
  {
  }

  /** A change to a new phase (not the first phase after INIT) redraws at
      once, after a line break, and leaves the counter and the interval where
      they were. */
  lemma PhaseChangeStep(h: Handler, phase: Phase, env: Env)
    requires phase != Init && !Stops(phase, env) && PhaseChanged(h, phase) && Drawable(env)
    ensures Step(h, phase, env).out[0] == LineBreak
    ensures Redraws(Step(h, phase, env).out) == 1
    ensures Step(h, phase, env).next.lastState == phase
    ensures Step(h, phase, env).next.updateCounter == h.updateCounter
    ensures Step(h, phase, env).next.updateInterval == h.updateInterval
  {
  }

  /** The counter after a throttled call: post-incremented, wrapping at 2^32. */
  function Ticked(h: Handler): (r: Handler)
    ensures r.updateCounter < Word
    ensures h.updateCounter + 1 < Word ==> r.updateCounter == h.updateCounter + 1
    ensures h.updateCounter + 1 == Word ==> r.updateCounter == 0
    ensures r.(updateCounter := h.updateCounter) == h
  {
    h.(updateCounter := (h.updateCounter + 1) % Word)
  }

  /** A throttled call whose counter value is not a multiple of the interval
      prints nothing and only advances the counter. */
  lemma ThrottleSkip(h: Handler, phase: Phase, env: Env)
    requires phase != Init && !Stops(phase, env) && !PhaseChanged(h, phase)
    requires Drawable(env) && h.updateInterval >= 1 && h.updateCounter % h.updateInterval != 0
    ensures Step(h, phase, env) == Outcome(Ticked(h), [])
  {
  }

  /** A throttled call whose counter value is a multiple of the interval
      advances the counter and redraws without a line break. */
  lemma ThrottleDraw(h: Handler, phase: Phase, env: Env)
    requires phase != Init && !Stops(phase, env) && !PhaseChanged(h, phase)
    requires Drawable(env) && h.updateInterval >= 1 && h.updateCounter % h.updateInterval == 0
    ensures Step(h, phase, env) == Draw(Ticked(h), phase, env, [])
  {
  }

  /** Within a phase, the counter is post-incremented (modulo 2^32) and the
      call redraws exactly when the value it read is a multiple of the
      interval; otherwise it prints nothing at all. */
  lemma ThrottleStep(h: Handler, phase: Phase, env: Env)
    requires phase != Init && !Stops(phase, env) && !PhaseChanged(h, phase)
    requires Drawable(env) && h.updateInterval >= 1
    ensures LineBreak !in Step(h, phase, env).out
    ensures Step(h, phase, env).next.updateCounter == (h.updateCounter + 1) % Word
    ensures Step(h, phase, env).next.updateInterval == h.updateInterval
    ensures Redraws(Step(h, phase, env).out) == 1 <==> h.updateCounter % h.updateInterval == 0
    ensures Redraws(Step(h, phase, env).out) == 0 ==> Step(h, phase, env) == Outcome(Ticked(h), [])
  {
    var next := Ticked(h);
    assert next.updateCounter == (h.updateCounter + 1) % Word;
    if h.updateCounter % h.updateInterval == 0 {
      ThrottleDraw(h, phase, env);
      assert [] + Frame(env) == Frame(env);
      assert Step(h, phase, env).next == next.(lastState := phase,
        textBuf := StripColors(env.formatted, env.textWidth).buf,
        textLen := StripColors(env.formatted, env.textWidth).textLen);
    } else {
      ThrottleSkip(h, phase, env);
    }
  }

  /** A line break is printed exactly on a change of phase. */
  lemma LineBreakIff(h: Handler, phase: Phase, env: Env)
    requires Defined(h, phase, env)
    ensures LineBreak in Step(h, phase, env).out <==> phase != Init && !Stops(phase, env) && PhaseChanged(h, phase)
  {
    if phase != Init && !Stops(phase, env) && !PhaseChanged(h, phase) {
      ThrottleStep(h, phase, env);
    }
  }

  /** A redraw prints the bar for the given geometry, then the text cut to
      the column and justified in it, then the end of line, after a line
      break at most; the cut text and its length are what the handler keeps.
      A text that fits the buffer fills the column exactly (an empty column
      when the width is negative). */
  lemma DrawnFrame(h: Handler, phase: Phase, env: Env)
    requires Defined(h, phase, env) && Redraws(Step(h, phase, env).out) == 1
    ensures Drawable(env)
    ensures Step(h, phase, env).out in {Frame(env), [LineBreak] + Frame(env)}
    ensures var line := StripColors(env.formatted, env.textWidth);
      && Frame(env) == [BarCells(Bar(env.barWidth, env.cells)),
                        TextCells(RightJustify(line.textLen, env.textWidth, line.buf)),
                        LineEnd(env.reset)]
      && Step(h, phase, env).next.textBuf == line.buf
      && Step(h, phase, env).next.textLen == line.textLen
    ensures |env.formatted| < Capacity ==>
      var line := StripColors(env.formatted, env.textWidth);
      VisibleLength(RightJustify(line.textLen, env.textWidth, line.buf)) == Budget(env.textWidth)
  {
    if !PhaseChanged(h, phase) {
      ThrottleDraw(h, phase, env);
      assert [] + Frame(env) == Frame(env);
    }
    ColumnFilledIfFits(env);
  }

  lemma ColumnFilledIfFits(env: Env)
    requires Drawable(env)
    ensures |env.formatted| < Capacity ==>
      var line := StripColors(env.formatted, env.textWidth);
      VisibleLength(RightJustify(line.textLen, env.textWidth, line.buf)) == Budget(env.textWidth)
  {
    if |env.formatted| < Capacity {
      ColumnFilled(env.formatted, env.textWidth);
    }
  }

  // ----- runs of calls -----

  /** The hypotheses of a throttled run: calls that all report the phase
      `p` already on screen (or the first phase after INIT), with no abort,
      each with its own text and geometry, and not enough of them to wrap
      the counter. */
  predicate ThrottledRun(h: Handler, p: Phase, evs: seq<Event>)
  {
    && p != Init && p != Summary
    && (h.lastState == p || h.lastState == Init)
    && h.updateInterval >= 1 && h.updateCounter + |evs| < Word
    && forall k :: 0 <= k < |evs| ==> evs[k].phase == p && !evs[k].env.aborted && Drawable(evs[k].env)
  }

  /** The first call of a throttled run leaves a throttled run behind. */
  lemma ThrottledRunStep(h: Handler, p: Phase, evs: seq<Event>)
    requires ThrottledRun(h, p, evs) && |evs| > 0
    ensures evs[0].phase == p && Defined(h, p, evs[0].env)
    ensures ThrottledRun(Step(h, p, evs[0].env).next, p, evs[1..])
    ensures Step(h, p, evs[0].env).next.updateCounter == h.updateCounter + 1
    ensures Step(h, p, evs[0].env).next.updateInterval == h.updateInterval
    ensures Redraws(Step(h, p, evs[0].env).out) == if h.updateCounter % h.updateInterval == 0 then 1 else 0
    ensures LineBreak !in Step(h, p, evs[0].env).out
  {
    var e := evs[0];
    assert e.phase == p && !e.env.aborted && Drawable(e.env);
    ThrottleStep(h, p, e.env);
    var rest := evs[1..];
    assert forall k :: 0 <= k < |rest| ==> rest[k] == evs[k + 1];
  }

  /** A throttled run never divides by zero. */
  lemma {:induction false} ThrottledRunnable(h: Handler, p: Phase, evs: seq<Event>)
    requires ThrottledRun(h, p, evs)
    ensures Runnable(h, evs)
    decreases |evs|
  {
    if |evs| > 0 {
      ThrottledRunStep(h, p, evs);
      ThrottledRunnable(Step(h, p, evs[0].env).next, p, evs[1..]);
    }
  }

  /** A throttled run is its first call followed by the rest. */
  lemma ThrottledRunHead(h: Handler, p: Phase, evs: seq<Event>)
    requires ThrottledRun(h, p, evs) && |evs| > 0
    ensures Runnable(h, evs) && Runnable(Step(h, p, evs[0].env).next, evs[1..])
    ensures Run(h, evs) ==
      var o := Step(h, p, evs[0].env);
      var rest := Run(o.next, evs[1..]);
      Outcome(rest.next, o.out + rest.out)
  {
    ThrottledRunStep(h, p, evs);
    ThrottledRunnable(h, p, evs);
  }

  /** Over a throttled run the counter advances by one per call and the
      interval stays. */
  lemma {:induction false} ThrottleRunCounter(h: Handler, p: Phase, evs: seq<Event>)
    requires ThrottledRun(h, p, evs)
    ensures Runnable(h, evs)
    ensures Run(h, evs).next.updateCounter == h.updateCounter + |evs|
    ensures Run(h, evs).next.updateInterval == h.updateInterval
    decreases |evs|
  {
    ThrottledRunnable(h, p, evs);
    if |evs| > 0 {
      ThrottledRunStep(h, p, evs);
      ThrottledRunHead(h, p, evs);
      ThrottleRunCounter(Step(h, p, evs[0].env).next, p, evs[1..]);
    }
  }

  /** No line break token is printed within a phase. */
  lemma {:induction false} ThrottleRunNoBreak(h: Handler, p: Phase, evs: seq<Event>)
    requires ThrottledRun(h, p, evs)
    ensures Runnable(h, evs)
    ensures LineBreak !in Run(h, evs).out
    decreases |evs|
  {
    ThrottledRunnable(h, p, evs);
    if |evs| > 0 {
      ThrottledRunStep(h, p, evs);
      ThrottledRunHead(h, p, evs);
      ThrottleRunNoBreak(Step(h, p, evs[0].env).next, p, evs[1..]);
    }
  }

  /** Throttling over a run: the calls read the counter values
      `c .. c + |evs| - 1` and redraw once per multiple of the interval
      among them, whatever text each call carries. */
  lemma {:induction false} ThrottleRun(h: Handler, p: Phase, evs: seq<Event>)
    requires ThrottledRun(h, p, evs)
    ensures Runnable(h, evs)
    ensures Redraws(Run(h, evs).out) == Ticks(h.updateCounter, |evs|, h.updateInterval)
    decreases |evs|
  {
    ThrottledRunnable(h, p, evs);
    if |evs| > 0 {
      ThrottledRunStep(h, p, evs);
      ThrottledRunHead(h, p, evs);
      var o := Step(h, p, evs[0].env);
      var rest := Run(o.next, evs[1..]);
      ThrottleRun(o.next, p, evs[1..]);
      RedrawsAppend(o.out, rest.out);
      assert Redraws(Run(h, evs).out) == Redraws(o.out) + Redraws(rest.out);
      assert Redraws(rest.out) == Ticks(h.updateCounter + 1, |evs| - 1, h.updateInterval);
    }
  }

  /** `n` calls of a throttled run redraw `ceil(n / interval)` times, or one
      fewer; exactly that many from a counter that is a multiple of the
      interval (the first run after INIT, for one). */
  lemma ThrottleRunCeil(h: Handler, p: Phase, evs: seq<Event>)
    requires ThrottledRun(h, p, evs)
    ensures Runnable(h, evs)
    ensures CeilDiv(|evs|, h.updateInterval) - 1 <= Redraws(Run(h, evs).out) <= CeilDiv(|evs|, h.updateInterval)
    ensures h.updateCounter % h.updateInterval == 0 ==> Redraws(Run(h, evs).out) == CeilDiv(|evs|, h.updateInterval)
  {
    ThrottleRun(h, p, evs);
    TicksNearCeil(h.updateCounter, |evs|, h.updateInterval);
  }

  /** A call that stops (SUMMARY, or an abort) may come at any point, even
      before INIT: it shows the cursor and leaves the state to the calls
      after it. */
  lemma StopThenRun(h: Handler, phase: Phase, env: Env, evs: seq<Event>)
    requires phase != Init && Stops(phase, env)
    ensures Runnable(h, [Event(phase, env)] + evs) <==> Runnable(h, evs)
    ensures Runnable(h, evs) ==>
      Run(h, [Event(phase, env)] + evs) == Outcome(Run(h, evs).next, [ShowCursor] + Run(h, evs).out)
  {
    var all := [Event(phase, env)] + evs;
    assert all[1..] == evs;
    StopStep(h, phase, env);
  }

  /** A run that starts with INIT from the registered handler keeps every
      invariant, including an interval of at least 1. */
  lemma RunFromInitial(init: Env, evs: seq<Event>)
    requires forall k :: 0 <= k < |evs| ==> Renderable(evs[k])
    ensures Runnable(Initial, [Event(Init, init)] + evs)
    ensures Sane(Run(Initial, [Event(Init, init)] + evs).next)
    ensures Run(Initial, [Event(Init, init)] + evs).next.updateInterval >= 1
  {
    var all := [Event(Init, init)] + evs;
    assert forall k :: 1 <= k < |all| ==> all[k] == evs[k - 1];
    RenderableRunnable(Initial, all);
    assert Sane(Initial);
    assert all[0].phase == Init;
    var r := Run(Initial, all);
    assert Sane(r.next) && r.next.updateInterval >= 1;
  }
}
