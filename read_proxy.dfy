/**
 * `upyt/read_proxy.py`: stream filters over a character stream in which a
 * `None` means "no input yet", and the `ReadProxy` that reads through them.
 *
 * A stream is a sequence of `Token`s. The `replace` and `match` generators
 * become methods that run the generator's loop over a finite input; their
 * single steps are the functions `ReplaceStep` and `MatchStep`, which the
 * proxy's filter chain shares.
 */
module ReadProxy {
  import opened Common

  /** A character, or the `None` a stream yields while waiting for input. */
  datatype Token = Char(c: char) | Pause

  /** A string as a stream of characters. */
  function Chars(s: string): (r: seq<Token>)
    ensures |r| == |s|
  {
    if s == [] then [] else Chars(s[..|s| - 1]) + [Char(s[|s| - 1])]
  }

  /** Token `i` of a string's stream is its character `i`, so none is `None`. */
  lemma {:induction false} CharsAt(s: string)
    ensures forall i :: 0 <= i < |s| ==> Chars(s)[i] == Char(s[i])
    ensures Pause !in Chars(s)
  {
    if s != [] {
      CharsAt(s[..|s| - 1]);
    }
  }

  lemma CharsSnoc(s: string, c: char)
    ensures Chars(s + [c]) == Chars(s) + [Char(c)]
  {
    assert (s + [c])[..|s|] == s;
  }

  lemma {:induction false} CharsAppend(a: string, b: string)
    ensures Chars(a + b) == Chars(a) + Chars(b)
    decreases |b|
  {
    if b == [] {
      assert a + b == a;
    } else {
      var init := b[..|b| - 1];
      assert a + b == (a + init) + [b[|b| - 1]];
      assert b == init + [b[|b| - 1]];
      CharsAppend(a, init);
      CharsSnoc(a + init, b[|b| - 1]);
      CharsSnoc(init, b[|b| - 1]);
    }
  }

  /** The characters of a stream, pauses dropped. */
  function Text(ts: seq<Token>): string
  {
    if ts == [] then []
    else
      var last := ts[|ts| - 1];
      Text(ts[..|ts| - 1]) + (if last.Char? then [last.c] else [])
  }

  lemma {:induction false} TextAppend(a: seq<Token>, b: seq<Token>)
    ensures Text(a + b) == Text(a) + Text(b)
    decreases |b|
  {
    if b == [] {
      assert a + b == a;
    } else {
      var init := b[..|b| - 1];
      assert a + b == (a + init) + [b[|b| - 1]];
      assert (a + b)[..|a + b| - 1] == a + init;
      assert b == init + [b[|b| - 1]];
      TextAppend(a, init);
    }
  }

  lemma {:induction false} TextChars(s: string)
    ensures Text(Chars(s)) == s
    decreases |s|
  {
    if s != [] {
      var init := s[..|s| - 1];
      assert Chars(s) == Chars(init) + [Char(s[|s| - 1])];
      TextAppend(Chars(init), [Char(s[|s| - 1])]);
      TextChars(init);
      assert [Char(s[|s| - 1])][..0] == [];
    }
  }

  /** How many pauses a stream holds. */
  function Pauses(ts: seq<Token>): nat
  {
    CountOf(ts, Pause)
  }

  /**
   * Between input characters the buffer of `replace` and `match` is empty
   * or a proper prefix of `find`.
   */
  predicate Partial(find: string, buffer: string)
  {
    buffer == [] || (StartsWith(find, buffer) && buffer != find)
  }

  // =====================================================================
  // replace

  /**
   * One pass of the replacer's loop: a pause is passed on; a character
   * joins the buffer, which then becomes the replacement if it is `find`,
   * is passed on whole if it can no longer become `find`, and is kept
   * otherwise.
   */
  function ReplaceStep(find: string, replacement: string, buffer: string, t: Token): (seq<Token>, string)
  {
    match t
    case Pause => ([Pause], buffer)
    case Char(c) =>
      var grown := buffer + [c];
      if find == grown then (Chars(replacement), [])
      else if !StartsWith(find, grown) then (Chars(grown), [])
      else ([], grown)
  }

  /** The output of the replacer over `input`, and its buffer afterwards. */
  function ReplaceRun(find: string, replacement: string, input: seq<Token>): (seq<Token>, string)
  {
    if input == [] then ([], [])
    else
      var before := ReplaceRun(find, replacement, input[..|input| - 1]);
      var step := ReplaceStep(find, replacement, before.1, input[|input| - 1]);
      (before.0 + step.0, step.1)
  }

  lemma ReplaceRunSnoc(find: string, replacement: string, input: seq<Token>, t: Token)
    ensures ReplaceRun(find, replacement, input + [t]).0
            == ReplaceRun(find, replacement, input).0 + ReplaceStep(find, replacement, ReplaceRun(find, replacement, input).1, t).0
    ensures ReplaceRun(find, replacement, input + [t]).1
            == ReplaceStep(find, replacement, ReplaceRun(find, replacement, input).1, t).1
  {
    assert (input + [t])[..|input|] == input;
  }

  /** A replacer step keeps the buffer empty or a proper prefix of `find`. */
  lemma ReplaceStepPartial(find: string, replacement: string, buffer: string, t: Token)
    requires Partial(find, buffer)
    ensures Partial(find, ReplaceStep(find, replacement, buffer, t).1)
  {
  }

  /**
   * `replace(find, replacement)` run over `input`: the generator's loop,
   * with `buffer` its `input_buffer` when the input runs out.
   */
  method Replacer(find: string, replacement: string, input: seq<Token>) returns (out: seq<Token>, buffer: string)
    ensures out == ReplaceRun(find, replacement, input).0 && buffer == ReplaceRun(find, replacement, input).1
    ensures Partial(find, buffer)
  {
    out, buffer := [], [];
    for i := 0 to |input|
      invariant out == ReplaceRun(find, replacement, input[..i]).0
      invariant buffer == ReplaceRun(find, replacement, input[..i]).1
      invariant Partial(find, buffer)
    {
      ReplaceRunSnoc(find, replacement, input[..i], input[i]);
      assert input[..i + 1] == input[..i] + [input[i]];
      ReplaceStepPartial(find, replacement, buffer, input[i]);
      match input[i]
      case Pause =>
        out := out + [Pause];
      case Char(c) =>
        buffer := buffer + [c];
        if find == buffer {
          out := out + Chars(replacement);
          buffer := [];
        } else if !StartsWith(find, buffer) {
          out := out + Chars(buffer);
          buffer := [];
        }
    }
    assert input[..|input|] == input;
  }

  /** A pause is passed through at once, whatever is buffered. */
  lemma ReplacePause(find: string, replacement: string, input: seq<Token>)
    ensures ReplaceRun(find, replacement, input + [Pause]).0 == ReplaceRun(find, replacement, input).0 + [Pause]
    ensures ReplaceRun(find, replacement, input + [Pause]).1 == ReplaceRun(find, replacement, input).1
  {
    ReplaceRunSnoc(find, replacement, input, Pause);
  }

  /** Every proper prefix of `find` is held back, and `find` itself comes out as the replacement. */
  lemma {:induction false} ReplaceHoldsPrefix(find: string, replacement: string, k: nat)
    requires k < |find|
    ensures ReplaceRun(find, replacement, Chars(find[..k])) == ([], find[..k])
  {
    if k > 0 {
      ReplaceHoldsPrefix(find, replacement, k - 1);
      assert find[..k - 1] + [find[k - 1]] == find[..k];
      CharsSnoc(find[..k - 1], find[k - 1]);
      ReplaceRunSnoc(find, replacement, Chars(find[..k - 1]), Char(find[k - 1]));
    } else {
      assert Chars(find[..0]) == [];
    }
  }

  /** The whole of `find`, from an empty buffer, becomes the replacement. */
  lemma ReplaceFind(find: string, replacement: string)
    requires find != []
    ensures ReplaceRun(find, replacement, Chars(find)).0 == Chars(replacement)
    ensures ReplaceRun(find, replacement, Chars(find)).1 == []
  {
    var k := |find| - 1;
    assert find[..k] + [find[k]] == find;
    CharsSnoc(find[..k], find[k]);
    ReplaceHoldsPrefix(find, replacement, k);
    ReplaceRunSnoc(find, replacement, Chars(find[..k]), Char(find[k]));
  }

  /**
   * A buffer that stops being a prefix is emitted as it is, without looking
   * for `find` inside it: with `find` = "aab", the input "aaab" comes out
   * unchanged although it ends with "aab".
   */
  lemma ReplaceNoRescan(a: char, b: char, replacement: string)
    requires a != b
    ensures ReplaceRun([a, a, b], replacement, Chars([a, a, a, b])) == (Chars([a, a, a, b]), [])
  {
    var find := [a, a, b];
    ReplaceHoldsPrefix(find, replacement, 2);
    assert find[..2] == [a, a];
    assert [a, a] + [a] == [a, a, a] && [a, a, a] + [b] == [a, a, a, b] && [] + [b] == [b];
    assert !StartsWith(find, [a, a, a]) && !StartsWith(find, [b]);
    CharsSnoc([a, a], a);
    ReplaceFlush(find, replacement, Chars([a, a]), a);
    assert [] + Chars([a, a, a]) == Chars([a, a, a]);
    CharsSnoc([a, a, a], b);
    ReplaceFlush(find, replacement, Chars([a, a, a]), b);
    CharsAppend([a, a, a], [b]);
  }

  /** A character after which the buffer cannot become `find` sends the buffer and the character on. */
  lemma ReplaceFlush(find: string, replacement: string, input: seq<Token>, c: char)
    requires var held := ReplaceRun(find, replacement, input).1;
             find != held + [c] && !StartsWith(find, held + [c])
    ensures var before := ReplaceRun(find, replacement, input);
            ReplaceRun(find, replacement, input + [Char(c)]) == (before.0 + Chars(before.1 + [c]), [])
  {
    ReplaceRunSnoc(find, replacement, input, Char(c));
  }

  /** One step of replacing `find` by itself passes on the buffered characters unchanged. */
  lemma ReplaceSelfStep(find: string, buffer: string, t: Token)
    ensures Text(ReplaceStep(find, find, buffer, t).0) + ReplaceStep(find, find, buffer, t).1 == buffer + Text([t])
    ensures Pauses(ReplaceStep(find, find, buffer, t).0) == Pauses([t])
  {
    assert [t][..0] == [];
    assert Pauses([t]) == CountOf([t][..0], Pause) + (if t == Pause then 1 else 0);
    match t
    case Pause =>
      assert Text([t]) == [];
      assert [Pause][..0] == [];
    case Char(c) =>
      assert Text([t]) == [c];
      var grown := buffer + [c];
      if find == grown || !StartsWith(find, grown) {
        TextChars(grown);
        CharsPauseFree(grown);
      }
  }

  /**
   * Replacing `find` by itself only delays characters: what has come out,
   * followed by the buffer, is exactly the input's characters.
   */
  lemma {:induction false} ReplaceSelfDelays(find: string, input: seq<Token>)
    ensures Text(ReplaceRun(find, find, input).0) + ReplaceRun(find, find, input).1 == Text(input)
    ensures Pauses(ReplaceRun(find, find, input).0) == Pauses(input)
    decreases |input|
  {
    if input != [] {
      var init := input[..|input| - 1];
      var t := input[|input| - 1];
      assert input == init + [t];
      ReplaceRunSnoc(find, find, init, t);
      ReplaceSelfDelays(find, init);
      var before := ReplaceRun(find, find, init);
      ReplaceSelfStep(find, before.1, t);
      DelaySnoc(before.0, before.1, ReplaceStep(find, find, before.1, t).0, ReplaceStep(find, find, before.1, t).1, init, t);
    }
  }

  /** A delay over `input` followed by a delay over one more token is a delay over both. */
  lemma DelaySnoc(out: seq<Token>, buffer: string, more: seq<Token>, buffer': string, input: seq<Token>, t: Token)
    requires Text(out) + buffer == Text(input) && Pauses(out) == Pauses(input)
    requires Text(more) + buffer' == buffer + Text([t]) && Pauses(more) == Pauses([t])
    ensures Text(out + more) + buffer' == Text(input + [t])
    ensures Pauses(out + more) == Pauses(input + [t])
  {
    TextAppend(out, more);
    TextAppend(input, [t]);
    AppendAssoc(Text(out), Text(more), buffer');
    AppendAssoc(Text(out), buffer, Text([t]));
    CountOfAppend(out, more, Pause);
    CountOfAppend(input, [t], Pause);
  }

  lemma {:induction false} CharsPauseFree(s: string)
    ensures Pauses(Chars(s)) == 0
    decreases |s|
  {
    if s != [] {
      var init := s[..|s| - 1];
      CharsPauseFree(init);
      CountOfAppend(Chars(init), [Char(s[|s| - 1])], Pause);
      assert [Char(s[|s| - 1])][..0] == [];
    }
  }

  // =====================================================================
  // match

  /**
   * One pass of the matcher's loop: like `ReplaceStep` with `find` as its
   * own replacement, and `matched` says the callback is due.
   */
  function MatchStep(find: string, buffer: string, t: Token): (seq<Token>, string, bool)
  {
    match t
    case Pause => ([Pause], buffer, false)
    case Char(c) =>
      var grown := buffer + [c];
      if find == grown || !StartsWith(find, grown) then (Chars(grown), [], find == grown)
      else ([], grown, false)
  }

  /** The matcher's output, its buffer and the callback calls made, over `input`. */
  function MatchRun(find: string, input: seq<Token>): (seq<Token>, string, nat)
  {
    if input == [] then ([], [], 0)
    else
      var before := MatchRun(find, input[..|input| - 1]);
      var step := MatchStep(find, before.1, input[|input| - 1]);
      (before.0 + step.0, step.1, before.2 + if step.2 then 1 else 0)
  }

  lemma MatchRunSnoc(find: string, input: seq<Token>, t: Token)
    ensures var before := MatchRun(find, input);
            var step := MatchStep(find, before.1, t);
            MatchRun(find, input + [t]) == (before.0 + step.0, step.1, before.2 + if step.2 then 1 else 0)
  {
    var longer := input + [t];
    assert longer[..|longer| - 1] == input && longer[|longer| - 1] == t;
  }

  /** The matcher forwards exactly what `replace(find, find)` would. */
  lemma {:induction false} MatchIsSelfReplace(find: string, input: seq<Token>)
    ensures MatchRun(find, input).0 == ReplaceRun(find, find, input).0
    ensures MatchRun(find, input).1 == ReplaceRun(find, find, input).1
    decreases |input|
  {
    if input != [] {
      var init := input[..|input| - 1];
      var t := input[|input| - 1];
      assert input == init + [t];
      MatchIsSelfReplace(find, init);
      MatchRunSnoc(find, init, t);
      ReplaceRunSnoc(find, find, init, t);
    }
  }

  /**
   * `match` emits exactly the input's characters and pauses, in order,
   * delayed only by what it buffers.
   */
  lemma MatchDelays(find: string, input: seq<Token>)
    ensures Text(MatchRun(find, input).0) + MatchRun(find, input).1 == Text(input)
    ensures Pauses(MatchRun(find, input).0) == Pauses(input)
  {
    MatchIsSelfReplace(find, input);
    ReplaceSelfDelays(find, input);
  }

  /**
   * `match(find, callback)` run over `input`, with a callback that raises on
   * its call number `failsOn` (counting from 0) and returns otherwise.
   * `consumed` is how many input tokens were taken. The callback runs when
   * the buffer becomes `find`, before the matched characters are emitted;
   * when it raises, the input has been taken exactly through the end of
   * that match and the matched characters never come out.
   */
  method Matcher(find: string, input: seq<Token>, failsOn: Option<nat>)
    returns (out: seq<Token>, consumed: nat, raised: bool)
    ensures consumed <= |input|
    ensures !raised ==> consumed == |input| && out == MatchRun(find, input).0
    ensures !raised ==> failsOn.None? || failsOn.value >= MatchRun(find, input).2
    ensures raised ==> && 0 < consumed
                       && failsOn == Some(MatchRun(find, input[..consumed - 1]).2)
                       && MatchRun(find, input[..consumed]).2 == failsOn.value + 1
                       && out == MatchRun(find, input[..consumed - 1]).0
  {
    out := [];
    var buffer: string := [];
    var calls: nat := 0;
    for i := 0 to |input|
      invariant out == MatchRun(find, input[..i]).0
      invariant buffer == MatchRun(find, input[..i]).1
      invariant calls == MatchRun(find, input[..i]).2
      invariant failsOn.None? || failsOn.value >= calls
    {
      assert input[..i + 1] == input[..i] + [input[i]];
      MatchRunSnoc(find, input[..i], input[i]);
      match input[i]
      case Pause =>
        out := out + [Pause];
      case Char(c) =>
        buffer := buffer + [c];
        if find == buffer {
          if failsOn == Some(calls) {
            return out, i + 1, true;
          }
          calls := calls + 1;
        }
        if find == buffer || !StartsWith(find, buffer) {
          out := out + Chars(buffer);
          buffer := [];
        }
    }
    assert input[..|input|] == input;
    return out, |input|, false;
  }

  // =====================================================================
  // ReadProxy

  /** A stream filter as `ReadProxy` is given it. */
  datatype Filter =
    | Replace(find: string, replacement: string)
    | Match(find: string, failsOn: Option<nat>)  // the callback raises on call number `failsOn`

  /** A filter in the chain, with the state its generator keeps. */
  datatype Stage =
    | Replacing(find: string, replacement: string, buffer: string)
    | Matching(find: string, buffer: string, calls: nat, failsOn: Option<nat>)

  function Start(f: Filter): Stage
  {
    match f
    case Replace(find, replacement) => Replacing(find, replacement, [])
    case Match(find, failsOn) => Matching(find, [], 0, failsOn)
  }

  /** One token through one filter: its output, its new state, and whether its callback raised. */
  function StageStep(s: Stage, t: Token): (seq<Token>, Stage, bool)
  {
    match s
    case Replacing(find, replacement, buffer) =>
      var step := ReplaceStep(find, replacement, buffer, t);
      (step.0, s.(buffer := step.1), false)
    case Matching(find, buffer, calls, failsOn) =>
      var step := MatchStep(find, buffer, t);
      if step.2 && failsOn == Some(calls) then ([], s, true)
      else (step.0, s.(buffer := step.1, calls := calls + if step.2 then 1 else 0), false)
  }

  /** A stream through one filter, up to the point where its callback raises. */
  function FeedAll(s: Stage, ts: seq<Token>): (seq<Token>, Stage, bool)
  {
    if ts == [] then ([], s, false)
    else
      var before := FeedAll(s, ts[..|ts| - 1]);
      if before.2 then before
      else
        var step := StageStep(before.1, ts[|ts| - 1]);
        (before.0 + step.0, step.1, step.2)
  }

  /** A stream through the filters in list order: the first filter sees the raw characters. */
  function Chain(stages: seq<Stage>, ts: seq<Token>): (r: (seq<Token>, seq<Stage>, bool))
    ensures |r.1| == |stages|
    decreases |stages|
  {
    if stages == [] then (ts, [], false)
    else
      var first := FeedAll(stages[0], ts);
      var rest := Chain(stages[1..], first.0);
      (rest.0, [first.1] + rest.1, first.2 || rest.2)
  }

  lemma FeedAllSnoc(s: Stage, ts: seq<Token>, t: Token)
    ensures var before := FeedAll(s, ts);
            FeedAll(s, ts + [t]) == if before.2 then before
                                    else var step := StageStep(before.1, t); (before.0 + step.0, step.1, step.2)
  {
    assert (ts + [t])[..|ts|] == ts;
  }

  /** Feeding a stream in two parts is feeding it whole. */
  lemma {:induction false} FeedAllAppend(s: Stage, a: seq<Token>, b: seq<Token>)
    ensures FeedAll(s, a).2 ==> FeedAll(s, a + b) == FeedAll(s, a)
    ensures !FeedAll(s, a).2 ==>
              FeedAll(s, a + b) == (FeedAll(s, a).0 + FeedAll(FeedAll(s, a).1, b).0,
                                    FeedAll(FeedAll(s, a).1, b).1, FeedAll(FeedAll(s, a).1, b).2)
    decreases |b|
  {
    var fa := FeedAll(s, a);
    if b == [] {
      assert a + b == a;
      assert fa.0 + [] == fa.0;
    } else {
      var init := b[..|b| - 1];
      var t := b[|b| - 1];
      assert a + b == (a + init) + [t];
      assert b == init + [t];
      FeedAllAppend(s, a, init);
      FeedAllSnoc(s, a + init, t);
      if !fa.2 {
        FeedAllSnoc(fa.1, init, t);
        var fi := FeedAll(fa.1, init);
        if !fi.2 {
          var step := StageStep(fi.1, t);
          assert (fa.0 + fi.0) + step.0 == fa.0 + (fi.0 + step.0);
        }
      }
    }
  }

  /** Nothing in, nothing out. */
  lemma {:induction false} ChainNothing(stages: seq<Stage>)
    ensures Chain(stages, []).0 == [] && !Chain(stages, []).2
    decreases |stages|
  {
    if stages != [] {
      ChainNothing(stages[1..]);
    }
  }

  /** A pause passes through a filter unchanged and leaves its state alone. */
  lemma StagePause(s: Stage)
    ensures StageStep(s, Pause) == ([Pause], s, false)
  {
  }

  lemma FeedAllPause(s: Stage)
    ensures FeedAll(s, [Pause]) == ([Pause], s, false)
  {
    assert FeedAll(s, []) == ([], s, false);
    StagePause(s);
    FeedAllSnoc(s, [], Pause);
    assert [] + [Pause] == [Pause];
  }

  /** A pause passes through the whole chain unchanged. */
  lemma {:induction false} ChainPause(stages: seq<Stage>)
    ensures Chain(stages, [Pause]) == ([Pause], stages, false)
    decreases |stages|
  {
    if stages != [] {
      FeedAllPause(stages[0]);
      ChainPause(stages[1..]);
      assert [stages[0]] + stages[1..] == stages;
    }
  }

  /** With no filters, the proxy's stream is the readable's stream. */
  lemma ChainEmpty(ts: seq<Token>)
    ensures Chain([], ts) == (ts, [], false)
  {
  }

  /**
   * Running the chain over a stream in two parts gives the same output as
   * over the whole stream; once a callback raised in the first part, the
   * second part adds nothing.
   */
  lemma {:induction false} ChainAppend(stages: seq<Stage>, a: seq<Token>, b: seq<Token>)
    ensures var ca := Chain(stages, a);
            !ca.2 ==> Chain(stages, a + b) == var cb := Chain(ca.1, b); (ca.0 + cb.0, cb.1, cb.2)
    ensures Chain(stages, a).2 ==> Chain(stages, a + b).0 == Chain(stages, a).0 && Chain(stages, a + b).2
    decreases |stages|
  {
    if stages != [] {
      var fa := FeedAll(stages[0], a);
      FeedAllAppend(stages[0], a, b);
      if fa.2 {
        assert FeedAll(stages[0], a + b) == fa;
      } else {
        var fb := FeedAll(fa.1, b);
        ChainAppend(stages[1..], fa.0, fb.0);
        var ca := Chain(stages, a);
        assert ca.1[1..] == Chain(stages[1..], fa.0).1;
        assert ca.1[0] == fa.1;
      }
    }
  }

  /** No filter's callback raises: the chain is still alive. */
  function Outcome(stages: seq<Stage>, source: seq<Token>, pending: seq<Token>): (seq<Token>, bool)
  {
    var c := Chain(stages, source);
    (pending + c.0, c.2)
  }

  /**
   * Pulling the next token off the readable and running it through the
   * chain changes nothing the proxy will yield. When a callback raises, the
   * chain's output before the raise is all that is left to yield.
   */
  lemma OutcomePull(stages: seq<Stage>, source: seq<Token>)
    requires source != []
    ensures var step := Chain(stages, [source[0]]);
            !step.2 ==> Outcome(stages, source, []) == Outcome(step.1, source[1..], step.0)
    ensures var step := Chain(stages, [source[0]]);
            step.2 ==> Outcome(stages, source, []) == (step.0, true)
  {
    ChainAppend(stages, [source[0]], source[1..]);
    assert [source[0]] + source[1..] == source;
    var whole := Chain(stages, source);
    assert [] + whole.0 == whole.0;
  }

  /** Taking a token out of `pending` takes it off the front of what is yielded. */
  lemma OutcomePop(stages: seq<Stage>, source: seq<Token>, pending: seq<Token>)
    requires pending != []
    ensures Outcome(stages, source, pending).0 == [pending[0]] + Outcome(stages, source, pending[1..]).0
    ensures Outcome(stages, source, pending).1 == Outcome(stages, source, pending[1..]).1
  {
    assert pending == [pending[0]] + pending[1..];
  }

  /**
   * Part way through `read(length)`: the characters gathered so far, then
   * what the proxy will still yield, make up what it would yield at the start.
   */
  predicate Gathered(start: (seq<Token>, bool), text: string, now: (seq<Token>, bool), length: Option<nat>)
  {
    && (length.None? || |text| <= length.value)
    && now.1 == start.1
    && start.0 == Chars(text) + now.0
  }

  /** A read that runs into a raise had room for everything before it, and met no `None`. */
  lemma GatheredRaise(start: (seq<Token>, bool), text: string, length: Option<nat>)
    requires Gathered(start, text, ([], true), length)
    requires length.None? || |text| < length.value
    ensures start.1 && Pause !in start.0 && (length.None? || |start.0| < length.value)
  {
    assert start.0 == Chars(text) + [];
    CharsAt(text);
  }

  /** The exception a `match` callback raised out of `read`. */
  datatype CallbackRaised = CallbackRaised

  /**
   * `ReadProxy`: the readable is the sequence of tokens its `read(1)` will
   * give (an empty read being `None`), after which it gives `None` for
   * ever. Each token pulled from it is run through the filter chain, and
   * what the chain yields waits in `pending` until read.
   */
  class ReadProxy {
    var source: seq<Token>
    var stages: seq<Stage>
    var pending: seq<Token>
    /** A callback raised after the chain yielded `pending`: the read that goes past it raises. */
    var raising: bool
    /** A callback raised out of a read: the generators are closed and every read is empty. */
    var closed: bool

    /** What the proxy will still yield, and whether a callback will raise on the way. */
    ghost function Future(): (seq<Token>, bool)
      reads this
    {
      if closed then ([], false)
      else if raising then (pending, true)
      else Outcome(stages, source, pending)
    }

    constructor (readable: seq<Token>, filters: seq<Filter>)
      ensures source == readable && pending == [] && !raising && !closed
      ensures |stages| == |filters| && forall i :: 0 <= i < |filters| ==> stages[i] == Start(filters[i])
      ensures Future() == (Chain(stages, readable).0, Chain(stages, readable).2)
    {
      source := readable;
      stages := seq(|filters|, i requires 0 <= i < |filters| => Start(filters[i]));
      pending := [];
      raising := false;
      closed := false;
      new;
      assert [] + Chain(stages, readable).0 == Chain(stages, readable).0;
    }

    /**
     * The generators' next step when nothing is waiting: one `read(1)` from
     * the readable, run through the chain. What the chain yields before a
     * callback raises still waits to be read.
     */
    method Pull()
      requires !closed && !raising && pending == [] && source != []
      modifies this
      ensures source == old(source)[1..] && !closed
      ensures raising == Chain(old(stages), [old(source)[0]]).2
      ensures pending == Chain(old(stages), [old(source)[0]]).0
      ensures !raising ==> stages == Chain(old(stages), [old(source)[0]]).1
      ensures Future() == old(Future())
    {
      var step := Chain(stages, [source[0]]);
      OutcomePull(stages, source);
      source := source[1..];
      pending := step.0;
      if step.2 {
        raising := true;
      } else {
        stages := step.1;
      }
    }

    /** The next token the chain yields, when one is waiting. */
    method Next() returns (t: Token)
      requires !closed && pending != []
      modifies this
      ensures t == old(pending)[0] && pending == old(pending)[1..]
      ensures source == old(source) && stages == old(stages) && raising == old(raising) && closed == old(closed)
      ensures old(Future()) == ([t] + Future().0, Future().1)
    {
      OutcomePop(stages, source, pending);
      assert pending == [pending[0]] + pending[1..];
      t := pending[0];
      pending := pending[1..];
    }

    /**
     * `next()` of the outermost generator: a token the chain yields,
     * pulling characters off the readable until one comes. An exhausted
     * readable gives `None`, which passes through every filter; a callback
     * that raises closes the proxy.
     */
    method NextToken() returns (r: Result<Token, CallbackRaised>)
      requires !closed
      modifies this
      ensures r.Err? <==> old(Future()) == ([], true)
      ensures r.Err? ==> closed
      ensures r.Ok? && old(Future()).0 != [] ==>
                !closed && old(Future()) == ([r.value] + Future().0, Future().1)
      ensures r.Ok? && old(Future()).0 == [] ==> !closed && r.value == Pause && Future() == old(Future())
    {
      while pending == []
        invariant !closed && Future() == old(Future())
        decreases |source|
      {
        if raising {
          closed := true;
          return Err(CallbackRaised);
        }
        if source == [] {
          // `read(1)` gives nothing: `None` runs through every filter
          // unchanged (ChainPause).
          ChainNothing(stages);
          return Ok(Pause);
        }
        Pull();
      }
      var t := Next();
      return Ok(t);
    }

    /**
     * `read(length)`: the characters the chain yields up to the next
     * `None` (which is consumed), and at most `length` of them. A callback
     * that raises before that makes the whole read raise, and the
     * characters it had gathered are lost.
     */
    method Read(length: Option<nat>) returns (r: Result<string, CallbackRaised>)
      modifies this
      ensures old(closed) ==> r == Ok([]) && Future() == old(Future())
      ensures r.Ok? ==> length.None? || |r.value| <= length.value
      ensures r.Ok? ==> Future().1 == old(Future()).1
      ensures r.Ok? ==> old(Future()).0 == Chars(r.value) + Future().0
                        || old(Future()).0 == Chars(r.value) + [Pause] + Future().0
      ensures r.Ok? && (length.None? || |r.value| < length.value) ==>
                old(Future()).0 == Chars(r.value) + [Pause] + Future().0 || Future().0 == []
      ensures r.Ok? && length.Some? && |r.value| == length.value ==> old(Future()).0 == Chars(r.value) + Future().0
      ensures r.Err? <==> && old(Future()).1 && Pause !in old(Future()).0
                          && (length.None? || |old(Future()).0| < length.value)
      ensures r.Err? ==> closed
    {
      if closed {
        return Ok([]);
      }
      ghost var want := Future();
      var text: string := [];
      while length.None? || |text| < length.value
        invariant !closed && Gathered(want, text, Future(), length)
        decreases |Future().0|
      {
        ghost var now := Future();
        var t := NextToken();
        if t.Err? {
          GatheredRaise(want, text, length);
          return Err(CallbackRaised);
        }
        if t.value == Pause {
          if now.0 == [] {
            assert want.0 == Chars(text) + [];
          } else {
            assert want.0 == Chars(text) + [Pause] + Future().0;
            assert want.0[|text|] == Pause;
          }
          return Ok(text);
        }
        CharsSnoc(text, t.value.c);
        text := text + [t.value.c];
      }
      assert |want.0| >= |Chars(text)|;
      return Ok(text);
    }
  }
}
