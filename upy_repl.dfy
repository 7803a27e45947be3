/**
 * `upyt/upy_repl.py`: reading expected output from the device, reaching a
 * REPL prompt with keyboard interrupts, and running code through the raw
 * paste protocol with its flow-control window.
 *
 * The device is a simulated `Connection`: the bytes it will send are queued
 * in advance, and everything the host writes is logged. Exceptions become
 * `Err` values of `ReplError`.
 */
module UpyRepl {
  import opened Common
  import opened Connection

  /** The exceptions raised here, each with the output it carries. */
  datatype ReplError =
    | MicroPythonReplError(output: Bytes)
    | NoReplError(output: Bytes)
    | RawPasteModeNotSupportedError(response: Bytes)
    | SomeCodeNotSentError(exceptionOutput: Bytes, codeOutput: Bytes, unsent: Bytes)
    | WindowSizeTruncated(data: Bytes)  // `struct.error`: fewer than two bytes to unpack
    | CodeContainsCtrlD                 // the `ValueError` for code holding 0x04

  const CTRL_A: Byte := 0x01
  const CTRL_C: Byte := 0x03
  const CTRL_D: Byte := 0x04
  const CTRL_E: Byte := 0x05

  /** `b"\r\n>>> "`: a fresh prompt. */
  const PROMPT: Bytes := [13, 10, 62, 62, 62, 32]

  // =====================================================================
  // expect and expect_endswith

  /**
   * `expect`: reads `len(value)` bytes; they are returned when they are
   * exactly `value`, otherwise `MicroPythonReplError` carries them.
   */
  method Expect(conn: Connection, value: Bytes) returns (r: Result<Bytes, ReplError>, ghost actual: Bytes)
    requires conn.Valid()
    modifies conn
    ensures conn.Valid()
    ensures old(conn.incoming) == actual + conn.incoming
    ensures |actual| == Min(|value|, |old(conn.incoming)|)
    ensures r.Ok? <==> StartsWith(old(conn.incoming), value)
    ensures r.Ok? ==> r.value == value
    ensures r.Err? ==> r.error == MicroPythonReplError(actual)
    ensures conn.sent == old(conn.sent) && conn.timeout == old(conn.timeout)
  {
    var data := conn.Read(|value|);
    actual := data;
    if data != value {
      r := Err(MicroPythonReplError(data));
    } else {
      r := Ok(data);
    }
  }

  /**
   * `expect_endswith`: reads up to and including the first `value`; all of
   * it is returned when it ends with `value`, otherwise (a timeout)
   * `MicroPythonReplError` carries it.
   */
  method ExpectEndswith(conn: Connection, value: Bytes) returns (r: Result<Bytes, ReplError>, ghost actual: Bytes)
    requires conn.Valid()
    modifies conn
    ensures conn.Valid()
    ensures old(conn.incoming) == actual + conn.incoming
    ensures forall k :: 0 <= k < |actual| ==> !EndsWith(actual[..k], value)
    ensures r.Ok? <==> EndsWith(actual, value)
    ensures r.Ok? ==> r.value == actual
    ensures r.Err? ==> r.error == MicroPythonReplError(actual) && conn.incoming == []
    ensures conn.sent == old(conn.sent) && conn.timeout == old(conn.timeout)
  {
    var data := conn.ReadUntil(value);
    actual := data;
    if !EndsWith(data, value) {
      r := Err(MicroPythonReplError(data));
    } else {
      r := Ok(data);
    }
  }

  // =====================================================================
  // interrupt_and_enter_repl

  /** Bytes of an ASCII text built from digits, letters and control characters. */
  function Ascii(s: string): (r: Bytes)
    requires IsAscii(s)
    ensures |r| == |s| && forall i :: 0 <= i < |s| ==> r[i] == s[i] as int
  {
    AsciiBytes(s)
  }

  lemma HexAscii(n: nat)
    ensures IsAscii("0x" + HexLower(n) + "\r")
    ensures IsAscii("0x" + HexLower(n) + "\r\n" + Decimal(n) + "\r\n>>> ")
  {
    var h := HexLower(n);
    var d := Decimal(n);
    assert forall i :: 0 <= i < |h| ==> h[i] as int < 128;
    assert forall i :: 0 <= i < |d| ==> d[i] as int < 128;
    var s := "0x" + h + "\r\n" + d + "\r\n>>> ";
    forall i | 0 <= i < |s|
      ensures s[i] as int < 128
    {
      if 2 <= i < 2 + |h| {
        assert s[i] == h[i - 2];
      } else if 4 + |h| <= i < 4 + |h| + |d| {
        assert s[i] == d[i - 4 - |h|];
      }
    }
    var t := "0x" + h + "\r";
    forall i | 0 <= i < |t|
      ensures t[i] as int < 128
    {
      if 2 <= i < 2 + |h| {
        assert t[i] == h[i - 2];
      }
    }
  }

  /** `b"0x%x\r" % n`: the probe typed at the prompt. */
  function ProbeCommand(n: nat): Bytes
  {
    HexAscii(n);
    Ascii("0x" + HexLower(n) + "\r")
  }

  /** `b"0x%x\r\n%d\r\n>>> " % (n, n)`: its echo, its value and a fresh prompt. */
  function ProbeReply(n: nat): Bytes
  {
    HexAscii(n);
    Ascii("0x" + HexLower(n) + "\r\n" + Decimal(n) + "\r\n>>> ")
  }

  /** The probe holds no Ctrl+C: only interrupts send 0x03. */
  lemma ProbeHasNoInterrupt(n: nat)
    ensures CountOf(ProbeCommand(n), CTRL_C) == 0
  {
    var p := ProbeCommand(n);
    var s := "0x" + HexLower(n) + "\r";
    forall i | 0 <= i < |p|
      ensures p[i] != CTRL_C
    {
      assert p[i] == s[i] as int;
      if 2 <= i < |s| - 1 {
        assert s[i] == HexLower(n)[i - 2];
      }
    }
    NoCount(p, CTRL_C);
  }

  lemma {:induction false} NoCount<T>(s: seq<T>, x: T)
    requires forall i :: 0 <= i < |s| ==> s[i] != x
    ensures CountOf(s, x) == 0
  {
    if s != [] {
      NoCount(s[..|s| - 1], x);
    }
  }

  /**
   * A stretch of the bytes read while reaching the prompt: kept in the
   * returned output, or a matched prompt or probe reply, which is stripped.
   */
  datatype Piece = Kept(data: Bytes) | Matched(data: Bytes)

  /** Everything the pieces read, in order. */
  function Consumed(pieces: seq<Piece>): Bytes
  {
    if pieces == [] then [] else Consumed(pieces[..|pieces| - 1]) + pieces[|pieces| - 1].data
  }

  /** The kept pieces, in order: the output handed back. */
  function Unmatched(pieces: seq<Piece>): Bytes
  {
    if pieces == [] then []
    else
      var last := pieces[|pieces| - 1];
      Unmatched(pieces[..|pieces| - 1]) + (if last.Kept? then last.data else [])
  }

  lemma PiecesSnoc(pieces: seq<Piece>, p: Piece)
    ensures Consumed(pieces + [p]) == Consumed(pieces) + p.data
    ensures Unmatched(pieces + [p]) == Unmatched(pieces) + (if p.Kept? then p.data else [])
  {
    assert (pieces + [p])[..|pieces|] == pieces;
  }

  /** The stripped pieces are prompts and replies to the probes of the attempts made. */
  predicate OnlyPrompts(pieces: seq<Piece>, probes: seq<nat>, attempts: nat)
    requires attempts <= |probes|
  {
    forall i :: 0 <= i < |pieces| && pieces[i].Matched? ==>
      pieces[i].data == PROMPT || exists k :: 0 <= k < attempts && pieces[i].data == ProbeReply(probes[k])
  }

  function Max0(n: int): nat { if n > 0 then n else 0 }

  lemma {:induction false} PiecesAppend(pieces: seq<Piece>, more: seq<Piece>)
    ensures Consumed(pieces + more) == Consumed(pieces) + Consumed(more)
    ensures Unmatched(pieces + more) == Unmatched(pieces) + Unmatched(more)
    decreases |more|
  {
    if more == [] {
      assert pieces + more == pieces;
    } else {
      var init := more[..|more| - 1];
      var last := more[|more| - 1];
      assert pieces + more == (pieces + init) + [last];
      PiecesAppend(pieces, init);
      PiecesSnoc(pieces + init, last);
      PiecesSnoc(init, last);
      assert init + [last] == more;
      AppendAssoc(Consumed(pieces), Consumed(init), last.data);
      AppendAssoc(Unmatched(pieces), Unmatched(init), if last.Kept? then last.data else []);
    }
  }

  /** No prefix of `s`, `s` itself included, ends with `value`: `value` never occurs in `s`. */
  predicate Absent(s: Bytes, value: Bytes)
  {
    forall k {:trigger EndsWith(s[..k], value)} :: 0 <= k <= |s| ==> !EndsWith(s[..k], value)
  }

  /** `s` ends with `value` and no shorter prefix of it does: `value` occurs first at its end. */
  predicate FirstEnd(s: Bytes, value: Bytes)
  {
    EndsWith(s, value) && forall k {:trigger EndsWith(s[..k], value)} :: 0 <= k < |s| ==> !EndsWith(s[..k], value)
  }

  /**
   * Reads up to and including the first `value`; what came before it is
   * kept, `value` is matched. Without a `value` the whole stream is read
   * and kept.
   */
  method ReadPast(conn: Connection, value: Bytes) returns (found: bool, output: Bytes, ghost pieces: seq<Piece>)
    requires conn.Valid()
    modifies conn
    ensures conn.Valid()
    ensures conn.sent == old(conn.sent) && conn.timeout == old(conn.timeout)
    ensures old(conn.incoming) == Consumed(pieces) + conn.incoming
    ensures output == Unmatched(pieces)
    ensures forall i :: 0 <= i < |pieces| && pieces[i].Matched? ==> pieces[i].data == value
    ensures found ==> pieces == [Kept(output), Matched(value)] && FirstEnd(output + value, value)
    ensures found ==> old(conn.incoming) == output + value + conn.incoming
    ensures !found ==> pieces == [Kept(output)] && Absent(output, value) && conn.incoming == []
    ensures !found ==> old(conn.incoming) == output
  {
    var reply, heard := ExpectEndswith(conn, value);
    if reply.Ok? {
      output := reply.value[..|reply.value| - |value|];
      pieces := [Kept(output), Matched(value)];
      PastFound(heard, output, value);
      found := true;
    } else {
      output := reply.error.output;
      pieces := [Kept(heard)];
      PastMissing(heard, value);
      found := false;
    }
  }

  /** The bytes through the first `value`, split into the kept part and `value`. */
  lemma PastFound(heard: Bytes, output: Bytes, value: Bytes)
    requires EndsWith(heard, value) && forall k :: 0 <= k < |heard| ==> !EndsWith(heard[..k], value)
    requires output == heard[..|heard| - |value|]
    ensures heard == output + value && FirstEnd(output + value, value)
    ensures Consumed([Kept(output), Matched(value)]) == heard
    ensures Unmatched([Kept(output), Matched(value)]) == output
  {
    assert heard == output + value;
    PiecesSnoc([], Kept(output));
    PiecesSnoc([Kept(output)], Matched(value));
    assert [Kept(output)] + [Matched(value)] == [Kept(output), Matched(value)];
  }

  /** The bytes read up to a timeout, all kept, without `value` anywhere in them. */
  lemma PastMissing(heard: Bytes, value: Bytes)
    requires !EndsWith(heard, value) && forall k :: 0 <= k < |heard| ==> !EndsWith(heard[..k], value)
    ensures Absent(heard, value)
    ensures Consumed([Kept(heard)]) == heard && Unmatched([Kept(heard)]) == heard
  {
    assert heard[..|heard|] == heard;
    PiecesSnoc([], Kept(heard));
  }

  /**
   * One attempt of `interrupt_and_enter_repl`: a Ctrl+C, a wait for the
   * prompt and, once it is seen, the probe and a wait for its reply.
   * `reached` says the reply was seen; `output` is what the attempt adds to
   * the unmatched output.
   */
  method InterruptAttempt(conn: Connection, probe: nat)
    returns (reached: bool, output: Bytes, ghost pieces: seq<Piece>)
    requires conn.Valid()
    modifies conn
    ensures conn.Valid() && conn.timeout == old(conn.timeout)
    ensures ReadSoFar(old(conn.incoming), conn.incoming, pieces, output)
    ensures forall i :: 0 <= i < |pieces| && pieces[i].Matched? ==>
              pieces[i].data == PROMPT || pieces[i].data == ProbeReply(probe)
    ensures reached ==> pieces != [] && pieces[|pieces| - 1] == Matched(ProbeReply(probe))
    ensures reached <==> PromptThenReply(old(conn.incoming), probe)
    ensures !reached ==> conn.incoming == []
    ensures conn.sent == old(conn.sent) + [CTRL_C] || conn.sent == old(conn.sent) + [CTRL_C] + ProbeCommand(probe)
  {
    var _ := conn.Write([CTRL_C]);
    var prompted, head, first := ReadPast(conn, PROMPT);
    if !prompted {
      UnpromptedAttempt(old(conn.incoming), conn.incoming, first, head, probe);
      return false, head, first;
    }
    var _ := conn.Write(ProbeCommand(probe));
    var rest;
    ghost var afterPrompt := conn.incoming;
    ghost var second;
    reached, rest, second := ReadPast(conn, ProbeReply(probe));
    PromptedAttempt(old(conn.incoming), afterPrompt, conn.incoming, first, head, second, rest, probe, reached);
    pieces := first + second;
    output := head + rest;
  }

  /** An attempt that never saw the prompt read the whole stream and keeps it. */
  lemma UnpromptedAttempt(start: Bytes, end: Bytes, first: seq<Piece>, head: Bytes, probe: nat)
    requires start == Consumed(first) + end && head == Unmatched(first)
    requires forall i :: 0 <= i < |first| && first[i].Matched? ==> first[i].data == PROMPT
    requires Absent(head, PROMPT) && end == [] && start == head
    ensures ReadSoFar(start, end, first, head)
    ensures forall i :: 0 <= i < |first| && first[i].Matched? ==>
              first[i].data == PROMPT || first[i].data == ProbeReply(probe)
    ensures !PromptThenReply(start, probe)
  {
    NoFirst(start, PROMPT, ProbeReply(probe));
  }

  /**
   * An attempt that saw the prompt: it reached the REPL exactly when the
   * stream held the prompt and, after it, the probe's reply.
   */
  lemma PromptedAttempt(start: Bytes, mid: Bytes, end: Bytes, first: seq<Piece>, head: Bytes,
                        second: seq<Piece>, rest: Bytes, probe: nat, reached: bool)
    requires start == Consumed(first) + mid && head == Unmatched(first)
    requires forall i :: 0 <= i < |first| && first[i].Matched? ==> first[i].data == PROMPT
    requires FirstEnd(head + PROMPT, PROMPT) && start == head + PROMPT + mid
    requires mid == Consumed(second) + end && rest == Unmatched(second)
    requires forall i :: 0 <= i < |second| && second[i].Matched? ==> second[i].data == ProbeReply(probe)
    requires reached ==> second == [Kept(rest), Matched(ProbeReply(probe))] && mid == rest + ProbeReply(probe) + end
    requires !reached ==> Absent(rest, ProbeReply(probe)) && end == [] && mid == rest
    ensures ReadSoFar(start, end, first + second, head + rest)
    ensures forall i :: 0 <= i < |first + second| && (first + second)[i].Matched? ==>
              (first + second)[i].data == PROMPT || (first + second)[i].data == ProbeReply(probe)
    ensures reached ==> first + second != [] && (first + second)[|first + second| - 1] == Matched(ProbeReply(probe))
    ensures reached <==> PromptThenReply(start, probe)
  {
    if reached {
      FirstThenSecond(start, head, PROMPT, mid, rest, ProbeReply(probe), end);
    } else {
      NoSecondAfterFirst(start, head, PROMPT, mid, ProbeReply(probe));
    }
    ReadSoFarStep(start, mid, end, first, second, head, rest);
    AttemptPieces(first, second, probe);
  }

  /** The prompt's pieces and the reply's pieces together match only the two of them. */
  lemma AttemptPieces(first: seq<Piece>, second: seq<Piece>, probe: nat)
    requires forall i :: 0 <= i < |first| && first[i].Matched? ==> first[i].data == PROMPT
    requires forall i :: 0 <= i < |second| && second[i].Matched? ==> second[i].data == ProbeReply(probe)
    ensures forall i :: 0 <= i < |first + second| && (first + second)[i].Matched? ==>
              (first + second)[i].data == PROMPT || (first + second)[i].data == ProbeReply(probe)
    ensures second != [] ==> (first + second)[|first + second| - 1] == second[|second| - 1]
  {
    var pieces := first + second;
    forall i | 0 <= i < |pieces| && pieces[i].Matched?
      ensures pieces[i].data == PROMPT || pieces[i].data == ProbeReply(probe)
    {
      if i < |first| {
        assert pieces[i] == first[i];
      } else {
        assert pieces[i] == second[i - |first|];
      }
    }
  }

  /**
   * `s` holds `first` and, after it, `second`: what reading past `first`
   * and then past `second` waits for.
   */
  ghost predicate Follows(s: Bytes, first: Bytes, second: Bytes)
  {
    exists i, j :: 0 <= i <= j <= |s| && EndsWith(s[..i], first) && EndsWith(s[i..j], second)
  }

  /** `s` holds the prompt and, after it, the reply to probe `n`: what one attempt waits for. */
  ghost predicate PromptThenReply(s: Bytes, n: nat)
  {
    Follows(s, PROMPT, ProbeReply(n))
  }

  /** Without `first`, nothing follows it. */
  lemma NoFirst(s: Bytes, first: Bytes, second: Bytes)
    requires Absent(s, first)
    ensures !Follows(s, first, second)
  {
  }

  /**
   * `second` never following the first `first` never follows any later
   * `first` either.
   */
  lemma NoSecondAfterFirst(s: Bytes, head: Bytes, first: Bytes, tail: Bytes, second: Bytes)
    requires s == head + first + tail
    requires FirstEnd(head + first, first)
    requires Absent(tail, second)
    ensures !Follows(s, first, second)
  {
    forall i, j | 0 <= i <= j <= |s| && EndsWith(s[..i], first)
      ensures !EndsWith(s[i..j], second)
    {
      PrefixOfAppend(head + first, tail, i);
      EndsWithinTail(head + first, tail, i, j, second);
    }
  }

  lemma PrefixOfAppend(a: Bytes, b: Bytes, i: int)
    ensures 0 <= i <= |a| ==> (a + b)[..i] == a[..i]
  {
  }

  /** A stretch of `a + b` lying within `b` ends as the prefix of `b` up to its end does. */
  lemma EndsWithinTail(a: Bytes, b: Bytes, i: int, j: int, v: Bytes)
    ensures |a| <= i <= j <= |a| + |b| && EndsWith((a + b)[i..j], v) ==> EndsWith(b[..j - |a|], v)
  {
    if |a| <= i <= j <= |a| + |b| && EndsWith((a + b)[i..j], v) {
      var m := j - |a|;
      assert (a + b)[i..j][j - i - |v|..] == b[..m][m - |v|..];
    }
  }

  /** `first` and a later `second` are what the two reads wait for. */
  lemma FirstThenSecond(s: Bytes, head: Bytes, first: Bytes, mid: Bytes, rest: Bytes, second: Bytes, tail: Bytes)
    requires s == head + first + mid && mid == rest + second + tail
    ensures Follows(s, first, second)
  {
    var i := |head| + |first|;
    var j := i + |rest| + |second|;
    assert s[..i] == head + first;
    assert s[i..j] == mid[..|rest| + |second|] == rest + second;
  }

  /**
   * Only the first attempt has bytes to read: once it times out the stream
   * is spent, so later attempts never see a prompt.
   */
  lemma AttemptProgress(attempt: nat, stream: Bytes, mid: Bytes, end: Bytes, probes: seq<nat>, reached: bool)
    requires attempt < |probes|
    requires attempt == 0 ==> mid == stream
    requires attempt >= 1 ==> mid == [] && !PromptThenReply(stream, probes[0])
    requires reached <==> PromptThenReply(mid, probes[attempt])
    requires !reached ==> end == []
    ensures reached ==> attempt == 0 && PromptThenReply(stream, probes[0])
    ensures !reached ==> end == [] && !PromptThenReply(stream, probes[0])
  {
    NothingReached(probes[attempt]);
  }

  /** Nothing left to read holds no prompt. */
  lemma NothingReached(n: nat)
    ensures !PromptThenReply([], n)
  {
  }

  /** `sent` extends `sent0` and adds `interrupts` Ctrl+C bytes to it. */
  predicate SentInterrupts(sent0: Bytes, sent: Bytes, interrupts: nat)
  {
    |sent0| <= |sent| && sent[..|sent0|] == sent0 && CountOf(sent, CTRL_C) == CountOf(sent0, CTRL_C) + interrupts
  }

  /**
   * The pieces read so far cover what left the queue between `start` and
   * `rest`, and `output` is their kept part.
   */
  ghost predicate ReadSoFar(start: Bytes, rest: Bytes, pieces: seq<Piece>, output: Bytes)
  {
    start == Consumed(pieces) + rest && output == Unmatched(pieces)
  }

  /** The pieces of one more attempt extend `ReadSoFar`. */
  lemma ReadSoFarStep(start: Bytes, mid: Bytes, rest: Bytes, pieces: seq<Piece>, more: seq<Piece>,
                      output: Bytes, added: Bytes)
    requires ReadSoFar(start, mid, pieces, output)
    requires ReadSoFar(mid, rest, more, added)
    ensures ReadSoFar(start, rest, pieces + more, output + added)
  {
    PiecesAppend(pieces, more);
  }

  lemma SentStep(sent0: Bytes, sentMid: Bytes, sent: Bytes, attempt: nat)
    requires SentInterrupts(sent0, sentMid, attempt)
    requires |sentMid| <= |sent| && sent[..|sentMid|] == sentMid
    requires CountOf(sent, CTRL_C) == CountOf(sentMid, CTRL_C) + 1
    ensures SentInterrupts(sent0, sent, attempt + 1)
  {
    assert sent[..|sent0|] == sent[..|sentMid|][..|sent0|];
  }

  /**
   * `interrupt_and_enter_repl`, with `probes[k]` the random number of
   * attempt `k`. It returns (or carries in `NoReplError`) everything read
   * except the matched prompts and probe replies; each attempt sends one
   * Ctrl+C; success means the reply to a probe was seen; the timeout is
   * restored on both paths.
   */
  method InterruptAndEnterRepl(conn: Connection, numAttempts: int, timeout: real, probes: seq<nat>)
    returns (r: Result<Bytes, ReplError>, ghost pieces: seq<Piece>)
    requires conn.Valid()
    requires |probes| >= Max0(numAttempts)
    requires forall k :: 0 <= k < |probes| ==> 0x10 <= probes[k] <= 0xFFFFFF
    modifies conn
    ensures conn.Valid()
    ensures conn.timeout == old(conn.timeout)
    ensures old(conn.incoming) == Consumed(pieces) + conn.incoming
    ensures r.Ok? ==> r.value == Unmatched(pieces)
    ensures r.Err? ==> r.error == NoReplError(Unmatched(pieces))
    ensures OnlyPrompts(pieces, probes, Max0(numAttempts))
    ensures r.Ok? ==> 0 < |probes| && pieces != [] && pieces[|pieces| - 1] == Matched(ProbeReply(probes[0]))
    ensures r.Err? ==> SentInterrupts(old(conn.sent), conn.sent, Max0(numAttempts))
    ensures r.Ok? ==> exists n :: 0 < n <= Max0(numAttempts) && SentInterrupts(old(conn.sent), conn.sent, n)
    ensures r.Ok? ==> PromptThenReply(old(conn.incoming)[old(conn.buffered)..], probes[0])
    ensures r.Err? && Max0(numAttempts) >= 1 ==>
              conn.incoming == [] && !PromptThenReply(old(conn.incoming)[old(conn.buffered)..], probes[0])
  {
    var unmatchedOutput := conn.ReadBuffered();
    ghost var stream := old(conn.incoming)[old(conn.buffered)..];
    pieces := [Kept(unmatchedOutput)];
    PiecesSnoc([], Kept(unmatchedOutput));
    var saved := conn.OverrideTimeout(timeout);
    var attempts := Max0(numAttempts);
    for attempt := 0 to attempts
      invariant conn.Valid() && saved == old(conn.timeout)
      invariant ReadSoFar(old(conn.incoming), conn.incoming, pieces, unmatchedOutput)
      invariant OnlyPrompts(pieces, probes, attempt)
      invariant SentInterrupts(old(conn.sent), conn.sent, attempt)
      invariant attempt == 0 ==> conn.incoming == stream
      invariant attempt >= 1 ==> conn.incoming == [] && !PromptThenReply(stream, probes[0])
    {
      ghost var sentMid := conn.sent;
      ghost var mid := conn.incoming;
      var reached, output, more := InterruptAttempt(conn, probes[attempt]);
      AttemptProgress(attempt, stream, mid, conn.incoming, probes, reached);
      OnlyPromptsExtend(pieces, more, probes, attempt);
      AttemptSent(sentMid, conn.sent, probes[attempt]);
      SentStep(old(conn.sent), sentMid, conn.sent, attempt);
      ReadSoFarStep(old(conn.incoming), mid, conn.incoming, pieces, more, unmatchedOutput, output);
      LastPiece(pieces, more);
      pieces := pieces + more;
      unmatchedOutput := unmatchedOutput + output;
      if reached {
        conn.RestoreTimeout(saved);
        OnlyPromptsWiden(pieces, probes, attempt + 1, attempts);
        r := Ok(unmatchedOutput);
        return;
      }
    }
    conn.RestoreTimeout(saved);
    r := Err(NoReplError(unmatchedOutput));
  }

  lemma LastPiece(before: seq<Piece>, more: seq<Piece>)
    ensures more != [] ==> (before + more)[|before + more| - 1] == more[|more| - 1]
  {
  }

  lemma OnlyPromptsWiden(pieces: seq<Piece>, probes: seq<nat>, attempts: nat, limit: nat)
    requires attempts <= limit <= |probes|
    requires OnlyPrompts(pieces, probes, attempts)
    ensures OnlyPrompts(pieces, probes, limit)
  {
  }

  /** An attempt's writes extend the log and add exactly one Ctrl+C. */
  lemma AttemptSent(before: Bytes, after: Bytes, probe: nat)
    requires after == before + [CTRL_C] || after == before + [CTRL_C] + ProbeCommand(probe)
    ensures |before| <= |after| && after[..|before|] == before
    ensures CountOf(after, CTRL_C) == CountOf(before, CTRL_C) + 1
  {
    CountOfAppend(before, [CTRL_C], CTRL_C);
    assert CountOf([CTRL_C], CTRL_C) == CountOf([], CTRL_C) + 1;
    if after != before + [CTRL_C] {
      ProbeHasNoInterrupt(probe);
      CountOfAppend(before + [CTRL_C], ProbeCommand(probe), CTRL_C);
    }
  }

  /** The pieces of attempt `attempt` keep `OnlyPrompts` with one more probe allowed. */
  lemma OnlyPromptsExtend(before: seq<Piece>, more: seq<Piece>, probes: seq<nat>, attempt: nat)
    requires attempt < |probes|
    requires OnlyPrompts(before, probes, attempt)
    requires forall i :: 0 <= i < |more| && more[i].Matched? ==>
               more[i].data == PROMPT || more[i].data == ProbeReply(probes[attempt])
    ensures OnlyPrompts(before + more, probes, attempt + 1)
  {
    var pieces := before + more;
    forall i | 0 <= i < |pieces| && pieces[i].Matched?
      ensures pieces[i].data == PROMPT || exists k :: 0 <= k < attempt + 1 && pieces[i].data == ProbeReply(probes[k])
    {
      if i >= |before| {
        assert pieces[i] == more[i - |before|];
      } else {
        assert pieces[i] == before[i];
      }
    }
  }

  /** A probe reply starts with the echoed `0x`, so it is never the bare prompt. */
  lemma ProbeReplyNotPrompt(n: nat)
    ensures ProbeReply(n) != PROMPT
  {
    assert ProbeReply(n)[0] == '0' as int;
  }

  // =====================================================================
  // raw_paste_exec

  /** Ctrl+E, `A`, Ctrl+A: the request to enter raw paste mode. */
  const RAW_PASTE_ENTER: Bytes := [CTRL_E, 65, CTRL_A]

  /** `R\x01`: the device supports raw paste mode. */
  const RAW_PASTE_OK: Bytes := [82, CTRL_A]

  /** `struct.unpack("<H", ...)`: an unsigned 16-bit little-endian value. */
  function LittleEndian16(lo: Byte, hi: Byte): (r: nat)
    ensures r < 0x1_0000
    ensures r % 256 == lo as int && r / 256 == hi as int
  {
    lo as int + 256 * hi as int
  }

  /** Every 16-bit value is read back from its two little-endian bytes. */
  lemma LittleEndian16RoundTrip(n: nat)
    requires n < 0x1_0000
    ensures LittleEndian16((n % 256) as Byte, (n / 256) as Byte) == n
  {
  }

  /**
   * The flow-control events of sending code: the device grants another
   * window (0x01), a block of `count` bytes is written, or the device asks
   * for no more data (0x04).
   */
  datatype Flow = Granted | Wrote(count: nat) | Stopped

  /** The window after one event, `None` once a write has overrun it. */
  function FlowStep(increment: nat, window: Option<nat>, e: Flow): Option<nat>
  {
    match window
    case None => None
    case Some(w) =>
      match e
      case Granted => Some(w + increment)
      case Wrote(n) => if n <= w then Some(w - n) else None
      case Stopped => Some(w)
  }

  /**
   * The window left after `events`, starting from one increment; `None`
   * when some write was larger than the window open at the time.
   */
  function WindowAfter(increment: nat, events: seq<Flow>): Option<nat>
  {
    if events == [] then Some(increment)
    else FlowStep(increment, WindowAfter(increment, events[..|events| - 1]), events[|events| - 1])
  }

  /** How many code bytes the writes among `events` sent. */
  function WrittenCount(events: seq<Flow>): nat
  {
    if events == [] then 0
    else
      var last := events[|events| - 1];
      WrittenCount(events[..|events| - 1]) + (if last.Wrote? then last.count else 0)
  }

  /** The byte the device sent for an event, if any. */
  function FlowByte(e: Flow): Bytes
  {
    match e
    case Granted => [CTRL_A]
    case Wrote(_) => []
    case Stopped => [CTRL_D]
  }

  /** The bytes the device sent during the events, in order. */
  function DeviceBytes(events: seq<Flow>): Bytes
  {
    if events == [] then [] else DeviceBytes(events[..|events| - 1]) + FlowByte(events[|events| - 1])
  }

  predicate EndsStopped(events: seq<Flow>)
  {
    events != [] && events[|events| - 1] == Stopped
  }

  lemma FlowSnoc(increment: nat, events: seq<Flow>, e: Flow)
    ensures WindowAfter(increment, events + [e]) == FlowStep(increment, WindowAfter(increment, events), e)
    ensures WrittenCount(events + [e]) == WrittenCount(events) + (if e.Wrote? then e.count else 0)
    ensures DeviceBytes(events + [e]) == DeviceBytes(events) + FlowByte(e)
  {
    assert (events + [e])[..|events|] == events;
  }

  /**
   * Only a 0x01 from the device opens the window further: with no grants,
   * the writes add up to at most one increment.
   */
  lemma {:induction false} WindowBound(increment: nat, events: seq<Flow>)
    requires WindowAfter(increment, events).Some?
    ensures WrittenCount(events) + WindowAfter(increment, events).value
            == increment * (1 + CountOf(DeviceBytes(events), CTRL_A))
  {
    if events != [] {
      var init := events[..|events| - 1];
      var e := events[|events| - 1];
      assert events == init + [e];
      FlowSnoc(increment, init, e);
      assert WindowAfter(increment, init).Some?;
      WindowBound(increment, init);
      WindowBoundStep(increment, init, e, events);
    }
  }

  /** One more event keeps the balance of `WindowBound`. */
  lemma WindowBoundStep(increment: nat, init: seq<Flow>, e: Flow, events: seq<Flow>)
    requires events == init + [e]
    requires WindowAfter(increment, init).Some? && WindowAfter(increment, events).Some?
    requires WrittenCount(init) + WindowAfter(increment, init).value
             == increment * (1 + CountOf(DeviceBytes(init), CTRL_A))
    ensures WrittenCount(events) + WindowAfter(increment, events).value
            == increment * (1 + CountOf(DeviceBytes(events), CTRL_A))
  {
    FlowSnoc(increment, init, e);
    var c := CountOf(DeviceBytes(init), CTRL_A);
    CountOfAppend(DeviceBytes(init), FlowByte(e), CTRL_A);
    match e
    case Granted =>
      assert CountOf([CTRL_A], CTRL_A) == CountOf([], CTRL_A) + 1;
      OneMoreIncrement(increment, c);
    case Wrote(n) =>
      assert CountOf([], CTRL_A) == 0;
    case Stopped =>
      assert CountOf([CTRL_D], CTRL_A) == CountOf([], CTRL_A);
  }

  lemma OneMoreIncrement(increment: nat, c: nat)
    ensures increment * (1 + (c + 1)) == increment * (1 + c) + increment
  {
  }

  /**
   * The state of the window loop: `events` so far leave `window` open, the
   * first `done` code bytes went out after `sent0` and `rest` is the
   * remainder; the device bytes read so far are those of the events.
   */
  ghost predicate Sending(code: Bytes, increment: nat, events: seq<Flow>, done: nat, rest: Bytes, window: nat,
                          sent0: Bytes, sent: Bytes, incoming0: Bytes, incoming: Bytes)
  {
    && WindowAfter(increment, events) == Some(window)
    && done == WrittenCount(events) && done <= |code| && rest == code[done..]
    && sent == sent0 + code[..done]
    && incoming0 == DeviceBytes(events) + incoming
  }

  /** A 0x01 from the device opens one more increment. */
  lemma GrantStep(code: Bytes, increment: nat, events: seq<Flow>, done: nat, rest: Bytes, window: nat,
                  sent0: Bytes, sent: Bytes, incoming0: Bytes, mid: Bytes, incoming: Bytes)
    requires Sending(code, increment, events, done, rest, window, sent0, sent, incoming0, mid)
    requires mid == [CTRL_A] + incoming
    ensures Sending(code, increment, events + [Granted], done, rest, window + increment, sent0, sent, incoming0, incoming)
  {
    FlowSnoc(increment, events, Granted);
  }

  /** A 0x04 from the device is recorded and changes nothing else. */
  lemma StopStep(code: Bytes, increment: nat, events: seq<Flow>, done: nat, rest: Bytes, window: nat,
                 sent0: Bytes, sent: Bytes, incoming0: Bytes, mid: Bytes, incoming: Bytes)
    requires Sending(code, increment, events, done, rest, window, sent0, sent, incoming0, mid)
    requires mid == [CTRL_D] + incoming
    ensures Sending(code, increment, events + [Stopped], done, rest, window, sent0, sent, incoming0, incoming)
  {
    FlowSnoc(increment, events, Stopped);
  }

  /** A read with the window shut that gave neither 0x01 nor 0x04 ends the loop. */
  lemma StrayStep(code: Bytes, increment: nat, events: seq<Flow>, done: nat, rest: Bytes, window: nat,
                  sent0: Bytes, sent: Bytes, incoming0: Bytes, mid: Bytes, response: Bytes, incoming: Bytes)
    requires Sending(code, increment, events, done, rest, window, sent0, sent, incoming0, mid)
    requires window == 0 && mid == response + incoming
    requires |response| <= 1 && (|response| < 1 ==> incoming == [])
    requires response != [CTRL_A] && response != [CTRL_D]
    ensures WindowAfter(increment, events) == Some(0)
    ensures WrittenCount(events) <= |code| && sent == sent0 + code[..WrittenCount(events)]
    ensures StrayByte(response, incoming)
    ensures incoming0 == DeviceBytes(events) + response + incoming
  {
  }

  /** Writing the next `n` code bytes, within the window. */
  lemma WriteStep(code: Bytes, increment: nat, events: seq<Flow>, done: nat, rest: Bytes, window: nat,
                  sent0: Bytes, sent: Bytes, incoming0: Bytes, incoming: Bytes, n: nat, sent': Bytes)
    requires Sending(code, increment, events, done, rest, window, sent0, sent, incoming0, incoming)
    requires n <= window && n <= |rest| && sent' == sent + rest[..n]
    ensures Sending(code, increment, events + [Wrote(n)], done + n, rest[n..], window - n, sent0, sent', incoming0, incoming)
  {
    FlowSnoc(increment, events, Wrote(n));
    PrefixExtend(code, done, n);
  }

  /**
   * What the device sent where only 0x01 or 0x04 may come: another byte,
   * or nothing at all on a timeout, which leaves the stream spent.
   */
  predicate StrayByte(output: Bytes, incoming: Bytes)
  {
    |output| <= 1 && output != [CTRL_A] && output != [CTRL_D] && (output == [] ==> incoming == [])
  }

  /**
   * The window loop of `raw_paste_exec`: sends the code in blocks no larger
   * than the window, waits for a grant whenever the window is shut, and
   * stops early when the device sends 0x04. It ends with the code all sent
   * and the window open, or stopped by the device; any other byte from the
   * device (or none, on a timeout) is a `MicroPythonReplError`.
   */
  method SendCode(conn: Connection, code: Bytes, increment: nat)
    returns (r: Result<Bytes, ReplError>, ghost events: seq<Flow>)
    requires conn.Valid()
    modifies conn
    ensures conn.Valid() && conn.timeout == old(conn.timeout)
    ensures WindowAfter(increment, events).Some?
    ensures WrittenCount(events) <= |code|
    ensures conn.sent == old(conn.sent) + code[..WrittenCount(events)]
    ensures r.Ok? ==> old(conn.incoming) == DeviceBytes(events) + conn.incoming
    ensures r.Ok? ==> r.value == code[WrittenCount(events)..]
    ensures r.Ok? ==> EndsStopped(events) || (r.value == [] && WindowAfter(increment, events).value > 0)
    ensures r.Err? ==> r.error.MicroPythonReplError? && StrayByte(r.error.output, conn.incoming)
                       && WindowAfter(increment, events) == Some(0)
                       && old(conn.incoming) == DeviceBytes(events) + r.error.output + conn.incoming
  {
    var rest := code;
    var window: nat := increment;
    events := [];
    ghost var done: nat := 0;
    while rest != [] || window == 0
      invariant conn.Valid() && conn.timeout == old(conn.timeout)
      invariant Sending(code, increment, events, done, rest, window,
                        old(conn.sent), conn.sent, old(conn.incoming), conn.incoming)
      decreases |rest| + |conn.incoming|
    {
      if window == 0 {
        ghost var mid := conn.incoming;
        var response := conn.Read(1);
        if response == [CTRL_A] {
          GrantStep(code, increment, events, done, rest, window,
                    old(conn.sent), conn.sent, old(conn.incoming), mid, conn.incoming);
          events := events + [Granted];
          window := window + increment;
        } else if response == [CTRL_D] {
          StopStep(code, increment, events, done, rest, window,
                   old(conn.sent), conn.sent, old(conn.incoming), mid, conn.incoming);
          events := events + [Stopped];
          r := Ok(rest);
          return;
        } else {
          StrayStep(code, increment, events, done, rest, window,
                    old(conn.sent), conn.sent, old(conn.incoming), mid, response, conn.incoming);
          r := Err(MicroPythonReplError(response));
          return;
        }
      }
      ghost var sentBefore := conn.sent;
      var written := conn.Write(rest[..Min(window, |rest|)]);
      WriteStep(code, increment, events, done, rest, window,
                old(conn.sent), sentBefore, old(conn.incoming), conn.incoming, written, conn.sent);
      events := events + [Wrote(written)];
      done := done + written;
      rest := rest[written..];
      window := window - written;
    }
    r := Ok(rest);
  }

  lemma PrefixExtend(code: Bytes, w: nat, n: nat)
    requires w + n <= |code|
    ensures code[..w + n] == code[..w] + code[w..][..n]
    ensures code[w..][n..] == code[w + n..]
  {
  }

  /** Zero or more window grants, then the 0x04 that acknowledges the end. */
  predicate Acknowledgement(acks: Bytes)
  {
    && acks != [] && acks[|acks| - 1] == CTRL_D
    && forall i :: 0 <= i < |acks| - 1 ==> acks[i] == CTRL_A
  }

  /**
   * Waiting for the end of transmission to be acknowledged: late grants are
   * skipped, 0x04 ends the wait, anything else is a `MicroPythonReplError`.
   */
  method AwaitAcknowledgement(conn: Connection) returns (r: Result<(), ReplError>, ghost acks: Bytes)
    requires conn.Valid()
    modifies conn
    ensures conn.Valid() && conn.sent == old(conn.sent) && conn.timeout == old(conn.timeout)
    ensures r.Ok? ==> Acknowledgement(acks) && old(conn.incoming) == acks + conn.incoming
    ensures r.Err? ==> (forall i :: 0 <= i < |acks| ==> acks[i] == CTRL_A)
                       && r.error.MicroPythonReplError? && StrayByte(r.error.output, conn.incoming)
                       && old(conn.incoming) == acks + r.error.output + conn.incoming
  {
    acks := [];
    while true
      invariant conn.Valid() && conn.sent == old(conn.sent) && conn.timeout == old(conn.timeout)
      invariant forall i :: 0 <= i < |acks| ==> acks[i] == CTRL_A
      invariant old(conn.incoming) == acks + conn.incoming
      decreases |conn.incoming|
    {
      var response := conn.Read(1);
      if response == [CTRL_A] {
        acks := acks + response;
      } else if response == [CTRL_D] {
        acks := acks + response;
        r := Ok(());
        return;
      } else {
        r := Err(MicroPythonReplError(response));
        return;
      }
    }
  }

  /** What `expect_endswith(conn, [b])` returns is `b`-free up to its final `b`. */
  lemma FirstMarker(actual: Bytes, b: Byte)
    requires forall k :: 0 <= k < |actual| ==> !EndsWith(actual[..k], [b])
    requires EndsWith(actual, [b])
    ensures actual == actual[..|actual| - 1] + [b]
    ensures b !in actual[..|actual| - 1]
  {
    forall i | 0 <= i < |actual| - 1
      ensures actual[i] != b
    {
      assert actual[..i + 1][i] == actual[i];
      assert !EndsWith(actual[..i + 1], [b]);
    }
  }

  /**
   * `expect_endswith(conn, [b])[:-1]`: the bytes before the next `b`, which
   * is consumed too.
   */
  method ReadMarked(conn: Connection, b: Byte) returns (r: Result<Bytes, ReplError>)
    requires conn.Valid()
    modifies conn
    ensures conn.Valid() && conn.sent == old(conn.sent) && conn.timeout == old(conn.timeout)
    ensures r.Ok? ==> old(conn.incoming) == r.value + [b] + conn.incoming && b !in r.value
    ensures r.Err? ==> r.error.MicroPythonReplError? && b !in r.error.output && conn.incoming == []
                       && old(conn.incoming) == r.error.output
  {
    var found, read := ExpectEndswith(conn, [b]);
    if found.Err? {
      NoMarker(read, b);
      return Err(found.error);
    }
    FirstMarker(read, b);
    r := Ok(found.value[..|found.value| - 1]);
  }

  /** Without an earlier or final `b`, the bytes hold no `b` at all. */
  lemma NoMarker(actual: Bytes, b: Byte)
    requires forall k :: 0 <= k < |actual| ==> !EndsWith(actual[..k], [b])
    requires !EndsWith(actual, [b])
    ensures b !in actual
  {
    forall i | 0 <= i < |actual|
      ensures actual[i] != b
    {
      if i + 1 < |actual| {
        assert actual[..i + 1][i] == actual[i];
        assert !EndsWith(actual[..i + 1], [b]);
      } else {
        assert actual[|actual| - 1..] == [actual[i]];
      }
    }
  }

  /**
   * The code's output up to the first 0x04, the exception text up to the
   * next, and the return to the raw REPL's `>` prompt.
   */
  method ReadOutputs(conn: Connection) returns (r: Result<(Bytes, Bytes), ReplError>, ghost prompt: Bytes)
    requires conn.Valid()
    modifies conn
    ensures conn.Valid() && conn.sent == old(conn.sent) && conn.timeout == old(conn.timeout)
    ensures r.Ok? ==> old(conn.incoming) == r.value.0 + [CTRL_D] + r.value.1 + [CTRL_D] + prompt + conn.incoming
    ensures r.Ok? ==> CTRL_D !in r.value.0 && CTRL_D !in r.value.1
    ensures r.Ok? ==> EndsWith(prompt, [62]) && 62 !in prompt[..|prompt| - 1]
    ensures r.Ok? <==> OutputsComplete(old(conn.incoming))
    ensures r.Err? ==> && r.error.MicroPythonReplError? && conn.incoming == []
                       && EndsWith(old(conn.incoming), r.error.output)
  {
    prompt := [];
    ghost var start := conn.incoming;
    var codeOutput := ReadMarked(conn, CTRL_D);
    if codeOutput.Err? {
      NoFirstMarker(start);
      EndsWithSelf(start);
      return Err(codeOutput.error), prompt;
    }
    ghost var afterFirst := conn.incoming;
    var exceptionOutput := ReadMarked(conn, CTRL_D);
    if exceptionOutput.Err? {
      NoSecondMarker(start, codeOutput.value, afterFirst);
      EndsWithAppended(codeOutput.value + [CTRL_D], afterFirst);
      return Err(exceptionOutput.error), prompt;
    }
    ghost var afterSecond := conn.incoming;
    var shell := ReadMarked(conn, 62);
    if shell.Err? {
      NoShellPrompt(start, codeOutput.value, exceptionOutput.value, afterSecond);
      EndsWithAppended(codeOutput.value + [CTRL_D] + exceptionOutput.value + [CTRL_D], afterSecond);
      return Err(shell.error), prompt;
    }
    prompt := shell.value + [62];
    assert prompt[..|prompt| - 1] == shell.value;
    assert afterSecond == prompt + conn.incoming;
    r := Ok((codeOutput.value, exceptionOutput.value));
    OutputsFound(start, codeOutput.value, exceptionOutput.value, prompt, conn.incoming);
  }

  /**
   * The stream holds a 0x04, a later 0x04 and a `>` after that: all that
   * reading the two outputs and the prompt waits for.
   */
  ghost predicate OutputsComplete(s: Bytes)
  {
    exists i, j, k :: 0 <= i < j < k < |s| && s[i] == CTRL_D && s[j] == CTRL_D && s[k] == 62
  }

  lemma NoFirstMarker(s: Bytes)
    requires CTRL_D !in s
    ensures !OutputsComplete(s)
  {
  }

  /** A stretch with a single 0x04 holds it at one place only. */
  lemma OnlyMarker(s: Bytes, a: Bytes, t: Bytes)
    requires s == a + [CTRL_D] + t && CTRL_D !in a && CTRL_D !in t
    ensures forall i :: 0 <= i < |s| && s[i] == CTRL_D ==> i == |a|
  {
    forall i | 0 <= i < |s| && s[i] == CTRL_D
      ensures i == |a|
    {
    }
  }

  lemma NoSecondMarker(s: Bytes, a: Bytes, t: Bytes)
    requires s == a + [CTRL_D] + t && CTRL_D !in a && CTRL_D !in t
    ensures !OutputsComplete(s)
  {
    OnlyMarker(s, a, t);
  }

  lemma NoShellPrompt(s: Bytes, a: Bytes, b: Bytes, t: Bytes)
    requires s == a + [CTRL_D] + b + [CTRL_D] + t && CTRL_D !in a && CTRL_D !in b && 62 !in t
    ensures !OutputsComplete(s)
  {
    var u := a + [CTRL_D] + b;
    OnlyMarker(u, a, b);
    forall i | 0 <= i < |u| && s[i] == CTRL_D
      ensures i == |a|
    {
      assert s[i] == u[i];
    }
    forall k | |u| < k < |s|
      ensures s[k] != 62
    {
      assert s[k] == t[k - |u| - 1];
    }
  }

  lemma OutputsFound(s: Bytes, a: Bytes, b: Bytes, p: Bytes, t: Bytes)
    requires s == a + [CTRL_D] + b + [CTRL_D] + p + t && EndsWith(p, [62])
    ensures OutputsComplete(s)
  {
    var i := |a|;
    var j := |a| + 1 + |b|;
    var k := j + |p|;
    assert s[i] == CTRL_D && s[j] == CTRL_D;
    assert s[k] == p[|p| - 1] == 62;
  }

  lemma EndsWithSelf(s: Bytes)
    ensures EndsWith(s, s)
  {
  }

  lemma EndsWithAppended(a: Bytes, b: Bytes)
    ensures EndsWith(a + b, b)
  {
    assert (a + b)[|a|..] == b;
  }

  /** The outputs a result carries: on success, or with the unsent code. */
  function Outputs(r: Result<(Bytes, Bytes), ReplError>): Option<(Bytes, Bytes)>
  {
    match r
    case Ok(value) => Some(value)
    case Err(SomeCodeNotSentError(exceptionOutput, codeOutput, _)) => Some((codeOutput, exceptionOutput))
    case Err(_) => None
  }

  /**
   * Entering raw paste mode: the request, the `R\x01` answer and the window
   * increment as two little-endian bytes.
   */
  method EnterRawPaste(conn: Connection) returns (r: Result<nat, ReplError>)
    requires conn.Valid()
    modifies conn
    ensures conn.Valid() && conn.timeout == old(conn.timeout)
    ensures conn.sent == old(conn.sent) + RAW_PASTE_ENTER
    ensures !StartsWith(old(conn.incoming), RAW_PASTE_OK) ==>
              r == Err(RawPasteModeNotSupportedError(old(conn.incoming)[..Min(2, |old(conn.incoming)|)]))
    ensures StartsWith(old(conn.incoming), RAW_PASTE_OK) && |old(conn.incoming)| < 4 ==>
              r == Err(WindowSizeTruncated(old(conn.incoming)[2..]))
    ensures StartsWith(old(conn.incoming), RAW_PASTE_OK) && |old(conn.incoming)| >= 4 ==>
              && r == Ok(LittleEndian16(old(conn.incoming)[2], old(conn.incoming)[3]))
              && conn.incoming == old(conn.incoming)[4..]
  {
    var _ := conn.Write(RAW_PASTE_ENTER);
    var response := conn.Read(2);
    if response != RAW_PASTE_OK {
      return Err(RawPasteModeNotSupportedError(response));
    }
    assert old(conn.incoming)[2..] == conn.incoming;
    var size := conn.Read(2);
    if |size| < 2 {
      assert conn.incoming == [] && old(conn.incoming)[2..] == size;
      return Err(WindowSizeTruncated(size));
    }
    assert old(conn.incoming)[..4] == response + size;
    r := Ok(LittleEndian16(size[0], size[1]));
  }

  /**
   * What pasting `code` achieved, given the window increment: errors come
   * only from the device's bytes or from unsent code; the code went out as
   * a prefix within the window; and whenever outputs are returned, the
   * transmission was ended with 0x04 once the code was all sent with the
   * window open, or the device stopped it, the end was acknowledged, and
   * the outputs are the 0x04-free stretches the device sent next.
   */
  ghost predicate PasteOutcome(code: Bytes, increment: nat, events: seq<Flow>, acks: Bytes, prompt: Bytes,
                               r: Result<(Bytes, Bytes), ReplError>,
                               sent0: Bytes, sent: Bytes, incoming0: Bytes, incoming: Bytes)
  {
    && (r.Ok? || r.error.MicroPythonReplError? || r.error.SomeCodeNotSentError?)
    && WindowAfter(increment, events).Some?
    && WrittenCount(events) <= |code|
    && StartsWith(sent, sent0 + code[..WrittenCount(events)])
    && (Outputs(r).Some? ==>
          && sent == sent0 + code[..WrittenCount(events)] + [CTRL_D]
          && (WrittenCount(events) == |code| || EndsStopped(events))
          && (EndsStopped(events) || WindowAfter(increment, events).value > 0)
          && Acknowledgement(acks)
          && incoming0 == DeviceBytes(events) + acks
                          + Outputs(r).value.0 + [CTRL_D] + Outputs(r).value.1 + [CTRL_D]
                          + prompt + incoming
          && CTRL_D !in Outputs(r).value.0 && CTRL_D !in Outputs(r).value.1
          && EndsWith(prompt, [62]))
    && (r.Ok? ==> WrittenCount(events) == |code|)
    && (r.Err? && r.error.MicroPythonReplError? ==>
          PasteError(code, increment, events, acks, r.error.output, sent0, sent, incoming0, incoming))
    && (r.Err? && r.error.SomeCodeNotSentError? ==>
          && r.error.unsent == code[WrittenCount(events)..] && r.error.unsent != []
          && EndsStopped(events))
  }

  /** The code went out as far as it did, then the 0x04 that ends the transmission. */
  predicate Transmitted(code: Bytes, events: seq<Flow>, sent0: Bytes, sent: Bytes)
  {
    && WrittenCount(events) <= |code|
    && sent == sent0 + code[..WrittenCount(events)] + [CTRL_D]
    && (WrittenCount(events) == |code| || EndsStopped(events))
  }

  /**
   * Where a `MicroPythonReplError` from pasting comes from: a stray byte,
   * or a timeout, while the window was shut; a stray byte, or a timeout,
   * after the end of transmission and nothing but late grants; or a
   * stream that ran out before the two 0x04-ended outputs and the `>`
   * prompt, once the end was acknowledged. `output` is what the error
   * carries.
   */
  ghost predicate PasteError(code: Bytes, increment: nat, events: seq<Flow>, acks: Bytes, output: Bytes,
                             sent0: Bytes, sent: Bytes, incoming0: Bytes, incoming: Bytes)
  {
    || (&& WrittenCount(events) <= |code|
        && sent == sent0 + code[..WrittenCount(events)]
        && WindowAfter(increment, events) == Some(0)
        && StrayByte(output, incoming)
        && incoming0 == DeviceBytes(events) + output + incoming)
    || (&& Transmitted(code, events, sent0, sent)
        && (forall i :: 0 <= i < |acks| ==> acks[i] == CTRL_A)
        && StrayByte(output, incoming)
        && incoming0 == DeviceBytes(events) + acks + output + incoming)
    || (&& Transmitted(code, events, sent0, sent)
        && Acknowledgement(acks)
        && incoming == []
        && StartsWith(incoming0, DeviceBytes(events) + acks)
        && !OutputsComplete(incoming0[|DeviceBytes(events) + acks|..])
        && EndsWith(incoming0, output))
  }

  /**
   * Everything after the handshake and the 0x04 check: the window loop,
   * the end of transmission and its acknowledgement, and the two outputs.
   */
  method PasteCode(conn: Connection, code: Bytes, increment: nat)
    returns (r: Result<(Bytes, Bytes), ReplError>, ghost events: seq<Flow>, ghost acks: Bytes, ghost prompt: Bytes)
    requires conn.Valid()
    modifies conn
    ensures conn.Valid() && conn.timeout == old(conn.timeout)
    ensures PasteOutcome(code, increment, events, acks, prompt, r,
                         old(conn.sent), conn.sent, old(conn.incoming), conn.incoming)
  {
    acks, prompt := [], [];
    var sending, flow := SendCode(conn, code, increment);
    events := flow;
    if sending.Err? {
      r := Err(sending.error);
      FlowFailed(code, increment, events, acks, prompt, r, old(conn.sent), conn.sent, old(conn.incoming), conn.incoming);
      return;
    }
    var unsent := sending.value;
    ghost var codeSent := conn.sent;
    ghost var afterCode := conn.incoming;
    var _ := conn.Write([CTRL_D]);
    var ack, acked := AwaitAcknowledgement(conn);
    acks := acked;
    if ack.Err? {
      r := Err(ack.error);
      AckFailed(code, increment, events, acks, prompt, r, unsent,
                old(conn.sent), conn.sent, old(conn.incoming), afterCode, conn.incoming);
      return;
    }
    ghost var afterAck := conn.incoming;
    var outputs, shown := ReadOutputs(conn);
    prompt := shown;
    if outputs.Err? {
      r := Err(outputs.error);
      OutputsFailed(code, increment, events, acks, prompt, r, unsent,
                    old(conn.sent), conn.sent, old(conn.incoming), afterCode, afterAck, conn.incoming);
      return;
    }
    var codeOutput := outputs.value.0;
    var exceptionOutput := outputs.value.1;
    if unsent == [] {
      r := Ok((codeOutput, exceptionOutput));
    } else {
      r := Err(SomeCodeNotSentError(exceptionOutput, codeOutput, unsent));
    }
    PrefixOfExtension(old(conn.sent) + code[..WrittenCount(events)], [CTRL_D]);
    PasteDone(code, increment, events, acks, prompt, r, codeOutput, exceptionOutput, unsent,
              old(conn.sent), conn.sent, old(conn.incoming), afterCode, afterAck, conn.incoming);
  }

  lemma PrefixOfExtension(s: Bytes, t: Bytes)
    ensures StartsWith(s + t, s)
  {
    assert (s + t)[..|s|] == s;
  }

  /** The bytes after `prefix` are `rest`, and they end as `rest` does. */
  lemma CutAfter(prefix: Bytes, rest: Bytes, output: Bytes)
    requires EndsWith(rest, output)
    ensures StartsWith(prefix + rest, prefix) && (prefix + rest)[|prefix|..] == rest
    ensures EndsWith(prefix + rest, output)
  {
    assert (prefix + rest)[..|prefix|] == prefix;
    assert (prefix + rest)[|prefix + rest| - |output|..] == rest[|rest| - |output|..];
  }

  /** A paste that failed on a stray byte, or a timeout, while the window was shut. */
  lemma FlowFailed(code: Bytes, increment: nat, events: seq<Flow>, acks: Bytes, prompt: Bytes,
                   r: Result<(Bytes, Bytes), ReplError>,
                   sent0: Bytes, sent: Bytes, incoming0: Bytes, incoming: Bytes)
    requires r.Err? && r.error.MicroPythonReplError? && StrayByte(r.error.output, incoming)
    requires WindowAfter(increment, events) == Some(0) && WrittenCount(events) <= |code|
    requires sent == sent0 + code[..WrittenCount(events)]
    requires incoming0 == DeviceBytes(events) + r.error.output + incoming
    ensures PasteOutcome(code, increment, events, acks, prompt, r, sent0, sent, incoming0, incoming)
  {
    PrefixOfExtension(sent0 + code[..WrittenCount(events)], []);
    assert sent0 + code[..WrittenCount(events)] + [] == sent0 + code[..WrittenCount(events)];
  }

  /**
   * A paste that failed on a stray byte, or a timeout, while the end of
   * transmission waited to be acknowledged.
   */
  lemma AckFailed(code: Bytes, increment: nat, events: seq<Flow>, acks: Bytes, prompt: Bytes,
                  r: Result<(Bytes, Bytes), ReplError>, unsent: Bytes,
                  sent0: Bytes, sent: Bytes, incoming0: Bytes, afterCode: Bytes, incoming: Bytes)
    requires r.Err? && r.error.MicroPythonReplError? && StrayByte(r.error.output, incoming)
    requires WindowAfter(increment, events).Some? && WrittenCount(events) <= |code|
    requires unsent == code[WrittenCount(events)..] && (EndsStopped(events) || unsent == [])
    requires sent == sent0 + code[..WrittenCount(events)] + [CTRL_D]
    requires incoming0 == DeviceBytes(events) + afterCode
    requires (forall i :: 0 <= i < |acks| ==> acks[i] == CTRL_A) && afterCode == acks + r.error.output + incoming
    ensures PasteOutcome(code, increment, events, acks, prompt, r, sent0, sent, incoming0, incoming)
  {
    PrefixOfExtension(sent0 + code[..WrittenCount(events)], [CTRL_D]);
    assert incoming0 == DeviceBytes(events) + acks + r.error.output + incoming;
  }

  /**
   * A paste whose end was acknowledged but whose stream ran out before
   * the outputs and the prompt were complete.
   */
  lemma OutputsFailed(code: Bytes, increment: nat, events: seq<Flow>, acks: Bytes, prompt: Bytes,
                      r: Result<(Bytes, Bytes), ReplError>, unsent: Bytes,
                      sent0: Bytes, sent: Bytes, incoming0: Bytes, afterCode: Bytes, afterAck: Bytes, incoming: Bytes)
    requires r.Err? && r.error.MicroPythonReplError?
    requires WindowAfter(increment, events).Some? && WrittenCount(events) <= |code|
    requires unsent == code[WrittenCount(events)..] && (EndsStopped(events) || unsent == [])
    requires sent == sent0 + code[..WrittenCount(events)] + [CTRL_D]
    requires incoming0 == DeviceBytes(events) + afterCode
    requires Acknowledgement(acks) && afterCode == acks + afterAck
    requires incoming == [] && !OutputsComplete(afterAck) && EndsWith(afterAck, r.error.output)
    ensures PasteOutcome(code, increment, events, acks, prompt, r, sent0, sent, incoming0, incoming)
  {
    PrefixOfExtension(sent0 + code[..WrittenCount(events)], [CTRL_D]);
    assert incoming0 == DeviceBytes(events) + acks + afterAck;
    CutAfter(DeviceBytes(events) + acks, afterAck, r.error.output);
  }

  /** A paste that ran to the end, with or without all of the code sent. */
  lemma PasteDone(code: Bytes, increment: nat, events: seq<Flow>, acks: Bytes, prompt: Bytes,
                  r: Result<(Bytes, Bytes), ReplError>, codeOutput: Bytes, exceptionOutput: Bytes, unsent: Bytes,
                  sent0: Bytes, sent: Bytes, incoming0: Bytes, afterCode: Bytes, afterAck: Bytes, incoming: Bytes)
    requires r == (if unsent == [] then Ok((codeOutput, exceptionOutput))
                   else Err(SomeCodeNotSentError(exceptionOutput, codeOutput, unsent)))
    requires WindowAfter(increment, events).Some? && WrittenCount(events) <= |code|
    requires unsent == code[WrittenCount(events)..]
    requires EndsStopped(events) || (unsent == [] && WindowAfter(increment, events).value > 0)
    requires sent == sent0 + code[..WrittenCount(events)] + [CTRL_D]
    requires incoming0 == DeviceBytes(events) + afterCode
    requires Acknowledgement(acks) && afterCode == acks + afterAck
    requires afterAck == codeOutput + [CTRL_D] + exceptionOutput + [CTRL_D] + prompt + incoming
    requires CTRL_D !in codeOutput && CTRL_D !in exceptionOutput && EndsWith(prompt, [62])
    ensures PasteOutcome(code, increment, events, acks, prompt, r, sent0, sent, incoming0, incoming)
  {
    PrefixOfExtension(sent0 + code[..WrittenCount(events)], [CTRL_D]);
    assert Outputs(r) == Some((codeOutput, exceptionOutput));
  }

  /**
   * `raw_paste_exec`, with the code already encoded as bytes. The handshake
   * must answer `R\x01` and give a 16-bit window increment; code holding
   * 0x04 is refused before any of it is sent; the code goes out as a prefix
   * in order, never beyond the window; 0x04 ends the transmission; the code
   * output and exception text are the stretches before the next two 0x04
   * bytes. Success means all code was sent, otherwise `SomeCodeNotSentError`
   * carries the rest.
   */
  method RawPasteExec(conn: Connection, code: Bytes)
    returns (r: Result<(Bytes, Bytes), ReplError>, ghost increment: nat, ghost events: seq<Flow>,
             ghost acks: Bytes, ghost prompt: Bytes)
    requires conn.Valid()
    modifies conn
    ensures conn.Valid() && conn.timeout == old(conn.timeout)
    ensures StartsWith(conn.sent, old(conn.sent) + RAW_PASTE_ENTER)
    ensures !StartsWith(old(conn.incoming), RAW_PASTE_OK) ==>
              && r == Err(RawPasteModeNotSupportedError(old(conn.incoming)[..Min(2, |old(conn.incoming)|)]))
              && conn.sent == old(conn.sent) + RAW_PASTE_ENTER
    ensures StartsWith(old(conn.incoming), RAW_PASTE_OK) && |old(conn.incoming)| < 4 ==>
              && r == Err(WindowSizeTruncated(old(conn.incoming)[2..]))
              && conn.sent == old(conn.sent) + RAW_PASTE_ENTER
    ensures StartsWith(old(conn.incoming), RAW_PASTE_OK) && |old(conn.incoming)| >= 4 ==>
              increment == LittleEndian16(old(conn.incoming)[2], old(conn.incoming)[3])
    ensures StartsWith(old(conn.incoming), RAW_PASTE_OK) && |old(conn.incoming)| >= 4 && CTRL_D in code ==>
              && r == Err(CodeContainsCtrlD)
              && conn.sent == old(conn.sent) + RAW_PASTE_ENTER
    ensures StartsWith(old(conn.incoming), RAW_PASTE_OK) && |old(conn.incoming)| >= 4 && CTRL_D !in code ==>
              PasteOutcome(code, increment, events, acks, prompt, r,
                           old(conn.sent) + RAW_PASTE_ENTER, conn.sent, old(conn.incoming)[4..], conn.incoming)
  {
    increment, events, acks, prompt := 0, [], [], [];
    var entered := EnterRawPaste(conn);
    if entered.Err? {
      return Err(entered.error), increment, events, acks, prompt;
    }
    var windowSizeIncrement := entered.value;
    increment := windowSizeIncrement;
    if CTRL_D in code {
      return Err(CodeContainsCtrlD), increment, events, acks, prompt;
    }
    r, events, acks, prompt := PasteCode(conn, code, windowSizeIncrement);
    assert StartsWith(conn.sent, old(conn.sent) + RAW_PASTE_ENTER) by {
      assert StartsWith(conn.sent, old(conn.sent) + RAW_PASTE_ENTER + code[..WrittenCount(events)]);
    }
  }
}
