/**
 * The host-side planning code of `upyt/upy_fs.py`: turning a traceback into
 * an OSError, splitting data into `w(...)` write snippets, condensing
 * SequenceMatcher opcodes, expanding them into a patch script over an old
 * file, batching snippets, and loading helper definitions on the device.
 *
 * Snippets are values of `Command`; `Render` gives the Python text the host
 * sends and `Count` the number of bytes the snippet writes. `Replay` is what
 * the device does with a script: it writes literal data, copies reads from
 * the old file at its current offset, and seeks.
 */
module UpyFs {
  import opened Common
  import opened PyText

  // =====================================================================
  // traceback_to_oserror

  /** The last element of `traceback.splitlines()`. */
  function LastLine(traceback: string): string
    requires traceback != []
  {
    SplitLinesShape(traceback);
    var lines := SplitLines(traceback);
    lines[|lines| - 1]
  }

  /**
   * `traceback_to_oserror`: `Some(message)` when the traceback's last line
   * names an OSError (the function raises `OSError(message)`), `None` when
   * it returns normally.
   */
  function TracebackToOsError(traceback: string): Option<string>
  {
    if traceback == [] then None
    else
      var parts := Partition(LastLine(traceback), ": ");
      if parts.0 == "OSError" then Some(parts.2) else None
  }

  /**
   * An OSError is raised exactly when the last line is `OSError` alone or
   * starts with `OSError: `, and its message is everything after that.
   */
  lemma {:induction false} TracebackToOsErrorCases(traceback: string)
    ensures TracebackToOsError(traceback).Some? <==>
      traceback != [] && (LastLine(traceback) == "OSError" || StartsWith(LastLine(traceback), "OSError: "))
    ensures TracebackToOsError(traceback).Some? ==>
      LastLine(traceback) == "OSError: " + TracebackToOsError(traceback).value
      || (LastLine(traceback) == "OSError" && TracebackToOsError(traceback).value == "")
  {
    if traceback != [] {
      OsErrorLine(LastLine(traceback));
    }
  }

  /** The partition of one line at `": "` has head `OSError` exactly for an OSError line. */
  lemma OsErrorLine(line: string)
    ensures Partition(line, ": ").0 == "OSError" <==> line == "OSError" || StartsWith(line, "OSError: ")
    ensures Partition(line, ": ").0 == "OSError" ==>
      line == "OSError: " + Partition(line, ": ").2 || (line == "OSError" && Partition(line, ": ").2 == "")
  {
    var parts := Partition(line, ": ");
    if StartsWith(line, "OSError: ") {
      assert line[..9] == "OSError: ";
      forall k | 0 <= k < 7
        ensures !OccursAt(line, ": ", k)
      {
        assert line[k] == "OSError: "[k];
        NoColonAt(line, k);
      }
      assert line[7..9] == ": ";
      assert OccursAt(line, ": ", 7);
      assert Find(line, ": ") == Some(7);
      assert line == "OSError: " + parts.2;
    } else if line == "OSError" {
      forall k | 0 <= k
        ensures !OccursAt(line, ": ", k)
      {
        if k < |line| {
          assert line[k] == "OSError"[k];
          NoColonAt(line, k);
        }
      }
      assert Find(line, ": ") == None;
    } else if parts.0 == "OSError" {
      OsErrorHead(line);
    }
  }

  /** `": "` does not occur where a line has no colon. */
  lemma NoColonAt(line: string, k: nat)
    requires k < |line| && line[k] != ':'
    ensures !OccursAt(line, ": ", k)
  {
    if k + 2 <= |line| {
      assert line[k..k + 2][0] == line[k];
    }
  }

  /** A line whose partition head is `OSError` is `OSError` or starts `OSError: `. */
  lemma OsErrorHead(line: string)
    requires Partition(line, ": ").0 == "OSError"
    ensures line == "OSError" || StartsWith(line, "OSError: ")
  {
    match Find(line, ": ")
    case None =>
    case Some(i) =>
      assert line[..i] == "OSError";
      assert line[i..i + 2] == ": ";
      assert line[..9] == line[..i] + line[i..i + 2];
  }

  // =====================================================================
  // Snippets

  datatype Command =
    | Write(data: Bytes, hex: bool) // `w(b'...')`, or `w(uh(b'<hex>'))` when `hex`
    | CopyRead(n: nat)              // `w(r(n))`: copy n bytes from the old file
    | Seek(offset: nat)             // `s(i)`: seek the old file

  /** The Python text of a snippet. */
  function Render(c: Command): string
  {
    match c
    case Write(b, false) => "w(" + BytesRepr(b) + ")"
    case Write(b, true) => "w(uh(" + BytesRepr(Hexlify(b)) + "))"
    case CopyRead(n) => "w(r(" + Decimal(n) + "))"
    case Seek(i) => "s(" + Decimal(i) + ")"
  }

  /** The byte count yielded beside a snippet: how many bytes it writes. */
  function Count(c: Command): nat
  {
    match c
    case Write(b, _) => |b|
    case CopyRead(n) => n
    case Seek(_) => 0
  }

  function SumCounts(cmds: seq<Command>): nat
  {
    if cmds == [] then 0 else Count(cmds[0]) + SumCounts(cmds[1..])
  }

  lemma {:induction false} SumCountsAppend(x: seq<Command>, y: seq<Command>)
    ensures SumCounts(x + y) == SumCounts(x) + SumCounts(y)
    decreases |x|
  {
    if x != [] {
      assert (x + y)[1..] == x[1..] + y;
      SumCountsAppend(x[1..], y);
    } else {
      assert x + y == y;
    }
  }

  /**
   * What the device evaluates `w(...)` text to: the argument is a bytes
   * literal, or `uh(...)` applied to one.
   */
  function EvalWrite(text: string): Option<Bytes>
  {
    if |text| < 3 || text[..2] != "w(" || text[|text| - 1] != ')' then None
    else
      var arg := text[2..|text| - 1];
      if |arg| >= 4 && arg[..3] == "uh(" && arg[|arg| - 1] == ')' then
        var hex := ParseBytesLiteral(arg[3..|arg| - 1]);
        if hex.None? then None else Unhexlify(hex.value)
      else ParseBytesLiteral(arg)
  }

  /** Both spellings of a write snippet evaluate to the data they carry. */
  lemma {:induction false} EvalRenderedWrite(b: Bytes, hex: bool)
    ensures EvalWrite(Render(Write(b, hex))) == Some(b)
  {
    var text := Render(Write(b, hex));
    if hex {
      var lit := BytesRepr(Hexlify(b));
      var arg := "uh(" + lit + ")";
      assert text == "w(" + arg + ")";
      assert text[2..|text| - 1] == arg;
      assert arg[3..|arg| - 1] == lit;
      assert text[..2] == "w(" && text[|text| - 1] == ')';
      assert |arg| >= 4 && arg[..3] == "uh(" && arg[|arg| - 1] == ')';
      BytesReprRoundTrip(Hexlify(b));
      UnhexlifyHexlify(b);
      assert EvalWrite(text) == Unhexlify(Hexlify(b));
    } else {
      var lit := BytesRepr(b);
      assert text[..2] == "w(" && text[|text| - 1] == ')';
      assert text[2..|text| - 1] == lit;
      assert lit[..3] != "uh(" by { assert lit[0] == 'b'; }
      BytesReprRoundTrip(b);
      assert EvalWrite(text) == ParseBytesLiteral(lit);
    }
  }

  // =====================================================================
  // data_to_writes

  /**
   * The snippet for one block: the bytes-literal form when its text is
   * strictly shorter than `len('w(uh(b""))') + 2 * len(block)`, else hex.
   */
  function WriteBlock(block: Bytes): Command
  {
    var lenAsBytes := |"w(" + BytesRepr(block) + ")"|;
    var lenAsHex := |"w(uh(b\"\"))"| + 2 * |block|;
    if lenAsBytes < lenAsHex then Write(block, false) else Write(block, true)
  }

  /** The hex form is used exactly when the literal form is not shorter. */
  lemma WriteBlockShortest(block: Bytes)
    ensures WriteBlock(block).data == block
    ensures WriteBlock(block).hex <==>
      |Render(Write(block, false))| >= |Render(Write(block, true))|
    ensures |Render(WriteBlock(block))| ==
      Min(|Render(Write(block, false))|, |Render(Write(block, true))|)
  {
    HexReprLength(block);
  }

  /** The snippets `data_to_writes(data, blockSize)` yields, in order. */
  function WriteCommands(data: Bytes, blockSize: nat): seq<Command>
    requires blockSize > 0
    decreases |data|
  {
    if data == [] then []
    else
      var n := Min(blockSize, |data|);
      [WriteBlock(data[..n])] + WriteCommands(data[n..], blockSize)
  }

  /** The data carried by the write snippets of `cmds`, concatenated. */
  function WrittenData(cmds: seq<Command>): Bytes
  {
    if cmds == [] then []
    else (if cmds[0].Write? then cmds[0].data else []) + WrittenData(cmds[1..])
  }

  /** A snippet `data_to_writes` may yield for a block size. */
  predicate IsWriteBlock(c: Command, blockSize: nat)
  {
    c.Write? && 1 <= |c.data| <= blockSize && c == WriteBlock(c.data)
  }

  /**
   * `data_to_writes` yields nothing for empty data, and otherwise blocks of
   * 1 to `blockSize` bytes, each in its cheaper form.
   */
  lemma {:induction false} WriteCommandsBlocks(data: Bytes, blockSize: nat)
    requires blockSize > 0
    ensures data == [] <==> WriteCommands(data, blockSize) == []
    ensures forall c :: c in WriteCommands(data, blockSize) ==> IsWriteBlock(c, blockSize)
    decreases |data|
  {
    if data != [] {
      var n := Min(blockSize, |data|);
      WriteCommandsBlocks(data[n..], blockSize);
    }
  }

  /** Every block but the last is a full `blockSize` bytes. */
  lemma {:induction false} WriteCommandsFull(data: Bytes, blockSize: nat)
    requires blockSize > 0
    ensures forall k :: 0 <= k < |WriteCommands(data, blockSize)| - 1 ==>
              Count(WriteCommands(data, blockSize)[k]) == blockSize
    decreases |data|
  {
    if data != [] {
      var n := Min(blockSize, |data|);
      var ws := WriteCommands(data, blockSize);
      WriteCommandsFull(data[n..], blockSize);
      WriteCommandsBlocks(data[n..], blockSize);
      assert ws[1..] == WriteCommands(data[n..], blockSize);
      forall k | 0 <= k < |ws| - 1 ensures Count(ws[k]) == blockSize {
        if k > 0 {
          assert ws[k] == ws[1..][k - 1];
        }
      }
    }
  }

  /** The blocks concatenate back to the data, and their counts sum to its length. */
  lemma {:induction false} WriteCommandsData(data: Bytes, blockSize: nat)
    requires blockSize > 0
    ensures WrittenData(WriteCommands(data, blockSize)) == data
    ensures SumCounts(WriteCommands(data, blockSize)) == |data|
    decreases |data|
  {
    if data != [] {
      var n := Min(blockSize, |data|);
      WriteCommandsData(data[n..], blockSize);
      assert data[..n] + data[n..] == data;
    }
  }

  /** `data_to_writes`: slices `data` into blocks of at most `blockSize` bytes. */
  method DataToWrites(data: Bytes, blockSize: nat) returns (writes: seq<Command>)
    requires blockSize > 0
    ensures writes == WriteCommands(data, blockSize)
  {
    var rest := data;
    writes := [];
    while rest != []
      invariant writes + WriteCommands(rest, blockSize) == WriteCommands(data, blockSize)
      decreases |rest|
    {
      var n := Min(blockSize, |rest|);
      var block := rest[..n];
      rest := rest[n..];
      writes := writes + [WriteBlock(block)];
    }
  }

  // =====================================================================
  // SequenceMatcher opcodes and combine_sm_operations

  datatype Tag = Insert | Replace | Delete | Equal

  /** One `(tag, i1, i2, j1, j2)` tuple of `SequenceMatcher.get_opcodes()`. */
  datatype Opcode = Opcode(tag: Tag, i1: nat, i2: nat, j1: nat, j2: nat)

  /**
   * What `get_opcodes()` guarantees for `before` and `after`: the i-ranges
   * tile `before` and the j-ranges tile `after` in order, each `equal`
   * opcode has equal slices, and a `delete` covers no part of `after`.
   */
  predicate ValidOpcodes(ops: seq<Opcode>, before: Bytes, after: Bytes)
  {
    && (ops == [] ==> before == [] && after == [])
    && (ops != [] ==>
          ops[0].i1 == 0 && ops[0].j1 == 0
          && ops[|ops| - 1].i2 == |before| && ops[|ops| - 1].j2 == |after|)
    && (forall k :: 0 <= k < |ops| ==>
          ops[k].i1 <= ops[k].i2 <= |before| && ops[k].j1 <= ops[k].j2 <= |after|)
    && (forall k :: 0 <= k < |ops| - 1 ==>
          ops[k + 1].i1 == ops[k].i2 && ops[k + 1].j1 == ops[k].j2)
    && (forall k :: 0 <= k < |ops| && ops[k].tag == Equal ==>
          before[ops[k].i1..ops[k].i2] == after[ops[k].j1..ops[k].j2])
    && (forall k :: 0 <= k < |ops| && ops[k].tag == Delete ==> ops[k].j1 == ops[k].j2)
  }

  /**
   * The part of opcode validity that the sanity checks of
   * `combine_sm_operations` rely on: the j-ranges follow each other from 0
   * and deletions cover no part of `after`.
   */
  predicate JChained(ops: seq<Opcode>)
  {
    && (ops != [] ==> ops[0].j1 == 0)
    && (forall k :: 0 <= k < |ops| - 1 ==> ops[k + 1].j1 == ops[k].j2)
    && (forall k :: 0 <= k < |ops| && ops[k].tag == Delete ==> ops[k].j1 == ops[k].j2)
  }

  /**
   * An operation of `combine_sm_operations`' output: `("insert", None, None,
   * j1, j2)` or `("equal", i1, i2, None, None)`.
   */
  datatype Op = InsertOp(j1: nat, j2: nat) | EqualOp(i1: nat, i2: nat)

  /** The loop state of `combine_sm_operations` and what it yielded so far. */
  datatype Combiner = Combiner(isReal: bool, cur: Op, readOffset: nat, out: seq<Op>)

  /** Processing starts from a fake, empty insertion. */
  const START: Combiner := Combiner(false, InsertOp(0, 0), 0, [])

  /** The output after yielding the current operation if it is real. */
  function Flush(s: Combiner): seq<Op>
  {
    if s.isReal then s.out + [s.cur] else s.out
  }

  /** One iteration of the loop of `combine_sm_operations`. */
  function CombineStep(s: Combiner, op: Opcode, equalOverhead: int, seekOverhead: int): Combiner
  {
    match op.tag
    case Insert | Replace =>
      if s.cur.InsertOp? then s.(isReal := true, cur := InsertOp(s.cur.j1, op.j2))
      else Combiner(true, InsertOp(op.j1, op.j2), s.readOffset, Flush(s))
    case Equal =>
      var overhead := equalOverhead + (if s.readOffset != op.i1 then seekOverhead else 0);
      if s.cur.InsertOp? && op.i2 - op.i1 <= overhead then
        s.(isReal := true, cur := InsertOp(s.cur.j1, op.j2))
      else Combiner(true, EqualOp(op.i1, op.i2), op.i2, Flush(s))
    case Delete => s
  }

  function CombineAll(ops: seq<Opcode>, equalOverhead: int, seekOverhead: int): Combiner
  {
    if ops == [] then START
    else CombineStep(CombineAll(ops[..|ops| - 1], equalOverhead, seekOverhead), ops[|ops| - 1],
                     equalOverhead, seekOverhead)
  }

  /** Everything `combine_sm_operations` yields. */
  function Combined(ops: seq<Opcode>, equalOverhead: int, seekOverhead: int): seq<Op>
  {
    Flush(CombineAll(ops, equalOverhead, seekOverhead))
  }

  /**
   * `combine_sm_operations`. The Python sanity checks `cur_j2 == j1` are
   * the assertions below, and hold for every chained opcode list.
   */
  method CombineSmOperations(ops: seq<Opcode>, equalOverhead: int, seekOverhead: int)
    returns (combined: seq<Op>)
    requires JChained(ops)
    ensures combined == Combined(ops, equalOverhead, seekOverhead)
  {
    var isReal := false;
    var cur := InsertOp(0, 0);
    var readOffset: nat := 0;
    combined := [];
    for k := 0 to |ops|
      invariant Combiner(isReal, cur, readOffset, combined) == CombineAll(ops[..k], equalOverhead, seekOverhead)
      invariant cur.InsertOp? ==> cur.j2 == if k == 0 then 0 else ops[k - 1].j2
    {
      var op := ops[k];
      assert ops[..k + 1][..k] == ops[..k];
      match op.tag {
        case Insert | Replace =>
          if cur.InsertOp? {
            assert cur.j2 == op.j1;
            cur := InsertOp(cur.j1, op.j2);
            isReal := true;
          } else {
            if isReal {
              combined := combined + [cur];
            }
            isReal := true;
            cur := InsertOp(op.j1, op.j2);
          }
        case Equal =>
          var overhead := equalOverhead + (if readOffset != op.i1 then seekOverhead else 0);
          if cur.InsertOp? && op.i2 - op.i1 <= overhead {
            assert cur.j2 == op.j1;
            cur := InsertOp(cur.j1, op.j2);
            isReal := true;
          } else {
            if isReal {
              combined := combined + [cur];
            }
            isReal := true;
            cur := EqualOp(op.i1, op.i2);
            readOffset := op.i2;
          }
        case Delete =>
      }
    }
    assert ops[..|ops|] == ops;
    if isReal {
      combined := combined + [cur];
    }
  }

  /** The bytes an operation stands for: `after[j1:j2]` or `before[i1:i2]`. */
  function Segment(op: Op, before: Bytes, after: Bytes): Bytes
  {
    match op
    case InsertOp(j1, j2) => if j1 <= j2 <= |after| then after[j1..j2] else []
    case EqualOp(i1, i2) => if i1 <= i2 <= |before| then before[i1..i2] else []
  }

  /** The concatenation of the segments of `ops`. */
  function Rebuild(ops: seq<Op>, before: Bytes, after: Bytes): Bytes
  {
    if ops == [] then []
    else Rebuild(ops[..|ops| - 1], before, after) + Segment(ops[|ops| - 1], before, after)
  }

  lemma RebuildSnoc(ops: seq<Op>, op: Op, before: Bytes, after: Bytes)
    ensures Rebuild(ops + [op], before, after) == Rebuild(ops, before, after) + Segment(op, before, after)
  {
    assert (ops + [op])[..|ops|] == ops;
  }

  predicate InBounds(op: Op, before: Bytes, after: Bytes)
  {
    match op
    case InsertOp(j1, j2) => j1 <= j2 <= |after|
    case EqualOp(i1, i2) => i1 <= i2 <= |before|
  }

  /**
   * The invariant of the combining loop once the opcodes' j-ranges have
   * reached `j`: the segments of the yielded and current operations spell
   * `after[..j]`, and an unreal current operation is the fake insertion.
   */
  predicate CombineInv(s: Combiner, before: Bytes, after: Bytes, j: nat)
  {
    && j <= |after|
    && (!s.isReal ==> s.cur == InsertOp(0, 0) && s.out == [])
    && (s.cur.InsertOp? ==> s.cur.j2 == j)
    && InBounds(s.cur, before, after)
    && (forall op :: op in s.out ==> InBounds(op, before, after))
    && Rebuild(s.out + [s.cur], before, after) == after[..j]
  }

  lemma FlushRebuild(s: Combiner, before: Bytes, after: Bytes, j: nat)
    requires CombineInv(s, before, after, j)
    ensures Rebuild(Flush(s), before, after) == after[..j]
    ensures forall op :: op in Flush(s) ==> InBounds(op, before, after)
  {
    RebuildSnoc(s.out, s.cur, before, after);
  }

  /** Yielding the current operation and starting `next`, which spells `after[j..j2]`. */
  lemma StartKeeps(s: Combiner, next: Op, readOffset: nat, before: Bytes, after: Bytes, j: nat, j2: nat)
    requires CombineInv(s, before, after, j)
    requires j <= j2 <= |after|
    requires InBounds(next, before, after) && Segment(next, before, after) == after[j..j2]
    requires next.InsertOp? ==> next.j2 == j2
    ensures CombineInv(Combiner(true, next, readOffset, Flush(s)), before, after, j2)
  {
    FlushRebuild(s, before, after, j);
    RebuildSnoc(Flush(s), next, before, after);
    assert after[..j] + after[j..j2] == after[..j2];
  }

  lemma PrefixJoin(after: Bytes, i: nat, j: nat)
    requires i <= j <= |after|
    ensures after[..i] + after[i..j] == after[..j]
  {
  }

  /** A sequence that, followed by `after[k..j]`, makes `after[..j]` is `after[..k]`. */
  lemma PrefixOfSum(prefix: Bytes, rest: Bytes, after: Bytes, j: nat)
    requires j <= |after| && |rest| <= j && rest == after[j - |rest|..j]
    requires prefix + rest == after[..j]
    ensures prefix == after[..j - |rest|]
  {
    assert prefix == (prefix + rest)[..|prefix|];
  }

  /** Extending the current insertion up to `j2`. */
  lemma ExtendKeeps(s: Combiner, before: Bytes, after: Bytes, j: nat, j2: nat)
    requires CombineInv(s, before, after, j)
    requires s.cur.InsertOp? && j <= j2 <= |after|
    ensures CombineInv(s.(isReal := true, cur := InsertOp(s.cur.j1, j2)), before, after, j2)
  {
    var j1 := s.cur.j1;
    var t := s.(isReal := true, cur := InsertOp(j1, j2));
    var prefix := Rebuild(s.out, before, after);
    RebuildSnoc(s.out, s.cur, before, after);
    assert prefix + after[j1..j] == after[..j];
    PrefixOfSum(prefix, after[j1..j], after, j);
    assert t.out + [t.cur] == s.out + [InsertOp(j1, j2)];
    RebuildSnoc(s.out, InsertOp(j1, j2), before, after);
    PrefixJoin(after, j1, j2);
    assert Rebuild(t.out + [t.cur], before, after) == after[..j2];
  }

  /** One opcode keeps the invariant, moving it from `op.j1` to `op.j2`. */
  lemma CombineStepKeeps(s: Combiner, op: Opcode, before: Bytes, after: Bytes,
                         equalOverhead: int, seekOverhead: int)
    requires CombineInv(s, before, after, op.j1)
    requires op.i1 <= op.i2 <= |before| && op.j1 <= op.j2 <= |after|
    requires op.tag == Equal ==> before[op.i1..op.i2] == after[op.j1..op.j2]
    requires op.tag == Delete ==> op.j1 == op.j2
    ensures CombineInv(CombineStep(s, op, equalOverhead, seekOverhead), before, after, op.j2)
  {
    match op.tag
    case Insert | Replace =>
      if s.cur.InsertOp? {
        ExtendKeeps(s, before, after, op.j1, op.j2);
      } else {
        StartKeeps(s, InsertOp(op.j1, op.j2), s.readOffset, before, after, op.j1, op.j2);
      }
    case Equal =>
      var overhead := equalOverhead + (if s.readOffset != op.i1 then seekOverhead else 0);
      if s.cur.InsertOp? && op.i2 - op.i1 <= overhead {
        ExtendKeeps(s, before, after, op.j1, op.j2);
      } else {
        StartKeeps(s, EqualOp(op.i1, op.i2), op.i2, before, after, op.j1, op.j2);
      }
    case Delete =>
  }

  /** Where the j-ranges of the first `k` opcodes end. */
  function JEnd(ops: seq<Opcode>, k: nat): nat
    requires k <= |ops|
  {
    if k == 0 then 0 else ops[k - 1].j2
  }

  lemma {:induction false} CombinePrefix(ops: seq<Opcode>, before: Bytes, after: Bytes,
                                         equalOverhead: int, seekOverhead: int, k: nat)
    requires ValidOpcodes(ops, before, after)
    requires k <= |ops|
    ensures CombineInv(CombineAll(ops[..k], equalOverhead, seekOverhead), before, after, JEnd(ops, k))
    decreases k
  {
    if k == 0 {
      assert ops[..0] == [];
      assert Rebuild([InsertOp(0, 0)], before, after) == Rebuild([], before, after) + [];
    } else {
      CombinePrefix(ops, before, after, equalOverhead, seekOverhead, k - 1);
      assert ops[..k][..k - 1] == ops[..k - 1];
      CombineStepKeeps(CombineAll(ops[..k - 1], equalOverhead, seekOverhead), ops[k - 1],
                       before, after, equalOverhead, seekOverhead);
    }
  }

  /**
   * For valid opcodes, the segments of the combined operations
   * (`after[j1:j2]` for inserts, `before[i1:i2]` for equals) concatenate to
   * `after`, and every operation lies within its sequence.
   */
  lemma {:induction false} CombinedRebuildsAfter(ops: seq<Opcode>, before: Bytes, after: Bytes,
                                                 equalOverhead: int, seekOverhead: int)
    requires ValidOpcodes(ops, before, after)
    ensures Rebuild(Combined(ops, equalOverhead, seekOverhead), before, after) == after
    ensures forall op :: op in Combined(ops, equalOverhead, seekOverhead) ==> InBounds(op, before, after)
  {
    CombinePrefix(ops, before, after, equalOverhead, seekOverhead, |ops|);
    assert ops[..|ops|] == ops;
    FlushRebuild(CombineAll(ops, equalOverhead, seekOverhead), before, after, JEnd(ops, |ops|));
    assert JEnd(ops, |ops|) == |after|;
  }

  // ---------------------------------------------------------------------
  // The shape of the combined operations

  /** No two insertions follow each other: adjacent inserts are always merged. */
  predicate NoAdjacentInserts(c: seq<Op>)
  {
    forall k :: 0 <= k < |c| - 1 ==> !(c[k].InsertOp? && c[k + 1].InsertOp?)
  }

  /** `read_offset` after the operations `c`: where the last equal ended, 0 if none. */
  function LastEqualEnd(c: seq<Op>): nat
  {
    if c == [] then 0
    else if c[|c| - 1].EqualOp? then c[|c| - 1].i2
    else LastEqualEnd(c[..|c| - 1])
  }

  /** What switching from an insertion to the equal `op` costs when reading at `readOffset`. */
  function Overhead(op: Op, readOffset: nat, equalOverhead: int, seekOverhead: int): int
    requires op.EqualOp?
  {
    equalOverhead + (if readOffset != op.i1 then seekOverhead else 0)
  }

  /**
   * Every equal that follows an insertion (or starts the output, where the
   * fake empty insertion stood) is longer than its overhead at the read
   * offset the earlier operations leave.
   */
  predicate EqualsPaid(c: seq<Op>, equalOverhead: int, seekOverhead: int)
  {
    forall k :: 0 <= k < |c| ==> PaidAt(c, k, equalOverhead, seekOverhead)
  }

  predicate PaidAt(c: seq<Op>, k: nat, equalOverhead: int, seekOverhead: int)
    requires k < |c|
  {
    c[k].EqualOp? && (k == 0 || c[k - 1].InsertOp?) ==>
      c[k].i2 - c[k].i1 > Overhead(c[k], LastEqualEnd(c[..k]), equalOverhead, seekOverhead)
  }

  /** The loop state of `combine_sm_operations` keeps these facts about what it holds. */
  predicate Shaped(s: Combiner, equalOverhead: int, seekOverhead: int)
  {
    && (!s.isReal ==> s.cur == InsertOp(0, 0) && s.out == [] && s.readOffset == 0)
    && s.readOffset == LastEqualEnd(s.out + [s.cur])
    && NoAdjacentInserts(s.out + [s.cur])
    && EqualsPaid(s.out + [s.cur], equalOverhead, seekOverhead)
  }

  lemma EqualsPaidSnoc(c: seq<Op>, x: Op, equalOverhead: int, seekOverhead: int)
    requires EqualsPaid(c, equalOverhead, seekOverhead)
    requires x.EqualOp? && (c == [] || c[|c| - 1].InsertOp?) ==>
               x.i2 - x.i1 > Overhead(x, LastEqualEnd(c), equalOverhead, seekOverhead)
    ensures EqualsPaid(c + [x], equalOverhead, seekOverhead)
  {
    var d := c + [x];
    forall k | 0 <= k < |d|
      ensures PaidAt(d, k, equalOverhead, seekOverhead)
    {
      if k < |c| {
        assert d[..k] == c[..k] && d[k] == c[k];
        assert k > 0 ==> d[k - 1] == c[k - 1];
        assert PaidAt(c, k, equalOverhead, seekOverhead);
      } else {
        assert d[..k] == c && d[k] == x;
        assert k > 0 ==> d[k - 1] == c[|c| - 1];
      }
    }
  }

  lemma ShapedPrefix(c: seq<Op>, m: nat, equalOverhead: int, seekOverhead: int)
    requires m <= |c|
    requires NoAdjacentInserts(c) && EqualsPaid(c, equalOverhead, seekOverhead)
    ensures NoAdjacentInserts(c[..m]) && EqualsPaid(c[..m], equalOverhead, seekOverhead)
  {
    var d := c[..m];
    forall k | 0 <= k < |d|
      ensures PaidAt(d, k, equalOverhead, seekOverhead)
    {
      assert d[..k] == c[..k] && d[k] == c[k];
      assert k > 0 ==> d[k - 1] == c[k - 1];
      assert PaidAt(c, k, equalOverhead, seekOverhead);
    }
  }

  /** Extending the current insertion keeps the loop state shaped. */
  lemma ExtendShaped(s: Combiner, j2: nat, equalOverhead: int, seekOverhead: int)
    requires Shaped(s, equalOverhead, seekOverhead) && s.cur.InsertOp?
    ensures Shaped(s.(isReal := true, cur := InsertOp(s.cur.j1, j2)), equalOverhead, seekOverhead)
  {
    var x := InsertOp(s.cur.j1, j2);
    var c := s.out + [s.cur];
    assert c[..|s.out|] == s.out;
    assert (s.out + [x])[..|s.out|] == s.out;
    ShapedPrefix(c, |s.out|, equalOverhead, seekOverhead);
    EqualsPaidSnoc(s.out, x, equalOverhead, seekOverhead);
  }

  /** Yielding the current operation and starting `next` keeps the loop state shaped. */
  lemma StartShaped(s: Combiner, next: Op, readOffset: nat, equalOverhead: int, seekOverhead: int)
    requires Shaped(s, equalOverhead, seekOverhead)
    requires readOffset == if next.EqualOp? then next.i2 else s.readOffset
    requires next.InsertOp? ==> s.cur.EqualOp?
    requires next.EqualOp? && s.cur.InsertOp? ==>
               next.i2 - next.i1 > Overhead(next, s.readOffset, equalOverhead, seekOverhead)
    ensures Shaped(Combiner(true, next, readOffset, Flush(s)), equalOverhead, seekOverhead)
  {
    var c := s.out + [s.cur];
    if s.isReal {
      assert Flush(s) == c;
      assert (c + [next])[..|c|] == c;
      EqualsPaidSnoc(c, next, equalOverhead, seekOverhead);
    } else {
      assert Flush(s) == [];
      assert Flush(s) + [next] == [next];
      EqualsPaidSnoc([], next, equalOverhead, seekOverhead);
    }
  }

  /** One opcode keeps the loop state shaped. */
  lemma CombineStepShaped(s: Combiner, op: Opcode, equalOverhead: int, seekOverhead: int)
    requires Shaped(s, equalOverhead, seekOverhead)
    ensures Shaped(CombineStep(s, op, equalOverhead, seekOverhead), equalOverhead, seekOverhead)
  {
    match op.tag
    case Insert | Replace =>
      if s.cur.InsertOp? {
        ExtendShaped(s, op.j2, equalOverhead, seekOverhead);
      } else {
        StartShaped(s, InsertOp(op.j1, op.j2), s.readOffset, equalOverhead, seekOverhead);
      }
    case Equal =>
      var overhead := equalOverhead + (if s.readOffset != op.i1 then seekOverhead else 0);
      if s.cur.InsertOp? && op.i2 - op.i1 <= overhead {
        ExtendShaped(s, op.j2, equalOverhead, seekOverhead);
      } else {
        StartShaped(s, EqualOp(op.i1, op.i2), op.i2, equalOverhead, seekOverhead);
      }
    case Delete =>
  }

  lemma {:induction false} CombineAllShaped(ops: seq<Opcode>, equalOverhead: int, seekOverhead: int)
    ensures Shaped(CombineAll(ops, equalOverhead, seekOverhead), equalOverhead, seekOverhead)
  {
    if ops == [] {
      assert START.out + [START.cur] == [InsertOp(0, 0)];
    } else {
      CombineAllShaped(ops[..|ops| - 1], equalOverhead, seekOverhead);
      CombineStepShaped(CombineAll(ops[..|ops| - 1], equalOverhead, seekOverhead), ops[|ops| - 1],
                        equalOverhead, seekOverhead);
    }
  }

  /**
   * What `combine_sm_operations` yields never holds two insertions in a
   * row, and every equal it yields after an insertion (or first) is longer
   * than `equal_overhead`, plus `seek_overhead` when it does not start at
   * the read offset the earlier equals leave.
   */
  lemma CombinedShape(ops: seq<Opcode>, equalOverhead: int, seekOverhead: int)
    ensures NoAdjacentInserts(Combined(ops, equalOverhead, seekOverhead))
    ensures EqualsPaid(Combined(ops, equalOverhead, seekOverhead), equalOverhead, seekOverhead)
  {
    var s := CombineAll(ops, equalOverhead, seekOverhead);
    CombineAllShaped(ops, equalOverhead, seekOverhead);
    var c := s.out + [s.cur];
    if s.isReal {
      assert Flush(s) == c[..|c|];
    } else {
      assert Flush(s) == c[..0];
    }
    ShapedPrefix(c, |Flush(s)|, equalOverhead, seekOverhead);
  }

  /** The loop state once the first operation is an insertion from `after[0]`. */
  predicate StartsInserting(s: Combiner)
  {
    s.isReal && (s.out + [s.cur])[0].InsertOp? && (s.out + [s.cur])[0].j1 == 0
  }

  lemma {:induction false} StartsInsertingKept(ops: seq<Opcode>, equalOverhead: int, seekOverhead: int)
    requires ops != []
    requires StartsInserting(CombineAll(ops[..1], equalOverhead, seekOverhead))
    ensures StartsInserting(CombineAll(ops, equalOverhead, seekOverhead))
    decreases |ops|
  {
    if |ops| > 1 {
      var init := ops[..|ops| - 1];
      assert init[..1] == ops[..1];
      StartsInsertingKept(init, equalOverhead, seekOverhead);
      var s := CombineAll(init, equalOverhead, seekOverhead);
      var t := CombineStep(s, ops[|ops| - 1], equalOverhead, seekOverhead);
      var c := s.out + [s.cur];
      var d := t.out + [t.cur];
      assert t.out == s.out || t.out == c;
      if t.out == c || s.out != [] {
        assert d[0] == c[0];
      } else {
        assert d[0] == t.cur && c[0] == s.cur;
      }
    } else {
      assert ops[..1] == ops;
    }
  }

  /**
   * The fake empty insertion the loop starts with: when the first opcode is
   * an insert, a replace, or an equal no longer than its overhead (read
   * offset 0), the output starts with an insertion from `after[0]`, into
   * which that equal's bytes are absorbed.
   */
  lemma CombinedLeadingInsert(ops: seq<Opcode>, equalOverhead: int, seekOverhead: int)
    requires ops != []
    requires ops[0].tag == Insert || ops[0].tag == Replace
             || (ops[0].tag == Equal
                 && ops[0].i2 - ops[0].i1 <= equalOverhead + (if ops[0].i1 != 0 then seekOverhead else 0))
    ensures Combined(ops, equalOverhead, seekOverhead) != []
    ensures Combined(ops, equalOverhead, seekOverhead)[0].InsertOp?
    ensures Combined(ops, equalOverhead, seekOverhead)[0].j1 == 0
  {
    assert ops[..1][..0] == [];
    StartsInsertingKept(ops, equalOverhead, seekOverhead);
  }

  /** The combining fold over `a` followed by `b`. */
  lemma {:induction false} CombineAllAppend(a: seq<Opcode>, a': seq<Opcode>, b: seq<Opcode>,
                                            equalOverhead: int, seekOverhead: int)
    requires CombineAll(a, equalOverhead, seekOverhead) == CombineAll(a', equalOverhead, seekOverhead)
    ensures CombineAll(a + b, equalOverhead, seekOverhead) == CombineAll(a' + b, equalOverhead, seekOverhead)
    decreases |b|
  {
    if b != [] {
      var b0 := b[..|b| - 1];
      CombineAllAppend(a, a', b0, equalOverhead, seekOverhead);
      assert (a + b)[..|a + b| - 1] == a + b0;
      assert (a' + b)[..|a' + b| - 1] == a' + b0;
    } else {
      assert a + b == a;
      assert a' + b == a';
    }
  }

  /** A replace opcode is combined exactly as an insert with the same ranges. */
  lemma CombinedReplaceAsInsert(ops: seq<Opcode>, k: nat, equalOverhead: int, seekOverhead: int)
    requires k < |ops| && ops[k].tag == Replace
    ensures Combined(ops[k := ops[k].(tag := Insert)], equalOverhead, seekOverhead)
            == Combined(ops, equalOverhead, seekOverhead)
  {
    var ins := ops[k := ops[k].(tag := Insert)];
    assert ops[..k + 1][..k] == ops[..k] == ins[..k + 1][..k];
    assert ops == ops[..k + 1] + ops[k + 1..];
    assert ins == ins[..k + 1] + ops[k + 1..];
    CombineAllAppend(ins[..k + 1], ops[..k + 1], ops[k + 1..], equalOverhead, seekOverhead);
  }

  /** A delete opcode yields nothing and leaves the loop state as it was. */
  lemma CombinedDeleteIgnored(ops: seq<Opcode>, k: nat, equalOverhead: int, seekOverhead: int)
    requires k < |ops| && ops[k].tag == Delete
    ensures Combined(ops[..k] + ops[k + 1..], equalOverhead, seekOverhead)
            == Combined(ops, equalOverhead, seekOverhead)
  {
    assert ops[..k + 1][..k] == ops[..k];
    assert ops == ops[..k + 1] + ops[k + 1..];
    CombineAllAppend(ops[..k], ops[..k + 1], ops[k + 1..], equalOverhead, seekOverhead);
  }

  // =====================================================================
  // Replaying a patch script on the old file

  /** The device after some snippets: old-file offset, new file, reads made. */
  datatype Replayed = Replayed(pos: nat, out: Bytes, chunks: seq<Bytes>)

  /** What `file.read(n)` returns at offset `pos`. */
  function ReadAt(file: Bytes, pos: nat, n: nat): (r: Bytes)
    ensures |r| <= n
  {
    var lo := Min(pos, |file|);
    file[lo..Min(pos + n, |file|)]
  }

  function Run(c: Command, st: Replayed, file: Bytes): Replayed
  {
    match c
    case Write(b, _) => st.(out := st.out + b)
    case CopyRead(n) =>
      var chunk := ReadAt(file, st.pos, n);
      Replayed(st.pos + |chunk|, st.out + chunk, st.chunks + [chunk])
    case Seek(i) => st.(pos := i)
  }

  /** The device state after running `cmds` with `file` as the old file. */
  function Replay(cmds: seq<Command>, file: Bytes): Replayed
  {
    if cmds == [] then Replayed(0, [], [])
    else Run(cmds[|cmds| - 1], Replay(cmds[..|cmds| - 1], file), file)
  }

  lemma ReplaySnoc(cmds: seq<Command>, c: Command, file: Bytes)
    ensures Replay(cmds + [c], file) == Run(c, Replay(cmds, file), file)
  {
    assert (cmds + [c])[..|cmds|] == cmds;
  }

  /**
   * What `data_to_update_commands` guarantees of each snippet, given the
   * replay state before it: writes are blocks in their cheaper form, every
   * `w(r(n))` has 1 <= n <= blockSize and stays inside the old file, and a
   * seek is only emitted when the offset differs from its target.
   */
  predicate CommandFits(st: Replayed, c: Command, file: Bytes, blockSize: nat)
  {
    match c
    case Write(_, _) => IsWriteBlock(c, blockSize)
    case CopyRead(n) => 1 <= n <= blockSize && st.pos + n <= |file|
    case Seek(i) => st.pos != i
  }

  predicate ScriptFits(cmds: seq<Command>, file: Bytes, blockSize: nat)
  {
    cmds == [] ||
    (ScriptFits(cmds[..|cmds| - 1], file, blockSize)
     && CommandFits(Replay(cmds[..|cmds| - 1], file), cmds[|cmds| - 1], file, blockSize))
  }

  lemma ScriptFitsSnoc(cmds: seq<Command>, c: Command, file: Bytes, blockSize: nat)
    requires ScriptFits(cmds, file, blockSize)
    requires CommandFits(Replay(cmds, file), c, file, blockSize)
    ensures ScriptFits(cmds + [c], file, blockSize)
  {
    assert (cmds + [c])[..|cmds|] == cmds;
  }

  /**
   * A script built so far: it fits `file`, leaves the old file at `pos`,
   * has written `out`, has read `reads` in all, and its counts sum to `|out|`.
   */
  predicate ScriptState(cmds: seq<Command>, file: Bytes, blockSize: nat, pos: nat, out: Bytes, got: Bytes)
  {
    && ScriptFits(cmds, file, blockSize)
    && Replay(cmds, file).pos == pos
    && Replay(cmds, file).out == out
    && Flatten(Replay(cmds, file).chunks) == got
    && SumCounts(cmds) == |out|
  }

  lemma SeekStep(cmds: seq<Command>, file: Bytes, blockSize: nat, pos: nat, out: Bytes, got: Bytes, i: nat)
    requires ScriptState(cmds, file, blockSize, pos, out, got)
    requires pos != i
    ensures ScriptState(cmds + [Seek(i)], file, blockSize, i, out, got)
  {
    ScriptFitsSnoc(cmds, Seek(i), file, blockSize);
    ReplaySnoc(cmds, Seek(i), file);
    SumCountsAppend(cmds, [Seek(i)]);
    assert SumCounts([Seek(i)]) == 0 + SumCounts([]);
  }

  lemma CopyStep(cmds: seq<Command>, file: Bytes, blockSize: nat, pos: nat, out: Bytes, got: Bytes,
                 baseOut: Bytes, baseGot: Bytes, start: nat, n: nat)
    requires ScriptState(cmds, file, blockSize, pos, out, got)
    requires start <= pos && 1 <= n <= blockSize && pos + n <= |file|
    requires out == baseOut + file[start..pos] && got == baseGot + file[start..pos]
    ensures ScriptState(cmds + [CopyRead(n)], file, blockSize, pos + n,
                        baseOut + file[start..pos + n], baseGot + file[start..pos + n])
  {
    var st := Replay(cmds, file);
    var chunk := file[pos..pos + n];
    ScriptFitsSnoc(cmds, CopyRead(n), file, blockSize);
    ReplaySnoc(cmds, CopyRead(n), file);
    SumCountsAppend(cmds, [CopyRead(n)]);
    assert SumCounts([CopyRead(n)]) == n + SumCounts([]);
    assert ReadAt(file, pos, n) == chunk;
    assert file[start..pos] + chunk == file[start..pos + n];
    FlattenSnoc(st.chunks, chunk);
  }

  /** A write block appends its data and leaves offset and reads alone. */
  lemma WriteStep(cmds: seq<Command>, file: Bytes, blockSize: nat, pos: nat, out: Bytes, got: Bytes,
                  c: Command)
    requires ScriptState(cmds, file, blockSize, pos, out, got)
    requires IsWriteBlock(c, blockSize)
    ensures ScriptState(cmds + [c], file, blockSize, pos, out + c.data, got)
  {
    ScriptFitsSnoc(cmds, c, file, blockSize);
    ReplaySnoc(cmds, c, file);
    SumCountsAppend(cmds, [c]);
    assert SumCounts([c]) == Count(c) + SumCounts([]);
  }

  /** Appending write blocks appends their data and leaves offset and reads alone. */
  lemma {:induction false} WritesStep(cmds: seq<Command>, file: Bytes, blockSize: nat, pos: nat, out: Bytes,
                                      got: Bytes, ws: seq<Command>)
    requires ScriptState(cmds, file, blockSize, pos, out, got)
    requires forall c :: c in ws ==> IsWriteBlock(c, blockSize)
    ensures ScriptState(cmds + ws, file, blockSize, pos, out + WrittenData(ws), got)
    decreases |ws|
  {
    if ws == [] {
      assert cmds + ws == cmds;
      assert out + WrittenData(ws) == out;
    } else {
      var c := ws[0];
      assert c in ws;
      WriteStep(cmds, file, blockSize, pos, out, got, c);
      assert forall x :: x in ws[1..] ==> x in ws;
      WritesStep(cmds + [c], file, blockSize, pos, out + c.data, got, ws[1..]);
      assert ws == [c] + ws[1..];
      AppendAssoc(cmds, [c], ws[1..]);
      assert WrittenData(ws) == c.data + WrittenData(ws[1..]);
      AppendAssoc(out, c.data, WrittenData(ws[1..]));
    }
  }

  lemma FlattenSnoc<T>(parts: seq<seq<T>>, more: seq<T>)
    ensures Flatten(parts + [more]) == Flatten(parts) + more
  {
    assert (parts + [more])[..|parts|] == parts;
  }

  /** The old slices an operation list reuses, one per equal, in order. */
  function EqualSlices(ops: seq<Op>, before: Bytes): seq<Bytes>
  {
    if ops == [] then []
    else
      var last := ops[|ops| - 1];
      EqualSlices(ops[..|ops| - 1], before)
        + (if last.EqualOp? then [Segment(last, before, [])] else [])
  }

  // The overhead estimates of data_to_update_commands.

  /** `len(repr(new[:block_size])) - 3 > 2 * len(new[:block_size])` picks a scale of 2. */
  function OverheadScale(newContent: Bytes, blockSize: nat): nat
  {
    var sample := newContent[..Min(blockSize, |newContent|)];
    if |BytesRepr(sample)| - 3 > 2 * |sample| then 2 else 1
  }

  /** `len(f"s({len(old) // 2})\n") // scale`. */
  function SeekOverhead(oldContent: Bytes, newContent: Bytes, blockSize: nat): int
  {
    |"s(" + Decimal(|oldContent| / 2) + ")\n"| / OverheadScale(newContent, blockSize)
  }

  /** `len("w(r(9))\n") // scale`. */
  function EqualOverhead(newContent: Bytes, blockSize: nat): int
  {
    |"w(r(9))\n"| / OverheadScale(newContent, blockSize)
  }

  /** `w(r(n))` snippets copying the old file from `offset` up to `i2`, at most `blockSize` bytes each. */
  function CopyReads(offset: nat, i2: nat, blockSize: nat): seq<Command>
    requires blockSize > 0
    decreases i2 - offset
  {
    if i2 <= offset then []
    else
      var n := Min(i2 - offset, blockSize);
      [CopyRead(n)] + CopyReads(offset + n, i2, blockSize)
  }

  /** The snippets of an `equal` operation over `[i1, i2)` with the old file at `offset`. */
  function EqualScript(offset: nat, i1: nat, i2: nat, blockSize: nat): seq<Command>
    requires blockSize > 0
  {
    (if offset != i1 then [Seek(i1)] else []) + CopyReads(i1, i2, blockSize)
  }

  /** The snippets `data_to_update_commands` yields for `ops`, and the read offset they leave. */
  function UpdateScript(ops: seq<Op>, after: Bytes, blockSize: nat): (seq<Command>, nat)
    requires blockSize > 0
  {
    if ops == [] then ([], 0)
    else
      var (cmds, offset) := UpdateScript(ops[..|ops| - 1], after, blockSize);
      match ops[|ops| - 1]
      case InsertOp(_, _) => (cmds + WriteCommands(Segment(ops[|ops| - 1], [], after), blockSize), offset)
      case EqualOp(i1, i2) => (cmds + EqualScript(offset, i1, i2, blockSize), i2)
  }

  /** Copying from `pos` to `i2` extends a script by `file[pos..i2]`, read and written. */
  lemma {:induction false} CopyReadsState(cmds: seq<Command>, file: Bytes, blockSize: nat, pos: nat,
                                          baseOut: Bytes, baseGot: Bytes, start: nat, i2: nat)
    requires blockSize > 0 && start <= pos <= i2 <= |file|
    requires ScriptState(cmds, file, blockSize, pos, baseOut + file[start..pos], baseGot + file[start..pos])
    ensures ScriptState(cmds + CopyReads(pos, i2, blockSize), file, blockSize, i2,
                        baseOut + file[start..i2], baseGot + file[start..i2])
    decreases i2 - pos
  {
    var all := cmds + CopyReads(pos, i2, blockSize);
    if pos == i2 {
      assert all == cmds;
    } else {
      var n := Min(i2 - pos, blockSize);
      var next := cmds + [CopyRead(n)];
      CopyStep(cmds, file, blockSize, pos, baseOut + file[start..pos], baseGot + file[start..pos],
               baseOut, baseGot, start, n);
      CopyReadsState(next, file, blockSize, pos + n, baseOut, baseGot, start, i2);
      CopyReadsUnfold(cmds, pos, i2, blockSize);
    }
  }

  lemma CopyReadsUnfold(cmds: seq<Command>, pos: nat, i2: nat, blockSize: nat)
    requires blockSize > 0 && pos < i2
    ensures cmds + CopyReads(pos, i2, blockSize)
            == (cmds + [CopyRead(Min(i2 - pos, blockSize))]) + CopyReads(pos + Min(i2 - pos, blockSize), i2, blockSize)
  {
  }

  /** The snippets of an `equal` operation copy `file[i1..i2]` and leave the offset at `i2`. */
  lemma EqualScriptState(cmds: seq<Command>, file: Bytes, blockSize: nat, offset: nat, out: Bytes, got: Bytes,
                         i1: nat, i2: nat)
    requires blockSize > 0 && i1 <= i2 <= |file|
    requires ScriptState(cmds, file, blockSize, offset, out, got)
    ensures ScriptState(cmds + EqualScript(offset, i1, i2, blockSize), file, blockSize, i2,
                        out + file[i1..i2], got + file[i1..i2])
  {
    if offset != i1 {
      SeekStep(cmds, file, blockSize, offset, out, got, i1);
      CopyReadsFrom(cmds + [Seek(i1)], file, blockSize, out, got, i1, i2);
      assert cmds + EqualScript(offset, i1, i2, blockSize) == (cmds + [Seek(i1)]) + CopyReads(i1, i2, blockSize);
    } else {
      CopyReadsFrom(cmds, file, blockSize, out, got, i1, i2);
      assert EqualScript(offset, i1, i2, blockSize) == CopyReads(i1, i2, blockSize);
    }
  }

  /** `CopyReadsState` from a script that has read nothing of the range yet. */
  lemma CopyReadsFrom(cmds: seq<Command>, file: Bytes, blockSize: nat, out: Bytes, got: Bytes, i1: nat, i2: nat)
    requires blockSize > 0 && i1 <= i2 <= |file|
    requires ScriptState(cmds, file, blockSize, i1, out, got)
    ensures ScriptState(cmds + CopyReads(i1, i2, blockSize), file, blockSize, i2, out + file[i1..i2], got + file[i1..i2])
  {
    assert out + file[i1..i1] == out && got + file[i1..i1] == got;
    CopyReadsState(cmds, file, blockSize, i1, out, got, i1, i2);
  }

  /**
   * The script for in-bounds operations fits the old file, rebuilds their
   * segments and reads exactly their equal slices, in order.
   */
  lemma {:induction false} UpdateScriptState(ops: seq<Op>, before: Bytes, after: Bytes, blockSize: nat)
    requires blockSize > 0
    requires forall op :: op in ops ==> InBounds(op, before, after)
    ensures ScriptState(UpdateScript(ops, after, blockSize).0, before, blockSize, UpdateScript(ops, after, blockSize).1,
                        Rebuild(ops, before, after), Flatten(EqualSlices(ops, before)))
    decreases |ops|
  {
    if ops != [] {
      var init := ops[..|ops| - 1];
      var op := ops[|ops| - 1];
      assert op in ops;
      assert forall o :: o in init ==> o in ops;
      UpdateScriptState(init, before, after, blockSize);
      var cmds := UpdateScript(init, after, blockSize).0;
      var offset := UpdateScript(init, after, blockSize).1;
      var out := Rebuild(init, before, after);
      var got := Flatten(EqualSlices(init, before));
      match op
      case InsertOp(j1, j2) =>
        var data := after[j1..j2];
        var ws := WriteCommands(data, blockSize);
        assert UpdateScript(ops, after, blockSize) == (cmds + ws, offset);
        assert Rebuild(ops, before, after) == out + data;
        assert EqualSlices(ops, before) == EqualSlices(init, before);
        WriteCommandsBlocks(data, blockSize);
        WriteCommandsData(data, blockSize);
        WritesStep(cmds, before, blockSize, offset, out, got, ws);
      case EqualOp(i1, i2) =>
        assert UpdateScript(ops, after, blockSize) == (cmds + EqualScript(offset, i1, i2, blockSize), i2);
        assert Rebuild(ops, before, after) == out + before[i1..i2];
        assert EqualSlices(ops, before) == EqualSlices(init, before) + [before[i1..i2]];
        EqualScriptState(cmds, before, blockSize, offset, out, got, i1, i2);
        FlattenSnoc(EqualSlices(init, before), before[i1..i2]);
    }
  }

  /**
   * The snippets for one `equal` operation over `file[i1..i2]`: a seek when
   * the offset is elsewhere, then reads of at most `blockSize` bytes.
   */
  method EqualCommands(cmds: seq<Command>, file: Bytes, blockSize: nat, readOffset: nat,
                       out: Bytes, got: Bytes, i1: nat, i2: nat)
    returns (cmds': seq<Command>)
    requires blockSize > 0 && i1 <= i2 <= |file|
    requires ScriptState(cmds, file, blockSize, readOffset, out, got)
    ensures ScriptState(cmds', file, blockSize, i2, out + file[i1..i2], got + file[i1..i2])
    ensures cmds' == cmds + EqualScript(readOffset, i1, i2, blockSize)
  {
    cmds' := cmds;
    var offset := readOffset;
    if offset != i1 {
      cmds' := cmds' + [Seek(i1)];
      offset := i1;
    }
    ghost var whole := cmds + EqualScript(readOffset, i1, i2, blockSize);
    assert whole == cmds' + CopyReads(offset, i2, blockSize);
    while offset < i2
      invariant i1 <= offset <= i2
      invariant whole == cmds' + CopyReads(offset, i2, blockSize)
      decreases i2 - offset
    {
      var length := Min(i2 - offset, blockSize);
      CopyReadsUnfold(cmds', offset, i2, blockSize);
      cmds' := cmds' + [CopyRead(length)];
      offset := offset + length;
    }
    assert whole == cmds' + [] == cmds';
    EqualScriptState(cmds, file, blockSize, readOffset, out, got, i1, i2);
  }

  /**
   * `data_to_update_commands` with the opcodes of `SequenceMatcher(None, old,
   * new)` passed in. Also returns, in order, the slices handed to the hasher.
   */
  method DataToUpdateCommands(oldContent: Bytes, newContent: Bytes, ops: seq<Opcode>, blockSize: nat)
    returns (cmds: seq<Command>, hashed: seq<Bytes>)
    requires blockSize > 0
    requires ValidOpcodes(ops, oldContent, newContent)
    ensures Replay(cmds, oldContent).out == newContent
    ensures SumCounts(cmds) == |newContent|
    ensures ScriptFits(cmds, oldContent, blockSize)
    ensures hashed == EqualSlices(Combined(ops, EqualOverhead(newContent, blockSize),
                                           SeekOverhead(oldContent, newContent, blockSize)), oldContent)
    ensures Flatten(Replay(cmds, oldContent).chunks) == Flatten(hashed)
    ensures cmds == UpdateScript(Combined(ops, EqualOverhead(newContent, blockSize),
                                          SeekOverhead(oldContent, newContent, blockSize)), newContent, blockSize).0
  {
    var equalOverhead := EqualOverhead(newContent, blockSize);
    var seekOverhead := SeekOverhead(oldContent, newContent, blockSize);
    var combined := CombineSmOperations(ops, equalOverhead, seekOverhead);
    CombinedRebuildsAfter(ops, oldContent, newContent, equalOverhead, seekOverhead);
    cmds := [];
    hashed := [];
    var readOffset: nat := 0;
    for k := 0 to |combined|
      invariant ScriptState(cmds, oldContent, blockSize, readOffset,
                            Rebuild(combined[..k], oldContent, newContent), Flatten(hashed))
      invariant hashed == EqualSlices(combined[..k], oldContent)
      invariant (cmds, readOffset) == UpdateScript(combined[..k], newContent, blockSize)
    {
      var op := combined[k];
      assert op in combined;
      assert InBounds(op, oldContent, newContent);
      var out := Rebuild(combined[..k], oldContent, newContent);
      PrefixSnoc(combined, k, oldContent, newContent);
      UpdateScriptSnoc(combined, k, newContent, blockSize);
      match op {
        case InsertOp(j1, j2) =>
          assert Segment(op, [], newContent) == newContent[j1..j2];
          var writes := DataToWrites(newContent[j1..j2], blockSize);
          WriteCommandsBlocks(newContent[j1..j2], blockSize);
          WriteCommandsData(newContent[j1..j2], blockSize);
          WritesStep(cmds, oldContent, blockSize, readOffset, out, Flatten(hashed), writes);
          cmds := cmds + writes;
        case EqualOp(i1, i2) =>
          FlattenSnoc(hashed, oldContent[i1..i2]);
          cmds := EqualCommands(cmds, oldContent, blockSize, readOffset, out, Flatten(hashed), i1, i2);
          hashed := hashed + [oldContent[i1..i2]];
          readOffset := i2;
      }
    }
    assert combined[..|combined|] == combined;
  }

  /** Taking one more operation of `ops` extends the script `UpdateScript` builds by that operation's commands. */
  lemma UpdateScriptSnoc(ops: seq<Op>, k: nat, after: Bytes, blockSize: nat)
    requires k < |ops| && blockSize > 0
    ensures var (cmds, offset) := UpdateScript(ops[..k], after, blockSize);
            UpdateScript(ops[..k + 1], after, blockSize) ==
              match ops[k]
              case InsertOp(_, _) => (cmds + WriteCommands(Segment(ops[k], [], after), blockSize), offset)
              case EqualOp(i1, i2) => (cmds + EqualScript(offset, i1, i2, blockSize), i2)
  {
    assert ops[..k + 1][..k] == ops[..k];
  }

  /** Taking one more operation of `ops` extends its segments and its equal slices. */
  lemma PrefixSnoc(ops: seq<Op>, k: nat, before: Bytes, after: Bytes)
    requires k < |ops|
    ensures Rebuild(ops[..k + 1], before, after) == Rebuild(ops[..k], before, after) + Segment(ops[k], before, after)
    ensures EqualSlices(ops[..k + 1], before) ==
      EqualSlices(ops[..k], before) + (if ops[k].EqualOp? then [Segment(ops[k], before, [])] else [])
  {
    assert ops[..k + 1] == ops[..k] + [ops[k]];
    assert ops[..k + 1][..k] == ops[..k];
  }

  // =====================================================================
  // The safe-update check of update_file

  /**
   * Replaying a script that fits `cached` on any other file never reads more
   * bytes than replaying it on `cached` does.
   */
  lemma {:induction false} ReadsNoLonger(cmds: seq<Command>, cached: Bytes, device: Bytes, blockSize: nat)
    requires ScriptFits(cmds, cached, blockSize)
    ensures |Replay(cmds, device).chunks| == |Replay(cmds, cached).chunks|
    ensures |Flatten(Replay(cmds, device).chunks)| <= |Flatten(Replay(cmds, cached).chunks)|
    decreases |cmds|
  {
    if cmds != [] {
      var init := cmds[..|cmds| - 1];
      var c := cmds[|cmds| - 1];
      ReadsNoLonger(init, cached, device, blockSize);
      if c.CopyRead? {
        var d := Replay(init, device);
        var h := Replay(init, cached);
        FlattenSnoc(d.chunks, ReadAt(device, d.pos, c.n));
        FlattenSnoc(h.chunks, ReadAt(cached, h.pos, c.n));
      }
    }
  }

  /**
   * The safe mode of `update_file`: the host hashes the old slices it reuses
   * and the device hashes what its reads returned. With the hash modelled as
   * collision-free, equal digests mean equal concatenations; then the file
   * the device builds is `newContent`, whatever else differs in its old file.
   */
  lemma {:induction false} SafeUpdateSound(cmds: seq<Command>, cached: Bytes, device: Bytes, newContent: Bytes,
                                           hashed: seq<Bytes>, blockSize: nat)
    requires ScriptFits(cmds, cached, blockSize)
    requires Replay(cmds, cached).out == newContent
    requires Flatten(Replay(cmds, cached).chunks) == Flatten(hashed)
    requires Flatten(Replay(cmds, device).chunks) == Flatten(hashed)
    ensures Replay(cmds, device).out == newContent
  {
    SameReadsSameOutput(cmds, cached, device, blockSize);
  }

  lemma {:induction false} SameReadsSameOutput(cmds: seq<Command>, cached: Bytes, device: Bytes, blockSize: nat)
    requires ScriptFits(cmds, cached, blockSize)
    requires Flatten(Replay(cmds, device).chunks) == Flatten(Replay(cmds, cached).chunks)
    ensures Replay(cmds, device).out == Replay(cmds, cached).out
    decreases |cmds|
  {
    if cmds != [] {
      var init := cmds[..|cmds| - 1];
      var c := cmds[|cmds| - 1];
      var d := Replay(init, device);
      var h := Replay(init, cached);
      ReadsNoLonger(init, cached, device, blockSize);
      if c.CopyRead? {
        var dc := ReadAt(device, d.pos, c.n);
        var hc := ReadAt(cached, h.pos, c.n);
        assert |hc| == c.n;
        FlattenSnoc(d.chunks, dc);
        FlattenSnoc(h.chunks, hc);
        assert Flatten(d.chunks) + dc == Flatten(h.chunks) + hc;
        assert |Flatten(d.chunks)| == |Flatten(h.chunks)|;
        assert Flatten(d.chunks) == (Flatten(d.chunks) + dc)[..|Flatten(d.chunks)|];
        assert Flatten(h.chunks) == (Flatten(h.chunks) + hc)[..|Flatten(h.chunks)|];
        assert dc == (Flatten(d.chunks) + dc)[|Flatten(d.chunks)|..];
        assert hc == (Flatten(h.chunks) + hc)[|Flatten(h.chunks)|..];
        SameReadsSameOutput(init, cached, device, blockSize);
      } else {
        SameReadsSameOutput(init, cached, device, blockSize);
      }
    }
  }

  /** The `block_size` of `update_file`, which `sync` leaves at its default. */
  const UPDATE_BLOCK_SIZE: nat := 512

  /** The operations `update_file` patches `before` into `after` with, given their opcodes. */
  function PatchOps(ops: seq<Opcode>, before: Bytes, after: Bytes): seq<Op>
  {
    Combined(ops, EqualOverhead(after, UPDATE_BLOCK_SIZE), SeekOverhead(before, after, UPDATE_BLOCK_SIZE))
  }

  /** The script `update_file` sends to patch `before` into `after`. */
  function PatchScript(ops: seq<Opcode>, before: Bytes, after: Bytes): seq<Command>
  {
    UpdateScript(PatchOps(ops, before, after), after, UPDATE_BLOCK_SIZE).0
  }

  /** Running that script on the device, whose file holds `current`: the new file and the reads made. */
  function PatchRun(ops: seq<Opcode>, current: Bytes, before: Bytes, after: Bytes): Replayed
  {
    Replay(PatchScript(ops, before, after), current)
  }

  /**
   * The safe check of `update_file`: the bytes the device read from its
   * file hash as the host's equal slices of `before` do. With the hash
   * modelled as collision-free, that is equality of the two
   * concatenations; bytes the script never reads play no part.
   */
  predicate ReadsAgree(ops: seq<Opcode>, current: Bytes, before: Bytes, after: Bytes)
  {
    Flatten(PatchRun(ops, current, before, after).chunks) == Flatten(EqualSlices(PatchOps(ops, before, after), before))
  }

  /** Patching the file the patch was made for builds `after`, and the safe check passes. */
  lemma PatchOwnFile(ops: seq<Opcode>, before: Bytes, after: Bytes)
    requires ValidOpcodes(ops, before, after)
    ensures PatchRun(ops, before, before, after).out == after
    ensures ReadsAgree(ops, before, before, after)
    ensures ScriptFits(PatchScript(ops, before, after), before, UPDATE_BLOCK_SIZE)
  {
    CombinedRebuildsAfter(ops, before, after, EqualOverhead(after, UPDATE_BLOCK_SIZE),
                          SeekOverhead(before, after, UPDATE_BLOCK_SIZE));
    UpdateScriptState(PatchOps(ops, before, after), before, after, UPDATE_BLOCK_SIZE);
  }

  /** Whatever the device's file holds, a patch that passes the safe check builds `after`. */
  lemma PatchChecked(ops: seq<Opcode>, current: Bytes, before: Bytes, after: Bytes)
    requires ValidOpcodes(ops, before, after)
    requires ReadsAgree(ops, current, before, after)
    ensures PatchRun(ops, current, before, after).out == after
  {
    PatchOwnFile(ops, before, after);
    SafeUpdateSound(PatchScript(ops, before, after), before, current, after,
                    EqualSlices(PatchOps(ops, before, after), before), UPDATE_BLOCK_SIZE);
  }

  /**
   * The safe check looks only at the bytes the script reads. Patching `A`
   * into `B` reuses nothing and so reads nothing: a device file holding
   * `Z` passes the check and ends up holding `B`.
   */
  lemma SafeCheckIgnoresUnread()
    ensures ReadsAgree([Opcode(Replace, 0, 1, 0, 1)], [0x5A], [0x41], [0x42])
    ensures PatchRun([Opcode(Replace, 0, 1, 0, 1)], [0x5A], [0x41], [0x42]).out == [0x42]
  {
    var ops := [Opcode(Replace, 0, 1, 0, 1)];
    var before: Bytes := [0x41];
    var after: Bytes := [0x42];
    ReplaceOneOps();
    InsertOneScript();
    var script := [WriteBlock(after)];
    assert PatchScript(ops, before, after) == script;
    assert script[..0] == [];
    assert PatchRun(ops, [0x5A], before, after).chunks == [];
    assert EqualSlices([InsertOp(0, 1)], before) == [];
    PatchChecked(ops, [0x5A], before, after);
  }

  /** Replacing the one byte `A` with `B` combines into one insertion. */
  lemma ReplaceOneOps()
    ensures PatchOps([Opcode(Replace, 0, 1, 0, 1)], [0x41], [0x42]) == [InsertOp(0, 1)]
  {
    var ops := [Opcode(Replace, 0, 1, 0, 1)];
    var eo := EqualOverhead([0x42], UPDATE_BLOCK_SIZE);
    var so := SeekOverhead([0x41], [0x42], UPDATE_BLOCK_SIZE);
    assert ops[..0] == [];
    assert CombineAll(ops[..0], eo, so) == START;
    assert CombineAll(ops, eo, so) == Combiner(true, InsertOp(0, 1), 0, []);
  }

  /** The script of that insertion is one write of `B`. */
  lemma InsertOneScript()
    ensures UpdateScript([InsertOp(0, 1)], [0x42], UPDATE_BLOCK_SIZE).0 == [WriteBlock([0x42])]
  {
    var after: Bytes := [0x42];
    assert [InsertOp(0, 1)][..0] == [];
    assert Segment(InsertOp(0, 1), [], after) == after;
    assert after[..1] == after && after[1..] == [];
    assert WriteCommands(after, UPDATE_BLOCK_SIZE) == [WriteBlock(after)] + WriteCommands([], UPDATE_BLOCK_SIZE);
  }

  // =====================================================================
  // batch_commands

  /** A `(command, bytes_touched)` pair. */
  type Item = (string, nat)

  /** The bytes touched by a group of commands. */
  function Total(group: seq<Item>): nat
  {
    if group == [] then 0 else Total(group[..|group| - 1]) + group[|group| - 1].1
  }

  /** `"\n".join(...)` of the command texts of a group. */
  function JoinLines(group: seq<Item>): string
  {
    if group == [] then ""
    else if |group| == 1 then group[0].0
    else JoinLines(group[..|group| - 1]) + "\n" + group[|group| - 1].0
  }

  /** The pair yielded for a group. */
  function Emit(group: seq<Item>): Item
  {
    (JoinLines(group), Total(group))
  }

  /** The pairs yielded for a list of groups, one per group. */
  function EmitAll(groups: seq<seq<Item>>): (r: seq<Item>)
    ensures |r| == |groups| && forall i :: 0 <= i < |groups| ==> r[i] == Emit(groups[i])
  {
    if groups == [] then [] else EmitAll(groups[..|groups| - 1]) + [Emit(groups[|groups| - 1])]
  }

  lemma EmitAllSnoc(groups: seq<seq<Item>>, group: seq<Item>)
    ensures EmitAll(groups + [group]) == EmitAll(groups) + [Emit(group)]
  {
    assert (groups + [group])[..|groups|] == groups;
  }

  /** The loop state of `batch_commands`: groups flushed so far and `this_batch`. */
  datatype Batching = Batching(done: seq<seq<Item>>, current: seq<Item>)

  /** Whether `c` still fits in the batch `current`. */
  predicate Fits(current: seq<Item>, c: Item, bytesPerBatch: int, commandsPerBatch: int)
  {
    Total(current) + c.1 <= bytesPerBatch && |current| + 1 <= commandsPerBatch
  }

  function BatchStep(st: Batching, c: Item, bytesPerBatch: int, commandsPerBatch: int): Batching
  {
    if Fits(st.current, c, bytesPerBatch, commandsPerBatch) then st.(current := st.current + [c])
    else Batching(st.done + [st.current], [c])
  }

  function BatchAll(cmds: seq<Item>, bytesPerBatch: int, commandsPerBatch: int): Batching
  {
    if cmds == [] then Batching([], [])
    else BatchStep(BatchAll(cmds[..|cmds| - 1], bytesPerBatch, commandsPerBatch), cmds[|cmds| - 1],
                   bytesPerBatch, commandsPerBatch)
  }

  /** The groups `batch_commands` yields: the last one only if it touches some bytes. */
  function Groups(cmds: seq<Item>, bytesPerBatch: int, commandsPerBatch: int): seq<seq<Item>>
  {
    var st := BatchAll(cmds, bytesPerBatch, commandsPerBatch);
    st.done + (if Total(st.current) > 0 then [st.current] else [])
  }

  /** `batch_commands`: greedy grouping under both limits. */
  method BatchCommands(cmds: seq<Item>, bytesPerBatch: int, commandsPerBatch: int)
    returns (batches: seq<Item>)
    ensures batches == EmitAll(Groups(cmds, bytesPerBatch, commandsPerBatch))
  {
    batches := [];
    var thisBatch: seq<Item> := [];
    var thisBatchBytes: nat := 0;
    ghost var done: seq<seq<Item>> := [];
    for k := 0 to |cmds|
      invariant Batching(done, thisBatch) == BatchAll(cmds[..k], bytesPerBatch, commandsPerBatch)
      invariant thisBatchBytes == Total(thisBatch)
      invariant batches == EmitAll(done)
    {
      var c := cmds[k];
      assert cmds[..k + 1][..k] == cmds[..k];
      assert BatchAll(cmds[..k + 1], bytesPerBatch, commandsPerBatch)
          == BatchStep(Batching(done, thisBatch), c, bytesPerBatch, commandsPerBatch);
      if thisBatchBytes + c.1 > bytesPerBatch || |thisBatch| + 1 > commandsPerBatch {
        EmitAllSnoc(done, thisBatch);
        batches := batches + [(JoinLines(thisBatch), thisBatchBytes)];
        done := done + [thisBatch];
        thisBatch := [];
        thisBatchBytes := 0;
      }
      assert (thisBatch + [c])[..|thisBatch|] == thisBatch;
      thisBatch := thisBatch + [c];
      thisBatchBytes := thisBatchBytes + c.1;
    }
    assert cmds[..|cmds|] == cmds;
    if thisBatchBytes > 0 {
      EmitAllSnoc(done, thisBatch);
      batches := batches + [(JoinLines(thisBatch), thisBatchBytes)];
    } else {
      assert done + [] == done;
    }
  }

  /** The flushed groups followed by `this_batch` are the commands, in order. */
  lemma {:induction false} BatchAllCover(cmds: seq<Item>, bytesPerBatch: int, commandsPerBatch: int)
    ensures Flatten(BatchAll(cmds, bytesPerBatch, commandsPerBatch).done)
              + BatchAll(cmds, bytesPerBatch, commandsPerBatch).current == cmds
  {
    if cmds != [] {
      var init := cmds[..|cmds| - 1];
      var c := cmds[|cmds| - 1];
      var st := BatchAll(init, bytesPerBatch, commandsPerBatch);
      BatchAllCover(init, bytesPerBatch, commandsPerBatch);
      CoverStep(st, c, bytesPerBatch, commandsPerBatch);
    }
  }

  lemma CoverStep(st: Batching, c: Item, bytesPerBatch: int, commandsPerBatch: int)
    ensures Flatten(BatchStep(st, c, bytesPerBatch, commandsPerBatch).done)
              + BatchStep(st, c, bytesPerBatch, commandsPerBatch).current
            == Flatten(st.done) + st.current + [c]
  {
    if !Fits(st.current, c, bytesPerBatch, commandsPerBatch) {
      FlattenSnoc(st.done, st.current);
    }
  }

  /** A group touching no bytes holds only commands touching no bytes. */
  lemma {:induction false} TotalZero(group: seq<Item>)
    requires Total(group) == 0
    ensures forall i :: 0 <= i < |group| ==> group[i].1 == 0
  {
    if group != [] {
      TotalZero(group[..|group| - 1]);
      assert forall i :: 0 <= i < |group| - 1 ==> group[i] == group[..|group| - 1][i];
    }
  }

  /**
   * The batches hold the commands in order; only a trailing run of commands
   * touching no bytes may be missing from them.
   */
  lemma BatchesInOrder(cmds: seq<Item>, bytesPerBatch: int, commandsPerBatch: int)
    ensures |Flatten(Groups(cmds, bytesPerBatch, commandsPerBatch))| <= |cmds|
    ensures cmds[..|Flatten(Groups(cmds, bytesPerBatch, commandsPerBatch))|]
              == Flatten(Groups(cmds, bytesPerBatch, commandsPerBatch))
    ensures forall i :: |Flatten(Groups(cmds, bytesPerBatch, commandsPerBatch))| <= i < |cmds| ==> cmds[i].1 == 0
  {
    var st := BatchAll(cmds, bytesPerBatch, commandsPerBatch);
    var groups := Groups(cmds, bytesPerBatch, commandsPerBatch);
    BatchAllCover(cmds, bytesPerBatch, commandsPerBatch);
    if Total(st.current) > 0 {
      FlattenSnoc(st.done, st.current);
      assert Flatten(groups) == cmds;
    } else {
      assert st.done + [] == st.done;
      var flat := Flatten(st.done);
      assert flat + st.current == cmds;
      TotalZero(st.current);
      forall i | |flat| <= i < |cmds|
        ensures cmds[i].1 == 0
      {
        assert cmds[i] == st.current[i - |flat|];
      }
      assert cmds[..|flat|] == flat;
    }
  }

  /** The shape the greedy loop keeps, for nonempty input. */
  predicate BatchShape(st: Batching, first: Item, bytesPerBatch: int, commandsPerBatch: int)
  {
    && st.current != []
    && (forall i :: 1 <= i < |st.done| ==> st.done[i] != [])
    && (st.done == [] ==> Fits([], first, bytesPerBatch, commandsPerBatch))
    && (st.done != [] ==> (st.done[0] == [] <==> !Fits([], first, bytesPerBatch, commandsPerBatch)))
  }

  lemma {:induction false} BatchAllShape(cmds: seq<Item>, bytesPerBatch: int, commandsPerBatch: int)
    requires cmds != []
    ensures BatchShape(BatchAll(cmds, bytesPerBatch, commandsPerBatch), cmds[0], bytesPerBatch, commandsPerBatch)
  {
    var init := cmds[..|cmds| - 1];
    var c := cmds[|cmds| - 1];
    if init == [] {
      assert BatchAll(init, bytesPerBatch, commandsPerBatch) == Batching([], []);
    } else {
      BatchAllShape(init, bytesPerBatch, commandsPerBatch);
      assert init[0] == cmds[0];
      var st := BatchAll(init, bytesPerBatch, commandsPerBatch);
      if !Fits(st.current, c, bytesPerBatch, commandsPerBatch) {
        var done := st.done + [st.current];
        assert forall i :: 1 <= i < |st.done| ==> done[i] == st.done[i];
      }
    }
  }

  /**
   * Only the first batch can be empty, and it is (the `("", 0)` batch)
   * exactly when the first command does not fit an empty batch.
   */
  lemma LeadingEmptyBatch(cmds: seq<Item>, bytesPerBatch: int, commandsPerBatch: int)
    ensures forall i :: 1 <= i < |Groups(cmds, bytesPerBatch, commandsPerBatch)| ==>
              Groups(cmds, bytesPerBatch, commandsPerBatch)[i] != []
    ensures cmds != [] && !Fits([], cmds[0], bytesPerBatch, commandsPerBatch) ==>
              Groups(cmds, bytesPerBatch, commandsPerBatch) != [] &&
              EmitAll(Groups(cmds, bytesPerBatch, commandsPerBatch))[0] == ("", 0)
    ensures cmds != [] && Fits([], cmds[0], bytesPerBatch, commandsPerBatch) ==>
              forall g :: g in Groups(cmds, bytesPerBatch, commandsPerBatch) ==> g != []
  {
    var groups := Groups(cmds, bytesPerBatch, commandsPerBatch);
    if cmds != [] {
      var st := BatchAll(cmds, bytesPerBatch, commandsPerBatch);
      BatchAllShape(cmds, bytesPerBatch, commandsPerBatch);
      assert forall i :: 0 <= i < |st.done| ==> groups[i] == st.done[i];
    }
  }

  lemma {:induction false} BatchAllCountLimit(cmds: seq<Item>, bytesPerBatch: int, commandsPerBatch: int)
    requires commandsPerBatch >= 1
    ensures forall g :: g in BatchAll(cmds, bytesPerBatch, commandsPerBatch).done ==> |g| <= commandsPerBatch
    ensures |BatchAll(cmds, bytesPerBatch, commandsPerBatch).current| <= commandsPerBatch
  {
    if cmds != [] {
      BatchAllCountLimit(cmds[..|cmds| - 1], bytesPerBatch, commandsPerBatch);
    }
  }

  lemma {:induction false} BatchAllBytesLimit(cmds: seq<Item>, bytesPerBatch: int, commandsPerBatch: int)
    requires forall i :: 0 <= i < |cmds| ==> cmds[i].1 <= bytesPerBatch
    ensures forall g :: g in BatchAll(cmds, bytesPerBatch, commandsPerBatch).done ==> Total(g) <= bytesPerBatch
    ensures BatchAll(cmds, bytesPerBatch, commandsPerBatch).current != [] ==>
              Total(BatchAll(cmds, bytesPerBatch, commandsPerBatch).current) <= bytesPerBatch
  {
    if cmds != [] {
      var init := cmds[..|cmds| - 1];
      var c := cmds[|cmds| - 1];
      assert forall i :: 0 <= i < |init| ==> init[i] == cmds[i];
      BatchAllBytesLimit(init, bytesPerBatch, commandsPerBatch);
      var st := BatchAll(init, bytesPerBatch, commandsPerBatch);
      if !Fits(st.current, c, bytesPerBatch, commandsPerBatch) {
        assert Total([c]) == Total([]) + c.1;
      }
    }
  }

  /**
   * No batch holds more than `commandsPerBatch` commands (when that is at
   * least 1), and when no single command touches more than `bytesPerBatch`
   * bytes, neither does any batch.
   */
  lemma BatchLimits(cmds: seq<Item>, bytesPerBatch: int, commandsPerBatch: int)
    ensures commandsPerBatch >= 1 ==>
              forall g :: g in Groups(cmds, bytesPerBatch, commandsPerBatch) ==> |g| <= commandsPerBatch
    ensures (forall i :: 0 <= i < |cmds| ==> cmds[i].1 <= bytesPerBatch) ==>
              forall b :: b in EmitAll(Groups(cmds, bytesPerBatch, commandsPerBatch)) ==> b.1 <= bytesPerBatch
  {
    var groups := Groups(cmds, bytesPerBatch, commandsPerBatch);
    var st := BatchAll(cmds, bytesPerBatch, commandsPerBatch);
    assert forall g :: g in groups ==> g in st.done || g == st.current;
    if commandsPerBatch >= 1 {
      BatchAllCountLimit(cmds, bytesPerBatch, commandsPerBatch);
    }
    if forall i :: 0 <= i < |cmds| ==> cmds[i].1 <= bytesPerBatch {
      BatchAllBytesLimit(cmds, bytesPerBatch, commandsPerBatch);
      assert Total([]) == 0;
      forall b | b in EmitAll(groups)
        ensures b.1 <= bytesPerBatch
      {
        var i :| 0 <= i < |groups| && EmitAll(groups)[i] == b;
        assert groups[i] in groups;
      }
    }
  }

  // =====================================================================
  // FilesystemAPI._ensure_defined

  /**
   * The dependencies of each entry of `_DEFINITIONS`. The snippet texts are
   * device code and are not modelled; a definition is named by its key.
   */
  const DEFINITIONS: map<string, seq<string>> := map[
    "os" := [],
    "time" := [],
    "sha256" := [],
    "mkdir" := ["os"],
    "remove_recursive" := ["os", "time"],
    "ls" := ["os"],
    "pns" := [],
    "uh" := [],
    "h" := [],
    "make_read_and_hash" := [],
    "bytes_to_evalable" := ["h"],
    "pnb" := ["bytes_to_evalable"],
    "get_temp_file_name" := ["os"]
  ]

  /** The length of the longest dependency chain below a definition. */
  function Depth(name: string): nat
  {
    if name == "pnb" then 2
    else if name in ["mkdir", "remove_recursive", "ls", "bytes_to_evalable", "get_temp_file_name"] then 1
    else 0
  }

  /** Every dependency is itself a definition, with a shorter chain below it. */
  lemma DependenciesShallower(name: string, dep: string)
    requires name in DEFINITIONS && dep in DEFINITIONS[name]
    ensures dep in DEFINITIONS && Depth(dep) < Depth(name)
  {
  }

  /** The names `name` needs defined: itself and, transitively, its dependencies. */
  function Needs(name: string): set<string>
    requires name in DEFINITIONS
    decreases Depth(name), 1, 0
  {
    {name} + NeedsAll(DEFINITIONS[name], name)
  }

  function NeedsAll(deps: seq<string>, parent: string): set<string>
    requires parent in DEFINITIONS && deps <= DEFINITIONS[parent]
    decreases Depth(parent), 0, |deps|
  {
    if deps == [] then {}
    else
      var last := deps[|deps| - 1];
      assert last in DEFINITIONS[parent];
      DependenciesShallower(parent, last);
      NeedsAll(deps[..|deps| - 1], parent) + Needs(last)
  }

  /** Needing one more dependency of `parent` adds what that dependency needs. */
  lemma NeedsAllStep(parent: string, k: nat)
    requires parent in DEFINITIONS && k < |DEFINITIONS[parent]|
    ensures DEFINITIONS[parent][k] in DEFINITIONS
    ensures NeedsAll(DEFINITIONS[parent][..k + 1], parent)
         == NeedsAll(DEFINITIONS[parent][..k], parent) + Needs(DEFINITIONS[parent][k])
  {
    var deps := DEFINITIONS[parent];
    assert deps[..k + 1][..k] == deps[..k];
    assert deps[k] in deps;
  }

  /**
   * Marked names are definitions, everything sent is marked, nothing is
   * sent twice, and each definition was sent after its dependencies.
   */
  predicate LoadOrder(defined: set<string>, loaded: seq<string>)
  {
    && (forall n :: n in defined ==> n in DEFINITIONS)
    && (forall i :: 0 <= i < |loaded| ==> loaded[i] in defined)
    && (forall i, j :: 0 <= i < j < |loaded| ==> loaded[i] != loaded[j])
    && (forall i :: 0 <= i < |loaded| ==>
          forall d :: d in DEFINITIONS[loaded[i]] ==> d in loaded[..i])
  }

  /** Sending a marked, unsent definition whose dependencies were sent keeps the order. */
  lemma SendKeepsOrder(defined: set<string>, loaded: seq<string>, name: string)
    requires LoadOrder(defined, loaded)
    requires name in defined && name !in loaded
    requires forall d :: d in DEFINITIONS[name] ==> d in loaded
    ensures LoadOrder(defined, loaded + [name])
  {
    var after := loaded + [name];
    forall i | 0 <= i < |after|
      ensures forall d :: d in DEFINITIONS[after[i]] ==> d in after[..i]
    {
      if i < |loaded| {
        assert after[..i] == loaded[..i];
      } else {
        assert after[..i] == loaded;
      }
    }
  }

  /** A host-side handle on the device's helper definitions. */
  class FilesystemApi {
    /** `self._defined`: the names marked defined. */
    var defined: set<string>
    /** The definitions sent to the device, in order. */
    var loaded: seq<string>

    /** What holds between and during `_ensure_defined` calls. */
    ghost predicate Inv()
      reads this
    {
      LoadOrder(defined, loaded)
    }

    /** Between calls: the marked names are exactly the ones sent. */
    ghost predicate Valid()
      reads this
    {
      Inv() && forall n :: n in defined ==> n in loaded
    }

    /** A name marked defined whose definition has not been sent yet. */
    ghost predicate Pending(n: string)
      reads this
    {
      n in defined && n !in loaded
    }

    constructor ()
      ensures Valid() && defined == {} && loaded == []
    {
      defined := {};
      loaded := [];
    }

    /** Everything a sent definition needs has been sent. */
    lemma {:induction false} NeedsLoaded(name: string)
      requires Inv() && name in loaded
      ensures forall n :: n in Needs(name) ==> n in loaded
      decreases Depth(name), 1, 0
    {
      var i :| 0 <= i < |loaded| && loaded[i] == name;
      NeedsAllLoaded(DEFINITIONS[name], name);
    }

    lemma {:induction false} NeedsAllLoaded(deps: seq<string>, parent: string)
      requires Inv() && parent in DEFINITIONS && deps <= DEFINITIONS[parent]
      requires forall d :: d in DEFINITIONS[parent] ==> d in loaded
      ensures forall n :: n in NeedsAll(deps, parent) ==> n in loaded
      decreases Depth(parent), 0, |deps|
    {
      if deps != [] {
        var last := deps[|deps| - 1];
        assert last in DEFINITIONS[parent];
        DependenciesShallower(parent, last);
        NeedsAllLoaded(deps[..|deps| - 1], parent);
        NeedsLoaded(last);
      }
    }

    /** The loop of `_ensure_defined(name)` over the dependencies of a name just marked. */
    method EnsureDependencies(name: string)
      requires name in DEFINITIONS && name in defined
      requires Inv()
      requires forall p :: Pending(p) ==> Depth(p) >= Depth(name)
      modifies this
      ensures Inv()
      ensures defined == old(defined) + NeedsAll(DEFINITIONS[name], name)
      ensures |old(loaded)| <= |loaded| && loaded[..|old(loaded)|] == old(loaded)
      ensures forall n :: n in NeedsAll(DEFINITIONS[name], name) ==> n in loaded
      ensures forall p :: Pending(p) <==> old(Pending(p))
      decreases Depth(name), 0
    {
      var dependencies := DEFINITIONS[name];
      for k := 0 to |dependencies|
        invariant Inv()
        invariant defined == old(defined) + NeedsAll(dependencies[..k], name)
        invariant |old(loaded)| <= |loaded| && loaded[..|old(loaded)|] == old(loaded)
        invariant forall n :: n in NeedsAll(dependencies[..k], name) ==> n in loaded
        invariant forall p :: Pending(p) <==> old(Pending(p))
      {
        var dependency := dependencies[k];
        NeedsAllStep(name, k);
        DependenciesShallower(name, dependency);
        EnsureDefined(dependency);
      }
      assert dependencies[..|dependencies|] == dependencies;
    }

    /**
     * `_ensure_defined(name)`: a name already marked causes no action;
     * otherwise it is marked first, its dependencies are ensured in order,
     * and its definition is sent last. Afterwards everything `name` needs
     * is marked and sent, each at most once, dependencies first.
     */
    method EnsureDefined(name: string)
      requires name in DEFINITIONS
      requires Inv()
      requires forall p :: Pending(p) ==> Depth(p) > Depth(name)
      modifies this
      ensures Inv()
      ensures old(name in defined) ==> defined == old(defined) && loaded == old(loaded)
      ensures defined == old(defined) + Needs(name)
      ensures |old(loaded)| <= |loaded| && loaded[..|old(loaded)|] == old(loaded)
      ensures forall n :: n in Needs(name) ==> n in loaded
      ensures forall p :: Pending(p) <==> old(Pending(p))
      ensures old(Valid()) ==> Valid()
      decreases Depth(name), 1
    {
      if name in defined {
        assert !Pending(name);
        NeedsLoaded(name);
        return;
      }
      defined := defined + {name};
      assert forall p :: Pending(p) <==> old(Pending(p)) || p == name;
      EnsureDependencies(name);
      assert Pending(name);
      SendKeepsOrder(defined, loaded, name);
      loaded := loaded + [name];
    }
  }
}
