# upyt host-side core, modelled in Dafny

upyt is a host-side toolkit for MicroPython boards. It talks to the board's
REPL over a serial line, runs code through the raw paste protocol, copies
files, and keeps a host directory in sync with the board through a local
cache. This project models the parts of upyt that turn bytes, diff opcodes,
paths and cache state into commands, without touching a wire:

- `common.dfy` (`Common`): bytes, `Option`/`Result`, and the Python integer
  formatting and parsing the core relies on (`str(n)`, `f"{v:03d}"`, `"%x"`,
  `int()`, ASCII encode/decode).
- `pytext.dfy` (`PyText`): the Python text primitives the core uses:
  - `repr()` of a bytes object and the literal's evaluation;
  - `binascii.hexlify`/`unhexlify`;
  - `splitlines`, `find`, `partition`, `rpartition`, `split` and `join`.
- `connection.py` → `connection.dfy` (`Connection`):
  - the `port[:baud]` specification parser;
  - a `Connection` class that simulates the transport: a queue of the bytes
    the board will send, a log of the bytes written, and the timeout.
- `upy_repl.py` → `upy_repl.dfy` (`UpyRepl`):
  - `expect` and `expect_endswith`;
  - the interrupt/probe retry loop of `interrupt_and_enter_repl`;
  - `raw_paste_exec`: the handshake, the flow-control window, the end of
    transmission and the two outputs.
- `read_proxy.py` → `read_proxy.dfy` (`ReadProxy`): the `replace` and `match`
  stream filters, and the `ReadProxy` that reads through a chain of them.
- `upy_fs.py` → `upy_fs.dfy` (`UpyFs`):
  - `traceback_to_oserror` and `data_to_writes`;
  - `combine_sm_operations` and `data_to_update_commands`;
  - `batch_commands`;
  - the dependency loading of `FilesystemAPI._ensure_defined`;
  - the soundness of the safe mode of `update_file`.
- `sync.py` → `sync.dfy` (`Sync`) and `sync_plan.dfy` (`SyncPlan`):
  - the `.upyt_id.txt` codec and `get_upyt_id`;
  - exclusion normalisation and the breadth-first `enumerate_local_files`;
  - the planning and cache bookkeeping of `sync_to_device` against a
    `Device` class that holds the board's filesystem as a map.
- `cli/cp.py` → `cp.dfy` (`Cp`):
  - `split_source` and the worklist traversal of `read_sources`;
  - the three write strategies and the `cp` dispatch, over a `HybridFs`
    class that logs the writes.

Exceptions become `Err`/`None` values. Random numbers, globbing results and
the host trees are parameters. The diff opcodes that `difflib.SequenceMatcher`
would produce are an input, under a validity predicate (`UpyFs.ValidOpcodes`).

## Model

| member | source | states |
|---|---|---|
| Common.DecodeAscii | upyt/sync.py:64 | `bytes.decode("ascii")` succeeds exactly when every byte is below 0x80, and then maps each byte to the character with that code |
| Common.EncodeAscii | upyt/sync.py:70 | `str.encode("ascii")` succeeds exactly when every character is ASCII, and then gives one byte per character with its code |
| Common.AsciiRoundTrip | upyt/sync.py:64-70 | decoding the ASCII encoding of an ASCII string gives the string back |
| Common.Decimal | upyt/connection.py:36 | `str(n)` is a non-empty run of decimal digits |
| Common.DecimalValue | upyt/connection.py:36 | the digits `str(n)` writes have the value `n` |
| Common.LeadingZeroValue | upyt/sync.py:65 | a leading zero does not change a digit string's value |
| Common.PadLeft | upyt/sync.py:70 | left padding gives a string of length at least `width` that ends with the original |
| Common.ZeroPaddingValue | upyt/sync.py:65-70 | any number of zeros in front of a digit string keeps it all digits and keeps its value |
| Common.FormatZeroPadded | upyt/sync.py:70 | `f"{v:0{width}d}"` gives at least `width` characters: all digits for `v >= 0`, a `-` then digits for `v < 0` |
| Common.HexLower | upyt/upy_repl.py:105 | `"%x" % n` is a non-empty run of lower-case hex digits |
| Common.HexUpper | upyt/sync.py:89 | `"%X" % n` is a non-empty run of upper-case hex digits |
| Common.HexUpperLength | upyt/sync.py:89 | a number below 16^k takes at most k hex digits, so `randrange(1 << 48)` fits the 12-digit field |
| Common.StripLeading | upyt/sync.py:65 | the whitespace `int()` skips is removed from the front: the result is a suffix that does not start with whitespace |
| Common.StripTrailing | upyt/sync.py:65 | the same at the back: the result is a prefix that does not end with whitespace |
| Common.DropUnderscores | upyt/connection.py:36 | a digit group without its underscores is all digits |
| Common.DropUnderscoresOfDigits | upyt/connection.py:36 | a plain digit string has no underscores to drop |
| Common.StripDigitsUnchanged | upyt/sync.py:65 | stripping leaves a non-empty string of digits and signs unchanged |
| Common.PaddedDigitsValue | upyt/sync.py:65-70 | `str(n)` padded with zeros is a valid digit group of value `n` |
| Common.ParseUnsigned | upyt/sync.py:65 | `int()` of a plain digit string is its value |
| Common.ParseNegative | upyt/sync.py:65 | `int()` of `-` followed by digits of value `n` is `-n` |
| Common.ParseFormattedNegative | upyt/sync.py:65-70 | `int()` reads back a negative value written by `f"{v:03d}"` |
| Common.ParseFormattedNonNegative | upyt/sync.py:65-70 | `int()` reads back a non-negative value written by `f"{v:03d}"` |
| Common.ParseFormatted | upyt/sync.py:65-70 | every value the zero-padded format writes reads back with `int()` |
| Common.ParseDecimal | upyt/connection.py:36 | `int(str(n)) == n` |
| PyText.EscapeByte | upyt/upy_fs.py:59 | `repr` spells one byte with 1 to 4 characters |
| PyText.BytesReprLength | upyt/upy_fs.py:59-60 | `len(repr(b))` is 3 (the `b` and two quotes) plus the escaped body |
| PyText.HexValue | upyt/upy_fs.py:67 | a hex digit denotes a value below 16 |
| PyText.HexDigitLowerValue | upyt/upy_fs.py:67 | the lower-case hex digit of `d` is a hex digit that denotes `d` |
| PyText.UnescapeByte | upyt/upy_fs.py:59 | evaluating the spelling of one byte inside a literal gives that byte, whatever follows |
| PyText.UnescapeAll | upyt/upy_fs.py:59 | evaluating the escaped body of a literal quoted with `'` or `"` gives the bytes back |
| PyText.BytesReprRoundTrip | upyt/upy_fs.py:59 | `eval(repr(b)) == b`: the `w(b'...')` snippet carries exactly the block's bytes |
| PyText.HexByte | upyt/upy_fs.py:67 | the byte of a hex digit is that digit's character code |
| PyText.Hexlify | upyt/upy_fs.py:67 | `hexlify(b)` has two characters per byte |
| PyText.UnhexlifyHexlify | upyt/upy_fs.py:67 | `unhexlify(hexlify(b)) == b`: the `w(uh(...))` snippet carries exactly the block's bytes |
| PyText.HexlifyPlain | upyt/upy_fs.py:67 | hex digits are plain characters and never a quote |
| PyText.EscapePlainLength | upyt/upy_fs.py:61 | plain characters are not escaped, so each counts once |
| PyText.HexReprLength | upyt/upy_fs.py:61 | `len(repr(hexlify(b)))` is `3 + 2 * len(b)`, so the hex snippet is `len('w(uh(b""))') + 2 * len(b)` long |
| PyText.FirstBoundary | upyt/upy_fs.py:39 | the first line boundary: no boundary before it, and a boundary at it unless it is the end |
| PyText.SplitLinesShape | upyt/upy_fs.py:39 | `splitlines()` is empty exactly for the empty string, and no line holds a line boundary |
| PyText.FindFrom | upyt/upy_fs.py:39 | the first occurrence at or after `i`, or none at all from `i` on |
| PyText.RFindFrom | upyt/connection.py:35 | the last occurrence at or before `i`, or none up to `i` |
| PyText.Find | upyt/upy_fs.py:39 | `find`: an occurrence with none before it, or no occurrence anywhere |
| PyText.RFind | upyt/connection.py:35 | `rfind`: an occurrence with none after it, or no occurrence anywhere |
| PyText.Partition | upyt/upy_fs.py:39 | the three parts rebuild the string; the middle is the separator, or both it and the tail are empty |
| PyText.RPartition | upyt/cli/cp.py:45 | the three parts rebuild the string; the middle is the separator, or both it and the head are empty |
| PyText.Split | upyt/sync.py:64 | `split(" ")` gives one more piece than there are separators |
| PyText.JoinSplit | upyt/sync.py:64 | joining the pieces of a split restores the string, and no piece holds the separator |
| PyText.SplitPieces | upyt/sync.py:64 | no piece of a split holds the separator |
| PyText.SplitWithout | upyt/sync.py:64 | a string without the separator splits into itself alone |
| PyText.SplitExtend | upyt/sync.py:64 | separator-free text at the end extends the last piece |
| PyText.SplitOnce | upyt/sync.py:64 | two separator-free fields around one separator split back into exactly those two |
| PyText.SplitSnoc | upyt/sync.py:64 | one more character starts a new piece when it is the separator, and otherwise extends the last one |
| PyText.JoinSnoc | upyt/sync.py:250 | joining one more part appends the separator and the part |
| Connection.RPartitionChar | upyt/connection.py:35 | at a character that occurs, `rpartition` yields that character as separator, and no copy of it in the tail |
| Connection.FromSpecificationCases | upyt/connection.py:34-39 | without `:` the spec is the port at 9600 baud; with one, it splits at the last colon, and a non-integer suffix is the `ValueError` |
| Connection.FromSpecificationRoundTrip | upyt/connection.py:34-36 | any port, colons included, followed by `:` and `str(baud)`, parses back to that port and baud |
| Connection.Connection.constructor | upyt/connection.py:134-135 | a connection starts with the given queue, the given buffered amount and timeout, and nothing sent |
| Connection.Connection.Read | upyt/connection.py:43-48 | `read(n)` takes at most `n` bytes off the front of the queue; fewer only when the queue ran dry (the timeout); nothing is sent |
| Connection.Connection.ReadUntil | upyt/connection.py:50-55 | `read_until(d)` takes bytes through the first occurrence of `d` and no further, or all that is left on a timeout |
| Connection.Connection.ReadBuffered | upyt/connection.py:57-61 | `read_buffered()` takes exactly the bytes that have already arrived |
| Connection.Connection.Write | upyt/connection.py:63-67 | `write(data)` appends `data` to the sent log and reports its length |
| Connection.Connection.OverrideTimeout | upyt/connection.py:118-120 | entering `timeout_override` saves the old timeout and sets the new one; nothing else changes |
| Connection.Connection.RestoreTimeout | upyt/connection.py:122-123 | leaving `timeout_override` restores the saved timeout; nothing else changes |
| UpyRepl.Expect | upyt/upy_repl.py:52-55 | `len(value)` bytes are read; the result is `value` exactly when the stream started with it, otherwise `MicroPythonReplError` carries the bytes actually read |
| UpyRepl.ExpectEndswith | upyt/upy_repl.py:65-68 | the bytes through the first `value` are read; success exactly when they end with `value`, otherwise (a timeout) the error carries all of them |
| UpyRepl.Ascii | upyt/upy_repl.py:105-110 | an ASCII text as bytes, one per character |
| UpyRepl.HexAscii | upyt/upy_repl.py:105-110 | the probe command and its expected reply are ASCII |
| UpyRepl.ProbeHasNoInterrupt | upyt/upy_repl.py:105 | the probe command holds no Ctrl+C, so only the interrupts send 0x03 |
| UpyRepl.ProbeReplyNotPrompt | upyt/upy_repl.py:106-110 | a probe reply is never the bare prompt |
| UpyRepl.ReadPast | upyt/upy_repl.py:95-99 | when `value` is found, the bytes read are the output then `value`, and `value` first occurs at their end; otherwise the whole stream was read, it holds no `value`, and all of it is kept as output |
| UpyRepl.PastFound | upyt/upy_repl.py:95 | `expect_endswith(...)[:-len(prompt)]` is the bytes before the first `value`, and those plus `value` are all that was read |
| UpyRepl.PastMissing | upyt/upy_repl.py:96-99 | a read that timed out without `value` holds `value` nowhere, and all of it is kept |
| UpyRepl.InterruptAttempt | upyt/upy_repl.py:90-120 | one attempt sends a Ctrl+C (and the probe once the prompt is seen); only prompts and this probe's reply are stripped; it reaches the REPL exactly when the stream holds the prompt and, after it, the probe's reply, which is then the last piece matched; otherwise the stream is spent |
| UpyRepl.UnpromptedAttempt | upyt/upy_repl.py:94-100 | an attempt that saw no prompt read the whole stream, kept it, and the stream could not have reached the REPL |
| UpyRepl.PromptedAttempt | upyt/upy_repl.py:94-120 | an attempt that saw the prompt succeeds exactly when the stream holds the prompt and, after it, the reply; only the two are stripped |
| UpyRepl.AttemptPieces | upyt/upy_repl.py:95-114 | the pieces of the two reads match only the prompt and the probe's reply, and the last of them is the second read's last |
| UpyRepl.NoFirst | upyt/upy_repl.py:94-100 | a stream without the prompt never has the reply after it |
| UpyRepl.NoSecondAfterFirst | upyt/upy_repl.py:111-120 | when the reply does not follow the first prompt, it follows no later prompt either |
| UpyRepl.FirstThenSecond | upyt/upy_repl.py:94-116 | a stream with the prompt and then the reply is what the two reads wait for |
| UpyRepl.AttemptProgress | upyt/upy_repl.py:89-120 | only the first attempt can succeed, on the stream it was given; a failed attempt leaves the stream spent and the first probe's reply never followed a prompt |
| UpyRepl.NothingReached | upyt/upy_repl.py:94-100 | an empty stream holds no prompt |
| UpyRepl.ReadSoFarStep | upyt/upy_repl.py:89-120 | the bytes read by successive attempts add up, as does the kept output |
| UpyRepl.SentStep | upyt/upy_repl.py:90 | each attempt adds exactly one Ctrl+C to the sent log |
| UpyRepl.OnlyPromptsWiden | upyt/upy_repl.py:89 | stripped pieces that match the probes of some attempts also match those of more attempts |
| UpyRepl.OnlyPromptsExtend | upyt/upy_repl.py:89-120 | the stripped pieces of one more attempt are prompts or replies to that attempt's probe |
| UpyRepl.AttemptSent | upyt/upy_repl.py:90-105 | an attempt's writes extend the log and add exactly one Ctrl+C |
| UpyRepl.InterruptAndEnterRepl | upyt/upy_repl.py:85-123 | everything read except the stripped prompts and probe replies is returned, or carried by `NoReplError`; each attempt sends one Ctrl+C; at most `num_attempts` attempts and all of them on failure; success exactly when the stream after the buffered bytes holds the prompt and then the first probe's reply, which is the last piece matched; on failure after an attempt the stream is spent; the timeout is restored on both paths |
| UpyRepl.LittleEndian16 | upyt/upy_repl.py:175 | `struct.unpack("<H", ...)` gives a value below 65536 whose low byte is the first byte and whose high byte is the second |
| UpyRepl.LittleEndian16RoundTrip | upyt/upy_repl.py:175 | every 16-bit value is read back from its two little-endian bytes |
| UpyRepl.FlowSnoc | upyt/upy_repl.py:187-201 | one more flow event updates the window, the written count and the device bytes by that event alone |
| UpyRepl.WindowBound | upyt/upy_repl.py:176-201 | the bytes written plus the window still open equal one increment plus one per grant, so no write ever overran the window |
| UpyRepl.WindowBoundStep | upyt/upy_repl.py:187-201 | one more flow event keeps the balance between bytes written, the window and the grants |
| UpyRepl.GrantStep | upyt/upy_repl.py:190-191 | a 0x01 from the device adds exactly one increment to the window |
| UpyRepl.StopStep | upyt/upy_repl.py:192-194 | a 0x04 from the device is recorded and changes nothing else |
| UpyRepl.WriteStep | upyt/upy_repl.py:199-201 | writing the next `n <= window` code bytes advances the sent prefix and shrinks the window by `n` |
| UpyRepl.SendCode | upyt/upy_repl.py:187-201 | the window loop sends a prefix of the code, in order, never beyond the window; it ends with all code sent and the window open, or stopped by a 0x04; a failure happens only with the window shut, on a byte other than 0x01 and 0x04 or on a timeout that spent the stream, and the error carries that byte after the flow bytes read |
| UpyRepl.StrayStep | upyt/upy_repl.py:188-196 | a read with the window shut that gave neither 0x01 nor 0x04 ends the loop with the stream accounted for by the flow bytes, that read and the rest |
| UpyRepl.AwaitAcknowledgement | upyt/upy_repl.py:205-214 | after the end of transmission, late grants are skipped and 0x04 ends the wait; a failure is a byte other than 0x01 and 0x04, or a timeout that spent the stream, after grants only |
| UpyRepl.FirstMarker | upyt/upy_repl.py:217 | what `expect_endswith(conn, b)` returns is free of `b` up to its final `b` |
| UpyRepl.ReadMarked | upyt/upy_repl.py:217-218 | `expect_endswith(conn, b)[:-1]` is the bytes before the next `b`, which is consumed too |
| UpyRepl.NoMarker | upyt/upy_repl.py:65-67 | bytes read up to a timeout without the marker hold no marker at all |
| UpyRepl.ReadOutputs | upyt/upy_repl.py:217-219 | the code output is the stretch before the next 0x04, the exception text the stretch before the following one, then the `>` prompt; success exactly when the stream holds a 0x04, a later 0x04 and a later `>`; a failure spends the stream and carries its tail |
| UpyRepl.NoFirstMarker | upyt/upy_repl.py:217 | a stream without 0x04 cannot hold both outputs |
| UpyRepl.NoSecondMarker | upyt/upy_repl.py:218 | a stream with a single 0x04 cannot hold both outputs |
| UpyRepl.NoShellPrompt | upyt/upy_repl.py:219 | with no `>` after the second 0x04 the outputs are incomplete |
| UpyRepl.OutputsFound | upyt/upy_repl.py:217-219 | two 0x04-ended stretches and a `>`-ended prompt make the outputs complete |
| UpyRepl.EnterRawPaste | upyt/upy_repl.py:166-176 | the request is sent; without `R\x01` the error is `RawPasteModeNotSupportedError` with the response; otherwise the increment is the next two bytes, little-endian |
| UpyRepl.PasteCode | upyt/upy_repl.py:187-226 | the code goes out as a prefix within the window; 0x04 ends it; outputs are returned only after the end was acknowledged; errors come from unsent code or from the device's bytes: a stray byte or timeout with the window shut, a stray byte or timeout before the acknowledgement, or a stream that ran out before the outputs were complete |
| UpyRepl.FlowFailed | upyt/upy_repl.py:187-196 | a paste that failed in the window loop meets the outcome predicate through its first error origin |
| UpyRepl.AckFailed | upyt/upy_repl.py:204-214 | a paste that failed awaiting the acknowledgement meets the outcome predicate through its second error origin |
| UpyRepl.OutputsFailed | upyt/upy_repl.py:216-219 | a paste whose outputs were incomplete meets the outcome predicate through its third error origin |
| UpyRepl.PasteDone | upyt/upy_repl.py:204-226 | a paste that ran to the end succeeds exactly when no code is left, and otherwise `SomeCodeNotSentError` carries the rest |
| UpyRepl.RawPasteExec | upyt/upy_repl.py:146-226 | the handshake needs `R\x01` and two more bytes; code holding 0x04 is refused with `ValueError` before any code byte is sent; the code is sent as a prefix within the window; success only when all of it was sent; the outputs are the stretches before the next two 0x04 bytes |
| ReadProxy.Chars | upyt/read_proxy.py:122-123 | a string as a stream has one character token per character |
| ReadProxy.CharsAppend | upyt/read_proxy.py:122-123 | the stream of a concatenation is the concatenation of the streams |
| ReadProxy.TextAppend | upyt/read_proxy.py:128 | the text of a concatenated stream is the concatenation of the texts |
| ReadProxy.TextChars | upyt/read_proxy.py:133 | the text of a string's stream is the string |
| ReadProxy.ReplaceRunSnoc | upyt/read_proxy.py:39-58 | running the replacer over one more token is one more step |
| ReadProxy.ReplaceStepPartial | upyt/read_proxy.py:43-58 | between characters, the buffer stays empty or a proper prefix of `find` |
| ReadProxy.Replacer | upyt/read_proxy.py:34-58 | the generator's loop produces the replacer's output, and leaves a buffer that is empty or a proper prefix of `find` |
| ReadProxy.ReplacePause | upyt/read_proxy.py:40-41 | a `None` is passed on at once and leaves the buffer alone |
| ReadProxy.ReplaceHoldsPrefix | upyt/read_proxy.py:55-58 | every proper prefix of `find` is held back and nothing is emitted |
| ReadProxy.ReplaceFind | upyt/read_proxy.py:44-48 | the whole of `find` comes out as the replacement and clears the buffer |
| ReadProxy.ReplaceNoRescan | upyt/read_proxy.py:49-54 | a buffer that stops being a prefix is emitted unchanged, without looking for `find` inside it (`aaab` passes `aab` through) |
| ReadProxy.ReplaceFlush | upyt/read_proxy.py:49-54 | a character after which the buffer cannot become `find` sends the buffer and the character on and empties the buffer |
| ReadProxy.ReplaceSelfStep | upyt/read_proxy.py:43-58 | one step of replacing `find` by itself only moves characters from the buffer to the output |
| ReadProxy.ReplaceSelfDelays | upyt/read_proxy.py:34-58 | replacing `find` by itself only delays: the output followed by the buffer is the input's text, with every `None` kept |
| ReadProxy.DelaySnoc | upyt/read_proxy.py:39 | two delaying stretches compose into one |
| ReadProxy.CharsPauseFree | upyt/read_proxy.py:123 | a string's stream holds no `None` |
| ReadProxy.CharsAt | upyt/read_proxy.py:122-123 | token `i` of a string's stream is its character `i`, so none is `None` |
| ReadProxy.MatchRunSnoc | upyt/read_proxy.py:79-94 | running the matcher over one more token is one more step, counting one call per completed match |
| ReadProxy.MatchIsSelfReplace | upyt/read_proxy.py:83-94 | the matcher forwards exactly what `replace(find, find)` would, and keeps the same buffer |
| ReadProxy.MatchDelays | upyt/read_proxy.py:89-94 | `match` emits exactly the input's characters and `None`s, in order, delayed only by what it buffers |
| ReadProxy.Matcher | upyt/read_proxy.py:74-94 | the callback runs once per completed match, before the match is emitted; when it raises, the input was taken exactly through the end of that match and the match never came out |
| ReadProxy.Chain | upyt/read_proxy.py:112-114 | composing the filters keeps one state per filter |
| ReadProxy.FeedAllSnoc | upyt/read_proxy.py:112-114 | feeding one more token through a filter is one more step, unless its callback already raised |
| ReadProxy.FeedAllAppend | upyt/read_proxy.py:112-114 | feeding a stream through a filter in two parts is feeding it whole |
| ReadProxy.ChainNothing | upyt/read_proxy.py:112-114 | nothing in, nothing out, and no callback raised |
| ReadProxy.StagePause | upyt/read_proxy.py:40-41 | a `None` passes through either filter unchanged and leaves its state alone |
| ReadProxy.FeedAllPause | upyt/read_proxy.py:80-81 | the same for a filter fed a single `None` |
| ReadProxy.ChainPause | upyt/read_proxy.py:112-114 | a `None` passes through the whole chain unchanged |
| ReadProxy.ChainEmpty | upyt/read_proxy.py:112 | with no filters, the proxy's stream is the readable's stream |
| ReadProxy.ChainAppend | upyt/read_proxy.py:112-114 | running the chain over a stream in two parts is running it over the whole; once a callback raised in the first part, the second adds no output |
| ReadProxy.OutcomePull | upyt/read_proxy.py:116-123 | pulling the next character off the readable and through the chain changes nothing the proxy will yield; when a callback raises, what the chain yielded before the raise is all that is left |
| ReadProxy.OutcomePop | upyt/read_proxy.py:125-133 | taking a waiting token takes it off the front of what is yielded |
| ReadProxy.ReadProxy.constructor | upyt/read_proxy.py:100-114 | the proxy yields the readable's stream through the filters in list order, the first filter seeing the raw characters |
| ReadProxy.ReadProxy.Pull | upyt/read_proxy.py:116-123 | one `read(1)` from the readable through the chain; what the chain yields waits to be read, also when a callback raised, and the proxy's future output is unchanged |
| ReadProxy.ReadProxy.Next | upyt/read_proxy.py:128 | the next waiting token is taken off the front of the proxy's future output |
| ReadProxy.ReadProxy.NextToken | upyt/read_proxy.py:116-123 | `next()` on the generator chain yields the front of the future output, `None` once the readable is exhausted, and raises exactly when the raise is the next thing left |
| ReadProxy.ReadProxy.Read | upyt/read_proxy.py:125-133 | `read(length)` returns the characters before the next `None`, at most `length` of them, and removes them (and that `None`) from the future output; having returned exactly `length` characters it removes those and nothing more, so a `None` right after them is left for the next read; it stops short only at a `None` or the end; it raises exactly when a raise comes before any `None` and within `length` characters, and the characters gathered in that read are lost |
| UpyFs.TracebackToOsErrorCases | upyt/upy_fs.py:34-41 | an OSError is raised exactly when the traceback is non-empty and its last line is `OSError` or starts with `OSError: `, with the rest of that line as its message |
| UpyFs.OsErrorLine | upyt/upy_fs.py:39-40 | the partition of a line at `": "` has head `OSError` exactly for such a line, and its tail is the message |
| UpyFs.NoColonAt | upyt/upy_fs.py:39 | `": "` does not occur where a line has no colon |
| UpyFs.OsErrorHead | upyt/upy_fs.py:39-40 | a line whose partition head is `OSError` is `OSError` alone or starts with `OSError: ` |
| UpyFs.SumCountsAppend | upyt/upy_fs.py:233 | byte counts add up over concatenated command lists |
| UpyFs.EvalRenderedWrite | upyt/upy_fs.py:59-67 | both spellings of a write snippet evaluate on the device to the bytes they carry |
| UpyFs.WriteBlockShortest | upyt/upy_fs.py:59-67 | the snippet carries the block; the hex form is used exactly when the literal form is not shorter (ties go to hex); the snippet has the length of the form chosen |
| UpyFs.WriteCommandsBlocks | upyt/upy_fs.py:55-67 | nothing for empty data, otherwise blocks of 1 to `block_size` bytes, each in its cheaper form |
| UpyFs.WriteCommandsFull | upyt/upy_fs.py:55-57 | every block but the last holds a full `block_size` bytes |
| UpyFs.WriteCommandsData | upyt/upy_fs.py:55-67 | the blocks concatenate back to the data, and their counts sum to its length |
| UpyFs.DataToWrites | upyt/upy_fs.py:43-67 | the loop yields exactly the block snippets of `WriteCommands` |
| UpyFs.CombineSmOperations | upyt/upy_fs.py:70-158 | the loop yields the combined operations; the sanity checks `cur_j2 == j1` hold for every chained opcode list |
| UpyFs.RebuildSnoc | upyt/upy_fs.py:121 | one more operation appends its segment to the rebuilt bytes |
| UpyFs.FlushRebuild | upyt/upy_fs.py:157-158 | flushing the current operation leaves operations that spell the new content so far, each in bounds |
| UpyFs.StartKeeps | upyt/upy_fs.py:120-147 | yielding the current operation and starting the next keeps the operations spelling the new content so far |
| UpyFs.PrefixOfSum | upyt/upy_fs.py:117 | a prefix followed by `after[k..j]` that makes `after[..j]` is `after[..k]` |
| UpyFs.ExtendKeeps | upyt/upy_fs.py:115-137 | extending the current insertion, by an insert or an absorbed short equal, keeps the operations spelling the new content so far |
| UpyFs.CombineStepKeeps | upyt/upy_fs.py:109-152 | each opcode keeps the operations spelling `after` up to its `j2`: replace acts as insert, delete changes nothing |
| UpyFs.CombinePrefix | upyt/upy_fs.py:109-152 | after any number of valid opcodes the loop state spells `after` up to where their j-ranges end |
| UpyFs.CombinedRebuildsAfter | upyt/upy_fs.py:70-158 | for valid opcodes the combined operations (`after[j1:j2]` for inserts, `before[i1:i2]` for equals) concatenate to `after` and lie in bounds |
| UpyFs.CombinedShape | upyt/upy_fs.py:109-158 | the output never holds two insertions in a row, and every equal yielded after an insertion (or first) is longer than `equal_overhead`, plus `seek_overhead` when it does not start at the read offset |
| UpyFs.CombinedLeadingInsert | upyt/upy_fs.py:94-137 | a first opcode that is an insert, a replace, or an equal too short to pay its overhead makes the output start with an insertion from offset 0, the fake insertion the loop starts with |
| UpyFs.CombinedReplaceAsInsert | upyt/upy_fs.py:110-113 | a replace opcode gives the same output as an insert with the same ranges |
| UpyFs.CombinedDeleteIgnored | upyt/upy_fs.py:148-152 | dropping a delete opcode gives the same output |
| UpyFs.CombineAllAppend | upyt/upy_fs.py:109-152 | two opcode lists that leave the same loop state leave the same state after the same further opcodes |
| UpyFs.ReadAt | upyt/upy_fs.py:233 | `file.read(n)` returns at most `n` bytes |
| UpyFs.ReplaySnoc | upyt/upy_fs.py:219-234 | replaying one more snippet runs it on the state the earlier ones left |
| UpyFs.ScriptFitsSnoc | upyt/upy_fs.py:219-234 | a script stays well formed when a well-formed snippet is added |
| UpyFs.SeekStep | upyt/upy_fs.py:228-230 | a seek is only added when the offset differs, and moves the offset without writing or reading |
| UpyFs.CopyStep | upyt/upy_fs.py:231-234 | a `w(r(n))` with 1 <= n <= `block_size` inside the old file copies and hashes the next `n` old bytes |
| UpyFs.WriteStep | upyt/upy_fs.py:223 | a write block appends its data and leaves offset and reads alone |
| UpyFs.WritesStep | upyt/upy_fs.py:223 | a run of write blocks appends their data and leaves offset and reads alone |
| UpyFs.EqualCommands | upyt/upy_fs.py:228-234 | the snippets of one equal operation copy `old[i1:i2]` to the output, read exactly those bytes, and leave the offset at `i2` |
| UpyFs.DataToUpdateCommands | upyt/upy_fs.py:161-238 | replaying the script on the old content yields the new content; counts sum to its length; reads are 1 to `block_size` bytes inside the old file; seeks only when the offset differs; the hasher sees each reused old slice once, in order, and it is what the reads return |
| UpyFs.PrefixSnoc | upyt/upy_fs.py:219-226 | one more operation extends the rebuilt bytes and the hashed slices |
| UpyFs.CopyReadsState | upyt/upy_fs.py:231-234 | the reads of an equal range copy exactly `old[start:i2]` to the output and to the bytes read, leave the offset at `i2`, and fit the old file |
| UpyFs.EqualScriptState | upyt/upy_fs.py:228-234 | the snippets of one equal operation (a seek only when the offset is elsewhere, then the reads) copy `old[i1:i2]` to the output and the bytes read, and leave the offset at `i2` |
| UpyFs.UpdateScriptState | upyt/upy_fs.py:219-234 | the script of in-bounds combined operations fits the old file, rebuilds their segments on it, and reads exactly their equal slices in order |
| UpyFs.UpdateScriptSnoc | upyt/upy_fs.py:219-234 | one more combined operation appends its writes, or its seek and reads, to the script |
| UpyFs.PatchOwnFile | upyt/upy_fs.py:627-712 | with the default block size, the patch run on the file it was made from builds the new content, passes the safe check and fits that file |
| UpyFs.PatchChecked | upyt/upy_fs.py:669-709 | whatever the device file holds, a patch that passes the safe check builds the new content |
| UpyFs.SafeCheckIgnoresUnread | upyt/upy_fs.py:669-709 | the check compares only the bytes the patch reads: replacing `A` by `B` reads nothing, so a device file holding `Z` passes and ends up holding `B` |
| UpyFs.ReadsNoLonger | upyt/upy_fs.py:231-234 | on any other old file, the same script makes as many reads and never reads more bytes |
| UpyFs.SafeUpdateSound | upyt/upy_fs.py:669-709 | when the device's read bytes hash like the host's reused slices (hash taken as collision-free), the rebuilt file is the new content whatever else differs in the old file |
| UpyFs.SameReadsSameOutput | upyt/upy_fs.py:669-709 | the same bytes read give the same rebuilt file |
| UpyFs.EmitAll | upyt/upy_fs.py:260-269 | one `("\n".join(batch), bytes)` pair per group, in order |
| UpyFs.EmitAllSnoc | upyt/upy_fs.py:260 | one more group adds one more pair at the end |
| UpyFs.BatchCommands | upyt/upy_fs.py:240-269 | the loop yields exactly one pair per group of the greedy grouping |
| UpyFs.BatchAllCover | upyt/upy_fs.py:251-265 | the flushed groups followed by the current batch are the commands, in order |
| UpyFs.CoverStep | upyt/upy_fs.py:256-265 | one command keeps the groups and the current batch covering the commands so far |
| UpyFs.TotalZero | upyt/upy_fs.py:268 | a group touching no bytes holds only commands touching no bytes |
| UpyFs.BatchesInOrder | upyt/upy_fs.py:251-269 | the batches hold a prefix of the commands, in order; only a trailing run touching no bytes is not emitted |
| UpyFs.BatchAllShape | upyt/upy_fs.py:251-265 | only the first flushed group can be empty, and every later group and the current batch are non-empty |
| UpyFs.LeadingEmptyBatch | upyt/upy_fs.py:256-262 | only the first batch can be empty, and it is (the `("", 0)` batch) exactly when the first command does not fit an empty batch |
| UpyFs.BatchAllCountLimit | upyt/upy_fs.py:256-259 | no group holds more than `commands_per_batch` commands when that is at least 1 |
| UpyFs.BatchAllBytesLimit | upyt/upy_fs.py:256-259 | when no command touches more than `bytes_per_batch` bytes, no group does either |
| UpyFs.BatchLimits | upyt/upy_fs.py:240-269 | every batch yielded has at most `commands_per_batch` commands (when that is at least 1), and at most `bytes_per_batch` bytes when each command does |
| UpyFs.DependenciesShallower | upyt/upy_fs.py:283-429 | every dependency is itself a definition, with a shorter chain below it, so loading terminates |
| UpyFs.NeedsAllStep | upyt/upy_fs.py:445-446 | needing one more dependency adds what that dependency needs |
| UpyFs.SendKeepsOrder | upyt/upy_fs.py:449-452 | sending a marked, unsent definition whose dependencies were sent keeps every definition sent once, after its dependencies |
| UpyFs.FilesystemApi.constructor | upyt/upy_fs.py:431-433 | a new handle has nothing marked defined and nothing sent |
| UpyFs.FilesystemApi.NeedsLoaded | upyt/upy_fs.py:435-452 | everything a sent definition needs has been sent |
| UpyFs.FilesystemApi.NeedsAllLoaded | upyt/upy_fs.py:445-446 | once a definition's dependencies are sent, everything they need is sent |
| UpyFs.FilesystemApi.EnsureDependencies | upyt/upy_fs.py:445-446 | the loop over a definition's dependencies marks and sends everything they need, only appends to the sent list, and keeps every definition after its dependencies |
| UpyFs.FilesystemApi.EnsureDefined | upyt/upy_fs.py:435-452 | a name already marked causes no action; otherwise it is marked before its dependencies are resolved; afterwards everything it needs is marked and sent, each at most once, dependencies first |
| Sync.FormattedChars | upyt/sync.py:70 | the zero-padded version is ASCII and holds no space |
| Sync.IdTextLayout | upyt/sync.py:70 | the id text is the padded version, one space, then the id |
| Sync.IdTextAscii | upyt/sync.py:70 | the id text is ASCII exactly when the id is |
| Sync.EncodeUpytId | upyt/sync.py:68-70 | encoding succeeds exactly for an ASCII id, and gives the version zero-padded to at least 3 digits, a space and the id |
| Sync.EncodedIdText | upyt/sync.py:68-70 | an ASCII id's file decodes as ASCII to the id text |
| Sync.DecodeUpytId | upyt/sync.py:57-65 | a decoded id is ASCII and holds no space |
| Sync.UpytIdRoundTrip | upyt/sync.py:57-70 | `decode_upyt_id(encode_upyt_id(v, id)) == (v, id)` for every version and every ASCII id without spaces |
| Sync.UpytIdWithSpace | upyt/sync.py:64 | an id holding a space does not round-trip: its file is rejected with `ValueError` |
| Sync.DecodedLayout | upyt/sync.py:64-65 | a file that decodes is exactly a space-free version text that `int()` reads as the version, one space, and the id |
| Sync.NewDeviceId | upyt/sync.py:89 | a fresh device id is 12 upper-case hex digits |
| Sync.Device.constructor | upyt/sync.py:146 | the device starts with the given entries and an empty log |
| Sync.Device.ReadFile | upyt/sync.py:84-86 | reading gives a file's bytes, and `OSError` for a missing path or a directory |
| Sync.Device.GetType | upyt/sync.py:253-275 | `get_type` says absent, file or directory, as the entry is |
| Sync.Device.WriteFile | upyt/sync.py:198-200 | the write succeeds exactly where `open` can create the file (not the root, no directory there, the directory holding it present); the file then holds the bytes and nothing else changes; the call is logged either way |
| Sync.Device.Mkdir | upyt/upy_fs.py:288-304 | the trailing slashes are stripped; with `parents` each prefix `/a`, `/a/b`, ... of the path is made first, its `OSError` ignored; then the path itself; the entries become exactly those `os.mkdir` calls applied in turn (`MakeDirs`); the call raises only without `exist_ok` where the path could not be made |
| Sync.MakeDirs | upyt/upy_fs.py:288-304 | a run of `os.mkdir` calls with their `OSError` ignored keeps every entry, adds directories only, each at one of the targets, and keeps a filesystem |
| Sync.MakeDirsSnoc | upyt/upy_fs.py:288-304 | one more target is one more `os.mkdir`, which succeeds exactly where the path can be made |
| Sync.StrippedShape | upyt/upy_fs.py:461 | a path not ending in a slash is not the root, `rstrip("/")` leaves it alone, and `mkdir` without parents tries it alone |
| Sync.Device.RemoveRecursive | upyt/upy_fs.py:469-491 | the entry and everything beneath it go, the rest stays, the result is still a filesystem, and the removal is logged |
| Sync.RemoveFile | upyt/upy_fs.py:469-491 | removing a file removes that entry alone, since nothing lies beneath a file |
| Sync.NothingBeneathFile | upyt/upy_fs.py:469-491 | in a filesystem no entry lies beneath a file |
| Sync.Device.UpdateFile | upyt/upy_fs.py:627-712 | a missing file is an error that changes nothing; otherwise the patch made from the old to the new content runs on the device file: with `safe`, when the bytes it reads differ from the old slices it reuses, the check raises `UpdateError` and the file is left alone; in every other case the file holds the bytes the patch builds, which are the new content whenever the file held the old content or the safe check passed |
| Sync.FreshIdFile | upyt/sync.py:88-91 | the id file written for a new device decodes to version 0 and the fresh id |
| Sync.CreateUpytId | upyt/sync.py:87-92 | the fallback makes the device directory with its parents (`OSError` ignored), then writes a fresh id file with version 0; it answers `(0, id)` exactly when that write succeeds, and the write's `OSError` otherwise; other entries are kept and only directories are added |
| Sync.IdPathDir | upyt/sync.py:84 | the id file lies directly in the device directory and is not the root |
| Sync.FileBlocksIdFile | upyt/sync.py:90-91 | with a file at the device directory there is no id file, and none can be written after the `mkdir` |
| Sync.MadeThenWritten | upyt/sync.py:90-91 | writing the id file after making directories keeps every other entry and adds directories only |
| Sync.GetUpytId | upyt/sync.py:73-92 | the pair in the id file when it reads and decodes, with nothing changed; otherwise version 0 and a fresh id, logged as the `mkdir` then the id-file write, and `None` (the `OSError`) exactly when that write fails, as it does where a file stands at the device directory; the id is ASCII without spaces; no other entry changes and only directories are added; a returned id is what the device's id file now decodes to |
| Sync.LStrip | upyt/sync.py:116 | `lstrip(c)` removes exactly the leading run of `c` |
| Sync.NormaliseExclusion | upyt/sync.py:113-119 | a pattern starting with `/` loses all its leading slashes; any other gets the prefix `**/` |
| Sync.KeptMembers | upyt/sync.py:127-128 | a path is kept exactly when it is listed and not excluded |
| Sync.DirsAmongMembers | upyt/sync.py:129-130 | a path is queued exactly when it is listed and is a directory |
| Sync.DirsAmongAppend | upyt/sync.py:129-130 | the directories of a concatenation are the concatenated directories |
| Sync.KeptSnoc | upyt/sync.py:126-132 | one more listed path is kept unless excluded |
| Sync.KeptDirsSnoc | upyt/sync.py:126-132 | the kept directories grow by one more path exactly when it is a kept directory |
| Sync.KeptPrefix | upyt/sync.py:126-132 | kept paths and kept directories of a listing prefix one longer |
| Sync.DistinctFilter | upyt/sync.py:126-132 | filtering a listing without repeats leaves no repeats |
| Sync.FreshChildren | upyt/sync.py:124-132 | the children of an unvisited directory were not yielded before |
| Sync.VisitDirectory | upyt/sync.py:126-132 | one visit yields the directory's children that are not excluded, in listing order, and queues those that are directories |
| Sync.HostListing | upyt/sync.py:126 | each directory's listing holds each child once, and every child is an entry of the tree |
| Sync.TraversalQueue | upyt/sync.py:123-130 | visiting the head of the queue keeps visited-then-queued equal to the root and the yielded directories, in yield order |
| Sync.TraversalYields | upyt/sync.py:123-132 | the yielded paths are the kept children of the visited directories, in visiting order |
| Sync.TraversalFresh | upyt/sync.py:123-132 | a visit yields only entries not yielded before |
| Sync.TraversalParents | upyt/sync.py:123-132 | every yielded path is an entry whose parent has been visited |
| Sync.TraversalStep | upyt/sync.py:123-132 | visiting the head of the queue keeps the traversal state and yields only new paths |
| Sync.EnumerateLocalFiles | upyt/sync.py:95-132 | the directories are visited first in, first out (the root, then each yielded directory in yield order); each visit yields that directory's entries that are not excluded; no path is yielded twice |
| Sync.UnyieldedShrinks | upyt/sync.py:123 | yielding new entries shrinks the set still to be yielded, so the loop ends |
| Sync.YieldsMembers | upyt/sync.py:126-132 | a path is yielded by some visits exactly when it is a kept child of one of them |
| Sync.VisitedChild | upyt/sync.py:126-132 | a yielded path is a kept entry and a child of a visited directory |
| Sync.YieldedChild | upyt/sync.py:122-132 | a yielded path is a kept entry whose parent is the root or a yielded directory |
| Sync.EnumerationSound | upyt/sync.py:122-132 | no yielded path is excluded, and nor is any of its ancestors; each is a yielded directory |
| Sync.AncestorsOfChild | upyt/sync.py:122-132 | the ancestors of a child are its parent and the parent's ancestors |
| Sync.EnumerationComplete | upyt/sync.py:122-132 | every entry none of whose ancestors (itself included) is excluded is yielded |
| Sync.NotYetVisited | upyt/sync.py:124 | the head of the queue has not been visited yet |
| Sync.DistinctAppend | upyt/sync.py:132 | appending paths not yielded before keeps the yielded paths distinct |
| SyncPlan.EnumeratedHostFiles | upyt/sync.py:203-206 | every host path is an entry of the host tree whose ancestors are host paths and directories |
| SyncPlan.JoinSeveral | upyt/sync.py:250 | joining two or more parts puts a separator in |
| SyncPlan.IdFileApart | upyt/sync.py:250-271 | no host path other than the id file's own reaches the device's id file |
| SyncPlan.DevicePathShape | upyt/sync.py:250 | the device path of a plain host path does not end in a slash, is longer than the device directory, and lies directly in the device path of its parent (the device directory for a top-level path) |
| SyncPlan.DevicePathInjective | upyt/sync.py:250 | distinct plain host paths have distinct device paths |
| SyncPlan.DevicePathWithin | upyt/sync.py:250 | a device path within another's belongs to a host path extending the other |
| PyText.SplitJoin | upyt/sync.py:250 | parts without the separator, joined and split again, come back unchanged |
| PyText.SplitAround | upyt/sync.py:250 | splitting around one separator splits each side on its own |
| Sync.DirNameAfter | upyt/sync.py:250 | the directory holding `a + "/" + x`, for `x` without slashes, is `a` |
| SyncPlan.ToUpdateCases | upyt/sync.py:212-233 | `to_update` is every host path when the cache is not used; otherwise exactly the host paths missing from the cache or whose cache entry differs from the host (kind or bytes) |
| SyncPlan.RemoveStaleKeeps | upyt/sync.py:238-245 | removing a stale entry keeps every host path and the id file |
| SyncPlan.FlushCache | upyt/sync.py:238-245 | after the flush the cache holds exactly the entries that are host paths or the id file, unchanged |
| SyncPlan.UpdatesUseAppend | upyt/sync.py:284 | the safety setting of updates is kept over concatenated logs |
| SyncPlan.NoUpdatesAppend | upyt/sync.py:248-263 | logs with no file update concatenate to one with none |
| SyncPlan.PreservedStep | upyt/sync.py:248-299 | entries outside the paths handled so far stay unchanged when one more path is handled |
| SyncPlan.MakeDeviceDirectory | upyt/sync.py:250-257 | a file standing at the device path is removed, then `mkdir(exist_ok=True)` without parents runs; nothing else changes and no file is updated; for a path not ending in a slash the directory is there afterwards exactly when the directory holding it was |
| SyncPlan.ClearFile | upyt/sync.py:252-254 | a file at the path is removed and nothing else is; a directory or nothing there is left alone |
| SyncPlan.MkdirNoParents | upyt/upy_fs.py:288-304 | `mkdir` without parents makes the path stripped of trailing slashes where it can be made, and nothing else |
| SyncPlan.MadeDirectory | upyt/sync.py:252-257 | removing a file at the path and then making the directory keeps every other entry; for a path not ending in a slash the directory is there exactly when the directory holding it is |
| SyncPlan.SendFile | upyt/sync.py:271-294 | a directory standing at the device path is removed; the file is patched from the cached copy with the given safety, or written whole when there is none or the patch fails; `ok` is false when that write raises, which leaves the device as it was; for a path not ending in a slash the write succeeds exactly when the directory holding it exists; it then holds the host bytes unless an unchecked patch ran on a file that differed from the cache, where it holds the bytes that patch builds; nothing outside the path changes |
| SyncPlan.ClearDirectory | upyt/sync.py:274-276 | a directory at the path is removed with everything beneath it, and the directory that held it is still there; anything else at the path is left alone, and nothing outside the path changes |
| SyncPlan.SendOutcome | upyt/sync.py:271-294 | after a directory at the device path is cleared, the put succeeds there; otherwise it succeeds where the file can be written, and for a path not ending in a slash exactly when its parent directory exists; the entry left is the one `SentEntry` gives from the device before clearing; a failed put leaves the device as it was |
| SyncPlan.PutFile | upyt/sync.py:278-294 | `update_file` from the cached bytes, then `write_file` when nothing is cached or the update raises; succeeds exactly where `open` can create the file, leaving the patched or written bytes there and changing nothing else; a failed write changes nothing |
| SyncPlan.WithDirsInsert | upyt/sync.py:261-263 | one more host directory in the pass adds its cache directory |
| SyncPlan.DirsPassStep | upyt/sync.py:248-263 | the directories pass keeps its invariant over one more path |
| SyncPlan.ShortestExists | upyt/sync.py:248 | a non-empty set of paths has a shortest one, so the pass always has a next path |
| SyncPlan.DirsParentPresent | upyt/sync.py:255-257 | when a host directory's turn comes, the directory holding its device path exists: its parent was made earlier or was there already |
| SyncPlan.UpdateDirectories | upyt/sync.py:248-263 | each host directory to update is made on the device (shortest path first, so parents before children) and in the cache; no file is updated; device entries outside the updated paths stay, and for plain host paths nothing but the device paths of those directories changes; when the device directory exists and the host directories not updated are there already, every host directory is on the device afterwards |
| SyncPlan.WithFileKeeps | upyt/sync.py:297-299 | writing a host file into the cache removes no other host path or the id file |
| SyncPlan.FilesCachedStep | upyt/sync.py:297-299 | writing one more host file keeps the cache holding host entries for the files done and the rest unchanged |
| SyncPlan.UpdateFile | upyt/sync.py:266-299 | one path of the files pass: a host file is sent and, unless the write raised, written into the cache, leaving its device path as `SentEntry` says; a directory is passed over; nothing outside the path changes |
| SyncPlan.FilesPassStep | upyt/sync.py:266-299 | the files pass keeps its invariant over one more path |
| SyncPlan.FilesPassBefore | upyt/sync.py:271-294 | the file about to be sent finds its device path, the directory holding it and its cached bytes as they were before the pass |
| SyncPlan.FilesSentKept | upyt/sync.py:266-299 | sending one more host file keeps the files sent before, since no host file lies above another host path |
| SyncPlan.HostPathUntouched | upyt/sync.py:271-294 | the device path of a host path lies within that of no other host file |
| SyncPlan.UpdateFiles | upyt/sync.py:266-299 | each host file to update is sent with the given safety and written into the cache until a write raises, which ends the pass; device entries outside the files handled stay; for plain host paths each file handled is as `SentEntry` says, and when the directory holding every file exists no write raises |
| SyncPlan.CacheAfterPasses | upyt/sync.py:238-299 | after the flush and both passes the cache holds exactly the host paths with their host entries, apart from the id file |
| SyncPlan.ApplyPlan | upyt/sync.py:238-299 | the flush and both passes: every update uses `safe`; device entries outside the updated paths stay; the cache's id file is kept; when no write raised the cache equals the host (id file aside); for plain host paths, when the device directory exists and the host paths not updated are on the device already, no write raises and every host directory is on the device and every host file as `SentEntry` says |
| SyncPlan.PlanFilesReady | upyt/sync.py:248-299 | once the directories pass has put every host directory on the device, the directory holding each host file's device path exists |
| SyncPlan.PlanSynced | upyt/sync.py:248-299 | after both passes each host path is on the device: updated ones as the passes left them, the others as they were |
| SyncPlan.PreservedCompose | upyt/sync.py:248-299 | the two passes each preserve the outside entries, so together they do |
| SyncPlan.BumpedId | upyt/sync.py:197-200 | the bumped id file decodes to the next version of the same device |
| SyncPlan.UpToDateCache | upyt/sync.py:216-233 | a cache agreeing with the host on every host path leaves nothing to update |
| SyncPlan.CacheVersionOf | upyt/sync.py:189-192 | the cache version is the decoded version of its id file, or none when that does not decode |
| SyncPlan.SecondRunUpdatesNothing | upyt/sync.py:189-303 | a second run against the unchanged host, reading the id the first run left, finds the cache up to date and updates nothing |
| SyncPlan.NoUpdatesUse | upyt/sync.py:284 | a log without updates meets any safety setting |
| SyncPlan.IdSetupOf | upyt/sync.py:84-92 | `get_upyt_id` logs nothing, or the directory creation and a fresh id file |
| SyncPlan.SyncLog | upyt/sync.py:182-200 | the bumped id file is written right after what `get_upyt_id` did, before any other action, and later updates all use `safe` |
| SyncPlan.SyncFrame | upyt/sync.py:198-299 | over a run, a device entry other than the id file changes only beneath an updated path; the id file keeps the bumped version unless a host path is the id file |
| SyncPlan.FinishCacheAfterPasses | upyt/sync.py:238-303 | after the passes, the final write of the id file into the cache raises exactly where a pass raised or a directory stands at the id file (`IdBlocked`); otherwise the cache is the host copy with the bumped id; when it raises, the other caches and the recorded version are kept |
| SyncPlan.SameBesideId | upyt/sync.py:303 | writing the id file into two caches that agree elsewhere makes them equal |
| SyncPlan.SyncWithId | upyt/sync.py:185-303 | out of date exactly when the cache's version is not the device's; the bumped id is written first; `to_update` as selected; updates are safe exactly when out of date or forced; without a raised write the cache ends holding the host paths and the bumped id, and with one the cache keeps its old version; a directory at the cache's id file makes the run raise; for plain host paths whose unchanged part is on the device already, every host path ends up on the device, and the run raises exactly when the cache's id file is blocked |
| SyncPlan.WriteBumpedId | upyt/sync.py:197-200 | the bumped id file replaces the one `get_upyt_id` found or wrote, so the write succeeds and nothing else changes |
| SyncPlan.RunPlan | upyt/sync.py:238-303 | the passes and the final cache write: the bumped id goes into the cache only when no write raised; a directory at the cache's id file (a host directory of that name, or one the cache kept) makes that last write raise; the device's id file keeps the bumped version; only entries beneath updated paths change; for plain host paths whose unchanged part is on the device, every host path is synced, and the run raises exactly when the cache's id file is blocked |
| SyncPlan.PlanReadyAfterSetup | upyt/sync.py:182-200 | `get_upyt_id` and the bump leave the device directory in place and the host paths that were on the device still there |
| SyncPlan.SyncedAfterSetup | upyt/sync.py:182-200 | a host path synced against the device after `get_upyt_id` is synced against the device before it |
| SyncPlan.SyncToDevice | upyt/sync.py:145-303 | `None` is the `OSError` of `get_upyt_id`, after which only its `mkdir` has happened and the caches are unchanged; it happens whenever a file stands at the device directory; otherwise the version is bumped by one and written before any other action; out of date and safety as the run decides; only entries beneath updated paths change besides the id file; without a raised write the cache and the device's id file end with the bumped version, and a directory at the cache's id file makes the run raise; for plain host paths whose unchanged part is on the device already, only that raises, every host directory is on the device and every host file holds the host bytes unless an unchecked patch ran on a device file that differed from the cache, where it holds the bytes that patch builds |
| Cp.ForwardSlashes | upyt/cli/cp.py:30 | every backslash becomes `/` and nothing else changes |
| PyText.RStripSlashes | upyt/cli/cp.py:43 | `rstrip("/")` removes exactly the trailing slashes |
| Cp.RPartitionSlash | upyt/cli/cp.py:45 | after `rpartition("/")` the name holds no slash, and the head is empty or ends in the slash |
| Cp.RPartitionJoin | upyt/cli/cp.py:45-47 | the parts after a prefix join back to the prefixed text |
| Cp.SplitSourceParts | upyt/cli/cp.py:19-47 | the two parts together are the device prefix plus the normalised source; the name holds no slash; no backslash survives |
| Cp.SplitSourceFirst | upyt/cli/cp.py:45-47 | the first part is empty, `:`, or ends in a slash |
| Cp.NormalisedPlain | upyt/cli/cp.py:30 | no backslash survives normalisation |
| Cp.SplitSourcePrefix | upyt/cli/cp.py:32-35 | a leading `:` stays on the first part, and only a source that had one gets one |
| Cp.NormalisedShape | upyt/cli/cp.py:37-43 | an empty path becomes `.`, `/` stays as it is, and any other path loses its trailing slashes and only those |
| Cp.NameLeTotal | upyt/cli/cp.py:116 | Python's string order is total |
| Cp.NameLeTrans | upyt/cli/cp.py:116 | Python's string order is transitive |
| Cp.NamePrefixFirst | upyt/cli/cp.py:114-116 | a name sorts strictly before every longer name it begins |
| Cp.Insert | upyt/cli/cp.py:116 | inserting into a sorted list keeps it sorted and adds exactly the one entry |
| Cp.SortEntries | upyt/cli/cp.py:116-132 | `sorted(files)` is ordered by name and a permutation of the entries |
| Cp.ParentsFirst | upyt/cli/cp.py:114-115 | in sorted order a directory comes before every entry inside it |
| Cp.HybridFs.constructor | upyt/cli/hybrid_filesystem_api.py:16-17 | the filesystem starts with the given nodes and no writes |
| Cp.HybridFs.WriteFile | upyt/cli/hybrid_filesystem_api.py:67-71 | `write_file` logs the write |
| Cp.HybridFs.Mkdir | upyt/cli/hybrid_filesystem_api.py:31-35 | `mkdir` logs the directory |
| Cp.Children | upyt/cli/cp.py:77-78 | one `(base_dir, name/child)` pair per listed child, in order |
| Cp.ChildrenWeight | upyt/cli/cp.py:76-78 | pushing a listing adds its weight to the stack's, so the stack's weight drops with each pop |
| Cp.PushListing | upyt/cli/cp.py:77-78 | the loop pushes each child of the listing, in order |
| Cp.ReachedStep | upyt/cli/cp.py:71-84 | an entry produced or waiting is still one after the next pop and yield |
| Cp.ChildrenPending | upyt/cli/cp.py:77-78 | the pushed children of a directory wait on the stack |
| Cp.SourcesStep | upyt/cli/cp.py:71-84 | a step loses no source |
| Cp.KidsStep | upyt/cli/cp.py:71-84 | a step loses no child of a directory produced earlier |
| Cp.ChildrenStep | upyt/cli/cp.py:71-84 | a step loses no child, given a directory produced has its children pushed |
| Cp.ReadFileStep | upyt/cli/cp.py:82-84 | reading a file from the top of the stack keeps the loop's invariants |
| Cp.StackedPush | upyt/cli/cp.py:76-78 | replacing the top by its children keeps every stack entry under its source |
| Cp.StackedPrefix | upyt/cli/cp.py:71 | popping keeps every stack entry under its source |
| Cp.StackedChildren | upyt/cli/cp.py:78 | the children pushed for a directory under its source stay under that source |
| Cp.StackedAppend | upyt/cli/cp.py:78 | two well-formed stacks concatenate to a well-formed stack |
| Cp.UnderChild | upyt/cli/cp.py:78 | a child of a name under a source's last component is under it too |
| Cp.ReadDirectoryStep | upyt/cli/cp.py:74-79 | reading a directory recursively, yielding `(name, None)` and pushing its children, keeps the loop's invariants |
| Cp.SplitSources | upyt/cli/cp.py:67 | one split per source, in order |
| Cp.ReadStep | upyt/cli/cp.py:70-84 | one turn pops and yields an entry or raises, keeps the invariant, and lowers the stack's weight |
| Cp.ReadingStart | upyt/cli/cp.py:67-70 | the invariant holds with every split source on the stack |
| Cp.ReadingDone | upyt/cli/cp.py:70-84 | at the end, the invariant gives what `read_sources` promises |
| Cp.ReadSources | upyt/cli/cp.py:54-84 | each entry lies under its source's last component; files hold their full contents; directories appear only when recursive; without an error every source and every child of every directory is yielded; `RecursionNotAllowedError` names a source that is a directory without `recursive`; a not-found error names a reached path that is missing; the first entry is the last source, which is read when it exists; no error is raised when every source and listed name exists and no source is a directory unless recursive |
| Cp.ReadLoop | upyt/cli/cp.py:67-84 | the `while sources:` loop ends with the stack empty or an error, keeping the invariant |
| Cp.ReadingOutcome | upyt/cli/cp.py:70-84 | the first entry is the last source; a last source that exists (and is a file unless recursive) is read; readable sources and listings raise nothing |
| Cp.FirstReadYield | upyt/cli/cp.py:71-84 | yielding from the top of the stack keeps the first entry the last source |
| Cp.FirstReadRaise | upyt/cli/cp.py:71-84 | an error raised before any entry names the last source |
| Cp.ReachedPresent | upyt/cli/cp.py:71-84 | when every source and every listed name exists, every reached path exists |
| Cp.ReachedGrow | upyt/cli/cp.py:79 | a reached path stays reached when one more entry is yielded |
| Cp.StackReachedStep | upyt/cli/cp.py:71-79 | popping and pushing reached children keeps every stack entry reached |
| Cp.StackReachedPop | upyt/cli/cp.py:71-84 | popping and yielding keeps the rest of the stack reached |
| Cp.ChildrenReachedPaths | upyt/cli/cp.py:76-79 | the children pushed for a directory are listed children of it, so they are reached |
| Cp.StackedPop | upyt/cli/cp.py:71 | dropping the top keeps every stack entry under its source |
| Cp.DirectoryReading | upyt/cli/cp.py:74-79 | yielding a directory and pushing its listing keeps the loop invariant |
| Cp.FileReading | upyt/cli/cp.py:82-84 | yielding a file keeps the loop invariant |
| Cp.RaiseReading | upyt/cli/cp.py:74-84 | raising for the top of the stack, for the reason `read_sources` gives, keeps the loop invariant |
| Cp.DropFirstParts | upyt/cli/cp.py:133 | `partition("/")[2]` of `top/rest` is `rest`, and of `top` alone is empty |
| Cp.DropFirstPrefix | upyt/cli/cp.py:133 | under a common first component, dropping it keeps directories ahead of their contents |
| Cp.PrefixCancel | upyt/cli/cp.py:118-120 | a common prefix cancels in the prefix order |
| Cp.EveryEntryWritten | upyt/cli/cp.py:116-120 | every entry read is written |
| Cp.OnlyEntriesWritten | upyt/cli/cp.py:116-120 | only the entries read are written, each once |
| Cp.DirectoriesFirst | upyt/cli/cp.py:114-120 | a directory is made before anything written inside it |
| Cp.DirectoriesFirstDropped | upyt/cli/cp.py:132-137 | the same holds with the first path component dropped |
| Cp.WriteSingleFileToDestination | upyt/cli/cp.py:87-102 | the file goes into a directory destination under its own name, else to the destination itself |
| Cp.WriteMultipleFilesToExistingDirectory | upyt/cli/cp.py:105-120 | every entry, in sorted order, under the destination: directories made, files written |
| Cp.WriteSingleDirectoryToNonExistingDestination | upyt/cli/cp.py:122-137 | every entry, in sorted order, under the destination with its first component dropped |
| Cp.Cp | upyt/cli/cp.py:139-154 | a single non-directory source writes one file; a single directory source with a non-directory destination drops the first component; otherwise every entry goes into the destination; an error while reading writes nothing, except where a single file was written before; the errors name a source that is a directory without `recursive` or a reached path that is missing; with every source and listed name present, no source a directory unless recursive and a single file source not a directory, the copy succeeds |
| Cp.SingleSourceFirst | upyt/cli/cp.py:147-151 | with one source the first entry is that source, a file entry exactly when it is not a directory, and every entry lies under it |

## Left out

- `difflib.SequenceMatcher` is not part of this model. Its opcodes are an input to `UpyFs.DataToUpdateCommands`, under `UpyFs.ValidOpcodes`: the ranges tile both sequences, equal opcodes have equal slices, and deletions cover nothing of the new content.
- `sha256` is modelled as a collision-free function. The safe check of `update_file` compares the concatenation of the bytes read on the device with that of the reused old slices (`UpyFs.SafeUpdateSound`).
- The MicroPython snippet texts of `_DEFINITIONS` are device code. Only their dependency lists are modelled (`UpyFs.DEFINITIONS`). Executing a snippet is appending its name to a log.
- The serial-driven `FilesystemAPI` methods run over `raw_paste_exec` and are not modelled as I/O: `mkdir`, `ls`, `rename`, `read_file_raw`, `write_file_raw`, `remove_recursive`, `sync` and the wire side of `update_file`. Their effects on the device are the operations of `Sync.Device`. That includes `update_file`'s outcome, whose patch is `UpyFs.DataToUpdateCommands`. `read_file_raw`'s loop ending on a short block is not modelled.
- `read_file`, `write_file`, `get_type` and `file_len` are called by `sync.py` but are absent from `upy_fs.py`. They are abstract operations on the device's map (`Sync.Device`).
- `upyt/upy_terminal.py` (terminal settings, selectors, incremental UTF-8 decoding) is interactive I/O and not part of this model.
- `raw_mode` and `soft_reset_directly_into_repl` are not part of this model.
- Random values are parameters: the probe numbers of `interrupt_and_enter_repl` and the device id of `get_upyt_id`.
- Timeouts are a value the connection holds; a read that would wait past the timeout returns what the queue still holds. `time.sleep` and real time are not modelled.
- `pathlib` globbing is not modelled: the excluded paths are an input set. The host tree, its directory listings and the host-side caches are values.
- `SerialConnection` and pyserial are not part of this model. `Connection.Connection` simulates the transport.
- `Connection.Connection.Write`: every byte is accepted; a short write by the transport is not modelled.
- `upyt/cli/hybrid_filesystem_api.py` is only modelled as far as `cp` uses it: its `:`-prefix routing is not modelled, and a path is looked up in one map.
- The CLI modules (`upyt/cli/__init__.py`, `ls.py`, `rm.py`, `mkdir.py`, `cat.py`, `reset.py`, `interrupt.py`, `terminal.py`, `sync.py`) are argument parsing and printing, and are not part of this model.
- `UpyRepl.RawPasteExec` works on the code as bytes; `str.encode("utf-8")` of the input and `decode("utf-8")` of the outputs are not modelled.
- `UpyRepl.InterruptAndEnterRepl`: the device's bytes are one queued stream, with no timing. A timed-out read consumes all of it, so only the first attempt can succeed; a device that answers a later interrupt is not modelled.
- `Cp.ReadSources` reads eagerly, while `read_sources` is a lazy generator. `Cp.Cp` therefore models the single-file case by the first entry read, and the other cases, which consume every entry, by raising before any write.
- `Cp.Cp`: when a single source that is not a directory yields a directory entry first, `write_file` gets `None` and fails. This is modelled as `NotAFile`.
- `Common.ParseInt`: only ASCII digits and ASCII whitespace are accepted. Python's `int()` also accepts other Unicode decimal digits and Unicode whitespace, so a device spec such as `COM1:` followed by Arabic-Indic digits parses in Python and not in the model.
- `Cp.HybridFs`: paths are looked up as exact strings, while `pathlib` drops trailing slashes and merges doubled ones. `cp` calls `get_type` on the raw source and destination, and a destination ending in `/` produces `destination//name`. The model agrees with Python only on paths written without such slashes: `cp(["dir/"], "foo", recursive=True)` copies the directory in Python but fails with `NotAFile` in the model.
- `Cp.HybridFs.WriteFile` and `Cp.HybridFs.Mkdir` log the writes without applying them to the nodes, because `cp` never reads back what it wrote.
- `Cp.SortEntries` orders entries by name only. Python's `sorted` breaks ties between equal names by comparing the data, and that tie-break is not modelled. When the tie is between a directory (`None`) and a file (bytes), as with a directory `d1/x` and a file `d2/x` copied recursively into one destination, Python's comparison raises `TypeError` inside `sorted`, before anything is written; the model writes both entries instead.
- `UpyFs.DataToWrites`, `UpyFs.WriteCommands` and `UpyFs.DataToUpdateCommands` require `blockSize > 0`. With `block_size <= 0` and non-empty data, the `while data:` loop of `data_to_writes` (upyt/upy_fs.py:55-57) keeps a non-empty remainder forever, and so does the equal-copy loop (upyt/upy_fs.py:231-234) for a non-empty equal range, so those calls never return and there is no outcome to model.
- `SyncPlan.UpdateDirectories`: `sync_to_device` makes the directories in `sorted(to_update)` order; the model takes a shortest remaining path each time. Both orders make every parent before its children, so the entries reached are the same; only the order of the `mkdir` actions in the log differs.
- `SyncPlan.UpdateFiles`: the files pass visits `to_update` in an arbitrary order rather than `sorted` order. When a write raises, which files were sent before it therefore depends on that order; the contract states only that the files handled (`done`) were sent and that the rest of the device is unchanged.
- `SyncPlan.SyncToDevice`: the mirror property (every host path on the device afterwards) is proved for plain host paths (`SyncPlan.PlainTree`: non-empty components without slashes) and when no host path is the id file itself. Device paths are exact strings: a device directory ending in `/` or holding `//` is taken as written, and the model does not merge such slashes.
- An `OSError` that escapes `sync_to_device` is modelled as the `raised` result, with the device and cache state it leaves behind; the exception object is not modelled.
- `progress_callback` of `sync_to_device` is not modelled.
- The host cache directory is modelled as a map of trees keyed by device id. `cache_dir.mkdir` and `rglob` are not modelled.
- `Sync.Device.UpdateFile`: the opcodes come from `matcher`, the device's stand-in for `difflib.SequenceMatcher`, which is not part of this model; only their validity (`UpyFs.ValidOpcodes`) is assumed. The block size is the default 512 that `sync` uses.
