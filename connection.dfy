/**
 * `upyt/connection.py`: parsing a connection specification, and the
 * `Connection` interface the REPL code talks to.
 *
 * The interface is modelled by a simulated transport: a queue of the bytes
 * the device will send (of which a leading part has already arrived and is
 * buffered), a log of every byte written, and the timeout setting. A read
 * that would wait past the timeout returns what the queue still holds.
 */
module Connection {
  import opened Common
  import opened PyText

  // =====================================================================
  // Connection.from_specification

  /** The serial port and baud rate a specification selects. */
  datatype SerialSpec = SerialSpec(port: string, baudrate: int)

  /** The `ValueError` raised by `int()` on a malformed baud rate. */
  datatype SpecError = InvalidBaudrate(text: string)

  const DEFAULT_BAUDRATE: int := 9600

  /**
   * `Connection.from_specification`: `port` alone means 9600 baud;
   * `port:baud` is split at the last colon.
   */
  function FromSpecification(spec: string): Result<SerialSpec, SpecError>
  {
    if ':' in spec then
      var parts := RPartition(spec, ":");
      match ParseInt(parts.2)
      case Some(baudrate) => Ok(SerialSpec(parts.0, baudrate))
      case None => Err(InvalidBaudrate(parts.2))
    else Ok(SerialSpec(spec, DEFAULT_BAUDRATE))
  }

  /** `RPartition` at a character that occurs: the tail holds no such character. */
  lemma RPartitionChar(s: string, c: char)
    requires c in s
    ensures RPartition(s, [c]).1 == [c]
    ensures RPartition(s, [c]).0 + [c] + RPartition(s, [c]).2 == s
    ensures c !in RPartition(s, [c]).2
  {
    var i :| 0 <= i < |s| && s[i] == c;
    assert s[i..i + 1] == [c];
    assert OccursAt(s, [c], i);
    var r := RFind(s, [c]);
    assert r.Some?;
    var k := r.value;
    var tail := s[k + 1..];
    forall j | 0 <= j < |tail|
      ensures tail[j] != c
    {
      assert s[k + 1 + j..k + 1 + j + 1] == [tail[j]];
      assert !OccursAt(s, [c], k + 1 + j);
    }
  }

  /**
   * Without a colon the whole specification is the port, at 9600 baud. With
   * one, it is the port, a colon, and a suffix without colons; the result is
   * the port with the suffix's integer value, or `ValueError` when the suffix
   * is not an integer.
   */
  lemma FromSpecificationCases(spec: string)
    ensures ':' !in spec ==> FromSpecification(spec) == Ok(SerialSpec(spec, 9600))
    ensures ':' in spec ==> exists port, suffix ::
      && spec == port + ":" + suffix
      && ':' !in suffix
      && FromSpecification(spec) == (match ParseInt(suffix)
                                     case Some(b) => Ok(SerialSpec(port, b))
                                     case None => Err(InvalidBaudrate(suffix)))
  {
    if ':' in spec {
      RPartitionChar(spec, ':');
      var parts := RPartition(spec, ":");
      assert spec == parts.0 + ":" + parts.2;
    }
  }

  /**
   * Any port, colons included, followed by `:` and a baud rate, parses back
   * to that port and rate.
   */
  lemma FromSpecificationRoundTrip(port: string, baudrate: nat)
    ensures FromSpecification(port + ":" + Decimal(baudrate)) == Ok(SerialSpec(port, baudrate))
  {
    var spec := port + ":" + Decimal(baudrate);
    assert spec[|port|] == ':';
    RPartitionChar(spec, ':');
    var parts := RPartition(spec, ":");
    assert ':' !in Decimal(baudrate) by {
      forall j | 0 <= j < |Decimal(baudrate)|
        ensures Decimal(baudrate)[j] != ':'
      {
        assert IsDigit(Decimal(baudrate)[j]);
      }
    }
    // Both splits put the last colon at the same place.
    assert |parts.2| == |Decimal(baudrate)|;
    assert parts.2 == spec[|spec| - |parts.2|..] == Decimal(baudrate);
    assert parts.0 == port;
    ParseDecimal(baudrate);
  }

  // =====================================================================
  // The Connection interface

  /** A simulated connection to a MicroPython device. */
  class Connection {
    /** The bytes the device sends from now on, in order. */
    var incoming: Bytes
    /** How many bytes at the head of `incoming` have already arrived. */
    var buffered: nat
    /** Every byte written to the device, in order. */
    var sent: Bytes
    /** The read/write timeout in seconds. */
    var timeout: real

    ghost predicate Valid()
      reads this
    {
      buffered <= |incoming|
    }

    constructor (incoming: Bytes, buffered: nat, timeout: real)
      requires buffered <= |incoming|
      ensures Valid()
      ensures this.incoming == incoming && this.buffered == buffered
      ensures this.sent == [] && this.timeout == timeout
    {
      this.incoming := incoming;
      this.buffered := buffered;
      this.sent := [];
      this.timeout := timeout;
    }

    /** Takes `n` bytes off the queue, fewer when it runs dry (the timeout). */
    method Consume(n: nat) returns (r: Bytes)
      requires Valid()
      modifies this
      ensures Valid()
      ensures r == old(incoming)[..Min(n, |old(incoming)|)]
      ensures incoming == old(incoming)[|r|..]
      ensures buffered == if old(buffered) >= |r| then old(buffered) - |r| else 0
      ensures sent == old(sent) && timeout == old(timeout)
    {
      r := incoming[..Min(n, |incoming|)];
      incoming := incoming[|r|..];
      buffered := if buffered >= |r| then buffered - |r| else 0;
    }

    /** `read(num_bytes)`: up to `num_bytes` bytes, fewer on a timeout. */
    method Read(numBytes: nat) returns (r: Bytes)
      requires Valid()
      modifies this
      ensures Valid()
      ensures |r| <= numBytes && old(incoming) == r + incoming
      ensures |r| < numBytes ==> incoming == []
      ensures buffered == if old(buffered) >= |r| then old(buffered) - |r| else 0
      ensures sent == old(sent) && timeout == old(timeout)
    {
      r := Consume(numBytes);
      assert old(incoming) == r + incoming;
    }

    /**
     * `read_until(data)`: reads through the first occurrence of `data`, or
     * everything the device sends before the timeout.
     */
    method ReadUntil(data: Bytes) returns (r: Bytes)
      requires Valid()
      modifies this
      ensures Valid()
      ensures old(incoming) == r + incoming
      ensures EndsWith(r, data) || incoming == []
      ensures forall k :: 0 <= k < |r| ==> !EndsWith(r[..k], data)
      ensures buffered == if old(buffered) >= |r| then old(buffered) - |r| else 0
      ensures sent == old(sent) && timeout == old(timeout)
    {
      r := [];
      while !EndsWith(r, data) && incoming != []
        invariant Valid()
        invariant old(incoming) == r + incoming
        invariant forall k :: 0 <= k < |r| ==> !EndsWith(r[..k], data)
        invariant buffered == if old(buffered) >= |r| then old(buffered) - |r| else 0
        invariant sent == old(sent) && timeout == old(timeout)
        decreases |incoming|
      {
        var b := Consume(1);
        assert forall k :: 0 <= k <= |r| ==> (r + b)[..k] == r[..k];
        r := r + b;
      }
    }

    /** `read_buffered()`: the bytes that have already arrived. */
    method ReadBuffered() returns (r: Bytes)
      requires Valid()
      modifies this
      ensures Valid()
      ensures r == old(incoming)[..old(buffered)] && incoming == old(incoming)[old(buffered)..]
      ensures buffered == 0
      ensures sent == old(sent) && timeout == old(timeout)
    {
      r := Consume(buffered);
    }

    /** `write(data)`: every byte is accepted. */
    method Write(data: Bytes) returns (written: nat)
      requires Valid()
      modifies this
      ensures Valid()
      ensures written == |data| && sent == old(sent) + data
      ensures incoming == old(incoming) && buffered == old(buffered) && timeout == old(timeout)
    {
      sent := sent + data;
      written := |data|;
    }

    /** Entering `timeout_override(value)`: the old timeout is saved. */
    method OverrideTimeout(value: real) returns (saved: real)
      modifies this
      ensures timeout == value && saved == old(timeout)
      ensures incoming == old(incoming) && buffered == old(buffered) && sent == old(sent)
    {
      saved := timeout;
      timeout := value;
    }

    /** Leaving `timeout_override`, normally or by an exception. */
    method RestoreTimeout(saved: real)
      modifies this
      ensures timeout == saved
      ensures incoming == old(incoming) && buffered == old(buffered) && sent == old(sent)
    {
      timeout := saved;
    }
  }
}
