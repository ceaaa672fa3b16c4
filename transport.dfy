/** The TCP stream a connection reads from and writes to: the bytes still to
    arrive are a fixed input consumed by a cursor, and every successful write
    appends to the output. */
module Transport {
  import opened Wrappers
  import opened Types
  import opened Bytes

  class Stream {
    /** Everything the peer sends on this connection. */
    const input: seq<byte>
    /** How far `read_exact` has consumed `input`. */
    var pos: nat
    /** Everything written to the peer so far. */
    var output: seq<byte>
    /** The error a read reports once `input` is exhausted: `UnexpectedEof`
        on an orderly shutdown, or the kind of a reset, a broken pipe or a
        read timeout. */
    const readFault: IoErrorKind
    /** `Some(kind)` when writes to the peer fail with that kind. */
    const writeFault: Option<IoErrorKind>

    ghost predicate Valid()
      reads this
    {
      pos <= |input|
    }

    constructor (input: seq<byte>, readFault: IoErrorKind, writeFault: Option<IoErrorKind>)
      ensures Valid()
      ensures this.input == input && pos == 0 && output == []
      ensures this.readFault == readFault && this.writeFault == writeFault
    {
      this.input := input;
      this.readFault := readFault;
      this.writeFault := writeFault;
      pos := 0;
      output := [];
    }

    /** `read_exact`: takes exactly n bytes, or fails with `readFault`; a
        failed read loses whatever was left of the input. */
    method ReadExact(n: nat) returns (r: Result<seq<byte>, IoErrorKind>)
      requires Valid()
      modifies this`pos
      ensures Valid()
      ensures old(pos) + n <= |input| ==> r == Ok(input[old(pos)..old(pos) + n]) && pos == old(pos) + n
      ensures old(pos) + n > |input| ==> r == Err(readFault) && pos == |input|
    {
      if pos + n <= |input| {
        r := Ok(input[pos..pos + n]);
        pos := pos + n;
      } else {
        r := Err(readFault);
        pos := |input|;
      }
    }

    /** `write_all`: appends all the bytes, or fails and writes nothing. */
    method WriteAll(bytes: seq<byte>) returns (r: Result<(), IoErrorKind>)
      modifies this`output
      ensures writeFault.None? ==> r == Ok(()) && output == old(output) + bytes
      ensures writeFault.Some? ==> r == Err(writeFault.value) && output == old(output)
    {
      if writeFault.None? {
        output := output + bytes;
        r := Ok(());
      } else {
        r := Err(writeFault.value);
      }
    }
  }
}
