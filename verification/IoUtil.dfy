// Reading and writing file descriptors whose kernel may serve any part of a
// request, or interrupt it.
module IoUtil {
  import opened Bits

  function Min(a: nat, b: nat): nat { if a < b then a else b }

  /** How a system call ends. */
  datatype Call = Done | Interrupted | Failed

  /** The reading end: what is still to come, a bound on interruptions, and whether calls can fail. */
  class Source {
    var data: seq<byte>
    var interrupts: nat
    const reliable: bool

    constructor (data: seq<byte>, interrupts: nat, reliable: bool)
      ensures this.data == data && this.interrupts == interrupts && this.reliable == reliable
    {
      this.data, this.interrupts, this.reliable := data, interrupts, reliable;
    }

    /** Some of what was asked for; nothing only at the end; or an interruption; or an error. */
    method Read(n: nat) returns (got: seq<byte>, call: Call)
      requires n > 0
      modifies this
      ensures call.Failed? ==> !reliable
      ensures !call.Done? ==> data == old(data)
      ensures call.Interrupted? ==> interrupts < old(interrupts)
      ensures call.Done? ==>
                && |got| <= n && got + data == old(data) && (got == [] <==> old(data) == [])
                && interrupts == old(interrupts)
    {
      got, call := [], *;
      if call.Interrupted? && interrupts > 0 {
        interrupts := interrupts - 1;
        return;
      }
      if call.Failed? && !reliable {
        return;
      }
      call := Done;
      var k: int, most := *, Min(n, |data|);
      if k < 1 || k > most { k := most; }
      got, data := data[..k], data[k..];
    }
  }

  class Sink {
    var data: seq<byte>
    var interrupts: nat
    const reliable: bool

    constructor (interrupts: nat, reliable: bool)
      ensures data == [] && this.interrupts == interrupts && this.reliable == reliable
    {
      this.data, this.interrupts, this.reliable := [], interrupts, reliable;
    }

    /** A non-empty beginning of the bytes is written; or the call is interrupted, or fails. */
    method Write(bytes: seq<byte>) returns (nwritten: nat, call: Call)
      requires bytes != []
      modifies this
      ensures call.Failed? ==> !reliable
      ensures !call.Done? ==> data == old(data)
      ensures call.Interrupted? ==> interrupts < old(interrupts)
      ensures call.Done? ==>
                0 < nwritten <= |bytes| && data == old(data) + bytes[..nwritten] && interrupts == old(interrupts)
    {
      nwritten, call := 0, *;
      if call.Interrupted? && interrupts > 0 {
        interrupts := interrupts - 1;
        return;
      }
      if call.Failed? && !reliable {
        return;
      }
      call := Done;
      var k: int := *;
      nwritten := if 1 <= k <= |bytes| then k else |bytes|;
      data := data + bytes[..nwritten];
    }
  }

  /** Fills the buffer, or stops short only at the end of the data; throws only on an error. */
  method ReadBytes(fd: Source, size: nat) returns (buffer: seq<byte>, threw: bool)
    modifies fd
    ensures threw ==> !fd.reliable
    ensures !threw ==> buffer == old(fd.data)[..Min(size, |old(fd.data)|)]
    ensures !threw ==> fd.data == old(fd.data)[Min(size, |old(fd.data)|)..]
  {
    buffer, threw := [], false;
    while |buffer| != size
      invariant |buffer| <= size && buffer + fd.data == old(fd.data)
      decreases size - |buffer|, fd.interrupts
    {
      var got, call := fd.Read(size - |buffer|);
      if call.Interrupted? { continue; }
      if call.Failed? { return buffer, true; }
      if got == [] { break; }
      buffer := buffer + got;
    }
  }

  method ReadBytesExact(fd: Source, size: nat) returns (buffer: seq<byte>, threw: bool)
    modifies fd
    ensures fd.reliable ==> (threw <==> |old(fd.data)| < size)
    ensures !threw ==> |old(fd.data)| >= size && buffer == old(fd.data)[..size] && fd.data == old(fd.data)[size..]
  {
    buffer, threw := ReadBytes(fd, size);
    if !threw { threw := |buffer| != size; }
  }

  /** Writes it all; throws only on an error, after writing a beginning. */
  method WriteSecure(fd: Sink, bytes: seq<byte>) returns (threw: bool)
    modifies fd
    ensures threw ==> !fd.reliable
    ensures !threw ==> fd.data == old(fd.data) + bytes
    ensures old(fd.data) <= fd.data <= old(fd.data) + bytes
  {
    var left := bytes;
    while left != []
      invariant fd.data + left == old(fd.data) + bytes && old(fd.data) <= fd.data
      decreases |left|, fd.interrupts
    {
      ghost var before := fd.data;
      var nwritten, call := fd.Write(left);
      if call.Interrupted? { continue; }
      if call.Failed? { return true; }
      assert before + left == (before + left[..nwritten]) + left[nwritten..];
      left := left[nwritten..];
    }
    threw := false;
  }

  /** The pieces a consumer with a buffer of n bytes is handed. */
  function Chunks(data: seq<byte>, n: nat): (chunks: seq<seq<byte>>)
    requires n > 0
    ensures forall c :: c in chunks ==> 0 < |c| <= n
  {
    if data == [] then [] else [data[..Min(n, |data|)]] + Chunks(data[Min(n, |data|)..], n)
  }

  function Flatten(chunks: seq<seq<byte>>): seq<byte> {
    if chunks == [] then [] else chunks[0] + Flatten(chunks[1..])
  }

  lemma FlattenCons(c: seq<byte>, cs: seq<seq<byte>>)
    ensures Flatten([c] + cs) == c + Flatten(cs)
  {
    assert ([c] + cs)[1..] == cs;
  }

  /** Nothing is lost, added or reordered by chunking. */
  lemma {:induction false} ChunksFlatten(data: seq<byte>, n: nat)
    requires n > 0
    ensures Flatten(Chunks(data, n)) == data
    decreases |data|
  {
    if data != [] {
      var k := Min(n, |data|);
      assert Chunks(data, n) == [data[..k]] + Chunks(data[k..], n);
      hide Chunks, Flatten;
      ChunksFlatten(data[k..], n);
      FlattenCons(data[..k], Chunks(data[k..], n));
      assert data[..k] + data[k..] == data;
    }
  }

  /** Hands the data to a consumer, one bufferful at a time; after an error, some of them. */
  method Consume(fd: Source, size: nat) returns (calls: seq<seq<byte>>, threw: bool)
    requires size > 0
    modifies fd
    ensures threw ==> !fd.reliable
    ensures !threw ==> calls == Chunks(old(fd.data), size) && fd.data == []
    ensures calls <= Chunks(old(fd.data), size)
  {
    calls := [];
    while true
      invariant calls + Chunks(fd.data, size) == Chunks(old(fd.data), size)
      decreases |fd.data|
    {
      ghost var before := fd.data;
      var buffer;
      buffer, threw := ReadBytes(fd, size);
      if threw { return; }
      if buffer != [] {
        assert calls + ([buffer] + Chunks(fd.data, size)) == (calls + [buffer]) + Chunks(fd.data, size);
        calls := calls + [buffer];
      }
      if |buffer| != size {
        return;
      }
    }
  }
}
