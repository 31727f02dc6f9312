// Encrypted payloads: a table of key slots, a stream header, length-prefixed
// chunks and a final one.  Sealing a session key is a parameter.
module Encryption {
  import opened Bits
  import opened Options
  import opened Serialisation
  import opened Secretstream
  import opened IoUtil

  const KEYIDBYTES := 16
  const SEALEDBYTES := 80   // a sealed 32-byte key
  const SLOTBYTES := 97     // key id, sealed key, last-slot flag
  const PLAINTEXT_CHUNK := 8192
  const CIPHERTEXT_CHUNK := 8209

  datatype KeySlot = KeySlot(id: seq<byte>, pub: seq<byte>)

  /** Sealing is randomised (by the third argument) and may fail; opening needs the key pair. */
  datatype Box = Box(
    seal: (seq<byte>, seq<byte>, nat) -> Option<seq<byte>>,
    open: (seq<byte>, seq<byte>, seq<byte>) -> Option<seq<byte>>)

  ghost predicate SealedSized(box: Box) {
    forall key, pub, r :: box.seal(key, pub, r).Some? ==> |box.seal(key, pub, r).value| == SEALEDBYTES
  }

  ghost predicate Opens(box: Box, pub: seq<byte>, priv: seq<byte>) {
    forall key, r :: box.seal(key, pub, r).Some? ==> box.open(box.seal(key, pub, r).value, pub, priv) == Some(key)
  }

  datatype Secrets = Secrets(symKey: seq<byte>, header: seq<byte>, noise: nat)

  predicate ValidSecrets(s: Secrets) { |s.symKey| == KEYBYTES && |s.header| == HEADERBYTES }

  predicate ValidSlots(slots: seq<KeySlot>) { forall s :: s in slots ==> |s.id| == KEYIDBYTES }

  // ----- writing -----

  /** The slots, each with the session key sealed for it; the last one is flagged. */
  function SlotTable(box: Box, slots: seq<KeySlot>, s: Secrets): Option<seq<byte>> {
    if slots == [] then Some([])
    else
      match box.seal(s.symKey, slots[0].pub, s.noise)
      case None => None
      case Some(sealed) =>
        match SlotTable(box, slots[1..], s.(noise := s.noise + 1))
        case None => None
        case Some(rest) => Some(slots[0].id + sealed + [if |slots| == 1 then 1 else 0] + rest)
  }

  function Frame(out: seq<byte>): seq<byte> { LittleEndian(|out|, 4) + out }

  function Frames(p: Primitives, s: State, chunks: seq<seq<byte>>): seq<byte>
    requires Sized(p) && Valid(s)
    decreases |chunks|
  {
    if chunks == [] then Frame(Push(p, s, [], [], TAG_FINAL).out)
    else
      var r := Push(p, s, chunks[0], [], 0);
      Frame(r.out) + Frames(p, r.next, chunks[1..])
  }

  /** The whole output for a plaintext. */
  function Encrypted(box: Box, p: Primitives, slots: seq<KeySlot>, s: Secrets, plaintext: seq<byte>): Option<seq<byte>>
    requires Sized(p) && ValidSecrets(s)
  {
    match SlotTable(box, slots, s)
    case None => None
    case Some(table) =>
      Some(table + (s.header + Frames(p, Init(p, s.header, s.symKey), Chunks(plaintext, PLAINTEXT_CHUNK))))
  }

  /** Written is a beginning of what was to be added, and all of it unless an error got in the way. */
  ghost predicate Wrote(before: seq<byte>, after: seq<byte>, goal: seq<byte>, threw: bool) {
    before <= after <= before + goal && (!threw ==> after == before + goal)
  }

  lemma WroteThen(a: seq<byte>, b: seq<byte>, c: seq<byte>, g1: seq<byte>, g2: seq<byte>, threw: bool)
    requires Wrote(a, b, g1, false) && Wrote(b, c, g2, threw)
    ensures Wrote(a, c, g1 + g2, threw)
  {
    assert (a + g1) + g2 == a + (g1 + g2);
  }

  lemma WrotePart(a: seq<byte>, b: seq<byte>, g1: seq<byte>, g2: seq<byte>)
    requires Wrote(a, b, g1, true)
    ensures Wrote(a, b, g1 + g2, true)
  {
    assert (a + g1) + g2 == a + (g1 + g2);
  }

  /** Throws when a seal fails, or on an I/O error; at any point a beginning of the output has been written. */
  method EncryptToFd(box: Box, p: Primitives, slots: seq<KeySlot>, s: Secrets, from: Source, to: Sink)
    returns (threw: bool)
    requires Sized(p) && ValidSecrets(s) && ValidSlots(slots)
    modifies from, to
    ensures from.reliable && to.reliable ==> (threw <==> SlotTable(box, slots, s).None?)
    ensures !threw ==> SlotTable(box, slots, s).Some?
    ensures var e := Encrypted(box, p, slots, s, old(from.data));
            e.Some? ==> Wrote(old(to.data), to.data, e.value, threw)
  {
    ghost var start, table := to.data, SlotTable(box, slots, s);
    ghost var body := s.header + Frames(p, Init(p, s.header, s.symKey), Chunks(from.data, PLAINTEXT_CHUNK));
    threw := WriteSlots(box, slots, s, to);
    if threw {
      if table.Some? { WrotePart(start, to.data, table.value, body); }
      return;
    }
    ghost var before := to.data;
    threw := WriteBody(p, s, from, to);
    WroteThen(start, before, to.data, table.value, body, threw);
  }

  method WriteBody(p: Primitives, s: Secrets, from: Source, to: Sink) returns (threw: bool)
    requires Sized(p) && ValidSecrets(s)
    modifies from, to
    ensures from.reliable && to.reliable ==> !threw
    ensures var body := s.header + Frames(p, Init(p, s.header, s.symKey), Chunks(old(from.data), PLAINTEXT_CHUNK));
            Wrote(old(to.data), to.data, body, threw)
  {
    ghost var start := to.data;
    ghost var frames := Frames(p, Init(p, s.header, s.symKey), Chunks(from.data, PLAINTEXT_CHUNK));
    threw := WriteSecure(to, s.header);
    if threw {
      WrotePart(start, to.data, s.header, frames);
      return;
    }
    ghost var before := to.data;
    var state := new Stream(p, s.header, s.symKey);
    threw := WriteChunks(p, state, from, to);
    WroteThen(start, before, to.data, s.header, frames, threw);
  }

  /** What is written for some chunks, before the final message, and the state they leave. */
  function Sent(p: Primitives, s: State, chunks: seq<seq<byte>>): seq<byte>
    requires Sized(p) && Valid(s)
    decreases |chunks|
  {
    if chunks == [] then []
    else
      var r := Push(p, s, chunks[0], [], 0);
      Frame(r.out) + Sent(p, r.next, chunks[1..])
  }

  function SentState(p: Primitives, s: State, chunks: seq<seq<byte>>): (s': State)
    requires Sized(p) && Valid(s)
    ensures Valid(s')
    decreases |chunks|
  {
    if chunks == [] then s else SentState(p, Push(p, s, chunks[0], [], 0).next, chunks[1..])
  }

  lemma {:induction false} FramesSplit(p: Primitives, s: State, a: seq<seq<byte>>, b: seq<seq<byte>>)
    requires Sized(p) && Valid(s)
    ensures Frames(p, s, a + b) == Sent(p, s, a) + Frames(p, SentState(p, s, a), b)
    decreases |a|
  {
    hide Push;
    if a == [] {
      assert a + b == b;
    } else {
      var r := Push(p, s, a[0], [], 0);
      FramesSplit(p, r.next, a[1..], b);
      assert (a + b)[0] == a[0] && (a + b)[1..] == a[1..] + b;
      Assoc(Frame(r.out), Sent(p, r.next, a[1..]), Frames(p, SentState(p, r.next, a[1..]), b));
    }
  }

  /** The chunks, each sealed and framed, and the final message. */
  method WriteChunks(p: Primitives, state: Stream, from: Source, to: Sink) returns (threw: bool)
    requires Sized(p) && Valid(state.Value())
    modifies state, from, to
    ensures from.reliable && to.reliable ==> !threw
    ensures Wrote(old(to.data), to.data, Frames(p, old(state.Value()), Chunks(old(from.data), PLAINTEXT_CHUNK)), threw)
  {
    hide Push, Frame, Chunks;
    ghost var start, s0, all := to.data, state.Value(), Chunks(from.data, PLAINTEXT_CHUNK);
    var chunks, readFailed := Consume(from, PLAINTEXT_CHUNK);
    ghost var rest := all[|chunks|..];
    assert all == chunks + rest;
    FramesSplit(p, s0, chunks, rest);
    assert forall c :: c in chunks ==> c in all;
    threw := WriteFrames(p, state, chunks, to);
    if threw || readFailed {
      WrotePart(start, to.data, Sent(p, s0, chunks), Frames(p, SentState(p, s0, chunks), rest));
      return true;
    }
    assert rest == [];
    ghost var before := to.data;
    var out, misuse := state.PushMessage(p, [], [], TAG_FINAL);
    threw := WriteFrame(to, out);
    WroteThen(start, before, to.data, Sent(p, s0, chunks), Frame(out), threw);
  }

  method WriteFrames(p: Primitives, state: Stream, chunks: seq<seq<byte>>, to: Sink) returns (threw: bool)
    requires Sized(p) && Valid(state.Value()) && forall c :: c in chunks ==> |c| <= PLAINTEXT_CHUNK
    modifies state, to
    ensures to.reliable ==> !threw
    ensures Wrote(old(to.data), to.data, Sent(p, old(state.Value()), chunks), threw)
    ensures Valid(state.Value()) && (!threw ==> state.Value() == SentState(p, old(state.Value()), chunks))
  {
    hide Frame, Push;
    ghost var start, s0 := to.data, state.Value();
    assert chunks[0..] == chunks;
    for i := 0 to |chunks|
      invariant Valid(state.Value()) && start <= to.data
      invariant to.data + Sent(p, state.Value(), chunks[i..]) == start + Sent(p, s0, chunks)
      invariant SentState(p, state.Value(), chunks[i..]) == SentState(p, s0, chunks)
    {
      assert chunks[i..][0] == chunks[i] && chunks[i..][1..] == chunks[i + 1..];
      ghost var before := to.data;
      var out, misuse := state.PushMessage(p, chunks[i], [], 0);
      threw := WriteFrame(to, out);
      Assoc(before, Frame(out), Sent(p, state.Value(), chunks[i + 1..]));
      if threw { return; }
    }
    threw := false;
  }

  method WriteFrame(to: Sink, out: seq<byte>) returns (threw: bool)
    requires |out| <= CIPHERTEXT_CHUNK
    modifies to
    ensures to.reliable ==> !threw
    ensures Wrote(old(to.data), to.data, Frame(out), threw)
  {
    ghost var start := to.data;
    Length32(|out|);
    var size := ToBytes(|out|, 4, false);
    threw := WriteSecure(to, size);
    if threw {
      WrotePart(start, to.data, size, out);
      return;
    }
    ghost var before := to.data;
    threw := WriteSecure(to, out);
    WroteThen(start, before, to.data, size, out, threw);
  }

  lemma Length32(n: nat)
    requires n <= CIPHERTEXT_CHUNK
    ensures InRange(n, 4, false) && FromLittleEndian(LittleEndian(n, 4)) == n
  {
    Word32();
    EndianRoundTrip(n, 4);
  }

  method WriteSlots(box: Box, slots: seq<KeySlot>, s: Secrets, to: Sink) returns (threw: bool)
    modifies to
    ensures to.reliable ==> (threw <==> SlotTable(box, slots, s).None?)
    ensures !threw ==> SlotTable(box, slots, s).Some?
    ensures SlotTable(box, slots, s).Some? ==> Wrote(old(to.data), to.data, SlotTable(box, slots, s).value, threw)
  {
    ghost var before := to.data;
    assert slots[0..] == slots;
    for i := 0 to |slots|
      invariant before <= to.data
      invariant SlotTable(box, slots, s).None? <==> SlotTable(box, slots[i..], s.(noise := s.noise + i)).None?
      invariant SlotTable(box, slots, s).Some? ==>
        before + SlotTable(box, slots, s).value == to.data + SlotTable(box, slots[i..], s.(noise := s.noise + i)).value
    {
      assert slots[i..][0] == slots[i] && slots[i..][1..] == slots[i + 1..];
      var sealed := box.seal(s.symKey, slots[i].pub, s.noise + i);
      if sealed.None? { return true; }
      var is_last := if i == |slots| - 1 then 1 else 0;
      ghost var here := to.data;
      ghost var rest := SlotTable(box, slots[i + 1..], s.(noise := s.noise + (i + 1)));
      threw := WriteSecure(to, slots[i].id + sealed.value + [is_last]);
      if rest.Some? {
        assert here + (slots[i].id + sealed.value + [is_last] + rest.value)
            == (here + (slots[i].id + sealed.value + [is_last])) + rest.value;
      }
      if threw { return; }
    }
    threw := false;
  }

  // ----- reading -----

  datatype KeyPair = KeyPair(id: seq<byte>, pub: seq<byte>, priv: seq<byte>)

  /** After the slot table: the session key, if any slot was for this key, and how much was read. */
  datatype Slots = BadSlots | Slots(key: Option<seq<byte>>, used: nat)

  function ReadSlots(box: Box, me: KeyPair, b: seq<byte>, found: Option<seq<byte>>): (r: Slots)
    ensures r.Slots? ==> r.used <= |b|
    decreases |b|
  {
    if |b| < SLOTBYTES then BadSlots
    else
      var id, sealed, last := b[..16], b[16..96], b[96];
      var unsealed := box.open(sealed, me.pub, me.priv);
      if id == me.id && unsealed.None? then BadSlots
      else
        var key := if id == me.id then unsealed else found;
        if last != 0 then Slots(key, SLOTBYTES)
        else
          match ReadSlots(box, me, b[SLOTBYTES..], key)
          case BadSlots => BadSlots
          case Slots(k, used) => Slots(k, used + SLOTBYTES)
  }

  /** What is written before the end or a failure, whether it was the proper end, and how much was read. */
  datatype Outcome = Outcome(written: seq<byte>, ok: bool, used: nat)

  function ReadFrames(p: Primitives, s: State, b: seq<byte>): (r: Outcome)
    requires Sized(p) && Valid(s)
    ensures r.used <= |b|
    decreases |b|
  {
    if |b| < 4 then Outcome([], false, 0)
    else
      var n := Min(CIPHERTEXT_CHUNK, FromLittleEndian(b[..4]));
      if |b| - 4 < n then Outcome([], false, 0)
      else
        match Pull(p, s, b[4..4 + n], [])
        case None => Outcome([], false, 0)
        case Some(r) =>
          if r.tag != 0 then Outcome(r.m, r.tag == TAG_FINAL, 4 + n)
          else
            PullValid(p, s, b[4..4 + n], []);
            var rest := ReadFrames(p, r.next, b[4 + n..]);
            Outcome(r.m + rest.written, rest.ok, 4 + n + rest.used)
  }

  /** The header and the chunks, once the key is known. */
  function DecryptedBody(p: Primitives, key: seq<byte>, b: seq<byte>): (r: Outcome)
    requires Sized(p)
    ensures r.used <= |b|
  {
    if |b| < HEADERBYTES then Outcome([], false, 0)
    else
      var r := ReadFrames(p, Init(p, b[..HEADERBYTES], key), b[HEADERBYTES..]);
      Outcome(r.written, r.ok, HEADERBYTES + r.used)
  }

  function Decrypted(box: Box, p: Primitives, me: KeyPair, b: seq<byte>): (r: Outcome)
    requires Sized(p)
    ensures r.used <= |b|
  {
    match ReadSlots(box, me, b, None)
    case BadSlots => Outcome([], false, 0)
    case Slots(key, used) =>
      if key.None? then Outcome([], false, 0)
      else
        var r := DecryptedBody(p, key.value, b[used..]);
        Outcome(r.written, r.ok, used + r.used)
  }

  /**
   * On any input, and through any error: what is written is a beginning of what
   * the input decrypts to, and returning normally means that was all and well.
   */
  method DecryptFromFd(box: Box, p: Primitives, me: KeyPair, from: Source, to: Sink) returns (threw: bool)
    requires Sized(p)
    modifies from, to
    ensures var r := Decrypted(box, p, me, old(from.data));
            && Wrote(old(to.data), to.data, r.written, threw && !(from.reliable && to.reliable))
            && (!threw ==> r.ok)
            && (from.reliable && to.reliable ==> (threw <==> !r.ok))
  {
    hide ReadFrames, ReadSlots;
    var key;
    key, threw := FindKey(box, me, from);
    if threw || key.None? { return true; }
    threw := DecryptBody(p, key.value, from, to);
  }

  method DecryptBody(p: Primitives, key: seq<byte>, from: Source, to: Sink) returns (threw: bool)
    requires Sized(p)
    modifies from, to
    ensures var r := DecryptedBody(p, key, old(from.data));
            && Wrote(old(to.data), to.data, r.written, threw && !(from.reliable && to.reliable))
            && (!threw ==> r.ok)
            && (from.reliable && to.reliable ==> (threw <==> !r.ok))
  {
    hide ReadFrames;
    var header;
    header, threw := ReadBytesExact(from, HEADERBYTES);
    if threw { return; }
    var state := new Stream(p, header, key);
    threw := DecryptFrames(p, state, from, to);
  }

  /** The loop over the slots: the session key, if a slot is for this key. */
  method FindKey(box: Box, me: KeyPair, from: Source) returns (symKey: Option<seq<byte>>, threw: bool)
    modifies from
    ensures from.reliable ==> (threw <==> ReadSlots(box, me, old(from.data), None).BadSlots?)
    ensures !threw ==> var r := ReadSlots(box, me, old(from.data), None);
                       r.Slots? && symKey == r.key && from.data == old(from.data)[r.used..]
  {
    symKey, threw := None, false;
    ghost var all, done := from.data, 0;
    var is_last := false;
    while !is_last
      invariant done <= |all| && from.data == all[done..]
      invariant !is_last ==> Later(ReadSlots(box, me, all[done..], symKey), done) == ReadSlots(box, me, all, None)
      invariant is_last ==> ReadSlots(box, me, all, None) == Slots(symKey, done)
      decreases !is_last, |from.data|
    {
      var entry;
      ghost var b := from.data;
      entry, threw := ReadBytesExact(from, SLOTBYTES);
      if threw { return; }
      var keyId, encryptedSymKey := entry[..16], entry[16..96];
      is_last := entry[96] != 0;
      assert keyId == b[..16] && encryptedSymKey == b[16..96];
      if keyId == me.id {
        var key := box.open(encryptedSymKey, me.pub, me.priv);
        if key.None? { return None, true; }
        symKey := key;
      }
      done := done + SLOTBYTES;
      assert b[SLOTBYTES..] == all[done..];
    }
  }

  ghost function Later(s: Slots, done: nat): Slots {
    if s.BadSlots? then s else Slots(s.key, s.used + done)
  }

  method DecryptFrames(p: Primitives, state: Stream, from: Source, to: Sink) returns (threw: bool)
    requires Sized(p) && Valid(state.Value())
    modifies state, from, to
    ensures var r := ReadFrames(p, old(state.Value()), old(from.data));
            && Wrote(old(to.data), to.data, r.written, threw && !(from.reliable && to.reliable))
            && (!threw ==> r.ok)
            && (from.reliable && to.reliable ==> (threw <==> !r.ok))
  {
    hide Pull, FromLittleEndian;
    threw := false;
    var tag: byte := 0;
    ghost var start := to.data;
    ghost var goal := to.data + ReadFrames(p, state.Value(), from.data).written;
    ghost var ok := ReadFrames(p, state.Value(), from.data).ok;
    while tag == 0
      invariant Valid(state.Value()) && start <= to.data
      invariant tag == 0 ==> var r := ReadFrames(p, state.Value(), from.data); to.data + r.written == goal && r.ok == ok
      invariant tag != 0 ==> to.data == goal && ok == (tag == TAG_FINAL)
      decreases tag == 0, |from.data|
    {
      ghost var b, before := from.data, to.data;
      var nbytesbuf;
      nbytesbuf, threw := ReadBytesExact(from, 4);
      if threw { return; }
      var claimed := FromBytes(nbytesbuf, false);
      var nbytes := Min(CIPHERTEXT_CHUNK, claimed);
      var buf;
      buf, threw := ReadBytesExact(from, nbytes);
      if threw { return; }
      assert nbytesbuf == b[..4] && buf == b[4..4 + nbytes] && from.data == b[4 + nbytes..];
      var m, failed, misuse;
      m, tag, failed, misuse := state.PullMessage(p, buf, []);
      if failed || misuse { return true; }
      threw := WriteSecure(to, m);
      Assoc(before, m, if tag == 0 then ReadFrames(p, state.Value(), from.data).written else []);
      assert m + [] == m;
      if threw { return; }
    }
    threw := tag != TAG_FINAL;
  }

  // ----- decryption inverts encryption -----

  /** Our key has a slot, and every slot under our id is sealed for our key. */
  ghost predicate Addressed(box: Box, slots: seq<KeySlot>, me: KeyPair) {
    && (exists s :: s in slots && s.id == me.id)
    && (forall s :: s in slots && s.id == me.id ==> s.pub == me.pub)
    && Opens(box, me.pub, me.priv)
  }

  /** A slot table is read to its end, and yields the key exactly when a slot is ours. */
  lemma {:induction false} SlotsRoundTrip(box: Box, slots: seq<KeySlot>, s: Secrets, me: KeyPair,
                                          found: Option<seq<byte>>, rest: seq<byte>)
    requires slots != [] && ValidSlots(slots) && SealedSized(box) && SlotTable(box, slots, s).Some?
    requires forall x :: x in slots && x.id == me.id ==> x.pub == me.pub && Opens(box, me.pub, me.priv)
    ensures var table := SlotTable(box, slots, s).value;
            ReadSlots(box, me, table + rest, found)
              == Slots(if exists x :: x in slots && x.id == me.id then Some(s.symKey) else found, |table|)
    decreases |slots|
  {
    var table := SlotTable(box, slots, s).value;
    var slot, sealed := slots[0], box.seal(s.symKey, slots[0].pub, s.noise).value;
    var flag: byte := if |slots| == 1 then 1 else 0;
    var s' := s.(noise := s.noise + 1);
    var tail := SlotTable(box, slots[1..], s').value;
    assert slot in slots;
    SlotEntry(slot.id, sealed, flag, tail + rest);
    Assoc(slot.id + sealed + [flag], tail, rest);
    var key := if slot.id == me.id then Some(s.symKey) else found;
    if |slots| == 1 {
      assert slots == [slot];
    } else {
      assert slots == [slot] + slots[1..];
      SlotsRoundTrip(box, slots[1..], s', me, key, rest);
    }
  }

  lemma SlotEntry(id: seq<byte>, sealed: seq<byte>, flag: byte, rest: seq<byte>)
    requires |id| == KEYIDBYTES && |sealed| == SEALEDBYTES
    ensures var b := id + sealed + [flag] + rest;
            |b| >= SLOTBYTES && b[..16] == id && b[16..96] == sealed && b[96] == flag && b[SLOTBYTES..] == rest
  {
  }

  lemma FrameEntry(out: seq<byte>, rest: seq<byte>)
    requires |out| <= CIPHERTEXT_CHUNK
    ensures var b := Frame(out) + rest;
            && |b| >= 4 + |out| && Min(CIPHERTEXT_CHUNK, FromLittleEndian(b[..4])) == |out|
            && b[4..4 + |out|] == out && b[4 + |out|..] == rest
  {
    Length32(|out|);
    var b := Frame(out) + rest;
    assert b[..4] == LittleEndian(|out|, 4);
  }

  /** A message is followed by more exactly under tag 0, and ends the stream properly exactly under tag 3. */
  lemma EndsProperly(p: Primitives, s: State, m: seq<byte>, tag: byte, rest: seq<byte>)
    requires Sized(p) && Valid(s) && |m| <= 8192
    ensures var frame := Frame(Push(p, s, m, [], tag).out);
            var r, more := ReadFrames(p, s, frame + rest), ReadFrames(p, Push(p, s, m, [], tag).next, rest);
            r == if tag == 0 then Outcome(m + more.written, more.ok, |frame| + more.used)
                 else Outcome(m, tag == 3, |frame|)
  {
    PullInvertsPush(p, s, m, [], tag);
    FrameEntry(Push(p, s, m, [], tag).out, rest);
    hide Push, Pull, Frame;
  }

  /** A length that claims more than the largest sealed chunk reads as that. */
  lemma LongLengthIsClamped(p: Primitives, s: State, length1: seq<byte>, length2: seq<byte>, rest: seq<byte>)
    requires Sized(p) && Valid(s) && |length1| == 4 == |length2|
    requires FromLittleEndian(length1) == 8192 + 17 <= FromLittleEndian(length2)
    ensures ReadFrames(p, s, length1 + rest) == ReadFrames(p, s, length2 + rest)
  {
    hide Pull, FromLittleEndian;
    var n, b1, b2 := 8192 + 17, length1 + rest, length2 + rest;
    assert b1[..4] == length1 && b2[..4] == length2;
    if |rest| >= n {
      assert b1[4..4 + n] == rest[..n] == b2[4..4 + n];
      assert b1[4 + n..] == rest[n..] == b2[4 + n..];
    }
  }

  lemma {:induction false} FramesRoundTrip(p: Primitives, s: State, chunks: seq<seq<byte>>, rest: seq<byte>)
    requires Sized(p) && Valid(s) && forall c :: c in chunks ==> |c| <= PLAINTEXT_CHUNK
    ensures ReadFrames(p, s, Frames(p, s, chunks) + rest) == Outcome(Flatten(chunks), true, |Frames(p, s, chunks)|)
    decreases |chunks|
  {
    if chunks == [] {
      PullInvertsPush(p, s, [], [], TAG_FINAL);
      FrameEntry(Push(p, s, [], [], TAG_FINAL).out, rest);
    } else {
      var r := Push(p, s, chunks[0], [], 0);
      var tail := Frames(p, r.next, chunks[1..]);
      assert chunks[0] in chunks;
      PullInvertsPush(p, s, chunks[0], [], 0);
      FrameEntry(r.out, tail + rest);
      Assoc(Frame(r.out), tail, rest);
      FramesRoundTrip(p, r.next, chunks[1..], rest);
    }
  }

  lemma {:induction false} BodyRoundTrip(p: Primitives, key: seq<byte>, header: seq<byte>,
                                         plaintext: seq<byte>, rest: seq<byte>)
    requires Sized(p) && |key| == KEYBYTES && |header| == HEADERBYTES
    ensures var body := header + Frames(p, Init(p, header, key), Chunks(plaintext, PLAINTEXT_CHUNK));
            DecryptedBody(p, key, body + rest) == Outcome(plaintext, true, |body|)
  {
    var start, chunks := Init(p, header, key), Chunks(plaintext, PLAINTEXT_CHUNK);
    ChunksFlatten(plaintext, PLAINTEXT_CHUNK);
    FramesRoundTrip(p, start, chunks, rest);
    Split(header, Frames(p, start, chunks), rest);
  }

  lemma Split(a: seq<byte>, b: seq<byte>, c: seq<byte>)
    ensures (a + b + c)[..|a|] == a && (a + b + c)[|a|..] == b + c
  {
  }

  /** Whatever follows, decrypting an encrypted payload writes back exactly the plaintext. */
  lemma RoundTrip(box: Box, p: Primitives, slots: seq<KeySlot>, s: Secrets, me: KeyPair,
                  plaintext: seq<byte>, rest: seq<byte>)
    requires Sized(p) && ValidSecrets(s) && ValidSlots(slots) && SealedSized(box) && Addressed(box, slots, me)
    ensures var e := Encrypted(box, p, slots, s, plaintext);
            e.Some? ==> Decrypted(box, p, me, e.value + rest) == Outcome(plaintext, true, |e.value|)
  {
    if Encrypted(box, p, slots, s, plaintext).None? { return; }
    var table := SlotTable(box, slots, s).value;
    var body := s.header + Frames(p, Init(p, s.header, s.symKey), Chunks(plaintext, PLAINTEXT_CHUNK));
    SlotsRoundTrip(box, slots, s, me, None, body + rest);
    BodyRoundTrip(p, s.symKey, s.header, plaintext, rest);
    Split(table, body, rest);
    Assoc(table, body, rest);
  }

  /** Slots with distinct ids, one of them ours, are enough. */
  lemma DistinctIdsAddress(box: Box, slots: seq<KeySlot>, me: KeyPair)
    requires forall i, j :: 0 <= i < j < |slots| ==> slots[i].id != slots[j].id
    requires KeySlot(me.id, me.pub) in slots && Opens(box, me.pub, me.priv)
    ensures Addressed(box, slots, me)
  {
    assert KeySlot(me.id, me.pub).id == me.id;
  }

  /** Without a slot of ours nothing is written and decryption fails. */
  lemma NotAddressed(box: Box, p: Primitives, slots: seq<KeySlot>, s: Secrets, me: KeyPair,
                     plaintext: seq<byte>, rest: seq<byte>)
    requires Sized(p) && ValidSecrets(s) && ValidSlots(slots) && SealedSized(box) && slots != []
    requires forall x :: x in slots ==> x.id != me.id
    ensures var e := Encrypted(box, p, slots, s, plaintext);
            e.Some? ==> Decrypted(box, p, me, e.value + rest) == Outcome([], false, 0)
  {
    if Encrypted(box, p, slots, s, plaintext).None? { return; }
    var table := SlotTable(box, slots, s).value;
    var body := s.header + Frames(p, Init(p, s.header, s.symKey), Chunks(plaintext, PLAINTEXT_CHUNK));
    SlotsRoundTrip(box, slots, s, me, None, body + rest);
    Assoc(table, body, rest);
  }

  // ----- truncation -----

  ghost predicate Extends(short: Outcome, long: Outcome) {
    && short.written <= long.written
    && (short.ok ==> long == short)
  }

  lemma Slices(b: seq<byte>, more: seq<byte>, i: nat, j: nat)
    requires i <= j <= |b|
    ensures (b + more)[i..j] == b[i..j] && (b + more)[j..] == b[j..] + more
  {
  }

  lemma {:induction false} FramesExtend(p: Primitives, s: State, b: seq<byte>, more: seq<byte>)
    requires Sized(p) && Valid(s)
    ensures Extends(ReadFrames(p, s, b), ReadFrames(p, s, b + more))
    decreases |b|
  {
    hide Pull, FromLittleEndian;
    if |b| >= 4 {
      assert (b + more)[..4] == b[..4];
      var n := Min(CIPHERTEXT_CHUNK, FromLittleEndian(b[..4]));
      if |b| - 4 >= n {
        Slices(b, more, 4, 4 + n);
        PullValid(p, s, b[4..4 + n], []);
        var r := Pull(p, s, b[4..4 + n], []);
        if r.Some? && r.value.tag == 0 {
          FramesExtend(p, r.value.next, b[4 + n..], more);
        }
      }
    }
  }

  lemma {:induction false} SlotsExtend(box: Box, me: KeyPair, b: seq<byte>, found: Option<seq<byte>>, more: seq<byte>)
    ensures ReadSlots(box, me, b, found).Slots? ==> ReadSlots(box, me, b + more, found) == ReadSlots(box, me, b, found)
    decreases |b|
  {
    if |b| >= SLOTBYTES {
      var all := b + more;
      assert all[..16] == b[..16] && all[16..96] == b[16..96] && all[96] == b[96];
      assert all[SLOTBYTES..] == b[SLOTBYTES..] + more;
      var unsealed := box.open(b[16..96], me.pub, me.priv);
      SlotsExtend(box, me, b[SLOTBYTES..], if b[..16] == me.id then unsealed else found, more);
    }
  }

  lemma BodyExtends(p: Primitives, key: seq<byte>, b: seq<byte>, more: seq<byte>)
    requires Sized(p)
    ensures Extends(DecryptedBody(p, key, b), DecryptedBody(p, key, b + more))
  {
    hide ReadFrames;
    if |b| >= HEADERBYTES {
      assert (b + more)[..HEADERBYTES] == b[..HEADERBYTES] && (b + more)[HEADERBYTES..] == b[HEADERBYTES..] + more;
      FramesExtend(p, Init(p, b[..HEADERBYTES], key), b[HEADERBYTES..], more);
    }
  }

  lemma DecryptedExtends(box: Box, p: Primitives, me: KeyPair, b: seq<byte>, more: seq<byte>)
    requires Sized(p)
    ensures Extends(Decrypted(box, p, me, b), Decrypted(box, p, me, b + more))
  {
    SlotsExtend(box, me, b, None, more);
    var slots := ReadSlots(box, me, b, None);
    if slots.Slots? && slots.key.Some? {
      assert (b + more)[slots.used..] == b[slots.used..] + more;
      BodyExtends(p, slots.key.value, b[slots.used..], more);
    }
  }

  lemma ShorterFails(short: Outcome, long: Outcome)
    requires Extends(short, long) && short.used < long.used
    ensures !short.ok && short.written <= long.written
  {
  }

  /** What decrypts in full fails, having written a beginning of the same, when cut short. */
  lemma PrefixFails(box: Box, p: Primitives, me: KeyPair, b: seq<byte>, more: seq<byte>)
    requires Sized(p) && Decrypted(box, p, me, b + more).used == |b + more| && more != []
    ensures !Decrypted(box, p, me, b).ok
    ensures Decrypted(box, p, me, b).written <= Decrypted(box, p, me, b + more).written
  {
    hide Extends;
    DecryptedExtends(box, p, me, b, more);
    ShorterFails(Decrypted(box, p, me, b), Decrypted(box, p, me, b + more));
  }

  lemma CutFails(box: Box, p: Primitives, me: KeyPair, all: seq<byte>, cut: nat)
    requires Sized(p) && Decrypted(box, p, me, all).used == |all| && cut < |all|
    ensures !Decrypted(box, p, me, all[..cut]).ok
    ensures Decrypted(box, p, me, all[..cut]).written <= Decrypted(box, p, me, all).written
  {
    hide Decrypted;
    var b, more := all[..cut], all[cut..];
    assert all == b + more;
    PrefixFails(box, p, me, b, more);
  }

  /** Every truncation is noticed, and what was written by then is a beginning of the plaintext. */
  lemma TruncationFails(box: Box, p: Primitives, slots: seq<KeySlot>, s: Secrets, me: KeyPair,
                        plaintext: seq<byte>, cut: nat)
    requires Sized(p) && ValidSecrets(s) && ValidSlots(slots) && SealedSized(box) && Addressed(box, slots, me)
    ensures var e := Encrypted(box, p, slots, s, plaintext);
            e.Some? && cut < |e.value| ==>
              var r := Decrypted(box, p, me, e.value[..cut]); !r.ok && r.written <= plaintext
  {
    if Encrypted(box, p, slots, s, plaintext).None? || cut >= |Encrypted(box, p, slots, s, plaintext).value| { return; }
    hide Encrypted, Decrypted;
    var all := Encrypted(box, p, slots, s, plaintext).value;
    RoundTrip(box, p, slots, s, me, plaintext, []);
    assert all + [] == all;
    CutFails(box, p, me, all, cut);
  }

  // ----- alteration -----

  /** The j-th sealed message of a payload, the final one last, and the state it is sealed in. */
  function SealedAt(p: Primitives, s: State, chunks: seq<seq<byte>>, j: nat): seq<byte>
    requires Sized(p) && Valid(s) && j <= |chunks|
  {
    var here := SentState(p, s, chunks[..j]);
    if j < |chunks| then Push(p, here, chunks[j], [], 0).out else Push(p, here, [], [], TAG_FINAL).out
  }

  /** The messages after the j-th, framed. */
  function After(p: Primitives, s: State, chunks: seq<seq<byte>>, j: nat): seq<byte>
    requires Sized(p) && Valid(s) && j <= |chunks|
  {
    if j < |chunks| then Frames(p, SentState(p, s, chunks[..j + 1]), chunks[j + 1..]) else []
  }

  lemma {:induction false} FramesAt(p: Primitives, s: State, chunks: seq<seq<byte>>, j: nat)
    requires Sized(p) && Valid(s) && j <= |chunks|
    ensures Frames(p, s, chunks)
         == Sent(p, s, chunks[..j]) + (Frame(SealedAt(p, s, chunks, j)) + After(p, s, chunks, j))
  {
    hide Frame, Push;
    assert chunks == chunks[..j] + chunks[j..];
    FramesSplit(p, s, chunks[..j], chunks[j..]);
    if j < |chunks| {
      assert chunks[j..][0] == chunks[j] && chunks[j..][1..] == chunks[j + 1..];
      SentStateNext(p, s, chunks, j);
    } else {
      assert Frame(SealedAt(p, s, chunks, j)) + [] == Frame(SealedAt(p, s, chunks, j));
    }
  }

  lemma {:induction false} SentStateNext(p: Primitives, s: State, chunks: seq<seq<byte>>, j: nat)
    requires Sized(p) && Valid(s) && j < |chunks|
    ensures SentState(p, s, chunks[..j + 1]) == Push(p, SentState(p, s, chunks[..j]), chunks[j], [], 0).next
    decreases |chunks|
  {
    hide Push;
    if j > 0 {
      var r := Push(p, s, chunks[0], [], 0);
      assert chunks[..j + 1][1..] == chunks[1..][..j] && chunks[..j][1..] == chunks[1..][..j - 1];
      SentStateNext(p, r.next, chunks[1..], j - 1);
    } else {
      assert chunks[..1][1..] == [];
    }
  }

  /** A refused message ends the reading, after what came before it. */
  lemma {:induction false} RefusedAt(p: Primitives, s: State, chunks: seq<seq<byte>>, input: seq<byte>, rest: seq<byte>)
    requires Sized(p) && Valid(s) && |input| <= CIPHERTEXT_CHUNK && forall c :: c in chunks ==> |c| <= PLAINTEXT_CHUNK
    requires Pull(p, SentState(p, s, chunks), input, []).None?
    ensures var r := ReadFrames(p, s, Sent(p, s, chunks) + (Frame(input) + rest));
            !r.ok && r.written == Flatten(chunks)
    decreases |chunks|
  {
    if chunks == [] {
      FrameEntry(input, rest);
      assert [] + (Frame(input) + rest) == Frame(input) + rest;
    } else {
      var r := Push(p, s, chunks[0], [], 0);
      var tail := Sent(p, r.next, chunks[1..]) + (Frame(input) + rest);
      assert chunks[0] in chunks;
      PullInvertsPush(p, s, chunks[0], [], 0);
      Assoc(Frame(r.out), Sent(p, r.next, chunks[1..]), Frame(input) + rest);
      hide Frame, Push, Pull;
      FrameEntry(r.out, tail);
      RefusedAt(p, r.next, chunks[1..], input, rest);
    }
  }

  /** The frames with the j-th message replaced, and everything after it by anything. */
  function Replaced(p: Primitives, s: State, chunks: seq<seq<byte>>, j: nat, input: seq<byte>,
                    rest: seq<byte>): seq<byte>
    requires Sized(p) && Valid(s) && j <= |chunks|
  {
    Sent(p, s, chunks[..j]) + (Frame(input) + rest)
  }

  /** Altered before the authenticator at its end, or in it, but not in both. */
  predicate Altered(out: seq<byte>, input: seq<byte>) {
    && |input| == |out| >= ABYTES && input != out
    && (input[|out| - MACBYTES..] == out[|out| - MACBYTES..] || input[..|out| - MACBYTES] == out[..|out| - MACBYTES])
  }

  /** The alteration of the j-th message is a second text with the same authenticator. */
  ghost predicate Forged(p: Primitives, s: State, chunks: seq<seq<byte>>, j: nat, input: seq<byte>)
    requires Sized(p) && Valid(s) && j <= |chunks| && Altered(SealedAt(p, s, chunks, j), input)
  {
    Collides(p, SentState(p, s, chunks[..j]), SealedAt(p, s, chunks, j), [], input, [])
  }

  lemma AlteredMessage(p: Primitives, s: State, chunks: seq<seq<byte>>, j: nat, input: seq<byte>)
    requires Sized(p) && Valid(s) && j <= |chunks| && forall c :: c in chunks ==> |c| <= PLAINTEXT_CHUNK
    requires Altered(SealedAt(p, s, chunks, j), input)
    ensures Pull(p, SentState(p, s, chunks[..j]), input, []).None? || Forged(p, s, chunks, j, input)
    ensures |input| <= CIPHERTEXT_CHUNK
  {
    var here := SentState(p, s, chunks[..j]);
    hide Pull, Collides, SentState;
    if j < |chunks| {
      assert chunks[j] in chunks;
      AlteredIsRefused(p, here, chunks[j], [], 0, input);
    } else {
      AlteredIsRefused(p, here, [], [], TAG_FINAL, input);
    }
  }

  lemma AlteredFrames(p: Primitives, s: State, chunks: seq<seq<byte>>, j: nat, input: seq<byte>, rest: seq<byte>)
    requires Sized(p) && Valid(s) && j <= |chunks| && forall c :: c in chunks ==> |c| <= PLAINTEXT_CHUNK
    requires Altered(SealedAt(p, s, chunks, j), input) && !Forged(p, s, chunks, j, input)
    ensures var r := ReadFrames(p, s, Replaced(p, s, chunks, j, input, rest));
            !r.ok && r.written == Flatten(chunks[..j])
  {
    hide Pull, Forged, SentState, Sent, ReadFrames, SealedAt;
    AlteredMessage(p, s, chunks, j, input);
    assert forall c :: c in chunks[..j] ==> c in chunks;
    RefusedAt(p, s, chunks[..j], input, rest);
  }

  /** The state a payload is sealed from. */
  function Sealing(p: Primitives, s: Secrets): (start: State)
    requires Sized(p) && ValidSecrets(s)
    ensures Valid(start)
  {
    Init(p, s.header, s.symKey)
  }

  /**
   * A payload in which one sealed message is altered, before its authenticator
   * or in it, is refused there, whatever follows, unless the alteration is a
   * forgery; what was written by then are the chunks before it.
   */
  lemma AlteredFails(box: Box, p: Primitives, slots: seq<KeySlot>, s: Secrets, me: KeyPair, plaintext: seq<byte>,
                     j: nat, input: seq<byte>, rest: seq<byte>)
    requires Sized(p) && ValidSecrets(s) && ValidSlots(slots) && SealedSized(box) && Addressed(box, slots, me)
    ensures var chunks, start, table := Chunks(plaintext, PLAINTEXT_CHUNK), Sealing(p, s), SlotTable(box, slots, s);
            table.Some? && j <= |chunks|
            && Altered(SealedAt(p, start, chunks, j), input) && !Forged(p, start, chunks, j, input) ==>
              var r := Decrypted(box, p, me, table.value + (s.header + Replaced(p, start, chunks, j, input, rest)));
              !r.ok && r.written == Flatten(chunks[..j]) <= plaintext
  {
    var chunks, start := Chunks(plaintext, PLAINTEXT_CHUNK), Sealing(p, s);
    hide Forged, SealedAt, ReadFrames, Replaced, Decrypted, Flatten, Chunks, Altered, Init;
    if SlotTable(box, slots, s).Some? && j <= |chunks|
       && Altered(SealedAt(p, start, chunks, j), input) && !Forged(p, start, chunks, j, input) {
      FlattenBeginning(plaintext, PLAINTEXT_CHUNK, j);
      AlteredFrames(p, start, chunks, j, input, rest);
      HeaderThen(box, p, slots, s, me, Replaced(p, start, chunks, j, input, rest));
    }
  }

  /** Past a readable slot table and the header, decryption is reading the frames. */
  lemma HeaderThen(box: Box, p: Primitives, slots: seq<KeySlot>, s: Secrets, me: KeyPair, frames: seq<byte>)
    requires Sized(p) && ValidSecrets(s) && ValidSlots(slots) && SealedSized(box) && Addressed(box, slots, me)
    requires SlotTable(box, slots, s).Some?
    ensures var r, f := Decrypted(box, p, me, SlotTable(box, slots, s).value + (s.header + frames)),
                        ReadFrames(p, Init(p, s.header, s.symKey), frames);
            r.ok == f.ok && r.written == f.written
  {
    hide ReadFrames, Init;
    var table, body := SlotTable(box, slots, s).value, s.header + frames;
    SlotsRoundTrip(box, slots, s, me, None, body);
    assert (table + body)[|table|..] == body && body[..HEADERBYTES] == s.header && body[HEADERBYTES..] == frames;
  }

  lemma {:induction false} FlattenBeginning(data: seq<byte>, n: nat, j: nat)
    requires n > 0 && j <= |Chunks(data, n)|
    ensures Flatten(Chunks(data, n)[..j]) <= data
    decreases |data|
  {
    if j > 0 {
      var k := Min(n, |data|);
      FlattenBeginning(data[k..], n, j - 1);
      assert Chunks(data, n)[..j] == [data[..k]] + Chunks(data[k..], n)[..j - 1];
      FlattenCons(data[..k], Chunks(data[k..], n)[..j - 1]);
      assert data == data[..k] + data[k..];
    }
  }

  /** The payload, with its frames in three parts. */
  lemma PayloadAt(box: Box, p: Primitives, slots: seq<KeySlot>, s: Secrets, plaintext: seq<byte>, j: nat)
    requires Sized(p) && ValidSecrets(s) && SlotTable(box, slots, s).Some?
    requires j <= |Chunks(plaintext, PLAINTEXT_CHUNK)|
    ensures var chunks, start := Chunks(plaintext, PLAINTEXT_CHUNK), Sealing(p, s);
            Encrypted(box, p, slots, s, plaintext) == Some(SlotTable(box, slots, s).value + (s.header +
              (Sent(p, start, chunks[..j]) + (Frame(SealedAt(p, start, chunks, j)) + After(p, start, chunks, j)))))
  {
    hide SealedAt, After, Frame, Frames, Sent, Init, Chunks, SlotTable;
    FramesAt(p, Sealing(p, s), Chunks(plaintext, PLAINTEXT_CHUNK), j);
  }

  /** A payload all, with out its j-th sealed message, i bytes in. */
  ghost predicate HoldsAt(box: Box, p: Primitives, slots: seq<KeySlot>, s: Secrets, plaintext: seq<byte>,
                          all: seq<byte>, j: nat, out: seq<byte>, i: nat)
    requires Sized(p) && ValidSecrets(s)
  {
    var chunks, start, table := Chunks(plaintext, PLAINTEXT_CHUNK), Sealing(p, s), SlotTable(box, slots, s);
    && Encrypted(box, p, slots, s, plaintext) == Some(all) && table.Some? && j <= |chunks|
    && out == SealedAt(p, start, chunks, j)
    && i == |table.value| + HEADERBYTES + |Sent(p, start, chunks[..j])| + 4
  }

  /**
   * In particular one altered byte in a sealed message: d bytes into the j-th,
   * anything but what was there makes decryption throw, unless it is a forgery.
   */
  lemma AlteredByteFails(box: Box, p: Primitives, slots: seq<KeySlot>, s: Secrets, me: KeyPair, plaintext: seq<byte>,
                         all: seq<byte>, j: nat, out: seq<byte>, i: nat, d: nat, x: byte)
    requires Sized(p) && ValidSecrets(s) && ValidSlots(slots) && SealedSized(box) && Addressed(box, slots, me)
    ensures HoldsAt(box, p, slots, s, plaintext, all, j, out, i) && d < |out| ==>
              && i + d < |all| && all[i + d] == out[d]
              && (x != out[d] ==> Altered(out, out[d := x]))
              && (x != out[d] && !Forged(p, Sealing(p, s), Chunks(plaintext, PLAINTEXT_CHUNK), j, out[d := x]) ==>
                    var r := Decrypted(box, p, me, all[i + d := x]); !r.ok && r.written <= plaintext)
  {
    var chunks, start := Chunks(plaintext, PLAINTEXT_CHUNK), Sealing(p, s);
    if !HoldsAt(box, p, slots, s, plaintext, all, j, out, i) || d >= |out| { return; }
    ByteAt(box, p, slots, s, plaintext, all, j, out, i, d, x);
    SealedLength(p, start, chunks, j);
    hide Forged, SealedAt, After, Sent, Init, Chunks, Decrypted, Flatten;
    hide Encrypted, SlotTable, Sealing, Replaced, Frame;
    if x != out[d] {
      OneByte(out, d, x);
      hide Altered;
      if !Forged(p, start, chunks, j, out[d := x]) {
        AlteredFails(box, p, slots, s, me, plaintext, j, out[d := x], After(p, start, chunks, j));
      }
    }
  }

  lemma ByteAt(box: Box, p: Primitives, slots: seq<KeySlot>, s: Secrets, plaintext: seq<byte>,
               all: seq<byte>, j: nat, out: seq<byte>, i: nat, d: nat, x: byte)
    requires Sized(p) && ValidSecrets(s) && HoldsAt(box, p, slots, s, plaintext, all, j, out, i) && d < |out|
    ensures i + d < |all| && all[i + d] == out[d]
    ensures var chunks, start := Chunks(plaintext, PLAINTEXT_CHUNK), Sealing(p, s);
            all[i + d := x] == SlotTable(box, slots, s).value
                             + (s.header + Replaced(p, start, chunks, j, out[d := x], After(p, start, chunks, j)))
  {
    PayloadAt(box, p, slots, s, plaintext, j);
    hide SealedAt, After, Frame, Sent, Chunks, Encrypted, SlotTable, Sealing;
    var chunks, start := Chunks(plaintext, PLAINTEXT_CHUNK), Sealing(p, s);
    var sent, rest := Sent(p, start, chunks[..j]), After(p, start, chunks, j);
    assert Replaced(p, start, chunks, j, out[d := x], rest) == sent + (Frame(out[d := x]) + rest);
    hide Replaced;
    PayloadUpdate(all, SlotTable(box, slots, s).value, s.header, sent, out, rest, i, d, x);
  }

  lemma PayloadUpdate(all: seq<byte>, table: seq<byte>, header: seq<byte>, sent: seq<byte>, out: seq<byte>,
                      rest: seq<byte>, i: nat, d: nat, x: byte)
    requires d < |out| && all == table + (header + (sent + (Frame(out) + rest)))
    requires i == |table| + |header| + |sent| + 4
    ensures i + d < |all| && all[i + d] == out[d]
    ensures all[i + d := x] == table + (header + (sent + (Frame(out[d := x]) + rest)))
  {
    hide Frame;
    FrameUpdate(table, header, sent, out, rest, d, x);
  }

  lemma SealedLength(p: Primitives, s: State, chunks: seq<seq<byte>>, j: nat)
    requires Sized(p) && Valid(s) && j <= |chunks|
    ensures |SealedAt(p, s, chunks, j)| >= ABYTES
  {
  }

  lemma OneByte(out: seq<byte>, d: nat, x: byte)
    requires |out| >= ABYTES && d < |out| && x != out[d]
    ensures Altered(out, out[d := x])
  {
    var input := out[d := x];
    assert input[d] != out[d];
    if d < |out| - MACBYTES {
      assert input[|out| - MACBYTES..] == out[|out| - MACBYTES..];
    } else {
      assert input[..|out| - MACBYTES] == out[..|out| - MACBYTES];
    }
  }

  lemma FrameUpdate(table: seq<byte>, header: seq<byte>, sent: seq<byte>, out: seq<byte>, rest: seq<byte>,
                    d: nat, x: byte)
    requires d < |out|
    ensures var i, all := |table| + |header| + |sent| + 4 + d, table + (header + (sent + (Frame(out) + rest)));
            && i < |all| && all[i] == out[d]
            && all[i := x] == table + (header + (sent + (Frame(out[d := x]) + rest)))
  {
    UpdateAfter(LittleEndian(|out|, 4), out, rest, d, x);
    var f, g := Frame(out) + rest, Frame(out[d := x]) + rest;
    UpdateIn(sent, f, 4 + d, x);
    UpdateIn(header, sent + f, |sent| + 4 + d, x);
    UpdateIn(table, header + (sent + f), |header| + |sent| + 4 + d, x);
  }

  lemma UpdateAfter(a: seq<byte>, b: seq<byte>, c: seq<byte>, d: nat, x: byte)
    requires d < |b|
    ensures (a + b + c)[|a| + d] == b[d] && (a + b + c)[|a| + d := x] == a + b[d := x] + c
  {
  }

  lemma UpdateIn(a: seq<byte>, b: seq<byte>, i: nat, x: byte)
    requires i < |b|
    ensures (a + b)[|a| + i] == b[i] && (a + b)[|a| + i := x] == a + b[i := x]
  {
  }
}
