// The secret stream: pushing and pulling as two parties whose states stay in
// step.  The cipher and the authenticator are parameters.
module Secretstream {
  import opened Bits
  import opened Options
  import opened Serialisation

  const KEYBYTES := 32
  const INONCEBYTES := 8
  const COUNTERBYTES := 4
  const HEADERBYTES := 24
  const MACBYTES := 16
  const ABYTES := 17
  const MESSAGEBYTES_MAX := 64 * (0x1_0000_0000 - 2)
  const TAG_REKEY: byte := 2
  const TAG_FINAL: byte := 3

  /** Key derivation from a header, key stream from a block on, and one-time authenticator. */
  datatype Primitives = Primitives(
    hchacha: (seq<byte>, seq<byte>) -> seq<byte>,
    stream: (seq<byte>, seq<byte>, nat, nat) -> seq<byte>,
    mac: (seq<byte>, seq<byte>) -> seq<byte>)

  ghost predicate Sized(p: Primitives) {
    && (forall h, k :: |p.hchacha(h, k)| == KEYBYTES)
    && (forall k, n, block, len :: |p.stream(k, n, block, len)| == len)
    && (forall k, m :: |p.mac(k, m)| == MACBYTES)
  }

  // ----- exclusive or -----

  function XorBits(x: nat, y: nat, w: nat): (r: nat)
    ensures r < Pow2(w)
  {
    if w == 0 then 0 else (if x % 2 == y % 2 then 0 else 1) + 2 * XorBits(x / 2, y / 2, w - 1)
  }

  function Xor(x: byte, y: byte): byte {
    assert Pow2(8) == 256 by { Pow2Byte(0); }
    XorBits(x, y, 8)
  }

  lemma {:induction false} XorBitsTwice(x: nat, y: nat, w: nat)
    requires x < Pow2(w)
    ensures XorBits(XorBits(x, y, w), y, w) == x
  {
    if w > 0 {
      var r := XorBits(x, y, w);
      assert r / 2 == XorBits(x / 2, y / 2, w - 1) && r % 2 == if x % 2 == y % 2 then 0 else 1;
      XorBitsTwice(x / 2, y / 2, w - 1);
    }
  }

  /** A bit is set exactly if it is set in one of the two and not in the other. */
  lemma {:induction false} XorIsBitwise(x: nat, y: nat, w: nat, k: nat)
    requires k < w
    ensures Bit(XorBits(x, y, w), k) <==> Bit(x, k) != Bit(y, k)
  {
    if k > 0 {
      assert XorBits(x, y, w) / 2 == XorBits(x / 2, y / 2, w - 1);
      XorIsBitwise(x / 2, y / 2, w - 1, k - 1);
    }
  }

  function XorAll(a: seq<byte>, b: seq<byte>): (r: seq<byte>)
    requires |a| == |b|
    ensures |r| == |a| && forall i :: 0 <= i < |a| ==> r[i] == Xor(a[i], b[i])
  {
    seq(|a|, i requires 0 <= i < |a| => Xor(a[i], b[i]))
  }

  lemma XorTwice(x: byte, y: byte)
    ensures Xor(Xor(x, y), y) == x
  {
    Pow2Byte(0);
    XorBitsTwice(x, y, 8);
  }

  lemma XorAllTwice(a: seq<byte>, b: seq<byte>)
    requires |a| == |b|
    ensures XorAll(XorAll(a, b), b) == a
  {
    forall i | 0 <= i < |a| { XorTwice(a[i], b[i]); }
  }

  // ----- state -----

  /** Session key; the nonce is a 4-byte counter and an 8-byte chained part. */
  datatype State = State(k: seq<byte>, counter: seq<byte>, inonce: seq<byte>)

  predicate Valid(s: State) {
    |s.k| == KEYBYTES && |s.counter| == COUNTERBYTES && |s.inonce| == INONCEBYTES
  }

  const FIRST_COUNTER: seq<byte> := [1, 0, 0, 0]

  function Init(p: Primitives, header: seq<byte>, key: seq<byte>): State
    requires |header| == HEADERBYTES
  {
    State(p.hchacha(header[..16], key), FIRST_COUNTER, header[16..])
  }

  /** The counter, read as a little-endian number, plus one. */
  function Increment(counter: seq<byte>): seq<byte> {
    LittleEndian(FromLittleEndian(counter) + 1, |counter|)
  }

  /** New key and nonce from the key stream; the counter restarts. */
  function Rekeyed(p: Primitives, s: State): State
    requires Sized(p) && Valid(s)
  {
    var renewed := XorAll(s.k + s.inonce, p.stream(s.k, s.counter + s.inonce, 0, KEYBYTES + INONCEBYTES));
    State(renewed[..KEYBYTES], FIRST_COUNTER, renewed[KEYBYTES..])
  }

  /** After a message: chain its authenticator, count it, and rekey on request or wrap-around. */
  function After(p: Primitives, s: State, mac: seq<byte>, tag: byte): (s': State)
    requires Sized(p) && Valid(s) && |mac| == MACBYTES
    ensures Valid(s')
  {
    var next := State(s.k, Increment(s.counter), XorAll(s.inonce, mac[..INONCEBYTES]));
    if And(tag, TAG_REKEY) != 0 || FromLittleEndian(next.counter) == 0 then Rekeyed(p, next) else next
  }

  // ----- messages -----

  function Zeros(n: nat): (z: seq<byte>)
    ensures |z| == n && forall i :: 0 <= i < n ==> z[i] == 0
  {
    seq(n, _ => 0)
  }

  /** The authenticated text, with the padding lengths the source computes. */
  function Authenticated(ad: seq<byte>, block: seq<byte>, c: seq<byte>): seq<byte> {
    ad + Zeros((16 - |ad| % 16) % 16) + block + c + Zeros((|c| + W64 - 48) % 16)
    + LittleEndian(|ad|, 8) + LittleEndian(64 + |c|, 8)
  }

  function MacOf(p: Primitives, s: State, ad: seq<byte>, block: seq<byte>, c: seq<byte>): seq<byte> {
    p.mac(p.stream(s.k, s.counter + s.inonce, 0, 64), Authenticated(ad, block, c))
  }

  /** The 64-byte tag block: the encrypted tag, then key stream. */
  function TagBlock(p: Primitives, s: State, first: byte): seq<byte>
    requires Sized(p)
  {
    XorAll([first] + Zeros(63), p.stream(s.k, s.counter + s.inonce, 1, 64))
  }

  function Body(p: Primitives, s: State, m: seq<byte>): seq<byte>
    requires Sized(p)
  {
    XorAll(m, p.stream(s.k, s.counter + s.inonce, 2, |m|))
  }

  datatype Pushed = Pushed(out: seq<byte>, next: State)

  function Push(p: Primitives, s: State, m: seq<byte>, ad: seq<byte>, tag: byte): (r: Pushed)
    requires Sized(p) && Valid(s)
    ensures |r.out| == |m| + ABYTES && Valid(r.next)
  {
    var block := TagBlock(p, s, tag);
    var c := Body(p, s, m);
    var mac := MacOf(p, s, ad, block, c);
    Pushed([block[0]] + c + mac, After(p, s, mac, tag))
  }

  datatype Pulled = Pulled(m: seq<byte>, tag: byte, next: State)

  /** None for a message that is too short or does not authenticate. */
  function Pull(p: Primitives, s: State, input: seq<byte>, ad: seq<byte>): Option<Pulled>
    requires Sized(p) && Valid(s)
  {
    if |input| < ABYTES then None
    else
      var mlen := |input| - ABYTES;
      var decrypted := TagBlock(p, s, input[0]);
      var tag := decrypted[0];
      var block := decrypted[0 := input[0]];
      var c := input[1..1 + mlen];
      var mac := MacOf(p, s, ad, block, c);
      if mac != input[1 + mlen..] then None
      else Some(Pulled(Body(p, s, c), tag, After(p, s, mac, tag)))
  }

  /** Whichever side computes it, the authenticated tag block is the same. */
  lemma TagBlocksAgree(p: Primitives, s: State, tag: byte)
    requires Sized(p)
    ensures var sent := TagBlock(p, s, tag);
            TagBlock(p, s, sent[0])[0] == tag && TagBlock(p, s, sent[0])[0 := sent[0]] == sent
  {
    var ks := p.stream(s.k, s.counter + s.inonce, 1, 64);
    XorTwice(tag, ks[0]);
    var sent := TagBlock(p, s, tag);
    var received := TagBlock(p, s, sent[0])[0 := sent[0]];
    forall i | 0 <= i < 64 ensures received[i] == sent[i] {
      if i > 0 { assert ([tag] + Zeros(63))[i] == ([sent[0]] + Zeros(63))[i]; }
    }
  }

  lemma BodyTwice(p: Primitives, s: State, m: seq<byte>)
    requires Sized(p)
    ensures Body(p, s, Body(p, s, m)) == m
  {
    XorAllTwice(m, p.stream(s.k, s.counter + s.inonce, 2, |m|));
  }

  /** A pull in the pusher's state returns what was pushed and ends in the pusher's next state. */
  lemma PullInvertsPush(p: Primitives, s: State, m: seq<byte>, ad: seq<byte>, tag: byte)
    requires Sized(p) && Valid(s)
    ensures var r := Push(p, s, m, ad, tag);
            Pull(p, s, r.out, ad) == Some(Pulled(m, tag, r.next))
  {
    var block, c := TagBlock(p, s, tag), Body(p, s, m);
    var mac := MacOf(p, s, ad, block, c);
    var out := [block[0]] + c + mac;
    assert out[1..1 + |m|] == c && out[1 + |m|..] == mac;
    TagBlocksAgree(p, s, tag);
    BodyTwice(p, s, m);
  }

  /** A pull accepts nothing else: an accepted message is the one a push would have made. */
  lemma PushInvertsPull(p: Primitives, s: State, input: seq<byte>, ad: seq<byte>)
    requires Sized(p) && Valid(s) && Pull(p, s, input, ad).Some?
    ensures var r := Pull(p, s, input, ad).value;
            Push(p, s, r.m, ad, r.tag) == Pushed(input, r.next)
  {
    var mlen := |input| - ABYTES;
    var r := Pull(p, s, input, ad).value;
    var c := input[1..1 + mlen];
    BodyTwice(p, s, c);
    var ks := p.stream(s.k, s.counter + s.inonce, 1, 64);
    XorTwice(input[0], ks[0]);
    assert TagBlock(p, s, r.tag)[0] == input[0];
    TagBlocksAgree(p, s, r.tag);
    assert [input[0]] + c + input[1 + mlen..] == input;
  }

  // ----- what the authenticator covers -----

  lemma AuthenticatedParts(ad: seq<byte>, block: seq<byte>, c: seq<byte>)
    requires |block| == 64
    ensures var x, b := Authenticated(ad, block, c), |ad| + (16 - |ad| % 16) % 16;
            && |x| >= b + 64 + |c| + 16
            && x[|x| - 8..] == LittleEndian(64 + |c|, 8) && x[|x| - 16..|x| - 8] == LittleEndian(|ad|, 8)
            && x[..|ad|] == ad && x[b..b + 64] == block && x[b + 64..b + 64 + |c|] == c
  {
    var pad1, pad2 := Zeros((16 - |ad| % 16) % 16), Zeros((|c| + W64 - 48) % 16);
    var l1, l2 := LittleEndian(|ad|, 8), LittleEndian(64 + |c|, 8);
    SixParts(ad, pad1, block, c, pad2, l1, l2);
  }

  lemma SixParts(a: seq<byte>, p: seq<byte>, b: seq<byte>, c: seq<byte>, q: seq<byte>, l1: seq<byte>, l2: seq<byte>)
    requires |l1| == |l2| == 8
    ensures var x, i := a + p + b + c + q + l1 + l2, |a| + |p|;
            && |x| == i + |b| + |c| + |q| + 16
            && x[|x| - 8..] == l2 && x[|x| - 16..|x| - 8] == l1
            && x[..|a|] == a && x[i..i + |b|] == b && x[i + |b|..i + |b| + |c|] == c
  {
  }

  lemma LengthIsRead(m: nat, n: nat)
    requires m < W64 && n < W64 && LittleEndian(m, 8) == LittleEndian(n, 8)
    ensures m == n
  {
    assert Pow2(64) == W64 by { Pow2Word(); }
    EndianRoundTrip(m, 8);
    EndianRoundTrip(n, 8);
  }

  /** Different data, tag block or ciphertext is a different text to authenticate. */
  lemma AuthenticatedInjective(ad1: seq<byte>, block1: seq<byte>, c1: seq<byte>,
                               ad2: seq<byte>, block2: seq<byte>, c2: seq<byte>)
    requires |block1| == 64 == |block2| && |ad1| < W64 && |ad2| < W64 && 64 + |c1| < W64 && 64 + |c2| < W64
    ensures Authenticated(ad1, block1, c1) == Authenticated(ad2, block2, c2)
        ==> ad1 == ad2 && block1 == block2 && c1 == c2
  {
    AuthenticatedParts(ad1, block1, c1);
    AuthenticatedParts(ad2, block2, c2);
    hide Authenticated, LittleEndian;
    if Authenticated(ad1, block1, c1) == Authenticated(ad2, block2, c2) {
      LengthIsRead(|ad1|, |ad2|);
      LengthIsRead(64 + |c1|, 64 + |c2|);
    }
  }

  /** What is authenticated of an input: all of it but the authenticator at its end, with the data. */
  function TextOf(p: Primitives, s: State, input: seq<byte>, ad: seq<byte>): seq<byte>
    requires Sized(p) && |input| >= ABYTES
  {
    Authenticated(ad, TagBlock(p, s, input[0])[0 := input[0]], input[1..|input| - MACBYTES])
  }

  function OneTimeKey(p: Primitives, s: State): seq<byte> { p.stream(s.k, s.counter + s.inonce, 0, 64) }

  /** An input is accepted exactly if it ends in the authenticator of the rest of it. */
  lemma PullAccepts(p: Primitives, s: State, input: seq<byte>, ad: seq<byte>)
    requires Sized(p) && Valid(s)
    ensures Pull(p, s, input, ad).Some? <==>
              |input| >= ABYTES && p.mac(OneTimeKey(p, s), TextOf(p, s, input, ad)) == input[|input| - MACBYTES..]
  {
  }

  lemma TextIsInput(p: Primitives, s: State, input1: seq<byte>, ad1: seq<byte>, input2: seq<byte>, ad2: seq<byte>)
    requires Sized(p) && ABYTES <= |input1| <= MESSAGEBYTES_MAX + ABYTES
    requires ABYTES <= |input2| <= MESSAGEBYTES_MAX + ABYTES
    requires |ad1| < W64 && |ad2| < W64 && TextOf(p, s, input1, ad1) == TextOf(p, s, input2, ad2)
    ensures ad1 == ad2 && input1[..|input1| - MACBYTES] == input2[..|input2| - MACBYTES]
  {
    var block1, block2 := TagBlock(p, s, input1[0])[0 := input1[0]], TagBlock(p, s, input2[0])[0 := input2[0]];
    var c1, c2 := input1[1..|input1| - MACBYTES], input2[1..|input2| - MACBYTES];
    AuthenticatedInjective(ad1, block1, c1, ad2, block2, c2);
    assert block1[0] == input1[0] && block2[0] == input2[0];
    assert input1[..|input1| - MACBYTES] == [input1[0]] + c1 && input2[..|input2| - MACBYTES] == [input2[0]] + c2;
  }

  /** Two different texts with one authenticator. */
  ghost predicate Collides(p: Primitives, s: State, input1: seq<byte>, ad1: seq<byte>,
                           input2: seq<byte>, ad2: seq<byte>)
    requires Sized(p) && |input1| >= ABYTES && |input2| >= ABYTES
  {
    && TextOf(p, s, input1, ad1) != TextOf(p, s, input2, ad2)
    && p.mac(OneTimeKey(p, s), TextOf(p, s, input1, ad1)) == p.mac(OneTimeKey(p, s), TextOf(p, s, input2, ad2))
  }

  /** From one state, two accepted inputs with the same authenticator are the same, data and all, or a collision. */
  lemma AcceptedOnce(p: Primitives, s: State, input1: seq<byte>, ad1: seq<byte>, input2: seq<byte>, ad2: seq<byte>)
    requires Sized(p) && Valid(s) && |ad1| < W64 && |ad2| < W64
    requires |input1| <= MESSAGEBYTES_MAX + ABYTES && |input2| <= MESSAGEBYTES_MAX + ABYTES
    requires Pull(p, s, input1, ad1).Some? && Pull(p, s, input2, ad2).Some?
    requires input1[|input1| - MACBYTES..] == input2[|input2| - MACBYTES..]
    ensures Collides(p, s, input1, ad1, input2, ad2) || (input1 == input2 && ad1 == ad2)
  {
    PullAccepts(p, s, input1, ad1);
    PullAccepts(p, s, input2, ad2);
    hide TextOf, Pull;
    if TextOf(p, s, input1, ad1) == TextOf(p, s, input2, ad2) {
      TextIsInput(p, s, input1, ad1, input2, ad2);
      assert input1 == input1[..|input1| - MACBYTES] + input1[|input1| - MACBYTES..];
      assert input2 == input2[..|input2| - MACBYTES] + input2[|input2| - MACBYTES..];
    }
  }

  /** A sealed message altered before its authenticator, or in it, is refused, unless that is a collision. */
  lemma AlteredIsRefused(p: Primitives, s: State, m: seq<byte>, ad: seq<byte>, tag: byte, input: seq<byte>)
    requires Sized(p) && Valid(s) && |m| <= MESSAGEBYTES_MAX && |ad| < W64
    requires var out := Push(p, s, m, ad, tag).out;
             && |input| == |out| && input != out
             && (input[|m| + 1..] == out[|m| + 1..] || input[..|m| + 1] == out[..|m| + 1])
    ensures Pull(p, s, input, ad).None? || Collides(p, s, Push(p, s, m, ad, tag).out, ad, input, ad)
  {
    var out := Push(p, s, m, ad, tag).out;
    PullInvertsPush(p, s, m, ad, tag);
    if input[|m| + 1..] == out[|m| + 1..] {
      if Pull(p, s, input, ad).Some? { AcceptedOnce(p, s, out, ad, input, ad); }
    } else {
      PullAccepts(p, s, input, ad);
      PullAccepts(p, s, out, ad);
      SameText(p, s, input, out, ad);
    }
  }

  lemma SameText(p: Primitives, s: State, input1: seq<byte>, input2: seq<byte>, ad: seq<byte>)
    requires Sized(p) && |input1| == |input2| >= ABYTES
    requires input1[..|input1| - MACBYTES] == input2[..|input2| - MACBYTES]
    ensures TextOf(p, s, input1, ad) == TextOf(p, s, input2, ad)
  {
    var n := |input1| - MACBYTES;
    assert input1[0] == input1[..n][0] && input2[0] == input2[..n][0];
    assert input1[1..n] == input1[..n][1..] && input2[1..n] == input2[..n][1..];
  }

  // ----- whole conversations -----

  datatype Message = Message(m: seq<byte>, ad: seq<byte>, tag: byte)

  function Ads(ms: seq<Message>): (ads: seq<seq<byte>>)
    ensures |ads| == |ms|
  {
    if ms == [] then [] else [ms[0].ad] + Ads(ms[1..])
  }

  function PushAll(p: Primitives, s: State, ms: seq<Message>): (r: (seq<seq<byte>>, State))
    requires Sized(p) && Valid(s)
    ensures |r.0| == |ms| && Valid(r.1)
    decreases |ms|
  {
    if ms == [] then ([], s)
    else
      var first := Push(p, s, ms[0].m, ms[0].ad, ms[0].tag);
      var rest := PushAll(p, first.next, ms[1..]);
      ([first.out] + rest.0, rest.1)
  }

  /** The receiver knows the associated data; None as soon as one message is refused. */
  function PullAll(p: Primitives, s: State, inputs: seq<seq<byte>>, ads: seq<seq<byte>>): Option<(seq<Message>, State)>
    requires Sized(p) && Valid(s) && |inputs| == |ads|
    decreases |inputs|
  {
    if inputs == [] then Some(([], s))
    else
      match Pull(p, s, inputs[0], ads[0])
      case None => None
      case Some(first) =>
        PullValid(p, s, inputs[0], ads[0]);
        match PullAll(p, first.next, inputs[1..], ads[1..])
        case None => None
        case Some(rest) => Some(([Message(first.m, ads[0], first.tag)] + rest.0, rest.1))
  }

  lemma PullValid(p: Primitives, s: State, input: seq<byte>, ad: seq<byte>)
    requires Sized(p) && Valid(s)
    ensures Pull(p, s, input, ad).Some? ==> Valid(Pull(p, s, input, ad).value.next)
  {
  }

  /** Lockstep: from one state, everything pushed is pulled back and the states end equal. */
  lemma {:induction false} Lockstep(p: Primitives, s: State, ms: seq<Message>)
    requires Sized(p) && Valid(s)
    ensures var r := PushAll(p, s, ms);
            PullAll(p, s, r.0, Ads(ms)) == Some((ms, r.1))
    decreases |ms|
  {
    hide Push, Pull;
    var r, ads := PushAll(p, s, ms), Ads(ms);
    if ms != [] {
      var first := Push(p, s, ms[0].m, ms[0].ad, ms[0].tag);
      PullInvertsPush(p, s, ms[0].m, ms[0].ad, ms[0].tag);
      Lockstep(p, first.next, ms[1..]);
      assert r.0[1..] == PushAll(p, first.next, ms[1..]).0;
      assert ads[1..] == Ads(ms[1..]);
      assert [ms[0]] + ms[1..] == ms;
    }
  }

  /** Both ends start in the same state, whatever header the pusher drew. */
  lemma Conversation(p: Primitives, header: seq<byte>, key: seq<byte>, ms: seq<Message>)
    requires Sized(p) && |header| == HEADERBYTES
    ensures Valid(Init(p, header, key)) && FromLittleEndian(Init(p, header, key).counter) == 1
    ensures var r := PushAll(p, Init(p, header, key), ms);
            PullAll(p, Init(p, header, key), r.0, Ads(ms)) == Some((ms, r.1))
  {
    FirstIsOne();
    Lockstep(p, Init(p, header, key), ms);
  }

  // ----- the counter -----

  /** Counting is modulo 2^32. */
  lemma IncrementCounts(counter: seq<byte>)
    requires |counter| == COUNTERBYTES
    ensures var n := FromLittleEndian(counter);
            FromLittleEndian(Increment(counter)) == if n + 1 == 0x1_0000_0000 then 0 else n + 1
  {
    Word32();
    EndianBound(counter);
    if FromLittleEndian(counter) + 1 < Pow2(32) {
      EndianRoundTrip(FromLittleEndian(counter) + 1, 4);
    }
  }

  lemma Word32()
    ensures Pow2(32) == 0x1_0000_0000
    ensures LittleEndian(0x1_0000_0000, 4) == [0, 0, 0, 0] && FromLittleEndian([0, 0, 0, 0]) == 0
  {
    Pow2Byte(0);
    Pow2Byte(8);
    Pow2Byte(16);
    Pow2Byte(24);
    assert LittleEndian(0x100_0000, 3) == [0, 0, 0];
    assert [0, 0, 0, 0][1..] == [0, 0, 0] && [0, 0, 0][1..] == [0, 0] && [0, 0][1..] == [0];
  }

  /**
   * The counter is never zero when a message is sealed, and under one key it
   * only goes up: the key is renewed, and counting starts over, exactly on a
   * tag with the second bit set and when the numbers run out.
   */
  lemma CounterAdvances(p: Primitives, s: State, mac: seq<byte>, tag: byte)
    requires Sized(p) && Valid(s) && |mac| == MACBYTES && FromLittleEndian(s.counter) > 0
    ensures var s', count := After(p, s, mac, tag), FromLittleEndian(s.counter) + 1;
            var nonce := XorAll(s.inonce, mac[..8]);
            if tag / 2 % 2 == 1 || count == 0x1_0000_0000 then
              && FromLittleEndian(s'.counter) == 1
              && s'.k + s'.inonce == XorAll(s.k + nonce, p.stream(s.k, Increment(s.counter) + nonce, 0, 40))
            else
              s'.k == s.k && s'.inonce == nonce && FromLittleEndian(s'.counter) == count
  {
    IncrementCounts(s.counter);
    FirstIsOne();
    SecondBit(tag);
    hide And, Increment;
  }

  lemma FirstIsOne()
    ensures FromLittleEndian(FIRST_COUNTER) == 1
  {
    assert FIRST_COUNTER[1..] == [0, 0, 0] && [0, 0, 0][1..] == [0, 0] && [0, 0][1..] == [0];
  }

  lemma SecondBit(tag: byte)
    ensures And(tag, TAG_REKEY) != 0 <==> tag / 2 % 2 == 1
  {
    assert And(tag / 2, 1) == tag / 2 % 2;
  }

  /** A message may be exactly as long as the block numbers of its key stream, from 2 on, fit 32 bits. */
  lemma BlocksFit(length: nat)
    ensures length <= MESSAGEBYTES_MAX <==> 2 + (length + 63) / 64 <= 0x1_0000_0000
  {
  }

  // ----- the functions that update the state in place -----

  /** What the updates of the authenticator are given, one after the other. */
  method AuthenticatedText(ad: seq<byte>, block: seq<byte>, c: seq<byte>) returns (text: seq<byte>)
    requires |block| == 64
    ensures text == Authenticated(ad, block, c)
  {
    text := ad;
    text := text + Zeros((16 - |ad| % 16) % 16);
    text := text + block;
    text := text + c;
    text := text + Zeros((16 - 64 + |c| + W64) % 16);
    text := text + LittleEndian(|ad|, 8);
    text := text + LittleEndian(64 + |c|, 8);
  }

  class Stream {
    var k: seq<byte>
    var counter: seq<byte>
    var inonce: seq<byte>

    ghost function Value(): State
      reads this
    {
      State(k, counter, inonce)
    }

    constructor (p: Primitives, header: seq<byte>, key: seq<byte>)
      requires Sized(p) && |header| == HEADERBYTES
      ensures Valid(Value()) && Value() == Init(p, header, key)
    {
      k, counter, inonce := p.hchacha(header[..16], key), FIRST_COUNTER, header[16..];
    }

    method IncrementCounter()
      modifies this`counter
      ensures counter == Increment(old(counter))
    {
      var n: seq<byte>, c: nat := counter, 1;
      for i := 0 to |n|
        invariant |n| == |old(counter)| && c <= 1
        invariant n[i..] == old(counter)[i..]
        invariant Increment(old(counter)) == n[..i] + LittleEndian(FromLittleEndian(n[i..]) + c, |n| - i)
      {
        ghost var rest := n[i..];
        assert rest[1..] == n[i + 1..];
        var sum: nat := c + n[i];
        n := n[i := sum % 256];
        c := sum / 256;
        assert n[i + 1..] == rest[1..];
        CarryStep(rest, sum, c);
      }
      counter := n;
    }

    method Rekey(p: Primitives)
      requires Sized(p) && Valid(Value())
      modifies this
      ensures Value() == Rekeyed(p, old(Value())) && Valid(Value())
    {
      var renewed := XorAll(k + inonce, p.stream(k, counter + inonce, 0, KEYBYTES + INONCEBYTES));
      k, inonce := renewed[..KEYBYTES], renewed[KEYBYTES..];
      counter := FIRST_COUNTER;
    }

    method Advance(p: Primitives, mac: seq<byte>, tag: byte)
      requires Sized(p) && Valid(Value()) && |mac| == MACBYTES
      modifies this
      ensures Value() == After(p, old(Value()), mac, tag) && Valid(Value())
    {
      inonce := XorAll(inonce, mac[..INONCEBYTES]);
      IncrementCounter();
      if And(tag, TAG_REKEY) != 0 || FromLittleEndian(counter) == 0 {
        Rekey(p);
      }
    }

    /** Aborts, changing nothing, on an over-long message. */
    method PushMessage(p: Primitives, m: seq<byte>, ad: seq<byte>, tag: byte) returns (out: seq<byte>, misuse: bool)
      requires Sized(p) && Valid(Value())
      modifies this
      ensures misuse <==> |m| > MESSAGEBYTES_MAX
      ensures misuse ==> Value() == old(Value())
      ensures !misuse ==> Pushed(out, Value()) == Push(p, old(Value()), m, ad, tag)
      ensures Valid(Value())
    {
      out, misuse := [], |m| > MESSAGEBYTES_MAX;
      if misuse { return; }
      var nonce := counter + inonce;
      var block := XorAll([tag] + Zeros(63), p.stream(k, nonce, 1, 64));
      var c := XorAll(m, p.stream(k, nonce, 2, |m|));
      var text := AuthenticatedText(ad, block, c);
      var mac := p.mac(p.stream(k, nonce, 0, 64), text);
      out := [block[0]] + c + mac;
      Advance(p, mac, tag);
    }

    /** Refuses, leaving the state as it was, what does not authenticate; aborts on an over-long message. */
    method PullMessage(p: Primitives, input: seq<byte>, ad: seq<byte>)
      returns (m: seq<byte>, tag: byte, failed: bool, misuse: bool)
      requires Sized(p) && Valid(Value())
      modifies this
      ensures misuse <==> |input| > MESSAGEBYTES_MAX + ABYTES
      ensures !misuse ==> (failed <==> Pull(p, old(Value()), input, ad).None?)
      ensures failed || misuse ==> Value() == old(Value())
      ensures !failed && !misuse ==> Pull(p, old(Value()), input, ad) == Some(Pulled(m, tag, Value()))
      ensures Valid(Value())
    {
      m, tag, failed, misuse := [], 0xFF, false, false;
      if |input| < ABYTES {
        failed := true;
        return;
      }
      var mlen := |input| - ABYTES;
      if mlen > MESSAGEBYTES_MAX {
        misuse := true;
        return;
      }
      var nonce := counter + inonce;
      var block := XorAll([input[0]] + Zeros(63), p.stream(k, nonce, 1, 64));
      var t := block[0];
      block := block[0 := input[0]];
      var c := input[1..1 + mlen];
      var text := AuthenticatedText(ad, block, c);
      var mac := p.mac(p.stream(k, nonce, 0, 64), text);
      if mac != input[1 + mlen..] {
        failed := true;
        return;
      }
      m := XorAll(c, p.stream(k, nonce, 2, mlen));
      tag := t;
      Advance(p, mac, tag);
    }
  }

  lemma CarryStep(b: seq<byte>, sum: nat, carry: nat)
    requires b != [] && sum >= b[0] && sum - b[0] <= 1 && carry == sum / 256
    ensures LittleEndian(FromLittleEndian(b) + (sum - b[0]), |b|)
         == [sum % 256] + LittleEndian(FromLittleEndian(b[1..]) + carry, |b| - 1)
  {
    var rest := FromLittleEndian(b[1..]);
    assert FromLittleEndian(b) + (sum - b[0]) == sum + 256 * rest;
    assert (sum + 256 * rest) % 256 == sum % 256 && (sum + 256 * rest) / 256 == rest + carry;
  }
}
