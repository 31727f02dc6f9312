// Base64 (sections 4 and 5 of RFC 4648): the shift-register loops against the
// groups of three bytes and four characters they stand for.
module Base64 {
  import opened Options

  // ----- characters, with the source's constant-time comparisons -----

  function Eq(x: bv32, y: bv32): bv32 { (((0 - (x ^ y)) >> 8) & 0xFF) ^ 0xFF }
  function Gt(x: bv32, y: bv32): bv32 { ((y - x) >> 8) & 0xFF }
  function Ge(x: bv32, y: bv32): bv32 { Gt(y, x) ^ 0xFF }
  function Lt(x: bv32, y: bv32): bv32 { Gt(y, x) }
  function Le(x: bv32, y: bv32): bv32 { Ge(y, x) }

  /** The characters for 62 and 63: + and /, or - and _ in the URL-safe alphabet. */
  function Char62(urlsafe: bool): bv32 { if urlsafe then 45 else 43 }
  function Char63(urlsafe: bool): bv32 { if urlsafe then 95 else 47 }

  function ByteToChar(urlsafe: bool, x: bv32): bv32 {
    (Lt(x, 26) & (x + 65)) |
    (Ge(x, 26) & Lt(x, 52) & (x + 71)) |
    (Ge(x, 52) & Lt(x, 62) & (x - 4)) |
    (Eq(x, 62) & Char62(urlsafe)) |
    (Eq(x, 63) & Char63(urlsafe))
  }

  function CharToByte(urlsafe: bool, c: bv32): bv32 {
    var x :=
      (Ge(c, 65) & Le(c, 90) & (c - 65)) |
      (Ge(c, 97) & Le(c, 122) & (c - 71)) |
      (Ge(c, 48) & Le(c, 57) & (c + 4)) |
      (Eq(c, Char62(urlsafe)) & 62) |
      (Eq(c, Char63(urlsafe)) & 63);
    x | (Eq(x, 0) & (Eq(c, 65) ^ 0xFF))
  }

  lemma CharRoundTrip(urlsafe: bool, x: bv32)
    requires x < 64
    ensures CharToByte(urlsafe, ByteToChar(urlsafe, x)) == x
    ensures ByteToChar(urlsafe, x) < 128 && ByteToChar(urlsafe, x) != 61
  {
  }

  lemma CharCanonical(urlsafe: bool, c: bv32)
    requires c < 128
    ensures CharToByte(urlsafe, c) < 64 || CharToByte(urlsafe, c) == 0xFF
    ensures CharToByte(urlsafe, c) != 0xFF ==> ByteToChar(urlsafe, CharToByte(urlsafe, c)) == c
  {
  }

  // ----- groups of three bytes, four sextets -----

  function First(x: bv8): bv8 { x >> 2 }
  function Second(p: bv8, x: bv8): bv8 { (p << 4) | (x >> 4) }
  function Third(p: bv8, x: bv8): bv8 { (p << 2) | (x >> 6) }

  /** RFC 4648, section 4: 24-bit groups as four sextets, the last group zero-filled. */
  function Groups(b: seq<bv8>): seq<bv8> {
    if |b| == 0 then []
    else if |b| == 1 then [First(b[0]), Second(b[0] & 3, 0)]
    else if |b| == 2 then [First(b[0]), Second(b[0] & 3, b[1]), Third(b[1] & 15, 0)]
    else [First(b[0]), Second(b[0] & 3, b[1]), Third(b[1] & 15, b[2]), b[2] & 63] + Groups(b[3..])
  }

  /** What remains to be written when `bits` bits p are pending before the bytes b. */
  function Pending(bits: nat, p: bv8, b: seq<bv8>): seq<bv8>
    decreases |b|
  {
    if bits == 2 then
      if b == [] then [Second(p, 0)] else [Second(p, b[0])] + Pending(4, b[0] & 15, b[1..])
    else if bits == 4 then
      if b == [] then [Third(p, 0)] else [Third(p, b[0]), b[0] & 63] + Pending(0, 0, b[1..])
    else
      if b == [] then [] else [First(b[0])] + Pending(2, b[0] & 3, b[1..])
  }

  lemma {:induction false} PendingIsGroups(b: seq<bv8>)
    ensures Pending(0, 0, b) == Groups(b)
    decreases |b|
  {
    if |b| >= 3 {
      PendingIsGroups(b[3..]);
      PendingTriple(b[0], b[1], b[2], b[3..]);
      assert b == [b[0], b[1], b[2]] + b[3..];
    } else if |b| == 2 {
      assert b[1..][1..] == [];
      assert Pending(2, b[0] & 3, b[1..]) == [Second(b[0] & 3, b[1])] + [Third(b[1] & 15, 0)];
    } else if |b| == 1 {
      assert Pending(0, 0, b) == [First(b[0])] + [Second(b[0] & 3, 0)];
    }
  }

  lemma PendingNext(p: bv8, x: bv8, b: seq<bv8>)
    ensures Pending(0, 0, [x] + b) == [First(x)] + Pending(2, x & 3, b)
    ensures Pending(2, p, [x] + b) == [Second(p, x)] + Pending(4, x & 15, b)
    ensures Pending(4, p, [x] + b) == [Third(p, x), x & 63] + Pending(0, 0, b)
  {
    assert ([x] + b)[1..] == b;
  }

  lemma FourThen<X>(a: X, b: X, c: X, d: X, rest: seq<X>)
    ensures [a] + ([b] + ([c, d] + rest)) == [a, b, c, d] + rest
  {
  }

  lemma ThreeThen<X>(a: X, b: X, c: X, rest: seq<X>)
    ensures [a] + ([b] + ([c] + rest)) == [a, b, c] + rest
  {
  }

  lemma PendingTriple(x: bv8, y: bv8, z: bv8, b: seq<bv8>)
    ensures Pending(0, 0, [x, y, z] + b) ==
            [First(x), Second(x & 3, y), Third(y & 15, z), z & 63] + Pending(0, 0, b)
  {
    ThreeThen(x, y, z, b);
    PendingNext(0, x, [y] + ([z] + b));
    PendingNext(x & 3, y, [z] + b);
    PendingNext(y & 15, z, b);
    FourThen(First(x), Second(x & 3, y), Third(y & 15, z), z & 63, Pending(0, 0, b));
  }

  function Sextet(x: bv32): bv8 { (x & 0x3F) as bv8 }

  /** The low bits of the accumulator: those still pending. */
  function Low(acc: bv32, bits: nat): bv8 {
    if bits == 2 then (acc & 3) as bv8 else if bits == 4 then (acc & 15) as bv8 else 0
  }

  function Shift(acc: bv32, x: bv8): bv32 { (acc << 8) + (x as bv32) }

  /** One byte shifted in: what the inner loop writes, for each number of bits pending before it. */
  lemma ShiftIn(acc: bv32, x: bv8)
    ensures var a := Shift(acc, x);
            && Take(a, 2) == First(x) && Low(a, 2) == x & 3
            && Take(a, 4) == Second(Low(acc, 2), x) && Low(a, 4) == x & 15
            && Take(a, 6) == Third(Low(acc, 4), x) && Take(a, 0) == x & 63
  {
  }

  lemma Flush(acc: bv32)
    ensures Raise(acc, 2) == Second(Low(acc, 2), 0)
    ensures Raise(acc, 4) == Third(Low(acc, 4), 0)
  {
  }

  /** The sextet n bits up in the accumulator; n never exceeds 6. */
  function Take(acc: bv32, n: nat): bv8
    requires n in {0, 2, 4, 6}
  {
    Sextet(if n == 0 then acc else if n == 2 then acc >> 2 else if n == 4 then acc >> 4 else acc >> 6)
  }

  /** The pending bits moved up to a sextet. */
  function Raise(acc: bv32, bits: nat): bv8
    requires bits in {2, 4}
  {
    Sextet(if bits == 2 then acc << 4 else acc << 2)
  }

  /** What is written from an accumulator holding `bits` bits, then from the bytes b. */
  function Output(acc: bv32, bits: nat, b: seq<bv8>): seq<bv8> {
    if bits in {6, 8, 10, 12} then [Take(acc, bits - 6)] + Output(acc, bits - 6, b)
    else Pending(bits, Low(acc, bits), b)
  }

  lemma OutputNext(acc: bv32, bits: nat, b: seq<bv8>)
    requires bits in {6, 8, 10, 12}
    ensures Output(acc, bits, b) == [Take(acc, bits - 6)] + Output(acc, bits - 6, b)
  {
  }

  lemma OutputRest(acc: bv32, bits: nat, p: bv8, b: seq<bv8>)
    requires bits in {0, 2, 4} && p == Low(acc, bits)
    ensures Output(acc, bits, b) == Pending(bits, p, b)
  {
  }

  lemma TwoThen<X>(a: X, b: X, rest: seq<X>)
    ensures [a] + ([b] + rest) == [a, b] + rest
  {
  }

  lemma ShiftInOutput(acc: bv32, bits: nat, x: bv8, b: seq<bv8>)
    requires bits in {0, 2, 4}
    ensures Output(Shift(acc, x), bits + 8, b) == Output(acc, bits, [x] + b)
  {
    ShiftIn(acc, x);
    var a, p := Shift(acc, x), Low(acc, bits);
    PendingNext(p, x, b);
    OutputRest(acc, bits, p, [x] + b);
    OutputNext(a, bits + 8, b);
    if bits == 4 {
      OutputNext(a, 6, b);
      OutputRest(a, 0, 0, b);
      TwoThen(Take(a, 6), Take(a, 0), Output(a, 0, b));
    } else {
      OutputRest(a, bits + 2, Low(a, bits + 2), b);
    }
  }

  // ----- texts -----

  function CharOf(urlsafe: bool, x: bv8): bv8 { (ByteToChar(urlsafe, x as bv32) & 0xFF) as bv8 }
  function ValueOf(urlsafe: bool, c: bv8): bv8 { (CharToByte(urlsafe, SignExtended(c)) & 0xFF) as bv8 }

  /** A char is signed: from 128 on it reaches the comparisons as a large unsigned number. */
  function SignExtended(c: bv8): bv32 { if c < 128 then c as bv32 else 0xFFFF_FF00 | (c as bv32) }

  function Chars(urlsafe: bool, s: seq<bv8>): (t: seq<bv8>)
    ensures |t| == |s|
  {
    if s == [] then [] else [CharOf(urlsafe, s[0])] + Chars(urlsafe, s[1..])
  }

  lemma {:induction false} CharsAppend(urlsafe: bool, s: seq<bv8>, t: seq<bv8>)
    ensures Chars(urlsafe, s + t) == Chars(urlsafe, s) + Chars(urlsafe, t)
  {
    if s == [] {
      assert s + t == t;
    } else {
      assert (s + t)[0] == s[0] && (s + t)[1..] == s[1..] + t;
      CharsAppend(urlsafe, s[1..], t);
    }
  }

  function Repeat(c: bv8, n: nat): (t: seq<bv8>)
    ensures |t| == n && forall i :: 0 <= i < n ==> t[i] == c
  {
    seq(n, _ => c)
  }

  /** The number of = signs after a text of n bytes. */
  function PadLen(n: nat, padded: bool): nat {
    if padded && n % 3 != 0 then 3 - n % 3 else 0
  }

  function Encode(b: seq<bv8>, urlsafe: bool, padded: bool): seq<bv8> {
    Chars(urlsafe, Groups(b)) + Repeat(61, PadLen(|b|, padded))
  }

  function EncodedLen(n: nat, padded: bool): nat {
    n / 3 * 4 + if n % 3 == 0 then 0 else if padded then 4 else 2 + n % 3 / 2
  }

  lemma {:induction false} GroupsLength(b: seq<bv8>)
    ensures |Groups(b)| == EncodedLen(|b|, false)
    decreases |b|
  {
    if |b| >= 3 {
      GroupsLength(b[3..]);
    }
  }

  lemma EncodeLength(b: seq<bv8>, urlsafe: bool, padded: bool)
    ensures |Encode(b, urlsafe, padded)| == EncodedLen(|b|, padded) == |Groups(b)| + PadLen(|b|, padded)
  {
    GroupsLength(b);
  }

  /** Stores n copies of c. */
  method Fill(b64: array<bv8>, from: nat, to: nat, c: bv8)
    requires from <= to <= b64.Length
    modifies b64
    ensures b64[..to] == old(b64[..from]) + Repeat(c, to - from)
    ensures forall i :: to <= i < b64.Length ==> b64[i] == old(b64[i])
  {
    for i := from to to
      invariant b64[..i] == old(b64[..from]) + Repeat(c, i - from)
      invariant forall i :: to <= i < b64.Length ==> b64[i] == old(b64[i])
    {
      b64[i] := c;
    }
  }

  lemma NextChar(written: seq<bv8>, urlsafe: bool, x: bv8, rest: seq<bv8>)
    ensures written + Chars(urlsafe, [x] + rest) == (written + [CharOf(urlsafe, x)]) + Chars(urlsafe, rest)
  {
    assert ([x] + rest)[1..] == rest;
  }

  lemma NextSextet(written: seq<bv8>, urlsafe: bool, acc: bv32, bits: nat, b: seq<bv8>)
    requires bits in {6, 8, 10, 12}
    ensures written + Chars(urlsafe, Output(acc, bits, b))
         == (written + [CharOf(urlsafe, Take(acc, bits - 6))]) + Chars(urlsafe, Output(acc, bits - 6, b))
  {
    NextChar(written, urlsafe, Take(acc, bits - 6), Output(acc, bits - 6, b));
  }

  lemma LastSextet(written: seq<bv8>, urlsafe: bool, acc: bv32, bits: nat)
    requires bits in {0, 2, 4}
    ensures bits > 0 ==>
              written + Chars(urlsafe, Output(acc, bits, [])) == written + [CharOf(urlsafe, Raise(acc, bits))]
    ensures bits == 0 ==> written + Chars(urlsafe, Output(acc, bits, [])) == written
  {
    Flush(acc);
    NextChar(written, urlsafe, Second(Low(acc, 2), 0), []);
    NextChar(written, urlsafe, Third(Low(acc, 4), 0), []);
  }

  method PutChar(b64: array<bv8>, pos: nat, urlsafe: bool, x: bv8)
    requires pos < b64.Length
    modifies b64
    ensures b64[..pos + 1] == old(b64[..pos]) + [CharOf(urlsafe, x)]
    ensures forall i :: pos + 1 <= i < b64.Length ==> b64[i] == old(b64[i])
  {
    b64[pos] := CharOf(urlsafe, x);
  }

  /** The inner loop: writes while a whole sextet is pending. */
  method Drain(b64: array<bv8>, pos: nat, urlsafe: bool, acc: bv32, bits: nat, ghost b: seq<bv8>, ghost end: nat)
    returns (b64_pos: nat, acc_len: nat)
    requires bits in {8, 10, 12} && pos + |Output(acc, bits, b)| == end <= b64.Length
    modifies b64
    ensures acc_len in {0, 2, 4} && b64_pos + |Output(acc, acc_len, b)| == end
    ensures b64[..b64_pos] + Chars(urlsafe, Output(acc, acc_len, b))
         == old(b64[..pos]) + Chars(urlsafe, Output(acc, bits, b))
    ensures (forall i :: end <= i < b64.Length ==> b64[i] == old(b64[i]))
  {
    hide CharOf, Take;
    b64_pos, acc_len := pos, bits;
    ghost var goal := b64[..pos] + Chars(urlsafe, Output(acc, bits, b));
    while acc_len >= 6
      invariant acc_len in {0, 2, 4, 6, 8, 10, 12}
      invariant b64_pos + |Output(acc, acc_len, b)| == end
      invariant b64[..b64_pos] + Chars(urlsafe, Output(acc, acc_len, b)) == goal
      invariant (forall i :: end <= i < b64.Length ==> b64[i] == old(b64[i]))
    {
      NextSextet(b64[..b64_pos], urlsafe, acc, acc_len, b);
      acc_len := acc_len - 6;
      PutChar(b64, b64_pos, urlsafe, Take(acc, acc_len));
      b64_pos := b64_pos + 1;
    }
  }

  /** The characters of the sextets, from the start of the buffer. */
  method EncodeBody(b64: array<bv8>, bin: seq<bv8>, urlsafe: bool) returns (b64_pos: nat)
    requires |Groups(bin)| <= b64.Length
    modifies b64
    ensures b64_pos == |Groups(bin)| && b64[..b64_pos] == Chars(urlsafe, Groups(bin))
    ensures (forall i :: |Groups(bin)| <= i < b64.Length ==> b64[i] == old(b64[i]))
  {
    PendingIsGroups(bin);
    assert Output(0, 0, bin) == Groups(bin);
    hide Groups, Output, Shift, Raise, CharOf, Chars;
    ghost var goal, n := Chars(urlsafe, Groups(bin)), |Groups(bin)|;
    var acc: bv32 := 0;
    var acc_len, bin_pos := 0, 0;
    b64_pos := 0;
    assert bin[0..] == bin;
    while bin_pos < |bin|
      invariant bin_pos <= |bin| && acc_len in {0, 2, 4}
      invariant b64_pos + |Output(acc, acc_len, bin[bin_pos..])| == n
      invariant goal == b64[..b64_pos] + Chars(urlsafe, Output(acc, acc_len, bin[bin_pos..]))
      invariant (forall i :: n <= i < b64.Length ==> b64[i] == old(b64[i]))
    {
      TakeIn(acc, acc_len, bin, bin_pos);
      acc := Shift(acc, bin[bin_pos]);
      bin_pos := bin_pos + 1;
      acc_len := acc_len + 8;
      b64_pos, acc_len := Drain(b64, b64_pos, urlsafe, acc, acc_len, bin[bin_pos..], n);
    }
    b64_pos := PutLast(b64, b64_pos, urlsafe, acc, acc_len);
  }

  lemma TakeIn(acc: bv32, bits: nat, bin: seq<bv8>, pos: nat)
    requires pos < |bin| && bits in {0, 2, 4}
    ensures Output(Shift(acc, bin[pos]), bits + 8, bin[pos + 1..]) == Output(acc, bits, bin[pos..])
  {
    hide Output, Shift;
    assert bin[pos..] == [bin[pos]] + bin[pos + 1..];
    ShiftInOutput(acc, bits, bin[pos], bin[pos + 1..]);
  }

  /** What is left over after the loop, as one more character. */
  method PutLast(b64: array<bv8>, pos: nat, urlsafe: bool, acc: bv32, bits: nat) returns (b64_pos: nat)
    requires bits in {0, 2, 4} && pos + |Output(acc, bits, [])| <= b64.Length
    modifies b64
    ensures b64_pos == pos + |Output(acc, bits, [])|
    ensures b64[..b64_pos] == old(b64[..pos]) + Chars(urlsafe, Output(acc, bits, []))
    ensures forall i :: b64_pos <= i < b64.Length ==> b64[i] == old(b64[i])
  {
    LastSextet(b64[..pos], urlsafe, acc, bits);
    hide CharOf, Chars, Raise, Output;
    b64_pos := pos;
    if bits > 0 {
      PutChar(b64, b64_pos, urlsafe, Raise(acc, bits));
      b64_pos := b64_pos + 1;
    }
  }

  /**
   * Writes the text and fills the rest of the buffer with zero bytes, at least
   * one; aborts, writing nothing, when the buffer has no room for both.
   */
  method Bin2Base64(b64: array<bv8>, b64_maxlen: nat, bin: seq<bv8>, urlsafe: bool, padded: bool) returns (misuse: bool)
    requires b64_maxlen <= b64.Length
    modifies b64
    ensures misuse <==> b64_maxlen <= EncodedLen(|bin|, padded)
    ensures misuse ==> b64[..] == old(b64[..])
    ensures !misuse ==>
              b64[..b64_maxlen] == Encode(bin, urlsafe, padded) + Repeat(0, b64_maxlen - EncodedLen(|bin|, padded))
    ensures !misuse ==> (forall i :: b64_maxlen <= i < b64.Length ==> b64[i] == old(b64[i]))
  {
    var nibbles := |bin| / 3;
    var remainder := |bin| - 3 * nibbles;
    var b64_len := nibbles * 4;
    if remainder != 0 {
      if padded {
        b64_len := b64_len + 4;
      } else {
        b64_len := b64_len + 2 + remainder / 2;
      }
    }
    assert remainder == |bin| % 3 && b64_len == EncodedLen(|bin|, padded);
    misuse := b64_maxlen <= b64_len;
    if misuse {
      return;
    }
    EncodeLength(bin, urlsafe, padded);
    var b64_pos := EncodeBody(b64, bin, urlsafe);
    assert b64_len - b64_pos == PadLen(|bin|, padded);
    Fill(b64, b64_pos, b64_len, 61);
    assert b64[..b64_len] == Encode(bin, urlsafe, padded);
    Fill(b64, b64_len, b64_maxlen, 0);
  }

  // ----- decoding: sextets back to bytes -----

  /** The bytes read so far, and the bits pending after them. */
  datatype Unpacked = Unpacked(bytes: seq<bv8>, bits: nat, left: bv8)

  function Join(bits: nat, p: bv8, d: bv8): bv8 {
    if bits == 6 then (p << 2) | (d >> 4) else if bits == 4 then (p << 4) | (d >> 2) else (p << 6) | d
  }

  function Keep(bits: nat, d: bv8): bv8 {
    if bits == 0 then d else if bits == 6 then d & 15 else if bits == 4 then d & 3 else 0
  }

  function Step(u: Unpacked, d: bv8): Unpacked {
    if u.bits == 0 then Unpacked(u.bytes, 6, d)
    else Unpacked(u.bytes + [Join(u.bits, u.left, d)], if u.bits >= 2 then u.bits - 2 else 0, Keep(u.bits, d))
  }

  function Fold(u: Unpacked, s: seq<bv8>): Unpacked
    decreases |s|
  {
    if s == [] then u else Fold(Step(u, s[0]), s[1..])
  }

  lemma {:induction false} FoldAppend(u: Unpacked, s: seq<bv8>, t: seq<bv8>)
    ensures Fold(u, s + t) == Fold(Fold(u, s), t)
    decreases |s|
  {
    if s == [] {
      assert s + t == t;
    } else {
      assert (s + t)[0] == s[0] && (s + t)[1..] == s[1..] + t;
      FoldAppend(Step(u, s[0]), s[1..], t);
    }
  }

  function Unpack(s: seq<bv8>): Unpacked { Fold(Unpacked([], 0, 0), s) }

  lemma UnpackNext(s: seq<bv8>, d: bv8)
    ensures Unpack(s + [d]) == Step(Unpack(s), d)
  {
    FoldAppend(Unpacked([], 0, 0), s, [d]);
    assert Fold(Unpack(s), [d]) == Step(Unpack(s), d);
  }

  lemma FoldTwo(out: seq<bv8>, a: bv8, b: bv8)
    ensures Fold(Unpacked(out, 0, 0), [a, b]) == Unpacked(out + [Join(6, a, b)], 4, b & 15)
  {
    var u1 := Step(Unpacked(out, 0, 0), a);
    assert [a, b][1..] == [b];
    assert Fold(u1, [b]) == Fold(Step(u1, b), []);
  }

  lemma FoldThree(out: seq<bv8>, a: bv8, b: bv8, c: bv8)
    ensures Fold(Unpacked(out, 0, 0), [a, b, c]) == Unpacked(out + [Join(6, a, b), Join(4, b & 15, c)], 2, c & 3)
  {
    FoldTwo(out, a, b);
    var u := Unpacked(out + [Join(6, a, b)], 4, b & 15);
    FoldAppend(Unpacked(out, 0, 0), [a, b], [c]);
    assert [a, b] + [c] == [a, b, c];
    assert Fold(u, [c]) == Fold(Step(u, c), []);
  }

  lemma FoldFour(out: seq<bv8>, a: bv8, b: bv8, c: bv8, d: bv8, rest: seq<bv8>)
    ensures Fold(Unpacked(out, 0, 0), [a, b, c, d] + rest)
         == Fold(Unpacked(out + [Join(6, a, b), Join(4, b & 15, c), Join(2, c & 3, d)], 0, 0), rest)
  {
    FoldThree(out, a, b, c);
    var u := Unpacked(out + [Join(6, a, b), Join(4, b & 15, c)], 2, c & 3);
    FoldAppend(Unpacked(out, 0, 0), [a, b, c], [d] + rest);
    assert [a, b, c] + ([d] + rest) == [a, b, c, d] + rest;
    assert ([d] + rest)[1..] == rest;
    assert u.bytes + [Join(2, c & 3, d)] == out + [Join(6, a, b), Join(4, b & 15, c), Join(2, c & 3, d)];
    assert Fold(u, [d] + rest) == Fold(Step(u, d), rest);
  }

  lemma JoinRoundTrip(x: bv8, y: bv8, z: bv8)
    ensures Join(6, First(x), Second(x & 3, y)) == x
    ensures Join(4, Second(x & 3, y) & 15, Third(y & 15, z)) == y
    ensures Join(2, Third(y & 15, z) & 3, z & 63) == z
    ensures Second(x & 3, 0) & 15 == 0 && Third(y & 15, 0) & 3 == 0
    ensures First(x) < 64 && Second(x & 3, y) < 64 && Third(y & 15, z) < 64 && z & 63 < 64
  {
  }

  predicate Sextets(s: seq<bv8>) {
    forall i :: 0 <= i < |s| ==> s[i] < 64
  }

  lemma {:induction false} GroupsAreSextets(b: seq<bv8>)
    ensures Sextets(Groups(b))
    decreases |b|
  {
    if |b| >= 3 {
      JoinRoundTrip(b[0], b[1], b[2]);
      GroupsAreSextets(b[3..]);
    } else if |b| == 2 {
      JoinRoundTrip(b[0], b[1], 0);
    } else if |b| == 1 {
      JoinRoundTrip(b[0], 0, 0);
    }
  }

  /** Bits pending after a text of n bytes. */
  function BitsAfter(n: nat): nat { if n % 3 == 0 then 0 else if n % 3 == 1 then 4 else 2 }

  lemma UnpackOne(out: seq<bv8>, x: bv8)
    ensures Fold(Unpacked(out, 0, 0), [First(x), Second(x & 3, 0)]) == Unpacked(out + [x], 4, 0)
  {
    JoinRoundTrip(x, 0, 0);
    FoldTwo(out, First(x), Second(x & 3, 0));
  }

  lemma UnpackTwo(out: seq<bv8>, x: bv8, y: bv8)
    ensures Fold(Unpacked(out, 0, 0), [First(x), Second(x & 3, y), Third(y & 15, 0)]) == Unpacked(out + [x, y], 2, 0)
  {
    JoinRoundTrip(x, y, 0);
    FoldThree(out, First(x), Second(x & 3, y), Third(y & 15, 0));
  }

  lemma UnpackTriple(out: seq<bv8>, x: bv8, y: bv8, z: bv8, rest: seq<bv8>)
    ensures Fold(Unpacked(out, 0, 0), [First(x), Second(x & 3, y), Third(y & 15, z), z & 63] + rest)
         == Fold(Unpacked(out + [x, y, z], 0, 0), rest)
  {
    JoinRoundTrip(x, y, z);
    FoldFour(out, First(x), Second(x & 3, y), Third(y & 15, z), z & 63, rest);
  }

  lemma Assoc(a: seq<bv8>, b: seq<bv8>, c: seq<bv8>)
    ensures (a + b) + c == a + (b + c)
  {
  }

  /** Unpacking the groups of b gives b back, with only zero bits left over. */
  lemma {:induction false} UnpackGroups(out: seq<bv8>, b: seq<bv8>)
    ensures Fold(Unpacked(out, 0, 0), Groups(b)) == Unpacked(out + b, BitsAfter(|b|), 0)
    decreases |b|
  {
    if |b| == 0 {
      assert out + b == out;
    } else if |b| == 1 {
      assert b == [b[0]];
      UnpackOne(out, b[0]);
    } else if |b| == 2 {
      assert b == [b[0], b[1]];
      UnpackTwo(out, b[0], b[1]);
    } else {
      UnpackGroups(out + [b[0], b[1], b[2]], b[3..]);
      UnpackMore(out, b[0], b[1], b[2], b[3..]);
      assert b == [b[0], b[1], b[2]] + b[3..];
    }
  }

  lemma UnpackMore(out: seq<bv8>, x: bv8, y: bv8, z: bv8, rest: seq<bv8>)
    requires Fold(Unpacked(out + [x, y, z], 0, 0), Groups(rest))
          == Unpacked(out + [x, y, z] + rest, BitsAfter(|rest|), 0)
    ensures var b := [x, y, z] + rest;
            Fold(Unpacked(out, 0, 0), Groups(b)) == Unpacked(out + b, BitsAfter(|b|), 0)
  {
    GroupsOfThree(x, y, z, rest);
    UnpackTriple(out, x, y, z, Groups(rest));
    Assoc(out, [x, y, z], rest);
  }

  lemma JoinCanonical(a: bv8, b: bv8, c: bv8, d: bv8)
    requires a < 64 && b < 64 && c < 64 && d < 64
    ensures var x, y, z := Join(6, a, b), Join(4, b & 15, c), Join(2, c & 3, d);
            && First(x) == a && Second(x & 3, y) == b && Third(y & 15, z) == c && z & 63 == d
            && (b & 15 == 0 ==> Second(x & 3, 0) == b) && (c & 3 == 0 ==> Third(y & 15, 0) == c)
  {
  }

  /** What unpacking s from scratch appends, and that its groups are s when only zero bits are left. */
  ghost predicate Inverts(out: seq<bv8>, s: seq<bv8>, b: seq<bv8>) {
    var u := Fold(Unpacked(out, 0, 0), s);
    && u.bytes == out + b
    && (u.bits == 6 || u.bits == BitsAfter(|b|))
    && (u.bits <= 4 && u.left == 0 ==> Groups(b) == s)
  }

  lemma CanonicalShort(out: seq<bv8>, s: seq<bv8>) returns (b: seq<bv8>)
    requires Sextets(s) && |s| < 4
    ensures Inverts(out, s, b)
  {
    assert out + [] == out;
    if |s| == 2 {
      assert s == [s[0], s[1]];
      FoldTwo(out, s[0], s[1]);
      JoinCanonical(s[0], s[1], 0, 0);
      b := [Join(6, s[0], s[1])];
    } else if |s| == 3 {
      assert s == [s[0], s[1], s[2]];
      FoldThree(out, s[0], s[1], s[2]);
      JoinCanonical(s[0], s[1], s[2], 0);
      b := [Join(6, s[0], s[1]), Join(4, s[1] & 15, s[2])];
    } else {
      b := [];
      if |s| == 1 { assert Fold(Unpacked(out, 0, 0), s) == Fold(Step(Unpacked(out, 0, 0), s[0]), []); }
    }
  }

  lemma GroupsOfThree(x: bv8, y: bv8, z: bv8, bytes: seq<bv8>)
    ensures Groups([x, y, z] + bytes) == [First(x), Second(x & 3, y), Third(y & 15, z), z & 63] + Groups(bytes)
    ensures BitsAfter(|[x, y, z] + bytes|) == BitsAfter(|bytes|)
  {
    hide First, Second, Third;
    BitsPeriod(|bytes|);
    var all := [x, y, z] + bytes;
    assert |all| == |bytes| + 3 && all[0] == x && all[1] == y && all[2] == z;
    assert all[3..] == bytes;
  }

  lemma BitsPeriod(n: nat)
    ensures BitsAfter(n + 3) == BitsAfter(n)
  {
  }

  lemma CanonicalFour(out: seq<bv8>, a: bv8, b: bv8, c: bv8, d: bv8, rest: seq<bv8>, bytes: seq<bv8>)
    requires a < 64 && b < 64 && c < 64 && d < 64
    requires Inverts(out + [Join(6, a, b), Join(4, b & 15, c), Join(2, c & 3, d)], rest, bytes)
    ensures Inverts(out, [a, b, c, d] + rest, [Join(6, a, b), Join(4, b & 15, c), Join(2, c & 3, d)] + bytes)
  {
    var t := [Join(6, a, b), Join(4, b & 15, c), Join(2, c & 3, d)];
    JoinCanonical(a, b, c, d);
    FoldFour(out, a, b, c, d, rest);
    Assoc(out, t, bytes);
    GroupsOfThree(t[0], t[1], t[2], bytes);
  }

  /** Every list of sextets unpacks to the bytes whose groups it is, if only zero bits are left over. */
  lemma {:induction false} GroupsCanonical(out: seq<bv8>, s: seq<bv8>) returns (b: seq<bv8>)
    requires Sextets(s)
    ensures Inverts(out, s, b)
    decreases |s|
  {
    if |s| < 4 {
      b := CanonicalShort(out, s);
    } else {
      var t := [Join(6, s[0], s[1]), Join(4, s[1] & 15, s[2]), Join(2, s[2] & 3, s[3])];
      var b' := GroupsCanonical(out + t, s[4..]);
      CanonicalFour(out, s[0], s[1], s[2], s[3], s[4..], b');
      assert s == [s[0], s[1], s[2], s[3]] + s[4..];
      b := t + b';
    }
  }

  // ----- decoding texts -----

  /** strchr on the ignore list, which also finds the terminating zero byte. */
  predicate Ignored(ignore: Option<set<bv8>>, c: bv8) {
    ignore.Some? && (c == 0 || c in ignore.value)
  }

  predicate IsDigit(urlsafe: bool, c: bv8) { ValueOf(urlsafe, c) != 0xFF }

  /** Where the main loop stops: at the first character that is neither a digit nor ignored. */
  function Stop(t: seq<bv8>, pos: nat, ignore: Option<set<bv8>>, urlsafe: bool): (stop: nat)
    requires pos <= |t|
    ensures pos <= stop <= |t|
    decreases |t| - pos
  {
    if pos < |t| && (IsDigit(urlsafe, t[pos]) || Ignored(ignore, t[pos])) then Stop(t, pos + 1, ignore, urlsafe)
    else pos
  }

  /** The values of the digits of a text, in order. */
  function Digits(t: seq<bv8>, urlsafe: bool): seq<bv8> {
    if t == [] then []
    else
      var rest, c := Digits(t[..|t| - 1], urlsafe), t[|t| - 1];
      if IsDigit(urlsafe, c) then rest + [ValueOf(urlsafe, c)] else rest
  }

  /** The end of n padding characters from pos on, passing over ignored ones. */
  function SkipPadding(t: seq<bv8>, pos: nat, ignore: Option<set<bv8>>, n: nat): (end: Option<nat>)
    requires pos <= |t|
    ensures end.Some? ==> end.value <= |t|
    decreases |t| - pos
  {
    if n == 0 then Some(pos)
    else if pos == |t| then None
    else if t[pos] == 61 then SkipPadding(t, pos + 1, ignore, n - 1)
    else if Ignored(ignore, t[pos]) then SkipPadding(t, pos + 1, ignore, n)
    else None
  }

  function SkipIgnored(t: seq<bv8>, pos: nat, ignore: Option<set<bv8>>): (end: nat)
    requires pos <= |t|
    ensures pos <= end <= |t| && (ignore.None? ==> end == pos)
    decreases |t| - pos
  {
    if pos < |t| && Ignored(ignore, t[pos]) then SkipIgnored(t, pos + 1, ignore) else pos
  }

  datatype Text = Text(bytes: seq<bv8>, end: nat)

  /** The checks after the main loop stopped with u at the given position. */
  function Finish(u: Unpacked, t: seq<bv8>, stop: nat, ignore: Option<set<bv8>>, padded: bool): Option<Text>
    requires stop <= |t|
  {
    if u.bits > 4 || u.left != 0 then None
    else
      match SkipPadding(t, stop, ignore, if padded then u.bits / 2 else 0)
      case None => None
      case Some(end) => Some(Text(u.bytes, SkipIgnored(t, end, ignore)))
  }

  /** What a text decodes to, and how far it is read; None when it is malformed. */
  function Decode(t: seq<bv8>, ignore: Option<set<bv8>>, urlsafe: bool, padded: bool): Option<Text> {
    var stop := Stop(t, 0, ignore, urlsafe);
    Finish(Unpack(Digits(t[..stop], urlsafe)), t, stop, ignore, padded)
  }

  /** The low bits of the accumulator while decoding. */
  function Low6(acc: bv32, bits: nat): bv8 {
    if bits == 6 then Sextet(acc) else Low(acc, bits)
  }

  function Shift6(acc: bv32, d: bv8): bv32 { (acc << 6) + (d as bv32) }

  /** The byte `bits` bits up in the accumulator. */
  function TakeByte(acc: bv32, bits: nat): bv8
    requires bits in {0, 2, 4}
  {
    ((if bits == 0 then acc else if bits == 2 then acc >> 2 else acc >> 4) & 0xFF) as bv8
  }

  lemma ShiftInSextet(acc: bv32, d: bv8)
    requires d < 64
    ensures var a := Shift6(acc, d);
            && Low6(a, 6) == d
            && TakeByte(a, 4) == Join(6, Low6(acc, 6), d) && Low6(a, 4) == d & 15
            && TakeByte(a, 2) == Join(4, Low6(acc, 4), d) && Low6(a, 2) == d & 3
            && TakeByte(a, 0) == Join(2, Low6(acc, 2), d)
  {
  }

  lemma StepShifts(u: Unpacked, acc: bv32, d: bv8)
    requires u.bits in {0, 2, 4, 6} && u.left == Low6(acc, u.bits) && d < 64
    ensures var a := Shift6(acc, d);
            Step(u, d) == if u.bits == 0 then Unpacked(u.bytes, 6, Low6(a, 6))
                          else Unpacked(u.bytes + [TakeByte(a, u.bits - 2)], u.bits - 2, Low6(a, u.bits - 2))
  {
    ShiftInSextet(acc, d);
  }

  lemma ValueIsSextet(urlsafe: bool, c: bv8)
    requires IsDigit(urlsafe, c)
    ensures ValueOf(urlsafe, c) < 64 && (c < 128 ==> CharOf(urlsafe, ValueOf(urlsafe, c)) == c)
  {
    if c < 128 {
      CharCanonical(urlsafe, c as bv32);
    } else {
      HighIsSixtyThree(urlsafe, c);
    }
  }

  /** To the equality test a negative character equals everything, so it reads as 62 | 63. */
  lemma HighIsSixtyThree(urlsafe: bool, c: bv8)
    requires c >= 128
    ensures ValueOf(urlsafe, c) == 63
  {
  }

  lemma CharIsDigit(urlsafe: bool, x: bv8)
    requires x < 64
    ensures var c := CharOf(urlsafe, x); c < 128 && c != 61 && IsDigit(urlsafe, c) && ValueOf(urlsafe, c) == x
  {
    CharRoundTrip(urlsafe, x as bv32);
  }

  lemma EqualsIsNoDigit(urlsafe: bool)
    ensures !IsDigit(urlsafe, 61)
  {
  }

  predicate SevenBit(t: seq<bv8>) {
    forall i :: 0 <= i < |t| ==> t[i] < 128
  }

  /** The alphabets of RFC 4648, tables 1 and 2. */
  lemma Alphabet(urlsafe: bool, x: bv8)
    requires x < 64
    ensures CharOf(urlsafe, x) as char ==
            if x < 26 then 'A' + x as char
            else if x < 52 then 'a' + (x - 26) as char
            else if x < 62 then '0' + (x - 52) as char
            else if x == 62 then (if urlsafe then '-' else '+')
            else if urlsafe then '_' else '/'
  {
    AlphabetInBits(urlsafe, x);
  }

  lemma AlphabetInBits(urlsafe: bool, x: bv8)
    requires x < 64
    ensures CharOf(urlsafe, x) ==
            if x < 26 then 65 + x
            else if x < 52 then 97 + (x - 26)
            else if x < 62 then 48 + (x - 52)
            else if x == 62 then (if urlsafe then 45 else 43)
            else if urlsafe then 95 else 47
  {
  }

  // ----- the two laws -----

  lemma {:induction false} DigitsOfChars(urlsafe: bool, s: seq<bv8>)
    requires Sextets(s)
    ensures var t := Chars(urlsafe, s);
            && SevenBit(t) && Digits(t, urlsafe) == s
            && forall i :: 0 <= i < |t| ==> t[i] != 61 && IsDigit(urlsafe, t[i])
    decreases |s|
  {
    hide CharOf, ValueOf, IsDigit;
    if s != [] {
      var init, last := s[..|s| - 1], s[|s| - 1];
      DigitsOfChars(urlsafe, init);
      CharIsDigit(urlsafe, last);
      assert s == init + [last];
      CharsAppend(urlsafe, init, [last]);
      assert Chars(urlsafe, [last]) == [CharOf(urlsafe, last)];
      var t := Chars(urlsafe, s);
      assert t[..|t| - 1] == Chars(urlsafe, init) && t[|t| - 1] == CharOf(urlsafe, last);
    }
  }

  lemma {:induction false} CharsOfDigits(urlsafe: bool, t: seq<bv8>)
    requires SevenBit(t) && forall i :: 0 <= i < |t| ==> IsDigit(urlsafe, t[i])
    ensures Sextets(Digits(t, urlsafe)) && Chars(urlsafe, Digits(t, urlsafe)) == t
    decreases |t|
  {
    hide CharOf, ValueOf, IsDigit;
    if t != [] {
      var init, last := t[..|t| - 1], t[|t| - 1];
      CharsOfDigits(urlsafe, init);
      ValueIsSextet(urlsafe, last);
      CharsAppend(urlsafe, Digits(init, urlsafe), [ValueOf(urlsafe, last)]);
      assert t == init + [last];
    }
  }

  lemma {:induction false} StopAt(t: seq<bv8>, pos: nat, urlsafe: bool, stop: nat)
    requires pos <= stop <= |t|
    requires forall i :: pos <= i < stop ==> IsDigit(urlsafe, t[i])
    requires stop < |t| ==> !IsDigit(urlsafe, t[stop])
    ensures Stop(t, pos, None, urlsafe) == stop
    decreases stop - pos
  {
    if pos < stop {
      StopAt(t, pos + 1, urlsafe, stop);
    }
  }

  lemma {:induction false} StopMeans(t: seq<bv8>, pos: nat, urlsafe: bool)
    requires pos <= |t|
    ensures forall i :: pos <= i < Stop(t, pos, None, urlsafe) ==> IsDigit(urlsafe, t[i])
    decreases |t| - pos
  {
    if pos < |t| && IsDigit(urlsafe, t[pos]) {
      StopMeans(t, pos + 1, urlsafe);
    }
  }

  /** Without an ignore list the padding is exactly n equal signs. */
  lemma {:induction false} PaddingIsEquals(t: seq<bv8>, pos: nat, n: nat)
    requires pos <= |t|
    ensures SkipPadding(t, pos, None, n).Some? <==> pos + n <= |t| && forall i :: pos <= i < pos + n ==> t[i] == 61
    ensures SkipPadding(t, pos, None, n).Some? ==> SkipPadding(t, pos, None, n).value == pos + n
    decreases n
  {
    if n > 0 && pos < |t| && t[pos] == 61 {
      PaddingIsEquals(t, pos + 1, n - 1);
    }
  }

  /** A run of digits followed by equal signs is read as such. */
  lemma TextShape(body: seq<bv8>, n: nat, urlsafe: bool)
    requires forall i :: 0 <= i < |body| ==> IsDigit(urlsafe, body[i])
    ensures var t := body + Repeat(61, n);
            && Stop(t, 0, None, urlsafe) == |body| && t[..|body|] == body
            && SkipPadding(t, |body|, None, n) == Some(|t|)
  {
    var t := body + Repeat(61, n);
    EqualsIsNoDigit(urlsafe);
    StopAt(t, 0, urlsafe, |body|);
    PaddingIsEquals(t, |body|, n);
  }

  lemma FinishEncoded(b: seq<bv8>, t: seq<bv8>, stop: nat, padded: bool)
    requires stop <= |t| && SkipPadding(t, stop, None, PadLen(|b|, padded)) == Some(|t|)
    ensures Finish(Unpacked(b, BitsAfter(|b|), 0), t, stop, None, padded) == Some(Text(b, |t|))
  {
    assert PadLen(|b|, padded) == if padded then BitsAfter(|b|) / 2 else 0;
  }

  /** Decoding inverts encoding, in all four variants. */
  lemma DecodeEncode(b: seq<bv8>, urlsafe: bool, padded: bool)
    ensures var t := Encode(b, urlsafe, padded); Decode(t, None, urlsafe, padded) == Some(Text(b, |t|))
  {
    var s, t := Groups(b), Encode(b, urlsafe, padded);
    GroupsAreSextets(b);
    DigitsOfChars(urlsafe, s);
    TextShape(Chars(urlsafe, s), PadLen(|b|, padded), urlsafe);
    UnpackGroups([], b);
    assert [] + b == b;
    FinishEncoded(b, t, |s|, padded);
  }

  /** Canonical on 7-bit texts: one read to its end is the encoding of what it decodes to. */
  lemma EncodeDecodeSevenBit(t: seq<bv8>, urlsafe: bool, padded: bool)
    requires SevenBit(t) && Decode(t, None, urlsafe, padded).Some?
    requires Decode(t, None, urlsafe, padded).value.end == |t|
    ensures Encode(Decode(t, None, urlsafe, padded).value.bytes, urlsafe, padded) == t
  {
    hide IsDigit, Digits, Chars, Groups, Repeat;
    var stop := Stop(t, 0, None, urlsafe);
    var s := Digits(t[..stop], urlsafe);
    StopMeans(t, 0, urlsafe);
    CharsOfDigits(urlsafe, t[..stop]);
    var b := GroupsCanonical([], s);
    assert [] + b == b;
    var n := if padded then Unpack(s).bits / 2 else 0;
    PaddingIsEquals(t, stop, n);
    assert n == PadLen(|b|, padded);
    assert t == t[..stop] + t[stop..] && t[stop..] == Repeat(61, n);
  }

  /** Decoding is canonical exactly on 7-bit texts. */
  lemma EncodeDecode(t: seq<bv8>, urlsafe: bool, padded: bool)
    requires Decode(t, None, urlsafe, padded).Some?
    requires Decode(t, None, urlsafe, padded).value.end == |t|
    ensures Encode(Decode(t, None, urlsafe, padded).value.bytes, urlsafe, padded) == t <==> SevenBit(t)
  {
    var b := Decode(t, None, urlsafe, padded).value.bytes;
    if SevenBit(t) {
      EncodeDecodeSevenBit(t, urlsafe, padded);
    } else {
      GroupsAreSextets(b);
      DigitsOfChars(urlsafe, Groups(b));
    }
  }

  lemma {:induction false} DigitsOfHigh(c: bv8, n: nat, urlsafe: bool)
    requires c >= 128
    ensures Digits(Repeat(c, n), urlsafe) == Repeat(63, n)
    ensures forall i :: 0 <= i < n ==> IsDigit(urlsafe, Repeat(c, n)[i])
  {
    HighIsSixtyThree(urlsafe, c);
    hide ValueOf;
    if n > 0 {
      DigitsOfHigh(c, n - 1, urlsafe);
      assert Repeat(c, n)[..n - 1] == Repeat(c, n - 1);
    }
  }

  lemma AllOnes()
    ensures Unpack(Repeat(63, 4)) == Unpacked([255, 255, 255], 0, 0)
  {
    assert Repeat(63, 4) == [63, 63, 63, 63] + [];
    FoldFour([], 63, 63, 63, 63, []);
    assert Join(6, 63, 63) == 255 && Join(4, 63 & 15, 63) == 255 && Join(2, 63 & 3, 63) == 255;
  }

  /** Four characters above 127 are accepted in full, and are not what their three bytes encode to. */
  lemma NotCanonicalAbove127(c: bv8, urlsafe: bool, padded: bool)
    requires c >= 128
    ensures Decode(Repeat(c, 4), None, urlsafe, padded) == Some(Text([255, 255, 255], 4))
    ensures Encode([255, 255, 255], urlsafe, padded) != Repeat(c, 4)
  {
    hide IsDigit, Unpack, Encode, Digits;
    var t := Repeat(c, 4);
    DigitsOfHigh(c, 4, urlsafe);
    AllOnes();
    StopAt(t, 0, urlsafe, 4);
    assert t[..4] == t;
    EncodeDecode(t, urlsafe, padded);
    assert t[0] == c;
  }

  // ----- what is ignored, and what is left unread -----

  lemma {:induction false} DigitsAppend(s: seq<bv8>, t: seq<bv8>, urlsafe: bool)
    ensures Digits(s + t, urlsafe) == Digits(s, urlsafe) + Digits(t, urlsafe)
    decreases |t|
  {
    hide ValueOf, IsDigit;
    if t == [] {
      assert s + t == s;
    } else {
      assert (s + t)[..|s + t| - 1] == s + t[..|t| - 1];
      DigitsAppend(s, t[..|t| - 1], urlsafe);
    }
  }

  lemma DigitsFront(c: bv8, t: seq<bv8>, urlsafe: bool)
    ensures Digits([c] + t, urlsafe)
         == if IsDigit(urlsafe, c) then [ValueOf(urlsafe, c)] + Digits(t, urlsafe) else Digits(t, urlsafe)
  {
    hide ValueOf, IsDigit;
    DigitsAppend([c], t, urlsafe);
    assert [c][..0] == [];
    assert [] + Digits(t, urlsafe) == Digits(t, urlsafe);
  }

  /** A text without the characters of a list, and without zero bytes. */
  function Without(t: seq<bv8>, list: set<bv8>): (r: seq<bv8>) {
    if t == [] then []
    else if t[0] == 0 || t[0] in list then Without(t[1..], list)
    else [t[0]] + Without(t[1..], list)
  }

  /** The same, but a character that can be read as a digit counts as one until the digits end. */
  function Kept(t: seq<bv8>, list: set<bv8>, urlsafe: bool): seq<bv8> {
    if t == [] then []
    else if IsDigit(urlsafe, t[0]) then [t[0]] + Kept(t[1..], list, urlsafe)
    else if t[0] == 0 || t[0] in list then Kept(t[1..], list, urlsafe)
    else Without(t, list)
  }

  /** Neither a digit nor in the list. */
  predicate Foreign(ignore: Option<set<bv8>>, urlsafe: bool, c: bv8) {
    !IsDigit(urlsafe, c) && (ignore.Some? ==> c != 0 && c !in ignore.value)
  }

  /** The digits end at the first foreign character. */
  lemma {:induction false} StopIsForeign(t: seq<bv8>, pos: nat, ignore: Option<set<bv8>>, urlsafe: bool)
    requires pos <= |t|
    ensures var stop := Stop(t, pos, ignore, urlsafe);
            && (forall i :: pos <= i < stop ==> !Foreign(ignore, urlsafe, t[i]))
            && (stop < |t| ==> Foreign(ignore, urlsafe, t[stop]))
    decreases |t| - pos
  {
    hide IsDigit;
    if pos < |t| && !Foreign(ignore, urlsafe, t[pos]) {
      StopIsForeign(t, pos + 1, ignore, urlsafe);
    }
  }

  /** Up to where the digits stop, exactly the digits are kept. */
  ghost predicate Splits(t: seq<bv8>, pos: nat, list: set<bv8>, urlsafe: bool, body: seq<bv8>)
    requires pos <= |t|
  {
    var stop := Stop(t, pos, Some(list), urlsafe);
    && Kept(t[pos..], list, urlsafe) == body + Without(t[stop..], list)
    && Digits(body, urlsafe) == Digits(t[pos..stop], urlsafe)
    && (forall i :: 0 <= i < |body| ==> IsDigit(urlsafe, body[i]))
  }

  lemma {:induction false} KeptSplit(t: seq<bv8>, pos: nat, list: set<bv8>, urlsafe: bool) returns (body: seq<bv8>)
    requires pos <= |t|
    ensures Splits(t, pos, list, urlsafe, body)
    decreases |t| - pos
  {
    hide ValueOf, IsDigit;
    body := [];
    if pos < |t| && !Foreign(Some(list), urlsafe, t[pos]) {
      var rest := KeptSplit(t, pos + 1, list, urlsafe);
      SplitsNext(t, pos, list, urlsafe, rest);
      body := if IsDigit(urlsafe, t[pos]) then [t[pos]] + rest else rest;
    }
  }

  lemma KeptNext(t: seq<bv8>, pos: nat, list: set<bv8>, urlsafe: bool)
    requires pos < |t| && !Foreign(Some(list), urlsafe, t[pos])
    ensures var rest := Kept(t[pos + 1..], list, urlsafe);
            Kept(t[pos..], list, urlsafe) == if IsDigit(urlsafe, t[pos]) then [t[pos]] + rest else rest
  {
    hide IsDigit, Without;
    assert t[pos..][1..] == t[pos + 1..];
  }

  lemma SplitsNext(t: seq<bv8>, pos: nat, list: set<bv8>, urlsafe: bool, rest: seq<bv8>)
    requires pos < |t| && !Foreign(Some(list), urlsafe, t[pos]) && Splits(t, pos + 1, list, urlsafe, rest)
    ensures Splits(t, pos, list, urlsafe, if IsDigit(urlsafe, t[pos]) then [t[pos]] + rest else rest)
  {
    hide ValueOf, IsDigit, Digits, Without, Kept;
    var c, stop := t[pos], Stop(t, pos, Some(list), urlsafe);
    assert stop == Stop(t, pos + 1, Some(list), urlsafe);
    hide Stop;
    KeptNext(t, pos, list, urlsafe);
    assert t[pos..stop] == [c] + t[pos + 1..stop];
    DigitsFront(c, t[pos + 1..stop], urlsafe);
    if IsDigit(urlsafe, c) {
      DigitsFront(c, rest, urlsafe);
      Assoc([c], rest, Without(t[stop..], list));
    }
  }

  lemma {:induction false} NothingLeft(t: seq<bv8>, pos: nat, list: set<bv8>)
    requires pos <= |t|
    ensures SkipIgnored(t, pos, Some(list)) == |t| <==> Without(t[pos..], list) == []
    decreases |t| - pos
  {
    if pos < |t| {
      assert t[pos..][1..] == t[pos + 1..];
      NothingLeft(t, pos + 1, list);
    }
  }

  /** The rest of the text is n equal signs, but for what is ignored. */
  lemma {:induction false} PaddingAmongIgnored(t: seq<bv8>, pos: nat, list: set<bv8>, n: nat)
    requires pos <= |t| && 61 !in list
    ensures var end := SkipPadding(t, pos, Some(list), n);
            end.Some? && SkipIgnored(t, end.value, Some(list)) == |t| <==> Without(t[pos..], list) == Repeat(61, n)
    decreases |t| - pos
  {
    if n == 0 {
      NothingLeft(t, pos, list);
      assert Repeat(61, 0) == [];
    } else if pos < |t| {
      assert t[pos..][1..] == t[pos + 1..];
      var rest := Without(t[pos + 1..], list);
      if t[pos] == 61 {
        PaddingAmongIgnored(t, pos + 1, list, n - 1);
        assert Repeat(61, n) == [61] + Repeat(61, n - 1);
        assert ([61] + rest)[1..] == rest && ([61] + Repeat(61, n - 1))[1..] == Repeat(61, n - 1);
      } else {
        PaddingAmongIgnored(t, pos + 1, list, n);
        assert Repeat(61, n)[0] == 61;
      }
    }
  }

  /** Where the digits stop, so that a list holding the equal sign leaves no padding to be read. */
  lemma PaddingFrom(t: seq<bv8>, stop: nat, list: set<bv8>, n: nat)
    requires stop <= |t| && (stop < |t| ==> t[stop] != 0 && t[stop] !in list)
    ensures var end := SkipPadding(t, stop, Some(list), n);
            end.Some? && SkipIgnored(t, end.value, Some(list)) == |t| <==> Without(t[stop..], list) == Repeat(61, n)
  {
    if 61 !in list {
      PaddingAmongIgnored(t, stop, list, n);
    } else if n == 0 {
      NothingLeft(t, stop, list);
      assert Repeat(61, 0) == [];
    } else if stop < |t| {
      assert Without(t[stop..], list)[0] == t[stop] && Repeat(61, n)[0] == 61;
    }
  }

  lemma FinishIgnoring(u: Unpacked, t: seq<bv8>, stop: nat, list: set<bv8>, padded: bool,
                       body: seq<bv8>, b: seq<bv8>)
    requires stop <= |t| && (stop < |t| ==> t[stop] != 0 && t[stop] !in list)
    ensures var kept := body + Without(t[stop..], list);
            (Finish(u, t, stop, Some(list), padded) == Some(Text(b, |t|)))
              <==> (Finish(u, kept, |body|, None, padded) == Some(Text(b, |kept|)))
  {
    hide Without, Repeat;
    var rest, n := Without(t[stop..], list), if padded then u.bits / 2 else 0;
    var kept := body + rest;
    PaddingFrom(t, stop, list, n);
    PaddingIsEquals(kept, |body|, n);
    assert kept[|body|..] == rest;
    assert rest == Repeat(61, n) <==> |rest| == n && forall i :: |body| <= i < |body| + n ==> kept[i] == 61;
  }

  /** A text with an ignore list is read to its end exactly as the text without what is ignored. */
  lemma IgnoringIsRemoving(t: seq<bv8>, list: set<bv8>, urlsafe: bool, padded: bool, b: seq<bv8>)
    ensures var kept := Kept(t, list, urlsafe);
            (Decode(t, Some(list), urlsafe, padded) == Some(Text(b, |t|)))
              <==> (Decode(kept, None, urlsafe, padded) == Some(Text(b, |kept|)))
  {
    hide IsDigit, Digits, Unpack, Kept, Finish, Stop;
    var stop, kept := Stop(t, 0, Some(list), urlsafe), Kept(t, list, urlsafe);
    var body := KeptSplit(t, 0, list, urlsafe);
    StopIsForeign(t, 0, Some(list), urlsafe);
    assert t[0..] == t && t[0..stop] == t[..stop];
    assert stop < |t| ==> Without(t[stop..], list)[0] == t[stop];
    StopAt(kept, 0, urlsafe, |body|);
    assert kept[..|body|] == body;
    FinishIgnoring(Unpack(Digits(t[..stop], urlsafe)), t, stop, list, padded, body, b);
  }

  lemma {:induction false} StopCut(t: seq<bv8>, pos: nat, ignore: Option<set<bv8>>, urlsafe: bool, e: nat)
    requires pos <= e <= |t|
    ensures var stop := Stop(t, pos, ignore, urlsafe);
            Stop(t[..e], pos, ignore, urlsafe) == if stop < e then stop else e
    decreases e - pos
  {
    hide IsDigit;
    if pos < e {
      StopCut(t, pos + 1, ignore, urlsafe, e);
    }
  }

  lemma {:induction false} PaddingCut(t: seq<bv8>, pos: nat, ignore: Option<set<bv8>>, n: nat, e: nat)
    requires pos <= e <= |t|
    ensures var all, cut := SkipPadding(t, pos, ignore, n), SkipPadding(t[..e], pos, ignore, n);
            && (all.Some? ==> all.value >= pos)
            && cut == if all.Some? && all.value <= e then all else None
    decreases |t| - pos
  {
    if n > 0 && pos < e {
      PaddingCut(t, pos + 1, ignore, if t[pos] == 61 then n - 1 else n, e);
    } else if n > 0 {
      PaddingForward(t, pos, ignore, n);
    }
  }

  lemma {:induction false} PaddingForward(t: seq<bv8>, pos: nat, ignore: Option<set<bv8>>, n: nat)
    requires pos <= |t| && n > 0
    ensures SkipPadding(t, pos, ignore, n).Some? ==> SkipPadding(t, pos, ignore, n).value > pos
    decreases |t| - pos
  {
    if pos < |t| {
      if t[pos] != 61 { PaddingForward(t, pos + 1, ignore, n); }
      else if n > 1 { PaddingForward(t, pos + 1, ignore, n - 1); }
    }
  }

  lemma {:induction false} IgnoredCut(t: seq<bv8>, pos: nat, ignore: Option<set<bv8>>, e: nat)
    requires pos <= e <= |t|
    ensures var end := SkipIgnored(t, pos, ignore); SkipIgnored(t[..e], pos, ignore) == if end < e then end else e
    decreases e - pos
  {
    if pos < e {
      IgnoredCut(t, pos + 1, ignore, e);
    }
  }

  /** Text that ends at e, and would go on if c came next. */
  predicate GoesOn(t: seq<bv8>, ignore: Option<set<bv8>>, urlsafe: bool, c: bv8) {
    if IsDigit(urlsafe, c) && (forall i :: 0 <= i < |t| ==> !Foreign(ignore, urlsafe, t[i])) then true
    else ignore.Some? && (c == 0 || c in ignore.value)
  }

  lemma FinishCut(u: Unpacked, t: seq<bv8>, stop: nat, ignore: Option<set<bv8>>, padded: bool, b: seq<bv8>, e: nat)
    requires stop <= e <= |t|
    ensures Finish(u, t, stop, ignore, padded) == Some(Text(b, e)) <==>
              && Finish(u, t[..e], stop, ignore, padded) == Some(Text(b, e))
              && (e < |t| && ignore.Some? ==> t[e] != 0 && t[e] !in ignore.value)
  {
    var n := if padded then u.bits / 2 else 0;
    PaddingCut(t, stop, ignore, n, e);
    var end := SkipPadding(t, stop, ignore, n);
    if end.Some? && end.value <= e {
      IgnoredCut(t, end.value, ignore, e);
      IgnoredEnd(t, end.value, ignore);
    }
  }

  lemma FinishForward(u: Unpacked, t: seq<bv8>, stop: nat, ignore: Option<set<bv8>>, padded: bool)
    requires stop <= |t| && Finish(u, t, stop, ignore, padded).Some?
    ensures Finish(u, t, stop, ignore, padded).value.end >= stop
  {
    var n := if padded then u.bits / 2 else 0;
    if n > 0 { PaddingForward(t, stop, ignore, n); }
  }

  /** A text is read up to e exactly as the one that ends there, unless that goes on. */
  lemma ReadUpTo(t: seq<bv8>, ignore: Option<set<bv8>>, urlsafe: bool, padded: bool, b: seq<bv8>, e: nat)
    requires e <= |t|
    ensures Decode(t, ignore, urlsafe, padded) == Some(Text(b, e)) <==>
              && Decode(t[..e], ignore, urlsafe, padded) == Some(Text(b, e))
              && (e < |t| ==> !GoesOn(t[..e], ignore, urlsafe, t[e]))
  {
    hide IsDigit, Digits, Unpack, Finish, Stop;
    var stop, stop' := Stop(t, 0, ignore, urlsafe), Stop(t[..e], 0, ignore, urlsafe);
    StopCut(t, 0, ignore, urlsafe, e);
    StopIsForeign(t, 0, ignore, urlsafe);
    var u := Unpack(Digits(t[..stop], urlsafe));
    if stop <= e {
      assert t[..e][..stop] == t[..stop];
      FinishCut(u, t, stop, ignore, padded, b, e);
      assert stop < e ==> t[..e][stop] == t[stop];
    } else if Finish(u, t, stop, ignore, padded).Some? {
      FinishForward(u, t, stop, ignore, padded);
    }
  }

  lemma {:induction false} IgnoredEnd(t: seq<bv8>, pos: nat, ignore: Option<set<bv8>>)
    requires pos <= |t|
    ensures var end := SkipIgnored(t, pos, ignore);
            && (forall i :: pos <= i < end ==> ignore.Some? && (t[i] == 0 || t[i] in ignore.value))
            && (end < |t| ==> ignore.None? || (t[end] != 0 && t[end] !in ignore.value))
    decreases |t| - pos
  {
    if pos < |t| && Ignored(ignore, t[pos]) { IgnoredEnd(t, pos + 1, ignore); }
  }

  // ----- the decoding loop -----

  /** One digit shifted in, and a byte written when one is complete and there is room. */
  method TakeDigit(bin: array<bv8>, bin_maxlen: nat, pos: nat, acc: bv32, bits: nat, d: bv8)
    returns (acc': bv32, acc_len: nat, bin_pos: nat, overflow: bool)
    requires pos <= bin_maxlen <= bin.Length && bits in {0, 2, 4, 6} && d < 64
    modifies bin
    ensures overflow <==> bits > 0 && pos == bin_maxlen
    ensures !overflow ==>
              && bin_pos <= bin_maxlen && acc_len in {0, 2, 4, 6}
              && Unpacked(bin[..bin_pos], acc_len, Low6(acc', acc_len))
                   == Step(Unpacked(old(bin[..pos]), bits, Low6(acc, bits)), d)
    ensures overflow ==> acc_len in {0, 2, 4}
    ensures forall i :: bin_maxlen <= i < bin.Length ==> bin[i] == old(bin[i])
  {
    StepShifts(Unpacked(bin[..pos], bits, Low6(acc, bits)), acc, d);
    bin_pos, overflow := pos, false;
    acc' := Shift6(acc, d);
    acc_len := bits + 6;
    if acc_len >= 8 {
      acc_len := acc_len - 8;
      if bin_pos >= bin_maxlen {
        overflow := true;
        return;
      }
      bin[bin_pos] := TakeByte(acc', acc_len);
      bin_pos := bin_pos + 1;
      assert bin[..bin_pos] == old(bin[..pos]) + [TakeByte(acc', acc_len)];
    }
  }

  /** The main loop: where it stopped, and whether the output buffer overflowed. */
  method DecodeBody(bin: array<bv8>, bin_maxlen: nat, b64: seq<bv8>, ignore: Option<set<bv8>>, urlsafe: bool)
    returns (acc: bv32, acc_len: nat, b64_pos: nat, bin_pos: nat, overflow: bool)
    requires bin_maxlen <= bin.Length
    modifies bin
    ensures var stop := Stop(b64, 0, ignore, urlsafe);
            var u := Unpack(Digits(b64[..stop], urlsafe));
            && (overflow <==> |u.bytes| > bin_maxlen)
            && (!overflow ==> b64_pos == stop && bin_pos <= bin_maxlen && bin[..bin_pos] == u.bytes
                              && acc_len == u.bits && acc_len in {0, 2, 4, 6} && Low6(acc, acc_len) == u.left)
            && (overflow ==> acc_len in {0, 2, 4})
    ensures forall i :: bin_maxlen <= i < bin.Length ==> bin[i] == old(bin[i])
  {
    assert Unpack(Digits([], urlsafe)) == Unpacked([], 0, 0);
    hide ValueOf, Unpack, Digits, Step;
    acc, acc_len, b64_pos, bin_pos, overflow := 0, 0, 0, 0, false;
    ghost var stop := Stop(b64, 0, ignore, urlsafe);
    while b64_pos < |b64|
      invariant b64_pos <= stop && Stop(b64, b64_pos, ignore, urlsafe) == stop
      invariant bin_pos <= bin_maxlen && acc_len in {0, 2, 4, 6}
      invariant forall i :: bin_maxlen <= i < bin.Length ==> bin[i] == old(bin[i])
      invariant Unpack(Digits(b64[..b64_pos], urlsafe)) == Unpacked(bin[..bin_pos], acc_len, Low6(acc, acc_len))
    {
      var c := b64[b64_pos];
      DigitsNext(b64, b64_pos, urlsafe);
      var d := ValueOf(urlsafe, c);
      if d == 0xFF {
        if Ignored(ignore, c) {
          b64_pos := b64_pos + 1;
          continue;
        }
        break;
      }
      ValueIsSextet(urlsafe, c);
      acc, acc_len, bin_pos, overflow := TakeDigit(bin, bin_maxlen, bin_pos, acc, acc_len, d);
      if overflow {
        MoreDigits(b64, b64_pos + 1, stop, urlsafe);
        return;
      }
      b64_pos := b64_pos + 1;
    }
    assert b64_pos == stop;
  }

  lemma DigitsNext(t: seq<bv8>, pos: nat, urlsafe: bool)
    requires pos < |t|
    ensures var u := Unpack(Digits(t[..pos], urlsafe));
            Unpack(Digits(t[..pos + 1], urlsafe))
              == if IsDigit(urlsafe, t[pos]) then Step(u, ValueOf(urlsafe, t[pos])) else u
  {
    assert t[..pos + 1][..pos] == t[..pos];
    if IsDigit(urlsafe, t[pos]) { UnpackNext(Digits(t[..pos], urlsafe), ValueOf(urlsafe, t[pos])); }
  }

  lemma {:induction false} MoreDigits(t: seq<bv8>, pos: nat, stop: nat, urlsafe: bool)
    requires pos <= stop <= |t|
    ensures |Unpack(Digits(t[..pos], urlsafe)).bytes| <= |Unpack(Digits(t[..stop], urlsafe)).bytes|
    decreases stop
  {
    if pos < stop {
      MoreDigits(t, pos, stop - 1, urlsafe);
      DigitsNext(t, stop - 1, urlsafe);
    }
  }

  method SkipPaddingLoop(b64: seq<bv8>, start: nat, ignore: Option<set<bv8>>, padding_len: nat)
    returns (b64_pos: nat, failed: bool)
    requires start <= |b64|
    ensures failed <==> SkipPadding(b64, start, ignore, padding_len).None?
    ensures !failed ==> SkipPadding(b64, start, ignore, padding_len) == Some(b64_pos) && b64_pos <= |b64|
  {
    b64_pos, failed := start, false;
    var left := padding_len;
    while left > 0
      invariant b64_pos <= |b64|
      invariant SkipPadding(b64, b64_pos, ignore, left) == SkipPadding(b64, start, ignore, padding_len)
      decreases |b64| - b64_pos
    {
      if b64_pos >= |b64| {
        return b64_pos, true;
      }
      var c := b64[b64_pos];
      if c == 61 {
        left := left - 1;
      } else if !Ignored(ignore, c) {
        return b64_pos, true;
      }
      b64_pos := b64_pos + 1;
    }
  }

  /**
   * Decodes a text into a buffer.  Unless the caller asks where the text
   * ends, it must be read to its end.
   */
  method Base642Bin(bin: array<bv8>, bin_maxlen: nat, b64: seq<bv8>, ignore: Option<set<bv8>>,
                    wantEnd: bool, urlsafe: bool, padded: bool)
    returns (ret: int, bin_len: nat, b64_end: nat)
    requires bin_maxlen <= bin.Length
    modifies bin
    ensures var d := Decode(b64, ignore, urlsafe, padded);
            && (ret == 0 <==> d.Some? && |d.value.bytes| <= bin_maxlen && (wantEnd || d.value.end == |b64|))
            && (ret == 0 ==> bin_len <= bin_maxlen && bin[..bin_len] == d.value.bytes && b64_end == d.value.end)
            && (ret != 0 ==>
                  ret == -1 && bin_len == if d.Some? && |d.value.bytes| <= bin_maxlen then |d.value.bytes| else 0)
    ensures forall i :: bin_maxlen <= i < bin.Length ==> bin[i] == old(bin[i])
  {
    ghost var stop := Stop(b64, 0, ignore, urlsafe);
    assert SkipPadding(b64, stop, ignore, 0) == Some(stop);
    hide Stop, Unpack, Digits, SkipPadding;
    var acc, acc_len, b64_pos, bin_pos, overflow := DecodeBody(bin, bin_maxlen, b64, ignore, urlsafe);
    ret := if overflow then -1 else 0;
    if acc_len > 4 || Low6(acc, acc_len) != 0 {
      ret := -1;
    } else if ret == 0 && padded {
      var failed;
      b64_pos, failed := SkipPaddingLoop(b64, b64_pos, ignore, acc_len / 2);
      if failed { ret := -1; }
    }
    if ret != 0 {
      bin_pos := 0;
    } else if ignore.Some? {
      ghost var start := b64_pos;
      while b64_pos < |b64| && Ignored(ignore, b64[b64_pos])
        invariant b64_pos <= |b64| && SkipIgnored(b64, b64_pos, ignore) == SkipIgnored(b64, start, ignore)
      {
        b64_pos := b64_pos + 1;
      }
    }
    b64_end := b64_pos;
    if !wantEnd && b64_pos != |b64| {
      ret := -1;
    }
    bin_len := bin_pos;
  }
}
