// The serialiser: fixed-width little-endian integers, length-prefixed
// sequences, and everything built from them.
module Serialisation {
  import opened Bits

  // ----- integers -----

  /** The w low bytes of u, least significant first. */
  function LittleEndian(u: nat, w: nat): (b: seq<byte>)
    ensures |b| == w
  {
    if w == 0 then [] else [u % 256] + LittleEndian(u / 256, w - 1)
  }

  function FromLittleEndian(b: seq<byte>): nat {
    if b == [] then 0 else b[0] + 256 * FromLittleEndian(b[1..])
  }

  lemma {:induction false} EndianBound(b: seq<byte>)
    ensures FromLittleEndian(b) < Pow2(8 * |b|)
  {
    if b != [] {
      EndianBound(b[1..]);
      Pow2Byte(8 * |b[1..]|);
    }
  }

  lemma {:induction false} EndianRoundTrip(u: nat, w: nat)
    requires u < Pow2(8 * w)
    ensures FromLittleEndian(LittleEndian(u, w)) == u
  {
    if w > 0 {
      Pow2Byte(8 * (w - 1));
      EndianRoundTrip(u / 256, w - 1);
    }
  }

  lemma {:induction false} EndianCanonical(b: seq<byte>)
    ensures LittleEndian(FromLittleEndian(b), |b|) == b
  {
    if b != [] {
      EndianCanonical(b[1..]);
      assert FromLittleEndian(b) / 256 == FromLittleEndian(b[1..]);
    }
  }

  predicate InRange(v: int, w: nat, signed: bool)
    requires w > 0
  {
    if signed then v + Pow2(8 * w - 1) >= 0 && v < Pow2(8 * w - 1) else 0 <= v < Pow2(8 * w)
  }

  /** The cast to the unsigned type of w bytes, and back to the signed one. */
  function Unsigned(v: int, w: nat): nat
    requires v + Pow2(8 * w) >= 0
  {
    if v < 0 then v + Pow2(8 * w) else v
  }

  function FromUnsigned(u: nat, w: nat, signed: bool): int
    requires w > 0
  {
    if signed && u >= Pow2(8 * w - 1) then u - Pow2(8 * w) else u
  }

  lemma CastRoundTrip(v: int, w: nat, signed: bool)
    requires w > 0 && InRange(v, w, signed)
    ensures v + Pow2(8 * w) >= 0 && Unsigned(v, w) < Pow2(8 * w)
    ensures FromUnsigned(Unsigned(v, w), w, signed) == v
  {
  }

  lemma CastCanonical(u: nat, w: nat, signed: bool)
    requires w > 0 && u < Pow2(8 * w)
    ensures var v := FromUnsigned(u, w, signed);
            InRange(v, w, signed) && v + Pow2(8 * w) >= 0 && Unsigned(v, w) == u
  {
  }

  /** u shifted right by whole bytes. */
  function ShiftedRight(u: nat, bytes: nat): nat {
    if bytes == 0 then u else ShiftedRight(u / 256, bytes - 1)
  }

  lemma {:induction false} ShiftOnce(u: nat, i: nat)
    ensures ShiftedRight(u, i + 1) == ShiftedRight(u, i) / 256
  {
    if i > 0 {
      ShiftOnce(u / 256, i - 1);
    }
  }

  method ToBytes(value: int, w: nat, signed: bool) returns (out: seq<byte>)
    requires w > 0 && InRange(value, w, signed)
    ensures value + Pow2(8 * w) >= 0 && out == LittleEndian(Unsigned(value, w), w)
  {
    CastRoundTrip(value, w, signed);
    var uvalue := Unsigned(value, w);
    out := [];
    for i := 0 to w
      invariant |out| == i
      invariant LittleEndian(uvalue, w) == out + LittleEndian(ShiftedRight(uvalue, i), w - i)
    {
      ShiftOnce(uvalue, i);
      out := out + [ShiftedRight(uvalue, i) % 256];
    }
  }

  method FromBytes(bytes: seq<byte>, signed: bool) returns (value: int)
    requires |bytes| > 0
    ensures value == FromUnsigned(FromLittleEndian(bytes), |bytes|, signed)
  {
    var uvalue: nat := 0;
    for i := 0 to |bytes|
      invariant uvalue < Pow2(8 * i)
      invariant FromLittleEndian(bytes) == uvalue + Shl(FromLittleEndian(bytes[i..]), 8 * i)
    {
      OrDisjoint(uvalue, bytes[i], 8 * i);
      AddByte(bytes[i..], 8 * i);
      assert bytes[i..][1..] == bytes[i + 1..];
      Pow2Byte(8 * i);
      uvalue := Or(uvalue, Shl(bytes[i], 8 * i));
    }
    value := FromUnsigned(uvalue, |bytes|, signed);
  }

  /** Or-ing in bits above all those set adds them. */
  lemma {:induction false} OrDisjoint(x: nat, b: nat, e: nat)
    requires x < Pow2(e)
    ensures Or(x, Shl(b, e)) == x + Shl(b, e)
  {
    if e > 0 {
      OrDisjoint(x / 2, b, e - 1);
    }
  }

  lemma {:induction false} ShlAdd(a: nat, b: nat, e: nat)
    ensures Shl(a + b, e) == Shl(a, e) + Shl(b, e)
  {
    if e > 0 {
      ShlAdd(a, b, e - 1);
    }
  }

  lemma AddByte(b: seq<byte>, e: nat)
    requires b != []
    ensures Shl(FromLittleEndian(b), e) == Shl(b[0], e) + Shl(FromLittleEndian(b[1..]), e + 8)
    ensures Shl(b[0], e) <= 255 * Pow2(e)
  {
    var rest := FromLittleEndian(b[1..]);
    ShlAdd(b[0], 256 * rest, e);
    ShlLinear(rest, 8);
    Pow2Byte(0);
    ShlShl(rest, 8, e);
    ShlOrder(b[0], 255, e);
    ShlLinear(255, e);
  }

  lemma {:induction false} ShlLinear(a: nat, e: nat)
    ensures Shl(a, e) == a * Pow2(e)
  {
    if e > 0 {
      ShlLinear(a, e - 1);
    }
  }

  // ----- types and values -----

  datatype Type =
    | Integer(width: nat, signed: bool)  // any built-in integer, of width > 0 bytes
    | Byte
    | String
    | Vector(elem: Type)                 // also what a span is written as
    | Array(elem: Type, n: nat)
    | TimePoint                          // 64-bit signed ticks
    | Then(first: Type, second: Type)    // two values one after the other

  datatype Value = Number(v: int) | List(elems: seq<Value>) | Both(a: Value, b: Value)

  predicate ValidType(t: Type) {
    match t
    case Integer(w, _) => w > 0
    case Vector(e) => ValidType(e)
    case Array(e, _) => ValidType(e)
    case Then(a, b) => ValidType(a) && ValidType(b)
    case _ => true
  }

  predicate AllBytes(xs: seq<Value>) {
    forall i :: 0 <= i < |xs| ==> xs[i].Number? && 0 <= xs[i].v < 256
  }

  /** The characters of a string, as the bytes they are stored as. */
  function Chars(xs: seq<Value>): (b: seq<byte>)
    requires AllBytes(xs)
    ensures |b| == |xs| && forall i :: 0 <= i < |xs| ==> b[i] == xs[i].v
  {
    seq(|xs|, i requires 0 <= i < |xs| => xs[i].v)
  }

  function Numbers(b: seq<byte>): (xs: seq<Value>)
    ensures |xs| == |b| && forall i :: 0 <= i < |b| ==> xs[i] == Number(b[i])
    ensures AllBytes(xs) && Chars(xs) == b
  {
    seq(|b|, i requires 0 <= i < |b| => Number(b[i]))
  }

  predicate WellTyped(t: Type, x: Value)
    requires ValidType(t)
    decreases t
  {
    match t
    case Integer(w, signed) => x.Number? && InRange(x.v, w, signed)
    case Byte => x.Number? && 0 <= x.v < 256
    case String => x.List? && |x.elems| < W64 && AllBytes(x.elems)
    case Vector(e) => x.List? && |x.elems| < W64 && forall i :: 0 <= i < |x.elems| ==> WellTyped(e, x.elems[i])
    case Array(e, n) => x.List? && |x.elems| == n && forall i :: 0 <= i < |x.elems| ==> WellTyped(e, x.elems[i])
    case TimePoint => x.Number? && InRange(x.v, 8, true)
    case Then(a, b) => x.Both? && WellTyped(a, x.a) && WellTyped(b, x.b)
  }

  function Encode(t: Type, x: Value): seq<byte>
    requires ValidType(t) && WellTyped(t, x)
    decreases t, 1, 0
  {
    match t
    case Integer(w, _) => LittleEndian(Unsigned(x.v, w), w)
    case Byte => [x.v]
    case String => LittleEndian(|x.elems|, 8) + Chars(x.elems)
    case Vector(e) => LittleEndian(|x.elems|, 8) + EncodeAll(e, x.elems)
    case Array(e, n) => EncodeAll(e, x.elems)
    case TimePoint => LittleEndian(Unsigned(x.v, 8), 8)
    case Then(a, b) => Encode(a, x.a) + Encode(b, x.b)
  }

  function EncodeAll(e: Type, xs: seq<Value>): seq<byte>
    requires ValidType(e) && forall i :: 0 <= i < |xs| ==> WellTyped(e, xs[i])
    decreases e, 2, |xs|
  {
    if xs == [] then [] else Encode(e, xs[0]) + EncodeAll(e, xs[1..])
  }

  /** Insufficient data is an exception. */
  datatype Decoded<+V> = Insufficient | Done(value: V, rest: seq<byte>)

  function Decode(t: Type, b: seq<byte>): Decoded<Value>
    requires ValidType(t)
    decreases t, 1, 0
  {
    match t
    case Integer(w, signed) => DecodeNumber(w, signed, b)
    case Byte => if |b| < 1 then Insufficient else Done(Number(b[0]), b[1..])
    case String =>
      if |b| < 8 then Insufficient
      else
        var n := FromLittleEndian(b[..8]);
        if |b| - 8 < n then Insufficient
        else Done(List(Numbers(b[8..][..n])), b[8..][n..])
    case Vector(e) =>
      if |b| < 8 then Insufficient else DecodeAll(e, FromLittleEndian(b[..8]), b[8..])
    case Array(e, n) => DecodeAll(e, n, b)
    case TimePoint => DecodeNumber(8, true, b)
    case Then(first, second) =>
      match Decode(first, b)
      case Insufficient => Insufficient
      case Done(x, rest) =>
        match Decode(second, rest)
        case Insufficient => Insufficient
        case Done(y, rest') => Done(Both(x, y), rest')
  }

  function DecodeNumber(w: nat, signed: bool, b: seq<byte>): Decoded<Value>
    requires w > 0
  {
    if |b| < w then Insufficient
    else Done(Number(FromUnsigned(FromLittleEndian(b[..w]), w, signed)), b[w..])
  }

  function DecodeAll(e: Type, n: nat, b: seq<byte>): (r: Decoded<Value>)
    requires ValidType(e)
    ensures r.Done? ==> r.value.List? && |r.value.elems| == n
    decreases e, 2, n
  {
    if n == 0 then Done(List([]), b)
    else
      match Decode(e, b)
      case Insufficient => Insufficient
      case Done(x, rest) =>
        match DecodeAll(e, n - 1, rest)
        case Insufficient => Insufficient
        case Done(xs, rest') => Done(List([x] + xs.elems), rest')
  }

  // ----- decoding inverts encoding -----

  lemma {:induction false} NumberRoundTrip(v: int, w: nat, signed: bool, rest: seq<byte>)
    requires w > 0 && InRange(v, w, signed)
    ensures DecodeNumber(w, signed, LittleEndian(Unsigned(v, w), w) + rest) == Done(Number(v), rest)
  {
    CastRoundTrip(v, w, signed);
    EndianRoundTrip(Unsigned(v, w), w);
    var b := LittleEndian(Unsigned(v, w), w);
    assert (b + rest)[..w] == b && (b + rest)[w..] == rest;
  }

  lemma LengthRoundTrip(n: nat, rest: seq<byte>)
    requires n < W64
    ensures var b := LittleEndian(n, 8) + rest;
            |b| >= 8 && FromLittleEndian(b[..8]) == n && b[8..] == rest
  {
    Pow2Word();
    EndianRoundTrip(n, 8);
    var b := LittleEndian(n, 8) + rest;
    assert b[..8] == LittleEndian(n, 8);
  }

  lemma StringRoundTrip(xs: seq<Value>, rest: seq<byte>)
    requires AllBytes(xs) && |xs| < W64
    ensures Decode(String, LittleEndian(|xs|, 8) + Chars(xs) + rest) == Done(List(xs), rest)
  {
    var body := Chars(xs);
    LengthRoundTrip(|xs|, body + rest);
    Assoc(LittleEndian(|xs|, 8), body, rest);
    assert (body + rest)[..|body|] == body && (body + rest)[|body|..] == rest;
    assert Numbers(body) == xs;
  }

  lemma Assoc(a: seq<byte>, b: seq<byte>, c: seq<byte>)
    ensures (a + b) + c == a + (b + c)
  {
  }

  lemma VectorRoundTrip(e: Type, xs: seq<Value>, rest: seq<byte>)
    requires ValidType(e) && WellTyped(Vector(e), List(xs))
    requires DecodeAll(e, |xs|, EncodeAll(e, xs) + rest) == Done(List(xs), rest)
    ensures Decode(Vector(e), Encode(Vector(e), List(xs)) + rest) == Done(List(xs), rest)
  {
    LengthRoundTrip(|xs|, EncodeAll(e, xs) + rest);
    Assoc(LittleEndian(|xs|, 8), EncodeAll(e, xs), rest);
  }

  lemma ThenRoundTrip(a: Type, b: Type, x: Value, y: Value, rest: seq<byte>)
    requires ValidType(a) && ValidType(b) && WellTyped(a, x) && WellTyped(b, y)
    requires Decode(a, Encode(a, x) + (Encode(b, y) + rest)) == Done(x, Encode(b, y) + rest)
    requires Decode(b, Encode(b, y) + rest) == Done(y, rest)
    ensures Decode(Then(a, b), Encode(Then(a, b), Both(x, y)) + rest) == Done(Both(x, y), rest)
  {
    Assoc(Encode(a, x), Encode(b, y), rest);
  }

  /** Reading back what was written returns it, and leaves what follows untouched. */
  lemma {:induction false} RoundTrip(t: Type, x: Value, rest: seq<byte>)
    requires ValidType(t) && WellTyped(t, x)
    ensures Decode(t, Encode(t, x) + rest) == Done(x, rest)
    decreases t, 1, 0
  {
    match t
    case Integer(w, signed) => NumberRoundTrip(x.v, w, signed, rest);
    case Byte =>
    case String => StringRoundTrip(x.elems, rest);
    case Vector(e) =>
      RoundTripAll(e, x.elems, rest);
      VectorRoundTrip(e, x.elems, rest);
    case Array(e, n) => RoundTripAll(e, x.elems, rest);
    case TimePoint => NumberRoundTrip(x.v, 8, true, rest);
    case Then(a, b) =>
      RoundTrip(a, x.a, Encode(b, x.b) + rest);
      RoundTrip(b, x.b, rest);
      ThenRoundTrip(a, b, x.a, x.b, rest);
  }

  lemma {:induction false} RoundTripAll(e: Type, xs: seq<Value>, rest: seq<byte>)
    requires ValidType(e) && forall i :: 0 <= i < |xs| ==> WellTyped(e, xs[i])
    ensures DecodeAll(e, |xs|, EncodeAll(e, xs) + rest) == Done(List(xs), rest)
    decreases e, 2, |xs|
  {
    if xs == [] {
      assert EncodeAll(e, xs) + rest == rest;
    } else {
      Assoc(Encode(e, xs[0]), EncodeAll(e, xs[1..]), rest);
      RoundTrip(e, xs[0], EncodeAll(e, xs[1..]) + rest);
      RoundTripAll(e, xs[1..], rest);
      assert [xs[0]] + xs[1..] == xs;
    }
  }

  // ----- encoding inverts decoding -----

  lemma NumberCanonical(w: nat, signed: bool, b: seq<byte>)
    requires w > 0 && |b| >= w
    ensures var v := FromUnsigned(FromLittleEndian(b[..w]), w, signed);
            InRange(v, w, signed) && LittleEndian(Unsigned(v, w), w) + b[w..] == b
  {
    EndianBound(b[..w]);
    CastCanonical(FromLittleEndian(b[..w]), w, signed);
    EndianCanonical(b[..w]);
  }

  lemma LengthCanonical(b: seq<byte>)
    requires |b| >= 8
    ensures FromLittleEndian(b[..8]) < W64 && LittleEndian(FromLittleEndian(b[..8]), 8) + b[8..] == b
  {
    EndianBound(b[..8]);
    EndianCanonical(b[..8]);
    Pow2Word();
  }

  lemma StringCanonical(b: seq<byte>)
    requires Decode(String, b).Done?
    ensures var x := Decode(String, b).value;
            WellTyped(String, x) && Encode(String, x) + Decode(String, b).rest == b
  {
    LengthCanonical(b);
    var n := FromLittleEndian(b[..8]);
    assert b[8..][..n] + b[8..][n..] == b[8..];
    var x := Decode(String, b).value;
    Assoc(LittleEndian(n, 8), b[8..][..n], b[8..][n..]);
  }

  lemma VectorCanonical(e: Type, b: seq<byte>)
    requires ValidType(e) && Decode(Vector(e), b).Done?
    requires var d := DecodeAll(e, FromLittleEndian(b[..8]), b[8..]);
             (forall i :: 0 <= i < |d.value.elems| ==> WellTyped(e, d.value.elems[i]))
             && EncodeAll(e, d.value.elems) + d.rest == b[8..]
    ensures var x := Decode(Vector(e), b).value;
            WellTyped(Vector(e), x) && Encode(Vector(e), x) + Decode(Vector(e), b).rest == b
  {
    LengthCanonical(b);
    var d := DecodeAll(e, FromLittleEndian(b[..8]), b[8..]);
    var size := LittleEndian(|d.value.elems|, 8);
    Assoc(size, EncodeAll(e, d.value.elems), d.rest);
  }

  /** Whatever is read was written by the serialiser: there is one encoding per value. */
  lemma {:induction false} Canonical(t: Type, b: seq<byte>)
    requires ValidType(t) && Decode(t, b).Done?
    ensures var x := Decode(t, b).value;
            WellTyped(t, x) && Encode(t, x) + Decode(t, b).rest == b
    decreases t, 1, 0
  {
    match t
    case Integer(w, signed) => NumberCanonical(w, signed, b);
    case Byte =>
    case String => StringCanonical(b);
    case Vector(e) =>
      CanonicalAll(e, FromLittleEndian(b[..8]), b[8..]);
      VectorCanonical(e, b);
    case Array(e, n) => CanonicalAll(e, n, b);
    case TimePoint => NumberCanonical(8, true, b);
    case Then(first, second) =>
      Canonical(first, b);
      var rest := Decode(first, b).rest;
      Canonical(second, rest);
      Assoc(Encode(first, Decode(first, b).value), Encode(second, Decode(second, rest).value),
            Decode(second, rest).rest);
  }

  lemma {:induction false} CanonicalAll(e: Type, n: nat, b: seq<byte>)
    requires ValidType(e) && DecodeAll(e, n, b).Done?
    ensures var xs := DecodeAll(e, n, b).value.elems;
            && (forall i :: 0 <= i < |xs| ==> WellTyped(e, xs[i]))
            && EncodeAll(e, xs) + DecodeAll(e, n, b).rest == b
    decreases e, 2, n
  {
    if n > 0 {
      Canonical(e, b);
      var rest := Decode(e, b).rest;
      CanonicalAll(e, n - 1, rest);
      var x, xs := Decode(e, b).value, DecodeAll(e, n - 1, rest).value.elems;
      assert ([x] + xs)[1..] == xs;
      Assoc(Encode(e, x), EncodeAll(e, xs), DecodeAll(e, n - 1, rest).rest);
    }
  }

  /** Bytes after what was read play no part. */
  lemma Extension(t: Type, b: seq<byte>, extra: seq<byte>)
    requires ValidType(t) && Decode(t, b).Done?
    ensures Decode(t, b + extra) == Done(Decode(t, b).value, Decode(t, b).rest + extra)
  {
    Canonical(t, b);
    var x, rest := Decode(t, b).value, Decode(t, b).rest;
    Assoc(Encode(t, x), rest, extra);
    RoundTrip(t, x, rest + extra);
  }

  /** A truncated serialisation is always rejected. */
  lemma PrefixRejected(t: Type, x: Value, cut: nat)
    requires ValidType(t) && WellTyped(t, x) && cut < |Encode(t, x)|
    ensures Decode(t, Encode(t, x)[..cut]).Insufficient?
  {
    var all, p, q := Encode(t, x), Encode(t, x)[..cut], Encode(t, x)[cut..];
    assert all + [] == all == p + q;
    RoundTrip(t, x, []);
    if Decode(t, p).Done? {
      Extension(t, p, q);
    }
  }

  // ----- the stream classes -----

  class Serialiser {
    var buffer: seq<byte>

    constructor ()
      ensures buffer == []
    {
      buffer := [];
    }

    method WriteBytes(bytes: seq<byte>)
      modifies this
      ensures buffer == old(buffer) + bytes
    {
      buffer := buffer + bytes;
    }

    method Serialise(t: Type, x: Value)
      requires ValidType(t) && WellTyped(t, x)
      modifies this
      ensures buffer == old(buffer) + Encode(t, x)
      decreases t, 1, 0
    {
      match t
      case Integer(w, signed) =>
        var bytes := ToBytes(x.v, w, signed);
        WriteBytes(bytes);
      case Byte =>
        WriteBytes([x.v]);
      case String =>
        SerialiseSize(|x.elems|);
        WriteBytes(Chars(x.elems));
        Assoc(old(buffer), LittleEndian(|x.elems|, 8), Chars(x.elems));
      case Vector(e) =>
        SerialiseSize(|x.elems|);
        SerialiseAll(e, x.elems);
        Assoc(old(buffer), LittleEndian(|x.elems|, 8), EncodeAll(e, x.elems));
      case Array(e, n) =>
        SerialiseAll(e, x.elems);
      case TimePoint =>
        var bytes := ToBytes(x.v, 8, true);
        WriteBytes(bytes);
      case Then(first, second) =>
        Serialise(first, x.a);
        Serialise(second, x.b);
        Assoc(old(buffer), Encode(first, x.a), Encode(second, x.b));
    }

    method SerialiseSize(n: u64)
      modifies this
      ensures buffer == old(buffer) + LittleEndian(n, 8)
    {
      Pow2Word();
      var bytes := ToBytes(n, 8, false);
      WriteBytes(bytes);
    }

    method SerialiseAll(e: Type, xs: seq<Value>)
      requires ValidType(e) && forall i :: 0 <= i < |xs| ==> WellTyped(e, xs[i])
      modifies this
      ensures buffer == old(buffer) + EncodeAll(e, xs)
      decreases e, 2, |xs|
    {
      ghost var goal := old(buffer) + EncodeAll(e, xs);
      assert xs[0..] == xs;
      for i := 0 to |xs|
        invariant goal == buffer + EncodeAll(e, xs[i..])
      {
        assert xs[i..][1..] == xs[i + 1..];
        ghost var before := buffer;
        Serialise(e, xs[i]);
        Assoc(before, Encode(e, xs[i]), EncodeAll(e, xs[i + 1..]));
      }
    }
  }

  class Deserialiser {
    const data: seq<byte>
    var ptr: nat

    ghost predicate Valid()
      reads this
    {
      ptr <= |data|
    }

    constructor (data: seq<byte>)
      ensures Valid() && this.data == data && ptr == 0
    {
      this.data, ptr := data, 0;
    }

    /** The next bytes; throws, without moving, when there are not that many. */
    method Consume(nbytes: nat) returns (bytes: seq<byte>, threw: bool)
      requires Valid()
      modifies this
      ensures Valid()
      ensures threw <==> |data| - old(ptr) < nbytes
      ensures !threw ==> bytes == old(data[ptr..ptr + nbytes]) && ptr == old(ptr) + nbytes
      ensures threw ==> ptr == old(ptr)
    {
      bytes, threw := [], |data| - ptr < nbytes;
      if !threw {
        bytes := data[ptr..ptr + nbytes];
        ptr := ptr + nbytes;
      }
    }

    ghost predicate Reads(d: Decoded<Value>, x: Value, threw: bool)
      reads this
    {
      && Valid()
      && (threw <==> d.Insufficient?)
      && (!threw ==> d == Done(x, data[ptr..]))
    }

    method Deserialise(t: Type) returns (x: Value, threw: bool)
      requires Valid() && ValidType(t)
      modifies this
      ensures Reads(Decode(t, old(data[ptr..])), x, threw)
      decreases t, 1, 0
    {
      x := Number(0);
      match t
      case Integer(w, signed) =>
        x, threw := DeserialiseNumber(w, signed);
      case Byte =>
        var bytes;
        bytes, threw := Consume(1);
        if !threw { x := Number(bytes[0]); }
      case String =>
        x, threw := DeserialiseString();
      case Vector(e) =>
        var size;
        size, threw := DeserialiseNumber(8, false);
        if threw { return; }
        x, threw := DeserialiseAll(e, size.v);
      case Array(e, n) =>
        x, threw := DeserialiseAll(e, n);
      case TimePoint =>
        x, threw := DeserialiseNumber(8, true);
      case Then(first, second) =>
        var a, b;
        a, threw := Deserialise(first);
        if threw { return; }
        b, threw := Deserialise(second);
        x := Both(a, b);
    }

    method DeserialiseString() returns (x: Value, threw: bool)
      requires Valid()
      modifies this
      ensures Reads(Decode(String, old(data[ptr..])), x, threw)
    {
      ghost var start := data[ptr..];
      var size;
      size, threw := DeserialiseNumber(8, false);
      x := size;
      if threw { return; }
      assert data[ptr..] == start[8..];
      var bytes;
      bytes, threw := Consume(size.v);
      if threw { return; }
      assert bytes == start[8..][..size.v] && data[ptr..] == start[8..][size.v..];
      x := List(Numbers(bytes));
    }

    method DeserialiseNumber(w: nat, signed: bool) returns (x: Value, threw: bool)
      requires Valid() && w > 0
      modifies this
      ensures Reads(DecodeNumber(w, signed, old(data[ptr..])), x, threw)
      ensures !threw ==> x.Number? && (!signed ==> x.v >= 0)
    {
      x := Number(0);
      var bytes;
      bytes, threw := Consume(w);
      if !threw {
        assert bytes == old(data[ptr..])[..w];
        var v := FromBytes(bytes, signed);
        x := Number(v);
      }
    }

    method DeserialiseAll(e: Type, n: nat) returns (x: Value, threw: bool)
      requires Valid() && ValidType(e)
      modifies this
      ensures Reads(DecodeAll(e, n, old(data[ptr..])), x, threw)
      decreases e, 2, n
    {
      var xs: seq<Value> := [];
      ghost var start := data[ptr..];
      assert DecodeAll(e, n, start) == Prefixed([], DecodeAll(e, n, start)) by { NoPrefix(e, n, start); }
      for i := 0 to n
        invariant Valid() && |xs| == i
        invariant DecodeAll(e, n, start) == Prefixed(xs, DecodeAll(e, n - i, data[ptr..]))
      {
        PrefixStep(xs, e, n - i, data[ptr..]);
        var y;
        y, threw := Deserialise(e);
        if threw { return List([]), true; }
        xs := xs + [y];
      }
      x, threw := List(xs), false;
      assert xs + [] == xs;
    }
  }

  /** A decoded list, continued after the elements read so far. */
  function Prefixed(xs: seq<Value>, d: Decoded<Value>): Decoded<Value>
    requires d.Done? ==> d.value.List?
  {
    if d.Insufficient? then Insufficient else Done(List(xs + d.value.elems), d.rest)
  }

  lemma NoPrefix(e: Type, n: nat, b: seq<byte>)
    requires ValidType(e)
    ensures Prefixed([], DecodeAll(e, n, b)) == DecodeAll(e, n, b)
  {
    var d := DecodeAll(e, n, b);
    if d.Done? { assert [] + d.value.elems == d.value.elems; }
  }

  lemma PrefixStep(xs: seq<Value>, e: Type, n: nat, b: seq<byte>)
    requires ValidType(e) && n > 0
    ensures match Decode(e, b)
            case Insufficient => Prefixed(xs, DecodeAll(e, n, b)).Insufficient?
            case Done(y, rest) => Prefixed(xs, DecodeAll(e, n, b)) == Prefixed(xs + [y], DecodeAll(e, n - 1, rest))
  {
    match Decode(e, b)
    case Insufficient =>
    case Done(y, rest) =>
      var d := DecodeAll(e, n - 1, rest);
      if d.Done? { assert xs + ([y] + d.value.elems) == (xs + [y]) + d.value.elems; }
  }
}
