// The two files the repository keeps its state in: the id of each stored node,
// and the breadcrumb.
module IdFiles {
  import opened Bits
  import opened Serialisation
  import R = Repository

  datatype Encoded = Encoded(bytes: seq<byte>, node: u64, timestamp: int)

  /** Timestamps are signed 64-bit counts. */
  predicate Fits(timestamp: int) { InRange(timestamp, 8, true) }

  predicate ValidEncoded(id: Encoded) { |id.bytes| < W64 && Fits(id.timestamp) }

  /** Written as a span of bytes, read as a vector of them. */
  const EncodedType := Then(Vector(Byte), Then(Integer(8, false), TimePoint))

  const BreadcrumbType := Then(Integer(8, false), TimePoint)

  function IdValue(id: Encoded): Value {
    Both(List(Numbers(id.bytes)), Both(Number(id.node), Number(id.timestamp)))
  }

  function BreadcrumbValue(b: R.Breadcrumb): Value {
    Both(Number(b.untrusted_begin), Number(b.last_trusted_node_authorised_at))
  }

  lemma Fitting(id: Encoded)
    requires ValidEncoded(id)
    ensures ValidType(EncodedType) && WellTyped(EncodedType, IdValue(id))
    ensures WellTyped(BreadcrumbType, Both(Number(id.node), Number(id.timestamp)))
  {
    assert Pow2(64) == W64 by { Pow2Word(); }
    hide Pow2;
  }

  method SerialiseId(id: Encoded) returns (out: seq<byte>)
    requires ValidEncoded(id)
    ensures WellTyped(EncodedType, IdValue(id)) && out == Encode(EncodedType, IdValue(id))
  {
    Fitting(id);
    var s := new Serialiser();
    s.Serialise(Vector(Byte), List(Numbers(id.bytes)));
    s.Serialise(Integer(8, false), Number(id.node));
    s.Serialise(TimePoint, Number(id.timestamp));
    out := s.buffer;
    var v, n, t := Encode(Vector(Byte), List(Numbers(id.bytes))), Encode(Integer(8, false), Number(id.node)),
                   Encode(TimePoint, Number(id.timestamp));
    assert [] + v == v;
    Assoc(v, n, t);
  }

  /** Whatever follows the id in the file is not looked at. */
  method DeserialiseId(bytes: seq<byte>) returns (id: Encoded, threw: bool)
    ensures threw <==> Decode(EncodedType, bytes).Insufficient?
    ensures !threw ==> ValidEncoded(id) && Decode(EncodedType, bytes).value == IdValue(id)
  {
    id := Encoded([], 0, 0);
    var d := new Deserialiser(bytes);
    assert bytes[0..] == bytes;
    var x;
    x, threw := d.Deserialise(EncodedType);
    if threw { return; }
    Canonical(EncodedType, bytes);
    Pow2Word();
    id := Encoded(Chars(x.a.elems), x.b.a.v, x.b.b.v);
    assert Numbers(id.bytes) == x.a.elems;
  }

  /** What the id file of a node amounts to for the repository. */
  function ParseId(bytes: seq<byte>): R.IdFile {
    match Decode(EncodedType, bytes)
    case Insufficient => R.Garbled
    case Done(x, _) =>
      Canonical(EncodedType, bytes);
      R.Id(x.b.a.v, x.b.b.v)
  }

  /**
   * The id file that commit leaves makes its node found, with its timestamp,
   * whatever is appended to it; under any other node's name, or cut short
   * anywhere, it is an error, never another node or time.
   */
  lemma IdFileFound<D>(id: Encoded, extra: seq<byte>, payload: D, k: nat, cut: nat)
    requires ValidEncoded(id)
    ensures WellTyped(EncodedType, IdValue(id))
    ensures var file := Encode(EncodedType, IdValue(id));
            && R.LookUp(map[k := R.Entry(ParseId(file + extra), payload)], k)
                 == (if k == id.node then R.Found(id.timestamp) else R.Corrupt)
            && (cut < |file| ==> R.LookUp(map[k := R.Entry(ParseId(file[..cut]), payload)], k) == R.Corrupt)
  {
    Fitting(id);
    RoundTrip(EncodedType, IdValue(id), extra);
    if cut < |Encode(EncodedType, IdValue(id))| {
      PrefixRejected(EncodedType, IdValue(id), cut);
    }
  }

  /** A breadcrumb written is the breadcrumb read after a restart. */
  lemma BreadcrumbReread(b: R.Breadcrumb, extra: seq<byte>)
    requires b.untrusted_begin < W64 && Fits(b.last_trusted_node_authorised_at)
    ensures WellTyped(BreadcrumbType, BreadcrumbValue(b))
    ensures Decode(BreadcrumbType, Encode(BreadcrumbType, BreadcrumbValue(b)) + extra)
         == Done(BreadcrumbValue(b), extra)
  {
    Fitting(Encoded([], b.untrusted_begin, b.last_trusted_node_authorised_at));
    RoundTrip(BreadcrumbType, BreadcrumbValue(b), extra);
  }
}
