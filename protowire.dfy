/** The hand-rolled Protocol Buffers encoder of test-mqtt-route.go and a
    reference decoder for the binary wire format it follows (tag =
    field number * 8 + wire type; wire type 0 = varint, 2 = length-delimited,
    varints in base-128 little-endian groups with a continuation bit).

    The encoder writes every length and every varint value as a single byte
    (`byte(len(value))`, `byte(value)`), which is a valid varint only below
    128; the decoder proves the round trip under that bound and exhibits
    the misreading above it. */
module ProtoWire {
  import opened Text

  type byte = x: int | 0 <= x < 256

  /** Go's conversion `byte(x)`: the low eight bits, for any int. */
  function ToByte(x: int): byte {
    x % 256
  }

  /** `byte((fieldNum << 3) | wire)` for a wire type below 8. */
  function Tag(field: int, wire: int): byte
    requires 0 <= wire < 8
  {
    ToByte(field * 8 + wire)
  }

  const WIRE_VARINT := 0
  const WIRE_BYTES := 2

  /** `encodeString`: tag, one length byte, then the bytes of the value. */
  function EncodeString(field: int, value: seq<byte>): seq<byte> {
    [Tag(field, WIRE_BYTES), ToByte(|value|)] + value
  }

  /** `encodeVarint`: tag and one value byte, always two bytes. */
  function EncodeVarint(field: int, value: int): seq<byte> {
    [Tag(field, WIRE_VARINT), ToByte(value)]
  }

  /** `encodeEnvelope`: the route as field 3 of the envelope. */
  function EncodeEnvelope(route: seq<byte>): seq<byte> {
    [Tag(3, WIRE_BYTES), ToByte(|route|)] + route
  }

  /** Field 3 once per segment, in list order. */
  function SegmentFields(segments: seq<seq<byte>>): seq<byte>
    decreases |segments|
  {
    if segments == [] then []
    else SegmentFields(segments[..|segments| - 1]) + EncodeString(3, segments[|segments| - 1])
  }

  /** The bytes `encodeRoute` produces: network (1), endpoint (2), each
      segment (3), status (4). */
  function RouteWire(network: seq<byte>, endpoint: seq<byte>, segments: seq<seq<byte>>, status: int): seq<byte> {
    EncodeString(1, network) + EncodeString(2, endpoint) + SegmentFields(segments) + EncodeVarint(4, status)
  }

  /** `encodeRoute`, appending field after field. */
  method EncodeRoute(network: seq<byte>, endpoint: seq<byte>, segments: seq<seq<byte>>, status: int)
    returns (route: seq<byte>)
    ensures route == RouteWire(network, endpoint, segments, status)
  {
    route := [];
    route := route + EncodeString(1, network);
    route := route + EncodeString(2, endpoint);
    for i := 0 to |segments|
      invariant route == EncodeString(1, network) + EncodeString(2, endpoint) + SegmentFields(segments[..i])
    {
      assert segments[..i + 1][..i] == segments[..i];
      route := route + EncodeString(3, segments[i]);
    }
    assert segments[..|segments|] == segments;
    route := route + EncodeVarint(4, status);
  }

  function SegmentsLength(segments: seq<seq<byte>>): nat
    decreases |segments|
  {
    if segments == [] then 0 else SegmentsLength(segments[..|segments| - 1]) + 2 + |segments[|segments| - 1]|
  }

  /** Each string field costs two bytes plus its value; the status two. */
  lemma {:induction false} RouteLength(network: seq<byte>, endpoint: seq<byte>, segments: seq<seq<byte>>, status: int)
    ensures |RouteWire(network, endpoint, segments, status)| == 2 + |network| + 2 + |endpoint| + SegmentsLength(segments) + 2
  {
    SegmentFieldsLength(segments);
  }

  lemma {:induction false} SegmentFieldsLength(segments: seq<seq<byte>>)
    ensures |SegmentFields(segments)| == SegmentsLength(segments)
    decreases |segments|
  {
    if segments != [] {
      SegmentFieldsLength(segments[..|segments| - 1]);
    }
  }

  /** The tags the encoder writes are the documented ones. */
  lemma TagValues()
    ensures Tag(1, WIRE_BYTES) == 0x0a && Tag(2, WIRE_BYTES) == 0x12
    ensures Tag(3, WIRE_BYTES) == 0x1a && Tag(4, WIRE_VARINT) == 0x20
  {
  }

  // ---------------------------------------------------------------------
  // Reference decoder
  // ---------------------------------------------------------------------

  /** A base-128 varint at the front of `bs`, and what follows it. */
  function ReadVarint(bs: seq<byte>): (r: Option<(nat, seq<byte>)>)
    ensures r.Some? ==> |r.value.1| < |bs|
    decreases |bs|
  {
    if bs == [] then None
    else if bs[0] < 128 then Some((bs[0], bs[1..]))
    else match ReadVarint(bs[1..])
      case None => None
      case Some((v, rest)) => Some((bs[0] - 128 + 128 * v, rest))
  }

  /** One field: its number, and either its varint value or its payload. */
  datatype Field = VarField(number: nat, value: nat) | BytesField(number: nat, payload: seq<byte>)

  /** The field at the front of `bs`, and what follows it. */
  function ReadField(bs: seq<byte>): (r: Option<(Field, seq<byte>)>)
    ensures r.Some? ==> |r.value.1| < |bs|
  {
    match ReadVarint(bs)
    case None => None
    case Some((tag, rest)) =>
      if tag % 8 == WIRE_VARINT then
        match ReadVarint(rest)
        case None => None
        case Some((v, after)) => Some((VarField(tag / 8, v), after))
      else if tag % 8 == WIRE_BYTES then
        match ReadVarint(rest)
        case None => None
        case Some((len, after)) =>
          if len <= |after| then Some((BytesField(tag / 8, after[..len]), after[len..])) else None
      else None
  }

  datatype Route = Route(network: seq<byte>, endpoint: seq<byte>, segments: seq<seq<byte>>, status: nat)

  const EMPTY_ROUTE := Route([], [], [], 0)

  /** Reads Route fields until the input is used up: a later scalar field
      replaces an earlier one, segments accumulate in order, and anything
      the schema does not have is rejected. */
  function DecodeFields(bs: seq<byte>, acc: Route): Option<Route>
    decreases |bs|
  {
    if bs == [] then Some(acc)
    else match ReadField(bs)
      case None => None
      case Some((f, rest)) =>
        match Absorb(acc, f)
        case None => None
        case Some(next) => DecodeFields(rest, next)
  }

  /** One field merged into the route read so far, or `None` for a field
      the schema does not have. */
  function Absorb(acc: Route, f: Field): Option<Route> {
    match f
    case BytesField(1, p) => Some(acc.(network := p))
    case BytesField(2, p) => Some(acc.(endpoint := p))
    case BytesField(3, p) => Some(acc.(segments := acc.segments + [p]))
    case VarField(4, v) => Some(acc.(status := v))
    case _ => None
  }

  /** Reading one known field and then the rest. */
  lemma DecodeStep(bs: seq<byte>, acc: Route, f: Field, rest: seq<byte>)
    requires ReadField(bs) == Some((f, rest)) && Absorb(acc, f).Some?
    ensures DecodeFields(bs, acc) == DecodeFields(rest, Absorb(acc, f).value)
  {
  }

  function DecodeRoute(bs: seq<byte>): Option<Route> {
    DecodeFields(bs, EMPTY_ROUTE)
  }

  /** An envelope holding exactly one route (field 3). */
  function DecodeEnvelope(bs: seq<byte>): Option<Route> {
    match ReadField(bs)
    case Some((BytesField(3, p), rest)) => if rest == [] then DecodeRoute(p) else None
    case _ => None
  }

  // ---------------------------------------------------------------------
  // Round trip below 128, misreading above
  // ---------------------------------------------------------------------

  /** A byte below 128 is a complete one-byte varint. */
  lemma SmallVarint(b: byte, rest: seq<byte>)
    requires b < 128
    ensures ReadVarint([b] + rest) == Some((b, rest))
  {
    assert ([b] + rest)[1..] == rest;
  }

  /** A string field whose value is shorter than 128 bytes reads back as
      that value. */
  lemma StringFieldReads(field: nat, value: seq<byte>, tail: seq<byte>)
    requires field < 16 && |value| < 128
    ensures ReadField(EncodeString(field, value) + tail) == Some((BytesField(field, value), tail))
  {
    var rest := value + tail;
    var tag := StringTag(field, value, tail);
    SmallVarint(|value|, rest);
    BytesFieldRead(EncodeString(field, value) + tail, [|value|] + rest);
    assert rest[..|value|] == value;
    assert rest[|value|..] == tail;
  }

  lemma VarintFieldReads(field: nat, value: nat, tail: seq<byte>)
    requires field < 16 && value < 128
    ensures ReadField(EncodeVarint(field, value) + tail) == Some((VarField(field, value), tail))
  {
    var bs := EncodeVarint(field, value) + tail;
    var tag := Tag(field, WIRE_VARINT);
    assert tag == field * 8 && tag % 8 == WIRE_VARINT && tag / 8 == field;
    assert bs == [tag] + ([value] + tail);
    SmallVarint(tag, [value] + tail);
    SmallVarint(value, tail);
  }

  predicate AllShort(segments: seq<seq<byte>>) {
    forall i :: 0 <= i < |segments| ==> |segments[i]| < 128
  }

  lemma {:induction false} SegmentsRead(segments: seq<seq<byte>>, tail: seq<byte>, acc: Route)
    requires AllShort(segments)
    ensures DecodeFields(SegmentFields(segments) + tail, acc)
         == DecodeFields(tail, acc.(segments := acc.segments + segments))
    decreases |segments|
  {
    if segments == [] {
      assert SegmentFields(segments) + tail == tail;
      assert acc.segments + segments == acc.segments;
    } else {
      var init, last := segments[..|segments| - 1], segments[|segments| - 1];
      assert AllShort(init) by {
        forall i | 0 <= i < |init| ensures |init[i]| < 128 { assert init[i] == segments[i]; }
      }
      var enc := EncodeString(3, last);
      assert SegmentFields(segments) == SegmentFields(init) + enc;
      assert SegmentFields(segments) + tail == SegmentFields(init) + (enc + tail);
      SegmentsRead(init, enc + tail, acc);
      var acc' := acc.(segments := acc.segments + init);
      SegmentRead(last, tail, acc');
      assert acc'.segments + [last] == acc.segments + segments;
    }
  }

  /** One short segment field appends its value to the segments read so far. */
  lemma SegmentRead(segment: seq<byte>, tail: seq<byte>, acc: Route)
    requires |segment| < 128
    ensures DecodeFields(EncodeString(3, segment) + tail, acc)
         == DecodeFields(tail, acc.(segments := acc.segments + [segment]))
  {
    StringFieldReads(3, segment, tail);
    DecodeStep(EncodeString(3, segment) + tail, acc, BytesField(3, segment), tail);
  }

  /** With every string, and the status, below 128 the decoder recovers the
      route exactly: network, endpoint, segments in order, status. */
  lemma RouteRoundTrip(network: seq<byte>, endpoint: seq<byte>, segments: seq<seq<byte>>, status: nat)
    requires |network| < 128 && |endpoint| < 128 && AllShort(segments) && status < 128
    ensures DecodeRoute(RouteWire(network, endpoint, segments, status)) == Some(Route(network, endpoint, segments, status))
  {
    var s1, s2, segs, st := EncodeString(1, network), EncodeString(2, endpoint), SegmentFields(segments), EncodeVarint(4, status);
    assert RouteWire(network, endpoint, segments, status) == s1 + (s2 + (segs + st));
    StringFieldReads(1, network, s2 + (segs + st));
    DecodeStep(s1 + (s2 + (segs + st)), EMPTY_ROUTE, BytesField(1, network), s2 + (segs + st));
    var a1 := EMPTY_ROUTE.(network := network);
    StringFieldReads(2, endpoint, segs + st);
    DecodeStep(s2 + (segs + st), a1, BytesField(2, endpoint), segs + st);
    var a2 := a1.(endpoint := endpoint);
    SegmentsRead(segments, st, a2);
    var a3 := a2.(segments := a2.segments + segments);
    assert a2.segments + segments == segments;
    VarintFieldReads(4, status, []);
    assert st + [] == st;
    DecodeStep(st, a3, VarField(4, status), []);
  }

  /** The envelope round trip: a route shorter than 128 bytes comes back
      out of its envelope unchanged. */
  lemma EnvelopeRoundTrip(network: seq<byte>, endpoint: seq<byte>, segments: seq<seq<byte>>, status: nat)
    requires |network| < 128 && |endpoint| < 128 && AllShort(segments) && status < 128
    requires |RouteWire(network, endpoint, segments, status)| < 128
    ensures DecodeEnvelope(EncodeEnvelope(RouteWire(network, endpoint, segments, status)))
         == Some(Route(network, endpoint, segments, status))
  {
    var route := RouteWire(network, endpoint, segments, status);
    assert EncodeEnvelope(route) == EncodeString(3, route);
    StringFieldReads(3, route, []);
    assert EncodeString(3, route) + [] == EncodeString(3, route);
    RouteRoundTrip(network, endpoint, segments, status);
  }

  /** At 128 bytes the single length byte is 0x80, which a decoder takes as
      the first group of a longer varint: the next byte (the value's first)
      is read as part of the length, and the field does not read back as
      the value. */
  lemma LongStringMisread(field: nat, value: seq<byte>, tail: seq<byte>)
    requires field < 16 && |value| == 128 && 1 < value[0] < 128
    ensures ReadField(EncodeString(field, value) + tail) != Some((BytesField(field, value), tail))
  {
    var after := (value + tail)[1..];
    var len := LongStringRead(field, value, tail);
    if len <= |after| {
      assert |after[..len]| == len > |value|;
    }
  }

  /** What a decoder makes of a 128-byte string field: the length it reads
      exceeds the value, so it takes either too many bytes or none. */
  lemma LongStringRead(field: nat, value: seq<byte>, tail: seq<byte>) returns (len: nat)
    requires field < 16 && |value| == 128 && 1 < value[0] < 128
    ensures len > |value|
    ensures var after := (value + tail)[1..];
      ReadField(EncodeString(field, value) + tail)
      == if len <= |after| then Some((BytesField(field, after[..len]), after[len..])) else None
  {
    var rest := value + tail;
    var tag := StringTag(field, value, tail);
    len := LengthMisread(rest);
    BytesFieldRead(EncodeString(field, value) + tail, [128] + rest);
  }

  /** The tag of a string field reads as a single byte, leaving the length
      byte in front of the value. */
  lemma StringTag(field: nat, value: seq<byte>, tail: seq<byte>) returns (tag: nat)
    requires field < 16
    ensures tag % 8 == WIRE_BYTES && tag / 8 == field
    ensures ReadVarint(EncodeString(field, value) + tail) == Some((tag, [ToByte(|value|)] + (value + tail)))
  {
    tag := Tag(field, WIRE_BYTES);
    assert tag == field * 8 + 2;
    assert EncodeString(field, value) + tail == [tag] + ([ToByte(|value|)] + (value + tail));
    SmallVarint(tag, [ToByte(|value|)] + (value + tail));
  }

  /** How a length-delimited field is read: its tag, then its length,
      then that many payload bytes when there are enough. */
  lemma BytesFieldRead(bs: seq<byte>, rest: seq<byte>)
    requires ReadVarint(bs).Some? && ReadVarint(bs).value.1 == rest
    requires ReadVarint(bs).value.0 % 8 == WIRE_BYTES && ReadVarint(rest).Some?
    ensures var tag, (len, after) := ReadVarint(bs).value.0, ReadVarint(rest).value;
      ReadField(bs) == if len <= |after| then Some((BytesField(tag / 8, after[..len]), after[len..])) else None
  {
  }

  /** A length byte 0x80 followed by a byte below 128: the two read as one
      varint, 128 times the second byte. */
  lemma LengthMisread(rest: seq<byte>) returns (len: nat)
    requires |rest| > 0 && 1 < rest[0] < 128
    ensures len == 128 * (rest[0] as int) && len >= 256
    ensures ReadVarint([128] + rest) == Some((len, rest[1..]))
  {
    assert ([128] + rest)[1..] == rest;
    assert rest == [rest[0]] + rest[1..];
    SmallVarint(rest[0], rest[1..]);
    len := 128 * (rest[0] as int);
  }

  /** A status of 128 or more is written as one byte with the continuation
      bit set (or wrapped modulo 256), so it never reads back as itself. */
  lemma LargeStatusMisread(status: nat, tail: seq<byte>)
    requires 128 <= status
    ensures ReadField(EncodeVarint(4, status) + tail) != Some((VarField(4, status), tail))
  {
    var bs := EncodeVarint(4, status) + tail;
    var b := ToByte(status);
    var rest := [b] + tail;
    assert bs == [32] + rest;
    SmallVarint(32, rest);
    assert ReadVarint(bs) == Some((32, rest));
    if b < 128 {
      SmallVarint(b, tail);
      assert ReadField(bs) == Some((VarField(4, b), tail));
    } else {
      assert rest[1..] == tail;
      var r := ReadVarint(rest);
      assert r.Some? ==> |r.value.1| < |tail|;
    }
  }
}
