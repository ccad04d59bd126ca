/** The identifier encodings of test-mqtt-route.go: the SRv6 endpoint that
    carries a VPC ID and a VPC attachment ID in its low 64 bits, the VRF
    interface name derived from the same IDs, and the `\xNN` escape of the
    fallback `printf` command. Go strings are byte strings; the IDs here are
    ASCII hex text. */
module Srv6 {
  import opened Text
  import ProtoWire

  // ---------------------------------------------------------------------
  // Hex digits
  // ---------------------------------------------------------------------

  /** The value of one hex digit, either case; `None` for anything else. */
  function HexValue(c: char): Option<nat> {
    if '0' <= c <= '9' then Some(c as int - '0' as int)
    else if 'a' <= c <= 'f' then Some(c as int - 'a' as int + 10)
    else if 'A' <= c <= 'F' then Some(c as int - 'A' as int + 10)
    else None
  }

  /** The number a hex string denotes (the empty string denotes 0). */
  function HexNumber(s: string): Option<nat>
    decreases |s|
  {
    if s == [] then Some(0)
    else match (HexNumber(s[..|s| - 1]), HexValue(s[|s| - 1]))
      case (Some(high), Some(d)) => Some(16 * high + d)
      case _ => None
  }

  /** A leading zero does not change the number. */
  lemma {:induction false} LeadingZero(s: string)
    ensures HexNumber("0" + s) == HexNumber(s)
    decreases |s|
  {
    if s != [] {
      var t := "0" + s;
      assert t[..|t| - 1] == "0" + s[..|s| - 1];
      assert t[|t| - 1] == s[|s| - 1];
      LeadingZero(s[..|s| - 1]);
    } else {
      assert ("0" + s)[..0] == [];
    }
  }

  // ---------------------------------------------------------------------
  // Padding
  // ---------------------------------------------------------------------

  /** `s` with '0's in front until it is `width` long; unchanged if it is
      already that long or longer. */
  function PadLeft(s: string, width: nat): (r: string)
    ensures |r| >= width && |r| >= |s|
  {
    if |s| >= width then s else Repeat('0', width - |s|) + s
  }

  /** Padding keeps the digits at the end and the number they denote. */
  lemma {:induction false} PadLeftKeeps(s: string, width: nat)
    ensures var r := PadLeft(s, width);
      |r| == (if |s| >= width then |s| else width)
      && r[|r| - |s|..] == s && HexNumber(r) == HexNumber(s)
  {
    var r := PadLeft(s, width);
    assert r[|r| - |s|..] == s;
    ZerosPrefix(s, |r| - |s|);
  }

  lemma {:induction false} ZerosPrefix(s: string, n: nat)
    ensures HexNumber(Repeat('0', n) + s) == HexNumber(s)
    decreases n
  {
    if n > 0 {
      assert Repeat('0', n) + s == "0" + (Repeat('0', n - 1) + s);
      LeadingZero(Repeat('0', n - 1) + s);
      ZerosPrefix(s, n - 1);
    } else {
      assert Repeat('0', n) + s == s;
    }
  }

  // ---------------------------------------------------------------------
  // SRv6 endpoint
  // ---------------------------------------------------------------------

  const SRV6_PREFIX := "fc00::"

  /** `generateSRv6Endpoint`'s result: the VPC ID padded to 12 digits and
      cut into three groups of four (digits past the twelfth are dropped),
      then the attachment ID padded to 4 digits and used whole. */
  function Endpoint(vpcHex: string, attachmentHex: string): string {
    var v := PadLeft(vpcHex, 12);
    var a := PadLeft(attachmentHex, 4);
    SRV6_PREFIX + v[0..4] + ":" + v[4..8] + ":" + v[8..12] + ":" + a
  }

  /** `generateSRv6Endpoint`: pad both IDs with leading zeros, one at a
      time, then format. */
  method GenerateSrv6Endpoint(vpcHex: string, attachmentHex: string) returns (endpoint: string)
    ensures endpoint == Endpoint(vpcHex, attachmentHex)
  {
    var v := PadZeros(vpcHex, 12);
    var a := PadZeros(attachmentHex, 4);
    endpoint := SRV6_PREFIX + v[0..4] + ":" + v[4..8] + ":" + v[8..12] + ":" + a;
  }

  /** One padding loop of `generateSRv6Endpoint`: `for len(s) < width
      { s = "0" + s }`. */
  method PadZeros(s: string, width: nat) returns (r: string)
    ensures r == PadLeft(s, width)
  {
    r := s;
    ZeroPadStart(s);
    while |r| < width
      invariant |r| >= |s| && r == Repeat('0', |r| - |s|) + s
      invariant |r| > |s| ==> |r| <= width
      decreases width - |r|
    {
      ZeroPadStep(s, |r| - |s|);
      r := "0" + r;
    }
  }

  lemma ZeroPadStart(s: string)
    ensures Repeat('0', 0) + s == s
  {
  }

  /** One more leading '0'. */
  lemma ZeroPadStep(s: string, k: nat)
    ensures "0" + (Repeat('0', k) + s) == Repeat('0', k + 1) + s
  {
  }

  /** Reads the two IDs back out of an endpoint at their fixed offsets. */
  function ParseEndpoint(e: string): Option<(string, string)> {
    if |e| >= 21 && e[..6] == SRV6_PREFIX && e[10] == ':' && e[15] == ':' && e[20] == ':'
    then Some((e[6..10] + e[11..15] + e[16..20], e[21..]))
    else None
  }

  /** The endpoint carries the 12-digit padded VPC ID (only its first 12
      digits when it is longer) and the padded attachment ID, and both
      still denote the numbers they were made from. */
  lemma EndpointParses(vpcHex: string, attachmentHex: string)
    ensures var v := PadLeft(vpcHex, 12);
      ParseEndpoint(Endpoint(vpcHex, attachmentHex)) == Some((v[..12], PadLeft(attachmentHex, 4)))
    ensures |vpcHex| <= 12 ==>
              PadLeft(vpcHex, 12)[..12] == PadLeft(vpcHex, 12) && HexNumber(PadLeft(vpcHex, 12)) == HexNumber(vpcHex)
    ensures |vpcHex| > 12 ==> PadLeft(vpcHex, 12)[..12] == vpcHex[..12]
    ensures HexNumber(PadLeft(attachmentHex, 4)) == HexNumber(attachmentHex)
  {
    var v := PadLeft(vpcHex, 12);
    PadLeftKeeps(vpcHex, 12);
    PadLeftKeeps(attachmentHex, 4);
    GroupsParse(v[0..4], v[4..8], v[8..12], PadLeft(attachmentHex, 4));
    ThreeGroups(v);
  }

  lemma ThreeGroups(v: string)
    requires |v| >= 12
    ensures v[0..4] + v[4..8] + v[8..12] == v[..12]
  {
  }

  /** Any three four-character groups and a tail, laid out as an
      endpoint, read back as they went in. */
  lemma GroupsParse(g1: string, g2: string, g3: string, a: string)
    requires |g1| == 4 && |g2| == 4 && |g3| == 4
    ensures ParseEndpoint(SRV6_PREFIX + g1 + ":" + g2 + ":" + g3 + ":" + a) == Some((g1 + g2 + g3, a))
  {
    var e := SRV6_PREFIX + g1 + ":" + g2 + ":" + g3 + ":" + a;
    assert e == SRV6_PREFIX + (g1 + (":" + (g2 + (":" + (g3 + (":" + a))))));
    assert e[..6] == SRV6_PREFIX;
    assert e[6..10] == g1 && e[10] == ':';
    assert e[11..15] == g2 && e[15] == ':';
    assert e[16..20] == g3 && e[20] == ':';
    assert e[21..] == a;
  }

  /** The endpoints of the script's test: VPC 000000000001 with the AMS
      (0001) and IAD (0002) attachments. The VPC's last group lands in the
      third group of the address, not in the first as the function's own
      comment shows. */
  lemma TestEndpoints()
    ensures Endpoint("000000000001", "0001") == "fc00::0000:0000:0001:0001"
    ensures Endpoint("000000000001", "0002") == "fc00::0000:0000:0001:0002"
    ensures Endpoint("000000000001", "0001") != "fc00::0001:0000:0000:0001"
  {
    var v := "000000000001";
    TestEndpoint(v, "0001");
    TestEndpoint(v, "0002");
    assert Endpoint(v, "0001")[6..10] == "0000";
    assert "fc00::0001:0000:0000:0001"[6..10] == "0001";
  }

  /** The test's VPC ID with one of its four-digit attachment IDs. */
  lemma TestEndpoint(v: string, a: string)
    requires v == "000000000001" && |a| == 4
    ensures Endpoint(v, a) == "fc00::0000:0000:0001:" + a
  {
    assert PadLeft(v, 12) == v && PadLeft(a, 4) == a;
    assert v[0..4] == "0000" && v[4..8] == "0000" && v[8..12] == "0001";
    assert SRV6_PREFIX + "0000" + ":" + "0000" + ":" + "0001" + ":" == "fc00::0000:0000:0001:";
  }

  // ---------------------------------------------------------------------
  // VRF interface name
  // ---------------------------------------------------------------------

  /** `createVRF`'s interface name: "G", the last 9 characters of the VPC
      ID, the last 3 of the attachment ID, "V". The zero-padding verbs
      `%09s` and `%03s` receive exactly 9 and 3 characters and add none;
      shorter IDs make Go's slice expression panic. */
  function VrfName(vpcHex: string, attachmentHex: string): string
    requires |vpcHex| >= 9 && |attachmentHex| >= 3
  {
    "G" + vpcHex[|vpcHex| - 9..] + attachmentHex[|attachmentHex| - 3..] + "V"
  }

  function ParseVrf(name: string): Option<(string, string)> {
    if |name| == 14 && name[0] == 'G' && name[13] == 'V' then Some((name[1..10], name[10..13])) else None
  }

  /** The name holds exactly the two suffixes, at fixed places. */
  lemma VrfParses(vpcHex: string, attachmentHex: string)
    requires |vpcHex| >= 9 && |attachmentHex| >= 3
    ensures ParseVrf(VrfName(vpcHex, attachmentHex))
         == Some((vpcHex[|vpcHex| - 9..], attachmentHex[|attachmentHex| - 3..]))
  {
    var n := VrfName(vpcHex, attachmentHex);
    var v, a := vpcHex[|vpcHex| - 9..], attachmentHex[|attachmentHex| - 3..];
    assert n == "G" + (v + (a + "V"));
    assert n[1..10] == v;
    assert n[10..13] == a;
  }

  /** Two ID pairs share a VRF exactly when their last 9 and last 3
      characters agree: VPC IDs that differ only before their last nine
      digits collide. */
  lemma VrfNameIff(v1: string, a1: string, v2: string, a2: string)
    requires |v1| >= 9 && |a1| >= 3 && |v2| >= 9 && |a2| >= 3
    ensures VrfName(v1, a1) == VrfName(v2, a2)
        <==> v1[|v1| - 9..] == v2[|v2| - 9..] && a1[|a1| - 3..] == a2[|a2| - 3..]
  {
    VrfParses(v1, a1);
    VrfParses(v2, a2);
  }

  /** The test's two VRFs, and the name that taking the first characters,
      as the code's comment says, would have given instead. */
  lemma TestVrfNames()
    ensures VrfName("000000000001", "0001") == "G000000001001V"
    ensures VrfName("000000000001", "0002") == "G000000001002V"
    ensures "G" + "000000000001"[..9] + "0001"[..3] + "V" == "G000000000000V"
  {
    assert "000000000001"[3..] == "000000001";
    assert "0001"[1..] == "001" && "0002"[1..] == "002";
    assert "000000000001"[..9] == "000000000" && "0001"[..3] == "000";
  }

  // ---------------------------------------------------------------------
  // `\xNN` escape of the fallback command
  // ---------------------------------------------------------------------

  /** `%02x` of a digit value below 16: lower-case. */
  function HexDigit(d: nat): (c: char)
    requires d < 16
    ensures HexValue(c) == Some(d)
  {
    if d < 10 then ('0' as int + d) as char else ('a' as int + d - 10) as char
  }

  /** `\x` and the byte as two lower-case hex digits. */
  function EscapeByte(b: ProtoWire.byte): (s: string) {
    ['\\', 'x', HexDigit(b / 16), HexDigit(b % 16)]
  }

  /** The escaped text of a byte string, byte after byte. */
  function EscapeBytes(data: seq<ProtoWire.byte>): (s: string)
    decreases |data|
  {
    if data == [] then [] else EscapeBytes(data[..|data| - 1]) + EscapeByte(data[|data| - 1])
  }

  /** The loop of `publishToMQTT` that builds the manual command's text. */
  method HexEscape(data: seq<ProtoWire.byte>) returns (hexStr: string)
    ensures hexStr == EscapeBytes(data)
  {
    hexStr := "";
    for i := 0 to |data|
      invariant hexStr == EscapeBytes(data[..i])
    {
      assert data[..i + 1][..i] == data[..i];
      hexStr := hexStr + EscapeByte(data[i]);
    }
    assert data[..|data|] == data;
  }

  /** What `printf` makes of the escaped text: four characters per byte. */
  function Unescape(s: string): Option<seq<ProtoWire.byte>>
    decreases |s|
  {
    if s == [] then Some([])
    else if |s| < 4 then None
    else match (Unescape(s[..|s| - 4]), UnescapeGroup(s[|s| - 4..]))
      case (Some(init), Some(b)) => Some(init + [b])
      case _ => None
  }

  /** One `\xHH` group as the byte it denotes. */
  function UnescapeGroup(g: string): Option<ProtoWire.byte>
    requires |g| == 4
  {
    match (HexValue(g[2]), HexValue(g[3]))
    case (Some(hi), Some(lo)) =>
      if g[0] == '\\' && g[1] == 'x' && hi < 16 && lo < 16 then Some(16 * hi + lo) else None
    case _ => None
  }

  lemma GroupRoundTrip(b: ProtoWire.byte)
    ensures UnescapeGroup(EscapeByte(b)) == Some(b)
  {
    assert 16 * (b / 16) + b % 16 == b;
  }

  /** The escape is four characters per byte and reads back as the bytes. */
  lemma {:induction false} EscapeRoundTrip(data: seq<ProtoWire.byte>)
    ensures |EscapeBytes(data)| == 4 * |data|
    ensures Unescape(EscapeBytes(data)) == Some(data)
    decreases |data|
  {
    if data != [] {
      var init, last := data[..|data| - 1], data[|data| - 1];
      EscapeRoundTrip(init);
      UnescapeStep(EscapeBytes(init), last);
      assert init + [last] == data;
    }
  }

  /** One escaped byte more reads back as one byte more. */
  lemma UnescapeStep(prefix: string, b: ProtoWire.byte)
    requires Unescape(prefix).Some?
    ensures Unescape(prefix + EscapeByte(b)) == Some(Unescape(prefix).value + [b])
  {
    var s := prefix + EscapeByte(b);
    assert s[..|s| - 4] == prefix;
    assert s[|s| - 4..] == EscapeByte(b);
    GroupRoundTrip(b);
  }

  // ---------------------------------------------------------------------
  // The published routes
  // ---------------------------------------------------------------------

  predicate IsAscii(s: string) {
    forall i :: 0 <= i < |s| ==> s[i] as int < 128
  }

  /** Go's `[]byte(s)` for ASCII text. */
  function Bytes(s: string): (b: seq<ProtoWire.byte>)
    requires IsAscii(s)
    ensures |b| == |s|
  {
    seq(|s|, i requires 0 <= i < |s| => s[i] as int)
  }

  lemma EndpointAscii(vpcHex: string, attachmentHex: string)
    requires IsAscii(vpcHex) && IsAscii(attachmentHex)
    ensures IsAscii(Endpoint(vpcHex, attachmentHex))
    ensures |attachmentHex| <= 4 ==> |Endpoint(vpcHex, attachmentHex)| == 25
  {
    PadAscii(vpcHex, 12);
    PadAscii(attachmentHex, 4);
    FormatAscii(PadLeft(vpcHex, 12), PadLeft(attachmentHex, 4));
    PadLeftKeeps(attachmentHex, 4);
  }

  lemma PadAscii(s: string, width: nat)
    requires IsAscii(s)
    ensures IsAscii(PadLeft(s, width))
  {
    if |s| < width {
      AsciiAppend(Repeat('0', width - |s|), s);
    }
  }

  /** The endpoint format adds only ASCII text around its four groups. */
  lemma FormatAscii(v: string, a: string)
    requires IsAscii(v) && |v| >= 12 && IsAscii(a)
    ensures IsAscii(SRV6_PREFIX + v[0..4] + ":" + v[4..8] + ":" + v[8..12] + ":" + a)
  {
    var g1, g2, g3 := v[0..4], v[4..8], v[8..12];
    assert IsAscii(g1) && IsAscii(g2) && IsAscii(g3);
    assert IsAscii(SRV6_PREFIX) && IsAscii(":");
    AsciiAppend(SRV6_PREFIX, g1);
    AsciiAppend(SRV6_PREFIX + g1, ":");
    AsciiAppend(SRV6_PREFIX + g1 + ":", g2);
    AsciiAppend(SRV6_PREFIX + g1 + ":" + g2, ":");
    AsciiAppend(SRV6_PREFIX + g1 + ":" + g2 + ":", g3);
    AsciiAppend(SRV6_PREFIX + g1 + ":" + g2 + ":" + g3, ":");
    AsciiAppend(SRV6_PREFIX + g1 + ":" + g2 + ":" + g3 + ":", a);
  }

  lemma AsciiAppend(a: string, b: string)
    requires IsAscii(a) && IsAscii(b)
    ensures IsAscii(a + b)
  {
    forall i | 0 <= i < |a + b| ensures (a + b)[i] as int < 128 {
      if i < |a| {
        assert (a + b)[i] == a[i];
      } else {
        assert (a + b)[i] == b[i - |a|];
      }
    }
  }

  /** A route as the script publishes it — one network, the endpoint, the
      endpoint again as the only segment, status ADD — fits in one-byte
      lengths whenever the network has at most 50 characters and the
      attachment ID at most 4, and so decodes back from its envelope. */
  lemma PublishedRouteRoundTrip(network: string, vpcHex: string, attachmentHex: string)
    requires IsAscii(network) && |network| <= 50
    requires IsAscii(vpcHex) && IsAscii(attachmentHex) && |attachmentHex| <= 4
    ensures IsAscii(Endpoint(vpcHex, attachmentHex))
    ensures var ep := Bytes(Endpoint(vpcHex, attachmentHex));
      var route := ProtoWire.RouteWire(Bytes(network), ep, [ep], 0);
      |route| <= 108
      && ProtoWire.DecodeEnvelope(ProtoWire.EncodeEnvelope(route))
         == Some(ProtoWire.Route(Bytes(network), ep, [ep], 0))
  {
    EndpointAscii(vpcHex, attachmentHex);
    var ep := Bytes(Endpoint(vpcHex, attachmentHex));
    ProtoWire.RouteLength(Bytes(network), ep, [ep], 0);
    var segs: seq<seq<ProtoWire.byte>> := [ep];
    assert segs[..0] == [];
    assert ProtoWire.SegmentsLength([ep]) == 27;
    assert ProtoWire.AllShort([ep]);
    ProtoWire.EnvelopeRoundTrip(Bytes(network), ep, [ep], 0);
  }
}
