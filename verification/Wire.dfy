/** The BGP wire format: RFC 4271 sections 4.1 to 4.5, RFC 4760 sections 3 and 4,
    RFC 6793 section 3, RFC 8092 section 3 and RFC 2918 section 3.

    Encoders and decoders are specified by functions on byte sequences; the
    buffer-filling and slicing loops are proved equal to them. */
module Wire {
  import opened Octets
  import opened Wrappers

  type U16 = x: int | 0 <= x < 65536
  type U32 = x: int | 0 <= x < 4294967296

  function Put16(n: int): (b: Bytes)
    ensures |b| == 2
  {
    [(n / 256) % 256, n % 256]
  }

  function Get16(b: Bytes): U16
    requires |b| == 2
  {
    b[0] as int * 256 + b[1] as int
  }

  function Put32(n: U32): (b: Bytes)
    ensures |b| == 4
  {
    Put16(n / 65536) + Put16(n % 65536)
  }

  function Get32(b: Bytes): U32
    requires |b| == 4
  {
    Get16(b[..2]) as int * 65536 + Get16(b[2..]) as int
  }

  lemma Get16Put16(n: U16)
    ensures Get16(Put16(n)) == n
  {}

  lemma Get32Put32(n: U32)
    ensures Get32(Put32(n)) == n
  {}

  // ----- messages -----

  /** An IPv4 address has four bytes, an IPv6 address sixteen. */
  type IP = b: Bytes | |b| == 4 || |b| == 16 witness [0, 0, 0, 0]

  predicate Is4(ip: IP) { |ip| == 4 }

  datatype Prefix = Prefix(ip: IP, bits: nat)

  function BytesNeeded(bits: nat): nat { (bits + 7) / 8 }

  predicate ValidPrefix(p: Prefix) { p.bits <= 8 * |p.ip| }

  /** The bytes past the prefix length are zero: true of every masked prefix. */
  predicate Padded(p: Prefix) {
    ValidPrefix(p) && forall k :: BytesNeeded(p.bits) <= k < |p.ip| ==> p.ip[k] == 0
  }

  datatype LargeCommunity = LargeCommunity(globalAdmin: U32, localData1: U32, localData2: U32)

  datatype PathAttribute =
    | Origin(value: Byte)
    | ASPath(asn: U32, fourOctet: bool)
    | NextHop(nextHop: IP)
    | MpReach(reachHop: IP, reach: seq<Prefix>)
    | MpUnreach(unreach: seq<Prefix>)
    | LargeCommunities(communities: seq<LargeCommunity>)

  datatype Open = Open(version: Byte, myASN: U16, myASN32: U32, holdTime: U16, bgpID: Bytes, optParmLen: Byte,
                       hasIPv6Unicast: bool, hasAS4Cap: bool)

  datatype Message =
    | OpenMessage(open: Open)
    | Update(withdrawn: seq<Prefix>, attributes: seq<PathAttribute>, nlri: seq<Prefix>)
    | Keepalive
    | Notification(code: Byte, subcode: Byte, data: Bytes)
    | RouteRefresh(afi: U16, subtype: Byte, safi: Byte)

  const HEADER_LEN := 19
  const MSG_OPEN: Byte := 1
  const MSG_UPDATE: Byte := 2
  const MSG_NOTIFICATION: Byte := 3
  const MSG_KEEPALIVE: Byte := 4
  const MSG_ROUTE_REFRESH: Byte := 5

  const ATTR_ORIGIN: Byte := 1
  const ATTR_AS_PATH: Byte := 2
  const ATTR_NEXT_HOP: Byte := 3
  const ATTR_MP_REACH: Byte := 14
  const ATTR_MP_UNREACH: Byte := 15
  const ATTR_LARGE_COMMUNITIES: Byte := 32

  const FLAG_OPTIONAL: Byte := 0x80
  const FLAG_TRANSITIVE: Byte := 0x40

  // ----- prefixes -----

  function EncodePrefix(p: Prefix): (b: Bytes)
    requires ValidPrefix(p)
    ensures |b| == 1 + BytesNeeded(p.bits)
  {
    [p.bits] + p.ip[..BytesNeeded(p.bits)]
  }

  predicate AllValid(ps: seq<Prefix>) { forall p :: p in ps ==> ValidPrefix(p) }

  function Prefixes(ps: seq<Prefix>): (b: Bytes)
    requires AllValid(ps)
  {
    if ps == [] then [] else EncodePrefix(ps[0]) + Prefixes(ps[1..])
  }

  /** The address filled from the front and padded with zero bytes. */
  function PadTo(b: Bytes, n: nat): (r: Bytes)
    ensures |r| == n
  {
    seq(n, k requires 0 <= k => if k < |b| then b[k] else 0)
  }

  function Prepend<T>(front: seq<T>, r: Result<seq<T>>): Result<seq<T>> {
    if r.Err? then Err else Ok(front + r.value)
  }

  lemma PrependNothing<T>(r: Result<seq<T>>)
    ensures Prepend([], r) == r
  {
    if r.Ok? { assert [] + r.value == r.value; }
  }

  lemma PrependTwice<T>(a: seq<T>, b: seq<T>, r: Result<seq<T>>)
    ensures Prepend(a, Prepend(b, r)) == Prepend(a + b, r)
  {
    if r.Ok? { assert a + (b + r.value) == (a + b) + r.value; }
  }

  function DecodePrefixes(data: Bytes, afi: U16): (r: Result<seq<Prefix>>)
  {
    if data == [] then Ok([])
    else
      var need := BytesNeeded(data[0] as int);
      if |data| - 1 < need then Err
      else
        var p := Prefix(PadTo(data[1..1 + need], if afi == 2 then 16 else 4), data[0] as int);
        if !ValidPrefix(p) then Err else Prepend([p], DecodePrefixes(data[1 + need..], afi))
  }

  predicate FamilyOf(ps: seq<Prefix>, afi: U16) {
    forall p :: p in ps ==> Padded(p) && |p.ip| == if afi == 2 then 16 else 4
  }

  /** Decoding what was encoded gives the prefixes back, family by family. */
  lemma {:induction false} PrefixesRoundTrip(ps: seq<Prefix>, afi: U16)
    requires FamilyOf(ps, afi)
    ensures AllValid(ps) && DecodePrefixes(Prefixes(ps), afi) == Ok(ps)
  {
    if ps != [] {
      var p, data := ps[0], Prefixes(ps);
      var need := BytesNeeded(p.bits);
      assert data[1..1 + need] == p.ip[..need];
      assert PadTo(p.ip[..need], |p.ip|) == p.ip;
      assert data[1 + need..] == Prefixes(ps[1..]);
      PrefixesRoundTrip(ps[1..], afi);
      assert ps == [p] + ps[1..];
    }
  }

  /** Re-encoding accepted prefix bytes reproduces them, host bits included. */
  lemma {:induction false} PrefixesReencode(data: Bytes, afi: U16)
    requires DecodePrefixes(data, afi).Ok?
    ensures FamilyOf(DecodePrefixes(data, afi).value, afi) && AllValid(DecodePrefixes(data, afi).value)
    ensures Prefixes(DecodePrefixes(data, afi).value) == data
  {
    if data != [] {
      var need := BytesNeeded(data[0] as int);
      var ps, rest := DecodePrefixes(data, afi).value, data[1 + need..];
      PrefixesReencode(rest, afi);
      FrontPrefix(data, afi, ps[0]);
      assert ps[1..] == DecodePrefixes(rest, afi).value;
      assert forall q :: q in ps ==> q == ps[0] || q in ps[1..];
    }
  }

  lemma FrontPrefix(data: Bytes, afi: U16, p: Prefix)
    requires data != [] && |data| - 1 >= BytesNeeded(data[0] as int)
    requires p == Prefix(PadTo(data[1..1 + BytesNeeded(data[0] as int)], if afi == 2 then 16 else 4), data[0] as int)
    requires ValidPrefix(p)
    ensures Padded(p) && data == EncodePrefix(p) + data[1 + BytesNeeded(data[0] as int)..]
  {}

  /** Exactly the zero-padded prefixes survive a trip through their family. */
  lemma RoundTripIffPadded(p: Prefix)
    requires ValidPrefix(p)
    ensures DecodePrefixes(Prefixes([p]), if |p.ip| == 16 then 2 else 1) == Ok([p]) <==> Padded(p)
  {
    var afi: U16 := if |p.ip| == 16 then 2 else 1;
    if Padded(p) { PrefixesRoundTrip([p], afi); }
    if DecodePrefixes(Prefixes([p]), afi) == Ok([p]) {
      PrefixesReencode(Prefixes([p]), afi);
      assert p in [p];
    }
  }

  /** Copies bytes into a buffer at a moving offset. */
  method Append(buf: array<Byte>, offset: nat, s: Bytes) returns (end: nat)
    requires offset + |s| <= buf.Length
    modifies buf
    ensures end == offset + |s|
    ensures buf[..end] == old(buf[..offset]) + s
  {
    forall k | 0 <= k < |s| { buf[offset + k] := s[k]; }
    end := offset + |s|;
  }

  method EncodePrefixes(ps: seq<Prefix>) returns (buf: array<Byte>)
    requires AllValid(ps)
    ensures fresh(buf) && buf[..] == Prefixes(ps)
  {
    var total := 0;
    for i := 0 to |ps|
      invariant total + |Prefixes(ps[i..])| == |Prefixes(ps)|
    {
      assert ps[i..][1..] == ps[i + 1..] && ps[i] in ps;
      total := total + 1 + BytesNeeded(ps[i].bits);
    }
    buf := new Byte[total](_ => 0);
    var offset := 0;
    for i := 0 to |ps|
      invariant 0 <= offset <= buf.Length && offset + |Prefixes(ps[i..])| == buf.Length
      invariant buf[..offset] + Prefixes(ps[i..]) == Prefixes(ps)
    {
      PrefixesNext(ps, i, buf[..offset]);
      offset := PutPrefix(buf, offset, ps[i]);
    }
    assert buf[..] == buf[..offset];
  }

  lemma PrefixesNext(ps: seq<Prefix>, i: nat, done: Bytes)
    requires AllValid(ps) && i < |ps|
    ensures ps[i] in ps && |Prefixes(ps[i..])| == |EncodePrefix(ps[i])| + |Prefixes(ps[i + 1..])|
    ensures done + Prefixes(ps[i..]) == done + EncodePrefix(ps[i]) + Prefixes(ps[i + 1..])
  {}

  /** The length byte, then the significant address bytes. */
  method PutPrefix(buf: array<Byte>, offset: nat, p: Prefix) returns (end: nat)
    requires ValidPrefix(p) && offset + |EncodePrefix(p)| <= buf.Length
    modifies buf
    ensures end == offset + |EncodePrefix(p)| && buf[..end] == old(buf[..offset]) + EncodePrefix(p)
  {
    var at := Append(buf, offset, [p.bits]);
    end := Append(buf, at, p.ip[..BytesNeeded(p.bits)]);
  }

  method DecodePrefixBytes(input: Bytes, afi: U16) returns (r: Result<seq<Prefix>>)
    ensures r == DecodePrefixes(input, afi)
  {
    var data := input;
    var prefixes: seq<Prefix> := [];
    PrependNothing(DecodePrefixes(input, afi));
    while |data| > 0
      invariant DecodePrefixes(input, afi) == Prepend(prefixes, DecodePrefixes(data, afi))
      decreases |data|
    {
      var prefixLen := data[0] as int;
      var need := BytesNeeded(prefixLen);
      if |data| - 1 < need {
        return Err;
      }
      var p := Prefix(PadTo(data[1..1 + need], if afi == 2 then 16 else 4), prefixLen);
      if !ValidPrefix(p) {
        return Err;
      }
      PrependTwice(prefixes, [p], DecodePrefixes(data[1 + need..], afi));
      prefixes := prefixes + [p];
      data := data[1 + need..];
    }
    assert prefixes + [] == prefixes;
    r := Ok(prefixes);
  }

  // ----- path attributes -----

  function SetExtended(flags: Byte): Byte { if (flags as int / 16) % 2 == 1 then flags else flags as int + 16 }

  predicate Extended(flags: Byte) { (flags as int / 16) % 2 == 1 }

  function Tlv(flags: Byte, typeCode: Byte, value: Bytes): (b: Bytes)
  {
    if |value| > 255 then [SetExtended(flags), typeCode] + Put16(|value| % 65536) + value
    else [flags, typeCode, |value|] + value
  }

  method EncodePathAttribute(flags: Byte, typeCode: Byte, value: Bytes) returns (buf: array<Byte>)
    ensures fresh(buf) && buf[..] == Tlv(flags, typeCode, value)
  {
    var offset;
    if |value| > 255 {
      buf := new Byte[4 + |value|](_ => 0);
      offset := Append(buf, 0, [SetExtended(flags), typeCode]);
      offset := Append(buf, offset, Put16(|value| % 65536));
    } else {
      buf := new Byte[3 + |value|](_ => 0);
      offset := Append(buf, 0, [flags, typeCode, |value|]);
    }
    offset := Append(buf, offset, value);
    assert buf[..] == buf[..offset];
  }

  function Communities(cs: seq<LargeCommunity>): (b: Bytes)
    ensures |b| == 12 * |cs|
  {
    if cs == [] then []
    else Put32(cs[0].globalAdmin) + Put32(cs[0].localData1) + Put32(cs[0].localData2) + Communities(cs[1..])
  }

  predicate EncodableAttribute(a: PathAttribute) {
    match a
    case NextHop(ip) => Is4(ip)
    case MpReach(_, ps) => AllValid(ps)
    case MpUnreach(ps) => AllValid(ps)
    case _ => true
  }

  function AttributeValue(a: PathAttribute): (b: Bytes)
    requires EncodableAttribute(a)
  {
    match a
    case Origin(v) => [v]
    case NextHop(ip) => ip
    case ASPath(asn, four) => if asn > 65535 || four then [2, 1] + Put32(asn) else [2, 1] + Put16(asn)
    case MpReach(hop, ps) => [0, 2, 1, |hop|] + hop + [0] + Prefixes(ps)
    case MpUnreach(ps) => [0, 2, 1] + Prefixes(ps)
    case LargeCommunities(cs) => Communities(cs)
  }

  function AttributeType(a: PathAttribute): Byte {
    match a
    case Origin(_) => ATTR_ORIGIN
    case ASPath(_, _) => ATTR_AS_PATH
    case NextHop(_) => ATTR_NEXT_HOP
    case MpReach(_, _) => ATTR_MP_REACH
    case MpUnreach(_) => ATTR_MP_UNREACH
    case LargeCommunities(_) => ATTR_LARGE_COMMUNITIES
  }

  function AttributeFlags(a: PathAttribute): Byte {
    match a
    case MpReach(_, _) => FLAG_OPTIONAL
    case MpUnreach(_) => FLAG_OPTIONAL
    case LargeCommunities(_) => FLAG_OPTIONAL + FLAG_TRANSITIVE
    case _ => FLAG_TRANSITIVE
  }

  function SerializeAttribute(a: PathAttribute): (b: Bytes)
    requires EncodableAttribute(a)
  {
    Tlv(AttributeFlags(a), AttributeType(a), AttributeValue(a))
  }

  predicate AllEncodable(attrs: seq<PathAttribute>) { forall a :: a in attrs ==> EncodableAttribute(a) }

  function Attributes(attrs: seq<PathAttribute>): (b: Bytes)
    requires AllEncodable(attrs)
  {
    if attrs == [] then [] else SerializeAttribute(attrs[0]) + Attributes(attrs[1..])
  }

  /** The first pass: every attribute in bytes, and how many there are in all. */
  method SerializeEach(attrs: seq<PathAttribute>) returns (serialized: seq<Bytes>, total: nat)
    requires AllEncodable(attrs)
    ensures |serialized| == |attrs| && total == |Attributes(attrs)|
    ensures forall k :: 0 <= k < |attrs| ==> attrs[k] in attrs && serialized[k] == SerializeAttribute(attrs[k])
  {
    total := 0;
    serialized := [];
    for i := 0 to |attrs|
      invariant |serialized| == i
      invariant forall k :: 0 <= k < i ==> attrs[k] in attrs && serialized[k] == SerializeAttribute(attrs[k])
      invariant total + |Attributes(attrs[i..])| == |Attributes(attrs)|
    {
      AttributesNext(attrs, i, []);
      var one := EncodePathAttribute(AttributeFlags(attrs[i]), AttributeType(attrs[i]), AttributeValue(attrs[i]));
      serialized := serialized + [one[..]];
      total := total + one.Length;
    }
  }

  method EncodePathAttributes(attrs: seq<PathAttribute>) returns (buf: array<Byte>)
    requires AllEncodable(attrs)
    ensures fresh(buf) && buf[..] == Attributes(attrs)
  {
    var serialized, total := SerializeEach(attrs);
    buf := new Byte[total](_ => 0);
    var offset := 0;
    for i := 0 to |attrs|
      invariant 0 <= offset <= buf.Length && offset + |Attributes(attrs[i..])| == buf.Length
      invariant buf[..offset] + Attributes(attrs[i..]) == Attributes(attrs)
    {
      AttributesNext(attrs, i, buf[..offset]);
      offset := Append(buf, offset, serialized[i]);
    }
    assert buf[..] == buf[..offset];
  }

  lemma AttributesNext(attrs: seq<PathAttribute>, i: nat, done: Bytes)
    requires AllEncodable(attrs) && i < |attrs|
    ensures attrs[i] in attrs
    ensures |Attributes(attrs[i..])| == |SerializeAttribute(attrs[i])| + |Attributes(attrs[i + 1..])|
    ensures done + Attributes(attrs[i..]) == done + SerializeAttribute(attrs[i]) + Attributes(attrs[i + 1..])
  {}

  function DecodeCommunities(value: Bytes): (cs: seq<LargeCommunity>)
    requires |value| % 12 == 0
  {
    if value == [] then []
    else [LargeCommunity(Get32(value[..4]), Get32(value[4..8]), Get32(value[8..12]))] + DecodeCommunities(value[12..])
  }

  function DecodeMpReach(value: Bytes): (r: Result<PathAttribute>)
  {
    if |value| < 5 then Err
    else
      var afi := Get16(value[..2]);
      var hopLen := value[3] as int;
      if |value| < 4 + hopLen then Err
      else if hopLen != 4 && hopLen != 16 && hopLen != 32 then Err
      else
        var hop := value[4..4 + (if hopLen == 32 then 16 else hopLen)];
        var start := 4 + hopLen + 1;
        if |value| > start then
          match DecodePrefixes(value[start..], afi)
          case Err => Err
          case Ok(ps) => Ok(MpReach(hop, ps))
        else Ok(MpReach(hop, []))
  }

  function DecodeMpUnreach(value: Bytes): (r: Result<PathAttribute>)
  {
    if |value| < 3 then Err
    else if |value| == 3 then Ok(MpUnreach([]))
    else
      match DecodePrefixes(value[3..], Get16(value[..2]))
      case Err => Err
      case Ok(ps) => Ok(MpUnreach(ps))
  }

  function DecodeASPath(value: Bytes): (r: Result<PathAttribute>)
  {
    if |value| < 2 then Err
    else if value[0] != 1 && value[0] != 2 then Err
    else if value[1] == 0 then Err
    else if |value| >= 2 + value[1] as int * 4 then Ok(ASPath(Get32(value[2..6]), false))
    else if |value| >= 2 + value[1] as int * 2 then Ok(ASPath(Get16(value[2..4]), false))
    else Err
  }

  predicate KnownType(typeCode: Byte) {
    typeCode in {ATTR_ORIGIN, ATTR_AS_PATH, ATTR_NEXT_HOP, ATTR_MP_REACH, ATTR_MP_UNREACH, ATTR_LARGE_COMMUNITIES}
  }

  /** One attribute value by type; unknown types decode to nothing. */
  function DecodeAttribute(typeCode: Byte, value: Bytes): (r: Result<Option<PathAttribute>>)
  {
    if typeCode == ATTR_ORIGIN then if |value| != 1 then Err else Ok(Some(Origin(value[0])))
    else if typeCode == ATTR_NEXT_HOP then if |value| != 4 then Err else Ok(Some(NextHop(value)))
    else if typeCode == ATTR_LARGE_COMMUNITIES then
      if |value| % 12 != 0 then Err else Ok(Some(LargeCommunities(DecodeCommunities(value))))
    else if KnownType(typeCode) then
      var known := if typeCode == ATTR_AS_PATH then DecodeASPath(value)
                   else if typeCode == ATTR_MP_REACH then DecodeMpReach(value)
                   else DecodeMpUnreach(value);
      match known case Err => Err case Ok(a) => Ok(Some(a))
    else Ok(None)
  }

  /** Header length and value length of the attribute at the front, if it is all there. */
  function Frame(data: Bytes): (r: Option<(nat, nat)>)
    ensures r.Some? ==> 3 <= r.value.0 <= 4 && r.value.0 + r.value.1 <= |data|
  {
    if |data| < 3 then None
    else if Extended(data[0]) then
      if |data| < 4 || |data| < 4 + Get16(data[2..4]) as int then None else Some((4, Get16(data[2..4]) as int))
    else if |data| < 3 + data[2] as int then None else Some((3, data[2] as int))
  }

  function Optional<T>(o: Option<T>): seq<T> { if o.None? then [] else [o.value] }

  function DecodeAttributes(data: Bytes): (r: Result<seq<PathAttribute>>)
  {
    if data == [] then Ok([])
    else
      match Frame(data)
      case None => Err
      case Some((hdr, len)) =>
        match DecodeAttribute(data[1], data[hdr..hdr + len])
        case Err => Err
        case Ok(attr) => Prepend(Optional(attr), DecodeAttributes(data[hdr + len..]))
  }

  /** The flags say whether the length takes one byte or two. */
  method ReadHeader(data: Bytes) returns (header: Option<(nat, nat)>)
    ensures header == Frame(data)
  {
    if |data| < 3 {
      return None;
    }
    var flags := data[0];
    var attrLen: int, hdrLen: int;
    if Extended(flags) {
      if |data| < 4 {
        return None;
      }
      attrLen, hdrLen := Get16(data[2..4]) as int, 4;
    } else {
      attrLen, hdrLen := data[2] as int, 3;
    }
    header := if |data| < hdrLen + attrLen then None else Some((hdrLen, attrLen));
  }

  /** The attributes decoded so far, and whatever the remaining bytes give. */
  predicate AttributesSoFar(attrs: seq<PathAttribute>, data: Bytes, whole: Result<seq<PathAttribute>>) {
    Prepend(attrs, DecodeAttributes(data)) == whole
  }

  lemma AttributesStart(data: Bytes)
    ensures AttributesSoFar([], data, DecodeAttributes(data))
  {
    PrependNothing(DecodeAttributes(data));
  }

  lemma AttributesEnd(attrs: seq<PathAttribute>, data: Bytes, whole: Result<seq<PathAttribute>>)
    requires data == [] && AttributesSoFar(attrs, data, whole)
    ensures whole == Ok(attrs)
  {
    assert attrs + [] == attrs;
  }

  /** The attribute at the front is cut off or malformed, or the rest follows it. */
  lemma AttributeNext(attrs: seq<PathAttribute>, data: Bytes, whole: Result<seq<PathAttribute>>)
    requires data != [] && AttributesSoFar(attrs, data, whole)
    ensures if Frame(data).None? then whole == Err
            else
              var hdr, end := Frame(data).value.0, Frame(data).value.0 + Frame(data).value.1;
              var attr := DecodeAttribute(data[1], data[hdr..end]);
              if attr.Err? then whole == Err else AttributesSoFar(attrs + Optional(attr.value), data[end..], whole)
  {
    if Frame(data).Some? {
      var hdr, end := Frame(data).value.0, Frame(data).value.0 + Frame(data).value.1;
      var attr := DecodeAttribute(data[1], data[hdr..end]);
      if attr.Ok? { PrependTwice(attrs, Optional(attr.value), DecodeAttributes(data[end..])); }
    }
  }

  method DecodePathAttributes(input: Bytes) returns (r: Result<seq<PathAttribute>>)
    ensures r == DecodeAttributes(input)
  {
    ghost var whole := DecodeAttributes(input);
    var data := input;
    var attrs: seq<PathAttribute> := [];
    AttributesStart(input);
    while |data| > 0
      invariant AttributesSoFar(attrs, data, whole)
      decreases |data|
    {
      AttributeNext(attrs, data, whole);
      var header := ReadHeader(data);
      if header.None? {
        return Err;
      }
      var hdrLen, attrLen := header.value.0, header.value.1;
      var value := data[hdrLen..hdrLen + attrLen];
      var attr := DecodeAttribute(data[1], value);
      if attr.Err? {
        return Err;
      }
      data := data[hdrLen + attrLen..];
      attrs := attrs + Optional(attr.value);
    }
    AttributesEnd(attrs, data, whole);
    r := Ok(attrs);
  }

  // ----- attribute round trips -----

  /** What a decoder can tell: the width of an AS number is not recorded. */
  function Decoded(a: PathAttribute): PathAttribute { if a.ASPath? then a.(fourOctet := false) else a }

  predicate SendableAttribute(a: PathAttribute) {
    match a
    case NextHop(ip) => Is4(ip)
    case MpReach(_, ps) => FamilyOf(ps, 2)
    case MpUnreach(ps) => FamilyOf(ps, 2)
    case _ => true
  }

  lemma {:induction false} CommunitiesRoundTrip(cs: seq<LargeCommunity>)
    ensures DecodeCommunities(Communities(cs)) == cs
  {
    if cs != [] {
      var b, c := Communities(cs), cs[0];
      assert b[..4] == Put32(c.globalAdmin) && b[4..8] == Put32(c.localData1) && b[8..12] == Put32(c.localData2);
      assert b[12..] == Communities(cs[1..]);
      Get32Put32(c.globalAdmin);
      Get32Put32(c.localData1);
      Get32Put32(c.localData2);
      CommunitiesRoundTrip(cs[1..]);
    }
  }

  lemma AttributeRoundTrip(a: PathAttribute)
    requires SendableAttribute(a)
    ensures DecodeAttribute(AttributeType(a), AttributeValue(a)) == Ok(Some(Decoded(a)))
  {
    match a
    case ASPath(asn, four) => ASPathRoundTrip(asn, four);
    case MpReach(hop, ps) => MpReachRoundTrip(hop, ps);
    case MpUnreach(ps) => MpUnreachRoundTrip(ps);
    case LargeCommunities(cs) => LargeCommunitiesRoundTrip(cs);
    case Origin(_) =>
    case NextHop(_) =>
  }

  lemma LargeCommunitiesRoundTrip(cs: seq<LargeCommunity>)
    ensures DecodeAttribute(ATTR_LARGE_COMMUNITIES, Communities(cs)) == Ok(Some(LargeCommunities(cs)))
  {
    CommunitiesRoundTrip(cs);
  }

  lemma ASPathRoundTrip(asn: U32, four: bool)
    ensures DecodeASPath(AttributeValue(ASPath(asn, four))) == Ok(ASPath(asn, false))
  {
    var v := AttributeValue(ASPath(asn, four));
    if asn > 65535 || four {
      assert v[2..6] == Put32(asn);
      Get32Put32(asn);
    } else {
      assert v[2..4] == Put16(asn);
      Get16Put16(asn);
    }
  }

  lemma MpUnreachRoundTrip(ps: seq<Prefix>)
    requires FamilyOf(ps, 2)
    ensures AllValid(ps) && DecodeMpUnreach(AttributeValue(MpUnreach(ps))) == Ok(MpUnreach(ps))
  {
    PrefixesRoundTrip(ps, 2);
    var v := AttributeValue(MpUnreach(ps));
    assert v[..2] == [0, 2] && v[3..] == Prefixes(ps);
  }

  lemma MpReachRoundTrip(hop: IP, ps: seq<Prefix>)
    requires FamilyOf(ps, 2)
    ensures AllValid(ps) && DecodeMpReach(AttributeValue(MpReach(hop, ps))) == Ok(MpReach(hop, ps))
  {
    PrefixesRoundTrip(ps, 2);
    MpReachLayout(hop, Prefixes(ps));
  }

  /** Where the pieces of the value are. */
  lemma MpReachLayout(hop: IP, nlri: Bytes)
    ensures var v := [0, 2, 1, |hop|] + hop + [0] + nlri;
            v[..2] == [0, 2] && v[3] == |hop| && v[4..4 + |hop|] == hop && |v| == 5 + |hop| + |nlri| &&
              v[4 + |hop| + 1..] == nlri
  {}

  /** The frame of an encoded attribute is found again, on both sides of the
      switch to a two-byte length. */
  lemma FrameOfTlv(flags: Byte, typeCode: Byte, value: Bytes, rest: Bytes)
    requires !Extended(flags) && |value| <= 65535
    ensures var b := Tlv(flags, typeCode, value) + rest;
            Frame(b).Some? && Frame(b).value.0 + Frame(b).value.1 == |Tlv(flags, typeCode, value)| &&
            b[1] == typeCode && b[Frame(b).value.0..Frame(b).value.0 + Frame(b).value.1] == value &&
            b[Frame(b).value.0 + Frame(b).value.1..] == rest
  {
    var b := Tlv(flags, typeCode, value) + rest;
    if |value| > 255 {
      assert b[2..4] == Put16(|value|);
      Get16Put16(|value|);
      assert b[4..4 + |value|] == value && b[4 + |value|..] == rest;
    } else {
      assert b[3..3 + |value|] == value && b[3 + |value|..] == rest;
    }
  }

  lemma TlvDecodes(flags: Byte, typeCode: Byte, value: Bytes, rest: Bytes)
    requires !Extended(flags) && |value| <= 65535 && DecodeAttribute(typeCode, value).Ok?
    ensures DecodeAttributes(Tlv(flags, typeCode, value) + rest)
         == Prepend(Optional(DecodeAttribute(typeCode, value).value), DecodeAttributes(rest))
  {
    FrameOfTlv(flags, typeCode, value, rest);
  }

  predicate SendableAttributes(attrs: seq<PathAttribute>) {
    forall a :: a in attrs ==> SendableAttribute(a) && |AttributeValue(a)| <= 65535
  }

  function DecodedAll(attrs: seq<PathAttribute>): (r: seq<PathAttribute>)
    ensures |r| == |attrs|
  {
    if attrs == [] then [] else [Decoded(attrs[0])] + DecodedAll(attrs[1..])
  }

  lemma FirstRoundTrip(a: PathAttribute, rest: Bytes)
    requires SendableAttribute(a) && |AttributeValue(a)| <= 65535
    ensures DecodeAttributes(SerializeAttribute(a) + rest) == Prepend([Decoded(a)], DecodeAttributes(rest))
  {
    AttributeRoundTrip(a);
    TlvDecodes(AttributeFlags(a), AttributeType(a), AttributeValue(a), rest);
  }

  lemma {:induction false} AttributesRoundTrip(attrs: seq<PathAttribute>)
    requires SendableAttributes(attrs)
    ensures DecodeAttributes(Attributes(attrs)) == Ok(DecodedAll(attrs))
  {
    if attrs != [] {
      assert attrs[0] in attrs && forall a :: a in attrs[1..] ==> a in attrs;
      AttributesRoundTrip(attrs[1..]);
      FirstRoundTrip(attrs[0], Attributes(attrs[1..]));
    }
  }

  // ----- unknown attributes -----

  /** A sequence of complete attributes. */
  predicate Framed(data: Bytes) {
    data == [] || (Frame(data).Some? && Framed(data[Frame(data).value.0 + Frame(data).value.1..]))
  }

  lemma FrameOfFront(a: Bytes, b: Bytes)
    requires Frame(a).Some?
    ensures Frame(a + b) == Frame(a) && (a + b)[1] == a[1]
    ensures var hdr, end := Frame(a).value.0, Frame(a).value.0 + Frame(a).value.1;
            (a + b)[hdr..end] == a[hdr..end] && (a + b)[end..] == a[end..] + b
  {
    assert |a| >= 4 ==> (a + b)[2..4] == a[2..4];
  }

  /** Complete attributes decode on their own, whatever follows them. */
  lemma {:induction false} FramedSplit(a: Bytes, b: Bytes)
    requires Framed(a)
    ensures DecodeAttributes(a + b) ==
      if DecodeAttributes(a).Err? then Err else Prepend(DecodeAttributes(a).value, DecodeAttributes(b))
  {
    if a == [] {
      assert a + b == b;
      PrependNothing(DecodeAttributes(b));
    } else {
      var end := Frame(a).value.0 + Frame(a).value.1;
      DecodeFront(a, b);
      DecodeFront(a, []);
      assert a + [] == a && a[end..] + [] == a[end..];
      FramedSplit(a[end..], b);
      var rest := DecodeAttributes(a[end..]);
      if rest.Ok? { PrependAll(DecodeAttribute(a[1], a[Frame(a).value.0..end]), rest.value, DecodeAttributes(b)); }
    }
  }

  lemma PrependAll(attr: Result<Option<PathAttribute>>, rest: seq<PathAttribute>, more: Result<seq<PathAttribute>>)
    ensures attr.Ok? ==>
            Prepend(Optional(attr.value), Prepend(rest, more)) == Prepend(Optional(attr.value) + rest, more)
  {
    if attr.Ok? { PrependTwice(Optional(attr.value), rest, more); }
  }

  /** Decoding starts with the complete attribute at the front. */
  lemma DecodeFront(a: Bytes, b: Bytes)
    requires Frame(a).Some?
    ensures var end := Frame(a).value.0 + Frame(a).value.1;
            var attr := DecodeAttribute(a[1], a[Frame(a).value.0..end]);
            DecodeAttributes(a + b) == if attr.Err? then Err
              else Prepend(Optional(attr.value), DecodeAttributes(a[end..] + b))
  {
    FrameOfFront(a, b);
  }

  /** One complete attribute of a type the decoder does not know, in either form of
      the length. */
  predicate UnknownAttribute(t: Bytes) {
    var frame := Frame(t);
    frame.Some? && frame.value.0 + frame.value.1 == |t| && !KnownType(t[1])
  }

  /** Such an attribute between complete ones changes nothing, not even which
      errors are reported. */
  lemma UnknownAttributeIgnored(before: Bytes, unknown: Bytes, after: Bytes)
    requires Framed(before) && UnknownAttribute(unknown)
    ensures DecodeAttributes(before + unknown + after) == DecodeAttributes(before + after)
  {
    assert before + unknown + after == before + (unknown + after);
    FramedSplit(before, unknown + after);
    FramedSplit(before, after);
    DecodeFront(unknown, after);
    assert unknown[|unknown|..] + after == after;
    PrependNothing(DecodeAttributes(after));
  }

  // ----- messages -----

  const MARKER: Bytes := [255, 255, 255, 255, 255, 255, 255, 255, 255, 255, 255, 255, 255, 255, 255, 255]

  function Wrap(msgType: Byte, body: Bytes): (b: Bytes)
    ensures |b| == HEADER_LEN + |body|
  {
    MARKER + Put16((HEADER_LEN + |body|) % 65536) + [msgType] + body
  }

  method WrapMessage(msgType: Byte, body: Bytes) returns (buf: array<Byte>)
    ensures fresh(buf) && buf[..] == Wrap(msgType, body)
  {
    var totalLen := HEADER_LEN + |body|;
    buf := new Byte[totalLen](_ => 0);
    for i := 0 to 16
      invariant forall k :: 0 <= k < i ==> buf[k] == 255
    {
      buf[i] := 255;
    }
    assert buf[..16] == MARKER;
    var offset := Append(buf, 16, Put16(totalLen % 65536));
    offset := Append(buf, offset, [msgType]);
    offset := Append(buf, offset, body);
    assert buf[..] == buf[..offset];
  }

  const AS_TRANS: U16 := 23456

  function Capability(code: Byte, value: Bytes): Bytes
    requires |value| < 256
  {
    [code, |value|] + value
  }

  /** The capabilities of every OPEN: IPv6 and IPv4 unicast, the four-octet AS
      number and route refresh. */
  function Capabilities(asn: U32): (b: Bytes)
    ensures |b| == 20
  {
    Capability(1, [0, 2, 0, 1]) + (Capability(1, [0, 1, 0, 1]) + (Capability(65, Put32(asn)) + Capability(2, [])))
  }

  /** The OPEN as sent: the short AS number and the parameter length are computed. */
  function Sent(o: Open): Open {
    o.(myASN := if o.myASN32 > 65535 then AS_TRANS else o.myASN32, optParmLen := 22)
  }

  function OpenBody(o: Open): Bytes {
    [o.version] + Put16(Sent(o).myASN) + Put16(o.holdTime) + o.bgpID + [22] + Capability(2, Capabilities(o.myASN32))
  }

  predicate Encodable(m: Message) {
    match m
    case OpenMessage(o) => |o.bgpID| == 4
    case Update(w, attrs, nlri) => AllValid(w) && AllEncodable(attrs) && AllValid(nlri)
    case RouteRefresh(_, _, _) => false
    case _ => true
  }

  function UpdateBody(w: Bytes, attrs: Bytes, nlri: Bytes): Bytes {
    Put16(|w| % 65536) + w + Put16(|attrs| % 65536) + attrs + nlri
  }

  function MessageType(m: Message): Byte {
    match m
    case OpenMessage(_) => MSG_OPEN
    case Update(_, _, _) => MSG_UPDATE
    case Keepalive => MSG_KEEPALIVE
    case Notification(_, _, _) => MSG_NOTIFICATION
    case RouteRefresh(_, _, _) => MSG_ROUTE_REFRESH
  }

  function Body(m: Message): (b: Bytes)
    requires Encodable(m)
  {
    match m
    case OpenMessage(o) => OpenBody(o)
    case Update(w, attrs, nlri) => UpdateBody(Prefixes(w), Attributes(attrs), Prefixes(nlri))
    case Keepalive => []
    case Notification(code, subcode, data) => [code, subcode] + data
  }

  function Serialize(m: Message): (b: Bytes)
    requires Encodable(m)
  {
    Wrap(MessageType(m), Body(m))
  }

  /** Withdrawn routes, path attributes and NLRI, the first two with their lengths. */
  method FillUpdateBody(withdrawn: Bytes, attrs: Bytes, nlri: Bytes) returns (body: array<Byte>)
    ensures fresh(body) && body[..] == UpdateBody(withdrawn, attrs, nlri)
  {
    body := new Byte[2 + |withdrawn| + 2 + |attrs| + |nlri|](_ => 0);
    var offset := Append(body, 0, Put16(|withdrawn| % 65536));
    offset := Append(body, offset, withdrawn);
    offset := Append(body, offset, Put16(|attrs| % 65536));
    offset := Append(body, offset, attrs);
    offset := Append(body, offset, nlri);
    assert body[..] == body[..offset];
  }

  method SerializeUpdate(m: Message) returns (buf: array<Byte>)
    requires m.Update? && Encodable(m)
    ensures fresh(buf) && buf[..] == Serialize(m)
  {
    var withdrawn := EncodePrefixes(m.withdrawn);
    var attrs := EncodePathAttributes(m.attributes);
    var nlri := EncodePrefixes(m.nlri);
    var body := FillUpdateBody(withdrawn[..], attrs[..], nlri[..]);
    buf := WrapMessage(MSG_UPDATE, body[..]);
  }

  // ----- decoding messages -----

  function ReadCapability(o: Open, code: Byte, value: Bytes): Open {
    if code == 65 && |value| == 4 then o.(myASN32 := Get32(value), hasAS4Cap := true)
    else if code == 1 && |value| == 4 && Get16(value[..2]) == 2 && value[3] == 1 then o.(hasIPv6Unicast := true)
    else o
  }

  function ReadCapabilities(o: Open, data: Bytes): (r: Open)
    decreases |data|
  {
    if |data| < 2 || 2 + data[1] as int > |data| then o
    else
      var end := 2 + data[1] as int;
      ReadCapabilities(ReadCapability(o, data[0], data[2..end]), data[end..])
  }

  function ReadParameters(o: Open, opts: Bytes): (r: Open)
    decreases |opts|
  {
    if |opts| < 2 || 2 + opts[1] as int > |opts| then o
    else
      var end := 2 + opts[1] as int;
      ReadParameters(if opts[0] == 2 then ReadCapabilities(o, opts[2..end]) else o, opts[end..])
  }

  function OpenFixedPart(data: Bytes): Open
    requires |data| >= 10
  {
    Open(data[0], Get16(data[1..3]), 0, Get16(data[3..5]), data[5..9], data[9], false, false)
  }

  function DecodeOpen(data: Bytes): (r: Result<Open>)
  {
    if |data| < 10 || data[0] != 4 then Err
    else
      var o := OpenFixedPart(data);
      var end := 10 + o.optParmLen as int;
      if o.optParmLen > 0 && |data| >= end then Ok(ReadParameters(o, data[10..end]))
      else Ok(o)
  }

  method DecodeOpenBody(data: Bytes) returns (r: Result<Open>)
    ensures r == DecodeOpen(data)
  {
    if |data| < 10 {
      return Err;
    }
    var o := OpenFixedPart(data);
    if o.version != 4 {
      return Err;
    }
    if o.optParmLen > 0 && |data| >= 10 + o.optParmLen as int {
      var opts := data[10..10 + o.optParmLen as int];
      ghost var parsed := ReadParameters(o, opts);
      while |opts| >= 2
        invariant ReadParameters(o, opts) == parsed
        decreases |opts|
      {
        var paramType, paramLen := opts[0], opts[1] as int;
        if 2 + paramLen > |opts| {
          break;
        }
        if paramType == 2 {
          var capData := opts[2..2 + paramLen];
          ghost var read := ReadCapabilities(o, capData);
          while |capData| >= 2
            invariant ReadCapabilities(o, capData) == read
            decreases |capData|
          {
            var capLen := capData[1] as int;
            if 2 + capLen > |capData| {
              break;
            }
            o := ReadCapability(o, capData[0], capData[2..2 + capLen]);
            capData := capData[2 + capLen..];
          }
        }
        opts := opts[2 + paramLen..];
      }
    }
    r := Ok(o);
  }

  /** Withdrawn routes, path attributes and NLRI, if both lengths fit. */
  function SplitUpdate(data: Bytes): (r: Option<(Bytes, Bytes, Bytes)>)
  {
    if |data| < 2 then None
    else
      var wLen := Get16(data[..2]) as int;
      if wLen > |data| - 2 || |data| < 4 + wLen then None
      else
        var aLen := Get16(data[2 + wLen..4 + wLen]) as int;
        if aLen > |data| - 4 - wLen then None
        else Some((data[2..2 + wLen], data[4 + wLen..4 + wLen + aLen], data[4 + wLen + aLen..]))
  }

  function DecodeUpdate(data: Bytes): (r: Result<Message>)
  {
    match SplitUpdate(data)
    case None => Err
    case Some((w, attrs, nlri)) =>
      match DecodePrefixes(w, 1)
      case Err => Err
      case Ok(withdrawn) =>
        match DecodeAttributes(attrs)
        case Err => Err
        case Ok(attributes) =>
          match DecodePrefixes(nlri, 1)
          case Err => Err
          case Ok(announced) => Ok(Update(withdrawn, attributes, announced))
  }

  function DecodeBody(msgType: Byte, body: Bytes): (r: Result<Message>)
  {
    if msgType == MSG_OPEN then match DecodeOpen(body) case Err => Err case Ok(o) => Ok(OpenMessage(o))
    else if msgType == MSG_UPDATE then DecodeUpdate(body)
    else if msgType == MSG_KEEPALIVE then if |body| != 0 then Err else Ok(Keepalive)
    else if msgType == MSG_NOTIFICATION then if |body| < 2 then Err else Ok(Notification(body[0], body[1], body[2..]))
    else if msgType == MSG_ROUTE_REFRESH then
      if |body| != 4 then Err else Ok(RouteRefresh(Get16(body[..2]), body[2], body[3]))
    else Err
  }

  /** One message off the front of a stream, with what remains. */
  function ReadMessage(stream: Bytes): (r: Result<(Message, Bytes)>)
    ensures r.Ok? ==> |r.value.1| < |stream|
  {
    if |stream| < HEADER_LEN then Err
    else if stream[..16] != MARKER then Err
    else
      var length := Get16(stream[16..18]) as int;
      if length < HEADER_LEN || |stream| < length then Err
      else
        match DecodeBody(stream[18], stream[HEADER_LEN..length])
        case Err => Err
        case Ok(m) => Ok((m, stream[length..]))
  }

  function ReadAll(stream: Bytes): (r: Result<seq<Message>>)
    decreases |stream|
  {
    if stream == [] then Ok([])
    else
      match ReadMessage(stream)
      case Err => Err
      case Ok((m, rest)) =>
        match ReadAll(rest)
        case Err => Err
        case Ok(ms) => Ok([m] + ms)
  }

  // ----- stream round trip -----

  /** Messages this speaker may send: supported version, padded prefixes of the
      right family, and every length within its 16-bit field. */
  predicate Sendable(m: Message) {
    match m
    case OpenMessage(o) => o.version == 4 && |o.bgpID| == 4
    case Update(w, attrs, nlri) =>
      FamilyOf(w, 1) && FamilyOf(nlri, 1) && SendableAttributes(attrs) &&
      AllValid(w) && AllValid(nlri) && |Serialize(m)| <= 65535
    case Keepalive => true
    case Notification(_, _, data) => |data| <= 65535 - 21
    case RouteRefresh(_, _, _) => false
  }

  /** What the receiver sees: capability flags and computed OPEN fields are filled
      in, and the AS number width is not recorded. */
  function Received(m: Message): Message {
    match m
    case OpenMessage(o) => OpenMessage(Sent(o).(hasIPv6Unicast := true, hasAS4Cap := true))
    case Update(w, attrs, nlri) => Update(w, DecodedAll(attrs), nlri)
    case _ => m
  }

  lemma OpenRoundTrip(o: Open)
    requires o.version == 4 && |o.bgpID| == 4
    ensures DecodeOpen(OpenBody(o)) == Ok(Received(OpenMessage(o)).open)
  {
    var b, caps := OpenBody(o), Capabilities(o.myASN32);
    assert b[1..3] == Put16(Sent(o).myASN) && b[3..5] == Put16(o.holdTime) && b[5..9] == o.bgpID;
    assert b[10..32] == Capability(2, caps);
    assert o.bgpID == b[5..9] && b[9] == 22 && |b| == 32;
    Get16Put16(Sent(o).myASN);
    Get16Put16(o.holdTime);
    ParameterRead(OpenFixedPart(b), caps);
    CapabilitiesRead(OpenFixedPart(b), o.myASN32);
  }

  lemma ParameterRead(o: Open, caps: Bytes)
    requires |caps| < 256
    ensures ReadParameters(o, Capability(2, caps)) == ReadCapabilities(o, caps)
  {
    var b := Capability(2, caps);
    assert b[2..2 + |caps|] == caps && b[2 + |caps|..] == [];
  }

  lemma CapabilityRead(o: Open, code: Byte, value: Bytes, rest: Bytes)
    requires |value| < 256
    ensures ReadCapabilities(o, Capability(code, value) + rest) ==
            ReadCapabilities(ReadCapability(o, code, value), rest)
  {
    var b := Capability(code, value) + rest;
    assert b[2..2 + |value|] == value && b[2 + |value|..] == rest;
  }

  lemma CapabilitiesRead(o: Open, asn: U32)
    ensures ReadCapabilities(o, Capabilities(asn)) == o.(myASN32 := asn, hasIPv6Unicast := true, hasAS4Cap := true)
  {
    var last := Capability(2, []);
    var third := Capability(65, Put32(asn)) + last;
    var second := Capability(1, [0, 1, 0, 1]) + third;
    assert [0, 2, 0, 1][..2] == [0, 2] && [0, 1, 0, 1][..2] == [0, 1];
    CapabilityRead(o, 1, [0, 2, 0, 1], second);
    var o1 := o.(hasIPv6Unicast := true);
    CapabilityRead(o1, 1, [0, 1, 0, 1], third);
    CapabilityRead(o1, 65, Put32(asn), last);
    Get32Put32(asn);
    assert last == Capability(2, []) + [];
    CapabilityRead(o1.(myASN32 := asn, hasAS4Cap := true), 2, [], []);
  }

  lemma UpdateSplits(w: Bytes, attrs: Bytes, nlri: Bytes)
    requires |w| < 65536 && |attrs| < 65536
    ensures SplitUpdate(UpdateBody(w, attrs, nlri)) == Some((w, attrs, nlri))
  {
    var b := UpdateBody(w, attrs, nlri);
    assert b[..2] == Put16(|w|) && b[2..2 + |w|] == w && b[2 + |w|..4 + |w|] == Put16(|attrs|);
    assert b[4 + |w|..4 + |w| + |attrs|] == attrs && b[4 + |w| + |attrs|..] == nlri;
    Get16Put16(|w|);
    Get16Put16(|attrs|);
  }

  lemma UpdateRoundTrip(w: Bytes, attrs: Bytes, nlri: Bytes)
    requires |w| < 65536 && |attrs| < 65536
    ensures DecodeUpdate(UpdateBody(w, attrs, nlri)) ==
      var dw, da, dn := DecodePrefixes(w, 1), DecodeAttributes(attrs), DecodePrefixes(nlri, 1);
      if dw.Err? || da.Err? || dn.Err? then Err else Ok(Update(dw.value, da.value, dn.value))
  {
    UpdateSplits(w, attrs, nlri);
  }

  /** An unknown attribute inserted into an UPDATE leaves the decoded message as it was. */
  lemma UnknownAttributeInUpdate(w: Bytes, before: Bytes, unknown: Bytes, after: Bytes, nlri: Bytes)
    requires Framed(before) && UnknownAttribute(unknown)
    requires |w| < 65536 && |before + unknown + after| < 65536
    ensures DecodeUpdate(UpdateBody(w, before + unknown + after, nlri)) ==
            DecodeUpdate(UpdateBody(w, before + after, nlri))
  {
    UnknownAttributeIgnored(before, unknown, after);
    UpdateRoundTrip(w, before + unknown + after, nlri);
    UpdateRoundTrip(w, before + after, nlri);
  }

  lemma BodyRoundTrip(m: Message)
    requires Sendable(m)
    ensures Encodable(m) && |Body(m)| + HEADER_LEN <= 65535
    ensures DecodeBody(MessageType(m), Body(m)) == Ok(Received(m))
  {
    match m
    case OpenMessage(o) => OpenRoundTrip(o);
    case Update(w, attrs, nlri) =>
      PrefixesRoundTrip(w, 1);
      PrefixesRoundTrip(nlri, 1);
      AttributesRoundTrip(attrs);
      UpdateRoundTrip(Prefixes(w), Attributes(attrs), Prefixes(nlri));
    case Keepalive =>
    case Notification(code, subcode, data) => assert ([code, subcode] + data)[2..] == data;
  }

  lemma WrapRead(msgType: Byte, body: Bytes, rest: Bytes)
    requires |body| + HEADER_LEN <= 65535
    ensures var r := DecodeBody(msgType, body);
            ReadMessage(Wrap(msgType, body) + rest) == if r.Err? then Err else Ok((r.value, rest))
  {
    var b := Wrap(msgType, body) + rest;
    var length := HEADER_LEN + |body|;
    assert b[..16] == MARKER;
    assert b[16..18] == Put16(length);
    Get16Put16(length);
    assert b[19..length] == body && b[length..] == rest;
  }

  lemma MessageRoundTrip(m: Message, rest: Bytes)
    requires Sendable(m)
    ensures Encodable(m) && ReadMessage(Serialize(m) + rest) == Ok((Received(m), rest))
  {
    BodyRoundTrip(m);
    WrapRead(MessageType(m), Body(m), rest);
  }

  function SerializeAll(ms: seq<Message>): (b: Bytes)
    requires forall m :: m in ms ==> Encodable(m)
  {
    if ms == [] then [] else Serialize(ms[0]) + SerializeAll(ms[1..])
  }

  function ReceivedAll(ms: seq<Message>): (r: seq<Message>) {
    if ms == [] then [] else [Received(ms[0])] + ReceivedAll(ms[1..])
  }

  /** Reading a whole stream of messages gives them back in order. */
  lemma {:induction false} StreamRoundTrip(ms: seq<Message>)
    requires forall m :: m in ms ==> Sendable(m)
    ensures (forall m :: m in ms ==> Encodable(m)) && ReadAll(SerializeAll(ms)) == Ok(ReceivedAll(ms))
  {
    forall m | m in ms ensures Encodable(m) { BodyRoundTrip(m); }
    if ms != [] {
      StreamRoundTrip(ms[1..]);
      MessageRoundTrip(ms[0], SerializeAll(ms[1..]));
    }
  }
}
