/** The wire format byte by byte: what is sent, spelled out with the numbers of the
    RFCs, and what is accepted, whoever sent it. */
module WireBytes {
  import opened Octets
  import opened Wire
  import opened Wrappers

  // ----- what is sent -----

  function High(n: U16): Byte { n as int / 256 }

  function Low(n: U16): Byte { n as int % 256 }

  /** The four bytes of a number, most significant first. */
  predicate IsQuad(b: Bytes, at: nat, n: U32) {
    at + 4 <= |b| &&
    b[at] as int * 16777216 + b[at + 1] as int * 65536 + b[at + 2] as int * 256 + b[at + 3] as int == n as int
  }

  lemma QuadOfPut(n: U32)
    ensures IsQuad(Put32(n), 0, n)
  {}

  lemma PairOfPut(n: U16)
    ensures Put16(n) == [High(n), Low(n)] && Put16(n as int % 65536) == [High(n), Low(n)]
  {}

  /** An AS_PATH: one AS_SEQUENCE segment with one number, in four bytes exactly when
      the number needs them or the session has four-octet numbers. */
  lemma ASPathBytes(asn: U32, fourOctet: bool)
    ensures var b := SerializeAttribute(ASPath(asn, fourOctet));
            if asn > 65535 || fourOctet
            then |b| == 9 && b[..5] == [0x40, 2, 6, 2, 1] && IsQuad(b, 5, asn)
            else b == [0x40, 2, 4, 2, 1, High(asn), Low(asn)]
  {
    QuadOfPut(asn);
  }

  lemma OriginBytes(v: Byte)
    ensures SerializeAttribute(Origin(v)) == [0x40, 1, 1, v]
  {}

  lemma NextHopBytes(ip: IP)
    requires |ip| == 4
    ensures SerializeAttribute(NextHop(ip)) == [0x40, 3, 4] + ip
  {}

  /** The header of an attribute: its flags, with the extended-length bit set exactly
      when the value does not fit a one-byte length, its type, and its length. */
  predicate Headed(b: Bytes, flags: Byte, typeCode: Byte, value: Bytes) {
    |value| <= 65535 &&
    if |value| > 255 then flags < 0xf0 && b == [flags as int + 16, typeCode, High(|value|), Low(|value|)] + value
    else b == [flags, typeCode, |value|] + value
  }

  lemma TlvHeaded(flags: Byte, typeCode: Byte, value: Bytes)
    requires |value| <= 65535 && (flags == 0x40 || flags == 0x80 || flags == 0xc0)
    ensures Headed(Tlv(flags, typeCode, value), flags, typeCode, value)
  {
    PairOfPut(|value|);
  }

  /** MP_REACH_NLRI: IPv6 unicast, the next hop with its length, a zero byte, prefixes. */
  lemma MpReachBytes(hop: IP, ps: seq<Prefix>)
    requires AllValid(ps) && |hop| + |Prefixes(ps)| <= 65530
    ensures Headed(SerializeAttribute(MpReach(hop, ps)), 0x80, 14, [0, 2, 1, |hop|] + hop + [0] + Prefixes(ps))
  {
    TlvHeaded(0x80, 14, AttributeValue(MpReach(hop, ps)));
  }

  lemma MpUnreachBytes(ps: seq<Prefix>)
    requires AllValid(ps) && |Prefixes(ps)| <= 65532
    ensures Headed(SerializeAttribute(MpUnreach(ps)), 0x80, 15, [0, 2, 1] + Prefixes(ps))
  {
    TlvHeaded(0x80, 15, AttributeValue(MpUnreach(ps)));
  }

  /** Large communities: twelve bytes each, three numbers of four. */
  lemma CommunityBytes(cs: seq<LargeCommunity>, k: nat)
    requires 12 * |cs| <= 65535
    ensures Headed(SerializeAttribute(LargeCommunities(cs)), 0xc0, 32, Communities(cs)) &&
            |Communities(cs)| == 12 * |cs|
    ensures k < |cs| ==> CommunityAt(Communities(cs), 12 * k, cs[k])
  {
    TlvHeaded(0xc0, 32, Communities(cs));
    if k < |cs| { EachCommunity(cs, k); }
  }

  predicate CommunityAt(b: Bytes, at: nat, c: LargeCommunity) {
    IsQuad(b, at, c.globalAdmin) && IsQuad(b, at + 4, c.localData1) && IsQuad(b, at + 8, c.localData2)
  }

  lemma {:induction false} EachCommunity(cs: seq<LargeCommunity>, k: nat)
    requires k < |cs|
    ensures CommunityAt(Communities(cs), 12 * k, cs[k])
  {
    var b, c := Communities(cs), cs[0];
    if k == 0 {
      assert b[0..4] == Put32(c.globalAdmin) && b[4..8] == Put32(c.localData1) && b[8..12] == Put32(c.localData2);
      QuadOfPut(c.globalAdmin);
      QuadOfPut(c.localData1);
      QuadOfPut(c.localData2);
    } else {
      EachCommunity(cs[1..], k - 1);
      assert b[12..] == Communities(cs[1..]);
      ShiftedCommunity(b, 12, 12 * (k - 1), cs[k]);
    }
  }

  lemma ShiftedCommunity(b: Bytes, d: nat, at: nat, c: LargeCommunity)
    requires d <= |b| && CommunityAt(b[d..], at, c)
    ensures CommunityAt(b, d + at, c)
  {}

  /** A prefix: its length in bits, then as few address bytes as hold that many. */
  lemma PrefixBytes(p: Prefix)
    requires ValidPrefix(p)
    ensures var b := EncodePrefix(p);
            b[0] as int == p.bits && b[1..] <= p.ip && p.bits <= 8 * |b[1..]| < p.bits + 8
  {}

  /** A message: sixteen 0xff bytes, its whole length, its type, its body. */
  lemma MessageBytes(m: Message)
    requires Encodable(m) && |Body(m)| <= 65516
    ensures var b := Serialize(m);
            |b| == 19 + |Body(m)| && (forall k :: 0 <= k < 16 ==> b[k] == 255) &&
            b[16..18] == [High(|b|), Low(|b|)] &&
            b[18] == (if m.OpenMessage? then 1 else if m.Update? then 2 else if m.Notification? then 3 else 4) &&
            b[19..] == Body(m)
  {
    PairOfPut(19 + |Body(m)|);
    WrapBytes(MessageType(m), Body(m));
  }

  lemma WrapBytes(msgType: Byte, body: Bytes)
    ensures var b := Wrap(msgType, body);
            (forall k :: 0 <= k < 16 ==> b[k] == 255) && b[16..18] == Put16((19 + |body|) % 65536) &&
            b[18] == msgType && b[19..] == body
  {
    var b := Wrap(msgType, body);
    forall k | 0 <= k < 16 ensures b[k] == 255 { assert b[k] == MARKER[k]; }
    assert b[16..18] == Put16((19 + |body|) % 65536);
    assert b[19..] == body;
  }

  /** The body of an OPEN: one parameter with four capabilities, IPv6 unicast, IPv4
      unicast, the four-octet AS number and route refresh. */
  lemma OpenBytes(o: Open)
    requires |o.bgpID| == 4
    ensures var b := OpenBody(o);
            |b| == 32 && b[0] == o.version && b[3..5] == [High(o.holdTime), Low(o.holdTime)] && b[5..9] == o.bgpID &&
            b[1..3] == (if o.myASN32 > 65535 then [91, 160] else [High(o.myASN32), Low(o.myASN32)]) &&
            b[9..26] == [22, 2, 20, 1, 4, 0, 2, 0, 1, 1, 4, 0, 1, 0, 1, 65, 4] && IsQuad(b, 26, o.myASN32) &&
            b[30..] == [2, 0]
  {
    var b := OpenBody(o);
    QuadOfPut(o.myASN32);
    assert b[26..30] == Put32(o.myASN32);
  }

  /** The body of an UPDATE: withdrawn routes and attributes, each after its length,
      then the announced prefixes. */
  lemma UpdateBytes(m: Message)
    requires m.Update? && Encodable(m)
    requires |Prefixes(m.withdrawn)| <= 65535 && |Attributes(m.attributes)| <= 65535
    ensures var w, a := Prefixes(m.withdrawn), Attributes(m.attributes);
            Body(m) == [High(|w|), Low(|w|)] + w + [High(|a|), Low(|a|)] + a + Prefixes(m.nlri)
  {
    PairOfPut(|Prefixes(m.withdrawn)|);
    PairOfPut(|Attributes(m.attributes)|);
  }

  // ----- what is accepted -----

  /** A message is accepted exactly when it is framed as one and its body decodes:
      whatever is read is the marker, the length and the type of what was taken. */
  lemma AcceptedFrame(stream: Bytes)
    requires ReadMessage(stream).Ok?
    ensures var rest := ReadMessage(stream).value.1;
            var n := |stream| - |rest|;
            19 <= n <= 65535 && stream[n..] == rest && stream[..n] == Wrap(stream[18], stream[19..n]) &&
            DecodeBody(stream[18], stream[19..n]) == Ok(ReadMessage(stream).value.0)
  {
    var n := Get16(stream[16..18]) as int;
    PairOfPut(n);
    assert stream[..n] == stream[..16] + stream[16..18] + [stream[18]] + stream[19..n];
  }

  /** An accepted UPDATE body is exactly its three parts with the two lengths. */
  lemma AcceptedUpdate(data: Bytes)
    requires SplitUpdate(data).Some?
    ensures var parts := SplitUpdate(data).value;
            |parts.0| <= 65535 && |parts.1| <= 65535 && data == UpdateBody(parts.0, parts.1, parts.2)
  {
    var wLen := Get16(data[..2]) as int;
    var aLen := Get16(data[2 + wLen..4 + wLen]) as int;
    PairOfPut(wLen);
    PairOfPut(aLen);
    assert data[..2] == Put16(wLen) && data[2 + wLen..4 + wLen] == Put16(aLen);
    assert data == data[..2] + data[2..2 + wLen] + data[2 + wLen..4 + wLen] + data[4 + wLen..4 + wLen + aLen] +
                   data[4 + wLen + aLen..];
  }

  /** An attribute in the short form, or in the long form whatever its length, is
      framed to its own bytes whatever its flags; nothing else is framed. */
  lemma FramedIff(data: Bytes, hdr: nat, len: nat)
    ensures Frame(data) == Some((hdr, len)) <==>
              hdr + len <= |data| && hdr == (if |data| > 0 && Extended(data[0]) then 4 else 3) &&
              if hdr == 4 then data[2..4] == [High(len % 65536), Low(len % 65536)] && len <= 65535
              else data[2] as int == len
  {
    if |data| >= 4 && len <= 65535 {
      PairOfPut(len);
      assert data[2..4] == [data[2], data[3]];
    }
  }

  /** The numbers of an AS_PATH segment, each in the given number of bytes. */
  function Numbers(asns: seq<U32>, four: bool): (b: Bytes)
    ensures |b| == if four then 4 * |asns| else 2 * |asns|
  {
    if asns == [] then [] else (if four then Put32(asns[0]) else Put16(asns[0])) + Numbers(asns[1..], four)
  }

  /** Of a first segment with four-octet numbers, set or sequence, the first number
      is read, whatever follows. */
  lemma FourOctetPath(kind: Byte, asns: seq<U32>, tail: Bytes)
    requires (kind == 1 || kind == 2) && 0 < |asns| < 256
    ensures DecodeASPath([kind, |asns|] + Numbers(asns, true) + tail) == Ok(ASPath(asns[0], false))
  {
    Get32Put32(asns[0]);
    FirstNumber(kind, |asns|, Put32(asns[0]), Numbers(asns[1..], true), tail);
  }

  /** With two-octet numbers the same holds as long as less follows than a second
      such segment could take; otherwise the first four bytes are read as one. */
  lemma TwoOctetPath(kind: Byte, asns: seq<U32>, tail: Bytes)
    requires (kind == 1 || kind == 2) && 0 < |asns| < 256 && asns[0] < 65536
    ensures var read := DecodeASPath([kind, |asns|] + Numbers(asns, false) + tail);
            read.Ok? && read.value.ASPath? &&
            if |tail| < 2 * |asns| then read.value.asn == asns[0] else read.value.asn as int / 65536 == asns[0] as int
  {
    Get16Put16(asns[0]);
    FirstNumber(kind, |asns|, Put16(asns[0]), Numbers(asns[1..], false), tail);
  }

  /** The bytes right after the kind and the count: four are read when there is room
      for four a number, else two. */
  lemma FirstNumber(kind: Byte, count: Byte, first: Bytes, more: Bytes, tail: Bytes)
    requires (kind == 1 || kind == 2) && count > 0
    requires |first| == 2 || |first| == 4
    requires |first + more| == if |first| == 4 then 4 * count as int else 2 * count as int
    ensures var read := DecodeASPath([kind, count] + (first + more) + tail);
            read.Ok? && read.value.ASPath? && !read.value.fourOctet &&
            if |first| == 4 then read.value.asn == Get32(first)
            else if |tail| < 2 * count as int then read.value.asn == Get16(first)
            else read.value.asn as int / 65536 == Get16(first) as int
  {
    var v := [kind, count] + (first + more) + tail;
    assert v[0] == kind && v[1] == count && v[2..2 + |first|] == first;
    if |first| == 2 && |tail| >= 2 * count as int { assert v[2..6][..2] == first; }
  }

  /** So from a two-octet path the first number is read if and only if less follows its
      first segment than that segment holds, or the four bytes read are zero. */
  lemma FirstNumberIff(kind: Byte, asns: seq<U32>, tail: Bytes)
    requires (kind == 1 || kind == 2) && 0 < |asns| < 256 && asns[0] < 65536
    ensures DecodeASPath([kind, |asns|] + Numbers(asns, false) + tail) == Ok(ASPath(asns[0], false)) <==>
              |tail| < 2 * |asns| || (Numbers(asns, false) + tail)[..4] == [0, 0, 0, 0]
  {
    Get16Put16(asns[0]);
    FirstPairIff(kind, |asns|, Put16(asns[0]), Numbers(asns[1..], false), tail);
  }

  lemma FirstPairIff(kind: Byte, count: Byte, first: Bytes, more: Bytes, tail: Bytes)
    requires (kind == 1 || kind == 2) && count > 0 && |first| == 2 && |first + more| == 2 * count as int
    ensures DecodeASPath([kind, count] + (first + more) + tail) == Ok(ASPath(Get16(first), false)) <==>
              |tail| < 2 * count as int || (first + more + tail)[..4] == [0, 0, 0, 0]
  {
    FirstNumber(kind, count, first, more, tail);
    if |tail| >= 2 * count as int {
      var v, four := [kind, count] + (first + more) + tail, (first + more + tail)[..4];
      assert v[0] == kind && v[1] == count && v[2..6] == four && four[..2] == first;
      FourZero(four);
    }
  }

  lemma FourZero(b: Bytes)
    requires |b| == 4
    ensures Get32(b) as int == Get16(b[..2]) as int * 65536 + Get16(b[2..]) as int
    ensures Get32(b) as int == Get16(b[..2]) as int <==> b == [0, 0, 0, 0]
  {}

  /** A two-octet path of one number, followed by a segment of one more. */
  lemma SecondSegmentMisread()
    ensures DecodeASPath([2, 1, 253, 233, 1, 1, 0, 7]) == Ok(ASPath(4259905793, false))
    ensures Numbers([65001], false) == [253, 233]
  {
    var v: Bytes := [2, 1, 253, 233, 1, 1, 0, 7];
    assert v[2..6] == [253, 233, 1, 1];
    assert Put16(65001) == [253, 233];
    assert Numbers([65001], false) == Put16(65001) + Numbers([], false);
  }

  /** A segment is refused exactly when its kind is unknown, it is empty, or too
      short for two bytes a number. */
  lemma RefusedPath(value: Bytes)
    ensures DecodeASPath(value).Err? <==>
              |value| < 2 || value[0] !in {1, 2} || value[1] == 0 || |value| < 2 + 2 * value[1] as int
  {}

  /** With a link-local next hop beside the global one, the global one is read. */
  lemma LinkLocalHop(hop: IP, local: Bytes, safi: Byte, reserved: Byte, ps: seq<Prefix>)
    requires |hop| == 16 && |local| == 16 && FamilyOf(ps, 2)
    ensures AllValid(ps)
    ensures DecodeMpReach([0, 2, safi, 32] + hop + local + [reserved] + Prefixes(ps)) == Ok(MpReach(hop, ps))
  {
    PrefixesRoundTrip(ps, 2);
    var v := [0, 2, safi, 32] + hop + local + [reserved] + Prefixes(ps);
    assert v[..2] == [0, 2] && v[4..20] == hop && v[37..] == Prefixes(ps);
  }

  // ----- capabilities, from any router -----

  datatype Cap = Cap(code: Byte, value: Bytes)

  predicate ShortCaps(caps: seq<Cap>) { forall c :: c in caps ==> |c.value| < 256 }

  function CapBytes(caps: seq<Cap>): (b: Bytes)
    requires ShortCaps(caps)
  {
    if caps == [] then [] else Capability(caps[0].code, caps[0].value) + CapBytes(caps[1..])
  }

  predicate IsIPv6Unicast(c: Cap) { c.code == 1 && |c.value| == 4 && c.value[..2] == [0, 2] && c.value[3] == 1 }

  predicate IsAS4(c: Cap) { c.code == 65 && |c.value| == 4 }

  predicate CutOff(rest: Bytes) { |rest| < 2 || 2 + rest[1] as int > |rest| }

  lemma CapsStep(o: Open, caps: seq<Cap>, rest: Bytes)
    requires ShortCaps(caps) && caps != []
    ensures ReadCapabilities(o, CapBytes(caps) + rest) ==
            ReadCapabilities(ReadCapability(o, caps[0].code, caps[0].value), CapBytes(caps[1..]) + rest)
  {
    assert caps[0] in caps;
    var more := CapBytes(caps[1..]) + rest;
    assert CapBytes(caps) + rest == Capability(caps[0].code, caps[0].value) + more;
    CapabilityRead(o, caps[0].code, caps[0].value, more);
  }

  lemma OneCap(o: Open, c: Cap)
    ensures ReadCapability(o, c.code, c.value) ==
            o.(hasIPv6Unicast := o.hasIPv6Unicast || IsIPv6Unicast(c), hasAS4Cap := o.hasAS4Cap || IsAS4(c),
               myASN32 := if IsAS4(c) then Get32(c.value) else o.myASN32)
  {}

  /** From any list of capabilities, and a cut-off rest that is ignored, IPv6 unicast
      and four-octet numbers are seen exactly when some capability announces them. */
  lemma {:induction false} CapabilitiesMean(o: Open, caps: seq<Cap>, rest: Bytes)
    requires ShortCaps(caps) && CutOff(rest)
    ensures var r := ReadCapabilities(o, CapBytes(caps) + rest);
            (r.hasIPv6Unicast <==> o.hasIPv6Unicast || exists c :: c in caps && IsIPv6Unicast(c)) &&
            (r.hasAS4Cap <==> o.hasAS4Cap || exists c :: c in caps && IsAS4(c))
    decreases caps
  {
    if caps == [] {
      assert CapBytes(caps) + rest == rest;
    } else {
      CapsStep(o, caps, rest);
      OneCap(o, caps[0]);
      CapabilitiesMean(ReadCapability(o, caps[0].code, caps[0].value), caps[1..], rest);
      assert forall d :: d in caps <==> d == caps[0] || d in caps[1..];
    }
  }

  /** The last four-octet number counts, if there is one; nothing else is changed. */
  lemma {:induction false} LastNumberCounts(o: Open, caps: seq<Cap>, rest: Bytes, k: nat)
    requires ShortCaps(caps) && CutOff(rest) && k <= |caps|
    requires (k > 0 ==> IsAS4(caps[k - 1])) && forall j :: k <= j < |caps| ==> !IsAS4(caps[j])
    ensures var r := ReadCapabilities(o, CapBytes(caps) + rest);
            r == o.(myASN32 := if k > 0 then Get32(caps[k - 1].value) else o.myASN32,
                    hasIPv6Unicast := r.hasIPv6Unicast, hasAS4Cap := r.hasAS4Cap)
    decreases caps
  {
    if caps == [] {
      assert CapBytes(caps) + rest == rest;
    } else {
      CapsStep(o, caps, rest);
      OneCap(o, caps[0]);
      LastNumberCounts(ReadCapability(o, caps[0].code, caps[0].value), caps[1..], rest, if k > 0 then k - 1 else 0);
    }
  }

  /** Only parameters of type 2 hold capabilities; the others are skipped. */
  lemma ParameterStep(o: Open, kind: Byte, value: Bytes, rest: Bytes)
    requires |value| < 256
    ensures ReadParameters(o, [kind, |value|] + value + rest) ==
            ReadParameters(if kind == 2 then ReadCapabilities(o, value) else o, rest)
  {
    var b := [kind, |value|] + value + rest;
    assert b[2..2 + |value|] == value && b[2 + |value|..] == rest;
  }

  /** An OPEN is refused exactly when it is too short or of another version; its
      parameters count only if they are all there. */
  lemma OpenAccepted(data: Bytes)
    ensures DecodeOpen(data).Ok? <==> |data| >= 10 && data[0] == 4
    ensures DecodeOpen(data).Ok? && |data| < 10 + data[9] as int ==> DecodeOpen(data) == Ok(OpenFixedPart(data))
  {}
}
