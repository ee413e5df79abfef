/** The rule-set format as framing: where each piece of a rule begins and ends.
    A read says what it found, if anything, and where it left the stream, which
    matters even when it fails. */
module SrsFraming {
  import opened Octets
  import opened Wrappers

  const MAX_COUNT := 10000000
  const MAX_MATCHER_BYTES := 67108864
  const MAX_DEPTH := 100
  const TWO_TO_63 := 9223372036854775808

  /** What was found, if anything, and the position reached. */
  datatype Read<+T> = Read(value: Option<T>, next: nat)

  function TakeByte(b: Bytes, p: nat): (r: Read<Byte>)
    ensures r.next >= p && (r.value.Some? ==> r.next == p + 1 <= |b|)
  {
    if p >= |b| then Read(None, p) else Read(Some(b[p]), p + 1)
  }

  /** Exactly n bytes; a count that is negative as a signed 64-bit number reads
      nothing and succeeds. */
  function TakeBytes(b: Bytes, p: nat, n: nat): (r: Read<Bytes>)
    ensures r.next >= p
  {
    if n >= TWO_TO_63 then Read(Some([]), p)
    else if p + n <= |b| then Read(Some(b[p..p + n]), p + n)
    else Read(None, if p < |b| then |b| else p)
  }

  /** Base-128 digits, least significant first, at most ten of them. */
  function Digits(b: Bytes, p: nat, i: nat): (r: Read<nat>)
    requires i <= 10
    ensures r.next >= p
    decreases 10 - i
  {
    if i == 10 || p >= |b| then Read(None, p)
    else if b[p] < 128 then Read(if i == 9 && b[p] > 1 then None else Some(b[p]), p + 1)
    else
      match Digits(b, p + 1, i + 1)
      case Read(None, q) => Read(None, q)
      case Read(Some(high), q) => Read(Some(b[p] - 128 + 128 * high), q)
  }

  function Uvarint(b: Bytes, p: nat): (r: Read<nat>)
    ensures r.next >= p
  {
    Digits(b, p, 0)
  }

  /** Two reads that end alike: both succeed or both fail, at the same place. */
  predicate Alike<T>(r: Read<T>, s: Read<T>) { r.value.Some? == s.value.Some? && r.next == s.next }

  // ----- items -----

  /** One end of an address range, as many bytes as its length says. */
  datatype RawRange = RawRange(from: Bytes, to: Bytes)

  function ReadBlob(b: Bytes, p: nat): (r: Read<Bytes>)
    ensures r.next >= p
  {
    match Uvarint(b, p)
    case Read(None, p1) => Read(None, p1)
    case Read(Some(n), p1) => TakeBytes(b, p1, n)
  }

  function ReadRange(b: Bytes, p: nat): (r: Read<RawRange>)
    ensures r.next >= p
  {
    match ReadBlob(b, p)
    case Read(None, p1) => Read(None, p1)
    case Read(Some(from), p1) =>
    match ReadBlob(b, p1)
    case Read(None, p2) => Read(None, p2)
    case Read(Some(to), p2) => Read(Some(RawRange(from, to)), p2)
  }

  function ReadRanges(b: Bytes, p: nat, count: nat): (r: Read<seq<RawRange>>)
    ensures r.next >= p
    decreases count
  {
    if count == 0 then Read(Some([]), p)
    else
      match ReadRange(b, p)
      case Read(None, p1) => Read(None, p1)
      case Read(Some(range), p1) =>
      match ReadRanges(b, p1, count - 1)
      case Read(None, p2) => Read(None, p2)
      case Read(Some(ranges), p2) => Read(Some([range] + ranges), p2)
  }

  function ReadIPSet(b: Bytes, p: nat): (r: Read<seq<RawRange>>)
    ensures r.next >= p
  {
    match TakeByte(b, p)
    case Read(None, p1) => Read(None, p1)
    case Read(Some(version), p1) =>
    if version != 1 then Read(None, p1)
    else
      match TakeBytes(b, p1, 8)
      case Read(None, p2) => Read(None, p2)
      case Read(Some(count), p2) =>
      if BigEndian(count) > MAX_COUNT then Read(None, p2) else ReadRanges(b, p2, BigEndian(count))
  }

  /** A count within a limit. */
  function ReadCount(b: Bytes, p: nat, limit: nat): (r: Read<nat>)
    ensures r.next >= p
  {
    match Uvarint(b, p)
    case Read(None, p1) => Read(None, p1)
    case Read(Some(count), p1) => Read(if count > limit then None else Some(count), p1)
  }

  function PassBlobs(b: Bytes, p: nat, count: nat): (r: Read<()>)
    ensures r.next >= p
    decreases count
  {
    if count == 0 then Read(Some(()), p)
    else
      match ReadBlob(b, p)
      case Read(None, p1) => Read(None, p1)
      case Read(Some(_), p1) => PassBlobs(b, p1, count - 1)
  }

  function ReadStrings(b: Bytes, p: nat): (r: Read<()>)
    ensures r.next >= p
  {
    match ReadCount(b, p, MAX_COUNT)
    case Read(None, p1) => Read(None, p1)
    case Read(Some(n), p1) => PassBlobs(b, p1, n)
  }

  function ReadBytes(b: Bytes, p: nat): (r: Read<Bytes>)
    ensures r.next >= p
  {
    match ReadCount(b, p, MAX_COUNT)
    case Read(None, p1) => Read(None, p1)
    case Read(Some(n), p1) => TakeBytes(b, p1, n)
  }

  function ReadPorts(b: Bytes, p: nat): (r: Read<Bytes>)
    ensures r.next >= p
  {
    match ReadCount(b, p, MAX_COUNT)
    case Read(None, p1) => Read(None, p1)
    case Read(Some(n), p1) => TakeBytes(b, p1, 2 * n)
  }

  function ReadWords(b: Bytes, p: nat): (r: Read<Bytes>)
    ensures r.next >= p
  {
    match ReadCount(b, p, MAX_COUNT)
    case Read(None, p1) => Read(None, p1)
    case Read(Some(n), p1) => TakeBytes(b, p1, 8 * n)
  }

  /** The succinct set of a domain matcher: version, two word arrays, bytes. */
  function ReadMatcher(b: Bytes, p: nat): (r: Read<Bytes>)
    ensures r.next >= p
  {
    match TakeByte(b, p)
    case Read(None, p1) => Read(None, p1)
    case Read(Some(version), p1) =>
    match ReadWords(b, p1)
    case Read(None, p2) => Read(None, p2)
    case Read(Some(_), p2) =>
    match ReadWords(b, p2)
    case Read(None, p3) => Read(None, p3)
    case Read(Some(_), p3) =>
    match ReadCount(b, p3, MAX_MATCHER_BYTES)
    case Read(None, p4) => Read(None, p4)
    case Read(Some(n), p4) => TakeBytes(b, p4, n)
  }

  function ReadPrefix(b: Bytes, p: nat): (r: Read<Bytes>)
    ensures r.next >= p
  {
    match Uvarint(b, p)
    case Read(None, p1) => Read(None, p1)
    case Read(Some(n), p1) => if n > 16 then Read(None, p1) else TakeBytes(b, p1, n + 1)
  }

  function PassPrefixes(b: Bytes, p: nat, count: nat): (r: Read<()>)
    ensures r.next >= p
    decreases count
  {
    if count == 0 then Read(Some(()), p)
    else
      match ReadPrefix(b, p)
      case Read(None, p1) => Read(None, p1)
      case Read(Some(_), p1) => PassPrefixes(b, p1, count - 1)
  }

  function ReadPrefixes(b: Bytes, p: nat): (r: Read<()>)
    ensures r.next >= p
  {
    match ReadCount(b, p, MAX_COUNT)
    case Read(None, p1) => Read(None, p1)
    case Read(Some(n), p1) => PassPrefixes(b, p1, n)
  }

  /** A map from interface kinds to prefix lists. */
  function PassInterfaces(b: Bytes, p: nat, count: nat): (r: Read<()>)
    ensures r.next >= p
    decreases count
  {
    if count == 0 then Read(Some(()), p)
    else
      match TakeBytes(b, p, 1)
      case Read(None, p1) => Read(None, p1)
      case Read(Some(_), p1) =>
      match ReadPrefixes(b, p1)
      case Read(None, p2) => Read(None, p2)
      case Read(Some(_), p2) => PassInterfaces(b, p2, count - 1)
  }

  function ReadInterfaces(b: Bytes, p: nat): (r: Read<()>)
    ensures r.next >= p
  {
    match ReadCount(b, p, MAX_COUNT)
    case Read(None, p1) => Read(None, p1)
    case Read(Some(n), p1) => PassInterfaces(b, p1, n)
  }

  const FINAL := 255
  const IP_CIDR := 6

  predicate IsMatcher(kind: Byte) { kind == 2 || kind == 16 }

  predicate IsStrings(kind: Byte) {
    kind in {1, 3, 4, 8, 10, 11, 12, 13, 14, 15, 17, 23}
  }

  function Done<T>(r: Read<T>): Read<()> { Read(if r.value.None? then None else Some(()), r.next) }

  /** Where an item's payload ends. */
  function SkipPayload(kind: Byte, b: Bytes, p: nat): (r: Read<()>)
    ensures r.next >= p
  {
    if kind == 5 || kind == IP_CIDR then Done(ReadIPSet(b, p))
    else if IsMatcher(kind) then Done(ReadMatcher(b, p))
    else if kind == 0 || kind == 7 || kind == 9 then Done(ReadPorts(b, p))
    else if IsStrings(kind) then ReadStrings(b, p)
    else if kind == 18 then Done(ReadBytes(b, p))
    else if kind == 19 || kind == 20 then Read(Some(()), p)
    else if kind == 21 then ReadInterfaces(b, p)
    else if kind == 22 then ReadPrefixes(b, p)
    else Read(None, p)
  }

  // ----- rules -----

  /** An item of a default rule: destination ranges, or anything else, named by
      its kind and where its payload begins. */
  datatype Item = Cidr(ranges: seq<RawRange>) | Other(kind: Byte, at: nat)

  function ReadItem(kind: Byte, b: Bytes, p: nat): (r: Read<Item>)
    ensures r.next >= p
  {
    if kind == IP_CIDR then
      match ReadIPSet(b, p)
      case Read(None, p1) => Read(None, p1)
      case Read(Some(ranges), p1) => Read(Some(Cidr(ranges)), p1)
    else
      match SkipPayload(kind, b, p)
      case Read(None, p1) => Read(None, p1)
      case Read(Some(_), p1) => Read(Some(Other(kind, p)), p1)
  }

  /** A rule. A default rule without a final byte is one that could not
      be read past a broken domain matcher; only the items before it are known. */
  datatype Rule = Default(items: seq<Item>, final: Option<Byte>) | Logical(mode: Byte, subs: seq<Rule>, invert: Byte)

  /** Whatever follows a broken matcher, up to the end of its rule. */
  function SkipRest(b: Bytes, p: nat): (r: Read<()>)
    decreases |b| - p
  {
    match TakeByte(b, p)
    case Read(None, p1) => Read(None, p1)
    case Read(Some(kind), p1) =>
    if kind == FINAL then
      match TakeByte(b, p1)
      case Read(None, p2) => Read(None, p2)
      case Read(Some(_), p2) => Read(Some(()), p2)
    else
      match SkipPayload(kind, b, p1)
      case Read(None, p2) => Read(None, p2)
      case Read(Some(_), p2) => SkipRest(b, p2)
  }

  function ReadDefault(b: Bytes, p: nat): (r: Read<Rule>)
    ensures r.value.Some? ==> r.value.value.Default?
    decreases |b| - p
  {
    match TakeByte(b, p)
    case Read(None, p1) => Read(None, p1)
    case Read(Some(kind), p1) =>
    if kind == FINAL then
      match TakeByte(b, p1)
      case Read(None, p2) => Read(None, p2)
      case Read(Some(invert), p2) => Read(Some(Default([], Some(invert))), p2)
    else
      var item := ReadItem(kind, b, p1);
      if item.value.None? then
        if !IsMatcher(kind) then Read(None, item.next)
        else
          match SkipRest(b, item.next)
          case Read(None, p2) => Read(None, p2)
          case Read(Some(_), p2) => Read(Some(Default([], None)), p2)
      else
        match ReadDefault(b, item.next)
        case Read(None, p2) => Read(None, p2)
        case Read(Some(rule), p2) => Read(Some(Default([item.value.value] + rule.items, rule.final)), p2)
  }

  function ReadLogical(b: Bytes, p: nat, depth: nat): (r: Read<Rule>)
    decreases if depth <= MAX_DEPTH then MAX_DEPTH + 1 - depth else 0, 0
  {
    if depth > MAX_DEPTH then Read(None, p)
    else
      match TakeByte(b, p)
      case Read(None, p1) => Read(None, p1)
      case Read(Some(mode), p1) =>
      if mode > 1 then Read(None, p1)
      else
        match Uvarint(b, p1)
        case Read(None, p2) => Read(None, p2)
        case Read(Some(count), p2) =>
        match ReadRules(b, p2, count, depth + 1)
        case Read(None, p3) => Read(None, p3)
        case Read(Some(subs), p3) =>
        match TakeByte(b, p3)
        case Read(None, p4) => Read(None, p4)
        case Read(Some(invert), p4) => Read(Some(Logical(mode, subs, invert)), p4)
  }

  /** A rule after its type byte. */
  function ReadRule(kind: Byte, b: Bytes, p: nat, depth: nat): (r: Read<Rule>)
    decreases if depth <= MAX_DEPTH then MAX_DEPTH + 1 - depth else 0, 1
  {
    if kind == 0 then ReadDefault(b, p) else if kind == 1 then ReadLogical(b, p, depth) else Read(None, p)
  }

  function ReadRules(b: Bytes, p: nat, count: nat, depth: nat): (r: Read<seq<Rule>>)
    decreases if depth <= MAX_DEPTH then MAX_DEPTH + 1 - depth else 0, 2, count
  {
    if count == 0 then Read(Some([]), p)
    else
      match TakeByte(b, p)
      case Read(None, p1) => Read(None, p1)
      case Read(Some(kind), p1) =>
      match ReadRule(kind, b, p1, depth)
      case Read(None, p2) => Read(None, p2)
      case Read(Some(rule), p2) =>
      match ReadRules(b, p2, count - 1, depth)
      case Read(None, p3) => Read(None, p3)
      case Read(Some(rules), p3) => Read(Some([rule] + rules), p3)
  }
}
