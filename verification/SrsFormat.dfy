/** The rule-set format written out. A writer defines, piece by piece, what a file
    looks like; whatever it writes is read back, and reading ends at its last byte. */
module SrsFormat {
  import opened Octets
  import opened SrsFraming
  import opened SrsParser
  import opened SrsRules
  import opened Wrappers

  /** The bytes stand at a position of the stream. */
  predicate At(b: Bytes, p: nat, s: Bytes) { p + |s| <= |b| && b[p..p + |s|] == s }

  lemma AtSplit(b: Bytes, p: nat, s: Bytes, t: Bytes)
    requires At(b, p, s + t)
    ensures At(b, p, s) && At(b, p + |s|, t)
  {
    assert (s + t)[..|s|] == s && (s + t)[|s|..] == t;
  }

  lemma FirstBack(b: Bytes, p: nat, x: Byte)
    requires At(b, p, [x])
    ensures TakeByte(b, p) == Read(Some(x), p + 1)
  {
    assert b[p] == [x][0];
  }

  /** A counted run of bytes is taken whole. */
  lemma TakenBack(b: Bytes, p: nat, s: Bytes)
    requires InMemory(b) && At(b, p, s)
    ensures TakeBytes(b, p, |s|) == Read(Some(s), p + |s|) && |s| < 9223372036854775808
  {}

  /** A stream short enough for its lengths to be signed 64-bit numbers. */
  predicate InMemory(b: Bytes) { |b| < 9223372036854775808 }

  // ----- numbers -----

  /** Base-128 digits, least significant first: all but the last are marked by their
      high bit. */
  predicate Marked(c: Bytes) { c != [] && if |c| == 1 then c[0] < 128 else c[0] >= 128 && Marked(c[1..]) }

  function Denoted(c: Bytes): nat { if c == [] then 0 else c[0] as int % 128 + 128 * Denoted(c[1..]) }

  predicate Spells(c: Bytes, n: nat) { |c| <= 10 && Marked(c) && Denoted(c) == n }

  /** A way to write unsigned 64-bit numbers, in at most ten digits. */
  ghost predicate Spelling(put: nat -> Bytes) {
    forall n: nat {:trigger Spells(put(n), n)} :: n < 18446744073709551616 ==> Spells(put(n), n)
  }

  /** How large a number can still be written from its i-th digit on. */
  function Room(i: nat): (n: nat)
    requires i <= 9
    ensures n > 1
    decreases 9 - i
  {
    if i == 9 then 2 else 128 * Room(i + 1)
  }

  lemma {:induction false} DigitsBack(b: Bytes, p: nat, i: nat, c: Bytes)
    requires i + |c| <= 10 && Marked(c) && Denoted(c) < Room(i) && At(b, p, c)
    ensures Digits(b, p, i) == Read(Some(Denoted(c)), p + |c|)
    decreases |c|
  {
    assert b[p] == c[0];
    if |c| > 1 {
      assert c == [c[0]] + c[1..];
      AtSplit(b, p, [c[0]], c[1..]);
      DigitsBack(b, p + 1, i + 1, c[1..]);
    }
  }

  /** However an unsigned 64-bit number is written, it is read back. */
  lemma UvarintBack(b: Bytes, p: nat, c: Bytes, n: nat)
    requires n < 18446744073709551616 && Spells(c, n) && At(b, p, c)
    ensures Uvarint(b, p) == Read(Some(n), p + |c|)
  {
    assert Room(7) == 32768 && Room(5) == 536870912 && Room(0) == 18446744073709551616;
    DigitsBack(b, p, 0, c);
  }

  /** The usual way: as few digits as it takes. */
  function PutUvarint(n: nat): (s: Bytes) { if n < 128 then [n] else [n % 128 + 128] + PutUvarint(n / 128) }

  lemma {:induction false} PutDigits(n: nat, i: nat)
    requires i <= 9 && n < Room(i)
    ensures var c := PutUvarint(n); i + |c| <= 10 && Marked(c) && Denoted(c) == n
    decreases 9 - i
  {
    if n >= 128 { PutDigits(n / 128, i + 1); }
  }

  lemma UsualSpelling()
    ensures Spelling(PutUvarint)
  {
    assert Room(7) == 32768 && Room(5) == 536870912 && Room(0) == 18446744073709551616;
    forall n: nat | n < 18446744073709551616 ensures Spells(PutUvarint(n), n) { PutDigits(n, 0); }
  }

  lemma {:induction false} DigitsBelow(b: Bytes, p: nat, i: nat)
    requires i <= 9 && Digits(b, p, i).value.Some?
    ensures Digits(b, p, i).value.value < Room(i)
    decreases 9 - i
  {
    if b[p] >= 128 && i < 9 {
      DigitsBelow(b, p + 1, i + 1);
    } else {
      assert Digits(b, p + 1, 10).value.None?;
    }
  }

  /** Nothing larger is ever read. */
  lemma UvarintBelow(b: Bytes, p: nat)
    requires Uvarint(b, p).value.Some?
    ensures Uvarint(b, p).value.value < 18446744073709551616
  {
    assert Room(7) == 32768 && Room(5) == 536870912 && Room(0) == 18446744073709551616;
    DigitsBelow(b, p, 0);
  }

  /** A number in a fixed count of bytes, most significant first. */
  function PutFixed(n: nat, k: nat): (s: Bytes)
    ensures |s| == k
  {
    if k == 0 then [] else PutFixed(n / 256, k - 1) + [n % 256]
  }

  function Capacity(k: nat): nat { if k == 0 then 1 else 256 * Capacity(k - 1) }

  lemma {:induction false} FixedBack(n: nat, k: nat)
    requires n < Capacity(k)
    ensures BigEndian(PutFixed(n, k)) == n
  {
    if k > 0 {
      FixedBack(n / 256, k - 1);
      assert PutFixed(n, k)[..k - 1] == PutFixed(n / 256, k - 1);
    }
  }

  // ----- items -----

  function PutBlob(put: nat -> Bytes, s: Bytes): Bytes { put(|s|) + s }

  lemma BlobBack(put: nat -> Bytes, b: Bytes, p: nat, s: Bytes, end: nat)
    requires Spelling(put) && InMemory(b) && At(b, p, PutBlob(put, s)) && end == p + |PutBlob(put, s)|
    ensures ReadBlob(b, p) == Read(Some(s), end)
  {
    AtSplit(b, p, put(|s|), s);
    TakenBack(b, p + |put(|s|)|, s);
    UvarintBack(b, p, put(|s|), |s|);
  }

  function PutBlobs(put: nat -> Bytes, ss: seq<Bytes>): Bytes {
    if ss == [] then [] else PutBlob(put, ss[0]) + PutBlobs(put, ss[1..])
  }

  lemma {:induction false} BlobsBack(put: nat -> Bytes, b: Bytes, p: nat, ss: seq<Bytes>, n: nat, end: nat)
    requires Spelling(put) && InMemory(b) && At(b, p, PutBlobs(put, ss)) && end == p + |PutBlobs(put, ss)| && n == |ss|
    ensures PassBlobs(b, p, n) == Read(Some(()), end)
    decreases |ss|, 1
  {
    if ss == [] {
      assert end == p;
    } else {
      AtSplit(b, p, PutBlob(put, ss[0]), PutBlobs(put, ss[1..]));
      BlobsNext(put, b, p, p + |PutBlob(put, ss[0])|, ss, n, end);
    }
  }

  lemma {:induction false} BlobsNext(put: nat -> Bytes, b: Bytes, p: nat, q: nat, ss: seq<Bytes>, n: nat, end: nat)
    requires Spelling(put) && InMemory(b) && ss != [] && At(b, p, PutBlob(put, ss[0])) && q == p + |PutBlob(put, ss[0])|
    requires At(b, q, PutBlobs(put, ss[1..])) && end == q + |PutBlobs(put, ss[1..])| && n == |ss|
    ensures PassBlobs(b, p, n) == Read(Some(()), end)
    decreases |ss|, 0
  {
    BlobsBack(put, b, q, ss[1..], n - 1, end);
    BlobsStep(put, b, p, q, ss[0], n, end);
  }

  lemma BlobsStep(put: nat -> Bytes, b: Bytes, p: nat, q: nat, s: Bytes, n: nat, end: nat)
    requires Spelling(put) && InMemory(b) && n > 0 && At(b, p, PutBlob(put, s)) && q == p + |PutBlob(put, s)|
    requires PassBlobs(b, q, n - 1) == Read(Some(()), end)
    ensures PassBlobs(b, p, n) == Read(Some(()), end)
  {
    BlobBack(put, b, p, s, q);
  }

  function PutRange(put: nat -> Bytes, r: RawRange): Bytes { PutBlob(put, r.from) + PutBlob(put, r.to) }

  function PutRanges(put: nat -> Bytes, rs: seq<RawRange>): Bytes {
    if rs == [] then [] else PutRange(put, rs[0]) + PutRanges(put, rs[1..])
  }

  lemma RangeParts(put: nat -> Bytes, b: Bytes, p: nat, q: nat, r: RawRange, end: nat)
    requires Spelling(put) && InMemory(b) && At(b, p, PutBlob(put, r.from)) && q == p + |PutBlob(put, r.from)|
    requires At(b, q, PutBlob(put, r.to)) && end == q + |PutBlob(put, r.to)|
    ensures ReadRange(b, p) == Read(Some(r), end)
  {
    BlobBack(put, b, p, r.from, q);
    BlobBack(put, b, q, r.to, end);
  }

  lemma RangeBack(put: nat -> Bytes, b: Bytes, p: nat, r: RawRange, end: nat)
    requires Spelling(put) && InMemory(b) && At(b, p, PutRange(put, r)) && end == p + |PutRange(put, r)|
    ensures ReadRange(b, p) == Read(Some(r), end)
  {
    AtSplit(b, p, PutBlob(put, r.from), PutBlob(put, r.to));
    RangeParts(put, b, p, p + |PutBlob(put, r.from)|, r, end);
  }

  lemma {:induction false} RangesBack(put: nat -> Bytes, b: Bytes, p: nat, rs: seq<RawRange>, end: nat)
    requires Spelling(put) && InMemory(b) && At(b, p, PutRanges(put, rs)) && end == p + |PutRanges(put, rs)|
    ensures ReadRanges(b, p, |rs|) == Read(Some(rs), end)
    decreases |rs|, 1
  {
    if rs != [] {
      AtSplit(b, p, PutRange(put, rs[0]), PutRanges(put, rs[1..]));
      RangesNext(put, b, p, p + |PutRange(put, rs[0])|, rs, end);
    }
  }

  lemma {:induction false} RangesNext(put: nat -> Bytes, b: Bytes, p: nat, q: nat, rs: seq<RawRange>, end: nat)
    requires Spelling(put) && InMemory(b) && rs != []
    requires At(b, p, PutRange(put, rs[0])) && q == p + |PutRange(put, rs[0])|
    requires At(b, q, PutRanges(put, rs[1..])) && end == q + |PutRanges(put, rs[1..])|
    ensures ReadRanges(b, p, |rs|) == Read(Some(rs), end)
    decreases |rs|, 0
  {
    RangesBack(put, b, q, rs[1..], end);
    assert rs == [rs[0]] + rs[1..];
    RangesStep(put, b, p, q, rs[0], rs[1..], |rs|, end, rs);
  }

  lemma RangesStep(put: nat -> Bytes, b: Bytes, p: nat, q: nat, r: RawRange, more: seq<RawRange>, n: nat, end: nat,
                   rs: seq<RawRange>)
    requires Spelling(put) && InMemory(b) && n > 0 && At(b, p, PutRange(put, r)) && q == p + |PutRange(put, r)|
    requires ReadRanges(b, q, n - 1) == Read(Some(more), end) && rs == [r] + more
    ensures ReadRanges(b, p, n) == Read(Some(rs), end)
  {
    RangeBack(put, b, p, r, q);
  }

  /** An address set: version 1, the number of ranges in eight bytes, the ranges. */
  function PutIPSet(put: nat -> Bytes, rs: seq<RawRange>): Bytes { [1] + (PutFixed(|rs|, 8) + PutRanges(put, rs)) }

  lemma EightBytes(n: nat)
    requires n <= 10000000
    ensures BigEndian(PutFixed(n, 8)) == n
  {
    assert Capacity(4) == 4294967296;
    assert Capacity(8) == 18446744073709551616;
    FixedBack(n, 8);
  }

  lemma IPSetBack(put: nat -> Bytes, b: Bytes, p: nat, rs: seq<RawRange>, end: nat)
    requires Spelling(put) && InMemory(b) && |rs| <= 10000000
    requires At(b, p, PutIPSet(put, rs)) && end == p + |PutIPSet(put, rs)|
    ensures ReadIPSet(b, p) == Read(Some(rs), end)
  {
    AtSplit(b, p, [1], PutFixed(|rs|, 8) + PutRanges(put, rs));
    AtSplit(b, p + 1, PutFixed(|rs|, 8), PutRanges(put, rs));
    FirstBack(b, p, 1);
    TakenBack(b, p + 1, PutFixed(|rs|, 8));
    EightBytes(|rs|);
    RangesBack(put, b, p + 9, rs, end);
  }

  /** A counted list of units of the same size, given as its bytes. */
  function PutUnits(put: nat -> Bytes, s: Bytes, size: nat): Bytes
    requires size > 0
  {
    put(|s| / size) + s
  }

  lemma CountBack(put: nat -> Bytes, b: Bytes, p: nat, n: nat, limit: nat, end: nat)
    requires Spelling(put) && InMemory(b) && n <= limit < 18446744073709551616
    requires At(b, p, put(n)) && end == p + |put(n)|
    ensures ReadCount(b, p, limit) == Read(Some(n), end)
  {
    UvarintBack(b, p, put(n), n);
  }

  /** More than the limit is refused. */
  lemma CountRefused(put: nat -> Bytes, b: Bytes, p: nat, n: nat, limit: nat)
    requires Spelling(put) && InMemory(b) && limit < n < 18446744073709551616 && At(b, p, put(n))
    ensures ReadCount(b, p, limit).value.None?
  {
    UvarintBack(b, p, put(n), n);
  }

  /** A counted list of units is counted, and its bytes taken. */
  lemma UnitsBack(put: nat -> Bytes, b: Bytes, p: nat, q: nat, s: Bytes, size: nat, limit: nat, end: nat)
    requires Spelling(put) && InMemory(b) && size > 0 && |s| / size <= limit < 18446744073709551616
    requires At(b, p, PutUnits(put, s, size)) && q == p + |put(|s| / size)| && end == q + |s|
    ensures ReadCount(b, p, limit) == Read(Some(|s| / size), q) && TakeBytes(b, q, |s|) == Read(Some(s), end)
  {
    AtSplit(b, p, put(|s| / size), s);
    CountBack(put, b, p, |s| / size, limit, q);
    TakenBack(b, q, s);
  }

  /** A domain matcher: version, two lists of eight-byte words, a list of bytes. */
  function PutMatcher(put: nat -> Bytes, version: Byte, words: Bytes, more: Bytes, labels: Bytes): Bytes {
    [version] + (PutUnits(put, words, 8) + (PutUnits(put, more, 8) + PutUnits(put, labels, 1)))
  }

  predicate WordsFit(s: Bytes) { |s| % 8 == 0 && |s| <= 80000000 }

  lemma WordsBack(put: nat -> Bytes, b: Bytes, p: nat, s: Bytes, end: nat)
    requires Spelling(put) && InMemory(b) && WordsFit(s)
    requires At(b, p, PutUnits(put, s, 8)) && end == p + |PutUnits(put, s, 8)|
    ensures ReadWords(b, p) == Read(Some(s), end)
  {
    UnitsBack(put, b, p, p + |put(|s| / 8)|, s, 8, MAX_COUNT, end);
  }

  /** The parts of a matcher, one after the other. */
  lemma MatcherParts(put: nat -> Bytes, b: Bytes, p: nat, q: nat, r: nat, words: Bytes, more: Bytes, labels: Bytes,
                     end: nat)
    requires Spelling(put) && InMemory(b) && TakeByte(b, p).value.Some?
    requires ReadWords(b, p + 1) == Read(Some(words), q) && ReadWords(b, q) == Read(Some(more), r)
    requires |labels| <= 67108864 && At(b, r, PutUnits(put, labels, 1)) && end == r + |PutUnits(put, labels, 1)|
    ensures ReadMatcher(b, p) == Read(Some(labels), end)
  {
    UnitsBack(put, b, r, r + |put(|labels|)|, labels, 1, MAX_MATCHER_BYTES, end);
  }

  lemma MatcherWords(put: nat -> Bytes, b: Bytes, p: nat, q: nat, r: nat, words: Bytes, more: Bytes, tail: Bytes)
    requires Spelling(put) && InMemory(b) && WordsFit(words) && WordsFit(more)
    requires At(b, p, PutUnits(put, words, 8) + (PutUnits(put, more, 8) + tail))
    requires q == p + |PutUnits(put, words, 8)| && r == q + |PutUnits(put, more, 8)|
    ensures ReadWords(b, p) == Read(Some(words), q) && ReadWords(b, q) == Read(Some(more), r) && At(b, r, tail)
  {
    AtSplit(b, p, PutUnits(put, words, 8), PutUnits(put, more, 8) + tail);
    AtSplit(b, q, PutUnits(put, more, 8), tail);
    WordsBack(put, b, p, words, q);
    WordsBack(put, b, q, more, r);
  }

  lemma MatcherBack(put: nat -> Bytes, b: Bytes, p: nat, version: Byte, words: Bytes, more: Bytes, labels: Bytes,
                    end: nat)
    requires Spelling(put) && InMemory(b) && WordsFit(words) && WordsFit(more) && |labels| <= 67108864
    requires At(b, p, PutMatcher(put, version, words, more, labels))
    requires end == p + |PutMatcher(put, version, words, more, labels)|
    ensures ReadMatcher(b, p) == Read(Some(labels), end)
  {
    var w, m, l := PutUnits(put, words, 8), PutUnits(put, more, 8), PutUnits(put, labels, 1);
    AtSplit(b, p, [version], w + (m + l));
    FirstBack(b, p, version);
    MatcherWords(put, b, p + 1, p + 1 + |w|, p + 1 + |w| + |m|, words, more, l);
    MatcherParts(put, b, p, p + 1 + |w|, p + 1 + |w| + |m|, words, more, labels, end);
  }

  /** An address prefix: the number of address bytes, those bytes, and one more for
      the prefix length. */
  function PutPrefix(put: nat -> Bytes, q: Bytes): Bytes { put(if q == [] then 0 else |q| - 1) + q }

  predicate PrefixFits(q: Bytes) { 1 <= |q| <= 17 }

  predicate PrefixesFit(qs: seq<Bytes>) { |qs| <= 10000000 && forall q :: q in qs ==> PrefixFits(q) }

  function PutPrefixes(put: nat -> Bytes, qs: seq<Bytes>): Bytes {
    if qs == [] then [] else PutPrefix(put, qs[0]) + PutPrefixes(put, qs[1..])
  }

  lemma PrefixBack(put: nat -> Bytes, b: Bytes, p: nat, q: nat, s: Bytes, end: nat)
    requires Spelling(put) && InMemory(b) && PrefixFits(s)
    requires At(b, p, PutPrefix(put, s)) && q == p + |put(|s| - 1)| && end == p + |PutPrefix(put, s)|
    ensures ReadPrefix(b, p) == Read(Some(s), end)
  {
    AtSplit(b, p, put(|s| - 1), s);
    TakenBack(b, q, s);
    UvarintBack(b, p, put(|s| - 1), |s| - 1);
  }

  lemma {:induction false} PrefixesBack(put: nat -> Bytes, b: Bytes, p: nat, qs: seq<Bytes>, n: nat, end: nat)
    requires Spelling(put) && InMemory(b) && n == |qs| && forall q :: q in qs ==> PrefixFits(q)
    requires At(b, p, PutPrefixes(put, qs)) && end == p + |PutPrefixes(put, qs)|
    ensures PassPrefixes(b, p, n) == Read(Some(()), end)
    decreases |qs|, 1
  {
    if qs == [] {
      assert end == p;
    } else {
      AtSplit(b, p, PutPrefix(put, qs[0]), PutPrefixes(put, qs[1..]));
      PrefixesNext(put, b, p, p + |PutPrefix(put, qs[0])|, qs, n, end);
    }
  }

  lemma {:induction false} PrefixesNext(put: nat -> Bytes, b: Bytes, p: nat, q: nat, qs: seq<Bytes>, n: nat, end: nat)
    requires Spelling(put) && InMemory(b) && qs != [] && n == |qs| && forall q :: q in qs ==> PrefixFits(q)
    requires At(b, p, PutPrefix(put, qs[0])) && q == p + |PutPrefix(put, qs[0])|
    requires At(b, q, PutPrefixes(put, qs[1..])) && end == q + |PutPrefixes(put, qs[1..])|
    ensures PassPrefixes(b, p, n) == Read(Some(()), end)
    decreases |qs|, 0
  {
    assert qs[0] in qs;
    PrefixesBack(put, b, q, qs[1..], n - 1, end);
    PrefixesStep(put, b, p, q, qs[0], n, end);
  }

  lemma PrefixesStep(put: nat -> Bytes, b: Bytes, p: nat, q: nat, s: Bytes, n: nat, end: nat)
    requires Spelling(put) && InMemory(b) && n > 0 && PrefixFits(s)
    requires At(b, p, PutPrefix(put, s)) && q == p + |PutPrefix(put, s)|
    requires PassPrefixes(b, q, n - 1) == Read(Some(()), end)
    ensures PassPrefixes(b, p, n) == Read(Some(()), end)
  {
    PrefixBack(put, b, p, p + |put(|s| - 1)|, s, q);
  }

  function PutPrefixList(put: nat -> Bytes, qs: seq<Bytes>): Bytes { put(|qs|) + PutPrefixes(put, qs) }

  lemma PrefixListParts(put: nat -> Bytes, b: Bytes, p: nat, q: nat, qs: seq<Bytes>, end: nat)
    requires Spelling(put) && InMemory(b) && PrefixesFit(qs) && At(b, p, put(|qs|)) && q == p + |put(|qs|)|
    requires At(b, q, PutPrefixes(put, qs)) && end == q + |PutPrefixes(put, qs)|
    ensures ReadPrefixes(b, p) == Read(Some(()), end)
  {
    CountBack(put, b, p, |qs|, MAX_COUNT, q);
    PrefixesBack(put, b, q, qs, |qs|, end);
  }

  lemma PrefixListBack(put: nat -> Bytes, b: Bytes, p: nat, qs: seq<Bytes>, end: nat)
    requires Spelling(put) && InMemory(b) && PrefixesFit(qs)
    requires At(b, p, PutPrefixList(put, qs)) && end == p + |PutPrefixList(put, qs)|
    ensures ReadPrefixes(b, p) == Read(Some(()), end)
  {
    AtSplit(b, p, put(|qs|), PutPrefixes(put, qs));
    PrefixListParts(put, b, p, p + |put(|qs|)|, qs, end);
  }

  /** The addresses of the network interfaces of one kind. */
  datatype Interface = Interface(kind: Byte, prefixes: seq<Bytes>)

  predicate InterfacesFit(ns: seq<Interface>) { forall n :: n in ns ==> PrefixesFit(n.prefixes) }

  function PutInterface(put: nat -> Bytes, n: Interface): Bytes { [n.kind] + PutPrefixList(put, n.prefixes) }

  function PutInterfaces(put: nat -> Bytes, ns: seq<Interface>): Bytes {
    if ns == [] then [] else PutInterface(put, ns[0]) + PutInterfaces(put, ns[1..])
  }

  lemma InterfaceBack(put: nat -> Bytes, b: Bytes, p: nat, n: Interface, end: nat)
    requires Spelling(put) && InMemory(b) && PrefixesFit(n.prefixes)
    requires At(b, p, PutInterface(put, n)) && end == p + |PutInterface(put, n)|
    ensures TakeBytes(b, p, 1) == Read(Some([n.kind]), p + 1) && ReadPrefixes(b, p + 1) == Read(Some(()), end)
  {
    AtSplit(b, p, [n.kind], PutPrefixList(put, n.prefixes));
    TakenBack(b, p, [n.kind]);
    PrefixListBack(put, b, p + 1, n.prefixes, end);
  }

  lemma {:induction false} InterfacesBack(put: nat -> Bytes, b: Bytes, p: nat, ns: seq<Interface>, n: nat, end: nat)
    requires Spelling(put) && InMemory(b) && InterfacesFit(ns) && n == |ns|
    requires At(b, p, PutInterfaces(put, ns)) && end == p + |PutInterfaces(put, ns)|
    ensures PassInterfaces(b, p, n) == Read(Some(()), end)
    decreases |ns|, 1
  {
    if ns == [] {
      assert end == p;
    } else {
      AtSplit(b, p, PutInterface(put, ns[0]), PutInterfaces(put, ns[1..]));
      InterfacesNext(put, b, p, p + |PutInterface(put, ns[0])|, ns, n, end);
    }
  }

  lemma {:induction false} InterfacesNext(put: nat -> Bytes, b: Bytes, p: nat, q: nat, ns: seq<Interface>, n: nat,
                                          end: nat)
    requires Spelling(put) && InMemory(b) && InterfacesFit(ns) && ns != [] && n == |ns|
    requires At(b, p, PutInterface(put, ns[0])) && q == p + |PutInterface(put, ns[0])|
    requires At(b, q, PutInterfaces(put, ns[1..])) && end == q + |PutInterfaces(put, ns[1..])|
    ensures PassInterfaces(b, p, n) == Read(Some(()), end)
    decreases |ns|, 0
  {
    assert ns[0] in ns;
    InterfacesBack(put, b, q, ns[1..], n - 1, end);
    InterfacesStep(put, b, p, q, ns[0], n, end);
  }

  lemma InterfacesStep(put: nat -> Bytes, b: Bytes, p: nat, q: nat, first: Interface, n: nat, end: nat)
    requires Spelling(put) && InMemory(b) && n > 0 && PrefixesFit(first.prefixes)
    requires At(b, p, PutInterface(put, first)) && q == p + |PutInterface(put, first)|
    requires PassInterfaces(b, q, n - 1) == Read(Some(()), end)
    ensures PassInterfaces(b, p, n) == Read(Some(()), end)
  {
    InterfaceBack(put, b, p, first, q);
  }

  // ----- payloads -----

  /** What an item of a default rule carries. */
  datatype Payload =
    | Ranges(ranges: seq<RawRange>)
    | Matcher(version: Byte, words: Bytes, more: Bytes, labels: Bytes)
    | Ports(ports: Bytes)
    | Strings(strings: seq<Bytes>)
    | Numbers(bytes: Bytes)
    | Nothing
    | Interfaces(interfaces: seq<Interface>)
    | Addresses(prefixes: seq<Bytes>)

  /** Which payload each kind of item has, and how much of it there may be. */
  predicate Carries(kind: Byte, c: Payload) {
    match c
    case Ranges(rs) => kind in {5, 6} && |rs| <= 10000000
    case Matcher(_, words, more, labels) =>
      kind in {2, 16} && WordsFit(words) && WordsFit(more) && |labels| <= 67108864
    case Ports(ports) => kind in {0, 7, 9} && |ports| % 2 == 0 && |ports| <= 20000000
    case Strings(ss) => kind in {1, 3, 4, 8, 10, 11, 12, 13, 14, 15, 17, 23} && |ss| <= 10000000
    case Numbers(s) => kind == 18 && |s| <= 10000000
    case Nothing => kind in {19, 20}
    case Interfaces(ns) => kind == 21 && |ns| <= 10000000 && InterfacesFit(ns)
    case Addresses(qs) => kind == 22 && PrefixesFit(qs)
  }

  function PutPayload(put: nat -> Bytes, c: Payload): Bytes {
    match c
    case Ranges(rs) => PutIPSet(put, rs)
    case Matcher(version, words, more, labels) => PutMatcher(put, version, words, more, labels)
    case Ports(ports) => PutUnits(put, ports, 2)
    case Strings(ss) => put(|ss|) + PutBlobs(put, ss)
    case Numbers(s) => PutUnits(put, s, 1)
    case Nothing => []
    case Interfaces(ns) => put(|ns|) + PutInterfaces(put, ns)
    case Addresses(qs) => PutPrefixList(put, qs)
  }

  lemma StringsParts(put: nat -> Bytes, b: Bytes, p: nat, q: nat, ss: seq<Bytes>, end: nat)
    requires Spelling(put) && InMemory(b) && |ss| <= 10000000 && At(b, p, put(|ss|)) && q == p + |put(|ss|)|
    requires At(b, q, PutBlobs(put, ss)) && end == q + |PutBlobs(put, ss)|
    ensures ReadStrings(b, p) == Read(Some(()), end)
  {
    CountBack(put, b, p, |ss|, MAX_COUNT, q);
    BlobsBack(put, b, q, ss, |ss|, end);
  }

  lemma InterfacesParts(put: nat -> Bytes, b: Bytes, p: nat, q: nat, ns: seq<Interface>, end: nat)
    requires Spelling(put) && InMemory(b) && |ns| <= 10000000 && InterfacesFit(ns)
    requires At(b, p, put(|ns|)) && q == p + |put(|ns|)|
    requires At(b, q, PutInterfaces(put, ns)) && end == q + |PutInterfaces(put, ns)|
    ensures ReadInterfaces(b, p) == Read(Some(()), end)
  {
    CountBack(put, b, p, |ns|, MAX_COUNT, q);
    InterfacesBack(put, b, q, ns, |ns|, end);
  }

  lemma PortsBack(put: nat -> Bytes, b: Bytes, p: nat, ports: Bytes, end: nat)
    requires Spelling(put) && InMemory(b) && |ports| % 2 == 0 && |ports| <= 20000000
    requires At(b, p, PutUnits(put, ports, 2)) && end == p + |PutUnits(put, ports, 2)|
    ensures ReadPorts(b, p) == Read(Some(ports), end)
  {
    UnitsBack(put, b, p, p + |put(|ports| / 2)|, ports, 2, MAX_COUNT, end);
  }

  lemma NumbersBack(put: nat -> Bytes, b: Bytes, p: nat, s: Bytes, end: nat)
    requires Spelling(put) && InMemory(b) && |s| <= 10000000
    requires At(b, p, PutUnits(put, s, 1)) && end == p + |PutUnits(put, s, 1)|
    ensures ReadBytes(b, p) == Read(Some(s), end)
  {
    UnitsBack(put, b, p, p + |put(|s|)|, s, 1, MAX_COUNT, end);
  }

  /** For every kind of item, skipping its payload ends at its last byte. */
  lemma PayloadBack(put: nat -> Bytes, kind: Byte, b: Bytes, p: nat, c: Payload, end: nat)
    requires Spelling(put) && InMemory(b) && Carries(kind, c)
    requires At(b, p, PutPayload(put, c)) && end == p + |PutPayload(put, c)|
    ensures SkipPayload(kind, b, p) == Read(Some(()), end)
  {
    match c
    case Ranges(rs) => IPSetBack(put, b, p, rs, end);
    case Matcher(version, words, more, labels) => MatcherBack(put, b, p, version, words, more, labels, end);
    case Ports(ports) => PortsBack(put, b, p, ports, end);
    case Strings(ss) =>
      AtSplit(b, p, put(|ss|), PutBlobs(put, ss));
      StringsParts(put, b, p, p + |put(|ss|)|, ss, end);
    case Numbers(s) => NumbersBack(put, b, p, s, end);
    case Nothing =>
    case Interfaces(ns) =>
      AtSplit(b, p, put(|ns|), PutInterfaces(put, ns));
      InterfacesParts(put, b, p, p + |put(|ns|)|, ns, end);
    case Addresses(qs) => PrefixListBack(put, b, p, qs, end);
  }

  // ----- rules -----

  /** An item: its kind, what it carries, and the bytes that spell that out. */
  datatype WrittenItem = WrittenItem(kind: Byte, payload: Payload, bytes: Bytes)

  predicate Spelt(put: nat -> Bytes, i: WrittenItem) {
    Carries(i.kind, i.payload) && i.bytes == PutPayload(put, i.payload)
  }

  /** A rule as written: a default rule with its items, or a logical one with its
      sub-rules, and whether it is inverted. */
  datatype Written =
    | Plain(items: seq<WrittenItem>, invert: Byte)
    | Combined(mode: Byte, subs: seq<Written>, invert: Byte)

  predicate ItemsFit(put: nat -> Bytes, items: seq<WrittenItem>) { forall i :: i in items ==> Spelt(put, i) }

  /** Logical rules are conjunctions (0) or disjunctions (1), nested at most so deep. */
  predicate Fits(put: nat -> Bytes, w: Written, depth: nat) {
    match w
    case Plain(items, _) => ItemsFit(put, items)
    case Combined(mode, subs, _) =>
      mode <= 1 && depth <= 100 && |subs| < 18446744073709551616 && AllFit(put, subs, depth + 1)
  }

  predicate AllFit(put: nat -> Bytes, ws: seq<Written>, depth: nat) {
    forall i :: 0 <= i < |ws| ==> Fits(put, ws[i], depth)
  }

  function PutItem(i: WrittenItem): Bytes { [i.kind] + i.bytes }

  function PutItems(items: seq<WrittenItem>): Bytes {
    if items == [] then [] else PutItem(items[0]) + PutItems(items[1..])
  }

  /** A rule after its type byte. */
  function PutRule(put: nat -> Bytes, w: Written): Bytes
    decreases w, 1
  {
    match w
    case Plain(items, invert) => PutItems(items) + [255, invert]
    case Combined(mode, subs, invert) => [mode] + (put(|subs|) + (PutRules(put, subs) + [invert]))
  }

  function TypeByte(w: Written): Byte { if w.Plain? then 0 else 1 }

  function PutRules(put: nat -> Bytes, ws: seq<Written>): Bytes
    decreases ws, 0
  {
    if ws == [] then [] else [TypeByte(ws[0])] + (PutRule(put, ws[0]) + PutRules(put, ws[1..]))
  }

  /** An item as read: destination ranges with their bytes, others by their place. */
  function ItemAt(i: WrittenItem, p: nat): Item {
    if i.kind == 6 && i.payload.Ranges? then Cidr(i.payload.ranges) else Other(i.kind, p)
  }

  function ItemsAt(items: seq<WrittenItem>, p: nat): seq<Item> {
    if items == [] then [] else [ItemAt(items[0], p + 1)] + ItemsAt(items[1..], p + |PutItem(items[0])|)
  }

  /** The rule as read from a position right after its type byte. */
  function RuleAt(put: nat -> Bytes, w: Written, p: nat): Rule
    decreases w, 1
  {
    match w
    case Plain(items, invert) => Default(ItemsAt(items, p), Some(invert))
    case Combined(mode, subs, invert) => Logical(mode, RulesAt(put, subs, p + 1 + |put(|subs|)|), invert)
  }

  function RulesAt(put: nat -> Bytes, ws: seq<Written>, p: nat): seq<Rule>
    decreases ws, 0
  {
    if ws == [] then []
    else [RuleAt(put, ws[0], p + 1)] + RulesAt(put, ws[1..], p + 1 + |PutRule(put, ws[0])|)
  }

  lemma ItemBack(put: nat -> Bytes, b: Bytes, p: nat, i: WrittenItem, end: nat)
    requires Spelling(put) && InMemory(b) && Spelt(put, i)
    requires At(b, p, PutItem(i)) && end == p + |PutItem(i)|
    ensures i.kind != 255 && TakeByte(b, p) == Read(Some(i.kind), p + 1)
    ensures ReadItem(i.kind, b, p + 1) == Read(Some(ItemAt(i, p + 1)), end)
  {
    AtSplit(b, p, [i.kind], i.bytes);
    FirstBack(b, p, i.kind);
    PayloadBack(put, i.kind, b, p + 1, i.payload, end);
    if i.kind == 6 { IPSetBack(put, b, p + 1, i.payload.ranges, end); }
  }

  lemma FinalBack(b: Bytes, p: nat, invert: Byte)
    requires At(b, p, [255, invert])
    ensures ReadDefault(b, p) == Read(Some(Default([], Some(invert))), p + 2)
  {
    AtSplit(b, p, [255], [invert]);
    FirstBack(b, p, 255);
    FirstBack(b, p + 1, invert);
  }

  lemma {:induction false} DefaultBack(put: nat -> Bytes, b: Bytes, p: nat, items: seq<WrittenItem>, invert: Byte,
                                       last: nat, end: nat, rule: Rule)
    requires Spelling(put) && InMemory(b) && ItemsFit(put, items) && rule == Default(ItemsAt(items, p), Some(invert))
    requires At(b, p, PutItems(items)) && last == p + |PutItems(items)|
    requires At(b, last, [255, invert]) && end == last + 2
    ensures ReadDefault(b, p) == Read(Some(rule), end)
    decreases |items|, 1
  {
    if items == [] {
      assert last == p;
      FinalBack(b, p, invert);
    } else {
      AtSplit(b, p, PutItem(items[0]), PutItems(items[1..]));
      DefaultNext(put, b, p, p + |PutItem(items[0])|, items, invert, last, end, rule);
    }
  }

  lemma {:induction false} DefaultNext(put: nat -> Bytes, b: Bytes, p: nat, q: nat, items: seq<WrittenItem>,
                                       invert: Byte, last: nat, end: nat, rule: Rule)
    requires Spelling(put) && InMemory(b) && ItemsFit(put, items) && items != []
    requires At(b, p, PutItem(items[0])) && q == p + |PutItem(items[0])|
    requires At(b, q, PutItems(items[1..])) && last == q + |PutItems(items[1..])|
    requires At(b, last, [255, invert]) && end == last + 2
    requires rule == Default([ItemAt(items[0], p + 1)] + ItemsAt(items[1..], q), Some(invert))
    ensures ReadDefault(b, p) == Read(Some(rule), end)
    decreases |items|, 0
  {
    assert items[0] in items;
    var rest := Default(ItemsAt(items[1..], q), Some(invert));
    DefaultBack(put, b, q, items[1..], invert, last, end, rest);
    DefaultStep(put, b, p, q, items[0], rest, end, rule);
  }

  lemma DefaultStep(put: nat -> Bytes, b: Bytes, p: nat, q: nat, i: WrittenItem, rest: Rule, end: nat, rule: Rule)
    requires Spelling(put) && InMemory(b) && Spelt(put, i) && At(b, p, PutItem(i)) && q == p + |PutItem(i)|
    requires rest.Default? && ReadDefault(b, q) == Read(Some(rest), end)
    requires rule == Default([ItemAt(i, p + 1)] + rest.items, rest.final)
    ensures ReadDefault(b, p) == Read(Some(rule), end)
  {
    ItemBack(put, b, p, i, q);
  }

  /** A rule of any shape is read back and ends at its last byte. */
  lemma {:induction false} RuleBack(put: nat -> Bytes, b: Bytes, p: nat, w: Written, depth: nat, end: nat, rule: Rule)
    requires Spelling(put) && InMemory(b) && Fits(put, w, depth) && rule == RuleAt(put, w, p)
    requires At(b, p, PutRule(put, w)) && end == p + |PutRule(put, w)|
    ensures ReadRule(TypeByte(w), b, p, depth) == Read(Some(rule), end)
    decreases w, 1
  {
    match w
    case Plain(items, invert) => PlainBack(put, b, p, items, invert, end, rule);
    case Combined(mode, subs, invert) => LogicalBack(put, b, p, mode, subs, invert, depth, end, rule);
  }

  lemma PlainBack(put: nat -> Bytes, b: Bytes, p: nat, items: seq<WrittenItem>, invert: Byte, end: nat, rule: Rule)
    requires Spelling(put) && InMemory(b) && ItemsFit(put, items) && At(b, p, PutItems(items) + [255, invert])
    requires end == p + |PutItems(items)| + 2 && rule == Default(ItemsAt(items, p), Some(invert))
    ensures ReadDefault(b, p) == Read(Some(rule), end)
  {
    AtSplit(b, p, PutItems(items), [255, invert]);
    DefaultBack(put, b, p, items, invert, p + |PutItems(items)|, end, rule);
  }

  lemma {:induction false} LogicalBack(put: nat -> Bytes, b: Bytes, p: nat, mode: Byte, subs: seq<Written>,
                                       invert: Byte, depth: nat, end: nat, rule: Rule)
    requires Spelling(put) && InMemory(b) && Fits(put, Combined(mode, subs, invert), depth)
    requires At(b, p, [mode] + (put(|subs|) + (PutRules(put, subs) + [invert])))
    requires end == p + |put(|subs|)| + |PutRules(put, subs)| + 2
    requires rule == Logical(mode, RulesAt(put, subs, p + 1 + |put(|subs|)|), invert)
    ensures ReadLogical(b, p, depth) == Read(Some(rule), end)
    decreases subs, 3
  {
    var count, rules := put(|subs|), PutRules(put, subs);
    AtSplit(b, p, [mode], count + (rules + [invert]));
    AtSplit(b, p + 1, count, rules + [invert]);
    AtSplit(b, p + 1 + |count|, rules, [invert]);
    LogicalParts(put, b, p, p + 1 + |count|, end - 1, mode, subs, invert, depth, rule);
  }

  lemma {:induction false} LogicalParts(put: nat -> Bytes, b: Bytes, p: nat, q: nat, last: nat, mode: Byte,
                                        subs: seq<Written>, invert: Byte, depth: nat, rule: Rule)
    requires Spelling(put) && InMemory(b) && Fits(put, Combined(mode, subs, invert), depth)
    requires At(b, p, [mode]) && At(b, p + 1, put(|subs|)) && q == p + 1 + |put(|subs|)|
    requires At(b, q, PutRules(put, subs)) && last == q + |PutRules(put, subs)| && At(b, last, [invert])
    requires rule == Logical(mode, RulesAt(put, subs, q), invert)
    ensures ReadLogical(b, p, depth) == Read(Some(rule), last + 1)
    decreases subs, 2
  {
    FirstBack(b, p, mode);
    UvarintBack(b, p + 1, put(|subs|), |subs|);
    RulesBack(put, b, q, subs, depth + 1, last, rule.subs);
    FirstBack(b, last, invert);
    LogicalStep(b, p, q, last, |subs|, rule, depth);
  }

  lemma LogicalStep(b: Bytes, p: nat, q: nat, last: nat, n: nat, rule: Rule, depth: nat)
    requires rule.Logical? && rule.mode <= 1 && depth <= 100
    requires TakeByte(b, p) == Read(Some(rule.mode), p + 1) && Uvarint(b, p + 1) == Read(Some(n), q)
    requires ReadRules(b, q, n, depth + 1) == Read(Some(rule.subs), last)
    requires TakeByte(b, last) == Read(Some(rule.invert), last + 1)
    ensures ReadLogical(b, p, depth) == Read(Some(rule), last + 1)
  {}

  lemma {:induction false} RulesBack(put: nat -> Bytes, b: Bytes, p: nat, ws: seq<Written>, depth: nat, end: nat,
                                     rules: seq<Rule>)
    requires Spelling(put) && InMemory(b) && AllFit(put, ws, depth) && rules == RulesAt(put, ws, p)
    requires At(b, p, PutRules(put, ws)) && end == p + |PutRules(put, ws)|
    ensures ReadRules(b, p, |ws|, depth) == Read(Some(rules), end)
    decreases ws, 1
  {
    if ws == [] {
      assert end == p;
    } else {
      var first, rest := PutRule(put, ws[0]), PutRules(put, ws[1..]);
      AtSplit(b, p, [TypeByte(ws[0])], first + rest);
      AtSplit(b, p + 1, first, rest);
      RulesNext(put, b, p, p + 1 + |first|, ws, depth, end, rules);
    }
  }

  lemma {:induction false} RulesNext(put: nat -> Bytes, b: Bytes, p: nat, q: nat, ws: seq<Written>, depth: nat,
                                     end: nat, rules: seq<Rule>)
    requires Spelling(put) && InMemory(b) && AllFit(put, ws, depth) && ws != [] && At(b, p, [TypeByte(ws[0])])
    requires At(b, p + 1, PutRule(put, ws[0])) && q == p + 1 + |PutRule(put, ws[0])|
    requires At(b, q, PutRules(put, ws[1..])) && end == q + |PutRules(put, ws[1..])|
    requires rules == [RuleAt(put, ws[0], p + 1)] + RulesAt(put, ws[1..], q)
    ensures ReadRules(b, p, |ws|, depth) == Read(Some(rules), end)
    decreases ws, 0
  {
    RuleBack(put, b, p + 1, ws[0], depth, q, RuleAt(put, ws[0], p + 1));
    RulesBack(put, b, q, ws[1..], depth, end, RulesAt(put, ws[1..], q));
    RulesStep(b, p, TypeByte(ws[0]), q, RuleAt(put, ws[0], p + 1), RulesAt(put, ws[1..], q), |ws|, depth, end, rules);
  }

  lemma RulesStep(b: Bytes, p: nat, kind: Byte, q: nat, rule: Rule, more: seq<Rule>, n: nat, depth: nat, end: nat,
                  rules: seq<Rule>)
    requires n > 0 && At(b, p, [kind]) && ReadRule(kind, b, p + 1, depth) == Read(Some(rule), q)
    requires ReadRules(b, q, n - 1, depth) == Read(Some(more), end) && rules == [rule] + more
    ensures ReadRules(b, p, n, depth) == Read(Some(rules), end)
  {
    FirstBack(b, p, kind);
  }

  // ----- what is refused -----

  /** An address set of another version, or with too many ranges. */
  lemma IPSetRefused(b: Bytes, p: nat, version: Byte, n: nat)
    requires InMemory(b) && n < 18446744073709551616 && At(b, p, [version] + PutFixed(n, 8))
    requires version != 1 || n > 10000000
    ensures ReadIPSet(b, p).value.None?
  {
    AtSplit(b, p, [version], PutFixed(n, 8));
    FirstBack(b, p, version);
    TakenBack(b, p + 1, PutFixed(n, 8));
    assert Capacity(4) == 4294967296;
    assert Capacity(8) == 18446744073709551616;
    FixedBack(n, 8);
  }

  /** A prefix of more than sixteen address bytes. */
  lemma PrefixRefused(put: nat -> Bytes, b: Bytes, p: nat, n: nat)
    requires Spelling(put) && InMemory(b) && 16 < n < 18446744073709551616 && At(b, p, put(n))
    ensures ReadPrefix(b, p).value.None?
  {
    UvarintBack(b, p, put(n), n);
  }

  /** An item of a kind not known, a rule of another type, a logical rule nested too
      deeply or of another mode. */
  lemma KindsRefused(kind: Byte, b: Bytes, p: nat, depth: nat)
    ensures kind > 23 ==> ReadItem(kind, b, p).value.None?
    ensures kind > 1 ==> ReadRule(kind, b, p, depth).value.None?
    ensures depth > 100 ==> ReadRule(1, b, p, depth).value.None?
    ensures p < |b| && b[p] > 1 ==> ReadRule(1, b, p, depth).value.None?
  {}

  /** A range is taken exactly when both ends are IPv4 or both IPv6 addresses and some
      address lies between them. */
  lemma RangeTakenIff(r: RawRange)
    ensures ValidRange(r) <==>
              (|r.from| == 4 || |r.from| == 16) && |r.to| == |r.from| && exists a :: InSpan(a, SpanOf(r))
  {
    if ValidRange(r) { assert InSpan(Addr(|r.from| == 16, BigEndian(r.from)), SpanOf(r)); }
  }

  // ----- files -----

  function PutFile(put: nat -> Bytes, ws: seq<Written>): Bytes { put(|ws|) + PutRules(put, ws) }

  /** A whole file: its rules are read back as they were written. */
  lemma FileBack(put: nat -> Bytes, ws: seq<Written>)
    requires Spelling(put) && AllFit(put, ws, 0) && InMemory(PutFile(put, ws)) && |ws| < 18446744073709551616
    ensures FileRules(PutFile(put, ws)) == Some(RulesAt(put, ws, |put(|ws|)|))
  {
    var b := PutFile(put, ws);
    assert b[0..|b|] == b;
    AtSplit(b, 0, put(|ws|), PutRules(put, ws));
    UvarintBack(b, 0, put(|ws|), |ws|);
    RulesBack(put, b, |put(|ws|)|, ws, 0, |b|, RulesAt(put, ws, |put(|ws|)|));
  }

  /** Written rules of destination ranges, combined without inversion. */
  predicate WrittenPure(w: Written) {
    match w
    case Plain(items, invert) => invert == 0 && items != [] && forall i :: i in items ==> RangesOnly(i)
    case Combined(_, subs, invert) => invert == 0 && subs != [] && forall i :: 0 <= i < |subs| ==> WrittenPure(subs[i])
  }

  function RangesOf(i: WrittenItem): seq<RawRange> { if i.payload.Ranges? then i.payload.ranges else [] }

  predicate RangesOnly(i: WrittenItem) {
    i.kind == 6 && i.payload.Ranges? && forall r :: r in i.payload.ranges ==> ValidRange(r)
  }

  predicate ItemSays(i: WrittenItem, a: Addr) { exists r :: r in RangesOf(i) && InSpan(a, SpanOf(r)) }

  /** What a written rule of that kind says about an address. */
  predicate Says(w: Written, a: Addr) {
    match w
    case Plain(items, _) => exists k :: 0 <= k < |items| && ItemSays(items[k], a)
    case Combined(mode, subs, _) =>
      if mode == 0 then forall i :: 0 <= i < |subs| ==> Says(subs[i], a)
      else exists i :: 0 <= i < |subs| && Says(subs[i], a)
  }

  lemma {:induction false} RangesAt(items: seq<WrittenItem>, p: nat)
    requires forall i :: i in items ==> RangesOnly(i)
    ensures |ItemsAt(items, p)| == |items|
    ensures forall k :: 0 <= k < |items| ==> ItemsAt(items, p)[k] == Cidr(RangesOf(items[k]))
  {
    if items != [] {
      assert items[0] in items;
      RangesAt(items[1..], p + |PutItem(items[0])|);
    }
  }

  lemma PlainIsPure(items: seq<WrittenItem>, p: nat)
    requires items != [] && forall i :: i in items ==> RangesOnly(i)
    ensures Pure(Default(ItemsAt(items, p), Some(0)))
  {
    var read := ItemsAt(items, p);
    RangesAt(items, p);
    forall i | i in read ensures i.Cidr? && ValidItem(i) {
      var k :| 0 <= k < |read| && read[k] == i;
      assert items[k] in items;
    }
  }

  lemma PureMatches(read: seq<Item>, a: Addr, world: World)
    requires Pure(Default(read, Some(0)))
    ensures Matches(Default(read, Some(0)), a, world) <==>
              exists k :: 0 <= k < |read| && DestinationItem(read[k], a, world)
  {
    assert read[0] in read && !Narrows(read[0]) && !HasNarrowing(read);
    if k :| 0 <= k < |read| && DestinationItem(read[k], a, world) { assert read[k] in read; }
  }

  lemma PlainSays(items: seq<WrittenItem>, p: nat, a: Addr, world: World)
    requires items != [] && forall i :: i in items ==> RangesOnly(i)
    ensures Matches(Default(ItemsAt(items, p), Some(0)), a, world) <==>
              exists k :: 0 <= k < |items| && ItemSays(items[k], a)
  {
    var read := ItemsAt(items, p);
    RangesAt(items, p);
    PlainIsPure(items, p);
    PureMatches(read, a, world);
    forall k | 0 <= k < |items| ensures DestinationItem(read[k], a, world) <==> ItemSays(items[k], a) {}
  }

  lemma {:induction false} RuleSays(put: nat -> Bytes, w: Written, p: nat, a: Addr, world: World)
    requires WrittenPure(w)
    ensures Pure(RuleAt(put, w, p)) && (Matches(RuleAt(put, w, p), a, world) <==> Says(w, a))
    decreases w, 1
  {
    match w
    case Plain(items, _) =>
      PlainIsPure(items, p);
      PlainSays(items, p, a, world);
    case Combined(_, subs, _) => RulesSay(put, subs, p + 1 + |put(|subs|)|, a, world);
  }

  lemma {:induction false} RulesSay(put: nat -> Bytes, ws: seq<Written>, p: nat, a: Addr, world: World)
    requires forall i :: 0 <= i < |ws| ==> WrittenPure(ws[i])
    ensures AllSaySame(RulesAt(put, ws, p), ws, a, world)
    decreases ws, 0
  {
    if ws != [] {
      var q := p + 1 + |PutRule(put, ws[0])|;
      RuleSays(put, ws[0], p + 1, a, world);
      RulesSay(put, ws[1..], q, a, world);
      AddSame(RuleAt(put, ws[0], p + 1), RulesAt(put, ws[1..], q), ws, a, world);
    }
  }

  predicate SaysSame(rule: Rule, w: Written, a: Addr, world: World) {
    Pure(rule) && (Matches(rule, a, world) <==> Says(w, a))
  }

  predicate AllSaySame(rules: seq<Rule>, ws: seq<Written>, a: Addr, world: World) {
    |rules| == |ws| && forall k :: 0 <= k < |ws| ==> SaysSame(rules[k], ws[k], a, world)
  }

  lemma AddSame(rule: Rule, rules: seq<Rule>, ws: seq<Written>, a: Addr, world: World)
    requires ws != [] && SaysSame(rule, ws[0], a, world) && AllSaySame(rules, ws[1..], a, world)
    ensures AllSaySame([rule] + rules, ws, a, world)
  {
    forall k | 0 <= k < |ws| ensures SaysSame(([rule] + rules)[k], ws[k], a, world) {
      if k > 0 { assert SaysSame(rules[k - 1], ws[1..][k - 1], a, world); }
    }
  }

  /** From bytes to addresses: a written file of such rules gives exactly the
      addresses that some rule of it says. */
  lemma FileMeans(put: nat -> Bytes, ws: seq<Written>, a: Addr)
    requires Spelling(put) && AllFit(put, ws, 0) && InMemory(PutFile(put, ws)) && |ws| < 18446744073709551616
    requires forall i :: 0 <= i < |ws| ==> WrittenPure(ws[i])
    ensures var entries := FileEntries(PutFile(put, ws), true);
            entries.Some? && (SomeCovers(entries.value, a) <==> exists i :: 0 <= i < |ws| && Says(ws[i], a))
  {
    var b, rules, world := PutFile(put, ws), RulesAt(put, ws, |put(|ws|)|), World(_ => false, _ => false, _ => false);
    FileBack(put, ws);
    RulesSay(put, ws, |put(|ws|)|, a, world);
    forall rule | rule in rules ensures Pure(rule) {
      var k :| 0 <= k < |rules| && rules[k] == rule;
      assert SaysSame(rules[k], ws[k], a, world);
    }
    FileExact(b, a, world);
    if rule :| rule in rules && Matches(rule, a, world) {
      var k :| 0 <= k < |rules| && rules[k] == rule;
      assert SaysSame(rules[k], ws[k], a, world);
    }
    if i :| 0 <= i < |ws| && Says(ws[i], a) { assert rules[i] in rules && SaysSame(rules[i], ws[i], a, world); }
  }
}
