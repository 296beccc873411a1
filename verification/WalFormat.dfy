/** The log record format: a 29-byte header, the key, the value.

    The checksum is a parameter: everything here holds for every function from bytes to
    32-bit numbers. */
module WalFormat {
  import opened KvTypes

  type U32 = x: int | 0 <= x < 0x1_0000_0000
  type U64 = x: int | 0 <= x < 0x1_0000_0000_0000_0000

  type Checksum = Bytes -> U32

  const PUT: byte := 1
  const DELETE: byte := 2

  const HEADER_SIZE: nat := 29

  /** The reader rejects longer keys and values (256 MiB); the writer does not. */
  const MAX_FIELD: nat := 0x1000_0000

  datatype Record = Record(kind: byte, number: U64, time: U64, key: Bytes, value: Bytes)

  // ---- fixed-width numbers, least significant byte first

  function Fixed32(v: U32): (b: Bytes)
    ensures |b| == 4
  {
    [v % 0x100, v / 0x100 % 0x100, v / 0x1_0000 % 0x100, v / 0x100_0000]
  }

  function Fixed64(v: U64): (b: Bytes)
    ensures |b| == 8
  {
    Fixed32(v % 0x1_0000_0000) + Fixed32(v / 0x1_0000_0000)
  }

  function DecodeFixed32(b: Bytes, at: nat): U32
    requires at + 4 <= |b|
  {
    b[at] as int + b[at + 1] as int * 0x100 + b[at + 2] as int * 0x1_0000 + b[at + 3] as int * 0x100_0000
  }

  function DecodeFixed64(b: Bytes, at: nat): U64
    requires at + 8 <= |b|
  {
    DecodeFixed32(b, at) + DecodeFixed32(b, at + 4) * 0x1_0000_0000
  }

  lemma Digits(v: U32)
    ensures v % 0x100 + v / 0x100 % 0x100 * 0x100 + v / 0x1_0000 % 0x100 * 0x1_0000 + v / 0x100_0000 * 0x100_0000 == v
  {
    var q, p := v / 0x100, v / 0x1_0000;
    assert q / 0x100 == p && p / 0x100 == v / 0x100_0000;
    assert v == q * 0x100 + v % 0x100 && q == p * 0x100 + q % 0x100;
  }

  lemma Fixed32Inverse(b: Bytes, at: nat, v: U32)
    requires at + 4 <= |b| && b[at..at + 4] == Fixed32(v)
    ensures DecodeFixed32(b, at) == v
  {
    Digits(v);
    assert b[at] == b[at..at + 4][0] && b[at + 1] == b[at..at + 4][1];
    assert b[at + 2] == b[at..at + 4][2] && b[at + 3] == b[at..at + 4][3];
  }

  lemma Fixed64Inverse(b: Bytes, at: nat, v: U64)
    requires at + 8 <= |b| && b[at..at + 8] == Fixed64(v)
    ensures DecodeFixed64(b, at) == v
  {
    var lo, hi: U32 := v % 0x1_0000_0000, v / 0x1_0000_0000;
    assert b[at..at + 4] == b[at..at + 8][..4] == Fixed32(lo);
    assert b[at + 4..at + 8] == b[at..at + 8][4..] == Fixed32(hi);
    Fixed32Inverse(b, at, lo);
    Fixed32Inverse(b, at + 4, hi);
  }

  /** The bytes of a number, least significant first. */
  lemma Bytes32(b: Bytes, at: nat, v: U32)
    requires at + 4 <= |b| && b[at..at + 4] == Fixed32(v)
    ensures b[at] as int + 0x100 * b[at + 1] as int + 0x1_0000 * b[at + 2] as int + 0x100_0000 * b[at + 3] as int == v
  {
    Digits(v);
    assert b[at] == b[at..at + 4][0] && b[at + 1] == b[at..at + 4][1];
    assert b[at + 2] == b[at..at + 4][2] && b[at + 3] == b[at..at + 4][3];
  }

  lemma Bytes64(b: Bytes, at: nat, v: U64)
    requires at + 8 <= |b| && b[at..at + 8] == Fixed64(v)
    ensures b[at] as int + 0x100 * b[at + 1] as int + 0x1_0000 * b[at + 2] as int + 0x100_0000 * b[at + 3] as int
            + 0x1_0000_0000 * b[at + 4] as int + 0x100_0000_0000 * b[at + 5] as int
            + 0x1_0000_0000_0000 * b[at + 6] as int + 0x100_0000_0000_0000 * b[at + 7] as int == v
  {
    var lo, hi: U32 := v % 0x1_0000_0000, v / 0x1_0000_0000;
    assert b[at..at + 4] == b[at..at + 8][..4] == Fixed32(lo);
    assert b[at + 4..at + 8] == b[at..at + 8][4..] == Fixed32(hi);
    Bytes32(b, at, lo);
    Bytes32(b, at + 4, hi);
  }

  method EncodeFixed32(buf: array<byte>, at: nat, v: U32)
    requires at + 4 <= buf.Length
    modifies buf
    ensures buf[..] == old(buf[..at]) + Fixed32(v) + old(buf[at + 4..])
    ensures buf[at] as int + 0x100 * buf[at + 1] as int
            + 0x1_0000 * buf[at + 2] as int + 0x100_0000 * buf[at + 3] as int == v
  {
    buf[at] := v % 0x100;
    buf[at + 1] := v / 0x100 % 0x100;
    buf[at + 2] := v / 0x1_0000 % 0x100;
    buf[at + 3] := v / 0x100_0000 % 0x100;
    Bytes32(buf[..], at, v);
  }

  method EncodeFixed64(buf: array<byte>, at: nat, v: U64)
    requires at + 8 <= buf.Length
    modifies buf
    ensures buf[..] == old(buf[..at]) + Fixed64(v) + old(buf[at + 8..])
    ensures buf[at] as int + 0x100 * buf[at + 1] as int
            + 0x1_0000 * buf[at + 2] as int + 0x100_0000 * buf[at + 3] as int
            + 0x1_0000_0000 * buf[at + 4] as int + 0x100_0000_0000 * buf[at + 5] as int
            + 0x1_0000_0000_0000 * buf[at + 6] as int + 0x100_0000_0000_0000 * buf[at + 7] as int == v
  {
    EncodeFixed32(buf, at, v % 0x1_0000_0000);
    EncodeFixed32(buf, at + 4, v / 0x1_0000_0000);
    Bytes64(buf[..], at, v);
  }

  // ---- records

  /** The key and value sizes fit their 32-bit fields. */
  predicate Fits(r: Record) {
    |r.key| < 0x1_0000_0000 && |r.value| < 0x1_0000_0000
  }

  /** The reader accepts the key and value sizes. */
  predicate Readable(r: Record) {
    |r.key| <= MAX_FIELD && |r.value| <= MAX_FIELD
  }

  ghost predicate AllFit(rs: seq<Record>) {
    forall i :: 0 <= i < |rs| ==> Fits(rs[i])
  }

  ghost predicate AllReadable(rs: seq<Record>) {
    forall i :: 0 <= i < |rs| ==> Readable(rs[i])
  }

  /** The header without its checksum. */
  ghost function HeaderFields(r: Record): (b: Bytes)
    requires Fits(r)
    ensures |b| == 25
  {
    [r.kind] + Fixed64(r.number) + Fixed64(r.time) + Fixed32(|r.key|) + Fixed32(|r.value|)
  }

  ghost function Header(crc: Checksum, r: Record): (b: Bytes)
    requires Fits(r)
    ensures |b| == HEADER_SIZE
  {
    HeaderFields(r) + Fixed32(crc(HeaderFields(r) + r.key + r.value))
  }

  ghost function Encode(crc: Checksum, r: Record): (b: Bytes)
    requires Fits(r)
    ensures |b| == HEADER_SIZE + |r.key| + |r.value|
  {
    Header(crc, r) + r.key + r.value
  }

  ghost function EncodeAll(crc: Checksum, rs: seq<Record>): Bytes
    requires AllFit(rs)
  {
    if rs == [] then [] else Encode(crc, rs[0]) + EncodeAll(crc, rs[1..])
  }

  /** The header byte by byte. */
  lemma HeaderBytes(crc: Checksum, r: Record, b: Bytes)
    requires Fits(r) && |b| >= 29 && b[..29] == Header(crc, r)
    ensures b[0] == r.kind
    ensures b[1] as int + 0x100 * b[2] as int + 0x1_0000 * b[3] as int + 0x100_0000 * b[4] as int
            + 0x1_0000_0000 * b[5] as int + 0x100_0000_0000 * b[6] as int
            + 0x1_0000_0000_0000 * b[7] as int + 0x100_0000_0000_0000 * b[8] as int == r.number
    ensures b[9] as int + 0x100 * b[10] as int + 0x1_0000 * b[11] as int + 0x100_0000 * b[12] as int
            + 0x1_0000_0000 * b[13] as int + 0x100_0000_0000 * b[14] as int
            + 0x1_0000_0000_0000 * b[15] as int + 0x100_0000_0000_0000 * b[16] as int == r.time
    ensures b[17] as int + 0x100 * b[18] as int + 0x1_0000 * b[19] as int + 0x100_0000 * b[20] as int == |r.key|
    ensures b[21] as int + 0x100 * b[22] as int + 0x1_0000 * b[23] as int + 0x100_0000 * b[24] as int == |r.value|
    ensures b[25] as int + 0x100 * b[26] as int + 0x1_0000 * b[27] as int + 0x100_0000 * b[28] as int ==
              crc(b[..25] + r.key + r.value)
  {
    var h := Header(crc, r);
    assert b[0] == h[0];
    assert b[..25] == h[..25] == HeaderFields(r);
    assert b[1..9] == h[1..9] == Fixed64(r.number);
    assert b[9..17] == h[9..17] == Fixed64(r.time);
    assert b[17..21] == h[17..21] == Fixed32(|r.key|);
    assert b[21..25] == h[21..25] == Fixed32(|r.value|);
    assert b[25..29] == h[25..29] == Fixed32(crc(HeaderFields(r) + r.key + r.value));
    Bytes64(b, 1, r.number);
    Bytes64(b, 9, r.time);
    Bytes32(b, 17, |r.key|);
    Bytes32(b, 21, |r.value|);
    Bytes32(b, 25, crc(HeaderFields(r) + r.key + r.value));
  }

  method BuildHeader(crc: Checksum, r: Record) returns (buf: array<byte>)
    requires Fits(r)
    ensures fresh(buf) && buf[..] == Header(crc, r) && buf.Length == 29 && buf[0] == r.kind
    ensures buf[1] as int + 0x100 * buf[2] as int + 0x1_0000 * buf[3] as int + 0x100_0000 * buf[4] as int
            + 0x1_0000_0000 * buf[5] as int + 0x100_0000_0000 * buf[6] as int
            + 0x1_0000_0000_0000 * buf[7] as int + 0x100_0000_0000_0000 * buf[8] as int == r.number
    ensures buf[9] as int + 0x100 * buf[10] as int + 0x1_0000 * buf[11] as int + 0x100_0000 * buf[12] as int
            + 0x1_0000_0000 * buf[13] as int + 0x100_0000_0000 * buf[14] as int
            + 0x1_0000_0000_0000 * buf[15] as int + 0x100_0000_0000_0000 * buf[16] as int == r.time
    ensures buf[17] as int + 0x100 * buf[18] as int + 0x1_0000 * buf[19] as int + 0x100_0000 * buf[20] as int == |r.key|
    ensures buf[21] as int + 0x100 * buf[22] as int + 0x1_0000 * buf[23] as int + 0x100_0000 * buf[24] as int ==
              |r.value|
    ensures buf[25] as int + 0x100 * buf[26] as int + 0x1_0000 * buf[27] as int + 0x100_0000 * buf[28] as int ==
              crc(buf[..25] + r.key + r.value)
  {
    buf := new byte[HEADER_SIZE];
    buf[0] := r.kind;
    ghost var rest := buf[1..];
    assert buf[..] == [r.kind] + rest;
    EncodeFixed64(buf, 1, r.number);
    EncodeFixed64(buf, 9, r.time);
    EncodeFixed32(buf, 17, |r.key|);
    EncodeFixed32(buf, 21, |r.value|);
    assert buf[..25] == HeaderFields(r);
    EncodeFixed32(buf, 25, crc(buf[..25] + r.key + r.value));
    HeaderBytes(crc, r, buf[..]);
  }

  /** The record format, byte by byte: what a record looks like in a file. */
  lemma EncodedBytes(crc: Checksum, r: Record)
    requires Fits(r)
    ensures var e := Encode(crc, r);
            && |e| == 29 + |r.key| + |r.value|
            && e[0] == r.kind
            && e[1] as int + 0x100 * e[2] as int + 0x1_0000 * e[3] as int + 0x100_0000 * e[4] as int
               + 0x1_0000_0000 * e[5] as int + 0x100_0000_0000 * e[6] as int
               + 0x1_0000_0000_0000 * e[7] as int + 0x100_0000_0000_0000 * e[8] as int == r.number
            && e[9] as int + 0x100 * e[10] as int + 0x1_0000 * e[11] as int + 0x100_0000 * e[12] as int
               + 0x1_0000_0000 * e[13] as int + 0x100_0000_0000 * e[14] as int
               + 0x1_0000_0000_0000 * e[15] as int + 0x100_0000_0000_0000 * e[16] as int == r.time
            && e[17] as int + 0x100 * e[18] as int + 0x1_0000 * e[19] as int + 0x100_0000 * e[20] as int == |r.key|
            && e[21] as int + 0x100 * e[22] as int + 0x1_0000 * e[23] as int + 0x100_0000 * e[24] as int == |r.value|
            && e[25] as int + 0x100 * e[26] as int + 0x1_0000 * e[27] as int + 0x100_0000 * e[28] as int ==
                      crc(e[..25] + r.key + r.value)
            && e[29..29 + |r.key|] == r.key && e[29 + |r.key|..] == r.value
  {
    var e := Encode(crc, r);
    assert e[..29] == Header(crc, r);
    HeaderBytes(crc, r, e);
  }

  // ---- reading one record

  datatype ReadResult = End | Bad | Got(r: Record, size: nat)

  function ReadOne(crc: Checksum, b: Bytes): (s: ReadResult)
    ensures s.Got? ==> HEADER_SIZE <= s.size <= |b|
  {
    if |b| < HEADER_SIZE then End
    else
      var keySize, valueSize := DecodeFixed32(b, 17), DecodeFixed32(b, 21);
      if keySize > MAX_FIELD || valueSize > MAX_FIELD then Bad
      else if |b| < HEADER_SIZE + keySize + valueSize then End
      else
        var key := b[HEADER_SIZE..HEADER_SIZE + keySize];
        var value := b[HEADER_SIZE + keySize..HEADER_SIZE + keySize + valueSize];
        if crc(b[..25] + key + value) != DecodeFixed32(b, 25) then Bad
        else Got(Record(b[0], DecodeFixed64(b, 1), DecodeFixed64(b, 9), key, value), HEADER_SIZE + keySize + valueSize)
  }

  /** What the reader takes from the bytes, and from which ones; the limit on sizes is 256 MiB. */
  lemma ReadBytes(crc: Checksum, b: Bytes)
    requires |b| >= 29
    ensures var keySize := b[17] as int + 0x100 * b[18] as int + 0x1_0000 * b[19] as int + 0x100_0000 * b[20] as int;
            var valueSize := b[21] as int + 0x100 * b[22] as int + 0x1_0000 * b[23] as int + 0x100_0000 * b[24] as int;
            var checksum := b[25] as int + 0x100 * b[26] as int + 0x1_0000 * b[27] as int + 0x100_0000 * b[28] as int;
            if keySize > 268435456 || valueSize > 268435456 then ReadOne(crc, b) == Bad
            else if |b| < 29 + keySize + valueSize then ReadOne(crc, b) == End
            else
              var key, value := b[29..29 + keySize], b[29 + keySize..29 + keySize + valueSize];
              if crc(b[..25] + key + value) != checksum then ReadOne(crc, b) == Bad
              else
                && ReadOne(crc, b).Got? && ReadOne(crc, b).size == 29 + keySize + valueSize
                && var r := ReadOne(crc, b).r;
                   && r.kind == b[0] && r.key == key && r.value == value
                   && r.number == b[1] as int + 0x100 * b[2] as int + 0x1_0000 * b[3] as int + 0x100_0000 * b[4] as int
                                  + 0x1_0000_0000 * b[5] as int + 0x100_0000_0000 * b[6] as int
                                  + 0x1_0000_0000_0000 * b[7] as int + 0x100_0000_0000_0000 * b[8] as int
                   && r.time == b[9] as int + 0x100 * b[10] as int + 0x1_0000 * b[11] as int + 0x100_0000 * b[12] as int
                                + 0x1_0000_0000 * b[13] as int + 0x100_0000_0000 * b[14] as int
                                + 0x1_0000_0000_0000 * b[15] as int + 0x100_0000_0000_0000 * b[16] as int
  {
  }

  lemma HeadFields(crc: Checksum, r: Record, b: Bytes)
    requires Fits(r) && |b| >= HEADER_SIZE && b[..HEADER_SIZE] == Header(crc, r)
    ensures b[0] == r.kind && b[..25] == HeaderFields(r)
    ensures DecodeFixed64(b, 1) == r.number && DecodeFixed64(b, 9) == r.time
    ensures DecodeFixed32(b, 17) == |r.key| && DecodeFixed32(b, 21) == |r.value|
    ensures DecodeFixed32(b, 25) == crc(HeaderFields(r) + r.key + r.value)
  {
    var h := Header(crc, r);
    assert b[0] == h[0];
    assert b[..25] == h[..25];
    assert b[1..9] == h[1..9] == Fixed64(r.number);
    assert b[9..17] == h[9..17] == Fixed64(r.time);
    assert b[17..21] == h[17..21] == Fixed32(|r.key|);
    assert b[21..25] == h[21..25] == Fixed32(|r.value|);
    assert b[25..29] == h[25..29] == Fixed32(crc(HeaderFields(r) + r.key + r.value));
    Fixed64Inverse(b, 1, r.number);
    Fixed64Inverse(b, 9, r.time);
    Fixed32Inverse(b, 17, |r.key|);
    Fixed32Inverse(b, 21, |r.value|);
    Fixed32Inverse(b, 25, crc(HeaderFields(r) + r.key + r.value));
  }

  /** Reading inverts writing, up to the size the reader accepts. */
  lemma ReadEncoded(crc: Checksum, r: Record, tail: Bytes)
    requires Fits(r)
    ensures ReadOne(crc, Encode(crc, r) + tail) == if Readable(r) then Got(r, |Encode(crc, r)|) else Bad
  {
    var b := Encode(crc, r) + tail;
    assert b[..HEADER_SIZE] == Header(crc, r);
    HeadFields(crc, r, b);
    var k := HEADER_SIZE + |r.key|;
    assert b[HEADER_SIZE..k] == r.key;
    assert b[k..k + |r.value|] == r.value;
  }

  /** The reader's limit in bytes: up to it a record reads back as itself, above it not at all. */
  lemma ReadLimit(crc: Checksum, r: Record, tail: Bytes)
    requires Fits(r)
    ensures ReadOne(crc, Encode(crc, r) + tail) ==
            if |r.key| <= 268435456 && |r.value| <= 268435456 then Got(r, 29 + |r.key| + |r.value|) else Bad
  {
    ReadEncoded(crc, r, tail);
  }

  /** A record cut short is not delivered, and not taken for corruption. */
  lemma ReadTorn(crc: Checksum, r: Record, n: nat)
    requires Fits(r) && Readable(r) && n < |Encode(crc, r)|
    ensures ReadOne(crc, Encode(crc, r)[..n]) == End
  {
    var b := Encode(crc, r)[..n];
    if n >= HEADER_SIZE {
      assert b[..HEADER_SIZE] == Header(crc, r);
      HeadFields(crc, r, b);
    }
  }

  /** A whole record with another checksum than its own is corrupt. */
  lemma ReadDamaged(crc: Checksum, r: Record, c: U32, tail: Bytes)
    requires Fits(r) && Readable(r) && c != crc(HeaderFields(r) + r.key + r.value)
    ensures ReadOne(crc, HeaderFields(r) + Fixed32(c) + r.key + r.value + tail) == Bad
  {
    var other := (x: Bytes) => c;
    var b := HeaderFields(r) + Fixed32(c) + r.key + r.value + tail;
    assert b[..HEADER_SIZE] == Header(other, r);
    HeadFields(other, r, b);
    var k := HEADER_SIZE + |r.key|;
    assert b[HEADER_SIZE..k] == r.key;
    assert b[k..k + |r.value|] == r.value;
  }

  // ---- reading a file

  datatype Parsed = Parsed(records: seq<Record>, ok: bool)

  function Parse(crc: Checksum, b: Bytes): Parsed
    decreases |b|
  {
    match ReadOne(crc, b)
    case End => Parsed([], true)
    case Bad => Parsed([], false)
    case Got(r, size) =>
      var rest := Parse(crc, b[size..]);
      Parsed([r] + rest.records, rest.ok)
  }

  ghost function Ahead(records: seq<Record>, p: Parsed): Parsed {
    Parsed(records + p.records, p.ok)
  }

  lemma AheadStep(crc: Checksum, records: seq<Record>, b: Bytes, r: Record, size: nat)
    requires ReadOne(crc, b) == Got(r, size)
    ensures Ahead(records, Parse(crc, b)) == Ahead(records + [r], Parse(crc, b[size..]))
  {
    assert records + ([r] + Parse(crc, b[size..]).records) == records + [r] + Parse(crc, b[size..]).records;
  }

  /** The reading loop: record after record until the end, a torn record, or corruption. */
  method ParseFile(crc: Checksum, content: Bytes) returns (records: seq<Record>, ok: bool)
    ensures Parsed(records, ok) == Parse(crc, content)
  {
    records, ok := [], true;
    var pos := 0;
    while true
      invariant pos <= |content| && ok
      invariant Parse(crc, content) == Ahead(records, Parse(crc, content[pos..]))
      decreases |content| - pos
    {
      ghost var rest := content[pos..];
      match ReadOne(crc, content[pos..])
      case End =>
        return;
      case Bad =>
        ok := false;
        return;
      case Got(r, size) =>
        AheadStep(crc, records, rest, r, size);
        records := records + [r];
        pos := pos + size;
        assert content[pos..] == rest[size..];
    }
  }

  /** The number of leading records the reader accepts. */
  ghost function ReadablePrefix(rs: seq<Record>): (n: nat)
    ensures n <= |rs|
    ensures forall i :: 0 <= i < n ==> Readable(rs[i])
    ensures n < |rs| ==> !Readable(rs[n])
  {
    if rs == [] || !Readable(rs[0]) then 0 else 1 + ReadablePrefix(rs[1..])
  }

  lemma AllReadableTail(rs: seq<Record>)
    requires rs != []
    ensures AllReadable(rs) <==> Readable(rs[0]) && AllReadable(rs[1..])
  {
    if Readable(rs[0]) && AllReadable(rs[1..]) {
      forall i | 0 <= i < |rs| ensures Readable(rs[i]) {
        if i > 0 {
          assert Readable(rs[1..][i - 1]);
        }
      }
    }
  }

  /** A readable record in front is delivered first. */
  lemma ParseFirst(crc: Checksum, r: Record, tail: Bytes)
    requires Fits(r) && Readable(r)
    ensures var p := Parse(crc, tail); Parse(crc, Encode(crc, r) + tail) == Parsed([r] + p.records, p.ok)
  {
    ReadEncoded(crc, r, tail);
    assert (Encode(crc, r) + tail)[|Encode(crc, r)|..] == tail;
  }

  /** Parsing what was written delivers the records up to the first oversized one,
      and succeeds exactly when there is none. */
  lemma {:induction false} ParseInverts(crc: Checksum, rs: seq<Record>)
    requires AllFit(rs)
    ensures Parse(crc, EncodeAll(crc, rs)) == Parsed(rs[..ReadablePrefix(rs)], AllReadable(rs))
  {
    if rs != [] {
      var tail := EncodeAll(crc, rs[1..]);
      ReadEncoded(crc, rs[0], tail);
      if Readable(rs[0]) {
        assert EncodeAll(crc, rs)[|Encode(crc, rs[0])|..] == tail;
        ParseInverts(crc, rs[1..]);
        PrefixCons(rs, ReadablePrefix(rs[1..]));
        AllReadableTail(rs);
      }
    }
  }

  /** The number of records that lie wholly within the first n bytes. */
  ghost function WholeRecords(crc: Checksum, rs: seq<Record>, n: nat): (k: nat)
    requires AllFit(rs)
    ensures k <= |rs|
  {
    if rs == [] || n < |Encode(crc, rs[0])| then 0
    else 1 + WholeRecords(crc, rs[1..], n - |Encode(crc, rs[0])|)
  }

  /** Where record k starts in the encoding of a list. */
  ghost function Offset(rs: seq<Record>, k: nat): nat
    requires k <= |rs|
  {
    if k == 0 then 0 else HEADER_SIZE + |rs[0].key| + |rs[0].value| + Offset(rs[1..], k - 1)
  }

  lemma {:induction false} OffsetIsLength(crc: Checksum, rs: seq<Record>, k: nat)
    requires AllFit(rs) && k <= |rs|
    ensures |EncodeAll(crc, rs[..k])| == Offset(rs, k)
  {
    if k > 0 {
      OffsetIsLength(crc, rs[1..], k - 1);
      EncodePrefix(crc, rs, k - 1);
    }
  }

  lemma {:induction false} WholeRecordsFit(crc: Checksum, rs: seq<Record>, n: nat)
    requires AllFit(rs)
    ensures var k := WholeRecords(crc, rs, n); Offset(rs, k) <= n && (k < |rs| ==> n < Offset(rs, k + 1))
  {
    if rs != [] && n >= |Encode(crc, rs[0])| {
      WholeRecordsFit(crc, rs[1..], n - |Encode(crc, rs[0])|);
    }
  }

  /** They are the longest list of leading records whose encoding fits in n bytes. */
  lemma WholeRecordsMeaning(crc: Checksum, rs: seq<Record>, n: nat)
    requires AllFit(rs)
    ensures var k := WholeRecords(crc, rs, n);
            && |EncodeAll(crc, rs[..k])| <= n
            && (k < |rs| ==> n < |EncodeAll(crc, rs[..k + 1])|)
  {
    var k := WholeRecords(crc, rs, n);
    WholeRecordsFit(crc, rs, n);
    OffsetIsLength(crc, rs, k);
    if k < |rs| {
      OffsetIsLength(crc, rs, k + 1);
    }
  }

  lemma CutCat(a: Bytes, b: Bytes, n: nat)
    requires n <= |a + b|
    ensures (a + b)[..n] == if n < |a| then a[..n] else a + b[..n - |a|]
  {
  }

  lemma PrefixCons(rs: seq<Record>, k: nat)
    requires k < |rs|
    ensures rs[..k + 1] == [rs[0]] + rs[1..][..k]
  {
  }

  lemma EncodePrefix(crc: Checksum, rs: seq<Record>, k: nat)
    requires AllFit(rs) && k < |rs|
    ensures EncodeAll(crc, rs[..k + 1]) == Encode(crc, rs[0]) + EncodeAll(crc, rs[1..][..k])
  {
    assert rs[..k + 1][1..] == rs[1..][..k];
  }

  /** A torn tail costs exactly the records it cuts: whatever the length of the prefix that
      survives, the parse delivers the whole records in it and reports success. */
  lemma {:induction false} ParseTorn(crc: Checksum, rs: seq<Record>, n: nat)
    requires AllFit(rs) && AllReadable(rs) && n <= |EncodeAll(crc, rs)|
    ensures Parse(crc, EncodeAll(crc, rs)[..n]) == Parsed(rs[..WholeRecords(crc, rs, n)], true)
  {
    if rs != [] {
      var e := Encode(crc, rs[0]);
      var all := EncodeAll(crc, rs);
      var tail := EncodeAll(crc, rs[1..]);
      CutCat(e, tail, n);
      if n < |e| {
        ReadTorn(crc, rs[0], n);
      } else {
        ParseFirst(crc, rs[0], tail[..n - |e|]);
        ParseTorn(crc, rs[1..], n - |e|);
        PrefixCons(rs, WholeRecords(crc, rs[1..], n - |e|));
      }
    }
  }

  lemma AheadTail(rs: seq<Record>, p: Parsed)
    requires rs != []
    ensures Parsed([rs[0]] + Ahead(rs[1..], p).records, p.ok) == Ahead(rs, p)
  {
    assert [rs[0]] + (rs[1..] + p.records) == rs + p.records;
  }

  /** Reading goes on after readable records as if they were not there. */
  lemma {:induction false} ParseAfter(crc: Checksum, rs: seq<Record>, rest: Bytes)
    requires AllFit(rs) && AllReadable(rs)
    ensures Parse(crc, EncodeAll(crc, rs) + rest) == Ahead(rs, Parse(crc, rest))
  {
    if rs == [] {
      assert EncodeAll(crc, rs) + rest == rest;
      assert rs + Parse(crc, rest).records == Parse(crc, rest).records;
    } else {
      var e, tail := Encode(crc, rs[0]), EncodeAll(crc, rs[1..]);
      Associate(e, tail, rest);
      ReadEncoded(crc, rs[0], tail + rest);
      assert (e + (tail + rest))[|e|..] == tail + rest;
      ParseAfter(crc, rs[1..], rest);
      AheadTail(rs, Parse(crc, rest));
    }
  }

  /** Corruption ends the reading of a file: the records before it are delivered, and the rest of
      the file, whatever it holds, is not. */
  lemma ParseCorrupt(crc: Checksum, rs: seq<Record>, rest: Bytes)
    requires AllFit(rs) && AllReadable(rs) && ReadOne(crc, rest) == Bad
    ensures Parse(crc, EncodeAll(crc, rs) + rest) == Parsed(rs, false)
  {
    ParseAfter(crc, rs, rest);
  }

  lemma {:induction false} EncodeCat(crc: Checksum, a: seq<Record>, b: seq<Record>)
    requires AllFit(a) && AllFit(b)
    ensures AllFit(a + b) && EncodeAll(crc, a + b) == EncodeAll(crc, a) + EncodeAll(crc, b)
  {
    if a == [] {
      assert a + b == b;
    } else {
      assert (a + b)[0] == a[0] && (a + b)[1..] == a[1..] + b;
      EncodeCat(crc, a[1..], b);
      Associate(Encode(crc, a[0]), EncodeAll(crc, a[1..]), EncodeAll(crc, b));
    }
  }

  lemma Associate(x: Bytes, y: Bytes, z: Bytes)
    ensures x + (y + z) == x + y + z
  {
  }

  lemma EncodeOne(crc: Checksum, r: Record)
    requires Fits(r)
    ensures EncodeAll(crc, [r]) == Encode(crc, r)
  {
    assert [r][1..] == [];
  }
}
