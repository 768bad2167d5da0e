/** Raw protocol data: byte sequences and the big-endian integer fields the
    protocol files are built from. A read fails when the data is too short. */
module RawData {

  type Byte = x: int | 0 <= x < 0x100
  type Bytes = seq<Byte>
  type UInt16 = x: int | 0 <= x < 0x1_0000
  type Int16 = x: int | -0x8000 <= x < 0x8000

  const TWO_TO_THE_16: int := 0x1_0000
  const TWO_TO_THE_32: int := 0x1_0000_0000

  datatype Option<+T> = None | Some(value: T)

  /** The result of reading one field: the value and the data behind it. */
  datatype Parsed<+T> = Failed | Parsed(value: T, rest: Bytes)

  function Zeros(n: nat): (r: Bytes)
    ensures |r| == n
  {
    seq(n, _ => 0)
  }

  /** Overwrites a part of a buffer in place. */
  function Patch(raw: Bytes, at: nat, field: Bytes): (r: Bytes)
    requires at + |field| <= |raw|
    ensures |r| == |raw|
  {
    raw[..at] + field + raw[at + |field|..]
  }

  /** Room at the end of a buffer, patched afterwards, is the field itself. */
  lemma PatchedLast(raw: Bytes, field: Bytes)
    ensures Patch(raw + Zeros(|field|), |raw|, field) == raw + field
  {
  }

  lemma PatchedThrice(raw: Bytes, a: Bytes, b: Bytes, c: Bytes)
    requires |a| == 2 && |b| == 2 && |c| == 2
    ensures Patch(Patch(Patch(raw + Zeros(6), |raw|, a), |raw| + 2, b), |raw| + 4, c) == raw + a + b + c
  {
  }

  lemma ZerosJoined(m: nat, n: nat)
    ensures Zeros(m + n) == Zeros(m) + Zeros(n)
  {
  }

  function PutU16(n: UInt16): (r: Bytes)
    ensures |r| == 2
  {
    [n / 0x100, n % 0x100]
  }

  function GetU16(bs: Bytes): Parsed<UInt16> {
    if |bs| < 2 then Failed else Parsed(bs[0] as int * 0x100 + bs[1] as int, bs[2..])
  }

  function PutI16(n: Int16): (r: Bytes)
    ensures |r| == 2
  {
    PutU16(if n < 0 then n + TWO_TO_THE_16 else n)
  }

  function GetI16(bs: Bytes): Parsed<Int16> {
    match GetU16(bs)
    case Failed => Failed
    case Parsed(n, rest) => Parsed(if n >= 0x8000 then n - TWO_TO_THE_16 else n, rest)
  }

  /** A 32-bit field; larger sizes are truncated by the cast that precedes the write. */
  function PutU32(n: nat): (r: Bytes)
    ensures |r| == 4
  {
    var m := n % TWO_TO_THE_32;
    PutU16(m / TWO_TO_THE_16) + PutU16(m % TWO_TO_THE_16)
  }

  function GetU32(bs: Bytes): Parsed<nat> {
    if |bs| < 4 then Failed
    else Parsed(GetU16(bs).value * TWO_TO_THE_16 + GetU16(bs[2..]).value, bs[4..])
  }

  /** The most significant byte comes first, and a signed integer is in two's complement. */
  lemma IntegersOfBytes(bs: Bytes)
    ensures |bs| >= 2 ==>
              var n := bs[0] as int * 256 + bs[1] as int;
              && GetU16(bs) == Parsed(n, bs[2..])
              && GetI16(bs) == Parsed(if bs[0] < 0x80 then n else n - 65536, bs[2..])
    ensures |bs| >= 4 ==>
              GetU32(bs)
              == Parsed(((bs[0] as int * 256 + bs[1] as int) * 256 + bs[2] as int) * 256 + bs[3] as int, bs[4..])
    ensures |bs| < 2 ==> GetU16(bs).Failed? && GetI16(bs).Failed?
    ensures |bs| < 4 ==> GetU32(bs).Failed?
  {
  }

  lemma BytesOfIntegers(n: UInt16, i: Int16, size: nat)
    ensures PutU16(n) == [n / 256, n % 256]
    ensures PutI16(i) == PutU16(if i < 0 then i + 65536 else i)
    ensures PutU32(size) == [size / 16777216 % 256, size / 65536 % 256, size / 256 % 256, size % 256]
  {
    var d, n2 := size % 256, size / 256;
    var c, n3 := n2 % 256, n2 / 256;
    var b, n4 := n3 % 256, n3 / 256;
    FourQuotients(size, n4 / 256, n4 % 256, b, c, d);
    FourBytes(size, n4 / 256, n4 % 256, b, c, d);
  }

  lemma FourQuotients(n: nat, q: nat, a: Byte, b: Byte, c: Byte, d: Byte)
    requires n == (((q * 256 + a) * 256 + b) * 256 + c) * 256 + d
    ensures n / 256 % 256 == c && n / 65536 % 256 == b && n / 16777216 % 256 == a
  {
    var n4 := q * 256 + a;
    var n3 := n4 * 256 + b;
    By16Bits(n, n3, c * 256 + d);
    By24Bits(n, n4, (b * 256 + c) * 256 + d);
  }

  lemma FourBytes(n: nat, q: nat, a: Byte, b: Byte, c: Byte, d: Byte)
    requires n == (((q * 256 + a) * 256 + b) * 256 + c) * 256 + d
    ensures PutU32(n) == [a, b, c, d]
  {
    var low := ((a * 256 + b) * 256 + c) * 256 + d;
    By32Bits(n, q, low);
    By16Bits(low, a * 256 + b, c * 256 + d);
  }

  lemma By16Bits(n: nat, q: nat, r: nat)
    requires n == q * 65536 + r && r < 65536
    ensures n / 65536 == q && n % 65536 == r
  {
  }

  lemma By24Bits(n: nat, q: nat, r: nat)
    requires n == q * 16777216 + r && r < 16777216
    ensures n / 16777216 == q
  {
  }

  lemma By32Bits(n: nat, q: nat, r: nat)
    requires n == q * TWO_TO_THE_32 + r && r < TWO_TO_THE_32
    ensures n % TWO_TO_THE_32 == r
  {
  }

  lemma U16RoundTrip(n: UInt16, rest: Bytes)
    ensures GetU16(PutU16(n) + rest) == Parsed(n, rest)
  {
  }

  lemma U16Reprinted(bs: Bytes)
    requires |bs| >= 2
    ensures PutU16(GetU16(bs).value) == bs[..2]
  {
  }

  lemma I16RoundTrip(n: Int16, rest: Bytes)
    ensures GetI16(PutI16(n) + rest) == Parsed(n, rest)
  {
  }

  lemma I16Reprinted(bs: Bytes)
    requires |bs| >= 2
    ensures PutI16(GetI16(bs).value) == bs[..2]
  {
  }

  lemma U32RoundTrip(n: nat, rest: Bytes)
    ensures GetU32(PutU32(n) + rest) == Parsed(n % TWO_TO_THE_32, rest)
  {
  }

  lemma U32Reprinted(bs: Bytes)
    requires |bs| >= 4
    ensures PutU32(GetU32(bs).value) == bs[..4]
  {
    U16Reprinted(bs);
    U16Reprinted(bs[2..]);
    var hi, lo := GetU16(bs).value, GetU16(bs[2..]).value;
    var n := hi * TWO_TO_THE_16 + lo;
    assert n % TWO_TO_THE_32 == n && n / TWO_TO_THE_16 == hi && n % TWO_TO_THE_16 == lo;
    assert bs[..4] == bs[..2] + bs[2..][..2];
  }
}
