/** The packet byte cursor: primitive writers append bytes to a growing buffer, primitive readers
    consume a prefix of the unread bytes and fail with `TruncatedInput` when too few remain.
    A packet is a `seq<byte>`; its `size()` is the sequence length. A writer here returns the
    bytes it appends, so a packet written field by field is the concatenation of the writers'
    results, and a reader returns its value together with the bytes after it. */
module Cursor {
  import opened Wrappers
  import Octets

  type byte = bv8

  /** A value read from the buffer and the unread bytes that follow it. */
  datatype Parsed<+T> = Parsed(value: T, rest: seq<byte>)

  /** An IPv4 (4 address bytes) or IPv6 (16 address bytes) socket address. */
  datatype Address = Address(ip: seq<byte>, port: int)

  const ADDRESS_VERSION_IPV4: int := 4
  const ADDRESS_VERSION_IPV6: int := 6
  const ADDRESS_VERSION_IPV4_LENGTH: nat := 4
  const ADDRESS_VERSION_IPV6_LENGTH: nat := 16
  const ADDRESS_VERSION_IPV6_MYSTERY_LENGTH: nat := 10

  /** The 16-byte marker that identifies offline (handshake) messages. */
  const MAGIC: seq<byte> :=
    [0x00, 0xFF, 0xFF, 0x00, 0xFE, 0xFE, 0xFE, 0xFE, 0xFD, 0xFD, 0xFD, 0xFD, 0x12, 0x34, 0x56, 0x78]

  // ---------------------------------------------------------------------------------------------
  // Bytes and Java integer widths

  /** The low eight bits of `x`: Java's `(byte) x` read as an unsigned byte. */
  function ByteOf(x: int): byte {
    (x % 256) as bv8
  }

  /** A byte as an unsigned value (`b & 0xFF`). */
  function Unsigned(b: byte): (v: int)
    ensures 0 <= v < 256
  {
    b as int
  }

  lemma ByteOfValue(x: int)
    ensures Unsigned(ByteOf(x)) == x % 256
  {
    Octets.RoundTrip(x % 256);
  }


  function Pow256(n: nat): (p: int)
    ensures p >= 1
  {
    if n == 0 then 1 else 256 * Pow256(n - 1)
  }

  /** Reinterprets an unsigned `n`-byte value as two's complement (Java's signed reads). */
  function Signed(u: int, n: nat): int {
    if 2 * u >= Pow256(n) then u - Pow256(n) else u
  }

  predicate IsJavaByte(x: int) { -0x80 <= x < 0x80 }
  predicate IsJavaShort(x: int) { -0x8000 <= x < 0x8000 }
  predicate IsJavaInt(x: int) { -0x8000_0000 <= x < 0x8000_0000 }
  predicate IsJavaLong(x: int) { -0x8000_0000_0000_0000 <= x < 0x8000_0000_0000_0000 }

  /** Java's narrowing cast `(byte) x`: the low eight bits, read as two's complement. */
  function ToJavaByte(x: int): (b: int)
    ensures IsJavaByte(b)
    ensures IsJavaByte(x) ==> b == x
  {
    assert Pow256(1) == 256;
    if IsJavaByte(x) then SignedOfWrapped(x, 1); Signed(x % 256, 1)
    else Signed(x % 256, 1)
  }

  // ---------------------------------------------------------------------------------------------
  // Arithmetic facts behind every multi-byte round trip

  /** Euclidean remainder is determined by any quotient/remainder decomposition. */
  lemma ModUnique(x: int, d: int, k: int, t: int)
    requires d > 0 && 0 <= t < d && x == d * k + t
    ensures x % d == t && x / d == k
  {
    var q, r := x / d, x % d;
    assert x == d * q + r;
    assert d * (q - k) == t - r;
    if q - k >= 1 {
      MulAtLeast(d, q - k);
      assert false;
    } else if k - q >= 1 {
      MulAtLeast(d, k - q);
      assert false;
    }
  }

  lemma MulAtLeast(d: int, k: int)
    requires d > 0 && k >= 1
    ensures d * k >= d
  {
  }

  lemma MulNonNegative(a: int, b: int)
    requires a >= 0 && b >= 0
    ensures a * b >= 0
  {
  }

  /** A value is its own remainder exactly when it already lies in the field's range. */
  lemma ModIdentity(x: int, m: int)
    requires m > 0
    ensures x % m == x <==> 0 <= x < m
  {
    if 0 <= x < m {
      ModUnique(x, m, 0, x);
    }
  }

  /** Splitting off the low digit in base `d` of a number taken modulo `d * m`. */
  lemma ModSplit(x: int, d: int, m: int)
    requires d > 0 && m > 0
    ensures ((x / d) % m) * d + x % d == x % (d * m)
  {
    var q, r := x / d, x % d;
    var q2, qm := q / m, q % m;
    var low := qm * d + r;
    Regroup(x, d, m, q, r, q2, qm);
    DigitBound(qm, m, d);
    ModUnique(x, d * m, q2, low);
  }

  /** `x = d*q + r` with `q = m*q2 + qm` regroups as `x = (d*m)*q2 + (qm*d + r)`. */
  lemma Regroup(x: int, d: int, m: int, q: int, r: int, q2: int, qm: int)
    requires x == d * q + r && q == m * q2 + qm
    ensures x == (d * m) * q2 + (qm * d + r)
  {
    assert d * q == d * (m * q2) + d * qm;
    assert d * (m * q2) == (d * m) * q2;
  }

  /** A digit below `m` scaled by `d` leaves room below `d * m` for a remainder below `d`. */
  lemma DigitBound(qm: int, m: int, d: int)
    requires 0 <= qm < m && d > 0
    ensures 0 <= qm * d && qm * d + d <= d * m
  {
    MulNonNegative(qm, d);
    MulNonNegative(m - 1 - qm, d);
    assert (m - 1 - qm) * d == m * d - qm * d - d;
  }

  // ---------------------------------------------------------------------------------------------
  // Generic big- and little-endian encodings

  /** The low `n` bytes of `x`, most significant first (Java's arithmetic shifts and masks). */
  function BE(n: nat, x: int): (r: seq<byte>)
    ensures |r| == n
  {
    if n == 0 then [] else BE(n - 1, x / 256) + [ByteOf(x)]
  }

  /** The unsigned value of a big-endian byte run. */
  function FromBE(b: seq<byte>): (v: int)
    ensures 0 <= v < Pow256(|b|)
  {
    if |b| == 0 then 0 else FromBE(b[..|b| - 1]) * 256 + Unsigned(b[|b| - 1])
  }

  /** The low `n` bytes of `x`, least significant first. */
  function LE(n: nat, x: int): (r: seq<byte>)
    ensures |r| == n
  {
    if n == 0 then [] else [ByteOf(x)] + LE(n - 1, x / 256)
  }

  /** The unsigned value of a little-endian byte run. */
  function FromLE(b: seq<byte>): (v: int)
    ensures 0 <= v < Pow256(|b|)
  {
    if |b| == 0 then 0 else Unsigned(b[0]) + 256 * FromLE(b[1..])
  }

  /** Big-endian decoding undoes big-endian encoding modulo the field width. */
  lemma {:induction false} FromBEOfBE(n: nat, x: int)
    ensures FromBE(BE(n, x)) == x % Pow256(n)
  {
    if n > 0 {
      var b := BE(n, x);
      assert b[..n - 1] == BE(n - 1, x / 256);
      FromBEOfBE(n - 1, x / 256);
      ByteOfValue(x);
      ModSplit(x, 256, Pow256(n - 1));
    }
  }

  /** Little-endian decoding undoes little-endian encoding modulo the field width. */
  lemma {:induction false} FromLEOfLE(n: nat, x: int)
    ensures FromLE(LE(n, x)) == x % Pow256(n)
  {
    if n > 0 {
      var b := LE(n, x);
      assert b[1..] == LE(n - 1, x / 256);
      FromLEOfLE(n - 1, x / 256);
      ByteOfValue(x);
      ModSplit(x, 256, Pow256(n - 1));
    }
  }

  /** A Java value of the field's signed width survives encoding and signed decoding. */
  lemma SignedOfWrapped(x: int, n: nat)
    requires -Pow256(n) <= 2 * x < Pow256(n)
    ensures Signed(x % Pow256(n), n) == x
  {
    if x < 0 {
      ModUnique(x, Pow256(n), -1, x + Pow256(n));
    } else {
      ModUnique(x, Pow256(n), 0, x);
    }
  }

  // ---------------------------------------------------------------------------------------------
  // Writers: the bytes each write appends

  /** `(byte) b`: the low eight bits of `b`. */
  function WriteByte(b: int): (r: seq<byte>)
    ensures |r| == 1
  {
    [ByteOf(b)]
  }

  /** The unsigned writer: masking with `& 0xFF` after the cast keeps the same low bytes, so it
      writes the same bytes as `writeByte` writes. */
  function WriteUByte(b: int): (r: seq<byte>)
    ensures |r| == 1
  {
    [ByteOf(b)]
  }

  /** One byte, non-zero exactly for `true`. */
  function WriteBoolean(b: bool): (r: seq<byte>)
    ensures |r| == 1 && (r[0] != 0 <==> b)
  {
    [if b then 0x01 else 0x00]
  }

  /** The multi-byte writers keep the low bytes of the value, most significant first unless the
      name ends in LE; the signed and unsigned writers of one width write the same bytes. */
  function WriteShort(s: int): (r: seq<byte>)
    ensures |r| == 2
  {
    BE(2, s)
  }

  function WriteShortLE(s: int): (r: seq<byte>)
    ensures |r| == 2
  {
    LE(2, s)
  }

  /** The unsigned writer: masking with `& 0xFFFF` after the cast keeps the same low bytes, so it
      writes the same bytes as `writeShort` writes. */
  function WriteUShort(s: int): (r: seq<byte>)
    ensures |r| == 2
  {
    BE(2, s)
  }

  /** The unsigned writer: masking with `& 0xFFFF` after the cast keeps the same low bytes, so it
      writes the same bytes as `writeShortLE` writes. */
  function WriteUShortLE(s: int): (r: seq<byte>)
    ensures |r| == 2
  {
    LE(2, s)
  }

  function WriteTriadLE(t: int): (r: seq<byte>)
    ensures |r| == 3
  {
    LE(3, t)
  }

  function WriteInt(i: int): (r: seq<byte>)
    ensures |r| == 4
  {
    BE(4, i)
  }

  /** The unsigned writer: masking with `& 0xFFFFFFFF` after the cast keeps the same low bytes, so it
      writes the same bytes as `writeInt` writes. */
  function WriteUInt(i: int): (r: seq<byte>)
    ensures |r| == 4
  {
    BE(4, i)
  }

  function WriteIntLE(i: int): (r: seq<byte>)
    ensures |r| == 4
  {
    LE(4, i)
  }

  /** The unsigned writer: masking with `& 0xFFFFFFFF` after the cast keeps the same low bytes, so it
      writes the same bytes as `writeIntLE` writes. */
  function WriteUIntLE(i: int): (r: seq<byte>)
    ensures |r| == 4
  {
    LE(4, i)
  }

  function WriteLong(l: int): (r: seq<byte>)
    ensures |r| == 8
  {
    BE(8, l)
  }

  function WriteLongLE(l: int): (r: seq<byte>)
    ensures |r| == 8
  {
    LE(8, l)
  }

  function WriteMagic(): (r: seq<byte>)
    ensures |r| == 16
  {
    MAGIC
  }

  /** A string's bytes prefixed by their count as an unsigned big-endian short. */
  function WriteString(data: seq<byte>): (r: seq<byte>)
    ensures |r| == 2 + |data| && r[2..] == data
  {
    WriteUShort(|data|) + data
  }

  /** The same with the count little-endian. */
  function WriteStringLE(data: seq<byte>): (r: seq<byte>)
    ensures |r| == 2 + |data| && r[2..] == data
  {
    WriteUShortLE(|data|) + data
  }

  /** The one-byte writers keep the low eight bits of their argument; a boolean is written as a
      byte that is non-zero exactly for `true`. */
  lemma WrittenByte(b: int)
    ensures Unsigned(WriteByte(b)[0]) == b % 256 && Unsigned(WriteUByte(b)[0]) == b % 256
  {
    ByteOfValue(b);
  }

  /** The 16-bit writers keep the low two bytes of their argument, big-endian or little-endian as
      named; the signed and unsigned writers write the same bytes. */
  lemma WrittenShort(x: int)
    ensures FromBE(WriteShort(x)) == x % 0x1_0000 && FromBE(WriteUShort(x)) == x % 0x1_0000
    ensures FromLE(WriteShortLE(x)) == x % 0x1_0000 && FromLE(WriteUShortLE(x)) == x % 0x1_0000
  {
    FromBEOfBE(2, x);
    FromLEOfLE(2, x);
    assert Pow256(2) == 0x1_0000;
  }

  /** `writeTriadLE` keeps the low three bytes, least significant first. */
  lemma WrittenTriad(x: int)
    ensures FromLE(WriteTriadLE(x)) == x % 0x100_0000
  {
    FromLEOfLE(3, x);
    assert Pow256(3) == 0x100_0000;
  }

  /** The 32-bit writers keep the low four bytes of their argument. */
  lemma WrittenInt(x: int)
    ensures FromBE(WriteInt(x)) == x % 0x1_0000_0000 && FromBE(WriteUInt(x)) == x % 0x1_0000_0000
    ensures FromLE(WriteIntLE(x)) == x % 0x1_0000_0000 && FromLE(WriteUIntLE(x)) == x % 0x1_0000_0000
  {
    FromBEOfBE(4, x);
    FromLEOfLE(4, x);
    assert Pow256(4) == 0x1_0000_0000;
  }

  /** The 64-bit writers keep the low eight bytes of their argument. */
  lemma WrittenLong(x: int)
    ensures FromBE(WriteLong(x)) == x % 0x1_0000_0000_0000_0000
    ensures FromLE(WriteLongLE(x)) == x % 0x1_0000_0000_0000_0000
  {
    FromBEOfBE(8, x);
    FromLEOfLE(8, x);
    assert Pow256(8) == 0x1_0000_0000_0000_0000;
  }

  /** A string is written as its byte count, cut to an unsigned 16-bit value, followed by its
      bytes. */
  lemma WrittenString(data: seq<byte>)
    ensures FromBE(WriteString(data)[..2]) == |data| % 0x1_0000
    ensures FromLE(WriteStringLE(data)[..2]) == |data| % 0x1_0000
  {
    WrittenShort(|data|);
    assert WriteString(data)[..2] == WriteUShort(|data|);
    assert WriteStringLE(data)[..2] == WriteUShortLE(|data|);
  }

  /** `length` zero bytes; a length of zero or less writes nothing. */
  function Pad(length: int): (r: seq<byte>)
    ensures |r| == (if length <= 0 then 0 else length) && forall i :: 0 <= i < |r| ==> r[i] == 0
  {
    if length <= 0 then [] else seq(length, _ => 0)
  }

  /** Every byte complemented ("flipped unsigned" bytes of an address). */
  function WriteCFU(data: seq<byte>): (r: seq<byte>)
    ensures |r| == |data| && forall i :: 0 <= i < |data| ==> r[i] == !data[i]
  {
    seq(|data|, i requires 0 <= i < |data| => !data[i])
  }

  /** An address: version byte, complemented address bytes, (IPv6 only) ten zero bytes, port. */
  function WriteAddress(a: Address): (r: Result<seq<byte>, Error>)
    ensures r.Success? <==> |a.ip| == 4 || |a.ip| == 16
  {
    if |a.ip| == ADDRESS_VERSION_IPV4_LENGTH then
      Success(WriteUByte(ADDRESS_VERSION_IPV4) + WriteCFU(a.ip) + WriteUShort(a.port))
    else if |a.ip| == ADDRESS_VERSION_IPV6_LENGTH then
      Success(WriteUByte(ADDRESS_VERSION_IPV6) + WriteCFU(a.ip) + Pad(ADDRESS_VERSION_IPV6_MYSTERY_LENGTH)
              + WriteUShort(a.port))
    else
      Failure(UnknownAddressVersion)
  }

  // ---------------------------------------------------------------------------------------------
  // Readers

  /** The next `length` bytes. */
  function Read(input: seq<byte>, length: nat): (r: Result<Parsed<seq<byte>>, Error>)
    ensures r.Success? <==> length <= |input|
    ensures r.Success? ==> r.value.value + r.value.rest == input && |r.value.value| == length
  {
    if length <= |input| then Success(Parsed(input[..length], input[length..])) else Failure(TruncatedInput)
  }

  function ReadByte(input: seq<byte>): (r: Result<Parsed<int>, Error>)
    ensures r.Success? <==> |input| >= 1
    ensures r.Success? ==> IsJavaByte(r.value.value) && r.value.rest == input[1..]
  {
    var b :- Read(input, 1);
    Success(Parsed(Signed(Unsigned(b.value[0]), 1), b.rest))
  }

  function ReadUByte(input: seq<byte>): (r: Result<Parsed<int>, Error>)
    ensures r.Success? <==> |input| >= 1
    ensures r.Success? ==> 0 <= r.value.value < 256 && r.value.rest == input[1..]
  {
    var b :- Read(input, 1);
    Success(Parsed(Unsigned(b.value[0]), b.rest))
  }

  /** Any non-zero byte reads as true. */
  function ReadBoolean(input: seq<byte>): (r: Result<Parsed<bool>, Error>)
    ensures r.Success? <==> |input| >= 1
    ensures r.Success? ==> (r.value.value <==> input[0] != 0) && r.value.rest == input[1..]
  {
    var b :- ReadUByte(input);
    Success(Parsed(b.value > 0x00, b.rest))
  }

  function ReadShort(input: seq<byte>): (r: Result<Parsed<int>, Error>)
    ensures r.Success? <==> |input| >= 2
    ensures r.Success? ==> IsJavaShort(r.value.value) && r.value.rest == input[2..]
  {
    var b :- Read(input, 2);
    Success(Parsed(Signed(FromBE(b.value), 2), b.rest))
  }

  function ReadShortLE(input: seq<byte>): (r: Result<Parsed<int>, Error>)
    ensures r.Success? <==> |input| >= 2
    ensures r.Success? ==> IsJavaShort(r.value.value) && r.value.rest == input[2..]
  {
    var b :- Read(input, 2);
    Success(Parsed(Signed(FromLE(b.value), 2), b.rest))
  }

  function ReadUShort(input: seq<byte>): (r: Result<Parsed<int>, Error>)
    ensures r.Success? <==> |input| >= 2
    ensures r.Success? ==> 0 <= r.value.value < 0x1_0000 && r.value.rest == input[2..]
  {
    var b :- Read(input, 2);
    Success(Parsed(FromBE(b.value), b.rest))
  }

  function ReadUShortLE(input: seq<byte>): (r: Result<Parsed<int>, Error>)
    ensures r.Success? <==> |input| >= 2
    ensures r.Success? ==> 0 <= r.value.value < 0x1_0000 && r.value.rest == input[2..]
  {
    var b :- Read(input, 2);
    Success(Parsed(FromLE(b.value), b.rest))
  }

  /** Three bytes, least significant first; only the low four bits of the third byte are kept. */
  function ReadTriadLE(input: seq<byte>): (r: Result<Parsed<int>, Error>)
    ensures r.Success? <==> |input| >= 3
    ensures r.Success? ==> 0 <= r.value.value < 0x10_0000 && r.value.rest == input[3..]
  {
    var b :- Read(input, 3);
    Success(Parsed(Unsigned(b.value[0]) + 256 * Unsigned(b.value[1]) + 0x1_0000 * Unsigned(b.value[2] & 0x0F),
                   b.rest))
  }

  function ReadInt(input: seq<byte>): (r: Result<Parsed<int>, Error>)
    ensures r.Success? <==> |input| >= 4
    ensures r.Success? ==> IsJavaInt(r.value.value) && r.value.rest == input[4..]
  {
    var b :- Read(input, 4);
    Success(Parsed(Signed(FromBE(b.value), 4), b.rest))
  }

  function ReadIntLE(input: seq<byte>): (r: Result<Parsed<int>, Error>)
    ensures r.Success? <==> |input| >= 4
    ensures r.Success? ==> IsJavaInt(r.value.value) && r.value.rest == input[4..]
  {
    var b :- Read(input, 4);
    Success(Parsed(Signed(FromLE(b.value), 4), b.rest))
  }

  function ReadUInt(input: seq<byte>): (r: Result<Parsed<int>, Error>)
    ensures r.Success? <==> |input| >= 4
    ensures r.Success? ==> 0 <= r.value.value < 0x1_0000_0000 && r.value.rest == input[4..]
  {
    var b :- Read(input, 4);
    Success(Parsed(FromBE(b.value), b.rest))
  }

  function ReadUIntLE(input: seq<byte>): (r: Result<Parsed<int>, Error>)
    ensures r.Success? <==> |input| >= 4
    ensures r.Success? ==> 0 <= r.value.value < 0x1_0000_0000 && r.value.rest == input[4..]
  {
    var b :- Read(input, 4);
    Success(Parsed(FromLE(b.value), b.rest))
  }

  function ReadLong(input: seq<byte>): (r: Result<Parsed<int>, Error>)
    ensures r.Success? <==> |input| >= 8
    ensures r.Success? ==> IsJavaLong(r.value.value) && r.value.rest == input[8..]
  {
    var b :- Read(input, 8);
    Success(Parsed(Signed(FromBE(b.value), 8), b.rest))
  }

  function ReadLongLE(input: seq<byte>): (r: Result<Parsed<int>, Error>)
    ensures r.Success? <==> |input| >= 8
    ensures r.Success? ==> IsJavaLong(r.value.value) && r.value.rest == input[8..]
  {
    var b :- Read(input, 8);
    Success(Parsed(Signed(FromLE(b.value), 8), b.rest))
  }

  /** Consumes `|MAGIC|` bytes and reports whether they are the marker. */
  function CheckMagic(input: seq<byte>): (r: Result<Parsed<bool>, Error>)
    ensures r.Success? <==> |input| >= |MAGIC|
    ensures r.Success? ==> (r.value.value <==> input[..|MAGIC|] == MAGIC) && r.value.rest == input[|MAGIC|..]
  {
    var b :- Read(input, |MAGIC|);
    Success(Parsed(b.value == MAGIC, b.rest))
  }

  /** A string's bytes after their unsigned big-endian short count. */
  function ReadString(input: seq<byte>): (r: Result<Parsed<seq<byte>>, Error>)
    ensures r.Success? <==> |input| >= 2 && |input| - 2 >= FromBE(input[..2])
    ensures r.Success? ==> |r.value.value| == FromBE(input[..2])
                           && input == input[..2] + r.value.value + r.value.rest
  {
    var len :- ReadUShort(input);
    Read(len.rest, len.value)
  }

  function ReadStringLE(input: seq<byte>): (r: Result<Parsed<seq<byte>>, Error>)
    ensures r.Success? <==> |input| >= 2 && |input| - 2 >= FromLE(input[..2])
    ensures r.Success? ==> |r.value.value| == FromLE(input[..2])
                           && input == input[..2] + r.value.value + r.value.rest
  {
    var len :- ReadUShortLE(input);
    Read(len.rest, len.value)
  }

  /** The loop of `readCFU` as written: iteration `i` stores the complement of byte `i` of `src`
      into index 0 of `data`, so every iteration overwrites the same slot. */
  function CFULoop(src: seq<byte>, data: seq<byte>, i: nat): (r: seq<byte>)
    requires i <= |src| == |data|
    ensures |r| == |data|
    ensures i < |src| ==> r[0] == !src[|src| - 1]
    ensures forall k :: 0 < k < |data| ==> r[k] == data[k]
    ensures i == |src| ==> r == data
    decreases |src| - i
  {
    if i == |src| then data else CFULoop(src, data[0 := !src[i]], i + 1)
  }

  /** `readCFU(length)` as written: reads `length` bytes into a zeroed array through `CFULoop`. */
  function ReadCFU(input: seq<byte>, length: nat): (r: Result<Parsed<seq<byte>>, Error>)
    ensures r.Success? <==> length <= |input|
    ensures r.Success? ==> |r.value.value| == length && r.value.rest == input[length..]
    ensures r.Success? && length > 0 ==> r.value.value[0] == !input[length - 1]
    ensures r.Success? ==> forall k :: 0 < k < length ==> r.value.value[k] == 0
  {
    var b :- Read(input, length);
    Success(Parsed(CFULoop(b.value, Pad(length), 0), b.rest))
  }

  /** `readCFU(length)` as evidently intended: byte `i` of the result is the complement of byte `i` read. */
  function ReadCFUCorrected(input: seq<byte>, length: nat): (r: Result<Parsed<seq<byte>>, Error>)
    ensures r.Success? <==> length <= |input|
    ensures r.Success? ==> r.value.rest == input[length..]
    ensures r.Success? ==> |r.value.value| == length
                           && forall i :: 0 <= i < length ==> r.value.value[i] == !input[i]
  {
    var b :- Read(input, length);
    Success(Parsed(seq(length, i requires 0 <= i < length => !b.value[i]), b.rest))
  }

  /** `readAddress` as written, on top of `ReadCFU`. */
  function ReadAddress(input: seq<byte>): (r: Result<Parsed<Address>, Error>)
    ensures r.Success? ==> |input| >= 1 && (input[0] == 4 || input[0] == 6)
    ensures r.Success? ==> |r.value.value.ip| == (if input[0] == 4 then 4 else 16)
    ensures r.Success? ==> 0 <= r.value.value.port < 0x1_0000
  {
    var version :- ReadUByte(input);
    if version.value == ADDRESS_VERSION_IPV4 then
      var ip :- ReadCFU(version.rest, ADDRESS_VERSION_IPV4_LENGTH);
      var port :- ReadUShort(ip.rest);
      Success(Parsed(Address(ip.value, port.value), port.rest))
    else if version.value == ADDRESS_VERSION_IPV6 then
      var ip :- ReadCFU(version.rest, ADDRESS_VERSION_IPV6_LENGTH);
      var mystery :- Read(ip.rest, ADDRESS_VERSION_IPV6_MYSTERY_LENGTH);
      var port :- ReadUShort(mystery.rest);
      Success(Parsed(Address(ip.value, port.value), port.rest))
    else
      Failure(UnknownAddressVersion)
  }

  /** `readAddress` with the corrected complemented-byte reader. */
  function ReadAddressCorrected(input: seq<byte>): (r: Result<Parsed<Address>, Error>)
    ensures r.Success? ==> |input| >= 1 && (input[0] == 4 || input[0] == 6)
    ensures r.Success? ==> 0 <= r.value.value.port < 0x1_0000
  {
    var version :- ReadUByte(input);
    if version.value == ADDRESS_VERSION_IPV4 then
      var ip :- ReadCFUCorrected(version.rest, ADDRESS_VERSION_IPV4_LENGTH);
      var port :- ReadUShort(ip.rest);
      Success(Parsed(Address(ip.value, port.value), port.rest))
    else if version.value == ADDRESS_VERSION_IPV6 then
      var ip :- ReadCFUCorrected(version.rest, ADDRESS_VERSION_IPV6_LENGTH);
      var mystery :- Read(ip.rest, ADDRESS_VERSION_IPV6_MYSTERY_LENGTH);
      var port :- ReadUShort(mystery.rest);
      Success(Parsed(Address(ip.value, port.value), port.rest))
    else
      Failure(UnknownAddressVersion)
  }

  // ---------------------------------------------------------------------------------------------
  // Round trips

  /** `writeUShort` then `readUShort` yields the value modulo 2^16, so exactly the unsigned shorts survive. */
  lemma UShortRoundTrip(s: int, rest: seq<byte>)
    ensures ReadUShort(WriteUShort(s) + rest) == Success(Parsed(s % 0x1_0000, rest))
    ensures ReadUShort(WriteUShort(s) + rest).value.value == s <==> 0 <= s < 0x1_0000
  {
    var input := WriteUShort(s) + rest;
    assert input[..2] == WriteUShort(s) && input[2..] == rest;
    FromBEOfBE(2, s);
    ModIdentity(s, 0x1_0000);
  }

  /** `writeUShortLE` then `readUShortLE` yields the value modulo 2^16. */
  lemma UShortLERoundTrip(s: int, rest: seq<byte>)
    ensures ReadUShortLE(WriteUShortLE(s) + rest) == Success(Parsed(s % 0x1_0000, rest))
    ensures ReadUShortLE(WriteUShortLE(s) + rest).value.value == s <==> 0 <= s < 0x1_0000
  {
    var input := WriteUShortLE(s) + rest;
    assert input[..2] == WriteUShortLE(s) && input[2..] == rest;
    FromLEOfLE(2, s);
    ModIdentity(s, 0x1_0000);
  }

  /** A Java short survives `writeShort`/`readShort` and their little-endian twins. */
  lemma ShortRoundTrip(s: int, rest: seq<byte>)
    requires IsJavaShort(s)
    ensures ReadShort(WriteShort(s) + rest) == Success(Parsed(s, rest))
    ensures ReadShortLE(WriteShortLE(s) + rest) == Success(Parsed(s, rest))
  {
    var input := WriteShort(s) + rest;
    assert input[..2] == WriteShort(s) && input[2..] == rest;
    var inputLE := WriteShortLE(s) + rest;
    assert inputLE[..2] == WriteShortLE(s) && inputLE[2..] == rest;
    FromBEOfBE(2, s);
    FromLEOfLE(2, s);
    SignedOfWrapped(s, 2);
  }

  /** `writeTriadLE` writes three bytes, low byte first; reading them back masks the third byte,
      so the value comes back modulo 2^20 and round-trips exactly for 0 <= t < 2^20. */
  lemma TriadRoundTrip(t: int, rest: seq<byte>)
    ensures |WriteTriadLE(t)| == 3
    ensures WriteTriadLE(t)[0] == ByteOf(t) && WriteTriadLE(t)[1] == ByteOf(t / 256)
            && WriteTriadLE(t)[2] == ByteOf(t / 256 / 256)
    ensures ReadTriadLE(WriteTriadLE(t) + rest) == Success(Parsed(t % 0x10_0000, rest))
    ensures ReadTriadLE(WriteTriadLE(t) + rest).value.value == t <==> 0 <= t < 0x10_0000
  {
    var q := t / 256;
    var q2 := q / 256;
    TriadLayout(t);
    TriadRead(ByteOf(t), ByteOf(q), ByteOf(q2), rest);
    ByteOfValue(t);
    ByteOfValue(q);
    ByteOfValue(q2);
    TriadArithmetic(t);
    ModIdentity(t, 0x10_0000);
  }

  /** The three bytes `writeTriadLE` writes, low byte first. */
  lemma TriadLayout(t: int)
    ensures WriteTriadLE(t) == [ByteOf(t), ByteOf(t / 256), ByteOf(t / 256 / 256)]
  {
    var q := t / 256;
    assert LE(2, q) == [ByteOf(q)] + LE(1, q / 256);
    assert LE(1, q / 256) == [ByteOf(q / 256)];
  }

  /** `readTriadLE` on three given bytes: the third contributes only its low four bits. */
  lemma TriadRead(b0: byte, b1: byte, b2: byte, rest: seq<byte>)
    ensures ReadTriadLE([b0, b1, b2] + rest)
            == Success(Parsed(Unsigned(b0) + 256 * Unsigned(b1) + 0x1_0000 * (Unsigned(b2) % 16), rest))
  {
    var input := [b0, b1, b2] + rest;
    assert input[..3] == [b0, b1, b2] && input[3..] == rest;
    MaskLowNibble(b2);
  }

  /** The masked little-endian triad value, as integer arithmetic. */
  lemma TriadArithmetic(t: int)
    ensures t % 256 + 256 * ((t / 256) % 256) + 0x1_0000 * (((t / 256 / 256) % 256) % 16) == t % 0x10_0000
  {
    ModSplit(t, 256, 256);
    DivDiv(t, 256, 256);
    var y := t / 0x1_0000;
    ModMod(y, 16, 16);
    ModSplit(t, 0x1_0000, 16);
  }

  /** Reducing modulo a multiple of `a` keeps the remainder modulo `a`. */
  lemma ModMod(y: int, a: int, b: int)
    requires a > 0 && b > 0
    ensures (y % (a * b)) % a == y % a
  {
    var bigK, bigR := y / (a * b), y % (a * b);
    var k, r := bigR / a, bigR % a;
    assert y == (a * b) * bigK + bigR;
    assert bigR == a * k + r;
    assert y == a * (b * bigK + k) + r;
    ModUnique(y, a, b * bigK + k, r);
  }

  lemma MaskLowNibble(b: byte)
    ensures Unsigned(b & 0x0F) == Unsigned(b) % 16
  {
  }

  /** Dividing twice is dividing by the product (Euclidean division, positive divisors). */
  lemma DivDiv(x: int, a: int, b: int)
    requires a > 0 && b > 0
    ensures x / a / b == x / (a * b)
  {
    var q := x / a;
    var q2 := q / b;
    var qm := q % b;
    assert x == a * q + x % a;
    assert q == b * q2 + qm;
    assert a * q == (a * b) * q2 + a * qm;
    assert a * qm <= a * (b - 1) by {
      assert a * (b - 1) - a * qm == a * (b - 1 - qm);
      MulNonNegative(a, b - 1 - qm);
    }
    assert a * (b - 1) == a * b - a;
    ModUnique(x, a * b, q2, a * qm + x % a);
  }

  /** A Java int survives `writeInt`/`readInt`; `readUInt` yields it modulo 2^32. */
  lemma IntRoundTrip(i: int, rest: seq<byte>)
    ensures ReadUInt(WriteInt(i) + rest) == Success(Parsed(i % 0x1_0000_0000, rest))
    ensures IsJavaInt(i) ==> ReadInt(WriteInt(i) + rest) == Success(Parsed(i, rest))
  {
    var input := WriteInt(i) + rest;
    assert input[..4] == WriteInt(i) && input[4..] == rest;
    FromBEOfBE(4, i);
    if IsJavaInt(i) {
      SignedOfWrapped(i, 4);
    }
  }

  /** A Java int survives `writeIntLE`/`readIntLE`; `readUIntLE` yields it modulo 2^32. */
  lemma IntLERoundTrip(i: int, rest: seq<byte>)
    ensures ReadUIntLE(WriteIntLE(i) + rest) == Success(Parsed(i % 0x1_0000_0000, rest))
    ensures IsJavaInt(i) ==> ReadIntLE(WriteIntLE(i) + rest) == Success(Parsed(i, rest))
  {
    var input := WriteIntLE(i) + rest;
    assert input[..4] == WriteIntLE(i) && input[4..] == rest;
    FromLEOfLE(4, i);
    if IsJavaInt(i) {
      SignedOfWrapped(i, 4);
    }
  }

  /** A Java long survives `writeLong`/`readLong` and `writeLongLE`/`readLongLE`. */
  lemma LongRoundTrip(l: int, rest: seq<byte>)
    requires IsJavaLong(l)
    ensures ReadLong(WriteLong(l) + rest) == Success(Parsed(l, rest))
    ensures ReadLongLE(WriteLongLE(l) + rest) == Success(Parsed(l, rest))
  {
    var input := WriteLong(l) + rest;
    assert input[..8] == WriteLong(l) && input[8..] == rest;
    var inputLE := WriteLongLE(l) + rest;
    assert inputLE[..8] == WriteLongLE(l) && inputLE[8..] == rest;
    FromBEOfBE(8, l);
    FromLEOfLE(8, l);
    SignedOfWrapped(l, 8);
  }

  /** `writeBoolean` writes 0x01 or 0x00 and `readBoolean` gives the value back. */
  lemma BooleanRoundTrip(b: bool, rest: seq<byte>)
    ensures WriteBoolean(b) == (if b then [0x01] else [0x00])
    ensures ReadBoolean(WriteBoolean(b) + rest) == Success(Parsed(b, rest))
  {
    assert (WriteBoolean(b) + rest)[1..] == rest;
  }

  /** A string of fewer than 2^16 bytes round-trips and the reader consumes exactly prefix and body. */
  lemma StringRoundTrip(data: seq<byte>, rest: seq<byte>)
    requires |data| < 0x1_0000
    ensures ReadString(WriteString(data) + rest) == Success(Parsed(data, rest))
    ensures ReadStringLE(WriteStringLE(data) + rest) == Success(Parsed(data, rest))
  {
    StringBERoundTrip(data, rest);
    StringLERoundTrip(data, rest);
  }

  lemma StringBERoundTrip(data: seq<byte>, rest: seq<byte>)
    requires |data| < 0x1_0000
    ensures ReadString(WriteString(data) + rest) == Success(Parsed(data, rest))
  {
    UShortRoundTrip(|data|, data + rest);
    assert WriteString(data) + rest == WriteUShort(|data|) + (data + rest);
    ReadBody(data, rest);
  }

  lemma StringLERoundTrip(data: seq<byte>, rest: seq<byte>)
    requires |data| < 0x1_0000
    ensures ReadStringLE(WriteStringLE(data) + rest) == Success(Parsed(data, rest))
  {
    UShortLERoundTrip(|data|, data + rest);
    assert WriteStringLE(data) + rest == WriteUShortLE(|data|) + (data + rest);
    ReadBody(data, rest);
  }

  /** Reading a run's own length off the front gives the run back. */
  lemma ReadBody(data: seq<byte>, rest: seq<byte>)
    ensures Read(data + rest, |data|) == Success(Parsed(data, rest))
  {
    assert (data + rest)[..|data|] == data && (data + rest)[|data|..] == rest;
  }

  /** A longer string's length prefix wraps: the reader takes only `|data| mod 2^16` bytes. */
  lemma LongStringIsCut(data: seq<byte>, rest: seq<byte>)
    requires |data| >= 0x1_0000
    ensures ReadString(WriteString(data) + rest)
            == Success(Parsed(data[..|data| % 0x1_0000], data[|data| % 0x1_0000..] + rest))
  {
    UShortRoundTrip(|data|, data + rest);
    assert WriteString(data) + rest == WriteUShort(|data|) + (data + rest);
    var n := |data| % 0x1_0000;
    assert (data + rest)[..n] == data[..n];
    assert (data + rest)[n..] == data[n..] + rest;
  }

  /** The magic marker written and checked is accepted and consumes exactly its length. */
  lemma MagicRoundTrip(rest: seq<byte>)
    ensures |WriteMagic()| == 16
    ensures CheckMagic(WriteMagic() + rest) == Success(Parsed(true, rest))
  {
    assert (WriteMagic() + rest)[..|MAGIC|] == MAGIC;
    assert (WriteMagic() + rest)[|MAGIC|..] == rest;
  }

  /** The corrected complemented-byte reader undoes `writeCFU`. */
  lemma CFUCorrectedRoundTrip(data: seq<byte>, rest: seq<byte>)
    ensures ReadCFUCorrected(WriteCFU(data) + rest, |data|) == Success(Parsed(data, rest))
  {
    var input := WriteCFU(data) + rest;
    assert input[..|data|] == WriteCFU(data) && input[|data|..] == rest;
    var r := ReadCFUCorrected(input, |data|).value.value;
    assert forall i :: 0 <= i < |data| ==> r[i] == data[i];
    assert r == data;
  }

  /** As written, reading back complemented bytes keeps only the last one, at index 0:
      the IPv4 address 127.0.0.1 is read back as 1.0.0.0. */
  lemma CFUAsWrittenLosesBytes(data: seq<byte>, rest: seq<byte>)
    requires |data| > 0
    ensures ReadCFU(WriteCFU(data) + rest, |data|)
            == Success(Parsed([data[|data| - 1]] + Pad(|data| - 1), rest))
    ensures ReadCFU(WriteCFU([127, 0, 0, 1]) + rest, 4) == Success(Parsed([1, 0, 0, 0], rest))
  {
    var input := WriteCFU(data) + rest;
    assert input[..|data|] == WriteCFU(data) && input[|data|..] == rest;
    var r := ReadCFU(input, |data|).value.value;
    assert r == [data[|data| - 1]] + Pad(|data| - 1);
    var ip: seq<byte> := [127, 0, 0, 1];
    var input2 := WriteCFU(ip) + rest;
    assert input2[..4] == WriteCFU(ip) && input2[4..] == rest;
    var r2 := ReadCFU(input2, 4).value.value;
    assert r2 == [1, 0, 0, 0];
  }

  /** With the corrected reader an address written by `writeAddress` is read back unchanged. */
  lemma AddressCorrectedRoundTrip(a: Address, rest: seq<byte>)
    requires |a.ip| == 4 || |a.ip| == 16
    requires 0 <= a.port < 0x1_0000
    ensures ReadAddressCorrected(WriteAddress(a).value + rest) == Success(Parsed(a, rest))
  {
    if |a.ip| == 4 {
      AddressV4CorrectedRoundTrip(a, rest);
    } else {
      AddressV6CorrectedRoundTrip(a, rest);
    }
  }

  lemma AddressV4CorrectedRoundTrip(a: Address, rest: seq<byte>)
    requires |a.ip| == 4 && 0 <= a.port < 0x1_0000
    ensures ReadAddressCorrected(WriteAddress(a).value + rest) == Success(Parsed(a, rest))
  {
    var tail := WriteUShort(a.port) + rest;
    var body := WriteCFU(a.ip) + tail;
    AddressV4Layout(a, rest);
    VersionByte(4, body);
    CFUCorrectedRoundTrip(a.ip, tail);
    PortRoundTrip(a.port, rest);
    AddressV4Steps(WriteAddress(a).value + rest, body, tail, a, rest);
  }

  /** The bytes of an IPv4 address, field by field. */
  lemma AddressV4Layout(a: Address, rest: seq<byte>)
    requires |a.ip| == 4
    ensures WriteAddress(a).value + rest == [ByteOf(4)] + (WriteCFU(a.ip) + (WriteUShort(a.port) + rest))
  {
  }

  /** The corrected reader on the IPv4 path, given what each of its steps reads. */
  lemma AddressV4Steps(input: seq<byte>, body: seq<byte>, tail: seq<byte>, a: Address, rest: seq<byte>)
    requires ReadUByte(input) == Success(Parsed(ADDRESS_VERSION_IPV4, body))
    requires ReadCFUCorrected(body, ADDRESS_VERSION_IPV4_LENGTH) == Success(Parsed(a.ip, tail))
    requires ReadUShort(tail) == Success(Parsed(a.port, rest))
    ensures ReadAddressCorrected(input) == Success(Parsed(a, rest))
  {
  }

  lemma AddressV6CorrectedRoundTrip(a: Address, rest: seq<byte>)
    requires |a.ip| == 16 && 0 <= a.port < 0x1_0000
    ensures ReadAddressCorrected(WriteAddress(a).value + rest) == Success(Parsed(a, rest))
  {
    var tail := WriteUShort(a.port) + rest;
    var padding := Pad(ADDRESS_VERSION_IPV6_MYSTERY_LENGTH);
    var afterIp := padding + tail;
    var body := WriteCFU(a.ip) + afterIp;
    AddressV6Layout(a, rest);
    VersionByte(6, body);
    CFUCorrectedRoundTrip(a.ip, afterIp);
    ReadBody(padding, tail);
    PortRoundTrip(a.port, rest);
    AddressV6Steps(WriteAddress(a).value + rest, body, afterIp, tail, a, rest);
  }

  /** The bytes of an IPv6 address, field by field. */
  lemma AddressV6Layout(a: Address, rest: seq<byte>)
    requires |a.ip| == 16
    ensures WriteAddress(a).value + rest
            == [ByteOf(6)] + (WriteCFU(a.ip) + (Pad(ADDRESS_VERSION_IPV6_MYSTERY_LENGTH) + (WriteUShort(a.port) + rest)))
  {
  }

  /** The corrected reader on the IPv6 path, given what each of its steps reads. */
  lemma AddressV6Steps(input: seq<byte>, body: seq<byte>, afterIp: seq<byte>, tail: seq<byte>, a: Address, rest: seq<byte>)
    requires ReadUByte(input) == Success(Parsed(ADDRESS_VERSION_IPV6, body))
    requires ReadCFUCorrected(body, ADDRESS_VERSION_IPV6_LENGTH) == Success(Parsed(a.ip, afterIp))
    requires Read(afterIp, ADDRESS_VERSION_IPV6_MYSTERY_LENGTH).Success?
    requires Read(afterIp, ADDRESS_VERSION_IPV6_MYSTERY_LENGTH).value.rest == tail
    requires ReadUShort(tail) == Success(Parsed(a.port, rest))
    ensures ReadAddressCorrected(input) == Success(Parsed(a, rest))
  {
  }

  /** A leading version byte below 256 is read back as itself. */
  lemma VersionByte(v: int, body: seq<byte>)
    requires 0 <= v < 256
    ensures ReadUByte([ByteOf(v)] + body) == Success(Parsed(v, body))
  {
    ByteOfValue(v);
    assert ([ByteOf(v)] + body)[1..] == body;
  }

  /** An unsigned short port survives `writeUShort` then `readUShort`. */
  lemma PortRoundTrip(port: int, rest: seq<byte>)
    requires 0 <= port < 0x1_0000
    ensures ReadUShort(WriteUShort(port) + rest) == Success(Parsed(port, rest))
  {
    UShortRoundTrip(port, rest);
  }

  /** As written, the IPv4 address 127.0.0.1 does not survive `writeAddress` then `readAddress`. */
  lemma AddressAsWrittenLosesBytes(port: int, rest: seq<byte>)
    requires 0 <= port < 0x1_0000
    ensures ReadAddress(WriteAddress(Address([127, 0, 0, 1], port)).value + rest)
            == Success(Parsed(Address([1, 0, 0, 0], port), rest))
  {
    var ip: seq<byte> := [127, 0, 0, 1];
    var tail := WriteUShort(port) + rest;
    assert WriteAddress(Address(ip, port)).value + rest == [ByteOf(4)] + (WriteCFU(ip) + tail);
    CFUAsWrittenLosesBytes(ip, tail);
    UShortRoundTrip(port, rest);
  }
}
