/** Bytes, the frame preamble and the four-byte big-endian size fields. */
module Bytes {

  type byte = b: int | 0 <= b < 256
  type bytes = seq<byte>

  /** The results of a 32-bit hash, and the numbers a size field can hold. */
  const TWO_TO_THE_32 := 0x1_0000_0000
  type uint32 = n: int | 0 <= n < TWO_TO_THE_32

  datatype Option<+T> = None | Some(value: T)

  const PREAMBLE: bytes := [0x01, 0x02, 0x03, 0xFF, 0x03, 0x02, 0x01]
  const PREAMBLE_SIZE := 7
  const SIZE_WIDTH := 4

  /** The number four bytes stand for, the most significant first. */
  function BigEndian(b: bytes): nat
    requires |b| == SIZE_WIDTH
  {
    (((b[0] as int) * 256 + b[1] as int) * 256 + b[2] as int) * 256 + b[3] as int
  }

  lemma DigitsOf(n: uint32)
    ensures n == ((n / 0x100_0000 * 256 + n / 0x1_0000 % 0x100) * 256 + n / 0x100 % 0x100) * 256 + n % 0x100
  {
  }

  /** The source converts the size to `uint32` first, which drops everything above 32 bits. */
  function SizeWriter(size: int): (b: bytes)
    ensures |b| == SIZE_WIDTH
    ensures BigEndian(b) == size % TWO_TO_THE_32
  {
    var n := size % TWO_TO_THE_32;
    DigitsOf(n);
    [n / 0x100_0000, n / 0x1_0000 % 0x100, n / 0x100 % 0x100, n % 0x100]
  }

  function SizeReader(b: bytes): (size: uint32)
    requires |b| == SIZE_WIDTH
    ensures size == BigEndian(b)
    ensures size % 256 == b[3]
  {
    (b[0] as int) * 0x100_0000 + (b[1] as int) * 0x1_0000 + (b[2] as int) * 0x100 + (b[3] as int)
  }

  lemma SizeReaderInvertsWriter(size: int)
    ensures SizeReader(SizeWriter(size)) == size % TWO_TO_THE_32
  {
  }

  lemma BigEndianDigits(a: byte, b: byte, c: byte, d: byte, n: int)
    requires n == (a as int) * 0x100_0000 + (b as int) * 0x1_0000 + (c as int) * 0x100 + (d as int)
    ensures n / 0x100_0000 == a && n / 0x1_0000 % 0x100 == b && n / 0x100 % 0x100 == c && n % 0x100 == d
  {
    var high: int := (a as int) * 0x100 + b as int;
    var upper: int := high * 0x100 + c as int;
    assert n == upper * 0x100 + d as int;
    assert n / 0x100 == upper;
    assert n == high * 0x1_0000 + ((c as int) * 0x100 + d as int);
    assert n / 0x1_0000 == high;
  }

  lemma SizeWriterInvertsReader(b: bytes)
    requires |b| == SIZE_WIDTH
    ensures SizeWriter(SizeReader(b)) == b
  {
    BigEndianDigits(b[0], b[1], b[2], b[3], SizeReader(b));
  }

  function Zeros(n: nat): (z: bytes)
    ensures |z| == n && forall i | 0 <= i < n :: z[i] == 0
  {
    seq(n, _ => 0)
  }

  /** A freshly made buffer of `n` bytes after a read that filled only its front. */
  function Padded(b: bytes, n: nat): (p: bytes)
    requires |b| <= n
    ensures |p| == n && b <= p
  {
    b + Zeros(n - |b|)
  }

  ghost predicate AllZero(b: bytes) {
    forall i | 0 <= i < |b| :: b[i] == 0
  }

  /** The preamble has no zero byte, so a padded short read never passes for it. */
  lemma ShortPreambleIsInvalid(b: bytes)
    requires |b| <= PREAMBLE_SIZE
    ensures Padded(b, PREAMBLE_SIZE) == PREAMBLE <==> b == PREAMBLE
  {
    if |b| < PREAMBLE_SIZE {
      assert Padded(b, PREAMBLE_SIZE)[6] == 0;
    }
  }

  function Concat(parts: seq<bytes>): bytes {
    if parts == [] then [] else parts[0] + Concat(parts[1..])
  }

  lemma {:induction false} ConcatAppend(a: seq<bytes>, b: seq<bytes>)
    ensures Concat(a + b) == Concat(a) + Concat(b)
  {
    if a == [] {
      assert a + b == b;
    } else {
      assert (a + b)[1..] == a[1..] + b && (a + b)[0] == a[0];
      ConcatAppend(a[1..], b);
    }
  }
}
