/** The machine words of the market-data code, and the big-endian byte strings
    in which the exchange sends them. */
module Words {

  const TWO16 := 0x1_0000
  const TWO32 := 0x1_0000_0000
  const TWO64 := 0x1_0000_0000_0000_0000

  type byte = x: int | 0 <= x < 256
  type bytes = seq<byte>
  type uint16 = x: int | 0 <= x < TWO16
  type uint32 = x: int | 0 <= x < TWO32
  type uint64 = x: int | 0 <= x < TWO64
  type int32 = x: int | -0x8000_0000 <= x < 0x8000_0000

  /** Unsigned 64-bit addition, which wraps around. */
  function Add64(a: uint64, b: uint64): (r: uint64)
    ensures r == a + b || r == a + b - TWO64
  {
    if a + b < TWO64 then a + b else a + b - TWO64
  }

  /** Unsigned 64-bit subtraction, which wraps around. */
  function Sub64(a: uint64, b: uint64): (r: uint64)
    ensures r == a - b || r == a - b + TWO64
  {
    if b <= a then a - b else a - b + TWO64
  }

  /** Unsigned 32-bit addition, which wraps around. */
  function Add32(a: uint32, b: uint32): (r: uint32)
    ensures r == a + b || r == a + b - TWO32
  {
    if a + b < TWO32 then a + b else a + b - TWO32
  }

  /** The cast of a 32-bit word to a signed integer (two's complement). */
  function ToInt32(u: uint32): (i: int32)
    ensures i % TWO32 == u
  {
    if u < 0x8000_0000 then u else u - TWO32
  }

  function OfInt32(i: int32): (u: uint32)
    ensures ToInt32(u) == i
  {
    if 0 <= i then i else i + TWO32
  }

  /** 256 to the power n. */
  function Pow256(n: nat): (r: nat)
    ensures 0 < r
  {
    if n == 0 then 1 else 256 * Pow256(n - 1)
  }

  lemma PowValues()
    ensures Pow256(1) == 256
    ensures Pow256(2) == TWO16
    ensures Pow256(4) == TWO32
    ensures Pow256(8) == TWO64
  {
    assert Pow256(3) == 256 * Pow256(2);
    assert Pow256(5) == 256 * Pow256(4);
    assert Pow256(6) == 256 * Pow256(5);
    assert Pow256(7) == 256 * Pow256(6);
  }

  /** The n low-order bytes of x, most significant first. */
  function ToBytes(n: nat, x: nat): (b: seq<byte>)
    ensures |b| == n
  {
    if n == 0 then [] else ToBytes(n - 1, x / 256) + [x % 256]
  }

  /** The number that a byte string denotes, most significant byte first. */
  function FromBytes(b: seq<byte>): (x: nat)
    ensures x < Pow256(|b|)
  {
    if b == [] then 0 else 256 * FromBytes(b[..|b| - 1]) + b[|b| - 1]
  }

  /** Decoding undoes encoding for every number that fits. */
  lemma {:induction false} BytesRoundTrip(n: nat, x: nat)
    requires x < Pow256(n)
    ensures FromBytes(ToBytes(n, x)) == x
  {
    if n > 0 {
      var b := ToBytes(n, x);
      assert b[..n - 1] == ToBytes(n - 1, x / 256);
      BytesRoundTrip(n - 1, x / 256);
    }
  }

  /** The n-byte big-endian number stored at offset i. */
  function Load(b: seq<byte>, i: nat, n: nat): (x: nat)
    requires i + n <= |b|
    ensures x < Pow256(n)
  {
    FromBytes(b[i..i + n])
  }

  function Load16(b: seq<byte>, i: nat): uint16
    requires i + 2 <= |b|
  {
    PowValues();
    Load(b, i, 2)
  }

  /** The first byte is the more significant one. */
  lemma Load16IsBigEndian(b: bytes, i: nat)
    requires i + 2 <= |b|
    ensures Load16(b, i) == 256 * (b[i] as int) + (b[i + 1] as int)
  {
    var w := b[i..i + 2];
    assert w[..1] == [b[i]] && w[1] == b[i + 1];
    assert FromBytes([b[i]]) == b[i] by { assert [b[i]][..0] == []; }
  }

  function Load32(b: seq<byte>, i: nat): uint32
    requires i + 4 <= |b|
  {
    PowValues();
    Load(b, i, 4)
  }

  function Load64(b: seq<byte>, i: nat): uint64
    requires i + 8 <= |b|
  {
    PowValues();
    Load(b, i, 8)
  }

  lemma LoadLast(b: bytes, i: nat, n: nat)
    requires 0 < n && i + n <= |b|
    ensures Load(b, i, n) == 256 * Load(b, i, n - 1) + b[i + n - 1]
  {
    assert b[i..i + n][..n - 1] == b[i..i + n - 1];
  }

  lemma LastBytes(b: bytes, i: nat, n: nat)
    requires 2 <= n && i + n <= |b|
    ensures Load(b, i, n) == 0x1_0000 * Load(b, i, n - 2) + Load(b, i + n - 2, 2)
  {
    LoadLast(b, i, n);
    LoadLast(b, i, n - 1);
    LoadLast(b, i + n - 2, 2);
    LoadLast(b, i + n - 2, 1);
  }

  /** The words of a message by their 16-bit parts, the most significant one
      first. */
  lemma WordsAreBigEndian(b: bytes, i: nat)
    ensures i + 4 <= |b| ==> Load32(b, i) == 0x1_0000 * Load16(b, i) + Load16(b, i + 2)
    ensures i + 8 <= |b| ==> Load64(b, i) == 0x1_0000_0000 * Load32(b, i) + Load32(b, i + 4)
  {
    hide Load;
    if i + 4 <= |b| {
      LastBytes(b, i, 4);
    }
    if i + 8 <= |b| {
      LastBytes(b, i, 8);
      LastBytes(b, i, 6);
      LastBytes(b, i + 4, 4);
    }
  }

  /** A number stored at offset i of a longer byte string is read back. */
  lemma LoadStored(b: seq<byte>, i: nat, n: nat, x: nat)
    requires i + n <= |b| && b[i..i + n] == ToBytes(n, x) && x < Pow256(n)
    ensures Load(b, i, n) == x
  {
    BytesRoundTrip(n, x);
  }

  /** A 16-bit length followed by that many bytes: a MoldUDP64 message block or
      a SoupBinTCP logical packet. */
  function Block(data: bytes): (b: bytes)
    requires |data| < TWO16
    ensures |b| == 2 + |data|
  {
    ToBytes(2, |data|) + data
  }
}
