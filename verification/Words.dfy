/** Fixed-width integers, big-endian byte layout, and small helpers shared by every component.
    A C++ `x & (2^k - 1)` is written `x % 2^k`, and `x >> k` is written `x / 2^k`. */
module Words {

  type U8 = x: int | 0 <= x < 0x100
  type U16 = x: int | 0 <= x < 0x1_0000
  type U32 = x: int | 0 <= x < 0x1_0000_0000
  type U64 = x: int | 0 <= x < 0x1_0000_0000_0000_0000
  type Bytes = seq<U8>

  datatype Option<+T> = None | Some(value: T)

  function Max(a: int, b: int): int {
    if a < b then b else a
  }

  function Min(a: int, b: int): int {
    if a < b then a else b
  }

  /** The C++ integer division, which truncates toward zero. */
  function TruncDiv(a: int, b: int): int
    requires b > 0
  {
    if a >= 0 then a / b else -(-a / b)
  }

  /** `static_cast<int16_t>(x)` of an unsigned 16-bit value. */
  function AsInt16(x: U16): (r: int)
    ensures -0x8000 <= r < 0x8000 && r % 0x1_0000 == x
  {
    if x < 0x8000 then x else x - 0x1_0000
  }

  /** The 16-bit sequence number of an unwrapped number. */
  function Low16(n: int): U16 {
    n % 0x1_0000
  }

  /** Signed distance from `a` to `b` on the 16-bit circle. */
  function SeqDistance(a: U16, b: U16): (d: int)
    ensures -0x8000 <= d < 0x8000
  {
    AsInt16(Low16(b - a))
  }

  /** Any number within half the sequence space of `hi` is recovered exactly from its low 16 bits. */
  lemma UnwrapIsExact(hi: int, n: int)
    requires -0x8000 <= n - hi < 0x8000
    ensures hi + SeqDistance(Low16(hi), Low16(n)) == n
  {
    LowShift(n - hi, hi / 0x1_0000 - n / 0x1_0000);
  }

  lemma LowShift(x: int, q: int)
    ensures Low16(x + 0x1_0000 * q) == Low16(x)
  {
  }

  /** Every 16-bit number is the low half of the number it is unwrapped to. */
  lemma UnwrapKeepsLowBits(hi: int, s: U16)
    ensures Low16(hi + SeqDistance(Low16(hi), s)) == s
  {
  }

  lemma LowSelf(s: U16)
    ensures Low16(s) == s
  {
  }

  lemma LowAdd(n: int, k: int)
    ensures Low16(Low16(n) + k) == Low16(n + k)
  {
  }

  function Be16(x: U16): (b: Bytes)
    ensures |b| == 2
  {
    [x / 0x100, x % 0x100]
  }

  function Be32(x: U32): (b: Bytes)
    ensures |b| == 4
  {
    Be16(x / 0x1_0000) + Be16(x % 0x1_0000)
  }

  /** Reads a big-endian 16-bit word at offset `i`. */
  function Get16(b: Bytes, i: nat): U16
    requires i + 2 <= |b|
  {
    var h: int, l: int := b[i], b[i + 1];
    h * 0x100 + l
  }

  /** Reads a big-endian 32-bit word at offset `i`. */
  function Get32(b: Bytes, i: nat): U32
    requires i + 4 <= |b|
  {
    var h: int, l: int := Get16(b, i), Get16(b, i + 2);
    h * 0x1_0000 + l
  }

  lemma Get16OfBe16(x: U16)
    ensures Get16(Be16(x), 0) == x
  {
  }

  /** A word that lies at offset `i` is read back. */
  lemma Get16Reads(b: Bytes, i: nat, x: U16)
    requires i + 2 <= |b| && b[i..i + 2] == Be16(x)
    ensures Get16(b, i) == x
  {
    Get16OfBe16(x);
    assert b[i] == b[i..i + 2][0] && b[i + 1] == b[i..i + 2][1];
  }

  lemma Get32Reads(b: Bytes, i: nat, x: U32)
    requires i + 4 <= |b| && b[i..i + 4] == Be32(x)
    ensures Get32(b, i) == x
  {
    assert b[i..i + 2] == b[i..i + 4][..2] && b[i + 2..i + 4] == b[i..i + 4][2..];
    Get16Reads(b, i, x / 0x1_0000);
    Get16Reads(b, i + 2, x % 0x1_0000);
  }

  lemma Be16OfGet16(b: Bytes, i: nat)
    requires i + 2 <= |b|
    ensures Be16(Get16(b, i)) == b[i..i + 2]
  {
  }

  lemma Be32OfGet32(b: Bytes, i: nat)
    requires i + 4 <= |b|
    ensures Be32(Get32(b, i)) == b[i..i + 4]
  {
    Be16OfGet16(b, i);
    Be16OfGet16(b, i + 2);
    assert b[i..i + 4] == b[i..i + 2] + b[i + 2..i + 4];
  }

  lemma Assoc<T>(a: seq<T>, b: seq<T>, c: seq<T>)
    ensures a + b + c == a + (b + c)
  {
  }

  lemma DropDrop<T>(s: seq<T>, m: nat, n: nat)
    requires m + n <= |s|
    ensures s[m..][n..] == s[m + n..]
  {
  }

  lemma DropTake<T>(s: seq<T>, m: nat, n: nat)
    requires m + n <= |s|
    ensures s[m..][..n] == s[m..m + n]
  {
  }

  function Zeros(n: nat): (z: Bytes)
    ensures |z| == n
  {
    seq(n, _ => 0)
  }

  /** Number of zero bytes that bring `n` up to a multiple of four. */
  function PadTo4(n: nat): (p: nat)
    ensures p < 4 && (n + p) % 4 == 0
  {
    (4 - n % 4) % 4
  }
}
