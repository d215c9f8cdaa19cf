/** Machine-level value types shared by every part of the runtime model:
    bytes and fixed-width words as bounded integers, little-endian packing,
    two's complement reinterpretation and an Option type for NULL returns. */
module Bytes {

  type Byte = b: int | 0 <= b < 0x100
  type U16 = x: int | 0 <= x < 0x1_0000
  type U32 = x: int | 0 <= x < 0x1_0000_0000

  type I32 = x: int | -0x8000_0000 <= x < 0x8000_0000

  const TWO32: int := 0x1_0000_0000

  /** A pointer that may be NULL, or a lookup that may miss. */
  datatype Option<T> = None | Some(value: T)

  /** An operation that can end in a fatal runtime error (`g_error`,
      `g_assert`, `g_assert_not_reached`): the error carries its message. */
  datatype Result<T> = Ok(value: T) | Err(msg: string)

  /** The 32-bit pattern a C `gint32`/`guint32` holds for the integer `x`. */
  function Wrap32(x: int): (r: U32)
    ensures (r - x) % TWO32 == 0
  {
    x % TWO32
  }

  /** The 16-bit pattern a C `gint16`/`guint16` holds for the integer `x`. */
  function Wrap16(x: int): (r: U16)
    ensures (r - x) % 0x1_0000 == 0
  {
    x % 0x1_0000
  }

  /** Reading a 32-bit pattern as a signed `gint32`. */
  function Signed32(x: U32): (r: int)
    ensures -0x8000_0000 <= r < 0x8000_0000
    ensures Wrap32(r) == x
  {
    if x < 0x8000_0000 then x else x - TWO32
  }

  /** Reading a byte as a C `signed char`. */
  function Signed8(b: Byte): (r: int)
    ensures -128 <= r < 128
    ensures r % 0x100 == b
  {
    if b < 0x80 then b else b - 0x100
  }

  /** Reading a 16-bit pattern as a C `gint16`. */
  function Signed16(x: U16): (r: int)
    ensures -0x8000 <= r < 0x8000
    ensures r % 0x1_0000 == x
  {
    if x < 0x8000 then x else x - 0x1_0000
  }

  /** Little-endian byte image of a 16-bit word. */
  function LE16(x: U16): (r: seq<Byte>)
    ensures |r| == 2
  {
    [x % 0x100, x / 0x100]
  }

  /** Little-endian byte image of a 32-bit word. */
  function LE32(x: U32): (r: seq<Byte>)
    ensures |r| == 4
  {
    [x % 0x100, (x / 0x100) % 0x100, (x / 0x1_0000) % 0x100, x / 0x100_0000]
  }

  /** `read16`: the little-endian 16-bit word at `p`. */
  function Read16(s: seq<Byte>, p: nat): U16
    requires p + 2 <= |s|
  {
    s[p] as int + 0x100 * (s[p + 1] as int)
  }

  /** `read32`: the little-endian 32-bit word at `p`. */
  function Read32(s: seq<Byte>, p: nat): U32
    requires p + 4 <= |s|
  {
    s[p] as int + 0x100 * (s[p + 1] as int) + 0x1_0000 * (s[p + 2] as int) + 0x100_0000 * (s[p + 3] as int)
  }

  /** Bit `i` of `x`. */
  function Bit(x: nat, i: nat): nat
  {
    if i == 0 then x % 2 else Bit(x / 2, i - 1)
  }

  /** `2^n`, the value of a mask with only bit `n` set. */
  function Pow2(n: nat): (r: nat)
    ensures r >= 1
  {
    if n == 0 then 1 else 2 * Pow2(n - 1)
  }

  /** Every bit at or above `n` of a number below `2^n` is clear. */
  lemma {:induction false} BitHighClear(x: nat, n: nat, j: nat)
    requires x < Pow2(n) && j >= n
    ensures Bit(x, j) == 0
  {
    if j == 0 {
    } else if n == 0 {
      BitHighClear(x / 2, 0, j - 1);
    } else {
      BitHighClear(x / 2, n - 1, j - 1);
    }
  }

  /** Adding `2^n` to a number below `2^n` sets bit `n` and keeps the others. */
  lemma {:induction false} BitAddHigh(x: nat, n: nat, j: nat)
    requires x < Pow2(n)
    ensures Bit(x + Pow2(n), j) == (if j == n then 1 else Bit(x, j))
  {
    if n == 0 {
      assert x == 0;
      if j > 0 {
        BitHighClear(0, 0, j - 1);
        BitHighClear(0, 0, j);
      }
    } else if j == 0 {
      assert Pow2(n) == 2 * Pow2(n - 1);
    } else {
      assert Pow2(n) == 2 * Pow2(n - 1);
      assert (x + Pow2(n)) / 2 == x / 2 + Pow2(n - 1);
      BitAddHigh(x / 2, n - 1, j - 1);
    }
  }

  /** The byte at `i`, or 0 past the end of `s`. Used where the runtime reads
      operand bytes without checking the end of the buffer. */
  function ByteAt(s: seq<Byte>, i: int): Byte
  {
    if 0 <= i < |s| then s[i] else 0
  }

  /** `read32` on a buffer whose end is not checked by the caller. */
  function Read32At(s: seq<Byte>, p: int): U32
  {
    ByteAt(s, p) as int + 0x100 * (ByteAt(s, p + 1) as int) + 0x1_0000 * (ByteAt(s, p + 2) as int)
      + 0x100_0000 * (ByteAt(s, p + 3) as int)
  }

  lemma Read16OfLE16(x: U16)
    ensures Read16(LE16(x), 0) == x
  {
  }

  lemma Read32OfLE32(x: U32)
    ensures Read32(LE32(x), 0) == x
  {
    Recompose(x);
  }

  /** A natural number from its low three base-256 digits and the rest. */
  lemma Recompose(v: nat)
    ensures v == (v / 0x100_0000) * 0x100_0000 + ((v / 0x1_0000) % 0x100) * 0x1_0000
                 + ((v / 0x100) % 0x100) * 0x100 + v % 0x100
  {
    var q1 := v / 0x100;
    var q2 := q1 / 0x100;
    var q3 := q2 / 0x100;
    assert v == q1 * 0x100 + v % 0x100;
    assert q1 == q2 * 0x100 + q1 % 0x100;
    assert q2 == q3 * 0x100 + q2 % 0x100;
    assert q2 == v / 0x1_0000;
    assert q3 == v / 0x100_0000;
  }

  lemma Read32Slice(s: seq<Byte>, p: nat, w: seq<Byte>)
    requires p + 4 <= |s| && s[p..p + 4] == w
    ensures Read32(s, p) == Read32(w, 0)
  {
    assert s[p] == w[0] && s[p + 1] == w[1] && s[p + 2] == w[2] && s[p + 3] == w[3];
  }

  lemma WrapSmall(x: int)
    requires 0 <= x < TWO32
    ensures Wrap32(x) == x
  {
  }

  /** Adding a multiple of 2^32 does not change the 32-bit pattern. */
  lemma WrapAddMultiple(y: int, k: int)
    ensures Wrap32(y + k * TWO32) == Wrap32(y)
  {
  }

  /** Two integers with the same 32-bit pattern differ by a multiple of
      2^32. */
  lemma WrapDiff(x: int, y: int) returns (q: int)
    requires Wrap32(x) == Wrap32(y)
    ensures x == y + q * TWO32
  {
    q := x / TWO32 - y / TWO32;
    assert x == (x / TWO32) * TWO32 + Wrap32(x);
    assert y == (y / TWO32) * TWO32 + Wrap32(y);
  }

  /** `x * m + c` in 32-bit arithmetic depends only on the 32-bit patterns
      of `x` and `c`. */
  lemma WrapMulAdd(x: int, y: int, m: int, c: int, c2: int)
    requires Wrap32(x) == Wrap32(y) && Wrap32(c) == Wrap32(c2)
    ensures Wrap32(x * m + c) == Wrap32(y * m + c2)
  {
    var q := WrapDiff(x, y);
    var qc := WrapDiff(c, c2);
    var k := q * m + qc;
    assert x * m == y * m + (q * m) * TWO32 by {
      assert x * m == (y + q * TWO32) * m;
    }
    assert x * m + c == (y * m + c2) + k * TWO32;
    WrapAddMultiple(y * m + c2, k);
  }

  /** Multiplying both sides of `a <= b` by a non-negative number. */
  lemma MulLe(a: int, b: int, c: int)
    requires a <= b && c >= 0
    ensures a * c <= b * c
  {
  }

  /** The quotient of two naturals, a natural. */
  function NatDiv(x: nat, y: nat): (q: nat)
    requires y > 0
    ensures q == x / y
  {
    DivNonneg(x, y);
    x / y
  }

  lemma DivNonneg(x: nat, y: nat)
    requires y > 0
    ensures x / y >= 0
  {
  }

  /** Euclid's division of naturals. */
  lemma NatDivMod(x: nat, y: nat)
    requires y > 0
    ensures x == (x / y) * y + x % y && 0 <= x % y < y
  {
  }

  /** Quotient and remainder are the only ones with `n == q * a + rem`
      and `0 <= rem < a`. */
  lemma ModUnique(n: int, a: int, q: int, rem: int)
    requires a > 0 && n == q * a + rem && 0 <= rem < a
    ensures n / a == q && n % a == rem
  {
    var d := n / a;
    var e := q - d;
    assert n == d * a + n % a;
    assert e * a == n % a - rem;
    if e >= 1 {
      MulLe(1, e, a);
    } else if e <= -1 {
      MulLe(1, -e, a);
    }
  }

  /** Writing `w` into `s` at `p`: the bytes outside `[p, p+|w|)` stay. */
  function Overwrite(s: seq<Byte>, p: nat, w: seq<Byte>): (r: seq<Byte>)
    requires p + |w| <= |s|
    ensures |r| == |s|
    ensures r[p..p + |w|] == w
    ensures forall i :: 0 <= i < |s| && !(p <= i < p + |w|) ==> r[i] == s[i]
  {
    s[..p] + w + s[p + |w|..]
  }

  function Zeros(n: nat): (r: seq<Byte>)
    ensures |r| == n
    ensures forall i :: 0 <= i < n ==> r[i] == 0
  {
    seq(n, _ => 0)
  }

  /** `strlen`: the index of the first NUL byte, or the length when there is none. */
  function CStrLen(s: seq<Byte>): (r: nat)
    ensures r <= |s|
    ensures forall i :: 0 <= i < r ==> s[i] != 0
    ensures r < |s| ==> s[r] == 0
  {
    if |s| == 0 || s[0] == 0 then 0 else 1 + CStrLen(s[1..])
  }

  predicate NoNul(s: seq<Byte>)
  {
    forall i :: 0 <= i < |s| ==> s[i] != 0
  }
}
