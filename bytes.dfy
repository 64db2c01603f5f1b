/** Byte-level building blocks shared by the command encoders.

    A byte is an integer in 0..255, as a Python `bytes` object yields it.
    Numeric fields are mathematical integers, as in Python: `x | y`, `x ^ y`
    and `x << n` on non-negative integers are the recursive `BitOr`,
    `BitXor` and `Shl` below, and `x & (2^k - 1)` on any integer, negative
    ones included (Python's infinite two's complement), is the Euclidean
    remainder `x % 2^k`. `struct.pack` with the big-endian formats `>H`,
    `>HHH`, `>I` and `>h` is written out byte by byte. */
module Bytes {

  type byte = x: int | 0 <= x < 256

  /** Outcome of a `struct.pack` call: the packed bytes, or the
      `struct.error` Python raises for a value outside the format's range. */
  datatype Packed<T> = Ok(value: T) | StructError

  /* ---------------------------------------------------------------- */
  /* Bitwise operations on non-negative integers                       */
  /* ---------------------------------------------------------------- */

  function Pow2(k: nat): (p: nat)
    ensures p >= 1
  {
    if k == 0 then 1 else 2 * Pow2(k - 1)
  }

  /** `x << n`, one doubling per position: multiplication by 2^n. */
  function Shl(x: nat, n: nat): (r: nat)
    ensures r == x * Pow2(n)
  {
    if n == 0 then x else 2 * Shl(x, n - 1)
  }

  /** `a | b`, bit by bit from the least significant end: at least either
      operand, at most their sum. */
  function BitOr(a: nat, b: nat): (r: nat)
    ensures a <= r && b <= r && r <= a + b
    decreases a + b
  {
    if a == 0 then b
    else if b == 0 then a
    else 2 * BitOr(a / 2, b / 2) + (if a % 2 == 1 || b % 2 == 1 then 1 else 0)
  }

  /** When `lo` fits below bit `k`, OR-ing it with a multiple of 2^k is
      adding it: the two occupy disjoint bits. */
  lemma {:induction false} BitOrDisjoint(h: nat, lo: nat, k: nat)
    requires lo < Pow2(k)
    ensures BitOr(h * Pow2(k), lo) == h * Pow2(k) + lo
  {
    var hi := h * Pow2(k);
    if k == 0 || hi == 0 || lo == 0 {
    } else {
      var p := Pow2(k - 1);
      assert hi == 2 * (h * p);
      assert hi / 2 == h * p && hi % 2 == 0;
      assert lo / 2 < p;
      BitOrDisjoint(h, lo / 2, k - 1);
      assert BitOr(hi, lo) == 2 * BitOr(hi / 2, lo / 2) + lo % 2;
    }
  }

  /** `a ^ b`, bit by bit from the least significant end; it never exceeds
      the sum of the operands. */
  function BitXor(a: nat, b: nat): (r: nat)
    ensures r <= a + b
    decreases a + b
  {
    if a == 0 then b
    else if b == 0 then a
    else 2 * BitXor(a / 2, b / 2) + (if a % 2 != b % 2 then 1 else 0)
  }

  /** The bit-by-bit equation of `BitXor` holds for zero operands too. */
  lemma BitXorStep(a: nat, b: nat)
    ensures BitXor(a, b) == 2 * BitXor(a / 2, b / 2) + (if a % 2 != b % 2 then 1 else 0)
  {
    if a == 0 {
      assert BitXor(0, b / 2) == b / 2;
    } else if b == 0 {
      assert BitXor(a / 2, 0) == a / 2;
    }
  }

  /** XOR of two k-bit values is a k-bit value. */
  lemma {:induction false} BitXorBound(a: nat, b: nat, k: nat)
    requires a < Pow2(k) && b < Pow2(k)
    ensures BitXor(a, b) < Pow2(k)
  {
    if k > 0 {
      BitXorStep(a, b);
      BitXorBound(a / 2, b / 2, k - 1);
    }
  }

  lemma {:induction false} BitXorSelf(a: nat)
    ensures BitXor(a, a) == 0
    decreases a
  {
    if a > 0 {
      BitXorSelf(a / 2);
    }
  }

  lemma {:induction false} BitXorAssoc(a: nat, b: nat, c: nat)
    ensures BitXor(BitXor(a, b), c) == BitXor(a, BitXor(b, c))
    decreases a + b + c
  {
    if a + b + c > 0 {
      var x, y := BitXor(a, b), BitXor(b, c);
      BitXorStep(a, b);
      BitXorStep(b, c);
      BitXorStep(x, c);
      BitXorStep(a, y);
      assert x / 2 == BitXor(a / 2, b / 2) && x % 2 == (if a % 2 != b % 2 then 1 else 0);
      assert y / 2 == BitXor(b / 2, c / 2) && y % 2 == (if b % 2 != c % 2 then 1 else 0);
      BitXorAssoc(a / 2, b / 2, c / 2);
    }
  }

  /* ---------------------------------------------------------------- */
  /* Big-endian packing                                                */
  /* ---------------------------------------------------------------- */

  /** The unsigned value of two big-endian bytes. */
  function UnpackU16(b: seq<byte>): (x: int)
    requires |b| == 2
    ensures 0 <= x < 0x10000
  {
    b[0] as int * 256 + b[1] as int
  }

  /** `struct.pack(">H", x)`. Every caller in the model passes a value in
      0..65535, the range the format accepts. */
  function PackU16(x: int): (b: seq<byte>)
    requires 0 <= x < 0x10000
    ensures |b| == 2 && UnpackU16(b) == x
  {
    [x / 256, x % 256]
  }

  /** Two bytes are the packing of their own value. */
  lemma PackUnpackU16(b: seq<byte>)
    requires |b| == 2
    ensures PackU16(UnpackU16(b)) == b
  {}

  lemma UnpackU16Injective(a: seq<byte>, b: seq<byte>)
    requires |a| == 2 && |b| == 2
    ensures UnpackU16(a) == UnpackU16(b) <==> a == b
  {
    if UnpackU16(a) == UnpackU16(b) {
      PackUnpackU16(a);
      PackUnpackU16(b);
    }
  }

  /** `struct.pack(">HHH", x, y, z)`: three 16-bit fields back to back. */
  function PackU16x3(x: int, y: int, z: int): (b: seq<byte>)
    requires 0 <= x < 0x10000 && 0 <= y < 0x10000 && 0 <= z < 0x10000
    ensures |b| == 6
    ensures UnpackU16(b[0..2]) == x && UnpackU16(b[2..4]) == y && UnpackU16(b[4..6]) == z
  {
    var b := PackU16(x) + PackU16(y) + PackU16(z);
    assert b[0..2] == PackU16(x) && b[2..4] == PackU16(y) && b[4..6] == PackU16(z);
    b
  }

  /** The unsigned value of four big-endian bytes. */
  function UnpackU32(b: seq<byte>): (x: int)
    requires |b| == 4
    ensures 0 <= x < 0x1_0000_0000
  {
    UnpackU16(b[..2]) * 0x10000 + UnpackU16(b[2..])
  }

  /** `struct.pack(">I", x)`: the high half, then the low half. */
  function PackU32(x: int): (b: seq<byte>)
    requires 0 <= x < 0x1_0000_0000
    ensures |b| == 4 && UnpackU32(b) == x
  {
    var b := PackU16(x / 0x10000) + PackU16(x % 0x10000);
    assert b[..2] == PackU16(x / 0x10000) && b[2..] == PackU16(x % 0x10000);
    b
  }

  /** The two's-complement value of two big-endian bytes (the `>h` format). */
  function UnpackI16(b: seq<byte>): (v: int)
    requires |b| == 2
    ensures -0x8000 <= v < 0x8000
    ensures v % 0x10000 == UnpackU16(b)
  {
    var u := UnpackU16(b);
    if u < 0x8000 then u else u - 0x10000
  }

  /** `struct.pack(">h", v)`: Python raises `struct.error` unless
      -32768 <= v <= 32767; otherwise the two's-complement bytes. */
  function PackI16(v: int): (r: Packed<seq<byte>>)
    ensures r.StructError? <==> !(-0x8000 <= v < 0x8000)
    ensures r.Ok? ==> |r.value| == 2 && UnpackI16(r.value) == v
  {
    if -0x8000 <= v < 0x8000 then Ok(PackU16(v % 0x10000)) else StructError
  }

  /* ---------------------------------------------------------------- */
  /* XOR fold                                                          */
  /* ---------------------------------------------------------------- */

  /** Exclusive-or of every byte, folded left to right from 0. As every
      byte is below 256, so is the fold. */
  function XorFold(s: seq<byte>): (c: nat)
    ensures c < 256
  {
    if s == [] then 0
    else
      var c := XorFold(s[..|s| - 1]);
      BitXorBound(c, s[|s| - 1], 8);
      BitXor(c, s[|s| - 1])
  }

  lemma {:induction false} XorFoldConcat(a: seq<byte>, b: seq<byte>)
    ensures XorFold(a + b) == BitXor(XorFold(a), XorFold(b))
  {
    if b == [] {
      assert a + b == a;
    } else {
      var b' := b[..|b| - 1];
      var x := b[|b| - 1];
      assert (a + b)[..|a + b| - 1] == a + b';
      assert (a + b)[|a + b| - 1] == x;
      XorFoldConcat(a, b');
      BitXorAssoc(XorFold(a), XorFold(b'), x);
    }
  }

  lemma XorFoldSplit(pre: seq<byte>, x: byte, post: seq<byte>)
    ensures XorFold(pre + [x] + post) == BitXor(BitXor(XorFold(pre), x), XorFold(post))
  {
    XorFoldConcat(pre + [x], post);
    XorFoldConcat(pre, [x]);
    assert [x][..0] == [];
  }

  /** The checksum trick: when byte `k` is 0, writing the fold of the whole
      sequence into byte `k` makes the fold of the result 0. */
  lemma XorFoldFixpoint(s: seq<byte>, k: int)
    requires 0 <= k < |s| && s[k] == 0
    ensures XorFold(s[k := XorFold(s)]) == 0
  {
    var pre, post := s[..k], s[k + 1..];
    var a, b := XorFold(pre), XorFold(post);
    assert s == pre + [0] + post;
    assert s[k := XorFold(s)] == pre + [XorFold(s)] + post;
    XorFoldSplit(pre, 0, post);
    var c := XorFold(s);
    assert c == BitXor(a, b);
    XorFoldSplit(pre, c, post);
    BitXorAssoc(a, a, b);
    BitXorSelf(a);
    BitXorSelf(b);
  }
}
