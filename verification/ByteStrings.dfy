/** Byte strings, their order, and the fixed-width little-endian integers of the hash preimages.
    Rust's `String` is modelled by its UTF-8 bytes: `String` and `Vec<u8>` then share one order,
    and the ASCII separators '@' and '/' never occur inside a multi-byte character. */
module ByteStrings {
  type byte = b: int | 0 <= b < 256
  type Bytes = seq<byte>

  const WORD_BYTES: nat := 8
  const U64_LIMIT: int := 0x1_0000_0000_0000_0000
  type i64 = x: int | -0x8000_0000_0000_0000 <= x < 0x8000_0000_0000_0000

  // ---------- Lexicographic order, as derived for Vec<u8> and String ----------

  predicate LexLe(a: Bytes, b: Bytes) {
    if a == [] then true
    else if b == [] then false
    else if a[0] != b[0] then a[0] < b[0]
    else LexLe(a[1..], b[1..])
  }

  lemma {:induction false} LexTotal(a: Bytes, b: Bytes)
    ensures LexLe(a, b) || LexLe(b, a)
  {
    if a != [] && b != [] && a[0] == b[0] {
      LexTotal(a[1..], b[1..]);
    }
  }

  lemma {:induction false} LexAntisymmetric(a: Bytes, b: Bytes)
    requires LexLe(a, b) && LexLe(b, a)
    ensures a == b
  {
    if a == [] {
    } else {
      LexAntisymmetric(a[1..], b[1..]);
      assert a == [a[0]] + a[1..] && b == [b[0]] + b[1..];
    }
  }

  lemma {:induction false} LexTransitive(a: Bytes, b: Bytes, c: Bytes)
    requires LexLe(a, b) && LexLe(b, c)
    ensures LexLe(a, c)
  {
    if a != [] && a[0] == b[0] == c[0] {
      LexTransitive(a[1..], b[1..], c[1..]);
    }
  }

  // ---------- Little-endian words ----------

  function LittleEndian(n: nat, width: nat): (bs: Bytes)
    ensures |bs| == width
    decreases width
  {
    if width == 0 then [] else [n % 256] + LittleEndian(n / 256, width - 1)
  }

  function FromLittleEndian(bs: Bytes): nat {
    if bs == [] then 0 else bs[0] + 256 * FromLittleEndian(bs[1..])
  }

  function Pow256(width: nat): nat {
    if width == 0 then 1 else 256 * Pow256(width - 1)
  }

  lemma ScaledProduct(p: nat, q: nat)
    ensures 256 * (p * q) == (256 * p) * q
  {
  }

  /** The first byte is the least significant one: later bytes weigh 256 times more each. */
  lemma {:induction false} LittleEndianWeights(a: Bytes, b: Bytes)
    ensures FromLittleEndian(a + b) == FromLittleEndian(a) + Pow256(|a|) * FromLittleEndian(b)
    ensures |a| == 1 ==> FromLittleEndian(a) == a[0]
  {
    if a == [] {
      assert a + b == b;
    } else {
      LittleEndianWeights(a[1..], b);
      assert (a + b)[0] == a[0] && (a + b)[1..] == a[1..] + b;
      ScaledProduct(Pow256(|a| - 1), FromLittleEndian(b));
    }
  }

  lemma {:induction false} LittleEndianRoundTrip(n: nat, width: nat)
    requires n < Pow256(width)
    ensures FromLittleEndian(LittleEndian(n, width)) == n
  {
    if width == 0 {
    } else {
      LittleEndianRoundTrip(n / 256, width - 1);
      assert LittleEndian(n, width)[1..] == LittleEndian(n / 256, width - 1);
    }
  }

  lemma {:induction false} FromLittleEndianRoundTrip(bs: Bytes)
    ensures FromLittleEndian(bs) < Pow256(|bs|)
    ensures LittleEndian(FromLittleEndian(bs), |bs|) == bs
  {
    if bs == [] {
    } else {
      FromLittleEndianRoundTrip(bs[1..]);
      LowByte(bs[0], FromLittleEndian(bs[1..]));
      assert bs == [bs[0]] + bs[1..];
    }
  }

  lemma LowByte(b: byte, rest: nat)
    ensures (b + 256 * rest) % 256 == b && (b + 256 * rest) / 256 == rest
  {
  }

  lemma Pow256Of8()
    ensures Pow256(8) == U64_LIMIT
  {
    assert Pow256(2) == 0x1_0000;
    assert Pow256(4) == 0x1_0000_0000;
    assert Pow256(6) == 0x1_0000_0000_0000;
  }

  /** `n as u64`, which truncates. */
  function AsU64(n: nat): nat {
    if n < U64_LIMIT then n else n % U64_LIMIT
  }

  lemma {:induction false} FromLittleEndianInjective(a: Bytes, b: Bytes)
    requires |a| == |b| && FromLittleEndian(a) == FromLittleEndian(b)
    ensures a == b
  {
    FromLittleEndianRoundTrip(a);
    FromLittleEndianRoundTrip(b);
  }

  /** `n.to_le_bytes()` of the u64 that `n as u64` truncates to: the eight bytes whose
      little-endian value it is. */
  function U64Le(n: nat): (bs: Bytes)
    ensures |bs| == WORD_BYTES
  {
    U64LeExists(n);
    var bs: Bytes :| |bs| == WORD_BYTES && FromLittleEndian(bs) == AsU64(n);
    bs
  }

  lemma U64LeExists(n: nat)
    ensures |LittleEndian(AsU64(n), WORD_BYTES)| == WORD_BYTES
    ensures FromLittleEndian(LittleEndian(AsU64(n), WORD_BYTES)) == AsU64(n)
    ensures forall a: Bytes, b: Bytes ::
              |a| == |b| == WORD_BYTES && FromLittleEndian(a) == FromLittleEndian(b) ==> a == b
  {
    Pow256Of8();
    LittleEndianRoundTrip(AsU64(n), WORD_BYTES);
    forall a: Bytes, b: Bytes | |a| == |b| == WORD_BYTES && FromLittleEndian(a) == FromLittleEndian(b)
      ensures a == b
    {
      FromLittleEndianInjective(a, b);
    }
  }

  lemma U64LeOfValue(bs: Bytes)
    requires |bs| == WORD_BYTES
    ensures FromLittleEndian(bs) < U64_LIMIT && U64Le(FromLittleEndian(bs)) == bs
  {
    Pow256Of8();
    FromLittleEndianRoundTrip(bs);
    U64LeExists(FromLittleEndian(bs));
  }

  lemma U64LeIsLittleEndian(n: nat)
    ensures U64Le(n) == LittleEndian(AsU64(n), WORD_BYTES)
  {
    U64LeExists(n);
  }

  /** The u64 with the same two's-complement bits. */
  function AsWord(x: i64): (n: nat)
    ensures n < U64_LIMIT
  {
    if x < 0 then x + U64_LIMIT else x
  }

  /** `x.to_le_bytes()` of an i64. */
  function I64Le(x: i64): (bs: Bytes)
    ensures |bs| == WORD_BYTES
  {
    U64Le(AsWord(x))
  }

  lemma U64LeInjective(m: nat, n: nat)
    requires m < U64_LIMIT && n < U64_LIMIT && U64Le(m) == U64Le(n)
    ensures m == n
  {
    assert FromLittleEndian(U64Le(m)) == m;
    assert FromLittleEndian(U64Le(n)) == n;
  }

  /** Negative times wrap around at 2^64, all others stand for themselves. */
  lemma I64LeValue(x: i64)
    ensures FromLittleEndian(I64Le(x)) == if x < 0 then x + 0x1_0000_0000_0000_0000 else x
  {
    assert FromLittleEndian(U64Le(AsWord(x))) == AsWord(x);
  }

  lemma I64LeInjective(x: i64, y: i64)
    requires I64Le(x) == I64Le(y)
    ensures x == y
  {
    U64LeInjective(AsWord(x), AsWord(y));
  }
}
