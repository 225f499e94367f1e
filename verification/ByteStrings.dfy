/** Bytes, big-endian integers and in-place splices of byte arrays. */
module ByteStrings {
  import opened Arithmetic

  newtype Byte = b: int | 0 <= b < 256

  type Bytes = seq<Byte>

  const U32_MAX: nat := 0xFFFF_FFFF
  const U64_MAX: nat := 0xFFFF_FFFF_FFFF_FFFF

  type u32 = n: int | 0 <= n <= U32_MAX
  type u64 = n: int | 0 <= n <= U64_MAX

  function Zeros(n: nat): Bytes {
    seq(n, _ => 0)
  }

  /** `base` with `patch` written over it from index `at` on. */
  function Splice(base: Bytes, at: nat, patch: Bytes): (r: Bytes)
    requires at + |patch| <= |base|
    ensures |r| == |base|
    ensures forall i :: 0 <= i < |base| ==> r[i] == if at <= i < at + |patch| then patch[i - at] else base[i]
  {
    base[..at] + patch + base[at + |patch|..]
  }

  lemma SpliceSlice(base: Bytes, at: nat, patch: Bytes)
    requires at + |patch| <= |base|
    ensures Splice(base, at, patch)[at..at + |patch|] == patch
    ensures Splice(base, at, patch)[..at + |patch|] == base[..at] + patch
    ensures Splice(base, at, patch)[at + |patch|..] == base[at + |patch|..]
  {
  }

  lemma SpliceAround(base: Bytes, at: nat, patch: Bytes)
    requires at + |patch| <= |base|
    ensures var r := Splice(base, at, patch);
            r[..at] == base[..at] && r[at..at + |patch|] == patch && r[at + |patch|..] == base[at + |patch|..]
  {
  }

  lemma SpliceExtends(base: Bytes, at: nat, a: Bytes, b: Bytes)
    requires at + |a| + |b| <= |base|
    ensures Splice(Splice(base, at, a), at + |a|, b) == Splice(base, at, a + b)
  {
  }

  lemma SpliceNothing(base: Bytes, at: nat)
    requires at <= |base|
    ensures Splice(base, at, []) == base
  {
  }

  /** Where a tail is kept, so is every part of it. */
  lemma TailKept(before: Bytes, after: Bytes, from: nat, length: nat)
    requires |before| == |after| && from + length <= |before| && after[from..] == before[from..]
    ensures after[from..from + length] == before[from..from + length]
    ensures after[from + length..] == before[from + length..]
  {
    assert after[from..from + length] == after[from..][..length] && before[from..from + length] == before[from..][..length];
    assert after[from + length..] == after[from..][length..] && before[from + length..] == before[from..][length..];
  }

  /** A slice grows by the bytes behind it. */
  lemma SliceGrows(whole: Bytes, from: nat, middle: nat, end: nat)
    requires from <= middle <= end <= |whole|
    ensures whole[from..middle] + whole[middle..end] == whole[from..end]
  {
  }

  function Pow256(width: nat): nat {
    if width == 0 then 1 else 256 * Pow256(width - 1)
  }

  lemma Pow256Values()
    ensures Pow256(4) == U32_MAX + 1
    ensures Pow256(8) == U64_MAX + 1
  {
    assert Pow256(2) == 0x1_0000;
    assert Pow256(4) == 0x1_0000_0000;
    assert Pow256(6) == 0x1_0000_0000_0000;
  }

  /** The low `width` bytes of `value`, most significant byte first. */
  function BigEndian(value: nat, width: nat): (r: Bytes)
    ensures |r| == width
  {
    if width == 0 then [] else BigEndian(value / 256, width - 1) + [(value % 256) as Byte]
  }

  function FromBigEndian(b: Bytes): nat {
    if b == [] then 0 else 256 * FromBigEndian(b[..|b| - 1]) + b[|b| - 1] as nat
  }

  /** Byte `i` is the digit of its place, the most significant first. */
  lemma {:induction false} BigEndianBytes(value: nat, width: nat, i: nat)
    requires i < width
    ensures Pow256(width - 1 - i) > 0
    ensures BigEndian(value, width)[i] as nat == value / Pow256(width - 1 - i) % 256
  {
    if i < width - 1 {
      BigEndianBytes(value / 256, width - 1, i);
      DivideTwice(value, Pow256(width - 2 - i));
    }
  }

  lemma DivideTwice(value: nat, unit: nat)
    requires unit > 0
    ensures value / 256 / unit == value / (256 * unit)
  {
    var q := value / 256 / unit;
    QuotientBounds(value / 256, unit);
    TimesIsProduct(q, unit);
    TimesIsProduct(q, 256 * unit);
    assert q * (256 * unit) == 256 * (q * unit);
    QuotientUnique(value, 256 * unit, q);
  }

  /** The number that four bytes stand for, the most significant first. */
  function Value32(b: Bytes): nat
    requires |b| >= 4
  {
    b[0] as nat * 0x100_0000 + b[1] as nat * 0x1_0000 + b[2] as nat * 0x100 + b[3] as nat
  }

  /** The number that eight bytes stand for. */
  function Value64(b: Bytes): nat
    requires |b| >= 8
  {
    Value32(b) * 0x1_0000_0000 + Value32(b[4..])
  }

  lemma FourBytes(b: Bytes)
    requires |b| == 4
    ensures FromBigEndian(b) == Value32(b)
  {
    OneByteMore(b, 0);
    OneByteMore(b, 1);
    OneByteMore(b, 2);
    OneByteMore(b, 3);
    assert b[..4] == b;
  }

  lemma EightBytes(b: Bytes)
    requires |b| == 8
    ensures FromBigEndian(b) == Value64(b)
  {
    FourBytes(b[..4]);
    OneByteMore(b, 4);
    OneByteMore(b, 5);
    OneByteMore(b, 6);
    OneByteMore(b, 7);
    assert b[..8] == b;
  }

  lemma OneByteMore(b: Bytes, k: nat)
    requires k < |b|
    ensures FromBigEndian(b[..k + 1]) == 256 * FromBigEndian(b[..k]) + b[k] as nat
  {
    assert b[..k + 1][..k] == b[..k];
  }

  lemma {:induction false} BigEndianRoundTrip(value: nat, width: nat)
    requires value < Pow256(width)
    ensures FromBigEndian(BigEndian(value, width)) == value
  {
    if width > 0 {
      BigEndianRoundTrip(value / 256, width - 1);
      var encoded := BigEndian(value, width);
      assert encoded[..width - 1] == BigEndian(value / 256, width - 1);
    }
  }

  lemma {:induction false} FromBigEndianInverse(b: Bytes)
    ensures FromBigEndian(b) < Pow256(|b|)
    ensures BigEndian(FromBigEndian(b), |b|) == b
  {
    if b != [] {
      var front := b[..|b| - 1];
      FromBigEndianInverse(front);
      assert FromBigEndian(b) / 256 == FromBigEndian(front);
      assert b == front + [b[|b| - 1]];
    }
  }
}
