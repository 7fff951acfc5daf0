/** Bytes, fixed-width little-endian integers and the result types every other module uses. */
module Bytes {

  type byte = b: int | 0 <= b < 256

  /** A unit of text: a byte, or a character where offsets count characters. */
  type scalar = c: int | 0 <= c <= 0x10_FFFF

  datatype Option<+T> = None | Some(value: T)

  datatype Result<+T> = Ok(value: T) | Err

  const U16_MAX := 0xFFFF
  const U32_MAX := 0xFFFF_FFFF
  const U64_MAX := 0xFFFF_FFFF_FFFF_FFFF

  type u8 = byte
  type u32 = x: int | 0 <= x <= U32_MAX
  type u64 = x: int | 0 <= x <= U64_MAX

  function Min(a: int, b: int): int { if a <= b then a else b }

  function Max(a: int, b: int): int { if a <= b then b else a }

  function Pow256(width: nat): (p: nat)
    ensures p > 0
  {
    if width == 0 then 1 else 256 * Pow256(width - 1)
  }

  /** The low `width` bytes of `x`, least significant first; higher bytes are cut off, as a narrowing cast does. */
  function Le(width: nat, x: nat): (s: seq<byte>)
    ensures |s| == width
  {
    if width == 0 then [] else [x % 256] + Le(width - 1, x / 256)
  }

  function FromLe(s: seq<byte>): (x: nat)
    ensures x < Pow256(|s|)
  {
    if s == [] then 0 else s[0] + 256 * FromLe(s[1..])
  }

  lemma {:induction false} FromLeOfLe(width: nat, x: nat)
    requires x < Pow256(width)
    ensures FromLe(Le(width, x)) == x
  {
    if width > 0 {
      assert Le(width, x)[1..] == Le(width - 1, x / 256);
      FromLeOfLe(width - 1, x / 256);
    }
  }

  lemma {:induction false} LeOfFromLe(s: seq<byte>)
    ensures Le(|s|, FromLe(s)) == s
  {
    if s != [] {
      var x, rest := FromLe(s), FromLe(s[1..]);
      LeOfFromLe(s[1..]);
      assert x % 256 == s[0] && x / 256 == rest;
      assert s == [s[0]] + s[1..];
    }
  }

  // ---- what the bytes of a number are ----

  /** Two, four or eight bytes as digits of a number, the least significant first. */
  ghost predicate IsU16(b: seq<byte>, x: nat) {
    |b| == 2 && var d: seq<int> := b; x == d[0] + 0x100 * d[1]
  }

  ghost predicate IsU32(b: seq<byte>, x: nat) {
    |b| == 4 && var d: seq<int> := b; x == d[0] + 0x100 * d[1] + 0x1_0000 * d[2] + 0x100_0000 * d[3]
  }

  ghost predicate IsU64(b: seq<byte>, x: nat) {
    |b| == 8 && var d: seq<int> := b;
    x == d[0] + 0x100 * d[1] + 0x1_0000 * d[2] + 0x100_0000 * d[3]
         + 0x1_0000_0000 * (d[4] + 0x100 * d[5] + 0x1_0000 * d[6] + 0x100_0000 * d[7])
  }

  lemma TwoMore(width: nat, x: nat)
    ensures var b := Le(width + 2, x); var rest := x / 256 / 256;
            b[2..] == Le(width, rest) && var d: seq<int> := b; x == d[0] + 0x100 * d[1] + 0x1_0000 * rest
  {
    var q := x / 256;
    assert Le(width + 2, x) == [x % 256] + Le(width + 1, q);
    assert Le(width + 1, q) == [q % 256] + Le(width, q / 256);
    assert Le(width + 2, x)[2..] == Le(width, q / 256);
    hide Le;
    assert x == 256 * q + x % 256 && q == 256 * (q / 256) + q % 256;
  }

  lemma LeDigits(x: nat)
    ensures x <= U16_MAX ==> IsU16(Le(2, x), x)
    ensures x <= U32_MAX ==> IsU32(Le(4, x), x)
    ensures x <= U64_MAX ==> IsU64(Le(8, x), x)
  {
    hide Le;
    var x2, x4, x6 := x / 256 / 256, x / 256 / 256 / 256 / 256, x / 256 / 256 / 256 / 256 / 256 / 256;
    TwoMore(0, x);
    TwoMore(2, x);
    TwoMore(0, x2);
    TwoMore(6, x);
    TwoMore(4, x2);
    TwoMore(2, x4);
    TwoMore(0, x6);
  }

  lemma FromLeDigits(b: seq<byte>)
    ensures |b| == 2 ==> IsU16(b, FromLe(b))
    ensures |b| == 4 ==> IsU32(b, FromLe(b))
    ensures |b| == 8 ==> IsU64(b, FromLe(b))
  {
    if |b| == 2 || |b| == 4 || |b| == 8 {
      LeOfFromLe(b);
      Widths();
      LeDigits(FromLe(b));
    }
  }

  /** The three integer widths of the on-disk format. */
  lemma Widths()
    ensures Pow256(2) == U16_MAX + 1
    ensures Pow256(4) == U32_MAX + 1
    ensures Pow256(8) == U64_MAX + 1
  {
    assert Pow256(3) == 256 * Pow256(2);
    assert Pow256(5) == 256 * Pow256(4);
    assert Pow256(6) == 256 * Pow256(5);
    assert Pow256(7) == 256 * Pow256(6);
  }

  /** Slices of slices. */
  lemma Slices<T>(s: seq<T>, i: nat, n: nat)
    requires i + n <= |s|
    ensures s[i..][n..] == s[i + n..]
    ensures s[i..][..n] == s[i..i + n] == s[..i + n][i..]
    ensures s[..i + n][..i] == s[..i]
    ensures s == s[..i] + s[i..] && s[i..] == s[i..i + n] + s[i + n..]
    ensures s[..i + n] == s[..i] + s[i..i + n]
  {
  }

  lemma SlicesWithin<T>(s: seq<T>, i: nat, j: nat, n: nat)
    requires i + n <= j <= |s|
    ensures s[i..j][..n] == s[i..i + n]
    ensures s[i..j][n..] == s[i + n..j]
  {
  }

  lemma SliceOfSlice<T>(s: seq<T>, i: nat, j: nat, p: nat, q: nat)
    requires p <= q && i + q <= j <= |s|
    ensures s[i..j][p..q] == s[i + p..i + q]
  {
    var t := s[i..j];
    assert forall k :: p <= k < q ==> t[k] == s[i + k];
  }

  lemma ConcatAssoc<T>(a: seq<T>, b: seq<T>, c: seq<T>)
    ensures (a + b) + c == a + (b + c)
  {
  }

  lemma SlicesOfConcat<T>(a: seq<T>, b: seq<T>, n: nat)
    requires n <= |a|
    ensures (a + b)[n..] == a[n..] + b
    ensures (a + b)[..n] == a[..n]
  {
  }
}
