/** Bytes, fixed-width unsigned quantities and their encodings as byte strings.

    The client stores message bytes in a `char` buffer, the bit length as a
    `uint64_t` and the block count as a `uint32_t`. Integers here are
    unbounded, so every width is an explicit bound and every wrap-around an
    explicit `%`. */
module Bytes {

  type uint8 = x: int | 0 <= x < 0x100

  const UINT32_LIMIT: nat := 0x1_0000_0000

  /** 256 to the power `n`: the number of values an `n`-byte quantity holds. */
  function Pow256(n: nat): (r: nat)
    ensures r > 0
  {
    if n == 0 then 1 else 256 * Pow256(n - 1)
  }

  /** The result of an unsigned 32-bit C operation whose exact value is `x`. */
  function Wrap32(x: nat): (r: nat)
    ensures r < UINT32_LIMIT
    ensures x < UINT32_LIMIT ==> r == x
  {
    x % UINT32_LIMIT
  }

  /** `v >> 8*i` on an unsigned value: `i` right shifts by one byte. */
  function Shr8(v: nat, i: nat): (r: nat)
  {
    if i == 0 then v else Shr8(v / 256, i - 1)
  }

  /** `(v >> 8*i) & 0xff`: byte `i` of `v`, counting from the least significant. */
  function ByteAt(v: nat, i: nat): (b: uint8)
  {
    Shr8(v, i) % 256
  }

  /** Quotient and remainder are unique: Euclidean division by a positive divisor. */
  lemma DivisionUnique(a: nat, d: nat, q: nat, r: nat)
    requires 0 <= r < d
    requires a == d * q + r
    ensures a / d == q && a % d == r
  {
    var q', r' := a / d, a % d;
    assert a == d * q' + r';
    if q' != q {
      var lo, hi := if q' < q then q' else q, if q' < q then q else q';
      MulLeftMonotonic(d, lo + 1, hi);
      assert false;
    }
  }

  lemma MulLeftMonotonic(d: nat, x: nat, y: nat)
    requires x <= y
    ensures d * x <= d * y
  {
  }

  /** Dividing by 256 and then by `c` is dividing by `256*c`. */
  lemma DivDiv256(a: nat, c: nat)
    requires c > 0
    ensures a / 256 / c == a / (256 * c)
  {
    var q, r := a / 256, a % 256;
    var q2, r2 := q / c, q % c;
    assert a == 256 * q + r;
    assert q == c * q2 + r2;
    assert a == 256 * c * q2 + (256 * r2 + r);
    DivisionUnique(a, 256 * c, q2, 256 * r2 + r);
  }

  /** A right shift by `8*i` bits is a division by `256^i`, as the C operator
      `>>` on an unsigned operand defines it. */
  lemma {:induction false} Shr8IsDivision(v: nat, i: nat)
    ensures Shr8(v, i) == v / Pow256(i)
  {
    if i > 0 {
      Shr8IsDivision(v / 256, i - 1);
      DivDiv256(v, Pow256(i - 1));
    }
  }

  /** The `n`-byte big-endian encoding of `v`: the least significant byte last.
      Bytes of `v` beyond the `n` lowest are dropped. */
  function ToBigEndian(v: nat, n: nat): (s: seq<uint8>)
    ensures |s| == n
  {
    if n == 0 then [] else ToBigEndian(v / 256, n - 1) + [v % 256]
  }

  /** The value a big-endian byte string encodes. */
  function FromBigEndian(s: seq<uint8>): (v: nat)
    ensures v < Pow256(|s|)
  {
    if s == [] then 0 else FromBigEndian(s[..|s| - 1]) * 256 + s[|s| - 1]
  }

  /** The `n`-byte little-endian encoding of `v`: the least significant byte first. */
  function ToLittleEndian(v: nat, n: nat): (s: seq<uint8>)
    ensures |s| == n
  {
    if n == 0 then [] else [v % 256] + ToLittleEndian(v / 256, n - 1)
  }

  /** The value a little-endian byte string encodes. */
  function FromLittleEndian(s: seq<uint8>): (v: nat)
    ensures v < Pow256(|s|)
  {
    if s == [] then 0 else s[0] + 256 * FromLittleEndian(s[1..])
  }

  /** Counting from the end, byte `i` of a big-endian encoding is the byte that
      `(v >> 8*i) & 0xff` extracts. */
  lemma {:induction false} BigEndianByte(v: nat, n: nat, i: nat)
    requires i < n
    ensures ToBigEndian(v, n)[n - 1 - i] == ByteAt(v, i)
  {
    if i > 0 {
      BigEndianByte(v / 256, n - 1, i - 1);
    }
  }

  /** Decoding a big-endian encoding gives back every value that fits in `n` bytes. */
  lemma {:induction false} BigEndianRoundTrip(v: nat, n: nat)
    requires v < Pow256(n)
    ensures FromBigEndian(ToBigEndian(v, n)) == v
  {
    if n > 0 {
      var q, r := v / 256, v % 256;
      assert v == 256 * q + r;
      assert q < Pow256(n - 1);
      var s := ToBigEndian(v, n);
      assert s == ToBigEndian(q, n - 1) + [r];
      assert s[..n - 1] == ToBigEndian(q, n - 1);
      BigEndianRoundTrip(q, n - 1);
      assert FromBigEndian(s) == FromBigEndian(s[..n - 1]) * 256 + r;
    }
  }

  /** Encoding the value of a byte string gives back the string: the encoding
      is injective on values that fit. */
  lemma {:induction false} BigEndianOfDecoded(s: seq<uint8>)
    ensures ToBigEndian(FromBigEndian(s), |s|) == s
  {
    if s != [] {
      var init, last := s[..|s| - 1], s[|s| - 1];
      var v := FromBigEndian(s);
      DivisionUnique(v, 256, FromBigEndian(init), last);
      BigEndianOfDecoded(init);
      assert s == init + [last];
    }
  }

  /** Decoding a little-endian encoding gives back every value that fits in `n` bytes. */
  lemma {:induction false} LittleEndianRoundTrip(v: nat, n: nat)
    requires v < Pow256(n)
    ensures FromLittleEndian(ToLittleEndian(v, n)) == v
  {
    if n > 0 {
      var q, r := v / 256, v % 256;
      assert v == 256 * q + r;
      assert q < Pow256(n - 1);
      var s := ToLittleEndian(v, n);
      assert s == [r] + ToLittleEndian(q, n - 1);
      assert s[1..] == ToLittleEndian(q, n - 1);
      LittleEndianRoundTrip(q, n - 1);
      assert FromLittleEndian(s) == r + 256 * FromLittleEndian(s[1..]);
    }
  }
}
