/** Byte-level operations of the receiver: bitSet and bitClear (the two
  * Arduino macros mod_isr calls, bit 0 being the least significant bit)
  * and memcmp; Bit, a bitRead-style reading of one bit used to state the
  * contracts; and the reading of a byte array as a bit string (bit k is
  * bit k % 8 of byte k / 8). */
module Bits {

  /** Bit i of b, counted from the least significant bit (as bitRead reads it). */
  function Bit(b: bv8, i: nat): (isSet: bool)
    requires i < 8
  {
    (b >> i) & 1 == 1
  }

  /** bitSet(b, i): turns bit i on and leaves the other seven bits alone. */
  function BitSet(b: bv8, i: nat): (r: bv8)
    requires i < 8
    ensures Bit(r, i)
    ensures forall j :: 0 <= j < 8 && j != i ==> Bit(r, j) == Bit(b, j)
  {
    b | (1 << i)
  }

  /** bitClear(b, i): turns bit i off and leaves the other seven bits alone. */
  function BitClear(b: bv8, i: nat): (r: bv8)
    requires i < 8
    ensures !Bit(r, i)
    ensures forall j :: 0 <= j < 8 && j != i ==> Bit(r, j) == Bit(b, j)
  {
    b & !(1 << i)
  }

  /** A byte is determined by its eight bits. */
  lemma {:induction false} ByteExt(x: bv8, y: bv8)
    requires forall j :: 0 <= j < 8 ==> Bit(x, j) == Bit(y, j)
    ensures x == y
  {
    assert Bit(x, 0) == Bit(y, 0) && Bit(x, 1) == Bit(y, 1);
    assert Bit(x, 2) == Bit(y, 2) && Bit(x, 3) == Bit(y, 3);
    assert Bit(x, 4) == Bit(y, 4) && Bit(x, 5) == Bit(y, 5);
    assert Bit(x, 6) == Bit(y, 6) && Bit(x, 7) == Bit(y, 7);
  }

  /** The byte that is all zero has no bit set. */
  lemma ZeroByte(x: bv8)
    ensures x == 0 <==> forall j :: 0 <= j < 8 ==> !Bit(x, j)
  {
    if forall j :: 0 <= j < 8 ==> !Bit(x, j) {
      ByteExt(x, 0);
    }
  }

  /** The first n bits of a byte string, bit k taken from bit k % 8 of byte k / 8. */
  function BitsOf(a: seq<bv8>, n: nat): (r: seq<bool>)
    requires n <= 8 * |a|
    ensures |r| == n
  {
    seq(n, k requires 0 <= k < n => Bit(a[k / 8], k % 8))
  }

  /** Two byte strings of equal length are equal exactly when all their bits are. */
  lemma {:induction false} BytesEqIffBitsEq(a: seq<bv8>, b: seq<bv8>)
    requires |a| == |b|
    ensures a == b <==> BitsOf(a, 8 * |a|) == BitsOf(b, 8 * |b|)
  {
    if BitsOf(a, 8 * |a|) == BitsOf(b, 8 * |b|) {
      forall i | 0 <= i < |a|
        ensures a[i] == b[i]
      {
        forall j | 0 <= j < 8
          ensures Bit(a[i], j) == Bit(b[i], j)
        {
          var k := 8 * i + j;
          assert k / 8 == i && k % 8 == j;
          assert BitsOf(a, 8 * |a|)[k] == BitsOf(b, 8 * |b|)[k];
        }
        ByteExt(a[i], b[i]);
      }
    }
  }

  /** memcmp(a, b, n): zero when the first n bytes agree, otherwise the
    * difference of the first pair of bytes (as unsigned char) that differ. */
  function Memcmp(a: seq<bv8>, b: seq<bv8>, n: nat): (r: int)
    requires n <= |a| && n <= |b|
    ensures r == 0 <==> a[..n] == b[..n]
    ensures r < 0 ==> exists i :: 0 <= i < n && a[..i] == b[..i] && a[i] < b[i]
    ensures r > 0 ==> exists i :: 0 <= i < n && a[..i] == b[..i] && a[i] > b[i]
  {
    if n == 0 then 0
    else if a[0] != b[0] then
      assert a[..0] == b[..0];
      a[0] as int - b[0] as int
    else
      var r := Memcmp(a[1..], b[1..], n - 1);
      assert a[..n] == [a[0]] + a[1..][..n - 1] && b[..n] == [b[0]] + b[1..][..n - 1];
      if r < 0 then
        var i :| 0 <= i < n - 1 && a[1..][..i] == b[1..][..i] && a[1..][i] < b[1..][i];
        assert a[..i + 1] == [a[0]] + a[1..][..i] && b[..i + 1] == [b[0]] + b[1..][..i];
        r
      else if r > 0 then
        var i :| 0 <= i < n - 1 && a[1..][..i] == b[1..][..i] && a[1..][i] > b[1..][i];
        assert a[..i + 1] == [a[0]] + a[1..][..i] && b[..i + 1] == [b[0]] + b[1..][..i];
        r
      else r
  }
}
