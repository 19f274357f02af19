/** Selecting the bit of a key path that steers the walk at one tree level. */
module PathBits {
  import opened Bytes

  /** Bit `k` of byte `b`, counting from the most significant bit. */
  function ByteBit(b: byte, k: nat): (r: byte)
    requires k < 8
    ensures r == 0 || r == 1
  {
    var mask: byte := match k
      case 0 => 0x80
      case 1 => 0x40
      case 2 => 0x20
      case 3 => 0x10
      case 4 => 0x08
      case 5 => 0x04
      case 6 => 0x02
      case _ => 0x01;
    if b & mask == 0 then 0 else 1
  }

  /** Bit `i` of `path`, most significant bit of byte 0 first. It is
      defined byte by byte; `BitReadsItsByte` and `BitIsShiftAndMask`
      state the closed form `(path[i / 8] >> (7 - i % 8)) & 1`. */
  function Bit(path: Bytes, i: nat): (b: byte)
    requires i < 8 * |path|
    ensures b == 0 || b == 1
    decreases i
  {
    if i < 8 then ByteBit(path[0], i) else Bit(path[1..], i - 8)
  }

  /** Bit `k` of a byte is its shift-and-mask. */
  lemma ByteBitIsShiftAndMask(b: byte, k: nat)
    requires k < 8
    ensures ByteBit(b, k) == (b >> (7 - k)) & 1
  {
  }

  /** `Bit` is `(path[i / 8] >> (7 - i % 8)) & 1`. */
  lemma BitIsShiftAndMask(path: Bytes, i: nat)
    requires i < 8 * |path|
    ensures Bit(path, i) == (path[i / 8] >> (7 - i % 8)) & 1
  {
    BitReadsItsByte(path, i);
    ByteBitIsShiftAndMask(path[i / 8], i % 8);
  }

  /** The eight bits of one byte, in the order `Bit` visits them. */
  function BitsOfByte(b: byte): (bits: seq<byte>)
    ensures |bits| == 8
  {
    seq(8, j requires 0 <= j < 8 => ByteBit(b, j))
  }

  /** Bit `i` of a path is bit `i % 8` of its byte `i / 8`: byte 0 is read
      first, and within a byte the walk proceeds from the high bit down. */
  lemma {:induction false} BitReadsItsByte(path: Bytes, i: nat)
    requires i < 8 * |path|
    ensures Bit(path, i) == BitsOfByte(path[i / 8])[i % 8]
    decreases i
  {
    if 8 <= i {
      BitReadsItsByte(path[1..], i - 8);
      assert (i - 8) / 8 == i / 8 - 1 && (i - 8) % 8 == i % 8;
      assert path[1..][i / 8 - 1] == path[i / 8];
    }
  }

  /** Two bytes with the same eight selected bits are equal: the selector
      reads every bit of a byte. */
  lemma SameBitsSameByte(a: byte, b: byte)
    requires BitsOfByte(a) == BitsOfByte(b)
    ensures a == b
  {
    var x, y := BitsOfByte(a), BitsOfByte(b);
    assert x[0] == y[0] && x[1] == y[1] && x[2] == y[2] && x[3] == y[3];
    assert x[4] == y[4] && x[5] == y[5] && x[6] == y[6] && x[7] == y[7];
  }

  /** Two different bytes have different selected bits. */
  lemma DifferentBytesDifferentBits(a: byte, b: byte)
    requires a != b
    ensures BitsOfByte(a) != BitsOfByte(b)
  {
    if BitsOfByte(a) == BitsOfByte(b) {
      SameBitsSameByte(a, b);
      assert false;
    }
  }

  /** Bit `8 * k + j` of a path is bit `j` of its byte `k`. */
  lemma BitAtByteAndOffset(path: Bytes, k: nat, j: nat)
    requires k < |path| && j < 8
    ensures 8 * k + j < 8 * |path|
    ensures Bit(path, 8 * k + j) == BitsOfByte(path[k])[j]
  {
    var i := 8 * k + j;
    assert i / 8 == k && i % 8 == j;
    BitReadsItsByte(path, i);
  }

  /** Two paths of equal length that differ somewhere turn different ways at
      some level. */
  lemma DifferentPathsDifferInABit(p: Bytes, q: Bytes)
    requires |p| == |q| && p != q
    ensures exists i | 0 <= i < 8 * |p| :: Bit(p, i) != Bit(q, i)
  {
    var k :| 0 <= k < |p| && p[k] != q[k];
    DifferentBytesDifferentBits(p[k], q[k]);
    var j :| 0 <= j < 8 && BitsOfByte(p[k])[j] != BitsOfByte(q[k])[j];
    BitAtByteAndOffset(p, k, j);
    BitAtByteAndOffset(q, k, j);
    assert Bit(p, 8 * k + j) != Bit(q, 8 * k + j);
  }

  /** The first level at which two different paths of equal length turn
      different ways. */
  function FirstDifferingBit(p: Bytes, q: Bytes): (d: nat)
    requires |p| == |q| && p != q
    ensures d < 8 * |p|
    ensures Bit(p, d) != Bit(q, d)
    ensures forall j | 0 <= j < d :: Bit(p, j) == Bit(q, j)
  {
    DifferentPathsDifferInABit(p, q);
    FirstDifferingBitFrom(p, q, 0)
  }

  function FirstDifferingBitFrom(p: Bytes, q: Bytes, i: nat): (d: nat)
    requires |p| == |q| && i <= 8 * |p|
    requires forall j | 0 <= j < i :: Bit(p, j) == Bit(q, j)
    requires exists j | i <= j < 8 * |p| :: Bit(p, j) != Bit(q, j)
    ensures i <= d < 8 * |p|
    ensures Bit(p, d) != Bit(q, d)
    ensures forall j | 0 <= j < d :: Bit(p, j) == Bit(q, j)
    decreases 8 * |p| - i
  {
    if Bit(p, i) != Bit(q, i) then i else FirstDifferingBitFrom(p, q, i + 1)
  }
}
