/** Two's-complement machine integers. Go's int32 and int64 and Java's long wrap
    around modulo 2^32 or 2^64; the model computes on unbounded integers and applies
    Wrap where the source's operation can leave the range of its type. C's signed
    overflow has no defined result; where a C kernel shares a model with a Go or Java
    one, the wrap is the model's choice for that case. */
module FixedWidth {

  import opened NonLinear

  const TWO_31: int := 0x8000_0000
  const TWO_63: int := 0x8000_0000_0000_0000

  predicate IsInt32(x: int) { -TWO_31 <= x < TWO_31 }

  predicate IsInt64(x: int) { -TWO_63 <= x < TWO_63 }

  /** The signed word in [-half, half) congruent to x modulo 2 * half (see WrapResidue). */
  function Wrap(x: int, half: int): (r: int)
    requires half > 0
    ensures -half <= r < half
  {
    (x + half) % (2 * half) - half
  }

  /** Wrapping changes x by a multiple of 2 * half. */
  lemma WrapResidue(x: int, half: int)
    requires half > 0
    ensures (x - Wrap(x, half)) % (2 * half) == 0
  {
    var m := 2 * half;
    assert x - Wrap(x, half) == (x + half) / m * m;
    ModMultiple((x + half) / m, m);
  }

  function Wrap32(x: int): (r: int)
    ensures IsInt32(r)
  {
    Wrap(x, TWO_31)
  }

  function Wrap64(x: int): (r: int)
    ensures IsInt64(r)
  {
    Wrap(x, TWO_63)
  }

  /** Two integers in the same residue class wrap to the same word. */
  lemma WrapCongruent(x: int, y: int, half: int)
    requires half > 0
    requires (x - y) % (2 * half) == 0
    ensures Wrap(x, half) == Wrap(y, half)
  {
    var m := 2 * half;
    var rx, ry := Wrap(x, half), Wrap(y, half);
    WrapResidue(x, half);
    WrapResidue(y, half);
    // rx - ry is a multiple of m lying strictly between -m and m, hence 0
    var k := (x - y) / m;
    assert x - y == k * m;
    var kx, ky := (x - rx) / m, (y - ry) / m;
    assert x - rx == kx * m;
    assert y - ry == ky * m;
    assert rx - ry == (k - kx + ky) * m;
    SmallMultipleIsZero(k - kx + ky, m, rx - ry);
  }

  /** A value already in range is its own wrap. */
  lemma WrapInRange(x: int, half: int)
    requires half > 0 && -half <= x < half
    ensures Wrap(x, half) == x
  {
    var r := Wrap(x, half);
    WrapResidue(x, half);
    var k := (x - r) / (2 * half);
    assert x - r == k * (2 * half);
    SmallMultipleIsZero(k, 2 * half, x - r);
  }

  /** Wrapping leaves x unchanged exactly when x is already in range. */
  lemma WrapExact(x: int, half: int)
    requires half > 0
    ensures Wrap(x, half) == x <==> -half <= x < half
  {
    if -half <= x < half {
      WrapInRange(x, half);
    }
  }

  /** Adding wrapped operands and wrapping gives the wrap of the exact sum. */
  lemma WrapAdd(x: int, y: int, half: int)
    requires half > 0
    ensures Wrap(Wrap(x, half) + Wrap(y, half), half) == Wrap(x + y, half)
  {
    var m := 2 * half;
    var rx, ry := Wrap(x, half), Wrap(y, half);
    WrapResidue(x, half);
    WrapResidue(y, half);
    var kx, ky := (x - rx) / m, (y - ry) / m;
    assert x - rx == kx * m;
    assert y - ry == ky * m;
    assert (x + y) - (rx + ry) == (kx + ky) * m;
    ModMultiple(kx + ky, m);
    WrapCongruent(x + y, rx + ry, half);
  }

  /** Multiplying a wrapped operand by y and wrapping gives the wrap of the exact product. */
  lemma WrapMul(x: int, y: int, half: int)
    requires half > 0
    ensures Wrap(Wrap(x, half) * y, half) == Wrap(x * y, half)
  {
    var m := 2 * half;
    var rx := Wrap(x, half);
    WrapResidue(x, half);
    var kx := (x - rx) / m;
    assert x - rx == kx * m;
    assert x * y - rx * y == (kx * y) * m;
    ModMultiple(kx * y, m);
    WrapCongruent(x * y, rx * y, half);
  }
}
