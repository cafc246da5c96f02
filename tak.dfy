/** Takeuchi's function as benchmarked in C and Java (long), Go (int) and Go wasm
    (int32, bench/wasm/tak_bench.go, with its `tak_bench` driver). The recursion is
    not structural, so the model bounds its depth by a fuel argument: None means the
    call needs more nested levels than the fuel allows. */
module Takeuchi {

  import opened FixedWidth

  datatype Option<T> = None | Some(value: T)

  function Min(a: int, b: int): int { if a <= b then a else b }

  function Max3(a: int, b: int, c: int): int
  {
    if a >= b && a >= c then a else if b >= c then b else c
  }

  /** `tak(x, y, z)`: z when x <= y, otherwise tak of the three rotated calls. The
      arguments are exact integers (see README for the int32 case). Dafny functions
      have no effects, so the order of the three inner calls cannot matter. */
  function Tak(x: int, y: int, z: int, fuel: nat): (r: Option<int>)
    ensures fuel > 0 && x <= y ==> r == Some(z)
    decreases fuel
  {
    if fuel == 0 then None
    else if x <= y then Some(z)
    else
      match (Tak(x - 1, y, z, fuel - 1), Tak(y - 1, z, x, fuel - 1), Tak(z - 1, x, y, fuel - 1))
      case (Some(a), Some(b), Some(c)) => Tak(a, b, c, fuel - 1)
      case _ => None
  }

  /** More fuel never changes an answer already found. */
  lemma {:induction false} TakFuelMonotone(x: int, y: int, z: int, fuel: nat, more: nat)
    requires fuel <= more && Tak(x, y, z, fuel).Some?
    ensures Tak(x, y, z, more) == Tak(x, y, z, fuel)
    decreases fuel
  {
    if x > y {
      var a, b, c := Tak(x - 1, y, z, fuel - 1), Tak(y - 1, z, x, fuel - 1), Tak(z - 1, x, y, fuel - 1);
      TakFuelMonotone(x - 1, y, z, fuel - 1, more - 1);
      TakFuelMonotone(y - 1, z, x, fuel - 1, more - 1);
      TakFuelMonotone(z - 1, x, y, fuel - 1, more - 1);
      TakFuelMonotone(a.value, b.value, c.value, fuel - 1, more - 1);
    }
  }

  /** The result lies between min(y, z) and max(x, y, z); when x > y that is the
      range of the three arguments. */
  lemma {:induction false} TakBounds(x: int, y: int, z: int, fuel: nat)
    requires Tak(x, y, z, fuel).Some?
    ensures Min(y, z) <= Tak(x, y, z, fuel).value <= Max3(x, y, z)
    decreases fuel
  {
    if x > y {
      var a, b, c := Tak(x - 1, y, z, fuel - 1), Tak(y - 1, z, x, fuel - 1), Tak(z - 1, x, y, fuel - 1);
      TakBounds(x - 1, y, z, fuel - 1);
      TakBounds(y - 1, z, x, fuel - 1);
      TakBounds(z - 1, x, y, fuel - 1);
      TakBounds(a.value, b.value, c.value, fuel - 1);
    }
  }

  /** What `tak_bench(x, y, z, iterations)` returns after k rounds: each round calls
      tak on x plus the low bit of the previous result (`result & 1`, the Euclidean
      `result % 2`), the int32 sum wrapping; None once a call runs out of fuel. */
  function TakRounds(x: int, y: int, z: int, fuel: nat, k: nat): (r: Option<int>)
    ensures k == 0 ==> r == Some(0)
  {
    if k == 0 then Some(0)
    else match TakRounds(x, y, z, fuel, k - 1)
      case Some(prev) => Tak(Wrap32(x + prev % 2), y, z, fuel)
      case None => None
  }

  /** Each round calls tak on x or on x + 1 (wrapped), and on x for the first. */
  lemma TakRoundsInputs(x: int, y: int, z: int, fuel: nat, k: nat)
    requires IsInt32(x) && TakRounds(x, y, z, fuel, k).Some?
    ensures k == 1 ==> TakRounds(x, y, z, fuel, k) == Tak(x, y, z, fuel)
    ensures k >= 1 ==> TakRounds(x, y, z, fuel, k) == Tak(x, y, z, fuel) || TakRounds(x, y, z, fuel, k) == Tak(Wrap32(x + 1), y, z, fuel)
  {
    if k >= 1 {
      var bit := TakRounds(x, y, z, fuel, k - 1).value % 2;
      assert TakRounds(x, y, z, fuel, k) == Tak(Wrap32(x + bit), y, z, fuel);
      if bit == 0 {
        WrapInRange(x, TWO_31);
        assert Wrap32(x + bit) == x;
      } else {
        assert x + bit == x + 1;
      }
    }
  }

  /** `tak_bench(x, y, z, iterations)` with every tak call given the fuel: 0 when
      iterations <= 0, and the last round's result otherwise. */
  method TakBench(x: int, y: int, z: int, iterations: int, fuel: nat) returns (result: Option<int>)
    requires IsInt32(x) && IsInt32(iterations)
    ensures result == TakRounds(x, y, z, fuel, if iterations <= 0 then 0 else iterations)
  {
    result := Some(0);
    var i := 0;
    while i < iterations
      invariant 0 <= i && (iterations <= 0 ==> i == 0) && (iterations > 0 ==> i <= iterations)
      invariant result == TakRounds(x, y, z, fuel, i)
    {
      if result.Some? {
        result := Tak(Wrap32(x + result.value % 2), y, z, fuel);
      }
      i := i + 1;
    }
  }
}
