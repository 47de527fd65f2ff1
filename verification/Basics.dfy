// Options, machine integer bounds and set sizes, as the other modules use them.
module Options {
  datatype Option<+T> = None | Some(value: T)
}

module Numbers {
  const U32_MAX := 0xffff_ffff
  const U64_MAX := 0xffff_ffff_ffff_ffff

  type U32 = x: int | 0 <= x <= U32_MAX
  type U64 = x: int | 0 <= x <= U64_MAX

  function Min(a: nat, b: nat): nat { if a < b then a else b }

  // A sum that stops at its type's bound.
  function Saturated(x: nat, bound: nat): (y: nat)
    ensures y <= bound && (x <= bound ==> y == x)
  {
    Min(x, bound)
  }

  function SaturatingSub(a: nat, b: nat): nat { if a >= b then a - b else 0 }

  lemma MulOrder(a: int, b: int, c: nat)
    ensures a <= b ==> a * c <= b * c && c * a <= c * b
  {
  }

  lemma {:induction false} SubsetSize<T>(a: set<T>, b: set<T>)
    requires a <= b
    ensures |a| <= |b|
  {
    if a != {} {
      var x :| x in a;
      SubsetSize(a - {x}, b - {x});
    }
  }
}
