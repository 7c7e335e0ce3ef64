/** The two result types the Rust sources use everywhere. */
module Wrappers {
  datatype Option<+T> = None | Some(value: T)

  datatype Result<+T, +E> = Ok(value: T) | Err(error: E)
}

/** Saying which elements of a list a filter keeps, by their positions. */
module Positions {
  ghost predicate Increasing(at: seq<nat>) { forall i, j :: 0 <= i < j < |at| ==> at[i] < at[j] }

  /** `r` holds the elements of `s` at these positions, in order. */
  ghost predicate Picks<T>(s: seq<T>, at: seq<nat>, r: seq<T>)
  {
    && |r| == |at| && Increasing(at)
    && forall j :: 0 <= j < |at| ==> at[j] < |s| && r[j] == s[at[j]]
  }

  /** The positions seen from a list with one more element in front, kept or not. */
  function Behind(at: seq<nat>, kept: bool): (r: seq<nat>)
    ensures |r| == |at| + (if kept then 1 else 0)
  {
    (if kept then [0] else []) + seq(|at|, i requires 0 <= i < |at| => at[i] + 1)
  }

  lemma BehindFacts(at: seq<nat>, kept: bool)
    requires Increasing(at)
    ensures Increasing(Behind(at, kept))
    ensures forall i: nat :: i in Behind(at, kept) <==> if i == 0 then kept else i - 1 in at
  {
    var r, shift := Behind(at, kept), if kept then 1 else 0;
    forall i: nat | i > 0 && i - 1 in at ensures i in r {
      var j :| 0 <= j < |at| && at[j] == i - 1;
      assert r[j + shift] == i;
    }
    if kept { assert r[0] == 0; }
  }

  lemma PicksBehind<T>(s: seq<T>, at: seq<nat>, r: seq<T>, kept: bool)
    requires s != [] && Picks(s[1..], at, r)
    ensures Picks(s, Behind(at, kept), (if kept then [s[0]] else []) + r)
  {
    BehindFacts(at, kept);
  }
}

/** The machine integers of the sources, as ranges of the mathematical integers.
    Assigning to a variable of one of these types is a proof that nothing wrapped. */
module Integers {
  const I64_MIN: int := -0x8000_0000_0000_0000
  const I64_MAX: int := 0x7FFF_FFFF_FFFF_FFFF
  const U64_MAX: int := 0xFFFF_FFFF_FFFF_FFFF
  const U32_MAX: int := 0xFFFF_FFFF
  const I128_MAX: int := 0x7FFF_FFFF_FFFF_FFFF_FFFF_FFFF_FFFF_FFFF

  type I64 = x: int | I64_MIN <= x <= I64_MAX
  type U64 = x: int | 0 <= x <= U64_MAX
  type U32 = x: int | 0 <= x <= U32_MAX
  type I128 = x: int | -I128_MAX - 1 <= x <= I128_MAX

  function Min(a: int, b: int): int { if a <= b then a else b }

  function Max(a: int, b: int): int { if a <= b then b else a }

  lemma NonNegativeProduct(a: int, b: int)
    requires a >= 0 && b >= 0
    ensures a * b >= 0
  {
  }

  lemma MulMonotone(a: int, b: int, d: int)
    requires a <= b && d >= 0
    ensures a * d <= b * d
  {
    assert b * d == a * d + (b - a) * d;
    NonNegativeProduct(b - a, d);
  }

  lemma MulAtLeast(n: int, d: int)
    requires n >= 1 && d >= 0
    ensures n * d >= d
  {
    MulMonotone(1, n, d);
  }
}
