/**
  The capacity policy of `string_t` (src/string.c): `_expand_string_data`
  grows the block in a do-while loop, doubling below 128 bytes and then
  growing by half, and `_shrink_string_data` halves it at most once when the
  content fits in less than half and the halved block stays above the
  default capacity.  The `(float)c * 1.5f` of the source is the integer
  c + c / 2.  The two agree for every c below 5 592 409; from there on the
  float product can round up to the next even integer before truncation.
 */
module Growth {
  import opened Buffer

  /** Below this capacity the block doubles; from it on it grows by half. */
  const TaperThreshold: nat := 128

  /** One pass of the do-while body of `_expand_string_data`. */
  function GrowStep(c: nat): (r: nat)
    ensures 0 < c ==> c < r <= 2 * c
    ensures c < TaperThreshold ==> r == 2 * c
    ensures TaperThreshold <= c ==> r == c + c / 2 && 2 * r <= 3 * c
  {
    if c < TaperThreshold then 2 * c else c + c / 2
  }

  /** The capacity after `n` passes of the growth step. */
  function Grown(c: nat, n: nat): nat
    decreases n
  {
    if n == 0 then c else Grown(GrowStep(c), n - 1)
  }

  /**
    The capacity `_expand_string_data(min)` arrives at: it grows at least
    once, and it stops at the first capacity that reaches `min`.  A zero
    capacity would never grow; no `string_t` has one.
   */
  function Expand(c: nat, min: nat): (r: nat)
    requires 0 < c
    ensures min <= r
    ensures c < r
    ensures c < min ==> r < 2 * min
    ensures min <= c ==> r == GrowStep(c)
    decreases if c < min then min - c else 0
  {
    var next := GrowStep(c);
    if min <= next then next else Expand(next, min)
  }

  lemma {:induction false} GrownSucc(c: nat, n: nat)
    ensures Grown(c, n + 1) == GrowStep(Grown(c, n))
    decreases n
  {
    if n > 0 {
      GrownSucc(GrowStep(c), n - 1);
    }
  }

  /**
    `Expand` is exactly "the first capacity, after at least one growth step,
    that reaches `min`": any step count `n` with that property gives it.
   */
  lemma {:induction false} ExpandIsFirstReaching(c: nat, min: nat, n: nat)
    requires 0 < c && 1 <= n
    requires min <= Grown(c, n)
    requires forall m :: 1 <= m < n ==> Grown(c, m) < min
    ensures Expand(c, min) == Grown(c, n)
    decreases n
  {
    if n > 1 {
      assert Grown(c, 1) == GrowStep(c);
      var next := GrowStep(c);
      forall m | 1 <= m < n - 1
        ensures Grown(next, m) < min
      {
        assert Grown(c, m + 1) == Grown(next, m);
      }
      ExpandIsFirstReaching(next, min, n - 1);
    }
  }

  /**
    The do-while loop of `_expand_string_data` itself, returning the final
    capacity and the number of passes it made.
   */
  method ExpandLoop(c: nat, min: nat) returns (cap: nat, steps: nat)
    requires 0 < c
    ensures 1 <= steps
    ensures cap == Grown(c, steps)
    ensures min <= cap
    ensures forall m :: 1 <= m < steps ==> Grown(c, m) < min
    ensures cap == Expand(c, min)
  {
    cap, steps := GrowStep(c), 1;
    assert Grown(c, 1) == GrowStep(c);
    while cap < min
      invariant 1 <= steps
      invariant c <= cap
      invariant cap == Grown(c, steps)
      invariant forall m :: 1 <= m < steps ==> Grown(c, m) < min
      decreases min - cap
    {
      GrownSucc(c, steps);
      cap, steps := GrowStep(cap), steps + 1;
    }
    ExpandIsFirstReaching(c, min, steps);
  }

  /**
    `_shrink_string_data`: halve once when the content uses less than half
    of the block and the half is still above the default capacity.
   */
  function Shrink(len: nat, c: nat): (r: nat)
    ensures r == c || r == c / 2
    ensures r == c / 2 && r != c <==> len < c / 2 && DefaultCapacity < c / 2
    ensures len < c ==> len < r
    ensures r < c ==> DefaultCapacity < r
  {
    if len < c / 2 && DefaultCapacity < c / 2 then c / 2 else c
  }

  /** At or below twice the floor plus one, the block is never halved. */
  lemma ShrinkFloor(len: nat, c: nat)
    requires c <= 2 * DefaultCapacity + 1
    ensures Shrink(len, c) == c
  {
  }

  /** The capacities the unit tests pin for growth (tests/unit/unit_tests.c:131-166). */
  lemma GrowthFromDefault()
    ensures Grown(DefaultCapacity, 1) == 32
    ensures Grown(DefaultCapacity, 2) == 64
    ensures Grown(DefaultCapacity, 3) == 128
    ensures Grown(DefaultCapacity, 4) == 192
    ensures Grown(DefaultCapacity, 5) == 288
    ensures Expand(DefaultCapacity, 17) == 32
    ensures Expand(128, 129) == 192
    ensures Expand(192, 193) == 288
  {
  }

  /** The capacities the unit tests pin for shrinking (tests/unit/unit_tests.c:168-187). */
  lemma ShrinkFrom192()
    ensures Shrink(96, 192) == 192 && Shrink(95, 192) == 96
    ensures Shrink(48, 96) == 96 && Shrink(47, 96) == 48
    ensures Shrink(24, 48) == 48 && Shrink(23, 48) == 24
    ensures forall len: nat :: Shrink(len, 24) == 24
  {
  }

  /** Which realloc inside one operation fails, if any. */
  datatype Realloc = AllSucceed | FailAt(step: nat)

  /**
    What a resize leaves behind: the capacity recorded in the struct, the
    size of the block actually allocated, and whether every realloc
    succeeded.
   */
  datatype Resize = Resize(recorded: nat, block: nat, ok: bool)

  /**
    `_expand_string_data` as written: each pass stores the new capacity in
    the struct BEFORE calling realloc, and returns on failure without
    restoring it.
   */
  function ExpandAsWritten(c: nat, min: nat, realloc: Realloc): (r: Resize)
    requires 0 < c
    ensures realloc == AllSucceed ==> r == Resize(Expand(c, min), Expand(c, min), true)
    ensures !r.ok ==> r.block < r.recorded
    ensures !r.ok ==> r.recorded == GrowStep(r.block)
    decreases if c < min then min - c else 0
  {
    var next := GrowStep(c);
    if realloc == FailAt(0) then Resize(next, c, false)
    else if min <= next then Resize(next, next, true)
    else ExpandAsWritten(next, min, if realloc.FailAt? then FailAt(realloc.step - 1) else realloc)
  }

  /**
    `_shrink_string_data` as written: the halved capacity is stored before
    realloc and kept when realloc fails.
   */
  function ShrinkAsWritten(len: nat, c: nat, reallocOk: bool): (r: Resize)
    ensures reallocOk ==> r == Resize(Shrink(len, c), Shrink(len, c), true)
    ensures r.recorded == Shrink(len, c)
    ensures !r.ok ==> r.recorded < r.block == c
  {
    var half := Shrink(len, c);
    if half == c || reallocOk then Resize(half, half, true) else Resize(half, c, false)
  }

  /** A failing realloc during growth leaves the struct claiming a bigger block than it owns. */
  lemma ExpandFailureOverstates()
    ensures ExpandAsWritten(DefaultCapacity, 40, FailAt(1)) == Resize(64, 32, false)
  {
  }

  /** A failing shrink leaves the struct claiming half of the block it still owns. */
  lemma ShrinkFailureUnderstates()
    ensures ShrinkAsWritten(95, 192, false) == Resize(96, 192, false)
  {
  }
}
