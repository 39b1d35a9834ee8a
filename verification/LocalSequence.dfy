/**
  Numbering locally generated IPv4 packets: a 32-bit counter masked to the sequence size,
  with zero skipped.
*/
module LocalSequence {
  import opened Basics

  const ID_RANGE := 0x1_0000

  function Pow2(k: nat): nat { if k == 0 then 1 else 2 * Pow2(k - 1) }

  lemma {:induction false} Pow2Add(j: nat, k: nat)
    ensures Pow2(j) * Pow2(k) == Pow2(j + k)
  {
    if j > 0 {
      Pow2Add(j - 1, k);
      assert 2 * Pow2(j - 1) * Pow2(k) == 2 * (Pow2(j - 1) * Pow2(k));
    }
  }

  /** The counter wraps at a multiple of the sequence size. */
  lemma SizeDividesRange(bits: nat)
    requires bits <= 32
    ensures Pow2(bits) > 0 && U32_RANGE % Pow2(bits) == 0
  {
    Pow2Add(32 - bits, bits);
    Pow2Of32();
    Pow2Positive(bits);
    ProductMod(Pow2(32 - bits), Pow2(bits));
  }

  lemma Pow2Of32()
    ensures Pow2(32) == U32_RANGE
  {
    assert Pow2(8) == 256;
    Pow2Add(8, 8);
    Pow2Add(16, 16);
  }

  lemma {:induction false} Pow2Positive(k: nat)
    ensures Pow2(k) > 0
  {
    if k > 0 { Pow2Positive(k - 1); }
  }

  lemma SizeFitsId(bits: nat)
    requires 1 <= bits <= 16
    ensures 1 < Pow2(bits) <= ID_RANGE
  {
    Pow2Add(16 - bits, bits);
    assert Pow2(8) == 256;
    Pow2Add(8, 8);
    Pow2Positive(16 - bits);
    Pow2Positive(bits - 1);
    if Pow2(bits) > ID_RANGE { AtLeastOnce(Pow2(16 - bits), Pow2(bits)); }
  }

  lemma ProductMod(a: nat, b: nat)
    requires b > 0
    ensures a * b % b == 0
  {
    ModUnique(a * b, b, a, 0);
  }

  lemma ModUnique(x: int, b: int, q: int, r: int)
    requires b > 0 && x == q * b + r && 0 <= r < b
    ensures x % b == r
  {
    var p := x / b;
    assert x == p * b + x % b;
    assert (p - q) * b == r - x % b && (q - p) * b == x % b - r;
    if p > q {
      AtLeastOnce(p - q, b);
    } else if p < q {
      AtLeastOnce(q - p, b);
    }
  }

  // ----- one flow -----

  /** The counter after an increment. */
  function Bumped(sequence: nat): nat { (sequence + 1) % U32_RANGE }

  /** A masked counter value in a 16-bit variable. */
  function Id16(sequence: nat, bits: nat): nat
    requires Pow2(bits) > 0
  {
    sequence % Pow2(bits) % ID_RANGE
  }

  /** What one call of the zero-skipping increment returns, and the counter after it. */
  function LocalStep(sequence: nat, bits: nat): (nat, nat)
    requires Pow2(bits) > 0
  {
    if Id16(sequence, bits) == 0
    then (Id16(Bumped(sequence), bits), Bumped(Bumped(sequence)))
    else (Id16(sequence, bits), Bumped(sequence))
  }

  class SequenceFlow {
    var sequence: nat

    ghost predicate Valid() reads this { sequence < U32_RANGE }

    constructor (start: nat)
      requires start < U32_RANGE
      ensures Valid() && sequence == start
    {
      sequence := start;
    }

    /** `sequence++ & mask`, for the mask of `bits` one bits. */
    method IncrementSequence(bits: nat) returns (seq_: nat)
      requires Valid() && Pow2(bits) > 0
      modifies this
      ensures Valid() && seq_ == old(sequence) % Pow2(bits) && sequence == Bumped(old(sequence))
    {
      seq_ := sequence % Pow2(bits);
      sequence := (sequence + 1) % U32_RANGE;
    }

    method IncrementLocalSequence(bits: nat) returns (r: nat)
      requires Valid() && Pow2(bits) > 0
      modifies this
      ensures Valid() && (r, sequence) == LocalStep(old(sequence), bits)
    {
      var id := IncrementSequence(bits);
      r := id % ID_RANGE;
      if r == 0 {
        id := IncrementSequence(bits);
        r := id % ID_RANGE;
      }
    }
  }

  // ----- any number of calls -----

  function CounterAt(start: nat, bits: nat, n: nat): nat
    requires Pow2(bits) > 0
  {
    if n == 0 then start else LocalStep(CounterAt(start, bits, n - 1), bits).1
  }

  /** The result of call number `n`. */
  function ResultAt(start: nat, bits: nat, n: nat): nat
    requires Pow2(bits) > 0
  {
    LocalStep(CounterAt(start, bits, n), bits).0
  }

  /** Counting up commutes with masking, also where the counter wraps. */
  lemma BumpedMod(s: nat, m: nat)
    requires s < U32_RANGE && m > 1 && U32_RANGE % m == 0
    ensures Bumped(s) % m == if s % m == m - 1 then 0 else s % m + 1
  {
    if s == U32_RANGE - 1 {
      var turns := U32_RANGE / m;
      assert U32_RANGE == turns * m && (turns - 1) * m == turns * m - m;
      ModUnique(s, m, turns - 1, m - 1);
    } else {
      var q := s / m;
      assert Bumped(s) == s + 1 && s == q * m + s % m;
      if s % m == m - 1 {
        assert (q + 1) * m == q * m + m;
        ModUnique(s + 1, m, q + 1, 0);
      } else {
        ModUnique(s + 1, m, q, s % m + 1);
      }
    }
  }

  lemma {:induction false} CounterInRange(start: nat, bits: nat, n: nat)
    requires start < U32_RANGE && Pow2(bits) > 0
    ensures CounterAt(start, bits, n) < U32_RANGE
  {
    if n > 0 { CounterInRange(start, bits, n - 1); }
  }

  lemma IdIsMasked(x: nat, bits: nat)
    requires 1 <= bits <= 16 && Pow2(bits) > 0
    ensures Id16(x, bits) == x % Pow2(bits)
  {
    SizeFitsId(bits);
  }

  /** One call, seen through the mask: the result is never zero, and the counter moves past it. */
  lemma StepMasked(s: nat, bits: nat)
    requires s < U32_RANGE && 1 <= bits <= 16 && Pow2(bits) > 0
    ensures var m, r := Pow2(bits), LocalStep(s, bits).0;
            r == (if s % m == 0 then 1 else s % m) && 1 <= r < m &&
            LocalStep(s, bits).1 % m == if r == m - 1 then 0 else r + 1
  {
    var m := Pow2(bits);
    SizeFitsId(bits);
    SizeDividesRange(bits);
    IdIsMasked(s, bits);
    IdIsMasked(Bumped(s), bits);
    BumpedMod(s, m);
    BumpedMod(Bumped(s), m);
  }

  /** Results count up from 1 to the largest number of the size, then start over at 1. */
  lemma ResultsCycle(start: nat, bits: nat, n: nat)
    requires start < U32_RANGE && 1 <= bits <= 16 && Pow2(bits) > 0
    ensures var m, r := Pow2(bits), ResultAt(start, bits, n);
            1 <= r < m && ResultAt(start, bits, n + 1) == if r == m - 1 then 1 else r + 1
  {
    CounterInRange(start, bits, n);
    CounterInRange(start, bits, n + 1);
    StepMasked(CounterAt(start, bits, n), bits);
    StepMasked(CounterAt(start, bits, n + 1), bits);
  }

  lemma {:induction false} ResultAfter(start: nat, bits: nat, n: nat, d: nat)
    requires start < U32_RANGE && 1 <= bits <= 16 && 0 < Pow2(bits) && d < Pow2(bits)
    ensures var m, r := Pow2(bits), ResultAt(start, bits, n);
            ResultAt(start, bits, n + d) == if r + d <= m - 1 then r + d else r + d - (m - 1)
  {
    if d == 0 {
      ResultsCycle(start, bits, n);
    } else {
      ResultAfter(start, bits, n, d - 1);
      ResultsCycle(start, bits, n);
      ResultsCycle(start, bits, n + d - 1);
    }
  }

  /** Whatever the counter starts from and wherever it wraps: no result is zero, any
      2^bits - 1 consecutive ones are distinct, and then the sequence repeats. */
  lemma LocalSequenceNumbers(start: nat, bits: nat, n: nat, d: nat)
    requires start < U32_RANGE && 1 <= bits <= 16 && d <= Pow2(bits) - 1
    ensures 1 <= ResultAt(start, bits, n) < Pow2(bits)
    ensures ResultAt(start, bits, n + d) == ResultAt(start, bits, n) <==> d == 0 || d == Pow2(bits) - 1
  {
    Pow2Positive(bits - 1);
    ResultsCycle(start, bits, n);
    ResultAfter(start, bits, n, d);
  }
}
