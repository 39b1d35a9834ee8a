/**
  What the modules share: optional values, 32-bit words, and a few facts about sequences
  and products.
*/
module Basics {

  datatype Option<T> = None | Some(value: T)

  const U32_RANGE := 0x1_0000_0000
  const HALF_RANGE := 0x8000_0000

  type u32 = x: int | 0 <= x < U32_RANGE
  type byte = x: int | 0 <= x < 256

  function Wrap32(x: int): u32 { x % U32_RANGE }

  /** Counting down wraps, too. */
  function Decrement(n: u32): u32 { if n > 0 then n - 1 else U32_RANGE - 1 }

  lemma CountsOn(n: nat)
    ensures Wrap32(Wrap32(n) + 1) == Wrap32(n + 1)
  {
  }

  lemma CountsBack(n: nat)
    requires n > 0
    ensures Decrement(Wrap32(n)) == Wrap32(n - 1)
  {
  }

  /** Unsigned subtraction. */
  function Minus(x: u32, y: u32): u32 { if x >= y then x - y else x - y + U32_RANGE }

  /** An unsigned word read as a signed number. */
  function Signed32(x: u32): int { if x < HALF_RANGE then x else x - U32_RANGE }

  /** Age of a time stamp as the unsigned subtraction computes it. */
  function Age(now: u32, stamp: u32): u32 { Minus(now, stamp) }

  /** The age is the time elapsed as long as that is less than a whole wrap. */
  lemma AgeIsElapsed(now: nat, stamp: nat)
    requires stamp <= now < stamp + U32_RANGE
    ensures Age(Wrap32(now), Wrap32(stamp)) == now - stamp
  {
    var q, p := now / U32_RANGE, stamp / U32_RANGE;
    assert now == U32_RANGE * q + Wrap32(now) && stamp == U32_RANGE * p + Wrap32(stamp);
    assert q == p || q == p + 1;
  }

  /** Always true.  Details behind a quantifier with this for a guard come up only in proofs
      that mention it for their level. */
  predicate Shown(level: nat, k: nat) { true }

  /** A word as it lies in memory, least significant byte first. */
  function WordBytes(n: u32): (b: seq<byte>)
    ensures |b| == 4
  {
    var q := n / 256;
    var s := q / 256;
    [n % 256, q % 256, s % 256, s / 256]
  }

  function WordValue(b: seq<byte>): u32
    requires |b| == 4
  {
    (b[0] as int) + 0x100 * b[1] as int + 0x1_0000 * b[2] as int + 0x100_0000 * b[3] as int
  }

  lemma WordRoundTrip(n: u32)
    ensures WordValue(WordBytes(n)) == n
  {
  }

  lemma AtLeastOnce(k: int, b: int)
    requires k >= 1 && b > 0
    ensures k * b >= b
  {
  }

  ghost predicate Distinct<T>(s: seq<T>) {
    forall i, j | 0 <= i < j < |s| :: s[i] != s[j]
  }

  lemma SameMap<K, V>(a: map<K, V>, b: map<K, V>)
    requires a.Keys == b.Keys && forall k | k in a :: a[k] == b[k]
    ensures a == b
  {
  }

  lemma OneMore(n: int, k: int)
    ensures (n + 1) * k == n * k + k
  {
  }
}
