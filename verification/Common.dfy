/** What several modules share. */
module Common {
  datatype Option<+T> = None | Some(value: T)

  const kNumLevels: nat := 7
  const kMaxSequenceNumber: nat := 0xFF_FFFF_FFFF_FFFF

  /** The parts joined, in order. */
  function Concat<T>(parts: seq<seq<T>>): seq<T>
    decreases |parts|
  {
    if |parts| == 0 then [] else Concat(parts[..|parts| - 1]) + parts[|parts| - 1]
  }

  // ----- products and quotients -----

  lemma MulLe(a: nat, b: nat, c: nat)
    requires a <= b
    ensures c * a <= c * b
  {}

  lemma OneMoreTimes(a: nat, d: nat)
    ensures a * (d + 1) == a * d + a
  {}

  lemma DivMod(n: nat, a: nat)
    requires a > 0
    ensures n == a * (n / a) + n % a && n % a < a
  {}

  lemma DivIs(n: nat, a: nat, q: nat, c: nat)
    requires a > 0 && n == a * q + c && c < a
    ensures n / a == q && n % a == c
  {
    var d, m := n / a, n % a;
    DivMod(n, a);
    if d < q {
      MulLe(d + 1, q, a);
      OneMoreTimes(a, d);
    } else if q < d {
      MulLe(q + 1, d, a);
      OneMoreTimes(a, q);
    }
  }
}
