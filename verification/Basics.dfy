/** Repeated addition and the set of a sequence, shared by the models. */
module Basics {
  /** `n * m` as repeated addition. */
  function Mul(n: nat, m: nat): nat {
    if n == 0 then 0 else Mul(n - 1, m) + m
  }

  lemma {:induction false} MulIs(n: nat, m: nat)
    ensures Mul(n, m) == n * m
  {
    if n > 0 { MulIs(n - 1, m); }
  }

  lemma {:induction false} MulStep(i: nat, j: nat, m: nat)
    requires i < j
    ensures Mul(i + 1, m) == Mul(i, m) + m <= Mul(j, m)
  {
    if i + 1 < j { MulStep(i, j - 1, m); }
  }

  function SetOf(s: seq<nat>): set<nat> { set b | b in s }

  lemma SetOfAppend(a: seq<nat>, b: seq<nat>)
    ensures SetOf(a + b) == SetOf(a) + SetOf(b)
  {
  }
}
