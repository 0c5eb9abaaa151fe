/**
 * The candidate numbers of Tree::getNewXref. Candidate k is the stored
 * counter plus the integer part of 1.01^k: the increment is multiplied by 1.01
 * after each try, and is not added up.
 */
module XrefAllocation {
  import opened Strings

  const XREF_PREFIX := "X"

  /** The xref built from a number: the prefix followed by the decimal number. */
  function XrefFor(num: int): (x: string)
    ensures |x| >= 2 && x[0] == 'X'
  {
    XREF_PREFIX + IntToString(num)
  }

  /** `$increment` after k multiplications by 1.01. */
  function Pow101(k: nat): (r: real)
    ensures r >= 1.0
  {
    if k == 0 then 1.0 else Pow101(k - 1) * 1.01
  }

  /** The k-th number tried, counting from 0: `$num` in iteration k. */
  function Candidate(base: int, k: nat): int {
    base + Pow101(k).Floor
  }

  /** Bernoulli's inequality for 1.01^k. */
  lemma {:induction false} Bernoulli(k: nat)
    ensures Pow101(k) >= 1.0 + (k as real) / 100.0
  {
    if k > 0 {
      Bernoulli(k - 1);
      var p := Pow101(k - 1);
      var b := 1.0 + ((k - 1) as real) / 100.0;
      assert p * 1.01 >= b * 1.01;
      assert b * 1.01 == 1.0 + (k as real) / 100.0 + ((k - 1) as real) / 10000.0;
    }
  }

  /** Every candidate is above the stored counter. */
  lemma CandidateAboveBase(base: int, k: nat)
    ensures Candidate(base, k) >= base + 1
  {
  }

  /** Candidates never go down; a number is tried again while floor(1.01^k) stays the same. */
  lemma CandidateNonDecreasing(base: int, k: nat)
    ensures Candidate(base, k) <= Candidate(base, k + 1)
  {
    assert Pow101(k + 1) == Pow101(k) * 1.01;
  }

  lemma {:induction false} CandidateMonotone(base: int, j: nat, k: nat)
    requires j <= k
    ensures Candidate(base, j) <= Candidate(base, k)
    decreases k - j
  {
    if j < k {
      CandidateMonotone(base, j, k - 1);
      CandidateNonDecreasing(base, k - 1);
    }
  }

  /** Candidates grow without bound: candidate k exceeds base + k / 100 - 1. */
  lemma CandidateGrows(base: int, k: nat)
    ensures (Candidate(base, k) as real) > (base as real) + (k as real) / 100.0 - 1.0
  {
    Bernoulli(k);
    var p := Pow101(k);
    assert (p.Floor as real) > p - 1.0;
  }

  /** The number an xref would stand for, if it is of the form XrefFor(n). */
  function XrefNumber(x: string): int {
    if x == [] then 0 else ParseInt(x[1..])
  }

  lemma XrefNumberOf(num: int)
    ensures XrefNumber(XrefFor(num)) == num
  {
    assert XrefFor(num)[1..] == IntToString(num);
    IntRoundTrip(num);
  }

  /** A number at least as large as the number of every xref in `used`. */
  lemma {:induction false} UsedNumbersBounded(used: set<string>) returns (m: int)
    ensures forall x :: x in used ==> XrefNumber(x) <= m
    decreases |used|
  {
    if used == {} {
      m := 0;
    } else {
      var x :| x in used;
      var m' := UsedNumbersBounded(used - {x});
      m := if XrefNumber(x) > m' then XrefNumber(x) else m';
    }
  }

  /**
   * From some try on, no candidate is in `used`: the search of getNewXref
   * ends for every finite set of used xrefs.
   */
  lemma FreeFromSomeTry(used: set<string>, base: int) returns (bound: nat)
    ensures forall k :: bound <= k ==> XrefFor(Candidate(base, k)) !in used
  {
    var m := UsedNumbersBounded(used);
    bound := if m >= base then 100 * (m - base + 1) else 0;
    forall k | bound <= k
      ensures XrefFor(Candidate(base, k)) !in used
    {
      CandidateGrows(base, k);
      XrefNumberOf(Candidate(base, k));
      assert Candidate(base, k) > m;
    }
  }

  /** Every candidate before try `k` is in `used`. */
  ghost predicate UsedBelow(base: int, k: nat, used: set<string>) {
    forall j :: 0 <= j < k ==> XrefFor(Candidate(base, j)) in used
  }

  lemma UsedBelowStep(base: int, k: nat, used: set<string>)
    requires UsedBelow(base, k, used) && XrefFor(Candidate(base, k)) in used
    ensures UsedBelow(base, k + 1, used)
  {
  }

  /**
   * `x` is what getNewXref returns: the xref of the first candidate that is
   * not in `used`, every earlier candidate being in use.
   */
  ghost predicate FirstFreeCandidate(x: string, base: int, used: set<string>) {
    exists k: nat :: x == XrefFor(Candidate(base, k)) && x !in used && UsedBelow(base, k, used)
  }

  /** The allocator is deterministic: one counter value and one used set give one xref. */
  lemma FirstFreeCandidateUnique(x: string, y: string, base: int, used: set<string>)
    requires FirstFreeCandidate(x, base, used) && FirstFreeCandidate(y, base, used)
    ensures x == y
  {
    var kx: nat :| x == XrefFor(Candidate(base, kx)) && x !in used
      && UsedBelow(base, kx, used);
    var ky: nat :| y == XrefFor(Candidate(base, ky)) && y !in used
      && UsedBelow(base, ky, used);
    assert kx < ky ==> XrefFor(Candidate(base, kx)) in used;
    assert ky < kx ==> XrefFor(Candidate(base, ky)) in used;
  }

  /** The number stored back as next_xref is above the number read. */
  lemma FirstFreeCandidateAboveBase(x: string, base: int, used: set<string>)
    requires FirstFreeCandidate(x, base, used)
    ensures x[0] == 'X' && ParseInt(x[1..]) >= base + 1
  {
    var k: nat :| x == XrefFor(Candidate(base, k)) && x !in used
      && UsedBelow(base, k, used);
    XrefNumberOf(Candidate(base, k));
    CandidateAboveBase(base, k);
  }

  /** Xrefs made by the allocator hold no '@', so they can stand between two '@'s. */
  lemma XrefHasNoAt(num: int)
    ensures '@' !in XrefFor(num)
  {
    var m: nat := if num < 0 then -num else num;
    var d := NatToString(m);
    assert forall i :: 0 <= i < |d| ==> d[i] != '@';
    if num < 0 {
      assert XrefFor(num) == "X-" + d;
    } else {
      assert XrefFor(num) == "X" + d;
    }
  }
}
