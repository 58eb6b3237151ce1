/** Finite sums and the identity sequence: the specification vocabulary
    for the running-sum loops and the `x[i] = i` fill loops. */
module Series {

  import opened JavaInt

  /** The sum of `s`, accumulated front to back as a `sum += s[i]` loop does. */
  function Sum(s: seq<int>): int
  {
    if s == [] then 0 else Sum(s[..|s| - 1]) + s[|s| - 1]
  }

  /** The sequence 0, 1, ..., k - 1 that a `fill[i] = i` loop leaves in an array. */
  function Identity(k: nat): (r: seq<int>)
  {
    seq(k, i => i)
  }

  /** One more iteration of a running-sum loop adds exactly the next element. */
  lemma SumStep(s: seq<int>, k: nat)
    requires k < |s|
    ensures Sum(s[..k + 1]) == Sum(s[..k]) + s[k]
  {
    assert s[..k + 1][..k] == s[..k];
  }

  /** A sum of `k` Java `int`s lies within `k` times the `int` range. */
  lemma {:induction false} SumOfInt32s(s: seq<int>)
    requires forall i :: 0 <= i < |s| ==> IsInt32(s[i])
    ensures -0x8000_0000 * |s| <= Sum(s) <= 0x7FFF_FFFF * |s|
  {
    if s != [] {
      SumOfInt32s(s[..|s| - 1]);
    }
  }

  /** The running sums over a sequence of non-negative numbers never decrease. */
  lemma {:induction false} PrefixSumsGrow(s: seq<int>, p: nat, q: nat)
    requires p <= q <= |s|
    requires forall i :: 0 <= i < |s| ==> s[i] >= 0
    ensures 0 <= Sum(s[..p]) <= Sum(s[..q])
  {
    if p < q {
      PrefixSumsGrow(s, p, q - 1);
      SumStep(s, q - 1);
    } else if p > 0 {
      PrefixSumsGrow(s, 0, p);
    } else {
      assert s[..0] == [];
    }
  }

  /** A prefix of the identity sequence is a shorter identity sequence. */
  lemma IdentityPrefix(k: nat, p: nat)
    requires p <= k
    ensures Identity(k)[..p] == Identity(p)
  {
  }

  /** 0 + 1 + ... + (k - 1) == k (k - 1) / 2. */
  lemma {:induction false} SumOfIdentity(k: nat)
    ensures 2 * Sum(Identity(k)) == k * (k - 1)
    ensures Sum(Identity(k)) == k * (k - 1) / 2
  {
    if k > 0 {
      SumOfIdentity(k - 1);
      IdentityPrefix(k, k - 1);
      assert (k - 1) * (k - 2) + 2 * (k - 1) == k * (k - 1);
    }
  }
}
