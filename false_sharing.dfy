/** The sequential pieces of `exampleFalseSharing`: the fill of the shared
    buffer and the bodies of its three workers, each run on its own.
    Worker `a` and worker `c` run the same summation loop; worker `b`
    rewrites every tenth element in place. */
module FalseSharing {

  import opened JavaInt
  import opened Series

  /** The length of the shared buffer in the source. */
  const BufferSize: nat := 100_000_000

  /** The sequential fill: a fresh `int[k]` with `fill[i] = i`. */
  method NewFilledBuffer(k: nat) returns (fill: array<int>)
    requires k <= Int32Max
    ensures fresh(fill)
    ensures fill[..] == Identity(k)
  {
    fill := new int[k];
    for i := 0 to k
      invariant forall j :: 0 <= j < i ==> fill[j] == j
    {
      fill[i] := i;
    }
  }

  /** The body of worker `a` (and of worker `c`): a `long` running sum over
      the whole buffer. Each element is a Java `int` and the length is a
      Java `int`, so every running sum stays inside the `long` range and
      the unbounded sum is exactly what Java computes. */
  method SumBuffer(fill: array<int>) returns (sum: int)
    requires fill.Length <= Int32Max
    requires forall i :: 0 <= i < fill.Length ==> IsInt32(fill[i])
    ensures sum == Sum(fill[..])
    ensures IsInt64(sum)
  {
    sum := 0;
    for i := 0 to fill.Length
      invariant sum == Sum(fill[..i])
      invariant IsInt64(sum)
    {
      SumStep(fill[..], i);
      SumOfInt32s(fill[..i + 1]);
      sum := sum + fill[i];
    }
    assert fill[..fill.Length] == fill[..];
  }

  /** Worker `a` run alone right after the fill: the sum of 0 .. k - 1.
      On the source's buffer that is 4999999950000000, within `long`. */
  method SumOfFilledBuffer(k: nat) returns (sum: int)
    requires k <= Int32Max
    ensures sum == k * (k - 1) / 2
    ensures k == BufferSize ==> sum == 4_999_999_950_000_000
  {
    var fill := NewFilledBuffer(k);
    sum := SumBuffer(fill);
    SumOfIdentity(k);
  }

  /** On the filled buffer, the running sum after the first `p` elements is
      p (p - 1) / 2; it never decreases and never exceeds the final sum. */
  lemma FilledBufferRunningSums(k: nat, p: nat, q: nat)
    requires p <= q <= k
    ensures Sum(Identity(k)[..p]) == p * (p - 1) / 2
    ensures 0 <= Sum(Identity(k)[..p]) <= Sum(Identity(k)[..q]) <= Sum(Identity(k))
  {
    IdentityPrefix(k, p);
    SumOfIdentity(p);
    PrefixSumsGrow(Identity(k), p, q);
    PrefixSumsGrow(Identity(k), q, k);
    assert Identity(k)[..k] == Identity(k);
  }

  /** What worker `b` leaves behind: every element whose index is a multiple
      of ten holds its old value divided by ten (Java division), every other
      element is unchanged. */
  function EveryTenthDivided(s: seq<int>): seq<int>
  {
    seq(|s|, i requires 0 <= i < |s| => if i % 10 == 0 then JavaDiv(s[i], 10) else s[i])
  }

  /** The body of worker `b`: `if (i % 10 == 0) fill[i] = fill[i] / 10`
      for every index (the index is non-negative, so Java's `%` on it is Dafny's). */
  method RewriteEveryTenth(fill: array<int>)
    modifies fill
    ensures fill[..] == EveryTenthDivided(old(fill[..]))
  {
    for i := 0 to fill.Length
      invariant forall j :: 0 <= j < i ==> fill[j] == (if j % 10 == 0 then JavaDiv(old(fill[j]), 10) else old(fill[j]))
      invariant forall j :: i <= j < fill.Length ==> fill[j] == old(fill[j])
    {
      if i % 10 == 0 {
        fill[i] := JavaDiv(fill[i], 10);
      }
    }
  }

  /** Worker `b` keeps the length, moves every rewritten element toward zero
      without changing its sign (so Java `int`s stay Java `int`s), and an
      element changes exactly when its index is a multiple of ten and it is
      not zero. */
  lemma {:induction false} EveryTenthDividedShrinks(s: seq<int>)
    ensures |EveryTenthDivided(s)| == |s|
    ensures forall i :: 0 <= i < |s| ==>
      (s[i] >= 0 ==> 0 <= EveryTenthDivided(s)[i] <= s[i]) &&
      (s[i] < 0 ==> s[i] <= EveryTenthDivided(s)[i] <= 0)
    ensures forall i :: 0 <= i < |s| ==>
      (EveryTenthDivided(s)[i] != s[i] <==> i % 10 == 0 && s[i] != 0)
    ensures (forall i :: 0 <= i < |s| ==> IsInt32(s[i])) ==>
      forall i :: 0 <= i < |s| ==> IsInt32(EveryTenthDivided(s)[i])
  {
    forall i | 0 <= i < |s|
      ensures s[i] >= 0 ==> 0 <= EveryTenthDivided(s)[i] <= s[i]
      ensures s[i] < 0 ==> s[i] <= EveryTenthDivided(s)[i] <= 0
      ensures EveryTenthDivided(s)[i] != s[i] <==> i % 10 == 0 && s[i] != 0
    {
      JavaDivision(s[i], 10);
    }
  }

  /** Worker `b` run alone on the filled buffer: index i holds i / 10 when
      i is a multiple of ten and i otherwise. */
  lemma EveryTenthOfFilledBuffer(k: nat)
    ensures forall i :: 0 <= i < k ==>
      EveryTenthDivided(Identity(k))[i] == if i % 10 == 0 then i / 10 else i
  {
  }
}
