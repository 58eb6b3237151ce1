/** `fillCacheWithBogus`: fill a scratch buffer with `bogus[i] = i`, then scan
    it once, emitting a progress marker `bogus[i] / 100000` for every non-zero
    value that is a multiple of 1000000, and finally a closing 100.
    The emitted markers are returned instead of printed. */
module CacheFlusher {

  import opened JavaInt
  import opened Series
  import FalseSharing

  /** The length of the scratch buffer in the source. */
  const BogusSize: nat := 10_000_000
  /** A marker is emitted for values that are multiples of this. */
  const MarkerStep: int := 1_000_000
  /** A marker's value is the scanned value divided by this. */
  const PercentDivisor: int := 100_000
  /** The closing marker, emitted after the scan whatever the buffer holds. */
  const FinalMarker: int := 100

  /** The markers the scan emits for the values `s`, in scan order. */
  function Markers(s: seq<int>): seq<int>
  {
    if s == [] then []
    else
      var x := s[|s| - 1];
      Markers(s[..|s| - 1]) +
        (if x != 0 && JavaRem(x, MarkerStep) == 0 then [JavaDiv(x, PercentDivisor)] else [])
  }

  /** The read-only scan: one pass over `bogus`, in index order. */
  method ScanForMarkers(bogus: array<int>) returns (markers: seq<int>)
    ensures markers == Markers(bogus[..])
  {
    markers := [];
    for i := 0 to bogus.Length
      invariant markers == Markers(bogus[..i])
    {
      assert bogus[..i + 1][..i] == bogus[..i];
      if bogus[i] != 0 && JavaRem(bogus[i], MarkerStep) == 0 {
        markers := markers + [JavaDiv(bogus[i], PercentDivisor)];
      }
    }
    assert bogus[..bogus.Length] == bogus[..];
  }

  /** The number of non-zero multiples of 1000000 below `size`. */
  function MultiplesBelow(size: nat): nat
  {
    if size == 0 then 0 else (size - 1) / MarkerStep
  }

  /** 10, 20, ..., 10 c: one marker per non-zero multiple of 1000000 scanned. */
  function TensUpTo(c: nat): (r: seq<int>)
  {
    if c == 0 then [] else TensUpTo(c - 1) + [10 * c]
  }

  /** The markers are 10, 20, 30, ... in strictly increasing order. */
  lemma {:induction false} TensUpToAt(c: nat)
    ensures |TensUpTo(c)| == c
    ensures forall k :: 0 <= k < c ==> TensUpTo(c)[k] == 10 * (k + 1)
    ensures forall k, l :: 0 <= k < l < c ==> TensUpTo(c)[k] < TensUpTo(c)[l]
  {
    if c > 0 {
      TensUpToAt(c - 1);
    }
  }

  /** Scanning 0, 1, ..., size - 1 emits exactly one marker per non-zero
      multiple m of 1000000 below `size`, with value m / 100000. */
  lemma {:induction false} MarkersOfIdentity(size: nat)
    ensures Markers(Identity(size)) == TensUpTo(MultiplesBelow(size))
  {
    if size > 0 {
      var p := size - 1;
      MarkersOfIdentity(p);
      IdentityPrefix(size, p);
      JavaDivision(p, MarkerStep);
      JavaDivision(p, PercentDivisor);
      if p > 0 && p % MarkerStep == 0 {
        assert p == MarkerStep * (p / MarkerStep);
        assert p / PercentDivisor == 10 * (p / MarkerStep);
        assert MultiplesBelow(size) == MultiplesBelow(p) + 1;
      } else {
        assert MultiplesBelow(size) == MultiplesBelow(p);
      }
    }
  }

  /** The whole flusher: fill a fresh `int[size]`, scan it, close with 100.
      For the source's 10000000 elements the output is 10%, 20%, ..., 100%. */
  method FillCacheWithBogus(size: nat) returns (progress: seq<int>)
    requires size <= Int32Max
    ensures progress == TensUpTo(MultiplesBelow(size)) + [FinalMarker]
    ensures size == BogusSize ==> progress == [10, 20, 30, 40, 50, 60, 70, 80, 90, 100]
  {
    var bogus := FalseSharing.NewFilledBuffer(size);
    var markers := ScanForMarkers(bogus);
    assert bogus[..] == Identity(size);
    MarkersOfIdentity(size);
    progress := markers + [FinalMarker];
    if size == BogusSize {
      assert MultiplesBelow(size) == 9;
      TensUpToAt(9);
    }
  }
}
