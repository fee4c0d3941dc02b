/**
 * The bottom-up merge sort of src/visimerge/serial_visimergesort.h: log2, the
 * two view rays of every segment, and the passes that merge adjacent runs of
 * doubling length, ping-ponging between the output array and a heap buffer.
 */
module SerialVisimergesort {
  import opened CMath
  import opened Vectors
  import opened Segments
  import opened ViewRays
  import opened SerialVisimerge

  // ---------------------------------------------------------------------------
  // log2 and the power-of-two guard

  function Pow2(k: nat): (n: nat)
    ensures n >= 1
  {
    if k == 0 then 1 else 2 * Pow2(k - 1)
  }

  /** log2(x, p): p for x <= 1; otherwise one more than log2(x / 2) with the
      default p = 0. */
  function Log2(x: nat, p: nat): nat
  {
    if x > 1 then Log2(x / 2, 0) + 1 else p
  }

  predicate IsPowerOfTwo(n: nat)
  {
    n == 1 || (n >= 2 && n % 2 == 0 && IsPowerOfTwo(n / 2))
  }

  /** The test driver's check on the number of segments: 1 << log2(n, true) == n. */
  predicate CountAccepted(n: nat)
  {
    Pow2(Log2(n, 1)) == n
  }

  lemma Log2Small(x: nat, p: nat)
    requires x <= 1
    ensures Log2(x, p) == p
  {
  }

  /** For x >= 1, log2(x) is the floor of the binary logarithm. */
  lemma {:induction false} Log2Floor(x: nat)
    requires x >= 1
    ensures Pow2(Log2(x, 0)) <= x < 2 * Pow2(Log2(x, 0))
    decreases x
  {
    if x > 1 {
      Log2Floor(x / 2);
    }
  }

  lemma {:induction false} Log2OfPow2(k: nat)
    ensures Log2(Pow2(k), 0) == k
  {
    if k > 0 {
      Log2OfPow2(k - 1);
      assert Pow2(k) / 2 == Pow2(k - 1);
    }
  }

  /** A positive n is a power of two exactly when 2^log2(n) gives it back. */
  lemma {:induction false} PowerOfTwoByLog2(n: nat)
    requires n >= 1
    ensures IsPowerOfTwo(n) <==> Pow2(Log2(n, 0)) == n
    decreases n
  {
    if n > 1 {
      PowerOfTwoByLog2(n / 2);
      assert Log2(n, 0) == Log2(n / 2, 0) + 1;
    }
  }

  lemma {:induction false} Pow2IsPowerOfTwo(k: nat)
    ensures IsPowerOfTwo(Pow2(k))
  {
    if k > 0 {
      Pow2IsPowerOfTwo(k - 1);
      assert Pow2(k) / 2 == Pow2(k - 1);
    }
  }

  /** The guard accepts exactly the powers of two from 2 on: 0 and 1 fail because
      log2(n, true) is then 1. */
  lemma CountAcceptedIffPowerOfTwo(n: nat)
    ensures CountAccepted(n) <==> IsPowerOfTwo(n) && n >= 2
  {
    if n >= 2 {
      assert Log2(n, 1) == Log2(n, 0);
      PowerOfTwoByLog2(n);
    }
  }

  // ---------------------------------------------------------------------------
  // Divisibility, stated without multiplication

  predicate Divides(d: nat, n: nat)
    requires d > 0
    decreases n
  {
    n == 0 || (n >= d && Divides(d, n - d))
  }

  lemma {:induction false} DividesSum(d: nat, x: nat, y: nat)
    requires d > 0 && Divides(d, x) && Divides(d, y)
    ensures Divides(d, x + y)
    decreases x
  {
    if x > 0 {
      DividesSum(d, x - d, y);
      assert x + y - d == (x - d) + y;
    }
  }

  /** A multiple of d below another multiple of d is at least d below it. */
  lemma {:induction false} DividesGap(d: nat, x: nat, n: nat)
    requires d > 0 && Divides(d, x) && Divides(d, n) && x < n
    ensures x + d <= n
    decreases x
  {
    if x > 0 {
      DividesGap(d, x - d, n - d);
    }
  }

  lemma {:induction false} Pow2Divides(a: nat, b: nat)
    requires a <= b
    ensures Divides(Pow2(a), Pow2(b))
    decreases b
  {
    if a == b {
      assert Divides(Pow2(a), Pow2(a) - Pow2(a));
    } else {
      Pow2Divides(a, b - 1);
      DividesSum(Pow2(a), Pow2(b - 1), Pow2(b - 1));
    }
  }

  // ---------------------------------------------------------------------------
  // init_viewrays

  /** Both endpoints of the segment are away from the origin, so that they can
      be normalized. */
  predicate OffOrigin(m: Libm, seg: Segment)
  {
    Norm(m, seg.a) != 0.0 && Norm(m, seg.b) != 0.0
  }

  /** The local copies of the endpoints, swapped when cross(a, b) < 0. */
  function Oriented(seg: Segment): (o: Segment)
    ensures Cross(o.a, o.b) >= 0.0
    ensures o == seg || o == Segment(seg.b, seg.a)
    ensures Cross(seg.a, seg.b) >= 0.0 ==> o == seg
  {
    CrossAntisymmetric(seg.a, seg.b);
    if Cross(seg.a, seg.b) < 0.0 then Segment(seg.b, seg.a) else seg
  }

  /** The angle of the closing endpoint, with 0 replaced by 2 pi. */
  function ClosingAngle(m: Libm, b: Vec2): real
  {
    var t := Atan2(m, b);
    if t == 0.0 then 2.0 * m.pi else t
  }

  /** The opening and the closing ray of one segment. */
  function SegmentRays(m: Libm, seg: Segment): (seq<ViewRay>)
    requires OffOrigin(m, seg)
  {
    var o := Oriented(seg);
    [ViewRay(Atan2(m, o.a), Normalize(m, o.a), Fin(Norm(m, o.a)), Inf),
     ViewRay(ClosingAngle(m, o.b), Normalize(m, o.b), Inf, Fin(Norm(m, o.b)))]
  }

  /** What init_viewrays writes: the two rays of segment i at 2i and 2i + 1. */
  function InitialRays(m: Libm, segs: seq<Segment>): (s: seq<ViewRay>)
    requires forall i :: 0 <= i < |segs| ==> OffOrigin(m, segs[i])
    ensures |s| == 2 * |segs|
  {
    if segs == [] then [] else SegmentRays(m, segs[0]) + InitialRays(m, segs[1..])
  }

  lemma {:induction false} InitialRaysAt(m: Libm, segs: seq<Segment>, i: nat)
    requires forall k :: 0 <= k < |segs| ==> OffOrigin(m, segs[k])
    requires i < |segs|
    ensures InitialRays(m, segs)[2 * i] == SegmentRays(m, segs[i])[0]
    ensures InitialRays(m, segs)[2 * i + 1] == SegmentRays(m, segs[i])[1]
    decreases i
  {
    if i > 0 {
      InitialRaysAt(m, segs[1..], i - 1);
    }
  }

  /** The rays of one segment: the endpoints are ordered counter-clockwise, the
      opening ray carries l = norm(a) and an infinite r, the closing ray an
      infinite l and r = norm(b); the opening angle lies in [0, 2 pi) and the
      closing one in (0, 2 pi]. */
  lemma SegmentRaysProperties(m: Libm, seg: Segment)
    requires OffOrigin(m, seg)
    ensures var o, s := Oriented(seg), SegmentRays(m, seg);
            Cross(o.a, o.b) >= 0.0 &&
            s[0] == ViewRay(Atan2(m, o.a), Normalize(m, o.a), Fin(Norm(m, o.a)), Inf) &&
            s[1].v == Normalize(m, o.b) && s[1].l == Inf && s[1].r == Fin(Norm(m, o.b)) &&
            (Atan2(m, o.b) == 0.0 ==> s[1].t == 2.0 * m.pi) &&
            (Atan2(m, o.b) != 0.0 ==> s[1].t == Atan2(m, o.b)) &&
            InteriorFinite(s)
    ensures ValidLibm(m) ==> 0.0 <= SegmentRays(m, seg)[0].t < 2.0 * m.pi
    ensures ValidLibm(m) ==> 0.0 < SegmentRays(m, seg)[1].t <= 2.0 * m.pi
  {
    var o := Oriented(seg);
    if ValidLibm(m) {
      Atan2Range(m, o.a);
      Atan2Range(m, o.b);
    }
  }

  /** The body of the loop of init_viewrays for one segment: the endpoints are
      swapped when cross(a, b) < 0, an atan2 of 0 for the closing endpoint
      becomes 2 pi, and the two rays are written at j and j + 1. */
  method WriteSegmentRays(m: Libm, seg: Segment, dest: array<ViewRay>, j: nat)
    requires OffOrigin(m, seg) && j + 1 < dest.Length
    modifies dest
    ensures dest[j] == SegmentRays(m, seg)[0] && dest[j + 1] == SegmentRays(m, seg)[1]
    ensures forall k :: 0 <= k < dest.Length && k != j && k != j + 1 ==> dest[k] == old(dest[k])
  {
    var a, b := seg.a, seg.b;
    if Cross(a, b) < 0.0 {
      a, b := b, a;
    }
    var atan2b := Atan2(m, b);
    atan2b := if atan2b == 0.0 then 2.0 * m.pi else atan2b;
    dest[j] := ViewRay(Atan2(m, a), Normalize(m, a), Fin(Norm(m, a)), Inf);
    dest[j + 1] := ViewRay(atan2b, Normalize(m, b), Inf, Fin(Norm(m, b)));
  }

  /** The loop of init_viewrays. The segments are read-only and passed by value. */
  method InitViewrays(m: Libm, segs: seq<Segment>, dest: array<ViewRay>)
    requires forall i :: 0 <= i < |segs| ==> OffOrigin(m, segs[i])
    requires 2 * |segs| <= dest.Length
    modifies dest
    ensures dest[..2 * |segs|] == InitialRays(m, segs)
    ensures forall k :: 2 * |segs| <= k < dest.Length ==> dest[k] == old(dest[k])
  {
    ghost var s := InitialRays(m, segs);
    for i := 0 to |segs|
      invariant forall k :: 0 <= k < 2 * i ==> dest[k] == s[k]
      invariant forall k :: 2 * i <= k < dest.Length ==> dest[k] == old(dest[k])
    {
      WriteSegmentRays(m, segs[i], dest, 2 * i);
      InitialRaysAt(m, segs, i);
    }
    assert dest[..2 * |segs|] == s;
  }

  // ---------------------------------------------------------------------------
  // The passes

  /** One pass over the first e rays: merge on every aligned pair of runs of
      length sub, the last pair ending at e. */
  function Pass(merge: Merge, s: seq<ViewRay>, sub: nat, e: nat): (d: seq<ViewRay>)
    requires sub > 0 && Divides(2 * sub, e) && e <= |s|
    ensures |d| == e
    decreases e
  {
    if e == 0 then []
    else Pass(merge, s, sub, e - 2 * sub) + merge(s[e - 2 * sub..e - sub], s[e - sub..e])
  }

  lemma {:induction false} DividesTransitive(d: nat, e: nat, n: nat)
    requires d > 0 && e > 0 && Divides(d, e) && Divides(e, n)
    ensures Divides(d, n)
    decreases n
  {
    if n > 0 {
      DividesTransitive(d, e, n - e);
      DividesSum(d, e, n - e);
      assert e + (n - e) == n;
    }
  }

  lemma Pow2Halves(p: nat, n: nat)
    requires Divides(Pow2(p + 1), n)
    ensures Divides(Pow2(p), n) && Divides(2 * Pow2(p), n)
  {
    Pow2Divides(p, p + 1);
    DividesTransitive(Pow2(p), Pow2(p + 1), n);
  }

  /** The first p passes over the whole array; pass q merges runs of length
      2 << q into runs of length 4 << q. */
  function Passes(merge: Merge, s: seq<ViewRay>, p: nat): (d: seq<ViewRay>)
    requires Divides(Pow2(p + 1), |s|)
    ensures |d| == |s|
    decreases p
  {
    if p == 0 then s
    else
      Pow2Halves(p, |s|);
      Pass(merge, Passes(merge, s, p - 1), Pow2(p), |s|)
  }

  /** For count = 2^k, 2 * count is 2^(log2(count) + 1). */
  lemma CountDivides(n: nat)
    requires n == 0 || IsPowerOfTwo(n)
    ensures Divides(Pow2(Log2(n, 0) + 1), 2 * n)
    ensures n > 0 ==> 2 * n == Pow2(Log2(n, 0) + 1)
  {
    if n > 0 {
      PowerOfTwoByLog2(n);
      assert Divides(2 * n, 2 * n - 2 * n);
    }
  }

  /** What serial_visimergesort leaves in output. */
  function Visimergesort(m: Libm, segs: seq<Segment>): (d: seq<ViewRay>)
    requires |segs| == 0 || IsPowerOfTwo(|segs|)
    requires forall i :: 0 <= i < |segs| ==> OffOrigin(m, segs[i])
    ensures |d| == 2 * |segs|
  {
    CountDivides(|segs|);
    Passes(Merger(m), InitialRays(m, segs), Log2(|segs|, 0))
  }

  /** When count is a power of two, every pass up to log2(count) splits the
      2 * count rays into whole pairs of runs: no access leaves [0, 2 * count). */
  lemma PassesDefined(count: nat, p: nat)
    requires count == 0 || IsPowerOfTwo(count)
    requires p <= Log2(count, 0)
    ensures Divides(Pow2(p + 1), 2 * count)
  {
    CountDivides(count);
    if count > 0 {
      Pow2Divides(p + 1, Log2(count, 0) + 1);
      DividesTransitive(Pow2(p + 1), Pow2(Log2(count, 0) + 1), 2 * count);
    }
  }

  /** The start offsets of one pass are the multiples of 2 * sub below the
      length, and every pair of runs they name lies inside the array. */
  lemma PassInBounds(sub: nat, start: nat, n: nat)
    requires sub > 0 && Divides(2 * sub, start) && Divides(2 * sub, n) && start < n
    ensures start + 2 * sub <= n && Divides(2 * sub, start + 2 * sub)
  {
    DividesGap(2 * sub, start, n);
    assert Divides(2 * sub, 2 * sub - 2 * sub);
    DividesSum(2 * sub, start, 2 * sub);
  }

  /** The pass over one more pair of runs appends one call of serial_visimerge. */
  lemma PassStep(merge: Merge, s: seq<ViewRay>, sub: nat, start: nat)
    requires sub > 0 && Divides(2 * sub, start) && Divides(2 * sub, start + 2 * sub)
    requires start + 2 * sub <= |s|
    ensures Pass(merge, s, sub, start + 2 * sub)
            == Pass(merge, s, sub, start) + merge(s[start..start + sub], s[start + sub..start + 2 * sub])
  {
  }

  /** Every pass below numPasses is defined on an array of n rays. */
  lemma PassesDefinedBelow(numPasses: nat, p: nat, n: nat)
    requires Divides(Pow2(numPasses + 1), n) && p <= numPasses
    ensures Divides(Pow2(p + 1), n)
  {
    Pow2Divides(p + 1, numPasses + 1);
    DividesTransitive(Pow2(p + 1), Pow2(numPasses + 1), n);
  }

  lemma PassesStep(merge: Merge, s: seq<ViewRay>, p: nat)
    requires Divides(Pow2(p + 2), |s|)
    ensures Divides(Pow2(p + 1), |s|) && Divides(2 * Pow2(p + 1), |s|)
    ensures Passes(merge, s, p + 1) == Pass(merge, Passes(merge, s, p), Pow2(p + 1), |s|)
  {
    Pow2Halves(p + 1, |s|);
  }

  // ---------------------------------------------------------------------------
  // serial_visimergesort

  /** The first start rays of buffer hold the pass over cur up to start. */
  ghost predicate PassDone(merge: Merge, cur: seq<ViewRay>, buffer: array<ViewRay>, sub: nat, start: nat)
    reads buffer
  {
    sub > 0 && start <= buffer.Length && start <= |cur| && Divides(2 * sub, start)
    && buffer[..start] == Pass(merge, cur, sub, start)
  }

  /** serial_visimerge called through its Merge value. */
  method MergeInto(m: Libm, ghost merge: Merge, a: seq<ViewRay>, b: seq<ViewRay>, dest: array<ViewRay>, dOff: nat)
    requires Merges(m, merge)
    requires dOff + |a| + |b| <= dest.Length
    modifies dest
    ensures dest[dOff..dOff + |a| + |b|] == merge(a, b)
    ensures forall k :: 0 <= k < dest.Length && !(dOff <= k < dOff + |a| + |b|) ==> dest[k] == old(dest[k])
  {
    SerialVisimerge.SerialVisimerge(m, a, b, dest, dOff);
  }

  /** One iteration of the inner loop: the pair of runs at start is merged into
      buffer at the same offset, which extends the pass by one pair. */
  method MergeAt(m: Libm, ghost merge: Merge, input: array<ViewRay>, buffer: array<ViewRay>,
                 start: nat, sub: nat, ghost cur: seq<ViewRay>)
    requires Merges(m, merge)
    requires input != buffer && input.Length == buffer.Length && input[..] == cur
    requires PassDone(merge, cur, buffer, sub, start)
    requires Divides(2 * sub, input.Length) && start < input.Length
    modifies buffer
    ensures PassDone(merge, cur, buffer, sub, start + 2 * sub)
  {
    PassInBounds(sub, start, input.Length);
    var a := input[start..start + sub];
    var b := input[start + sub..start + 2 * sub];
    assert a == cur[start..start + sub] && b == cur[start + sub..start + 2 * sub];
    ghost var before := buffer[..start];
    PassStep(merge, cur, sub, start);
    MergeInto(m, merge, a, b, buffer, start);
    assert forall k :: 0 <= k < start ==> buffer[k] == before[k];
    assert buffer[..start + 2 * sub] == before + buffer[start..start + 2 * sub];
  }

  /** The inner loop of one pass: merges the runs of input into buffer. */
  method MergePass(m: Libm, ghost merge: Merge, input: array<ViewRay>, buffer: array<ViewRay>, sub: nat)
    requires Merges(m, merge)
    requires input != buffer && input.Length == buffer.Length
    requires sub > 0 && Divides(2 * sub, input.Length)
    modifies buffer
    ensures input[..] == old(input[..])
    ensures buffer[..] == Pass(merge, old(input[..]), sub, input.Length)
  {
    ghost var cur := input[..];
    var start := 0;
    while start < input.Length
      invariant PassDone(merge, cur, buffer, sub, start)
      invariant input[..] == cur
      decreases input.Length - start
    {
      MergeAt(m, merge, input, buffer, start, sub, cur);
      start := start + 2 * sub;
    }
    assert buffer[..] == buffer[..start];
  }

  /** Parity by counting down, which is how the pointer swaps alternate. */
  function Even(p: nat): bool
  {
    if p == 0 then true else !Even(p - 1)
  }

  lemma {:induction false} EvenIsRemainder(p: nat)
    ensures Even(p) <==> p % 2 == 0
  {
    if p > 0 {
      EvenIsRemainder(p - 1);
    }
  }

  /** The outer loop: numPasses passes, each merging from input into buffer and
      then swapping the two pointers. Returns the array the last pass wrote and
      the array the buffer pointer holds after the last swap. */
  method RunPasses(m: Libm, ghost merge: Merge, input: array<ViewRay>, buffer: array<ViewRay>,
                   numPasses: nat, ghost init: seq<ViewRay>)
    returns (result: array<ViewRay>, other: array<ViewRay>)
    requires Merges(m, merge)
    requires input != buffer && input.Length == buffer.Length == |init|
    requires Divides(Pow2(numPasses + 1), |init|) && input[..] == init
    modifies input, buffer
    ensures result == (if Even(numPasses) then input else buffer)
    ensures other == (if Even(numPasses) then buffer else input) && other != result
    ensures result[..] == Passes(merge, init, numPasses)
  {
    var src, dst := input, buffer;
    PassesDefinedBelow(numPasses, 0, |init|);
    for p := 0 to numPasses
      invariant src != dst && src.Length == dst.Length == |init|
      invariant if Even(p) then src == input && dst == buffer else src == buffer && dst == input
      invariant Divides(Pow2(p + 1), |init|) && src[..] == Passes(merge, init, p)
    {
      PassesDefinedBelow(numPasses, p + 1, |init|);
      PassesStep(merge, init, p);
      MergePass(m, merge, src, dst, Pow2(p + 1));
      src, dst := dst, src;
    }
    result, other := src, dst;
  }

  /** serial_visimergesort: count segments, output of 2 * count rays. The
      pointer swap before the passes makes the last pass write into output.
      Returns the array that `delete[] buffer` releases: always the temporary
      allocation, never output. */
  method SerialVisimergesort(m: Libm, segs: seq<Segment>, count: nat, output: array<ViewRay>)
    returns (freed: array<ViewRay>)
    requires count == |segs| && output.Length == 2 * count
    requires count == 0 || IsPowerOfTwo(count)
    requires forall i :: 0 <= i < |segs| ==> OffOrigin(m, segs[i])
    modifies output
    ensures output[..] == Visimergesort(m, segs)
    ensures fresh(freed) && freed != output
  {
    var numPasses := Log2(count, 0);
    var input := output;
    var heap := new ViewRay[count * 2](_ => DefaultViewRay());
    var buffer := heap;
    if numPasses % 2 == 1 {
      input, buffer := buffer, input;
    }
    InitViewrays(m, segs, input);
    assert input[..] == input[..2 * count];
    CountDivides(count);
    MergerMerges(m);
    var result;
    result, freed := RunPasses(m, Merger(m), input, buffer, numPasses, InitialRays(m, segs));
    EvenIsRemainder(numPasses);
    assert result == output && freed == heap;
  }
}
