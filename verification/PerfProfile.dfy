/** The codec profile: counters, a 65-bucket latency histogram and its percentiles. */
module PerfProfile {
  import opened Basics

  const BUCKET_US: nat := 250
  const BUCKETS: nat := 64

  function Bucket(elapsedUs: nat): (b: nat)
    ensures b <= BUCKETS
  {
    if elapsedUs / BUCKET_US < BUCKETS then elapsedUs / BUCKET_US else BUCKETS
  }

  // ---- the histogram of a run ----

  function HistogramOf(xs: seq<nat>): (h: seq<nat>)
    ensures |h| == BUCKETS + 1
  {
    if xs == [] then Repeat<nat>(0, BUCKETS + 1)
    else
      var h := HistogramOf(xs[..|xs| - 1]);
      var b := Bucket(xs[|xs| - 1]);
      h[b := h[b] + 1]
  }

  function Sum(h: seq<nat>, n: nat): nat
    requires n <= |h|
  {
    if n == 0 then 0 else Sum(h, n - 1) + h[n - 1]
  }

  function Below(xs: seq<nat>, t: nat): nat {
    if xs == [] then 0 else Below(xs[..|xs| - 1], t) + (if xs[|xs| - 1] < t then 1 else 0)
  }

  lemma {:induction false} SumUpdate(h: seq<nat>, b: nat, v: nat, n: nat)
    requires b < |h| && n <= |h|
    ensures Sum(h[b := v], n) == Sum(h, n) - (if b < n then h[b] else 0) + (if b < n then v else 0)
  {
    if n > 0 { SumUpdate(h, b, v, n - 1); }
  }

  lemma {:induction false} SumOfEmpty(m: nat, n: nat)
    requires n <= m
    ensures Sum(Repeat<nat>(0, m), n) == 0
  {
    if n > 0 { SumOfEmpty(m, n - 1); }
  }

  /** The buckets up to n hold exactly the samples below n * 250 us; all buckets together hold every sample. */
  lemma {:induction false} BucketsCountSamples(xs: seq<nat>, n: nat)
    requires n <= BUCKETS + 1
    ensures Sum(HistogramOf(xs), n) == if n <= BUCKETS then Below(xs, n * BUCKET_US) else |xs|
  {
    if xs == [] {
      SumOfEmpty(BUCKETS + 1, n);
    } else {
      var h := HistogramOf(xs[..|xs| - 1]);
      var x := xs[|xs| - 1];
      BucketsCountSamples(xs[..|xs| - 1], n);
      SumUpdate(h, Bucket(x), h[Bucket(x)] + 1, n);
      assert n <= BUCKETS ==> (Bucket(x) < n <==> x < n * BUCKET_US);
    }
  }

  // ---- nearest rank ----

  ghost predicate Sorted(s: seq<nat>) {
    forall i, j :: 0 <= i < j < |s| ==> s[i] <= s[j]
  }

  /** The nearest rank of percentile p among n samples, counting from one. */
  function Rank(n: nat, p: nat): nat {
    (n * p + 99) / 100
  }

  lemma RankInRange(n: nat, p: nat)
    requires n > 0 && 1 <= p <= 100
    ensures 1 <= Rank(n, p) <= n
  {
    assert n <= n * p <= n * 100;
  }

  lemma {:induction false} BelowConcat(a: seq<nat>, b: seq<nat>, t: nat)
    ensures Below(a + b, t) == Below(a, t) + Below(b, t)
  {
    if b == [] {
      assert a + b == a;
    } else {
      assert (a + b)[..|a + b| - 1] == a + b[..|b| - 1];
      BelowConcat(a, b[..|b| - 1], t);
    }
  }

  lemma {:induction false} BelowBounds(xs: seq<nat>, t: nat)
    ensures Below(xs, t) <= |xs|
    ensures (forall i :: 0 <= i < |xs| ==> xs[i] < t) ==> Below(xs, t) == |xs|
    ensures (forall i :: 0 <= i < |xs| ==> xs[i] >= t) ==> Below(xs, t) == 0
  {
    if xs != [] { BelowBounds(xs[..|xs| - 1], t); }
  }

  lemma DropOne(s: seq<nat>, i: nat)
    requires i < |s|
    ensures multiset(s[..i] + s[i + 1..]) == multiset(s) - multiset{s[i]}
  {
    assert s == s[..i] + [s[i]] + s[i + 1..];
  }

  lemma {:induction false} BelowIgnoresOrder(a: seq<nat>, b: seq<nat>, t: nat)
    requires multiset(a) == multiset(b)
    ensures Below(a, t) == Below(b, t)
    decreases |a|
  {
    if a == [] {
      assert |multiset(b)| == 0;
    } else {
      var last := |a| - 1;
      assert a == a[..last] + [a[last]];
      assert a[last] in multiset(b);
      var j :| 0 <= j < |b| && b[j] == a[last];
      var rest := b[..j] + b[j + 1..];
      DropOne(a, last);
      DropOne(b, j);
      assert a[..last] + a[last + 1..] == a[..last];
      BelowIgnoresOrder(a[..last], rest, t);
      BelowDropOne(b, j, t);
    }
  }

  lemma BelowDropOne(s: seq<nat>, i: nat, t: nat)
    requires i < |s|
    ensures Below(s, t) == Below(s[..i] + s[i + 1..], t) + (if s[i] < t then 1 else 0)
  {
    assert s == s[..i] + ([s[i]] + s[i + 1..]);
    BelowConcat(s[..i], [s[i]] + s[i + 1..], t);
    BelowConcat([s[i]], s[i + 1..], t);
    BelowConcat(s[..i], s[i + 1..], t);
    assert [s[i]][..0] == [];
    assert Below([s[i]], t) == if s[i] < t then 1 else 0;
  }

  /** In a sorted run the r-th smallest sample lies below t exactly when at least r samples do. */
  lemma RankedBelow(s: seq<nat>, r: nat, t: nat)
    requires Sorted(s) && 1 <= r <= |s|
    ensures s[r - 1] < t <==> Below(s, t) >= r
  {
    hide Below;
    if s[r - 1] < t {
      PrefixBelow(s, r, t);
    } else {
      SuffixNotBelow(s, r - 1, t);
    }
  }

  lemma PrefixBelow(s: seq<nat>, r: nat, t: nat)
    requires r <= |s| && forall i :: 0 <= i < r ==> s[i] < t
    ensures Below(s, t) >= r
  {
    hide Below;
    assert s == s[..r] + s[r..];
    BelowConcat(s[..r], s[r..], t);
    BelowBounds(s[..r], t);
  }

  lemma SuffixNotBelow(s: seq<nat>, k: nat, t: nat)
    requires k <= |s| && forall i :: k <= i < |s| ==> s[i] >= t
    ensures Below(s, t) <= k
  {
    hide Below;
    assert s == s[..k] + s[k..];
    BelowConcat(s[..k], s[k..], t);
    BelowBounds(s[..k], t);
    BelowBounds(s[k..], t);
  }

  // The bucket the percentile loop stops in.
  function StopBucket(h: seq<nat>, target: nat, from: nat): (b: nat)
    requires |h| == BUCKETS + 1 && from <= BUCKETS
    ensures from <= b <= BUCKETS
    ensures b < BUCKETS ==> Sum(h, b + 1) >= target
    ensures b > from ==> Sum(h, b) < target
    decreases BUCKETS - from
  {
    if from == BUCKETS || Sum(h, from + 1) >= target then from else StopBucket(h, target, from + 1)
  }

  lemma SumStart(h: seq<nat>)
    ensures Sum(h, 0) == 0
  {
  }

  lemma StopStep(h: seq<nat>, target: nat, i: nat)
    requires |h| == BUCKETS + 1 && i <= BUCKETS
    ensures Sum(h, i + 1) == Sum(h, i) + h[i]
    ensures StopBucket(h, target, i) ==
              if i == BUCKETS || Sum(h, i + 1) >= target then i else StopBucket(h, target, i + 1)
  {
  }

  function Reported(h: seq<nat>, samples: nat, p: nat): nat
    requires |h| == BUCKETS + 1
  {
    if samples == 0 then 0
    else
      var b := StopBucket(h, Rank(samples, p), 0);
      if b == BUCKETS then BUCKETS * BUCKET_US else (b + 1) * BUCKET_US
  }

  /**
   The reported percentile brackets the true nearest-rank one: q is the r-th smallest of all samples, whatever
   sorted arrangement of them is taken.
   */
  lemma PercentileBrackets(xs: seq<nat>, sorted: seq<nat>, p: nat)
    requires xs != [] && 1 <= p <= 100 && Sorted(sorted) && multiset(sorted) == multiset(xs)
    ensures |sorted| == |xs| && 1 <= Rank(|xs|, p) <= |xs|
    ensures var q := sorted[Rank(|xs|, p) - 1];
            var v := Reported(HistogramOf(xs), |xs|, p);
            if q < BUCKETS * BUCKET_US then v - BUCKET_US <= q < v else v == BUCKETS * BUCKET_US
  {
    hide Rank, HistogramOf, Sum, StopBucket, Sorted;
    SameSize(xs, sorted);
    RankInRange(|xs|, p);
    StopsAround(xs, sorted, Rank(|xs|, p));
  }

  lemma SameSize(xs: seq<nat>, ys: seq<nat>)
    requires multiset(xs) == multiset(ys)
    ensures |xs| == |ys|
  {
    assert |multiset(xs)| == |multiset(ys)|;
  }

  // The loop stops in the bucket of the r-th smallest sample.
  lemma StopsAround(xs: seq<nat>, sorted: seq<nat>, r: nat)
    requires Sorted(sorted) && multiset(sorted) == multiset(xs) && 1 <= r <= |sorted|
    ensures var b := StopBucket(HistogramOf(xs), r, 0);
            && b * BUCKET_US <= sorted[r - 1]
            && (b < BUCKETS ==> sorted[r - 1] < (b + 1) * BUCKET_US)
  {
    hide HistogramOf, Sum, StopBucket, Sorted;
    var b := StopBucket(HistogramOf(xs), r, 0);
    RankAgainstBucket(xs, sorted, r, b);
    if b < BUCKETS {
      RankAgainstBucket(xs, sorted, r, b + 1);
    }
  }

  lemma RankAgainstBucket(xs: seq<nat>, sorted: seq<nat>, r: nat, n: nat)
    requires Sorted(sorted) && multiset(sorted) == multiset(xs) && 1 <= r <= |sorted| && n <= BUCKETS
    ensures sorted[r - 1] < n * BUCKET_US <==> Sum(HistogramOf(xs), n) >= r
  {
    hide HistogramOf, Sum, Below, Sorted;
    BucketsCountSamples(xs, n);
    BelowIgnoresOrder(sorted, xs, n * BUCKET_US);
    RankedBelow(sorted, r, n * BUCKET_US);
  }

  // ---- the profile record ----

  datatype CodecSample = CodecSample(elapsedUs: nat, cycles: nat, instret: nat, icacheAccess: nat, icacheMiss: nat,
                           dcacheRead: nat, dcacheReadMiss: nat)

  function Elapsed(run: seq<CodecSample>): (xs: seq<nat>)
    ensures |xs| == |run|
  {
    if run == [] then [] else Elapsed(run[..|run| - 1]) + [run[|run| - 1].elapsedUs]
  }

  // The profile's fields in the order they are written: counters, histogram, cycle counters, totals.
  const CELLS: nat := 77

  function Start(): (cells: seq<nat>)
    ensures |cells| == CELLS
  {
    Repeat<nat>(0, CELLS)
  }

  function Record(cells: seq<nat>, x: CodecSample): (after: seq<nat>)
    requires |cells| == CELLS
    ensures |after| == CELLS
  {
    var b := Bucket(x.elapsedUs);
    [cells[0] + 1, x.elapsedUs, cells[2] + x.elapsedUs, Max(cells[3], x.elapsedUs)]
    + cells[4..69][b := cells[4 + b] + 1]
    + [x.cycles, cells[70] + x.cycles, Max(cells[71], x.cycles), cells[72] + x.instret,
       cells[73] + x.icacheAccess, cells[74] + x.icacheMiss, cells[75] + x.dcacheRead, cells[76] + x.dcacheReadMiss]
  }

  /** The profile after a whole run of recorded samples. */
  function ProfileOf(run: seq<CodecSample>): (cells: seq<nat>)
    ensures |cells| == CELLS
  {
    if run == [] then Start() else Record(ProfileOf(run[..|run| - 1]), run[|run| - 1])
  }

  function SampleCount(cells: seq<nat>): nat
    requires |cells| == CELLS
  {
    cells[0]
  }

  function Histogram(cells: seq<nat>): (h: seq<nat>)
    requires |cells| == CELLS
    ensures |h| == BUCKETS + 1
  {
    cells[4..69]
  }

  lemma RecordCounts(cells: seq<nat>, x: CodecSample)
    requires |cells| == CELLS
    ensures SampleCount(Record(cells, x)) == SampleCount(cells) + 1
    ensures var b := Bucket(x.elapsedUs);
            Histogram(Record(cells, x)) == Histogram(cells)[b := Histogram(cells)[b] + 1]
  {
    hide Bucket;
  }

  lemma StartCounts()
    ensures SampleCount(Start()) == 0 && Histogram(Start()) == HistogramOf([])
  {
  }

  lemma HistogramStep(xs: seq<nat>, x: nat)
    ensures HistogramOf(xs + [x]) == HistogramOf(xs)[Bucket(x) := HistogramOf(xs)[Bucket(x)] + 1]
  {
    hide Bucket;
    assert (xs + [x])[..|xs|] == xs;
  }

  /** A profile counts its samples twice over: in the counter and in the histogram. */
  lemma {:induction false} ProfileCountsSamples(run: seq<CodecSample>)
    ensures SampleCount(ProfileOf(run)) == |run|
    ensures Histogram(ProfileOf(run)) == HistogramOf(Elapsed(run))
    ensures Sum(Histogram(ProfileOf(run)), BUCKETS + 1) == |run|
  {
    hide Record, Histogram, SampleCount, Sum, Bucket, HistogramOf, Start;
    if run == [] {
      StartCounts();
    } else {
      var prior := run[..|run| - 1];
      var last := run[|run| - 1];
      ProfileCountsSamples(prior);
      RecordCounts(ProfileOf(prior), last);
      HistogramStep(Elapsed(prior), last.elapsedUs);
    }
    BucketsCountSamples(Elapsed(run), BUCKETS + 1);
  }

  datatype Field = ElapsedUs | Cycles | Instret | IcacheAccess | IcacheMiss | DcacheRead | DcacheReadMiss

  function ValueOf(x: CodecSample, field: Field): nat {
    match field
    case ElapsedUs => x.elapsedUs
    case Cycles => x.cycles
    case Instret => x.instret
    case IcacheAccess => x.icacheAccess
    case IcacheMiss => x.icacheMiss
    case DcacheRead => x.dcacheRead
    case DcacheReadMiss => x.dcacheReadMiss
  }

  // The sum of one field over a run, and its largest value.
  function Total(run: seq<CodecSample>, field: Field): nat {
    if run == [] then 0 else Total(run[..|run| - 1], field) + ValueOf(run[|run| - 1], field)
  }

  ghost predicate IsLargest(run: seq<CodecSample>, field: Field, v: nat) {
    && (forall i :: 0 <= i < |run| ==> ValueOf(run[i], field) <= v)
    && (v == 0 || exists i :: 0 <= i < |run| && ValueOf(run[i], field) == v)
  }

  lemma LargestGrows(run: seq<CodecSample>, field: Field, v: nat)
    requires run != [] && IsLargest(run[..|run| - 1], field, v)
    ensures IsLargest(run, field, Max(v, ValueOf(run[|run| - 1], field)))
  {
    var prior := run[..|run| - 1];
    var last := ValueOf(run[|run| - 1], field);
    assert forall i :: 0 <= i < |prior| ==> prior[i] == run[i];
    if last <= v && v != 0 {
      var i :| 0 <= i < |prior| && ValueOf(prior[i], field) == v;
      assert ValueOf(run[i], field) == v;
    }
  }

  /** Every counter of the profile after a run: totals are sums, maxima are largest values, the rest is the latest sample's. */
  lemma {:induction false} ProfileTotals(run: seq<CodecSample>)
    ensures var c := ProfileOf(run);
            && c[2] == Total(run, ElapsedUs) && IsLargest(run, ElapsedUs, c[3])
            && c[70] == Total(run, Cycles) && IsLargest(run, Cycles, c[71])
            && c[72] == Total(run, Instret)
            && c[73] == Total(run, IcacheAccess) && c[74] == Total(run, IcacheMiss)
            && c[75] == Total(run, DcacheRead) && c[76] == Total(run, DcacheReadMiss)
            && (run != [] ==> c[1] == run[|run| - 1].elapsedUs && c[69] == run[|run| - 1].cycles)
  {
    hide Bucket, IsLargest;
    if run == [] {
      assert IsLargest(run, ElapsedUs, 0) && IsLargest(run, Cycles, 0) by { NothingLargest(); }
    } else {
      ProfileTotals(run[..|run| - 1]);
      var c := ProfileOf(run[..|run| - 1]);
      LargestGrows(run, ElapsedUs, c[3]);
      LargestGrows(run, Cycles, c[71]);
    }
  }

  lemma NothingLargest()
    ensures forall field :: IsLargest([], field, 0)
  {
  }

  /**
   End to end: what the profile's own histogram and counter report after any run of records brackets the
   nearest-rank percentile of the run, and the saturated histogram total is that counter.
   */
  lemma ProfilePercentileBrackets(run: seq<CodecSample>, sorted: seq<nat>, p: nat)
    requires run != [] && |run| <= UINT32_MAX && 1 <= p <= 100
    requires Sorted(sorted) && multiset(sorted) == multiset(Elapsed(run))
    ensures |sorted| == |run| && 1 <= Rank(|run|, p) <= |run|
    ensures var q := sorted[Rank(|run|, p) - 1];
            var h := Histogram(ProfileOf(run));
            var v := Reported(h, SampleCount(ProfileOf(run)), p);
            && Saturated(Sum(h, BUCKETS + 1)) == SampleCount(ProfileOf(run))
            && if q < BUCKETS * BUCKET_US then v - BUCKET_US <= q < v else v == BUCKETS * BUCKET_US
  {
    hide Rank, HistogramOf, Histogram, SampleCount, ProfileOf, Sum, Reported, Sorted, Elapsed;
    ProfileCountsSamples(run);
    PercentileBrackets(Elapsed(run), sorted, p);
  }

  class CodecProfile {
    var sequence: nat
    var samples: nat
    var lastUs: nat
    var maxUs: nat
    var totalUs: nat
    var lastCycles: nat
    var maxCycles: nat
    var totalCycles: nat
    var totalInstret: nat
    var icacheAccess: nat
    var icacheMiss: nat
    var dcacheRead: nat
    var dcacheReadMiss: nat
    const histogram: array<nat>

    ghost predicate Valid() {
      histogram.Length == BUCKETS + 1
    }

    ghost function Cells(): (cells: seq<nat>)
      reads this, histogram
      requires Valid()
      ensures |cells| == CELLS
    {
      [samples, lastUs, totalUs, maxUs] + histogram[..]
      + [lastCycles, totalCycles, maxCycles, totalInstret, icacheAccess, icacheMiss, dcacheRead, dcacheReadMiss]
    }

    constructor ()
      ensures Valid() && fresh(histogram)
      ensures Cells() == ProfileOf([]) && sequence == 0
    {
      sequence, samples, lastUs, maxUs, totalUs, lastCycles, maxCycles, totalCycles := 0, 0, 0, 0, 0, 0, 0, 0;
      totalInstret, icacheAccess, icacheMiss, dcacheRead, dcacheReadMiss := 0, 0, 0, 0, 0;
      histogram := new nat[BUCKETS + 1](_ => 0);
    }

    method RecordSample(x: CodecSample)
      requires Valid()
      modifies this, histogram
      ensures Valid() && sequence == old(sequence) + 2
      ensures Cells() == Record(old(Cells()), x)
    {
      ghost var before := Cells();
      assert before[4..69] == histogram[..];
      sequence := sequence + 1;
      RecordLatency(x);
      RecordCounters(x);
      sequence := sequence + 1;
    }

    method RecordLatency(x: CodecSample)
      requires Valid()
      modifies this`samples, this`lastUs, this`totalUs, this`maxUs, histogram
      ensures samples == old(samples) + 1 && lastUs == x.elapsedUs && totalUs == old(totalUs) + x.elapsedUs
      ensures maxUs == Max(old(maxUs), x.elapsedUs)
      ensures histogram[..] == old(histogram[..])[Bucket(x.elapsedUs) := old(histogram[..])[Bucket(x.elapsedUs)] + 1]
    {
      samples := samples + 1;
      lastUs := x.elapsedUs;
      totalUs := totalUs + x.elapsedUs;
      if x.elapsedUs > maxUs {
        maxUs := x.elapsedUs;
      }
      var b := Bucket(x.elapsedUs);
      histogram[b] := histogram[b] + 1;
    }

    method RecordCounters(x: CodecSample)
      modifies this`lastCycles, this`totalCycles, this`maxCycles, this`totalInstret, this`icacheAccess,
               this`icacheMiss, this`dcacheRead, this`dcacheReadMiss
      ensures lastCycles == x.cycles && totalCycles == old(totalCycles) + x.cycles
      ensures maxCycles == Max(old(maxCycles), x.cycles) && totalInstret == old(totalInstret) + x.instret
      ensures icacheAccess == old(icacheAccess) + x.icacheAccess && icacheMiss == old(icacheMiss) + x.icacheMiss
      ensures dcacheRead == old(dcacheRead) + x.dcacheRead && dcacheReadMiss == old(dcacheReadMiss) + x.dcacheReadMiss
    {
      lastCycles := x.cycles;
      totalCycles := totalCycles + x.cycles;
      if x.cycles > maxCycles {
        maxCycles := x.cycles;
      }
      totalInstret := totalInstret + x.instret;
      icacheAccess := icacheAccess + x.icacheAccess;
      icacheMiss := icacheMiss + x.icacheMiss;
      dcacheRead := dcacheRead + x.dcacheRead;
      dcacheReadMiss := dcacheReadMiss + x.dcacheReadMiss;
    }

    method Percentile(p: nat) returns (v: nat)
      requires Valid()
      ensures v == Reported(histogram[..], samples, p)
    {
      hide StopBucket, Sum;
      if samples == 0 {
        return 0;
      }
      SumStart(histogram[..]);
      var cumulative := 0;
      var target := (samples * p + 99) / 100;
      for i := 0 to BUCKETS + 1
        invariant cumulative == Sum(histogram[..], i)
        invariant StopBucket(histogram[..], target, 0) ==
                    if i <= BUCKETS then StopBucket(histogram[..], target, i) else BUCKETS
      {
        cumulative := cumulative + histogram[i];
        StopStep(histogram[..], target, i);
        if cumulative >= target {
          if i == BUCKETS {
            return BUCKETS * BUCKET_US;
          }
          return (i + 1) * BUCKET_US;
        }
      }
      v := BUCKETS * BUCKET_US;
    }

    method HistogramSampleCount() returns (total: nat)
      requires Valid()
      ensures total == Saturated(Sum(histogram[..], BUCKETS + 1))
    {
      total := 0;
      for i := 0 to BUCKETS + 1
        invariant total == Sum(histogram[..], i)
      {
        total := total + histogram[i];
      }
      if total > UINT32_MAX {
        total := UINT32_MAX;
      }
    }
  }
}
