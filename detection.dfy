/**
 * The integer part of block-size detection in pixelizer.js: statistics over
 * scanline run lengths (`calculateSizeStatistics`, `gcd`), candidate sizes
 * (`findCommonSizes`) and the choice among them (`validateCandidates`), plus
 * `calculateSuggestedWidth`.  The randomised validation score of each
 * candidate is an input.
 */
module Detection {
  import opened Pixels
  import opened Scanlines

  /** The source's `{ mode, gcd, variance, sizes }` without the unused float `variance`. */
  datatype SizeStatistics = SizeStatistics(mode: nat, gcd: nat, sizes: seq<nat>)

  /** A proposed block size with its prior confidence. */
  datatype Candidate = Candidate(size: nat, confidence: real)

  /** The detection result `{ blockSize, confidence }`. */
  datatype BlockDetection = BlockDetection(blockSize: nat, confidence: real)

  // ---------------------------------------------------------------------------
  // Greatest common divisor

  /** `d` divides `n` (0 divides only 0). */
  predicate Divides(d: nat, n: nat)
  {
    if d == 0 then n == 0 else n % d == 0
  }

  /** The source's `gcd(a, b)`: Euclid's algorithm, with `gcd(a, 0) = a`. */
  function Gcd(a: nat, b: nat): nat
    decreases b
  {
    if b == 0 then a else Gcd(b, a % b)
  }

  lemma DividesMultiple(d: nat, m: nat)
    ensures Divides(d, d * m)
  {
    if d > 0 {
      DivModUnique(m, d, 0);
      assert m * d + 0 == d * m;
    }
  }

  lemma DividesWitness(d: nat, n: nat)
    requires Divides(d, n)
    ensures n == d * (if d == 0 then 0 else n / d)
  {
  }

  lemma DividesSum(d: nat, x: nat, y: nat)
    requires Divides(d, x) && Divides(d, y)
    ensures Divides(d, x + y)
  {
    if d > 0 {
      DividesWitness(d, x);
      DividesWitness(d, y);
      assert x + y == d * (x / d + y / d);
      DividesMultiple(d, x / d + y / d);
    }
  }

  lemma DividesDifference(d: nat, x: nat, y: nat)
    requires Divides(d, x) && Divides(d, y) && y <= x
    ensures Divides(d, x - y)
  {
    if d > 0 {
      DividesWitness(d, x);
      DividesWitness(d, y);
      assert x / d >= y / d by {
        if x / d < y / d {
          MulLeftMono(x / d + 1, y / d, d);
        }
      }
      assert x - y == d * (x / d - y / d);
      DividesMultiple(d, x / d - y / d);
    }
  }

  lemma DividesScaled(d: nat, x: nat, q: nat)
    requires Divides(d, x)
    ensures Divides(d, q * x)
  {
    DividesWitness(d, x);
    var k := if d == 0 then 0 else x / d;
    assert q * x == d * (k * q);
    DividesMultiple(d, k * q);
  }

  lemma DividesTransitive(a: nat, b: nat, c: nat)
    requires Divides(a, b) && Divides(b, c)
    ensures Divides(a, c)
  {
    var k := if b == 0 then 0 else c / b;
    DividesWitness(b, c);
    assert k * b == c;
    DividesScaled(a, b, k);
  }

  /** Two numbers that divide each other are equal. */
  lemma DividesAntisymmetric(a: nat, b: nat)
    requires Divides(a, b) && Divides(b, a)
    ensures a == b
  {
    if a > 0 && b > 0 {
      DividesWitness(a, b);
      DividesWitness(b, a);
      MulLeftMono(1, b / a, a);
      MulLeftMono(1, a / b, b);
    }
  }

  /** Division with remainder: `a` is `a / b` copies of `b` plus `a % b`. */
  lemma EuclidSplit(a: nat, b: nat)
    requires b > 0
    ensures (a / b) * b + a % b == a
  {
  }

  /** A common divisor of `a` and `b` divides the remainder `a % b`. */
  lemma DividesRemainder(d: nat, a: nat, b: nat)
    requires Divides(d, a) && Divides(d, b) && b > 0
    ensures Divides(d, a % b)
  {
    DividesScaled(d, b, a / b);
    EuclidSplit(a, b);
    DividesDifference(d, a, (a / b) * b);
  }

  /** `gcd(a, b)` divides both arguments. */
  lemma {:induction false} GcdDivides(a: nat, b: nat)
    ensures Divides(Gcd(a, b), a) && Divides(Gcd(a, b), b)
    decreases b
  {
    if b == 0 {
      if a > 0 {
        DividesMultiple(a, 1);
      }
    } else {
      var g := Gcd(b, a % b);
      GcdDivides(b, a % b);
      DividesScaled(g, b, a / b);
      EuclidSplit(a, b);
      DividesSum(g, (a / b) * b, a % b);
    }
  }

  /** Every common divisor of `a` and `b` divides `gcd(a, b)`. */
  lemma {:induction false} GcdGreatest(a: nat, b: nat, d: nat)
    requires Divides(d, a) && Divides(d, b)
    ensures Divides(d, Gcd(a, b))
    decreases b
  {
    if b > 0 {
      DividesRemainder(d, a, b);
      GcdGreatest(b, a % b, d);
    }
  }

  /** `sizes.reduce((a, b) => gcd(a, b))`: a left fold without an initial value. */
  function GcdAll(sizes: seq<nat>): nat
    requires |sizes| > 0
  {
    if |sizes| == 1 then sizes[0] else Gcd(GcdAll(sizes[..|sizes| - 1]), sizes[|sizes| - 1])
  }

  /** The folded gcd divides every length. */
  lemma {:induction false} GcdAllDivides(sizes: seq<nat>)
    requires |sizes| > 0
    ensures forall k :: 0 <= k < |sizes| ==> Divides(GcdAll(sizes), sizes[k])
  {
    var g := GcdAll(sizes);
    if |sizes| == 1 {
      if g > 0 {
        DividesMultiple(g, 1);
      }
    } else {
      var prefix := sizes[..|sizes| - 1];
      GcdAllDivides(prefix);
      GcdDivides(GcdAll(prefix), sizes[|sizes| - 1]);
      forall k | 0 <= k < |sizes| - 1
        ensures Divides(g, sizes[k])
      {
        assert sizes[k] == prefix[k];
        DividesTransitive(g, GcdAll(prefix), sizes[k]);
      }
    }
  }

  /** Every common divisor of the lengths divides the folded gcd. */
  lemma {:induction false} GcdAllGreatest(sizes: seq<nat>, d: nat)
    requires |sizes| > 0
    requires forall k :: 0 <= k < |sizes| ==> Divides(d, sizes[k])
    ensures Divides(d, GcdAll(sizes))
  {
    if |sizes| > 1 {
      var prefix := sizes[..|sizes| - 1];
      assert forall k :: 0 <= k < |prefix| ==> prefix[k] == sizes[k];
      GcdAllGreatest(prefix, d);
      GcdGreatest(GcdAll(prefix), sizes[|sizes| - 1], d);
    }
  }

  // ---------------------------------------------------------------------------
  // Mode

  function MaxOf(s: seq<nat>): (m: nat)
    ensures forall k :: 0 <= k < |s| ==> s[k] <= m
  {
    if s == [] then 0 else var t := MaxOf(s[1..]); if s[0] > t then s[0] else t
  }

  /**
   * The keys of `frequency` below `bound`, ascending: the order in which
   * `Object.keys` lists integer-like keys.
   */
  function KeysBelow(frequency: map<nat, nat>, bound: nat): (keys: seq<nat>)
    ensures forall k :: k in keys <==> k in frequency && k < bound
    ensures forall i, j :: 0 <= i < j < |keys| ==> keys[i] < keys[j]
  {
    if bound == 0 then []
    else
      var smaller := KeysBelow(frequency, bound - 1);
      assert forall i :: 0 <= i < |smaller| ==> smaller[i] in smaller;
      smaller + (if bound - 1 in frequency then [bound - 1] else [])
  }

  /** `keys.reduce((a, b) => frequency[a] > frequency[b] ? a : b)`. */
  function ModeOf(frequency: map<nat, nat>, keys: seq<nat>): (mode: nat)
    requires |keys| > 0 && forall k :: k in keys ==> k in frequency
    ensures mode in keys
  {
    if |keys| == 1 then keys[0]
    else
      var a := ModeOf(frequency, keys[..|keys| - 1]);
      var b := keys[|keys| - 1];
      if frequency[a] > frequency[b] then a else b
  }

  /**
   * Over ascending keys the reduction keeps the most frequent key, and among
   * equally frequent keys the largest: a later key wins every tie.
   */
  lemma {:induction false} ModeOfMostFrequent(frequency: map<nat, nat>, keys: seq<nat>)
    requires |keys| > 0 && forall k :: k in keys ==> k in frequency
    requires forall i, j :: 0 <= i < j < |keys| ==> keys[i] < keys[j]
    ensures forall k :: k in keys ==> frequency[k] <= frequency[ModeOf(frequency, keys)]
    ensures forall k :: k in keys && k > ModeOf(frequency, keys) ==>
      frequency[k] < frequency[ModeOf(frequency, keys)]
  {
    if |keys| > 1 {
      var prefix := keys[..|keys| - 1];
      var b := keys[|keys| - 1];
      ModeOfMostFrequent(frequency, prefix);
      assert forall k :: k in keys ==> k in prefix || k == b;
      assert forall k :: k in prefix ==> k < b;
    }
  }

  /** The frequency table of the lengths, `frequency[size] = count`. */
  ghost function Frequencies(sizes: seq<nat>): (frequency: map<nat, nat>)
    ensures forall v :: v in frequency <==> v in sizes
  {
    assert forall v :: v in multiset(sizes) <==> v in sizes;
    map v | v in multiset(sizes) :: multiset(sizes)[v]
  }

  /** Counting one more length: `frequency[size] = (frequency[size] || 0) + 1`. */
  lemma FrequenciesAppend(sizes: seq<nat>, size: nat)
    ensures var frequency := Frequencies(sizes);
      Frequencies(sizes + [size]) == frequency[size := (if size in frequency then frequency[size] else 0) + 1]
  {
    assert multiset(sizes + [size]) == multiset(sizes) + multiset{size};
  }

  /** What `calculateSizeStatistics` returns. */
  ghost function StatisticsOf(sizes: seq<nat>): SizeStatistics
  {
    if sizes == [] then SizeStatistics(1, 1, [])
    else
      var frequency := Frequencies(sizes);
      assert sizes[0] in KeysBelow(frequency, MaxOf(sizes) + 1);
      SizeStatistics(ModeOf(frequency, KeysBelow(frequency, MaxOf(sizes) + 1)), GcdAll(sizes), sizes)
  }

  /**
   * The statistics, stated without the algorithm: the mode is a length of
   * maximal frequency and the largest such length, and the gcd divides every
   * length and is divided by every common divisor.
   */
  ghost predicate IsSizeStatistics(stats: SizeStatistics, sizes: seq<nat>)
  {
    if sizes == [] then stats == SizeStatistics(1, 1, [])
    else
      && stats.sizes == sizes
      && stats.mode in sizes
      && (forall v :: multiset(sizes)[v] <= multiset(sizes)[stats.mode])
      && (forall v :: v > stats.mode ==> multiset(sizes)[v] < multiset(sizes)[stats.mode])
      && (forall k :: 0 <= k < |sizes| ==> Divides(stats.gcd, sizes[k]))
      && (forall d :: (forall k :: 0 <= k < |sizes| ==> Divides(d, sizes[k])) ==> Divides(d, stats.gcd))
  }

  /** `calculateSizeStatistics` meets that statement. */
  lemma StatisticsOfCorrect(sizes: seq<nat>)
    ensures IsSizeStatistics(StatisticsOf(sizes), sizes)
  {
    if sizes != [] {
      var frequency := Frequencies(sizes);
      var keys := KeysBelow(frequency, MaxOf(sizes) + 1);
      assert sizes[0] in keys;
      var mode := ModeOf(frequency, keys);
      ModeOfMostFrequent(frequency, keys);
      forall v
        ensures multiset(sizes)[v] <= multiset(sizes)[mode]
        ensures v > mode ==> multiset(sizes)[v] < multiset(sizes)[mode]
      {
        if v in sizes {
          assert v in keys;
        }
      }
      GcdAllDivides(sizes);
      forall d | forall k :: 0 <= k < |sizes| ==> Divides(d, sizes[k])
        ensures Divides(d, GcdAll(sizes))
      {
        GcdAllGreatest(sizes, d);
      }
    }
  }

  /** The statistics are determined by the lengths: at most one value meets the statement. */
  lemma SizeStatisticsUnique(s1: SizeStatistics, s2: SizeStatistics, sizes: seq<nat>)
    requires IsSizeStatistics(s1, sizes) && IsSizeStatistics(s2, sizes)
    ensures s1 == s2
  {
    if sizes != [] {
      assert multiset(sizes)[s1.mode] <= multiset(sizes)[s2.mode] <= multiset(sizes)[s1.mode];
      DividesAntisymmetric(s1.gcd, s2.gcd);
    }
  }

  /** A non-empty list of lengths of at least 1 has a positive gcd and a positive mode. */
  lemma StatisticsPositive(sizes: seq<nat>)
    requires forall k :: 0 <= k < |sizes| ==> sizes[k] >= 1
    ensures StatisticsOf(sizes).mode >= 1 && StatisticsOf(sizes).gcd >= 1
  {
    StatisticsOfCorrect(sizes);
  }

  /**
   * `calculateSizeStatistics`: counts each length in a frequency table, then
   * reduces the keys to the mode and the lengths to their gcd.
   */
  method CalculateSizeStatistics(sizes: seq<nat>) returns (stats: SizeStatistics)
    ensures stats == StatisticsOf(sizes)
    ensures IsSizeStatistics(stats, sizes)
  {
    if |sizes| == 0 {
      return SizeStatistics(1, 1, []);
    }
    var frequency: map<nat, nat> := map[];
    for i := 0 to |sizes|
      invariant frequency == Frequencies(sizes[..i])
    {
      var size := sizes[i];
      assert sizes[..i + 1] == sizes[..i] + [size];
      FrequenciesAppend(sizes[..i], size);
      frequency := frequency[size := (if size in frequency then frequency[size] else 0) + 1];
    }
    assert sizes[..|sizes|] == sizes;
    var keys := KeysBelow(frequency, MaxOf(sizes) + 1);
    assert sizes[0] in keys;
    var mode := ModeOf(frequency, keys);
    var gcd := GcdAll(sizes);
    stats := SizeStatistics(mode, gcd, sizes);
    StatisticsOfCorrect(sizes);
  }

  // ---------------------------------------------------------------------------
  // Sampled scanlines

  /** Every sampled row (horizontal) or column (vertical) lies inside the image. */
  predicate ValidPositions(width: nat, height: nat, positions: seq<nat>, horizontal: bool)
  {
    forall k :: 0 <= k < |positions| ==> if horizontal then positions[k] < height else positions[k] < width
  }

  /** The run lengths of the sampled scanlines, concatenated in sampling order. */
  ghost function SampledRuns(img: seq<Color>, width: nat, height: nat, positions: seq<nat>, horizontal: bool): seq<nat>
    requires IsRaster(img, width, height) && ValidPositions(width, height, positions, horizontal)
  {
    if positions == [] then []
    else
      SampledRuns(img, width, height, positions[..|positions| - 1], horizontal)
        + Runs(Scanline(img, width, height, positions[|positions| - 1], horizontal))
  }

  lemma {:induction false} SumAppend(a: seq<nat>, b: seq<nat>)
    ensures Sum(a + b) == Sum(a) + Sum(b)
  {
    if a == [] {
      assert a + b == b;
    } else {
      assert (a + b)[0] == a[0] && (a + b)[1..] == a[1..] + b;
      SumAppend(a[1..], b);
    }
  }

  /** Every sampled scanline contributes its full length: the lengths add up to lines * length. */
  lemma {:induction false} SampledRunsSum(img: seq<Color>, width: nat, height: nat, positions: seq<nat>, horizontal: bool)
    requires IsRaster(img, width, height) && ValidPositions(width, height, positions, horizontal)
    ensures Sum(SampledRuns(img, width, height, positions, horizontal))
      == |positions| * (if horizontal then width else height)
  {
    if positions != [] {
      var prefix := positions[..|positions| - 1];
      var line := Scanline(img, width, height, positions[|positions| - 1], horizontal);
      SampledRunsSum(img, width, height, prefix, horizontal);
      RunsLengths(line);
      SumAppend(SampledRuns(img, width, height, prefix, horizontal), Runs(line));
      MulSuccessor(|prefix|, if horizontal then width else height);
    }
  }

  /**
   * `analyzeHorizontalScanlines` / `analyzeVerticalScanlines`: run-length
   * analysis of each sampled line, lengths concatenated, then statistics.
   * The sampled lines are given (see README for the index arithmetic).
   */
  method AnalyzeScanlines(img: seq<Color>, width: nat, height: nat, positions: seq<nat>, horizontal: bool)
    returns (stats: SizeStatistics)
    requires IsRaster(img, width, height) && ValidPositions(width, height, positions, horizontal)
    ensures stats == StatisticsOf(SampledRuns(img, width, height, positions, horizontal))
  {
    var sizes := [];
    for i := 0 to |positions|
      invariant sizes == SampledRuns(img, width, height, positions[..i], horizontal)
    {
      var lineSizes := AnalyzeScanline(img, width, height, positions[i], horizontal);
      assert positions[..i + 1][..i] == positions[..i];
      sizes := sizes + lineSizes;
    }
    assert positions[..|positions|] == positions;
    stats := CalculateSizeStatistics(sizes);
  }

  // ---------------------------------------------------------------------------
  // Candidates

  /**
   * `findCommonSizes`: a mode candidate (0.9) when both directions agree on a
   * mode above 1, a gcd candidate (0.7) when the gcd of both gcds is in
   * (1, 16], and `{1, 0.1}` when neither applies.  The candidates are pushed
   * in descending confidence, so the source's stable sort keeps that order.
   */
  function FindCommonSizes(horizontal: SizeStatistics, vertical: SizeStatistics): (candidates: seq<Candidate>)
    ensures 1 <= |candidates| <= 2
    ensures forall i, j :: 0 <= i < j < |candidates| ==> candidates[i].confidence >= candidates[j].confidence
    ensures (exists c :: c in candidates && c.confidence == 0.9) <==>
      horizontal.mode == vertical.mode && horizontal.mode > 1
    ensures (exists c :: c in candidates && c.confidence == 0.7) <==>
      1 < Gcd(horizontal.gcd, vertical.gcd) <= 16
    ensures horizontal.mode == vertical.mode && horizontal.mode > 1 ==> Candidate(horizontal.mode, 0.9) in candidates
    ensures 1 < Gcd(horizontal.gcd, vertical.gcd) <= 16 ==> Candidate(Gcd(horizontal.gcd, vertical.gcd), 0.7) in candidates
    ensures Candidate(1, 0.1) in candidates <==>
      !(horizontal.mode == vertical.mode && horizontal.mode > 1) && !(1 < Gcd(horizontal.gcd, vertical.gcd) <= 16)
    ensures forall c :: c in candidates ==> c.size >= 1 && 0.0 < c.confidence <= 1.0
  {
    var byMode := if horizontal.mode == vertical.mode && horizontal.mode > 1
      then [Candidate(horizontal.mode, 0.9)] else [];
    var commonGcd := Gcd(horizontal.gcd, vertical.gcd);
    var byGcd := if commonGcd > 1 && commonGcd <= 16 then [Candidate(commonGcd, 0.7)] else [];
    var candidates := byMode + byGcd;
    if candidates == [] then [Candidate(1, 0.1)] else candidates
  }

  // ---------------------------------------------------------------------------
  // Selection

  /**
   * `validateCandidates` over the candidates and their validation scores
   * (`None` for a NaN score, which never compares greater): a left fold from
   * `{1, 0}` that accepts a candidate when its raw score exceeds the stored
   * confidence, and then stores score times prior.
   */
  function Selected(candidates: seq<Candidate>, scores: seq<Option<real>>): BlockDetection
    requires |scores| == |candidates|
  {
    if candidates == [] then BlockDetection(1, 0.0)
    else
      var n := |candidates| - 1;
      var best := Selected(candidates[..n], scores[..n]);
      if scores[n].Some? && scores[n].value > best.confidence
      then BlockDetection(candidates[n].size, scores[n].value * candidates[n].confidence)
      else best
  }

  /** Candidate `k` accepted with its score: its size and score times its prior. */
  ghost predicate AcceptedAt(r: BlockDetection, candidates: seq<Candidate>, scores: seq<Option<real>>, k: int)
    requires |scores| == |candidates|
  {
    0 <= k < |candidates| && scores[k].Some? &&
    r == BlockDetection(candidates[k].size, scores[k].value * candidates[k].confidence)
  }

  lemma AcceptedAtPrefix(r: BlockDetection, candidates: seq<Candidate>, scores: seq<Option<real>>, n: nat, k: int)
    requires |scores| == |candidates| && n <= |candidates|
    requires AcceptedAt(r, candidates[..n], scores[..n], k)
    ensures AcceptedAt(r, candidates, scores, k)
  {
    assert candidates[k] == candidates[..n][k] && scores[k] == scores[..n][k];
  }

  /** The result is the default `{1, 0}` or some candidate with its score times its prior. */
  lemma {:induction false} SelectedIsCandidate(candidates: seq<Candidate>, scores: seq<Option<real>>)
    requires |scores| == |candidates|
    ensures var r := Selected(candidates, scores);
      r == BlockDetection(1, 0.0) || exists k :: AcceptedAt(r, candidates, scores, k)
  {
    if candidates != [] {
      var n := |candidates| - 1;
      var best := Selected(candidates[..n], scores[..n]);
      SelectedIsCandidate(candidates[..n], scores[..n]);
      if scores[n].Some? && scores[n].value > best.confidence {
        assert AcceptedAt(Selected(candidates, scores), candidates, scores, n);
      } else if best != BlockDetection(1, 0.0) {
        var k :| AcceptedAt(best, candidates[..n], scores[..n], k);
        AcceptedAtPrefix(best, candidates, scores, n, k);
      }
    }
  }

  /** Hence the block size is 1 or the size of one of the candidates. */
  lemma SelectedBlockSize(candidates: seq<Candidate>, scores: seq<Option<real>>)
    requires |scores| == |candidates|
    ensures var r := Selected(candidates, scores);
      r.blockSize == 1 || exists k :: 0 <= k < |candidates| && r.blockSize == candidates[k].size
  {
    SelectedIsCandidate(candidates, scores);
    var r := Selected(candidates, scores);
    if r != BlockDetection(1, 0.0) {
      var k :| AcceptedAt(r, candidates, scores, k);
      assert r.blockSize == candidates[k].size;
    }
  }

  /** Scores and priors in [0, 1] give a confidence in [0, 1]. */
  lemma {:induction false} SelectedInUnitRange(candidates: seq<Candidate>, scores: seq<Option<real>>)
    requires |scores| == |candidates|
    requires forall k :: 0 <= k < |candidates| ==> 0.0 <= candidates[k].confidence <= 1.0
    requires forall k :: 0 <= k < |scores| && scores[k].Some? ==> 0.0 <= scores[k].value <= 1.0
    ensures 0.0 <= Selected(candidates, scores).confidence <= 1.0
  {
    if candidates != [] {
      var n := |candidates| - 1;
      SelectedInUnitRange(candidates[..n], scores[..n]);
      if scores[n].Some? {
        UnitProduct(scores[n].value, candidates[n].confidence);
      }
    }
  }

  lemma UnitProduct(s: real, p: real)
    requires 0.0 <= s <= 1.0 && 0.0 <= p <= 1.0
    ensures 0.0 <= s * p <= 1.0
  {
    RealMulMono(0.0, s, p);
    RealMulMono(s, 1.0, p);
    assert s * p <= 1.0 * p;
    assert 1.0 * p == p;
  }

  lemma RealMulMono(a: real, b: real, c: real)
    requires a <= b && 0.0 <= c
    ensures a * c <= b * c
  {
  }

  /**
   * The acceptance test compares the raw score with the stored product: after
   * `{8, 0.9}` scores 0.5 (stored 0.45), `{4, 0.7}` scoring 0.6 is accepted
   * since 0.6 > 0.45, and the stored 0.42 replaces the higher 0.45.
   */
  lemma SelectedComparesRawScore()
    ensures Selected([Candidate(8, 0.9), Candidate(4, 0.7)], [Some(0.5), Some(0.6)]) == BlockDetection(4, 0.42)
    ensures 0.5 * 0.9 > 0.6 * 0.7
  {
    var cs, ss := [Candidate(8, 0.9), Candidate(4, 0.7)], [Some(0.5), Some(0.6)];
    assert cs[..1] == [Candidate(8, 0.9)] && ss[..1] == [Some(0.5)];
    assert cs[..1][..0] == [] && ss[..1][..0] == [];
  }

  /** `validateCandidates`: the loop over the candidates with their supplied scores. */
  method ValidateCandidates(candidates: seq<Candidate>, scores: seq<Option<real>>) returns (best: BlockDetection)
    requires |scores| == |candidates|
    ensures best == Selected(candidates, scores)
  {
    best := BlockDetection(1, 0.0);
    for i := 0 to |candidates|
      invariant best == Selected(candidates[..i], scores[..i])
    {
      assert candidates[..i + 1][..i] == candidates[..i] && scores[..i + 1][..i] == scores[..i];
      var confidence := scores[i];
      if confidence.Some? && confidence.value > best.confidence {
        best := BlockDetection(candidates[i].size, confidence.value * candidates[i].confidence);
      }
    }
    assert candidates[..|candidates|] == candidates && scores[..|scores|] == scores;
  }

  /**
   * `detectPixelBlockSize`: statistics of the sampled rows and columns,
   * candidates, then selection; `score(k)` is the validation score of the
   * k-th candidate.
   */
  method DetectPixelBlockSize(img: seq<Color>, width: nat, height: nat,
                              rows: seq<nat>, columns: seq<nat>, score: nat -> Option<real>)
    returns (detection: BlockDetection)
    requires IsRaster(img, width, height)
    requires ValidPositions(width, height, rows, true) && ValidPositions(width, height, columns, false)
    ensures var candidates := FindCommonSizes(
              StatisticsOf(SampledRuns(img, width, height, rows, true)),
              StatisticsOf(SampledRuns(img, width, height, columns, false)));
            detection == Selected(candidates, Scores(score, |candidates|))
  {
    var horizontalSizes := AnalyzeScanlines(img, width, height, rows, true);
    var verticalSizes := AnalyzeScanlines(img, width, height, columns, false);
    var candidates := FindCommonSizes(horizontalSizes, verticalSizes);
    detection := ValidateCandidates(candidates, Scores(score, |candidates|));
  }

  /** The validation scores of the first `n` candidates. */
  function Scores(score: nat -> Option<real>, n: nat): (scores: seq<Option<real>>)
    ensures |scores| == n
  {
    seq(n, k requires 0 <= k < n => score(k))
  }

  // ---------------------------------------------------------------------------
  // Suggested width

  /** `calculateSuggestedWidth`: a target width chosen from the longer side. */
  function CalculateSuggestedWidth(width: nat, height: nat): (w: nat)
    ensures w == 24 || w == 32 || w == 64 || w == 128
    ensures var longer := if width > height then width else height;
      longer > 200 ==> w < longer
  {
    var longerSide := if width > height then width else height;
    if longerSide > 1000 then 128
    else if longerSide > 500 then 64
    else if longerSide > 200 then 32
    else 24
  }

  /** A larger image never gets a smaller suggestion. */
  lemma SuggestedWidthMonotone(w1: nat, h1: nat, w2: nat, h2: nat)
    requires w1 <= w2 && h1 <= h2
    ensures CalculateSuggestedWidth(w1, h1) <= CalculateSuggestedWidth(w2, h2)
  {
  }
}
