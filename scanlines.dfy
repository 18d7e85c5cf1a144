/**
 * `analyzeScanline` of pixelizer.js: a row or a column of the image is split
 * into maximal runs of identical RGBA colour and the run lengths are returned.
 * The source compares colours through the key string "r,g,b,a", which is
 * equality of the four channels, i.e. equality of `Color` values here.
 */
module Scanlines {
  import opened Pixels
  import opened Blocks

  /** Pixel `i` along row `pos` (horizontal) or column `pos` (vertical). */
  function ScanlinePixel(img: seq<Color>, width: nat, height: nat, pos: nat, horizontal: bool, i: nat): Color
    requires IsRaster(img, width, height)
    requires if horizontal then pos < height && i < width else pos < width && i < height
  {
    if horizontal then At(img, width, height, i, pos) else At(img, width, height, pos, i)
  }

  /** Row `pos` (horizontal) or column `pos` (vertical) of the image. */
  function Scanline(img: seq<Color>, width: nat, height: nat, pos: nat, horizontal: bool): (line: seq<Color>)
    requires IsRaster(img, width, height)
    requires if horizontal then pos < height else pos < width
    ensures |line| == if horizontal then width else height
  {
    var length := if horizontal then width else height;
    seq(length, i requires 0 <= i < length => ScanlinePixel(img, width, height, pos, horizontal, i))
  }

  /** Length of the run of equal colours that starts at index `from` of `line`. */
  function LeadRun(line: seq<Color>, from: nat): (n: nat)
    requires from < |line|
    ensures 1 <= n <= |line| - from
    decreases |line| - from
  {
    if from + 1 == |line| || line[from + 1] != line[from] then 1 else 1 + LeadRun(line, from + 1)
  }

  /** Lengths of the maximal runs of `line[from..]`, left to right. */
  function RunsFrom(line: seq<Color>, from: nat): seq<nat>
    requires from <= |line|
    decreases |line| - from
  {
    if from == |line| then [] else [LeadRun(line, from)] + RunsFrom(line, from + LeadRun(line, from))
  }

  /** Colour of each maximal run of `line[from..]`. */
  function RunColorsFrom(line: seq<Color>, from: nat): seq<Color>
    requires from <= |line|
    decreases |line| - from
  {
    if from == |line| then [] else [line[from]] + RunColorsFrom(line, from + LeadRun(line, from))
  }

  /** Lengths of the maximal runs of a scanline: what `analyzeScanline` returns. */
  function Runs(line: seq<Color>): seq<nat>
  {
    RunsFrom(line, 0)
  }

  /** Colours of the maximal runs of a scanline. */
  function RunColors(line: seq<Color>): seq<Color>
  {
    RunColorsFrom(line, 0)
  }

  function Sum(s: seq<nat>): nat
  {
    if s == [] then 0 else s[0] + Sum(s[1..])
  }

  /** Run-length decoding: `lengths[k]` copies of `colors[k]`, in order. */
  function Expand(colors: seq<Color>, lengths: seq<nat>): (line: seq<Color>)
    requires |colors| == |lengths|
    ensures |line| == Sum(lengths)
  {
    if colors == [] then []
    else seq(lengths[0], _ => colors[0]) + Expand(colors[1..], lengths[1..])
  }

  /**
   * `lengths` and `colors` describe `line` as maximal runs: every run is
   * non-empty, neighbouring runs differ in colour and decoding gives `line` back.
   */
  ghost predicate IsRunEncoding(line: seq<Color>, colors: seq<Color>, lengths: seq<nat>)
  {
    && |colors| == |lengths|
    && (forall k :: 0 <= k < |lengths| ==> lengths[k] >= 1)
    && (forall k :: 0 <= k < |colors| - 1 ==> colors[k] != colors[k + 1])
    && Expand(colors, lengths) == line
  }

  /** Every pixel of [start, end) has the colour of pixel `start`. */
  ghost predicate Uniform(line: seq<Color>, start: nat, end: nat)
    requires start <= end <= |line|
  {
    forall t :: start <= t < end ==> line[t] == line[start]
  }

  /** A uniform stretch of length `n` followed by a different colour (or the end) is the leading run. */
  lemma {:induction false} LeadRunExact(line: seq<Color>, from: nat, n: nat)
    requires 0 < n && from + n <= |line| && Uniform(line, from, from + n)
    requires from + n == |line| || line[from + n] != line[from]
    ensures LeadRun(line, from) == n
    decreases n
  {
    if n > 1 {
      LeadRunExact(line, from + 1, n - 1);
    }
  }

  /** Every position of the leading run has its first colour; the next one does not. */
  lemma {:induction false} LeadRunUniform(line: seq<Color>, from: nat)
    requires from < |line|
    ensures Uniform(line, from, from + LeadRun(line, from))
    ensures from + LeadRun(line, from) == |line| || line[from + LeadRun(line, from)] != line[from]
    decreases |line| - from
  {
    if from + 1 < |line| && line[from + 1] == line[from] {
      LeadRunUniform(line, from + 1);
    }
  }

  /** No colour is lost: the runs and their colours are a run-length encoding of `line[from..]`. */
  lemma {:induction false} RunsFromEncode(line: seq<Color>, from: nat)
    requires from <= |line|
    ensures IsRunEncoding(line[from..], RunColorsFrom(line, from), RunsFrom(line, from))
    decreases |line| - from
  {
    if from < |line| {
      var n := LeadRun(line, from);
      var colors, lengths := RunColorsFrom(line, from + n), RunsFrom(line, from + n);
      RunsFromEncode(line, from + n);
      LeadRunUniform(line, from);
      ExpandCons(line[from], colors, n, lengths);
      assert line[from..] == seq(n, _ => line[from]) + line[from + n..];
      if colors != [] {
        assert colors[0] == line[from + n];
      }
      assert line[from..][n..] == line[from + n..];
      ConsRunEncoding(line[from..], line[from], colors, n, lengths);
      assert RunsFrom(line, from) == [n] + lengths;
      assert RunColorsFrom(line, from) == [line[from]] + colors;
    }
  }

  lemma ExpandCons(c: Color, colors: seq<Color>, n: nat, lengths: seq<nat>)
    requires |colors| == |lengths|
    ensures Expand([c] + colors, [n] + lengths) == seq(n, _ => c) + Expand(colors, lengths)
  {
    assert ([c] + colors)[1..] == colors;
    assert ([n] + lengths)[1..] == lengths;
  }

  /** Putting a run in front of a run-length encoding whose first colour differs gives one again. */
  lemma ConsRunEncoding(line: seq<Color>, c: Color, colors: seq<Color>, n: nat, lengths: seq<nat>)
    requires 1 <= n <= |line| && IsRunEncoding(line[n..], colors, lengths)
    requires line == seq(n, _ => c) + line[n..]
    requires colors != [] ==> colors[0] != c
    ensures IsRunEncoding(line, [c] + colors, [n] + lengths)
  {
    ExpandCons(c, colors, n, lengths);
    var cs := [c] + colors;
    forall k | 0 <= k < |cs| - 1
      ensures cs[k] != cs[k + 1]
    {
      if k > 0 {
        assert cs[k] == colors[k - 1] && cs[k + 1] == colors[k];
      }
    }
  }

  /** The runs of a scanline, with their colours, decode back to the scanline. */
  lemma RunsEncode(line: seq<Color>)
    ensures IsRunEncoding(line, RunColors(line), Runs(line))
  {
    RunsFromEncode(line, 0);
    assert line[0..] == line;
  }

  /** The run lengths are at least 1 and add up to the scanline's length. */
  lemma RunsLengths(line: seq<Color>)
    ensures forall k :: 0 <= k < |Runs(line)| ==> Runs(line)[k] >= 1
    ensures Sum(Runs(line)) == |line|
  {
    RunsEncode(line);
  }

  /** The first run of an encoding is a uniform stretch followed by the encoding of the rest. */
  lemma UnconsRunEncoding(line: seq<Color>, colors: seq<Color>, lengths: seq<nat>)
    requires IsRunEncoding(line, colors, lengths) && colors != []
    ensures 1 <= lengths[0] <= |line|
    ensures line == seq(lengths[0], _ => colors[0]) + line[lengths[0]..]
    ensures IsRunEncoding(line[lengths[0]..], colors[1..], lengths[1..])
    ensures |colors| > 1 ==> lengths[0] < |line| && line[lengths[0]] == colors[1]
  {
    assert colors == [colors[0]] + colors[1..] && lengths == [lengths[0]] + lengths[1..];
    ExpandCons(colors[0], colors[1..], lengths[0], lengths[1..]);
    var rest := Expand(colors[1..], lengths[1..]);
    assert line[lengths[0]..] == rest;
    if |colors| > 1 {
      assert rest[0] == colors[1];
    }
  }

  /** The first run of an encoding of `line[from..]` is the leading run at `from`. */
  lemma LeadRunOfEncoding(line: seq<Color>, from: nat, colors: seq<Color>, lengths: seq<nat>)
    requires from <= |line| && IsRunEncoding(line[from..], colors, lengths) && colors != []
    ensures from + lengths[0] <= |line| && line[from] == colors[0]
    ensures LeadRun(line, from) == lengths[0]
    ensures IsRunEncoding(line[from + lengths[0]..], colors[1..], lengths[1..])
  {
    var n := lengths[0];
    UnconsRunEncoding(line[from..], colors, lengths);
    assert line[from + n..] == line[from..][n..];
    assert Uniform(line, from, from + n) by {
      forall t | from <= t < from + n
        ensures line[t] == line[from]
      {
        assert line[t] == line[from..][t - from];
      }
    }
    if |colors| > 1 {
      assert line[from + n] == line[from..][n];
    }
    LeadRunExact(line, from, n);
    assert line[from] == line[from..][0];
  }

  /** One step of `RunsFrom` and `RunColorsFrom`: the leading run, then the rest. */
  lemma RunsFromStep(line: seq<Color>, from: nat)
    requires from < |line|
    ensures RunsFrom(line, from) == [LeadRun(line, from)] + RunsFrom(line, from + LeadRun(line, from))
  {
  }

  lemma RunColorsFromStep(line: seq<Color>, from: nat)
    requires from < |line|
    ensures RunColorsFrom(line, from) == [line[from]] + RunColorsFrom(line, from + LeadRun(line, from))
  {
  }

  /** The runs of `line[from..]` are its leading run followed by the runs after it. */
  lemma RunsFromCons(line: seq<Color>, from: nat, colors: seq<Color>, lengths: seq<nat>)
    requires colors != [] && lengths != [] && 1 <= lengths[0] && from + lengths[0] <= |line|
    requires LeadRun(line, from) == lengths[0] && line[from] == colors[0]
    requires RunColorsFrom(line, from + lengths[0]) == colors[1..]
    requires RunsFrom(line, from + lengths[0]) == lengths[1..]
    ensures colors == RunColorsFrom(line, from) && lengths == RunsFrom(line, from)
  {
    RunsFromStep(line, from);
    RunColorsFromStep(line, from);
    assert colors == [colors[0]] + colors[1..];
    assert lengths == [lengths[0]] + lengths[1..];
  }

  lemma {:induction false} RunEncodingUniqueFrom(line: seq<Color>, from: nat, colors: seq<Color>, lengths: seq<nat>)
    requires from <= |line| && IsRunEncoding(line[from..], colors, lengths)
    ensures colors == RunColorsFrom(line, from) && lengths == RunsFrom(line, from)
    decreases |colors|
  {
    if colors != [] {
      var n := lengths[0];
      LeadRunOfEncoding(line, from, colors, lengths);
      RunEncodingUniqueFrom(line, from + n, colors[1..], lengths[1..]);
      RunsFromCons(line, from, colors, lengths);
    } else {
      assert |line[from..]| == 0;
      assert from == |line|;
    }
  }

  /** Maximal runs are unique: any run-length encoding of `line` is the one `Runs` computes. */
  lemma RunEncodingUnique(line: seq<Color>, colors: seq<Color>, lengths: seq<nat>)
    requires IsRunEncoding(line, colors, lengths)
    ensures colors == RunColors(line) && lengths == Runs(line)
  {
    assert line[0..] == line;
    RunEncodingUniqueFrom(line, 0, colors, lengths);
  }

  /**
   * The loop of `analyzeScanline`: walks the scanline keeping the current
   * colour and the length of the current run, and records a run each time the
   * colour changes and once more at the end.
   */
  method RunLengths(line: seq<Color>) returns (segments: seq<nat>)
    ensures segments == Runs(line)
  {
    segments := [];
    var currentColor: Option<Color> := None;
    var currentLength: nat := 0;
    ghost var start := 0;
    for i := 0 to |line|
      invariant start + currentLength == i
      invariant i > 0 ==> currentLength >= 1
      invariant currentColor == if i == 0 then None else Some(line[i - 1])
      invariant Uniform(line, start, i)
      invariant segments + RunsFrom(line, start) == Runs(line)
    {
      var color := line[i];
      if currentColor == Some(color) {
        currentLength := currentLength + 1;
      } else {
        if currentLength > 0 {
          LeadRunExact(line, start, currentLength);
          segments := segments + [currentLength];
        }
        currentColor := Some(color);
        currentLength := 1;
        start := i;
      }
    }
    if currentLength > 0 {
      LeadRunExact(line, start, currentLength);
      segments := segments + [currentLength];
    }
  }

  /**
   * `analyzeScanline`: the run lengths of row `pos` (horizontal) or column
   * `pos` (vertical), reading pixel `i` at `pos * width + i` or `i * width + pos`.
   */
  method AnalyzeScanline(img: seq<Color>, width: nat, height: nat, pos: nat, horizontal: bool)
    returns (segments: seq<nat>)
    requires IsRaster(img, width, height)
    requires if horizontal then pos < height else pos < width
    ensures segments == Runs(Scanline(img, width, height, pos, horizontal))
    ensures Sum(segments) == if horizontal then width else height
  {
    segments := RunLengths(Scanline(img, width, height, pos, horizontal));
    RunsLengths(Scanline(img, width, height, pos, horizontal));
  }
}
