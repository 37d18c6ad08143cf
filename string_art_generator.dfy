/** Model of string_art_generator.py: the greedy chord selector. An importance grid
    `orig` (1 - luminance) and a coverage grid are compared along Bresenham chords
    between pins; the best chord is committed with a capped additive update. */
module Greedy {
  import opened Common

  /** A pin or pixel position (x, y). Grids are indexed [y, x]. */
  type Point = (int, int)

  /** A chosen chord: the pin it ends at and its rasterised pixels. */
  datatype Candidate = Candidate(node: Point, line: seq<Point>)

  function Abs(n: int): nat { if n < 0 then -n else n }

  function Min(a: int, b: int): int { if a <= b then a else b }

  /** Direction of travel along one axis: +1 towards a larger coordinate, -1 otherwise (also when equal). */
  function Dir(from: int, to: int): int { if to > from then 1 else -1 }

  // ---------------------------------------------------------------------------
  // Rasterisation: a closed-form reference for the pixels of bresenham_line
  // ---------------------------------------------------------------------------

  /** Number of unit steps along the major axis of the chord a -> b. */
  function Span(a: Point, b: Point): nat
  {
    var dx, dy := Abs(b.0 - a.0), Abs(b.1 - a.1);
    if dx > dy then dx else dy
  }

  /** Offset along the minor axis after `k` steps along the major axis of a chord that
      spans `major` steps one way and `minor` the other: k * minor / major rounded to
      the nearest integer, halves rounded down. */
  function MinorOffset(k: nat, major: nat, minor: nat): int
  {
    if major == 0 then 0 else (2 * (k * minor) + major - 1) / (2 * major)
  }

  /** The k-th pixel of the chord a -> b. */
  function PixelAt(a: Point, b: Point, k: nat): Point
  {
    var dx, dy := Abs(b.0 - a.0), Abs(b.1 - a.1);
    if dx > dy then (a.0 + Dir(a.0, b.0) * k, a.1 + Dir(a.1, b.1) * MinorOffset(k, dx, dy))
    else (a.0 + Dir(a.0, b.0) * MinorOffset(k, dy, dx), a.1 + Dir(a.1, b.1) * k)
  }

  /** The pixels of the chord a -> b, in the order bresenham_line produces them. */
  function Chord(a: Point, b: Point): seq<Point>
  {
    seq(Span(a, b) + 1, k requires 0 <= k => PixelAt(a, b, k))
  }

  predicate InGrid(p: Point, h: int, w: int)
  {
    0 <= p.0 < w && 0 <= p.1 < h
  }

  lemma StepProduct(k: int, d: int)
    ensures 2 * (k + 1) * d == 2 * k * d + 2 * d
  {
  }

  lemma MulNonNegative(a: int, b: int)
    requires 0 <= a && 0 <= b
    ensures 0 <= a * b
  {
  }

  lemma MulMonotone(a: int, b: int, c: int)
    requires a <= b && 0 <= c
    ensures a * c <= b * c
  {
    MulNonNegative(b - a, c);
    assert (b - a) * c == b * c - a * c;
  }

  /** q * (2 * m) regrouped, and (q + j) * d distributed. */
  lemma MulRegroup(q: int, j: int, m: int, d: int)
    ensures q * (2 * m) == 2 * (q * m) == 2 * (m * q)
    ensures (q + j) * d == q * d + j * d
  {
  }

  /** Multiplying by a positive factor preserves strict order. */
  lemma MulLess(x: int, y: int, d: int)
    requires 0 < d
    ensures x < y <==> x * d < y * d
  {
    if x < y {
      assert y * d == x * d + (y - x) * d;
    } else {
      assert x * d == y * d + (x - y) * d;
    }
  }

  /** Euclidean division keeps a numerator between lo * d and hi * d between lo and hi. */
  lemma DivRange(n: int, d: int, lo: int, hi: int)
    requires 0 < d && lo * d <= n < hi * d
    ensures lo <= n / d < hi
  {
    var q := n / d;
    assert n == q * d + n % d && 0 <= n % d < d;
    MulLess(lo - 1, q, d);
    MulLess(q, hi, d);
    assert (lo - 1) * d == lo * d - d;
  }

  lemma DivUnique(n: int, d: int, q: int)
    requires 0 < d && q * d <= n < q * d + d
    ensures n / d == q
  {
    assert (q + 1) * d == q * d + d;
    DivRange(n, d, q, q + 1);
  }

  /** The error-term window of the source loop pins down the minor offset. */
  lemma MinorOffsetFromError(k: nat, m: int, major: nat, minor: nat)
    requires 0 < major
    requires 2 * k * minor - major <= 2 * m * major < 2 * k * minor + major
    ensures MinorOffset(k, major, minor) == m
  {
    assert 2 * k * minor == 2 * (k * minor);
    MulRegroup(m, 0, major, 0);
    DivUnique(2 * (k * minor) + major - 1, 2 * major, m);
  }

  lemma MinorOffsetBounds(k: nat, major: nat, minor: nat)
    requires minor <= major && k <= major
    ensures 0 <= MinorOffset(k, major, minor) <= minor
    ensures k == 0 ==> MinorOffset(k, major, minor) == 0
    ensures k == major ==> MinorOffset(k, major, minor) == minor
  {
    if major > 0 {
      var n, d := 2 * (k * minor) + major - 1, 2 * major;
      MulNonNegative(k, minor);
      MulMonotone(k, major, minor);
      MulRegroup(minor, 1, major, d);
      assert n < (minor + 1) * d;
      DivRange(n, d, 0, minor + 1);
      if k == 0 {
        DivUnique(n, d, 0);
      }
      if k == major {
        DivUnique(n, d, minor);
      }
    }
  }

  /** Adding at most one divisor moves a quotient up by zero or one. */
  lemma DivStep(n: int, c: int, d: int)
    requires 0 < d && 0 <= c <= d
    ensures (n + c) / d - n / d in {0, 1}
  {
    var q := n / d;
    assert q * d <= n < q * d + d by {
      assert n == q * d + n % d && 0 <= n % d < d;
    }
    MulRegroup(q, 2, 0, d);
    DivRange(n + c, d, q, q + 2);
  }

  /** One step along the major axis moves the minor axis by 0 or 1. */
  lemma MinorOffsetStep(k: nat, major: nat, minor: nat)
    requires minor <= major
    ensures MinorOffset(k + 1, major, minor) - MinorOffset(k, major, minor) in {0, 1}
  {
    if major > 0 {
      MulRegroup(k, 1, 0, minor);
      DivStep(2 * (k * minor) + major - 1, 2 * minor, 2 * major);
    }
  }

  lemma DirSpan(from: int, to: int)
    ensures from + Dir(from, to) * Abs(to - from) == to
  {
  }

  /** bresenham_line starts at its first argument and ends at its second. */
  lemma ChordEnds(a: Point, b: Point)
    ensures |Chord(a, b)| == Span(a, b) + 1
    ensures Chord(a, b)[0] == a
    ensures Chord(a, b)[Span(a, b)] == b
  {
    var dx, dy := Abs(b.0 - a.0), Abs(b.1 - a.1);
    DirSpan(a.0, b.0);
    DirSpan(a.1, b.1);
    if dx > dy {
      MinorOffsetBounds(0, dx, dy);
      MinorOffsetBounds(dx, dx, dy);
      assert PixelAt(a, b, 0) == (a.0 + Dir(a.0, b.0) * 0, a.1 + Dir(a.1, b.1) * 0);
      assert PixelAt(a, b, dx) == (a.0 + Dir(a.0, b.0) * dx, a.1 + Dir(a.1, b.1) * dy);
    } else {
      MinorOffsetBounds(0, dy, dx);
      MinorOffsetBounds(dy, dy, dx);
      assert PixelAt(a, b, 0) == (a.0 + Dir(a.0, b.0) * 0, a.1 + Dir(a.1, b.1) * 0);
      assert PixelAt(a, b, dy) == (a.0 + Dir(a.0, b.0) * dx, a.1 + Dir(a.1, b.1) * dy);
    }
  }

  /** Consecutive pixels advance by exactly one along the major axis, in the
      direction of the end point, and by zero or one along the minor axis. */
  lemma ChordStep(a: Point, b: Point, k: nat)
    requires k < Span(a, b)
    ensures var c, dx, dy := Chord(a, b), Abs(b.0 - a.0), Abs(b.1 - a.1);
      if dx > dy then
        c[k + 1].0 - c[k].0 == Dir(a.0, b.0) && c[k + 1].1 - c[k].1 in {0, Dir(a.1, b.1)}
      else
        c[k + 1].1 - c[k].1 == Dir(a.1, b.1) && c[k + 1].0 - c[k].0 in {0, Dir(a.0, b.0)}
  {
    var dx, dy := Abs(b.0 - a.0), Abs(b.1 - a.1);
    if dx > dy {
      MinorOffsetStep(k, dx, dy);
    } else {
      MinorOffsetStep(k, dy, dx);
    }
  }

  /** Every pixel lies in the bounding box of the two end points. */
  lemma ChordInBox(a: Point, b: Point, k: nat)
    requires k <= Span(a, b)
    ensures var p := Chord(a, b)[k];
      Min(a.0, b.0) <= p.0 <= Max(a.0, b.0) && Min(a.1, b.1) <= p.1 <= Max(a.1, b.1)
  {
    var dx, dy := Abs(b.0 - a.0), Abs(b.1 - a.1);
    if dx > dy {
      MinorOffsetBounds(k, dx, dy);
    } else {
      MinorOffsetBounds(k, dy, dx);
    }
  }

  /** No pixel is produced twice: the major coordinate differs between any two. */
  lemma ChordDistinct(a: Point, b: Point, i: nat, j: nat)
    requires i < j <= Span(a, b)
    ensures Chord(a, b)[i] != Chord(a, b)[j]
  {
    var dx, dy := Abs(b.0 - a.0), Abs(b.1 - a.1);
    if dx > dy {
      assert Chord(a, b)[i].0 - Chord(a, b)[j].0 == Dir(a.0, b.0) * (i - j);
    } else {
      assert Chord(a, b)[i].1 - Chord(a, b)[j].1 == Dir(a.1, b.1) * (i - j);
    }
  }

  predicate AllInGrid(line: seq<Point>, h: int, w: int)
  {
    forall i :: 0 <= i < |line| ==> InGrid(line[i], h, w)
  }

  /** Direction matters: the chord (0, 0) -> (2, 1) passes through (1, 0), the chord
      (2, 1) -> (0, 0) through (1, 1), so one is not the other reversed. */
  lemma ChordDirectional()
    ensures Chord((0, 0), (2, 1)) == [(0, 0), (1, 0), (2, 1)]
    ensures Chord((2, 1), (0, 0)) == [(2, 1), (1, 1), (0, 0)]
  {
    assert MinorOffset(1, 2, 1) == 0;
    assert Chord((0, 0), (2, 1))[1] == (1, 0);
    assert Chord((2, 1), (0, 0))[1] == (1, 1);
    ChordEnds((0, 0), (2, 1));
    ChordEnds((2, 1), (0, 0));
  }

  /** A chord between two pins of an h x w grid stays inside the grid. */
  lemma ChordInGrid(a: Point, b: Point, h: int, w: int)
    requires InGrid(a, h, w) && InGrid(b, h, w)
    ensures AllInGrid(Chord(a, b), h, w)
  {
    forall k | 0 <= k < |Chord(a, b)|
      ensures InGrid(Chord(a, b)[k], h, w)
    {
      ChordInBox(a, b, k);
    }
  }

  // ---------------------------------------------------------------------------
  // Scoring and the capped coverage update
  // ---------------------------------------------------------------------------

  predicate SameShape(a: array2<real>, b: array2<real>)
  {
    a.Length0 == b.Length0 && a.Length1 == b.Length1
  }

  /** Remaining demand at pixel p: max(orig - coverage, 0). */
  function Gain(orig: array2<real>, coverage: array2<real>, p: Point): real
    reads orig, coverage
    requires SameShape(orig, coverage) && InGrid(p, orig.Length0, orig.Length1)
  {
    var d := orig[p.1, p.0] - coverage[p.1, p.0];
    if d > 0.0 then d else 0.0
  }

  /** The improvement a chord would bring: the remaining demand summed over its pixels.
      It is never negative. */
  function Score(orig: array2<real>, coverage: array2<real>, line: seq<Point>): (s: real)
    reads orig, coverage
    requires SameShape(orig, coverage)
    requires AllInGrid(line, orig.Length0, orig.Length1)
    ensures 0.0 <= s
  {
    if line == [] then 0.0
    else Gain(orig, coverage, line[0]) + Score(orig, coverage, line[1..])
  }

  /** A chord scores zero exactly when every one of its pixels is at or above its cap. */
  lemma {:induction false} ScoreZeroIff(orig: array2<real>, coverage: array2<real>, line: seq<Point>)
    requires SameShape(orig, coverage)
    requires AllInGrid(line, orig.Length0, orig.Length1)
    ensures Score(orig, coverage, line) == 0.0 <==>
      forall i :: 0 <= i < |line| ==> orig[line[i].1, line[i].0] <= coverage[line[i].1, line[i].0]
  {
    if line != [] {
      ScoreZeroIff(orig, coverage, line[1..]);
      assert forall i :: 1 <= i < |line| ==> line[i] == line[1..][i - 1];
    }
  }

  function RMin(a: real, b: real): real { if a <= b then a else b }

  /** Coverage of a pixel after n capped increments c := min(c + 1, o). */
  function Saturate(c: real, o: real, n: nat): real
  {
    if n == 0 then c else RMin(Saturate(c, o, n - 1) + 1.0, o)
  }

  /** n capped increments add n, but never past the cap. */
  lemma {:induction false} SaturateClosedForm(c: real, o: real, n: nat)
    ensures Saturate(c, o, n) == if n == 0 then c else RMin(c + n as real, o)
  {
    if n > 1 {
      SaturateClosedForm(c, o, n - 1);
    }
  }

  /** Below the cap, capped increments never decrease coverage and never pass the cap. */
  lemma SaturateBounds(c: real, o: real, n: nat)
    requires c <= o
    ensures c <= Saturate(c, o, n) <= o
  {
    SaturateClosedForm(c, o, n);
  }

  /** A pixel whose demand is at most one is saturated by a single pass. */
  lemma SaturateOnce(c: real, o: real, n: nat)
    requires 0 < n && c <= o <= c + 1.0
    ensures Saturate(c, o, n) == o
  {
    SaturateClosedForm(c, o, n);
  }

  /** Capped increments compose: a passes then b passes are a + b passes. */
  lemma {:induction false} SaturateAdd(c: real, o: real, a: nat, b: nat)
    ensures Saturate(Saturate(c, o, a), o, b) == Saturate(c, o, a + b)
  {
    if b > 0 {
      SaturateAdd(c, o, a, b - 1);
    }
  }

  /** All pixels of a sequence of committed chords, in commit order. */
  function Pixels(lines: seq<Candidate>): seq<Point>
  {
    if lines == [] then [] else Pixels(lines[..|lines| - 1]) + lines[|lines| - 1].line
  }

  /** The pin reached after committing `lines` from `start`. */
  function End(start: Point, lines: seq<Candidate>): Point
  {
    if lines == [] then start else lines[|lines| - 1].node
  }

  // ---------------------------------------------------------------------------
  // The generator
  // ---------------------------------------------------------------------------

  class StringArtGenerator {
    /** Importance ("ink wanted"), 1 - luminance, indexed [y, x]. */
    const orig: array2<real>
    /** Ink already placed, indexed [y, x]; updated in place. */
    const coverage: array2<real>
    const nodes: seq<Point>
    const maxLines: int
    const threshold: real

    predicate Valid()
    {
      orig != coverage && SameShape(orig, coverage)
    }

    predicate NodesInGrid()
    {
      forall n :: n in nodes ==> InGrid(n, orig.Length0, orig.Length1)
    }

    /** The per-pixel invariant 0 <= coverage <= orig. */
    ghost predicate Capped()
      reads orig, coverage
      requires Valid()
    {
      forall y, x :: 0 <= y < orig.Length0 && 0 <= x < orig.Length1 ==> 0.0 <= coverage[y, x] <= orig[y, x]
    }

    /** Linear inversion of the luminance grid; coverage starts at zero. */
    constructor (pixelArray: array2<real>, nodes: seq<Point>, maxLines: int, threshold: real)
      ensures Valid() && fresh(orig) && fresh(coverage) && SameShape(orig, pixelArray)
      ensures forall y, x :: 0 <= y < orig.Length0 && 0 <= x < orig.Length1 ==>
        orig[y, x] == 1.0 - pixelArray[y, x] && coverage[y, x] == 0.0
      ensures this.nodes == nodes && this.maxLines == maxLines && this.threshold == threshold
      ensures (forall y, x :: 0 <= y < pixelArray.Length0 && 0 <= x < pixelArray.Length1 ==>
                 0.0 <= pixelArray[y, x] <= 1.0) ==>
        Capped() && forall y, x :: 0 <= y < orig.Length0 && 0 <= x < orig.Length1 ==> orig[y, x] <= 1.0
    {
      var h, w := pixelArray.Length0, pixelArray.Length1;
      orig := new real[h, w]((y, x) reads pixelArray =>
        if 0 <= y < h && 0 <= x < w then 1.0 - pixelArray[y, x] else 0.0);
      coverage := new real[h, w]((y, x) => 0.0);
      this.nodes := nodes;
      this.maxLines := maxLines;
      this.threshold := threshold;
    }

    /** Integer Bresenham walk from (x0, y0) to (x1, y1): every pixel up to and
        including the end point. */
    method BresenhamLine(x0: int, y0: int, x1: int, y1: int) returns (line: seq<Point>)
      ensures line == Chord((x0, y0), (x1, y1))
    {
      var dx, dy := Abs(x1 - x0), Abs(y1 - y0);
      if dx > dy {
        line := WalkAlongX(x0, y0, x1, y1);
      } else {
        line := WalkAlongY(x0, y0, x1, y1);
      }
      ChordEnds((x0, y0), (x1, y1));
      line := line + [(x1, y1)];
    }

    /** The loop of bresenham_line when x is the major axis: the pixels before the end
        point. The error term is kept doubled so that it stays integral: the source
        starts it at dx / 2. */
    method WalkAlongX(x0: int, y0: int, x1: int, y1: int) returns (line: seq<Point>)
      requires Abs(x1 - x0) > Abs(y1 - y0)
      ensures line == Chord((x0, y0), (x1, y1))[..Abs(x1 - x0)]
    {
      ghost var full := Chord((x0, y0), (x1, y1));
      var dx, dy := Abs(x1 - x0), Abs(y1 - y0);
      var x, y := x0, y0;
      var sx, sy := Dir(x0, x1), Dir(y0, y1);
      line := [];
      var err := dx;
      ghost var k, m := 0, 0;
      while x != x1
        invariant 0 <= k <= dx && x == x0 + sx * k
        invariant y == y0 + sy * m && m == MinorOffset(k, dx, dy)
        invariant err == dx - 2 * k * dy + 2 * m * dx && 0 <= err < 2 * dx
        invariant line == full[..k]
        decreases dx - k
      {
        assert full[k] == (x, y);
        line := line + [(x, y)];
        err := err - 2 * dy;
        if err < 0 {
          y := y + sy;
          err := err + 2 * dx;
          StepProduct(m, dx);
          m := m + 1;
          assert sy * m == sy * (m - 1) + sy;
        }
        StepProduct(k, dy);
        x := x + sx;
        k := k + 1;
        assert sx * k == sx * (k - 1) + sx;
        MinorOffsetFromError(k, m, dx, dy);
      }
      assert k == dx;
    }

    /** The loop of bresenham_line when y is the major axis (or the chord is a single
        point): the pixels before the end point, with the error term doubled. */
    method WalkAlongY(x0: int, y0: int, x1: int, y1: int) returns (line: seq<Point>)
      requires Abs(x1 - x0) <= Abs(y1 - y0)
      ensures line == Chord((x0, y0), (x1, y1))[..Abs(y1 - y0)]
    {
      ghost var full := Chord((x0, y0), (x1, y1));
      var dx, dy := Abs(x1 - x0), Abs(y1 - y0);
      var x, y := x0, y0;
      var sx, sy := Dir(x0, x1), Dir(y0, y1);
      line := [];
      var err := dy;
      ghost var k, m := 0, 0;
      while y != y1
        invariant 0 <= k <= dy && y == y0 + sy * k
        invariant x == x0 + sx * m && m == MinorOffset(k, dy, dx)
        invariant err == dy - 2 * k * dx + 2 * m * dy && 0 <= err && (err < 2 * dy || dy == 0)
        invariant line == full[..k]
        decreases dy - k
      {
        assert full[k] == (x, y);
        line := line + [(x, y)];
        err := err - 2 * dx;
        if err < 0 {
          x := x + sx;
          err := err + 2 * dy;
          StepProduct(m, dy);
          m := m + 1;
          assert sx * m == sx * (m - 1) + sx;
        }
        StepProduct(k, dx);
        y := y + sy;
        k := k + 1;
        assert sy * k == sy * (k - 1) + sy;
        MinorOffsetFromError(k, m, dy, dx);
      }
      assert k == dy;
    }
  
    /** The improvement of the chord from -> to against the current coverage. */
    function ScoreOf(from: Point, to: Point): real
      reads orig, coverage
      requires Valid() && InGrid(from, orig.Length0, orig.Length1) && InGrid(to, orig.Length0, orig.Length1)
    {
      ChordInGrid(from, to, orig.Length0, orig.Length1);
      Score(orig, coverage, Chord(from, to))
    }

    /** Node i is another node than `current` and its chord meets the threshold. */
    predicate Acceptable(current: Point, i: int)
      reads orig, coverage
      requires Valid() && NodesInGrid() && InGrid(current, orig.Length0, orig.Length1) && 0 <= i < |nodes|
    {
      nodes[i] != current && ScoreOf(current, nodes[i]) >= threshold
    }

    /** No acceptable chord from `current` would improve anything. */
    predicate NoneImproves(current: Point)
      reads orig, coverage
      requires Valid() && NodesInGrid() && InGrid(current, orig.Length0, orig.Length1)
    {
      forall i :: 0 <= i < |nodes| && Acceptable(current, i) ==> ScoreOf(current, nodes[i]) == 0.0
    }

    /** A committed chord from `from`: it ends at a node other than `from` and its
        pixels are the rasterised chord. */
    predicate Link(from: Point, c: Candidate)
    {
      c.node in nodes && c.node != from && c.line == Chord(from, c.node)
    }

    /** Each committed chord starts where the previous one ended (`start` for the first). */
    predicate Chained(start: Point, lines: seq<Candidate>)
    {
      forall i :: 0 <= i < |lines| ==> Link(End(start, lines[..i]), lines[i])
    }

    lemma ChainedSnoc(start: Point, lines: seq<Candidate>, c: Candidate)
      requires Chained(start, lines) && Link(End(start, lines), c)
      ensures Chained(start, lines + [c])
    {
      var ext := lines + [c];
      forall i | 0 <= i < |ext|
        ensures Link(End(start, ext[..i]), ext[i])
      {
        assert ext[..i] == lines[..i];
        if i < |lines| {
          assert ext[i] == lines[i];
        } else {
          assert lines[..i] == lines;
        }
      }
    }

    /** The best chord from `current`: scanning `nodes` in order, a node other than
        `current` replaces the best so far when its score is strictly larger (first
        seen wins ties) and meets the threshold. No result means no acceptable chord
        scores above zero. */
    method ComputeBestLine(current: Point) returns (best: Option<Candidate>, improvement: real, ghost index: int)
      requires Valid() && NodesInGrid() && InGrid(current, orig.Length0, orig.Length1)
      ensures best.None? ==> improvement == 0.0 && NoneImproves(current)
      ensures best.Some? ==>
        0 <= index < |nodes| && Acceptable(current, index) &&
        best.value == Candidate(nodes[index], Chord(current, nodes[index])) &&
        improvement == ScoreOf(current, nodes[index]) && 0.0 < improvement
      ensures forall i :: 0 <= i < |nodes| && Acceptable(current, i) ==> ScoreOf(current, nodes[i]) <= improvement
      ensures best.Some? ==>
        forall i :: 0 <= i < index && Acceptable(current, i) ==> ScoreOf(current, nodes[i]) < improvement
    {
      best, improvement, index := None, 0.0, -1;
      var i := 0;
      while i < |nodes|
        invariant 0 <= i <= |nodes|
        invariant best.None? ==> improvement == 0.0
        invariant best.Some? ==>
          0 <= index < i && Acceptable(current, index) &&
          best.value == Candidate(nodes[index], Chord(current, nodes[index])) &&
          improvement == ScoreOf(current, nodes[index]) && 0.0 < improvement
        invariant forall j :: 0 <= j < i && Acceptable(current, j) ==> ScoreOf(current, nodes[j]) <= improvement
        invariant best.Some? ==>
          forall j :: 0 <= j < index && Acceptable(current, j) ==> ScoreOf(current, nodes[j]) < improvement
      {
        var node := nodes[i];
        if node != current {
          var line := BresenhamLine(current.0, current.1, node.0, node.1);
          ChordInGrid(current, node, orig.Length0, orig.Length1);
          var gain := Score(orig, coverage, line);
          assert gain == ScoreOf(current, node);
          if gain > improvement && gain >= threshold {
            best, improvement, index := Some(Candidate(node, line)), gain, i;
          }
        }
        i := i + 1;
      }
    }

    /** Commits the pixels of `line`: each visit does coverage := min(coverage + 1, orig). */
    method UpdateCoverage(line: seq<Point>)
      requires Valid() && AllInGrid(line, orig.Length0, orig.Length1)
      modifies coverage
      ensures forall y, x :: 0 <= y < orig.Length0 && 0 <= x < orig.Length1 ==>
        coverage[y, x] == Saturate(old(coverage[y, x]), orig[y, x], multiset(line)[(x, y)])
    {
      for i := 0 to |line|
        invariant forall y, x :: 0 <= y < orig.Length0 && 0 <= x < orig.Length1 ==>
          coverage[y, x] == Saturate(old(coverage[y, x]), orig[y, x], multiset(line[..i])[(x, y)])
      {
        var p := line[i];
        assert line[..i + 1] == line[..i] + [p];
        assert multiset(line[..i + 1]) == multiset(line[..i]) + multiset{p};
        label BeforeWrite:
        coverage[p.1, p.0] := RMin(coverage[p.1, p.0] + 1.0, orig[p.1, p.0]);
        forall y, x | 0 <= y < orig.Length0 && 0 <= x < orig.Length1
          ensures coverage[y, x] == Saturate(old(coverage[y, x]), orig[y, x], multiset(line[..i + 1])[(x, y)])
        {
          var n := multiset(line[..i])[(x, y)];
          assert old@BeforeWrite(coverage[y, x]) == Saturate(old(coverage[y, x]), orig[y, x], n);
          if (x, y) != p {
            assert coverage[y, x] == old@BeforeWrite(coverage[y, x]);
          }
        }
      }
      assert line[..|line|] == line;
    }

    /** The coverage values as a grid of rows. */
    ghost function Snapshot(): (g: seq<seq<real>>)
      reads coverage
      ensures |g| == coverage.Length0 && forall y :: 0 <= y < |g| ==> |g[y]| == coverage.Length1
    {
      seq(coverage.Length0, y requires 0 <= y < coverage.Length0 reads coverage =>
        seq(coverage.Length1, x requires 0 <= x < coverage.Length1 reads coverage => coverage[y, x]))
    }

    /** Every pixel's coverage is its `start` value after one capped update per
        occurrence of the pixel in `pixels`. */
    ghost predicate CoveredBy(start: seq<seq<real>>, pixels: seq<Point>)
      reads orig, coverage
      requires Valid()
      requires |start| == coverage.Length0 && forall y :: 0 <= y < |start| ==> |start[y]| == coverage.Length1
    {
      forall y, x :: 0 <= y < orig.Length0 && 0 <= x < orig.Length1 ==>
        coverage[y, x] == Saturate(start[y][x], orig[y, x], multiset(pixels)[(x, y)])
    }

    /** The grid `mid` is `start` after one capped update per occurrence of each
        pixel in `pixels`. */
    ghost predicate Accounts(start: seq<seq<real>>, mid: seq<seq<real>>, pixels: seq<Point>)
      reads orig
      requires |start| == orig.Length0 && forall y :: 0 <= y < |start| ==> |start[y]| == orig.Length1
      requires |mid| == orig.Length0 && forall y :: 0 <= y < |mid| ==> |mid[y]| == orig.Length1
    {
      forall y, x :: 0 <= y < orig.Length0 && 0 <= x < orig.Length1 ==>
        mid[y][x] == Saturate(start[y][x], orig[y, x], multiset(pixels)[(x, y)])
    }

    lemma SnapshotAccounts(start: seq<seq<real>>, pixels: seq<Point>)
      requires Valid()
      requires |start| == coverage.Length0 && forall y :: 0 <= y < |start| ==> |start[y]| == coverage.Length1
      requires CoveredBy(start, pixels)
      ensures Accounts(start, Snapshot(), pixels)
    {
    }

    /** Commits compose: coverage that accounts for `more` from a grid `mid`, which
        itself is `start` after `pixels`, accounts for `pixels + more` from `start`. */
    lemma CoveredByThen(start: seq<seq<real>>, mid: seq<seq<real>>, pixels: seq<Point>, more: seq<Point>)
      requires Valid()
      requires |start| == coverage.Length0 && forall y :: 0 <= y < |start| ==> |start[y]| == coverage.Length1
      requires |mid| == coverage.Length0 && forall y :: 0 <= y < |mid| ==> |mid[y]| == coverage.Length1
      requires Accounts(start, mid, pixels) && CoveredBy(mid, more)
      ensures CoveredBy(start, pixels + more)
    {
      assert multiset(pixels + more) == multiset(pixels) + multiset(more);
      forall y, x | 0 <= y < orig.Length0 && 0 <= x < orig.Length1
        ensures coverage[y, x] == Saturate(start[y][x], orig[y, x], multiset(pixels + more)[(x, y)])
      {
        SaturateAdd(start[y][x], orig[y, x], multiset(pixels)[(x, y)], multiset(more)[(x, y)]);
      }
    }

    /** The capped update in generate's loop: commit `line`, extending what coverage
        accounts for. */
    method CommitChord(line: seq<Point>, ghost start: seq<seq<real>>, ghost pixels: seq<Point>)
      requires Valid() && AllInGrid(line, orig.Length0, orig.Length1)
      requires |start| == coverage.Length0 && forall y :: 0 <= y < |start| ==> |start[y]| == coverage.Length1
      requires CoveredBy(start, pixels)
      modifies coverage
      ensures CoveredBy(start, pixels + line)
    {
      UpdateCoverage(line);
      assert multiset(pixels + line) == multiset(pixels) + multiset(line);
      forall y, x | 0 <= y < orig.Length0 && 0 <= x < orig.Length1
        ensures coverage[y, x] == Saturate(start[y][x], orig[y, x], multiset(pixels + line)[(x, y)])
      {
        var a, b := multiset(pixels)[(x, y)], multiset(line)[(x, y)];
        assert old(coverage[y, x]) == Saturate(start[y][x], orig[y, x], a);
        assert coverage[y, x] == Saturate(old(coverage[y, x]), orig[y, x], b);
        SaturateAdd(start[y][x], orig[y, x], a, b);
      }
    }

    /** The greedy loop: from nodes[0], commit the best chord at most maxLines times,
        stopping at the first step where no chord qualifies. */
    method Generate() returns (lines: seq<Candidate>)
      requires Valid() && NodesInGrid() && |nodes| > 0
      modifies coverage
      ensures |lines| <= Max(maxLines, 0)
      ensures Chained(nodes[0], lines) && End(nodes[0], lines) in nodes
      ensures |lines| < maxLines ==> NoneImproves(End(nodes[0], lines))
      ensures CoveredBy(old(Snapshot()), Pixels(lines))
      ensures old(Capped()) ==> Capped()
      ensures old(Capped()) ==> forall y, x :: 0 <= y < orig.Length0 && 0 <= x < orig.Length1 ==>
        old(coverage[y, x]) <= coverage[y, x]
    {
      ghost var start := Snapshot();
      lines := [];
      var current := nodes[0];
      var n := 0;
      while n < maxLines
        invariant 0 <= n <= Max(maxLines, 0) && |lines| == n
        invariant current == End(nodes[0], lines) && current in nodes
        invariant Chained(nodes[0], lines)
        invariant CoveredBy(start, Pixels(lines))
        decreases maxLines - n
      {
        var best, imp, index := ComputeBestLine(current);
        if best.None? || imp <= 0.0 {
          break;
        }
        var chosen := best.value;
        ChordInGrid(current, chosen.node, orig.Length0, orig.Length1);
        CommitChord(chosen.line, start, Pixels(lines));
        assert (lines + [chosen])[..|lines|] == lines;
        ChainedSnoc(nodes[0], lines, chosen);
        lines := lines + [chosen];
        current := chosen.node;
        n := n + 1;
      }
      forall y, x | 0 <= y < orig.Length0 && 0 <= x < orig.Length1 && old(Capped())
        ensures old(coverage[y, x]) <= coverage[y, x] && 0.0 <= coverage[y, x] <= orig[y, x]
      {
        assert start[y][x] == old(coverage[y, x]);
        SaturateBounds(old(coverage[y, x]), orig[y, x], multiset(Pixels(lines))[(x, y)]);
      }
    }
  }
}
