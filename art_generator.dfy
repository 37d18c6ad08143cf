/** Model of art_generator.py: the multiplicative variant. A canvas starts white (1.0)
    and is multiplied by `gamma` along each chosen chord; chords are scored by the
    unclamped sum of canvas - target over their mask, and a move is made every step. */
module Multiplicative {
  import opened Common

  /** A pin position (x, y); coordinates may be fractional. */
  type Pin = (real, real)

  /** A grid cell (row, column). */
  type Cell = (int, int)

  /** An ordered pair of pin indices (from, to). */
  type Pair = (int, int)

  /** The best move of one step: the pin index, its mask and its benefit. */
  datatype Choice = Choice(j: int, mask: seq<Cell>, benefit: real)

  /** np.clip(v, 0, hi) for hi >= 0. */
  function Clip(v: int, hi: int): int
  {
    if v < 0 then 0 else if v > hi then hi else v
  }

  /** LineMask.mask: the cells the segment crosses (`raw`, from skimage.draw.line),
      with rows clamped into [0, height) and columns into [0, width). */
  function Mask(raw: seq<Cell>, height: int, width: int): (m: seq<Cell>)
    requires 0 < height && 0 < width
    ensures |m| == |raw|
    ensures forall i :: 0 <= i < |m| ==> 0 <= m[i].0 < height && 0 <= m[i].1 < width
    ensures forall i :: 0 <= i < |m| && 0 <= raw[i].0 < height && 0 <= raw[i].1 < width ==> m[i] == raw[i]
  {
    seq(|raw|, i requires 0 <= i < |raw| => (Clip(raw[i].0, height - 1), Clip(raw[i].1, width - 1)))
  }

  /** `c` multiplied by `g`, n times over. */
  function Darkened(c: real, g: real, n: nat): real
  {
    if n == 0 then c else Darkened(c, g, n - 1) * g
  }

  /** One cell across one move: darkened once more exactly when the move's mask holds it. */
  lemma CellStep(c: real, g: real, before: real, after: real, h: nat, h': nat, hit: bool)
    requires before == Darkened(c, g, h)
    requires after == if hit then before * g else before
    requires h' == h + if hit then 1 else 0
    ensures after == Darkened(c, g, h')
  {
  }

  /** A value in (0, 1] darkened by a factor in (0, 1] stays in (0, 1] and does not grow. */
  lemma {:induction false} DarkenedBounds(c: real, g: real, n: nat)
    requires 0.0 < c <= 1.0 && 0.0 < g <= 1.0
    ensures 0.0 < Darkened(c, g, n) <= c
  {
    if n > 0 {
      DarkenedBounds(c, g, n - 1);
      var d := Darkened(c, g, n - 1);
      assert d * g <= d * 1.0;
      assert 0.0 < d * g;
    }
  }

  /** The pin index reached after the moves `pairs` from `start`. */
  function Last(start: int, pairs: seq<Pair>): int
  {
    if pairs == [] then start else pairs[|pairs| - 1].1
  }

  /** Each move leaves from where the previous one arrived (`start` first), goes to a
      different pin, and names pins among `count`. */
  predicate Chain(start: int, pairs: seq<Pair>, count: int)
  {
    forall i :: 0 <= i < |pairs| ==>
      pairs[i].0 == Last(start, pairs[..i]) && pairs[i].0 != pairs[i].1 && 0 <= pairs[i].1 < count
  }

  lemma ChainSnoc(start: int, pairs: seq<Pair>, count: int, j: int)
    requires Chain(start, pairs, count)
    requires j != Last(start, pairs) && 0 <= j < count
    ensures Chain(start, pairs + [(Last(start, pairs), j)], count)
    ensures Last(start, pairs + [(Last(start, pairs), j)]) == j
  {
    var ext := pairs + [(Last(start, pairs), j)];
    forall i | 0 <= i < |ext|
      ensures ext[i].0 == Last(start, ext[..i]) && ext[i].0 != ext[i].1 && 0 <= ext[i].1 < count
    {
      assert ext[..i] == pairs[..i];
      if i < |pairs| {
        assert ext[i] == pairs[i];
      } else {
        assert pairs[..i] == pairs;
      }
    }
  }

  class StringArtGenerator {
    /** The wanted image, values in [0, 1], indexed [row, column]. */
    const target: array2<real>
    const pins: seq<Pin>
    const iterations: int
    const gamma: real
    /** skimage.draw.line applied to the truncated pin coordinates; its rows and columns
        are not constrained here, Mask clamps them. */
    const draw: (Pin, Pin) -> seq<Cell>
    /** Remaining brightness, same shape as `target`, darkened in place. */
    const canvas: array2<real>
    /** Every move made so far, across calls of Generate. */
    var sequence: seq<Pair>

    predicate Valid()
    {
      canvas != target && canvas.Length0 == target.Length0 && canvas.Length1 == target.Length1
    }

    constructor (target: array2<real>, pins: seq<Pin>, iterations: int, gamma: real, draw: (Pin, Pin) -> seq<Cell>)
      ensures Valid() && fresh(canvas)
      ensures this.target == target && this.pins == pins && this.iterations == iterations
      ensures this.gamma == gamma && this.draw == draw
      ensures forall r, c :: 0 <= r < canvas.Length0 && 0 <= c < canvas.Length1 ==> canvas[r, c] == 1.0
      ensures sequence == []
    {
      this.target := target;
      this.pins := pins;
      this.iterations := iterations;
      this.gamma := gamma;
      this.draw := draw;
      canvas := new real[target.Length0, target.Length1]((r, c) => 1.0);
      sequence := [];
    }

    /** The mask of the chord between pins a and b. */
    function MaskOf(a: int, b: int): (m: seq<Cell>)
      requires 0 < target.Length0 && 0 < target.Length1
      requires 0 <= a < |pins| && 0 <= b < |pins|
    {
      Mask(draw(pins[a], pins[b]), target.Length0, target.Length1)
    }

    /** Sum of canvas - target over `cells`, counting a repeated cell each time. */
    function SumDiff(cells: seq<Cell>): real
      reads canvas, target
      requires Valid()
      requires forall i :: 0 <= i < |cells| ==> 0 <= cells[i].0 < canvas.Length0 && 0 <= cells[i].1 < canvas.Length1
    {
      if cells == [] then 0.0
      else canvas[cells[0].0, cells[0].1] - target[cells[0].0, cells[0].1] + SumDiff(cells[1..])
    }

    /** The benefit of the chord from pin a to pin b against the current canvas. */
    function BenefitOf(a: int, b: int): real
      reads canvas, target
      requires Valid() && 0 < target.Length0 && 0 < target.Length1
      requires 0 <= a < |pins| && 0 <= b < |pins|
    {
      SumDiff(MaskOf(a, b))
    }

    /** The inner loop of generate: over every pin j other than `current`, keep the one
        with the strictly largest benefit (the lowest index among equals). The best
        starts at minus infinity, so the first candidate is always taken; there is no
        choice only when `current` is the sole pin index. */
    method ChooseNext(current: int) returns (choice: Option<Choice>)
      requires Valid() && 0 < target.Length0 && 0 < target.Length1
      requires |pins| == 0 || 0 <= current < |pins|
      ensures choice.None? <==> |pins| < 2
      ensures choice.Some? ==>
        var c := choice.value;
        0 <= c.j < |pins| && c.j != current && c.mask == MaskOf(current, c.j) && c.benefit == BenefitOf(current, c.j)
      ensures choice.Some? ==>
        forall j :: 0 <= j < |pins| && j != current ==> BenefitOf(current, j) <= choice.value.benefit
      ensures choice.Some? ==>
        forall j :: 0 <= j < choice.value.j && j != current ==> BenefitOf(current, j) < choice.value.benefit
    {
      choice := None;
      for j := 0 to |pins|
        invariant choice.None? <==> j == 0 || (j == 1 && current == 0)
        invariant choice.Some? ==>
          var c := choice.value;
          0 <= c.j < j && c.j != current && c.mask == MaskOf(current, c.j) && c.benefit == BenefitOf(current, c.j)
        invariant choice.Some? ==>
          forall k :: 0 <= k < j && k != current ==> BenefitOf(current, k) <= choice.value.benefit
        invariant choice.Some? ==>
          forall k :: 0 <= k < choice.value.j && k != current ==> BenefitOf(current, k) < choice.value.benefit
      {
        if j == current {
          continue;
        }
        var mask := MaskOf(current, j);
        var benefit := SumDiff(mask);
        if choice.None? || benefit > choice.value.benefit {
          choice := Some(Choice(j, mask, benefit));
        }
      }
    }

    /** canvas[rr, cc] *= gamma: every masked value is read first, then written back
        multiplied, so a cell listed twice is darkened once. */
    method Darken(mask: seq<Cell>)
      requires Valid()
      requires forall i :: 0 <= i < |mask| ==> 0 <= mask[i].0 < canvas.Length0 && 0 <= mask[i].1 < canvas.Length1
      modifies canvas
      ensures forall r, c :: 0 <= r < canvas.Length0 && 0 <= c < canvas.Length1 ==>
        canvas[r, c] == if (r, c) in mask then old(canvas[r, c]) * gamma else old(canvas[r, c])
    {
      var scaled := seq(|mask|, i requires 0 <= i < |mask| reads canvas => canvas[mask[i].0, mask[i].1] * gamma);
      for i := 0 to |mask|
        invariant forall r, c :: 0 <= r < canvas.Length0 && 0 <= c < canvas.Length1 ==>
          canvas[r, c] == if (r, c) in mask[..i] then old(canvas[r, c]) * gamma else old(canvas[r, c])
      {
        assert mask[..i + 1] == mask[..i] + [mask[i]];
        canvas[mask[i].0, mask[i].1] := scaled[i];
      }
      assert mask[..|mask|] == mask;
    }

    /** How many of the moves `pairs` have `cell` in their mask. */
    function Hits(pairs: seq<Pair>, cell: Cell): nat
      requires 0 < target.Length0 && 0 < target.Length1
      requires forall i :: 0 <= i < |pairs| ==> 0 <= pairs[i].0 < |pins| && 0 <= pairs[i].1 < |pins|
    {
      if pairs == [] then 0
      else
        var p := pairs[|pairs| - 1];
        Hits(pairs[..|pairs| - 1], cell) + if cell in MaskOf(p.0, p.1) then 1 else 0
    }

    lemma HitsSnoc(pairs: seq<Pair>, p: Pair, cell: Cell)
      requires 0 < target.Length0 && 0 < target.Length1
      requires forall i :: 0 <= i < |pairs| ==> 0 <= pairs[i].0 < |pins| && 0 <= pairs[i].1 < |pins|
      requires 0 <= p.0 < |pins| && 0 <= p.1 < |pins|
      ensures Hits(pairs + [p], cell) == Hits(pairs, cell) + if cell in MaskOf(p.0, p.1) then 1 else 0
    {
      assert (pairs + [p])[..|pairs|] == pairs;
    }

    /** The canvas values as a grid of rows. */
    ghost function Snapshot(): (g: seq<seq<real>>)
      reads canvas
      ensures |g| == canvas.Length0 && forall r :: 0 <= r < |g| ==> |g[r]| == canvas.Length1
    {
      seq(canvas.Length0, r requires 0 <= r < canvas.Length0 reads canvas =>
        seq(canvas.Length1, c requires 0 <= c < canvas.Length1 reads canvas => canvas[r, c]))
    }

    ghost predicate PairsInRange(pairs: seq<Pair>)
    {
      forall i :: 0 <= i < |pairs| ==> 0 <= pairs[i].0 < |pins| && 0 <= pairs[i].1 < |pins|
    }

    /** Every canvas cell is the `start` value darkened once per move of `pairs` whose
        mask holds that cell. */
    ghost predicate DarkenedBy(start: seq<seq<real>>, pairs: seq<Pair>)
      reads canvas
      requires 0 < target.Length0 && 0 < target.Length1 && PairsInRange(pairs)
      requires |start| == canvas.Length0 && forall r :: 0 <= r < |start| ==> |start[r]| == canvas.Length1
    {
      forall r, c :: 0 <= r < canvas.Length0 && 0 <= c < canvas.Length1 ==>
        canvas[r, c] == Darkened(start[r][c], gamma, Hits(pairs, (r, c)))
    }

    /** The second half of generate's loop body: darken the chosen chord's mask and
        record the move. `start` and `pairs` are the canvas and the moves since the
        run began. */
    method Record(current: int, j: int, mask: seq<Cell>, ghost start: seq<seq<real>>, ghost pairs: seq<Pair>)
      requires Valid() && 0 < target.Length0 && 0 < target.Length1
      requires 0 <= current < |pins| && 0 <= j < |pins| && mask == MaskOf(current, j)
      requires PairsInRange(pairs)
      requires |start| == canvas.Length0 && forall r :: 0 <= r < |start| ==> |start[r]| == canvas.Length1
      requires DarkenedBy(start, pairs)
      modifies this`sequence, canvas
      ensures sequence == old(sequence) + [(current, j)]
      ensures PairsInRange(pairs + [(current, j)]) && DarkenedBy(start, pairs + [(current, j)])
    {
      Darken(mask);
      sequence := sequence + [(current, j)];
      var pair := (current, j);
      forall y, x | 0 <= y < canvas.Length0 && 0 <= x < canvas.Length1
        ensures canvas[y, x] == Darkened(start[y][x], gamma, Hits(pairs + [pair], (y, x)))
      {
        HitsSnoc(pairs, pair, (y, x));
        assert old(canvas[y, x]) == Darkened(start[y][x], gamma, Hits(pairs, (y, x)));
        assert canvas[y, x] == if (y, x) in mask then old(canvas[y, x]) * gamma else old(canvas[y, x]);
        CellStep(start[y][x], gamma, old(canvas[y, x]), canvas[y, x],
          Hits(pairs, (y, x)), Hits(pairs + [pair], (y, x)), (y, x) in mask);
      }
    }

    /** Makes `iterations` moves from `startPin`, appending each to `sequence`; `added`
        names the moves of this call. When a move is due, the call fails (None here)
        before anything changes in two cases: a start pin past the last pin, whose
        lookup raises IndexError, and fewer than two pins, where no move exists and
        unpacking the missing mask fails. With no move due, the start pin is never
        looked up. */
    method Generate(startPin: int) returns (r: Option<seq<Pair>>, ghost added: seq<Pair>)
      requires Valid() && 0 < target.Length0 && 0 < target.Length1
      requires iterations <= 0 || |pins| == 0 || 0 <= startPin
      modifies this`sequence, canvas
      ensures r.None? <==> 0 < iterations && (|pins| < 2 || |pins| <= startPin)
      ensures r.None? ==> sequence == old(sequence) && Snapshot() == old(Snapshot())
      ensures r.Some? ==> r.value == sequence && sequence == old(sequence) + added
      ensures r.Some? ==> |added| == Max(iterations, 0) && Chain(startPin, added, |pins|)
      ensures r.Some? && added != [] ==> 0 <= startPin < |pins|
      ensures r.Some? ==> PairsInRange(added) && DarkenedBy(old(Snapshot()), added)
    {
      ghost var start := Snapshot();
      added := [];
      if 0 < iterations && (|pins| == 0 || |pins| <= startPin) {
        return None, added;
      }
      var current := startPin;
      var n := 0;
      while n < iterations
        invariant 0 <= n <= Max(iterations, 0) && |added| == n
        invariant sequence == old(sequence) + added
        invariant Chain(startPin, added, |pins|) && current == Last(startPin, added)
        invariant 0 < iterations ==> 0 <= current < |pins|
        invariant added != [] ==> 0 <= startPin < |pins| && 2 <= |pins|
        invariant PairsInRange(added) && DarkenedBy(start, added)
        invariant added == [] ==> Snapshot() == start
      {
        var choice := ChooseNext(current);
        if choice.None? {
          r := None;
          return;
        }
        var next := choice.value;
        Record(current, next.j, next.mask, start, added);
        ChainSnoc(startPin, added, |pins|, next.j);
        added := added + [(current, next.j)];
        current := next.j;
        n := n + 1;
      }
      r := Some(sequence);
    }

    /** With 0 < gamma <= 1, a canvas that started in (0, 1] (the constructor's all-white
        canvas does) stays in (0, 1] however many moves darken it, and no value grows. */
    lemma CanvasStaysInRange(start: seq<seq<real>>, pairs: seq<Pair>)
      requires 0 < target.Length0 && 0 < target.Length1 && PairsInRange(pairs)
      requires |start| == canvas.Length0 && forall r :: 0 <= r < |start| ==> |start[r]| == canvas.Length1
      requires forall r, c :: 0 <= r < |start| && 0 <= c < |start[r]| ==> 0.0 < start[r][c] <= 1.0
      requires 0.0 < gamma <= 1.0 && DarkenedBy(start, pairs)
      ensures forall r, c :: 0 <= r < canvas.Length0 && 0 <= c < canvas.Length1 ==>
        0.0 < canvas[r, c] <= start[r][c] <= 1.0
    {
      forall r, c | 0 <= r < canvas.Length0 && 0 <= c < canvas.Length1
        ensures 0.0 < canvas[r, c] <= start[r][c] <= 1.0
      {
        DarkenedBounds(start[r][c], gamma, Hits(pairs, (r, c)));
      }
    }
  }
}
