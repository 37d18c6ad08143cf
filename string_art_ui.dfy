/** Model of the step-by-step driver in string_art_ui.py: it owns a greedy generator,
    draws one chord per scheduled step from the current node (the greedy best, or a
    random other node when nothing improves), commits its pixels, and stops after
    max_lines steps with one final run of the generator. Random choices are passed in
    as pick indices; the Tk scheduling is a loop. */
module StepDriver {
  import Greedy
  import opened Common

  type Point = Greedy.Point

  /** The fallback candidates of a step: every node other than `c`, in order. */
  function Others(nodes: seq<Point>, c: Point): (r: seq<Point>)
    ensures |r| <= |nodes|
    ensures forall n :: n in r <==> n in nodes && n != c
  {
    if nodes == [] then []
    else
      assert forall n :: n in nodes <==> n == nodes[0] || n in nodes[1..];
      (if nodes[0] != c then [nodes[0]] else []) + Others(nodes[1..], c)
  }

  /** A walk over `nodes`: every entry is a node and no two consecutive entries agree. */
  predicate Walk(path: seq<Point>, nodes: seq<Point>)
  {
    forall i :: 0 <= i < |path| ==> path[i] in nodes && (0 < i ==> path[i] != path[i - 1])
  }

  lemma WalkSnoc(path: seq<Point>, nodes: seq<Point>, c: Point)
    requires Walk(path, nodes) && 0 < |path| && c in nodes && c != path[|path| - 1]
    ensures Walk(path + [c], nodes)
  {
    var ext := path + [c];
    forall i | 0 <= i < |ext|
      ensures ext[i] in nodes && (0 < i ==> ext[i] != ext[i - 1])
    {
      if i < |path| {
        assert ext[i] == path[i];
        if 0 < i {
          assert ext[i - 1] == path[i - 1];
        }
      }
    }
  }

  /** The choice step_generation makes from `from`: when no chord improves anything,
      the `pick`-th other node (modulo their number); otherwise the first node, in
      `nodes` order, whose chord is acceptable, scores above zero and scores at least
      as much as every acceptable chord. */
  ghost predicate Chosen(g: Greedy.StringArtGenerator, from: Point, pick: nat, next: Point)
    reads g.orig, g.coverage
    requires g.Valid() && g.NodesInGrid() && from in g.nodes
  {
    next in g.nodes && next != from &&
    if g.NoneImproves(from) then
      var others := Others(g.nodes, from);
      others != [] && next == others[pick % |others|]
    else
      0.0 < g.ScoreOf(from, next) &&
      (exists i :: 0 <= i < |g.nodes| && g.nodes[i] == next && g.Acceptable(from, i) &&
        forall k :: 0 <= k < i && g.Acceptable(from, k) ==> g.ScoreOf(from, g.nodes[k]) < g.ScoreOf(from, next)) &&
      forall k :: 0 <= k < |g.nodes| && g.Acceptable(from, k) ==> g.ScoreOf(from, g.nodes[k]) <= g.ScoreOf(from, next)
  }

  /** The step's choice is determined: given the coverage and the random draw, at most
      one node is chosen, even when several chords tie for the best score. */
  lemma ChosenUnique(g: Greedy.StringArtGenerator, from: Point, pick: nat, a: Point, b: Point)
    requires g.Valid() && g.NodesInGrid() && from in g.nodes
    requires Chosen(g, from, pick, a) && Chosen(g, from, pick, b)
    ensures a == b
  {
    if !g.NoneImproves(from) {
      var i :| 0 <= i < |g.nodes| && g.nodes[i] == a && g.Acceptable(from, i) &&
        forall k :: 0 <= k < i && g.Acceptable(from, k) ==> g.ScoreOf(from, g.nodes[k]) < g.ScoreOf(from, a);
      var j :| 0 <= j < |g.nodes| && g.nodes[j] == b && g.Acceptable(from, j) &&
        forall k :: 0 <= k < j && g.Acceptable(from, k) ==> g.ScoreOf(from, g.nodes[k]) < g.ScoreOf(from, b);
      if i < j {
        assert false;
      } else if j < i {
        assert false;
      }
    }
  }

  /** The choosing half of step_generation: the greedy best chord from `current`, or the
      fallback node with its rasterised chord. None when there is no other node, where
      the random choice would have nothing to choose from. */
  method PickNext(g: Greedy.StringArtGenerator, current: Point, pick: nat) returns (next: Option<Greedy.Candidate>)
    requires g.Valid() && g.NodesInGrid() && current in g.nodes
    ensures next.None? <==> Others(g.nodes, current) == []
    ensures next.Some? ==> next.value.line == Greedy.Chord(current, next.value.node)
    ensures next.Some? ==> Chosen(g, current, pick, next.value.node)
  {
    ghost var index: int;
    var best, improvement;
    best, improvement, index := g.ComputeBestLine(current);
    if best.Some? {
      assert g.nodes[index] == best.value.node;
      assert best.value.node in Others(g.nodes, current);
      return best;
    }
    var others := Others(g.nodes, current);
    if others == [] {
      return None;
    }
    var node := others[pick % |others|];
    var line := g.BresenhamLine(current.0, current.1, node.0, node.1);
    return Some(Greedy.Candidate(node, line));
  }

  /** The pixels of the chords along a walk, in order. */
  function Trail(path: seq<Point>): seq<Point>
  {
    if |path| < 2 then [] else Trail(path[..|path| - 1]) + Greedy.Chord(path[|path| - 2], path[|path| - 1])
  }

  /** How step_generation as written ends: `random.choice` on an empty list, or the
      call of `update_coverage`, which the generator class does not define. */
  datatype Failure = IndexError | AttributeError

  class StringArtUI {
    const generator: Greedy.StringArtGenerator
    const maxLines: int
    var currentNode: Point
    var linesDrawn: int

    /** The generator is well formed, shares the line budget, its nodes lie on its grid
        and the current node is one of them. */
    predicate Ready()
      reads this
    {
      generator.Valid() && generator.NodesInGrid() && generator.maxLines == maxLines &&
      currentNode in generator.nodes
    }

    /** start_generation once the crop and the nodes are known: a generator with the
        default threshold 0 over the grey values, a random start node (`pick`) and no
        line drawn yet. */
    constructor (pixels: array2<real>, nodes: seq<Point>, maxLines: int, pick: nat)
      requires pick < |nodes|
      requires forall n :: n in nodes ==> Greedy.InGrid(n, pixels.Length0, pixels.Length1)
      ensures Ready() && fresh(generator) && fresh(generator.orig) && fresh(generator.coverage)
      ensures generator.nodes == nodes && generator.maxLines == maxLines && generator.threshold == 0.0
      ensures Greedy.SameShape(generator.orig, pixels)
      ensures forall y, x :: 0 <= y < generator.orig.Length0 && 0 <= x < generator.orig.Length1 ==>
        generator.orig[y, x] == 1.0 - pixels[y, x] && generator.coverage[y, x] == 0.0
      ensures this.maxLines == maxLines && currentNode == nodes[pick] && linesDrawn == 0
    {
      generator := new Greedy.StringArtGenerator(pixels, nodes, maxLines, 0.0);
      this.maxLines := maxLines;
      currentNode := nodes[pick];
      linesDrawn := 0;
    }

    /** step_generation: choose the next node as PickNext does, commit the chord's
        pixels with the capped update, move to the chord's far end and count one more
        line. Without any other node the step fails and changes nothing. */
    method StepGeneration(pick: nat) returns (ok: bool)
      requires Ready()
      modifies this, generator.coverage
      ensures Ready()
      ensures ok <==> Others(generator.nodes, old(currentNode)) != []
      ensures !ok ==> currentNode == old(currentNode) && linesDrawn == old(linesDrawn)
      ensures !ok ==> forall y, x :: 0 <= y < generator.orig.Length0 && 0 <= x < generator.orig.Length1 ==>
        generator.coverage[y, x] == old(generator.coverage[y, x])
      ensures ok ==> linesDrawn == old(linesDrawn) + 1 && currentNode != old(currentNode)
      ensures ok ==> var from, to := old(currentNode), currentNode; old(Chosen(generator, from, pick, to))
      ensures ok ==> generator.CoveredBy(old(generator.Snapshot()), Greedy.Chord(old(currentNode), currentNode))
    {
      ghost var start := generator.Snapshot();
      var next := PickNext(generator, currentNode, pick);
      if next.None? {
        return false;
      }
      Greedy.ChordInGrid(currentNode, next.value.node, generator.orig.Length0, generator.orig.Length1);
      generator.UpdateCoverage(next.value.line);
      assert forall y, x :: 0 <= y < generator.orig.Length0 && 0 <= x < generator.orig.Length1 ==>
        start[y][x] == old(generator.coverage[y, x]);
      currentNode := next.value.node;
      linesDrawn := linesDrawn + 1;
      ok := true;
    }

    /** step_generation as written: the next node is chosen as PickNext chooses it,
        and then `self.generator.update_coverage(line)` raises AttributeError, because
        the generator class has no such method. Nothing after that call runs: no pixel
        is committed, the current node and the line count stay, and no further step is
        scheduled. Without another node, `random.choice` raises first. */
    method StepGenerationAsWritten(pick: nat) returns (failure: Failure)
      requires Ready()
      ensures failure == if Others(generator.nodes, currentNode) == [] then IndexError else AttributeError
    {
      var next := PickNext(generator, currentNode, pick);
      if next.None? {
        return IndexError;
      }
      return AttributeError;
    }

    /** One scheduled step that also keeps account of the walk so far: the coverage
        is `start` after the capped update along every chord of `path`, and the step
        extends both. */
    method StepAlong(pick: nat, ghost start: seq<seq<real>>, ghost path: seq<Point>) returns (ok: bool, ghost path': seq<Point>)
      requires Ready() && 0 < |path| && path[|path| - 1] == currentNode && Walk(path, generator.nodes)
      requires |start| == generator.coverage.Length0 &&
        forall y :: 0 <= y < |start| ==> |start[y]| == generator.coverage.Length1
      requires generator.CoveredBy(start, Trail(path))
      modifies this, generator.coverage
      ensures Ready()
      ensures ok <==> Others(generator.nodes, old(currentNode)) != []
      ensures !ok ==> currentNode == old(currentNode) && linesDrawn == old(linesDrawn) && path' == path
      ensures ok ==> linesDrawn == old(linesDrawn) + 1 && path' == path + [currentNode]
      ensures Walk(path', generator.nodes) && generator.CoveredBy(start, Trail(path'))
    {
      ghost var mid := generator.Snapshot();
      generator.SnapshotAccounts(start, Trail(path));
      ok := StepGeneration(pick);
      if !ok {
        return ok, path;
      }
      generator.CoveredByThen(start, mid, Trail(path), Greedy.Chord(path[|path| - 1], currentNode));
      WalkSnoc(path, generator.nodes, currentNode);
      assert (path + [currentNode])[..|path|] == path;
      path' := path + [currentNode];
    }

    /** The scheduled steps from a fresh start: one step, then another while fewer
        than max_lines lines are drawn, so at least one line even when max_lines < 1.
        `pick(k)` is the random draw of step k; `path` lists the current node before
        each step and after the last, and coverage gains the capped update along every
        chord of it. Only the first step can fail, when every node is the start node;
        later steps can always fall back on the node they came from. */
    method Animate(pick: nat -> nat) returns (ok: bool, ghost path: seq<Point>)
      requires Ready() && linesDrawn == 0
      modifies this, generator.coverage
      ensures Ready()
      ensures ok <==> Others(generator.nodes, old(currentNode)) != []
      ensures !ok ==> currentNode == old(currentNode) && linesDrawn == 0 && path == [currentNode]
      ensures ok ==> linesDrawn == Max(maxLines, 1) && |path| == linesDrawn + 1
      ensures ok ==> path[0] == old(currentNode) && path[|path| - 1] == currentNode
      ensures ok ==> Walk(path, generator.nodes)
      ensures generator.CoveredBy(old(generator.Snapshot()), Trail(path))
    {
      ghost var start := generator.Snapshot();
      ok, path := StepAlong(pick(0), start, [currentNode]);
      if !ok {
        return;
      }
      while linesDrawn < maxLines
        invariant Ready() && 1 <= linesDrawn <= Max(maxLines, 1) && |path| == linesDrawn + 1
        invariant path[0] == old(currentNode) && path[|path| - 1] == currentNode
        invariant Walk(path, generator.nodes)
        invariant generator.CoveredBy(start, Trail(path))
        decreases maxLines - linesDrawn
      {
        var prev := path[|path| - 2];
        assert prev in Others(generator.nodes, currentNode);
        var stepped;
        stepped, path := StepAlong(pick(linesDrawn), start, path);
      }
    }

    /** The whole run: the scheduled steps, then the final run of the generator over
        the coverage they left. Coverage ends as its start value after the capped
        update along every chord drawn, the steps' first, then the final run's. */
    method Run(pick: nat -> nat) returns (result: Option<seq<Greedy.Candidate>>, ghost path: seq<Point>)
      requires Ready() && linesDrawn == 0
      modifies this, generator.coverage
      ensures Ready()
      ensures result.None? <==> Others(generator.nodes, old(currentNode)) == []
      ensures result.None? ==> currentNode == old(currentNode) && linesDrawn == 0
      ensures result.Some? ==> linesDrawn == Max(maxLines, 1) && |path| == linesDrawn + 1
      ensures result.Some? ==> path[0] == old(currentNode) && path[|path| - 1] == currentNode
      ensures result.Some? ==> Walk(path, generator.nodes)
      ensures result.Some? ==> |result.value| <= Max(maxLines, 0)
      ensures result.Some? ==> generator.Chained(generator.nodes[0], result.value)
      ensures result.None? ==> generator.CoveredBy(old(generator.Snapshot()), [])
      ensures result.Some? ==> generator.CoveredBy(old(generator.Snapshot()), Trail(path) + Greedy.Pixels(result.value))
    {
      ghost var start := generator.Snapshot();
      var ok;
      ok, path := Animate(pick);
      if !ok {
        return None, path;
      }
      ghost var mid := generator.Snapshot();
      generator.SnapshotAccounts(start, Trail(path));
      var lines := generator.Generate();
      generator.CoveredByThen(start, mid, Trail(path), Greedy.Pixels(lines));
      result := Some(lines);
    }
  }

  /** Two nodes on a 1 x 2 grid and a budget of one line: the step as written fails
      with AttributeError and draws nothing, while the intended steps draw the line. */
  method UpdateCoverageMissing() returns (asWritten: Failure, linesAsWritten: int, linesIntended: int)
    ensures asWritten == AttributeError && linesAsWritten == 0 && linesIntended == 1
  {
    var pixels := new real[1, 2]((y, x) => 0.5);
    var nodes := [(0, 0), (1, 0)];
    assert (1, 0) in Others(nodes, (0, 0));
    var ui := new StringArtUI(pixels, nodes, 1, 0);
    asWritten := ui.StepGenerationAsWritten(0);
    linesAsWritten := ui.linesDrawn;
    var intended := new StringArtUI(pixels, nodes, 1, 0);
    var ok, path := intended.Animate(k => 0);
    linesIntended := intended.linesDrawn;
  }
}
