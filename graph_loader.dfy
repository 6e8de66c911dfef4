/** The layout of the graph file read by `load_graph_from_file` and of the
    console answers read by `manual_input`, over lines already split into
    tokens (`line.strip().split()`). Number conversion is a parameter:
    `None` stands for the `ValueError` of `int()` or `float()`. */
module GraphLoader {
  import opened Wrappers
  import opened WeightedGraph

  /** One line of input, split on whitespace. */
  type Line = seq<string>

  type IntParser = string -> Option<int>
  type RealParser = string -> Option<real>

  /** `int(line.strip())`: a number stands alone on its line. */
  function ParseCount(line: Line, parseInt: IntParser): Option<int> {
    if |line| == 1 then parseInt(line[0]) else None
  }

  /** Which section a line belongs to. */
  datatype Section = NodeSection | EdgeSection

  /** The graph after a run of lines, and whether the run got to its end
      without an exception. */
  datatype Outcome = Outcome(graph: GraphValue, ok: bool)

  /** One line of a section. A line of fewer than three tokens is skipped.
      A node line `name x y` adds `name` once both coordinates convert; an
      edge line `a b w` adds the road `a`-`b` of weight `w` once `w`
      converts. `None`: a conversion raised. */
  function Step(g: GraphValue, section: Section, line: Line, parseReal: RealParser): Option<GraphValue> {
    if |line| < 3 then Some(g)
    else match section
      case NodeSection =>
        if parseReal(line[1]).Some? && parseReal(line[2]).Some? then Some(InsertNode(g, line[0])) else None
      case EdgeSection =>
        if parseReal(line[2]).Some? then Some(InsertEdge(g, line[0], line[1], parseReal(line[2]).value)) else None
  }

  /** The lines of a section in order. The first failing line ends the run:
      the exception is caught and `False` returned, and what was already
      added stays in the graph. */
  function Replay(g: GraphValue, section: Section, lines: seq<Line>, parseReal: RealParser): Outcome
    decreases |lines|
  {
    if |lines| == 0 then Outcome(g, true)
    else match Step(g, section, lines[0], parseReal)
      case None => Outcome(g, false)
      case Some(g1) => Replay(g1, section, lines[1..], parseReal)
  }

  /** Where the node section ends: `range(1, n + 1)` guarded by
      `i < len(lines)`. */
  function NodeEnd(len: int, n: int): int {
    if n + 1 < 1 then 1 else if n + 1 < len then n + 1 else len
  }

  /** The node lines of a file whose first line gives `n`. */
  function NodeLines(lines: seq<Line>, n: int): seq<Line>
    requires |lines| > 0
  {
    lines[1..NodeEnd(|lines|, n)]
  }

  /** The lines read by `for i in range(start, len(lines))` with Python's
      indexing: a negative `i` counts from the end, so a negative start first
      reads the last `-start` lines and then every line from the first. */
  function EdgeLines(lines: seq<Line>, start: int): seq<Line>
    requires -|lines| <= start
  {
    if start >= |lines| then []
    else if start >= 0 then lines[start..]
    else lines[start + |lines|..] + lines
  }

  /** `lines[i]` in Python: a negative index counts from the end; below
      `-len(lines)` it raises `IndexError` (`None`). */
  function Fetch(lines: seq<Line>, i: int): Option<Line>
    requires i < |lines|
  {
    if i < -|lines| then None else Some(lines[if i < 0 then i + |lines| else i])
  }

  /** The edge loop `for i in range(start, len(lines))` run on `g`. */
  function EdgeRun(g: GraphValue, lines: seq<Line>, start: int, parseReal: RealParser): Outcome {
    if start < -|lines| && start < |lines| then Outcome(g, false)
    else Replay(g, EdgeSection, EdgeLines(lines, start), parseReal)
  }

  /** `load_graph_from_file` on the lines of a file, applied to the graph `g`
      already held. An empty file or a first line that is not a number fails
      with nothing changed; a count below `-len(lines) - 1` makes the first
      edge index fall outside the file. */
  function LoadSpec(g: GraphValue, lines: seq<Line>, parseInt: IntParser, parseReal: RealParser): Outcome {
    if |lines| == 0 then Outcome(g, false)
    else match ParseCount(lines[0], parseInt)
      case None => Outcome(g, false)
      case Some(n) =>
        var r := Replay(g, NodeSection, NodeLines(lines, n), parseReal);
        if !r.ok then r
        else EdgeRun(r.graph, lines, n + 1, parseReal)
  }

  /** `for i in range(count): parts = input().strip().split() ...`: reads
      `count` answers; running out of answers is `EOFError`, a failure after
      the answers that were read. */
  function ReplayCount(g: GraphValue, section: Section, lines: seq<Line>, count: int, parseReal: RealParser): Outcome {
    if count <= |lines| then Replay(g, section, lines[..if count < 0 then 0 else count], parseReal)
    else Outcome(Replay(g, section, lines, parseReal).graph, false)
  }

  /** `manual_input` on the console answers `answers`: the graph is cleared
      first, then come a node count, that many node lines, a road count and
      that many road lines. */
  function ManualSpec(answers: seq<Line>, parseInt: IntParser, parseReal: RealParser): Outcome {
    if |answers| == 0 then Outcome(EmptyGraph, false)
    else match ParseCount(answers[0], parseInt)
      case None => Outcome(EmptyGraph, false)
      case Some(n) =>
        var r := ReplayCount(EmptyGraph, NodeSection, answers[1..], n, parseReal);
        var next := 1 + (if n < 0 then 0 else n);
        if !r.ok then r
        else if |answers| <= next then Outcome(r.graph, false)
        else match ParseCount(answers[next], parseInt)
          case None => Outcome(r.graph, false)
          case Some(m) => ReplayCount(r.graph, EdgeSection, answers[next + 1..], m, parseReal)
  }

  /** One pass of the edge loop: fetch line `i`, then process it or stop. */
  lemma EdgeRunStep(g: GraphValue, lines: seq<Line>, i: int, parseReal: RealParser)
    requires i < |lines|
    ensures EdgeRun(g, lines, i, parseReal) ==
      match Fetch(lines, i)
        case None => Outcome(g, false)
        case Some(line) =>
          match Step(g, EdgeSection, line, parseReal)
            case None => Outcome(g, false)
            case Some(g1) => EdgeRun(g1, lines, i + 1, parseReal)
  {
    if i < -|lines| {
    } else if i == -1 {
      assert EdgeLines(lines, i) == [lines[|lines| - 1]] + lines;
    } else {
      assert EdgeLines(lines, i)[1..] == EdgeLines(lines, i + 1);
    }
  }

  /** One answer read by a counted loop that still has `count` answers to read. */
  lemma ReplayCountStep(g: GraphValue, section: Section, lines: seq<Line>, count: int, parseReal: RealParser)
    requires 0 < count
    ensures ReplayCount(g, section, lines, count, parseReal) ==
      if |lines| == 0 then Outcome(g, false)
      else match Step(g, section, lines[0], parseReal)
        case None => Outcome(g, false)
        case Some(g1) => ReplayCount(g1, section, lines[1..], count - 1, parseReal)
  {
    if 0 < |lines| && count <= |lines| {
      assert lines[..count][1..] == lines[1..][..count - 1];
    }
  }

  // ---------------------------------------------------------------------
  // The layout.

  /** For a count of zero or more, every line after the first is read
      exactly once, first as a node line and then as an edge line. */
  lemma LayoutPartition(lines: seq<Line>, n: int)
    requires |lines| > 0 && n >= 0
    ensures NodeLines(lines, n) + EdgeLines(lines, n + 1) == lines[1..]
  {
    if n + 1 >= |lines| {
      assert NodeLines(lines, n) == lines[1..];
    } else {
      assert lines[1..] == lines[1..n + 1] + lines[n + 1..];
    }
  }

  /** The lines of at least three tokens, in order. */
  function LongLines(lines: seq<Line>): (r: seq<Line>)
    ensures forall l :: l in r <==> l in lines && |l| >= 3
    decreases |lines|
  {
    if |lines| == 0 then []
    else
      var rest := LongLines(lines[1..]);
      assert forall l :: l in lines <==> l == lines[0] || l in lines[1..];
      if |lines[0]| >= 3 then [lines[0]] + rest else rest
  }

  /** Lines of fewer than three tokens are skipped without error: a run
      over a section is the run over its long lines alone. */
  lemma {:induction false} ShortLinesSkipped(g: GraphValue, section: Section, lines: seq<Line>, parseReal: RealParser)
    ensures Replay(g, section, lines, parseReal) == Replay(g, section, LongLines(lines), parseReal)
    decreases |lines|
  {
    if |lines| > 0 {
      if |lines[0]| < 3 {
        ShortLinesSkipped(g, section, lines[1..], parseReal);
      } else {
        match Step(g, section, lines[0], parseReal)
        case None =>
        case Some(g1) =>
          ShortLinesSkipped(g1, section, lines[1..], parseReal);
          assert ([lines[0]] + LongLines(lines[1..]))[1..] == LongLines(lines[1..]);
      }
    }
  }

  // ---------------------------------------------------------------------
  // What a run does to the graph.

  /** `r` extends `g`: the invariant holds, the old iteration order is a
      prefix of the new one, and every old road is still there. */
  ghost predicate Extends(g: GraphValue, r: GraphValue) {
    && WellFormed(r)
    && |g.nodes| <= |r.nodes| && r.nodes[..|g.nodes|] == g.nodes
    && (forall x, y :: x in g.adj && y in g.adj[x] ==> x in r.adj && y in r.adj[x])
  }

  lemma ExtendsTransitive(g: GraphValue, h: GraphValue, r: GraphValue)
    requires Extends(g, h) && Extends(h, r)
    ensures Extends(g, r)
  {
    assert r.nodes[..|g.nodes|] == r.nodes[..|h.nodes|][..|g.nodes|];
  }

  lemma StepExtends(g: GraphValue, section: Section, line: Line, parseReal: RealParser)
    requires WellFormed(g) && Step(g, section, line, parseReal).Some?
    ensures Extends(g, Step(g, section, line, parseReal).value)
  {
    if |line| >= 3 {
      match section
      case NodeSection =>
        InsertNodeSpec(g, line[0]);
      case EdgeSection =>
        var w := parseReal(line[2]).value;
        InsertEdgeNodes(g, line[0], line[1], w);
        InsertEdgeWeights(g, line[0], line[1], w);
    }
  }

  /** A run, whether it fails or not, only adds to the graph. */
  lemma {:induction false} ReplayExtends(g: GraphValue, section: Section, lines: seq<Line>, parseReal: RealParser)
    requires WellFormed(g)
    ensures Extends(g, Replay(g, section, lines, parseReal).graph)
    decreases |lines|
  {
    if |lines| > 0 {
      match Step(g, section, lines[0], parseReal)
      case None =>
      case Some(g1) =>
        StepExtends(g, section, lines[0], parseReal);
        ReplayExtends(g1, section, lines[1..], parseReal);
        ExtendsTransitive(g, g1, Replay(g1, section, lines[1..], parseReal).graph);
    }
  }

  /** Loading a file adds to the graph already held and never clears it,
      whether it succeeds or not. */
  lemma LoadKeepsGraph(g: GraphValue, lines: seq<Line>, parseInt: IntParser, parseReal: RealParser)
    requires WellFormed(g)
    ensures Extends(g, LoadSpec(g, lines, parseInt, parseReal).graph)
  {
    if |lines| > 0 && ParseCount(lines[0], parseInt).Some? {
      var n := ParseCount(lines[0], parseInt).value;
      var r := Replay(g, NodeSection, NodeLines(lines, n), parseReal);
      ReplayExtends(g, NodeSection, NodeLines(lines, n), parseReal);
      if r.ok && -|lines| <= n + 1 {
        ReplayExtends(r.graph, EdgeSection, EdgeLines(lines, n + 1), parseReal);
        ExtendsTransitive(g, r.graph, Replay(r.graph, EdgeSection, EdgeLines(lines, n + 1), parseReal).graph);
      }
    }
  }

  /** The node of a node line, or the road of an edge line, is in `h`;
      a line of fewer than three tokens asks for nothing. */
  ghost predicate LineAdded(h: GraphValue, section: Section, line: Line) {
    |line| < 3 || (line[0] in h.adj && (section == EdgeSection ==> line[1] in h.adj[line[0]]))
  }

  /** What a line added stays in any graph that extends the one it was
      added to. */
  lemma LineAddedKept(h: GraphValue, r: GraphValue, section: Section, line: Line)
    requires WellFormed(h) && Extends(h, r) && LineAdded(h, section, line)
    ensures LineAdded(r, section, line)
  {
    if |line| >= 3 {
      var i :| 0 <= i < |h.nodes| && h.nodes[i] == line[0];
      assert r.nodes[i] == line[0];
    }
  }

  /** A run that gets to its end has added the node or road of every line
      of at least three tokens. */
  lemma {:induction false} ReplayAddsEveryLongLine(g: GraphValue, section: Section, lines: seq<Line>, parseReal: RealParser)
    requires WellFormed(g) && Replay(g, section, lines, parseReal).ok
    ensures forall i :: 0 <= i < |lines| ==> LineAdded(Replay(g, section, lines, parseReal).graph, section, lines[i])
    decreases |lines|
  {
    if |lines| > 0 {
      var g1 := Step(g, section, lines[0], parseReal).value;
      var r := Replay(g1, section, lines[1..], parseReal).graph;
      StepExtends(g, section, lines[0], parseReal);
      ReplayExtends(g1, section, lines[1..], parseReal);
      ReplayAddsEveryLongLine(g1, section, lines[1..], parseReal);
      if |lines[0]| >= 3 {
        match section
        case NodeSection =>
          InsertNodeSpec(g, lines[0][0]);
        case EdgeSection =>
          InsertEdgeWeights(g, lines[0][0], lines[0][1], parseReal(lines[0][2]).value);
      }
      LineAddedKept(g1, r, section, lines[0]);
      forall i | 1 <= i < |lines| ensures LineAdded(r, section, lines[i]) {
        assert lines[i] == lines[1..][i - 1];
      }
    }
  }

  /** A file that loads without error, with a count `n` of zero or more,
      leaves in the graph the node of every existing line `1..n` of at least
      three tokens and the road of every later such line. */
  lemma LoadAddsEveryLongLine(g: GraphValue, lines: seq<Line>, parseInt: IntParser, parseReal: RealParser, n: int)
    requires WellFormed(g) && |lines| > 0 && ParseCount(lines[0], parseInt) == Some(n) && n >= 0
    requires LoadSpec(g, lines, parseInt, parseReal).ok
    ensures forall i :: 1 <= i <= n && i < |lines| ==> LineAdded(LoadSpec(g, lines, parseInt, parseReal).graph, NodeSection, lines[i])
    ensures forall i :: n + 1 <= i < |lines| ==> LineAdded(LoadSpec(g, lines, parseInt, parseReal).graph, EdgeSection, lines[i])
  {
    var nodeLines := NodeLines(lines, n);
    var r1 := Replay(g, NodeSection, nodeLines, parseReal).graph;
    var edgeLines := EdgeLines(lines, n + 1);
    var r := LoadSpec(g, lines, parseInt, parseReal).graph;
    ReplayAddsEveryLongLine(g, NodeSection, nodeLines, parseReal);
    ReplayExtends(g, NodeSection, nodeLines, parseReal);
    ReplayExtends(r1, EdgeSection, edgeLines, parseReal);
    ReplayAddsEveryLongLine(r1, EdgeSection, edgeLines, parseReal);
    forall i | 1 <= i <= n && i < |lines| ensures LineAdded(r, NodeSection, lines[i]) {
      assert lines[i] == nodeLines[i - 1];
      LineAddedKept(r1, r, NodeSection, lines[i]);
    }
    forall i | n + 1 <= i < |lines| ensures LineAdded(r, EdgeSection, lines[i]) {
      assert lines[i] == edgeLines[i - n - 1];
    }
  }

  /** A counted loop that ends without error has read `count` answers and
      added the node or road of each long one. */
  lemma ReplayCountAddsEveryLongLine(g: GraphValue, section: Section, lines: seq<Line>, count: int, parseReal: RealParser)
    requires WellFormed(g) && ReplayCount(g, section, lines, count, parseReal).ok
    ensures count <= |lines|
    ensures forall i :: 0 <= i < count ==> LineAdded(ReplayCount(g, section, lines, count, parseReal).graph, section, lines[i])
  {
    var k := if count < 0 then 0 else count;
    ReplayAddsEveryLongLine(g, section, lines[..k], parseReal);
    forall i | 0 <= i < count ensures LineAdded(ReplayCount(g, section, lines, count, parseReal).graph, section, lines[i]) {
      assert lines[i] == lines[..k][i];
    }
  }

  /** Manual input that ends without error has added the node of every long
      answer among the `n` node answers and the road of every long answer
      among the `m` road answers. */
  lemma ManualAddsEveryLongLine(answers: seq<Line>, parseInt: IntParser, parseReal: RealParser, n: int, m: int)
    requires |answers| > 0 && ParseCount(answers[0], parseInt) == Some(n)
    requires var next := 1 + (if n < 0 then 0 else n);
      next < |answers| && ParseCount(answers[next], parseInt) == Some(m)
    requires ManualSpec(answers, parseInt, parseReal).ok
    ensures 1 + (if n < 0 then 0 else n) + m < |answers|
    ensures forall i :: 1 <= i <= n ==> LineAdded(ManualSpec(answers, parseInt, parseReal).graph, NodeSection, answers[i])
    ensures var next := 1 + (if n < 0 then 0 else n);
      forall i :: next + 1 <= i <= next + m ==> LineAdded(ManualSpec(answers, parseInt, parseReal).graph, EdgeSection, answers[i])
  {
    var next := 1 + (if n < 0 then 0 else n);
    var r1 := ReplayCount(EmptyGraph, NodeSection, answers[1..], n, parseReal).graph;
    var edgeLines := answers[next + 1..];
    var r := ManualSpec(answers, parseInt, parseReal).graph;
    ReplayCountNames(EmptyGraph, NodeSection, answers[1..], n, parseReal);
    ReplayCountAddsEveryLongLine(EmptyGraph, NodeSection, answers[1..], n, parseReal);
    ReplayCountNames(r1, EdgeSection, edgeLines, m, parseReal);
    ReplayCountAddsEveryLongLine(r1, EdgeSection, edgeLines, m, parseReal);
    forall i | 1 <= i <= n ensures LineAdded(r, NodeSection, answers[i]) {
      assert answers[i] == answers[1..][i - 1];
      LineAddedKept(r1, r, NodeSection, answers[i]);
    }
    forall i | next + 1 <= i <= next + m ensures LineAdded(r, EdgeSection, answers[i]) {
      assert answers[i] == edgeLines[i - next - 1];
    }
  }

  /** `v` is named by a line of at least three tokens: as its first token,
      or, for a road, as its second. */
  ghost predicate NamedIn(v: Node, section: Section, lines: seq<Line>) {
    exists i :: 0 <= i < |lines| && |lines[i]| >= 3 && (v == lines[i][0] || (section == EdgeSection && v == lines[i][1]))
  }

  /** Every node a run adds is named by one of its lines. */
  lemma {:induction false} ReplayNames(g: GraphValue, section: Section, lines: seq<Line>, parseReal: RealParser)
    requires WellFormed(g)
    ensures forall v :: v in Replay(g, section, lines, parseReal).graph.nodes ==> v in g.nodes || NamedIn(v, section, lines)
    decreases |lines|
  {
    if |lines| > 0 {
      match Step(g, section, lines[0], parseReal)
      case None =>
      case Some(g1) =>
        StepExtends(g, section, lines[0], parseReal);
        ReplayNames(g1, section, lines[1..], parseReal);
        forall v | v in g1.nodes && v !in g.nodes ensures NamedIn(v, section, lines) {
          if section == EdgeSection {
            InsertEdgeNodes(g, lines[0][0], lines[0][1], parseReal(lines[0][2]).value);
          }
          assert |lines[0]| >= 3 && (v == lines[0][0] || (section == EdgeSection && v == lines[0][1]));
        }
        forall v | NamedIn(v, section, lines[1..]) ensures NamedIn(v, section, lines) {
          var i :| 0 <= i < |lines[1..]| && |lines[1..][i]| >= 3
            && (v == lines[1..][i][0] || (section == EdgeSection && v == lines[1..][i][1]));
          assert lines[1..][i] == lines[i + 1];
        }
    }
  }

  /** A node named in some lines is named in any list they are a slice of. */
  lemma NamedInSlice(v: Node, section: Section, lines: seq<Line>, lo: int, hi: int)
    requires 0 <= lo <= hi <= |lines| && NamedIn(v, section, lines[lo..hi])
    ensures NamedIn(v, section, lines)
  {
    var i :| 0 <= i < hi - lo && |lines[lo..hi][i]| >= 3
      && (v == lines[lo..hi][i][0] || (section == EdgeSection && v == lines[lo..hi][i][1]));
    assert lines[lo..hi][i] == lines[lo + i];
  }

  lemma ReplayCountNames(g: GraphValue, section: Section, lines: seq<Line>, count: int, parseReal: RealParser)
    requires WellFormed(g)
    ensures Extends(g, ReplayCount(g, section, lines, count, parseReal).graph)
    ensures forall v :: v in ReplayCount(g, section, lines, count, parseReal).graph.nodes ==> v in g.nodes || NamedIn(v, section, lines)
  {
    var k := if count < 0 then 0 else count;
    if count <= |lines| {
      ReplayExtends(g, section, lines[..k], parseReal);
      ReplayNames(g, section, lines[..k], parseReal);
      forall v | NamedIn(v, section, lines[..k]) ensures NamedIn(v, section, lines) {
        NamedInSlice(v, section, lines, 0, k);
      }
    } else {
      ReplayExtends(g, section, lines, parseReal);
      ReplayNames(g, section, lines, parseReal);
    }
  }

  /** Manual input starts from an empty graph: whatever was held before is
      gone, every node it ends with is named by one of the answers, and the
      graph is well formed. */
  lemma ManualNodesFromAnswers(answers: seq<Line>, parseInt: IntParser, parseReal: RealParser)
    ensures WellFormed(ManualSpec(answers, parseInt, parseReal).graph)
    ensures forall v :: v in ManualSpec(answers, parseInt, parseReal).graph.nodes ==>
      NamedIn(v, NodeSection, answers) || NamedIn(v, EdgeSection, answers)
  {
    if |answers| > 0 && ParseCount(answers[0], parseInt).Some? {
      var n := ParseCount(answers[0], parseInt).value;
      var r := ReplayCount(EmptyGraph, NodeSection, answers[1..], n, parseReal);
      var next := 1 + (if n < 0 then 0 else n);
      ReplayCountNames(EmptyGraph, NodeSection, answers[1..], n, parseReal);
      forall v | NamedIn(v, NodeSection, answers[1..]) ensures NamedIn(v, NodeSection, answers) {
        assert answers[1..|answers|] == answers[1..];
        NamedInSlice(v, NodeSection, answers, 1, |answers|);
      }
      if r.ok && next < |answers| && ParseCount(answers[next], parseInt).Some? {
        var m := ParseCount(answers[next], parseInt).value;
        ReplayCountNames(r.graph, EdgeSection, answers[next + 1..], m, parseReal);
        forall v | NamedIn(v, EdgeSection, answers[next + 1..]) ensures NamedIn(v, EdgeSection, answers) {
          assert answers[next + 1..|answers|] == answers[next + 1..];
          NamedInSlice(v, EdgeSection, answers, next + 1, |answers|);
        }
      }
    }
  }
}
