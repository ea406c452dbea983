/** ConfigObj's `_parse`, `_match_depth` and `write`, over the sections of one configuration. */
module SectionParser {
  import opened Lists
  import opened SectionTree
  import opened Wrappers

  lemma {:induction false} SectionLinesAppend(ts: seq<Tree>, t: Tree)
    ensures SectionLines(ts + [t]) == SectionLines(ts) + [MarkerLine(t)] + Lines(t)
    decreases |ts|
  {
    hide Lines, MarkerLine;
    if ts == [] {
      assert [] + [t] == [t] && [t][1..] == [];
    } else {
      SectionLinesAppend(ts[1..], t);
      assert (ts + [t])[0] == ts[0] && (ts + [t])[1..] == ts[1..] + [t];
      var first, rest, last := [MarkerLine(ts[0])] + Lines(ts[0]), SectionLines(ts[1..]), [MarkerLine(t)] + Lines(t);
      assert SectionLines(ts) == first + rest;
      assert SectionLines(ts + [t]) == first + SectionLines(ts[1..] + [t]);
      assert first + (rest + last) == first + rest + last;
    }
  }

  /** One more line read from a state that is good for the whole rest. */
  lemma RunStep(s: State, lines: seq<Line>, i: nat)
    requires Valid(s) && i < |lines|
    ensures var r := Step(s, lines[i]);
      Run(s, lines[i..]) == if r.Fail? then r else (StepIsValid(s, lines[i]); Run(r.value, lines[i + 1..]))
  {
    hide Valid, Step;
    assert lines[i..][1..] == lines[i + 1..];
  }

  lemma RunNothing(s: State, lines: seq<Line>)
    requires Valid(s) && lines == []
    ensures Run(s, lines) == Ok(s)
  {
  }

  /** A configuration: its sections, by number, the configuration itself first. */
  class ConfigObj {
    var nodes: seq<Node>

    constructor ()
      ensures nodes == EMPTY.nodes
    {
      nodes := [Node(0, 0, [], [])];
    }

    /** Walks to the section of the given depth, which must not be deeper than where it starts. */
    method MatchDepth(start: nat, depth: nat) returns (r: Result<nat, Error>)
      requires LinkedUp(nodes) && start < |nodes|
      ensures depth <= nodes[start].depth ==> r == Ok(AncestorAt(nodes, start, depth))
      ensures depth > nodes[start].depth ==> r == Fail(NestingError)
    {
      var sect := start;
      while depth < nodes[sect].depth
        invariant 0 <= sect < |nodes|
        invariant depth <= nodes[start].depth ==>
          depth <= nodes[sect].depth && AncestorAt(nodes, sect, depth) == AncestorAt(nodes, start, depth)
        invariant depth > nodes[start].depth ==> sect == start
        decreases sect
      {
        if sect == nodes[sect].parent {
          return Fail(NestingError);
        }
        sect := nodes[sect].parent;
      }
      return if nodes[sect].depth == depth then Ok(sect) else Fail(NestingError);
    }

    /** The section a marker's section goes to: dropping back, staying level, or going one level down. */
    method ParentFor(current: nat, depth: Brackets) returns (r: Result<nat, Error>)
      requires LinkedUp(nodes) && current < |nodes|
      ensures depth <= nodes[current].depth + 1 ==> r == Ok(AncestorAt(nodes, current, depth - 1))
      ensures depth > nodes[current].depth + 1 ==> r == Fail(NestingError)
    {
      if depth < nodes[current].depth {
        var m := MatchDepth(current, depth);
        AncestorBelow(nodes, current, depth - 1);
        r := if m.Fail? then Fail(NestingError) else Ok(nodes[m.value].parent);
      } else if depth == nodes[current].depth {
        AncestorBelow(nodes, current, depth - 1);
        r := Ok(nodes[current].parent);
      } else if depth == nodes[current].depth + 1 {
        r := Ok(current);
      } else {
        r := Fail(NestingError);
      }
    }

    /** Creates a section under the given parent. */
    method AddSection(parent: nat, depth: nat, name: string) returns (section: nat)
      requires parent < |nodes| && depth == nodes[parent].depth + 1
      modifies this
      ensures forall c: nat :: State(nodes, section) == Opened(State(old(nodes), c), parent, name)
    {
      var p := nodes[parent];
      section := |nodes|;
      nodes := nodes + [Node(depth, parent, [], [])];
      nodes := nodes[parent := p.(sections := p.sections + [Child(name, section)])];
      assert nodes == old(nodes)[parent := p.(sections := p.sections + [Child(name, section)])]
          + [Node(depth, parent, [], [])];
    }

    /** A section marker: its section is created under the right parent. */
    method ParseMarker(thisSection: nat, opening: Brackets, closing: Brackets, name: string)
        returns (r: Result<nat, Error>)
      requires Valid(State(nodes, thisSection))
      modifies this
      ensures var step := Step(State(old(nodes), thisSection), Marker(opening, closing, name));
        if step.Ok? then r == Ok(step.value.current) && nodes == step.value.nodes
        else r == Fail(step.error) && nodes == old(nodes)
    {
      hide *;
      MarkerStep(State(nodes, thisSection), opening, closing, name);
      if opening != closing {
        return Fail(NestingError);
      }
      var parent := ParentFor(thisSection, opening);
      if parent.Fail? {
        return Fail(NestingError);
      }
      if HasKey(nodes[parent.value], name) {
        return Fail(DuplicateError);
      }
      var section := AddSection(parent.value, opening, name);
      r := Ok(section);
    }

    /** The loop body of `_parse`: reads one line and tells which section is the current one after it. */
    method ParseLine(thisSection: nat, line: Line) returns (r: Result<nat, Error>)
      requires Valid(State(nodes, thisSection))
      modifies this
      ensures var step := Step(State(old(nodes), thisSection), line);
        if step.Ok? then r == Ok(step.value.current) && nodes == step.value.nodes
        else r == Fail(step.error) && nodes == old(nodes)
    {
      match line
      case Blank =>
        r := Ok(thisSection);
      case Garbage =>
        r := Fail(ParseError);
      case Marker(opening, closing, name) =>
        hide *;
        r := ParseMarker(thisSection, opening, closing, name);
      case Entry(key, value) =>
        hide NoRepeats, NodeKeys, LinkedDown, HasKey, LinkedUp, AncestorAt, Opened;
        var n := nodes[thisSection];
        if HasKey(n, key) {
          return Fail(DuplicateError);
        }
        nodes := nodes[thisSection := n.(scalars := n.scalars + [Scalar(key, value)])];
        r := Ok(thisSection);
    }

    /** Reads a file into the configuration and stops at the first error. */
    method Parse(infile: seq<Line>) returns (r: Result<nat, Error>)
      requires Valid(State(nodes, 0))
      modifies this
      ensures var run := Run(State(old(nodes), 0), infile);
        if run.Ok? then r == Ok(run.value.current) && nodes == run.value.nodes else r == Fail(run.error)
    {
      hide *;
      var thisSection: nat := 0;
      assert infile[0..] == infile;
      for i := 0 to |infile|
        invariant Valid(State(nodes, thisSection))
        invariant Run(State(nodes, thisSection), infile[i..]) == Run(State(old(nodes), 0), infile)
      {
        ghost var s := State(nodes, thisSection);
        RunStep(s, infile, i);
        StepIsValid(s, infile[i]);
        var line := ParseLine(thisSection, infile[i]);
        if line.Fail? {
          return line;
        }
        thisSection := line.value;
        assert State(nodes, thisSection) == Step(s, infile[i]).value;
      }
      RunNothing(State(nodes, thisSection), infile[|infile|..]);
      return Ok(thisSection);
    }

    /** The lines of a section: its entries in order, subsections written recursively. */
    method Write(section: nat) returns (out: seq<Line>)
      requires LinkedDown(nodes) && section < |nodes|
      ensures out == Lines(ToTree(nodes, section, ""))
      decreases |nodes| - section
    {
      var n := nodes[section];
      out := [];
      for e := 0 to |n.scalars| + |n.sections|
        invariant e <= |n.scalars| ==> out == ScalarLines(n.scalars[..e])
        invariant e >= |n.scalars| ==>
          out == ScalarLines(n.scalars) + SectionLines(Subtrees(nodes, section, e - |n.scalars|))
      {
        if e < |n.scalars| {
          out := out + [Entry(n.scalars[e].key, n.scalars[e].value)];
          assert n.scalars[..|n.scalars|] == n.scalars;
        } else {
          assert LinksDown(nodes, section);
          var k := e - |n.scalars|;
          var c := n.sections[k];
          var sub := Write(c.section);
          out := out + [if nodes[c.section].depth == 0 then Garbage
                        else Marker(nodes[c.section].depth, nodes[c.section].depth, c.name)] + sub;
          SectionLinesAppend(Subtrees(nodes, section, k), ToTree(nodes, c.section, c.name));
        }
      }
    }

    /** Writing a configuration out and reading the lines back gives the same tree. */
    method Reread() returns (copy: ConfigObj)
      requires Valid(State(nodes, 0))
      ensures fresh(copy) && Valid(State(copy.nodes, 0))
      ensures ToTree(copy.nodes, 0, "") == ToTree(nodes, 0, "")
    {
      var out := Write(0);
      copy := new ConfigObj();
      hide *;
      ParsePrinted(State(nodes, 0), out);
      var r := copy.Parse(out);
    }
  }

  lemma ParsePrinted(s: State, out: seq<Line>)
    requires Valid(s) && s.current == 0 && out == Lines(ToTree(s.nodes, 0, ""))
    ensures Valid(EMPTY) && EMPTY.current == 0 && Run(EMPTY, out).Ok?
    ensures ToTree(Run(EMPTY, out).value.nodes, 0, "") == ToTree(s.nodes, 0, "")
    ensures Valid(Run(EMPTY, out).value.(current := 0))
  {
    ParsedSection(s, 0, "");
    PrintParse(ToTree(s.nodes, 0, ""));
    hide ToTree, Lines, Run, NoRepeats, NodeKeys, LinkedDown;
  }
}
