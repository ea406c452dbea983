/** What a file of lines means, read off the lines themselves: which section each line belongs to, which
    line is the first at fault, and what every section holds in the end. The parser agrees exactly. */
module SectionReading {
  import opened Lists
  import opened Wrappers
  import opened SectionTree

  function Init(lines: seq<Line>): seq<Line>
    requires lines != []
  {
    lines[..|lines| - 1]
  }

  function Last(lines: seq<Line>): Line
    requires lines != []
  {
    lines[|lines| - 1]
  }

  /** Sections are numbered as their markers come; the top is number 0. */
  function Markers(lines: seq<Line>): nat {
    if lines == [] then 0 else Markers(Init(lines)) + if Last(lines).Marker? then 1 else 0
  }

  /** The brackets of the last marker, 0 at the top. */
  function DepthNow(lines: seq<Line>): nat {
    if lines == [] then 0 else if Last(lines).Marker? then Last(lines).opening else DepthNow(Init(lines))
  }

  /** The last section whose marker has `depth` brackets. */
  function LastOpen(lines: seq<Line>, depth: nat): nat {
    if depth == 0 || lines == [] then 0
    else if Last(lines).Marker? && Last(lines).opening == depth then Markers(lines)
    else LastOpen(Init(lines), depth)
  }

  /** The section in which a line files its key: an entry in the section of the last marker, a marker of n
      brackets in the last section of n - 1 brackets. */
  function Owner(before: seq<Line>, line: Line): nat {
    if line.Marker? then LastOpen(before, line.opening - 1) else Markers(before)
  }

  function KeyOf(line: Line): Option<string> {
    match line
    case Entry(key, _) => Some(key)
    case Marker(_, _, name) => Some(name)
    case _ => None
  }

  /** An earlier line has put the same key into the same section. */
  predicate Repeats(before: seq<Line>, line: Line) {
    exists j :: 0 <= j < |before| && KeyOf(before[j]) == KeyOf(line)
      && Owner(before[..j], before[j]) == Owner(before, line)
  }

  /** What is wrong with a line behind the others. */
  function Fault(before: seq<Line>, line: Line): Option<Error> {
    match line
    case Blank => None
    case Garbage => Some(ParseError)
    case Entry(_, _) => if Repeats(before, line) then Some(DuplicateError) else None
    case Marker(opening, closing, _) =>
      if opening != closing || opening > DepthNow(before) + 1 then Some(NestingError)
      else if Repeats(before, line) then Some(DuplicateError)
      else None
  }

  /** The entries of a section in order. */
  function Entries(lines: seq<Line>, i: nat): seq<Scalar> {
    if lines == [] then []
    else
      Entries(Init(lines), i)
      + if Last(lines).Entry? && Owner(Init(lines), Last(lines)) == i
        then [Scalar(Last(lines).key, Last(lines).value)] else []
  }

  /** Its subsections in order. */
  function Children(lines: seq<Line>, i: nat): seq<Child> {
    if lines == [] then []
    else
      Children(Init(lines), i)
      + if Last(lines).Marker? && Owner(Init(lines), Last(lines)) == i
        then [Child(Last(lines).name, Markers(lines))] else []
  }

  /** The brackets of a section's marker. */
  function DepthOf(lines: seq<Line>, i: nat): nat {
    if lines == [] then 0
    else if Last(lines).Marker? && Markers(lines) == i then Last(lines).opening
    else DepthOf(Init(lines), i)
  }

  /** The sections are those of the lines. */
  ghost predicate Describes(lines: seq<Line>, s: State) {
    && Valid(s) && |s.nodes| == Markers(lines) + 1 && s.current == Markers(lines)
    && s.nodes[s.current].depth == DepthNow(lines)
    && (forall d :: 0 <= d <= DepthNow(lines) ==> AncestorAt(s.nodes, s.current, d) == LastOpen(lines, d))
    && forall i :: 0 <= i < |s.nodes| ==> Holds(lines, s.nodes[i], i)
  }

  predicate Holds(lines: seq<Line>, n: Node, i: nat) {
    n.scalars == Entries(lines, i) && n.sections == Children(lines, i) && n.depth == DepthOf(lines, i)
  }

  // ----- Keys

  /** A section has a key exactly if some line has put it there. */
  lemma {:induction false} KeysAreFiled(lines: seq<Line>, i: nat, key: string)
    ensures key in Keys(Entries(lines, i), Names(Children(lines, i))) <==>
      exists j :: 0 <= j < |lines| && KeyOf(lines[j]) == Some(key) && Owner(lines[..j], lines[j]) == i
    decreases |lines|
  {
    hide Owner, KeyOf;
    if lines != [] {
      var init := Init(lines);
      KeysAreFiled(init, i, key);
      KeysOneMore(lines, i, key);
      assert lines[..|init|] == init;
      forall j | 0 <= j < |init|
        ensures init[j] == lines[j] && init[..j] == lines[..j]
      {
      }
    }
  }

  lemma KeysOneMore(lines: seq<Line>, i: nat, key: string)
    requires lines != []
    ensures key in Keys(Entries(lines, i), Names(Children(lines, i))) <==>
      key in Keys(Entries(Init(lines), i), Names(Children(Init(lines), i)))
      || (KeyOf(Last(lines)) == Some(key) && Owner(Init(lines), Last(lines)) == i)
  {
    hide Owner;
    KeysMean(Entries(lines, i), Children(lines, i), key);
    KeysMean(Entries(Init(lines), i), Children(Init(lines), i), key);
  }

  lemma KeysMean(scalars: seq<Scalar>, sections: seq<Child>, key: string)
    ensures key in Keys(scalars, Names(sections)) <==>
      (exists x :: x in scalars && x.key == key) || (exists c :: c in sections && c.name == key)
  {
    var keys := Keys(scalars, Names(sections));
    assert forall i :: 0 <= i < |scalars| ==> keys[i] == scalars[i].key;
    assert forall i :: 0 <= i < |sections| ==> keys[|scalars| + i] == sections[i].name;
  }

  // ----- One line

  lemma {:induction false} AncestorsSame(a: seq<Node>, b: seq<Node>, i: nat, depth: nat)
    requires LinkedUp(a) && LinkedUp(b) && i < |a| <= |b| && depth <= a[i].depth
    requires forall j :: 0 <= j < |a| ==> b[j].depth == a[j].depth && b[j].parent == a[j].parent
    ensures AncestorAt(b, i, depth) == AncestorAt(a, i, depth)
    decreases i
  {
    if a[i].depth != depth { AncestorsSame(a, b, a[i].parent, depth); }
  }

  lemma {:induction false} AncestorOfAncestor(nodes: seq<Node>, i: nat, middle: nat, depth: nat)
    requires LinkedUp(nodes) && i < |nodes| && depth <= middle <= nodes[i].depth
    ensures AncestorAt(nodes, AncestorAt(nodes, i, middle), depth) == AncestorAt(nodes, i, depth)
    decreases i
  {
    if nodes[i].depth != middle { AncestorOfAncestor(nodes, nodes[i].parent, middle, depth); }
  }

  lemma {:induction false} OwnerIsOpen(before: seq<Line>, depth: nat)
    ensures LastOpen(before, depth) <= Markers(before)
  {
    if before != [] { OwnerIsOpen(Init(before), depth); }
  }

  /** A section not begun yet holds nothing. */
  lemma {:induction false} NothingFiled(lines: seq<Line>, i: nat)
    requires i > Markers(lines)
    ensures Entries(lines, i) == [] && Children(lines, i) == []
  {
    if lines != [] {
      NothingFiled(Init(lines), i);
      if Last(lines).Marker? { OwnerIsOpen(Init(lines), Last(lines).opening - 1); }
    }
  }

  /** Whether a key is taken, in the parser's terms and in those of the lines. */
  lemma RepeatsExactly(lines: seq<Line>, s: State, line: Line)
    requires Describes(lines, s) && KeyOf(line).Some?
    ensures Owner(lines, line) < |s.nodes|
    ensures HasKey(s.nodes[Owner(lines, line)], KeyOf(line).value) <==> Repeats(lines, line)
  {
    if line.Marker? { OwnerIsOpen(lines, line.opening - 1); }
    hide Valid;
    var i := Owner(lines, line);
    assert Holds(lines, s.nodes[i], i);
    KeysAreFiled(lines, i, KeyOf(line).value);
  }

  lemma OneMoreLine(lines: seq<Line>, line: Line)
    ensures Init(lines + [line]) == lines && Last(lines + [line]) == line
    ensures Markers(lines + [line]) == Markers(lines) + if line.Marker? then 1 else 0
    ensures DepthNow(lines + [line]) == if line.Marker? then line.opening else DepthNow(lines)
  {
    assert (lines + [line])[..|lines|] == lines;
  }

  lemma HeldWithOneMore(lines: seq<Line>, line: Line, i: nat)
    ensures Entries(lines + [line], i)
         == Entries(lines, i) + if line.Entry? && Owner(lines, line) == i then [Scalar(line.key, line.value)] else []
    ensures Children(lines + [line], i)
         == Children(lines, i)
            + if line.Marker? && Owner(lines, line) == i then [Child(line.name, Markers(lines) + 1)] else []
    ensures DepthOf(lines + [line], i)
         == if line.Marker? && Markers(lines) + 1 == i then line.opening else DepthOf(lines, i)
  {
    hide Owner, Markers;
    OneMoreLine(lines, line);
  }

  lemma OpenWithOneMore(lines: seq<Line>, line: Line, d: nat)
    ensures LastOpen(lines + [line], d) ==
            if line.Marker? && d > 0 && line.opening == d then Markers(lines) + 1 else LastOpen(lines, d)
  {
    OneMoreLine(lines, line);
  }

  lemma EntryDescribed(lines: seq<Line>, s: State, key: string, value: string)
    requires Describes(lines, s) && !HasKey(s.nodes[s.current], key)
    ensures Describes(lines + [Entry(key, value)], AddScalar(s, key, value))
  {
    var line, t := Entry(key, value), AddScalar(s, key, value);
    AddScalarIsValid(s, key, value);
    OneMoreLine(lines, line);
    forall d | 0 <= d <= DepthNow(lines)
      ensures AncestorAt(t.nodes, t.current, d) == LastOpen(lines + [line], d)
    {
      AncestorsSame(s.nodes, t.nodes, s.current, d);
      OpenWithOneMore(lines, line, d);
    }
    forall i | 0 <= i < |t.nodes|
      ensures Holds(lines + [line], t.nodes[i], i)
    {
      assert Holds(lines, s.nodes[i], i);
      HeldWithOneMore(lines, line, i);
    }
  }

  lemma BlankDescribed(lines: seq<Line>, s: State)
    requires Describes(lines, s)
    ensures Describes(lines + [Blank], s)
  {
    OneMoreLine(lines, Blank);
    forall d | 0 <= d <= DepthNow(lines)
      ensures AncestorAt(s.nodes, s.current, d) == LastOpen(lines + [Blank], d)
    {
      OpenWithOneMore(lines, Blank, d);
    }
    forall i | 0 <= i < |s.nodes|
      ensures Holds(lines + [Blank], s.nodes[i], i)
    {
      assert Holds(lines, s.nodes[i], i);
      HeldWithOneMore(lines, Blank, i);
    }
  }

  lemma MarkerDescribed(lines: seq<Line>, s: State, line: Line)
    requires Describes(lines, s) && line.Marker? && line.opening <= DepthNow(lines) + 1
    requires Owner(lines, line) < |s.nodes| && !HasKey(s.nodes[Owner(lines, line)], line.name)
    ensures Describes(lines + [line], Opened(s, Owner(lines, line), line.name))
  {
    var parent := Owner(lines, line);
    var t := Opened(s, parent, line.name);
    assert parent == AncestorAt(s.nodes, s.current, line.opening - 1);
    OpenedIsValid(s, parent, line.name);
    OpenedChanges(s, parent, line.name);
    OneMoreLine(lines, line);
    assert LinkedUp(s.nodes) && LinkedUp(t.nodes);
    hide Opened, Owner, HasKey, Valid, LinkedUp, Holds;
    forall d | 0 <= d <= line.opening
      ensures AncestorAt(t.nodes, t.current, d) == LastOpen(lines + [line], d)
    {
      MarkerAncestors(lines, s, line, t, d);
    }
    forall i | 0 <= i < |t.nodes|
      ensures Holds(lines + [line], t.nodes[i], i)
    {
      MarkerHolds(lines, s, line, t, i);
    }
  }

  lemma MarkerAncestors(lines: seq<Line>, s: State, line: Line, t: State, d: nat)
    requires LinkedUp(s.nodes) && LinkedUp(t.nodes) && s.current < |s.nodes| && line.Marker? && d <= line.opening
    requires line.opening <= s.nodes[s.current].depth + 1
    requires forall e :: 0 <= e < line.opening ==> AncestorAt(s.nodes, s.current, e) == LastOpen(lines, e)
    requires |s.nodes| == Markers(lines) + 1 == |t.nodes| - 1 && t.current == |s.nodes|
    requires t.nodes[t.current].parent == AncestorAt(s.nodes, s.current, line.opening - 1)
    requires forall j :: 0 <= j < |s.nodes| ==>
               t.nodes[j].depth == s.nodes[j].depth && t.nodes[j].parent == s.nodes[j].parent
    ensures t.nodes[t.current].depth == line.opening
    ensures AncestorAt(t.nodes, t.current, d) == LastOpen(lines + [line], d)
  {
    OpenWithOneMore(lines, line, d);
    if d < line.opening {
      AncestorsSame(s.nodes, t.nodes, AncestorAt(s.nodes, s.current, line.opening - 1), d);
      AncestorOfAncestor(s.nodes, s.current, line.opening - 1, d);
    }
  }

  lemma MarkerHolds(lines: seq<Line>, s: State, line: Line, t: State, i: nat)
    requires line.Marker? && |s.nodes| == Markers(lines) + 1 && |t.nodes| == |s.nodes| + 1 && i < |t.nodes|
    requires forall j :: 0 <= j < |s.nodes| ==> Holds(lines, s.nodes[j], j)
    requires var parent := Owner(lines, line);
      parent < |s.nodes|
      && t.nodes[parent] == s.nodes[parent].(sections := s.nodes[parent].sections + [Child(line.name, |s.nodes|)])
      && (forall j :: 0 <= j < |s.nodes| && j != parent ==> t.nodes[j] == s.nodes[j])
      && t.nodes[|s.nodes|] == Node(line.opening, parent, [], [])
    ensures Holds(lines + [line], t.nodes[i], i)
  {
    hide Owner, Markers, Entries, Children, DepthOf;
    HeldWithOneMore(lines, line, i);
    if i < |s.nodes| {
      assert Holds(lines, s.nodes[i], i);
    } else {
      NothingFiled(lines, i);
    }
  }

  /** One more line is at fault or is taken in, as the lines before it say. */
  lemma StepExactly(lines: seq<Line>, s: State, line: Line)
    requires Describes(lines, s)
    ensures var r := Step(s, line);
      match Fault(lines, line)
      case Some(e) => r == Fail(e)
      case None => r.Ok? && Describes(lines + [line], r.value)
  {
    DescribedIsValid(lines, s);
    DescribedDepth(lines, s);
    if KeyOf(line).Some? { RepeatsExactly(lines, s, line); }
    hide Describes, Valid, Repeats, HasKey, AddScalar, Opened;
    match line
    case Blank => BlankDescribed(lines, s);
    case Garbage =>
    case Entry(key, value) =>
      if !Repeats(lines, line) { EntryDescribed(lines, s, key, value); }
    case Marker(opening, closing, name) =>
      if opening == closing && opening <= DepthNow(lines) + 1 && !Repeats(lines, line) {
        MarkerDescribed(lines, s, line);
      }
  }

  lemma DescribedDepth(lines: seq<Line>, s: State)
    requires Describes(lines, s)
    ensures s.current < |s.nodes| && s.current == Markers(lines) && s.nodes[s.current].depth == DepthNow(lines)
    ensures LinkedUp(s.nodes)
    ensures forall d :: 0 <= d <= DepthNow(lines) ==> AncestorAt(s.nodes, s.current, d) == LastOpen(lines, d)
  {
  }

  // ----- Whole files

  lemma NothingDescribed()
    ensures Describes([], EMPTY)
  {
    NothingLinked();
    hide Valid, LinkedUp, AncestorAt;
    assert Holds([], EMPTY.nodes[0], 0);
  }

  lemma NothingLinked()
    ensures Valid(EMPTY) && AncestorAt(EMPTY.nodes, 0, 0) == 0
  {
  }

  lemma DescribedIsValid(lines: seq<Line>, s: State)
    requires Describes(lines, s)
    ensures Valid(s)
  {
  }

  /** The line `k` is the first at fault. */
  predicate FirstFault(lines: seq<Line>, n: nat, k: nat)
    requires n <= k < |lines|
  {
    Fault(lines[..k], lines[k]).Some? && forall j :: n <= j < k ==> Fault(lines[..j], lines[j]).None?
  }

  /** Reading line after line behind the first `n`: the first line at fault ends it with its error, and
      without one the sections are those the lines describe. */
  lemma {:induction false} RunDescribes(lines: seq<Line>, n: nat, s: State)
    requires n <= |lines| && Describes(lines[..n], s)
    ensures Valid(s)
    ensures var r := Run(s, lines[n..]);
      && (r.Ok? <==> forall k :: n <= k < |lines| ==> Fault(lines[..k], lines[k]).None?)
      && (r.Ok? ==> Describes(lines, r.value))
      && (forall k :: n <= k < |lines| && FirstFault(lines, n, k) ==> r == Fail(Fault(lines[..k], lines[k]).value))
    decreases |lines| - n
  {
    hide Step, Fault, Describes, Valid;
    DescribedIsValid(lines[..n], s);
    if n == |lines| {
      assert lines[..n] == lines;
    } else {
      StepExactly(lines[..n], s, lines[n]);
      assert lines[..n] + [lines[n]] == lines[..n + 1] && lines[n..][1..] == lines[n + 1..];
      var r := Step(s, lines[n]);
      if r.Ok? {
        RunDescribes(lines, n + 1, r.value);
        forall k | n < k < |lines|
          ensures FirstFault(lines, n, k) ==> FirstFault(lines, n + 1, k)
        {
        }
      }
    }
  }

  /** A whole file: it is read if and only if no line is at fault, and then the sections are those the
      lines describe; otherwise the error is that of the first line at fault. */
  lemma ParseExactly(lines: seq<Line>)
    ensures Valid(EMPTY)
    ensures var r := Run(EMPTY, lines);
      && (r.Ok? <==> forall k :: 0 <= k < |lines| ==> Fault(lines[..k], lines[k]).None?)
      && (r.Ok? ==> Describes(lines, r.value))
      && (forall k :: 0 <= k < |lines| && FirstFault(lines, 0, k) ==> r == Fail(Fault(lines[..k], lines[k]).value))
  {
    hide Fault, Describes, Valid, Run;
    NothingDescribed();
    assert lines[..0] == [] && lines[0..] == lines;
    RunDescribes(lines, 0, EMPTY);
  }
}
