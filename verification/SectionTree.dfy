/** ConfigObj's section structure: trees of sections, the lines `write` emits for a tree, and the
    parser that finds the nesting again. Lines are already split into their parts; quoting, comments
    and the syntax of values are not modelled. */
module SectionTree {
  import opened Lists
  import opened Wrappers

  datatype Scalar = Scalar(key: string, value: string)

  /** A bracket count: the pattern of a section marker asks for at least one. */
  type Brackets = n: nat | n > 0 witness 1

  /** A section marker with its opening and closing brackets, a key with its value, a line without
      content (blank or comment), or a line that is none of these. */
  datatype Line = Marker(opening: Brackets, closing: Brackets, name: string)
                | Entry(key: string, value: string)
                | Blank
                | Garbage

  /** A section, with the key it has in its parent ("" at the top). */
  datatype Tree = Tree(name: string, depth: nat, scalars: seq<Scalar>, sections: seq<Tree>)

  datatype Error = NestingError | DuplicateError | ParseError

  // ----- Printing

  function ScalarLines(scalars: seq<Scalar>): (lines: seq<Line>)
    ensures |lines| == |scalars|
  {
    seq(|scalars|, i requires 0 <= i < |scalars| => Entry(scalars[i].key, scalars[i].value))
  }

  /** The marker of a section. A subsection can have depth 0 only when a whole configuration was assigned
      to a key; its marker has no brackets and reads as neither a marker nor a key with a value. */
  function MarkerLine(t: Tree): Line {
    if t.depth == 0 then Garbage
    else
      var d: Brackets := t.depth;
      Marker(d, d, t.name)
  }

  /** The lines of a section: its scalars, then each subsection behind a marker of its depth. */
  function Lines(t: Tree): seq<Line>
    decreases t
  {
    ScalarLines(t.scalars) + SectionLines(t.sections)
  }

  function SectionLines(sections: seq<Tree>): seq<Line>
    decreases sections
  {
    if sections == [] then []
    else [MarkerLine(sections[0])] + Lines(sections[0]) + SectionLines(sections[1..])
  }

  /** The keys of a section, scalars first. */
  function Keys(scalars: seq<Scalar>, names: seq<string>): (keys: seq<string>)
    ensures |keys| == |scalars| + |names|
  {
    seq(|scalars|, i requires 0 <= i < |scalars| => scalars[i].key) + names
  }

  function TreeNames(sections: seq<Tree>): (names: seq<string>)
    ensures |names| == |sections|
  {
    seq(|sections|, i requires 0 <= i < |sections| => sections[i].name)
  }

  /** A section of the given depth: no key twice, and every subsection one level deeper. */
  predicate WellFormed(t: Tree, depth: nat)
    decreases t
  {
    t.depth == depth && NoRepeats(Keys(t.scalars, TreeNames(t.sections))) && AllWellFormed(t.sections, depth + 1)
  }

  predicate AllWellFormed(sections: seq<Tree>, depth: nat)
    decreases sections
  {
    sections == [] || (WellFormed(sections[0], depth) && AllWellFormed(sections[1..], depth))
  }

  // ----- The parser's sections

  /** A subsection: the key it has in its parent, and its number. */
  datatype Child = Child(name: string, section: nat)

  /** A Section object: its fields, its parent and subsections by number. The root is its own parent. */
  datatype Node = Node(depth: nat, parent: nat, scalars: seq<Scalar>, sections: seq<Child>)

  datatype State = State(nodes: seq<Node>, current: nat)

  const EMPTY := State([Node(0, 0, [], [])], 0)

  function Names(sections: seq<Child>): (names: seq<string>)
    ensures |names| == |sections|
  {
    seq(|sections|, i requires 0 <= i < |sections| => sections[i].name)
  }

  function NodeKeys(n: Node): (keys: seq<string>)
    ensures |keys| == |n.scalars| + |n.sections|
  {
    Keys(n.scalars, Names(n.sections))
  }

  predicate HasKey(n: Node, key: string) {
    key in NodeKeys(n)
  }

  /** The root is first, and every other section comes after its parent and one level below it. */
  predicate LinkedUp(nodes: seq<Node>) {
    && nodes != [] && nodes[0].depth == 0 && nodes[0].parent == 0
    && forall i :: 0 < i < |nodes| ==> nodes[i].parent < i && nodes[i].depth == nodes[nodes[i].parent].depth + 1
  }

  predicate LinksDown(nodes: seq<Node>, i: nat)
    requires i < |nodes|
  {
    forall k :: 0 <= k < |nodes[i].sections| ==>
      i < nodes[i].sections[k].section < |nodes| && nodes[nodes[i].sections[k].section].depth == nodes[i].depth + 1
  }

  /** Every subsection comes after its parent and one level below it. */
  predicate LinkedDown(nodes: seq<Node>) {
    forall i :: 0 <= i < |nodes| ==> LinksDown(nodes, i)
  }

  predicate Valid(s: State) {
    && LinkedUp(s.nodes) && LinkedDown(s.nodes) && s.current < |s.nodes|
    && forall i :: 0 <= i < |s.nodes| ==> NoRepeats(NodeKeys(s.nodes[i]))
  }

  /** The tree below a section that has the given name. */
  function ToTree(nodes: seq<Node>, i: nat, name: string): (t: Tree)
    requires LinkedDown(nodes) && i < |nodes|
    ensures t.name == name && t.depth == nodes[i].depth && t.scalars == nodes[i].scalars
    decreases |nodes| - i, |nodes[i].sections| + 1
  {
    Tree(name, nodes[i].depth, nodes[i].scalars, Subtrees(nodes, i, |nodes[i].sections|))
  }

  /** The first k subsections of a section. */
  function Subtrees(nodes: seq<Node>, i: nat, k: nat): (ts: seq<Tree>)
    requires LinkedDown(nodes) && i < |nodes| && k <= |nodes[i].sections|
    ensures |ts| == k
    decreases |nodes| - i, k
  {
    if k == 0 then []
    else
      assert LinksDown(nodes, i);
      Subtrees(nodes, i, k - 1) + [ToTree(nodes, nodes[i].sections[k - 1].section, nodes[i].sections[k - 1].name)]
  }

  // ----- One line

  /** The section of the given depth among a section and its ancestors. */
  function AncestorAt(nodes: seq<Node>, i: nat, depth: nat): (a: nat)
    requires LinkedUp(nodes) && i < |nodes| && depth <= nodes[i].depth
    ensures a <= i && nodes[a].depth == depth
    decreases i
  {
    if nodes[i].depth == depth then i else AncestorAt(nodes, nodes[i].parent, depth)
  }

  /** A new subsection, which becomes the current section. */
  function Opened(s: State, parent: nat, name: string): State
    requires parent < |s.nodes|
  {
    var p := s.nodes[parent];
    var nodes := s.nodes[parent := p.(sections := p.sections + [Child(name, |s.nodes|)])];
    State(nodes + [Node(p.depth + 1, parent, [], [])], |s.nodes|)
  }

  function AddScalar(s: State, key: string, value: string): State
    requires s.current < |s.nodes|
  {
    var n := s.nodes[s.current];
    s.(nodes := s.nodes[s.current := n.(scalars := n.scalars + [Scalar(key, value)])])
  }

  /** What a line does. A marker of depth d opens a subsection of the nearest section of depth d - 1 on
      the way from the current section to the root. */
  function Step(s: State, line: Line): Result<State, Error>
    requires Valid(s)
  {
    match line
    case Blank => Ok(s)
    case Garbage => Fail(ParseError)
    case Entry(key, value) =>
      if HasKey(s.nodes[s.current], key) then Fail(DuplicateError) else Ok(AddScalar(s, key, value))
    case Marker(opening, closing, name) =>
      if opening != closing || opening > s.nodes[s.current].depth + 1 then Fail(NestingError)
      else
        var parent := AncestorAt(s.nodes, s.current, opening - 1);
        if HasKey(s.nodes[parent], name) then Fail(DuplicateError) else Ok(Opened(s, parent, name))
  }

  lemma MarkerStep(s: State, opening: Brackets, closing: Brackets, name: string)
    requires Valid(s)
    ensures LinkedUp(s.nodes) && s.current < |s.nodes|
    ensures Step(s, Marker(opening, closing, name)) ==
      if opening != closing || opening > s.nodes[s.current].depth + 1 then Fail(NestingError)
      else
        var parent := AncestorAt(s.nodes, s.current, opening - 1);
        if HasKey(s.nodes[parent], name) then Fail(DuplicateError) else Ok(Opened(s, parent, name))
  {
  }

  lemma KeysOfAddedScalar(n: Node, x: Scalar)
    requires NoRepeats(NodeKeys(n)) && !HasKey(n, x.key)
    ensures NoRepeats(NodeKeys(n.(scalars := n.scalars + [x])))
  {
    var a, b := NodeKeys(n), NodeKeys(n.(scalars := n.scalars + [x]));
    var k := |n.scalars|;
    assert forall i :: 0 <= i < k ==> b[i] == a[i];
    assert forall i :: k < i < |b| ==> b[i] == a[i - 1];
    assert b[k] == x.key;
  }

  lemma KeysOfAddedSection(n: Node, c: Child)
    requires NoRepeats(NodeKeys(n)) && !HasKey(n, c.name)
    ensures NoRepeats(NodeKeys(n.(sections := n.sections + [c])))
  {
    assert Names(n.sections + [c]) == Names(n.sections) + [c.name];
    assert NodeKeys(n.(sections := n.sections + [c])) == NodeKeys(n) + [c.name];
  }

  lemma AddScalarIsValid(s: State, key: string, value: string)
    requires Valid(s) && !HasKey(s.nodes[s.current], key)
    ensures Valid(AddScalar(s, key, value))
  {
    KeysOfAddedScalar(s.nodes[s.current], Scalar(key, value));
    hide NoRepeats, NodeKeys;
    var nodes := AddScalar(s, key, value).nodes;
    forall i | 0 <= i < |nodes| ensures LinksDown(nodes, i) {
      assert LinksDown(s.nodes, i);
    }
  }

  lemma OpenedIsValid(s: State, parent: nat, name: string)
    requires Valid(s) && parent < |s.nodes| && !HasKey(s.nodes[parent], name)
    ensures Valid(Opened(s, parent, name))
  {
    KeysOfAddedSection(s.nodes[parent], Child(name, |s.nodes|));
    OpenedIsLinked(s, parent, name);
    hide HasKey, LinkedUp, LinkedDown;
    assert NoRepeats(NodeKeys(Opened(s, parent, name).nodes[|s.nodes|]));
    hide NoRepeats, NodeKeys;
  }

  lemma OpenedChanges(s: State, parent: nat, name: string)
    requires parent < |s.nodes|
    ensures var a, n, b := s.nodes, |s.nodes|, Opened(s, parent, name).nodes;
      && |b| == n + 1 && b[n] == Node(a[parent].depth + 1, parent, [], [])
      && b[parent] == a[parent].(sections := a[parent].sections + [Child(name, n)])
      && (forall j :: 0 <= j < n && j != parent ==> b[j] == a[j])
      && (forall j :: 0 <= j < n ==> b[j].depth == a[j].depth && b[j].parent == a[j].parent)
  {
  }

  lemma OpenedIsLinked(s: State, parent: nat, name: string)
    requires LinkedUp(s.nodes) && LinkedDown(s.nodes) && parent < |s.nodes|
    ensures var nodes := Opened(s, parent, name).nodes; LinkedUp(nodes) && LinkedDown(nodes)
  {
    OpenedChanges(s, parent, name);
    hide LinkedUp, LinksDown, Opened;
    var a, b := s.nodes, Opened(s, parent, name).nodes;
    MoreLinkedUp(a, b);
    forall i | 0 <= i < |b| ensures LinksDown(b, i) {
      assert i < |a| ==> LinksDown(a, i);
      MoreLinksDown(a, b, i, parent, name);
    }
  }

  /** One more section, filed nowhere yet, and links upwards. */
  lemma MoreLinkedUp(a: seq<Node>, b: seq<Node>)
    requires LinkedUp(a) && |b| == |a| + 1 && b[|a|].parent < |a| && b[|a|].depth == a[b[|a|].parent].depth + 1
    requires forall j :: 0 <= j < |a| ==> b[j].depth == a[j].depth && b[j].parent == a[j].parent
    ensures LinkedUp(b)
  {
    forall i | 0 < i < |b| ensures b[i].parent < i && b[i].depth == b[b[i].parent].depth + 1 {
      if i < |a| { assert a[i].parent < i; }
    }
  }

  lemma MoreLinksDown(a: seq<Node>, b: seq<Node>, i: nat, parent: nat, name: string)
    requires i <= |a| && parent < |a| && |b| == |a| + 1 && b[|a|] == Node(a[parent].depth + 1, parent, [], [])
    requires b[parent].sections == a[parent].sections + [Child(name, |a|)]
    requires forall j :: 0 <= j < |a| && j != parent ==> b[j] == a[j]
    requires forall j :: 0 <= j < |a| ==> b[j].depth == a[j].depth
    requires i < |a| ==> LinksDown(a, i)
    ensures LinksDown(b, i)
  {
    forall k | 0 <= k < |b[i].sections|
      ensures i < b[i].sections[k].section < |b| && b[b[i].sections[k].section].depth == b[i].depth + 1
    {
      if i < |a| && k < |a[i].sections| { assert b[i].sections[k] == a[i].sections[k]; }
    }
  }

  /** Every line keeps the links between the sections, and no section ever has a key twice. */
  lemma StepIsValid(s: State, line: Line)
    requires Valid(s)
    ensures var r := Step(s, line); r.Ok? ==> Valid(r.value)
  {
    match line
    case Blank =>
    case Garbage =>
    case Entry(key, value) =>
      if !HasKey(s.nodes[s.current], key) { AddScalarIsValid(s, key, value); }
    case Marker(opening, closing, name) =>
      if opening == closing && opening <= s.nodes[s.current].depth + 1 {
        var parent := AncestorAt(s.nodes, s.current, opening - 1);
        if !HasKey(s.nodes[parent], name) { OpenedIsValid(s, parent, name); }
      }
  }

  /** The whole file, line after line. */
  function Run(s: State, lines: seq<Line>): (r: Result<State, Error>)
    requires Valid(s)
    ensures r.Ok? ==> Valid(r.value)
    decreases |lines|
  {
    if lines == [] then Ok(s)
    else
      StepIsValid(s, lines[0]);
      var r := Step(s, lines[0]);
      if r.Fail? then r else Run(r.value, lines[1..])
  }

  function Parse(lines: seq<Line>): Result<Tree, Error> {
    var r := Run(EMPTY, lines);
    if r.Fail? then Fail(r.error) else Ok(ToTree(r.value.nodes, 0, ""))
  }

  lemma {:induction false} RunConcat(s: State, a: seq<Line>, b: seq<Line>)
    requires Valid(s)
    ensures var r := Run(s, a); Run(s, a + b) == (if r.Fail? then r else Run(r.value, b))
    decreases |a|
  {
    hide Step, Valid;
    if a == [] {
      assert a + b == b;
    } else {
      StepIsValid(s, a[0]);
      assert (a + b)[1..] == a[1..] + b;
      var r := Step(s, a[0]);
      if r.Ok? { RunConcat(r.value, a[1..], b); }
    }
  }

  // ----- What parsing never does

  /** A parsed section is well formed. */
  lemma {:induction false} ParsedSection(s: State, i: nat, name: string)
    requires Valid(s) && i < |s.nodes|
    ensures WellFormed(ToTree(s.nodes, i, name), s.nodes[i].depth)
    decreases |s.nodes| - i, |s.nodes[i].sections| + 1
  {
    var k := |s.nodes[i].sections|;
    ParsedSubsections(s, i, k);
    NamesOfSubtrees(s.nodes, i, k);
    assert s.nodes[i].sections[..k] == s.nodes[i].sections;
    assert NoRepeats(NodeKeys(s.nodes[i]));
  }

  lemma {:induction false} ParsedSubsections(s: State, i: nat, k: nat)
    requires Valid(s) && i < |s.nodes| && k <= |s.nodes[i].sections|
    ensures AllWellFormed(Subtrees(s.nodes, i, k), s.nodes[i].depth + 1)
    decreases |s.nodes| - i, k
  {
    if k > 0 {
      ChildIsBelow(s, i, k - 1);
      hide Valid, LinkedUp, LinkedDown, LinksDown, ToTree, WellFormed, AllWellFormed, NoRepeats, NodeKeys;
      var c := s.nodes[i].sections[k - 1];
      ParsedSubsections(s, i, k - 1);
      ParsedSection(s, c.section, c.name);
      var t := ToTree(s.nodes, c.section, c.name);
      OneWellFormed(t, s.nodes[i].depth + 1);
      AllWellFormedConcat(Subtrees(s.nodes, i, k - 1), [t], s.nodes[i].depth + 1);
    }
  }

  lemma ChildIsBelow(s: State, i: nat, k: nat)
    requires Valid(s) && i < |s.nodes| && k < |s.nodes[i].sections|
    ensures var c := s.nodes[i].sections[k].section; i < c < |s.nodes| && s.nodes[c].depth == s.nodes[i].depth + 1
  {
    hide LinkedUp, NoRepeats, NodeKeys;
    assert LinksDown(s.nodes, i);
  }

  lemma OneWellFormed(t: Tree, depth: nat)
    requires WellFormed(t, depth)
    ensures AllWellFormed([t], depth)
  {
    hide NoRepeats, Keys;
  }

  lemma {:induction false} AllWellFormedConcat(a: seq<Tree>, b: seq<Tree>, depth: nat)
    requires AllWellFormed(a, depth) && AllWellFormed(b, depth)
    ensures AllWellFormed(a + b, depth)
    decreases |a|
  {
    if a == [] {
      assert a + b == b;
    } else {
      AllWellFormedConcat(a[1..], b, depth);
      assert (a + b)[1..] == a[1..] + b;
    }
  }

  lemma {:induction false} NamesOfSubtrees(nodes: seq<Node>, i: nat, k: nat)
    requires LinkedDown(nodes) && i < |nodes| && k <= |nodes[i].sections|
    ensures TreeNames(Subtrees(nodes, i, k)) == Names(nodes[i].sections[..k])
    decreases k
  {
    if k > 0 {
      assert LinksDown(nodes, i);
      NamesOfSubtrees(nodes, i, k - 1);
      var c := nodes[i].sections[k - 1];
      var ts := Subtrees(nodes, i, k - 1);
      assert Subtrees(nodes, i, k) == ts + [ToTree(nodes, c.section, c.name)];
      assert TreeNames(ts + [ToTree(nodes, c.section, c.name)]) == TreeNames(ts) + [c.name];
      assert nodes[i].sections[..k] == nodes[i].sections[..k - 1] + [c];
    }
  }

  /** Whatever the lines are, the tree they are parsed into has correct depths and no repeated keys. */
  lemma ParseIsWellFormed(lines: seq<Line>)
    requires Parse(lines).Ok?
    ensures WellFormed(Parse(lines).value, 0) && Parse(lines).value.name == ""
  {
    ParsedSection(Run(EMPTY, lines).value, 0, "");
  }

  // ----- Parsing what was printed

  /** Only section i, and sections from n on, may differ. */
  predicate SameBut(a: seq<Node>, b: seq<Node>, i: nat, n: nat) {
    n <= |a| <= |b| && forall j :: 0 <= j < n && j != i ==> a[j] == b[j]
  }

  /** A tree is not affected by changes before its root. */
  lemma {:induction false} ToTreeFrame(a: seq<Node>, b: seq<Node>, i: nat, name: string)
    requires LinkedDown(a) && LinkedDown(b) && i < |a| <= |b|
    requires forall j :: i <= j < |a| ==> a[j] == b[j]
    ensures ToTree(a, i, name) == ToTree(b, i, name)
    decreases |a| - i, |a[i].sections| + 1
  {
    SubtreesFrame(a, b, i, |a[i].sections|);
  }

  lemma {:induction false} SubtreesFrame(a: seq<Node>, b: seq<Node>, i: nat, k: nat)
    requires LinkedDown(a) && LinkedDown(b) && i < |a| <= |b| && k <= |a[i].sections| <= |b[i].sections|
    requires a[i].sections == b[i].sections[..|a[i].sections|]
    requires forall j :: i < j < |a| ==> a[j] == b[j]
    ensures Subtrees(a, i, k) == Subtrees(b, i, k)
    decreases |a| - i, k
  {
    if k > 0 {
      assert LinksDown(a, i) && LinksDown(b, i);
      assert a[i].sections[k - 1] == b[i].sections[k - 1];
      SubtreesFrame(a, b, i, k - 1);
      ToTreeFrame(a, b, a[i].sections[k - 1].section, a[i].sections[k - 1].name);
    }
  }

  lemma {:induction false} AncestorBelow(nodes: seq<Node>, i: nat, depth: nat)
    requires LinkedUp(nodes) && i < |nodes| && depth < nodes[i].depth
    ensures AncestorAt(nodes, i, depth) == nodes[AncestorAt(nodes, i, depth + 1)].parent
    decreases i
  {
    if nodes[i].depth > depth + 1 {
      AncestorBelow(nodes, nodes[i].parent, depth);
    }
  }

  /** The section is new, and the current section is below it. */
  predicate Under(s: State, i: nat)
    requires Valid(s) && i < |s.nodes|
  {
    s.nodes[i].depth <= s.nodes[s.current].depth && AncestorAt(s.nodes, s.current, s.nodes[i].depth) == i
  }

  /** Scalar lines go to the current section. */
  lemma {:induction false} ScalarsAreRead(s: State, rest: seq<Scalar>)
    requires Valid(s)
    requires s.nodes[s.current].sections == []
    requires NoRepeats(Keys(s.nodes[s.current].scalars + rest, []))
    ensures Run(s, ScalarLines(rest)) ==
      Ok(s.(nodes := s.nodes[s.current := s.nodes[s.current].(scalars := s.nodes[s.current].scalars + rest)]))
    decreases |rest|
  {
    var n := s.nodes[s.current];
    if rest == [] {
      assert n.scalars + rest == n.scalars;
      assert s.nodes[s.current := n] == s.nodes;
    } else {
      var x := rest[0];
      ScalarIsNew(n, rest);
      var s1 := AddScalar(s, x.key, x.value);
      AddScalarIsValid(s, x.key, x.value);
      assert ScalarLines(rest)[1..] == ScalarLines(rest[1..]);
      assert n.scalars + [x] + rest[1..] == n.scalars + rest;
      ScalarsAreRead(s1, rest[1..]);
      assert s1.nodes[s.current := n.(scalars := n.scalars + rest)]
          == s.nodes[s.current := n.(scalars := n.scalars + rest)];
    }
  }

  lemma ScalarIsNew(n: Node, rest: seq<Scalar>)
    requires n.sections == [] && rest != [] && NoRepeats(Keys(n.scalars + rest, []))
    ensures !HasKey(n, rest[0].key)
  {
    var all := Keys(n.scalars + rest, []);
    assert all[|n.scalars|] == rest[0].key;
    assert forall i :: 0 <= i < |n.scalars| ==> NodeKeys(n)[i] == all[i];
  }

  /** What reading more lines of section i leaves behind: no other section changed, and the current
      section is section i or below it. */
  predicate ReadInto(s: State, r: State, i: nat)
    requires Valid(s) && i < |s.nodes|
  {
    && Valid(r) && SameBut(s.nodes, r.nodes, i, |s.nodes|) && Under(r, i)
    && r.nodes[i].parent == s.nodes[i].parent && r.nodes[i].depth == s.nodes[i].depth
  }

  function Subsections(s: State, i: nat): seq<Tree>
    requires Valid(s) && i < |s.nodes|
  {
    Subtrees(s.nodes, i, |s.nodes[i].sections|)
  }

  lemma ReadFurther(s: State, r: State, q: State, i: nat)
    requires Valid(s) && i < |s.nodes| && ReadInto(s, r, i) && ReadInto(r, q, i)
    ensures ReadInto(s, q, i)
  {
    hide Valid, LinkedUp, LinkedDown;
  }

  /** The marker of a subsection of i is read in any section below i. */
  lemma MarkerIsRead(s: State, i: nat, t: Tree)
    requires Valid(s) && i < |s.nodes| && Under(s, i)
    requires t.depth == s.nodes[i].depth + 1 && !HasKey(s.nodes[i], t.name)
    ensures Step(s, MarkerLine(t)) == Ok(Opened(s, i, t.name))
  {
    hide Valid, HasKey;
  }

  /** Reading the lines of a tree in a new section makes that section the tree, touches no other
      section and ends below it. */
  lemma {:induction false} TreeIsRead(s: State, t: Tree)
    requires Valid(s) && WellFormed(t, s.nodes[s.current].depth)
    requires s.nodes[s.current].scalars == [] && s.nodes[s.current].sections == []
    ensures var r := Run(s, Lines(t));
            r.Ok? && ReadInto(s, r.value, s.current) && ToTree(r.value.nodes, s.current, t.name) == t
    decreases t, 1
  {
    assert s.current < |s.nodes|;
    hide *;
    var i := s.current;
    var s1 := s.(nodes := s.nodes[i := s.nodes[i].(scalars := t.scalars)]);
    TreeScalarsAreRead(s, t);
    SectionsAreRead(s1, i, t.sections);
    RunConcat(s, ScalarLines(t.scalars), SectionLines(t.sections));
    var r := Run(s1, SectionLines(t.sections)).value;
    LinesParts(t);
    ScalarsAside(s, t.scalars, r);
    NoSubsections(s1, i);
    assert [] + t.sections == t.sections;
    TreeFromParts(r, i, t);
  }

  lemma LinesParts(t: Tree)
    ensures Lines(t) == ScalarLines(t.scalars) + SectionLines(t.sections)
  {
  }

  lemma NoSubsections(s: State, i: nat)
    requires Valid(s) && i < |s.nodes| && s.nodes[i].sections == []
    ensures Subsections(s, i) == []
  {
  }

  lemma TreeFromParts(s: State, i: nat, t: Tree)
    requires Valid(s) && i < |s.nodes|
    requires WellFormed(t, s.nodes[i].depth) && s.nodes[i].scalars == t.scalars && Subsections(s, i) == t.sections
    ensures ToTree(s.nodes, i, t.name) == t
  {
    hide Valid, AllWellFormed, NoRepeats, Subtrees;
  }

  /** What is read into a section after its scalars is read into the section. */
  lemma ScalarsAside(s: State, scalars: seq<Scalar>, r: State)
    requires Valid(s)
    requires var s1 := s.(nodes := s.nodes[s.current := s.nodes[s.current].(scalars := scalars)]);
      Valid(s1) && ReadInto(s1, r, s.current)
    ensures ReadInto(s, r, s.current) && Valid(r)
    ensures s.current < |r.nodes| && r.nodes[s.current].depth == s.nodes[s.current].depth
  {
    hide LinkedUp, LinkedDown, NoRepeats, NodeKeys, Under;
  }

  /** The scalars of a tree, read into a new section. */
  lemma TreeScalarsAreRead(s: State, t: Tree)
    requires Valid(s) && WellFormed(t, s.nodes[s.current].depth)
    requires s.nodes[s.current].scalars == [] && s.nodes[s.current].sections == []
    ensures var i := s.current;
      var s1 := s.(nodes := s.nodes[i := s.nodes[i].(scalars := t.scalars)]);
      && Run(s, ScalarLines(t.scalars)) == Ok(s1) && Valid(s1) && Under(s1, i)
      && AllWellFormed(t.sections, s.nodes[i].depth + 1)
      && NoRepeats(NodeKeys(s1.nodes[i]) + TreeNames(t.sections))
  {
    var i := s.current;
    var s1 := s.(nodes := s.nodes[i := s.nodes[i].(scalars := t.scalars)]);
    var names := TreeNames(t.sections);
    assert [] + t.scalars == t.scalars;
    PrefixKeys(t.scalars, names);
    ScalarsAreRead(s, t.scalars);
    assert NodeKeys(s1.nodes[i]) + names == Keys(t.scalars, names);
    hide NoRepeats, Keys, LinkedUp, LinkedDown, NodeKeys, Run, ScalarLines;
  }

  lemma PrefixKeys(scalars: seq<Scalar>, names: seq<string>)
    requires NoRepeats(Keys(scalars, names))
    ensures NoRepeats(Keys(scalars, []))
  {
    assert forall j :: 0 <= j < |scalars| ==> Keys(scalars, [])[j] == Keys(scalars, names)[j];
  }

  /** The next subsection is opened, read and complete. */
  lemma {:induction false} SectionIsRead(s: State, i: nat, t: Tree)
    requires Valid(s) && i < |s.nodes| && Under(s, i)
    requires WellFormed(t, s.nodes[i].depth + 1) && !HasKey(s.nodes[i], t.name)
    ensures var r := Run(s, [MarkerLine(t)] + Lines(t));
      && r.Ok? && ReadInto(s, r.value, i) && Subsections(r.value, i) == Subsections(s, i) + [t]
      && NodeKeys(r.value.nodes[i]) == NodeKeys(s.nodes[i]) + [t.name]
      && r.value.nodes[i].scalars == s.nodes[i].scalars
    decreases t, 2
  {
    var s1 := Opened(s, i, t.name);
    OpenedIsValid(s, i, t.name);
    MarkerIsRead(s, i, t);
    TreeIsRead(s1, t);
    var r := Run(s1, Lines(t)).value;
    SectionIsComplete(s, i, t, r);
    hide Valid, LinkedUp, LinkedDown, HasKey, NodeKeys, NoRepeats, ReadInto, Subtrees, ToTree;
    assert ([MarkerLine(t)] + Lines(t))[1..] == Lines(t);
  }

  lemma SectionIsComplete(s: State, i: nat, t: Tree, r: State)
    requires Valid(s) && i < |s.nodes|
    requires var s1 := Opened(s, i, t.name);
      Valid(s1) && ReadInto(s1, r, |s.nodes|) && ToTree(r.nodes, |s.nodes|, t.name) == t
    ensures ReadInto(s, r, i) && Subsections(r, i) == Subsections(s, i) + [t]
    ensures NodeKeys(r.nodes[i]) == NodeKeys(s.nodes[i]) + [t.name]
    ensures r.nodes[i].scalars == s.nodes[i].scalars
  {
    OpenedNodes(s, i, t.name, r);
    hide NoRepeats, Opened, SameBut, ReadInto, LinkedUp;
    var n := |s.nodes|;
    var k := |s.nodes[i].sections|;
    var c := Child(t.name, n);
    assert r.nodes[i].sections[..k] == s.nodes[i].sections;
    NamesGrow(s.nodes[i].sections, c);
    assert NodeKeys(r.nodes[i]) == NodeKeys(s.nodes[i]) + [t.name];
    hide NodeKeys, LinksDown;
    SubtreesFrame(s.nodes, r.nodes, i, k);
  }

  lemma OpenedNodes(s: State, i: nat, name: string, r: State)
    requires Valid(s) && i < |s.nodes|
    requires var s1 := Opened(s, i, name); Valid(s1) && ReadInto(s1, r, |s.nodes|)
    ensures ReadInto(s, r, i)
    ensures r.nodes[i].sections == s.nodes[i].sections + [Child(name, |s.nodes|)]
    ensures r.nodes[i].scalars == s.nodes[i].scalars
    ensures forall j :: i < j < |s.nodes| ==> s.nodes[j] == r.nodes[j]
  {
    OpenedChanges(s, i, name);
    UnderParent(r, |s.nodes|);
    hide Valid, Opened, Under, LinkedUp, LinkedDown;
    assert r.nodes[i] == Opened(s, i, name).nodes[i];
  }

  /** Below a subsection is below its parent. */
  lemma UnderParent(s: State, i: nat)
    requires Valid(s) && 0 < i < |s.nodes| && Under(s, i)
    ensures Under(s, s.nodes[i].parent)
  {
    hide LinkedDown, NoRepeats, NodeKeys;
    AncestorBelow(s.nodes, s.current, s.nodes[i].depth - 1);
  }

  lemma NamesGrow(sections: seq<Child>, c: Child)
    ensures Names(sections + [c]) == Names(sections) + [c.name]
  {
  }

  lemma {:induction false} SectionsAreRead(s: State, i: nat, rest: seq<Tree>)
    requires Valid(s) && i < |s.nodes| && Under(s, i)
    requires AllWellFormed(rest, s.nodes[i].depth + 1)
    requires NoRepeats(NodeKeys(s.nodes[i]) + TreeNames(rest))
    ensures var r := Run(s, SectionLines(rest));
      r.Ok? && ReadInto(s, r.value, i) && Subsections(r.value, i) == Subsections(s, i) + rest
      && r.value.nodes[i].scalars == s.nodes[i].scalars
    decreases rest, 3
  {
    hide *;
    if rest == [] {
      NothingIsRead(s, i);
    } else {
      AllWellFormedParts(rest, s.nodes[i].depth + 1);
      NextKeyIsNew(s, i, rest);
      SectionIsRead(s, i, rest[0]);
      var first := [MarkerLine(rest[0])] + Lines(rest[0]);
      var r := Run(s, first).value;
      ReadIntoMeans(s, r, i);
      SectionsAreRead(r, i, rest[1..]);
      var q := Run(r, SectionLines(rest[1..])).value;
      ReadFurther(s, r, q, i);
      RunConcat(s, first, SectionLines(rest[1..]));
      SectionLinesParts(rest);
      assert Subsections(s, i) + [rest[0]] + rest[1..] == Subsections(s, i) + rest;
    }
  }

  lemma AllWellFormedParts(sections: seq<Tree>, depth: nat)
    requires AllWellFormed(sections, depth) && sections != []
    ensures WellFormed(sections[0], depth) && AllWellFormed(sections[1..], depth)
  {
  }

  lemma ReadIntoMeans(s: State, r: State, i: nat)
    requires Valid(s) && i < |s.nodes| && ReadInto(s, r, i)
    ensures Valid(r) && i < |r.nodes| && r.nodes[i].depth == s.nodes[i].depth && Under(r, i)
  {
    hide Valid, Under;
  }

  lemma SectionLinesParts(sections: seq<Tree>)
    requires sections != []
    ensures SectionLines(sections) == [MarkerLine(sections[0])] + Lines(sections[0]) + SectionLines(sections[1..])
  {
  }

  lemma NothingIsRead(s: State, i: nat)
    requires Valid(s) && i < |s.nodes| && Under(s, i)
    ensures Run(s, SectionLines([])) == Ok(s) && ReadInto(s, s, i) && Subsections(s, i) + [] == Subsections(s, i)
  {
  }

  lemma NextKeyIsNew(s: State, i: nat, rest: seq<Tree>)
    requires i < |s.nodes| && rest != [] && NoRepeats(NodeKeys(s.nodes[i]) + TreeNames(rest))
    ensures !HasKey(s.nodes[i], rest[0].name)
    ensures NoRepeats(NodeKeys(s.nodes[i]) + [rest[0].name] + TreeNames(rest[1..]))
  {
    var keys, names := NodeKeys(s.nodes[i]), TreeNames(rest);
    assert keys + names == keys + [rest[0].name] + TreeNames(rest[1..]);
    assert (keys + names)[|keys|] == names[0];
    assert forall i :: 0 <= i < |keys| ==> (keys + names)[i] == keys[i];
  }

  /** A tree survives printing and parsing exactly when its depths are those of its nesting and no
      section has a key twice. */
  lemma PrintParse(t: Tree)
    ensures Parse(Lines(t)) == Ok(t) <==> WellFormed(t, 0) && t.name == ""
  {
    if WellFormed(t, 0) && t.name == "" {
      TreeIsRead(EMPTY, t);
    }
    if Parse(Lines(t)) == Ok(t) {
      ParseIsWellFormed(Lines(t));
    }
  }

  /** Printing what was parsed, and parsing that, changes nothing. */
  lemma ParsePrintParse(lines: seq<Line>)
    requires Parse(lines).Ok?
    ensures Parse(Lines(Parse(lines).value)) == Parse(lines)
  {
    ParseIsWellFormed(lines);
    PrintParse(Parse(lines).value);
  }
}
