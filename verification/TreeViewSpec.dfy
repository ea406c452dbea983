/** The rows of a tree view: the preorder listing of a forest under a set of open items. */
module TreeViewSpec {

  /** A row item. Its id is unique in the forest. */
  datatype Node = Node(id: string, level: nat, children: seq<Node>)

  function Ids(ns: seq<Node>): set<string>
    decreases ns
  {
    if ns == [] then {} else {ns[0].id} + Ids(ns[0].children) + Ids(ns[1..])
  }

  /** No id occurs twice. */
  predicate Distinct(ns: seq<Node>)
    decreases ns
  {
    ns == [] ||
    (&& ns[0].id !in Ids(ns[0].children) && ns[0].id !in Ids(ns[1..])
     && Ids(ns[0].children) !! Ids(ns[1..])
     && Distinct(ns[0].children) && Distinct(ns[1..]))
  }

  /** Siblings have the same level, children the next one. */
  predicate Leveled(ns: seq<Node>, level: nat)
    decreases ns
  {
    ns == [] || (ns[0].level == level && Leveled(ns[0].children, level + 1) && Leveled(ns[1..], level))
  }

  predicate IsForest(ns: seq<Node>) {
    Distinct(ns) && Leveled(ns, 0)
  }

  function Count(ns: seq<Node>): nat
    decreases ns
  {
    if ns == [] then 0 else 1 + Count(ns[0].children) + Count(ns[1..])
  }

  /** What the view shows: every item, followed by the rows of its children if it is open. */
  function Rows(ns: seq<Node>, open: set<string>): seq<Node>
    decreases ns
  {
    if ns == [] then []
    else [ns[0]] + (if ns[0].id in open then Rows(ns[0].children, open) else []) + Rows(ns[1..], open)
  }

  /** The rows below an item. */
  function Below(n: Node, open: set<string>): seq<Node> {
    if n.id in open then Rows(n.children, open) else []
  }

  /** The rows up to and including an item. */
  function Before(ns: seq<Node>, open: set<string>, i: nat): (head: seq<Node>)
    requires i < |Rows(ns, open)|
    ensures |head| == i + 1
    decreases ns
  {
    var below := Below(ns[0], open);
    if i == 0 then [ns[0]]
    else if i <= |below| then [ns[0]] + Before(ns[0].children, open, i - 1)
    else [ns[0]] + below + Before(ns[1..], open, i - 1 - |below|)
  }

  /** The rows after an item and all rows below it. */
  function After(ns: seq<Node>, open: set<string>, i: nat): (tail: seq<Node>)
    requires i < |Rows(ns, open)|
    decreases ns
  {
    var below := Below(ns[0], open);
    if i == 0 then Rows(ns[1..], open)
    else if i <= |below| then After(ns[0].children, open, i - 1) + Rows(ns[1..], open)
    else After(ns[1..], open, i - 1 - |below|)
  }

  /** The item in row `i` is not the last child of its parent. */
  predicate HasSibling(ns: seq<Node>, open: set<string>, i: nat)
    requires i < |Rows(ns, open)|
    decreases ns
  {
    var below := Below(ns[0], open);
    if i == 0 then |ns| > 1
    else if i <= |below| then HasSibling(ns[0].children, open, i - 1)
    else HasSibling(ns[1..], open, i - 1 - |below|)
  }

  /** Where row `i` comes from: the first item, the rows below it, or the rows of the rest. */
  lemma RowAt(ns: seq<Node>, open: set<string>, i: nat)
    requires i < |Rows(ns, open)|
    ensures ns != []
    ensures var rows, below, rest := Rows(ns, open), Below(ns[0], open), Rows(ns[1..], open);
            && rows == [ns[0]] + below + rest
            && rows[i] == (if i == 0 then ns[0] else if i <= |below| then below[i - 1] else rest[i - 1 - |below|])
            && (below != [] ==> ns[0].id in open && below == Rows(ns[0].children, open))
  {
  }

  lemma {:induction false} RowsConcat(a: seq<Node>, b: seq<Node>, open: set<string>)
    ensures Rows(a + b, open) == Rows(a, open) + Rows(b, open)
    decreases |a|
  {
    if a == [] {
      assert a + b == b;
    } else {
      assert (a + b)[0] == a[0] && (a + b)[1..] == a[1..] + b;
      RowsConcat(a[1..], b, open);
    }
  }

  lemma {:induction false} RowsAtMostCount(ns: seq<Node>, open: set<string>)
    ensures |Rows(ns, open)| <= Count(ns)
    decreases ns
  {
    if ns != [] {
      RowsAtMostCount(ns[0].children, open);
      RowsAtMostCount(ns[1..], open);
    }
  }

  /** Flags of items outside the forest do not matter. */
  lemma {:induction false} RowsOnlySee(ns: seq<Node>, open: set<string>, open': set<string>)
    requires open * Ids(ns) == open' * Ids(ns)
    ensures Rows(ns, open) == Rows(ns, open')
    decreases ns
  {
    if ns != [] {
      var c, r := ns[0].children, ns[1..];
      forall s: string | s in Ids(c) || s in Ids(r) || s == ns[0].id
        ensures s in open <==> s in open'
      {
        assert s in Ids(ns);
        if s in open { assert s in open * Ids(ns); }
        if s in open' { assert s in open' * Ids(ns); }
      }
      assert open * Ids(c) == open' * Ids(c);
      assert open * Ids(r) == open' * Ids(r);
      RowsOnlySee(c, open, open');
      RowsOnlySee(r, open, open');
    }
  }

  lemma {:induction false} RowsLeveled(ns: seq<Node>, open: set<string>, level: nat, i: nat)
    requires Leveled(ns, level) && i < |Rows(ns, open)|
    ensures Rows(ns, open)[i].level >= level
    ensures Leveled(Rows(ns, open)[i].children, Rows(ns, open)[i].level + 1)
    ensures i == 0 ==> Rows(ns, open)[i].level == level
    decreases ns
  {
    hide Rows;
    RowAt(ns, open, i);
    var below := Below(ns[0], open);
    if 0 < i <= |below| {
      RowsLeveled(ns[0].children, open, level + 1, i - 1);
    } else if i > |below| {
      RowsLeveled(ns[1..], open, level, i - 1 - |below|);
    }
  }

  /** Two sets of open items differ at most in one. */
  predicate SameBut(id: string, open: set<string>, open': set<string>) {
    open - {id} == open' - {id}
  }

  /** The listing falls into the rows up to an item, the rows below it and the rest. Opening or closing
      the item changes only the middle part. */
  ghost predicate Splits(ns: seq<Node>, open: set<string>, i: nat, open': set<string>, n: Node)
    requires i < |Rows(ns, open)|
  {
    && Rows(ns, open)[i] == n
    && Rows(ns, open) == Before(ns, open, i) + Below(n, open) + After(ns, open, i)
    && Rows(ns, open') == Before(ns, open, i) + Below(n, open') + After(ns, open, i)
  }

  lemma {:induction false} SplitAt(ns: seq<Node>, open: set<string>, i: nat, open': set<string>)
    requires Distinct(ns) && i < |Rows(ns, open)| && SameBut(Rows(ns, open)[i].id, open, open')
    ensures Splits(ns, open, i, open', Rows(ns, open)[i])
    decreases ns
  {
    hide Rows, Splits, SameBut;
    RowAt(ns, open, i);
    RowIdInIds(ns, open, i);
    var below := Below(ns[0], open);
    if i == 0 {
      SplitAtFirst(ns, open, open');
    } else if i <= |below| {
      SplitAt(ns[0].children, open, i - 1, open');
      RowIdInIds(ns[0].children, open, i - 1);
      SplitAtBelow(ns, open, i, open', below[i - 1]);
    } else {
      var k := i - 1 - |below|;
      SplitAt(ns[1..], open, k, open');
      RowIdInIds(ns[1..], open, k);
      SplitAtRest(ns, open, i, open', Rows(ns[1..], open)[k]);
    }
  }

  lemma SplitAtFirst(ns: seq<Node>, open: set<string>, open': set<string>)
    requires ns != [] && ns[0].id !in Ids(ns[1..]) && SameBut(ns[0].id, open, open')
    ensures |Rows(ns, open)| > 0 && Splits(ns, open, 0, open', ns[0])
  {
    SameOutside(ns[0].id, open, open', Ids(ns[1..]));
    RowsOnlySee(ns[1..], open, open');
  }

  lemma SplitAtBelow(ns: seq<Node>, open: set<string>, i: nat, open': set<string>, m: Node)
    requires ns != [] && 0 < i <= |Below(ns[0], open)| && i < |Rows(ns, open)|
    requires m.id != ns[0].id && m.id !in Ids(ns[1..]) && SameBut(m.id, open, open')
    requires Splits(ns[0].children, open, i - 1, open', m)
    ensures Splits(ns, open, i, open', m)
  {
    hide SameBut, Ids, Rows, Before, After;
    var n, rest := ns[0], Rows(ns[1..], open);
    SameElsewhere(m.id, open, open', n.id);
    SameOutside(m.id, open, open', Ids(ns[1..]));
    RowsOnlySee(ns[1..], open, open');
    RowAt(ns, open, i);
    RowsParts(ns, open');
    PartsBelow(ns, open, i);
    var before, after := Before(n.children, open, i - 1), After(n.children, open, i - 1);
    Regroup([n], before, Below(m, open), after, rest);
    Regroup([n], before, Below(m, open'), after, rest);
  }

  lemma SplitAtRest(ns: seq<Node>, open: set<string>, i: nat, open': set<string>, m: Node)
    requires ns != [] && |Below(ns[0], open)| < i < |Rows(ns, open)|
    requires m.id != ns[0].id && m.id !in Ids(ns[0].children) && SameBut(m.id, open, open')
    requires i - 1 - |Below(ns[0], open)| < |Rows(ns[1..], open)|
    requires Splits(ns[1..], open, i - 1 - |Below(ns[0], open)|, open', m)
    ensures Splits(ns, open, i, open', m)
  {
    hide SameBut, Ids, Rows, Before, After;
    var n := ns[0];
    var head, k := [n] + Below(n, open), i - 1 - |Below(n, open)|;
    SameElsewhere(m.id, open, open', n.id);
    SameOutside(m.id, open, open', Ids(n.children));
    RowsOnlySee(n.children, open, open');
    RowAt(ns, open, i);
    RowsParts(ns, open');
    PartsRest(ns, open, i);
    var before, after := Before(ns[1..], open, k), After(ns[1..], open, k);
    Prefix(head, before, Below(m, open), after);
    Prefix(head, before, Below(m, open'), after);
  }

  lemma RowsParts(ns: seq<Node>, open: set<string>)
    requires ns != []
    ensures Rows(ns, open) == [ns[0]] + Below(ns[0], open) + Rows(ns[1..], open)
  {
  }

  lemma PartsBelow(ns: seq<Node>, open: set<string>, i: nat)
    requires ns != [] && 0 < i <= |Below(ns[0], open)| && i < |Rows(ns, open)|
    ensures ns[0].id in open && i - 1 < |Rows(ns[0].children, open)|
    ensures Before(ns, open, i) == [ns[0]] + Before(ns[0].children, open, i - 1)
    ensures After(ns, open, i) == After(ns[0].children, open, i - 1) + Rows(ns[1..], open)
  {
  }

  lemma PartsRest(ns: seq<Node>, open: set<string>, i: nat)
    requires ns != [] && |Below(ns[0], open)| < i < |Rows(ns, open)|
    requires i - 1 - |Below(ns[0], open)| < |Rows(ns[1..], open)|
    ensures var k := i - 1 - |Below(ns[0], open)|;
            && Before(ns, open, i) == [ns[0]] + Below(ns[0], open) + Before(ns[1..], open, k)
            && After(ns, open, i) == After(ns[1..], open, k)
  {
  }

  lemma SameOutside(id: string, open: set<string>, open': set<string>, others: set<string>)
    requires SameBut(id, open, open') && id !in others
    ensures open * others == open' * others
  {
    forall s | s in others
      ensures s in open <==> s in open'
    {
      SameElsewhere(id, open, open', s);
    }
  }

  lemma SameElsewhere(id: string, open: set<string>, open': set<string>, s: string)
    requires SameBut(id, open, open') && s != id
    ensures s in open <==> s in open'
  {
    assert s in open <==> s in open - {id};
    assert s in open' <==> s in open' - {id};
  }

  lemma Prefix(a: seq<Node>, b: seq<Node>, c: seq<Node>, d: seq<Node>)
    ensures a + (b + c + d) == (a + b) + c + d
  {
  }

  lemma Regroup(a: seq<Node>, b: seq<Node>, c: seq<Node>, d: seq<Node>, e: seq<Node>)
    ensures a + (b + c + d) + e == (a + b) + c + (d + e)
  {
  }

  /** The first row after an item and the rows below it is not deeper than the item, and has the same
      level exactly if the item has a next sibling. */
  lemma {:induction false} LevelsAround(ns: seq<Node>, open: set<string>, level: nat, i: nat)
    requires Leveled(ns, level) && i < |Rows(ns, open)|
    ensures var n, after := Rows(ns, open)[i], After(ns, open, i);
            && n.level >= level
            && (after != [] ==> after[0].level <= n.level)
            && (HasSibling(ns, open, i) <==> after != [] && after[0].level == n.level)
    decreases ns
  {
    hide Rows, Before, After, HasSibling, Distinct, Ids;
    RowAt(ns, open, i);
    RowsLeveled(ns, open, level, i);
    var below, rest := Below(ns[0], open), Rows(ns[1..], open);
    FirstOfRest(ns, open, level);
    if i == 0 {
      SiblingFirst(ns, open);
    } else if i <= |below| {
      PartsBelow(ns, open, i);
      SiblingBelow(ns, open, i);
      LevelsAround(ns[0].children, open, level + 1, i - 1);
      var inner := After(ns[0].children, open, i - 1);
      if inner == [] { assert inner + rest == rest; } else { assert (inner + rest)[0] == inner[0]; }
    } else {
      PartsRest(ns, open, i);
      SiblingRest(ns, open, i);
      LevelsAround(ns[1..], open, level, i - 1 - |below|);
    }
  }

  lemma SiblingFirst(ns: seq<Node>, open: set<string>)
    requires |Rows(ns, open)| > 0
    ensures HasSibling(ns, open, 0) <==> |ns| > 1
    ensures After(ns, open, 0) == Rows(ns[1..], open)
  {
  }

  lemma SiblingBelow(ns: seq<Node>, open: set<string>, i: nat)
    requires ns != [] && 0 < i <= |Below(ns[0], open)| && i < |Rows(ns, open)|
    ensures i - 1 < |Rows(ns[0].children, open)|
    ensures HasSibling(ns, open, i) <==> HasSibling(ns[0].children, open, i - 1)
  {
  }

  lemma SiblingRest(ns: seq<Node>, open: set<string>, i: nat)
    requires ns != [] && |Below(ns[0], open)| < i < |Rows(ns, open)|
    requires i - 1 - |Below(ns[0], open)| < |Rows(ns[1..], open)|
    ensures HasSibling(ns, open, i) <==> HasSibling(ns[1..], open, i - 1 - |Below(ns[0], open)|)
  {
  }

  lemma FirstOfRest(ns: seq<Node>, open: set<string>, level: nat)
    requires ns != [] && Leveled(ns, level)
    ensures var rest := Rows(ns[1..], open);
            (rest != [] <==> |ns| > 1) && (rest != [] ==> rest[0].level == level)
  {
  }

  /** Different rows show different items. */
  lemma {:induction false} RowsDistinct(ns: seq<Node>, open: set<string>, i: nat, j: nat)
    requires Distinct(ns) && i < j < |Rows(ns, open)|
    ensures Rows(ns, open)[i].id != Rows(ns, open)[j].id
    decreases ns
  {
    hide Rows;
    RowAt(ns, open, i);
    RowAt(ns, open, j);
    var k := 1 + |Below(ns[0], open)|;
    if i < k {
      if 0 < i { RowIdInIds(ns[0].children, open, i - 1); }
      if j < k {
        RowIdInIds(ns[0].children, open, j - 1);
        if 0 < i { RowsDistinct(ns[0].children, open, i - 1, j - 1); }
      } else {
        RowIdInIds(ns[1..], open, j - k);
      }
    } else {
      RowsDistinct(ns[1..], open, i - k, j - k);
    }
  }

  lemma {:induction false} RowIdInIds(ns: seq<Node>, open: set<string>, i: nat)
    requires i < |Rows(ns, open)|
    ensures Rows(ns, open)[i].id in Ids(ns)
    decreases ns
  {
    hide Rows;
    RowAt(ns, open, i);
    var below := Below(ns[0], open);
    if 0 < i <= |below| { RowIdInIds(ns[0].children, open, i - 1); }
    else if i > |below| { RowIdInIds(ns[1..], open, i - 1 - |below|); }
  }

  /** If every container shown is open exactly when its id is in `wanted`, the listing is the one under
      `wanted`. */
  lemma {:induction false} RowsUnder(ns: seq<Node>, open: set<string>, wanted: set<string>)
    requires forall i :: 0 <= i < |Rows(ns, open)| && Rows(ns, open)[i].children != [] ==>
               (Rows(ns, open)[i].id in open <==> Rows(ns, open)[i].id in wanted)
    ensures Rows(ns, open) == Rows(ns, wanted)
    decreases ns
  {
    if ns != [] {
      var rows, below, rest := Rows(ns, open), Below(ns[0], open), Rows(ns[1..], open);
      assert rows[0] == ns[0];
      forall i | 0 <= i < |below| && below[i].children != []
        ensures below[i].id in open <==> below[i].id in wanted
      {
        assert rows[1 + i] == below[i];
      }
      forall i | 0 <= i < |rest| && rest[i].children != []
        ensures rest[i].id in open <==> rest[i].id in wanted
      {
        assert rows[1 + |below| + i] == rest[i];
      }
      if ns[0].id in open && ns[0].children != [] { RowsUnder(ns[0].children, open, wanted); }
      RowsUnder(ns[1..], open, wanted);
    }
  }
}
