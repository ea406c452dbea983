/** Which items a tree view shows and where, told by their places in the forest: an item is shown exactly
    if all items above it are open, and items come in the order of their places. */
module TreeViewOrder {
  import opened Wrappers
  import opened TreeViewSpec

  /** The place of an item: the position of its root, of its child in there, and so on. */
  type Place = seq<nat>

  function NodeAt(ns: seq<Node>, p: Place): Option<Node>
    decreases |p|
  {
    if p == [] || p[0] >= |ns| then None
    else if |p| == 1 then Some(ns[p[0]])
    else NodeAt(ns[p[0]].children, p[1..])
  }

  /** There is an item at this place, and all items above it are open. */
  predicate Visible(ns: seq<Node>, open: set<string>, p: Place) {
    && NodeAt(ns, p).Some?
    && forall k :: 0 < k < |p| ==> NodeAt(ns, p[..k]).Some? && NodeAt(ns, p[..k]).value.id in open
  }

  /** An item comes before those below it; otherwise the first difference decides. */
  predicate Precedes(p: Place, q: Place)
    decreases |p|
  {
    if p == [] then q != []
    else q != [] && (p[0] < q[0] || (p[0] == q[0] && Precedes(p[1..], q[1..])))
  }

  // ----- The places of the rows

  function Deeper(ps: seq<Place>): (r: seq<Place>)
    ensures |r| == |ps| && forall i :: 0 <= i < |ps| ==> r[i] == [0] + ps[i]
  {
    seq(|ps|, i requires 0 <= i < |ps| => [0] + ps[i])
  }

  function Next(p: Place): Place {
    if p == [] then [] else [p[0] + 1] + p[1..]
  }

  function Later(ps: seq<Place>): (r: seq<Place>)
    ensures |r| == |ps| && forall i :: 0 <= i < |ps| ==> r[i] == Next(ps[i])
  {
    seq(|ps|, i requires 0 <= i < |ps| => Next(ps[i]))
  }

  function Places(ns: seq<Node>, open: set<string>): seq<Place>
    decreases ns
  {
    if ns == [] then []
    else
      [[0]] + (if ns[0].id in open then Deeper(Places(ns[0].children, open)) else []) + Later(Places(ns[1..], open))
  }

  // ----- Visible, one level at a time

  lemma VisibleUnfolds(ns: seq<Node>, open: set<string>, p: Place)
    ensures Visible(ns, open, p) <==>
      p != [] && p[0] < |ns|
      && (|p| == 1 || (ns[p[0]].id in open && Visible(ns[p[0]].children, open, p[1..])))
  {
    if |p| > 1 && p[0] < |ns| {
      var c := ns[p[0]].children;
      assert p[..1] == [p[0]];
      forall k | 1 < k < |p|
        ensures NodeAt(ns, p[..k]) == NodeAt(c, p[1..][..k - 1])
      {
        assert p[..k][1..] == p[1..][..k - 1];
      }
      if Visible(ns, open, p) {
        forall k | 0 < k < |p[1..]|
          ensures NodeAt(c, p[1..][..k]).Some? && NodeAt(c, p[1..][..k]).value.id in open
        {
          assert NodeAt(ns, p[..k + 1]) == NodeAt(c, p[1..][..k]);
        }
      }
    }
  }

  lemma NextIsLater(ns: seq<Node>, open: set<string>, p: Place)
    requires ns != []
    ensures Visible(ns[1..], open, p) <==> p != [] && Visible(ns, open, Next(p))
    ensures NodeAt(ns[1..], p) == if p == [] then None else NodeAt(ns, Next(p))
  {
    hide Visible;
    VisibleUnfolds(ns[1..], open, p);
    if p != [] {
      VisibleUnfolds(ns, open, Next(p));
      assert Next(p)[1..] == p[1..];
    }
  }

  // ----- The rows

  function PlacesBelow(n: Node, open: set<string>): seq<Place> {
    if n.id in open then Places(n.children, open) else []
  }

  lemma {:induction false} AsManyPlaces(ns: seq<Node>, open: set<string>)
    ensures |Places(ns, open)| == |Rows(ns, open)|
    decreases ns
  {
    if ns != [] {
      AsManyPlaces(ns[0].children, open);
      AsManyPlaces(ns[1..], open);
    }
  }

  lemma PlaceOfRow(ns: seq<Node>, open: set<string>, i: nat)
    requires i < |Places(ns, open)|
    ensures ns != []
    ensures var below, rest := PlacesBelow(ns[0], open), Places(ns[1..], open);
            Places(ns, open)[i] ==
            if i == 0 then [0] else if i <= |below| then [0] + below[i - 1] else Next(rest[i - 1 - |below|])
    ensures |Places(ns, open)| == 1 + |PlacesBelow(ns[0], open)| + |Places(ns[1..], open)|
  {
  }

  /** Every row has a visible place. */
  lemma {:induction false} PlaceIsVisible(ns: seq<Node>, open: set<string>, i: nat)
    requires i < |Rows(ns, open)|
    ensures |Places(ns, open)| == |Rows(ns, open)|
    ensures var p := Places(ns, open)[i];
            p != [] && NodeAt(ns, p) == Some(Rows(ns, open)[i]) && Visible(ns, open, p)
    decreases ns
  {
    hide Visible, Places, Rows, Next, NodeAt;
    AsManyPlaces(ns, open);
    PlaceOfRow(ns, open, i);
    RowAt(ns, open, i);
    var below, rest := PlacesBelow(ns[0], open), Places(ns[1..], open);
    AsManyPlaces(ns[0].children, open);
    if i == 0 {
      FirstPlace(ns, open);
    } else if i <= |below| {
      PlaceIsVisible(ns[0].children, open, i - 1);
      BelowFirst(ns, open, below[i - 1]);
    } else {
      PlaceIsVisible(ns[1..], open, i - 1 - |below|);
      NextIsLater(ns, open, rest[i - 1 - |below|]);
      NextNotEmpty(rest[i - 1 - |below|]);
    }
  }

  lemma FirstPlace(ns: seq<Node>, open: set<string>)
    requires ns != []
    ensures NodeAt(ns, [0]) == Some(ns[0]) && Visible(ns, open, [0])
  {
  }

  lemma BelowFirst(ns: seq<Node>, open: set<string>, p: Place)
    requires ns != [] && p != []
    ensures NodeAt(ns, [0] + p) == NodeAt(ns[0].children, p)
    ensures Visible(ns, open, [0] + p) <==> ns[0].id in open && Visible(ns[0].children, open, p)
  {
    hide Visible;
    assert ([0] + p)[1..] == p;
    VisibleUnfolds(ns, open, [0] + p);
  }

  lemma NextNotEmpty(p: Place)
    requires p != []
    ensures Next(p) != []
  {
  }

  /** Every visible place has a row. */
  lemma {:induction false} VisibleHasRow(ns: seq<Node>, open: set<string>, p: Place) returns (i: nat)
    requires Visible(ns, open, p)
    ensures i < |Places(ns, open)| && Places(ns, open)[i] == p
    decreases ns
  {
    hide Visible, Places, NodeAt;
    VisibleUnfolds(ns, open, p);
    NotNothing(ns, open);
    if p[0] > 0 {
      var q := [p[0] - 1] + p[1..];
      assert q[1..] == p[1..] && Next(q) == p;
      NextIsLater(ns, open, q);
      i := VisibleHasRow(ns[1..], open, q);
      i := 1 + |PlacesBelow(ns[0], open)| + i;
      PlaceOfRow(ns, open, i);
    } else if |p| > 1 {
      i := VisibleHasRow(ns[0].children, open, p[1..]);
      i := i + 1;
      PlaceOfRow(ns, open, i);
      assert [0] + p[1..] == p;
    } else {
      i := 0;
      PlaceOfRow(ns, open, 0);
    }
  }

  lemma NotNothing(ns: seq<Node>, open: set<string>)
    requires ns != []
    ensures |Places(ns, open)| == 1 + |PlacesBelow(ns[0], open)| + |Places(ns[1..], open)|
  {
  }

  lemma PrecedesDeeper(p: Place, q: Place)
    ensures Precedes([0] + p, [0] + q) <==> Precedes(p, q)
    ensures p != [] ==> Precedes([0], [0] + p)
  {
    assert ([0] + p)[1..] == p && ([0] + q)[1..] == q && [0][1..] == [];
  }

  lemma PrecedesNext(p: Place, q: Place)
    requires p != [] && q != []
    ensures Precedes(Next(p), Next(q)) <==> Precedes(p, q)
    ensures Precedes([0] + p, Next(q)) && Precedes([0], Next(q))
  {
    assert Next(p)[1..] == p[1..] && Next(q)[1..] == q[1..];
  }

  lemma {:induction false} PlacesInOrder(ns: seq<Node>, open: set<string>, i: nat, j: nat)
    requires i < j < |Places(ns, open)|
    ensures Precedes(Places(ns, open)[i], Places(ns, open)[j])
    decreases ns
  {
    hide Visible, Places, Rows, Precedes, Next, NodeAt;
    PlaceOfRow(ns, open, i);
    PlaceOfRow(ns, open, j);
    var below, rest := PlacesBelow(ns[0], open), Places(ns[1..], open);
    AsManyPlaces(ns[0].children, open);
    AsManyPlaces(ns[1..], open);
    var m := 1 + |below|;
    if j < m {
      if i == 0 {
        PlaceIsVisible(ns[0].children, open, j - 1);
        PrecedesDeeper(below[j - 1], []);
      } else {
        PlacesInOrder(ns[0].children, open, i - 1, j - 1);
        PrecedesDeeper(below[i - 1], below[j - 1]);
      }
    } else if i >= m {
      PlacesInOrder(ns[1..], open, i - m, j - m);
      LaterInOrder(ns[1..], open, i - m, j - m);
    } else {
      PlaceIsVisible(ns[1..], open, j - m);
      if i > 0 { PlaceIsVisible(ns[0].children, open, i - 1); }
      PrecedesNext(if i == 0 then [0] else below[i - 1], rest[j - m]);
    }
  }

  lemma LaterInOrder(ns: seq<Node>, open: set<string>, i: nat, j: nat)
    requires i < j < |Places(ns, open)| == |Rows(ns, open)| && Precedes(Places(ns, open)[i], Places(ns, open)[j])
    ensures Precedes(Next(Places(ns, open)[i]), Next(Places(ns, open)[j]))
  {
    hide Visible, Places, Rows, Precedes, Next, NodeAt;
    PlaceIsVisible(ns, open, i);
    PlaceIsVisible(ns, open, j);
    PrecedesNext(Places(ns, open)[i], Places(ns, open)[j]);
  }

  /** The rows are exactly the visible items, in the order of their places. */
  lemma RowsExactly(ns: seq<Node>, open: set<string>) returns (ps: seq<Place>)
    ensures |ps| == |Rows(ns, open)|
    ensures forall i :: 0 <= i < |ps| ==> NodeAt(ns, ps[i]) == Some(Rows(ns, open)[i])
    ensures forall p :: p in ps <==> Visible(ns, open, p)
    ensures forall i, j :: 0 <= i < j < |ps| ==> Precedes(ps[i], ps[j])
  {
    hide Rows, Places, Visible, NodeAt, Precedes;
    ps := Places(ns, open);
    AsManyPlaces(ns, open);
    forall i | 0 <= i < |ps|
      ensures NodeAt(ns, ps[i]) == Some(Rows(ns, open)[i]) && Visible(ns, open, ps[i])
    {
      PlaceIsVisible(ns, open, i);
    }
    forall p | Visible(ns, open, p)
      ensures p in ps
    {
      var i := VisibleHasRow(ns, open, p);
    }
    forall i, j | 0 <= i < j < |ps|
      ensures Precedes(ps[i], ps[j])
    {
      PlacesInOrder(ns, open, i, j);
    }
  }

  // ----- Siblings

  /** The place of the next child of the same parent. */
  function Beside(p: Place): (q: Place)
    requires p != []
    ensures q != []
  {
    p[..|p| - 1] + [p[|p| - 1] + 1]
  }

  lemma BesideDeeper(p: Place)
    requires p != []
    ensures Beside([0] + p) == [0] + Beside(p)
  {
    assert ([0] + p)[..|p|] == [0] + p[..|p| - 1];
  }

  lemma BesideNext(p: Place)
    requires p != []
    ensures Next(p) != [] && Beside(Next(p)) == Next(Beside(p))
  {
    if |p| > 1 {
      EndsOf(p);
      NextOf(p[0], p[1..|p| - 1], p[|p| - 1]);
      NextOf(p[0], p[1..|p| - 1], p[|p| - 1] + 1);
      BesideOf([p[0] + 1] + p[1..|p| - 1], p[|p| - 1]);
      BesideOf([p[0]] + p[1..|p| - 1], p[|p| - 1]);
      hide Next, Beside;
    }
  }

  lemma EndsOf(p: Place)
    requires |p| > 1
    ensures p == [p[0]] + p[1..|p| - 1] + [p[|p| - 1]]
  {
  }

  lemma NextOf(a: nat, m: Place, z: nat)
    ensures Next([a] + m + [z]) == [a + 1] + m + [z]
  {
    assert ([a] + m + [z])[1..] == m + [z];
  }

  lemma BesideOf(p: Place, z: nat)
    ensures Beside(p + [z]) == p + [z + 1]
  {
  }

  /** An item has a next sibling exactly if there is an item at the place beside its own. */
  lemma {:induction false} SiblingExactly(ns: seq<Node>, open: set<string>, i: nat)
    requires i < |Rows(ns, open)|
    ensures |Places(ns, open)| == |Rows(ns, open)| && Places(ns, open)[i] != []
    ensures HasSibling(ns, open, i) <==> NodeAt(ns, Beside(Places(ns, open)[i])).Some?
    decreases ns
  {
    hide Places, Rows, HasSibling, Beside, Next, Visible, NodeAt;
    AsManyPlaces(ns, open);
    PlaceOfRow(ns, open, i);
    RowAt(ns, open, i);
    var below, rest := PlacesBelow(ns[0], open), Places(ns[1..], open);
    AsManyPlaces(ns[0].children, open);
    if i == 0 {
      SiblingFirst(ns, open);
      BesideFirst(ns);
    } else if i <= |below| {
      SiblingBelow(ns, open, i);
      SiblingExactly(ns[0].children, open, i - 1);
      BesideDeeper(below[i - 1]);
      BelowFirst(ns, open, Beside(below[i - 1]));
    } else {
      var k := i - 1 - |below|;
      SiblingRest(ns, open, i);
      SiblingExactly(ns[1..], open, k);
      BesideNext(rest[k]);
      NextIsLater(ns, open, Beside(rest[k]));
    }
  }

  lemma BesideFirst(ns: seq<Node>)
    ensures NodeAt(ns, Beside([0])).Some? <==> |ns| > 1
  {
  }
}
