/** PROTO_TREE_VIEW: the row array kept in step with the open flags of a forest. */
module TreeView {
  import opened Lists
  import opened TreeViewSpec

  /** The flag of `id` inverted. */
  function Flip(open: set<string>, id: string): set<string> {
    if id in open then open - {id} else open + {id}
  }

  /** The persist map after an item was opened. */
  function Persisted(s: seq<string>, id: string): seq<string> {
    if id in s then s else s + [id]
  }

  lemma PersistedMeans(s: seq<string>, id: string)
    ensures Persisted(s, id) == if id in s then s else s + [id]
  {
  }

  /** Opening and closing an item, or the other way round, restores all rows: the flags of items below
      it are kept while they are hidden. */
  lemma ToggleTwice(ns: seq<Node>, open: set<string>, i: nat)
    requires Distinct(ns) && i < |Rows(ns, open)|
    ensures var id := Rows(ns, open)[i].id;
            var once := Flip(open, id);
            && i < |Rows(ns, once)| && Rows(ns, once)[i] == Rows(ns, open)[i]
            && Rows(ns, Flip(once, Rows(ns, once)[i].id)) == Rows(ns, open)
  {
    hide Rows, Before, After;
    var n := Rows(ns, open)[i];
    var once := Flip(open, n.id);
    SplitAt(ns, open, i, once);
    var head := Before(ns, open, i);
    assert Rows(ns, open)[i] == head[i];
    assert Rows(ns, once)[i] == head[i];
    assert Flip(once, n.id) == open;
  }

  /** How many rows a toggle adds or removes, and which. */
  lemma ToggleChangesBelow(ns: seq<Node>, open: set<string>, i: nat)
    requires Distinct(ns) && i < |Rows(ns, open)|
    ensures var rows := Rows(ns, open);
            var n := rows[i];
            && i + 1 + |Below(n, open)| <= |rows|
            && (n.id in open ==> Rows(ns, Flip(open, n.id)) == rows[..i + 1] + rows[i + 1 + |Below(n, open)|..])
            && (n.id !in open ==> Rows(ns, Flip(open, n.id)) == rows[..i + 1] + Rows(n.children, open) + rows[i + 1..])
            && rows[i + 1..i + 1 + |Below(n, open)|] == Below(n, open)
            && rows[i + 1 + |Below(n, open)|..] == After(ns, open, i)
  {
    hide Rows, Before, After, Below, Distinct, SameBut, Flip, Ids;
    var n, open' := Rows(ns, open)[i], Flip(open, Rows(ns, open)[i].id);
    var head, after := Before(ns, open, i), After(ns, open, i);
    FlipChangesOne(open, n);
    SplitAt(ns, open, i, open');
    Slices(head, Below(n, open), after);
    Slices(head, Below(n, open'), after);
    ItemNotBelowItself(ns, open, i);
    if n.id in open {
      assert head + [] == head;
    } else {
      RowsOnlySee(n.children, open, open');
    }
  }

  /** What flipping one flag means for the rows below its item and for those elsewhere. */
  lemma FlipChangesOne(open: set<string>, n: Node)
    ensures var open' := Flip(open, n.id);
            && SameBut(n.id, open, open') && (n.id in open' <==> n.id !in open)
            && (n.id in open ==> Below(n, open') == [])
            && (n.id !in open ==> Below(n, open) == [] && Below(n, open') == Rows(n.children, open'))
            && (n.id !in Ids(n.children) ==> open * Ids(n.children) == open' * Ids(n.children))
  {
    hide Rows, Ids;
  }

  lemma Slices(a: seq<Node>, b: seq<Node>, c: seq<Node>)
    ensures var s := a + b + c; s[..|a|] == a && s[|a|..|a| + |b|] == b && s[|a| + |b|..] == c
  {
  }

  /** Opening an item inserts what is below it with the new flags. */
  lemma OpeningInserts(ns: seq<Node>, open: set<string>, i: nat)
    requires Distinct(ns) && i < |Rows(ns, open)|
    ensures var rows := Rows(ns, open);
            var n := rows[i];
            n.id !in open ==> Rows(ns, Flip(open, n.id)) == rows[..i + 1] + Below(n, Flip(open, n.id)) + rows[i + 1..]
  {
    hide Rows, Distinct;
    var n := Rows(ns, open)[i];
    ToggleChangesBelow(ns, open, i);
    ItemNotBelowItself(ns, open, i);
    if n.id !in open {
      RowsOnlySee(n.children, open, Flip(open, n.id)) by {
        assert open * Ids(n.children) == Flip(open, n.id) * Ids(n.children);
      }
    }
  }

  lemma {:induction false} ItemNotBelowItself(ns: seq<Node>, open: set<string>, i: nat)
    requires Distinct(ns) && i < |Rows(ns, open)|
    ensures Rows(ns, open)[i].id !in Ids(Rows(ns, open)[i].children)
    decreases ns
  {
    hide Rows;
    RowAt(ns, open, i);
    var below := Below(ns[0], open);
    if 0 < i <= |below| { ItemNotBelowItself(ns[0].children, open, i - 1); }
    else if i > |below| { ItemNotBelowItself(ns[1..], open, i - 1 - |below|); }
  }

  /** The persist map lists exactly the open ones of these items, once each. */
  ghost predicate MapInStep(persisted: seq<string>, open: set<string>, ids: set<string>) {
    NoRepeats(persisted) && forall id :: id in ids ==> (id in persisted <==> id in open)
  }

  /** The rows after a toggle, as its two branches make them. */
  lemma ToggledRows(ns: seq<Node>, open: set<string>, i: nat)
    requires IsForest(ns) && i < |Rows(ns, open)|
    ensures var rows := Rows(ns, open);
            var n := rows[i];
            var open', end := Flip(open, n.id), i + 1 + |Below(n, open)|;
            && end <= |rows| && i < |Rows(ns, open')| && Rows(ns, open')[..i + 1] == rows[..i + 1]
            && (n.id in open' <==> n.id !in open)
            && if n.id in open then Rows(ns, open') == rows[..i + 1] + rows[end..]
               else Rows(ns, open') == rows[..i + 1] + Below(n, open') + rows[i + 1..]
  {
    hide Rows, Below, Ids;
    ToggleChangesBelow(ns, open, i);
    FlipChangesOne(open, Rows(ns, open)[i]);
    OpeningInserts(ns, open, i);
  }

  class View {
    ghost const forest: seq<Node>
    var rowMap: seq<Node>
    var open: set<string>  // the _open flags of the items
    var persistOpenMap: seq<string>

    ghost predicate Valid()
      reads this
    {
      IsForest(forest) && rowMap == Rows(forest, open)
    }

    /** The persist map lists exactly the open items, once each. */
    ghost predicate InStep()
      reads this
    {
      MapInStep(persistOpenMap, open, Ids(forest))
    }

    /** A view whose rows were rebuilt from closed items. */
    constructor (forest: seq<Node>, persisted: seq<string>)
      requires IsForest(forest)
      ensures this.forest == forest && Valid() && open == {} && persistOpenMap == persisted
    {
      this.forest := forest;
      this.rowMap := forest;
      this.open := {};
      this.persistOpenMap := persisted;
      new;
      ClosedRows(forest);
    }

    /** recursivelyAddToMap: inserts the rows below an item that was just inserted at `newIndex`. */
    method RecursivelyAddToMap(child: Node, newIndex: nat) returns (added: nat)
      requires newIndex < |rowMap| && rowMap[newIndex] == child
      modifies this`rowMap
      ensures rowMap == old(rowMap)[..newIndex + 1] + Below(child, open) + old(rowMap)[newIndex + 1..]
      ensures added == |Below(child, open)|
      decreases child
    {
      hide Rows;
      var currentCount := |rowMap|;
      NothingInserted(rowMap, newIndex);
      if |child.children| > 0 && child.id in open {
        var children := rowMap[newIndex].children;
        var at := newIndex;
        ghost var head, tail := rowMap[..newIndex + 1], rowMap[newIndex + 1..];
        NoItems(open);
        assert children[..0] == [];
        for i := 0 to |children|
          invariant at == newIndex + |Rows(children[..i], open)| - i
          invariant rowMap == head + Rows(children[..i], open) + tail
        {
          var c := children[i];
          ghost var done := Rows(children[..i], open);
          var index := at + i + 1;
          rowMap := rowMap[..index] + [c] + rowMap[index..];
          assert rowMap == head + done + [c] + tail;
          assert rowMap[..index + 1] == head + done + [c] && rowMap[index + 1..] == tail;
          var more := RecursivelyAddToMap(c, index);
          at := at + more;
          assert children[..i + 1] == children[..i] + [c];
          RowsConcat(children[..i], [c], open);
          OneItem(c, open);
          assert head + done + [c] + Below(c, open) + tail == head + (done + ([c] + Below(c, open))) + tail;
        }
        assert children[..|children|] == children;
      } else if |child.children| == 0 {
        NoItems(open);
      }
      added := |rowMap| - currentCount;
    }

    /** toggleOpenState. Returns what the tree is told: the first row affected and the change of the row
        count. */
    method ToggleOpenState(index: nat) returns (at: nat, delta: int)
      requires Valid() && index < |rowMap|
      modifies this
      ensures Valid()
      ensures open == Flip(old(open), old(rowMap)[index].id)
      ensures var id, map_ := old(rowMap)[index].id, old(persistOpenMap);
        persistOpenMap == if id !in open then Without(map_, id) else if id in map_ then map_ else map_ + [id]
      ensures at == index + 1 && delta == |rowMap| - |old(rowMap)|
      ensures index < |rowMap| && rowMap[..index + 1] == old(rowMap)[..index + 1]
      ensures old(InStep()) ==> InStep()
    {
      ghost var was, rows, map_, n := open, rowMap, persistOpenMap, rowMap[index];
      assert IsForest(forest) && rows == Rows(forest, was);
      StepMeans();
      hide *;
      var id := rowMap[index].id;
      ToggledRows(forest, was, index);
      ToggleKeepsStep(map_, was, id, Ids(forest));
      open := Flip(open, id);
      if id !in open {
        var count: int;
        count := RemoveBelow(index, was);
        Unpersist(id);
        at, delta := index + 1, -count;
      } else {
        var oldCount := |rowMap|;
        var added := RecursivelyAddToMap(rowMap[index], index);
        Persist(id);
        at, delta := index + 1, |rowMap| - oldCount;
      }
      PersistedMeans(map_, id);
      NowValid();
      StepMeans();
    }

    lemma NowValid()
      requires IsForest(forest) && rowMap == Rows(forest, open)
      ensures Valid()
    {
    }

    lemma StepMeans()
      ensures InStep() <==> MapInStep(persistOpenMap, open, Ids(forest))
    {
    }

    method Persist(id: string)
      modifies this`persistOpenMap
      ensures persistOpenMap == Persisted(old(persistOpenMap), id)
    {
      if IndexOf(persistOpenMap, id) == -1 { persistOpenMap := persistOpenMap + [id]; }
    }

    method Unpersist(id: string)
      modifies this`persistOpenMap
      ensures persistOpenMap == Without(old(persistOpenMap), id)
    {
      var i := IndexOf(persistOpenMap, id);
      if i != -1 { persistOpenMap := persistOpenMap[..i] + persistOpenMap[i + 1..]; }
    }

    /** The closing branch: counts the rows that are deeper than the item and removes them. */
    method RemoveBelow(index: nat, ghost was: set<string>) returns (count: nat)
      requires IsForest(forest) && rowMap == Rows(forest, was) && index < |rowMap|
      modifies this`rowMap
      ensures var end := index + 1 + |Below(old(rowMap)[index], was)|;
              end <= |old(rowMap)| && rowMap == old(rowMap)[..index + 1] + old(rowMap)[end..]
      ensures count == |Below(old(rowMap)[index], was)|
    {
      hide Rows, After, HasSibling;
      BelowIsDeeper(forest, was, index);
      var level := rowMap[index].level;
      var row := index + 1;
      while row < |rowMap| && rowMap[row].level > level
        invariant index + 1 <= row <= index + 1 + |Below(rowMap[index], was)|
      {
        row := row + 1;
      }
      count := row - index - 1;
      rowMap := rowMap[..index + 1] + rowMap[index + 1 + count..];
    }

    /** hasNextSibling. `nextIndex` may be the item's own row or any row below it. */
    method HasNextSibling(index: nat, nextIndex: nat) returns (result: bool)
      requires Valid() && index < |rowMap|
      requires index <= nextIndex <= index + |Below(rowMap[index], open)|
      ensures result <==> HasSibling(forest, open, index)
    {
      hide Rows, After, HasSibling;
      BelowIsDeeper(forest, open, index);
      var targetLevel := rowMap[index].level;
      var i := nextIndex + 1;
      while i < |rowMap|
        invariant nextIndex < i
        invariant forall j :: nextIndex < j < i && j < |rowMap| ==> rowMap[j].level > targetLevel
        invariant i <= index + 1 + |Below(rowMap[index], open)|
      {
        if rowMap[i].level == targetLevel { return true; }
        if rowMap[i].level < targetLevel { return false; }
        i := i + 1;
      }
      result := false;
    }

    /** _restoreOpenStates. It inverts the flag of every persisted item it shows on the way, so the rows
        are those of the items that were either open or persisted, but not both. On closed items these
        are the persisted ones; on a view in step with its persist map everything is closed. */
    method RestoreOpenStates()
      requires Valid()
      modifies this
      ensures Valid() && (old(InStep()) ==> InStep())
      ensures rowMap == Rows(forest, OneOnly(old(open), Elements(old(persistOpenMap))))
      ensures Restored(rowMap, |rowMap|, open, old(open), old(persistOpenMap))
      ensures NoRepeats(old(persistOpenMap)) ==>
                PersistedAfter(rowMap, |rowMap|, persistOpenMap, old(open), old(persistOpenMap))
      ensures old(open) == {} ==>
                persistOpenMap == old(persistOpenMap) && rowMap == Rows(forest, Elements(persistOpenMap))
      ensures old(InStep()) ==> rowMap == forest && forall i :: 0 <= i < |forest| ==> forest[i].id !in open
    {
      StepMeans();
      hide *;
      ghost var start, persisted := open, persistOpenMap;
      StartOfRestoring();
      var i := 0;
      while i < |rowMap|
        invariant RestoredUpTo(i, start, persisted) && (old(InStep()) ==> InStep())
        decreases Count(forest) - i
      {
        ValidRows(i, start, persisted);
        RestoreRow(i, start, persisted);
        i := i + 1;
      }
      ValidRows(i, start, persisted);
      AllRestored(forest, open, start, persisted);
      if start == {} { AllPersisted(rowMap, persistOpenMap, persisted); }
      if old(InStep()) { InStepCloses(forest, open, start, persisted); }
    }

    /** Valid, with the first `i` rows restored. */
    ghost predicate RestoredUpTo(i: nat, start: set<string>, persisted: seq<string>)
      reads this
    {
      && Valid() && i <= |rowMap|
      && Restored(rowMap, i, open, start, persisted)
      && PersistedAfter(rowMap, i, persistOpenMap, start, persisted)
    }

    lemma StartOfRestoring()
      requires Valid()
      ensures RestoredUpTo(0, open, persistOpenMap)
    {
      NothingRestored(rowMap, open, persistOpenMap);
    }

    lemma ValidRows(i: nat, start: set<string>, persisted: seq<string>)
      requires RestoredUpTo(i, start, persisted)
      ensures Valid() && IsForest(forest) && rowMap == Rows(forest, open) && i <= |rowMap| <= Count(forest)
      ensures Restored(rowMap, i, open, start, persisted)
      ensures PersistedAfter(rowMap, i, persistOpenMap, start, persisted)
    {
      RowsAtMostCount(forest, open);
    }

    /** One turn of _restoreOpenStates. */
    method RestoreRow(i: nat, ghost start: set<string>, ghost persisted: seq<string>)
      requires RestoredUpTo(i, start, persisted) && i < |rowMap|
      modifies this
      ensures RestoredUpTo(i + 1, start, persisted) && (old(InStep()) ==> InStep())
    {
      hide Rows, IsForest, InStep, IndexOf, Restored, PersistedAfter, Flip, Persisted, Without;
      var id := rowMap[i].id;
      ghost var rows, was, map_ := rowMap, open, persistOpenMap;
      NotYetRestored(forest, was, map_, start, persisted, i);
      if IndexOf(persistOpenMap, id) != -1 {
        var _, _ := ToggleOpenState(i);
        PersistedMeans(map_, id);
        RestoredOneMore(rows, was, map_, rowMap, start, persisted, i);
      } else {
        KeptOneMore(rows, was, map_, start, persisted, i);
      }
    }
  }

  function Elements(s: seq<string>): set<string> {
    set x | x in s
  }

  /** What is in exactly one of two sets. */
  function OneOnly(a: set<string>, b: set<string>): set<string> {
    (a - b) + (b - a)
  }

  ghost predicate Shown(rows: seq<Node>, i: nat, id: string)
    requires i <= |rows|
  {
    exists j :: 0 <= j < i && rows[j].id == id
  }

  /** The flags after the first `i` rows: those of persisted items shown there are inverted. */
  ghost predicate Restored(rows: seq<Node>, i: nat, open: set<string>, start: set<string>, persisted: seq<string>)
    requires i <= |rows|
  {
    forall id :: id in open <==> if Shown(rows, i, id) && id in persisted then id !in start else id in start
  }

  /** The persist map after the first `i` rows: it has lost the items shown there that were open. */
  ghost predicate PersistedAfter(rows: seq<Node>, i: nat, now: seq<string>, start: set<string>, persisted: seq<string>)
    requires i <= |rows|
  {
    && (NoRepeats(persisted) ==> NoRepeats(now)) && (start == {} ==> now == persisted)
    && forall id :: NoRepeats(persisted) || !Shown(rows, i, id) ==>
         (id in now <==> id in persisted && !(Shown(rows, i, id) && id in start))
  }

  lemma NothingRestored(rows: seq<Node>, start: set<string>, persisted: seq<string>)
    ensures Restored(rows, 0, start, start, persisted) && PersistedAfter(rows, 0, persisted, start, persisted)
  {
  }

  lemma IdsBeforeDiffer(ns: seq<Node>, open: set<string>, i: nat)
    requires IsForest(ns) && i < |Rows(ns, open)|
    ensures !Shown(Rows(ns, open), i, Rows(ns, open)[i].id)
  {
    hide Rows;
    if j :| 0 <= j < i && Rows(ns, open)[j].id == Rows(ns, open)[i].id {
      RowsDistinct(ns, open, j, i);
    }
  }

  lemma NotYetRestored(ns: seq<Node>, open: set<string>, now: seq<string>, start: set<string>, persisted: seq<string>,
                       i: nat)
    requires IsForest(ns) && i < |Rows(ns, open)|
    requires Restored(Rows(ns, open), i, open, start, persisted)
    requires PersistedAfter(Rows(ns, open), i, now, start, persisted)
    ensures var rows := Rows(ns, open);
            var id := rows[i].id;
            !Shown(rows, i, id) && (id in open <==> id in start) && (id in now <==> id in persisted)
  {
    hide Rows, IsForest, Shown, NoRepeats;
    IdsBeforeDiffer(ns, open, i);
  }

  lemma ShownOneMore(before: seq<Node>, now: seq<Node>, i: nat, id: string)
    requires i < |before| && i < |now| && before[..i + 1] == now[..i + 1]
    ensures Shown(now, i + 1, id) <==> Shown(before, i, id) || id == before[i].id
  {
    forall j | 0 <= j <= i
      ensures before[j] == now[j]
    {
      assert before[..i + 1][j] == now[..i + 1][j];
    }
    if Shown(before, i, id) {
      var j :| 0 <= j < i && before[j].id == id;
      assert now[j].id == id;
    }
    assert now[i] == before[i];
  }

  lemma RestoredOneMore(before: seq<Node>, open: set<string>, map_: seq<string>, now: seq<Node>, start: set<string>,
                        persisted: seq<string>, i: nat)
    requires i < |before| && i < |now| && before[..i + 1] == now[..i + 1]
    requires Restored(before, i, open, start, persisted) && PersistedAfter(before, i, map_, start, persisted)
    requires var id := before[i].id;
             !Shown(before, i, id) && (id in open <==> id in start) && id in map_ && id in persisted
    ensures var id := before[i].id;
            var open' := Flip(open, id);
            && Restored(now, i + 1, open', start, persisted)
            && PersistedAfter(now, i + 1, if id in open' then Persisted(map_, id) else Without(map_, id), start,
                              persisted)
  {
    hide Shown, NoRepeats, IndexOf, Without;
    var id := before[i].id;
    forall x
      ensures Shown(now, i + 1, x) <==> Shown(before, i, x) || x == id
    {
      ShownOneMore(before, now, i, x);
    }
    WithoutOther(map_, id);
  }

  lemma KeptOneMore(rows: seq<Node>, open: set<string>, map_: seq<string>, start: set<string>, persisted: seq<string>,
                    i: nat)
    requires i < |rows| && rows[i].id !in map_ && rows[i].id !in persisted
    requires Restored(rows, i, open, start, persisted) && PersistedAfter(rows, i, map_, start, persisted)
    ensures Restored(rows, i + 1, open, start, persisted) && PersistedAfter(rows, i + 1, map_, start, persisted)
  {
    hide Shown, NoRepeats;
    forall x
      ensures Shown(rows, i + 1, x) <==> Shown(rows, i, x) || x == rows[i].id
    {
      ShownOneMore(rows, rows, i, x);
    }
  }

  lemma AllRestored(ns: seq<Node>, open: set<string>, start: set<string>, persisted: seq<string>)
    requires Restored(Rows(ns, open), |Rows(ns, open)|, open, start, persisted)
    ensures Rows(ns, open) == Rows(ns, OneOnly(start, Elements(persisted)))
  {
    hide Rows;
    var rows := Rows(ns, open);
    forall i | 0 <= i < |rows|
      ensures rows[i].id in open <==> rows[i].id in OneOnly(start, Elements(persisted))
    {
      assert Shown(rows, |rows|, rows[i].id);
    }
    RowsUnder(ns, open, OneOnly(start, Elements(persisted)));
  }

  lemma AllPersisted(rows: seq<Node>, now: seq<string>, persisted: seq<string>)
    requires PersistedAfter(rows, |rows|, now, {}, persisted)
    ensures now == persisted && OneOnly({}, Elements(persisted)) == Elements(persisted)
  {
  }

  /** Items that are open and persisted, or neither, end up closed. */
  lemma InStepCloses(ns: seq<Node>, open: set<string>, start: set<string>, persisted: seq<string>)
    requires Restored(Rows(ns, open), |Rows(ns, open)|, open, start, persisted)
    requires Rows(ns, open) == Rows(ns, OneOnly(start, Elements(persisted)))
    requires MapInStep(persisted, start, Ids(ns))
    ensures Rows(ns, open) == ns && forall i :: 0 <= i < |ns| ==> ns[i].id !in open
  {
    hide Rows, Ids, Restored;
    assert OneOnly(start, Elements(persisted)) * Ids(ns) == {} * Ids(ns);
    RowsOnlySee(ns, OneOnly(start, Elements(persisted)), {});
    ClosedRows(ns);
    forall i | 0 <= i < |ns|
      ensures ns[i].id !in open
    {
      RowIdInIds(ns, open, i);
      ShownFlag(ns, open, start, persisted, i);
    }
  }

  lemma ShownFlag(rows: seq<Node>, open: set<string>, start: set<string>, persisted: seq<string>, i: nat)
    requires Restored(rows, |rows|, open, start, persisted) && i < |rows|
    ensures rows[i].id in open <==> if rows[i].id in persisted then rows[i].id !in start else rows[i].id in start
  {
    assert Shown(rows, |rows|, rows[i].id);
  }

  /** Two sets of open items show the same rows exactly when they agree on the containers shown. */
  lemma SameRowsExactly(ns: seq<Node>, open: set<string>, open': set<string>)
    requires IsForest(ns)
    ensures var rows := Rows(ns, open');
            Rows(ns, open) == rows <==>
            forall i :: 0 <= i < |rows| && rows[i].children != [] ==> (rows[i].id in open <==> rows[i].id in open')
  {
    hide Rows;
    var rows := Rows(ns, open');
    if Rows(ns, open) == rows {
      forall i | 0 <= i < |rows| && rows[i].children != []
        ensures rows[i].id in open <==> rows[i].id in open'
      {
        BelowIsDeeper(ns, open, i);
        BelowIsDeeper(ns, open', i);
        ChildrenShown(rows[i].children, open);
        ChildrenShown(rows[i].children, open');
      }
    } else if forall i :: 0 <= i < |rows| && rows[i].children != [] ==> (rows[i].id in open <==> rows[i].id in open') {
      RowsUnder(ns, open', open);
    }
  }

  lemma ChildrenShown(ns: seq<Node>, open: set<string>)
    requires ns != []
    ensures Rows(ns, open) != []
  {
  }

  /** Restoring shows the rows of the persisted items exactly when none of the containers shown there was
      open before. */
  lemma RestoresPersistedExactly(ns: seq<Node>, start: set<string>, persisted: seq<string>)
    requires IsForest(ns)
    ensures var rows := Rows(ns, Elements(persisted));
            Rows(ns, OneOnly(start, Elements(persisted))) == rows <==>
            forall i :: 0 <= i < |rows| && rows[i].children != [] ==> rows[i].id !in start
  {
    hide Rows, IsForest, Elements;
    SameRowsExactly(ns, OneOnly(start, Elements(persisted)), Elements(persisted));
  }

  /** Removing the first occurrence of an id leaves the others. */
  lemma WithoutOther(s: seq<string>, id: string)
    ensures forall x :: x != id ==> (x in Without(s, id) <==> x in s)
    ensures NoRepeats(s) ==> NoRepeats(Without(s, id)) && id !in Without(s, id)
  {
    hide *;
    RemovedOne(s, id);
    if NoRepeats(s) { RemovedOnce(s, id); }
  }

  lemma RemovedOne(s: seq<string>, id: string)
    ensures forall x :: x != id ==> (x in Without(s, id) <==> x in s)
  {
    hide IndexOf;
    var i := IndexOf(s, id);
    if i != -1 { SplitMembers(s, i); }
  }

  lemma SplitMembers(s: seq<string>, i: nat)
    requires i < |s|
    ensures forall x :: x in s <==> x in RemoveAt(s, i) || x == s[i]
  {
    assert s == s[..i] + [s[i]] + s[i + 1..];
  }

  /** Updating the persist map keeps it in step with the flags, if it was. */
  lemma ToggleKeepsStep(s: seq<string>, open: set<string>, id: string, ids: set<string>)
    ensures var open' := Flip(open, id);
            var s' := if id in open' then Persisted(s, id) else Without(s, id);
            MapInStep(s, open, ids) ==> MapInStep(s', open', ids)
  {
    if MapInStep(s, open, ids) && id !in Flip(open, id) { RemovedOnce(s, id); }
  }

  lemma RemovedOnce(s: seq<string>, id: string)
    requires NoRepeats(s)
    ensures var s' := Without(s, id);
            NoRepeats(s') && forall x :: x in s' <==> x in s && x != id
  {
    var i := IndexOf(s, id);
    if i != -1 { RemoveMembers(s, i); }
  }

  lemma ClosedRows(ns: seq<Node>)
    ensures Rows(ns, {}) == ns
    decreases ns
  {
    if ns != [] { ClosedRows(ns[1..]); }
  }

  lemma NoItems(open: set<string>)
    ensures Rows([], open) == []
  {
  }

  lemma NothingInserted(rows: seq<Node>, i: nat)
    requires i < |rows|
    ensures rows[..i + 1] + [] + rows[i + 1..] == rows
  {
  }

  lemma OneItem(c: Node, open: set<string>)
    ensures Rows([c], open) == [c] + Below(c, open)
  {
    assert [c][1..] == [];
  }

  /** What the closing loop relies on: exactly the rows below an item follow it with a deeper level. */
  lemma BelowIsDeeper(ns: seq<Node>, open: set<string>, i: nat)
    requires IsForest(ns) && i < |Rows(ns, open)|
    ensures var rows := Rows(ns, open);
            var end := i + 1 + |Below(rows[i], open)|;
            && end <= |rows|
            && (forall j :: i < j < end ==> rows[j].level > rows[i].level)
            && (end < |rows| ==> rows[end].level <= rows[i].level)
            && (HasSibling(ns, open, i) <==> end < |rows| && rows[end].level == rows[i].level)
  {
    hide Rows, After;
    var rows := Rows(ns, open);
    var n := rows[i];
    var end := i + 1 + |Below(n, open)|;
    ToggleChangesBelow(ns, open, i);
    LevelsAround(ns, open, 0, i);
    RowsLeveled(ns, open, 0, i);
    forall j | i < j < end
      ensures rows[j].level > n.level
    {
      assert rows[j] == rows[i + 1..end][j - i - 1];
      RowsLeveled(n.children, open, n.level + 1, j - i - 1);
    }
  }
}
