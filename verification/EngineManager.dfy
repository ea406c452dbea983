/** The search-engine manager's store: clones of the service's engines in an array spliced in place,
    and the operations that `commit` carries out. */
module EngineManager {
  import opened EngineLog
  import opened Lists

  datatype Status = Done | InvalidIndex | InvalidEngine

  /** A clone of an engine. Two clones of the same engine are different objects. */
  class EngineClone {
    const originalEngine: Engine
    const name: string

    constructor (originalEngine: Engine, name: string)
      ensures this.originalEngine == originalEngine && this.name == name
    {
      this.originalEngine := originalEngine;
      this.name := name;
    }
  }

  function Originals(clones: seq<EngineClone>): (engines: seq<Engine>)
    ensures |engines| == |clones|
  {
    seq(|clones|, i requires 0 <= i < |clones| => clones[i].originalEngine)
  }

  predicate FirstNamed(clones: seq<EngineClone>, name: string, k: nat)
    requires k < |clones|
  {
    clones[k].name == name && forall j :: 0 <= j < k ==> clones[j].name != name
  }

  /** Two engines have the same name only if they are the same engine. */
  predicate NamesAgree(clones: seq<EngineClone>) {
    forall a, b :: a in clones && b in clones ==> (a.name == b.name <==> a.originalEngine == b.originalEngine)
  }

  /** The part of the search service the manager writes to: its visible engines, and the current one. */
  class SearchService {
    var visible: seq<Engine>
    var current: Engine

    constructor (visible: seq<Engine>, current: Engine)
      ensures this.visible == visible && this.current == current
    {
      this.visible := visible;
      this.current := current;
    }

    method MoveEngine(e: Engine, newIndex: nat)
      requires Applicable(Move(e, newIndex), visible)
      modifies this`visible
      ensures visible == Apply(Move(e, newIndex), old(visible))
    {
      var k := IndexOf(visible, e);
      visible := visible[..k] + visible[k + 1..];
      visible := visible[..newIndex] + [e] + visible[newIndex..];
    }

    /** When the current engine goes, some other engine becomes current. */
    method RemoveEngine(e: Engine)
      requires Applicable(Op.Remove(e), visible)
      modifies this
      ensures visible == Apply(Op.Remove(e), old(visible))
      ensures old(current) != e ==> current == old(current)
    {
      var k := IndexOf(visible, e);
      visible := visible[..k] + visible[k + 1..];
      if current == e {
        current := *;
      }
    }

    /** Clears an engine's hidden mark: it becomes visible wherever the service kept it. */
    method Show(e: Engine) returns (ghost at: nat)
      modifies this`visible
      ensures at <= |old(visible)| && visible == InsertAt(old(visible), at, e)
    {
      var position: nat :| position <= |visible|;
      visible := visible[..position] + [e] + visible[position..];
      at := position;
    }

    /** Carries out one recorded operation. */
    method Commit(op: Op)
      requires Applicable(op, visible)
      modifies this
      ensures visible == Apply(op, old(visible))
      ensures op != Op.Remove(old(current)) ==> current == old(current)
    {
      match op
      case Move(e, p) => MoveEngine(e, p);
      case Remove(e) => RemoveEngine(e);
      case Unhide(e, p) =>
        ghost var before := visible;
        ghost var at := Show(e);
        ShowThenMove(before, e, at, p);
        MoveEngine(e, p);
    }
  }

  // ----- Editing the clones edits the engines

  lemma OriginalsOfRemoved(clones: seq<EngineClone>, k: nat)
    requires k < |clones|
    ensures Originals(RemoveAt(clones, k)) == RemoveAt(Originals(clones), k)
  {
  }

  lemma OriginalsOfInserted(clones: seq<EngineClone>, k: nat, e: EngineClone)
    requires k <= |clones|
    ensures Originals(InsertAt(clones, k, e)) == InsertAt(Originals(clones), k, e.originalEngine)
  {
  }

  lemma OriginalAt(clones: seq<EngineClone>, i: nat)
    requires i < |clones|
    ensures Originals(clones)[i] == clones[i].originalEngine
  {
  }

  lemma CloneIsOriginal(clones: seq<EngineClone>, e: EngineClone)
    requires e in clones
    ensures e.originalEngine in Originals(clones)
  {
    var i :| 0 <= i < |clones| && clones[i] == e;
    assert Originals(clones)[i] == e.originalEngine;
  }

  /** Looking for a clone and looking for its engine find the same place. */
  lemma SameIndex(clones: seq<EngineClone>, e: EngineClone)
    requires NoRepeats(Originals(clones)) && e in clones
    ensures e.originalEngine in Originals(clones)
    ensures IndexOf(clones, e) == IndexOf(Originals(clones), e.originalEngine)
  {
    CloneIsOriginal(clones, e);
    var i, j := IndexOf(clones, e), IndexOf(Originals(clones), e.originalEngine);
    assert Originals(clones)[i] == Originals(clones)[j];
  }

  lemma NamesOfFewer(a: seq<EngineClone>, b: seq<EngineClone>)
    requires NamesAgree(a) && forall e :: e in b ==> e in a
    ensures NamesAgree(b)
  {
  }

  /** The log agrees with the list, names tell engines apart, and whenever a default engine is missing
      the user can ask for it. */
  ghost predicate Sound(engines: seq<EngineClone>, defaults: seq<EngineClone>, ops: seq<Op>, base: seq<Engine>,
                        canRestore: bool) {
    && Consistent(Store(Originals(engines), ops, base), Originals(defaults)) && NoRepeats(Originals(defaults))
    && NamesAgree(engines + defaults)
    && (Missing(engines, defaults) ==> canRestore)
  }

  /** Some default engine is not in the list. */
  predicate Missing(engines: seq<EngineClone>, defaults: seq<EngineClone>) {
    exists e :: e in Originals(defaults) && e !in Originals(engines)
  }

  lemma MoveIsSound(engines: seq<EngineClone>, defaults: seq<EngineClone>, ops: seq<Op>, base: seq<Engine>,
                    canRestore: bool,
                    e: EngineClone, newIndex: nat)
    requires Sound(engines, defaults, ops, base, canRestore) && e in engines && newIndex < |engines|
    ensures var k := IndexOf(engines, e);
      var moved := InsertAt(RemoveAt(engines, k), newIndex, e);
      var op := Move(e.originalEngine, newIndex);
      && e.originalEngine in Originals(engines) && k == IndexOf(Originals(engines), e.originalEngine)
      && Sound(moved, defaults, ops + [op], base, canRestore)
      && Store(Originals(moved), ops + [op], base) == Do(Store(Originals(engines), ops, base), op)
      && multiset(moved) == multiset(engines)
  {
    var s := Store(Originals(engines), ops, base);
    SameIndex(engines, e);
    var k := IndexOf(engines, e);
    var rest := RemoveAt(engines, k);
    var moved := InsertAt(rest, newIndex, e);
    OriginalsOfRemoved(engines, k);
    OriginalsOfInserted(rest, newIndex, e);
    RemovedBag(engines, k);
    InsertedBag(rest, newIndex, e);
    MovedMembers(s.engines, e.originalEngine, newIndex);
    OpIsSound(s, Move(e.originalEngine, newIndex), Originals(defaults));
    forall x | x in moved + defaults ensures x in engines + defaults { InBag(engines, moved, defaults, x); }
    NamesOfFewer(engines + defaults, moved + defaults);
    hide Consistent, Originals, NoRepeats, NamesAgree, IndexOf, RemoveAt, InsertAt;
  }

  lemma MovedMembers(v: seq<Engine>, e: Engine, p: nat)
    requires NoRepeats(v) && e in v && p < |v|
    ensures forall x :: x in v ==> x in Apply(Move(e, p), v)
  {
    var k := IndexOf(v, e);
    RemoveMembers(v, k);
    InsertMembers(RemoveAt(v, k), p, e);
  }

  lemma OpIsSound(s: Store, op: Op, defaults: seq<Engine>)
    requires Consistent(s, defaults) && Applicable(op, s.engines) && (op.Unhide? ==> op.engine in defaults)
    ensures Consistent(Do(s, op), defaults)
  {
    DoKeeps(s, op, defaults);
  }

  lemma RemoveIsSound(engines: seq<EngineClone>, defaults: seq<EngineClone>, ops: seq<Op>, base: seq<Engine>,
                      canRestore: bool,
                      e: EngineClone)
    requires Sound(engines, defaults, ops, base, canRestore) && e in engines
    ensures var k := IndexOf(engines, e);
      var removed := RemoveAt(engines, k);
      var op := Op.Remove(e.originalEngine);
      && e.originalEngine in Originals(engines)
      && Sound(removed, defaults, ops + [op], base, canRestore || e.originalEngine in Originals(defaults))
      && Store(Originals(removed), ops + [op], base) == Do(Store(Originals(engines), ops, base), op)
      && multiset(removed) == multiset(engines) - multiset{e}
  {
    var s := Store(Originals(engines), ops, base);
    SameIndex(engines, e);
    var k := IndexOf(engines, e);
    var removed := RemoveAt(engines, k);
    OriginalsOfRemoved(engines, k);
    RemovedBag(engines, k);
    RemoveMembers(s.engines, k);
    OpIsSound(s, Op.Remove(e.originalEngine), Originals(defaults));
    forall x | x in removed + defaults ensures x in engines + defaults { InBag(engines, removed, defaults, x); }
    NamesOfFewer(engines + defaults, removed + defaults);
    hide Consistent, Originals, NoRepeats, NamesAgree, IndexOf, RemoveAt;
  }

  lemma UnhideIsSound(engines: seq<EngineClone>, defaults: seq<EngineClone>, ops: seq<Op>, base: seq<Engine>,
                      canRestore: bool,
                      e: EngineClone, p: nat)
    requires Sound(engines, defaults, ops, base, canRestore) && p <= |engines|
    requires e in defaults && e.originalEngine !in Originals(engines)
    ensures var shown := InsertAt(engines, p, e);
      var op := Unhide(e.originalEngine, p);
      && Sound(shown, defaults, ops + [op], base, canRestore)
      && Store(Originals(shown), ops + [op], base) == Do(Store(Originals(engines), ops, base), op)
  {
    var s := Store(Originals(engines), ops, base);
    var shown := InsertAt(engines, p, e);
    CloneIsOriginal(defaults, e);
    OriginalsOfInserted(engines, p, e);
    InsertMembers(s.engines, p, e.originalEngine);
    OpIsSound(s, Unhide(e.originalEngine, p), Originals(defaults));
    NamesOfFewer(engines + defaults, shown + defaults);
    hide Consistent, Originals, NoRepeats, NamesAgree, IndexOf, InsertAt;
  }

  /** If an engine is in the list, its clone there is the one its name finds. */
  lemma NameFinds(engines: seq<EngineClone>, defaults: seq<EngineClone>, e: EngineClone)
    requires NamesAgree(engines + defaults) && e in defaults && e.originalEngine in Originals(engines)
    ensures exists i :: 0 <= i < |engines| && engines[i].name == e.name
    ensures forall c :: c in engines && c.name == e.name ==> c.originalEngine == e.originalEngine
  {
    var k :| 0 <= k < |engines| && Originals(engines)[k] == e.originalEngine;
    assert engines[k] in engines + defaults && e in engines + defaults;
    forall c | c in engines && c.name == e.name ensures c.originalEngine == e.originalEngine {
      assert c in engines + defaults;
    }
  }

  class EngineStore {
    var engines: seq<EngineClone>
    const defaultEngines: seq<EngineClone>
    var ops: seq<Op>
    /** Whether the button that restores the defaults is enabled. */
    var showRestoreDefaults: bool
    /** The service's visible engines: those at the start, then those added since. */
    ghost var base: seq<Engine>

    ghost function View(): Store
      reads this
    {
      Store(Originals(engines), ops, base)
    }

    ghost predicate Valid()
      reads this
    {
      Sound(engines, defaultEngines, ops, base, showRestoreDefaults)
    }

    constructor (visible: seq<EngineClone>, defaults: seq<EngineClone>)
      requires NoRepeats(Originals(visible)) && NoRepeats(Originals(defaults)) && NamesAgree(visible + defaults)
      ensures Valid() && View() == Store(Originals(visible), [], Originals(visible)) && defaultEngines == defaults
      ensures showRestoreDefaults <==> Missing(visible, defaults)
    {
      engines := visible;
      defaultEngines := defaults;
      ops := [];
      base := Originals(visible);
      showRestoreDefaults := Missing(visible, defaults);
    }

    /** The first clone with the given name. */
    method GetEngineByName(name: string) returns (found: EngineClone?)
      ensures found != null ==> exists k :: 0 <= k < |engines| && found == engines[k] && FirstNamed(engines, name, k)
      ensures found == null ==> forall i :: 0 <= i < |engines| ==> engines[i].name != name
    {
      for i := 0 to |engines|
        invariant forall j :: 0 <= j < i ==> engines[j].name != name
      {
        if engines[i].name == name {
          assert FirstNamed(engines, name, i);
          return engines[i];
        }
      }
      return null;
    }

    /** The service has added an engine: it is shown, and nothing needs to be done later. */
    method AddEngine(e: EngineClone)
      requires Valid() && e.originalEngine !in base && e.originalEngine !in Originals(defaultEngines)
      requires NamesAgree(engines + [e] + defaultEngines)
      modifies this
      ensures Valid() && View() == Add(old(View()), e.originalEngine) && engines == old(engines) + [e]
      ensures showRestoreDefaults == old(showRestoreDefaults)
    {
      assert Originals(engines + [e]) == Originals(engines) + [e.originalEngine];
      AddKeeps(View(), e.originalEngine, Originals(defaultEngines));
      hide Consistent, Originals, NoRepeats, NamesAgree;
      base := base + [e.originalEngine];
      engines := engines + [e];
    }

    method MoveEngine(e: EngineClone, newIndex: int) returns (status: Status)
      requires Valid()
      modifies this
      ensures Valid() && showRestoreDefaults == old(showRestoreDefaults)
      ensures status == if newIndex < 0 || newIndex > |old(engines)| - 1 then InvalidIndex
                        else if e !in old(engines) then InvalidEngine else Done
      ensures status == Done ==> e.originalEngine in old(View()).engines
      ensures if status == Done then View() == MoveTo(old(View()), e.originalEngine, newIndex)
              else View() == old(View()) && engines == old(engines)
      ensures multiset(engines) == multiset(old(engines))
    {
      hide Sound, Do, IndexOf, RemoveAt, InsertAt, Originals;
      if newIndex < 0 || newIndex > |engines| - 1 {
        return InvalidIndex;
      }
      var index := IndexOf(engines, e);
      if index == -1 {
        return InvalidEngine;
      }
      MoveIsSound(engines, defaultEngines, ops, base, showRestoreDefaults, e, newIndex);
      if index == newIndex {
        return Done;
      }
      engines := RemoveAt(engines, index);
      engines := InsertAt(engines, newIndex, e);
      ops := ops + [Move(e.originalEngine, newIndex)];
      return Done;
    }

    method RemoveEngine(e: EngineClone) returns (status: Status)
      requires Valid()
      modifies this
      ensures Valid() && status == if e in old(engines) then Done else InvalidEngine
      ensures showRestoreDefaults <==>
        old(showRestoreDefaults) || (status == Done && e.originalEngine in Originals(defaultEngines))
      ensures status == Done ==> e.originalEngine in old(View()).engines
      ensures if status == Done then
          (View() == Do(old(View()), Op.Remove(e.originalEngine))
           && multiset(engines) == multiset(old(engines)) - multiset{e})
        else View() == old(View()) && engines == old(engines)
    {
      hide Sound, Do, IndexOf, RemoveAt, Originals;
      var index := IndexOf(engines, e);
      if index == -1 {
        return InvalidEngine;
      }
      RemoveIsSound(engines, defaultEngines, ops, base, showRestoreDefaults, e);
      engines := RemoveAt(engines, index);
      ops := ops + [Op.Remove(e.originalEngine)];
      if e.originalEngine in Originals(defaultEngines) {
        showRestoreDefaults := true;
      }
      return Done;
    }

    /** Carries out the recorded operations, and makes the engine current again that was current before
        if it is a default engine and visible. */
    method Commit(service: SearchService)
      requires Valid() && service.visible == base
      modifies service
      ensures service.visible == Originals(engines)
      ensures old(service.current) in Originals(engines) ==> service.current == old(service.current)
    {
      var currentEngine := service.current;
      CommitBegins(engines, defaultEngines, ops, base, showRestoreDefaults, currentEngine);
      hide *;
      assert ops[0..] == ops;
      for i := 0 to |ops|
        invariant AllApplicable(ops[i..], service.visible)
        invariant Replay(ops[i..], service.visible) == Replay(ops, base)
        invariant Op.Remove(currentEngine) !in ops ==> service.current == currentEngine
      {
        ReplaySuffix(ops, i, service.visible, base);
        assert ops[i] in ops;
        service.Commit(ops[i]);
      }
      ReplayEnds(ops[|ops|..], service.visible);
      if currentEngine in Originals(defaultEngines) && currentEngine in service.visible {
        service.current := currentEngine;
      }
    }

    /** The loop body of `restoreDefaultEngines`: one default engine, moved or shown again. */
    method RestoreEngine(i: nat) returns (done: nat)
      requires Valid() && i < |defaultEngines| && i <= |engines|
      requires defaultEngines[i].originalEngine in Originals(engines) ==> i < |engines|
      modifies this
      ensures Valid()
      ensures View() == RestoreOne(old(View()), defaultEngines[i].originalEngine, i)
      ensures |engines| == |old(engines)| + done && showRestoreDefaults == old(showRestoreDefaults)
    {
      var e := defaultEngines[i];
      if e.originalEngine in Originals(engines) {
        NameFinds(engines, defaultEngines, e);
        var found := GetEngineByName(e.name);
        assert multiset(engines) == multiset(engines) && |multiset(engines)| == |engines|;
        var status := MoveEngine(found, i);
        assert |multiset(engines)| == |engines|;
        done := 0;
      } else {
        UnhideIsSound(engines, defaultEngines, ops, base, showRestoreDefaults, e, i);
        hide Sound, Do, Originals;
        engines := InsertAt(engines, i, e);
        ops := ops + [Unhide(e.originalEngine, i)];
        done := 1;
      }
    }

    /** Puts every default engine into its place, showing again those that are missing. */
    method RestoreDefaultEngines() returns (added: nat)
      requires Valid()
      modifies this
      ensures Valid() && !showRestoreDefaults
      ensures View() == RestoreAll(old(View()), Originals(defaultEngines))
      ensures |engines| == |old(engines)| + added
    {
      ghost var was, d := View(), Originals(defaultEngines);
      RestoreBegins(was, d);
      added := 0;
      hide Sound, RestoreFrom, RestoreAll, RestoreOne, Rest, NoRepeats, Originals;
      for i := 0 to |defaultEngines|
        invariant Valid() && |engines| == |old(engines)| + added
        invariant View().engines == d[..i] + Rest(was.engines, d[..i])
        invariant RestoreFrom(View(), d, i, was.engines) == RestoreAll(was, d)
      {
        RestoreTurn(View(), d, i, was.engines);
        OriginalAt(defaultEngines, i);
        var done := RestoreEngine(i);
        added := added + done;
      }
      RestoreEnds(View(), d, was.engines);
      NothingMissing(engines, defaultEngines, ops, base, showRestoreDefaults);
      showRestoreDefaults := false;
    }
  }

  /** Whether the current engine was never removed, or is a default engine that is back. */
  lemma CurrentStays(s: Store, defaults: seq<Engine>, e: Engine)
    requires Consistent(s, defaults) && e in s.engines && e !in defaults
    ensures Op.Remove(e) !in s.ops
  {
    NotRemoved(s.ops, s.base, e);
  }

  lemma CommitBegins(engines: seq<EngineClone>, defaults: seq<EngineClone>, ops: seq<Op>, base: seq<Engine>,
                     canRestore: bool,
                     current: Engine)
    requires Sound(engines, defaults, ops, base, canRestore)
    ensures AllApplicable(ops, base) && Replay(ops, base) == Originals(engines)
    ensures current in Originals(engines) && current !in Originals(defaults) ==> Op.Remove(current) !in ops
  {
    var s := Store(Originals(engines), ops, base);
    if current in s.engines && current !in Originals(defaults) { CurrentStays(s, Originals(defaults), current); }
    hide Originals, AllApplicable, NoRepeats, NamesAgree;
  }

  lemma ReplayEnds(ops: seq<Op>, v: seq<Engine>)
    requires ops == [] && AllApplicable(ops, v)
    ensures Replay(ops, v) == v
  {
  }

  lemma {:induction false} ReplaySuffix(ops: seq<Op>, i: nat, v: seq<Engine>, base: seq<Engine>)
    requires i < |ops| && AllApplicable(ops, base)
    requires AllApplicable(ops[i..], v) && Replay(ops[i..], v) == Replay(ops, base)
    ensures Applicable(ops[i], v) && AllApplicable(ops[i + 1..], Apply(ops[i], v))
    ensures Replay(ops[i + 1..], Apply(ops[i], v)) == Replay(ops, base)
  {
    assert ops[i..][0] == ops[i] && ops[i..][1..] == ops[i + 1..];
    hide Apply, Applicable;
  }

  /** With all defaults in the list nothing needs to be offered. */
  lemma NothingMissing(engines: seq<EngineClone>, defaults: seq<EngineClone>, ops: seq<Op>, base: seq<Engine>,
                       canRestore: bool)
    requires Sound(engines, defaults, ops, base, canRestore)
    requires forall e :: e in Originals(defaults) ==> e in Originals(engines)
    ensures Sound(engines, defaults, ops, base, false)
  {
    hide Consistent, Originals, NoRepeats, NamesAgree;
  }

  lemma RestoreBegins(s: Store, d: seq<Engine>)
    requires NoRepeats(d) && NoRepeats(s.engines)
    ensures s.engines == d[..0] + Rest(s.engines, d[..0]) && RestoreFrom(s, d, 0, s.engines) == RestoreAll(s, d)
  {
    RestOfStrangers(s.engines, []);
  }

  lemma RestoreTurn(s: Store, d: seq<Engine>, i: nat, v: seq<Engine>)
    requires i < |d| && NoRepeats(d) && NoRepeats(v) && s.engines == d[..i] + Rest(v, d[..i])
    ensures i <= |s.engines| && (d[i] in s.engines ==> i < |s.engines|)
    ensures var r := RestoreOne(s, d[i], i);
      r.engines == d[..i + 1] + Rest(v, d[..i + 1]) && RestoreFrom(s, d, i, v) == RestoreFrom(r, d, i + 1, v)
  {
    RestoreStep(s, d, i, v);
    hide Rest, NoRepeats, RestoreOne;
  }

  lemma RestoreEnds(s: Store, d: seq<Engine>, v: seq<Engine>)
    requires NoRepeats(d) && NoRepeats(v) && s.engines == d[..|d|] + Rest(v, d[..|d|])
    ensures RestoreFrom(s, d, |d|, v) == s
    ensures forall e :: e in d ==> e in s.engines
  {
    assert d[..|d|] == d;
  }
}
