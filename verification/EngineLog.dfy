/** The search-engine manager on values: an ordered list of engines edited at once, and a log of
    operations to be carried out later on the search service's own list. */
module EngineLog {
  import opened Lists

  /** An engine of the search service, by number. */
  type Engine = nat

  /** What is still to be done to the service's list of visible engines. */
  datatype Op = Move(engine: Engine, newIndex: nat) | Remove(engine: Engine) | Unhide(engine: Engine, newIndex: nat)

  /** The edited list, the log, and the service's visible engines the log will be replayed on. */
  datatype Store = Store(engines: seq<Engine>, ops: seq<Op>, base: seq<Engine>)

  // ----- Lists of engines

  /** The elements of s that are not in d, in order. */
  function Rest(s: seq<Engine>, d: seq<Engine>): (r: seq<Engine>)
    ensures forall x :: x in r <==> x in s && x !in d
    ensures |r| <= |s|
  {
    if s == [] then []
    else if s[0] in d then Rest(s[1..], d)
    else [s[0]] + Rest(s[1..], d)
  }

  lemma {:induction false} RestIsDistinct(s: seq<Engine>, d: seq<Engine>)
    requires NoRepeats(s)
    ensures NoRepeats(Rest(s, d))
  {
    if s != [] {
      RestIsDistinct(s[1..], d);
      assert forall i :: 0 <= i < |Rest(s[1..], d)| ==> Rest(s[1..], d)[i] in s[1..];
    }
  }

  lemma {:induction false} RestOfRest(s: seq<Engine>, d: seq<Engine>, e: seq<Engine>)
    ensures Rest(Rest(s, d), e) == Rest(s, d + e)
  {
    if s != [] {
      RestOfRest(s[1..], d, e);
      var r := Rest(s[1..], d);
      assert s[0] in d + e <==> s[0] in d || s[0] in e;
      if s[0] !in d {
        assert ([s[0]] + r)[1..] == r;
        assert Rest(s, d) == [s[0]] + r;
      }
    }
  }

  lemma {:induction false} RestOfStrangers(s: seq<Engine>, d: seq<Engine>)
    requires forall x :: x in s ==> x !in d
    ensures Rest(s, d) == s
  {
    if s != [] {
      assert forall x :: x in s[1..] ==> x in s;
      RestOfStrangers(s[1..], d);
    }
  }

  /** Taking the one occurrence of x out. */
  lemma {:induction false} RemoveIsRest(s: seq<Engine>, x: Engine)
    requires NoRepeats(s) && x in s
    ensures RemoveAt(s, IndexOf(s, x)) == Rest(s, [x])
  {
    assert s == [s[0]] + s[1..];
    IndexInConcat([s[0]], s[1..], x);
    RemoveInConcat([s[0]], s[1..], IndexOf(s, x));
    hide IndexOf, RemoveAt;
    if s[0] == x {
      assert x !in s[1..] by { assert forall i :: 0 <= i < |s[1..]| ==> s[1..][i] != s[0]; }
      RestOfStrangers(s[1..], [x]);
      HeadIndex(s);
    } else {
      assert x in s[1..];
      RemoveIsRest(s[1..], x);
    }
  }

  lemma HeadIndex(s: seq<Engine>)
    requires s != []
    ensures IndexOf(s, s[0]) == 0 && RemoveAt(s, 0) == s[1..]
  {
  }

  // ----- Operations on a list of visible engines

  predicate Applicable(op: Op, v: seq<Engine>) {
    match op
    case Move(e, p) => e in v && p < |v|
    case Remove(e) => e in v
    case Unhide(e, p) => e !in v && p <= |v|
  }

  function Apply(op: Op, v: seq<Engine>): seq<Engine>
    requires Applicable(op, v)
  {
    match op
    case Move(e, p) => InsertAt(RemoveAt(v, IndexOf(v, e)), p, e)
    case Remove(e) => RemoveAt(v, IndexOf(v, e))
    case Unhide(e, p) => InsertAt(v, p, e)
  }

  /** What a list is without an engine, and with it in its place again. */
  lemma InsertedExactly(r: seq<Engine>, p: nat, e: Engine, w: seq<Engine>)
    requires NoRepeats(r) && e !in r && p <= |r|
    ensures w == InsertAt(r, p, e) <==> NoRepeats(w) && p < |w| && w[p] == e && Rest(w, [e]) == r
  {
    var u := InsertAt(r, p, e);
    InsertMembers(r, p, e);
    assert u[p] == e && RemoveAt(u, p) == r;
    OnlyPlace(u, p);
    RemoveIsRest(u, e);
    if NoRepeats(w) && p < |w| && w[p] == e && Rest(w, [e]) == r {
      OnlyPlace(w, p);
      RemoveIsRest(w, e);
      RemoveThenInsert(w, p, e);
    }
  }

  lemma OnlyPlace(w: seq<Engine>, p: nat)
    requires NoRepeats(w) && p < |w|
    ensures IndexOf(w, w[p]) == p
  {
    FirstIndex(w, p, w[p]);
  }

  /** The outcome of an operation: a moved or shown engine has the place asked for, a removed one is
      gone, and the others keep their order. */
  predicate IsOutcome(op: Op, v: seq<Engine>, w: seq<Engine>) {
    match op
    case Move(e, p) => NoRepeats(w) && p < |w| && w[p] == e && Rest(w, [e]) == Rest(v, [e])
    case Remove(e) => w == Rest(v, [e])
    case Unhide(e, p) => NoRepeats(w) && p < |w| && w[p] == e && Rest(w, [e]) == v
  }

  lemma ApplyExactly(op: Op, v: seq<Engine>, w: seq<Engine>)
    requires NoRepeats(v) && Applicable(op, v)
    ensures w == Apply(op, v) <==> IsOutcome(op, v, w)
  {
    var e := op.engine;
    if op.Unhide? {
      InsertedExactly(v, op.newIndex, e, w);
    } else {
      RemoveIsRest(v, e);
      RestIsDistinct(v, [e]);
      if op.Move? { InsertedExactly(Rest(v, [e]), op.newIndex, e, w); }
    }
    hide Rest, RemoveAt, InsertAt, IndexOf, NoRepeats;
  }

  /** Every operation makes sense when its turn comes. */
  predicate AllApplicable(ops: seq<Op>, v: seq<Engine>) {
    ops == [] || (Applicable(ops[0], v) && AllApplicable(ops[1..], Apply(ops[0], v)))
  }

  function Replay(ops: seq<Op>, v: seq<Engine>): seq<Engine>
    requires AllApplicable(ops, v)
  {
    if ops == [] then v else Replay(ops[1..], Apply(ops[0], v))
  }

  lemma {:induction false} ReplayOneMore(ops: seq<Op>, op: Op, v: seq<Engine>)
    requires AllApplicable(ops, v) && Applicable(op, Replay(ops, v))
    ensures AllApplicable(ops + [op], v) && Replay(ops + [op], v) == Apply(op, Replay(ops, v))
    decreases |ops|
  {
    hide Apply, Applicable;
    if ops == [] {
      assert [op][1..] == [];
    } else {
      ReplayOneMore(ops[1..], op, Apply(ops[0], v));
      assert (ops + [op])[1..] == ops[1..] + [op];
    }
  }

  /** An engine at the very end stays there while operations on other engines are carried out. */
  lemma ApplyBefore(op: Op, v: seq<Engine>, c: Engine)
    requires Applicable(op, v) && c !in v && op.engine != c
    ensures Applicable(op, v + [c]) && Apply(op, v + [c]) == Apply(op, v) + [c] && c !in Apply(op, v)
  {
    if op.Unhide? {
      InsertEarly(v, c, op.newIndex, op.engine);
      assert c !in InsertAt(v, op.newIndex, op.engine);
    } else {
      RemoveEarly(v, c, op.engine);
      var u := RemoveAt(v, IndexOf(v, op.engine));
      assert c !in u;
      hide RemoveAt, IndexOf;
      if op.Move? {
        InsertEarly(u, c, op.newIndex, op.engine);
        assert c !in InsertAt(u, op.newIndex, op.engine);
      }
    }
  }

  lemma InsertEarly(v: seq<Engine>, c: Engine, k: nat, x: Engine)
    requires k <= |v|
    ensures InsertAt(v + [c], k, x) == InsertAt(v, k, x) + [c]
  {
    assert (v + [c])[k..] == v[k..] + [c];
    assert (v + [c])[..k] == v[..k];
  }

  lemma RemoveEarly(v: seq<Engine>, c: Engine, e: Engine)
    requires e in v
    ensures RemoveAt(v + [c], IndexOf(v + [c], e)) == RemoveAt(v, IndexOf(v, e)) + [c]
  {
    IndexInConcat(v, [c], e);
    RemoveInConcat(v, [c], IndexOf(v, e));
  }

  lemma {:induction false} ReplayBefore(ops: seq<Op>, v: seq<Engine>, c: Engine)
    requires AllApplicable(ops, v) && c !in v && forall op :: op in ops ==> op.engine != c
    ensures AllApplicable(ops, v + [c]) && Replay(ops, v + [c]) == Replay(ops, v) + [c]
    decreases |ops|
  {
    if ops != [] {
      assert ops[0] in ops;
      ApplyBefore(ops[0], v, c);
      hide Apply, Applicable;
      ReplayBefore(ops[1..], Apply(ops[0], v), c);
    }
  }

  /** The service shows a hidden engine wherever it kept it; moving it afterwards leaves no trace of that. */
  lemma ShowThenMove(v: seq<Engine>, e: Engine, at: nat, p: nat)
    requires e !in v && at <= |v| && p <= |v|
    ensures Applicable(Move(e, p), InsertAt(v, at, e))
    ensures Apply(Move(e, p), InsertAt(v, at, e)) == Apply(Unhide(e, p), v)
  {
    var w := InsertAt(v, at, e);
    assert w[at] == e && w[..at] == v[..at];
    FirstIndex(w, at, e);
    assert RemoveAt(w, at) == v;
  }

  /** An engine that is gone and is never shown again is not in the outcome. */
  lemma {:induction false} GoneForGood(ops: seq<Op>, v: seq<Engine>, e: Engine)
    requires AllApplicable(ops, v) && e !in v && NoRepeats(v)
    requires forall op :: op in ops && op.Unhide? ==> op.engine != e
    ensures e !in Replay(ops, v)
    decreases |ops|
  {
    if ops != [] {
      assert ops[0] in ops;
      ApplyMembers(ops[0], v);
      hide Apply, Applicable;
      GoneForGood(ops[1..], Apply(ops[0], v), e);
    }
  }

  lemma ApplyMembers(op: Op, v: seq<Engine>)
    requires NoRepeats(v) && Applicable(op, v)
    ensures NoRepeats(Apply(op, v))
    ensures forall e :: e in Apply(op, v) <==> if op.Remove? then e in v && e != op.engine else e in v || e == op.engine
  {
    if op.Unhide? {
      InsertMembers(v, op.newIndex, op.engine);
    } else {
      var k := IndexOf(v, op.engine);
      RemoveMembers(v, k);
      if op.Move? { InsertMembers(RemoveAt(v, k), op.newIndex, op.engine); }
    }
  }

  /** Only an engine that some operation shows again can be removed and still be there at the end. */
  lemma {:induction false} NotRemoved(ops: seq<Op>, v: seq<Engine>, e: Engine)
    requires AllApplicable(ops, v) && NoRepeats(v) && e in Replay(ops, v)
    requires forall op :: op in ops && op.Unhide? ==> op.engine != e
    ensures Op.Remove(e) !in ops
    decreases |ops|
  {
    if ops != [] {
      assert ops[0] in ops;
      ApplyMembers(ops[0], v);
      var w := Apply(ops[0], v);
      hide Apply, Applicable, NoRepeats;
      NotRemoved(ops[1..], w, e);
      if ops[0] == Op.Remove(e) { GoneForGood(ops[1..], w, e); }
    }
  }

  // ----- The manager's actions

  datatype Action = Added(engine: Engine) | Moved(engine: Engine, newIndex: nat) | Removed(engine: Engine) | Restored

  /** An engine the service has just added at the end of its own list: no operation is recorded. */
  function Add(s: Store, e: Engine): Store {
    s.(engines := s.engines + [e], base := s.base + [e])
  }

  /** Do an operation to the edited list and record it. */
  function Do(s: Store, op: Op): Store
    requires Applicable(op, s.engines)
  {
    s.(engines := Apply(op, s.engines), ops := s.ops + [op])
  }

  function MoveTo(s: Store, e: Engine, p: nat): Store
    requires e in s.engines && p < |s.engines|
  {
    if IndexOf(s.engines, e) == p then s else Do(s, Move(e, p))
  }

  /** Put a default engine into its place, from wherever it is. */
  function RestoreOne(s: Store, e: Engine, i: nat): Store
    requires i <= |s.engines| && (e in s.engines ==> i < |s.engines|)
  {
    if e in s.engines then MoveTo(s, e, i) else Do(s, Unhide(e, i))
  }

  /** The log agrees with the list: replayed on the service's visible engines, it gives the edited list. */
  predicate Consistent(s: Store, defaults: seq<Engine>) {
    && NoRepeats(s.engines) && NoRepeats(s.base)
    && AllApplicable(s.ops, s.base) && Replay(s.ops, s.base) == s.engines
    && (forall op :: op in s.ops ==> op.engine in defaults || (op.engine in s.base && !op.Unhide?))
    && (forall e :: e in s.engines ==> e in s.base || e in defaults)
  }

  lemma DoKeeps(s: Store, op: Op, defaults: seq<Engine>)
    requires Consistent(s, defaults) && Applicable(op, s.engines)
    requires op.engine in defaults || (op.engine in s.base && !op.Unhide?)
    ensures Consistent(Do(s, op), defaults)
  {
    ReplayOneMore(s.ops, op, s.base);
    ApplyMembers(op, s.engines);
    hide Replay, AllApplicable, NoRepeats, Apply, Applicable;
  }

  lemma AddKeeps(s: Store, e: Engine, defaults: seq<Engine>)
    requires Consistent(s, defaults) && e !in s.base && e !in defaults
    ensures Consistent(Add(s, e), defaults)
  {
    ReplayBefore(s.ops, s.base, e);
  }

  /** Restoring puts the defaults first, in their order, and keeps the order of the others. */
  function RestoreFrom(s: Store, defaults: seq<Engine>, i: nat, v: seq<Engine>): (r: Store)
    requires i <= |defaults| && NoRepeats(defaults) && NoRepeats(v)
    requires s.engines == defaults[..i] + Rest(v, defaults[..i])
    ensures r.engines == defaults + Rest(v, defaults)
    decreases |defaults| - i
  {
    if i == |defaults| then
      assert defaults[..i] == defaults;
      s
    else
      RestoreStep(s, defaults, i, v);
      RestoreFrom(RestoreOne(s, defaults[i], i), defaults, i + 1, v)
  }

  lemma RestoreStep(s: Store, defaults: seq<Engine>, i: nat, v: seq<Engine>)
    requires i < |defaults| && NoRepeats(defaults) && NoRepeats(v)
    requires s.engines == defaults[..i] + Rest(v, defaults[..i])
    ensures defaults[i] in s.engines ==> i < |s.engines|
    ensures RestoreOne(s, defaults[i], i).engines == defaults[..i + 1] + Rest(v, defaults[..i + 1])
  {
    var e, d, w := defaults[i], defaults[..i], s.engines;
    var rest := Rest(v, d);
    assert defaults[..i + 1] == d + [e];
    RestOfRest(v, d, [e]);
    assert e !in d;
    if e in w {
      RestIsDistinct(v, d);
      RemoveIsRest(rest, e);
      hide Rest, NoRepeats;
      MoveToFront(d, rest, e);
    } else {
      RestOfStrangers(rest, [e]);
      hide Rest, NoRepeats, IndexOf;
      assert InsertAt(w, i, e) == d + [e] + rest;
    }
  }

  /** Moving an element from behind a prefix to just after it. */
  lemma MoveToFront(d: seq<Engine>, rest: seq<Engine>, e: Engine)
    requires e !in d && e in rest
    ensures var k := IndexOf(d + rest, e);
      InsertAt(RemoveAt(d + rest, k), |d|, e) == d + [e] + RemoveAt(rest, IndexOf(rest, e))
      && (k == |d| ==> d + rest == d + [e] + RemoveAt(rest, IndexOf(rest, e)))
  {
    hide *;
    IndexInConcat(d, rest, e);
    var k := IndexOf(rest, e);
    RemoveInConcat(d, rest, |d| + k);
    InsertBehind(d, RemoveAt(rest, k), e);
    if k == 0 { AlreadyFirst(d, rest); }
  }

  lemma AlreadyFirst(d: seq<Engine>, rest: seq<Engine>)
    requires rest != []
    ensures d + rest == d + [rest[0]] + RemoveAt(rest, 0)
  {
    RemoveFirst(rest);
    Regroup(d, [rest[0]], RemoveAt(rest, 0));
    hide *;
  }

  lemma Regroup(a: seq<Engine>, b: seq<Engine>, c: seq<Engine>)
    ensures a + (b + c) == a + b + c
  {
  }

  lemma RemoveFirst(rest: seq<Engine>)
    requires rest != []
    ensures rest == [rest[0]] + RemoveAt(rest, 0)
  {
  }

  lemma InsertBehind(d: seq<Engine>, r: seq<Engine>, e: Engine)
    ensures InsertAt(d + r, |d|, e) == d + [e] + r
  {
  }

  function RestoreAll(s: Store, defaults: seq<Engine>): (r: Store)
    requires NoRepeats(defaults) && NoRepeats(s.engines)
    ensures r.engines == defaults + Rest(s.engines, defaults)
  {
    RestOfStrangers(s.engines, []);
    RestoreFrom(s, defaults, 0, s.engines)
  }

  lemma {:induction false} RestoreKeeps(s: Store, defaults: seq<Engine>, i: nat, v: seq<Engine>)
    requires i <= |defaults| && NoRepeats(defaults) && NoRepeats(v)
    requires s.engines == defaults[..i] + Rest(v, defaults[..i])
    requires Consistent(s, defaults)
    ensures Consistent(RestoreFrom(s, defaults, i, v), defaults)
    decreases |defaults| - i
  {
    if i < |defaults| {
      RestoreStep(s, defaults, i, v);
      var e := defaults[i];
      if e !in s.engines {
        DoKeeps(s, Unhide(e, i), defaults);
      } else if IndexOf(s.engines, e) != i {
        DoKeeps(s, Move(e, i), defaults);
      }
      hide Consistent, Rest, NoRepeats;
      RestoreKeeps(RestoreOne(s, e, i), defaults, i + 1, v);
    }
  }

  // ----- Runs

  predicate Possible(s: Store, a: Action, defaults: seq<Engine>) {
    match a
    case Added(e) => e !in s.base && e !in defaults
    case Moved(e, p) => e in s.engines && p < |s.engines|
    case Removed(e) => e in s.engines
    case Restored => NoRepeats(s.engines)
  }

  /** What an action does. Actions the manager refuses leave everything as it is. */
  function Act(s: Store, a: Action, defaults: seq<Engine>): Store
    requires NoRepeats(defaults)
  {
    if !Possible(s, a, defaults) then s
    else
      match a
      case Added(e) => Add(s, e)
      case Moved(e, p) => MoveTo(s, e, p)
      case Removed(e) => Do(s, Remove(e))
      case Restored => RestoreAll(s, defaults)
  }

  function ActAll(s: Store, actions: seq<Action>, defaults: seq<Engine>): Store
    requires NoRepeats(defaults)
    decreases |actions|
  {
    if actions == [] then s else ActAll(Act(s, actions[0], defaults), actions[1..], defaults)
  }

  /** Every action keeps the log in agreement with the list. */
  lemma ActKeeps(s: Store, a: Action, defaults: seq<Engine>)
    requires NoRepeats(defaults) && Consistent(s, defaults)
    ensures Consistent(Act(s, a, defaults), defaults)
  {
    if Possible(s, a, defaults) {
      match a
      case Added(e) => AddKeeps(s, e, defaults);
      case Moved(e, p) => if IndexOf(s.engines, e) != p { DoKeeps(s, Move(e, p), defaults); }
      case Removed(e) => DoKeeps(s, Remove(e), defaults);
      case Restored =>
        RestOfStrangers(s.engines, []);
        RestoreKeeps(s, defaults, 0, s.engines);
    }
  }

  lemma {:induction false} ActAllKeeps(s: Store, actions: seq<Action>, defaults: seq<Engine>)
    requires NoRepeats(defaults) && Consistent(s, defaults)
    ensures Consistent(ActAll(s, actions, defaults), defaults)
    decreases |actions|
  {
    hide Consistent, Act;
    if actions != [] {
      ActKeeps(s, actions[0], defaults);
      ActAllKeeps(Act(s, actions[0], defaults), actions[1..], defaults);
    }
  }

  /** The engines that were added to the service during a run, in order. */
  function AddedIn(s: Store, actions: seq<Action>, defaults: seq<Engine>): seq<Engine>
    requires NoRepeats(defaults)
    decreases |actions|
  {
    if actions == [] then []
    else
      (if actions[0].Added? && Possible(s, actions[0], defaults) then [actions[0].engine] else [])
      + AddedIn(Act(s, actions[0], defaults), actions[1..], defaults)
  }

  lemma {:induction false} RestoreKeepsBase(s: Store, defaults: seq<Engine>, i: nat, v: seq<Engine>)
    requires i <= |defaults| && NoRepeats(defaults) && NoRepeats(v)
    requires s.engines == defaults[..i] + Rest(v, defaults[..i])
    ensures RestoreFrom(s, defaults, i, v).base == s.base
    decreases |defaults| - i
  {
    if i < |defaults| {
      RestoreStep(s, defaults, i, v);
      hide Rest, NoRepeats;
      RestoreKeepsBase(RestoreOne(s, defaults[i], i), defaults, i + 1, v);
    }
  }

  lemma {:induction false} BaseGrows(s: Store, actions: seq<Action>, defaults: seq<Engine>)
    requires NoRepeats(defaults)
    ensures ActAll(s, actions, defaults).base == s.base + AddedIn(s, actions, defaults)
    decreases |actions|
  {
    hide Act, Possible, NoRepeats;
    if actions != [] {
      ActBase(s, actions[0], defaults);
      BaseGrows(Act(s, actions[0], defaults), actions[1..], defaults);
    }
  }

  lemma ActBase(s: Store, a: Action, defaults: seq<Engine>)
    requires NoRepeats(defaults)
    ensures Act(s, a, defaults).base == s.base + if a.Added? && Possible(s, a, defaults) then [a.engine] else []
  {
    if a.Restored? && NoRepeats(s.engines) {
      RestOfStrangers(s.engines, []);
      RestoreKeepsBase(s, defaults, 0, s.engines);
    }
    hide RestoreFrom, NoRepeats, Rest, IndexOf;
  }

  /** Whatever is added, moved, removed and restored in whatever order: the recorded operations, carried
      out on the engines visible at the start followed by the added ones, give the edited list. */
  lemma ReplayIsExact(visible: seq<Engine>, actions: seq<Action>, defaults: seq<Engine>)
    requires NoRepeats(visible) && NoRepeats(defaults)
    ensures var start := Store(visible, [], visible);
      var s := ActAll(start, actions, defaults);
      && AllApplicable(s.ops, visible + AddedIn(start, actions, defaults))
      && Replay(s.ops, visible + AddedIn(start, actions, defaults)) == s.engines
  {
    var start := Store(visible, [], visible);
    ActAllKeeps(start, actions, defaults);
    BaseGrows(start, actions, defaults);
  }
}
