/** Interpolation terminates and is exact: it succeeds exactly when every reference resolves and no
    chain of references closes, and the result is the full expansion. */
module InterpolationMeaning {
  import opened InterpolationSyntax
  import opened Wrappers
  import opened InterpolationSpec

  lemma RefsUnfold(engine: Engine, value: string, f: Found)
    requires Search(engine, value) == Some(f)
    ensures Refs(engine, value[f.start + f.match_.length..]) <= Refs(engine, value)
    ensures f.match_.piece.Ref? ==> f.match_.piece.key in Refs(engine, value)
  {
  }

  /** What becomes of a reference. */
  lemma ReplacementOfRef(env: Env, key: string, trail: set<Mark>)
    requires Good(env)
    ensures var r := Replacement(env, Ref(key), trail);
            if Resolves(env, key) then
              var mark := MarkOf(env, key);
              if mark in trail then r == Fail(Loop(key)) else r == Scan(env, TextOf(env, key), trail + {mark})
            else r.Fail?
  {
    hide Scan;
    if Lookup(env, key).Ok? {
      LookupInMarks(env, key);
      var (value, mark) := Lookup(env, key).value;
      assert Replacement(env, Ref(key), trail) == Visit(env, value, mark, trail);
    }
  }

  lemma ExpansionOfRef(env: Env, d: nat, key: string)
    requires Good(env)
    ensures ExpandPiece(env, d, Ref(key)) ==
            if d == 0 || !Resolves(env, key) then None else Expand(env, d - 1, TextOf(env, key))
  {
  }

  lemma OneMarkFewer(all: set<Mark>, trail: set<Mark>, mark: Mark)
    requires mark in all && mark !in trail
    ensures all - trail == (all - (trail + {mark})) + {mark}
    ensures |all - trail| == |all - (trail + {mark})| + 1
  {
    assert all - trail == (all - (trail + {mark})) + {mark};
  }

  /** A result is the full expansion, and no more levels of references are needed than there are
      marks left. */
  lemma {:induction false} ScanIsExpand(env: Env, value: string, trail: set<Mark>)
    requires Good(env) && Scan(env, value, trail).Ok?
    ensures Expand(env, |AllMarks(env.cfg) - trail|, value) == Some(Scan(env, value, trail).value)
    decreases AllMarks(env.cfg) - trail, |value|
  {
    hide Search, Lookup, AllMarks, Good;
    match Search(env.engine, value)
    case None =>
    case Some(f) =>
      var piece := f.match_.piece;
      if piece.Ref? {
        ReplacementOfRef(env, piece.key, trail);
        ExpansionOfRef(env, |AllMarks(env.cfg) - trail|, piece.key);
        var mark := MarkOf(env, piece.key);
        MarkHasKey(env, piece.key);
        OneMarkFewer(AllMarks(env.cfg), trail, mark);
        ScanIsExpand(env, TextOf(env, piece.key), trail + {mark});
      }
      ScanIsExpand(env, value[f.start + f.match_.length..], trail);
  }

  /** More depth never changes an expansion, so a value has at most one. */
  lemma {:induction false} ExpandMonotone(env: Env, d: nat, e: nat, value: string)
    requires Good(env) && d <= e && Expand(env, d, value).Some?
    ensures Expand(env, e, value) == Expand(env, d, value)
    decreases d, |value|
  {
    hide Search, Lookup, Good;
    match Search(env.engine, value)
    case None =>
    case Some(f) =>
      var piece := f.match_.piece;
      if piece.Ref? {
        ExpansionOfRef(env, d, piece.key);
        ExpansionOfRef(env, e, piece.key);
        ExpandMonotone(env, d - 1, e - 1, TextOf(env, piece.key));
      }
      ExpandMonotone(env, d, e, value[f.start + f.match_.length..]);
  }

  /** Success visits every reference. */
  lemma {:induction false} ScanVisits(env: Env, value: string, trail: set<Mark>, key: string)
    requires Good(env) && Scan(env, value, trail).Ok? && key in Refs(env.engine, value)
    ensures Resolves(env, key) && MarkOf(env, key) !in trail
    ensures Scan(env, TextOf(env, key), trail + {MarkOf(env, key)}).Ok?
    decreases |value|
  {
    hide Search, Lookup, AllMarks, Good;
    match Search(env.engine, value)
    case None =>
    case Some(f) =>
      ReplacementOfRef(env, key, trail);
      if f.match_.piece != Ref(key) { ScanVisits(env, value[f.start + f.match_.length..], trail, key); }
  }

  lemma PathTail(env: Env, p: seq<string>)
    requires Good(env) && IsPath(env, p) && |p| > 1
    ensures IsPath(env, p[1..]) && p[1] in RefsOf(env, p[0])
    ensures Closes(env, p) <==> Closes(env, p[1..]) || p[0] == p[|p| - 1]
  {
    var q := p[1..];
    if Closes(env, q) {
      var i :| 0 <= i < |q| - 1 && q[i] == q[|q| - 1];
      assert p[i + 1] == p[|p| - 1];
    }
    if Closes(env, p) && p[0] != p[|p| - 1] {
      var i :| 0 <= i < |p| - 1 && p[i] == p[|p| - 1];
      assert q[i - 1] == q[|q| - 1];
    }
  }

  lemma PathCons(env: Env, key: string, p: seq<string>)
    requires Good(env) && Resolves(env, key) && IsPath(env, p) && p[0] in RefsOf(env, key)
    ensures IsPath(env, [key] + p)
    ensures Closes(env, [key] + p) <==> Closes(env, p) || key == p[|p| - 1]
  {
    var q := [key] + p;
    forall i | 0 <= i < |q| - 1
      ensures q[i + 1] in RefsOf(env, q[i])
    {
      if i > 0 { assert q[i] == p[i - 1] && q[i + 1] == p[i]; }
    }
    assert q[1..] == p;
    PathTail(env, q);
  }

  /** Success rules out every loop. */
  lemma {:induction false} SuccessHasNoLoop(env: Env, value: string, trail: set<Mark>, p: seq<string>)
    requires Good(env) && Scan(env, value, trail).Ok?
    requires IsPath(env, p) && p[0] in Refs(env.engine, value)
    ensures MarkOf(env, p[|p| - 1]) !in trail && !Closes(env, p)
    decreases |p|
  {
    hide Scan, Lookup, AllMarks, Good, Refs;
    ScanVisits(env, value, trail, p[0]);
    if |p| > 1 {
      PathTail(env, p);
      SuccessHasNoLoop(env, TextOf(env, p[0]), trail + {MarkOf(env, p[0])}, p[1..]);
      assert p[1..][|p[1..]| - 1] == p[|p| - 1];
    }
  }

  /** Success means every reference on the way resolved. */
  lemma {:induction false} SuccessResolves(env: Env, value: string, trail: set<Mark>, p: seq<string>)
    requires Good(env) && Scan(env, value, trail).Ok?
    requires IsPath(env, p) && p[0] in Refs(env.engine, value)
    ensures forall k :: k in RefsOf(env, p[|p| - 1]) ==> Resolves(env, k)
    decreases |p|
  {
    hide Scan, Lookup, AllMarks, Good, Refs;
    ScanVisits(env, value, trail, p[0]);
    if |p| > 1 {
      PathTail(env, p);
      SuccessResolves(env, TextOf(env, p[0]), trail + {MarkOf(env, p[0])}, p[1..]);
      assert p[1..][|p[1..]| - 1] == p[|p| - 1];
    } else {
      forall k | k in RefsOf(env, p[0])
        ensures Resolves(env, k)
      {
        ScanVisits(env, TextOf(env, p[0]), trail + {MarkOf(env, p[0])}, k);
      }
    }
  }

  lemma AllResolveInside(env: Env, value: string, key: string)
    requires Good(env) && AllResolve(env, value) && key in Refs(env.engine, value)
    ensures Resolves(env, key) && AllResolve(env, TextOf(env, key))
  {
    hide Lookup, Good, Refs;
    assert IsPath(env, [key]);
    forall p | IsPath(env, p) && p[0] in Refs(env.engine, TextOf(env, key))
      ensures forall k :: k in RefsOf(env, p[|p| - 1]) ==> Resolves(env, k)
    {
      PathCons(env, key, p);
      assert ([key] + p)[|p|] == p[|p| - 1];
    }
  }

  lemma AllResolveLater(env: Env, value: string, later: string)
    requires Good(env) && AllResolve(env, value) && Refs(env.engine, later) <= Refs(env.engine, value)
    ensures AllResolve(env, later)
  {
  }

  /** When everything resolves, the only error is a loop, and there is one. */
  lemma {:induction false} FailureHasLoop(env: Env, value: string, trail: set<Mark>) returns (p: seq<string>)
    requires Good(env) && AllResolve(env, value) && Scan(env, value, trail).Fail?
    ensures IsPath(env, p) && p[0] in Refs(env.engine, value)
    ensures Scan(env, value, trail).error == Loop(p[|p| - 1])
    ensures Closes(env, p) || MarkOf(env, p[|p| - 1]) in trail
    decreases AllMarks(env.cfg) - trail, |value|
  {
    hide Lookup, AllMarks, Good, AllResolve, Refs, Closes, IsPath, RefsOf;
    var f := Search(env.engine, value).value;
    var piece, later := f.match_.piece, value[f.start + f.match_.length..];
    RefsUnfold(env.engine, value, f);
    if Replacement(env, piece, trail).Fail? {
      var key := piece.key;
      AllResolveInside(env, value, key);
      ReplacementOfRef(env, key, trail);
      var mark := MarkOf(env, key);
      MarkHasKey(env, key);
      if mark in trail {
        p := [key];
        SinglePath(env, key);
      } else {
        var q := FailureHasLoop(env, TextOf(env, key), trail + {mark});
        MarksOfPath(env, q);
        RefsOfIs(env, key);
        PathCons(env, key, q);
        p := [key] + q;
        NonEmpty(env, q);
        assert p[|p| - 1] == q[|q| - 1];
      }
    } else {
      AllResolveLater(env, value, later);
      p := FailureHasLoop(env, later, trail);
    }
  }

  lemma SinglePath(env: Env, key: string)
    requires Good(env) && Resolves(env, key)
    ensures IsPath(env, [key])
  {
  }

  lemma RefsOfIs(env: Env, key: string)
    requires Good(env) && Resolves(env, key)
    ensures RefsOf(env, key) == Refs(env.engine, TextOf(env, key))
  {
  }

  lemma MarksOfPath(env: Env, p: seq<string>)
    requires Good(env) && IsPath(env, p)
    ensures Resolves(env, p[|p| - 1]) && MarkOf(env, p[|p| - 1]).0 == p[|p| - 1]
  {
    MarkHasKey(env, p[|p| - 1]);
  }

  /** Exactness of interpolate, for any option and value: it succeeds exactly when everything resolves
      and no chain of references closes or meets the mark of the option itself; it reports a loop
      exactly when everything resolves and one does; success is the full expansion. */
  lemma InterpolationIsExact(env: Env, key: string, value: string)
    requires Good(env)
    ensures var r := Interpolated(env, key, value);
            var trail := {(key, env.cfg[env.owner].name)};
            && (r.Ok? <==> AllResolve(env, value) && !HasLoop(env, value, trail))
            && (AllResolve(env, value) ==> (r.Fail? <==> HasLoop(env, value, trail)) && (r.Fail? ==> r.error.Loop?))
            && (r.Ok? ==> exists d :: Expand(env, d, value) == Some(r.value))
  {
    hide Scan, Lookup, AllMarks, Refs, Closes, Valid;
    var trail := {(key, env.cfg[env.owner].name)};
    var r := Scan(env, value, trail);
    if r.Ok? {
      ScanIsExpand(env, value, trail);
      assert Expand(env, |AllMarks(env.cfg) - trail|, value) == Some(r.value);
      forall p | IsPath(env, p) && p[0] in Refs(env.engine, value)
        ensures !Closes(env, p) && MarkOf(env, p[|p| - 1]) !in trail
        ensures forall k :: k in RefsOf(env, p[|p| - 1]) ==> Resolves(env, k)
      {
        SuccessHasNoLoop(env, value, trail, p);
        SuccessResolves(env, value, trail, p);
      }
      forall k | k in Refs(env.engine, value)
        ensures Resolves(env, k)
      {
        ScanVisits(env, value, trail, k);
      }
    } else if AllResolve(env, value) {
      var p := FailureHasLoop(env, value, trail);
      assert HasLoop(env, value, trail);
    }
  }

  // ----- Reading an option

  /** __getitem__ of a text option with interpolation on: the value interpolated is the one a look-up
      of the same key finds. */
  predicate IsOwnOption(env: Env, key: string)
    requires Good(env)
  {
    var entries := env.cfg[env.owner].entries;
    key in entries && entries[key].Text?
  }

  lemma OwnOptionIsLookedUp(env: Env, key: string)
    requires Good(env) && IsOwnOption(env, key)
    ensures Resolves(env, key) && TextOf(env, key) == env.cfg[env.owner].entries[key].s
    ensures MarkOf(env, key) == (key, env.cfg[env.owner].name)
  {
  }

  /** An expansion needs one level less for each step along a chain of references. */
  lemma {:induction false} ExpandAlong(env: Env, d: nat, value: string, p: seq<string>)
    requires Good(env) && Expand(env, d, value).Some? && IsPath(env, p) && p[0] in Refs(env.engine, value)
    ensures d >= |p| && Expand(env, d - |p|, TextOf(env, p[|p| - 1])).Some?
    decreases |p|
  {
    hide Lookup, Good, Expand, Refs;
    ExpandRef(env, d, value, p[0]);
    if |p| > 1 {
      PathTail(env, p);
      ExpandAlong(env, d - 1, TextOf(env, p[0]), p[1..]);
      assert p[1..][|p[1..]| - 1] == p[|p| - 1];
    }
  }

  lemma {:induction false} ExpandRef(env: Env, d: nat, value: string, key: string)
    requires Good(env) && Expand(env, d, value).Some? && key in Refs(env.engine, value)
    ensures d >= 1 && Resolves(env, key) && Expand(env, d - 1, TextOf(env, key)).Some?
    decreases |value|
  {
    hide Search, Lookup, Good;
    match Search(env.engine, value)
    case None =>
    case Some(f) =>
      ExpansionOfRef(env, d, key);
      if f.match_.piece != Ref(key) { ExpandRef(env, d, value[f.start + f.match_.length..], key); }
  }

  /** An option that refers back to itself has no expansion to any depth. */
  lemma {:induction false} CycleNeverExpands(env: Env, d: nat, key: string, c: seq<string>)
    requires Good(env) && Resolves(env, key)
    requires IsPath(env, c) && c[0] in RefsOf(env, key) && c[|c| - 1] == key
    ensures Expand(env, d, TextOf(env, key)).None?
    decreases d
  {
    hide Lookup, Good, Expand, Refs, IsPath;
    if Expand(env, d, TextOf(env, key)).Some? {
      ExpandAlong(env, d, TextOf(env, key), c);
      NonEmpty(env, c);
      CycleNeverExpands(env, d - |c|, key, c);
      assert false;
    }
  }

  lemma NonEmpty(env: Env, c: seq<string>)
    requires Good(env) && IsPath(env, c)
    ensures |c| > 0
  {
  }

  // ----- When a value has a full expansion

  ghost predicate Expands(env: Env, value: string)
    requires Good(env)
  {
    exists d: nat :: Expand(env, d, value).Some?
  }

  /** A chain of references from the value comes back to itself. */
  ghost predicate HasCycle(env: Env, value: string)
    requires Good(env)
  {
    exists p :: IsPath(env, p) && p[0] in Refs(env.engine, value) && Closes(env, p)
  }

  /** A chain of references from the value leads to an option with this mark. */
  ghost predicate Reaches(env: Env, value: string, mark: Mark)
    requires Good(env)
  {
    exists p :: IsPath(env, p) && p[0] in Refs(env.engine, value) && MarkOf(env, p[|p| - 1]) == mark
  }

  lemma LoopIsCycleOrMark(env: Env, value: string, mark: Mark)
    requires Good(env)
    ensures HasLoop(env, value, {mark}) <==> HasCycle(env, value) || Reaches(env, value, mark)
  {
    hide Resolves, RefsOf, Closes, Refs, MarkOf, Good;
  }

  lemma ClosedChainNeverExpands(env: Env, d: nat, value: string, p: seq<string>)
    requires Good(env) && IsPath(env, p) && p[0] in Refs(env.engine, value) && Closes(env, p)
    ensures Expand(env, d, value).None?
  {
    hide Lookup, Expand, Refs;
    if Expand(env, d, value).Some? {
      var i :| 0 <= i < |p| - 1 && p[i] == p[|p| - 1];
      ExpandAlong(env, d, value, p[..i + 1]);
      CycleNeverExpands(env, d - |p[..i + 1]|, p[i], p[i + 1..]);
    }
  }

  lemma ExpansionResolves(env: Env, d: nat, value: string)
    requires Good(env) && Expand(env, d, value).Some?
    ensures AllResolve(env, value)
  {
    hide Lookup, Expand, Refs, Good;
    forall k | k in Refs(env.engine, value)
      ensures Resolves(env, k)
    {
      ExpandRef(env, d, value, k);
    }
    forall p, k | IsPath(env, p) && p[0] in Refs(env.engine, value) && k in RefsOf(env, p[|p| - 1])
      ensures Resolves(env, k)
    {
      ExpandAlong(env, d, value, p);
      ExpandRef(env, d - |p|, TextOf(env, p[|p| - 1]), k);
    }
  }

  /** A value has a full expansion exactly when everything it refers to resolves and no chain of its
      references comes back to itself. */
  lemma ExpandsExactly(env: Env, value: string)
    requires Good(env)
    ensures Expands(env, value) <==> AllResolve(env, value) && !HasCycle(env, value)
  {
    hide Scan, Expand, Lookup, AllMarks, Refs, Closes, AllResolve, Good;
    if Expands(env, value) {
      var d: nat :| Expand(env, d, value).Some?;
      ExpansionResolves(env, d, value);
      forall p | IsPath(env, p) && p[0] in Refs(env.engine, value)
        ensures !Closes(env, p)
      {
        if Closes(env, p) { ClosedChainNeverExpands(env, d, value, p); }
      }
    } else if AllResolve(env, value) {
      if Scan(env, value, {}).Ok? {
        ScanIsExpand(env, value, {});
      } else {
        var p := FailureHasLoop(env, value, {});
      }
    }
  }

  /** interpolate against the meaning, for any option and value, also one that is not in its section
      (any more): it succeeds exactly when the value has a full expansion and no chain of references
      leads to an option with the mark of the one interpolated. */
  lemma InterpolatedExactly(env: Env, key: string, value: string)
    requires Good(env)
    ensures var r := Interpolated(env, key, value);
            var mark := (key, env.cfg[env.owner].name);
            && (r.Ok? <==> Expands(env, value) && !Reaches(env, value, mark))
            && (r.Ok? ==> forall d: nat :: Expand(env, d, value).Some? ==> Expand(env, d, value) == Some(r.value))
  {
    hide Interpolated, Expand, HasLoop, HasCycle, Reaches, AllResolve, Valid;
    var r := Interpolated(env, key, value);
    InterpolationIsExact(env, key, value);
    LoopIsCycleOrMark(env, value, (key, env.cfg[env.owner].name));
    ExpandsExactly(env, value);
    if r.Ok? {
      var e :| Expand(env, e, value) == Some(r.value);
      forall d: nat | Expand(env, d, value).Some?
        ensures Expand(env, d, value) == Some(r.value)
      {
        if d <= e { ExpandMonotone(env, d, e, value); } else { ExpandMonotone(env, e, d, value); }
      }
    }
  }

  /** The false loop error, exactly: a value with a full expansion is refused if and only if everything
      it refers to resolves, no chain of its references closes, and one leads to the mark of the option
      interpolated. The error is a loop and blames that option. */
  lemma FalseLoopExactly(env: Env, key: string, value: string)
    requires Good(env)
    ensures var r := Interpolated(env, key, value);
            var mark := (key, env.cfg[env.owner].name);
            && (Expands(env, value) && r.Fail? <==>
                AllResolve(env, value) && !HasCycle(env, value) && Reaches(env, value, mark))
            && (Expands(env, value) && r.Fail? ==> r.error == Loop(key))
  {
    hide Scan, Expands, Reaches, AllResolve, Closes, IsPath, Refs, Lookup, Valid;
    var r := Interpolated(env, key, value);
    InterpolatedExactly(env, key, value);
    ExpandsExactly(env, value);
    if Expands(env, value) && r.Fail? {
      var p := FailureHasLoop(env, value, {(key, env.cfg[env.owner].name)});
      MarksOfPath(env, p);
    }
  }

  /** An own option never gets the false error: its mark is met only by coming back to it. */
  lemma OwnMarkIsCycle(env: Env, key: string)
    requires Good(env) && IsOwnOption(env, key)
    requires Reaches(env, env.cfg[env.owner].entries[key].s, (key, env.cfg[env.owner].name))
    ensures !Expands(env, env.cfg[env.owner].entries[key].s)
  {
    hide Lookup, Expand, Refs;
    var value := env.cfg[env.owner].entries[key].s;
    var mark := (key, env.cfg[env.owner].name);
    OwnOptionIsLookedUp(env, key);
    var p :| IsPath(env, p) && p[0] in Refs(env.engine, value) && MarkOf(env, p[|p| - 1]) == mark;
    MarksOfPath(env, p);
    RefsOfIs(env, key);
    forall d: nat
      ensures Expand(env, d, value).None?
    {
      CycleNeverExpands(env, d, key, p);
    }
  }

  /** Reading an option succeeds exactly when its value has a full expansion; when everything resolves,
      the error is a loop. */
  lemma GetItemIsExact(env: Env, key: string)
    requires Good(env) && IsOwnOption(env, key)
    ensures var value := env.cfg[env.owner].entries[key].s;
            var r := Interpolated(env, key, value);
            && (r.Ok? <==> Expands(env, value))
            && (r.Ok? ==> forall d: nat :: Expand(env, d, value).Some? ==> Expand(env, d, value) == Some(r.value))
            && (r.Fail? && AllResolve(env, value) ==> r.error.Loop?)
  {
    hide Interpolated, Expands, Expand, Reaches, AllResolve, HasLoop, Valid;
    var value := env.cfg[env.owner].entries[key].s;
    InterpolatedExactly(env, key, value);
    InterpolationIsExact(env, key, value);
    if Reaches(env, value, (key, env.cfg[env.owner].name)) { OwnMarkIsCycle(env, key); }
  }

  // ----- Popping an option

  /** The configuration with one option of the owner removed. */
  function Popped(env: Env, key: string): (r: Env)
    requires Good(env)
    ensures Good(r) && r.engine == env.engine
  {
    var owner := env.cfg[env.owner];
    env.(cfg := env.cfg[env.owner := owner.(entries := owner.entries - {key})])
  }

  /** Taking a text away changes no successful look-up of another key. */
  lemma {:induction false} FetchPopped(env: Env, key: string, section: nat, other: string)
    requires Good(env) && IsOwnOption(env, key)
    requires section < |env.cfg| && other != key && Fetch(env.cfg, section, other).Ok?
    ensures Fetch(Popped(env, key).cfg, section, other) == Fetch(env.cfg, section, other)
    decreases section
  {
    var cfg, cfg' := env.cfg, Popped(env, key).cfg;
    var entries := cfg[section].entries;
    if other in entries {
    } else if DEFAULT in entries && other in cfg[entries[DEFAULT].id].entries {
    } else {
      FetchPopped(env, key, cfg[section].parent, other);
    }
  }

  lemma LookupPopped(env: Env, key: string, other: string)
    requires Good(env) && IsOwnOption(env, key)
    requires other != key && Resolves(env, other)
    ensures Lookup(Popped(env, key), other) == Lookup(env, other)
  {
    hide Fetch, Valid;
    FetchPopped(env, key, env.owner, other);
  }

  lemma {:induction false} ScanPopped(env: Env, key: string, value: string, trail: set<Mark>)
    requires Good(env) && IsOwnOption(env, key)
    requires (key, env.cfg[env.owner].name) in trail && Scan(env, value, trail).Ok?
    ensures Scan(Popped(env, key), value, trail) == Scan(env, value, trail)
    decreases AllMarks(env.cfg) - trail, |value|
  {
    hide Search, Lookup, AllMarks, Good, Popped, IsOwnOption;
    match Search(env.engine, value)
    case None =>
    case Some(f) =>
      var piece := f.match_.piece;
      if piece.Ref? {
        ReplacementOfRef(env, piece.key, trail);
        ReplacementOfRef(Popped(env, key), piece.key, trail);
        OwnOptionIsLookedUp(env, key);
        LookupPopped(env, key, piece.key);
        var mark := MarkOf(env, piece.key);
        MarkHasKey(env, piece.key);
        ScanPopped(env, key, TextOf(env, piece.key), trail + {mark});
      }
      ScanPopped(env, key, value[f.start + f.match_.length..], trail);
  }

  /** pop, exactly: it succeeds if and only if the value has a full expansion without the option and no
      chain of its references leads to an option with the mark of the popped one. An option that can
      be read is popped with the value that reading it gives. */
  lemma PopIsExact(env: Env, key: string)
    requires Good(env) && IsOwnOption(env, key)
    ensures var value := env.cfg[env.owner].entries[key].s;
            var get, pop := Interpolated(env, key, value), Interpolated(Popped(env, key), key, value);
            && (pop.Ok? <==> Expands(Popped(env, key), value)
                             && !Reaches(Popped(env, key), value, (key, env.cfg[env.owner].name)))
            && (get.Ok? ==> pop == get)
  {
    hide Scan, Expands, Reaches, Valid;
    var value := env.cfg[env.owner].entries[key].s;
    InterpolatedExactly(Popped(env, key), key, value);
    if Interpolated(env, key, value).Ok? {
      ScanPopped(env, key, value, {(key, env.cfg[env.owner].name)});
    }
  }

  /** pop interpolates a value already taken out of its section. Here the DEFAULT section gives the
      reference a value of its own, and still the mark of the popped option is met and a loop is
      reported (the condition of FalseLoopExactly). */
  lemma PopReportsFalseLoop()
    ensures var cfg := [Section(Unnamed, 0, map[DEFAULT := Sub(1)]), Section(Named(DEFAULT), 0, map["a" := Text("x")])];
            var env := Env(ConfigParser, cfg, 0);
            && Good(env)
            && Interpolated(env, "a", "%(a)s") == Fail(Loop("a"))
            && Expand(env, 1, "%(a)s") == Some("x")
  {
    var cfg := [Section(Unnamed, 0, map[DEFAULT := Sub(1)]), Section(Named(DEFAULT), 0, map["a" := Text("x")])];
    var env := Env(ConfigParser, cfg, 0);
    var value := "%(a)s";
    var trail := {("a", Unnamed)};
    SearchExample();
    assert Valid(cfg);
    assert Lookup(env, "a") == Ok((Text("x"), ("a", Unnamed)));
    ReplacementOfRef(env, "a", trail);
    assert Scan(env, value, trail) == Fail(Loop("a"));
    ExpansionOfRef(env, 1, "a");
    assert Expand(env, 0, "x") == Some("x");
    assert value[0 + 5..] == "" && Expand(env, 1, "") == Some("");
    assert value[..0] + "x" + "" == "x";
  }

  lemma SearchExample()
    ensures Search(ConfigParser, "%(a)s") == Some(Found(0, Match(5, Ref("a"))))
    ensures Search(ConfigParser, "x") == None
  {
    var value := "%(a)s";
    assert value[2..][1..] == ")s" && Until(value[2..], ')') == 1;
    assert value[2..3] == "a";
    assert MatchHere(ConfigParser, value) == Some(Match(5, Ref("a")));
    assert "x"[1..] == "";
  }
}
