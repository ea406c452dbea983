/** InterpolationEngine as it runs: a section walk for look-ups, a value rewritten in place of its
    references, and a backtrail that is marked on the way down and unmarked on the way back. */
module InterpolationEngine {
  import opened InterpolationSyntax
  import opened Wrappers
  import opened InterpolationSpec

  /** The backtrail dictionary, shared by all levels of the recursion. */
  class Backtrail {
    var marks: set<Mark>

    constructor ()
      ensures marks == {}
    {
      marks := {};
    }
  }

  class Interpolator {
    const env: Env

    constructor (env: Env)
      requires Good(env)
      ensures this.env == env
    {
      this.env := env;
    }

    /** _fetch. */
    method FetchOption(key: string) returns (r: Result<Fetched, Error>)
      requires Good(env)
      ensures r == Fetch(env.cfg, env.owner, key)
    {
      var current: nat := env.owner;
      while true
        invariant current < |env.cfg|
        invariant Fetch(env.cfg, current, key) == Fetch(env.cfg, env.owner, key)
        decreases current
      {
        var entries := env.cfg[current].entries;
        if key in entries { return Ok(Fetched(entries[key], current)); }
        if DEFAULT in entries {
          if !entries[DEFAULT].Sub? { return Fail(AttributeError); }
          var defaults := env.cfg[entries[DEFAULT].id].entries;
          if key in defaults { return Ok(Fetched(defaults[key], current)); }
        }
        if env.cfg[current].parent == current { return Fail(Missing(key)); }
        current := env.cfg[current].parent;
      }
    }

    /** recursive_interpolate. The trail is as before when it returns a value; after an exception it is
        abandoned. `universe` bounds the trail. */
    method RecursiveInterpolate(key: string, value: Value, section: nat, backtrail: Backtrail,
                                ghost universe: set<Mark>)
      returns (r: Result<string, Error>)
      requires Good(env) && section < |env.cfg|
      requires AllMarks(env.cfg) <= universe && (key, env.cfg[section].name) in universe
      modifies backtrail
      ensures var mark := (key, env.cfg[section].name);
              r == if mark in old(backtrail.marks) then Fail(Loop(key))
                   else if !value.Text? then Fail(TypeError)
                   else Scan(env, value.s, old(backtrail.marks) + {mark})
      ensures r.Ok? ==> backtrail.marks == old(backtrail.marks)
      decreases universe - backtrail.marks
    {
      hide Scan, Search, Lookup, Fetch, AllMarks, Replacement, Visit, Behind, SearchFrom, Valid;
      var mark := (key, env.cfg[section].name);
      if mark in backtrail.marks { return Fail(Loop(key)); }
      backtrail.marks := backtrail.marks + {mark};
      if !value.Text? { return Fail(TypeError); }

      ghost var trail := backtrail.marks;
      ghost var done, rest := "", value.s;
      var text := value.s;
      var match_ := SearchFrom(env.engine, text, 0);
      BehindNothing(Scan(env, rest, trail));
      assert done + rest == text;
      while match_.Some?
        invariant backtrail.marks == trail
        invariant text == done + rest
        invariant match_ == SearchFrom(env.engine, text, |done|)
        invariant Scan(env, value.s, trail) == Behind(done, Scan(env, rest, trail))
        decreases |rest|
      {
        var start, end := match_.value.start, match_.value.start + match_.value.match_.length;
        SearchInRest(env.engine, done, rest);
        ghost var found := Search(env.engine, rest).value;
        ScanStep(env, done, rest, trail, found);
        ghost var before, after := rest[..found.start], rest[found.start + found.match_.length..];
        assert text[..start] == done + before && text[end..] == after by {
          CutAt(done, rest, found.start);
          CutAt(done, rest, found.start + found.match_.length);
        }
        var replacement;
        match match_.value.match_.piece {
          case Literal(literal) =>
            replacement := literal;
            LiteralReplaced(env, literal, trail);
          case Ref(k) =>
            var fetched := FetchOption(k);
            RefReplaced(env, k, trail);
            if fetched.Fail? { return Fail(fetched.error); }
            var inner := RecursiveInterpolate(k, fetched.value.value, fetched.value.section, backtrail, universe);
            if inner.Fail? { return inner; }
            replacement := inner.value;
        }
        text := text[..start] + replacement + text[end..];
        done, rest := done + before + replacement, after;
        match_ := SearchFrom(env.engine, text, start + |replacement|);
      }
      SearchInRest(env.engine, done, rest);
      ScanEnd(env, done, rest, trail);
      backtrail.marks := backtrail.marks - {mark};
      r := Ok(text);
    }

    /** interpolate, for a value of an option of the owning section. */
    method Interpolate(key: string, value: string) returns (r: Result<string, Error>)
      requires Good(env)
      ensures r == Interpolated(env, key, value)
    {
      var backtrail := new Backtrail();
      ghost var mark := (key, env.cfg[env.owner].name);
      assert {} + {mark} == {mark};
      r := RecursiveInterpolate(key, Text(value), env.owner, backtrail, AllMarks(env.cfg) + {mark});
    }
  }

  /** _KEYCRE.search(value, start). */
  function SearchFrom(engine: Engine, value: string, start: nat): Option<Found>
    requires start <= |value|
  {
    match Search(engine, value[start..])
    case None => None
    case Some(f) => Some(Found(start + f.start, f.match_))
  }

  lemma SearchInRest(engine: Engine, done: string, rest: string)
    ensures SearchFrom(engine, done + rest, |done|) ==
            match Search(engine, rest)
            case None => None
            case Some(f) => Some(Found(|done| + f.start, f.match_))
  {
    assert (done + rest)[|done|..] == rest;
  }

  lemma CutAt(done: string, rest: string, i: nat)
    requires i <= |rest|
    ensures (done + rest)[..|done| + i] == done + rest[..i]
    ensures (done + rest)[|done| + i..] == rest[i..]
  {
  }

  function Behind(done: string, r: Result<string, Error>): Result<string, Error> {
    if r.Fail? then r else Ok(done + r.value)
  }

  lemma BehindNothing(r: Result<string, Error>)
    ensures Behind("", r) == r
  {
    if r.Ok? { assert "" + r.value == r.value; }
  }

  /** One turn of the loop: a replacement moves into the part that is done. */
  lemma ScanStep(env: Env, done: string, rest: string, trail: set<Mark>, f: Found)
    requires Good(env) && Search(env.engine, rest) == Some(f)
    ensures var text := Replacement(env, f.match_.piece, trail);
            Behind(done, Scan(env, rest, trail)) ==
            if text.Fail? then text
            else Behind(done + rest[..f.start] + text.value, Scan(env, rest[f.start + f.match_.length..], trail))
  {
    hide Search, Replacement;
    var text := Replacement(env, f.match_.piece, trail);
    var later := Scan(env, rest[f.start + f.match_.length..], trail);
    if text.Ok? && later.Ok? {
      Associate(done, rest[..f.start], text.value, later.value);
    }
  }

  lemma Associate(a: string, b: string, c: string, d: string)
    ensures a + (b + c + d) == a + b + c + d
  {
  }

  lemma ScanEnd(env: Env, done: string, rest: string, trail: set<Mark>)
    requires Good(env) && Search(env.engine, rest).None?
    ensures Behind(done, Scan(env, rest, trail)) == Ok(done + rest)
  {
  }

  lemma LiteralReplaced(env: Env, text: string, trail: set<Mark>)
    requires Good(env)
    ensures Replacement(env, Literal(text), trail) == Ok(text)
  {
  }

  lemma RefReplaced(env: Env, key: string, trail: set<Mark>)
    requires Good(env)
    ensures var fetched := Fetch(env.cfg, env.owner, key);
            if fetched.Fail? then Replacement(env, Ref(key), trail) == Fail(fetched.error)
            else
              var mark := (key, env.cfg[fetched.value.section].name);
              && mark in AllMarks(env.cfg)
              && Replacement(env, Ref(key), trail) ==
                 if mark in trail then Fail(Loop(key))
                 else if !fetched.value.value.Text? then Fail(TypeError)
                 else Scan(env, fetched.value.value.s, trail + {mark})
  {
    hide Scan;
    if Lookup(env, key).Ok? {
      LookupInMarks(env, key);
      var (value, mark) := Lookup(env, key).value;
      assert Replacement(env, Ref(key), trail) == Visit(env, value, mark, trail);
    }
  }
}
