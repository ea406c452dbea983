/** String interpolation over a tree of sections: look-up, the depth-first expansion with its
    backtrail, and what the expansion means. */
module InterpolationSpec {
  import opened InterpolationSyntax
  import opened Wrappers

  /** An option value, a subsection, or a value that is neither (a list, say). */
  datatype Value = Text(s: string) | Sub(id: nat) | Other

  /** The root section has no name. */
  datatype Name = Unnamed | Named(name: string)

  datatype Section = Section(name: Name, parent: nat, entries: map<string, Value>)

  /** All sections; section 0 is the root and its own parent. */
  type Config = seq<Section>

  predicate Valid(cfg: Config) {
    && cfg != [] && cfg[0].parent == 0
    && (forall i :: 0 < i < |cfg| ==> cfg[i].parent < i)
    && (forall i, k :: 0 <= i < |cfg| && k in cfg[i].entries && cfg[i].entries[k].Sub? ==> cfg[i].entries[k].id < |cfg|)
  }

  /** Exceptions: a missing option, a loop (with the option reported), a value or a DEFAULT entry of
      the wrong type. */
  datatype Error = Missing(key: string) | Loop(key: string) | TypeError | AttributeError

  datatype Fetched = Fetched(value: Value, section: nat)

  const DEFAULT := "DEFAULT"

  /** `a` is the section itself, its parent, the parent of that, and so on. */
  predicate IsAncestor(cfg: Config, a: nat, section: nat)
    requires Valid(cfg) && section < |cfg|
    decreases section
  {
    a == section || (section > 0 && IsAncestor(cfg, a, cfg[section].parent))
  }

  /** _fetch: this section, its DEFAULT subsection, then the same for the parent. The section reported
      is the one whose DEFAULT was consulted, not the DEFAULT section itself. */
  function Fetch(cfg: Config, section: nat, key: string): (r: Result<Fetched, Error>)
    requires Valid(cfg) && section < |cfg|
    ensures r.Ok? ==> r.value.section <= section && IsAncestor(cfg, r.value.section, section)
    decreases section
  {
    var entries := cfg[section].entries;
    if key in entries then Ok(Fetched(entries[key], section))
    else if DEFAULT in entries && !entries[DEFAULT].Sub? then Fail(AttributeError)
    else if DEFAULT in entries && key in cfg[entries[DEFAULT].id].entries then
      Ok(Fetched(cfg[entries[DEFAULT].id].entries[key], section))
    else if cfg[section].parent == section then Fail(Missing(key))
    else
      if section > 0 then Fetch(cfg, cfg[section].parent, key) else Fail(Missing(key))
  }

  // ----- What a look-up finds

  predicate HasOwn(cfg: Config, s: nat, key: string)
    requires s < |cfg|
  {
    key in cfg[s].entries
  }

  /** The section has a DEFAULT subsection with the key. */
  predicate HasDefault(cfg: Config, s: nat, key: string)
    requires Valid(cfg) && s < |cfg|
  {
    var entries := cfg[s].entries;
    DEFAULT in entries && entries[DEFAULT].Sub? && key in cfg[entries[DEFAULT].id].entries
  }

  predicate Has(cfg: Config, s: nat, key: string)
    requires Valid(cfg) && s < |cfg|
  {
    HasOwn(cfg, s, key) || HasDefault(cfg, s, key)
  }

  function ValueIn(cfg: Config, s: nat, key: string): Value
    requires Valid(cfg) && s < |cfg| && Has(cfg, s, key)
  {
    if HasOwn(cfg, s, key) then cfg[s].entries[key] else cfg[cfg[s].entries[DEFAULT].id].entries[key]
  }

  /** DEFAULT is an option, not a section. */
  predicate HasBadDefault(cfg: Config, s: nat)
    requires s < |cfg|
  {
    DEFAULT in cfg[s].entries && !cfg[s].entries[DEFAULT].Sub?
  }

  /** A section, its parent, and so on up to the root. */
  predicate IsChain(cfg: Config, chain: seq<nat>) {
    && chain != [] && (forall k :: 0 <= k < |chain| ==> chain[k] < |cfg|)
    && (forall k :: 0 <= k < |chain| - 1 ==> chain[k] != 0 && chain[k + 1] == cfg[chain[k]].parent)
    && chain[|chain| - 1] == 0
  }

  /** Nothing in the sections before the k-th ends the search. */
  predicate Passes(cfg: Config, chain: seq<nat>, k: nat, key: string)
    requires Valid(cfg) && IsChain(cfg, chain) && k <= |chain|
  {
    forall j :: 0 <= j < k ==> !Has(cfg, chain[j], key) && !HasBadDefault(cfg, chain[j])
  }

  /** The search stops at the k-th section of the chain, with its own value or that of its DEFAULT section. */
  predicate FoundAt(cfg: Config, chain: seq<nat>, k: nat, key: string)
    requires Valid(cfg) && IsChain(cfg, chain) && k < |chain|
  {
    Passes(cfg, chain, k, key) && Has(cfg, chain[k], key)
  }

  predicate BadAt(cfg: Config, chain: seq<nat>, k: nat, key: string)
    requires Valid(cfg) && IsChain(cfg, chain) && k < |chain|
  {
    Passes(cfg, chain, k, key) && !HasOwn(cfg, chain[k], key) && HasBadDefault(cfg, chain[k])
  }

  lemma ChainExists(cfg: Config, section: nat) returns (chain: seq<nat>)
    requires Valid(cfg) && section < |cfg|
    ensures IsChain(cfg, chain) && chain[0] == section
    decreases section
  {
    if section == 0 {
      chain := [0];
    } else {
      var rest := ChainExists(cfg, cfg[section].parent);
      chain := [section] + rest;
    }
  }

  /** A look-up, exactly: the nearest section up the chain that has the key, its own value before that of
      its DEFAULT section. It is missing if and only if no section up to the root has it and none has a
      DEFAULT of the wrong type; such a one met first is the other error. */
  lemma {:induction false} FetchIsNearest(cfg: Config, chain: seq<nat>, key: string)
    requires Valid(cfg) && IsChain(cfg, chain)
    ensures var r := Fetch(cfg, chain[0], key);
            && (forall k :: 0 <= k < |chain| && FoundAt(cfg, chain, k, key) ==>
                  r == Ok(Fetched(ValueIn(cfg, chain[k], key), chain[k])))
            && (r == Fail(Missing(key)) <==> Passes(cfg, chain, |chain|, key))
            && (r == Fail(AttributeError) <==> exists k :: 0 <= k < |chain| && BadAt(cfg, chain, k, key))
            && (r.Ok? <==> exists k :: 0 <= k < |chain| && FoundAt(cfg, chain, k, key))
    decreases |chain|
  {
    hide Valid;
    var rest := chain[1..];
    if Has(cfg, chain[0], key) {
      assert FoundAt(cfg, chain, 0, key);
    } else if HasBadDefault(cfg, chain[0]) {
      assert BadAt(cfg, chain, 0, key);
    } else if |chain| > 1 {
      assert IsChain(cfg, rest);
      FetchIsNearest(cfg, rest, key);
      forall k | 0 < k <= |chain|
        ensures Passes(cfg, chain, k, key) <==> Passes(cfg, rest, k - 1, key)
      {
        PassesLater(cfg, chain, k, key);
      }
      forall k | 0 < k < |chain|
        ensures FoundAt(cfg, chain, k, key) <==> FoundAt(cfg, rest, k - 1, key)
        ensures BadAt(cfg, chain, k, key) <==> BadAt(cfg, rest, k - 1, key)
      {
        assert chain[k] == rest[k - 1];
      }
      hide FoundAt, BadAt, Fetch;
      LaterOnly(cfg, chain, key);
      if k :| 0 <= k < |rest| && FoundAt(cfg, rest, k, key) { assert FoundAt(cfg, chain, k + 1, key); }
      if k :| 0 <= k < |chain| && FoundAt(cfg, chain, k, key) { assert FoundAt(cfg, rest, k - 1, key); }
      if k :| 0 <= k < |rest| && BadAt(cfg, rest, k, key) { assert BadAt(cfg, chain, k + 1, key); }
      if k :| 0 <= k < |chain| && BadAt(cfg, chain, k, key) { assert BadAt(cfg, rest, k - 1, key); }
      FetchFromParent(cfg, chain, key);
    }
  }

  lemma LaterOnly(cfg: Config, chain: seq<nat>, key: string)
    requires Valid(cfg) && IsChain(cfg, chain) && !Has(cfg, chain[0], key) && !HasBadDefault(cfg, chain[0])
    ensures !FoundAt(cfg, chain, 0, key) && !BadAt(cfg, chain, 0, key)
  {
    hide Valid;
  }

  lemma FetchFromParent(cfg: Config, chain: seq<nat>, key: string)
    requires Valid(cfg) && IsChain(cfg, chain) && |chain| > 1
    requires !Has(cfg, chain[0], key) && !HasBadDefault(cfg, chain[0])
    ensures Fetch(cfg, chain[0], key) == Fetch(cfg, chain[1], key)
  {
  }

  lemma PassesLater(cfg: Config, chain: seq<nat>, k: nat, key: string)
    requires Valid(cfg) && IsChain(cfg, chain) && 0 < k <= |chain| && |chain| > 1 && IsChain(cfg, chain[1..])
    ensures Passes(cfg, chain, k, key) <==>
      !Has(cfg, chain[0], key) && !HasBadDefault(cfg, chain[0]) && Passes(cfg, chain[1..], k - 1, key)
  {
    hide Has, HasBadDefault, Valid;
    if Passes(cfg, chain, k, key) {
      forall j | 0 <= j < k - 1
        ensures !Has(cfg, chain[1..][j], key) && !HasBadDefault(cfg, chain[1..][j])
      {
        assert chain[1..][j] == chain[j + 1];
      }
    }
    if Passes(cfg, chain[1..], k - 1, key) {
      forall j | 0 < j < k
        ensures !Has(cfg, chain[j], key) && !HasBadDefault(cfg, chain[j])
      {
        assert chain[j] == chain[1..][j - 1];
      }
    }
  }

  /** Who interpolates: the engine, the configuration and the section that owns the engine. Every
      look-up starts at that section. */
  datatype Env = Env(engine: Engine, cfg: Config, owner: nat)

  predicate Good(env: Env) {
    Valid(env.cfg) && env.owner < |env.cfg|
  }

  /** An entry of the backtrail. */
  type Mark = (string, Name)

  /** The value of an option and its mark, or why there is none. */
  function Lookup(env: Env, key: string): Result<(Value, Mark), Error>
    requires Good(env)
  {
    match Fetch(env.cfg, env.owner, key)
    case Fail(e) => Fail(e)
    case Ok(f) => Ok((f.value, (key, env.cfg[f.section].name)))
  }

  /** The mark names the section where the search stopped, not its DEFAULT section. */
  lemma LookupIsNearest(env: Env, chain: seq<nat>, k: nat, key: string)
    requires Good(env) && IsChain(env.cfg, chain) && chain[0] == env.owner && k < |chain|
    requires FoundAt(env.cfg, chain, k, key)
    ensures Lookup(env, key) == Ok((ValueIn(env.cfg, chain[k], key), (key, env.cfg[chain[k]].name)))
  {
    hide Fetch, FoundAt, Valid;
    FetchIsNearest(env.cfg, chain, key);
  }

  // ----- Termination: marks come from a finite set

  function AllKeys(cfg: Config): set<string> {
    set i, k | 0 <= i < |cfg| && k in cfg[i].entries :: k
  }

  function AllMarks(cfg: Config): set<Mark> {
    set k, i | k in AllKeys(cfg) && 0 <= i < |cfg| :: (k, cfg[i].name)
  }

  lemma {:induction false} FetchedIsKey(cfg: Config, section: nat, key: string)
    requires Valid(cfg) && section < |cfg| && Fetch(cfg, section, key).Ok?
    ensures key in AllKeys(cfg)
    decreases section
  {
    var entries := cfg[section].entries;
    if key in entries {
    } else if DEFAULT in entries && key in cfg[entries[DEFAULT].id].entries {
    } else {
      FetchedIsKey(cfg, cfg[section].parent, key);
    }
  }

  lemma LookupInMarks(env: Env, key: string)
    requires Good(env) && Lookup(env, key).Ok?
    ensures Lookup(env, key).value.1 in AllMarks(env.cfg)
  {
    FetchedIsKey(env.cfg, env.owner, key);
  }

  // ----- recursive_interpolate

  /** One option: a loop if its mark is already on the trail, else its value with the mark added. Only
      text can be searched for references. */
  function Visit(env: Env, value: Value, mark: Mark, trail: set<Mark>): Result<string, Error>
    requires Good(env) && mark in AllMarks(env.cfg)
    decreases AllMarks(env.cfg) - trail, 0, 0
  {
    if mark in trail then Fail(Loop(mark.0))
    else if !value.Text? then Fail(TypeError)
    else Scan(env, value.s, trail + {mark})
  }

  /** A value with its references replaced, from left to right; the first error ends it. */
  function Scan(env: Env, value: string, trail: set<Mark>): Result<string, Error>
    requires Good(env)
    decreases AllMarks(env.cfg) - trail, 2, |value|
  {
    match Search(env.engine, value)
    case None => Ok(value)
    case Some(f) =>
      match Replacement(env, f.match_.piece, trail)
      case Fail(e) => Fail(e)
      case Ok(text) =>
        match Scan(env, value[f.start + f.match_.length..], trail)
        case Fail(e) => Fail(e)
        case Ok(rest) => Ok(value[..f.start] + text + rest)
  }

  function Replacement(env: Env, piece: Piece, trail: set<Mark>): Result<string, Error>
    requires Good(env)
    decreases AllMarks(env.cfg) - trail, 1, 0
  {
    match piece
    case Literal(text) => Ok(text)
    case Ref(key) =>
      match Lookup(env, key)
      case Fail(e) => Fail(e)
      case Ok((value, mark)) =>
        LookupInMarks(env, key);
        Visit(env, value, mark, trail)
  }

  /** interpolate: `key` is the option whose value is being interpolated. */
  function Interpolated(env: Env, key: string, value: string): Result<string, Error>
    requires Good(env)
  {
    Scan(env, value, {(key, env.cfg[env.owner].name)})
  }

  // ----- References

  /** Keys that a value refers to. */
  function Refs(engine: Engine, value: string): set<string>
    decreases |value|
  {
    match Search(engine, value)
    case None => {}
    case Some(f) =>
      (if f.match_.piece.Ref? then {f.match_.piece.key} else {}) + Refs(engine, value[f.start + f.match_.length..])
  }

  predicate Resolves(env: Env, key: string)
    requires Good(env)
  {
    Lookup(env, key).Ok? && Lookup(env, key).value.0.Text?
  }

  function TextOf(env: Env, key: string): string
    requires Good(env) && Resolves(env, key)
  {
    Lookup(env, key).value.0.s
  }

  function RefsOf(env: Env, key: string): set<string>
    requires Good(env)
  {
    if Resolves(env, key) then Refs(env.engine, TextOf(env, key)) else {}
  }

  /** A chain of references, each key referring to the next. */
  predicate IsPath(env: Env, p: seq<string>)
    requires Good(env)
  {
    && p != []
    && (forall i :: 0 <= i < |p| ==> Resolves(env, p[i]))
    && (forall i :: 0 <= i < |p| - 1 ==> p[i + 1] in RefsOf(env, p[i]))
  }

  /** The last key has the mark of an earlier one. */
  predicate Closes(env: Env, p: seq<string>)
    requires Good(env) && IsPath(env, p)
  {
    exists i :: 0 <= i < |p| - 1 && p[i] == p[|p| - 1]
  }

  function MarkOf(env: Env, key: string): Mark
    requires Good(env) && Resolves(env, key)
  {
    Lookup(env, key).value.1
  }

  lemma MarkHasKey(env: Env, key: string)
    requires Good(env) && Resolves(env, key)
    ensures MarkOf(env, key).0 == key && MarkOf(env, key) in AllMarks(env.cfg)
  {
    LookupInMarks(env, key);
  }

  /** A path from a reference of the value that comes back to itself or to a mark on the trail. */
  ghost predicate HasLoop(env: Env, value: string, trail: set<Mark>)
    requires Good(env)
  {
    exists p :: IsPath(env, p) && p[0] in Refs(env.engine, value)
        && (Closes(env, p) || MarkOf(env, p[|p| - 1]) in trail)
  }

  /** Every reference met on the way resolves to text. */
  ghost predicate AllResolve(env: Env, value: string)
    requires Good(env)
  {
    && (forall k :: k in Refs(env.engine, value) ==> Resolves(env, k))
    && (forall p :: IsPath(env, p) && p[0] in Refs(env.engine, value) ==>
          forall k :: k in RefsOf(env, p[|p| - 1]) ==> Resolves(env, k))
  }

  // ----- Meaning

  /** The value with its references replaced by their full values, to a given depth of references. No
      trail, no errors: None if the depth does not suffice or a reference does not resolve. */
  function Expand(env: Env, depth: nat, value: string): Option<string>
    requires Good(env)
    decreases depth, |value|
  {
    match Search(env.engine, value)
    case None => Some(value)
    case Some(f) =>
      match ExpandPiece(env, depth, f.match_.piece)
      case None => None
      case Some(text) =>
        match Expand(env, depth, value[f.start + f.match_.length..])
        case None => None
        case Some(rest) => Some(value[..f.start] + text + rest)
  }

  function ExpandPiece(env: Env, depth: nat, piece: Piece): Option<string>
    requires Good(env)
    decreases depth, 0
  {
    match piece
    case Literal(text) => Some(text)
    case Ref(key) =>
      if depth == 0 || !Resolves(env, key) then None else Expand(env, depth - 1, TextOf(env, key))
  }
}
