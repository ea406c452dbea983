/** References inside option values: the two regular expressions, searching, and the division of a
    value into literal text and references. */
module InterpolationSyntax {
  import opened Wrappers

  /** The two interpolation engines. */
  datatype Engine = ConfigParser | Template

  /** What _parse_match makes of a match: a reference to look up, or final text. */
  datatype Piece = Ref(key: string) | Literal(text: string)

  /** A match of `length` characters. */
  datatype Match = Match(length: nat, piece: Piece)

  /** Length of the longest prefix without `c`. */
  function Until(s: string, c: char): (n: nat)
    ensures n <= |s| && c !in s[..n] && (n < |s| ==> s[n] == c)
  {
    if s == [] || s[0] == c then 0 else 1 + Until(s[1..], c)
  }

  predicate IsNameStart(c: char) {
    c == '_' || 'a' <= c <= 'z' || 'A' <= c <= 'Z'
  }

  predicate IsNameChar(c: char) {
    IsNameStart(c) || '0' <= c <= '9'
  }

  function NameLength(s: string): (n: nat)
    ensures n <= |s|
  {
    if s == [] || !IsNameChar(s[0]) then 0 else 1 + NameLength(s[1..])
  }

  /** A match of _KEYCRE at the beginning of `s`. */
  function MatchHere(engine: Engine, s: string): (m: Option<Match>)
    ensures m.Some? ==> 0 < m.value.length <= |s|
  {
    if |s| < 2 then None
    else
      match engine
      case ConfigParser =>
        if s[0] != '%' || s[1] != '(' then None
        else
          var n := Until(s[2..], ')');
          if n + 3 < |s| && s[n + 3] == 's' then Some(Match(n + 4, Ref(s[2..n + 2]))) else None
      case Template =>
        if s[0] != '$' then None
        else if s[1] == '$' then Some(Match(2, Literal("$")))
        else if IsNameStart(s[1]) then
          var n := NameLength(s[1..]);
          Some(Match(1 + n, Ref(s[1..n + 1])))
        else if s[1] == '{' then
          var n := Until(s[2..], '}');
          if n + 2 < |s| then Some(Match(n + 3, Ref(s[2..n + 2]))) else None
        else None
  }

  // ----- The two expressions in plain terms

  /** A letter or underscore, then letters, digits and underscores. */
  predicate IsName(key: string) {
    && key != [] && !('0' <= key[0] <= '9')
    && forall i :: 0 <= i < |key| ==>
         key[i] == '_' || 'a' <= key[i] <= 'z' || 'A' <= key[i] <= 'Z' || '0' <= key[i] <= '9'
  }

  /** What the expressions match at the beginning of `s`: %(key)s, or $$, ${key} and the longest $name. */
  predicate IsMatch(engine: Engine, s: string, m: Match) {
    if engine.ConfigParser? then
      m.piece.Ref? && ')' !in m.piece.key && m.length == |m.piece.key| + 4 && "%(" + m.piece.key + ")s" <= s
    else if m.piece.Literal? then
      m.piece.text == "$" && m.length == 2 && "$$" <= s
    else
      var key := m.piece.key;
      || ('}' !in key && m.length == |key| + 3 && "${" + key + "}" <= s)
      || (&& IsName(key) && m.length == |key| + 1 && "$" + key <= s
          && !(m.length < |s| && IsName(key + [s[m.length]])))
  }

  lemma {:induction false} UntilExactly(s: string, c: char, n: nat)
    requires n < |s|
    ensures n == Until(s, c) <==> c !in s[..n] && s[n] == c
  {
    if n > 0 {
      assert s[..n] == [s[0]] + s[1..][..n - 1];
      UntilExactly(s[1..], c, n - 1);
    }
  }

  /** A key between two other texts at the beginning of a string. */
  lemma FramedExactly(a: string, key: string, b: string, s: string)
    requires |a| + |key| + |b| <= |s|
    ensures var k := |a| + |key|;
            a + key + b <= s <==> s[..|a|] == a && s[|a|..k] == key && s[k..k + |b|] == b
  {
    var k := |a| + |key|;
    var whole := a + key + b;
    assert whole[..|a|] == a && whole[|a|..k] == key && whole[k..] == b;
    assert s[..|whole|] == s[..|a|] + s[|a|..k] + s[k..k + |b|];
  }

  lemma {:induction false} NameLengthExactly(s: string, k: nat)
    requires k <= |s|
    ensures k == NameLength(s) <==> (forall i :: 0 <= i < k ==> IsNameChar(s[i])) && (k < |s| ==> !IsNameChar(s[k]))
    decreases |s|
  {
    if s != [] && IsNameChar(s[0]) {
      if k > 0 {
        NameLengthExactly(s[1..], k - 1);
        assert forall i :: 0 < i < k ==> s[i] == s[1..][i - 1];
        assert forall i :: 0 <= i < k - 1 ==> s[1..][i] == s[i + 1];
      }
    }
  }

  /** A longer name. */
  lemma NameExtends(key: string, c: char)
    requires IsName(key)
    ensures IsName(key + [c]) <==> IsNameChar(c)
  {
    assert (key + [c])[|key|] == c;
    assert forall i :: 0 <= i < |key| ==> (key + [c])[i] == key[i];
  }

  /** Matching is exactly this. */
  lemma MatchHereExactly(engine: Engine, s: string, m: Match)
    ensures MatchHere(engine, s) == Some(m) <==> IsMatch(engine, s, m)
  {
    if engine.ConfigParser? { ReferenceExactly(s, m); } else { TemplateExactly(s, m); }
  }

  lemma ReferenceExactly(s: string, m: Match)
    ensures MatchHere(ConfigParser, s) == Some(m) <==> IsMatch(ConfigParser, s, m)
  {
    if m.piece.Ref? && |m.piece.key| + 4 <= |s| {
      var key := m.piece.key;
      FramedExactly("%(", key, ")s", s);
      TwoChars(s, 0, '%', '(');
      TwoChars(s, |key| + 2, ')', 's');
      UntilExactly(s[2..], ')', |key|);
      assert s[2..][..|key|] == s[2..|key| + 2] && s[2..][|key|] == s[|key| + 2];
    }
  }

  lemma TwoChars(s: string, i: nat, c: char, d: char)
    requires i + 2 <= |s|
    ensures s[i..i + 2] == [c, d] <==> s[i] == c && s[i + 1] == d
  {
    assert s[i..i + 2] == [s[i], s[i + 1]];
  }

  lemma TemplateExactly(s: string, m: Match)
    ensures MatchHere(Template, s) == Some(m) <==> IsMatch(Template, s, m)
  {
    hide IsMatch;
    MatchHasTwo(s, m);
    if |s| >= 2 && s[0] == '$' {
      if s[1] == '$' { EscapedExactly(s, m); }
      else if IsNameStart(s[1]) { NamedExactly(s, m); }
      else if s[1] == '{' { BracedExactly(s, m); }
      else { NothingElse(s, m); }
    }
  }

  lemma MatchHasTwo(s: string, m: Match)
    ensures IsMatch(Template, s, m) ==> |s| >= 2 && s[0] == '$'
  {
    if IsMatch(Template, s, m) && m.piece.Ref? {
      var key := m.piece.key;
      assert ("${" + key + "}")[0] == '$' && ("$" + key)[0] == '$';
    }
  }

  lemma NothingElse(s: string, m: Match)
    requires |s| >= 2 && s[0] == '$' && s[1] != '$' && s[1] != '{' && !IsNameStart(s[1])
    ensures !IsMatch(Template, s, m)
  {
    assert "$$"[1] == '$';
    if m.piece.Ref? {
      NotBraced(s, m.piece.key);
      NotNamed(s, m.piece.key);
    }
  }

  lemma EscapedExactly(s: string, m: Match)
    requires |s| >= 2 && s[0] == '$' && s[1] == '$'
    ensures IsMatch(Template, s, m) <==> m == Match(2, Literal("$"))
  {
    assert s[..2] == "$$";
    if m.piece.Ref? {
      NotBraced(s, m.piece.key);
      NotNamed(s, m.piece.key);
    }
  }

  lemma NamedExactly(s: string, m: Match)
    requires |s| >= 2 && s[0] == '$' && IsNameStart(s[1])
    ensures IsMatch(Template, s, m) <==> m == Match(1 + NameLength(s[1..]), Ref(s[1..NameLength(s[1..]) + 1]))
  {
    var n := NameLength(s[1..]);
    var name := s[1..n + 1];
    NameLengthExactly(s[1..], n);
    assert s[1..][..n] == name && s[..n + 1] == "$" + name;
    assert IsName(name) by { assert forall i :: 0 <= i < n ==> name[i] == s[1..][i]; }
    if n + 1 < |s| {
      assert s[1..][n] == s[n + 1];
      NameExtends(name, s[n + 1]);
    }
    if IsMatch(Template, s, m) {
      NotLiteral(s, m);
      var key := m.piece.key;
      NotBraced(s, key);
      assert s[..|key| + 1] == "$" + key;
      assert key == s[1..][..|key|];
      if |key| + 1 < |s| {
        NameExtends(key, s[|key| + 1]);
        assert s[1..][|key|] == s[|key| + 1];
      }
      NameLengthExactly(s[1..], |key|);
    }
  }

  lemma NotLiteral(s: string, m: Match)
    requires |s| >= 2 && s[1] != '$' && IsMatch(Template, s, m)
    ensures m.piece.Ref?
  {
    assert "$$"[1] == '$';
  }

  lemma NotBraced(s: string, key: string)
    requires |s| >= 2 && s[1] != '{'
    ensures !("${" + key + "}" <= s)
  {
    assert ("${" + key + "}")[1] == '{';
  }

  lemma NotNamed(s: string, key: string)
    requires |s| >= 2 && !IsNameStart(s[1])
    ensures !(IsName(key) && "$" + key <= s)
  {
    if key != [] { assert ("$" + key)[1] == key[0]; }
  }

  lemma BracedExactly(s: string, m: Match)
    requires |s| >= 2 && s[0] == '$' && s[1] == '{'
    ensures IsMatch(Template, s, m) <==> MatchHere(Template, s) == Some(m)
  {
    assert "$$"[1] == '$';
    if m.piece.Ref? {
      var key := m.piece.key;
      NotNamed(s, key);
      if |key| + 3 <= |s| {
        FramedExactly("${", key, "}", s);
        TwoChars(s, 0, '$', '{');
        UntilExactly(s[2..], '}', |key|);
        assert s[|key| + 2..|key| + 3] == [s[|key| + 2]];
        assert s[2..][..|key|] == s[2..|key| + 2] && s[2..][|key|] == s[|key| + 2];
      }
    }
  }

  datatype Found = Found(start: nat, match_: Match)

  /** The leftmost match in `s`. */
  function Search(engine: Engine, s: string): (f: Option<Found>)
    ensures f.Some? ==> f.value.start + f.value.match_.length <= |s| && f.value.match_.length > 0
    decreases |s|
  {
    if s == [] then None
    else
      var here := MatchHere(engine, s);
      if here.Some? then Some(Found(0, here.value))
      else
        match Search(engine, s[1..])
        case None => None
        case Some(f) => Some(Found(f.start + 1, f.match_))
  }

  /** Search finds a match exactly where one begins, and the first such place. */
  lemma {:induction false} SearchIsLeftmost(engine: Engine, s: string)
    ensures var f := Search(engine, s);
            && (f.None? ==> forall i :: 0 <= i < |s| ==> MatchHere(engine, s[i..]).None?)
            && (f.Some? ==> MatchHere(engine, s[f.value.start..]) == Some(f.value.match_)
                            && forall i :: 0 <= i < f.value.start ==> MatchHere(engine, s[i..]).None?)
    decreases |s|
  {
    hide MatchHere;
    if s != [] {
      assert s[0..] == s;
      SearchIsLeftmost(engine, s[1..]);
      forall i | 1 <= i <= |s|
        ensures s[i..] == s[1..][i - 1..]
      {
      }
    }
  }
}
