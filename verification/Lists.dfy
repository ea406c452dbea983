/** JavaScript's arrays as sequences: `indexOf`, and `splice` of one element. */
module Lists {

  predicate NoRepeats<T(==)>(s: seq<T>) {
    forall i, j :: 0 <= i < j < |s| ==> s[i] != s[j]
  }

  /** The first position of x, or -1. */
  function IndexOf<T(==)>(s: seq<T>, x: T): (k: int)
    ensures if x in s then 0 <= k < |s| && s[k] == x && x !in s[..k] else k == -1
  {
    if s == [] then -1
    else if s[0] == x then 0
    else
      var k := IndexOf(s[1..], x);
      assert k >= 0 ==> s[..k + 1] == [s[0]] + s[1..][..k];
      if k == -1 then -1 else k + 1
  }

  function RemoveAt<T>(s: seq<T>, k: nat): (r: seq<T>)
    requires k < |s|
    ensures |r| == |s| - 1
  {
    s[..k] + s[k + 1..]
  }

  /** The list without the first occurrence of x. */
  function Without<T(==)>(s: seq<T>, x: T): seq<T> {
    var k := IndexOf(s, x);
    if k == -1 then s else RemoveAt(s, k)
  }

  function InsertAt<T>(s: seq<T>, k: nat, x: T): (r: seq<T>)
    requires k <= |s|
    ensures |r| == |s| + 1
  {
    s[..k] + [x] + s[k..]
  }

  lemma RemoveMembers<T>(s: seq<T>, k: nat)
    requires NoRepeats(s) && k < |s|
    ensures NoRepeats(RemoveAt(s, k))
    ensures forall x :: x in RemoveAt(s, k) <==> x in s && x != s[k]
  {
    var r := RemoveAt(s, k);
    forall x ensures x in r <==> x in s && x != s[k] {
      if x in s && x != s[k] {
        var i :| 0 <= i < |s| && s[i] == x;
        assert r[if i < k then i else i - 1] == x;
      }
    }
  }

  lemma InsertMembers<T>(s: seq<T>, k: nat, x: T)
    requires NoRepeats(s) && k <= |s| && x !in s
    ensures NoRepeats(InsertAt(s, k, x))
    ensures forall y :: y in InsertAt(s, k, x) <==> y in s || y == x
  {
    var r := InsertAt(s, k, x);
    assert r[k] == x;
    assert forall i :: 0 <= i < k ==> r[i] == s[i];
    assert forall i :: k < i < |r| ==> r[i] == s[i - 1];
    forall y ensures y in r <==> y in s || y == x {
      if y in s {
        var i :| 0 <= i < |s| && s[i] == y;
        assert r[if i < k then i else i + 1] == y;
      }
    }
  }

  lemma RemovedBag<T>(s: seq<T>, k: nat)
    requires k < |s|
    ensures multiset(RemoveAt(s, k)) == multiset(s) - multiset{s[k]}
  {
    assert s == s[..k] + [s[k]] + s[k + 1..];
  }

  lemma InsertedBag<T>(s: seq<T>, k: nat, x: T)
    requires k <= |s|
    ensures multiset(InsertAt(s, k, x)) == multiset(s) + multiset{x}
  {
    assert s == s[..k] + s[k..];
  }

  lemma InBag<T>(a: seq<T>, b: seq<T>, d: seq<T>, x: T)
    requires multiset(b) <= multiset(a) && x in b + d
    ensures x in a + d
  {
    if x in b { assert x in multiset(b) && x in multiset(a); }
  }

  lemma {:induction false} FirstIndex<T>(s: seq<T>, i: nat, x: T)
    requires i < |s| && s[i] == x && x !in s[..i]
    ensures IndexOf(s, x) == i
  {
    if i > 0 {
      assert s[..i] == [s[0]] + s[1..][..i - 1];
      FirstIndex(s[1..], i - 1, x);
    }
  }

  lemma IndexInConcat<T>(a: seq<T>, b: seq<T>, x: T)
    requires x in a || x in b
    ensures x in a + b
    ensures IndexOf(a + b, x) == if x in a then IndexOf(a, x) else |a| + IndexOf(b, x)
  {
    var i := if x in a then IndexOf(a, x) else |a| + IndexOf(b, x);
    hide IndexOf;
    assert (a + b)[i] == x;
    assert (a + b)[..i] == if x in a then a[..i] else a + b[..i - |a|];
    FirstIndex(a + b, i, x);
  }

  lemma RemoveInConcat<T>(a: seq<T>, b: seq<T>, k: nat)
    requires k < |a| + |b|
    ensures k < |a| ==> RemoveAt(a + b, k) == RemoveAt(a, k) + b
    ensures k >= |a| ==> RemoveAt(a + b, k) == a + RemoveAt(b, k - |a|)
  {
    if k < |a| {
      assert (a + b)[k + 1..] == a[k + 1..] + b;
    } else {
      assert (a + b)[..k] == a + b[..k - |a|] && (a + b)[k + 1..] == b[k - |a| + 1..];
    }
  }

  lemma RemoveThenInsert<T>(s: seq<T>, k: nat, x: T)
    requires k < |s|
    ensures InsertAt(RemoveAt(s, k), k, x) == s[k := x]
  {
    assert RemoveAt(s, k)[..k] == s[..k] && RemoveAt(s, k)[k..] == s[k + 1..];
  }
}
