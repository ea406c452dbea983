/** The order of the conversation list, and the binary search that keeps it. */
module ConvOrder {
  import opened Lists

  /** What conversations are compared by: score, status, and the rank of the lower-case name in the
      collation order. */
  datatype Key = Key(score: real, status: int, name: int)

  function Sign(x: real): int {
    if x > 0.0 then 1 else if x < 0.0 then -1 else 0
  }

  /** Negative if a comes before b, positive if after. */
  function Compare(a: Key, b: Key): real {
    if Sign(b.score) != Sign(a.score) then (Sign(b.score) - Sign(a.score)) as real
    else if b.score != a.score then b.score - a.score
    else if b.status != a.status then (b.status - a.status) as real
    else (a.name - b.name) as real
  }

  /** Comparing the signs first changes nothing: the higher score comes first, then the higher status,
      then the smaller name. */
  lemma CompareIsLexicographic(a: Key, b: Key)
    ensures Compare(a, b) < 0.0 <==>
      a.score > b.score || (a.score == b.score && (a.status > b.status || (a.status == b.status && a.name < b.name)))
    ensures Compare(a, b) == 0.0 <==> a == b
    ensures Compare(a, b) < 0.0 <==> Compare(b, a) > 0.0
  {
  }

  lemma CompareIsTransitive(a: Key, b: Key, c: Key)
    requires Compare(a, b) <= 0.0 && Compare(b, c) <= 0.0
    ensures Compare(a, c) <= 0.0
    ensures Compare(a, b) < 0.0 || Compare(b, c) < 0.0 ==> Compare(a, c) < 0.0
  {
    CompareIsLexicographic(a, b);
    CompareIsLexicographic(b, c);
    CompareIsLexicographic(a, c);
    hide Compare;
  }

  lemma HigherSignFirst(a: Key, b: Key)
    requires Sign(a.score) > Sign(b.score)
    ensures Compare(a, b) < 0.0
  {
  }

  predicate Sorted(keys: seq<Key>) {
    forall i, j :: 0 <= i < j < |keys| ==> Compare(keys[i], keys[j]) <= 0.0
  }

  /** The keys from `lo` to `hi` have scores of one sign. */
  predicate Tier(keys: seq<Key>, lo: nat, hi: nat, sign: int)
    requires lo <= hi <= |keys|
  {
    forall i :: lo <= i < hi ==> Sign(keys[i].score) == sign
  }

  /** What comparing the signs is for: a sorted list begins with the positive scores, then come the
      zeros, then the negative ones. */
  lemma SortedInTiers(keys: seq<Key>) returns (m: nat, n: nat)
    requires Sorted(keys)
    ensures m <= n <= |keys| && Tier(keys, 0, m, 1) && Tier(keys, m, n, 0) && Tier(keys, n, |keys|, -1)
  {
    hide Compare;
    m := 0;
    while m < |keys| && Sign(keys[m].score) == 1
      invariant m <= |keys| && Tier(keys, 0, m, 1)
    {
      m := m + 1;
    }
    n := m;
    while n < |keys| && Sign(keys[n].score) == 0
      invariant m <= n <= |keys| && Tier(keys, m, n, 0)
    {
      n := n + 1;
    }
    forall i | n <= i < |keys|
      ensures Sign(keys[i].score) == -1
    {
      NoHigherSignLater(keys, m, n);
      NoHigherSignLater(keys, n, i);
    }
  }

  lemma NoHigherSignLater(keys: seq<Key>, i: nat, j: nat)
    requires Sorted(keys) && i <= j < |keys|
    ensures Sign(keys[j].score) <= Sign(keys[i].score)
  {
    if Sign(keys[j].score) > Sign(keys[i].score) {
      HigherSignFirst(keys[j], keys[i]);
      CompareIsLexicographic(keys[j], keys[i]);
    }
  }

  /** The position behind everything that is not after k. */
  predicate UpperBound(keys: seq<Key>, k: Key, p: nat) {
    && p <= |keys|
    && (forall i :: 0 <= i < p ==> Compare(keys[i], k) <= 0.0)
    && (forall i :: p <= i < |keys| ==> Compare(k, keys[i]) < 0.0)
  }

  /** The binary search between two positions. */
  function Search(keys: seq<Key>, k: Key, start: nat, end: nat): (p: nat)
    requires start <= end <= |keys|
    ensures start <= p <= end
    decreases end - start
  {
    if start == end then end
    else
      var middle := (start + end) / 2;
      if Compare(k, keys[middle]) < 0.0 then Search(keys, k, start, middle) else Search(keys, k, middle + 1, end)
  }

  /** Where a conversation goes: at the end if it is not before the last one. */
  function Position(keys: seq<Key>, k: Key): (p: nat)
    ensures p <= |keys|
  {
    if keys == [] || Compare(k, keys[|keys| - 1]) >= 0.0 then |keys| else Search(keys, k, 0, |keys|)
  }

  lemma {:induction false} SearchFinds(keys: seq<Key>, k: Key, start: nat, end: nat)
    requires start <= end <= |keys| && Sorted(keys)
    requires forall i :: 0 <= i < start ==> Compare(keys[i], k) <= 0.0
    requires forall i :: end <= i < |keys| ==> Compare(k, keys[i]) < 0.0
    ensures UpperBound(keys, k, Search(keys, k, start, end))
    decreases end - start
  {
    if start < end {
      var middle := (start + end) / 2;
      if Compare(k, keys[middle]) < 0.0 {
        forall i | middle <= i < |keys| ensures Compare(k, keys[i]) < 0.0 {
          if i > middle { CompareIsTransitive(k, keys[middle], keys[i]); }
        }
        SearchFinds(keys, k, start, middle);
      } else {
        forall i | 0 <= i < middle + 1 ensures Compare(keys[i], k) <= 0.0 {
          CompareIsLexicographic(k, keys[middle]);
          if i < middle { CompareIsTransitive(keys[i], keys[middle], k); }
        }
        hide Compare, Sorted;
        SearchFinds(keys, k, middle + 1, end);
      }
    }
  }

  /** In a sorted list the position is behind all equals and before everything greater. */
  lemma PositionIsUpperBound(keys: seq<Key>, k: Key)
    requires Sorted(keys)
    ensures UpperBound(keys, k, Position(keys, k))
  {
    if keys != [] && Compare(k, keys[|keys| - 1]) < 0.0 {
      SearchFinds(keys, k, 0, |keys|);
    } else if keys != [] {
      var last := keys[|keys| - 1];
      CompareIsLexicographic(k, last);
      forall i | 0 <= i < |keys| ensures Compare(keys[i], k) <= 0.0 {
        if i < |keys| - 1 { CompareIsTransitive(keys[i], last, k); }
      }
    }
  }

  /** A sorted list has only one such position, so the search and its shortcut cannot disagree. */
  lemma UpperBoundIsUnique(keys: seq<Key>, k: Key, p: nat, q: nat)
    requires UpperBound(keys, k, p) && UpperBound(keys, k, q)
    ensures p == q
  {
    if p < q { CompareIsLexicographic(keys[p], k); }
    if q < p { CompareIsLexicographic(keys[q], k); }
  }

  lemma InsertKeepsSorted(keys: seq<Key>, k: Key)
    requires Sorted(keys)
    ensures Sorted(InsertAt(keys, Position(keys, k), k))
  {
    PositionIsUpperBound(keys, k);
    hide Compare, Position;
    var p := Position(keys, k);
    var r := InsertAt(keys, p, k);
    forall i, j | 0 <= i < j < |r| ensures Compare(r[i], r[j]) <= 0.0 {
      assert i != p ==> r[i] == keys[if i < p then i else i - 1];
      assert j != p ==> r[j] == keys[if j < p then j else j - 1];
    }
  }

  lemma RemoveKeepsSorted(keys: seq<Key>, i: nat)
    requires Sorted(keys) && i < |keys|
    ensures Sorted(RemoveAt(keys, i))
  {
    hide Compare;
    var r := RemoveAt(keys, i);
    assert forall j :: 0 <= j < |r| ==> r[j] == keys[if j < i then j else j + 1];
  }

  /** A list with one item taken out and put back where it belongs now. */
  function Repositioned(keys: seq<Key>, i: nat): seq<Key>
    requires i < |keys|
  {
    var rest := RemoveAt(keys, i);
    InsertAt(rest, Position(rest, keys[i]), keys[i])
  }

  /** Repositioning an item sorts the list exactly when the others were in order. */
  lemma RepositionSortsExactly(keys: seq<Key>, i: nat)
    requires i < |keys|
    ensures Sorted(Repositioned(keys, i)) <==> Sorted(RemoveAt(keys, i))
  {
    var rest := RemoveAt(keys, i);
    var p := Position(rest, keys[i]);
    if Sorted(rest) {
      InsertKeepsSorted(rest, keys[i]);
    }
    if Sorted(Repositioned(keys, i)) {
      RemoveKeepsSorted(Repositioned(keys, i), p);
      hide Sorted, Compare, Position;
      assert RemoveAt(InsertAt(rest, p, keys[i]), p) == rest;
    }
  }

  /** With two changed items the second one can mislead the search for the first one: items with scores
      5, 4, 10, 2, 4.5 (the third and the last have changed), the last repositioned first. */
  lemma RepositionTwoExample()
    ensures var k := (s: real) => Key(s, 0, 0);
      var keys := [k(5.0), k(4.0), k(10.0), k(2.0), k(4.5)];
      var once := [k(5.0), k(4.0), k(10.0), k(4.5), k(2.0)];
      var twice := [k(10.0), k(5.0), k(4.0), k(4.5), k(2.0)];
      Repositioned(keys, 4) == once && Repositioned(once, 2) == twice && !Sorted(twice)
  {
    var k := (s: real) => Key(s, 0, 0);
    var keys := [k(5.0), k(4.0), k(10.0), k(2.0), k(4.5)];
    var rest := [k(5.0), k(4.0), k(10.0), k(2.0)];
    assert RemoveAt(keys, 4) == rest;
    assert Search(rest, k(4.5), 3, 4) == Search(rest, k(4.5), 3, 3) == 3;
    assert Position(rest, k(4.5)) == Search(rest, k(4.5), 0, 4) == 3;
    var once := [k(5.0), k(4.0), k(10.0), k(4.5), k(2.0)];
    assert InsertAt(rest, 3, k(4.5)) == once;
    var rest2 := [k(5.0), k(4.0), k(4.5), k(2.0)];
    assert RemoveAt(once, 2) == rest2;
    assert Search(rest2, k(10.0), 0, 1) == Search(rest2, k(10.0), 0, 0) == 0;
    assert Search(rest2, k(10.0), 0, 2) == 0;
    assert Position(rest2, k(10.0)) == Search(rest2, k(10.0), 0, 4) == 0;
    var twice := [k(10.0), k(5.0), k(4.0), k(4.5), k(2.0)];
    assert InsertAt(rest2, 0, k(10.0)) == twice;
    assert Compare(twice[2], twice[3]) > 0.0;
  }
}
