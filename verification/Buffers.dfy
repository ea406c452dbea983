/** Writing a run of values into a caller's buffer. */
module Buffers {

  /** `after` is `before` with `values` written from `start` on and nothing else changed. */
  ghost predicate Wrote<T>(before: seq<T>, after: seq<T>, start: nat, values: seq<T>) {
    && start + |values| <= |before|
    && after == before[..start] + values + before[start + |values|..]
  }

  lemma WroteMore<T>(a: seq<T>, b: seq<T>, c: seq<T>, start: nat, values: seq<T>, more: seq<T>)
    requires Wrote(a, b, start, values) && Wrote(b, c, start + |values|, more)
    ensures Wrote(a, c, start, values + more) && start + |values| + |more| <= |c| == |a|
  {
    assert c == a[..start] + (values + more) + a[start + |values + more|..];
  }

  lemma WroteFits<T>(a: seq<T>, b: seq<T>, start: nat, values: seq<T>)
    requires Wrote(a, b, start, values)
    ensures start + |values| <= |a| == |b|
  {
  }

  lemma NothingWritten<T>(was: seq<T>, start: nat)
    requires start <= |was|
    ensures Wrote(was, was, start, [])
  {
  }

  lemma WroteOne<T>(was: seq<T>, at: nat, a: T)
    requires at + 1 <= |was|
    ensures Wrote(was, was[at := a], at, [a])
  {
  }

  lemma WroteTwo<T>(was: seq<T>, at: nat, a: T, b: T)
    requires at + 2 <= |was|
    ensures Wrote(was, was[at := a][at + 1 := b], at, [a, b])
  {
  }

  lemma WroteThree<T>(was: seq<T>, at: nat, a: T, b: T, c: T)
    requires at + 3 <= |was|
    ensures Wrote(was, was[at := a][at + 1 := b][at + 2 := c], at, [a, b, c])
  {
  }
}
