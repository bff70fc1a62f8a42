/**
 * Small facts about sequences, stated once so that proofs over rule lists,
 * query lists and strings can cite them instead of rediscovering them.
 */
module Seqs {
  /** Cutting a sequence at `i` and joining the halves gives it back. */
  lemma SplitAt<T>(q: seq<T>, i: nat)
    requires i <= |q|
    ensures q[..i] + q[i..] == q
  {
  }

  lemma Associative<T>(a: seq<T>, b: seq<T>, c: seq<T>)
    ensures a + (b + c) == a + b + c
  {
  }

  /** A non-empty sequence is its head followed by its tail. */
  lemma ConsSplit<T>(a: seq<T>)
    requires a != []
    ensures a == [a[0]] + a[1..]
  {
  }

  /** Splitting off the head commutes with appending. */
  lemma ConsAppend<T>(a: seq<T>, b: seq<T>)
    requires a != []
    ensures (a + b)[0] == a[0] && (a + b)[1..] == a[1..] + b
    ensures [a[0]] + (a[1..] + b) == a + b
  {
    assert a == [a[0]] + a[1..];
  }

  /** Slicing what follows index `i`. */
  lemma SliceOfDrop<T>(s: seq<T>, i: nat, k: nat)
    requires i + k <= |s|
    ensures s[i..][..k] == s[i..i + k]
    ensures s[i..][k..] == s[i + k..]
  {
  }

  /** The two sides of a separator. */
  lemma AroundSeparator<T>(a: seq<T>, x: T, b: seq<T>)
    ensures (a + [x] + b)[..|a|] == a
    ensures (a + [x] + b)[|a| + 1..] == b
  {
  }

  /**
   * Some element satisfies `P` together with the prefix before it iff one
   * before the last does, or the last one does.
   */
  lemma PrefixExistsSnoc<T>(s: seq<T>, P: (seq<T>, T) -> bool)
    requires s != []
    ensures var n := |s| - 1;
            (exists i :: 0 <= i < |s| && P(s[..i], s[i]))
            <==> (exists i :: 0 <= i < n && P(s[..n][..i], s[..n][i])) || P(s[..n], s[n])
  {
    var n := |s| - 1;
    if exists i :: 0 <= i < n && P(s[..n][..i], s[..n][i]) {
      var i :| 0 <= i < n && P(s[..n][..i], s[..n][i]);
      assert s[..n][..i] == s[..i];
    }
    if exists i :: 0 <= i < |s| && P(s[..i], s[i]) {
      var i :| 0 <= i < |s| && P(s[..i], s[i]);
      if i < n {
        assert s[..n][..i] == s[..i];
      }
    }
  }
}
