/** Sequence helpers shared by both scripts: an optional value, and the
    "append unless already present" list that both scripts build (the
    reduced duplication list is keyed that way, the category list is
    exactly that). */
module Sequences {

  datatype Option<+T> = None | Some(value: T)

  /** True when no value occurs twice in `s`. */
  predicate NoDuplicates<T(==)>(s: seq<T>)
  {
    forall i, j :: 0 <= i < j < |s| ==> s[i] != s[j]
  }

  /** The position of the first occurrence of `x` in `s`. */
  function FirstIndex<T(==)>(s: seq<T>, x: T): (i: nat)
    requires x in s
    ensures i < |s| && s[i] == x
    ensures forall j :: 0 <= j < i ==> s[j] != x
  {
    if s[0] == x then 0 else 1 + FirstIndex(s[1..], x)
  }

  /** The values of `s`, each once, in order of first occurrence: what a
      loop that appends each value of `s` to a list unless it is already
      there leaves in the list. */
  function Dedup<T(==)>(s: seq<T>): (d: seq<T>)
    ensures |d| <= |s|
    ensures forall i :: 0 <= i < |d| ==> d[i] in s
    ensures NoDuplicates(d)
  {
    if s == [] then []
    else
      var prefix := Dedup(s[..|s| - 1]);
      if s[|s| - 1] in prefix then prefix else prefix + [s[|s| - 1]]
  }

  /** A value is kept exactly when it occurs. */
  lemma {:induction false} DedupMembers<T>(s: seq<T>, x: T)
    ensures x in Dedup(s) <==> x in s
  {
    if s != [] {
      var p := s[..|s| - 1];
      assert s == p + [s[|s| - 1]];
      DedupMembers(p, x);
    }
  }

  /** Appending a value that is already present leaves the list unchanged;
      appending a new one adds it at the end. */
  lemma DedupSnoc<T>(s: seq<T>, x: T)
    ensures Dedup(s + [x]) == if x in s then Dedup(s) else Dedup(s) + [x]
  {
    assert (s + [x])[..|s|] == s;
    DedupMembers(s, x);
  }

  /** Nothing is dropped exactly when nothing repeats. */
  lemma {:induction false} DedupLength<T>(s: seq<T>)
    ensures |Dedup(s)| == |s| <==> NoDuplicates(s)
  {
    if s != [] {
      var p := s[..|s| - 1];
      var x := s[|s| - 1];
      assert s == p + [x];
      DedupLength(p);
      DedupSnoc(p, x);
      if NoDuplicates(s) {
        assert NoDuplicates(p) by {
          forall i, j | 0 <= i < j < |p| ensures p[i] != p[j] {
            assert p[i] == s[i] && p[j] == s[j];
          }
        }
        assert x !in p;
      }
      if |Dedup(s)| == |s| {
        assert x !in p && |Dedup(p)| == |p|;
        forall i, j | 0 <= i < j < |s| ensures s[i] != s[j] {
          if j < |p| {
            assert s[i] == p[i] && s[j] == p[j];
          } else {
            assert s[i] == p[i];
          }
        }
      }
    }
  }

  /** Occurrences in a longer sequence are found at the same place. */
  lemma FirstIndexSnoc<T>(s: seq<T>, y: T, x: T)
    requires x in s
    ensures FirstIndex(s + [y], x) == FirstIndex(s, x)
  {
    var k := FirstIndex(s, x);
    assert (s + [y])[k] == x;
  }

  /** The kept values come in the order of their first occurrence in `s`. */
  lemma {:induction false} DedupFirstSeenOrder<T>(s: seq<T>)
    ensures forall i, j :: 0 <= i < j < |Dedup(s)| ==>
              FirstIndex(s, Dedup(s)[i]) < FirstIndex(s, Dedup(s)[j])
  {
    if s != [] {
      var p := s[..|s| - 1];
      var x := s[|s| - 1];
      assert s == p + [x];
      DedupFirstSeenOrder(p);
      DedupSnoc(p, x);
      var d, dp := Dedup(s), Dedup(p);
      forall i, j | 0 <= i < j < |d|
        ensures FirstIndex(s, d[i]) < FirstIndex(s, d[j])
      {
        assert d[i] == dp[i];
        FirstIndexSnoc(p, x, d[i]);
        if j < |dp| {
          assert d[j] == dp[j];
          FirstIndexSnoc(p, x, d[j]);
        } else {
          assert d[j] == x && x !in p;
          assert FirstIndex(s, d[j]) == |p|;
        }
      }
    }
  }
}
