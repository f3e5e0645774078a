/** The ordering step of sort-duplicates.py (`sort_files`): the rows of
    percentages sorted by the share of the first file, with Python's
    stable `sorted`. */
module FileSort {

  /** One row `[percent 1, path 1, percent 2, path 2, lines]`. The shares
      are kept as exact reals; only their order matters here. */
  datatype PercentRow = PercentRow(share1: real, path1: string, share2: real, path2: string, lines: nat)

  /** Ascending by the first file's share. */
  predicate Sorted(s: seq<PercentRow>)
  {
    forall i, j :: 0 <= i < j < |s| ==> s[i].share1 <= s[j].share1
  }

  /** The rows whose first share is `k`, in their order in `s`. */
  function WithShare(s: seq<PercentRow>, k: real): (r: seq<PercentRow>)
    ensures |r| <= |s|
    ensures forall i :: 0 <= i < |r| ==> r[i].share1 == k
  {
    if s == [] then []
    else (if s[0].share1 == k then [s[0]] else []) + WithShare(s[1..], k)
  }

  /** A row no greater than the head of a sorted sequence can go first. */
  lemma ConsSorted(y: PercentRow, t: seq<PercentRow>)
    requires Sorted(t) && (t == [] || y.share1 <= t[0].share1)
    ensures Sorted([y] + t)
  {
    var r := [y] + t;
    forall i, j | 0 <= i < j < |r| ensures r[i].share1 <= r[j].share1 {
      if i > 0 {
        assert r[i] == t[i - 1] && r[j] == t[j - 1];
      } else {
        assert r[j] == t[j - 1];
      }
    }
  }

  /** `x` placed in front of the first row whose share is not below its
      own, so that it comes before the rows of equal share. */
  function Insert(x: PercentRow, s: seq<PercentRow>): (r: seq<PercentRow>)
    requires Sorted(s)
    ensures Sorted(r)
    ensures multiset(r) == multiset(s) + multiset{x}
    ensures |r| == |s| + 1
  {
    if s == [] || x.share1 <= s[0].share1 then ConsSorted(x, s); [x] + s
    else
      var rest := Insert(x, s[1..]);
      assert rest[0] == x || rest[0] == s[1];
      assert s == [s[0]] + s[1..];
      ConsSorted(s[0], rest);
      [s[0]] + rest
  }

  /** `sorted(percent_array, key=lambda array: array[0])`. */
  function SortFiles(s: seq<PercentRow>): (r: seq<PercentRow>)
    ensures Sorted(r)
    ensures multiset(r) == multiset(s)
    ensures |r| == |s|
  {
    if s == [] then []
    else
      assert s == [s[0]] + s[1..];
      Insert(s[0], SortFiles(s[1..]))
  }

  /** Inserting `x` puts it first among the rows of its share and moves
      no other row relative to the rows of its share. */
  lemma {:induction false} InsertWithShare(x: PercentRow, s: seq<PercentRow>, k: real)
    requires Sorted(s)
    ensures WithShare(Insert(x, s), k) == if x.share1 == k then [x] + WithShare(s, k) else WithShare(s, k)
  {
    if s == [] || x.share1 <= s[0].share1 {
      assert ([x] + s)[1..] == s;
    } else {
      var rest := Insert(x, s[1..]);
      InsertWithShare(x, s[1..], k);
      assert ([s[0]] + rest)[1..] == rest;
    }
  }

  /** The sort is stable: the rows of each share keep their input order. */
  lemma {:induction false} SortFilesStable(s: seq<PercentRow>, k: real)
    ensures WithShare(SortFiles(s), k) == WithShare(s, k)
  {
    if s != [] {
      SortFilesStable(s[1..], k);
      InsertWithShare(s[0], SortFiles(s[1..]), k);
    }
  }

  /** The rows of `s` whose share is `k` include `s[0]` when it has it. */
  lemma WithShareHead(s: seq<PercentRow>)
    requires s != []
    ensures WithShare(s, s[0].share1) == [s[0]] + WithShare(s[1..], s[0].share1)
  {
  }

  /** A row with share `k` shows up among the rows with share `k`. */
  lemma {:induction false} WithShareMember(s: seq<PercentRow>, i: nat)
    requires i < |s|
    ensures s[i] in WithShare(s, s[i].share1)
  {
    if i > 0 {
      WithShareMember(s[1..], i - 1);
      assert s[1..][i - 1] == s[i];
    }
  }

  /** Only rows of `s` show up among its rows with a given share. */
  lemma {:induction false} WithShareFrom(s: seq<PercentRow>, k: real, x: PercentRow)
    requires x in WithShare(s, k)
    ensures x in s
  {
    if s[0] != x {
      WithShareFrom(s[1..], k, x);
    }
  }

  /** A sorted sequence is fixed by the rows of each share in order, so
      `SortFiles` is the one stable ascending sort of its input. */
  lemma {:induction false} SortedUnique(a: seq<PercentRow>, b: seq<PercentRow>)
    requires Sorted(a) && Sorted(b)
    requires forall k :: WithShare(a, k) == WithShare(b, k)
    ensures a == b
  {
    if a == [] || b == [] {
      if a != [] {
        assert WithShare(a, a[0].share1) == [a[0]] + WithShare(a[1..], a[0].share1);
        assert false;
      } else if b != [] {
        assert WithShare(b, b[0].share1) == [b[0]] + WithShare(b[1..], b[0].share1);
        assert false;
      }
    } else {
      var ka, kb := a[0].share1, b[0].share1;
      WithShareMember(a, 0);
      WithShareMember(b, 0);
      assert a[0] in WithShare(b, ka);
      WithShareFrom(b, ka, a[0]);
      assert b[0] in WithShare(a, kb);
      WithShareFrom(a, kb, b[0]);
      assert ka == kb;
      WithShareHead(a);
      WithShareHead(b);
      assert WithShare(a, ka)[0] == a[0] && WithShare(b, ka)[0] == b[0];
      forall k ensures WithShare(a[1..], k) == WithShare(b[1..], k) {
        var head := if ka == k then [a[0]] else [];
        var ta, tb := WithShare(a[1..], k), WithShare(b[1..], k);
        assert WithShare(a, k) == head + ta && WithShare(b, k) == head + tb;
        assert (head + ta)[|head|..] == ta && (head + tb)[|head|..] == tb;
      }
      SortedUnique(a[1..], b[1..]);
      assert a == [a[0]] + a[1..];
      assert b == [b[0]] + b[1..];
    }
  }

  /** Sorting an already sorted list returns it unchanged. */
  lemma SortFilesSorted(s: seq<PercentRow>)
    requires Sorted(s)
    ensures SortFiles(s) == s
  {
    forall k ensures WithShare(SortFiles(s), k) == WithShare(s, k) {
      SortFilesStable(s, k);
    }
    SortedUnique(SortFiles(s), s);
  }

  /** The result is exactly the stable ascending sort: any sorted
      arrangement of the rows that keeps each share's rows in input order
      is the result. */
  lemma SortFilesCharacterized(s: seq<PercentRow>, r: seq<PercentRow>)
    requires Sorted(r)
    requires forall k :: WithShare(r, k) == WithShare(s, k)
    ensures SortFiles(s) == r
  {
    forall k ensures WithShare(SortFiles(s), k) == WithShare(r, k) {
      SortFilesStable(s, k);
    }
    SortedUnique(SortFiles(s), r);
  }
}
