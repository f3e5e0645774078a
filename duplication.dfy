/** The reduction of a CPD duplication report to one entry per ordered
    pair of files (sort-duplicates.py, `total_duplication`). */
module Duplication {
  import opened Sequences

  /** One `duplication` element of the report, already parsed: the `path`
      attributes of its two file children and its `lines` attribute. */
  datatype Record = Record(path1: string, path2: string, lines: nat)

  /** One element `[total lines, path 1, path 2]` of the reduced list. */
  datatype Entry = Entry(count: nat, path1: string, path2: string)

  type Pair = (string, string)

  /** The separator whose first occurrence marks the start of the kept path. */
  const Marker: string := "../../../"

  predicate MarkerAt(s: string, i: nat)
  {
    i + |Marker| <= |s| && s[i..i + |Marker|] == Marker
  }

  /** The position of the first occurrence of the marker at or after `from`. */
  function FindMarker(s: string, from: nat): (r: Option<nat>)
    ensures r.Some? ==> from <= r.value && r.value + |Marker| <= |s|
    decreases |s| - from
  {
    if |s| < from + |Marker| then None
    else if MarkerAt(s, from) then Some(from)
    else FindMarker(s, from + 1)
  }

  /** The search finds a marker, and none is skipped on the way. */
  lemma {:induction false} FindMarkerFirst(s: string, from: nat)
    ensures FindMarker(s, from).Some? ==> from <= FindMarker(s, from).value && MarkerAt(s, FindMarker(s, from).value)
    ensures forall j :: from <= j && (FindMarker(s, from).None? || j < FindMarker(s, from).value) ==> !MarkerAt(s, j)
    decreases |s| - from
  {
    if |s| >= from + |Marker| && !MarkerAt(s, from) {
      FindMarkerFirst(s, from + 1);
    }
  }

  /** `s.split('../../../')`: the pieces of `s` between the occurrences of
      the marker, found from left to right. */
  function Split(s: string): (parts: seq<string>)
    ensures 1 <= |parts|
    decreases |s|
  {
    match FindMarker(s, 0)
    case None => [s]
    case Some(i) => [s[..i]] + Split(s[i + |Marker|..])
  }

  /** `path.split('../../../')[1]`; `None` stands for the IndexError raised
      when there is no second piece. */
  function ChopPath(s: string): Option<string>
  {
    var parts := Split(s);
    if |parts| < 2 then None else Some(parts[1])
  }

  /** A marker in a suffix of `s` is a marker in `s`, shifted. */
  lemma MarkerShift(s: string, k: nat, j: nat)
    requires k <= |s|
    ensures MarkerAt(s[k..], j) <==> MarkerAt(s, k + j)
  {
    if k + j + |Marker| <= |s| {
      assert s[k..][j..j + |Marker|] == s[k + j..k + j + |Marker|];
    }
  }

  /** The path is refused exactly when the marker occurs nowhere in it. */
  lemma ChopPathFails(s: string)
    ensures ChopPath(s).None? <==> forall j :: !MarkerAt(s, j)
  {
    FindMarkerFirst(s, 0);
  }

  /** The first piece of a split runs up to the first marker, or to the
      end when there is none. */
  lemma SplitHead(r: string, t: string)
    ensures Split(r)[0] == t <==>
              && |t| <= |r| && r[..|t|] == t
              && (forall j :: 0 <= j < |t| ==> !MarkerAt(r, j))
              && (|t| == |r| || MarkerAt(r, |t|))
  {
    FindMarkerFirst(r, 0);
    match FindMarker(r, 0)
    case None =>
      if |t| <= |r| && r[..|t|] == t && (forall j :: 0 <= j < |t| ==> !MarkerAt(r, j)) && MarkerAt(r, |t|) {
        assert false;
      }
    case Some(k) =>
      assert Split(r)[0] == r[..k];
      if |t| <= |r| && r[..|t|] == t && (forall j :: 0 <= j < |t| ==> !MarkerAt(r, j)) && (|t| == |r| || MarkerAt(r, |t|)) {
        if |t| < k {
          assert false;
        }
      }
  }

  /** With the first marker at `i`, the chopped path is the first piece of
      the text after that marker. */
  lemma ChopPathAfter(s: string, i: nat)
    requires MarkerAt(s, i)
    requires forall j :: 0 <= j < i ==> !MarkerAt(s, j)
    ensures ChopPath(s) == Some(Split(s[i + |Marker|..])[0])
  {
    FindMarkerFirst(s, 0);
    assert FindMarker(s, 0) == Some(i);
  }

  /** The description of a first piece, read in the suffix of `s` from
      `start` or in `s` itself. */
  lemma PieceShift(s: string, start: nat, t: string)
    requires start + |t| <= |s|
    ensures var rest, end := s[start..], start + |t|;
            (&& rest[..|t|] == t
             && (forall j :: 0 <= j < |t| ==> !MarkerAt(rest, j))
             && (|t| == |rest| || MarkerAt(rest, |t|)))
            <==>
            (&& s[start..end] == t
             && (forall j :: start <= j < end ==> !MarkerAt(s, j))
             && (end == |s| || MarkerAt(s, end)))
  {
    var rest, end := s[start..], start + |t|;
    assert rest[..|t|] == s[start..end];
    MarkerShift(s, start, |t|);
    if forall j :: start <= j < end ==> !MarkerAt(s, j) {
      forall j | 0 <= j < |t| ensures !MarkerAt(rest, j) {
        MarkerShift(s, start, j);
      }
    }
    if forall j :: 0 <= j < |t| ==> !MarkerAt(rest, j) {
      forall j | start <= j < end ensures !MarkerAt(s, j) {
        MarkerShift(s, start, j - start);
      }
    }
  }

  /** Where the marker first occurs at `i`, `t` is the chopped path exactly
      when it is the text right after that marker, runs up to the end of `s`
      or to the next marker, and holds no marker itself. */
  lemma ChopPathPiece(s: string, i: nat, t: string)
    requires MarkerAt(s, i)
    requires forall j :: 0 <= j < i ==> !MarkerAt(s, j)
    ensures ChopPath(s) == Some(t) <==>
              var start, end := i + |Marker|, i + |Marker| + |t|;
              && end <= |s|
              && s[start..end] == t
              && (forall j :: start <= j < end ==> !MarkerAt(s, j))
              && (end == |s| || MarkerAt(s, end))
  {
    var start := i + |Marker|;
    ChopPathAfter(s, i);
    SplitHead(s[start..], t);
    if start + |t| <= |s| {
      PieceShift(s, start, t);
    }
  }

  /** Both paths of a record chopped. */
  function ChopRecord(d: Record): (r: Option<Record>)
    ensures r.Some? <==> ChopPath(d.path1).Some? && ChopPath(d.path2).Some?
    ensures r.Some? ==> r.value == Record(ChopPath(d.path1).value, ChopPath(d.path2).value, d.lines)
  {
    var p1, p2 := ChopPath(d.path1), ChopPath(d.path2);
    if p1.Some? && p2.Some? then Some(Record(p1.value, p2.value, d.lines)) else None
  }

  /** Every record chopped, or `None` when any one of them raises. */
  function ChopAll(ds: seq<Record>): (r: Option<seq<Record>>)
    ensures r.Some? ==> |r.value| == |ds|
  {
    if ds == [] then Some([])
    else
      var prefix, last := ChopAll(ds[..|ds| - 1]), ChopRecord(ds[|ds| - 1]);
      if prefix.Some? && last.Some? then Some(prefix.value + [last.value]) else None
  }

  /** The chopping succeeds exactly when every record's does, and then
      holds each record's chopped form at the record's position. */
  lemma {:induction false} ChopAllEach(ds: seq<Record>)
    ensures ChopAll(ds).Some? <==> forall i :: 0 <= i < |ds| ==> ChopRecord(ds[i]).Some?
    ensures ChopAll(ds).Some? ==> forall i :: 0 <= i < |ds| ==> ChopRecord(ds[i]) == Some(ChopAll(ds).value[i])
  {
    if ds != [] {
      var p, d := ds[..|ds| - 1], ds[|ds| - 1];
      ChopAllEach(p);
      if ChopAll(ds).Some? {
        var c := ChopAll(ds).value;
        assert c == ChopAll(p).value + [ChopRecord(d).value];
        forall i | 0 <= i < |ds| ensures ChopRecord(ds[i]) == Some(c[i]) {
          if i < |p| {
            assert ds[i] == p[i] && c[i] == ChopAll(p).value[i];
          }
        }
      } else if ChopAll(p).Some? {
        assert ChopRecord(ds[|p|]).None?;
      } else {
        var i :| 0 <= i < |p| && ChopRecord(p[i]).None?;
        assert ds[i] == p[i];
      }
    }
  }

  function Key(d: Record): Pair
  {
    (d.path1, d.path2)
  }

  function EntryKey(e: Entry): Pair
  {
    (e.path1, e.path2)
  }

  /** The ordered file pairs of the records, in input order. */
  function Keys(ds: seq<Record>): (ks: seq<Pair>)
    ensures |ks| == |ds|
    ensures forall i :: 0 <= i < |ds| ==> ks[i] == Key(ds[i])
  {
    seq(|ds|, i requires 0 <= i < |ds| => Key(ds[i]))
  }

  /** The sum of the `lines` of all records for the ordered pair `p`. */
  function Total(ds: seq<Record>, p: Pair): nat
  {
    if ds == [] then 0
    else Total(ds[..|ds| - 1], p) + (if Key(ds[|ds| - 1]) == p then ds[|ds| - 1].lines else 0)
  }

  /** The position of the first entry listed for the ordered pair `p`. */
  function FindPair(list: seq<Entry>, p: Pair): (r: Option<nat>)
    ensures r.Some? ==> r.value < |list| && EntryKey(list[r.value]) == p
    ensures forall i :: 0 <= i < |list| && (r.None? || i < r.value) ==> EntryKey(list[i]) != p
  {
    if list == [] then None
    else if EntryKey(list[0]) == p then Some(0)
    else
      match FindPair(list[1..], p)
      case None => None
      case Some(j) => Some(j + 1)
  }

  /** One record folded into the list: its lines are added to the first
      entry for its ordered pair, or it becomes a new last entry. */
  function Accumulate(list: seq<Entry>, d: Record): seq<Entry>
  {
    match FindPair(list, Key(d))
    case Some(j) => list[j := Entry(list[j].count + d.lines, d.path1, d.path2)]
    case None => list + [Entry(d.lines, d.path1, d.path2)]
  }

  /** The reduced list after the records `ds`, folded in order. */
  function Merged(ds: seq<Record>): (m: seq<Entry>)
    ensures |m| <= |ds|
  {
    if ds == [] then [] else Accumulate(Merged(ds[..|ds| - 1]), ds[|ds| - 1])
  }

  lemma KeysSnoc(ds: seq<Record>, d: Record)
    ensures Keys(ds + [d]) == Keys(ds) + [Key(d)]
    ensures (ds + [d])[..|ds|] == ds
  {
    assert (ds + [d])[..|ds|] == ds;
  }

  lemma TotalSnoc(ds: seq<Record>, d: Record, p: Pair)
    ensures Total(ds + [d], p) == Total(ds, p) + (if Key(d) == p then d.lines else 0)
  {
    KeysSnoc(ds, d);
  }

  /** A pair that no record carries has no lines. */
  lemma {:induction false} TotalAbsent(ds: seq<Record>, p: Pair)
    requires p !in Keys(ds)
    ensures Total(ds, p) == 0
  {
    if ds != [] {
      var prefix := ds[..|ds| - 1];
      KeysSnoc(prefix, ds[|ds| - 1]);
      assert ds == prefix + [ds[|ds| - 1]];
      TotalAbsent(prefix, p);
    }
  }

  /** The entries list the distinct ordered pairs of the input, each once,
      in order of first occurrence. */
  lemma {:induction false} MergedPairs(ds: seq<Record>)
    ensures |Merged(ds)| == |Dedup(Keys(ds))|
    ensures forall i :: 0 <= i < |Merged(ds)| ==> EntryKey(Merged(ds)[i]) == Dedup(Keys(ds))[i]
  {
    if ds != [] {
      var p, d := ds[..|ds| - 1], ds[|ds| - 1];
      assert ds == p + [d];
      MergedPairs(p);
      KeysSnoc(p, d);
      DedupSnoc(Keys(p), Key(d));
      var m, ks := Merged(p), Dedup(Keys(p));
      DedupMembers(Keys(p), Key(d));
      if FindPair(m, Key(d)).None? {
        assert Key(d) !in ks;
      }
    }
  }

  /** Each entry's count is the sum of the lines of all records with its
      ordered pair. */
  lemma {:induction false} MergedCounts(ds: seq<Record>)
    ensures forall i :: 0 <= i < |Merged(ds)| ==> Merged(ds)[i].count == Total(ds, EntryKey(Merged(ds)[i]))
  {
    if ds != [] {
      var p, d := ds[..|ds| - 1], ds[|ds| - 1];
      assert ds == p + [d];
      MergedCounts(p);
      MergedPairs(p);
      var m, ks := Merged(p), Dedup(Keys(p));
      forall i | 0 <= i < |Merged(ds)|
        ensures Merged(ds)[i].count == Total(ds, EntryKey(Merged(ds)[i]))
      {
        TotalSnoc(p, d, EntryKey(Merged(ds)[i]));
        match FindPair(m, Key(d))
        case Some(j) =>
          if i != j {
            assert ks[i] != ks[j];
          }
        case None =>
          if i == |m| {
            KeysSnoc(p, d);
            DedupMembers(Keys(p), Key(d));
            assert Key(d) !in ks;
            TotalAbsent(p, Key(d));
          }
      }
    }
  }

  /** No two entries share an ordered pair. */
  lemma MergedPairsDistinct(ds: seq<Record>)
    ensures forall i, j :: 0 <= i < j < |Merged(ds)| ==> EntryKey(Merged(ds)[i]) != EntryKey(Merged(ds)[j])
  {
    MergedPairs(ds);
    var ks := Dedup(Keys(ds));
    assert NoDuplicates(ks);
  }

  /** Every ordered pair of the input has an entry and every entry is one
      of them; entries follow the first occurrence of their pair. */
  lemma MergedCoversInput(ds: seq<Record>)
    ensures forall i :: 0 <= i < |ds| ==> exists j :: 0 <= j < |Merged(ds)| && EntryKey(Merged(ds)[j]) == Key(ds[i])
    ensures forall j :: 0 <= j < |Merged(ds)| ==> EntryKey(Merged(ds)[j]) in Keys(ds)
    ensures forall i, j :: 0 <= i < j < |Merged(ds)| ==>
              FirstIndex(Keys(ds), EntryKey(Merged(ds)[i])) < FirstIndex(Keys(ds), EntryKey(Merged(ds)[j]))
  {
    MergedPairs(ds);
    var m, ks := Merged(ds), Dedup(Keys(ds));
    DedupFirstSeenOrder(Keys(ds));
    forall i | 0 <= i < |ds|
      ensures exists j :: 0 <= j < |m| && EntryKey(m[j]) == Key(ds[i])
    {
      assert Keys(ds)[i] == Key(ds[i]);
      DedupMembers(Keys(ds), Key(ds[i]));
      var j :| 0 <= j < |ks| && ks[j] == Key(ds[i]);
      assert EntryKey(m[j]) == Key(ds[i]);
    }
  }

  /** The list is never longer than the input, and is exactly as long when
      no ordered pair repeats. */
  lemma MergedLength(ds: seq<Record>)
    ensures |Merged(ds)| <= |ds|
    ensures |Merged(ds)| == |ds| <==> NoDuplicates(Keys(ds))
  {
    MergedPairs(ds);
    DedupLength(Keys(ds));
  }

  /** The pair (a, b) and the reversed pair (b, a) are kept apart. */
  lemma ReversedPairsKeptApart(a: string, b: string, m: nat, n: nat)
    requires a != b
    ensures Merged([Record(a, b, m), Record(b, a, n)]) == [Entry(m, a, b), Entry(n, b, a)]
  {
    var d1, d2 := Record(a, b, m), Record(b, a, n);
    assert [d1, d2][..1] == [d1];
    assert [d1][..0] == [];
  }

  /** What `total_duplication` returns for the records `ds`, record by
      record: `None` once a path cannot be chopped. */
  function Reduce(ds: seq<Record>): Option<seq<Entry>>
  {
    if ds == [] then Some([])
    else
      match Reduce(ds[..|ds| - 1])
      case None => None
      case Some(list) =>
        match ChopRecord(ds[|ds| - 1])
        case None => None
        case Some(d) => Some(Accumulate(list, d))
  }

  lemma ReduceSnoc(ds: seq<Record>, n: nat)
    requires n < |ds|
    ensures Reduce(ds[..n + 1]) ==
              match Reduce(ds[..n])
              case None => None
              case Some(list) =>
                match ChopRecord(ds[n])
                case None => None
                case Some(d) => Some(Accumulate(list, d))
  {
    assert ds[..n + 1][..n] == ds[..n];
  }

  /** Once a record fails, so does every longer input. */
  lemma {:induction false} ReduceFailsOnward(ds: seq<Record>, n: nat)
    requires n <= |ds| && Reduce(ds[..n]).None?
    ensures Reduce(ds).None?
    decreases |ds| - n
  {
    if n < |ds| {
      ReduceSnoc(ds, n);
      ReduceFailsOnward(ds, n + 1);
    } else {
      assert ds[..n] == ds;
    }
  }

  /** Record by record, the reduction is the merge of the chopped records. */
  lemma {:induction false} ReduceIsMergedChop(ds: seq<Record>)
    ensures Reduce(ds) == if ChopAll(ds).Some? then Some(Merged(ChopAll(ds).value)) else None
  {
    if ds != [] {
      var p := ds[..|ds| - 1];
      ReduceIsMergedChop(p);
      if ChopAll(p).Some? && ChopRecord(ds[|ds| - 1]).Some? {
        MergedSnoc(ChopAll(p).value, ChopRecord(ds[|ds| - 1]).value);
      }
    }
  }

  lemma MergedSnoc(ds: seq<Record>, d: Record)
    ensures Merged(ds + [d]) == Accumulate(Merged(ds), d)
  {
    assert (ds + [d])[..|ds|] == ds;
  }

  /** The body of the record loop in `total_duplication` after chopping:
      scan the reduced list for the first entry with the record's ordered
      pair, add the record's lines to it and stop; append a new entry when
      the scan finds none. */
  method AddRecord(reduced: seq<Entry>, d: Record) returns (updated: seq<Entry>)
    ensures updated == Accumulate(reduced, d)
  {
    updated := reduced;
    var includePair := true;
    var k := 0;
    while k < |updated|
      invariant k <= |updated| && includePair && updated == reduced
      invariant forall i :: 0 <= i < k ==> EntryKey(updated[i]) != Key(d)
    {
      if updated[k].path1 == d.path1 && updated[k].path2 == d.path2 {
        assert FindPair(reduced, Key(d)) == Some(k);
        updated := updated[k := Entry(updated[k].count + d.lines, d.path1, d.path2)];
        includePair := false;
        break;
      }
      k := k + 1;
    }
    if includePair {
      updated := updated + [Entry(d.lines, d.path1, d.path2)];
    }
  }

  /** `total_duplication`: chop each record's paths, then fold the record
      into the reduced list; `None` when a path has no marker and the
      script stops with an IndexError. */
  method TotalDuplication(dups: seq<Record>) returns (r: Option<seq<Entry>>)
    ensures r == Reduce(dups)
    ensures r == if ChopAll(dups).Some? then Some(Merged(ChopAll(dups).value)) else None
  {
    ReduceIsMergedChop(dups);
    var reduced: seq<Entry> := [];
    var n := 0;
    while n < |dups|
      invariant n <= |dups|
      invariant Reduce(dups[..n]) == Some(reduced)
    {
      ReduceSnoc(dups, n);
      var filepath1 := ChopPath(dups[n].path1);
      if filepath1.None? {
        ReduceFailsOnward(dups, n + 1);
        return None;
      }
      var filepath2 := ChopPath(dups[n].path2);
      if filepath2.None? {
        ReduceFailsOnward(dups, n + 1);
        return None;
      }
      reduced := AddRecord(reduced, Record(filepath1.value, filepath2.value, dups[n].lines));
      n := n + 1;
    }
    assert dups[..n] == dups;
    return Some(reduced);
  }
}
