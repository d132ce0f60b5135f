/** The still-image deduplication filter (`removeOldData` in
    graphics/imageManager.go): one event survives per cell, the latest
    by time, ties going to the first in input order. */
module Dedup {
  import opened Common

  /** The cells a sequence of events touches. */
  function Cells(s: seq<VisualData>): set<Coord>
  {
    set i | 0 <= i < |s| :: s[i].Cell()
  }

  /** No two events of `s` share a cell. */
  predicate DistinctCells(s: seq<VisualData>)
  {
    forall i, j :: 0 <= i < j < |s| ==> s[i].Cell() != s[j].Cell()
  }

  /** `r` is `s` with some elements dropped and the rest kept in order. */
  predicate SubsequenceOf(r: seq<VisualData>, s: seq<VisualData>)
    decreases |s|
  {
    if r == [] then true
    else if s == [] then false
    else (r[|r| - 1] == s[|s| - 1] && SubsequenceOf(r[..|r| - 1], s[..|s| - 1]))
         || SubsequenceOf(r, s[..|s| - 1])
  }

  /** The first pass: for each cell, the first event carrying the
      greatest time seen at that cell (a later event replaces the
      stored one only when it is strictly later). */
  function LatestOf(s: seq<VisualData>): map<Coord, VisualData>
  {
    if s == [] then map[]
    else
      var m := LatestOf(s[..|s| - 1]);
      var v := s[|s| - 1];
      if v.Cell() !in m || v.time > m[v.Cell()].time then m[v.Cell() := v] else m
  }

  /** The second pass: an event is kept when no event of its cell has
      been kept yet and its time equals the latest time of its cell. */
  function Survivors(s: seq<VisualData>, latest: map<Coord, VisualData>): seq<VisualData>
  {
    if s == [] then []
    else
      var r := Survivors(s[..|s| - 1], latest);
      var v := s[|s| - 1];
      if v.Cell() !in Cells(r) && v.Cell() in latest && latest[v.Cell()].time == v.time
      then r + [v]
      else r
  }

  /** What `removeOldData` leaves in the slice. */
  function Deduplicated(s: seq<VisualData>): seq<VisualData>
  {
    if |s| == 0 then s else Survivors(s, LatestOf(s))
  }

  /** Index `k` holds the greatest time of its cell, and is the first
      index of that cell to hold it. */
  predicate FirstLatest(s: seq<VisualData>, k: int)
    requires 0 <= k < |s|
  {
    && (forall j :: 0 <= j < |s| && s[j].Cell() == s[k].Cell() ==> s[j].time <= s[k].time)
    && (forall j :: 0 <= j < k && s[j].Cell() == s[k].Cell() ==> s[j].time < s[k].time)
  }

  /** Reference definition: the events of `s[..n]` at first-latest
      indices of `s`, in input order. */
  function FirstLatestUpTo(s: seq<VisualData>, n: nat): seq<VisualData>
    requires n <= |s|
  {
    if n == 0 then []
    else FirstLatestUpTo(s, n - 1) + (if FirstLatest(s, n - 1) then [s[n - 1]] else [])
  }

  lemma CellsAppend(s: seq<VisualData>, v: VisualData)
    ensures Cells(s + [v]) == Cells(s) + {v.Cell()}
  {
    var t := s + [v];
    assert t[|s|].Cell() == v.Cell();
    forall c | c in Cells(s) ensures c in Cells(t) {
      var i :| 0 <= i < |s| && s[i].Cell() == c;
      assert t[i] == s[i];
    }
  }

  lemma CellsPrefix(s: seq<VisualData>)
    requires s != []
    ensures Cells(s) == Cells(s[..|s| - 1]) + {s[|s| - 1].Cell()}
  {
    assert s == s[..|s| - 1] + [s[|s| - 1]];
    CellsAppend(s[..|s| - 1], s[|s| - 1]);
  }

  /** The first pass records exactly the cells of the input. */
  lemma {:induction false} LatestOfDomain(s: seq<VisualData>)
    ensures forall c :: c in LatestOf(s) <==> c in Cells(s)
  {
    if s != [] {
      LatestOfDomain(s[..|s| - 1]);
      CellsPrefix(s);
    }
  }

  /** The event recorded for a cell is an event of the input at that cell. */
  lemma {:induction false} LatestOfMembers(s: seq<VisualData>)
    ensures forall c :: c in LatestOf(s) ==> LatestOf(s)[c].Cell() == c && LatestOf(s)[c] in s
  {
    if s != [] {
      var p := s[..|s| - 1];
      LatestOfMembers(p);
      var m := LatestOf(p);
      var l := LatestOf(s);
      forall c | c in l ensures l[c].Cell() == c && l[c] in s {
        if c != s[|s| - 1].Cell() || l[c] != s[|s| - 1] {
          assert l[c] == m[c] && m[c] in p;
        }
      }
    }
  }

  /** The event recorded for a cell carries the greatest time seen there. */
  lemma {:induction false} LatestOfGreatest(s: seq<VisualData>)
    ensures forall j :: 0 <= j < |s| ==> s[j].Cell() in LatestOf(s) && s[j].time <= LatestOf(s)[s[j].Cell()].time
  {
    if s != [] {
      var p := s[..|s| - 1];
      LatestOfGreatest(p);
      var l := LatestOf(s);
      forall j | 0 <= j < |s| ensures s[j].Cell() in l && s[j].time <= l[s[j].Cell()].time {
        if j < |s| - 1 {
          assert s[j] == p[j];
        }
      }
    }
  }

  /** One step of the second pass over a prefix of `s`. */
  lemma SurvivorsStep(s: seq<VisualData>, n: nat, latest: map<Coord, VisualData>)
    requires n < |s|
    ensures Survivors(s[..n + 1], latest) ==
              var r := Survivors(s[..n], latest);
              if s[n].Cell() !in Cells(r) && s[n].Cell() in latest && latest[s[n].Cell()].time == s[n].time
              then r + [s[n]] else r
  {
    assert s[..n + 1][..n] == s[..n];
  }

  /** The second pass keeps elements of its input, in order. */
  lemma {:induction false} SurvivorsSubsequence(s: seq<VisualData>, n: nat, latest: map<Coord, VisualData>)
    requires n <= |s|
    ensures SubsequenceOf(Survivors(s[..n], latest), s[..n])
  {
    if n > 0 {
      SurvivorsSubsequence(s, n - 1, latest);
      SurvivorsStep(s, n - 1, latest);
      var r := Survivors(s[..n - 1], latest);
      var t := Survivors(s[..n], latest);
      assert s[..n][..n - 1] == s[..n - 1];
      if t != r {
        assert t[..|t| - 1] == r;
      }
    }
  }

  /** The second pass keeps at most one event per cell, each carrying
      the recorded latest time of its cell. */
  lemma {:induction false} SurvivorsDistinct(s: seq<VisualData>, n: nat, latest: map<Coord, VisualData>)
    requires n <= |s|
    ensures DistinctCells(Survivors(s[..n], latest))
    ensures forall e :: e in Survivors(s[..n], latest) ==> e.Cell() in latest && e.time == latest[e.Cell()].time
  {
    if n > 0 {
      var v := s[n - 1];
      var r := Survivors(s[..n - 1], latest);
      SurvivorsDistinct(s, n - 1, latest);
      SurvivorsStep(s, n - 1, latest);
      var t := Survivors(s[..n], latest);
      if t != r {
        forall i, k | 0 <= i < k < |t| ensures t[i].Cell() != t[k].Cell() {
          if k == |r| {
            assert t[i] == r[i];
            assert t[i].Cell() in Cells(r);
          } else {
            assert t[i] == r[i] && t[k] == r[k];
          }
        }
      }
    }
  }

  /** Some event of `s[..n]` at cell `c` carries time `t`. */
  predicate Reached(s: seq<VisualData>, n: nat, c: Coord, t: int)
    requires n <= |s|
  {
    exists j :: 0 <= j < n && s[j].Cell() == c && s[j].time == t
  }

  lemma ReachedStep(s: seq<VisualData>, n: nat, c: Coord, t: int)
    requires 0 < n <= |s|
    ensures Reached(s, n, c, t) <==> Reached(s, n - 1, c, t) || (s[n - 1].Cell() == c && s[n - 1].time == t)
  {
    if Reached(s, n, c, t) && !(s[n - 1].Cell() == c && s[n - 1].time == t) {
      var j :| 0 <= j < n && s[j].Cell() == c && s[j].time == t;
      assert j < n - 1;
    }
  }

  /** The second pass over `s[..n]` has kept a cell exactly when some
      event of that cell in the prefix carries the recorded time. */
  lemma {:induction false} SurvivorsCells(s: seq<VisualData>, n: nat, latest: map<Coord, VisualData>)
    requires n <= |s|
    ensures forall c :: c in Cells(Survivors(s[..n], latest)) <==> c in latest && Reached(s, n, c, latest[c].time)
  {
    if n > 0 {
      var v := s[n - 1];
      var r := Survivors(s[..n - 1], latest);
      SurvivorsCells(s, n - 1, latest);
      SurvivorsStep(s, n - 1, latest);
      CellsAppend(r, v);
      var t := Survivors(s[..n], latest);
      forall c ensures c in Cells(t) <==> c in latest && Reached(s, n, c, latest[c].time) {
        if c in latest {
          ReachedStep(s, n, c, latest[c].time);
        }
      }
    }
  }

  /** The step condition of the second pass, under the facts the first
      pass provides, is the reference condition `FirstLatest`. */
  lemma KeptIffFirstLatest(s: seq<VisualData>, k: nat, latest: VisualData, keptBefore: bool)
    requires k < |s| && latest.Cell() == s[k].Cell() && latest in s
    requires forall j :: 0 <= j < |s| && s[j].Cell() == s[k].Cell() ==> s[j].time <= latest.time
    requires keptBefore <==> Reached(s, k, s[k].Cell(), latest.time)
    ensures (!keptBefore && latest.time == s[k].time) <==> FirstLatest(s, k)
  {
    if FirstLatest(s, k) {
      var i :| 0 <= i < |s| && s[i] == latest;
    }
  }

  /** The second pass over `s[..n]`, driven by the latest map of the
      whole input, is the reference filter on the first `n` events. */
  lemma {:induction false} SurvivorsAreFirstLatest(s: seq<VisualData>, n: nat)
    requires n <= |s|
    ensures Survivors(s[..n], LatestOf(s)) == FirstLatestUpTo(s, n)
  {
    if n > 0 {
      SurvivorsAreFirstLatest(s, n - 1);
      SurvivorsStep(s, n - 1, LatestOf(s));
      KeptAt(s, n - 1);
    }
  }

  /** The second pass, driven by the latest map of the whole input,
      keeps index `k` exactly when it is a first-latest index. */
  lemma KeptAt(s: seq<VisualData>, k: nat)
    requires k < |s|
    ensures var l := LatestOf(s);
            var c := s[k].Cell();
            (c !in Cells(Survivors(s[..k], l)) && c in l && l[c].time == s[k].time) <==> FirstLatest(s, k)
  {
    var l := LatestOf(s);
    var c := s[k].Cell();
    var r := Survivors(s[..k], l);
    assert c in l && l[c].Cell() == c && l[c] in s
      && forall j :: 0 <= j < |s| && s[j].Cell() == c ==> s[j].time <= l[c].time
    by {
      LatestOfMembers(s);
      LatestOfGreatest(s);
    }
    assert c in Cells(r) <==> Reached(s, k, c, l[c].time) by {
      SurvivorsCells(s, k, l);
    }
    KeptIffFirstLatest(s, k, l[c], c in Cells(r));
  }

  /** What `removeOldData` keeps is exactly the reference filter: the
      first event holding the greatest time of its cell, in input order. */
  lemma DeduplicatedIsFirstLatest(s: seq<VisualData>)
    ensures Deduplicated(s) == FirstLatestUpTo(s, |s|)
  {
    if |s| > 0 {
      assert s[..|s|] == s;
      SurvivorsAreFirstLatest(s, |s|);
    }
  }

  /** Nil or empty input is left as it is; otherwise the result is an
      order-preserving subsequence, hence no longer than the input. */
  lemma DeduplicatedIsSubsequence(s: seq<VisualData>)
    ensures |s| == 0 ==> Deduplicated(s) == s
    ensures SubsequenceOf(Deduplicated(s), s)
    ensures |Deduplicated(s)| <= |s|
  {
    if |s| > 0 {
      SurvivorsSubsequence(s, |s|, LatestOf(s));
      assert s[..|s|] == s;
    }
    SubsequenceNoLonger(Deduplicated(s), s);
  }

  lemma {:induction false} SubsequenceNoLonger(r: seq<VisualData>, s: seq<VisualData>)
    requires SubsequenceOf(r, s)
    ensures |r| <= |s|
    decreases |s|
  {
    if r != [] {
      if r[|r| - 1] == s[|s| - 1] && SubsequenceOf(r[..|r| - 1], s[..|s| - 1]) {
        SubsequenceNoLonger(r[..|r| - 1], s[..|s| - 1]);
      } else {
        SubsequenceNoLonger(r, s[..|s| - 1]);
      }
    }
  }

  /** Exactly one event survives for each cell present in the input. */
  lemma DeduplicatedOnePerCell(s: seq<VisualData>)
    ensures Cells(Deduplicated(s)) == Cells(s)
    ensures DistinctCells(Deduplicated(s))
  {
    if |s| > 0 {
      var l := LatestOf(s);
      LatestOfDomain(s);
      LatestOfMembers(s);
      SurvivorsDistinct(s, |s|, l);
      SurvivorsCells(s, |s|, l);
      assert s[..|s|] == s;
      forall c | c in Cells(s) ensures c in Cells(Deduplicated(s)) {
        var k :| 0 <= k < |s| && s[k] == l[c];
      }
      forall c | c in Cells(Deduplicated(s)) ensures c in Cells(s) {
        var j :| 0 <= j < |s| && s[j].Cell() == c && s[j].time == l[c].time;
      }
    }
  }

  /** Each survivor is an event of the input holding the greatest time
      of its cell, and the first such event in input order. */
  lemma DeduplicatedKeepsFirstLatest(s: seq<VisualData>)
    ensures forall e :: e in Deduplicated(s) ==>
              exists k :: 0 <= k < |s| && s[k] == e && FirstLatest(s, k)
  {
    DeduplicatedIsFirstLatest(s);
    FirstLatestUpToMembers(s, |s|);
  }

  lemma {:induction false} FirstLatestUpToMembers(s: seq<VisualData>, n: nat)
    requires n <= |s|
    ensures forall e :: e in FirstLatestUpTo(s, n) ==>
              exists k :: 0 <= k < n && s[k] == e && FirstLatest(s, k)
  {
    if n > 0 {
      FirstLatestUpToMembers(s, n - 1);
    }
  }

  /** On events with pairwise distinct cells the filter is the identity. */
  lemma DistinctCellsFixed(s: seq<VisualData>)
    requires DistinctCells(s)
    ensures Deduplicated(s) == s
  {
    DeduplicatedIsFirstLatest(s);
    DistinctCellsFirstLatest(s, |s|);
    assert s[..|s|] == s;
  }

  lemma {:induction false} DistinctCellsFirstLatest(s: seq<VisualData>, n: nat)
    requires DistinctCells(s) && n <= |s|
    ensures FirstLatestUpTo(s, n) == s[..n]
  {
    if n > 0 {
      DistinctCellsFirstLatest(s, n - 1);
      assert FirstLatest(s, n - 1);
      assert s[..n] == s[..n - 1] + [s[n - 1]];
    }
  }

  /** Applying the filter to its own output changes nothing. */
  lemma DeduplicatedIdempotent(s: seq<VisualData>)
    ensures Deduplicated(Deduplicated(s)) == Deduplicated(s)
  {
    DeduplicatedOnePerCell(s);
    DistinctCellsFixed(Deduplicated(s));
  }

  /** The first loop of `removeOldData`: the latest event of each cell,
      ties going to the earliest. */
  method LatestTimes(data: array<VisualData>) returns (latest: map<Coord, VisualData>)
    ensures latest == LatestOf(data[..])
  {
    latest := map[];
    var i := 0;
    while i < data.Length
      invariant 0 <= i <= data.Length
      invariant latest == LatestOf(data[..i])
    {
      var v := data[i];
      var key := v.Cell();
      if key !in latest || v.time > latest[key].time {
        latest := latest[key := v];
      }
      assert data[..i + 1][..i] == data[..i];
      i := i + 1;
    }
    assert data[..i] == data[..];
  }

  /** `removeOldData`: compacts `data` in place with a read index and a
      write index, and returns the new length of the slice. The kept
      prefix is the deduplicated input; the slots after it are those
      the compaction never wrote. */
  method RemoveOldData(data: array<VisualData>) returns (n: nat)
    modifies data
    ensures n <= data.Length
    ensures data[..n] == Deduplicated(old(data[..]))
    ensures data[n..] == old(data[..])[n..]
  {
    if data.Length == 0 {
      return 0;
    }
    ghost var input := data[..];
    var latest := LatestTimes(data);

    var write := 0;
    var seen: map<Coord, bool> := map[];
    ghost var kept: seq<VisualData> := [];
    var i := 0;
    while i < data.Length
      invariant 0 <= write <= i <= data.Length
      invariant kept == Survivors(input[..i], latest) && write == |kept|
      invariant data[..write] == kept
      invariant forall k :: write <= k < data.Length ==> data[k] == input[k]
      invariant forall k :: k in seen <==> k in Cells(kept)
      invariant forall k :: k in seen ==> seen[k]
    {
      var v := data[i];
      var key := v.Cell();
      SurvivorsStep(input, i, latest);
      if !(key in seen && seen[key]) && key in latest && latest[key].time == v.time {
        data[write] := v;
        CellsAppend(kept, v);
        kept := kept + [v];
        write := write + 1;
        seen := seen[key := true];
      }
      i := i + 1;
    }
    assert input[..i] == input;
    assert data[write..] == input[write..];
    n := write;
  }
}
