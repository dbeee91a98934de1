/**
  Where the rows UI_SortServerStatusInfo (src/ui/ui_main.c) leaves come
  from: the front holds distinct input rows renamed for the table entry that
  owns them, and the rest are exactly the input rows no entry matches.
 */
module StatusOrigin {
  import opened Common
  import opened StatusInfo

  // ---------------------------------------------------------------------
  //   Where the sorted rows come from
  // ---------------------------------------------------------------------

  /** No entry of the table matches the row: it stays behind the front. */
  predicate Unclaimed(row: Row)
  {
    forall e :: 0 <= e < NumStatusCvars ==> !Matches(e, row)
  }

  /** The rows no entry of the table matches, in order. */
  function Unmatched(rows: seq<Row>): (r: seq<Row>)
    ensures |r| <= |rows|
  {
    if rows == [] then [] else (if Unclaimed(rows[0]) then [rows[0]] else []) + Unmatched(rows[1..])
  }

  /** Unmatched keeps every copy of an unclaimed row and none of a claimed
      one. */
  lemma {:induction false} UnmatchedCounts(l: seq<Row>)
    ensures forall x :: multiset(Unmatched(l))[x] == if Unclaimed(x) then multiset(l)[x] else 0
    decreases |l|
  {
    if l != [] {
      UnmatchedCounts(l[1..]);
      assert l == [l[0]] + l[1..];
    }
  }

  /** The same rows in another order leave the same unmatched rows. */
  lemma UnmatchedOfSameRows(a: seq<Row>, b: seq<Row>)
    requires multiset(a) == multiset(b)
    ensures multiset(Unmatched(a)) == multiset(Unmatched(b))
  {
    UnmatchedCounts(a);
    UnmatchedCounts(b);
    assert forall x :: multiset(Unmatched(a))[x] == multiset(Unmatched(b))[x];
  }

  /** Claimed rows in front change nothing. */
  lemma {:induction false} UnmatchedSkipsClaimed(a: seq<Row>, b: seq<Row>)
    requires forall k :: 0 <= k < |a| ==> !Unclaimed(a[k])
    ensures Unmatched(a + b) == Unmatched(b)
    decreases |a|
  {
    if a != [] {
      assert !Unclaimed((a + b)[0]);
      assert (a + b)[1..] == a[1..] + b;
      UnmatchedSkipsClaimed(a[1..], b);
    } else {
      assert a + b == b;
    }
  }

  /** Unclaimed rows are all kept. */
  lemma {:induction false} UnmatchedKeepsUnclaimed(b: seq<Row>)
    requires forall k :: 0 <= k < |b| ==> Unclaimed(b[k])
    ensures Unmatched(b) == b
    decreases |b|
  {
    if b != [] {
      assert Unclaimed(b[0]);
      assert forall k :: 0 <= k < |b[1..]| ==> b[1..][k] == b[k + 1];
      UnmatchedKeepsUnclaimed(b[1..]);
    }
  }

  /** The rows the source indices src pick out of rows. */
  function Image(rows: seq<Row>, src: seq<nat>): (r: seq<Row>)
    requires forall k :: 0 <= k < |src| ==> src[k] < |rows|
    ensures |r| == |src|
  {
    seq(|src|, k requires 0 <= k < |src| => rows[src[k]])
  }

  /** s with the elements at i and j exchanged. */
  function Swap<T>(s: seq<T>, i: nat, j: nat): (r: seq<T>)
    requires i < |s| && j < |s|
    ensures |r| == |s| && r[i] == s[j] && r[j] == s[i]
    ensures forall k :: 0 <= k < |s| && k != i && k != j ==> r[k] == s[k]
  {
    s[i := s[j]][j := s[i]]
  }

  lemma SwapMultiset<T>(s: seq<T>, i: nat, j: nat)
    requires i < |s| && j < |s|
    ensures multiset(Swap(s, i, j)) == multiset(s)
  {
    if i != j {
      var t := s[i := s[j]];
      assert multiset(t) == multiset(s) - multiset{s[i]} + multiset{s[j]};
      assert t[j] == s[j];
    }
  }

  /** Row `row` is the input row o, moved for the entry that owns it and
      shown under that entry's name. */
  ghost predicate Renamed(row: Row, o: Row)
  {
    Owner(row) < NumStatusCvars && Matches(Owner(row), o) && row == o.(key := ShownKey(Owner(row), o.key))
  }

  /** cur is the input rows with the front renamed: src gives each slot
      the distinct input row it holds, renamed before `index` and as it was
      from `index` on. */
  ghost predicate Traced(rows: seq<Row>, cur: seq<Row>, index: nat, src: seq<nat>)
  {
    |cur| == |rows| == |src| && index <= |cur|
    && (forall k :: 0 <= k < |src| ==> src[k] < |rows|)
    && (forall k1, k2 :: 0 <= k1 < k2 < |src| ==> src[k1] != src[k2])
    && multiset(Image(rows, src)) == multiset(rows)
    && (forall k :: 0 <= k < index ==> Renamed(cur[k], rows[src[k]]))
    && (forall k :: index <= k < |cur| ==> cur[k] == rows[src[k]])
  }

  /** Among cvar rows, a swap exchanges two whole rows and renames the one
      it moves to the front. */
  lemma SwapTraced(rows: seq<Row>, cur: seq<Row>, e: nat, index: nat, j: nat, src: seq<nat>)
    requires e < NumStatusCvars && index <= j < |cur| && Matches(e, cur[j])
    requires CvarRows(cur) && Traced(rows, cur, index, src)
    ensures CvarRows(Swapped(cur, e, index, j)) && Traced(rows, Swapped(cur, e, index, j), index + 1, Swap(src, index, j))
  {
    var r := Swapped(cur, e, index, j);
    var src' := Swap(src, index, j);
    ShownKeyFacts(e, cur[j].key);
    assert Image(rows, src') == Swap(Image(rows, src), index, j);
    SwapMultiset(Image(rows, src), index, j);
    assert r[index] == cur[j].(key := ShownKey(e, cur[j].key));
    assert Renamed(r[index], rows[src'[index]]);
    assert j != index ==> r[j] == cur[index];
    assert forall k :: 0 <= k < |r| && k != j && k != index ==> r[k] == cur[k];
  }

  /** A pass for entry e keeps the rows traced to the input. */
  lemma {:induction false} ScanEntryTraced(rows: seq<Row>, cur: seq<Row>, e: nat, j: nat, index: nat, src: seq<nat>)
      returns (src': seq<nat>)
    requires e < NumStatusCvars && j <= |cur| && index <= |cur|
    requires forall k :: j <= k < index ==> !Matches(e, cur[k])
    requires CvarRows(cur) && Traced(rows, cur, index, src)
    ensures var (cur', index') := ScanEntry(cur, e, j, index);
      CvarRows(cur') && Traced(rows, cur', index', src')
    decreases |cur| - j
  {
    if j == |cur| {
      src' := src;
    } else if Matches(e, cur[j]) {
      SwapTraced(rows, cur, e, index, j, src);
      src' := ScanEntryTraced(rows, Swapped(cur, e, index, j), e, j + 1, index + 1, Swap(src, index, j));
    } else {
      src' := ScanEntryTraced(rows, cur, e, j + 1, index, src);
    }
  }

  /** One pass of the outer loop: the rows it leaves are settled for the
      later entries, are cvar rows and stay traced to the input. */
  lemma SelectStep(rows: seq<Row>, cur: seq<Row>, e: nat, index: nat, src: seq<nat>) returns (src': seq<nat>)
    requires e < NumStatusCvars && index <= |cur| && Settled(cur, index, e)
    requires CvarRows(cur) && Traced(rows, cur, index, src)
    ensures var next := ScanEntry(cur, e, 0, index);
      Settled(next.0, next.1, e + 1) && CvarRows(next.0) && Traced(rows, next.0, next.1, src')
      && SelectFrom(cur, e, index) == SelectFrom(next.0, e + 1, next.1)
  {
    ScanEntrySettles(cur, e, 0, index);
    src' := ScanEntryTraced(rows, cur, e, 0, index, src);
  }

  /** The outer loop keeps the rows traced to the input. */
  lemma {:induction false} SelectFromTraced(rows: seq<Row>, cur: seq<Row>, e: nat, index: nat, src: seq<nat>)
      returns (src': seq<nat>)
    requires e <= NumStatusCvars && index <= |cur| && Settled(cur, index, e)
    requires CvarRows(cur) && Traced(rows, cur, index, src)
    ensures Traced(rows, SelectFrom(cur, e, index).0, SelectFrom(cur, e, index).1, src')
    decreases NumStatusCvars - e
  {
    if e == NumStatusCvars {
      src' := src;
    } else {
      var src1 := SelectStep(rows, cur, e, index, src);
      var next := ScanEntry(cur, e, 0, index);
      src' := SelectFromTraced(rows, next.0, e + 1, next.1, src1);
    }
  }

  /** The front of r holds, slot by slot, distinct input rows (src), each
      renamed for the entry that owns it. */
  ghost predicate FrontFrom(rows: seq<Row>, r: seq<Row>, front: nat, src: seq<nat>)
  {
    front <= |r| && |src| == front
    && (forall k :: 0 <= k < front ==> src[k] < |rows| && Renamed(r[k], rows[src[k]]))
    && (forall k1, k2 :: 0 <= k1 < k2 < front ==> src[k1] != src[k2])
  }

  /** Once no row behind the front is claimed, the rows behind it are the
      unmatched input rows. */
  lemma TracedRest(rows: seq<Row>, cur: seq<Row>, front: nat, src: seq<nat>)
    requires Traced(rows, cur, front, src) && RestClear(cur, front, NumStatusCvars)
    ensures multiset(cur[front..]) == multiset(Unmatched(rows))
  {
    var image := Image(rows, src);
    assert image[front..] == cur[front..];
    forall k | 0 <= k < |image[..front]|
      ensures !Unclaimed(image[..front][k])
    {
      assert Renamed(cur[k], rows[src[k]]);
    }
    assert image == image[..front] + image[front..];
    UnmatchedSkipsClaimed(image[..front], image[front..]);
    UnmatchedKeepsUnclaimed(image[front..]);
    UnmatchedOfSameRows(image, rows);
  }

  /** The front of traced rows comes from distinct input rows, renamed;
      so does the front of any rows that share it. */
  lemma TracedFront(rows: seq<Row>, cur: seq<Row>, r: seq<Row>, front: nat, src: seq<nat>)
    requires Traced(rows, cur, front, src) && front <= |r| && r[..front] == cur[..front]
    ensures FrontFrom(rows, r, front, src[..front])
  {
    forall k | 0 <= k < front
      ensures r[k] == cur[k]
    {
      assert r[..front][k] == cur[..front][k];
    }
  }

  /** SortSpec keeps the front the loops leave and sorts the rest. */
  lemma SortSpecParts(rows: seq<Row>)
    ensures var (moved, front) := Selected(rows);
      SortSpec(rows)[..front] == moved[..front] && SortSpec(rows)[front..] == SortByKey(moved[front..])
  {
  }

  /** For the cvar rows a reply yields, UI_SortServerStatusInfo only
      reorders and renames: every front row is a distinct input row the
      table claims, shown under its entry's name, and the rows after the
      front are exactly the input rows no entry claims. */
  lemma SortSpecSources(rows: seq<Row>)
    requires CvarRows(rows)
    ensures var r, front := SortSpec(rows), Selected(rows).1;
      (exists src :: FrontFrom(rows, r, front, src))
      && multiset(r[front..]) == multiset(Unmatched(rows))
      && front + |Unmatched(rows)| == |rows|
  {
    var (moved, front) := Selected(rows);
    var id := seq(|rows|, k requires 0 <= k < |rows| => k);
    assert Image(rows, id) == rows;
    var src := SelectFromTraced(rows, rows, 0, 0, id);
    SelectFromClears(rows, 0, 0);
    TracedRest(rows, moved, front, src);
    SortSpecParts(rows);
    TracedFront(rows, moved, SortSpec(rows), front, src);
    assert |multiset(Unmatched(rows))| == |Unmatched(rows)|;
  }
}
