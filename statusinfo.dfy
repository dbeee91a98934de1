/**
  The server-status text of src/ui/ui_main.c: UI_GetServerStatusInfo cuts
  the backslash-delimited reply of a server into rows of four columns, and
  UI_SortServerStatusInfo moves the well-known cvars to the front and sorts
  the others.

  The reply is the C string the engine hands back, so it holds no NUL; the
  rows are the strings the four column `char *` fields of each row reach, each up
  to the NUL the parser writes after it.
 */
module StatusInfo {
  import opened Common

  /** One row of serverStatusInfo_t.lines: for a cvar (key, "", "", value),
      for a player (number, score, ping, name). */
  datatype Row = Row(key: string, score: string, ping: string, text: string)

  // ---------------------------------------------------------------------
  //   strcmp
  // ---------------------------------------------------------------------

  /** The sign of `strcmp(a, b)`: lexicographic on character codes, a
      proper prefix first. */
  function StrCmp(a: string, b: string): (r: int)
    ensures -1 <= r <= 1
    ensures r == 0 <==> a == b
  {
    if a == [] then (if b == [] then 0 else -1)
    else if b == [] then 1
    else if a[0] < b[0] then -1
    else if a[0] > b[0] then 1
    else
      assert a == [a[0]] + a[1..] && b == [b[0]] + b[1..];
      StrCmp(a[1..], b[1..])
  }

  lemma {:induction false} StrCmpAntisymmetric(a: string, b: string)
    ensures StrCmp(a, b) == -StrCmp(b, a)
  {
    if a != [] && b != [] && a[0] == b[0] {
      StrCmpAntisymmetric(a[1..], b[1..]);
    }
  }

  lemma {:induction false} StrCmpTransitive(a: string, b: string, c: string)
    requires StrCmp(a, b) <= 0 && StrCmp(b, c) <= 0
    ensures StrCmp(a, c) <= 0
  {
    if a != [] && b != [] && c != [] && a[0] == b[0] == c[0] {
      StrCmpTransitive(a[1..], b[1..], c[1..]);
    }
  }

  // ---------------------------------------------------------------------
  //   The well-known cvars
  // ---------------------------------------------------------------------

  /** serverStatusCvars: the cvars shown first, in this order, and the name
      each is shown under ("" keeps the cvar's own). */
  const NumStatusCvars: nat := 7

  function CvarName(e: nat): string
    requires e < NumStatusCvars
  {
    match e
    case 0 => "sv_hostname"
    case 1 => "Address"
    case 2 => "gamename"
    case 3 => "mapname"
    case 4 => "version"
    case 5 => "protocol"
    case _ => "timelimit"
  }

  function AltName(e: nat): string
    requires e < NumStatusCvars
  {
    match e
    case 0 => "Name"
    case 2 => "Game name"
    case 3 => "Map"
    case _ => ""
  }

  /** Q_stricmp(a, b) == 0, compared character by character in its own
      loop: the same characters up to ASCII case, and the same length. */
  predicate SameIgnoringCase(a: string, b: string)
  {
    if a == [] || b == [] then a == b
    else ToLower(a[0]) == ToLower(b[0]) && SameIgnoringCase(a[1..], b[1..])
  }

  lemma {:induction false} SameIgnoringCaseIsLower(a: string, b: string)
    ensures SameIgnoringCase(a, b) <==> EqualsIgnoreCase(a, b)
  {
    if a != [] && b != [] {
      SameIgnoringCaseIsLower(a[1..], b[1..]);
      assert Lower(a) == [ToLower(a[0])] + Lower(a[1..]);
      assert Lower(b) == [ToLower(b[0])] + Lower(b[1..]);
      if Lower(a) == Lower(b) {
        assert Lower(a)[1..] == Lower(a[1..]) && Lower(b)[1..] == Lower(b[1..]);
      }
    } else if a != [] || b != [] {
      assert |Lower(a)| != |Lower(b)|;
    }
  }

  /** Row j is moved for table entry e: its second column is empty and its
      key is e's name up to case. */
  predicate Matches(e: nat, row: Row)
    requires e < NumStatusCvars
  {
    row.score == "" && SameIgnoringCase(CvarName(e), row.key)
  }

  /** The key a moved row ends up with. */
  function ShownKey(e: nat, key: string): string
    requires e < NumStatusCvars
  {
    if |AltName(e)| > 0 then AltName(e) else key
  }

  /** A key that table entry e can have left at the front. */
  predicate ShownFor(key: string, e: nat)
    requires e < NumStatusCvars
  {
    if |AltName(e)| > 0 then key == AltName(e) else SameIgnoringCase(CvarName(e), key)
  }

  function OwnerFrom(key: string, e: nat): (o: nat)
    requires e <= NumStatusCvars
    ensures e <= o <= NumStatusCvars
    decreases NumStatusCvars - e
  {
    if e == NumStatusCvars then e else if ShownFor(key, e) then e else OwnerFrom(key, e + 1)
  }

  /** The table entry a front row belongs to: the first one it can have come
      from, or NumStatusCvars for none. */
  function Owner(row: Row): nat
  {
    OwnerFrom(row.key, 0)
  }

  predicate Apart(a: string, b: string)
  {
    |a| != |b| || (|a| > 0 && |b| > 0 && ToLower(a[0]) != ToLower(b[0]))
  }

  lemma ApartFolds(a: string, b: string)
    requires Apart(a, b)
    ensures Lower(a) != Lower(b)
  {
    if |a| == |b| {
      assert Lower(a)[0] != Lower(b)[0];
    }
  }

  /** The names of the table differ up to case, and so do the names it
      shows: no shown name is a table name up to case. */
  lemma TableApart(e: nat, f: nat)
    requires e < NumStatusCvars && f < NumStatusCvars
    ensures e != f ==> Lower(CvarName(e)) != Lower(CvarName(f))
    ensures |AltName(e)| > 0 ==> Lower(AltName(e)) != Lower(CvarName(f))
    ensures e != f && |AltName(e)| > 0 ==> AltName(e) != AltName(f)
  {
    if e != f {
      assert Apart(CvarName(e), CvarName(f));
      ApartFolds(CvarName(e), CvarName(f));
    }
    if |AltName(e)| > 0 {
      assert Apart(AltName(e), CvarName(f));
      ApartFolds(AltName(e), CvarName(f));
    }
  }

  lemma {:induction false} OwnerFromIs(key: string, e: nat, o: nat)
    requires e <= o < NumStatusCvars && ShownFor(key, o)
    requires forall f :: e <= f < o ==> !ShownFor(key, f)
    ensures OwnerFrom(key, e) == o
    decreases o - e
  {
    if e < o {
      OwnerFromIs(key, e + 1, o);
    }
  }

  /** A row moved for entry e belongs to e, and its shown key matches no
      other entry of the table. */
  lemma ShownKeyFacts(e: nat, key: string)
    requires e < NumStatusCvars && SameIgnoringCase(CvarName(e), key)
    ensures ShownFor(ShownKey(e, key), e) && OwnerFrom(ShownKey(e, key), 0) == e
    ensures forall f :: 0 <= f < NumStatusCvars && f != e ==> !SameIgnoringCase(CvarName(f), ShownKey(e, key))
  {
    var k := ShownKey(e, key);
    SameIgnoringCaseIsLower(CvarName(e), key);
    forall f | 0 <= f < NumStatusCvars && f != e
      ensures !ShownFor(k, f) && !SameIgnoringCase(CvarName(f), k)
    {
      SameIgnoringCaseIsLower(CvarName(f), k);
      TableApart(e, f);
      TableApart(f, e);
    }
    OwnerFromIs(k, 0, e);
  }

  // ---------------------------------------------------------------------
  //   UI_SortServerStatusInfo
  // ---------------------------------------------------------------------

  /** The swap of UI_SortServerStatusInfo: the first and last columns of
      rows `index` and `j` change places, then row `index` takes the name
      entry e shows. */
  function Swapped(rows: seq<Row>, e: nat, index: nat, j: nat): (r: seq<Row>)
    requires e < NumStatusCvars && index <= j < |rows|
    ensures |r| == |rows|
  {
    var a, b := rows[index], rows[j];
    rows[j := Row(a.key, b.score, b.ping, a.text)][index := Row(ShownKey(e, b.key), a.score, a.ping, b.text)]
  }

  /** No row before `index` matches an entry from e on. */
  ghost predicate Settled(rows: seq<Row>, index: nat, e: nat)
  {
    forall k, f :: 0 <= k < index && k < |rows| && e <= f < NumStatusCvars ==> !Matches(f, rows[k])
  }

  /** The inner loop for table entry e, from row j with `index` rows at the
      front: the rows, and the front's new length. */
  function ScanEntry(rows: seq<Row>, e: nat, j: nat, index: nat): (r: (seq<Row>, nat))
    requires e < NumStatusCvars && j <= |rows| && index <= |rows|
    requires forall k :: j <= k < index ==> !Matches(e, rows[k])
    ensures |r.0| == |rows| && index <= r.1 <= |rows|
    decreases |rows| - j
  {
    if j == |rows| then (rows, index)
    else if Matches(e, rows[j]) then ScanEntry(Swapped(rows, e, index, j), e, j + 1, index + 1)
    else ScanEntry(rows, e, j + 1, index)
  }

  /** The outer loop, from table entry e on. */
  function SelectFrom(rows: seq<Row>, e: nat, index: nat): (r: (seq<Row>, nat))
    requires e <= NumStatusCvars && index <= |rows| && Settled(rows, index, e)
    ensures |r.0| == |rows| && index <= r.1 <= |rows|
    decreases NumStatusCvars - e
  {
    if e == NumStatusCvars then (rows, index)
    else
      ScanEntrySettles(rows, e, 0, index);
      var (rows', index') := ScanEntry(rows, e, 0, index);
      SelectFrom(rows', e + 1, index')
  }

  /** Settled rows do not match the entry being scanned. */
  lemma SettledHere(rows: seq<Row>, index: nat, e: nat)
    requires e < NumStatusCvars && index <= |rows| && Settled(rows, index, e)
    ensures forall k :: 0 <= k < index ==> !Matches(e, rows[k])
  {
  }

  /** The rows the loops leave, and how many of them were moved to the
      front. */
  function Selected(rows: seq<Row>): (r: (seq<Row>, nat))
    ensures |r.0| == |rows| && r.1 <= |rows|
  {
    SelectFrom(rows, 0, 0)
  }

  function InsertByKey(x: Row, l: seq<Row>): (r: seq<Row>)
    ensures multiset(r) == multiset(l) + multiset{x}
  {
    if l == [] then [x]
    else if StrCmp(x.key, l[0].key) <= 0 then [x] + l
    else
      assert l == [l[0]] + l[1..];
      [l[0]] + InsertByKey(x, l[1..])
  }

  /** The rows in strcmp order of their keys: the order qsort with
      UI_SortServerStatusCompare leaves them in, up to the order among
      equal keys. */
  function SortByKey(l: seq<Row>): (r: seq<Row>)
    ensures multiset(r) == multiset(l) && |r| == |l|
  {
    if l == [] then []
    else
      assert l == [l[0]] + l[1..];
      InsertByKey(l[0], SortByKey(l[1..]))
  }

  /** The rows UI_SortServerStatusInfo leaves. */
  function SortSpec(rows: seq<Row>): (r: seq<Row>)
    ensures |r| == |rows|
  {
    var (moved, front) := Selected(rows);
    moved[..front] + SortByKey(moved[front..])
  }

  ghost predicate KeySorted(l: seq<Row>)
  {
    forall i, j :: 0 <= i < j < |l| ==> StrCmp(l[i].key, l[j].key) <= 0
  }

  /** A row no greater than any row of a sorted list can go in front. */
  lemma SortedCons(x: Row, l: seq<Row>)
    requires KeySorted(l)
    requires forall k :: 0 <= k < |l| ==> StrCmp(x.key, l[k].key) <= 0
    ensures KeySorted([x] + l)
  {
    var r := [x] + l;
    forall i, j | 0 <= i < j < |r|
      ensures StrCmp(r[i].key, r[j].key) <= 0
    {
      assert r[j] == l[j - 1];
      if i > 0 {
        assert r[i] == l[i - 1];
      }
    }
  }

  lemma {:induction false} InsertByKeySorted(x: Row, l: seq<Row>)
    requires KeySorted(l)
    ensures KeySorted(InsertByKey(x, l))
    decreases |l|
  {
    if l == [] {
    } else if StrCmp(x.key, l[0].key) <= 0 {
      forall k | 0 <= k < |l|
        ensures StrCmp(x.key, l[k].key) <= 0
      {
        if k > 0 {
          StrCmpTransitive(x.key, l[0].key, l[k].key);
        }
      }
      SortedCons(x, l);
    } else {
      StrCmpAntisymmetric(x.key, l[0].key);
      var t := l[1..];
      assert KeySorted(t) by {
        forall i, j | 0 <= i < j < |t|
          ensures StrCmp(t[i].key, t[j].key) <= 0
        {
          assert t[i] == l[i + 1] && t[j] == l[j + 1];
        }
      }
      InsertByKeySorted(x, t);
      var r' := InsertByKey(x, t);
      forall k | 0 <= k < |r'|
        ensures StrCmp(l[0].key, r'[k].key) <= 0
      {
        assert r'[k] in multiset(r');
        if r'[k] != x {
          assert r'[k] in t;
          var m :| 0 <= m < |t| && t[m] == r'[k];
          assert t[m] == l[m + 1];
        }
      }
      SortedCons(l[0], r');
    }
  }

  lemma {:induction false} SortByKeySorts(l: seq<Row>)
    ensures KeySorted(SortByKey(l))
    decreases |l|
  {
    if l != [] {
      SortByKeySorts(l[1..]);
      InsertByKeySorted(l[0], SortByKey(l[1..]));
    }
  }

  /** Every row a pass for entry e moves matches no later entry, so the rows
      the outer loop has moved stay out of its later passes. */
  lemma {:induction false} ScanEntrySettles(rows: seq<Row>, e: nat, j: nat, index: nat)
    requires e < NumStatusCvars && j <= |rows| && index <= |rows|
    requires forall k :: j <= k < index ==> !Matches(e, rows[k])
    requires Settled(rows, index, e + 1)
    ensures Settled(ScanEntry(rows, e, j, index).0, ScanEntry(rows, e, j, index).1, e + 1)
    decreases |rows| - j
  {
    if j < |rows| {
      if Matches(e, rows[j]) {
        var r := Swapped(rows, e, index, j);
        ShownKeyFacts(e, rows[j].key);
        assert r[index].key == ShownKey(e, rows[j].key);
        forall k, f | 0 <= k < index + 1 && k < |r| && e + 1 <= f < NumStatusCvars
          ensures !Matches(f, r[k])
        {
          if k < index {
            assert r[k] == rows[k];
          }
        }
        ScanEntrySettles(r, e, j + 1, index + 1);
      } else {
        ScanEntrySettles(rows, e, j + 1, index);
      }
    }
  }

  /** Every row is a cvar row: second and third columns empty. */
  ghost predicate CvarRows(rows: seq<Row>)
  {
    forall k :: 0 <= k < |rows| ==> rows[k].score == "" && rows[k].ping == ""
  }

  /** The front holds rows of the table, grouped in table order. */
  ghost predicate FrontOwned(rows: seq<Row>, index: nat, bound: nat)
  {
    (forall k :: 0 <= k < index && k < |rows| ==> Owner(rows[k]) < bound)
    && (forall k1, k2 :: 0 <= k1 < k2 < index && k2 < |rows| ==> Owner(rows[k1]) <= Owner(rows[k2]))
  }

  /** No row from `index` on matches an entry below `bound`. */
  ghost predicate RestClear(rows: seq<Row>, index: nat, bound: nat)
  {
    forall k, f :: index <= k < |rows| && 0 <= f < bound && f < NumStatusCvars ==> !Matches(f, rows[k])
  }

  /** A pass for entry e grows the front by rows of entry e, so the front
      stays in the order of the table. */
  lemma {:induction false} ScanEntryOrders(rows: seq<Row>, e: nat, j: nat, index: nat)
    requires e < NumStatusCvars && j <= |rows| && index <= |rows|
    requires forall k :: j <= k < index ==> !Matches(e, rows[k])
    requires FrontOwned(rows, index, e + 1)
    ensures FrontOwned(ScanEntry(rows, e, j, index).0, ScanEntry(rows, e, j, index).1, e + 1)
    decreases |rows| - j
  {
    if j < |rows| {
      if Matches(e, rows[j]) {
        SwapOrders(rows, e, j, index);
        ScanEntryOrders(Swapped(rows, e, index, j), e, j + 1, index + 1);
      } else {
        ScanEntryOrders(rows, e, j + 1, index);
      }
    }
  }

  lemma SwapOrders(rows: seq<Row>, e: nat, j: nat, index: nat)
    requires e < NumStatusCvars && index <= j < |rows| && Matches(e, rows[j])
    requires FrontOwned(rows, index, e + 1)
    ensures FrontOwned(Swapped(rows, e, index, j), index + 1, e + 1)
  {
    var r := Swapped(rows, e, index, j);
    ShownKeyFacts(e, rows[j].key);
    assert Owner(r[index]) == e;
    assert forall k :: 0 <= k < index ==> r[k] == rows[k];
    forall k1, k2 | 0 <= k1 < k2 < index + 1 && k2 < |r|
      ensures Owner(r[k1]) <= Owner(r[k2])
    {
      if k2 < index {
        assert r[k1] == rows[k1] && r[k2] == rows[k2];
      }
    }
  }

  /** Among cvar rows, a pass for entry e leaves nothing of entry e, or of an
      earlier one, behind the front. */
  lemma {:induction false} ScanEntryClears(rows: seq<Row>, e: nat, j: nat, index: nat)
    requires e < NumStatusCvars && j <= |rows| && index <= |rows|
    requires forall k :: j <= k < index ==> !Matches(e, rows[k])
    requires CvarRows(rows) && RestClear(rows, index, e)
    requires forall k :: index <= k < j ==> !Matches(e, rows[k])
    ensures CvarRows(ScanEntry(rows, e, j, index).0)
    ensures RestClear(ScanEntry(rows, e, j, index).0, ScanEntry(rows, e, j, index).1, e + 1)
    decreases |rows| - j, 2
  {
    if j == |rows| {
      assert ScanEntry(rows, e, j, index) == (rows, index);
      RestClearExtends(rows, e, index);
    } else if Matches(e, rows[j]) {
      SwapThenClears(rows, e, j, index);
    } else {
      assert ScanEntry(rows, e, j, index) == ScanEntry(rows, e, j + 1, index);
      ScanEntryClears(rows, e, j + 1, index);
    }
  }

  lemma {:induction false} SwapThenClears(rows: seq<Row>, e: nat, j: nat, index: nat)
    requires e < NumStatusCvars && index <= j < |rows| && Matches(e, rows[j])
    requires CvarRows(rows) && RestClear(rows, index, e)
    requires forall k :: index <= k < j ==> !Matches(e, rows[k])
    ensures CvarRows(ScanEntry(rows, e, j, index).0)
    ensures RestClear(ScanEntry(rows, e, j, index).0, ScanEntry(rows, e, j, index).1, e + 1)
    decreases |rows| - j, 1
  {
    SwapClears(rows, e, j, index);
    ScanEntryClears(Swapped(rows, e, index, j), e, j + 1, index + 1);
  }

  lemma RestClearExtends(rows: seq<Row>, e: nat, index: nat)
    requires e < NumStatusCvars && RestClear(rows, index, e)
    requires forall k :: index <= k < |rows| ==> !Matches(e, rows[k])
    ensures RestClear(rows, index, e + 1)
  {
  }

  lemma SwapClears(rows: seq<Row>, e: nat, j: nat, index: nat)
    requires e < NumStatusCvars && index <= j < |rows| && Matches(e, rows[j])
    requires CvarRows(rows) && RestClear(rows, index, e)
    requires forall k :: index <= k < j ==> !Matches(e, rows[k])
    ensures var r := Swapped(rows, e, index, j);
      CvarRows(r) && RestClear(r, index + 1, e) && forall k :: index + 1 <= k < j + 1 ==> !Matches(e, r[k])
    ensures ScanEntry(rows, e, j, index) == ScanEntry(Swapped(rows, e, index, j), e, j + 1, index + 1)
  {
    var r := Swapped(rows, e, index, j);
    assert forall k :: 0 <= k < |r| && k != j && k != index ==> r[k] == rows[k];
    assert j != index ==> r[j] == rows[index];
  }

  lemma FrontOwnedWeakens(rows: seq<Row>, index: nat, bound: nat)
    requires FrontOwned(rows, index, bound)
    ensures FrontOwned(rows, index, bound + 1)
  {
  }

  /** One pass of the outer loop keeps the front in table order. */
  lemma OrdersStep(rows: seq<Row>, e: nat, index: nat, next: (seq<Row>, nat))
    requires e < NumStatusCvars && index <= |rows| && Settled(rows, index, e)
    requires FrontOwned(rows, index, e)
    requires next == ScanEntry(rows, e, 0, index)
    ensures next.1 <= |next.0| && Settled(next.0, next.1, e + 1) && FrontOwned(next.0, next.1, e + 1)
    ensures SelectFrom(rows, e, index) == SelectFrom(next.0, e + 1, next.1)
  {
    ScanEntrySettles(rows, e, 0, index);
    FrontOwnedWeakens(rows, index, e);
    ScanEntryOrders(rows, e, 0, index);
  }

  lemma {:induction false} SelectFromOrders(rows: seq<Row>, e: nat, index: nat)
    requires e <= NumStatusCvars && index <= |rows| && Settled(rows, index, e)
    requires FrontOwned(rows, index, e)
    ensures FrontOwned(SelectFrom(rows, e, index).0, SelectFrom(rows, e, index).1, NumStatusCvars)
    decreases NumStatusCvars - e
  {
    if e < NumStatusCvars {
      var next := ScanEntry(rows, e, 0, index);
      OrdersStep(rows, e, index, next);
      SelectFromOrders(next.0, e + 1, next.1);
    } else {
      assert SelectFrom(rows, e, index) == (rows, index);
      assert FrontOwned(rows, index, NumStatusCvars);
    }
  }

  lemma {:induction false} SelectFromClears(rows: seq<Row>, e: nat, index: nat)
    requires e <= NumStatusCvars && index <= |rows| && Settled(rows, index, e)
    requires CvarRows(rows) && RestClear(rows, index, e)
    ensures CvarRows(SelectFrom(rows, e, index).0)
    ensures RestClear(SelectFrom(rows, e, index).0, SelectFrom(rows, e, index).1, NumStatusCvars)
    decreases NumStatusCvars - e
  {
    if e < NumStatusCvars {
      ScanEntrySettles(rows, e, 0, index);
      ScanEntryClears(rows, e, 0, index);
      var next := ScanEntry(rows, e, 0, index);
      assert SelectFrom(rows, e, index) == SelectFrom(next.0, e + 1, next.1);
      SelectFromClears(next.0, e + 1, next.1);
    }
  }

  /** UI_SortServerStatusInfo keeps the number of rows; the moved rows come
      first, each shown under a name of the table and grouped in the table's
      order; the others follow in strcmp order of their keys. */
  lemma SortSpecMeaning(rows: seq<Row>)
    ensures var r, front := SortSpec(rows), Selected(rows).1;
      |r| == |rows| && front <= |r|
      && (forall k :: 0 <= k < front ==> Owner(r[k]) < NumStatusCvars)
      && (forall k1, k2 :: 0 <= k1 < k2 < front ==> Owner(r[k1]) <= Owner(r[k2]))
      && KeySorted(r[front..])
      && multiset(r[front..]) == multiset(Selected(rows).0[front..])
  {
    var (moved, front) := Selected(rows);
    SelectFromOrders(rows, 0, 0);
    var r := SortSpec(rows);
    assert r[..front] == moved[..front];
    assert r[front..] == SortByKey(moved[front..]);
    SortByKeySorts(moved[front..]);
  }

  /** For the cvar rows the reply yields, every row whose key is a table
      name up to case is at the front: none is left among the sorted rest. */
  lemma SortSpecLeavesNoKnownKey(rows: seq<Row>)
    requires CvarRows(rows)
    ensures var r, front := SortSpec(rows), Selected(rows).1;
      forall k, f :: front <= k < |r| && 0 <= f < NumStatusCvars ==> !EqualsIgnoreCase(CvarName(f), r[k].key)
  {
    var (moved, front) := Selected(rows);
    SelectFromClears(rows, 0, 0);
    var r := SortSpec(rows);
    assert r[front..] == SortByKey(moved[front..]);
    forall k, f | front <= k < |r| && 0 <= f < NumStatusCvars
      ensures !EqualsIgnoreCase(CvarName(f), r[k].key)
    {
      assert r[k] in multiset(moved[front..]);
      var m :| front <= m < |moved| && moved[m] == r[k];
      assert !Matches(f, moved[m]);
      SameIgnoringCaseIsLower(CvarName(f), moved[m].key);
    }
  }

  // ---------------------------------------------------------------------
  //   UI_GetServerStatusInfo
  // ---------------------------------------------------------------------

  /** The characters of a buffer before its first NUL. */
  function BeforeNul(s: string): (r: string)
    ensures '\0' !in r && r <= s
    ensures |r| < |s| ==> s[|r|] == '\0'
  {
    if s == [] || s[0] == '\0' then [] else [s[0]] + BeforeNul(s[1..])
  }

  /** strchr from index i: the first c at or after i. */
  function Find(t: string, i: nat, c: char): (r: Option<nat>)
    requires i <= |t|
    ensures r.Some? ==> i <= r.value < |t| && t[r.value] == c
    decreases |t| - i
  {
    if i == |t| then None else if t[i] == c then Some(i) else Find(t, i + 1, c)
  }

  /** strchr finds the first c: none lies between i and what it returns, or
      after i at all when it returns NULL. */
  lemma {:induction false} FindIsFirst(t: string, i: nat, c: char)
    requires i <= |t|
    ensures Find(t, i, c).Some? ==> forall k :: i <= k < Find(t, i, c).value ==> t[k] != c
    ensures Find(t, i, c).None? ==> forall k :: i <= k < |t| ==> t[k] != c
    decreases |t| - i
  {
    if i < |t| && t[i] != c {
      FindIsFirst(t, i + 1, c);
    }
  }

  /** The string at index i once the parser has cut the text at the next c. */
  function UpTo(t: string, i: nat, c: char): (r: string)
    requires i <= |t|
    ensures c !in r
  {
    FindIsFirst(t, i, c);
    var f := Find(t, i, c);
    if f.Some? then t[i..f.value] else t[i..]
  }

  function AddressRow(address: string): Row { Row("Address", "", "", address) }
  const BlankRow: Row := Row("", "", "", "")
  const HeaderRow: Row := Row("num", "score", "ping", "name")

  /** One pass of a parsing loop: it stops, leaving the cursor at `at`, or
      it takes a row and goes on from `next` (None: the loop ends after this
      row). */
  datatype Step = Stop(at: Option<nat>) | Take(row: Row, next: Option<nat>)

  /** One pass of the cvar loop at pos: it goes on from the next
      backslash, as CvarFrom says. */
  function CvarStep(t: string, pos: nat, last: bool): (st: Step)
    requires pos < |t|
    ensures st.Stop? && st.at.Some? ==> st.at.value < |t| && t[st.at.value] == '\\'
    ensures st.Take? ==> st.row.score == "" && st.row.ping == ""
    ensures st.Take? ==> st.next.Some? && pos < st.next.value <= |t|
  {
    CvarFrom(t, Find(t, pos, '\\'), last)
  }

  /** A pass of the cvar loop from the backslash at b (None: there is
      none): a key runs from after it to the next backslash, and its value
      from there to the next backslash, or to the end of the text when
      `last` (the row fills the table, so no later pass cuts it); a doubled
      backslash ends the cvars. The cursor is left at the start of the
      value. */
  function CvarFrom(t: string, b: Option<nat>, last: bool): (st: Step)
    requires b.Some? ==> b.value < |t|
    ensures st.Stop? && st.at.Some? ==> st.at.value < |t| && t[st.at.value] == '\\'
    ensures st.Take? ==> st.row.score == "" && st.row.ping == ""
    ensures st.Take? ==> st.next.Some? && b.Some? && b.value < st.next.value <= |t|
  {
    if b.None? then Stop(None)
    else
      var q := b.value + 1;
      if q < |t| && t[q] == '\\' then Stop(Some(q))
      else
        var b2 := Find(t, q, '\\');
        if b2.None? then Stop(None)
        else
          var v := b2.value + 1;
          Take(Row(t[q..b2.value], "", "", if last then t[v..] else UpTo(t, v, '\\')), Some(v))
  }

  /** The cvar loop of UI_GetServerStatusInfo from the cursor p (None for a
      NULL) with the rows so far: the rows it ends with and where it
      leaves p. The row that fills the table ends the loop. */
  function CvarsFrom(t: string, p: Option<nat>, rows: seq<Row>, cap: nat): (r: (seq<Row>, Option<nat>))
    requires p.Some? ==> p.value <= |t|
    requires |rows| < cap
    ensures rows <= r.0 && |r.0| <= cap && (r.1.Some? ==> r.1.value <= |t|)
    ensures forall k :: |rows| <= k < |r.0| ==> r.0[k].score == "" && r.0[k].ping == ""
    decreases if p.Some? then |t| + 1 - p.value else 0
  {
    if p.None? || p.value == |t| then (rows, p)
    else
      var st := CvarStep(t, p.value, |rows| + 1 >= cap);
      if st.Stop? then (rows, st.at)
      else if |rows| + 1 >= cap then (rows + [st.row], st.next)
      else CvarsFrom(t, st.next, rows + [st.row], cap)
  }

  /** One pass of the player loop at pos: an optional backslash is
      skipped, then the player is read as PlayerAt says. */
  function PlayerStep(t: string, pos: nat, last: bool, i: nat): (st: Step)
    requires pos < |t|
    ensures st.Stop? ==> st.at.None?
    ensures st.Take? ==> st.row.key == IntToString(i)
    ensures st.Take? && st.next.Some? ==> !last && pos < st.next.value <= |t|
  {
    PlayerAt(t, if t[pos] == '\\' then pos + 1 else pos, last, i)
  }

  /** A player from s on: a score runs to the next space and a ping to the
      one after; the name runs to the next backslash, or to the end of the
      text when `last`. The loop goes on after that backslash unless this
      row is the last. */
  function PlayerAt(t: string, s: nat, last: bool, i: nat): (st: Step)
    requires s <= |t|
    ensures st.Stop? ==> st.at.None?
    ensures st.Take? ==> st.row.key == IntToString(i)
    ensures st.Take? && st.next.Some? ==> !last && s < st.next.value <= |t|
  {
    var a := Find(t, s, ' ');
    if a.None? then Stop(None)
    else
      var b := Find(t, a.value + 1, ' ');
      if b.None? then Stop(None)
      else
        var n := b.value + 1;
        if last then Take(Row(IntToString(i), t[s..a.value], t[a.value + 1..b.value], t[n..]), None)
        else
          var c := Find(t, n, '\\');
          var e := if c.Some? then c.value else |t|;
          Take(Row(IntToString(i), t[s..a.value], t[a.value + 1..b.value], t[n..e]), if c.Some? then Some(e + 1) else None)
  }

  /** The player loop of UI_GetServerStatusInfo, players numbered from i. */
  function PlayersFrom(t: string, p: Option<nat>, rows: seq<Row>, cap: nat, i: nat): (r: seq<Row>)
    requires p.Some? ==> p.value <= |t|
    requires |rows| < cap
    ensures rows <= r && |r| <= cap
    decreases if p.Some? then |t| + 1 - p.value else 0
  {
    if p.None? || p.value == |t| then rows
    else
      var st := PlayerStep(t, p.value, |rows| + 1 >= cap, i);
      if st.Stop? then rows
      else if st.next.None? then rows + [st.row]
      else PlayersFrom(t, st.next, rows + [st.row], cap, i + 1)
  }

  /** From index `from` on, the rows of `r` are labelled i, i + 1, ... */
  ghost predicate LabelledFrom(r: seq<Row>, from: nat, i: nat)
  {
    forall k :: from <= k < |r| ==> r[k].key == IntToString(i + k - from)
  }

  /** The player rows the loop adds are labelled i, i + 1, ... in order. */
  lemma {:induction false} PlayersFromLabels(t: string, p: Option<nat>, rows: seq<Row>, cap: nat, i: nat)
    requires p.Some? ==> p.value <= |t|
    requires |rows| < cap
    ensures LabelledFrom(PlayersFrom(t, p, rows, cap, i), |rows|, i)
    decreases if p.Some? then |t| + 1 - p.value else 0
  {
    if p.Some? && p.value < |t| {
      var last := |rows| + 1 >= cap;
      PlayersFromUnfolds(t, p.value, rows, cap, i, last);
      var st := PlayerStep(t, p.value, last, i);
      if st.Take? && st.next.Some? {
        var rows' := rows + [st.row];
        var r' := PlayersFrom(t, st.next, rows', cap, i + 1);
        assert PlayersFrom(t, p, rows, cap, i) == r';
        PlayersFromLabels(t, st.next, rows', cap, i + 1);
        LabelsExtend(rows, st.row, r', i);
      } else if st.Take? {
        assert PlayersFrom(t, p, rows, cap, i) == rows + [st.row];
      } else {
        assert PlayersFrom(t, p, rows, cap, i) == rows;
      }
    } else {
      assert PlayersFrom(t, p, rows, cap, i) == rows;
    }
  }

  /** Labels i + 1, ... after a row labelled i that follows rows make
      labels i, i + 1, ... after rows. */
  lemma LabelsExtend(rows: seq<Row>, row: Row, r: seq<Row>, i: nat)
    requires rows + [row] <= r && row.key == IntToString(i)
    requires LabelledFrom(r, |rows| + 1, i + 1)
    ensures LabelledFrom(r, |rows|, i)
  {
    forall k | |rows| <= k < |r|
      ensures r[k].key == IntToString(i + k - |rows|)
    {
      if k == |rows| {
        assert r[k] == (rows + [row])[k];
      }
    }
  }

  /** The cvar rows UI_GetServerStatusInfo reads from a reply, before the
      sort, and where the cursor is left. */
  function CvarPhase(text: string, address: string, cap: nat): (r: (seq<Row>, Option<nat>))
    requires cap >= 2
    ensures [AddressRow(address)] <= r.0 && |r.0| <= cap
    ensures r.1.Some? ==> r.1.value <= |text|
  {
    CvarsFrom(text, Some(0), [AddressRow(address)], cap)
  }

  /** The rows UI_GetServerStatusInfo leaves for a reply `text` from a
      server at `address`, for a table of `cap` rows. */
  function StatusSpec(text: string, address: string, cap: nat): (r: seq<Row>)
    requires cap >= 2
    ensures |CvarPhase(text, address, cap).0| <= |r| <= cap
  {
    var (cvars, p) := CvarPhase(text, address, cap);
    var sorted := SortSpec(cvars);
    if |sorted| < cap - 3 then PlayersFrom(text, p, sorted + [BlankRow, HeaderRow], cap, 0) else sorted
  }

  /** StatusSpec in terms of the two phases that make it up. */
  lemma StatusSpecPhases(text: string, address: string, cap: nat, cvars: seq<Row>, p: Option<nat>)
    requires cap >= 2 && (cvars, p) == CvarPhase(text, address, cap)
    ensures p.Some? ==> p.value <= |text|
    ensures var sorted := SortSpec(cvars);
      StatusSpec(text, address, cap)
        == if |sorted| < cap - 3 then PlayersFrom(text, p, sorted + [BlankRow, HeaderRow], cap, 0) else sorted
  {
  }

  /** The shape of the table: at most `cap` rows; the cvar phase starts from
      the address row and yields cvar rows only, so the sort lemmas apply to
      it; when there is room for three more rows the blank and header rows
      follow the sorted cvars, and players numbered 0, 1, ... follow them. */
  lemma StatusShape(text: string, address: string, cap: nat)
    requires cap >= 2
    ensures 1 <= |StatusSpec(text, address, cap)| <= cap
    ensures var cvars := CvarPhase(text, address, cap).0;
      cvars[0] == AddressRow(address) && CvarRows(cvars)
    ensures var n, r := |CvarPhase(text, address, cap).0|, StatusSpec(text, address, cap);
      (n < cap - 3 ==>
        (|r| >= n + 2 && r[n] == BlankRow && r[n + 1] == HeaderRow
          && LabelledFrom(r, n + 2, 0)))
      && (n >= cap - 3 ==> |r| == n)
  {
    CvarPhaseShape(text, address, cap);
    StatusRowCount(text, address, cap);
    StatusTail(text, address, cap);
  }

  /** The table has at least the address row and at most `cap` rows. */
  lemma StatusRowCount(text: string, address: string, cap: nat)
    requires cap >= 2
    ensures 1 <= |StatusSpec(text, address, cap)| <= cap
  {
    var (cvars, p) := CvarPhase(text, address, cap);
    StatusSpecPhases(text, address, cap, cvars, p);
    CvarPhaseShape(text, address, cap);
  }

  /** What follows the sorted cvars: the blank and header rows and the
      numbered players when there is room, nothing otherwise. */
  lemma StatusTail(text: string, address: string, cap: nat)
    requires cap >= 2
    ensures var n, r := |CvarPhase(text, address, cap).0|, StatusSpec(text, address, cap);
      (n < cap - 3 ==>
        (|r| >= n + 2 && r[n] == BlankRow && r[n + 1] == HeaderRow
          && LabelledFrom(r, n + 2, 0)))
      && (n >= cap - 3 ==> |r| == n)
  {
    var (cvars, p) := CvarPhase(text, address, cap);
    StatusSpecPhases(text, address, cap, cvars, p);
    var sorted := SortSpec(cvars);
    if |sorted| < cap - 3 {
      PlayersAfterHeader(text, p, sorted, |CvarPhase(text, address, cap).0|, StatusSpec(text, address, cap), cap);
    }
  }

  /** The cvar phase starts from the address row, yields cvar rows only and
      leaves at most `cap` rows. */
  lemma CvarPhaseShape(text: string, address: string, cap: nat)
    requires cap >= 2
    ensures var (cvars, p) := CvarPhase(text, address, cap);
      1 <= |cvars| <= cap && cvars[0] == AddressRow(address) && CvarRows(cvars)
      && (p.Some? ==> p.value <= |text|)
  {
    var (cvars, p) := CvarPhase(text, address, cap);
    assert [AddressRow(address)] <= cvars;
  }

  /** The player loop keeps the blank and header rows after the sorted
      cvars and numbers the players after them from 0. */
  lemma PlayersAfterHeader(text: string, p: Option<nat>, sorted: seq<Row>, n: nat, r: seq<Row>, cap: nat)
    requires p.Some? ==> p.value <= |text|
    requires |sorted| + 3 < cap && n == |sorted|
    requires r == PlayersFrom(text, p, sorted + [BlankRow, HeaderRow], cap, 0)
    ensures |r| >= n + 2 && r[n] == BlankRow && r[n + 1] == HeaderRow
    ensures LabelledFrom(r, n + 2, 0)
  {
    var rows := sorted + [BlankRow, HeaderRow];
    PlayersFromLabels(text, p, rows, cap, 0);
    assert rows <= r;
    assert r[n] == rows[n] && r[n + 1] == rows[n + 1];
  }

  // The replies the parser is written for, and what it makes of them.

  /** The cvar part of a reply: "\\key\\value" for each cvar. */
  function Info(pairs: seq<(string, string)>): string
  {
    if pairs == [] then "" else Pair(pairs[0]) + Info(pairs[1..])
  }

  function Pair(pair: (string, string)): string
  {
    "\\" + pair.0 + "\\" + pair.1
  }

  /** One player: "score ping name". */
  function Entry(pl: (string, string, string)): string
  {
    pl.0 + " " + pl.1 + " " + pl.2
  }

  /** The player part of a reply: "\\" and an entry for each player. */
  function Players(ps: seq<(string, string, string)>): string
  {
    if ps == [] then "" else "\\" + Entry(ps[0]) + Players(ps[1..])
  }

  /** Keys are non-empty, and neither keys nor values hold a backslash. */
  predicate GoodPair(pair: (string, string))
  {
    |pair.0| > 0 && '\\' !in pair.0 && '\\' !in pair.1
  }

  predicate GoodPairs(pairs: seq<(string, string)>)
  {
    pairs == [] || (GoodPair(pairs[0]) && GoodPairs(pairs[1..]))
  }

  /** Scores and pings hold no space and no backslash, names no backslash. */
  predicate GoodPlayer(pl: (string, string, string))
  {
    ' ' !in pl.0 && '\\' !in pl.0 && ' ' !in pl.1 && '\\' !in pl.1 && '\\' !in pl.2
  }

  predicate GoodPlayers(ps: seq<(string, string, string)>)
  {
    ps == [] || (GoodPlayer(ps[0]) && GoodPlayers(ps[1..]))
  }

  function CvarRowsOf(pairs: seq<(string, string)>): (r: seq<Row>)
    ensures |r| == |pairs|
  {
    if pairs == [] then [] else [Row(pairs[0].0, "", "", pairs[0].1)] + CvarRowsOf(pairs[1..])
  }

  function PlayerRowsOf(ps: seq<(string, string, string)>, i: nat): (r: seq<Row>)
    ensures |r| == |ps|
  {
    if ps == [] then [] else [Row(IntToString(i), ps[0].0, ps[0].1, ps[0].2)] + PlayerRowsOf(ps[1..], i + 1)
  }

  /** strchr over a stretch w without c stops right after it. */
  lemma {:induction false} FindPast(t: string, i: nat, w: string, c: char)
    requires i + |w| <= |t| && t[i..i + |w|] == w && c !in w
    ensures i + |w| < |t| && t[i + |w|] == c ==> Find(t, i, c) == Some(i + |w|)
    ensures i + |w| == |t| ==> Find(t, i, c) == None
    decreases |w|
  {
    if w != [] {
      assert t[i] == w[0];
      assert t[i + 1..i + |w|] == w[1..];
      FindPast(t, i + 1, w[1..], c);
    }
  }

  /** A stretch of text that reads a + b reads a, then b. */
  lemma Split(t: string, pos: nat, x: string, y: string)
    requires pos + |x| + |y| <= |t| && t[pos..pos + |x| + |y|] == x + y
    ensures t[pos..pos + |x|] == x && t[pos + |x|..pos + |x| + |y|] == y
  {
    assert t[pos..pos + |x|] == t[pos..pos + |x| + |y|][..|x|];
    assert t[pos + |x|..pos + |x| + |y|] == t[pos..pos + |x| + |y|][|x|..];
  }

  /** Where the parts of "\\key\\value" lie. */
  lemma PairParts(t: string, pos: nat, key: string, value: string)
    requires pos + 2 + |key| + |value| <= |t| && t[pos..pos + 2 + |key| + |value|] == Pair((key, value))
    ensures t[pos] == '\\' && t[pos + 1..pos + 1 + |key|] == key && t[pos + 1 + |key|] == '\\'
    ensures t[pos + 2 + |key|..pos + 2 + |key| + |value|] == value
  {
    Split(t, pos, "\\" + key + "\\", value);
    Split(t, pos, "\\" + key, "\\");
    Split(t, pos, "\\", key);
    assert t[pos] == t[pos..pos + 1][0];
    assert t[pos + 1 + |key|] == t[pos + 1 + |key|..pos + 2 + |key|][0];
  }

  /** One pass of the cvar loop, given where its searches stop. */
  lemma CvarStepAt(t: string, pos: nat, b: nat, w: nat)
    requires pos + 1 < b < w < |t| && t[pos] == '\\' && t[pos + 1] != '\\'
    requires Find(t, pos + 1, '\\') == Some(b) && Find(t, b + 1, '\\') == Some(w)
    ensures CvarStep(t, pos, false) == Take(Row(t[pos + 1..b], "", "", t[b + 1..w]), Some(b + 1))
  {
  }

  /** A pass of the cvar loop depends only on where the next backslash is. */
  lemma CvarStepSame(t: string, v: nat, w: nat, last: bool)
    requires v < |t| && w < |t| && Find(t, v, '\\') == Find(t, w, '\\')
    ensures CvarStep(t, v, last) == CvarStep(t, w, last)
  {
    assert CvarStep(t, v, last) == CvarFrom(t, Find(t, w, '\\'), last);
  }

  /** So the loop goes the same way from the start of a value as from the
      backslash after it. */
  lemma CvarsFromSkipsValue(t: string, v: nat, w: nat, rows: seq<Row>, cap: nat)
    requires v <= w < |t| && t[w] == '\\' && Find(t, v, '\\') == Some(w) && |rows| < cap
    ensures CvarsFrom(t, Some(v), rows, cap) == CvarsFrom(t, Some(w), rows, cap)
  {
    FindPast(t, w, [], '\\');
    CvarStepSame(t, v, w, |rows| + 1 >= cap);
    CvarsFromUnfolds(t, v, rows, cap);
    CvarsFromUnfolds(t, w, rows, cap);
  }

  /** One pass of the cvar loop at a backslash, a key, a backslash, then a
      value running up to a backslash takes that pair and moves to the
      backslash. */
  lemma CvarStepReads(t: string, pos: nat, key: string, value: string, v: nat, w: nat)
    requires |key| > 0 && '\\' !in key && '\\' !in value
    requires v == pos + 2 + |key| && w == v + |value|
    requires w < |t| && t[pos..w] == Pair((key, value)) && t[w] == '\\'
    ensures CvarStep(t, pos, false) == Take(Row(key, "", "", value), Some(v))
    ensures Find(t, v, '\\') == Some(w)
  {
    var b := pos + 1 + |key|;
    PairParts(t, pos, key, value);
    assert t[pos + 1] == key[0];
    FindPast(t, pos + 1, key, '\\');
    FindPast(t, b + 1, value, '\\');
    CvarStepAt(t, pos, b, pos + 2 + |key| + |value|);
  }

  /** The cvar loop over one "\\key\\value" followed by a backslash. */
  lemma CvarsPairStep(t: string, pos: nat, pair: (string, string), w: nat, rows: seq<Row>, row: Row, cap: nat)
    requires GoodPair(pair) && w == pos + 2 + |pair.0| + |pair.1| && row == Row(pair.0, "", "", pair.1)
    requires w < |t| && t[pos..w] == Pair(pair) && t[w] == '\\' && |rows| + 1 < cap
    ensures CvarsFrom(t, Some(pos), rows, cap) == CvarsFrom(t, Some(w), rows + [row], cap)
  {
    var key, value := pair.0, pair.1;
    assert pair == (key, value);
    var v := pos + 2 + |key|;
    CvarStepReads(t, pos, key, value, v, w);
    assert CvarsFrom(t, Some(pos), rows, cap) == CvarsFrom(t, Some(v), rows + [row], cap) by {
      CvarsFromTakes(t, pos, rows, cap, row, v);
    }
    assert Find(t, v, '\\') == Some(w) && |rows + [row]| < cap;
    CvarsFromSkipsValue(t, v, w, rows + [row], cap);
  }

  /** A pass of the cvar loop that takes a row and goes on from next. */
  lemma CvarsFromTakes(t: string, pos: nat, rows: seq<Row>, cap: nat, row: Row, next: nat)
    requires pos < |t| && |rows| + 1 < cap && CvarStep(t, pos, false) == Take(row, Some(next))
    ensures next <= |t| && CvarsFrom(t, Some(pos), rows, cap) == CvarsFrom(t, Some(next), rows + [row], cap)
  {
  }

  /** The cvar loop reads back the cvars of a reply, "\\key\\value" each,
      up to the backslash at `end` that follows them, when the table has
      room for all: the rows it yields are `done`, one per pair. */
  lemma {:induction false} CvarsRoundTrip(t: string, pos: nat, end: nat, pairs: seq<(string, string)>, rows: seq<Row>, done: seq<Row>, cap: nat)
    requires end == pos + |Info(pairs)| && end < |t| && t[pos..end] == Info(pairs) && t[end] == '\\'
    requires done == rows + CvarRowsOf(pairs)
    requires GoodPairs(pairs) && |rows| + |pairs| < cap
    ensures CvarsFrom(t, Some(pos), rows, cap) == CvarsFrom(t, Some(end), done, cap)
    decreases |pairs|
  {
    if pairs == [] {
      assert done == rows;
    } else {
      var w, row := CvarsRoundStep(t, pos, end, pairs, rows, done, cap);
      CvarsRoundTrip(t, w, end, pairs[1..], rows + [row], done, cap);
    }
  }

  /** One pass of the cvar loop over the cvars of a reply: it reads the
      first pair as a row and goes on at the backslash after it. */
  lemma CvarsRoundStep(t: string, pos: nat, end: nat, pairs: seq<(string, string)>, rows: seq<Row>, done: seq<Row>, cap: nat)
      returns (w: nat, row: Row)
    requires pairs != []
    requires end == pos + |Info(pairs)| && end < |t| && t[pos..end] == Info(pairs) && t[end] == '\\'
    requires done == rows + CvarRowsOf(pairs)
    requires GoodPairs(pairs) && |rows| + |pairs| < cap
    ensures row == Row(pairs[0].0, "", "", pairs[0].1)
    ensures end == w + |Info(pairs[1..])| && t[w..end] == Info(pairs[1..])
    ensures done == rows + [row] + CvarRowsOf(pairs[1..])
    ensures CvarsFrom(t, Some(pos), rows, cap) == CvarsFrom(t, Some(w), rows + [row], cap)
  {
    var pair := pairs[0];
    w := pos + 2 + |pair.0| + |pair.1|;
    row := Row(pair.0, "", "", pair.1);
    var more := Info(pairs[1..]);
    assert |Pair(pair)| == 2 + |pair.0| + |pair.1|;
    assert |Info(pairs)| == |Pair(pair)| + |more|;
    assert pos + |Pair(pair)| == w && w + |more| == end;
    Split(t, pos, Pair(pair), more);
    assert t[w..end] == more;
    assert t[w] == '\\' by {
      if more != [] {
        assert t[w] == t[w..w + |more|][0] == more[0];
      }
    }
    CvarRowsCons(rows, pairs);
    CvarsPairStep(t, pos, pair, w, rows, row, cap);
  }

  /** The cvar loop ends at the backslash before the players: it leaves the
      cursor on the players, or NULL when there are none. */
  lemma CvarsEnd(t: string, e: nat, ps: seq<(string, string, string)>, rows: seq<Row>, cap: nat)
    requires e <= |t| && t[e..] == "\\" + Players(ps) && |rows| < cap
    ensures CvarsFrom(t, Some(e), rows, cap) == (rows, if ps == [] then None else Some(e + 1))
  {
    assert t[e] == '\\';
    FindPast(t, e, [], '\\');
    CvarsFromUnfolds(t, e, rows, cap);
    if ps != [] {
      assert t[e + 1] == Players(ps)[0] == '\\';
      assert CvarStep(t, e, |rows| + 1 >= cap) == Stop(Some(e + 1));
    } else {
      assert e + 1 == |t|;
      FindPast(t, e + 1, [], '\\');
      assert CvarStep(t, e, |rows| + 1 >= cap) == Stop(None);
    }
  }

  /** How the cvar loop goes on after one pass at pos. */
  lemma CvarsFromUnfolds(t: string, pos: nat, rows: seq<Row>, cap: nat)
    requires pos < |t| && |rows| < cap
    ensures var st := CvarStep(t, pos, |rows| + 1 >= cap);
      CvarsFrom(t, Some(pos), rows, cap)
        == if st.Stop? then (rows, st.at)
           else if |rows| + 1 >= cap then (rows + [st.row], st.next)
           else CvarsFrom(t, st.next, rows + [st.row], cap)
  {
  }

  /** How the player loop goes on after one pass at pos. */
  lemma PlayersFromUnfolds(t: string, pos: nat, rows: seq<Row>, cap: nat, i: nat, last: bool)
    requires pos < |t| && |rows| < cap && last == (|rows| + 1 >= cap)
    ensures var st := PlayerStep(t, pos, last, i);
      PlayersFrom(t, Some(pos), rows, cap, i)
        == if st.Stop? then rows
           else if st.next.None? then rows + [st.row]
           else PlayersFrom(t, st.next, rows + [st.row], cap, i + 1)
  {
  }

  /** How the player loop goes on after a pass at pos that takes a row. */
  lemma PlayersFromTakes(t: string, pos: nat, rows: seq<Row>, cap: nat, i: nat, row: Row, next: Option<nat>)
    requires pos < |t| && |rows| + 1 < cap && PlayerStep(t, pos, false, i) == Take(row, next)
    ensures next.None? ==> PlayersFrom(t, Some(pos), rows, cap, i) == rows + [row]
    ensures next.Some? ==>
      (next.value <= |t| && PlayersFrom(t, Some(pos), rows, cap, i) == PlayersFrom(t, next, rows + [row], cap, i + 1))
  {
  }

  lemma CvarRowsCons(rows: seq<Row>, pairs: seq<(string, string)>)
    requires pairs != []
    ensures rows + [Row(pairs[0].0, "", "", pairs[0].1)] + CvarRowsOf(pairs[1..]) == rows + CvarRowsOf(pairs)
  {
    assert CvarRowsOf(pairs) == [Row(pairs[0].0, "", "", pairs[0].1)] + CvarRowsOf(pairs[1..]);
  }

  lemma PlayerRowsCons(rows: seq<Row>, ps: seq<(string, string, string)>, i: nat)
    requires ps != []
    ensures rows + [Row(IntToString(i), ps[0].0, ps[0].1, ps[0].2)] + PlayerRowsOf(ps[1..], i + 1) == rows + PlayerRowsOf(ps, i)
  {
    assert PlayerRowsOf(ps, i) == [Row(IntToString(i), ps[0].0, ps[0].1, ps[0].2)] + PlayerRowsOf(ps[1..], i + 1);
  }

  /** One pass of the player loop, given where its searches stop. */
  lemma PlayerAtFields(t: string, pos: nat, a: nat, b: nat, e: nat, i: nat)
    requires pos <= a < b < |t| && b + 1 <= e <= |t|
    requires Find(t, pos, ' ') == Some(a) && Find(t, a + 1, ' ') == Some(b)
    requires Find(t, b + 1, '\\') == if e < |t| then Some(e) else None
    ensures PlayerAt(t, pos, false, i)
      == Take(Row(IntToString(i), t[pos..a], t[a + 1..b], t[b + 1..e]), if e < |t| then Some(e + 1) else None)
  {
  }

  /** Where the parts of "score ping name" lie. */
  lemma EntryParts(t: string, pos: nat, pl: (string, string, string))
    requires pos + |Entry(pl)| <= |t| && t[pos..pos + |Entry(pl)|] == Entry(pl)
    ensures var a := pos + |pl.0|; var b := a + 1 + |pl.1|;
      t[pos..a] == pl.0 && t[a] == ' ' && t[a + 1..b] == pl.1 && t[b] == ' '
      && t[b + 1..pos + |Entry(pl)|] == pl.2
  {
    var (score, ping, name) := pl;
    var a := pos + |score|;
    var b := a + 1 + |ping|;
    Split(t, pos, score + " " + ping + " ", name);
    Split(t, pos, score + " " + ping, " ");
    Split(t, pos, score + " ", ping);
    Split(t, pos, score, " ");
    assert t[a] == t[a..a + 1][0];
    assert t[b] == t[b..b + 1][0];
  }

  /** One pass of the player loop over "score ping name" takes that player,
      and goes on after the backslash that follows, if any. */
  lemma PlayerStepReads(t: string, pos: nat, pl: (string, string, string), e: nat, i: nat)
    requires GoodPlayer(pl) && e == pos + |Entry(pl)|
    requires e <= |t| && t[pos..e] == Entry(pl)
    requires e < |t| ==> t[e] == '\\'
    ensures pos < |t| && PlayerStep(t, pos, false, i)
      == Take(Row(IntToString(i), pl.0, pl.1, pl.2), if e < |t| then Some(e + 1) else None)
  {
    EntryParts(t, pos, pl);
    assert t[pos] != '\\' by {
      if pl.0 != [] {
        assert t[pos] == pl.0[0];
      }
    }
    var a := pos + |pl.0|;
    var b := a + 1 + |pl.1|;
    PlayerAtReads(t, pos, pl, a, b, e, i);
  }

  /** The same from the score on, given where the parts lie: the score
      ends at a space at a, the ping at a space at b, and the name at e, at
      a backslash or at the end of the text. */
  lemma PlayerAtReads(t: string, pos: nat, pl: (string, string, string), a: nat, b: nat, e: nat, i: nat)
    requires GoodPlayer(pl)
    requires a == pos + |pl.0| && b == a + 1 + |pl.1| && e == b + 1 + |pl.2| <= |t|
    requires t[pos..a] == pl.0 && t[a] == ' ' && t[a + 1..b] == pl.1 && t[b] == ' ' && t[b + 1..e] == pl.2
    requires e < |t| ==> t[e] == '\\'
    ensures PlayerAt(t, pos, false, i)
      == Take(Row(IntToString(i), pl.0, pl.1, pl.2), if e < |t| then Some(e + 1) else None)
  {
    FindPast(t, pos, pl.0, ' ');
    assert Find(t, pos, ' ') == Some(a);
    FindPast(t, a + 1, pl.1, ' ');
    assert Find(t, a + 1, ' ') == Some(b);
    FindPast(t, b + 1, pl.2, '\\');
    PlayerAtFields(t, pos, a, b, e, i);
  }

  /** The player text from just after a backslash: the first entry, then,
      when there are more players, a backslash and the rest. */
  lemma PlayersSplit(t: string, pos: nat, ps: seq<(string, string, string)>)
    requires ps != [] && pos <= |t| && t[pos..] == Entry(ps[0]) + Players(ps[1..])
    ensures var e := pos + |Entry(ps[0])|;
      e <= |t| && t[pos..e] == Entry(ps[0])
      && (ps[1..] == [] ==> e == |t|)
      && (ps[1..] != [] ==> e < |t| && t[e] == '\\' && t[e + 1..] == Entry(ps[1..][0]) + Players(ps[1..][1..]))
  {
    var e := pos + |Entry(ps[0])|;
    var more := Players(ps[1..]);
    assert t[pos..pos + |Entry(ps[0])| + |more|] == Entry(ps[0]) + more;
    Split(t, pos, Entry(ps[0]), more);
    if ps[1..] != [] {
      var tail := Entry(ps[1..][0]) + Players(ps[1..][1..]);
      assert more == "\\" + tail;
      assert t[e..] == more;
      Split(t, e, "\\", tail);
      assert t[e] == more[0];
    }
  }

  /** The player loop reads back the players of a reply, from just after the
      backslash that opens the first. */
  lemma {:induction false} PlayersRoundTrip(t: string, pos: nat, ps: seq<(string, string, string)>, rows: seq<Row>, cap: nat, i: nat)
    requires ps != [] && pos <= |t| && t[pos..] == Entry(ps[0]) + Players(ps[1..])
    requires GoodPlayers(ps) && |rows| + |ps| < cap
    ensures PlayersFrom(t, Some(pos), rows, cap, i) == rows + PlayerRowsOf(ps, i)
    decreases |ps|
  {
    var e, row := PlayersRoundStep(t, pos, ps, rows, cap, i);
    if ps[1..] != [] {
      PlayersRoundTrip(t, e + 1, ps[1..], rows + [row], cap, i + 1);
    }
  }

  /** One pass of the player loop over the players of a reply: it reads
      the first player as `row`, and either ends there or goes on just after
      the backslash at e that opens the next. */
  lemma PlayersRoundStep(t: string, pos: nat, ps: seq<(string, string, string)>, rows: seq<Row>, cap: nat, i: nat)
      returns (e: nat, row: Row)
    requires ps != [] && pos <= |t| && t[pos..] == Entry(ps[0]) + Players(ps[1..])
    requires GoodPlayers(ps) && |rows| + |ps| < cap
    ensures row == Row(IntToString(i), ps[0].0, ps[0].1, ps[0].2)
    ensures rows + PlayerRowsOf(ps, i) == rows + [row] + PlayerRowsOf(ps[1..], i + 1)
    ensures ps[1..] == [] ==> PlayersFrom(t, Some(pos), rows, cap, i) == rows + [row] + PlayerRowsOf(ps[1..], i + 1)
    ensures ps[1..] != [] ==>
      e + 1 <= |t| && t[e + 1..] == Entry(ps[1..][0]) + Players(ps[1..][1..])
      && PlayersFrom(t, Some(pos), rows, cap, i) == PlayersFrom(t, Some(e + 1), rows + [row], cap, i + 1)
  {
    e := pos + |Entry(ps[0])|;
    PlayersSplit(t, pos, ps);
    PlayerStepReads(t, pos, ps[0], e, i);
    row := Row(IntToString(i), ps[0].0, ps[0].1, ps[0].2);
    PlayerRowsCons(rows, ps, i);
    if ps[1..] == [] {
      PlayersFromTakes(t, pos, rows, cap, i, row, None);
      assert PlayerRowsOf(ps[1..], i + 1) == [];
    } else {
      PlayersFromTakes(t, pos, rows, cap, i, row, Some(e + 1));
    }
  }

  /** The optional backslash before a player is skipped: a pass at it reads
      as a pass just after it. */
  lemma PlayerStepSkips(t: string, pos: nat, last: bool, i: nat)
    requires pos + 1 < |t| && t[pos] == '\\' && t[pos + 1] != '\\'
    ensures PlayerStep(t, pos, last, i) == PlayerStep(t, pos + 1, last, i)
  {
    assert PlayerStep(t, pos, last, i) == PlayerAt(t, pos + 1, last, i);
  }

  /** So the player loop goes the same way from the backslash as from just
      after it. */
  lemma PlayersFromSkips(t: string, pos: nat, rows: seq<Row>, cap: nat, i: nat)
    requires pos + 1 < |t| && t[pos] == '\\' && t[pos + 1] != '\\' && |rows| < cap
    ensures PlayersFrom(t, Some(pos), rows, cap, i) == PlayersFrom(t, Some(pos + 1), rows, cap, i)
  {
    PlayerStepSkips(t, pos, |rows| + 1 >= cap, i);
  }

  /** Where the cvars of a reply of the engine's shape end: at e the text
      holds a backslash, and then the players. */
  lemma ReplyCvarParts(t: string, pairs: seq<(string, string)>, ps: seq<(string, string, string)>)
    requires t == Info(pairs) + "\\" + Players(ps)
    ensures var e := |Info(pairs)|;
      e < |t| && t[0..e] == Info(pairs) && t[e] == '\\' && t[e..] == "\\" + Players(ps)
  {
  }

  /** Where the players of a reply start, given that the text holds a
      backslash and then the players from e on. */
  lemma ReplyPlayerParts(t: string, e: nat, ps: seq<(string, string, string)>)
    requires e < |t| && t[e..] == "\\" + Players(ps)
    requires ps != [] && GoodPlayer(ps[0])
    ensures e + 2 < |t| && t[e + 1] == '\\' && t[e + 2] != '\\'
      && t[e + 2..] == Entry(ps[0]) + Players(ps[1..])
  {
    var rest := Entry(ps[0]) + Players(ps[1..]);
    assert Players(ps) == "\\" + rest;
    assert t[e..] == ['\\', '\\'] + rest;
    assert t[e + 2..] == t[e..][2..] == rest;
    assert t[e + 1] == t[e..][1] == '\\';
    assert t[e + 2] == rest[0];
    if ps[0].0 != [] {
      assert rest[0] == ps[0].0[0];
    } else {
      assert rest[0] == ' ';
    }
  }

  /** The cvar phase over a text that holds the cvars of `pairs`, then, at
      e, a backslash and the players of `ps`: the address row and one row
      per pair, with the cursor left on the players (NULL when there are
      none). */
  lemma CvarPhaseOfReply(t: string, e: nat, pairs: seq<(string, string)>, ps: seq<(string, string, string)>, address: string, cap: nat)
    requires GoodPairs(pairs) && 1 + |pairs| < cap
    requires e == |Info(pairs)| && e < |t| && t[0..e] == Info(pairs) && t[e] == '\\' && t[e..] == "\\" + Players(ps)
    ensures CvarPhase(t, address, cap)
      == ([AddressRow(address)] + CvarRowsOf(pairs), if ps == [] then None else Some(e + 1))
  {
    var done := [AddressRow(address)] + CvarRowsOf(pairs);
    CvarsRoundTrip(t, 0, e, pairs, [AddressRow(address)], done, cap);
    CvarsEnd(t, e, ps, done, cap);
  }

  /** When the sorted cvars leave room, the players follow the blank and
      header rows. */
  lemma StatusSpecPlayers(text: string, address: string, cap: nat)
    requires cap >= 2 && |CvarPhase(text, address, cap).0| < cap - 3
    ensures var (cvars, p) := CvarPhase(text, address, cap);
      StatusSpec(text, address, cap) == PlayersFrom(text, p, SortSpec(cvars) + [BlankRow, HeaderRow], cap, 0)
  {
  }

  /** A reply of the engine's shape is read back whole when the table has
      room: the address row and the cvars, sorted, then the blank and header
      rows, then one row per player numbered from 0. */
  lemma StatusRoundTrip(pairs: seq<(string, string)>, ps: seq<(string, string, string)>, address: string, cap: nat)
    requires GoodPairs(pairs) && GoodPlayers(ps)
    requires 1 + |pairs| + 3 < cap && 1 + |pairs| + 2 + |ps| < cap
    ensures StatusSpec(Info(pairs) + "\\" + Players(ps), address, cap)
      == SortSpec([AddressRow(address)] + CvarRowsOf(pairs)) + [BlankRow, HeaderRow] + PlayerRowsOf(ps, 0)
  {
    var t := Info(pairs) + "\\" + Players(ps);
    ReplyCvarParts(t, pairs, ps);
    StatusOfReply(t, |Info(pairs)|, pairs, ps, address, cap);
  }

  /** The same for any text that holds the cvars of `pairs`, then, at e, a
      backslash and the players of `ps`. */
  lemma StatusOfReply(t: string, e: nat, pairs: seq<(string, string)>, ps: seq<(string, string, string)>, address: string, cap: nat)
    requires GoodPairs(pairs) && GoodPlayers(ps)
    requires 1 + |pairs| + 3 < cap && 1 + |pairs| + 2 + |ps| < cap
    requires e == |Info(pairs)| && e < |t| && t[0..e] == Info(pairs) && t[e] == '\\' && t[e..] == "\\" + Players(ps)
    ensures StatusSpec(t, address, cap)
      == SortSpec([AddressRow(address)] + CvarRowsOf(pairs)) + [BlankRow, HeaderRow] + PlayerRowsOf(ps, 0)
  {
    var cvars := [AddressRow(address)] + CvarRowsOf(pairs);
    var p := if ps == [] then None else Some(e + 1);
    CvarPhaseOfReply(t, e, pairs, ps, address, cap);
    StatusSpecPhases(t, address, cap, cvars, p);
    PlayersAfterSorted(t, e, ps, SortSpec(cvars), cap);
  }

  /** After the sorted cvars, the blank and header rows, the player phase
      adds the players' rows. */
  lemma PlayersAfterSorted(t: string, e: nat, ps: seq<(string, string, string)>, sorted: seq<Row>, cap: nat)
    requires e < |t| && t[e..] == "\\" + Players(ps)
    requires GoodPlayers(ps) && |sorted| + 3 < cap && |sorted| + 2 + |ps| < cap
    ensures var rows := sorted + [BlankRow, HeaderRow];
      PlayersFrom(t, if ps == [] then None else Some(e + 1), rows, cap, 0) == rows + PlayerRowsOf(ps, 0)
  {
    var rows := sorted + [BlankRow, HeaderRow];
    if ps == [] {
      assert rows + PlayerRowsOf(ps, 0) == rows;
    } else {
      PlayersOfReply(t, e, ps, rows, cap);
    }
  }

  /** The player phase over a text that holds, from e on, a backslash and
      the players of `ps`, from the cursor the cvar phase leaves. */
  lemma PlayersOfReply(t: string, e: nat, ps: seq<(string, string, string)>, rows: seq<Row>, cap: nat)
    requires e < |t| && t[e..] == "\\" + Players(ps)
    requires ps != [] && GoodPlayers(ps) && |rows| + |ps| < cap
    ensures PlayersFrom(t, Some(e + 1), rows, cap, 0) == rows + PlayerRowsOf(ps, 0)
  {
    ReplyPlayerParts(t, e, ps);
    PlayersAfterBackslash(t, e + 1, ps, rows, cap);
  }

  /** The player phase over any text that holds the players of `ps` after
      the backslash at pos. */
  lemma PlayersAfterBackslash(t: string, pos: nat, ps: seq<(string, string, string)>, rows: seq<Row>, cap: nat)
    requires ps != [] && GoodPlayers(ps) && |rows| + |ps| < cap
    requires pos + 1 < |t| && t[pos] == '\\' && t[pos + 1] != '\\'
    requires t[pos + 1..] == Entry(ps[0]) + Players(ps[1..])
    ensures PlayersFrom(t, Some(pos), rows, cap, 0) == rows + PlayerRowsOf(ps, 0)
  {
    PlayersFromSkips(t, pos, rows, cap, 0);
    PlayersRoundTrip(t, pos + 1, ps, rows, cap, 0);
  }

  // ---------------------------------------------------------------------
  //   serverStatusInfo_t
  // ---------------------------------------------------------------------

  /** SortSpec in terms of the selection it starts with. */
  lemma SortSpecOf(rows: seq<Row>, moved: seq<Row>, front: nat)
    requires (moved, front) == Selected(rows)
    ensures front <= |moved| && SortSpec(rows) == moved[..front] + SortByKey(moved[front..])
  {
  }

  /** Writes `src` into `a` from index `from` on, one row at a time. */
  method CopyRows(a: array<Row>, from: nat, src: seq<Row>)
    requires from + |src| <= a.Length
    modifies a
    ensures a[..] == old(a[..from]) + src + old(a[from + |src|..])
  {
    var k := 0;
    while k < |src|
      invariant k <= |src|
      invariant forall m :: 0 <= m < a.Length && !(from <= m < from + k) ==> a[m] == old(a[m])
      invariant forall m :: from <= m < from + k ==> a[m] == src[m - from]
    {
      a[from + k] := src[k];
      k := k + 1;
    }
    ghost var r := old(a[..from]) + src + old(a[from + |src|..]);
    assert forall m :: 0 <= m < a.Length ==> a[..][m] == r[m];
  }

  /** The server-status table: `lines` has MAX_SERVERSTATUS_LINES rows, the
      first `numLines` in use, and `address` is the server asked. */
  class ServerStatusInfo {
    const lines: array<Row>
    var numLines: nat
    var address: string

    ghost predicate Valid()
      reads this
    {
      numLines <= lines.Length && lines.Length >= 2
    }

    /** The rows in use. */
    function Listed(): (r: seq<Row>)
      requires Valid()
      reads this, lines
      ensures |r| == numLines
    {
      lines[..numLines]
    }

    constructor(capacity: nat)
      requires capacity >= 2
      ensures Valid() && fresh(lines) && lines.Length == capacity && numLines == 0 && address == ""
    {
      lines := new Row[capacity](_ => BlankRow);
      numLines := 0;
      address := "";
    }

    /** UI_SortServerStatusInfo: the rows whose key is a table name, in table
        order, move to the front in place under their display names, and the
        rest are put in strcmp order of their keys. */
    method SortServerStatusInfo()
      requires Valid()
      modifies lines
      ensures Listed() == SortSpec(old(Listed()))
      ensures lines[numLines..] == old(lines[numLines..])
    {
      ghost var rows0 := lines[..numLines];
      var index := MoveCvarsToFront();
      ghost var moved := lines[..numLines];
      assert lines[..index] == moved[..index] && lines[index..numLines] == moved[index..];
      SortRemaining(index);
      SortSpecOf(rows0, moved, index);
    }

    /** The outer loop of UI_SortServerStatusInfo: the cvar rows are moved
        to the front entry by entry; the result is where the rest begins. */
    method MoveCvarsToFront() returns (index: nat)
      requires Valid()
      modifies lines
      ensures (lines[..numLines], index) == Selected(old(lines[..numLines]))
      ensures lines[numLines..] == old(lines[numLines..])
    {
      ghost var rows0 := lines[..numLines];
      index := 0;
      var i := 0;
      while i < NumStatusCvars
        invariant i <= NumStatusCvars && index <= numLines
        invariant Settled(lines[..numLines], index, i)
        invariant SelectFrom(lines[..numLines], i, index) == Selected(rows0)
        invariant lines[numLines..] == old(lines[numLines..])
      {
        ghost var start, index0 := lines[..numLines], index;
        SettledHere(start, index, i);
        index := MoveCvarRows(i, index);
        ScanEntrySettles(start, i, 0, index0);
        i := i + 1;
      }
    }

    /** The closing qsort of UI_SortServerStatusInfo: the rows from `index`
        on are put in key order; the rows before it are kept. */
    method SortRemaining(index: nat)
      requires Valid() && index <= numLines
      modifies lines
      ensures lines[..numLines] == old(lines[..index]) + SortByKey(old(lines[index..numLines]))
      ensures lines[numLines..] == old(lines[numLines..])
    {
      var sorted := SortByKey(lines[index..numLines]);
      CopyRows(lines, index, sorted);
      assert lines[..numLines] == lines[..][..numLines];
    }

    /** The inner loop of UI_SortServerStatusInfo for table entry e: each
        row whose key names the entry is swapped with the row at `index`,
        which then shows the entry's display name. */
    method MoveCvarRows(e: nat, index: nat) returns (index': nat)
      requires Valid() && e < NumStatusCvars && index <= numLines
      requires forall k :: 0 <= k < index ==> !Matches(e, lines[..numLines][k])
      modifies lines
      ensures (lines[..numLines], index') == ScanEntry(old(lines[..numLines]), e, 0, index)
      ensures lines[numLines..] == old(lines[numLines..])
    {
      index' := index;
      var j := 0;
      while j < numLines
        invariant j <= numLines && index' <= numLines
        invariant forall k :: j <= k < index' ==> !Matches(e, lines[..numLines][k])
        invariant ScanEntry(lines[..numLines], e, j, index') == ScanEntry(old(lines[..numLines]), e, 0, index)
        invariant lines[numLines..] == old(lines[numLines..])
      {
        var row := lines[j];
        if row.score == "" && SameIgnoringCase(CvarName(e), row.key) {
          ghost var before := lines[..numLines];
          var a := lines[index'];
          lines[j] := Row(a.key, row.score, row.ping, a.text);
          lines[index'] := Row(ShownKey(e, row.key), a.score, a.ping, row.text);
          assert lines[..numLines] == Swapped(before, e, index', j);
          index' := index' + 1;
        }
        j := j + 1;
      }
    }

    /** UI_GetServerStatusInfo for the reply `reply` of the server at
        `serverAddress` (None when the engine has none); `addressSize` is
        the size of the address buffer. */
    method GetServerStatusInfo(serverAddress: string, addressSize: nat, reply: Option<string>) returns (ok: bool)
      requires Valid() && addressSize >= 1
      modifies this, lines
      ensures Valid() && ok == reply.Some?
      ensures address == if ok then Truncate(serverAddress, addressSize - 1) else ""
      ensures Listed() == if ok then StatusSpec(BeforeNul(reply.value), address, lines.Length) else []
    {
      numLines := 0;
      address := "";
      if reply.None? {
        return false;
      }
      var text := BeforeNul(reply.value);
      address := Truncate(serverAddress, addressSize - 1);
      lines[0] := AddressRow(address);
      numLines := 1;
      assert lines[..numLines] == [AddressRow(address)];
      var p := ReadCvars(text);
      ghost var cvars := lines[..numLines];
      StatusSpecPhases(text, address, lines.Length, cvars, p);
      SortServerStatusInfo();
      AddPlayers(text, p);
      return true;
    }

    /** The player part of UI_GetServerStatusInfo: when three more rows fit,
        a blank row and the column header row follow the cvars, then the
        players read from the cursor p. */
    method AddPlayers(text: string, p: Option<nat>)
      requires Valid() && (p.Some? ==> p.value <= |text|)
      modifies this, lines
      ensures Valid() && address == old(address)
      ensures Listed() == if |old(Listed())| < lines.Length - 3
        then PlayersFrom(text, p, old(Listed()) + [BlankRow, HeaderRow], lines.Length, 0)
        else old(Listed())
    {
      if numLines < lines.Length - 3 {
        ghost var sorted := lines[..numLines];
        lines[numLines] := BlankRow;
        lines[numLines + 1] := HeaderRow;
        numLines := numLines + 2;
        assert lines[..numLines] == sorted + [BlankRow, HeaderRow];
        ReadPlayers(text, p);
      }
    }

    /** The cvar loop of UI_GetServerStatusInfo over `text`, adding rows
        after those in use; it returns where it leaves the cursor. */
    method ReadCvars(text: string) returns (p: Option<nat>)
      requires Valid() && 1 <= numLines < lines.Length
      modifies this, lines
      ensures Valid() && address == old(address)
      ensures (lines[..numLines], p) == CvarsFrom(text, Some(0), old(lines[..numLines]), lines.Length)
    {
      ghost var goal := CvarsFrom(text, Some(0), lines[..numLines], lines.Length);
      p := Some(0);
      while p.Some? && p.value < |text|
        invariant 1 <= numLines < lines.Length && address == old(address) && (p.Some? ==> p.value <= |text|)
        invariant CvarsFrom(text, p, lines[..numLines], lines.Length) == goal
        decreases if p.Some? then |text| + 1 - p.value else 0
      {
        ghost var rows := lines[..numLines];
        CvarsFromUnfolds(text, p.value, rows, lines.Length);
        var last := numLines + 1 >= lines.Length;
        var st := CvarStep(text, p.value, last);
        if st.Stop? {
          p := st.at;
          break;
        }
        AppendRow(st.row);
        p := st.next;
        if last {
          break;
        }
      }
    }

    /** Fills the next free row and counts it in. */
    method AppendRow(row: Row)
      requires Valid() && numLines < lines.Length
      modifies this, lines
      ensures Valid() && address == old(address) && numLines == old(numLines) + 1
      ensures lines[..numLines] == old(lines[..numLines]) + [row]
    {
      lines[numLines] := row;
      numLines := numLines + 1;
      assert lines[..numLines] == old(lines[..numLines]) + [row];
    }

    /** The player loop of UI_GetServerStatusInfo over `text` from the
        cursor p0, adding rows numbered from 0 after those in use. */
    method ReadPlayers(text: string, p0: Option<nat>)
      requires Valid() && numLines < lines.Length && (p0.Some? ==> p0.value <= |text|)
      modifies this, lines
      ensures Valid() && address == old(address)
      ensures lines[..numLines] == PlayersFrom(text, p0, old(lines[..numLines]), lines.Length, 0)
    {
      ghost var goal := PlayersFrom(text, p0, lines[..numLines], lines.Length, 0);
      assert goal == PlayersFrom(text, p0, old(lines[..numLines]), lines.Length, 0);
      var p := p0;
      var i := 0;
      while p.Some? && p.value < |text|
        invariant numLines < lines.Length && address == old(address) && (p.Some? ==> p.value <= |text|)
        invariant PlayersFrom(text, p, lines[..numLines], lines.Length, i) == goal
        decreases if p.Some? then |text| + 1 - p.value else 0
      {
        ghost var rows := lines[..numLines];
        var last := numLines + 1 >= lines.Length;
        PlayersFromUnfolds(text, p.value, rows, lines.Length, i, last);
        var st := PlayerStep(text, p.value, last, i);
        if st.Stop? {
          assert lines[..numLines] == goal;
          break;
        }
        AppendRow(st.row);
        if st.next.None? {
          assert lines[..numLines] == goal;
          break;
        }
        p := st.next;
        i := i + 1;
      }
    }
  }
}
