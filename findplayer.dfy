/**
  The player search of src/ui/ui_main.c: stristr, the polling scheduler
  UI_BuildFindPlayerList that asks the servers of the display list for
  their status a few at a time and keeps the distinct servers where a
  player name contains the query, and UI_ClientNumbersFromString.

  The engine is an input: the server registry is `hosts`, the display
  list is `display`, the status reply the engine holds for an address is
  `replies`, ui_serverStatusTimeOut is `timeout` and the clock is
  `realTime`. Q_CleanStr is the parameter `clean`. The buffer sizes come
  from a header that is not part of this model, so they are parameters.
 */
module FindPlayer {
  import opened Common
  import opened DisplayList
  import StatusInfo

  // ---------------------------------------------------------------------
  //   C strings
  // ---------------------------------------------------------------------

  /** Q_strncpyz(dst, s, size) and Com_sprintf(dst, size, ...) of a
      formatted text s: at most size - 1 characters of the C string s. */
  function CopyZ(s: string, size: nat): (t: string)
    requires size >= 1
    ensures '\0' !in t && |t| < size && t <= StatusInfo.BeforeNul(s)
  {
    Truncate(StatusInfo.BeforeNul(s), size - 1)
  }

  /** A string a buffer of `size` bytes holds as a C string. */
  predicate Fits(s: string, size: nat)
  {
    |s| < size && '\0' !in s
  }

  /** A C string that fits a buffer is copied into it whole. */
  lemma CopyFits(s: string, size: nat)
    requires size >= 1 && Fits(s, size)
    ensures CopyZ(s, size) == s
  {
    NulFree(s);
  }

  lemma {:induction false} NulFree(s: string)
    requires '\0' !in s
    ensures StatusInfo.BeforeNul(s) == s
  {
    if s != [] {
      NulFree(s[1..]);
    }
  }

  /** Q_strncmp(a, b, n) == 0. */
  predicate SameUpTo(a: string, b: string, n: nat)
  {
    Truncate(StatusInfo.BeforeNul(a), n) == Truncate(StatusInfo.BeforeNul(b), n)
  }

  /** Two strings that fit an n-byte buffer compare equal under
      Q_strncmp(…, n) exactly when they are equal. */
  lemma SameUpToFits(a: string, b: string, n: nat)
    requires n >= 1 && Fits(a, n) && Fits(b, n)
    ensures SameUpTo(a, b, n) <==> a == b
  {
    NulFree(a);
    NulFree(b);
  }

  // ---------------------------------------------------------------------
  //   stristr and strstr
  // ---------------------------------------------------------------------

  /** The characters of q equal those of s from p on under toupper. */
  predicate MatchesAt(s: string, q: string, p: nat)
  {
    p + |q| <= |s| && forall i :: 0 <= i < |q| ==> ToUpper(q[i]) == ToUpper(s[p + i])
  }

  /** The search of stristr from position p of s. */
  function StristrFrom(s: string, q: string, p: nat): (r: Option<nat>)
    ensures r.Some? ==> p <= r.value < |s| && MatchesAt(s, q, r.value)
    decreases |s| - p
  {
    if p >= |s| then None
    else if MatchesAt(s, q, p) then Some(p)
    else StristrFrom(s, q, p + 1)
  }

  /** stristr(s, q): the first position of s where q starts, ignoring
      case; None for the NULL it returns. */
  function Stristr(s: string, q: string): (r: Option<nat>)
    ensures r.Some? ==> r.value + |q| <= |s| && MatchesAt(s, q, r.value)
  {
    StristrFrom(s, q, 0)
  }

  lemma {:induction false} StristrFromFirst(s: string, q: string, p: nat)
    ensures var r := StristrFrom(s, q, p);
      forall j :: p <= j < |s| && (r.None? || j < r.value) ==> !MatchesAt(s, q, j)
    decreases |s| - p
  {
    if p < |s| && !MatchesAt(s, q, p) {
      StristrFromFirst(s, q, p + 1);
    }
  }

  /** stristr finds the first position where q matches, and returns NULL
      only when q matches nowhere in s. */
  lemma StristrFirst(s: string, q: string)
    ensures var r := Stristr(s, q);
      (r.Some? ==> (r.value < |s| && MatchesAt(s, q, r.value)
                    && forall j :: 0 <= j < r.value ==> !MatchesAt(s, q, j)))
      && (r.None? <==> forall j :: 0 <= j < |s| ==> !MatchesAt(s, q, j))
  {
    StristrFromFirst(s, q, 0);
  }

  /** The empty string contains nothing, not even the empty query (unlike
      strstr), and the empty query is found at the start of any other. */
  lemma StristrEmpty(s: string, q: string)
    ensures Stristr("", q) == None
    ensures Stristr(s, "") == if s == "" then None else Some(0)
  {
  }

  /** The search of strstr from position p of h. */
  function StrStrFrom(h: string, n: string, p: nat): (r: Option<nat>)
    ensures r.Some? ==> p <= r.value && r.value + |n| <= |h| && h[r.value..r.value + |n|] == n
    decreases |h| - p
  {
    if p + |n| > |h| then None
    else if h[p..p + |n|] == n then Some(p)
    else StrStrFrom(h, n, p + 1)
  }

  /** strstr(h, n), None for NULL. */
  function StrStr(h: string, n: string): (r: Option<nat>)
    ensures r.Some? ==> r.value + |n| <= |h| && h[r.value..r.value + |n|] == n
    ensures n == [] ==> r == Some(0)
  {
    StrStrFrom(h, n, 0)
  }

  lemma {:induction false} StrStrFromFinds(h: string, n: string, p: nat, k: nat)
    requires p <= k && k + |n| <= |h| && h[k..k + |n|] == n
    ensures StrStrFrom(h, n, p).Some? && StrStrFrom(h, n, p).value <= k
    decreases k - p
  {
    if h[p..p + |n|] != n {
      StrStrFromFinds(h, n, p + 1, k);
    }
  }

  /** strstr finds n in h exactly when n occurs in h. */
  lemma StrStrContains(h: string, n: string, k: nat)
    requires k + |n| <= |h| && h[k..k + |n|] == n
    ensures StrStr(h, n).Some? && StrStr(h, n).value <= k
  {
    StrStrFromFinds(h, n, 0, k);
  }

  // ---------------------------------------------------------------------
  //   UI_ClientNumbersFromString
  // ---------------------------------------------------------------------

  /** A name or query as UI_ClientNumbersFromString compares it: copied
      into a MAX_COLORFUL_NAME_LENGTH buffer, cleaned and lower-cased. */
  function SearchForm(s: string, clean: string -> string, size: nat): string
    requires size >= 1
  {
    Lower(StatusInfo.BeforeNul(clean(CopyZ(s, size))))
  }

  /** strstr(n2, s2) of UI_ClientNumbersFromString: the search form of the
      name contains key. */
  predicate NameMatches(name: string, key: string, clean: string -> string, size: nat)
    requires size >= 1
  {
    StrStr(SearchForm(name, clean, size), key).Some?
  }

  /** NameMatches as a test on one name. */
  function NameTest(key: string, clean: string -> string, size: nat): string -> bool
  {
    name => size >= 1 && NameMatches(name, key, clean, size)
  }

  /** The indices from i on of the names that pass the test, in order, at
      most `room` of them. */
  function MatchingFrom(names: seq<string>, test: string -> bool, i: nat, room: int): (r: seq<int>)
    ensures |r| <= if room < 0 then 0 else room
    ensures forall k :: 0 <= k < |r| ==> i <= r[k] < |names|
    decreases |names| - i
  {
    if i >= |names| || room <= 0 then []
    else if test(names[i]) then [i] + MatchingFrom(names, test, i + 1, room - 1)
    else MatchingFrom(names, test, i + 1, room)
  }

  /** The client numbers UI_ClientNumbersFromString reports for s among
      the player names, at most max of them. */
  function ClientNumbers(s: string, names: seq<string>, max: int, clean: string -> string, size: nat): (r: seq<int>)
    requires size >= 1
    ensures |r| <= if max < 0 then 0 else max
    ensures forall k :: 0 <= k < |r| ==> 0 <= r[k] < |names|
  {
    if max == 0 then []
    else if StatusInfo.BeforeNul(s) == "" then seq(if max < |names| then (if max < 0 then 0 else max) else |names|, k => k)
    else
      var key := SearchForm(s, clean, size);
      if key == "" then [] else MatchingFrom(names, NameTest(key, clean, size), 0, max)
  }

  lemma {:induction false} MatchingFromHits(names: seq<string>, test: string -> bool, i: nat, room: int)
    ensures forall k :: 0 <= k < |MatchingFrom(names, test, i, room)| ==>
              test(names[MatchingFrom(names, test, i, room)[k]])
    ensures forall k, l :: 0 <= k < l < |MatchingFrom(names, test, i, room)| ==>
              MatchingFrom(names, test, i, room)[k] < MatchingFrom(names, test, i, room)[l]
    decreases |names| - i
  {
    if i < |names| && room > 0 {
      if test(names[i]) {
        MatchingFromHits(names, test, i + 1, room - 1);
        assert MatchingFrom(names, test, i, room) == [i] + MatchingFrom(names, test, i + 1, room - 1);
      } else {
        MatchingFromHits(names, test, i + 1, room);
        assert MatchingFrom(names, test, i, room) == MatchingFrom(names, test, i + 1, room);
      }
    }
  }

  lemma {:induction false} MatchingFromComplete(names: seq<string>, test: string -> bool, i: nat, room: int)
    ensures |MatchingFrom(names, test, i, room)| < room
      ==> forall j :: i <= j < |names| && test(names[j]) ==> j in MatchingFrom(names, test, i, room)
    decreases |names| - i
  {
    if i < |names| && room > 0 {
      if test(names[i]) {
        MatchingFromComplete(names, test, i + 1, room - 1);
        assert MatchingFrom(names, test, i, room) == [i] + MatchingFrom(names, test, i + 1, room - 1);
      } else {
        MatchingFromComplete(names, test, i + 1, room);
        assert MatchingFrom(names, test, i, room) == MatchingFrom(names, test, i + 1, room);
      }
    }
  }

  /** One pass of the loop behind MatchingFrom. */
  /** A pass over a name that fails the test adds nothing. */
  lemma MatchingFromSkip(names: seq<string>, test: string -> bool, i: nat, room: int, before: seq<int>)
    requires i < |names| && room > 0 && !test(names[i])
    ensures before + MatchingFrom(names, test, i + 1, room) == before + MatchingFrom(names, test, i, room)
  {
  }

  /** A pass over a name that passes the test adds its index. */
  lemma MatchingFromPush(names: seq<string>, test: string -> bool, i: nat, room: int, before: seq<int>)
    requires i < |names| && room > 0 && test(names[i])
    ensures (before + [i]) + MatchingFrom(names, test, i + 1, room - 1) == before + MatchingFrom(names, test, i, room)
  {
    assert MatchingFrom(names, test, i, room) == [i] + MatchingFrom(names, test, i + 1, room - 1);
  }

  /** The client numbers are ascending and at most max. There are none
      when max is 0 or the cleaned query is empty; an empty s reports every
      player, up to max; otherwise each number names a matching player,
      and when fewer than max are reported every matching player is. */
  lemma ClientNumbersMeaning(s: string, names: seq<string>, max: int, clean: string -> string, size: nat)
    requires size >= 1
    ensures var r := ClientNumbers(s, names, max, clean, size);
      |r| <= (if max < 0 then 0 else max)
      && forall k, l :: 0 <= k < l < |r| ==> r[k] < r[l]
    ensures max == 0 ==> ClientNumbers(s, names, max, clean, size) == []
    ensures max != 0 && StatusInfo.BeforeNul(s) == "" ==>
      var r := ClientNumbers(s, names, max, clean, size);
      (|r| == |names| || |r| == (if max < 0 then 0 else max)) && |r| <= |names|
      && forall k :: 0 <= k < |r| ==> r[k] == k
    ensures max != 0 && StatusInfo.BeforeNul(s) != "" && SearchForm(s, clean, size) == "" ==>
      ClientNumbers(s, names, max, clean, size) == []
    ensures max != 0 && StatusInfo.BeforeNul(s) != "" && SearchForm(s, clean, size) != "" ==>
      var r, key := ClientNumbers(s, names, max, clean, size), SearchForm(s, clean, size);
      (forall k :: 0 <= k < |r| ==> r[k] < |names| && NameMatches(names[r[k]], key, clean, size))
      && (|r| < max ==>
            (forall j :: 0 <= j < |names| && NameMatches(names[j], key, clean, size) ==> j in r))
  {
    if max != 0 && StatusInfo.BeforeNul(s) != "" {
      var test := NameTest(SearchForm(s, clean, size), clean, size);
      MatchingFromHits(names, test, 0, max);
      MatchingFromComplete(names, test, 0, max);
    }
  }

  /** UI_ClientNumbersFromString: writes to plist the client numbers of the
      players (in the list `names` UI_BuildPlayerList leaves) whose
      cleaned, lower-cased name contains the cleaned, lower-cased s, at
      most max of them, and returns how many it wrote; an empty s
      matches every player. */
  method ClientNumbersFromString(s: string, plist: array<int>, max: int, names: seq<string>,
                                 clean: string -> string, size: nat) returns (found: nat)
    requires size >= 1 && max <= plist.Length
    modifies plist
    ensures found <= plist.Length
    ensures plist[..found] == ClientNumbers(s, names, max, clean, size)
    ensures plist[found..] == old(plist[found..])
  {
    if max == 0 {
      return 0;
    }
    if StatusInfo.BeforeNul(s) == "" {
      found := ListAll(plist, max, |names|);
      return;
    }
    var key := SearchForm(s, clean, size);
    if key == "" {
      return 0;
    }
    found := ListMatching(plist, max, names, NameTest(key, clean, size));
  }

  /** The loop of UI_ClientNumbersFromString for an empty s. */
  method ListAll(plist: array<int>, max: int, count: nat) returns (found: nat)
    requires max <= plist.Length
    modifies plist
    ensures found == (if max < count then (if max < 0 then 0 else max) else count)
    ensures plist[..found] == seq(found, k => k)
    ensures plist[found..] == old(plist[found..])
  {
    found := 0;
    while found < count && found < max
      invariant found <= count && (found == 0 || found <= max)
      invariant plist[..found] == seq(found, k => k)
      invariant plist[found..] == old(plist[found..])
    {
      plist[found] := found;
      found := found + 1;
    }
  }

  /** The loop of UI_ClientNumbersFromString over the player names, with
      the strstr test of one name as `test`. */
  method ListMatching(plist: array<int>, max: int, names: seq<string>, test: string -> bool)
      returns (found: nat)
    requires max <= plist.Length
    modifies plist
    ensures found <= plist.Length
    ensures plist[..found] == MatchingFrom(names, test, 0, max)
    ensures plist[found..] == old(plist[found..])
  {
    found := 0;
    var i := 0;
    while i < |names| && found < max
      invariant i <= |names| && (found == 0 || found <= max)
      invariant plist[..found] + MatchingFrom(names, test, i, max - found) == MatchingFrom(names, test, 0, max)
      invariant forall k :: found <= k < plist.Length ==> plist[k] == old(plist[k])
    {
      found := ListName(plist, max, names, test, i, found);
      i := i + 1;
    }
    assert MatchingFrom(names, test, i, max - found) == [];
    assert plist[..found] + [] == plist[..found];
  }

  /** One pass of that loop, over name i with found numbers listed. */
  method ListName(plist: array<int>, max: int, names: seq<string>, test: string -> bool, i: nat, found: nat)
      returns (found': nat)
    requires i < |names| && found < max <= plist.Length
    modifies plist
    ensures found' == if test(names[i]) then found + 1 else found
    ensures plist[..found'] + MatchingFrom(names, test, i + 1, max - found')
      == old(plist[..found]) + MatchingFrom(names, test, i, max - found)
    ensures forall k :: found' <= k < plist.Length ==> plist[k] == old(plist[k])
  {
    ghost var before := plist[..found];
    if test(names[i]) {
      plist[found] := i;
      assert plist[..found + 1] == before + [i];
      MatchingFromPush(names, test, i, max - found, before);
      found' := found + 1;
    } else {
      MatchingFromSkip(names, test, i, max - found, before);
      found' := found;
    }
  }

  // ---------------------------------------------------------------------
  //   UI_BuildFindPlayerList
  // ---------------------------------------------------------------------

  /** A request slot of uiInfo.pendingServerStatus. */
  datatype Pending = Pending(valid: bool, startTime: int, adrstr: string, name: string)

  /** A slot as memset leaves it. */
  const EmptySlot := Pending(false, 0, "", "")

  /** The buffer sizes: MAX_ADDRESSLENGTH for addresses, the server name
      buffers, the ui_findPlayer buffer, MAX_COLORFUL_NAME_LENGTH and
      MAX_SERVERSTATUS_LINES. */
  datatype Sizes = Sizes(address: nat, name: nat, findName: nat, colorfulName: nat, statusLines: nat)

  predicate GoodSizes(z: Sizes)
  {
    z.address >= 1 && z.name >= 1 && z.findName >= 1 && z.statusLines >= 2
  }

  /** What one call sees of the engine and the cvars. */
  datatype Engine = Engine(
    realTime: int,
    timeout: int,
    query: string,
    clean: string -> string,
    display: seq<int>,
    hosts: seq<Host>,
    replies: string -> Option<string>)

  /** A status row with a non-empty ping column is scanned as a player. */
  predicate HasPing(row: StatusInfo.Row)
  {
    row.ping != "" && row.ping[0] != '\0'
  }

  /** The name of a status row, copied into the name buffer of
      UI_BuildFindPlayerList and cleaned. */
  function PlayerName(row: StatusInfo.Row, clean: string -> string, z: Sizes): string
  {
    StatusInfo.BeforeNul(clean(CopyZ(row.text, z.colorfulName + 2)))
  }

  /** A row is a hit for the query q when it has a ping and its cleaned
      name contains q, ignoring case. */
  predicate RowMatches(row: StatusInfo.Row, q: string, clean: string -> string, z: Sizes)
  {
    HasPing(row) && Stristr(PlayerName(row, clean, z), q).Some?
  }

  /** RowMatches as a test on one row. */
  function RowTest(q: string, clean: string -> string, z: Sizes): StatusInfo.Row -> bool
  {
    row => RowMatches(row, q, clean, z)
  }

  /** Some row passes the test. */
  predicate AnyRow(rows: seq<StatusInfo.Row>, test: StatusInfo.Row -> bool)
  {
    |rows| > 0 && (AnyRow(rows[..|rows| - 1], test) || test(rows[|rows| - 1]))
  }

  lemma {:induction false} AnyRowExists(rows: seq<StatusInfo.Row>, test: StatusInfo.Row -> bool)
    ensures AnyRow(rows, test) <==> exists j :: 0 <= j < |rows| && test(rows[j])
  {
    if |rows| > 0 {
      var init := rows[..|rows| - 1];
      AnyRowExists(init, test);
      assert forall j :: 0 <= j < |init| ==> init[j] == rows[j];
    }
  }

  /** The header row ("num", "score", "ping", "name") has a ping column,
      so it is scanned like a player: every server whose table reaches the
      header row is a hit for a query that "name" contains. */
  lemma HeaderRowMatches(q: string, clean: string -> string, z: Sizes)
    requires clean("name") == "name" && z.colorfulName >= 4
    requires Stristr("name", q).Some?
    ensures RowMatches(StatusInfo.HeaderRow, q, clean, z)
  {
    NulFree("name");
    assert CopyZ("name", z.colorfulName + 2) == "name";
  }

  /** The status rows UI_GetServerStatusInfo leaves for a reply from adr. */
  function StatusRows(adr: string, reply: string, z: Sizes): seq<StatusInfo.Row>
    requires z.statusLines >= 2 && z.address >= 1
  {
    StatusInfo.StatusSpec(StatusInfo.BeforeNul(reply), Truncate(adr, z.address - 1), z.statusLines)
  }

  /** The label "searching %d/%d..." of the last found line. */
  function Searching(found: int, num: int, z: Sizes): (r: string)
    requires z.name >= 1
    ensures |r| < z.name && r <= "searching " + IntToString(found) + "/" + IntToString(num) + "..."
  {
    CopyZ("searching " + IntToString(found) + "/" + IntToString(num) + "...", z.name)
  }

  /** The label "searching %d..." a new search starts with. */
  function SearchingFrom(num: int, z: Sizes): string
    requires z.name >= 1
  {
    CopyZ("searching " + IntToString(num) + "...", z.name)
  }

  /** The line "%d server%s found with player %s" after a search; it is
      formatted into a buffer of the size of a found address. */
  function Summary(numFoundPlayerServers: int, q: string, z: Sizes): (r: string)
    requires z.address >= 1
    ensures |r| < z.address
    ensures r <= IntToString(numFoundPlayerServers - 1) + " server" + (if numFoundPlayerServers == 2 then "" else "s")
      + " found with player " + q
  {
    CopyZ(IntToString(numFoundPlayerServers - 1) + " server" + (if numFoundPlayerServers == 2 then "" else "s")
          + " found with player " + q, z.address)
  }

  /** cl_serverStatusResendTime: half the status timeout less 10 ms, at
      least 50 ms. */
  function ResendTime(timeout: int): (r: int)
    ensures r >= 50 && (r == 50 || r == CDiv(timeout, 2) - 10)
    ensures timeout >= 120 ==> r == CDiv(timeout, 2) - 10
  {
    var resend := CDiv(timeout, 2) - 10;
    if resend < 50 then 50 else resend
  }

  /** The found lines as values: the address and name arrays, how many
      lines are in use (the last is the label) and the cursor. */
  datatype Found = Found(addresses: seq<string>, names: seq<string>, count: int, cursor: int)

  /** What scanning the status of one server adds: nothing unless a row
      is a hit and the address is not listed yet; then the server is
      listed if there is room below the label line, otherwise the cursor
      jumps to the end of the display list. */
  function AddFound(f: Found, adr: string, name: string, hit: bool, displayCount: int): (r: Found)
    requires 1 <= f.count <= |f.addresses| - 1 && |f.names| == |f.addresses|
    ensures |r.addresses| == |f.addresses| && |r.names| == |f.names|
    ensures f.count <= r.count <= |r.addresses| - 1
    ensures !hit ==> r == f
    ensures r.count == f.count + 1 ==> r.addresses[f.count - 1] == adr && r.names[f.count - 1] == name
  {
    if !hit || adr in f.addresses[..f.count - 1] then f
    else if f.count < |f.addresses| - 1 then
      Found(f.addresses[f.count - 1 := adr], f.names[f.count - 1 := name], f.count + 1, f.cursor)
    else f.(cursor := displayCount)
  }

  /** The found servers are pairwise distinct and fit their buffer. */
  predicate FoundOk(f: Found, size: nat)
  {
    1 <= f.count <= |f.addresses| - 1 && |f.names| == |f.addresses|
    && (forall k :: 0 <= k < f.count - 1 ==> Fits(f.addresses[k], size))
    && (forall k, l :: 0 <= k < l < f.count - 1 ==> f.addresses[k] != f.addresses[l])
  }

  /** Adding a server keeps the found list distinct, fitting and below
      the label limit and keeps what was listed; the server is listed
      exactly when it is a hit not listed yet and there is room; a new hit
      that finds the list full moves the cursor to the end of the display
      list, and nothing else moves it. */
  lemma AddFoundKeeps(f: Found, adr: string, name: string, hit: bool, displayCount: int, size: nat)
    requires FoundOk(f, size) && Fits(adr, size)
    ensures FoundOk(AddFound(f, adr, name, hit, displayCount), size)
    ensures f.addresses[..f.count - 1] <= AddFound(f, adr, name, hit, displayCount).addresses
    ensures (AddFound(f, adr, name, hit, displayCount).count == f.count + 1)
        == (hit && adr !in f.addresses[..f.count - 1] && f.count < |f.addresses| - 1)
    ensures AddFound(f, adr, name, hit, displayCount).count > f.count
        ==> AddFound(f, adr, name, hit, displayCount).addresses[f.count - 1] == adr
    ensures hit && adr !in f.addresses[..f.count - 1] && f.count == |f.addresses| - 1
        ==> AddFound(f, adr, name, hit, displayCount).cursor == displayCount
    ensures !(hit && adr !in f.addresses[..f.count - 1] && f.count == |f.addresses| - 1)
        ==> AddFound(f, adr, name, hit, displayCount).cursor == f.cursor
  {
    var r := AddFound(f, adr, name, hit, displayCount);
    if r.count > f.count {
      assert r.addresses[..f.count] == f.addresses[..f.count - 1] + [adr];
    }
  }

  /** Scanning a server again changes nothing more: the loop over the
      status rows adds the server at most once. */
  lemma AddFoundAgain(f: Found, adr: string, name: string, hit: bool, displayCount: int)
    requires 1 <= f.count <= |f.addresses| - 1 && |f.names| == |f.addresses|
    ensures AddFound(AddFound(f, adr, name, hit, displayCount), adr, name, true, displayCount)
         == AddFound(f, adr, name, true, displayCount)
  {
    var r := AddFound(f, adr, name, hit, displayCount);
    if r.count > f.count {
      assert r.addresses[..r.count - 1] == f.addresses[..f.count - 1] + [adr];
    }
  }

  /** The found lines with the label line rewritten. */
  function Relabel(f: Found, line: string): (r: Found)
    requires 1 <= f.count <= |f.names|
    ensures r.addresses == f.addresses && r.count == f.count && r.cursor == f.cursor
    ensures |r.names| == |f.names| && r.names[f.count - 1] == line
  {
    f.(names := f.names[f.count - 1 := line])
  }

  /** The slot UI_BuildFindPlayerList fills for entry n of the display
      list: the server's address and host name, started now. */
  function Assigned(e: Engine, n: nat, z: Sizes): (p: Pending)
    requires n < |e.display| && z.address >= 1 && z.name >= 1
    ensures p.valid && p.startTime == e.realTime && Fits(p.adrstr, z.address)
  {
    var h := HostAt(e.hosts, e.display[n]);
    Pending(true, e.realTime, CopyZ(h.address, z.address), CopyZ(h.hostname, z.name))
  }

  /** The state UI_BuildFindPlayerList keeps: uiInfo.pendingServerStatus
      (the request slots `server` and the cursor `num` into the display
      list), the found lines, the query, the time of the next poll, the
      function's static counters numFound and numTimeOuts, and the value
      it gives cl_serverStatusResendTime. */
  class FindPlayerSearch {
    const sizes: Sizes
    const server: array<Pending>
    const foundPlayerServerAddresses: array<string>
    const foundPlayerServerNames: array<string>
    var num: int
    var numFoundPlayerServers: int
    var currentFoundPlayerServer: int
    var findPlayerName: string
    var nextFindPlayerRefresh: int
    var numFound: int
    var numTimeOuts: int
    var serverStatusResendTime: string

    /** Every slot address fits its buffer; the found list is distinct; at
        most MAX_FOUNDPLAYER_SERVERS - 1 lines are in use; a poll is due
        only when the label line exists. */
    ghost predicate Valid()
      reads this, server, foundPlayerServerAddresses, foundPlayerServerNames
    {
      GoodSizes(sizes)
      && foundPlayerServerAddresses.Length == foundPlayerServerNames.Length >= 2
      && foundPlayerServerAddresses != foundPlayerServerNames
      && 0 <= num && 0 <= numFoundPlayerServers <= foundPlayerServerAddresses.Length - 1
      && (numFoundPlayerServers == 0 ==> nextFindPlayerRefresh == 0)
      && (forall i :: 0 <= i < server.Length ==> Fits(server[i].adrstr, sizes.address))
      && (numFoundPlayerServers >= 1 ==> FoundOk(State(), sizes.address))
    }

    /** The found lines and the cursor. */
    function State(): (f: Found)
      reads this, foundPlayerServerAddresses, foundPlayerServerNames
    {
      Found(foundPlayerServerAddresses[..], foundPlayerServerNames[..], numFoundPlayerServers, num)
    }

    /** The found servers, below the label line. */
    function FoundList(): (l: seq<string>)
      reads this, foundPlayerServerAddresses
    {
      if 1 <= numFoundPlayerServers <= foundPlayerServerAddresses.Length + 1
      then foundPlayerServerAddresses[..numFoundPlayerServers - 1] else []
    }

    constructor(slots: nat, maxFound: nat, z: Sizes)
      requires maxFound >= 2 && GoodSizes(z)
      ensures Valid() && sizes == z && fresh(server) && fresh(foundPlayerServerAddresses) && fresh(foundPlayerServerNames)
      ensures server[..] == seq(slots, _ => EmptySlot)
      ensures State() == Found(seq(maxFound, _ => ""), seq(maxFound, _ => ""), 0, 0)
      ensures nextFindPlayerRefresh == 0 && numFound == 0 && numTimeOuts == 0
    {
      sizes := z;
      server := new Pending[slots](_ => EmptySlot);
      foundPlayerServerAddresses := new string[maxFound](_ => "");
      foundPlayerServerNames := new string[maxFound](_ => "");
      num := 0;
      numFoundPlayerServers := 0;
      currentFoundPlayerServer := 0;
      findPlayerName := "";
      nextFindPlayerRefresh := 0;
      numFound := 0;
      numTimeOuts := 0;
      serverStatusResendTime := "";
      new;
      assert server[..] == seq(slots, _ => EmptySlot);
    }

    /** The duplicate test of UI_BuildFindPlayerList: Q_strncmp of adr
        against every found address. */
    method Duplicate(adr: string) returns (duplicate: bool)
      requires Valid() && numFoundPlayerServers >= 1 && Fits(adr, sizes.address)
      ensures duplicate == (adr in FoundList())
    {
      duplicate := false;
      var k := 0;
      while k < numFoundPlayerServers - 1
        invariant 0 <= k <= numFoundPlayerServers - 1
        invariant duplicate == (adr in foundPlayerServerAddresses[..k])
      {
        SameUpToFits(foundPlayerServerAddresses[k], adr, sizes.address);
        assert foundPlayerServerAddresses[..k + 1] == foundPlayerServerAddresses[..k] + [foundPlayerServerAddresses[k]];
        if SameUpTo(foundPlayerServerAddresses[k], adr, sizes.address) {
          duplicate := true;
        }
        k := k + 1;
      }
    }

    /** One status row that is a hit: the server is added unless it is
        listed already, or the cursor jumps to the end when the list is
        full. */
    method NoteHit(adr: string, name: string, displayCount: nat)
      requires Valid() && numFoundPlayerServers >= 1 && Fits(adr, sizes.address)
      modifies this, foundPlayerServerAddresses, foundPlayerServerNames
      ensures Valid() && numFoundPlayerServers >= 1
      ensures State() == AddFound(old(State()), adr, CopyZ(name, sizes.name), true, displayCount)
      ensures currentFoundPlayerServer == old(currentFoundPlayerServer) && findPlayerName == old(findPlayerName)
      ensures nextFindPlayerRefresh == old(nextFindPlayerRefresh) && numFound == old(numFound)
      ensures numTimeOuts == old(numTimeOuts) && serverStatusResendTime == old(serverStatusResendTime)
    {
      ghost var f := State();
      AddFoundKeeps(f, adr, CopyZ(name, sizes.name), true, displayCount, sizes.address);
      var duplicate := Duplicate(adr);
      if !duplicate {
        if numFoundPlayerServers < foundPlayerServerAddresses.Length - 1 {
          CopyFits(adr, sizes.address);
          foundPlayerServerAddresses[numFoundPlayerServers - 1] := CopyZ(adr, sizes.address);
          foundPlayerServerNames[numFoundPlayerServers - 1] := CopyZ(name, sizes.name);
          numFoundPlayerServers := numFoundPlayerServers + 1;
        } else {
          num := displayCount;
        }
      }
      assert State() == AddFound(f, adr, CopyZ(name, sizes.name), true, displayCount);
    }

    /** The loop of UI_BuildFindPlayerList over the status rows of one
        server, with the row test RowMatches as `test`. */
    method ScanStatus(info: StatusInfo.ServerStatusInfo, adr: string, name: string,
                      test: StatusInfo.Row -> bool, displayCount: nat)
      requires Valid() && info.Valid() && numFoundPlayerServers >= 1 && Fits(adr, sizes.address)
      modifies this, foundPlayerServerAddresses, foundPlayerServerNames
      ensures Valid() && numFoundPlayerServers >= 1
      ensures State() == AddFound(old(State()), adr, CopyZ(name, sizes.name), AnyRow(info.Listed(), test), displayCount)
      ensures currentFoundPlayerServer == old(currentFoundPlayerServer) && findPlayerName == old(findPlayerName)
      ensures nextFindPlayerRefresh == old(nextFindPlayerRefresh) && numFound == old(numFound)
      ensures numTimeOuts == old(numTimeOuts) && serverStatusResendTime == old(serverStatusResendTime)
    {
      ghost var f := State();
      ghost var rows := info.Listed();
      ghost var entry := CopyZ(name, sizes.name);
      var j := 0;
      while j < info.numLines
        invariant j <= info.numLines && Valid() && numFoundPlayerServers >= 1
        invariant State() == AddFound(f, adr, entry, AnyRow(rows[..j], test), displayCount)
        invariant currentFoundPlayerServer == old(currentFoundPlayerServer) && findPlayerName == old(findPlayerName)
        invariant nextFindPlayerRefresh == old(nextFindPlayerRefresh) && numFound == old(numFound)
        invariant numTimeOuts == old(numTimeOuts) && serverStatusResendTime == old(serverStatusResendTime)
      {
        assert rows[..j + 1][..j] == rows[..j];
        var row := info.lines[j];
        if test(row) {
          AddFoundAgain(f, adr, entry, AnyRow(rows[..j], test), displayCount);
          NoteHit(adr, name, displayCount);
        }
        j := j + 1;
      }
      assert rows[..j] == rows;
    }

    /** The first half of the pass of UI_BuildFindPlayerList over slot i:
        when the slot is waiting and the engine has the server's status,
        the status rows are scanned for the query, the label line shows the
        progress and the slot is freed. */
    method PollSlot(i: nat, e: Engine)
      requires Valid() && numFoundPlayerServers >= 1 && i < server.Length
      modifies this, server, foundPlayerServerAddresses, foundPlayerServerNames
      ensures Valid() && numFoundPlayerServers >= 1
      ensures !old(server[i].valid) || e.replies(old(server[i].adrstr)).None? ==>
        server[..] == old(server[..]) && State() == old(State()) && numFound == old(numFound)
      ensures old(server[i].valid) && e.replies(old(server[i].adrstr)).Some? ==>
        (server[..] == old(server[..])[i := old(server[i]).(valid := false)]
         && numFound == old(numFound) + 1
         && State() == Relabel(AddFound(old(State()), old(server[i].adrstr), CopyZ(old(server[i].name), sizes.name),
                                        AnyRow(StatusRows(old(server[i].adrstr), e.replies(old(server[i].adrstr)).value, sizes),
                                               RowTest(findPlayerName, e.clean, sizes)),
                                        |e.display|),
                               Searching(numFound, num, sizes)))
      ensures old(FoundList()) <= FoundList()
      ensures num == old(num) || num == |e.display|
      ensures currentFoundPlayerServer == old(currentFoundPlayerServer) && findPlayerName == old(findPlayerName)
      ensures nextFindPlayerRefresh == old(nextFindPlayerRefresh)
      ensures numTimeOuts == old(numTimeOuts) && serverStatusResendTime == old(serverStatusResendTime)
    {
      var slot := server[i];
      if slot.valid {
        ghost var listed := FoundList();
        var info := new StatusInfo.ServerStatusInfo(sizes.statusLines);
        var ok := info.GetServerStatusInfo(slot.adrstr, sizes.address, e.replies(slot.adrstr));
        assert FoundList() == listed;
        if ok {
          CountStatus(info, slot, e);
          FreeSlot(i);
        }
      }
    }

    /** Slot i no longer waits for an answer. */
    method FreeSlot(i: nat)
      requires Valid() && i < server.Length
      modifies server
      ensures Valid()
      ensures server[..] == old(server[..])[i := old(server[i]).(valid := false)]
      ensures State() == old(State()) && FoundList() == old(FoundList())
    {
      server[i] := server[i].(valid := false);
    }

    /** What PollSlot does with the status rows of the server of `slot`. */
    method CountStatus(info: StatusInfo.ServerStatusInfo, slot: Pending, e: Engine)
      requires Valid() && info.Valid() && numFoundPlayerServers >= 1 && Fits(slot.adrstr, sizes.address)
      modifies this, foundPlayerServerAddresses, foundPlayerServerNames
      ensures Valid() && numFoundPlayerServers >= 1
      ensures numFound == old(numFound) + 1
      ensures State() == Relabel(AddFound(old(State()), slot.adrstr, CopyZ(slot.name, sizes.name),
                                          AnyRow(info.Listed(), RowTest(findPlayerName, e.clean, sizes)), |e.display|),
                                 Searching(numFound, num, sizes))
      ensures old(FoundList()) <= FoundList()
      ensures num == old(num) || num == |e.display|
      ensures currentFoundPlayerServer == old(currentFoundPlayerServer) && findPlayerName == old(findPlayerName)
      ensures nextFindPlayerRefresh == old(nextFindPlayerRefresh)
      ensures numTimeOuts == old(numTimeOuts) && serverStatusResendTime == old(serverStatusResendTime)
    {
      numFound := numFound + 1;
      ghost var f := State();
      AddFoundKeeps(f, slot.adrstr, CopyZ(slot.name, sizes.name),
                    AnyRow(info.Listed(), RowTest(findPlayerName, e.clean, sizes)), |e.display|, sizes.address);
      ScanStatus(info, slot.adrstr, slot.name, RowTest(findPlayerName, e.clean, sizes), |e.display|);
      foundPlayerServerNames[numFoundPlayerServers - 1] := Searching(numFound, num, sizes);
    }

    /** The second half of the pass over slot i: a free slot, or one that
        has waited longer than the timeout (which counts as a timeout),
        takes the next server of the display list if there is one, and the
        label line shows the progress. */
    method ReclaimSlot(i: nat, e: Engine)
      requires Valid() && numFoundPlayerServers >= 1 && i < server.Length
      modifies this, server, foundPlayerServerNames
      ensures Valid() && numFoundPlayerServers >= 1
      ensures var due := !old(server[i].valid) || old(server[i].startTime) < e.realTime - e.timeout;
        (numTimeOuts == old(numTimeOuts) + if due && old(server[i].valid) then 1 else 0)
        && (!due ==> server[..] == old(server[..]) && State() == old(State()))
        && (due && old(num) < |e.display| ==>
              server[..] == old(server[..])[i := Assigned(e, old(num), sizes)]
              && State() == Relabel(old(State()).(cursor := old(num) + 1), Searching(numFound, old(num) + 1, sizes)))
        && (due && old(num) >= |e.display| ==>
              server[..] == old(server[..])[i := old(server[i]).(valid := false)] && State() == old(State()))
      ensures currentFoundPlayerServer == old(currentFoundPlayerServer) && findPlayerName == old(findPlayerName)
      ensures nextFindPlayerRefresh == old(nextFindPlayerRefresh) && numFound == old(numFound)
      ensures serverStatusResendTime == old(serverStatusResendTime)
    {
      var slot := server[i];
      if !slot.valid || slot.startTime < e.realTime - e.timeout {
        if slot.valid {
          numTimeOuts := numTimeOuts + 1;
        }
        FreeSlot(i);
        if num < |e.display| {
          AssignNext(i, e);
        }
      }
    }

    /** Slot i takes the next server of the display list, and the label
        line shows the progress. */
    method AssignNext(i: nat, e: Engine)
      requires Valid() && numFoundPlayerServers >= 1 && i < server.Length && num < |e.display|
      modifies this, server, foundPlayerServerNames
      ensures Valid() && numFoundPlayerServers >= 1
      ensures server[..] == old(server[..])[i := Assigned(e, old(num), sizes)]
      ensures State() == Relabel(old(State()).(cursor := old(num) + 1), Searching(numFound, old(num) + 1, sizes))
      ensures currentFoundPlayerServer == old(currentFoundPlayerServer) && findPlayerName == old(findPlayerName)
      ensures nextFindPlayerRefresh == old(nextFindPlayerRefresh) && numFound == old(numFound)
      ensures numTimeOuts == old(numTimeOuts) && serverStatusResendTime == old(serverStatusResendTime)
    {
      server[i] := Assigned(e, num, sizes);
      num := num + 1;
      foundPlayerServerNames[numFoundPlayerServers - 1] := Searching(numFound, num, sizes);
    }

    /** The end of UI_BuildFindPlayerList: poll again in 25 ms while a slot
        is waiting; otherwise the label line reports how many servers were
        found and the search stops. */
    method FinishSearch(e: Engine)
      requires Valid() && numFoundPlayerServers >= 1
      modifies this, foundPlayerServerNames
      ensures Valid() && numFoundPlayerServers >= 1
      ensures var waiting := exists i :: 0 <= i < server.Length && server[i].valid;
        nextFindPlayerRefresh == (if waiting then e.realTime + 25 else 0)
        && State() == (if waiting then old(State())
                       else Relabel(old(State()), Summary(numFoundPlayerServers, findPlayerName, sizes)))
        && (!waiting ==>
              foundPlayerServerNames[numFoundPlayerServers - 1] == Summary(numFoundPlayerServers, findPlayerName, sizes))
      ensures currentFoundPlayerServer == old(currentFoundPlayerServer) && findPlayerName == old(findPlayerName)
      ensures numFound == old(numFound) && numTimeOuts == old(numTimeOuts)
      ensures serverStatusResendTime == old(serverStatusResendTime)
    {
      var i := 0;
      while i < server.Length && !server[i].valid
        invariant i <= server.Length
        invariant forall k :: 0 <= k < i ==> !server[k].valid
      {
        i := i + 1;
      }
      if i < server.Length {
        nextFindPlayerRefresh := e.realTime + 25;
      } else {
        // numFoundPlayerServers is at least 1 here, so the "no servers
        // found" line of the source is never written.
        foundPlayerServerNames[numFoundPlayerServers - 1] := Summary(numFoundPlayerServers, findPlayerName, sizes);
        nextFindPlayerRefresh := 0;
      }
    }

    /** The memset of uiInfo.pendingServerStatus, for the slots. */
    method ClearSlots()
      modifies server
      ensures server[..] == seq(server.Length, _ => EmptySlot)
    {
      forall k | 0 <= k < server.Length {
        server[k] := EmptySlot;
      }
    }

    /** The forced start of UI_BuildFindPlayerList: every slot is cleared,
        the query is read and cleaned; an empty query ends the search, any
        other starts it with the "searching 0..." line. */
    method ResetSearch(e: Engine)
      requires Valid()
      modifies this, server, foundPlayerServerNames
      ensures Valid()
      ensures server[..] == seq(server.Length, _ => EmptySlot) && num == 0 && currentFoundPlayerServer == 0
      ensures findPlayerName == StatusInfo.BeforeNul(e.clean(CopyZ(e.query, sizes.findName)))
      ensures findPlayerName == "" ==>
        numFoundPlayerServers == 0 && nextFindPlayerRefresh == 0
        && foundPlayerServerNames[..] == old(foundPlayerServerNames[..])
        && numFound == old(numFound) && numTimeOuts == old(numTimeOuts)
        && serverStatusResendTime == old(serverStatusResendTime)
      ensures findPlayerName != "" ==>
        numFoundPlayerServers == 1 && nextFindPlayerRefresh == old(nextFindPlayerRefresh)
        && foundPlayerServerNames[..] == old(foundPlayerServerNames[..])[0 := SearchingFrom(0, sizes)]
        && numFound == 0 && numTimeOuts == old(numTimeOuts) + 1
        && serverStatusResendTime == IntToString(ResendTime(e.timeout))
    {
      ClearSlots();
      num := 0;
      numFoundPlayerServers := 0;
      currentFoundPlayerServer := 0;
      findPlayerName := StatusInfo.BeforeNul(e.clean(CopyZ(e.query, sizes.findName)));
      if findPlayerName == "" {
        nextFindPlayerRefresh := 0;
        return;
      }
      serverStatusResendTime := IntToString(ResendTime(e.timeout));
      numFoundPlayerServers := 1;
      foundPlayerServerNames[0] := SearchingFrom(num, sizes);
      numFound := 0;
      numTimeOuts := numTimeOuts + 1;
    }

    /** UI_BuildFindPlayerList(force). Unforced, it does nothing unless a
        poll is due. Forced, it starts a new search, or ends it for an empty
        query. Otherwise every slot is polled and reclaimed in turn, the
        cursor only moves forward through the display list, the servers
        found so far stay listed, and the next poll is set while a slot
        waits; when none waits the label line gets the summary. */
    method BuildFindPlayerList(force: bool, e: Engine)
      requires Valid()
      modifies this, server, foundPlayerServerAddresses, foundPlayerServerNames
      ensures Valid()
      ensures !force && (old(nextFindPlayerRefresh) == 0 || old(nextFindPlayerRefresh) > e.realTime) ==>
        unchanged(this) && unchanged(server) && unchanged(foundPlayerServerAddresses)
        && unchanged(foundPlayerServerNames)
      ensures force ==> findPlayerName == StatusInfo.BeforeNul(e.clean(CopyZ(e.query, sizes.findName)))
      ensures force && findPlayerName == "" ==>
        numFoundPlayerServers == 0 && nextFindPlayerRefresh == 0 && num == 0
        && server[..] == seq(server.Length, _ => EmptySlot)
      ensures var ran := if force then findPlayerName != ""
                         else old(nextFindPlayerRefresh) != 0 && old(nextFindPlayerRefresh) <= e.realTime;
        var start := if force then 0 else old(num);
        ran ==>
          (numFoundPlayerServers >= 1
           && (start <= |e.display| ==> start <= num <= |e.display|)
           && (!force ==> old(FoundList()) <= FoundList() && findPlayerName == old(findPlayerName))
           && nextFindPlayerRefresh == (if exists i :: 0 <= i < server.Length && server[i].valid then e.realTime + 25 else 0)
           && ((forall i :: 0 <= i < server.Length ==> !server[i].valid) ==>
                 foundPlayerServerNames[numFoundPlayerServers - 1] == Summary(numFoundPlayerServers, findPlayerName, sizes)))
    {
      if !force {
        if nextFindPlayerRefresh == 0 || nextFindPlayerRefresh > e.realTime {
          return;
        }
      } else {
        ResetSearch(e);
        if findPlayerName == "" {
          return;
        }
      }
      PollAll(e);
      FinishSearch(e);
    }

    /** The loop of UI_BuildFindPlayerList over the request slots. */
    method PollAll(e: Engine)
      requires Valid() && numFoundPlayerServers >= 1
      modifies this, server, foundPlayerServerAddresses, foundPlayerServerNames
      ensures Valid() && numFoundPlayerServers >= 1
      ensures old(num) <= |e.display| ==> old(num) <= num <= |e.display|
      ensures old(FoundList()) <= FoundList() && findPlayerName == old(findPlayerName)
    {
      var i := 0;
      while i < server.Length
        invariant i <= server.Length && Valid() && numFoundPlayerServers >= 1
        invariant old(num) <= |e.display| ==> old(num) <= num <= |e.display|
        invariant old(FoundList()) <= FoundList() && findPlayerName == old(findPlayerName)
      {
        PollSlot(i, e);
        ReclaimSlot(i, e);
        i := i + 1;
      }
    }
  }
}
