/**
  The display list of the server browser in src/ui/ui_main.c, as values:
  uiInfo.serverStatus.displayServers (the whole array, since the source
  reads and writes past the live prefix), numDisplayServers and the two
  duplicate counters. Each operation of the source is a function from the
  old state to the new one; the browser's methods are proved to compute
  them, and the lemmas here state what they do to the listed servers.

  The engine's server registry is an oracle: `hosts[num]` is what
  trap_LAN_GetServerInfo and trap_LAN_GetServerAddressString report for
  handle num, with the values Info_ValueForKey extracts from the info
  string given as fields.
 */
module DisplayList {
  import opened Common
  import opened Address

  datatype Host = Host(
    info: string,
    hostname: string,
    clients: string,
    maxClients: string,
    address: string,
    ping: int)

  /** What the registry reports for a handle it does not hold: nothing. */
  function HostAt(hosts: seq<Host>, num: int): Host
  {
    if 0 <= num < |hosts| then hosts[num] else Host("", "", "", "", "", 0)
  }

  /** The constants of the source's string buffers (MAX_HOSTNAME_LENGTH)
      and the engine's colour-code test, fixed for the whole browser. */
  datatype Config = Config(maxHostname: nat, isColor: (char, char) -> bool)

  datatype Listing = Listing(ds: seq<int>, n: int, dups: int, dupClients: int)

  predicate WF(st: Listing)
  {
    0 <= st.n <= |st.ds|
  }

  /** The servers on display: the first numDisplayServers slots. */
  function Live(st: Listing): seq<int>
    requires WF(st)
  {
    st.ds[..st.n]
  }

  // ---------------------------------------------------------------------
  //   Lists
  // ---------------------------------------------------------------------

  function IndexOf(l: seq<int>, x: int): (i: nat)
    requires x in l
    ensures i < |l| && l[i] == x && x !in l[..i]
  {
    if l[0] == x then 0
    else
      var j := IndexOf(l[1..], x);
      assert l[..j + 1] == [l[0]] + l[1..][..j];
      j + 1
  }

  /** The first occurrence is the only one with none before it. */
  lemma FirstOccurrence(l: seq<int>, x: int, i: nat)
    requires i < |l| && l[i] == x && x !in l[..i]
    ensures IndexOf(l, x) == i
  {
    var m := IndexOf(l, x);
    assert forall k :: 0 <= k < i ==> l[..i][k] == l[k];
    assert forall k :: 0 <= k < m ==> l[..m][k] == l[k];
  }

  /** The list without the first occurrence of x. */
  function RemoveFirst(l: seq<int>, x: int): seq<int>
  {
    if l == [] then []
    else if l[0] == x then l[1..]
    else [l[0]] + RemoveFirst(l[1..], x)
  }

  lemma {:induction false} RemoveFirstAt(l: seq<int>, x: int)
    requires x in l
    ensures RemoveFirst(l, x) == l[..IndexOf(l, x)] + l[IndexOf(l, x) + 1..]
    decreases |l|
  {
    if l[0] != x {
      RemoveFirstAt(l[1..], x);
      var j := IndexOf(l[1..], x);
      assert l[..j + 1] == [l[0]] + l[1..][..j];
      assert l[j + 2..] == l[1..][j + 1..];
    }
  }

  lemma {:induction false} RemoveFirstAbsent(l: seq<int>, x: int)
    requires x !in l
    ensures RemoveFirst(l, x) == l
    decreases |l|
  {
    if l != [] {
      RemoveFirstAbsent(l[1..], x);
    }
  }

  /** Removing an element keeps a sub-multiset. */
  lemma {:induction false} RemoveFirstSubset(l: seq<int>, x: int)
    ensures multiset(RemoveFirst(l, x)) <= multiset(l)
    decreases |l|
  {
    if l != [] && l[0] != x {
      RemoveFirstSubset(l[1..], x);
      assert l == [l[0]] + l[1..];
    }
    if l != [] && l[0] == x {
      assert l == [l[0]] + l[1..];
    }
  }

  predicate Distinct(l: seq<int>)
  {
    forall i, j :: 0 <= i < j < |l| ==> l[i] != l[j]
  }

  // ---------------------------------------------------------------------
  //   UI_RemoveServerFromDisplayList
  // ---------------------------------------------------------------------

  /** The state after UI_RemoveServerFromDisplayList(num): the first
      listed occurrence of num is shifted out (the listed list is the
      list-level RemoveFirst of the old one) and the count drops; the slot
      the shift vacates keeps its value and nothing past the new count
      changes. Without an occurrence nothing changes at all. */
  function RemoveSpec(st: Listing, num: int): (r: Listing)
    requires WF(st)
    ensures WF(r) && |r.ds| == |st.ds| && r.dups == st.dups && r.dupClients == st.dupClients
    ensures num in Live(st) ==> r.n == st.n - 1
  {
    if num in Live(st) then
      var i := IndexOf(Live(st), num);
      st.(ds := st.ds[..i] + st.ds[i + 1 .. st.n] + st.ds[st.n - 1..], n := st.n - 1)
    else
      st
  }

  /** What removal does to the listed servers: they lose the first
      occurrence of num, in order, and nothing past the new count changes;
      without an occurrence nothing changes at all. */
  lemma RemoveSpecMeaning(st: Listing, num: int)
    requires WF(st)
    ensures var r := RemoveSpec(st, num);
      Live(r) == RemoveFirst(Live(st), num) && r.ds[r.n..] == st.ds[r.n..]
      && (num !in Live(st) ==> r == st)
  {
    var l := Live(st);
    if num in l {
      var i := IndexOf(l, num);
      RemoveFirstAt(l, num);
      var r := RemoveSpec(st, num);
      assert Live(r) == l[..i] + l[i + 1..];
    } else {
      RemoveFirstAbsent(l, num);
    }
  }

  // ---------------------------------------------------------------------
  //   UI_InsertServerIntoDisplayList
  // ---------------------------------------------------------------------

  /** The final shift-and-store of an insertion with n listed servers:
      slots position .. n move up one (so slot n + 1 receives the old slot
      n, one past the new count) and num goes to position. When a
      duplicate removal has brought n below position, nothing moves and num
      lands past the live prefix. */
  function ShiftInsert(ds: seq<int>, n: nat, position: nat, num: int): (r: seq<int>)
    requires position < |ds| && (position <= n ==> n + 2 <= |ds|)
    ensures |r| == |ds|
  {
    if position <= n then ds[..position] + [num] + ds[position .. n + 1] + ds[n + 2..]
    else ds[position := num]
  }

  /** Slot by slot: num at position, the slots after it up to n + 1 take
      the value of the slot before, and the rest keep theirs. */
  lemma ShiftInsertAt(ds: seq<int>, n: nat, position: nat, num: int)
    requires position < |ds| && (position <= n ==> n + 2 <= |ds|)
    ensures forall k :: 0 <= k < |ds| ==>
      ShiftInsert(ds, n, position, num)[k] == if k == position then num else if position < k <= n + 1 then ds[k - 1] else ds[k]
  {
    var r := ShiftInsert(ds, n, position, num);
    if position <= n {
      var a, b, c := ds[..position], ds[position .. n + 1], ds[n + 2..];
      assert r == a + [num] + b + c;
      forall k | 0 <= k < |ds|
        ensures r[k] == if k == position then num else if position < k <= n + 1 then ds[k - 1] else ds[k]
      {
        if k < position {
          assert r[k] == a[k];
        } else if position < k <= n + 1 {
          assert r[k] == b[k - position - 1];
        } else if k > n + 1 {
          assert r[k] == c[k - n - 2];
        }
      }
    }
  }

  /** When the position is within the list, the new live list is the old
      one with num inserted there, and past slot n + 1 nothing changes. */
  lemma ShiftInsertLive(ds: seq<int>, n: nat, position: nat, num: int)
    requires position <= n && n + 2 <= |ds|
    ensures ShiftInsert(ds, n, position, num)[..n + 1] == ds[..n][..position] + [num] + ds[..n][position..]
    ensures ShiftInsert(ds, n, position, num)[n + 1] == ds[n]
    ensures ShiftInsert(ds, n, position, num)[n + 2..] == ds[n + 2..]
  {
    var r := ShiftInsert(ds, n, position, num);
    assert r[..n + 1] == ds[..position] + [num] + ds[position .. n];
  }

  /** The newcomer's side of the duplicate test: its address, protocol,
      port and sanitised hostname, with the last 6 characters (the protocol
      tag) cut from a tagged hostname longer than 6. */
  datatype Key = Key(address: string, protocol: int, port: int, base: string)

  function NewcomerKey(h: Host, cfg: Config): Key
  {
    var hostname := Truncate(h.hostname, if cfg.maxHostname >= 1 then cfg.maxHostname - 1 else 0);
    var protocol := ProtocolFromAddress(h.address);
    var cut := if protocol != 0 && |hostname| > 6 then hostname[..|hostname| - 6] else hostname;
    Key(h.address, protocol, PortFromAddress(h.address), Sanitise(cut, cfg.maxHostname, cfg.isColor))
  }

  /** The incumbent's sanitised hostname: a tagged hostname longer than 6
      loses its last 7 characters. */
  function IncumbentBase(h2: Host, cfg: Config): string
  {
    var hostname2 := Truncate(h2.hostname, if cfg.maxHostname >= 1 then cfg.maxHostname - 1 else 0);
    var cut := if ProtocolFromAddress(h2.address) != 0 && |hostname2| > 6
      then hostname2[..|hostname2| - 7] else hostname2;
    Sanitise(cut, cfg.maxHostname, cfg.isColor)
  }

  /** Whether a listed server is a duplicate listing of the newcomer: the
      addresses agree up to the port, and when the ports differ the
      sanitised hostnames agree up to case. */
  predicate IsDuplicate(k: Key, h2: Host, cfg: Config)
  {
    SameUpToPort(k.address, h2.address)
    && (k.port != PortFromAddress(h2.address) ==> EqualsIgnoreCase(k.base, IncumbentBase(h2, cfg)))
  }

  /** What the duplicate scan makes of one listed server: not a duplicate
      of the newcomer, or a duplicate with its protocol number and its
      client count. */
  datatype Verdict = Other | Duplicate(protocol2: int, clients2: int)

  function Classify(k: Key, h2: Host, cfg: Config): (v: Verdict)
    ensures v.Duplicate? <==> IsDuplicate(k, h2, cfg)
    ensures v.Duplicate? ==> v.protocol2 == ProtocolFromAddress(h2.address) && v.clients2 == Atoi(h2.clients)
  {
    if IsDuplicate(k, h2, cfg) then Duplicate(ProtocolFromAddress(h2.address), Atoi(h2.clients)) else Other
  }

  /** The verdict on every handle, for the newcomer k. */
  function Verdicts(k: Key, hosts: seq<Host>, cfg: Config): int -> Verdict
  {
    h2 => Classify(k, HostAt(hosts, h2), cfg)
  }

  /** How the duplicate scan ends: the newcomer is rejected, or the scan
      reaches the end of the list; either way with the state it left. */
  datatype Scan = Rejected(st: Listing) | Clear(st: Listing)

  /** The duplicate scan of UI_InsertServerIntoDisplayList from index i,
      for a newcomer with the given protocol number and client count.
      A duplicate bumps numDuplicateMultiprotocolServers. If the
      newcomer's protocol number is at least the incumbent's, the newcomer's
      clients are added to numDuplicateMultiprotocolServerClients and it is
      rejected; otherwise the incumbent's clients are added, the incumbent
      is removed and the scan goes on at the same index. */
  function Dedup(st: Listing, i: nat, protocol: int, clients: int, verdict: int -> Verdict): (r: Scan)
    requires WF(st) && i <= st.n
    ensures WF(r.st) && |r.st.ds| == |st.ds| && r.st.n <= st.n
    decreases st.n - i
  {
    if i == st.n then Clear(st)
    else
      var v := verdict(st.ds[i]);
      if v.Other? then Dedup(st, i + 1, protocol, clients, verdict)
      else
        if protocol >= v.protocol2 then
          Rejected(st.(dups := st.dups + 1, dupClients := st.dupClients + clients))
        else
          Dedup(Evict(st, i, v.clients2), i, protocol, clients, verdict)
  }

  /** One step of the duplicate scan at slot i: the state after it, the
      slot it goes on from, and whether the newcomer was rejected. */
  function ScanStep(st: Listing, i: nat, protocol: int, clients: int, verdict: int -> Verdict): (r: (Listing, int, bool))
    requires WF(st) && i < st.n
    ensures WF(r.0)
  {
    var v := verdict(st.ds[i]);
    if v.Other? then (st, i + 1, false)
    else if protocol >= v.protocol2 then
      (st.(dups := st.dups + 1, dupClients := st.dupClients + clients), i, true)
    else (Evict(st, i, v.clients2), i, false)
  }

  /** A step either ends the scan with the scan's own rejection, or leaves
      a scan with less left to do and the same outcome. */
  lemma ScanStepDedup(st: Listing, i: nat, protocol: int, clients: int, verdict: int -> Verdict)
    requires WF(st) && i < st.n
    ensures var (st1, next, rejected) := ScanStep(st, i, protocol, clients, verdict);
      (rejected ==> Dedup(st, i, protocol, clients, verdict) == Rejected(st1))
      && (!rejected ==> 0 <= next <= st1.n && st1.n - next < st.n - i
                        && Dedup(st1, next, protocol, clients, verdict) == Dedup(st, i, protocol, clients, verdict))
  {
  }

  /** The scan's removal of the incumbent at slot i, counting it and its
      clients as a duplicate. */
  function Evict(st: Listing, i: nat, clients2: int): (r: Listing)
    requires WF(st) && i < st.n
    ensures WF(r) && |r.ds| == |st.ds| && r.n == st.n - 1
    ensures r.dups == st.dups + 1 && r.dupClients == st.dupClients + clients2
  {
    assert Live(st)[i] == st.ds[i];
    var counted := st.(dups := st.dups + 1, dupClients := st.dupClients + clients2);
    assert Live(counted) == Live(st);
    RemoveSpec(counted, st.ds[i])
  }

  /** Removal keeps a sub-multiset of the listed servers. */
  lemma RemoveSpecSubset(st: Listing, num: int)
    requires WF(st)
    ensures multiset(Live(RemoveSpec(st, num))) <= multiset(Live(st))
  {
    RemoveSpecMeaning(st, num);
    RemoveFirstSubset(Live(st), num);
  }

  lemma EvictSubset(st: Listing, i: nat, clients2: int)
    requires WF(st) && i < st.n
    ensures multiset(Live(Evict(st, i, clients2))) <= multiset(Live(st))
  {
    var counted := st.(dups := st.dups + 1, dupClients := st.dupClients + clients2);
    assert Live(counted) == Live(st);
    RemoveSpecSubset(counted, st.ds[i]);
  }

  /** The listed servers that survive the scan are a sub-multiset of those
      before it. */
  lemma {:induction false} DedupSubset(st: Listing, i: nat, protocol: int, clients: int, verdict: int -> Verdict)
    requires WF(st) && i <= st.n
    ensures multiset(Live(Dedup(st, i, protocol, clients, verdict).st)) <= multiset(Live(st))
    decreases st.n - i
  {
    if i < st.n {
      var v := verdict(st.ds[i]);
      if v.Other? {
        DedupSubset(st, i + 1, protocol, clients, verdict);
      } else if protocol < v.protocol2 {
        DedupSubset(Evict(st, i, v.clients2), i, protocol, clients, verdict);
        EvictSubset(st, i, v.clients2);
      }
    }
  }

  /** The state after UI_InsertServerIntoDisplayList(num, position), and
      what it returns. */
  function InsertSpec(st: Listing, num: int, position: int, hosts: seq<Host>, cfg: Config): (r: (bool, Listing))
    requires WF(st)
    ensures WF(r.1) && |r.1.ds| == |st.ds| && r.1.n <= st.n + 1
  {
    if position < 0 || position > st.n then (false, st)
    else
      var h := HostAt(hosts, num);
      if !ServerInfoIsValid(h.info, h.hostname) then (false, st)
      else Place(Scanned(st, num, hosts, cfg), num, position)
  }

  /** The end of an insertion once the duplicate scan is done: a rejected
      newcomer is not listed; otherwise the listed servers from position on
      move up one slot and the newcomer goes to position, and the code
      reports success whether or not the shift fits. When that shift would
      write past the array, the
      model keeps the listing the scan left (its evictions and counters)
      and stores nothing; `PlaceOverflows` tells that case apart. */
  function Place(scan: Scan, num: int, position: nat): (r: (bool, Listing))
    requires WF(scan.st)
    ensures WF(r.1) && |r.1.ds| == |scan.st.ds| && r.1.n <= scan.st.n + 1
    ensures PlaceOverflows(scan, position) ==> r == (true, scan.st)
  {
    match scan
    case Rejected(st1) => (false, st1)
    case Clear(st1) =>
      if ShiftFits(st1, position) then (true, st1.(ds := ShiftInsert(st1.ds, st1.n, position, num), n := st1.n + 1))
      else (true, st1)
  }

  /** Whether the shift-and-store of an insertion at position stays inside
      the display array, for the count the duplicate scan left: it writes
      slots position .. n + 1, or only slot position when evictions have
      brought the count below it. */
  predicate ShiftFits(st: Listing, position: nat)
  {
    if position <= st.n then st.n + 2 <= |st.ds| else position < |st.ds|
  }

  /** Whether placing after the scan writes past the display array: the
      newcomer was not rejected and its shift does not fit. */
  predicate PlaceOverflows(scan: Scan, position: nat)
  {
    scan.Clear? && !ShiftFits(scan.st, position)
  }

  /** Whether UI_InsertServerIntoDisplayList(num, position) writes past the
      display array: only an insertion that passes the position and info
      checks and is not rejected by the duplicate scan gets to the shift. */
  predicate InsertOverflows(st: Listing, num: int, position: int, hosts: seq<Host>, cfg: Config)
    requires WF(st)
  {
    0 <= position <= st.n && ServerInfoIsValid(HostAt(hosts, num).info, HostAt(hosts, num).hostname)
    && PlaceOverflows(Scanned(st, num, hosts, cfg), position)
  }

  /** With a free slot beyond the one the count reaches, no insertion
      writes past the array, whatever the scan does. */
  lemma RoomMeansNoOverflow(st: Listing, num: int, position: int, hosts: seq<Host>, cfg: Config)
    requires WF(st)
    ensures st.n + 2 <= |st.ds| ==> !InsertOverflows(st, num, position, hosts, cfg)
  {
    if 0 <= position <= st.n && st.n + 2 <= |st.ds| {
      var scan := Scanned(st, num, hosts, cfg);
      assert scan.st.n <= st.n && |scan.st.ds| == |st.ds|;
      assert ShiftFits(scan.st, position);
    }
  }

  /** An insertion that writes past the array got past the scan with no
      slot left after the count, or with the position at the end of a full
      array while evictions lowered the count below it; it leaves the
      listing the scan left: the evictions and the duplicate counters stay,
      the newcomer is not stored. */
  lemma OverflowKeepsScan(st: Listing, num: int, position: int, hosts: seq<Host>, cfg: Config)
    requires WF(st) && InsertOverflows(st, num, position, hosts, cfg)
    ensures Scanned(st, num, hosts, cfg).Clear?
    ensures Scanned(st, num, hosts, cfg).st.n + 2 > |st.ds|
      || (position == st.n == |st.ds| && Scanned(st, num, hosts, cfg).st.n < position)
    ensures InsertSpec(st, num, position, hosts, cfg) == (true, Scanned(st, num, hosts, cfg).st)
  {
    var scan := Scanned(st, num, hosts, cfg);
    assert |scan.st.ds| == |st.ds| && 0 <= position <= st.n <= |st.ds|;
    assert InsertSpec(st, num, position, hosts, cfg) == Place(scan, num, position);
  }

  /** The scan's state once it has run to the end or rejected. */
  function Scanned(st: Listing, num: int, hosts: seq<Host>, cfg: Config): (r: Scan)
    requires WF(st)
  {
    var h := HostAt(hosts, num);
    var k := NewcomerKey(h, cfg);
    Dedup(st, 0, k.protocol, Atoi(h.clients), Verdicts(k, hosts, cfg))
  }

  // ---------------------------------------------------------------------
  //   Properties of insertion
  // ---------------------------------------------------------------------

  /** The clients a listed server counts for when the scan evicts it. */
  function Evicted(v: Verdict): int
  {
    if v.Duplicate? then v.clients2 else 0
  }

  /** The clients the servers of l count for as evicted duplicates. */
  function DupClients(l: seq<int>, verdict: int -> Verdict): int
  {
    if l == [] then 0 else Evicted(verdict(l[0])) + DupClients(l[1..], verdict)
  }

  /** Removing one occurrence of x takes exactly x's part off the total. */
  lemma {:induction false} RemoveFirstDupClients(l: seq<int>, x: int, verdict: int -> Verdict)
    requires x in l
    ensures DupClients(RemoveFirst(l, x), verdict) == DupClients(l, verdict) - Evicted(verdict(x))
    decreases |l|
  {
    if l[0] != x {
      RemoveFirstDupClients(l[1..], x, verdict);
      var t := RemoveFirst(l[1..], x);
      assert RemoveFirst(l, x) == [l[0]] + t;
      assert ([l[0]] + t)[1..] == t;
    }
  }

  /** The listed servers after an eviction at slot i: the old ones less
      the first occurrence of the server in slot i. */
  lemma EvictLive(st: Listing, i: nat, clients2: int)
    requires WF(st) && i < st.n
    ensures Live(Evict(st, i, clients2)) == RemoveFirst(Live(st), st.ds[i]) && st.ds[i] in Live(st)
  {
    assert Live(st)[i] == st.ds[i];
    var counted := st.(dups := st.dups + 1, dupClients := st.dupClients + clients2);
    assert Live(counted) == Live(st);
    RemoveSpecMeaning(counted, st.ds[i]);
  }

  /** Every duplicate the scan meets either removes one incumbent or ends
      the scan with a rejection; the duplicate clients grow by the clients
      of the incumbents removed, and by the newcomer's on a rejection. */
  lemma {:induction false} DedupCounts(st: Listing, i: nat, protocol: int, clients: int, verdict: int -> Verdict)
    requires WF(st) && i <= st.n
    ensures var r := Dedup(st, i, protocol, clients, verdict);
      r.st.dups - st.dups == (st.n - r.st.n) + (if r.Rejected? then 1 else 0)
      && r.st.dupClients - st.dupClients
         == DupClients(Live(st), verdict) - DupClients(Live(r.st), verdict) + (if r.Rejected? then clients else 0)
    decreases st.n - i
  {
    if i < st.n {
      var v := verdict(st.ds[i]);
      if v.Other? {
        DedupCounts(st, i + 1, protocol, clients, verdict);
      } else if protocol < v.protocol2 {
        var e := Evict(st, i, v.clients2);
        DedupCounts(e, i, protocol, clients, verdict);
        EvictLive(st, i, v.clients2);
        RemoveFirstDupClients(Live(st), st.ds[i], verdict);
      }
    }
  }

  /** A scan that neither rejects nor removes leaves the state as it was. */
  lemma {:induction false} DedupUntouched(st: Listing, i: nat, protocol: int, clients: int, verdict: int -> Verdict)
    requires WF(st) && i <= st.n
    ensures var r := Dedup(st, i, protocol, clients, verdict);
      r.Clear? && r.st.n == st.n ==> r.st == st
    decreases st.n - i
  {
    if i < st.n && verdict(st.ds[i]).Other? {
      DedupUntouched(st, i + 1, protocol, clients, verdict);
    }
  }

  /** A rejected newcomer had a duplicate listed whose protocol number is
      at most its own. */
  lemma {:induction false} RejectedHasDuplicate(st: Listing, i: nat, protocol: int, clients: int, verdict: int -> Verdict)
    requires WF(st) && i <= st.n
    ensures Dedup(st, i, protocol, clients, verdict).Rejected? ==>
      exists j :: (0 <= j < st.n && verdict(st.ds[j]).Duplicate? && verdict(st.ds[j]).protocol2 <= protocol)
    decreases st.n - i
  {
    if i == st.n { return; }
    var v := verdict(st.ds[i]);
    if v.Other? {
      RejectedHasDuplicate(st, i + 1, protocol, clients, verdict);
    } else if protocol < v.protocol2 && Dedup(st, i, protocol, clients, verdict).Rejected? {
      var st1 := Evict(st, i, v.clients2);
      RejectedHasDuplicate(st1, i, protocol, clients, verdict);
      var j :| 0 <= j < st1.n && verdict(st1.ds[j]).Duplicate? && verdict(st1.ds[j]).protocol2 <= protocol;
      EvictSubset(st, i, v.clients2);
      assert Live(st1)[j] == st1.ds[j];
      assert st1.ds[j] in multiset(Live(st));
      var m :| 0 <= m < st.n && st.ds[m] == st1.ds[j] by {
        assert st1.ds[j] in Live(st);
      }
    }
  }

  /** After a clear scan over a list of distinct handles, no server left on
      the list is a duplicate of the newcomer. */
  lemma {:induction false} ClearHasNoDuplicate(st: Listing, i: nat, protocol: int, clients: int, verdict: int -> Verdict)
    requires WF(st) && i <= st.n && Distinct(Live(st))
    requires forall j :: 0 <= j < i ==> verdict(Live(st)[j]).Other?
    ensures var r := Dedup(st, i, protocol, clients, verdict);
      r.Clear? ==> forall j :: 0 <= j < r.st.n ==> verdict(Live(r.st)[j]).Other?
    decreases st.n - i
  {
    if i < st.n {
      ScanStepDedup(st, i, protocol, clients, verdict);
      var (st1, next, rejected) := ScanStep(st, i, protocol, clients, verdict);
      if !rejected {
        if next == i {
          EvictKeepsPrefix(st, i, verdict(st.ds[i]).clients2);
        } else {
          assert Live(st)[i] == st.ds[i];
        }
        ClearHasNoDuplicate(st1, next, protocol, clients, verdict);
      }
    }
  }

  /** Evicting the listing at slot i of a list of distinct handles keeps
      the list distinct and the slots before i as they were. */
  lemma EvictKeepsPrefix(st: Listing, i: nat, clients2: int)
    requires WF(st) && i < st.n && Distinct(Live(st))
    ensures var st1 := Evict(st, i, clients2);
      Distinct(Live(st1)) && forall j :: 0 <= j < i ==> Live(st1)[j] == Live(st)[j]
  {
    var counted := st.(dups := st.dups + 1, dupClients := st.dupClients + clients2);
    assert Live(counted) == Live(st);
    RemoveAtDistinct(counted, i);
    var st1 := Evict(st, i, clients2);
    assert Live(st1)[..i] == Live(st)[..i];
  }

  lemma IndexOfDistinct(l: seq<int>, i: nat)
    requires Distinct(l) && i < |l|
    ensures IndexOf(l, l[i]) == i
  {
    var m := IndexOf(l, l[i]);
    assert l[m] == l[i];
  }

  lemma DistinctWithout(l: seq<int>, i: nat)
    requires Distinct(l) && i < |l|
    ensures Distinct(l[..i] + l[i + 1..])
  {
    var r := l[..i] + l[i + 1..];
    forall a, b | 0 <= a < b < |r|
      ensures r[a] != r[b]
    {
      var a' := if a < i then a else a + 1;
      var b' := if b < i then b else b + 1;
      assert r[a] == l[a'] && r[b] == l[b'];
    }
  }

  /** In a list of distinct handles, removing the handle at slot i keeps
      the slots before i, shifts the later ones down by one and keeps the
      list distinct. */
  lemma RemoveAtDistinct(st: Listing, i: nat)
    requires WF(st) && i < st.n && Distinct(Live(st))
    ensures var r := RemoveSpec(st, st.ds[i]);
      Distinct(Live(r)) && Live(r) == Live(st)[..i] + Live(st)[i + 1..]
  {
    var l := Live(st);
    assert l[i] == st.ds[i];
    IndexOfDistinct(l, i);
    RemoveFirstAt(l, st.ds[i]);
    DistinctWithout(l, i);
  }

  /** Rejection and placement: an out-of-range position or invalid info
      leaves the state unchanged and lists nothing, whatever the room; a
      rejected duplicate is not listed; an accepted server that does not
      overflow sits at position with the survivors' prefix before it and
      their tail after it, whenever the position is still within the
      survivors. */
  lemma InsertPlacement(st: Listing, num: int, position: int, hosts: seq<Host>, cfg: Config)
    requires WF(st)
    ensures var r := InsertSpec(st, num, position, hosts, cfg);
      (position < 0 || position > st.n ==> r == (false, st))
      && ((0 <= position <= st.n && !ServerInfoIsValid(HostAt(hosts, num).info, HostAt(hosts, num).hostname))
          ==> r == (false, st))
      && (r.0 ==> 0 <= position <= st.n)
      && (r.0 && !InsertOverflows(st, num, position, hosts, cfg) ==> (
            var st1 := Scanned(st, num, hosts, cfg).st;
            r.1.n == st1.n + 1
            && r.1.ds[position] == num
            && r.1.dups == st1.dups && r.1.dupClients == st1.dupClients
            && (position <= st1.n ==> Live(r.1) == Live(st1)[..position] + [num] + Live(st1)[position..])))
  {
    if 0 <= position <= st.n {
      var h := HostAt(hosts, num);
      if ServerInfoIsValid(h.info, h.hostname) {
        var scan := Scanned(st, num, hosts, cfg);
        assert InsertSpec(st, num, position, hosts, cfg) == Place(scan, num, position);
        PlaceClear(scan, num, position);
      }
    }
  }

  /** Only a clear scan lists the newcomer; when its shift fits, the
      newcomer is at position, one more server than the survivors, with
      their counters. */
  lemma PlaceClear(scan: Scan, num: int, position: nat)
    requires WF(scan.st)
    ensures Place(scan, num, position).0 ==> scan.Clear?
    ensures var r := Place(scan, num, position);
      r.0 && !PlaceOverflows(scan, position) ==> (r.1.n == scan.st.n + 1 && r.1.ds[position] == num
               && r.1.dups == scan.st.dups && r.1.dupClients == scan.st.dupClients
               && (position <= scan.st.n ==> Live(r.1) == Live(scan.st)[..position] + [num] + Live(scan.st)[position..]))
  {
    if scan.Clear? && ShiftFits(scan.st, position) {
      var st1 := scan.st;
      if position <= st1.n {
        ShiftInsertLive(st1.ds, st1.n, position, num);
      }
    }
  }

  // ---------------------------------------------------------------------
  //   UI_BinaryServerInsertion
  // ---------------------------------------------------------------------

  /** The binary search of UI_BinaryServerInsertion from the loop state
      (offset, len, mid, res) over the listed servers l, with cmp standing
      for trap_LAN_CompareServers under the current sort key and direction
      (0 equal, 1 greater, anything else smaller). The result is the
      insertion position and whether it came from an equal comparison. */
  function SearchFrom(l: seq<int>, num: int, cmp: (int, int) -> int, offset: nat, len: nat, mid: nat, res: int): (r: (nat, bool))
    requires offset + len <= |l| && (mid > 0 ==> len >= 1) && (res == 1 ==> offset < |l|)
    ensures r.0 <= |l|
    decreases if mid > 0 then len + 1 else 0
  {
    if mid > 0 then
      var m := len / 2;
      var c := cmp(num, l[offset + m]);
      if c == 0 then (offset + m, true)
      else if c == 1 then SearchFrom(l, num, cmp, offset + m, len - m, m, c)
      else SearchFrom(l, num, cmp, offset, len - m, m, c)
    else
      (if res == 1 then offset + 1 else offset, false)
  }

  function SearchPosition(l: seq<int>, num: int, cmp: (int, int) -> int): (r: (nat, bool))
    ensures r.0 <= |l|
  {
    SearchFrom(l, num, cmp, 0, |l|, |l|, 0)
  }

  /** An equal comparison ends the search at the equal element's own
      index. */
  lemma {:induction false} SearchFromEqual(l: seq<int>, num: int, cmp: (int, int) -> int, offset: nat, len: nat, mid: nat, res: int)
    requires offset + len <= |l| && (mid > 0 ==> len >= 1) && (res == 1 ==> offset < |l|)
    ensures var r := SearchFrom(l, num, cmp, offset, len, mid, res);
      r.1 ==> r.0 < |l| && cmp(num, l[r.0]) == 0
    decreases if mid > 0 then len + 1 else 0
  {
    if mid > 0 {
      var m := len / 2;
      var c := cmp(num, l[offset + m]);
      if c == 1 {
        SearchFromEqual(l, num, cmp, offset + m, len - m, m, c);
      } else if c != 0 {
        SearchFromEqual(l, num, cmp, offset, len - m, m, c);
      }
    }
  }

  /** UI_BinaryServerInsertion's index is within [0, numDisplayServers],
      and an Equal result is the index of a server comparing equal. */
  lemma SearchPositionBounds(l: seq<int>, num: int, cmp: (int, int) -> int)
    ensures var r := SearchPosition(l, num, cmp);
      r.0 <= |l| && (r.1 ==> r.0 < |l| && cmp(num, l[r.0]) == 0)
  {
    SearchFromEqual(l, num, cmp, 0, |l|, |l|, 0);
  }

  function Cmp3(a: int, b: int): int
  {
    if a == b then 0 else if a > b then 1 else -1
  }

  /** The comparator orders handles by a rank: it answers 0, 1 or -1 as
      the newcomer's rank is equal to, above or below the other's. Every
      total preorder on the finitely many handles is of this form. */
  ghost predicate RankedBy(cmp: (int, int) -> int, rank: int -> int)
  {
    forall x, y :: cmp(x, y) == Cmp3(rank(x), rank(y))
  }

  lemma RankedAt(cmp: (int, int) -> int, rank: int -> int, x: int, y: int)
    requires RankedBy(cmp, rank)
    ensures cmp(x, y) == Cmp3(rank(x), rank(y))
  {
  }

  ghost predicate SortedBy(l: seq<int>, rank: int -> int)
  {
    forall i, j :: 0 <= i < j < |l| ==> rank(l[i]) <= rank(l[j])
  }

  ghost predicate Ascending(key: seq<int>)
  {
    forall i, j :: 0 <= i < j < |key| ==> key[i] <= key[j]
  }

  lemma AscendingAround(key: seq<int>, i: nat)
    requires Ascending(key) && i < |key|
    ensures forall k :: 0 <= k < i ==> key[k] <= key[i]
    ensures forall k :: i < k < |key| ==> key[k] >= key[i]
  {
  }

  /** The same search run on the servers' keys against the newcomer's key
      v, for a comparator that compares keys. */
  function KeySearch(key: seq<int>, v: int, offset: nat, len: nat, mid: nat, res: int): (p: nat)
    requires offset + len <= |key| && (mid > 0 ==> len >= 1) && (res == 1 ==> offset < |key|)
    ensures p <= |key|
    decreases if mid > 0 then len + 1 else 0
  {
    if mid > 0 then
      var m := len / 2;
      var c := Cmp3(v, key[offset + m]);
      if c == 0 then offset + m
      else if c == 1 then KeySearch(key, v, offset + m, len - m, m, c)
      else KeySearch(key, v, offset, len - m, m, c)
    else
      if res == 1 then offset + 1 else offset
  }

  /** Where cmp answers as the keys compare, both searches take the same
      path and end at the same position. */
  lemma {:induction false} SearchFromKeys(l: seq<int>, num: int, cmp: (int, int) -> int, key: seq<int>, v: int,
                                          offset: nat, len: nat, mid: nat, res: int)
    requires offset + len <= |l| && (mid > 0 ==> len >= 1) && (res == 1 ==> offset < |l|)
    requires |key| == |l| && forall k :: 0 <= k < |l| ==> cmp(num, l[k]) == Cmp3(v, key[k])
    ensures SearchFrom(l, num, cmp, offset, len, mid, res).0 == KeySearch(key, v, offset, len, mid, res)
    decreases if mid > 0 then len + 1 else 0
  {
    if mid > 0 {
      var m := len / 2;
      var c := cmp(num, l[offset + m]);
      assert c == Cmp3(v, key[offset + m]);
      if c == 1 {
        SearchFromKeys(l, num, cmp, key, v, offset + m, len - m, m, c);
      } else if c != 0 {
        SearchFromKeys(l, num, cmp, key, v, offset, len - m, m, c);
      }
    }
  }

  /** The lower half of the search over ascending keys: keys below v stay
      before offset, and a finished search whose last answer was "greater"
      has the key at offset below v; so every key before the result is at
      most v. */
  lemma {:induction false} KeySearchBelow(key: seq<int>, v: int, offset: nat, len: nat, mid: nat, res: int)
    requires offset + len <= |key| && (mid > 0 ==> len >= 1) && (res == 1 ==> offset < |key|)
    requires Ascending(key)
    requires forall k :: 0 <= k < offset ==> key[k] < v
    requires mid == 0 && res == 1 ==> key[offset] < v
    ensures forall k :: 0 <= k < KeySearch(key, v, offset, len, mid, res) ==> key[k] <= v
    decreases if mid > 0 then len + 1 else 0
  {
    if mid > 0 {
      var m := len / 2;
      var c := Cmp3(v, key[offset + m]);
      if c == 1 {
        AscendingAround(key, offset + m);
        KeySearchBelow(key, v, offset + m, len - m, m, c);
      } else if c != 0 {
        KeySearchBelow(key, v, offset, len - m, m, c);
      }
    }
  }

  /** The upper half: keys above v stay from offset + len on, and a
      finished search whose last answer was not "greater" has no key below
      v from offset on; so every key from the result on is at least v. */
  lemma {:induction false} KeySearchAbove(key: seq<int>, v: int, offset: nat, len: nat, mid: nat, res: int)
    requires offset + len <= |key| && (mid > 0 ==> len >= 1) && (res == 1 ==> offset < |key|)
    requires Ascending(key)
    requires forall k :: offset + len <= k < |key| ==> key[k] > v
    requires mid == 0 ==> len <= 1
    requires mid == 0 && res != 1 ==> forall k :: offset <= k < |key| ==> key[k] > v
    ensures forall k :: KeySearch(key, v, offset, len, mid, res) <= k < |key| ==> key[k] >= v
    decreases if mid > 0 then len + 1 else 0
  {
    if mid > 0 {
      var m := len / 2;
      var c := Cmp3(v, key[offset + m]);
      assert m <= len - m && (m == 0 ==> len == 1);
      if c == 0 {
        AscendingAround(key, offset + m);
      } else if c == 1 {
        KeySearchAbove(key, v, offset + m, len - m, m, c);
      } else {
        AscendingAround(key, offset + m);
        KeySearchAbove(key, v, offset, len - m, m, c);
      }
    }
  }

  /** The keys rank assigns to the listed servers. */
  function Keys(l: seq<int>, rank: int -> int): (key: seq<int>)
    ensures |key| == |l| && forall k :: 0 <= k < |l| ==> key[k] == rank(l[k])
  {
    seq(|l|, k requires 0 <= k < |l| => rank(l[k]))
  }

  lemma KeysOfRanked(l: seq<int>, num: int, cmp: (int, int) -> int, rank: int -> int)
    requires RankedBy(cmp, rank) && SortedBy(l, rank)
    ensures Ascending(Keys(l, rank))
    ensures forall k :: 0 <= k < |l| ==> cmp(num, l[k]) == Cmp3(rank(num), Keys(l, rank)[k])
  {
    forall k | 0 <= k < |l|
      ensures cmp(num, l[k]) == Cmp3(rank(num), Keys(l, rank)[k])
    {
      RankedAt(cmp, rank, num, l[k]);
    }
  }

  /** Under a comparator that orders handles by rank, on a sorted list the
      search lands where everything before ranks at most the newcomer and
      everything from there on ranks at least the newcomer. */
  lemma SearchPositionSplits(l: seq<int>, num: int, cmp: (int, int) -> int, rank: int -> int)
    requires RankedBy(cmp, rank) && SortedBy(l, rank)
    ensures var p := SearchPosition(l, num, cmp).0;
      (forall k :: 0 <= k < p ==> rank(l[k]) <= rank(num))
      && (forall k :: p <= k < |l| ==> rank(l[k]) >= rank(num))
  {
    KeysOfRanked(l, num, cmp, rank);
    var key := Keys(l, rank);
    SearchFromKeys(l, num, cmp, key, rank(num), 0, |l|, |l|, 0);
    KeySearchBelow(key, rank(num), 0, |l|, |l|, 0);
    KeySearchAbove(key, rank(num), 0, |l|, |l|, 0);
  }

  /** Inserting at such a position keeps a sorted list sorted. */
  lemma InsertKeepsSorted(l: seq<int>, p: nat, num: int, rank: int -> int)
    requires p <= |l| && SortedBy(l, rank)
    requires forall k :: 0 <= k < p ==> rank(l[k]) <= rank(num)
    requires forall k :: p <= k < |l| ==> rank(l[k]) >= rank(num)
    ensures SortedBy(l[..p] + [num] + l[p..], rank)
  {
    var r := l[..p] + [num] + l[p..];
    forall i, j | 0 <= i < j < |r|
      ensures rank(r[i]) <= rank(r[j])
    {
      if i < p { assert r[i] == l[i]; }
      if i > p { assert r[i] == l[i - 1]; }
      if j < p { assert r[j] == l[j]; }
      if j > p { assert r[j] == l[j - 1]; }
    }
  }

  /** The state after UI_BinaryServerInsertion(num), and whether the
      server was listed. */
  function BinaryInsertSpec(st: Listing, num: int, cmp: (int, int) -> int, hosts: seq<Host>, cfg: Config): (r: (bool, Listing))
    requires WF(st)
    ensures WF(r.1) && |r.1.ds| == |st.ds| && r.1.n <= st.n + 1
  {
    InsertSpec(st, num, SearchPosition(Live(st), num, cmp).0, hosts, cfg)
  }

  /** Whether UI_BinaryServerInsertion(num) writes past the display array. */
  predicate BinaryInsertOverflows(st: Listing, num: int, cmp: (int, int) -> int, hosts: seq<Host>, cfg: Config)
    requires WF(st)
  {
    InsertOverflows(st, num, SearchPosition(Live(st), num, cmp).0, hosts, cfg)
  }

  /** A server with no duplicate listed is inserted exactly at the
      position when its info is valid and the array has room, and nothing
      else changes; with invalid info, or without room, the listing does
      not change at all. */
  lemma InsertWithoutDuplicates(st: Listing, num: int, position: nat, hosts: seq<Host>, cfg: Config)
    requires WF(st) && position <= st.n
    requires Scanned(st, num, hosts, cfg).Clear? && Scanned(st, num, hosts, cfg).st.n == st.n
    ensures var r := InsertSpec(st, num, position, hosts, cfg);
      r.0 == ServerInfoIsValid(HostAt(hosts, num).info, HostAt(hosts, num).hostname)
      && (!r.0 ==> r.1 == st)
    ensures var r := InsertSpec(st, num, position, hosts, cfg);
      r.0 && st.n + 2 <= |st.ds| ==>
        Live(r.1) == Live(st)[..position] + [num] + Live(st)[position..]
        && r.1.dups == st.dups && r.1.dupClients == st.dupClients
    ensures var r := InsertSpec(st, num, position, hosts, cfg);
      r.0 && st.n + 2 > |st.ds| ==> r.1 == st
  {
    var h := HostAt(hosts, num);
    var k := NewcomerKey(h, cfg);
    DedupUntouched(st, 0, k.protocol, Atoi(h.clients), Verdicts(k, hosts, cfg));
    InsertPlacement(st, num, position, hosts, cfg);
    RoomMeansNoOverflow(st, num, position, hosts, cfg);
  }

  /** A sorted list stays sorted when a server that has no duplicate
      listed is inserted by binary search into an array with room, and it
      grows by exactly that server; with invalid info, or without room,
      the listing does not change. */
  lemma BinaryInsertKeepsSorted(st: Listing, num: int, cmp: (int, int) -> int, rank: int -> int, hosts: seq<Host>, cfg: Config)
    requires WF(st)
    requires RankedBy(cmp, rank) && SortedBy(Live(st), rank)
    requires Scanned(st, num, hosts, cfg).Clear? && Scanned(st, num, hosts, cfg).st.n == st.n
    ensures var r := BinaryInsertSpec(st, num, cmp, hosts, cfg);
      r.0 == ServerInfoIsValid(HostAt(hosts, num).info, HostAt(hosts, num).hostname)
      && (!r.0 ==> r.1 == st)
    ensures var r := BinaryInsertSpec(st, num, cmp, hosts, cfg);
      r.0 && st.n + 2 <= |st.ds| ==>
        SortedBy(Live(r.1), rank) && multiset(Live(r.1)) == multiset(Live(st)) + multiset{num}
        && r.1.dups == st.dups && r.1.dupClients == st.dupClients
    ensures var r := BinaryInsertSpec(st, num, cmp, hosts, cfg);
      r.0 && st.n + 2 > |st.ds| ==> r.1 == st
  {
    var l := Live(st);
    var p := SearchPosition(l, num, cmp).0;
    InsertWithoutDuplicates(st, num, p, hosts, cfg);
    var r := InsertSpec(st, num, p, hosts, cfg);
    if r.0 && st.n + 2 <= |st.ds| {
      SearchPositionSplits(l, num, cmp, rank);
      InsertKeepsSorted(l, p, num, rank);
      SpliceMultiset(l, p, num);
    }
  }

  /** Splicing a server into a list adds exactly that server. */
  lemma SpliceMultiset(l: seq<int>, p: nat, x: int)
    requires p <= |l|
    ensures multiset(l[..p] + [x] + l[p..]) == multiset(l) + multiset{x}
  {
    assert l == l[..p] + l[p..];
  }

  // The example of StaleSlotAfterRemoval: the tagged incumbent A (handle
  // 0, address "x-g") listed alone, and the untagged newcomer B (handle 1,
  // address "x"), compared by handle so that B ranks above A.
  const ExampleHosts: seq<Host> := [Host("", "a", "0", "8", "x-g", 50), Host("", "b", "0", "8", "x", 50)]
  const ExampleConfig: Config := Config(32, (c: char, d: char) => false)
  const ExampleListing: Listing := Listing([0, 0, 0], 1, 0, 0)
  const ExampleCmp: (int, int) -> int := (x: int, y: int) => Cmp3(x, y)

  lemma ExampleAddresses()
    ensures PortFromAddress("x-g") == PortFromAddress("x") == -1
    ensures ProtocolFromAddress("x-g") == 1 && ProtocolFromAddress("x") == 0
    ensures SameUpToPort("x", "x-g")
  {
    NoColonNoPort("x-g");
    NoColonNoPort("x");
    var t := "x-g";
    assert t[1] == '-' && t[..1] == "x" && t[2] == 'g';
    assert '-' !in "x";
  }

  /** In the example, B is a duplicate of A with a lower protocol number. */
  lemma ExampleVerdict()
    ensures Verdicts(NewcomerKey(ExampleHosts[1], ExampleConfig), ExampleHosts, ExampleConfig)(0) == Duplicate(1, 0)
    ensures NewcomerKey(ExampleHosts[1], ExampleConfig).protocol == 0
  {
    var k := NewcomerKey(ExampleHosts[1], ExampleConfig);
    var a := ExampleHosts[0];
    ExampleKey();
    ExampleAddresses();
    assert HostAt(ExampleHosts, 0) == a;
    assert a.address == "x-g" && a.clients == "0";
    assert k.port == PortFromAddress(a.address);
    assert SameUpToPort(k.address, a.address);
    assert IsDuplicate(k, a, ExampleConfig);
    assert Atoi(a.clients) == 0 by { AtoiOfIntToString(0); }
    assert Classify(k, a, ExampleConfig) == Duplicate(1, 0);
  }

  /** B's side of the test: address "x", untagged, no port. */
  lemma ExampleKey()
    ensures var k := NewcomerKey(ExampleHosts[1], ExampleConfig);
      k.address == "x" && k.protocol == 0 && k.port == -1
  {
    ExampleAddresses();
  }

  /** So the scan removes A and comes back clear with an empty list. */
  lemma ExampleScan()
    ensures Scanned(ExampleListing, 1, ExampleHosts, ExampleConfig) == Clear(Listing([0, 0, 0], 0, 1, 0))
  {
    ExampleVerdict();
    var v := Verdicts(NewcomerKey(ExampleHosts[1], ExampleConfig), ExampleHosts, ExampleConfig);
    var st1 := Evict(ExampleListing, 0, 0);
    assert st1 == Listing([0, 0, 0], 0, 1, 0);
    assert Dedup(ExampleListing, 0, 0, 0, v) == Dedup(st1, 0, 0, 0, v);
  }

  lemma ExampleSearch()
    ensures SearchPosition(Live(ExampleListing), 1, ExampleCmp).0 == 1
  {
    assert Live(ExampleListing) == [0];
    assert ExampleCmp(1, 0) == 1;
  }

  /** B's info is valid: its hostname has a graphic character. */
  lemma ExampleValid()
    ensures ServerInfoIsValid(HostAt(ExampleHosts, 1).info, HostAt(ExampleHosts, 1).hostname)
  {
    var b := ExampleHosts[1];
    assert HostAt(ExampleHosts, 1) == b;
    assert b.info == [] && b.hostname == "b";
    assert AllPrintableFrom(b.info, 0);
    assert GraphCount(b.hostname) == 1 by {
      assert b.hostname[..0] == [];
    }
  }

  /** Inserting B at slot 1 succeeds once A is removed, with B stored at
      slot 1 of an array whose count is back to 1. */
  lemma ExampleInsert()
    ensures InsertSpec(ExampleListing, 1, 1, ExampleHosts, ExampleConfig) == (true, Listing([0, 1, 0], 1, 1, 0))
  {
    ExampleValid();
    var scan := Clear(Listing([0, 0, 0], 0, 1, 0));
    calc {
      InsertSpec(ExampleListing, 1, 1, ExampleHosts, ExampleConfig);
      Place(Scanned(ExampleListing, 1, ExampleHosts, ExampleConfig), 1, 1);
      { ExampleScan(); }
      Place(scan, 1, 1);
      (true, Listing(ShiftInsert([0, 0, 0], 0, 1, 1), 1, 1, 0));
      { assert ShiftInsert([0, 0, 0], 0, 1, 1) == [0, 1, 0]; }
      (true, Listing([0, 1, 0], 1, 1, 0));
    }
  }

  /** What a duplicate removal below the insertion position does: in the
      example the search puts B at slot 1; the scan removes A, so position
      1 is past the one remaining slot, and B is stored past the live
      prefix while slot 0 still holds A. The insertion reports success, yet
      the list shows A and not B. */
  lemma StaleSlotAfterRemoval()
    ensures var r := BinaryInsertSpec(ExampleListing, 1, ExampleCmp, ExampleHosts, ExampleConfig);
      SearchPosition(Live(ExampleListing), 1, ExampleCmp).0 == 1
      && r == (true, Listing([0, 1, 0], 1, 1, 0))
      && Live(r.1) == [0]
  {
    ExampleSearch();
    ExampleInsert();
    assert Live(Listing([0, 1, 0], 1, 1, 0)) == [0];
  }

  /** The example with only two slots: before the scan one server is
      listed and a shift would not fit. */
  const SmallListing: Listing := Listing([0, 0], 1, 0, 0)

  /** Yet the scan removes A, as in ExampleScan. */
  lemma SmallScan()
    ensures Scanned(SmallListing, 1, ExampleHosts, ExampleConfig) == Clear(Listing([0, 0], 0, 1, 0))
  {
    ExampleVerdict();
    var v := Verdicts(NewcomerKey(ExampleHosts[1], ExampleConfig), ExampleHosts, ExampleConfig);
    var st1 := Evict(SmallListing, 0, 0);
    assert st1 == Listing([0, 0], 0, 1, 0);
    assert Dedup(SmallListing, 0, 0, 0, v) == Dedup(st1, 0, 0, 0, v);
  }

  /** The search puts B at slot 1 of the two-slot example. */
  lemma SmallSearch()
    ensures SearchPosition(Live(SmallListing), 1, ExampleCmp).0 == 1
  {
    assert Live(SmallListing) == [0];
    assert ExampleCmp(1, 0) == 1;
  }

  /** Inserting B at slot 1 of the two-slot example stores it there. */
  lemma SmallInsert()
    ensures !InsertOverflows(SmallListing, 1, 1, ExampleHosts, ExampleConfig)
    ensures InsertSpec(SmallListing, 1, 1, ExampleHosts, ExampleConfig) == (true, Listing([0, 1], 1, 1, 0))
  {
    var scan := Clear(Listing([0, 0], 0, 1, 0));
    assert !PlaceOverflows(scan, 1);
    assert Scanned(SmallListing, 1, ExampleHosts, ExampleConfig) == scan by { SmallScan(); }
    ExampleValid();
    calc {
      InsertSpec(SmallListing, 1, 1, ExampleHosts, ExampleConfig);
      Place(Scanned(SmallListing, 1, ExampleHosts, ExampleConfig), 1, 1);
      Place(scan, 1, 1);
      (true, Listing(ShiftInsert([0, 0], 0, 1, 1), 1, 1, 0));
      { assert ShiftInsert([0, 0], 0, 1, 1) == [0, 1]; }
      (true, Listing([0, 1], 1, 1, 0));
    }
  }

  /** So the binary insertion stores B at slot 1 and nothing overflows:
      room is judged after the scan, not before it. */
  lemma RoomFreedByScan()
    ensures SmallListing.n + 2 > |SmallListing.ds|
    ensures !BinaryInsertOverflows(SmallListing, 1, ExampleCmp, ExampleHosts, ExampleConfig)
    ensures BinaryInsertSpec(SmallListing, 1, ExampleCmp, ExampleHosts, ExampleConfig)
      == (true, Listing([0, 1], 1, 1, 0))
  {
    SmallSearch();
    SmallInsert();
  }

  /** An address without ':' has no port. */
  lemma NoColonNoPort(adr: string)
    requires adr != [] && ':' !in adr
    ensures PortFromAddress(adr) == -1
  {
    PortFromAddressText(adr);
    var w := BeforeSpace(adr);
    assert forall i :: 0 <= i < |w| ==> w[i] == adr[i];
    assert ':' !in w;
  }

  // ---------------------------------------------------------------------
  //   The display array
  // ---------------------------------------------------------------------

  /** uiInfo.serverStatus's display list: the display array, the count of
      listed servers and the two duplicate counters. */
  class DisplayServers {
    const displayServers: array<int>
    var numDisplayServers: int
    var numDuplicateMultiprotocolServers: int
    var numDuplicateMultiprotocolServerClients: int

    ghost predicate Valid()
      reads this
    {
      0 <= numDisplayServers <= displayServers.Length
    }

    function Listed(): (st: Listing)
      reads this, displayServers
      requires Valid()
      ensures WF(st) && |st.ds| == displayServers.Length
    {
      Listing(displayServers[..], numDisplayServers, numDuplicateMultiprotocolServers,
              numDuplicateMultiprotocolServerClients)
    }

    /** A zero-initialised display array of `capacity` slots. */
    constructor (capacity: nat)
      ensures Valid() && fresh(displayServers)
      ensures Listed() == Listing(seq(capacity, _ => 0), 0, 0, 0)
    {
      displayServers := new int[capacity](_ => 0);
      numDisplayServers, numDuplicateMultiprotocolServers, numDuplicateMultiprotocolServerClients := 0, 0, 0;
    }

    /** UI_RemoveServerFromDisplayList. */
    method RemoveServer(num: int)
      requires Valid()
      modifies this, displayServers
      ensures Valid()
      ensures Listed() == RemoveSpec(old(Listed()), num)
    {
      var i := 0;
      while i < numDisplayServers
        invariant 0 <= i <= numDisplayServers
        invariant num !in displayServers[..i]
      {
        if displayServers[i] == num {
          ghost var before := Listed();
          assert Live(before)[i] == num && num !in Live(before)[..i];
          FirstOccurrence(Live(before), num, i);
          numDisplayServers := numDisplayServers - 1;
          ShiftDown(i);
          return;
        }
        i := i + 1;
      }
      assert displayServers[..i] == Live(Listed());
    }

    /** The shift of a removal at slot i, with the count already lowered:
        slots i .. count - 1 take the values of the slots after them. */
    method ShiftDown(i: int)
      requires 0 <= i <= numDisplayServers < displayServers.Length
      modifies displayServers
      ensures displayServers[..] == old(displayServers[..i] + displayServers[i + 1 .. numDisplayServers + 1]
                                        + displayServers[numDisplayServers..])
    {
      var j := i;
      while j < numDisplayServers
        invariant i <= j <= numDisplayServers
        invariant displayServers[..j] == old(displayServers[..i] + displayServers[i + 1 .. j + 1])
        invariant displayServers[j..] == old(displayServers[j..])
      {
        displayServers[j] := displayServers[j + 1];
        j := j + 1;
        assert displayServers[..j] == displayServers[..j - 1] + [displayServers[j - 1]];
      }
    }

    /** The shift-and-store at the end of an insertion, with the count
        already raised: slots count .. position + 1 take the values of the
        slots before them and num goes to position. */
    method ShiftUp(num: int, position: int)
      requires 0 <= position < displayServers.Length && 1 <= numDisplayServers
      requires position < numDisplayServers ==> numDisplayServers < displayServers.Length
      modifies displayServers
      ensures forall k :: 0 <= k < displayServers.Length && k != position && !(position < k <= numDisplayServers) ==>
        displayServers[k] == old(displayServers[k])
      ensures forall k :: position < k <= numDisplayServers ==> displayServers[k] == old(displayServers[k - 1])
      ensures displayServers[position] == num
    {
      var i := numDisplayServers;
      while i > position
        invariant i <= numDisplayServers && (position <= i || i == numDisplayServers)
        invariant forall k :: 0 <= k < displayServers.Length && !(i < k <= numDisplayServers) ==>
          displayServers[k] == old(displayServers[k])
        invariant forall k :: i < k <= numDisplayServers ==> displayServers[k] == old(displayServers[k - 1])
        decreases i
      {
        displayServers[i] := displayServers[i - 1];
        i := i - 1;
      }
      displayServers[position] := num;
    }

    /** UI_InsertServerIntoDisplayList: the checks on the position and the
        info, then the duplicate scan and the placement. `overflow` tells
        that the shift would have written past the display array, which
        then keeps what the scan left. */
    method InsertServer(num: int, position: int, hosts: seq<Host>, cfg: Config) returns (ok: bool, overflow: bool)
      requires Valid()
      modifies this, displayServers
      ensures Valid()
      ensures (ok, Listed()) == InsertSpec(old(Listed()), num, position, hosts, cfg)
      ensures overflow == InsertOverflows(old(Listed()), num, position, hosts, cfg)
    {
      if position < 0 || position > numDisplayServers {
        return false, false;
      }
      var h := HostAt(hosts, num);
      if !ServerInfoIsValid(h.info, h.hostname) {
        return false, false;
      }
      var k := NewcomerKey(h, cfg);
      ok, overflow := PlaceServer(num, position, k.protocol, Atoi(h.clients), Verdicts(k, hosts, cfg));
    }

    /** The duplicate scan for a newcomer, then, unless it is rejected, the
        shift and the store at position, when they fit in the array. */
    method PlaceServer(num: int, position: int, protocol: int, clients: int, verdict: int -> Verdict)
      returns (ok: bool, overflow: bool)
      requires Valid() && 0 <= position <= numDisplayServers
      modifies this, displayServers
      ensures Valid()
      ensures (ok, Listed()) == Place(Dedup(old(Listed()), 0, protocol, clients, verdict), num, position)
      ensures overflow == PlaceOverflows(Dedup(old(Listed()), 0, protocol, clients, verdict), position)
    {
      var rejected := ScanDuplicates(protocol, clients, verdict);
      if rejected {
        return false, false;
      }
      if !ShiftFits(Listed(), position) {
        return true, true;
      }
      Grow(num, position);
      return true, false;
    }

    /** The count goes up by one, then the shift and the store. */
    method Grow(num: int, position: int)
      requires Valid() && 0 <= position < displayServers.Length
      requires position <= numDisplayServers ==> numDisplayServers + 2 <= displayServers.Length
      modifies this, displayServers
      ensures Valid()
      ensures Listed() == old(Listed()).(ds := ShiftInsert(old(displayServers[..]), old(numDisplayServers), position, num),
                                         n := old(numDisplayServers) + 1)
    {
      ghost var o := displayServers[..];
      numDisplayServers := numDisplayServers + 1;
      ShiftUp(num, position);
      ShiftInsertAt(o, numDisplayServers - 1, position, num);
      assert displayServers[..] == ShiftInsert(o, numDisplayServers - 1, position, num);
    }

    /** The duplicate scan of UI_InsertServerIntoDisplayList for a
        newcomer with the given protocol number and client count, where
        verdict tells the listed handles that are its duplicates: it walks
        the listed servers, evicting the older-protocol listings of the same
        server, and stops at the first one the newcomer loses to. */
    method ScanDuplicates(protocol: int, clients: int, verdict: int -> Verdict) returns (rejected: bool)
      requires Valid()
      modifies this, displayServers
      ensures Valid()
      ensures (if rejected then Rejected(Listed()) else Clear(Listed()))
           == Dedup(old(Listed()), 0, protocol, clients, verdict)
    {
      ghost var st0 := Listed();
      var i := 0;
      while i < numDisplayServers
        invariant Valid() && 0 <= i <= numDisplayServers
        invariant Dedup(Listed(), i, protocol, clients, verdict) == Dedup(st0, 0, protocol, clients, verdict)
        decreases numDisplayServers - i
      {
        var next;
        ghost var before := Listed();
        next, rejected := ScanAt(i, protocol, clients, verdict);
        ScanStepDedup(before, i, protocol, clients, verdict);
        if rejected {
          return;
        }
        i := next;
      }
      return false;
    }

    /** One step of the duplicate scan at slot i: a listing that is not a
        duplicate is passed over, one the newcomer loses to rejects it, and
        one it wins against is evicted, the scan staying at i. */
    method ScanAt(i: int, protocol: int, clients: int, verdict: int -> Verdict) returns (next: int, rejected: bool)
      requires Valid() && 0 <= i < numDisplayServers
      modifies this, displayServers
      ensures Valid()
      ensures ScanStep(old(Listed()), i, protocol, clients, verdict) == (Listed(), next, rejected)
    {
      var v := verdict(displayServers[i]);
      if v.Other? {
        return i + 1, false;
      } else if protocol >= v.protocol2 {
        numDuplicateMultiprotocolServers := numDuplicateMultiprotocolServers + 1;
        numDuplicateMultiprotocolServerClients := numDuplicateMultiprotocolServerClients + clients;
        return i, true;
      } else {
        EvictServer(i, v.clients2);
        return i, false;
      }
    }

    /** The eviction step of the duplicate scan: the duplicate count and
        the evicted listing's clients are added up, and the listing at slot
        i is removed. */
    method EvictServer(i: int, clients2: int)
      requires Valid() && 0 <= i < numDisplayServers
      modifies this, displayServers
      ensures Valid()
      ensures Listed() == Evict(old(Listed()), i, clients2)
    {
      var num := displayServers[i];
      numDuplicateMultiprotocolServers := numDuplicateMultiprotocolServers + 1;
      numDuplicateMultiprotocolServerClients := numDuplicateMultiprotocolServerClients + clients2;
      RemoveServer(num);
    }

    /** The binary search of UI_BinaryServerInsertion over the listed
        servers, which changes nothing: where num goes, and whether a
        server comparing equal was met. */
    method BinarySearch(num: int, cmp: (int, int) -> int) returns (position: nat, equal: bool)
      requires Valid()
      ensures (position, equal) == SearchPosition(displayServers[..numDisplayServers], num, cmp)
    {
      ghost var l := displayServers[..numDisplayServers];
      ghost var target := SearchPosition(l, num, cmp);
      var len: nat := numDisplayServers;
      var mid: nat := len;
      var offset: nat := 0;
      var res := 0;
      while mid > 0
        invariant offset + len <= |l| && (mid > 0 ==> len >= 1) && (res == 1 ==> offset < |l|)
        invariant SearchFrom(l, num, cmp, offset, len, mid, res) == target
        decreases if mid > 0 then len + 1 else 0
      {
        mid := len / 2;
        res := cmp(num, displayServers[offset + mid]);
        assert res == cmp(num, l[offset + mid]);
        if res == 0 {
          return offset + mid, true;
        } else if res == 1 {
          offset := offset + mid;
          len := len - mid;
        } else {
          len := len - mid;
        }
      }
      if res == 1 {
        offset := offset + 1;
      }
      return offset, false;
    }

    /** UI_BinaryServerInsertion. */
    method BinaryServerInsertion(num: int, cmp: (int, int) -> int, hosts: seq<Host>, cfg: Config)
      returns (ok: bool, overflow: bool)
      requires Valid()
      modifies this, displayServers
      ensures Valid()
      ensures (ok, Listed()) == BinaryInsertSpec(old(Listed()), num, cmp, hosts, cfg)
      ensures overflow == BinaryInsertOverflows(old(Listed()), num, cmp, hosts, cfg)
    {
      var position, equal := BinarySearch(num, cmp);
      ok, overflow := InsertServer(num, position, hosts, cfg);
    }
  }
}
