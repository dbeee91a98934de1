/**
  The server browser's refresh cycle in src/ui/ui_main.c: the display list
  kept in uiInfo.serverStatus, built from the engine's server registry by
  UI_BuildServerDisplayList and driven by UI_StartServerRefresh,
  UI_DoServerRefresh and UI_StopServerRefresh.

  Every engine query (trap_LAN_*) is an input: the registry is `hosts`,
  trap_LAN_GetServerCount is `count`, trap_LAN_CompareServers is `cmp`,
  trap_LAN_UpdateVisiblePings is `pending`. The engine state the browser
  changes is kept beside the browser's own: the set of servers marked
  invisible, the number of ping resets and the console commands issued.
 */
module Browser {
  import opened Common
  import opened Address
  import opened DisplayList

  /** ui_netSource: AS_LOCAL, AS_MPLAYER, AS_GLOBAL, AS_FAVORITES. */
  datatype NetSource = Local | Mplayer | Global | Favorites

  /** What one call sees of the engine and the browser options:
      ui_browserShowEmpty and ui_browserShowFull as booleans. */
  datatype Env = Env(
    source: NetSource,
    cfg: Config,
    hosts: seq<Host>,
    cmp: (int, int) -> int,
    showEmpty: bool,
    showFull: bool)

  /** The browser's part of uiInfo.serverStatus, the static numinvisible
      of UI_BuildServerDisplayList, and the engine state the browser
      changes. `overflowed` records that an insertion found no slot left
      in the display array: the code does not check for room, and its
      shift would write past uiInfo.serverStatus.displayServers. */
  datatype Status = Status(
    list: Listing,
    players: int,
    invisible: set<int>,
    numinvisible: int,
    refreshActive: bool,
    refreshtime: int,
    nextDisplayRefresh: int,
    motdLen: int,
    motdWidth: int,
    sortKey: int,
    pingResets: nat,
    commands: seq<string>,
    overflowed: bool)

  // ---------------------------------------------------------------------
  //   UI_BuildServerDisplayList
  // ---------------------------------------------------------------------

  /** One pass of the loop of UI_BuildServerDisplayList, for server i. A
      server already marked invisible is skipped, and so is one without a
      positive ping unless the source is the favourites. */
  function BuildStep(s: Status, i: int, env: Env): (r: Status)
    requires WF(s.list)
    ensures WF(r.list) && |r.list.ds| == |s.list.ds| && r.list.n <= s.list.n + 1
    ensures s.overflowed ==> r.overflowed
    ensures !s.overflowed && s.list.n + 2 <= |s.list.ds| ==> !r.overflowed
    ensures r.refreshActive == s.refreshActive && r.refreshtime == s.refreshtime
    ensures r.nextDisplayRefresh == s.nextDisplayRefresh && r.motdLen == s.motdLen
    ensures r.motdWidth == s.motdWidth && r.sortKey == s.sortKey
    ensures r.pingResets == s.pingResets && r.commands == s.commands
  {
    if i in s.invisible then s
    else
      var h := HostAt(env.hosts, i);
      if !(h.ping > 0 || env.source == Favorites) then s
      else TakeStep(s, i, env)
  }

  /** A pass for a server that is not skipped: its clients are counted;
      then it is marked invisible when the filters hide it, and admitted
      otherwise. */
  function TakeStep(s: Status, i: int, env: Env): (r: Status)
    requires WF(s.list)
    ensures WF(r.list) && |r.list.ds| == |s.list.ds| && r.list.n <= s.list.n + 1
    ensures s.overflowed ==> r.overflowed
    ensures !s.overflowed && s.list.n + 2 <= |s.list.ds| ==> !r.overflowed
  {
    var h := HostAt(env.hosts, i);
    if Filtered(h, env) then s.(players := s.players + Atoi(h.clients), invisible := s.invisible + {i})
    else AdmitStep(s, i, env)
  }

  /** The end of a pass for a server the filters let through: it is
      listed, and its clients are counted. */
  function AdmitStep(s: Status, i: int, env: Env): (r: Status)
    requires WF(s.list)
    ensures WF(r.list) && |r.list.ds| == |s.list.ds| && r.list.n <= s.list.n + 1
    ensures s.overflowed ==> r.overflowed
    ensures !s.overflowed && s.list.n + 2 <= |s.list.ds| ==> !r.overflowed
  {
    var listed := ListStep(s, i, env);
    listed.(players := listed.players + Atoi(HostAt(env.hosts, i).clients))
  }

  /** The listing of a server the filters let through: a favourite is
      first removed, so it is never listed twice; the server is inserted
      in sort order; one with a ping is then marked invisible and counted
      in numinvisible. The client count is left alone. The overflow flag
      is set when the insertion gets past its duplicate scan and its shift
      would write past the display array. */
  function ListStep(s: Status, i: int, env: Env): (r: Status)
    requires WF(s.list)
    ensures WF(r.list) && |r.list.ds| == |s.list.ds| && r.list.n <= s.list.n + 1
    ensures r.players == s.players
    ensures var l1 := if env.source == Favorites then RemoveSpec(s.list, i) else s.list;
      r.list == BinaryInsertSpec(l1, i, env.cmp, env.hosts, env.cfg).1
      && (r.overflowed <==> s.overflowed || BinaryInsertOverflows(l1, i, env.cmp, env.hosts, env.cfg))
    ensures !s.overflowed && s.list.n + 2 <= |s.list.ds| ==> !r.overflowed
  {
    var l1 := if env.source == Favorites then RemoveSpec(s.list, i) else s.list;
    RoomMeansNoOverflow(l1, i, SearchPosition(Live(l1), i, env.cmp).0, env.hosts, env.cfg);
    var inserted := ListInserted(s, i, env);
    if HostAt(env.hosts, i).ping > 0
    then inserted.(invisible := inserted.invisible + {i}, numinvisible := inserted.numinvisible + 1)
    else inserted
  }

  /** The first part of ListStep: the removal of a favourite and the
      insertion, with the overflow flag. */
  function ListInserted(s: Status, i: int, env: Env): Status
    requires WF(s.list)
  {
    var l1 := if env.source == Favorites then RemoveSpec(s.list, i) else s.list;
    s.(list := BinaryInsertSpec(l1, i, env.cmp, env.hosts, env.cfg).1,
       overflowed := s.overflowed || BinaryInsertOverflows(l1, i, env.cmp, env.hosts, env.cfg))
  }

  /** Whether the browser filters hide a server: it has no clients and
      ui_browserShowEmpty is off, or it is full and ui_browserShowFull is
      off. */
  predicate Filtered(h: Host, env: Env)
  {
    var clients := Atoi(h.clients);
    (!env.showEmpty && clients == 0) || (!env.showFull && clients == Atoi(h.maxClients))
  }

  /** The loop of UI_BuildServerDisplayList from server i on: it lists at
      most one more server per pass and touches neither the timers, the
      refresh flag, the sort key nor the engine's ping state, and an
      overflow is never forgotten. */
  function BuildLoop(s: Status, i: nat, count: int, env: Env): (r: Status)
    requires WF(s.list)
    ensures WF(r.list) && |r.list.ds| == |s.list.ds|
    ensures r.list.n <= s.list.n + (if i < count then count - i else 0)
    ensures s.overflowed ==> r.overflowed
    ensures r.nextDisplayRefresh == s.nextDisplayRefresh && r.refreshtime == s.refreshtime
    ensures r.refreshActive == s.refreshActive && r.sortKey == s.sortKey
    ensures r.pingResets == s.pingResets && r.commands == s.commands
    ensures r.motdLen == s.motdLen && r.motdWidth == s.motdWidth
    decreases count - i
  {
    if i >= count then s else BuildLoop(BuildStep(s, i, env), i + 1, count, env)
  }

  /** Whether UI_BuildServerDisplayList does anything at realTime. */
  predicate BuildDue(s: Status, force: int, realTime: int)
  {
    force != 0 || realTime > s.nextDisplayRefresh
  }

  /** Whether a build with this force starts the list afresh (2 means
      "do not reset"). */
  predicate Resets(force: int)
  {
    force != 0 && force != 2
  }

  /** The servers below count, from i on, that are not marked invisible:
      the only ones a build can still list. */
  function Unmarked(invisible: set<int>, i: nat, count: int): (u: nat)
    ensures u <= (if i < count then count - i else 0)
    decreases count - i
  {
    if i >= count then 0
    else (if i in invisible then 0 else 1) + Unmarked(invisible, i + 1, count)
  }

  /** Room in the display array that is enough for a build: a slot for
      each server kept and each server the build can still list, and the
      one slot the insertion shift writes past the count. */
  predicate BuildFits(s: Status, force: int, count: int)
  {
    WF(s.list)
    && (if Resets(force) then 0 else s.list.n) + Unmarked(if Resets(force) then {} else s.invisible, 0, count) + 1
       <= |s.list.ds|
  }

  /** Whether the registry is still waiting for the master server. */
  predicate Waiting(count: int, env: Env)
  {
    count == -1 || (env.source == Local && count == 0)
  }

  /** The state after UI_BuildServerDisplayList(force) with the message of
      the day `motd` and the registry holding `count` servers. */
  function BuildSpec(s: Status, force: int, realTime: int, motd: string, count: int, env: Env): (r: Status)
    requires WF(s.list)
    ensures WF(r.list) && |r.list.ds| == |s.list.ds|
    ensures r.list.n <= (if Resets(force) then 0 else s.list.n) + (if count > 0 then count else 0)
    ensures s.overflowed ==> r.overflowed
    ensures r.refreshActive == s.refreshActive && r.sortKey == s.sortKey
    ensures r.pingResets == s.pingResets && r.commands == s.commands
  {
    if !BuildDue(s, force, realTime) then s
    else
      var f := Prepared(s, force, motd);
      if Waiting(count, env) then
        f.(list := f.list.(n := 0, dups := 0, dupClients := 0), players := 0, nextDisplayRefresh := realTime + 500)
      else
        BuildLoop(f, 0, count, env).(refreshtime := realTime)
  }

  /** The start of a due build: the message of the day's length is
      recorded (its width to be measured again when it changed), and a
      resetting build empties the list, the counters and the invisible
      set. */
  function Prepared(s: Status, force: int, motd: string): (r: Status)
    ensures WF(s.list) ==> WF(r.list)
    ensures r.list.ds == s.list.ds && r.motdLen == |motd|
    ensures Resets(force) ==> r.list.n == 0 && r.players == 0 && r.invisible == {}
    ensures !Resets(force) ==> r.list == s.list && r.players == s.players && r.invisible == s.invisible
    ensures r.refreshActive == s.refreshActive && r.overflowed == s.overflowed
  {
    var m := if |motd| != s.motdLen then s.(motdLen := |motd|, motdWidth := -1) else s;
    if Resets(force)
    then m.(numinvisible := 0, list := m.list.(n := 0, dups := 0, dupClients := 0), players := 0, invisible := {})
    else m
  }

  // ---------------------------------------------------------------------
  //   Properties of the build
  // ---------------------------------------------------------------------

  /** The player total the loop adds: the clients of every server from i
      on that was not marked invisible on entry and has a positive ping
      (any server, for favourites). */
  function PlayersFrom(invisible: set<int>, i: nat, count: int, env: Env): int
    decreases count - i
  {
    if i >= count then 0
    else
      var h := HostAt(env.hosts, i);
      (if i !in invisible && (h.ping > 0 || env.source == Favorites) then Atoi(h.clients) else 0)
      + PlayersFrom(invisible, i + 1, count, env)
  }

  /** One pass adds the clients of server i when it is visible and has a
      ping (or is a favourite), and marks at most server i. */
  lemma BuildStepPlayers(s: Status, i: int, env: Env)
    requires WF(s.list)
    ensures var r := BuildStep(s, i, env);
      var h := HostAt(env.hosts, i);
      r.players == s.players + (if i !in s.invisible && (h.ping > 0 || env.source == Favorites) then Atoi(h.clients) else 0)
      && s.invisible <= r.invisible <= s.invisible + {i}
  {
  }

  /** The loop only marks servers it has reached, so a later server's
      visibility is the one it had on entry, and the player total grows by
      PlayersFrom. The servers it marks lie in [i, count). */
  lemma {:induction false} BuildLoopPlayers(s: Status, i: nat, count: int, env: Env)
    requires WF(s.list)
    ensures var r := BuildLoop(s, i, count, env);
      r.players == s.players + PlayersFrom(s.invisible, i, count, env)
      && s.invisible <= r.invisible
      && (forall j :: j in r.invisible && j !in s.invisible ==> i <= j < count)
    decreases count - i
  {
    if i < count {
      var next := BuildStep(s, i, env);
      BuildStepPlayers(s, i, env);
      BuildLoopPlayers(next, i + 1, count, env);
      PlayersFromIgnoresBelow(s.invisible, next.invisible, i + 1, count, env);
    }
  }

  /** PlayersFrom at i only looks at the visibility of servers from i on. */
  lemma {:induction false} PlayersFromIgnoresBelow(a: set<int>, b: set<int>, i: nat, count: int, env: Env)
    requires forall j :: i <= j < count ==> (j in a <==> j in b)
    ensures PlayersFrom(a, i, count, env) == PlayersFrom(b, i, count, env)
    decreases count - i
  {
    if i < count {
      PlayersFromIgnoresBelow(a, b, i + 1, count, env);
    }
  }

  /** A build that is not due changes nothing; a due one that finds the
      registry still waiting for the master empties the list and the
      counters and schedules the next attempt 500 ms later; a forced one
      marks every server visible again. */
  lemma BuildShortcuts(s: Status, force: int, realTime: int, motd: string, count: int, env: Env)
    requires WF(s.list)
    ensures var r := BuildSpec(s, force, realTime, motd, count, env);
      (!BuildDue(s, force, realTime) ==> r == s)
      && (BuildDue(s, force, realTime) && Waiting(count, env) ==>
            r.list.n == 0 && r.list.dups == 0 && r.list.dupClients == 0 && r.players == 0
            && r.nextDisplayRefresh == realTime + 500 && r.refreshtime == s.refreshtime
            && r.list.ds == s.list.ds)
      && (BuildDue(s, force, realTime) && Resets(force) && Waiting(count, env) ==> r.invisible == {})
      && (BuildDue(s, force, realTime) ==>
            (r.motdLen == |motd|
             && (|motd| != s.motdLen ==> r.motdWidth == -1)
             && (|motd| == s.motdLen ==> r.motdWidth == s.motdWidth)))
  {
  }

  /** A due build that finds servers recounts the players from scratch when
      forced: the total is exactly the clients of the servers it reached
      with a positive ping (or, for favourites, of every server), and it
      stamps refreshtime. */
  lemma ForcedBuildCountsPlayers(s: Status, force: int, realTime: int, motd: string, count: int, env: Env)
    requires WF(s.list) && Resets(force) && !Waiting(count, env)
    ensures var r := BuildSpec(s, force, realTime, motd, count, env);
      r.players == PlayersFrom({}, 0, count, env) && r.refreshtime == realTime
      && r.nextDisplayRefresh == s.nextDisplayRefresh
  {
    BuildLoopPlayers(Prepared(s, force, motd), 0, count, env);
  }

  // ---------------------------------------------------------------------
  //   Room in the display array
  // ---------------------------------------------------------------------

  /** A server marked invisible is never listed again, so the loop from i
      on lists at most the unmarked servers, and it overflows only when the
      array lacks a slot for each of them on top of the listed ones, plus
      the slot the shift writes. */
  lemma {:induction false} BuildLoopRoom(s: Status, i: nat, count: int, env: Env)
    requires WF(s.list) && s.list.n + Unmarked(s.invisible, i, count) + 1 <= |s.list.ds|
    ensures var r := BuildLoop(s, i, count, env);
      r.overflowed == s.overflowed && r.list.n <= s.list.n + Unmarked(s.invisible, i, count)
      && s.invisible <= r.invisible
    decreases count - i
  {
    if i < count {
      var next := BuildStep(s, i, env);
      BuildStepPlayers(s, i, env);
      UnmarkedShrinks(s.invisible, next.invisible, i + 1, count);
      BuildLoopRoom(next, i + 1, count, env);
    }
  }

  /** Marking more servers leaves fewer unmarked. */
  lemma {:induction false} UnmarkedShrinks(a: set<int>, b: set<int>, i: nat, count: int)
    requires a <= b
    ensures Unmarked(b, i, count) <= Unmarked(a, i, count)
    decreases count - i
  {
    if i < count {
      UnmarkedShrinks(a, b, i + 1, count);
    }
  }

  /** With nothing marked, every server below count is unmarked. */
  lemma {:induction false} UnmarkedNone(i: nat, count: int)
    ensures Unmarked({}, i, count) == if i < count then count - i else 0
    decreases count - i
  {
    if i < count {
      UnmarkedNone(i + 1, count);
    }
  }

  /** A build with BuildFits room never overflows, and lists at most the
      servers it kept and the unmarked ones. */
  lemma BuildRoom(s: Status, force: int, realTime: int, motd: string, count: int, env: Env)
    requires BuildFits(s, force, count)
    ensures var r := BuildSpec(s, force, realTime, motd, count, env);
      r.overflowed == s.overflowed
      && r.list.n <= (if Resets(force) then 0 else s.list.n) + Unmarked(if Resets(force) then {} else s.invisible, 0, count)
  {
    if BuildDue(s, force, realTime) && !Waiting(count, env) {
      BuildLoopRoom(Prepared(s, force, motd), 0, count, env);
    }
  }

  /** A resetting build has BuildFits room exactly when the array holds a
      slot per registry entry and one more. */
  lemma ResettingBuildFits(s: Status, force: int, count: int)
    requires WF(s.list) && Resets(force)
    ensures BuildFits(s, force, count) <==> (if count > 0 then count else 0) + 1 <= |s.list.ds|
  {
    UnmarkedNone(0, count);
  }

  /** A refresh with RefreshFits room never overflows: its first build
      leaves enough room for the second, since the servers it marks stay
      marked. */
  lemma RefreshRoom(s: Status, realTime: int, pending: bool, motd: string, count: int, env: Env)
    requires RefreshFits(s, count)
    ensures RefreshSpec(s, realTime, pending, motd, count, env).overflowed == s.overflowed
  {
    if s.refreshActive && !(realTime < s.refreshtime && MustWait(count, env)) {
      var s1 := if pending then s.(refreshtime := realTime + 1000)
        else if !MustWait(count, env) then StopSpec(BuildSpec(s, 2, realTime, motd, count, env), count).0
        else s;
      if !pending && !MustWait(count, env) {
        var b := BuildSpec(s, 2, realTime, motd, count, env);
        BuildRoom(s, 2, realTime, motd, count, env);
        if BuildDue(s, 2, realTime) && !Waiting(count, env) {
          BuildLoopRoom(Prepared(s, 2, motd), 0, count, env);
          UnmarkedShrinks(s.invisible, b.invisible, 0, count);
        }
      }
      BuildRoom(s1, 0, realTime, motd, count, env);
    }
  }

  // ---------------------------------------------------------------------
  //   The refresh cycle
  // ---------------------------------------------------------------------

  /** The three numbers UI_StopServerRefresh reports on the console: the
      servers listed, the players on them (duplicate listings' clients
      taken off), and, when positive, the servers not listed. */
  datatype Report = Report(listed: int, players: int, unlisted: Option<int>)

  /** UI_StopServerRefresh: nothing unless a refresh is active; otherwise
      the refresh ends and the totals are reported. */
  function StopSpec(s: Status, count: int): (r: (Status, Option<Report>))
    requires WF(s.list)
    ensures !r.0.refreshActive && r.0.list == s.list && r.0.overflowed == s.overflowed
    ensures r.1.Some? <==> s.refreshActive
    ensures r.0.players == s.players && r.0.invisible == s.invisible
  {
    if !s.refreshActive then (s, None)
    else
      var unlisted := count - s.list.n - s.list.dups;
      (s.(refreshActive := false),
       Some(Report(s.list.n, s.players - s.list.dupClients, if unlisted > 0 then Some(unlisted) else None)))
  }

  /** Stopping ends the refresh and reports exactly when one was active, and
      the servers it reports as not listed are those the registry holds
      beyond the listed ones and the duplicate listings. */
  lemma StopReports(s: Status, count: int)
    requires WF(s.list)
    ensures var (r, report) := StopSpec(s, count);
      !r.refreshActive && r.list == s.list && r.players == s.players
      && (report.Some? <==> s.refreshActive)
      && (report.Some? ==>
            (report.value.listed == s.list.n
             && report.value.players + s.list.dupClients == s.players
             && (report.value.unlisted.Some? <==> count > s.list.n + s.list.dups)
             && (report.value.unlisted.Some? ==> report.value.listed + s.list.dups + report.value.unlisted.value == count)))
  {
  }

  /** UI_UpdatePendingPings. */
  function PendingSpec(s: Status, realTime: int): (r: Status)
    ensures r.refreshActive && r.refreshtime > realTime && r.pingResets == s.pingResets + 1
    ensures r.list == s.list && r.players == s.players && r.invisible == s.invisible
  {
    s.(pingResets := s.pingResets + 1, refreshActive := true, refreshtime := realTime + 1000)
  }

  /** Whether UI_DoServerRefresh must wait for the master server: never
      for favourites, while the count is 0 for the local network, and
      while it is negative otherwise. */
  predicate MustWait(count: int, env: Env)
  {
    env.source != Favorites && (if env.source == Local then count == 0 else count < 0)
  }

  /** Room in the display array that is enough for a refresh: room for
      the two builds one call may run, neither of which resets the list. */
  predicate RefreshFits(s: Status, count: int)
  {
    WF(s.list) && s.list.n + 2 * Unmarked(s.invisible, 0, count) + 1 <= |s.list.ds|
  }

  /** UI_DoServerRefresh. Nothing happens without an active refresh, nor
      before refreshtime while waiting. Otherwise, while pings are pending
      the deadline moves a second on; once they are done and nothing is
      awaited, a non-resetting build picks up the last servers and the
      refresh stops. Then a regular build runs. */
  function RefreshSpec(s: Status, realTime: int, pending: bool, motd: string, count: int, env: Env): (r: Status)
    requires WF(s.list)
    ensures WF(r.list) && |r.list.ds| == |s.list.ds|
    ensures s.overflowed ==> r.overflowed
  {
    if !s.refreshActive then s
    else if realTime < s.refreshtime && MustWait(count, env) then s
    else
      var s1 := if pending then s.(refreshtime := realTime + 1000)
        else if !MustWait(count, env) then StopSpec(BuildSpec(s, 2, realTime, motd, count, env), count).0
        else s;
      BuildSpec(s1, 0, realTime, motd, count, env)
  }

  /** UI_StartServerRefresh: a partial refresh only re-pings; a full one
      also empties the list, marks every server visible, and asks the
      engine for the servers (the local network, or the master for the
      global or mplayer source; favourites need no query), giving the
      answer one second locally and five from a master. */
  function StartSpec(s: Status, full: bool, realTime: int, env: Env): (r: Status)
    ensures r.refreshActive && r.refreshtime > realTime && r.pingResets == s.pingResets + 1
    ensures WF(s.list) ==> WF(r.list)
    ensures !full ==> r.list == s.list && r.commands == s.commands
    ensures full ==> r.list.n == 0 && r.invisible == {} && s.commands <= r.commands
  {
    if !full then PendingSpec(s, realTime)
    else
      var cleared := Cleared(s, realTime);
      if env.source == Local then
        cleared.(commands := s.commands + [LOCAL_QUERY], refreshtime := realTime + 1000)
      else
        var query := if env.source == Global then [GLOBAL_QUERY]
          else if env.source == Mplayer then [MPLAYER_QUERY]
          else [];
        cleared.(commands := s.commands + query, refreshtime := realTime + 5000)
  }

  /** The reset a full refresh starts with: the refresh is active, the
      display list is emptied, every server is visible again and the
      engine's pings are reset. */
  function Cleared(s: Status, realTime: int): (r: Status)
    ensures WF(s.list) ==> WF(r.list)
    ensures r.refreshActive && r.list.ds == s.list.ds && r.list.n == 0 && r.players == 0 && r.invisible == {}
    ensures r.commands == s.commands && r.sortKey == s.sortKey && r.overflowed == s.overflowed
  {
    s.(refreshActive := true, nextDisplayRefresh := realTime + 1000,
       list := s.list.(n := 0, dups := 0, dupClients := 0), players := 0,
       invisible := {}, pingResets := s.pingResets + 1)
  }

  /** The console commands of a full refresh. */
  const LOCAL_QUERY := "localservers\n"
  const GLOBAL_QUERY := "globalservers 0 70 full empty\n"
  const MPLAYER_QUERY := "globalservers 1 70 full empty\n"

  /** The console command a full refresh issues for each source. */
  function MasterQuery(source: NetSource): (r: seq<string>)
    ensures |r| <= 1
    ensures r == [] <==> source == Favorites
  {
    match source
    case Local => [LOCAL_QUERY]
    case Global => [GLOBAL_QUERY]
    case Mplayer => [MPLAYER_QUERY]
    case Favorites => []
  }

  /** A refresh ends only by stopping: once pings are no longer pending and
      the master has answered, an active refresh is over after one call,
      and while pings are pending it stays active. */
  lemma RefreshEnds(s: Status, realTime: int, pending: bool, motd: string, count: int, env: Env)
    requires WF(s.list) && s.refreshActive
    ensures var r := RefreshSpec(s, realTime, pending, motd, count, env);
      (!pending && !MustWait(count, env) ==> !r.refreshActive)
      && (pending && !(realTime < s.refreshtime && MustWait(count, env)) ==> r.refreshActive)
  {
  }

  /** A full refresh starts from an empty list with every server visible,
      issues exactly the engine query its source calls for, and leaves the
      refresh active; a partial one is UI_UpdatePendingPings. */
  lemma StartRefreshes(s: Status, full: bool, realTime: int, env: Env)
    ensures var r := StartSpec(s, full, realTime, env);
      r.refreshActive && r.pingResets == s.pingResets + 1
      && (!full ==> r == PendingSpec(s, realTime))
      && (full ==>
            (r.list.n == 0 && r.players == 0 && r.list.dups == 0 && r.list.dupClients == 0
             && r.invisible == {} && r.nextDisplayRefresh == realTime + 1000
             && r.commands == s.commands + MasterQuery(env.source)
             && r.refreshtime == realTime + (if env.source == Local then 1000 else 5000)))
  {
  }

  // ---------------------------------------------------------------------
  //   UI_ServersSort
  // ---------------------------------------------------------------------

  /** l with x placed before its first element of larger rank. */
  function InsertByRank(x: int, l: seq<int>, rank: int -> int): (r: seq<int>)
    ensures multiset(r) == multiset(l) + multiset{x}
  {
    if l == [] then [x]
    else if rank(x) <= rank(l[0]) then [x] + l
    else
      assert l == [l[0]] + l[1..];
      [l[0]] + InsertByRank(x, l[1..], rank)
  }

  /** The live servers in the order of their rank under the sort column:
      the order qsort leaves them in, up to the order among equals. */
  function SortByRank(l: seq<int>, rank: int -> int): (r: seq<int>)
    ensures multiset(r) == multiset(l) && |r| == |l|
  {
    if l == [] then []
    else
      assert l == [l[0]] + l[1..];
      InsertByRank(l[0], SortByRank(l[1..], rank), rank)
  }

  /** Inserting by rank into a sorted list keeps it sorted. */
  lemma {:induction false} InsertByRankSorted(x: int, l: seq<int>, rank: int -> int)
    requires SortedBy(l, rank)
    ensures SortedBy(InsertByRank(x, l, rank), rank)
    decreases |l|
  {
    if l == [] {
    } else if rank(x) <= rank(l[0]) {
      forall k | 0 <= k < |l|
        ensures rank(x) <= rank(l[k])
      {
        if k > 0 { assert rank(l[0]) <= rank(l[k]); }
      }
      ConsSorted(x, l, rank);
    } else {
      var t := l[1..];
      TailSorted(l, rank);
      InsertByRankSorted(x, t, rank);
      RankedBelowInsert(l[0], x, t, rank);
      ConsSorted(l[0], InsertByRank(x, t, rank), rank);
    }
  }

  /** A sorted list stays sorted under a head that ranks at most all of it. */
  lemma ConsSorted(h: int, l: seq<int>, rank: int -> int)
    requires SortedBy(l, rank)
    requires forall k :: 0 <= k < |l| ==> rank(h) <= rank(l[k])
    ensures SortedBy([h] + l, rank)
  {
    var r := [h] + l;
    forall i, j | 0 <= i < j < |r|
      ensures rank(r[i]) <= rank(r[j])
    {
      assert r[j] == l[j - 1];
      if i > 0 { assert r[i] == l[i - 1]; }
    }
  }

  /** The tail of a sorted list is sorted and ranks at least its head. */
  lemma TailSorted(l: seq<int>, rank: int -> int)
    requires SortedBy(l, rank) && l != []
    ensures SortedBy(l[1..], rank)
    ensures forall k :: 0 <= k < |l[1..]| ==> rank(l[0]) <= rank(l[1..][k])
  {
    var t := l[1..];
    forall i, j | 0 <= i < j < |t|
      ensures rank(t[i]) <= rank(t[j])
    {
      assert t[i] == l[i + 1] && t[j] == l[j + 1];
    }
    forall k | 0 <= k < |t|
      ensures rank(l[0]) <= rank(t[k])
    {
      assert t[k] == l[k + 1];
    }
  }

  /** A bound below x and below every element of t is below every element
      of t with x inserted. */
  lemma RankedBelowInsert(h: int, x: int, t: seq<int>, rank: int -> int)
    requires rank(h) <= rank(x)
    requires forall k :: 0 <= k < |t| ==> rank(h) <= rank(t[k])
    ensures forall k :: 0 <= k < |InsertByRank(x, t, rank)| ==> rank(h) <= rank(InsertByRank(x, t, rank)[k])
  {
    var r := InsertByRank(x, t, rank);
    forall k | 0 <= k < |r|
      ensures rank(h) <= rank(r[k])
    {
      assert r[k] in multiset(r);
      if r[k] != x {
        assert r[k] in t;
        var m :| 0 <= m < |t| && t[m] == r[k];
      }
    }
  }

  /** What UI_ServersSort promises of the live servers: afterwards they are
      in rank order and are the same servers as before. */
  lemma {:induction false} SortByRankSorts(l: seq<int>, rank: int -> int)
    ensures SortedBy(SortByRank(l, rank), rank)
    ensures multiset(SortByRank(l, rank)) == multiset(l)
    decreases |l|
  {
    if l != [] {
      SortByRankSorts(l[1..], rank);
      InsertByRankSorted(l[0], SortByRank(l[1..], rank), rank);
    }
  }

  // ---------------------------------------------------------------------
  //   The browser
  // ---------------------------------------------------------------------

  /** uiInfo.serverStatus and the engine state the refresh cycle changes:
      the display list proper is the DisplayServers object. */
  class ServerBrowser {
    const servers: DisplayServers
    var numPlayersOnServers: int
    var invisible: set<int>
    var numinvisible: int
    var refreshActive: bool
    var refreshtime: int
    var nextDisplayRefresh: int
    var motdLen: int
    var motdWidth: int
    var sortKey: int
    var pingResets: nat
    var commands: seq<string>
    var overflowed: bool

    ghost predicate Valid()
      reads this, servers
    {
      servers.Valid()
    }

    function State(): (s: Status)
      reads this, servers, servers.displayServers
      requires Valid()
      ensures WF(s.list) && |s.list.ds| == servers.displayServers.Length
    {
      Status(servers.Listed(), numPlayersOnServers, invisible, numinvisible, refreshActive, refreshtime,
             nextDisplayRefresh, motdLen, motdWidth, sortKey, pingResets, commands, overflowed)
    }

    /** The zero-initialised uiInfo with a display array of `capacity`
        slots. */
    constructor (capacity: nat)
      ensures Valid() && fresh(servers) && fresh(servers.displayServers)
      ensures State() == Status(Listing(seq(capacity, _ => 0), 0, 0, 0), 0, {}, 0, false, 0, 0, 0, 0, 0, 0, [], false)
    {
      servers := new DisplayServers(capacity);
      numPlayersOnServers, invisible, numinvisible := 0, {}, 0;
      refreshActive, refreshtime, nextDisplayRefresh := false, 0, 0;
      motdLen, motdWidth, sortKey, pingResets, commands := 0, 0, 0, 0, [];
      overflowed := false;
    }

    /** One pass of the loop of UI_BuildServerDisplayList. */
    method BuildServer(i: int, env: Env)
      requires Valid()
      modifies this, servers, servers.displayServers
      ensures Valid()
      ensures State() == BuildStep(old(State()), i, env)
    {
      if i in invisible {
        return;
      }
      var h := HostAt(env.hosts, i);
      if !(h.ping > 0 || env.source == Favorites) {
        return;
      }
      TakeServer(i, env);
    }

    /** A pass for a server that is not skipped. */
    method TakeServer(i: int, env: Env)
      requires Valid()
      modifies this, servers, servers.displayServers
      ensures Valid()
      ensures State() == TakeStep(old(State()), i, env)
    {
      var h := HostAt(env.hosts, i);
      if Filtered(h, env) {
        numPlayersOnServers := numPlayersOnServers + Atoi(h.clients);
        invisible := invisible + {i};
      } else {
        AdmitServer(i, env);
      }
    }

    /** The end of a pass for a server the filters let through. */
    method AdmitServer(i: int, env: Env)
      requires Valid()
      modifies this, servers, servers.displayServers
      ensures Valid()
      ensures State() == AdmitStep(old(State()), i, env)
    {
      ListServer(i, env);
      numPlayersOnServers := numPlayersOnServers + Atoi(HostAt(env.hosts, i).clients);
    }

    /** The listing of a server the filters let through. */
    method ListServer(i: int, env: Env)
      requires Valid()
      modifies this, servers, servers.displayServers
      ensures Valid()
      ensures State() == ListStep(old(State()), i, env)
    {
      InsertListed(i, env);
      if HostAt(env.hosts, i).ping > 0 {
        invisible := invisible + {i};
        numinvisible := numinvisible + 1;
      }
    }

    /** The removal of a favourite and the insertion. */
    method InsertListed(i: int, env: Env)
      requires Valid()
      modifies this, servers, servers.displayServers
      ensures Valid()
      ensures State() == ListInserted(old(State()), i, env)
    {
      ghost var l1 := if env.source == Favorites then RemoveSpec(servers.Listed(), i) else servers.Listed();
      if env.source == Favorites {
        servers.RemoveServer(i);
      }
      assert servers.Listed() == l1;
      var inserted, overflow := servers.BinaryServerInsertion(i, env.cmp, env.hosts, env.cfg);
      if overflow {
        overflowed := true;
      }
    }

    /** The counters a reset or an empty registry clears. */
    method ClearCounts()
      requires Valid()
      modifies this, servers
      ensures Valid()
      ensures State() == old(State()).(list := old(State()).list.(n := 0, dups := 0, dupClients := 0), players := 0)
    {
      servers.numDisplayServers := 0;
      servers.numDuplicateMultiprotocolServers := 0;
      servers.numDuplicateMultiprotocolServerClients := 0;
      numPlayersOnServers := 0;
    }

    /** UI_BuildServerDisplayList. */
    method BuildServerDisplayList(force: int, realTime: int, motd: string, count: int, env: Env)
      requires Valid()
      modifies this, servers, servers.displayServers
      ensures Valid()
      ensures State() == BuildSpec(old(State()), force, realTime, motd, count, env)
    {
      if !(force != 0 || realTime > nextDisplayRefresh) {
        return;
      }
      Prepare(force, motd);
      if count == -1 || (env.source == Local && count == 0) {
        ClearCounts();
        nextDisplayRefresh := realTime + 500;
        return;
      }
      BuildAll(count, env);
      refreshtime := realTime;
    }

    /** The motd bookkeeping and the reset of a due build. */
    method Prepare(force: int, motd: string)
      requires Valid()
      modifies this, servers
      ensures Valid()
      ensures State() == Prepared(old(State()), force, motd)
    {
      if |motd| != motdLen {
        motdLen := |motd|;
        motdWidth := -1;
      }
      if force != 0 && force != 2 {
        numinvisible := 0;
        ClearCounts();
        invisible := {};
      }
    }

    /** The loop of UI_BuildServerDisplayList over the registry. */
    method BuildAll(count: int, env: Env)
      requires Valid()
      modifies this, servers, servers.displayServers
      ensures Valid()
      ensures State() == BuildLoop(old(State()), 0, count, env)
    {
      ghost var f := State();
      var i: nat := 0;
      while i < count
        invariant Valid()
        invariant BuildLoop(State(), i, count, env) == BuildLoop(f, 0, count, env)
        decreases count - i
      {
        BuildServer(i, env);
        i := i + 1;
      }
    }

    /** UI_StopServerRefresh; the report is what it prints. */
    method StopServerRefresh(count: int) returns (report: Option<Report>)
      requires Valid()
      modifies this
      ensures Valid()
      ensures (State(), report) == StopSpec(old(State()), count)
    {
      if !refreshActive {
        return None;
      }
      refreshActive := false;
      var unlisted := count - servers.numDisplayServers - servers.numDuplicateMultiprotocolServers;
      report := Some(Report(servers.numDisplayServers,
                            numPlayersOnServers - servers.numDuplicateMultiprotocolServerClients,
                            if unlisted > 0 then Some(unlisted) else None));
    }

    /** UI_DoServerRefresh. */
    method DoServerRefresh(realTime: int, pending: bool, motd: string, count: int, env: Env)
      requires Valid()
      modifies this, servers, servers.displayServers
      ensures Valid()
      ensures State() == RefreshSpec(old(State()), realTime, pending, motd, count, env)
    {
      if !refreshActive {
        return;
      }
      var wait := false;
      if env.source != Favorites {
        if env.source == Local {
          wait := count == 0;
        } else {
          wait := count < 0;
        }
      }
      if realTime < refreshtime && wait {
        return;
      }
      if pending {
        refreshtime := realTime + 1000;
      } else if !wait {
        BuildServerDisplayList(2, realTime, motd, count, env);
        var report := StopServerRefresh(count);
      }
      BuildServerDisplayList(0, realTime, motd, count, env);
    }

    /** UI_UpdatePendingPings. */
    method UpdatePendingPings(realTime: int)
      requires Valid()
      modifies this
      ensures Valid()
      ensures State() == PendingSpec(old(State()), realTime)
    {
      pingResets := pingResets + 1;
      refreshActive := true;
      refreshtime := realTime + 1000;
    }

    /** The reset at the start of a full refresh. */
    method ClearForRefresh(realTime: int)
      requires Valid()
      modifies this, servers
      ensures Valid()
      ensures State() == Cleared(old(State()), realTime)
    {
      refreshActive, nextDisplayRefresh := true, realTime + 1000;
      ClearCounts();
      invisible, pingResets := {}, pingResets + 1;
    }

    /** UI_StartServerRefresh. */
    method StartServerRefresh(full: bool, realTime: int, env: Env)
      requires Valid()
      modifies this, servers
      ensures Valid()
      ensures State() == StartSpec(old(State()), full, realTime, env)
    {
      if !full {
        UpdatePendingPings(realTime);
        return;
      }
      ClearForRefresh(realTime);
      if env.source == Local {
        commands := commands + [LOCAL_QUERY];
        refreshtime := realTime + 1000;
        return;
      }
      refreshtime := realTime + 5000;
      if env.source == Global || env.source == Mplayer {
        var global := env.source == Global;
        commands := commands + [if global then GLOBAL_QUERY else MPLAYER_QUERY];
      }
    }

    /** UI_ServersSort: nothing when the column is already the sort key and
        the sort is not forced; otherwise the key becomes the column and
        the live servers are sorted in place by their rank under it. */
    method ServersSort(column: int, force: bool, rank: int -> int)
      requires Valid()
      modifies this, servers.displayServers
      ensures Valid()
      ensures !force && old(sortKey) == column ==> State() == old(State())
      ensures force || old(sortKey) != column ==>
        State() == old(State()).(sortKey := column,
                                 list := old(State()).list.(ds := SortByRank(old(Live(State().list)), rank)
                                                                  + old(servers.displayServers[servers.numDisplayServers..])))
    {
      if !force && sortKey == column {
        return;
      }
      sortKey := column;
      var a := servers.displayServers;
      var n := servers.numDisplayServers;
      var sorted := SortByRank(a[..n], rank);
      forall k | 0 <= k < n {
        a[k] := sorted[k];
      }
      assert a[..] == sorted + old(a[n..]);
    }
  }
}
