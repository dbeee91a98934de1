/**
  The string helpers the server browser of src/ui/ui_main.c applies to the
  info string, hostname and address the engine reports for a server.
  Strings are the characters of a C string before its terminating NUL.
  Each scanning loop of the source is a recursive function over the index
  it advances; each is paired with a declarative statement of what it
  computes.
 */
module Address {
  import opened Common

  // ---------------------------------------------------------------------
  //   UI_ServerInfoIsValid
  // ---------------------------------------------------------------------

  /** The first loop of UI_ServerInfoIsValid: every character from i on is
      printable. */
  function AllPrintableFrom(info: string, i: nat): bool
    requires i <= |info|
    decreases |info| - i
  {
    if i == |info| then true
    else if !IsPrint(info[i]) then false
    else AllPrintableFrom(info, i + 1)
  }

  lemma {:induction false} AllPrintableFromAll(info: string, i: nat)
    requires i <= |info|
    ensures AllPrintableFrom(info, i) <==> forall k :: i <= k < |info| ==> IsPrint(info[k])
    decreases |info| - i
  {
    if i < |info| && IsPrint(info[i]) {
      AllPrintableFromAll(info, i + 1);
    }
  }

  /** The second loop: how many characters of the hostname are graphic. */
  function GraphCount(h: string): (n: nat)
    ensures n <= |h|
  {
    if h == [] then 0 else GraphCount(h[..|h| - 1]) + (if IsGraph(h[|h| - 1]) then 1 else 0)
  }

  lemma {:induction false} GraphCountPositive(h: string)
    ensures GraphCount(h) > 0 <==> exists k :: 0 <= k < |h| && IsGraph(h[k])
    decreases |h|
  {
    if h != [] {
      var init := h[..|h| - 1];
      GraphCountPositive(init);
      if GraphCount(init) > 0 {
        var k :| 0 <= k < |init| && IsGraph(init[k]);
        assert h[k] == init[k];
      }
      if exists k :: 0 <= k < |h| && IsGraph(h[k]) {
        var k :| 0 <= k < |h| && IsGraph(h[k]);
        if k < |h| - 1 { assert init[k] == h[k]; }
      }
    }
  }

  /** UI_ServerInfoIsValid: the info string is printable throughout and its
      hostname (the value the info string holds for "hostname") has at least
      one graphic character. */
  function ServerInfoIsValid(info: string, hostname: string): (r: bool)
    ensures r ==> hostname != [] && forall k :: 0 <= k < |info| ==> IsPrint(info[k])
  {
    AllPrintableFromAll(info, 0);
    AllPrintableFrom(info, 0) && GraphCount(hostname) > 0
  }

  lemma ServerInfoIsValidMeaning(info: string, hostname: string)
    ensures ServerInfoIsValid(info, hostname) <==> ((forall k :: 0 <= k < |info| ==> IsPrint(info[k]))
      && (exists k :: 0 <= k < |hostname| && IsGraph(hostname[k])))
  {
    AllPrintableFromAll(info, 0);
    GraphCountPositive(hostname);
  }

  // ---------------------------------------------------------------------
  //   UI_SanitiseString
  // ---------------------------------------------------------------------

  /** The loop of UI_SanitiseString from index i with `room` characters of
      output left: a colour code (as the colour predicate `isColor` decides
      on a character and the next one) is skipped whole, an alphanumeric
      character is kept lower-cased, anything else is dropped. */
  function SanitiseFrom(s: string, i: nat, room: int, isColor: (char, char) -> bool): (r: string)
    ensures |r| <= if i < |s| then |s| - i else 0
    decreases |s| - i
  {
    if i >= |s| || room <= 0 then []
    else if isColor(s[i], CharAt(s, i + 1)) then SanitiseFrom(s, i + 2, room, isColor)
    else if IsAlnum(s[i]) then [ToLower(s[i])] + SanitiseFrom(s, i + 1, room - 1, isColor)
    else SanitiseFrom(s, i + 1, room, isColor)
  }

  /** UI_SanitiseString(in, out, len): at most len - 1 characters kept, each
      a digit or a lower-case letter. */
  function Sanitise(s: string, len: int, isColor: (char, char) -> bool): (r: string)
    ensures |r| <= |s|
    ensures len <= 1 ==> r == []
  {
    SanitiseFrom(s, 0, len - 1, isColor)
  }

  lemma {:induction false} SanitiseFromBounds(s: string, i: nat, room: int, isColor: (char, char) -> bool)
    ensures var out := SanitiseFrom(s, i, room, isColor);
      (room <= 0 ==> out == []) && (room > 0 ==> |out| <= room)
      && forall k :: 0 <= k < |out| ==> IsDigit(out[k]) || IsLower(out[k])
    decreases |s| - i
  {
    if i < |s| && room > 0 {
      if isColor(s[i], CharAt(s, i + 1)) {
        SanitiseFromBounds(s, i + 2, room, isColor);
      } else if IsAlnum(s[i]) {
        SanitiseFromBounds(s, i + 1, room - 1, isColor);
      } else {
        SanitiseFromBounds(s, i + 1, room, isColor);
      }
    }
  }

  /** UI_SanitiseString(in, out, len) keeps at most len - 1 characters, each
      a digit or a lower-case letter. */
  lemma SanitiseBounds(s: string, len: int, isColor: (char, char) -> bool)
    ensures |Sanitise(s, len, isColor)| <= if len <= 1 then 0 else len - 1
    ensures forall k :: 0 <= k < |Sanitise(s, len, isColor)| ==> IsDigit(Sanitise(s, len, isColor)[k]) || IsLower(Sanitise(s, len, isColor)[k])
  {
    SanitiseFromBounds(s, 0, len - 1, isColor);
  }

  /** The text with its colour codes removed, scanning from i. */
  function StripColorsFrom(s: string, i: nat, isColor: (char, char) -> bool): string
    decreases |s| - i
  {
    if i >= |s| then []
    else if isColor(s[i], CharAt(s, i + 1)) then StripColorsFrom(s, i + 2, isColor)
    else [s[i]] + StripColorsFrom(s, i + 1, isColor)
  }

  /** The alphanumeric characters of a text, lower-cased. */
  function AlnumLower(s: string): (t: string)
    ensures |t| <= |s|
  {
    if s == [] then []
    else if IsAlnum(s[0]) then [ToLower(s[0])] + AlnumLower(s[1..])
    else AlnumLower(s[1..])
  }

  /** Sanitising is: strip the colour codes, keep the lower-cased
      alphanumerics, and cut to the room left. */
  lemma {:induction false} SanitiseFromIsFilter(s: string, i: nat, room: int, isColor: (char, char) -> bool)
    ensures SanitiseFrom(s, i, room, isColor)
      == (if room <= 0 then [] else Truncate(AlnumLower(StripColorsFrom(s, i, isColor)), room))
    decreases |s| - i
  {
    if i < |s| && room > 0 {
      if isColor(s[i], CharAt(s, i + 1)) {
        SanitiseFromIsFilter(s, i + 2, room, isColor);
      } else {
        var rest := StripColorsFrom(s, i + 1, isColor);
        assert StripColorsFrom(s, i, isColor) == [s[i]] + rest;
        assert ([s[i]] + rest)[1..] == rest;
        if IsAlnum(s[i]) {
          SanitiseFromIsFilter(s, i + 1, room - 1, isColor);
          if room - 1 > 0 {
            var t := AlnumLower(rest);
            if |t| > room - 1 {
              assert ([ToLower(s[i])] + t)[..room] == [ToLower(s[i])] + t[..room - 1];
            }
          }
        } else {
          SanitiseFromIsFilter(s, i + 1, room, isColor);
        }
      }
    }
  }

  /** The whole-string form. */
  lemma SanitiseIsFilter(s: string, len: int, isColor: (char, char) -> bool)
    ensures Sanitise(s, len, isColor)
      == (if len <= 1 then [] else Truncate(AlnumLower(StripColorsFrom(s, 0, isColor)), len - 1))
  {
    SanitiseFromIsFilter(s, 0, len - 1, isColor);
  }

  // ---------------------------------------------------------------------
  //   UI_PortFromAddress
  // ---------------------------------------------------------------------

  /** The address up to its first space: the part the port scan reads. */
  function BeforeSpace(adr: string): (w: string)
    ensures w <= adr && ' ' !in w
    ensures |w| < |adr| ==> adr[|w|] == ' '
  {
    if adr == [] || adr[0] == ' ' then [] else [adr[0]] + BeforeSpace(adr[1..])
  }

  /** The text after the first ':' of the part before the first space,
      empty when there is no such ':'. */
  function PortText(adr: string): string
  {
    var w := BeforeSpace(adr);
    if ':' in w then AfterFirst(w, ':') else []
  }

  function AfterFirst(w: string, c: char): (t: string)
    requires c in w
    ensures |t| < |w| && t == w[|w| - |t|..] && w[|w| - |t| - 1] == c
    ensures c !in w[..|w| - |t| - 1]
  {
    if w[0] == c then w[1..] else AfterFirst(w[1..], c)
  }

  /** The loop of UI_PortFromAddress from index i: the characters it copies
      into portStr, once `found` says a ':' has been passed. */
  function PortScan(adr: string, i: nat, found: bool): (r: string)
    ensures !found && ':' !in adr ==> r == []
    decreases |adr| - i
  {
    if i >= |adr| || adr[i] == ' ' then []
    else if !found then PortScan(adr, i + 1, adr[i] == ':')
    else [adr[i]] + PortScan(adr, i + 1, true)
  }

  lemma {:induction false} PortScanFound(adr: string, i: nat)
    requires i <= |adr|
    ensures PortScan(adr, i, true) == BeforeSpace(adr[i..])
    decreases |adr| - i
  {
    if i < |adr| && adr[i] != ' ' {
      PortScanFound(adr, i + 1);
      assert adr[i..][1..] == adr[i + 1..];
    }
  }

  lemma {:induction false} PortScanIsPortText(adr: string, i: nat)
    requires i <= |adr|
    ensures PortScan(adr, i, false) == PortText(adr[i..])
    decreases |adr| - i
  {
    if i < |adr| && adr[i] != ' ' {
      assert adr[i..][1..] == adr[i + 1..];
      assert BeforeSpace(adr[i..]) == [adr[i]] + BeforeSpace(adr[i + 1..]);
      if adr[i] == ':' {
        PortScanFound(adr, i + 1);
      } else {
        PortScanIsPortText(adr, i + 1);
      }
    }
  }

  /** UI_PortFromAddress: -1 for an empty address or when nothing follows the
      first ':' before the first space (or there is no such ':'); otherwise
      the leading integer of what follows. */
  function PortFromAddress(adr: string): (p: int)
    ensures ':' !in adr ==> p == -1
  {
    if adr == [] then -1
    else
      var portStr := PortScan(adr, 0, false);
      if |portStr| > 0 then Atoi(portStr) else -1
  }

  lemma PortFromAddressText(adr: string)
    ensures adr == [] || PortText(adr) == [] ==> PortFromAddress(adr) == -1
    ensures adr != [] && PortText(adr) != [] ==> PortFromAddress(adr) == Atoi(PortText(adr))
  {
    if adr != [] {
      PortScanIsPortText(adr, 0);
      assert adr[0..] == adr;
    }
  }

  // ---------------------------------------------------------------------
  //   UI_ProtocolFromAddress
  // ---------------------------------------------------------------------

  /** The loop of UI_ProtocolFromAddress from index i: the first '-' that is
      followed by a character decides; "1" means 2, "g" means 1, anything
      else 0. */
  function ProtocolScan(adr: string, i: nat): (p: int)
    ensures 0 <= p <= 2
    decreases |adr| - i
  {
    if i >= |adr| then 0
    else if adr[i] == '-' && i + 1 < |adr| then
      if adr[i + 1] == '1' then 2 else if adr[i + 1] == 'g' then 1 else 0
    else ProtocolScan(adr, i + 1)
  }

  /** Only the address's first '-' can decide, since a later one is never
      reached and a '-' in last position has no character after it. */
  lemma {:induction false} ProtocolScanFirstDash(adr: string, i: nat)
    requires i <= |adr| && '-' !in adr[..i]
    ensures ProtocolScan(adr, i) ==
      if '-' !in adr then 0
      else
        var k := |adr| - |AfterFirst(adr, '-')| - 1;
        if k + 1 == |adr| then 0
        else if adr[k + 1] == '1' then 2 else if adr[k + 1] == 'g' then 1 else 0
    decreases |adr| - i
  {
    if i < |adr| && adr[i] != '-' {
      assert adr[..i + 1] == adr[..i] + [adr[i]];
      ProtocolScanFirstDash(adr, i + 1);
    } else if i == |adr| {
      assert adr[..i] == adr;
    } else {
      var k := |adr| - |AfterFirst(adr, '-')| - 1;
      assert '-' !in adr[..k];
    }
  }

  /** Any '-' with no '-' before it is the one AfterFirst finds. */
  lemma FirstDashUnique(adr: string)
    ensures '-' in adr ==> forall j :: 0 <= j < |adr| && adr[j] == '-' && '-' !in adr[..j] ==>
      j == |adr| - |AfterFirst(adr, '-')| - 1
  {
    if '-' in adr {
      var k := |adr| - |AfterFirst(adr, '-')| - 1;
      forall j | 0 <= j < |adr| && adr[j] == '-' && '-' !in adr[..j]
        ensures j == k
      {
      }
    }
  }

  /** UI_ProtocolFromAddress: 2 when the first '-' of the address is
      followed by '1', 1 when it is followed by 'g', otherwise 0. */
  function ProtocolFromAddress(adr: string): (p: int)
    ensures 0 <= p <= 2
    ensures '-' !in adr ==> p == 0
  {
    ProtocolScanFirstDash(adr, 0);
    if adr == [] then 0 else ProtocolScan(adr, 0)
  }

  lemma ProtocolFromAddressFirstDash(adr: string)
    ensures ProtocolFromAddress(adr) in {0, 1, 2}
    ensures ProtocolFromAddress(adr) == 2 <==>
      exists k :: 0 <= k < |adr| - 1 && adr[k] == '-' && '-' !in adr[..k] && adr[k + 1] == '1'
    ensures ProtocolFromAddress(adr) == 1 <==>
      exists k :: 0 <= k < |adr| - 1 && adr[k] == '-' && '-' !in adr[..k] && adr[k + 1] == 'g'
  {
    ProtocolScanFirstDash(adr, 0);
    FirstDashUnique(adr);
  }

  // ---------------------------------------------------------------------
  //   The address comparison of UI_InsertServerIntoDisplayList
  // ---------------------------------------------------------------------

  /** The loop at j of the comparison: equal characters up to the end of
      either address, stopping with a match after a ':' in the first. */
  function SameUpToPortFrom(a: string, b: string, j: nat): (r: bool)
    ensures a <= b || b <= a ==> r
    decreases |a| - j
  {
    if j >= |a| || j >= |b| then true
    else if a[j] != b[j] then false
    else if a[j] == ':' then true
    else SameUpToPortFrom(a, b, j + 1)
  }

  /** Whether two addresses name the same host as the duplicate check
      decides: the first characters agree (two empty addresses agree too),
      and so does every later position both have, up to and including the
      first ':' of the first address after its first character. */
  function SameUpToPort(a: string, b: string): (r: bool)
    ensures a != [] && b != [] && (a <= b || b <= a) ==> r
  {
    CharAt(a, 0) == CharAt(b, 0) && SameUpToPortFrom(a, b, 1)
  }

  lemma SameUpToPortMeaning(a: string, b: string)
    ensures SameUpToPort(a, b) <==> (CharAt(a, 0) == CharAt(b, 0)
      && forall j :: 1 <= j < |a| && j < |b| && ':' !in a[1..j] ==> a[j] == b[j])
  {
    SameUpToPortCorrect(a, b, 1);
  }

  lemma {:induction false} SameUpToPortCorrect(a: string, b: string, j: nat)
    requires 1 <= j && (j <= |a| ==> ':' !in a[1..j])
    ensures SameUpToPortFrom(a, b, j) <==>
      forall m :: j <= m < |a| && m < |b| && ':' !in a[1..m] ==> a[m] == b[m]
    decreases |a| - j
  {
    if j < |a| && j < |b| && a[j] == b[j] {
      if a[j] == ':' {
        forall m | j < m < |a| && m < |b| ensures ':' in a[1..m] {
          assert a[1..m][j - 1] == ':';
        }
      } else {
        assert a[1..j + 1] == a[1..j] + [a[j]];
        SameUpToPortCorrect(a, b, j + 1);
      }
    }
  }
}
