/**
  The zero-copy JSON scanner of src/qcommon/json.cpp and json.h.

  The scanner never builds a tree: every entry point takes a cursor into a
  read-only buffer and returns another cursor. Here the buffer is `s`, the
  data ends at `|s|` (the C `jsonEnd`), and a cursor is a `Ptr`: `Null` for a
  NULL or `At(pos)` for `json + pos`. The internal helpers work on
  plain indices; like the C code they never read `s` at or past `|s|`.
 */
module Json {
  import opened Common

  /** The JSONTYPE_* enumeration of json.h, in declaration order. */
  datatype JsonType = String | Object | Array | Value | Error

  /** The numeric value of each JSONTYPE_* constant. */
  function TypeCode(t: JsonType): (c: nat)
    ensures c < 5
    ensures c == 4 <==> t == Error
  {
    match t
    case String => 0
    case Object => 1
    case Array => 2
    case Value => 3
    case Error => 4
  }

  datatype Ptr = Null | At(pos: nat)

  predicate IsSeparator(c: char)
  {
    c == ' ' || c == '\t' || c == '\n' || c == '\r' || c == ',' || c == ':'
  }

  predicate IsStructOpen(c: char) { c == '{' || c == '[' }

  predicate IsStructClose(c: char) { c == '}' || c == ']' }

  /** Every character of s[i..j] is a separator. */
  ghost predicate AllSeparators(s: seq<char>, i: nat, j: nat)
    requires i <= j <= |s|
  {
    forall k :: i <= k < j ==> IsSeparator(s[k])
  }

  /** k is the first non-separator at or after i. */
  ghost predicate FirstNonSeparator(s: seq<char>, i: nat, k: nat)
  {
    i <= k < |s| && AllSeparators(s, i, k) && !IsSeparator(s[k])
  }

  /** A position where an array element can start: inside the data, on
      neither a separator nor a closing bracket. */
  predicate ElementStart(s: seq<char>, k: nat)
  {
    k < |s| && !IsSeparator(s[k]) && !IsStructClose(s[k])
  }

  // ---------------------------------------------------------------------
  //   Internal functions
  // ---------------------------------------------------------------------

  /** JSON_SkipSeparators: the first index at or after i that is the end of
      the data or holds a non-separator. */
  function SkipSeparators(s: seq<char>, i: nat): (r: nat)
    ensures i <= |s| ==> i <= r <= |s| && AllSeparators(s, i, r)
    ensures i >= |s| ==> r == i
    ensures r < |s| ==> !IsSeparator(s[r])
    decreases if i <= |s| then |s| - i else 0
  {
    if i < |s| && IsSeparator(s[i]) then SkipSeparators(s, i + 1) else i
  }

  /** The first non-separator is what SkipSeparators stops on. */
  lemma {:induction false} SkipSeparatorsFindsFirst(s: seq<char>, i: nat, k: nat)
    requires FirstNonSeparator(s, i, k)
    ensures SkipSeparators(s, i) == k
    decreases k - i
  {
    if i < k {
      SkipSeparatorsFindsFirst(s, i + 1, k);
    }
  }

  /** The loop of JSON_SkipString, from the character after the opening
      quote: it stops on a quote or at the end, and a backslash makes it step
      over the following character. It can stop one past the end when the
      data ends on a backslash. */
  function SkipStringLoop(s: seq<char>, j: nat): (r: nat)
    requires j <= |s| + 1
    ensures r >= j
    ensures r <= |s| + 1
    ensures r < |s| ==> s[r] == '"'
    decreases |s| + 1 - j
  {
    if j >= |s| then j
    else if s[j] == '"' then j
    else if s[j] == '\\' then SkipStringLoop(s, j + 2)
    else SkipStringLoop(s, j + 1)
  }

  /** JSON_SkipString on the opening quote at i: the index after the closing
      quote, or the end of the data. */
  function SkipString(s: seq<char>, i: nat): (r: nat)
    requires i < |s|
    ensures i < r <= |s|
    ensures r < |s| ==> s[r - 1] == '"' && r - 1 > i
  {
    var j := SkipStringLoop(s, i + 1);
    if j + 1 > |s| then |s| else j + 1
  }

  /** The number of backslashes that immediately precede position k,
      counting none before j0. */
  function BackslashRun(s: seq<char>, j0: nat, k: nat): (n: nat)
    requires j0 <= k <= |s|
    ensures n <= k - j0
    decreases k - j0
  {
    if k > j0 && s[k - 1] == '\\' then 1 + BackslashRun(s, j0, k - 1) else 0
  }

  /** One step of the loop of JSON_SkipString from j, after an even run of
      backslashes: the position it steps to again follows an even run, and a
      character it steps over (the one after a backslash) follows an odd one. */
  lemma EscapeStep(s: seq<char>, j0: nat, j: nat)
    requires j0 <= j < |s| && s[j] != '"' && BackslashRun(s, j0, j) % 2 == 0
    ensures var next := if s[j] == '\\' then j + 2 else j + 1;
      (next <= |s| ==> BackslashRun(s, j0, next) % 2 == 0)
      && (s[j] == '\\' ==> BackslashRun(s, j0, j + 1) % 2 == 1)
  {
    var run := BackslashRun(s, j0, j);
    if s[j] == '\\' {
      assert BackslashRun(s, j0, j + 1) == 1 + run;
      if j + 2 <= |s| {
        if s[j + 1] == '\\' {
          assert BackslashRun(s, j0, j + 2) == 2 + run;
        } else {
          assert BackslashRun(s, j0, j + 2) == 0;
        }
      }
    } else {
      assert BackslashRun(s, j0, j + 1) == 0;
    }
  }

  /** The escape rule of the loop of JSON_SkipString, from a position j
      after an even run of backslashes (counted from j0): the quote it stops
      on follows an even run, and every quote it steps over follows an odd
      one, that is, is escaped. */
  lemma {:induction false} SkipStringLoopEscapes(s: seq<char>, j0: nat, j: nat)
    requires j0 <= j <= |s| + 1
    requires j <= |s| ==> BackslashRun(s, j0, j) % 2 == 0
    ensures var r := SkipStringLoop(s, j);
      (r < |s| ==> BackslashRun(s, j0, r) % 2 == 0)
      && forall k :: j <= k < r && k < |s| && s[k] == '"' ==> BackslashRun(s, j0, k) % 2 == 1
    decreases |s| + 1 - j
  {
    if j < |s| && s[j] != '"' {
      var next := if s[j] == '\\' then j + 2 else j + 1;
      EscapeStep(s, j0, j);
      SkipStringLoopEscapes(s, j0, next);
      var r := SkipStringLoop(s, next);
      assert SkipStringLoop(s, j) == r;
      forall k | j <= k < r && k < |s| && s[k] == '"'
        ensures BackslashRun(s, j0, k) % 2 == 1
      {
        if k < next {
          assert k == j + 1 && s[j] == '\\';
        }
      }
    }
  }

  /** JSON_SkipString ends the string at its first unescaped quote: no
      quote before the end index follows an even run of backslashes except
      the closing one just before it, and the string is closed by such a
      quote unless it runs to the end of the data. */
  lemma SkipStringEscapes(s: seq<char>, i: nat)
    requires i < |s|
    ensures var r := SkipString(s, i);
      (forall k :: i < k < r && s[k] == '"' && BackslashRun(s, i + 1, k) % 2 == 0 ==> k == r - 1)
      && (r < |s| ==> s[r - 1] == '"' && BackslashRun(s, i + 1, r - 1) % 2 == 0)
  {
    SkipStringLoopEscapes(s, i + 1, i + 1);
  }

  /** The while loop of JSON_SkipValue for a bare value (number, true, ...):
      up to the next separator or closing bracket. */
  function SkipBare(s: seq<char>, i: nat): (r: nat)
    requires i <= |s|
    ensures i <= r <= |s|
    ensures forall k :: i <= k < r ==> !IsSeparator(s[k]) && !IsStructClose(s[k])
    ensures r < |s| ==> IsSeparator(s[r]) || IsStructClose(s[r])
    decreases |s| - i
  {
    if i < |s| && !IsSeparator(s[i]) && !IsStructClose(s[i]) then SkipBare(s, i + 1) else i
  }

  /** JSON_SkipValue: skips one value. At or past the end it answers the end;
      on a separator or a closing bracket it does not move. */
  function SkipValue(s: seq<char>, i: nat): (r: nat)
    ensures i <= |s| ==> i <= r <= |s|
    ensures i >= |s| ==> r == |s|
    ensures ElementStart(s, i) ==> i < r
    decreases if i <= |s| then |s| - i else 0, 1
  {
    if i >= |s| then |s|
    else if s[i] == '"' then SkipString(s, i)
    else if IsStructOpen(s[i]) then SkipStruct(s, i)
    else SkipBare(s, i)
  }

  /** JSON_SkipStruct on the opening bracket at i: the index after the
      matching close, or the end of the data. Brackets are not checked to
      match: any close ends any struct. */
  function SkipStruct(s: seq<char>, i: nat): (r: nat)
    requires i < |s|
    ensures i < r <= |s|
    decreases |s| - i, 0
  {
    var j := SkipStructLoop(s, SkipSeparators(s, i + 1));
    if j + 1 > |s| then |s| else j + 1
  }

  /** The while loop of JSON_SkipStruct. Each step skips a value and the
      separators after it; since j is never on a separator, each step
      advances, which is why the mutual recursion ends. */
  function SkipStructLoop(s: seq<char>, j: nat): (r: nat)
    requires j <= |s| && (j < |s| ==> !IsSeparator(s[j]))
    ensures j <= r <= |s|
    ensures r < |s| ==> IsStructClose(s[r])
    decreases |s| - j, 2
  {
    if j < |s| && !IsStructClose(s[j]) then
      SkipStructLoop(s, SkipSeparators(s, SkipValue(s, j)))
    else j
  }

  /** JSON_SkipValueAndSeparators. */
  function SkipValueAndSeparators(s: seq<char>, i: nat): (r: nat)
    ensures i <= |s| ==> i <= r <= |s|
    ensures r < |s| ==> !IsSeparator(s[r])
    ensures ElementStart(s, i) ==> i < r
  {
    SkipSeparators(s, SkipValue(s, i))
  }

  /** JSON_NoParse: 1 for no data, `f…` or `n…`; 2 for `t…`; 0 when the
      value needs real parsing. */
  function NoParse(s: seq<char>, p: Ptr): (r: nat)
    ensures r <= 2
    ensures r == 1 <==> p.Null? || p.pos >= |s| || s[p.pos] == 'f' || s[p.pos] == 'n'
    ensures r == 2 <==> p.At? && p.pos < |s| && s[p.pos] == 't'
  {
    if p.Null? || p.pos >= |s| || s[p.pos] == 'f' || s[p.pos] == 'n' then 1
    else if s[p.pos] == 't' then 2
    else 0
  }

  // ---------------------------------------------------------------------
  //   Array functions
  // ---------------------------------------------------------------------

  /** JSON_ArrayGetFirstValue: on an opening bracket, the first element;
      NULL for a NULL or out-of-data cursor, a non-struct, or an empty
      struct. */
  function ArrayGetFirstValue(s: seq<char>, p: Ptr): (r: Ptr)
    ensures r.At? ==> (p.At? && p.pos < |s| && IsStructOpen(s[p.pos])
      && FirstNonSeparator(s, p.pos + 1, r.pos) && ElementStart(s, r.pos))
    ensures r.Null? && p.At? && p.pos < |s| && IsStructOpen(s[p.pos]) ==>
      (forall k: nat :: FirstNonSeparator(s, p.pos + 1, k) ==> IsStructClose(s[k]))
  {
    if p.Null? || p.pos >= |s| || !IsStructOpen(s[p.pos]) then Null
    else
      var j := SkipSeparators(s, p.pos + 1);
      if j >= |s| || IsStructClose(s[j]) then Null
      else
        assert FirstNonSeparator(s, p.pos + 1, j);
        At(j)
  }

  /** JSON_ArrayGetNextValue: skips the value at the cursor and the
      separators after it; NULL when that lands on a closing bracket or at the
      end, or when the cursor is NULL, out of data or on a close itself. */
  function ArrayGetNextValue(s: seq<char>, p: Ptr): (r: Ptr)
    ensures r.At? ==> (p.At? && p.pos < r.pos && ElementStart(s, r.pos)
      && FirstNonSeparator(s, SkipValue(s, p.pos), r.pos))
    ensures r.Null? && p.At? && p.pos < |s| && !IsStructClose(s[p.pos]) ==>
      (forall k: nat :: FirstNonSeparator(s, SkipValue(s, p.pos), k) ==> IsStructClose(s[k]))
  {
    if p.Null? || p.pos >= |s| || IsStructClose(s[p.pos]) then Null
    else
      var j := SkipValueAndSeparators(s, p.pos);
      if j >= |s| || IsStructClose(s[j]) then Null
      else
        assert FirstNonSeparator(s, SkipValue(s, p.pos), j);
        At(j)
  }

  /** The cursors a First/Next iteration visits, starting at p. */
  function ElementsFrom(s: seq<char>, p: Ptr): (e: seq<nat>)
    requires p.Null? || ElementStart(s, p.pos)
    ensures p.At? ==> e != [] && e[0] == p.pos
    ensures p.Null? ==> e == []
    decreases if p.At? then |s| - p.pos + 1 else 0
  {
    if p.Null? then []
    else [p.pos] + ElementsFrom(s, ArrayGetNextValue(s, p))
  }

  /** The iteration visits element starts only, each further on than the
      one before, and none before its starting cursor. */
  lemma {:induction false} ElementsFromOrdered(s: seq<char>, p: Ptr)
    requires p.Null? || ElementStart(s, p.pos)
    ensures forall k :: 0 <= k < |ElementsFrom(s, p)| ==> ElementStart(s, ElementsFrom(s, p)[k])
    ensures forall i, j :: 0 <= i < j < |ElementsFrom(s, p)| ==> ElementsFrom(s, p)[i] < ElementsFrom(s, p)[j]
    ensures p.At? ==> forall k :: 0 <= k < |ElementsFrom(s, p)| ==> p.pos <= ElementsFrom(s, p)[k]
    decreases if p.At? then |s| - p.pos + 1 else 0
  {
    if p.At? {
      var n := ArrayGetNextValue(s, p);
      ElementsFromOrdered(s, n);
      var rest := ElementsFrom(s, n);
      var e := ElementsFrom(s, p);
      assert e == [p.pos] + rest;
      assert forall k :: 1 <= k < |e| ==> e[k] == rest[k - 1] && p.pos < e[k];
    }
  }

  /** The elements of the array (or object) at p, as the iteration
      `for (v = First(p); v; v = Next(v))` visits them. */
  function Elements(s: seq<char>, p: Ptr): seq<nat>
  {
    ElementsFrom(s, ArrayGetFirstValue(s, p))
  }

  /** The elements are element starts in strictly increasing order; only
      a cursor on an opening bracket has any, and the first one is the first
      non-separator after the bracket. */
  lemma ElementsMeaning(s: seq<char>, p: Ptr)
    ensures forall k :: 0 <= k < |Elements(s, p)| ==> ElementStart(s, Elements(s, p)[k])
    ensures forall i, j :: 0 <= i < j < |Elements(s, p)| ==> Elements(s, p)[i] < Elements(s, p)[j]
    ensures Elements(s, p) != [] ==>
      p.At? && p.pos < |s| && IsStructOpen(s[p.pos]) && FirstNonSeparator(s, p.pos + 1, Elements(s, p)[0])
    ensures (p.Null? || p.pos >= |s| || !IsStructOpen(s[p.pos])) ==> Elements(s, p) == []
  {
    var first := ArrayGetFirstValue(s, p);
    ElementsFromOrdered(s, first);
    assert Elements(s, p) == ElementsFrom(s, first);
  }

  /** One step of the iteration consumes one element of the list. */
  lemma ElementsStep(s: seq<char>, all: seq<nat>, i: nat, q: Ptr)
    requires q.At? && ElementStart(s, q.pos)
    requires i <= |all| && all[i..] == ElementsFrom(s, q)
    ensures i < |all| && all[i] == q.pos
    ensures all[i + 1..] == ElementsFrom(s, ArrayGetNextValue(s, q))
  {
    assert all[i + 1..] == all[i..][1..];
  }

  /** Stores the cursor of element `length` into `indexes`, extending the
      stored prefix by one and leaving the other slots as they were. */
  method StoreIndex(indexes: array<nat>, ghost all: seq<nat>, numIndexes: nat, length: nat, v: nat,
                    ghost init: seq<nat>)
    requires length < numIndexes <= indexes.Length == |init| && length < |all| && v == all[length]
    requires forall k :: 0 <= k < indexes.Length && k < numIndexes && k < length ==> indexes[k] == all[k]
    requires forall k :: 0 <= k < indexes.Length && !(k < numIndexes && k < length) ==> indexes[k] == init[k]
    modifies indexes
    ensures forall k :: 0 <= k < indexes.Length && k < numIndexes && k < length + 1 ==> indexes[k] == all[k]
    ensures forall k :: 0 <= k < indexes.Length && !(k < numIndexes && k < length + 1) ==> indexes[k] == init[k]
  {
    indexes[length] := v;
  }

  /** JSON_ArrayGetIndex: counts the elements and stores the first
      numIndexes cursors into `indexes` (nothing when it is NULL). */
  method ArrayGetIndex(s: seq<char>, p: Ptr, indexes: array?<nat>, numIndexes: nat)
    returns (length: nat)
    requires indexes != null ==> numIndexes <= indexes.Length
    modifies indexes
    ensures length == |Elements(s, p)|
    ensures indexes != null ==> forall k :: 0 <= k < indexes.Length && k < numIndexes && k < length ==>
      indexes[k] == Elements(s, p)[k]
    ensures indexes != null ==> forall k :: 0 <= k < indexes.Length && !(k < numIndexes && k < length) ==>
      indexes[k] == old(indexes[k])
  {
    ghost var all := Elements(s, p);
    ghost var init := if indexes != null then indexes[..] else [];
    var json := ArrayGetFirstValue(s, p);
    var left := numIndexes;
    length := 0;
    while json.At?
      invariant json.Null? || ElementStart(s, json.pos)
      invariant length <= |all| && all[length..] == ElementsFrom(s, json)
      invariant indexes != null ==> left == if numIndexes > length then numIndexes - length else 0
      invariant indexes != null ==> |init| == indexes.Length
      invariant indexes != null ==> forall k :: 0 <= k < indexes.Length && k < numIndexes && k < length ==>
        indexes[k] == all[k]
      invariant indexes != null ==> forall k :: 0 <= k < indexes.Length && !(k < numIndexes && k < length) ==>
        indexes[k] == init[k]
      decreases if json.At? then |s| - json.pos + 1 else 0
    {
      ElementsStep(s, all, length, json);
      if indexes != null && left > 0 {
        StoreIndex(indexes, all, numIndexes, length, json.pos, init);
        left := left - 1;
      }
      length := length + 1;
      json := ArrayGetNextValue(s, json);
    }
  }

  /** JSON_ArrayGetValue: the index-th element of the iteration, NULL when
      there are not that many. */
  method ArrayGetValue(s: seq<char>, p: Ptr, index: nat) returns (r: Ptr)
    ensures index < |Elements(s, p)| ==> r == At(Elements(s, p)[index])
    ensures index >= |Elements(s, p)| ==> r.Null?
  {
    ghost var all := Elements(s, p);
    ghost var seen: nat := 0;
    var json := ArrayGetFirstValue(s, p);
    var left := index;
    while json.At? && left > 0
      invariant json.Null? || ElementStart(s, json.pos)
      invariant seen <= |all| && all[seen..] == ElementsFrom(s, json)
      invariant seen + left == index
      decreases left
    {
      ElementsStep(s, all, seen, json);
      left := left - 1;
      seen := seen + 1;
      json := ArrayGetNextValue(s, json);
    }
    if json.At? {
      ElementsStep(s, all, seen, json);
    }
    r := json;
  }

  // ---------------------------------------------------------------------
  //   Object functions
  // ---------------------------------------------------------------------

  /** Whether the quoted key at j is `name`, as the lookup decides: the text
      from after the opening quote to before the index SkipString stops at
      (so an unterminated key loses its last character) has the name's
      length and characters. Escapes are not decoded. A lone quote as the
      last character gives the length -1, which as an unsigned int matches
      no name that fits in memory. */
  predicate KeyMatches(s: seq<char>, j: nat, name: seq<char>)
    requires j < |s|
    ensures KeyMatches(s, j, name) ==> j + 1 + |name| < |s| && s[j + 1 .. j + 1 + |name|] == name
  {
    var e := SkipString(s, j);
    j + 2 <= e && s[j + 1 .. e - 1] == name
  }

  /** Where the lookup resumes after the quoted key at j: past the key and
      the separators after it, which is where its value starts. */
  function AfterKey(s: seq<char>, j: nat): (v: nat)
    requires j < |s|
    ensures j < v <= |s|
    ensures v < |s| ==> !IsSeparator(s[v])
  {
    SkipSeparators(s, SkipString(s, j))
  }

  /** The scan loop of JSON_ObjectGetNamedValue from cursor q. */
  function NamedValueFrom(s: seq<char>, q: Ptr, name: seq<char>): (r: Ptr)
    requires q.Null? || ElementStart(s, q.pos)
    ensures q.Null? ==> r.Null?
    ensures r.At? ==> q.pos < r.pos <= |s| && (r.pos < |s| ==> !IsSeparator(s[r.pos]))
    decreases if q.At? then |s| - q.pos + 1 else 0
  {
    if q.Null? then Null
    else if s[q.pos] == '"' then
      var v := AfterKey(s, q.pos);
      if KeyMatches(s, q.pos, name) then At(v)
      else
        var n := ArrayGetNextValue(s, At(v));
        assert n.At? ==> n.pos > q.pos;
        NamedValueFrom(s, n, name)
    else NamedValueFrom(s, ArrayGetNextValue(s, q), name)
  }

  /** The quoted keys the scan from q compares with a name that none of
      them matches: after a key it skips the value that follows. */
  function KeysScanned(s: seq<char>, q: Ptr): (keys: seq<nat>)
    requires q.Null? || ElementStart(s, q.pos)
    ensures forall k :: 0 <= k < |keys| ==> keys[k] < |s| && s[keys[k]] == '"'
    decreases if q.At? then |s| - q.pos + 1 else 0
  {
    if q.Null? then []
    else if s[q.pos] == '"' then
      var n := ArrayGetNextValue(s, At(AfterKey(s, q.pos)));
      assert n.At? ==> n.pos > q.pos;
      [q.pos] + KeysScanned(s, n)
    else KeysScanned(s, ArrayGetNextValue(s, q))
  }

  /** Reference lookup over a list of key positions: the value after the
      first key that matches, Null when none does. */
  function FirstMatch(s: seq<char>, keys: seq<nat>, name: seq<char>): (r: Ptr)
    requires forall k :: 0 <= k < |keys| ==> keys[k] < |s|
    ensures r.Null? <==> forall k :: 0 <= k < |keys| ==> !KeyMatches(s, keys[k], name)
    ensures r.At? ==> exists i :: (0 <= i < |keys| && KeyMatches(s, keys[i], name)
      && r.pos == AfterKey(s, keys[i])
      && (forall k :: 0 <= k < i ==> !KeyMatches(s, keys[k], name)))
  {
    if keys == [] then Null
    else if KeyMatches(s, keys[0], name) then At(AfterKey(s, keys[0]))
    else
      var r := FirstMatch(s, keys[1..], name);
      assert forall k :: 1 <= k < |keys| ==> keys[k] == keys[1..][k - 1];
      if r.At? then
        var i :| 0 <= i < |keys[1..]| && KeyMatches(s, keys[1..][i], name)
          && r.pos == AfterKey(s, keys[1..][i])
          && (forall k :: 0 <= k < i ==> !KeyMatches(s, keys[1..][k], name));
        assert keys[i + 1] == keys[1..][i];
        r
      else r
  }

  /** The lookup answers the value after the FIRST scanned key that
      matches the name, and NULL when none does. */
  lemma {:induction false} NamedValueIsFirstMatch(s: seq<char>, q: Ptr, name: seq<char>)
    requires q.Null? || ElementStart(s, q.pos)
    ensures NamedValueFrom(s, q, name) == FirstMatch(s, KeysScanned(s, q), name)
    decreases if q.At? then |s| - q.pos + 1 else 0
  {
    if q.At? {
      if s[q.pos] == '"' {
        var n := ArrayGetNextValue(s, At(AfterKey(s, q.pos)));
        assert n.At? ==> n.pos > q.pos;
        var keys := KeysScanned(s, q);
        assert keys == [q.pos] + KeysScanned(s, n);
        assert keys[1..] == KeysScanned(s, n);
        if !KeyMatches(s, q.pos, name) {
          NamedValueIsFirstMatch(s, n, name);
        }
      } else {
        NamedValueIsFirstMatch(s, ArrayGetNextValue(s, q), name);
      }
    }
  }

  /** One step of the lookup on a matching key: it answers the cursor
      after the key. */
  lemma NamedValueMatch(s: seq<char>, q: Ptr, name: seq<char>)
    requires q.At? && ElementStart(s, q.pos) && s[q.pos] == '"' && KeyMatches(s, q.pos, name)
    ensures NamedValueFrom(s, q, name) == At(AfterKey(s, q.pos))
  {
  }

  /** One step of the lookup on a key that does not match: the lookup goes
      on from the element after that key's value, which lies further on. */
  lemma NamedValueSkipKey(s: seq<char>, q: Ptr, name: seq<char>)
    requires q.At? && ElementStart(s, q.pos) && s[q.pos] == '"' && !KeyMatches(s, q.pos, name)
    ensures var n := ArrayGetNextValue(s, At(AfterKey(s, q.pos)));
      (n.At? ==> n.pos > q.pos) && NamedValueFrom(s, q, name) == NamedValueFrom(s, n, name)
  {
  }

  /** One step of the lookup on an element that is not a quoted key: the
      lookup goes on from the next element. */
  lemma NamedValueSkipOther(s: seq<char>, q: Ptr, name: seq<char>)
    requires q.At? && ElementStart(s, q.pos) && s[q.pos] != '"'
    ensures var n := ArrayGetNextValue(s, q);
      (n.At? ==> n.pos > q.pos) && NamedValueFrom(s, q, name) == NamedValueFrom(s, n, name)
  {
  }

  /** The length-and-strncmp test of the lookup decides KeyMatches. */
  lemma KeyTest(s: seq<char>, key: nat, name: seq<char>, afterString: nat)
    requires key < |s| && afterString == SkipString(s, key)
    ensures KeyMatches(s, key, name) <==>
      (key + 1 < afterString && afterString - 1 - (key + 1) == |name| && s[key + 1..afterString - 1] == name)
  {
  }

  /** JSON_ObjectGetNamedValue: scans the struct at p for a quoted key
      whose text is `name`, and returns the cursor after that key's
      separators. The name is a C string, so it holds no NUL and the
      length-and-strncmp test is sequence equality. The result is NULL when
      no scanned key matches; when the matching key is the last thing in
      the data it is the end of the data rather than NULL. */
  method ObjectGetNamedValue(s: seq<char>, p: Ptr, name: seq<char>) returns (r: Ptr)
    requires '\0' !in name
    ensures r == NamedValueFrom(s, ArrayGetFirstValue(s, p), name)
    ensures r.At? ==> r.pos <= |s|
  {
    var json := ArrayGetFirstValue(s, p);
    ghost var start := json;
    while json.At?
      invariant json.Null? || ElementStart(s, json.pos)
      invariant NamedValueFrom(s, start, name) == NamedValueFrom(s, json, name)
      decreases if json.At? then |s| - json.pos + 1 else 0
    {
      if s[json.pos] == '"' {
        var key := json.pos;
        var nameStart := key + 1;
        var afterString := SkipString(s, key);
        var v := SkipSeparators(s, afterString);
        assert v == AfterKey(s, key);
        KeyTest(s, key, name, afterString);
        if nameStart < afterString {  // (unsigned)(-1) equals no name length
          var nameEnd := afterString - 1;
          if nameEnd - nameStart == |name| && s[nameStart..nameEnd] == name {
            NamedValueMatch(s, json, name);
            return At(v);
          }
        }
        NamedValueSkipKey(s, json, name);
        json := ArrayGetNextValue(s, At(v));
      } else {
        NamedValueSkipOther(s, json, name);
        json := ArrayGetNextValue(s, json);
      }
    }
    r := Null;
  }
  // ---------------------------------------------------------------------
  //   Value functions
  // ---------------------------------------------------------------------

  /** JSON_ValueGetType: ERROR for a NULL or out-of-data cursor, otherwise
      decided by the first character. */
  function ValueGetType(s: seq<char>, p: Ptr): (t: JsonType)
    ensures t == Error <==> p.Null? || p.pos >= |s|
    ensures t == String <==> p.At? && p.pos < |s| && s[p.pos] == '"'
    ensures t == Object <==> p.At? && p.pos < |s| && s[p.pos] == '{'
    ensures t == Array <==> p.At? && p.pos < |s| && s[p.pos] == '['
  {
    if p.Null? || p.pos >= |s| then Error
    else if s[p.pos] == '"' then String
    else if s[p.pos] == '{' then Object
    else if s[p.pos] == '[' then Array
    else Value
  }

  /** The precondition JSON_ValueGetString places on its cursor: NULL, out
      of data, or on the first character of a value. On a separator or a
      close the C code reads the character before the cursor and can compute
      a negative length. */
  predicate ValueCursor(s: seq<char>, p: Ptr)
  {
    p.Null? || p.pos >= |s| || ElementStart(s, p.pos)
  }

  /** The span JSON_ValueGetString reports: None when out of data (NULL, or
      the value reaches the end of the data), otherwise the value with one
      leading and one trailing quote removed. */
  function StringSpan(s: seq<char>, p: Ptr): (span: Option<(nat, nat)>)
    requires ValueCursor(s, p)
    ensures span.Some? ==> (p.At? && p.pos <= span.value.0 <= span.value.1 < |s|
      && SkipValue(s, p.pos) < |s|)
  {
    if p.Null? then None
    else
      var stringEnd := SkipValue(s, p.pos);
      if stringEnd >= |s| then None
      else
        var start := if s[p.pos] == '"' then p.pos + 1 else p.pos;
        var end := if s[stringEnd - 1] == '"' then stringEnd - 1 else stringEnd;
        Some((start, end))
  }

  /** The copy loop of JSON_ValueGetString: n characters of s from
      `from` into the start of outString, then the terminating NUL. */
  method CopyOut(s: seq<char>, from: nat, n: nat, outString: array<char>)
    requires from + n <= |s| && n < outString.Length
    modifies outString
    ensures outString[..n] == s[from .. from + n]
    ensures outString[n] == '\0'
    ensures outString[n + 1..] == old(outString[n + 1..])
  {
    var json := from;
    var out: nat := 0;
    while out < n
      invariant out <= n && json == from + out
      invariant outString[..out] == s[from .. json]
      invariant outString[out..] == old(outString[out..])
    {
      outString[out] := s[json];
      assert outString[..out + 1] == s[from .. json] + [s[json]] == s[from .. json + 1];
      assert outString[out + 1..] == old(outString[out..])[1..];
      out, json := out + 1, json + 1;
    }
    outString[out] := '\0';
  }

  /** JSON_ValueGetString: copies the unquoted value into outString, cut to
      stringLen - 1 characters and NUL-terminated, and returns the unquoted
      length before the cut (0 when out of data), not counting the NUL. */
  method ValueGetString(s: seq<char>, p: Ptr, outString: array<char>, stringLen: nat)
    returns (length: nat)
    requires ValueCursor(s, p)
    requires 1 <= stringLen <= outString.Length
    modifies outString
    ensures StringSpan(s, p).None? ==>
      (length == 0 && outString[0] == '\0' && outString[1..] == old(outString[1..]))
    ensures StringSpan(s, p).Some? ==> (
      var (start, end) := StringSpan(s, p).value;
      var copied := if stringLen - 1 < end - start then stringLen - 1 else end - start;
      length == end - start
      && outString[..copied] == s[start .. start + copied]
      && outString[copied] == '\0'
      && outString[copied + 1..] == old(outString[copied + 1..]))
  {
    if p.Null? {
      assert StringSpan(s, p).None?;
      outString[0] := '\0';
      return 0;
    }
    var stringStart := p.pos;
    var stringEnd := SkipValue(s, stringStart);
    if stringEnd >= |s| {
      assert StringSpan(s, p).None?;
      outString[0] := '\0';
      return 0;
    }
    if s[stringStart] == '"' {
      stringStart := stringStart + 1;
    }
    if s[stringEnd - 1] == '"' {
      stringEnd := stringEnd - 1;
    }
    assert StringSpan(s, p) == Some((stringStart, stringEnd));
    var n: nat := stringLen - 1;
    if n > stringEnd - stringStart {
      n := stringEnd - stringStart;
    }
    CopyOut(s, stringStart, n, outString);
    length := stringEnd - stringStart;
  }

  /** JSON_ValueGetInt: 0 for false, null or no data, 1 for true, otherwise
      the leading integer of the value's text as copied into a 256-byte
      buffer (0 when that text is empty). `sscanf("%d")` is modelled by the
      leading-integer parse `Atoi`. */
  function ValueGetInt(s: seq<char>, p: Ptr): (v: int)
    requires ValueCursor(s, p)
    ensures NoParse(s, p) == 1 ==> v == 0
    ensures NoParse(s, p) == 2 ==> v == 1
    ensures NoParse(s, p) == 0 && StringSpan(s, p).None? ==> v == 0
  {
    var np := NoParse(s, p);
    if np != 0 then np - 1
    else
      match StringSpan(s, p)
      case None => 0
      case Some((start, end)) =>
        if end == start then 0
        else Atoi(s[start .. start + (if end - start < 255 then end - start else 255)])
  }
}
