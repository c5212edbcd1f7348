/** Range and prefix scans over a sorted iterator, and the rewrite of a prefix into a range. */
module Ranges {
  import opened Bytes
  import opened Options

  // ----- C strings

  predicate NulFree(s: Bytes) {
    forall i :: 0 <= i < |s| ==> s[i] != 0
  }

  /** A buffer read as a C string: up to its first NUL. */
  ghost function CString(buf: Bytes): Bytes {
    if buf == [] || buf[0] == 0 then [] else [buf[0]] + CString(buf[1..])
  }

  lemma {:induction false} CStringOf(s: Bytes, tail: Bytes)
    requires NulFree(s) && tail != [] && tail[0] == 0
    ensures CString(s + tail) == s
    decreases |s|
  {
    if s == [] {
      assert s + tail == tail;
    } else {
      assert (s + tail)[1..] == s[1..] + tail;
      CStringOf(s[1..], tail);
    }
  }

  function Lower(b: Byte): Byte {
    if 65 <= b <= 90 then b + 32 else b
  }

  /** Two bytes are the same letter in either case, or the same byte. */
  lemma LowerMerges(a: Byte, b: Byte)
    ensures Lower(a) == Lower(b) <==>
      a == b || (65 <= a <= 90 && b == a + 32) || (65 <= b <= 90 && a == b + 32)
  {}

  /** `kv_key_match_prefix`. */
  predicate Matches(key: Bytes, prefix: Bytes, caseSensitive: bool) {
    && |key| >= |prefix|
    && forall i :: 0 <= i < |prefix| ==>
      if caseSensitive then key[i] == prefix[i] else Lower(key[i]) == Lower(prefix[i])
  }

  /** With case the key begins with the prefix; without, letters 32 apart are the same. */
  lemma MatchesIff(key: Bytes, prefix: Bytes)
    ensures Matches(key, prefix, true) <==> prefix <= key
    ensures Matches(key, prefix, false) <==>
      && |prefix| <= |key|
      && forall i :: 0 <= i < |prefix| ==>
        || key[i] == prefix[i] || (65 <= key[i] <= 90 && prefix[i] == key[i] + 32)
        || (65 <= prefix[i] <= 90 && key[i] == prefix[i] + 32)
  {
    hide Lower;
    forall i | 0 <= i < |prefix| && |prefix| <= |key| {
      LowerMerges(key[i], prefix[i]);
    }
  }

  // ----- the bound above a prefix

  /** The least string above all strings with this prefix, if there is one. */
  ghost function Bump(p: Bytes): Option<Bytes> {
    if p == [] then None
    else
      match Bump(p[1..])
      case Some(q) => Some([p[0]] + q)
      case None => if p[0] < 255 then Some([p[0] + 1]) else None
  }

  /** A key has the prefix exactly if it lies from the prefix up to, but not at, the bound. */
  lemma {:induction false} PrefixIsRange(p: Bytes, k: Bytes)
    ensures Matches(k, p, true) <==> Compare(p, k) <= 0 && (Bump(p).None? || Compare(k, Bump(p).value) < 0)
    decreases |p|
  {
    if p != [] && k != [] {
      PrefixIsRange(p[1..], k[1..]);
      if k[0] == p[0] {
        assert Matches(k[1..], p[1..], true) ==> Matches(k, p, true) by {
          assert forall i :: 0 < i < |k| ==> k[i] == k[1..][i - 1];
          assert forall i :: 0 < i < |p| ==> p[i] == p[1..][i - 1];
        }
        assert Matches(k, p, true) ==> Matches(k[1..], p[1..], true);
      }
      var b := Bump(p);
      if b.Some? && Bump(p[1..]).Some? {
        assert b.value[1..] == Bump(p[1..]).value;
      }
    }
  }

  /** The bound drops the trailing 255s and raises the byte before them. */
  lemma {:induction false} BumpAt(p: Bytes, i: int)
    requires -1 <= i < |p| && (forall j :: i < j < |p| ==> p[j] == 255) && (i >= 0 ==> p[i] < 255)
    ensures Bump(p) == if i < 0 then None else Some(p[..i] + [p[i] + 1])
    decreases |p|
  {
    if p != [] {
      BumpAt(p[1..], if i < 0 then -1 else i - 1);
      assert i == 0 ==> p[..i] + [p[i] + 1] == [p[0] + 1];
      if i > 0 {
        assert p[..i] == [p[0]] + p[1..][..i - 1];
        assert [p[0]] + (p[1..][..i - 1] + [p[1..][i - 1] + 1]) == p[..i] + [p[i] + 1];
      }
    }
  }

  /** `kv_prefix_next_key`: the edited copy of the prefix, read as a C string. */
  method PrefixNextKey(prefix: Bytes) returns (next: Option<Bytes>)
    requires NulFree(prefix)
    ensures next.None? <==> Bump(prefix).None?
    ensures next.Some? ==> CString(next.value) == Bump(prefix).value
  {
    var len := |prefix|;
    if len == 0 {
      return None;
    }
    var buf := new Byte[len + 1](i => if 0 <= i < len then prefix[i] else 0);
    var i := len - 1;
    while i >= 0
      invariant 0 <= i < len
      invariant forall j :: 0 <= j <= i ==> buf[j] == prefix[j]
      invariant forall j :: i < j < len ==> prefix[j] == 255
      invariant forall j :: i < j <= len ==> buf[j] == 0
    {
      if buf[i] < 255 {
        buf[i] := buf[i] + 1;
        break;
      }
      buf[i] := 0;
      if i == 0 {
        BumpAt(prefix, -1);
        return None;
      }
      i := i - 1;
    }
    BumpAt(prefix, i);
    assert buf[..] == (prefix[..i] + [prefix[i] + 1]) + buf[i + 1..];
    ghost var bound, tail := prefix[..i] + [prefix[i] + 1], buf[i + 1..];
    assert |tail| == len - i && tail[0] == buf[i + 1] == 0;
    assert NulFree(bound);
    CStringOf(bound, tail);
    return Some(buf[..]);
  }

  // ----- the iterator

  datatype Pair = Pair(key: Bytes, value: Bytes)

  ghost predicate SortedByKey(es: seq<Pair>) {
    forall i, j :: 0 <= i < j < |es| ==> Compare(es[i].key, es[j].key) < 0
  }

  class Iterator {
    const entries: seq<Pair>
    var pos: nat

    constructor (entries: seq<Pair>)
      ensures this.entries == entries && pos == 0
    {
      this.entries, pos := entries, 0;
    }

    /** Moves to the first entry whose key is not below `key`. */
    method Seek(key: Bytes)
      modifies this
      ensures pos <= |entries| && (pos < |entries| ==> Compare(entries[pos].key, key) >= 0)
      ensures forall j :: 0 <= j < pos ==> Compare(entries[j].key, key) < 0
    {
      pos := 0;
      while pos < |entries| && Compare(entries[pos].key, key) < 0
        invariant pos <= |entries| && forall j :: 0 <= j < pos ==> Compare(entries[j].key, key) < 0
      {
        pos := pos + 1;
      }
    }
  }

  // ----- range scans

  datatype Range = Range(start: Option<Bytes>, end: Option<Bytes>, includeStart: bool, includeEnd: bool)

  predicate AboveStart(r: Range, k: Bytes) {
    r.start.None? || Compare(k, r.start.value) > 0 || (Compare(k, r.start.value) == 0 && r.includeStart)
  }

  predicate BelowEnd(r: Range, k: Bytes) {
    r.end.None? || Compare(k, r.end.value) < 0 || (Compare(k, r.end.value) == 0 && r.includeEnd)
  }

  ghost predicate Within(r: Range, k: Bytes) {
    AboveStart(r, k) && BelowEnd(r, k)
  }

  /** The entries of `es` in the range, in order. */
  ghost function Selected(es: seq<Pair>, r: Range): seq<Pair> {
    if es == [] then []
    else
      var rest, last := Selected(es[..|es| - 1], r), es[|es| - 1];
      if Within(r, last.key) then rest + [last] else rest
  }

  /** A page of a list: skip `offset` entries, then take at most `limit`. */
  ghost function Page(es: seq<Pair>, offset: nat, limit: nat): seq<Pair> {
    if |es| <= offset then [] else if |es| - offset <= limit then es[offset..] else es[offset..offset + limit]
  }

  /** The row handed out for an entry. */
  datatype Row = Row(key: Bytes, value: Option<Bytes>)

  ghost function Rows(es: seq<Pair>, keysOnly: bool): seq<Row> {
    seq(|es|, i requires 0 <= i < |es| => Row(es[i].key, if keysOnly then None else Some(es[i].value)))
  }

  /** How many rows a scan makes room for when it is given no limit. */
  const ROOM := 1000

  /** A limit of 0 stands for `ROOM`. */
  function Capacity(limit: nat): nat {
    if limit > 0 then limit else ROOM
  }

  /** What the options promise: a limit of 0 means that there is none. */
  ghost function Promised(es: seq<Pair>, offset: nat, limit: nat): seq<Pair> {
    if limit > 0 then Page(es, offset, limit) else if |es| <= offset then [] else es[offset..]
  }

  /** The page that a scan takes is the promised one exactly if a limit is given or nothing is beyond the room. */
  lemma LimitKeptIff(es: seq<Pair>, offset: nat, limit: nat, keysOnly: bool)
    ensures Rows(Page(es, offset, Capacity(limit)), keysOnly) == Rows(Promised(es, offset, limit), keysOnly) <==>
      limit > 0 || |es| <= offset + ROOM
  {
    var page, all := Page(es, offset, Capacity(limit)), Promised(es, offset, limit);
    if limit == 0 && |es| > offset + ROOM {
      assert |Rows(page, keysOnly)| < |Rows(all, keysOnly)|;
    }
  }

  lemma {:induction false} NoneSelected(es: seq<Pair>, more: seq<Pair>, r: Range)
    requires forall e :: e in more ==> !Within(r, e.key)
    ensures Selected(es + more, r) == Selected(es, r)
    decreases |more|
  {
    if more == [] {
      assert es + more == es;
    } else {
      assert (es + more)[..|es + more| - 1] == es + more[..|more| - 1];
      NoneSelected(es, more[..|more| - 1], r);
    }
  }

  lemma {:induction false} SelectedGrows(es: seq<Pair>, more: seq<Pair>, r: Range)
    ensures Selected(es, r) <= Selected(es + more, r)
    decreases |more|
  {
    if more == [] {
      assert es + more == es;
    } else {
      assert (es + more)[..|es + more| - 1] == es + more[..|more| - 1];
      SelectedGrows(es, more[..|more| - 1], r);
    }
  }

  /** An entry is selected exactly if its key lies between the ends, where an end itself counts if it is included. */
  lemma {:induction false} SelectedIff(es: seq<Pair>, r: Range, e: Pair)
    ensures e in Selected(es, r) <==>
      && e in es
      && (r.start.Some? ==> Compare(r.start.value, e.key) < 0 || (e.key == r.start.value && r.includeStart))
      && (r.end.Some? ==> Compare(e.key, r.end.value) < 0 || (e.key == r.end.value && r.includeEnd))
    decreases |es|
  {
    if es != [] {
      hide Compare;
      var before, last := es[..|es| - 1], es[|es| - 1];
      SelectedIff(before, r, e);
      assert e in es <==> e in before || e == last;
      if r.start.Some? { Turned(last.key, r.start.value); }
    }
  }

  lemma Turned(a: Bytes, b: Bytes)
    ensures Compare(a, b) > 0 <==> Compare(b, a) < 0
  {
    CompareIsPos(a, b);
    CompareIsPos(b, a);
  }

  lemma {:induction false} SelectedSorted(es: seq<Pair>, r: Range)
    requires SortedByKey(es)
    ensures SortedByKey(Selected(es, r)) && |Selected(es, r)| <= |es|
    ensures forall e :: e in Selected(es, r) ==> e in es
    decreases |es|
  {
    hide Compare, Within;
    if es != [] {
      var before, last := es[..|es| - 1], es[|es| - 1];
      SelectedSorted(before, r);
      var rest := Selected(before, r);
      forall i | 0 <= i < |rest| ensures Compare(rest[i].key, last.key) < 0 {
        assert rest[i] in before;
      }
    }
  }

  /** The rows of a page: which entries, in which order, and with what. */
  lemma PageRows(es: seq<Pair>, offset: nat, limit: nat, keysOnly: bool)
    ensures var rows := Rows(Page(es, offset, limit), keysOnly);
      && |rows| == (if |es| <= offset then 0 else if |es| - offset <= limit then |es| - offset else limit)
      && forall i :: 0 <= i < |rows| ==>
           rows[i] == Row(es[offset + i].key, if keysOnly then None else Some(es[offset + i].value))
  {}

  /**
    With room for all, an entry has a row exactly if its key is above the start, or equal to it and the
    start is included, and below the end, or equal to it and the end is included. Rows are in key order.
   */
  lemma RowsAreTheRange(es: seq<Pair>, r: Range, limit: nat, keysOnly: bool)
    requires SortedByKey(es) && |es| <= if limit > 0 then limit else 1000
    ensures var rows := Rows(Page(Selected(es, r), 0, Capacity(limit)), keysOnly);
      && (forall e :: e in es ==>
            (HasRow(rows, e, keysOnly) <==>
              && (r.start.Some? ==> Compare(r.start.value, e.key) < 0 || (e.key == r.start.value && r.includeStart))
              && (r.end.Some? ==> Compare(e.key, r.end.value) < 0 || (e.key == r.end.value && r.includeEnd))))
      && forall i, j :: 0 <= i < j < |rows| ==> Compare(rows[i].key, rows[j].key) < 0
  {
    hide Compare, Within, Selected, Page, Rows, SortedByKey;
    var sel := Selected(es, r);
    SelectedSorted(es, r);
    PageRows(sel, 0, Capacity(limit), keysOnly);
    var rows := Rows(Page(sel, 0, Capacity(limit)), keysOnly);
    forall e | e in es ensures HasRow(rows, e, keysOnly) <==> e in sel {
      RowIff(es, sel, rows, e, keysOnly);
    }
    forall e ensures e in sel <==>
      && e in es
      && (r.start.Some? ==> Compare(r.start.value, e.key) < 0 || (e.key == r.start.value && r.includeStart))
      && (r.end.Some? ==> Compare(e.key, r.end.value) < 0 || (e.key == r.end.value && r.includeEnd))
    {
      SelectedIff(es, r, e);
    }
    InOrder(sel, rows);
  }

  ghost predicate HasRow(rows: seq<Row>, e: Pair, keysOnly: bool) {
    Row(e.key, if keysOnly then None else Some(e.value)) in rows
  }

  lemma RowIff(es: seq<Pair>, sel: seq<Pair>, rows: seq<Row>, e: Pair, keysOnly: bool)
    requires SortedByKey(es) && e in es && |rows| == |sel| && forall x :: x in sel ==> x in es
    requires forall i :: 0 <= i < |rows| ==> rows[i] == Row(sel[i].key, if keysOnly then None else Some(sel[i].value))
    ensures HasRow(rows, e, keysOnly) <==> e in sel
  {
    hide Compare;
    if HasRow(rows, e, keysOnly) {
      var i :| 0 <= i < |rows| && rows[i] == Row(e.key, if keysOnly then None else Some(e.value));
      assert sel[i] in sel;
      var a :| 0 <= a < |es| && es[a] == sel[i];
      var b :| 0 <= b < |es| && es[b] == e;
      OnePlace(es, a, b);
    }
    if e in sel {
      var i :| 0 <= i < |sel| && sel[i] == e;
      assert rows[i] == Row(e.key, if keysOnly then None else Some(e.value));
    }
  }

  lemma InOrder(sel: seq<Pair>, rows: seq<Row>)
    requires SortedByKey(sel) && |rows| == |sel| && forall i :: 0 <= i < |rows| ==> rows[i].key == sel[i].key
    ensures forall i, j :: 0 <= i < j < |rows| ==> Compare(rows[i].key, rows[j].key) < 0
  {
    hide Compare;
  }

  lemma PageTaken(es: seq<Pair>, all: seq<Pair>, offset: nat, limit: nat)
    requires es <= all && |es| >= offset + limit
    ensures Page(es, offset, limit) == Page(all, offset, limit)
  {}

  /** Beyond a key above the end of the range nothing is selected. */
  lemma PastEnd(es: seq<Pair>, pos: nat, r: Range)
    requires SortedByKey(es) && pos < |es| && !BelowEnd(r, es[pos].key)
    ensures Selected(es[..pos], r) == Selected(es, r)
  {
    hide Compare, AboveStart;
    forall e | e in es[pos..] ensures !BelowEnd(r, e.key) {
      var j :| 0 <= j < |es[pos..]| && es[pos..][j] == e;
      if j > 0 { AboveStaysAbove(es[pos].key, e.key, r); }
    }
    NoneSelected(es[..pos], es[pos..], r);
    assert es[..pos] + es[pos..] == es;
  }

  lemma AboveStaysAbove(a: Bytes, b: Bytes, r: Range)
    requires Compare(a, b) < 0 && !BelowEnd(r, a)
    ensures !BelowEnd(r, b)
  {
    CompareIsPos(a, b);
    CompareIsPos(a, r.end.value);
    CompareIsPos(b, r.end.value);
  }

  /** Before the place a seek finds nothing is selected, and from there on all keys are at or above the start. */
  lemma SeekSkips(es: seq<Pair>, pos: nat, r: Range)
    requires SortedByKey(es) && pos <= |es| && r.start.Some?
    requires forall j :: 0 <= j < pos ==> Compare(es[j].key, r.start.value) < 0
    requires pos < |es| ==> Compare(es[pos].key, r.start.value) >= 0
    ensures Selected(es[..pos], r) == []
    ensures forall j :: pos <= j < |es| ==> Compare(es[j].key, r.start.value) >= 0
  {
    hide Compare;
    NoneSelected([], es[..pos], r);
    assert [] + es[..pos] == es[..pos];
    forall j | pos <= j < |es| ensures Compare(es[j].key, r.start.value) >= 0 {
      if j > pos { StartStaysBelow(es[pos].key, es[j].key, r.start.value); }
    }
  }

  lemma StartStaysBelow(a: Bytes, b: Bytes, c: Bytes)
    requires Compare(a, b) < 0 && Compare(a, c) >= 0
    ensures Compare(b, c) >= 0
  {
    CompareIsPos(a, b);
    CompareIsPos(a, c);
    CompareIsPos(b, c);
  }

  lemma SelectedStep(es: seq<Pair>, pos: nat, r: Range)
    requires pos < |es|
    ensures Selected(es[..pos + 1], r) == if Within(r, es[pos].key) then Selected(es[..pos], r) + [es[pos]]
      else Selected(es[..pos], r)
  {
    assert es[..pos + 1][..pos] == es[..pos];
  }

  ghost predicate Collected(rows: seq<Row>, skipped: nat, es: seq<Pair>, offset: nat, limit: nat, keysOnly: bool) {
    && skipped == (if |es| < offset then |es| else offset)
    && rows == Rows(Page(es, offset, limit), keysOnly) && |es| <= offset + limit
  }

  lemma CollectStep(rows: seq<Row>, skipped: nat, es: seq<Pair>, e: Pair, offset: nat, limit: nat, keysOnly: bool)
    requires Collected(rows, skipped, es, offset, limit, keysOnly) && |rows| < limit
    ensures skipped < offset ==> Collected(rows, skipped + 1, es + [e], offset, limit, keysOnly)
    ensures skipped == offset ==>
      Collected(rows + [Row(e.key, if keysOnly then None else Some(e.value))], skipped, es + [e], offset, limit,
        keysOnly)
  {
    var page, next := Page(es, offset, limit), Page(es + [e], offset, limit);
    if skipped == offset {
      assert next == page + [e];
    }
  }

  /** `range_scan_with_iterator`: the page of the entries in the range. */
  method ScanWithIterator(it: Iterator, r: Range, limit: nat, offset: nat, keysOnly: bool) returns (rows: seq<Row>)
    requires SortedByKey(it.entries) && it.pos == 0
    modifies it
    ensures rows == Rows(Page(Selected(it.entries, r), offset, Capacity(limit)), keysOnly)
  {
    hide Compare, SortedByKey, Selected, Page, Rows;
    var cap := Capacity(limit);
    ghost var es := it.entries;
    if r.start.Some? {
      it.Seek(r.start.value);
      SeekSkips(es, it.pos, r);
    } else {
      NothingYet(es, r);
    }
    rows := [];
    var skipped := 0;
    StartCollecting(offset, cap, keysOnly);
    while it.pos < |it.entries| && |rows| < cap
      invariant it.pos <= |es|
      invariant Collected(rows, skipped, Selected(es[..it.pos], r), offset, cap, keysOnly)
      invariant r.start.Some? ==> forall j :: it.pos <= j < |es| ==> Compare(es[j].key, r.start.value) >= 0
      decreases |es| - it.pos
    {
      var e := it.entries[it.pos];
      if !BelowEnd(r, e.key) {
        PastEnd(es, it.pos, r);
        CollectedIs(rows, skipped, Selected(es, r), offset, cap, keysOnly);
        return;
      }
      SelectedStep(es, it.pos, r);
      if r.start.Some? && Compare(e.key, r.start.value) == 0 && !r.includeStart {
        it.pos := it.pos + 1;
        continue;
      }
      assert Within(r, e.key);
      CollectStep(rows, skipped, Selected(es[..it.pos], r), e, offset, cap, keysOnly);
      if skipped < offset {
        skipped := skipped + 1;
      } else {
        rows := rows + [Row(e.key, if keysOnly then None else Some(e.value))];
      }
      it.pos := it.pos + 1;
    }
    CollectedIs(rows, skipped, Selected(es[..it.pos], r), offset, cap, keysOnly);
    ScanEnds(es, it.pos, r, |rows|, offset, cap, keysOnly);
  }

  /**
    The forward scan without time limit: the page of the entries in the range, which is the promised
    one exactly if a limit is given or no more entries than there is room for remain after the offset.
   */
  method RangeScan(it: Iterator, r: Range, limit: nat, offset: nat, keysOnly: bool) returns (rows: seq<Row>)
    requires SortedByKey(it.entries) && it.pos == 0
    modifies it
    ensures rows == Rows(Page(Selected(it.entries, r), offset, Capacity(limit)), keysOnly)
    ensures rows == Rows(Promised(Selected(it.entries, r), offset, limit), keysOnly) <==>
      limit > 0 || |Selected(it.entries, r)| <= offset + 1000
    ensures offset == 0 && |it.entries| <= (if limit > 0 then limit else 1000) ==>
      forall e :: e in it.entries ==>
        (HasRow(rows, e, keysOnly) <==>
          && (r.start.Some? ==> Compare(r.start.value, e.key) < 0 || (e.key == r.start.value && r.includeStart))
          && (r.end.Some? ==> Compare(e.key, r.end.value) < 0 || (e.key == r.end.value && r.includeEnd)))
    ensures var rest := |Selected(it.entries, r)| - offset;
      |rows| == if rest <= 0 then 0 else if rest <= (if limit > 0 then limit else 1000) then rest
        else if limit > 0 then limit
        else 1000
    ensures forall i :: 0 <= i < |rows| ==>
      && offset + i < |Selected(it.entries, r)|
      && rows[i].key == Selected(it.entries, r)[offset + i].key
      && rows[i].value == if keysOnly then None else Some(Selected(it.entries, r)[offset + i].value)
  {
    hide Compare, SortedByKey, Selected, Page, Rows, Promised, HasRow;
    PageRows(Selected(it.entries, r), offset, Capacity(limit), keysOnly);
    if offset == 0 && |it.entries| <= (if limit > 0 then limit else 1000) {
      RowsAreTheRange(it.entries, r, limit, keysOnly);
    }
    LimitKeptIff(Selected(it.entries, r), offset, limit, keysOnly);
    rows := ScanWithIterator(it, r, limit, offset, keysOnly);
  }

  lemma NothingYet(es: seq<Pair>, r: Range)
    ensures Selected(es[..0], r) == []
  {}

  lemma StartCollecting(offset: nat, limit: nat, keysOnly: bool)
    ensures Collected([], 0, [], offset, limit, keysOnly)
  {}

  lemma CollectedIs(rows: seq<Row>, skipped: nat, es: seq<Pair>, offset: nat, limit: nat, keysOnly: bool)
    requires Collected(rows, skipped, es, offset, limit, keysOnly)
    ensures rows == Rows(Page(es, offset, limit), keysOnly) && skipped <= offset
    ensures |rows| == |Page(es, offset, limit)|
  {}

  lemma ScanEnds(es: seq<Pair>, pos: nat, r: Range, n: nat, offset: nat, limit: nat, keysOnly: bool)
    requires pos <= |es| && n == |Page(Selected(es[..pos], r), offset, limit)| && (pos == |es| || n >= limit)
    requires limit > 0
    ensures Page(Selected(es[..pos], r), offset, limit) == Page(Selected(es, r), offset, limit)
  {
    SelectedGrows(es[..pos], es[pos..], r);
    assert es[..pos] + es[pos..] == es;
    if pos == |es| {
      assert es[..pos] == es;
    } else {
      PageTaken(Selected(es[..pos], r), Selected(es, r), offset, limit);
    }
  }

  /** Two keys that are the ends of the range: each is returned exactly if its end is included. */
  method ScanMeetsEnds(value: Bytes, includeStart: bool, includeEnd: bool) returns (rows: seq<Row>)
    ensures Row([97], Some(value)) in rows <==> includeStart
    ensures Row([98], Some(value)) in rows <==> includeEnd
  {
    hide Selected, Page, Rows, Promised;
    var a, b := Pair([97], value), Pair([98], value);
    assert Compare([97], [98]) < 0 && Compare(a.key, b.key) < 0;
    var it := new Iterator([a, b]);
    assert a == it.entries[0] && b == it.entries[1];
    rows := RangeScan(it, Range(Some([97]), Some([98]), includeStart, includeEnd), 10, 0, false);
    assert HasRow(rows, a, false) <==> includeStart;
    assert HasRow(rows, b, false) <==> includeEnd;
  }

  // ----- a scan without a limit

  /** Two bytes that count up, none of them NUL. */
  function KeyOf(i: nat): Bytes
    requires i < 62500
  {
    [i / 250 + 1, i % 250 + 1]
  }

  lemma KeysRise(i: nat, j: nat)
    requires i < j < 62500
    ensures Compare(KeyOf(i), KeyOf(j)) < 0
  {
    var a, b := KeyOf(i), KeyOf(j);
    assert a[0] == b[0] ==> Compare(a, b) == Compare(a[1..], b[1..]) && a[1..][0] < b[1..][0];
  }

  lemma {:induction false} AllSelected(es: seq<Pair>)
    ensures Selected(es, Range(None, None, true, true)) == es
    decreases |es|
  {
    if es != [] {
      AllSelected(es[..|es| - 1]);
    }
  }

  /** 1001 entries, scanned without bounds and without a limit: the last one is missing. */
  method ScanStops(value: Bytes) returns (it: Iterator, rows: seq<Row>)
    ensures |it.entries| == ROOM + 1 && SortedByKey(it.entries) && |rows| == ROOM
    ensures rows != Rows(Promised(Selected(it.entries, Range(None, None, true, true)), 0, 0), true)
  {
    hide Compare, Selected;
    var es := seq(ROOM + 1, i requires 0 <= i < ROOM + 1 => Pair(KeyOf(i), value));
    forall i, j | 0 <= i < j < |es| ensures Compare(es[i].key, es[j].key) < 0 {
      KeysRise(i, j);
    }
    it := new Iterator(es);
    AllSelected(es);
    rows := RangeScan(it, Range(None, None, true, true), 0, 0, true);
  }

  // ----- prefix scans

  ghost function Matching(es: seq<Pair>, prefix: Bytes, caseSensitive: bool): (r: seq<Pair>)
    ensures |r| <= |es| && forall e :: e in r ==> e in es && Matches(e.key, prefix, caseSensitive)
  {
    if es == [] then []
    else
      var rest, last := Matching(es[..|es| - 1], prefix, caseSensitive), es[|es| - 1];
      if Matches(last.key, prefix, caseSensitive) then rest + [last] else rest
  }

  lemma {:induction false} MatchingIsSelected(es: seq<Pair>, prefix: Bytes)
    ensures Matching(es, prefix, true) == Selected(es, Range(Some(prefix), Bump(prefix), true, false))
    decreases |es|
  {
    if es != [] {
      MatchingIsSelected(es[..|es| - 1], prefix);
      PrefixIsRange(prefix, es[|es| - 1].key);
      CompareIsPos(prefix, es[|es| - 1].key);
      CompareIsPos(es[|es| - 1].key, prefix);
    }
  }

  // ----- when switching case sensitivity off is without an effect

  ghost predicate Exact(es: seq<Pair>, n: nat, prefix: Bytes) {
    forall i :: 0 <= i < n && i < |es| ==> Matches(es[i].key, prefix, true)
  }

  lemma MatchingStep(es: seq<Pair>, prefix: Bytes, caseSensitive: bool)
    requires es != []
    ensures var before, last := es[..|es| - 1], es[|es| - 1];
      Matching(es, prefix, caseSensitive) ==
        Matching(before, prefix, caseSensitive) + if Matches(last.key, prefix, caseSensitive) then [last] else []
  {
    hide Matches;
  }

  /** The exact matches are those among the matches that ignore case. */
  lemma {:induction false} MatchingNarrows(es: seq<Pair>, prefix: Bytes, caseSensitive: bool)
    ensures Matching(Matching(es, prefix, caseSensitive), prefix, true) == Matching(es, prefix, true)
    decreases |es|
  {
    if es != [] {
      hide Matching, Matches;
      var before, last := es[..|es| - 1], es[|es| - 1];
      MatchingNarrows(before, prefix, caseSensitive);
      MatchingStep(es, prefix, caseSensitive);
      MatchingStep(es, prefix, true);
      ExactMatches(last.key, prefix, caseSensitive);
      if Matches(last.key, prefix, caseSensitive) {
        var wide := Matching(before, prefix, caseSensitive) + [last];
        assert wide[..|wide| - 1] == Matching(before, prefix, caseSensitive);
        MatchingStep(wide, prefix, true);
      }
    }
  }

  lemma ExactMatches(key: Bytes, prefix: Bytes, caseSensitive: bool)
    ensures Matches(key, prefix, true) ==> Matches(key, prefix, caseSensitive)
  {}

  /** Where every entry matches, all are kept. */
  lemma {:induction false} AllKept(es: seq<Pair>, prefix: Bytes)
    ensures |Matching(es, prefix, true)| == |es| <==> Exact(es, |es|, prefix)
    ensures Exact(es, |es|, prefix) ==> Matching(es, prefix, true) == es
    decreases |es|
  {
    hide Matches;
    if es != [] {
      var before, last := es[..|es| - 1], es[|es| - 1];
      AllKept(before, prefix);
      MatchingStep(es, prefix, true);
      assert Exact(es, |es|, prefix) ==> Matches(es[|es| - 1].key, prefix, true);
      assert Exact(before, |before|, prefix) && Matches(last.key, prefix, true) ==> Exact(es, |es|, prefix);
    }
  }

  lemma {:induction false} MatchingGrows(es: seq<Pair>, n: nat, prefix: Bytes)
    requires n <= |es|
    ensures Matching(es[..n], prefix, true) <= Matching(es, prefix, true)
    decreases |es|
  {
    hide Matches;
    if n == |es| {
      assert es[..n] == es;
    } else {
      MatchingGrows(es[..|es| - 1], n, prefix);
      assert es[..|es| - 1][..n] == es[..n];
    }
  }

  /** Where the `j`-th match stands, and that the matches before it stand before it. */
  lemma {:induction false} MatchAt(es: seq<Pair>, prefix: Bytes, j: nat) returns (i: nat)
    requires j < |Matching(es, prefix, true)|
    ensures i < |es| && es[i] == Matching(es, prefix, true)[j]
    ensures |Matching(es[..i], prefix, true)| == j
    decreases |es|
  {
    hide Matches;
    var before := es[..|es| - 1];
    if j < |Matching(before, prefix, true)| {
      i := MatchAt(before, prefix, j);
      assert before[..i] == es[..i];
    } else {
      i := |es| - 1;
    }
  }

  lemma {:induction false} MatchingSorted(es: seq<Pair>, prefix: Bytes, caseSensitive: bool)
    requires SortedByKey(es)
    ensures SortedByKey(Matching(es, prefix, caseSensitive))
    decreases |es|
  {
    hide Matches, Compare;
    if es != [] {
      var before, last := es[..|es| - 1], es[|es| - 1];
      MatchingSorted(before, prefix, caseSensitive);
      var rest := Matching(before, prefix, caseSensitive);
      forall i | 0 <= i < |rest| ensures Compare(rest[i].key, last.key) < 0 {
        assert rest[i] in before;
      }
    }
  }

  /** Of entries in key order, a key determines its place. */
  lemma OnePlace(es: seq<Pair>, i: nat, j: nat)
    requires SortedByKey(es) && i < |es| && j < |es| && es[i].key == es[j].key
    ensures i == j
  {
    hide Compare;
    assert Compare(es[i].key, es[i].key) == 0;
  }

  /** A page of the exact matches is a page of all `wide` ones exactly if none up to its end needs case ignored. */
  lemma NarrowPageIff(wide: seq<Pair>, prefix: Bytes, offset: nat, limit: nat)
    requires SortedByKey(wide) && limit > 0
    ensures Page(Matching(wide, prefix, true), offset, limit) == Page(wide, offset, limit) <==>
      |wide| <= offset || Exact(wide, offset + limit, prefix)
  {
    hide Matches, Matching, Compare, SortedByKey;
    var n := if |wide| <= offset + limit then |wide| else offset + limit;
    var exact := Matching(wide, prefix, true);
    assert |exact| <= |wide|;
    if |wide| > offset {
      if Exact(wide, offset + limit, prefix) {
        AllKept(wide[..n], prefix);
        MatchingGrows(wide, n, prefix);
        assert wide[..|wide|] == wide;
        assert wide[..n] <= exact;
      }
      if Page(exact, offset, limit) == Page(wide, offset, limit) {
        assert Page(wide, offset, limit)[n - 1 - offset] == wide[n - 1];
        assert n - 1 < |exact| && exact[n - 1] == wide[n - 1];
        ExactBefore(wide, prefix, n - 1);
      }
    }
  }

  lemma ExactBefore(wide: seq<Pair>, prefix: Bytes, m: nat)
    requires SortedByKey(wide) && m < |Matching(wide, prefix, true)| <= |wide|
    requires Matching(wide, prefix, true)[m] == wide[m]
    ensures Exact(wide, m + 1, prefix)
  {
    hide Matches, Matching, Compare, SortedByKey;
    var exact := Matching(wide, prefix, true);
    assert exact[m] in exact;
    var i := MatchAt(wide, prefix, m);
    OnePlace(wide, i, m);
    AllKept(wide[..m], prefix);
    forall j | 0 <= j < m + 1 ensures Matches(wide[j].key, prefix, true) {
      assert j < m ==> wide[..m][j] == wide[j];
    }
  }

  /** What the rows of a page tell of its entries, where keys are different. */
  lemma RowsTell(all: seq<Pair>, xs: seq<Pair>, ys: seq<Pair>, keysOnly: bool)
    requires SortedByKey(all) && (forall e :: e in xs || e in ys ==> e in all)
    ensures Rows(xs, keysOnly) == Rows(ys, keysOnly) <==> xs == ys
  {
    hide Compare, SortedByKey;
    if Rows(xs, keysOnly) == Rows(ys, keysOnly) {
      assert |Rows(xs, keysOnly)| == |xs| && |Rows(ys, keysOnly)| == |ys|;
      forall i | 0 <= i < |xs| ensures xs[i] == ys[i] {
        assert Rows(xs, keysOnly)[i].key == Rows(ys, keysOnly)[i].key;
        assert xs[i] in xs && ys[i] in ys;
        var a :| 0 <= a < |all| && all[a] == xs[i];
        var b :| 0 <= b < |all| && all[b] == ys[i];
        OnePlace(all, a, b);
      }
    }
  }

  /** Nothing to hand out, or no match up to the end of the page differs in case and none lies beyond the room. */
  ghost predicate KeepsPromise(wide: seq<Pair>, prefix: Bytes, offset: nat, limit: nat) {
    || |wide| <= offset
    || (Exact(wide, offset + Capacity(limit), prefix) && (limit > 0 || |wide| <= offset + ROOM))
  }

  lemma PageMembers(es: seq<Pair>, offset: nat, limit: nat)
    ensures forall e :: e in Page(es, offset, limit) || e in Promised(es, offset, limit) ==> e in es
  {}

  /** A prefix scan hands out what it promises exactly if nothing up to the end of the page differs only in case. */
  lemma PrefixPromiseIff(es: seq<Pair>, prefix: Bytes, caseSensitive: bool, offset: nat, limit: nat, keysOnly: bool)
    requires SortedByKey(es)
    ensures
      var wide := Matching(es, prefix, caseSensitive);
      var page := Page(Matching(es, prefix, true), offset, Capacity(limit));
      Rows(page, keysOnly) == Rows(Promised(wide, offset, limit), keysOnly) <==>
        KeepsPromise(wide, prefix, offset, limit)
  {
    hide Compare, SortedByKey, Matching, Matches, Rows, Exact;
    var wide, exact := Matching(es, prefix, caseSensitive), Matching(es, prefix, true);
    var cap := Capacity(limit);
    var page := Page(exact, offset, cap);
    MatchingNarrows(es, prefix, caseSensitive);
    MatchingSorted(es, prefix, caseSensitive);
    NarrowPageIff(wide, prefix, offset, cap);
    PageMembers(exact, offset, cap);
    PageMembers(wide, offset, limit);
    RowsTell(es, page, Promised(wide, offset, limit), keysOnly);
    if limit == 0 && |wide| > offset + ROOM {
      assert |page| < |Promised(wide, offset, limit)|;
    }
  }

  /** The prefix "a" without case sensitivity does not find the key "A". */
  method ScanMissesUpperCase(value: Bytes) returns (it: Iterator, rows: seq<Row>)
    ensures it.entries == [Pair([65], value)] && SortedByKey(it.entries) && rows == []
    ensures Promised(Matching(it.entries, [97], false), 0, 10) == it.entries
  {
    var key: Bytes, prefix: Bytes := [65], [97];
    assert key[0] != prefix[0] && Lower(key[0]) == Lower(prefix[0]);
    it := new Iterator([Pair(key, value)]);
    hide Matches;
    ghost var es := it.entries;
    assert es[..0] == [];
    MatchingStep(es, prefix, true);
    MatchingStep(es, prefix, false);
    rows := PrefixScan(it, prefix, 10, 0, true, false);
  }

  ghost function Filtered(rows: seq<Row>, prefix: Bytes, caseSensitive: bool): (r: seq<Row>)
    ensures |r| <= |rows|
  {
    if rows == [] then []
    else
      var rest, last := Filtered(rows[..|rows| - 1], prefix, caseSensitive), rows[|rows| - 1];
      if Matches(last.key, prefix, caseSensitive) then rest + [last] else rest
  }

  lemma {:induction false} NothingFiltered(rows: seq<Row>, prefix: Bytes, caseSensitive: bool)
    requires forall i :: 0 <= i < |rows| ==> Matches(rows[i].key, prefix, true)
    ensures Filtered(rows, prefix, caseSensitive) == rows
    decreases |rows|
  {
    if rows != [] {
      NothingFiltered(rows[..|rows| - 1], prefix, caseSensitive);
      assert Matches(rows[|rows| - 1].key, prefix, true);
    }
  }

  /** Keeps the rows that match, in place. */
  method KeepMatching(rows: array<Row>, count: nat, prefix: Bytes, caseSensitive: bool) returns (kept: nat)
    requires count <= rows.Length
    modifies rows
    ensures kept <= count && rows[..kept] == Filtered(old(rows[..count]), prefix, caseSensitive)
  {
    hide Matches;
    ghost var was := rows[..];
    kept := 0;
    for i := 0 to count
      invariant kept <= i && rows[..kept] == Filtered(was[..i], prefix, caseSensitive)
      invariant forall j :: i <= j < rows.Length ==> rows[j] == was[j]
    {
      assert was[..i + 1][..i] == was[..i];
      if Matches(rows[i].key, prefix, caseSensitive) {
        if kept != i {
          rows[kept] := rows[i];
        }
        kept := kept + 1;
      }
    }
    assert was[..count] == old(rows[..count]);
  }

  /**
    `kv_prefix_scan` by range: a page of the entries that have exactly the prefix, in key order. It is
    the page that limit and case sensitivity promise exactly if `KeepsPromise` holds of the entries.
   */
  method PrefixScan(it: Iterator, prefix: Bytes, limit: nat, offset: nat, keysOnly: bool, caseSensitive: bool)
    returns (result: seq<Row>)
    requires SortedByKey(it.entries) && it.pos == 0 && NulFree(prefix)
    modifies it
    ensures result == Rows(Page(Matching(it.entries, prefix, true), offset, Capacity(limit)), keysOnly)
    ensures result == Rows(Promised(Matching(it.entries, prefix, caseSensitive), offset, limit), keysOnly) <==>
      KeepsPromise(Matching(it.entries, prefix, caseSensitive), prefix, offset, limit)
  {
    hide KeepsPromise, Promised, Compare, SortedByKey;
    var next := PrefixNextKey(prefix);
    ghost var r := Range(Some(prefix), Bump(prefix), true, false);
    var end := if next.Some? then Some(ReadCString(next.value)) else None;
    var rows := ScanWithIterator(it, Range(Some(prefix), end, true, false), limit, offset, keysOnly);
    MatchingIsSelected(it.entries, prefix);
    RowsMatch(it.entries, prefix, offset, Capacity(limit), keysOnly);
    var pairs := new Row[|rows|](i requires 0 <= i < |rows| => rows[i]);
    assert pairs[..] == rows;
    NothingFiltered(rows, prefix, caseSensitive);
    assert pairs[..|rows|] == rows;
    var kept := KeepMatching(pairs, |rows|, prefix, caseSensitive);
    result := pairs[..kept];
    PrefixPromiseIff(it.entries, prefix, caseSensitive, offset, limit, keysOnly);
  }

  /** The characters of a buffer before its first NUL. */
  function ReadCString(buf: Bytes): (s: Bytes)
    ensures s == CString(buf)
  {
    if buf == [] || buf[0] == 0 then [] else [buf[0]] + ReadCString(buf[1..])
  }

  lemma RowsMatch(es: seq<Pair>, prefix: Bytes, offset: nat, limit: nat, keysOnly: bool)
    ensures forall i :: 0 <= i < |Rows(Page(Matching(es, prefix, true), offset, limit), keysOnly)| ==>
      Matches(Rows(Page(Matching(es, prefix, true), offset, limit), keysOnly)[i].key, prefix, true)
  {
    hide Matches;
    var page := Page(Matching(es, prefix, true), offset, limit);
    assert forall e :: e in page ==> e in Matching(es, prefix, true);
    forall i | 0 <= i < |page| ensures Matches(Rows(page, keysOnly)[i].key, prefix, true) {
      assert page[i] in page;
    }
  }
}
