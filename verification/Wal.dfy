/**
  The write-ahead log as bytes: records are printed one after another, and recovery reads
  them back until a read comes up short. Integers are stored little-endian in their C widths.
 */
module Wal {
  import opened Bytes
  import opened Words
  import opened Options

  const OP_SET: Byte := 1

  /** What one append was asked to log. `None` is a null value pointer. */
  datatype Record = Record(no: nat, op: Byte, key: Bytes, value: Option<Bytes>)

  /** What recovery hands on: the operation with its key and value as raw buffers. */
  datatype Entry = Entry(op: Byte, key: Bytes, value: Option<Bytes>)

  // ----- fixed-width integers

  function Little(n: nat, width: nat): (bs: Bytes)
    ensures |bs| == width
  {
    if width == 0 then [] else [n % 256] + Little(n / 256, width - 1)
  }

  function FromLittle(bs: Bytes): nat {
    if bs == [] then 0 else bs[0] + 256 * FromLittle(bs[1..])
  }

  function Power256(width: nat): nat {
    if width == 0 then 1 else 256 * Power256(width - 1)
  }

  /** Reading back an integer gives it modulo the width it was stored in. */
  lemma {:induction false} LittleRoundTrip(n: nat, width: nat)
    ensures Power256(width) > 0 && FromLittle(Little(n, width)) == n % Power256(width)
    decreases width
  {
    if width > 0 {
      LittleRoundTrip(n / 256, width - 1);
      assert Little(n, width)[1..] == Little(n / 256, width - 1);
      PeelByte(n, Power256(width - 1));
    }
  }

  /** The bytes are the digits in base 256, the least significant first. */
  lemma {:induction false} LittleDigits(n: nat, width: nat, i: nat)
    requires i < width
    ensures Power256(i) > 0 && Little(n, width)[i] == (n / Power256(i)) % 256
    decreases i
  {
    if i > 0 {
      LittleDigits(n / 256, width - 1, i - 1);
      DivideTwice(n, Power256(i - 1));
    }
  }

  lemma DivideTwice(n: nat, p: nat)
    requires p > 0
    ensures (n / 256) / p == n / (256 * p)
  {
    var q := n / 256;
    PeelByte(n, p);
    Regroup(n, p, q, q / p, q % p);
    var d, r := 256 * p, 256 * (q % p) + n % 256;
    assert n == d * (q / p) + r && r < d;
    Quotient(n, d, q / p, r);
  }

  lemma Quotient(n: nat, d: nat, q: nat, r: nat)
    requires d > 0 && n == d * q + r && r < d
    ensures n / d == q
  {
    var k := q - n / d;
    assert d * k == d * q - d * (n / d);
    assert k >= 1 ==> d * k >= d;
    assert k <= -1 ==> d * k + d <= 0;
  }

  lemma PeelByte(n: nat, p: nat)
    requires p > 0
    ensures n % (256 * p) == 256 * ((n / 256) % p) + n % 256
  {
    var q := n / 256;
    Regroup(n, p, q, q / p, q % p);
    Remainder(n, 256 * p, q / p, 256 * (q % p) + n % 256);
  }

  lemma Regroup(n: nat, p: nat, q: nat, a: nat, b: nat)
    requires q == n / 256 && q == p * a + b
    ensures n == 256 * p * a + (256 * b + n % 256)
  {
    assert 256 * q == 256 * p * a + 256 * b;
  }

  lemma Remainder(n: nat, d: nat, q: nat, r: nat)
    requires d > 0 && n == d * q + r && r < d
    ensures n % d == r
  {
    var k := q - n / d;
    assert d * k == d * q - d * (n / d);
    assert k >= 1 ==> d * k >= d;
    assert k <= -1 ==> d * k + d <= 0;
  }

  lemma Widths()
    ensures Power256(8) == WORD64 && Power256(4) == WORD32
  {
    assert Power256(1) == 256 && Power256(2) == 65536 && Power256(3) == 0x100_0000 && Power256(4) == WORD32;
    assert Power256(5) == 0x100_0000_0000 && Power256(6) == 0x1_0000_0000_0000 && Power256(7) == 0x100_0000_0000_0000;
  }

  // ----- printing

  /** The bytes of a C string that a 32-bit size field makes the writer pass on. */
  function Stored(s: Bytes): (bs: Bytes)
    ensures |bs| == (|s| + 1) % WORD32
  {
    (s + [0])[..(|s| + 1) % WORD32]
  }

  function StoredValue(v: Option<Bytes>): Bytes {
    if v.None? then [] else Stored(v.value)
  }

  function Print(r: Record): (bs: Bytes)
    ensures |bs| >= 17
  {
    Little(r.no, 8) + [r.op]
    + Little(|r.key| + 1, 4) + Stored(r.key)
    + Little(if r.value.None? then 0 else |r.value.value| + 1, 4) + StoredValue(r.value)
  }

  /**
    Where the fields of a record are: the number in bytes 0 to 7, the operation in byte 8, the size of the
    key in bytes 9 to 12, then the key with its NUL, the size of the value in four bytes, and the value.
   */
  lemma RecordLayout(r: Record)
    requires |r.key| + 1 < 0x1_0000_0000 && (r.value.Some? ==> |r.value.value| + 1 < 0x1_0000_0000)
    ensures var bs, k := Print(r), |r.key|;
      && |bs| == 18 + k + (if r.value.Some? then |r.value.value| + 1 else 0)
      && (forall i: nat :: i < 8 ==> Power256(i) > 0 && bs[i] == (r.no / Power256(i)) % 256)
      && bs[8] == r.op
      && (forall i: nat :: i < 4 ==> Power256(i) > 0 && bs[9 + i] == ((k + 1) / Power256(i)) % 256)
      && bs[13..13 + k] == r.key && bs[13 + k] == 0
      && (forall i: nat :: i < 4 ==>
            && Power256(i) > 0
            && bs[14 + k + i] == ((if r.value.Some? then |r.value.value| + 1 else 0) / Power256(i)) % 256)
      && (r.value.Some? ==> bs[18 + k..] == r.value.value + [0])
  {
    hide Little, Power256;
    var bs, k, v := Print(r), |r.key|, if r.value.Some? then |r.value.value| + 1 else 0;
    var head, size := Little(r.no, 8), Little(k + 1, 4);
    var vsize := Little(v, 4);
    StoredIffFits(r.key);
    if r.value.Some? { StoredIffFits(r.value.value); }
    assert bs == head + [r.op] + size + (r.key + [0]) + vsize + StoredValue(r.value);
    forall i: nat | i < 8 ensures Power256(i) > 0 && bs[i] == (r.no / Power256(i)) % 256 {
      LittleDigits(r.no, 8, i);
    }
    forall i: nat | i < 4 ensures Power256(i) > 0 && bs[9 + i] == ((k + 1) / Power256(i)) % 256 {
      LittleDigits(k + 1, 4, i);
      assert bs[9 + i] == size[i];
    }
    forall i: nat | i < 4 ensures Power256(i) > 0 && bs[14 + k + i] == (v / Power256(i)) % 256 {
      LittleDigits(v, 4, i);
      assert bs[14 + k + i] == vsize[i];
    }
  }

  function PrintAll(rs: seq<Record>): Bytes {
    if rs == [] then [] else Print(rs[0]) + PrintAll(rs[1..])
  }

  /** The sizes of key and value survive their 32-bit size fields. */
  predicate Fits(r: Record) {
    |r.key| + 1 < WORD32 && (r.value.Some? ==> |r.value.value| + 1 < WORD32)
  }

  /** The record as the engine should see it again. */
  function Meant(r: Record): Entry {
    Entry(r.op, r.key + [0], if r.value.None? then None else Some(r.value.value + [0]))
  }

  /** The record as the file keeps it. */
  function Kept(r: Record): Entry {
    Entry(r.op, Stored(r.key), if StoredValue(r.value) == [] then None else Some(StoredValue(r.value)))
  }

  /** A record is kept as it is meant exactly if its sizes fit. */
  lemma KeptIffFits(r: Record)
    ensures Kept(r) == Meant(r) <==> Fits(r)
  {
    StoredIffFits(r.key);
    if r.value.Some? { StoredIffFits(r.value.value); }
  }

  /** The size field of a key of 2^32 - 1 bytes, with its NUL, wraps to 0: the key is lost. */
  lemma KeyIsCut(no: nat, op: Byte, b: Byte)
    ensures var r := Record(no, op, seq(WORD32 - 1, _ => b), None);
      !Fits(r) && Kept(r).key == [] && |Meant(r).key| == WORD32
  {
    var key: Bytes := seq(WORD32 - 1, _ => b);
    assert |key + [0]| == WORD32;
    assert Stored(key) == [];
  }

  lemma StoredIffFits(s: Bytes)
    ensures Stored(s) == s + [0] <==> |s| + 1 < WORD32
    ensures |s| + 1 < WORD32 ==> Stored(s) != []
  {
    assert |s + [0]| == |s| + 1;
    if |s| + 1 < WORD32 {
      assert (s + [0])[..|s| + 1] == s + [0];
    }
  }

  // ----- reading

  /** One round of the recovery loop: a short read, perhaps after the sequence number, or a whole record. */
  datatype Round = Short(seen: Option<nat>) | Whole(no: nat, entry: Entry, rest: Bytes)

  function ReadValue(no: nat, op: Byte, key: Bytes, bs: Bytes): Round {
    if |bs| < 4 then Short(Some(no))
    else
      var size, rest := FromLittle(bs[..4]), bs[4..];
      if size == 0 then Whole(no, Entry(op, key, None), rest)
      else if |rest| < size then Short(Some(no))
      else Whole(no, Entry(op, key, Some(rest[..size])), rest[size..])
  }

  function ReadKey(no: nat, op: Byte, bs: Bytes): Round {
    if |bs| < 4 then Short(Some(no))
    else
      var size, rest := FromLittle(bs[..4]), bs[4..];
      if |rest| < size then Short(Some(no)) else ReadValue(no, op, rest[..size], rest[size..])
  }

  function ReadOne(bs: Bytes): (r: Round)
    ensures r.Whole? ==> |r.rest| < |bs|
  {
    if |bs| < 8 then Short(None)
    else if |bs| == 8 then Short(Some(FromLittle(bs[..8])))
    else ReadKey(FromLittle(bs[..8]), bs[8], bs[9..])
  }

  datatype Replayed = Replayed(entries: seq<Entry>, seen: seq<nat>)

  /** The whole recovery loop: what is applied, and which sequence numbers are read. */
  function Replay(bs: Bytes): Replayed
    decreases |bs|
  {
    match ReadOne(bs)
    case Short(None) => Replayed([], [])
    case Short(Some(no)) => Replayed([], [no])
    case Whole(no, entry, rest) => var r := Replay(rest); Replayed([entry] + r.entries, [no] + r.seen)
  }

  /** The counter after the loop has read these numbers. */
  function NextAfter(next: nat, seen: seq<nat>): nat
    decreases |seen|
  {
    if seen == [] then next
    else NextAfter(if seen[0] >= next then (seen[0] + 1) % WORD64 else next, seen[1..])
  }

  // ----- what is read back

  lemma SliceConcat(a: Bytes, b: Bytes)
    ensures (a + b)[..|a|] == a && (a + b)[|a|..] == b
  {}

  lemma ReadsInteger(n: nat, width: nat, tail: Bytes)
    ensures var bs := Little(n, width) + tail;
      Power256(width) > 0 && FromLittle(bs[..width]) == n % Power256(width) && bs[width..] == tail
  {
    LittleRoundTrip(n, width);
    SliceConcat(Little(n, width), tail);
  }

  function ValuePart(r: Record): Bytes {
    Little(if r.value.None? then 0 else |r.value.value| + 1, 4) + StoredValue(r.value)
  }

  function KeyPart(r: Record): Bytes {
    Little(|r.key| + 1, 4) + Stored(r.key) + ValuePart(r)
  }

  lemma PrintedParts(r: Record)
    ensures Print(r) == Little(r.no, 8) + [r.op] + KeyPart(r)
  {}

  lemma ReadsValue(r: Record, no: nat, op: Byte, key: Bytes, tail: Bytes)
    ensures ReadValue(no, op, key, ValuePart(r) + tail) == Whole(no, Entry(op, key, Kept(r).value), tail)
  {
    Widths();
    var n, v := if r.value.None? then 0 else |r.value.value| + 1, StoredValue(r.value);
    ReadsInteger(n, 4, v + tail);
    assert ValuePart(r) + tail == Little(n, 4) + (v + tail);
    SliceConcat(v, tail);
  }

  lemma ReadsKey(r: Record, no: nat, op: Byte, tail: Bytes)
    ensures ReadKey(no, op, KeyPart(r) + tail) == Whole(no, Entry(op, Kept(r).key, Kept(r).value), tail)
  {
    hide ReadValue;
    Widths();
    var k := Stored(r.key);
    ReadsInteger(|r.key| + 1, 4, k + (ValuePart(r) + tail));
    assert KeyPart(r) + tail == Little(|r.key| + 1, 4) + (k + (ValuePart(r) + tail));
    SliceConcat(k, ValuePart(r) + tail);
    ReadsValue(r, no, op, k, tail);
  }

  /** A printed record is read back whole, whatever follows it. */
  lemma ReadsRecord(r: Record, tail: Bytes)
    ensures ReadOne(Print(r) + tail) == Whole(r.no % WORD64, Kept(r), tail)
  {
    hide ReadKey, Print, KeyPart, Little, Kept;
    Widths();
    PrintedParts(r);
    var head, rest := Little(r.no, 8), KeyPart(r) + tail;
    ReadsInteger(r.no, 8, [r.op] + rest);
    Regrouped(head, r.op, KeyPart(r), tail);
    SkipTwo(head, r.op, rest);
    ReadsKey(r, r.no % WORD64, r.op, tail);
    KeptFields(r);
  }

  lemma Regrouped(head: Bytes, op: Byte, part: Bytes, tail: Bytes)
    ensures (head + [op] + part) + tail == head + ([op] + (part + tail))
  {}

  lemma KeptFields(r: Record)
    ensures Entry(r.op, Kept(r).key, Kept(r).value) == Kept(r)
  {}

  // ----- a torn record

  lemma PrefixOf(a: Bytes, b: Bytes, cut: nat)
    requires |a| <= cut <= |a + b|
    ensures (a + b)[..cut] == a + b[..cut - |a|]
  {}

  lemma TornValue(r: Record, no: nat, op: Byte, key: Bytes, cut: nat)
    requires cut < |ValuePart(r)|
    ensures ReadValue(no, op, key, ValuePart(r)[..cut]) == Short(Some(no))
  {
    Widths();
    if cut >= 4 {
      var n, v := if r.value.None? then 0 else |r.value.value| + 1, StoredValue(r.value);
      PrefixOf(Little(n, 4), v, cut);
      ReadsInteger(n, 4, v[..cut - 4]);
    }
  }

  lemma TornKey(r: Record, no: nat, op: Byte, cut: nat)
    requires cut < |KeyPart(r)|
    ensures ReadKey(no, op, KeyPart(r)[..cut]) == Short(Some(no))
  {
    hide ReadValue;
    Widths();
    if cut >= 4 {
      var k := Stored(r.key);
      var rest := (k + ValuePart(r))[..cut - 4];
      assert KeyPart(r) == Little(|r.key| + 1, 4) + (k + ValuePart(r));
      PrefixOf(Little(|r.key| + 1, 4), k + ValuePart(r), cut);
      ReadsInteger(|r.key| + 1, 4, rest);
      if |rest| >= |k| {
        PrefixOf(k, ValuePart(r), cut - 4);
        SliceConcat(k, ValuePart(r)[..cut - 4 - |k|]);
        TornValue(r, no, op, k, cut - 4 - |k|);
      }
    }
  }

  /** A record cut off anywhere is a short read; its sequence number counts once its 8 bytes are there. */
  lemma TornRecord(r: Record, cut: nat)
    requires cut < |Print(r)|
    ensures ReadOne(Print(r)[..cut]) == Short(if cut < 8 then None else Some(r.no % WORD64))
  {
    hide ReadKey, Print, KeyPart, Little;
    Widths();
    PrintedParts(r);
    if cut >= 8 {
      var head, tail := Little(r.no, 8), [r.op] + KeyPart(r);
      assert Print(r) == head + tail;
      PrefixOf(head, tail, cut);
      ReadsInteger(r.no, 8, tail[..cut - 8]);
      if cut > 8 {
        TornTail(r.op, KeyPart(r), cut - 8);
        TornKey(r, r.no % WORD64, r.op, cut - 9);
        SkipTwo(head, r.op, KeyPart(r)[..cut - 9]);
      }
    }
  }

  lemma TornTail(op: Byte, part: Bytes, cut: nat)
    requires 0 < cut <= |part| + 1
    ensures ([op] + part)[..cut] == [op] + part[..cut - 1]
  {}

  lemma SkipTwo(head: Bytes, op: Byte, part: Bytes)
    requires |head| == 8
    ensures (head + ([op] + part))[8] == op && (head + ([op] + part))[9..] == part
    ensures (head + ([op] + part))[..8] == head
  {}

  // ----- the crash theorem

  /** How many records lie wholly below the cut. */
  function Survivors(rs: seq<Record>, cut: nat): (n: nat)
    ensures n <= |rs|
  {
    if rs == [] || cut < |Print(rs[0])| then 0 else 1 + Survivors(rs[1..], cut - |Print(rs[0])|)
  }

  /** `Survivors` is the length of the longest prefix of whole records. */
  lemma {:induction false} SurvivorsAreLongest(rs: seq<Record>, cut: nat, n: nat)
    requires n <= |rs|
    ensures n <= Survivors(rs, cut) <==> |PrintAll(rs[..n])| <= cut
    decreases |rs|
  {
    if n > 0 {
      assert rs[..n][0] == rs[0] && rs[..n][1..] == rs[1..][..n - 1];
      if cut >= |Print(rs[0])| {
        SurvivorsAreLongest(rs[1..], cut - |Print(rs[0])|, n - 1);
      }
    }
  }

  function AllKept(rs: seq<Record>): seq<Entry> {
    if rs == [] then [] else [Kept(rs[0])] + AllKept(rs[1..])
  }

  /** The numbers recovery reads: those of the survivors and, if its 8 bytes are there, the torn record's. */
  function NumbersRead(rs: seq<Record>, cut: nat): seq<nat> {
    if rs == [] || cut < 8 then []
    else if cut < |Print(rs[0])| then [rs[0].no % WORD64]
    else [rs[0].no % WORD64] + NumbersRead(rs[1..], cut - |Print(rs[0])|)
  }

  /** Wherever the file is cut, recovery replays exactly the whole records before the cut. */
  lemma {:induction false} CrashReplay(rs: seq<Record>, cut: nat)
    requires cut <= |PrintAll(rs)|
    ensures Replay(PrintAll(rs)[..cut]).entries == AllKept(rs[..Survivors(rs, cut)])
    ensures Replay(PrintAll(rs)[..cut]).seen == NumbersRead(rs, cut)
    decreases |rs|
  {
    hide ReadOne, Print, Kept;
    if rs != [] {
      var first, rest := Print(rs[0]), PrintAll(rs[1..]);
      if cut < |first| {
        TornRecord(rs[0], cut);
        assert (first + rest)[..cut] == first[..cut];
      } else {
        PrefixOf(first, rest, cut);
        ReadsRecord(rs[0], rest[..cut - |first|]);
        CrashReplay(rs[1..], cut - |first|);
        var n := Survivors(rs[1..], cut - |first|);
        assert rs[..n + 1][1..] == rs[1..][..n];
      }
    } else {
      NothingRead();
    }
  }

  lemma NothingRead()
    ensures ReadOne([]) == Short(None)
  {}

  // ----- the sequence counter

  /** After recovery the counter is above every number read, unless the greatest 64-bit number is one of them. */
  lemma {:induction false} NextIsAbove(next: nat, seen: seq<nat>)
    requires next < WORD64 && forall n :: n in seen ==> n < WORD64
    ensures NextAfter(next, seen) < WORD64
    ensures (forall n :: n in seen ==> n < NextAfter(next, seen)) <==> WORD64 - 1 !in seen
    ensures WORD64 - 1 !in seen ==> NextAfter(next, seen) >= next
    ensures WORD64 - 1 !in seen && NextAfter(next, seen) > next ==> NextAfter(next, seen) - 1 in seen
    decreases |seen|
  {
    if seen != [] {
      var mid := if seen[0] >= next then (seen[0] + 1) % WORD64 else next;
      assert forall n :: n in seen[1..] ==> n in seen;
      assert seen[0] in seen;
      NextIsAbove(mid, seen[1..]);
      assert forall n :: n in seen ==> n == seen[0] || n in seen[1..];
    }
  }

  /** Records carry the numbers `1, 2, ...`, in 64 bits. */
  ghost predicate Numbered(rs: seq<Record>) {
    forall i :: 0 <= i < |rs| ==> rs[i].no == (1 + i) % WORD64
  }

  lemma {:induction false} NumbersReadFrom(rs: seq<Record>, cut: nat, n: nat)
    requires n in NumbersRead(rs, cut)
    ensures exists i :: 0 <= i < |rs| && n == rs[i].no % WORD64
    decreases |rs|
  {
    if n == rs[0].no % WORD64 {
    } else {
      NumbersReadFrom(rs[1..], cut - |Print(rs[0])|, n);
      var i :| 0 <= i < |rs[1..]| && n == rs[1..][i].no % WORD64;
      assert rs[i + 1] == rs[1..][i];
    }
  }

  /** Fewer than `2^64 - 1` records: recovery, from any counter and any cut, ends above every number it read. */
  lemma CrashCounter(rs: seq<Record>, cut: nat, next: nat)
    requires Numbered(rs) && |rs| < WORD64 - 1 && cut <= |PrintAll(rs)| && next < WORD64
    ensures var seen := Replay(PrintAll(rs)[..cut]).seen;
      NextAfter(next, seen) >= next && forall n :: n in seen ==> n < NextAfter(next, seen)
  {
    hide Replay, PrintAll, NumbersRead, Print;
    CrashReplay(rs, cut);
    var seen := NumbersRead(rs, cut);
    forall n | n in seen ensures n < WORD64 - 1 {
      NumbersReadFrom(rs, cut, n);
    }
    NextIsAbove(next, seen);
  }

  // ----- the log object

  lemma NumberedAppend(rs: seq<Record>, r: Record)
    requires Numbered(rs) && r.no == (1 + |rs|) % WORD64
    ensures Numbered(rs + [r]) && (r.no + 1) % WORD64 == (1 + |rs + [r]|) % WORD64
  {
    var n, q := 1 + |rs|, (1 + |rs|) / WORD64;
    assert n == WORD64 * q + r.no;
    if r.no + 1 < WORD64 {
      Remainder(n + 1, WORD64, q, r.no + 1);
    } else {
      Remainder(n + 1, WORD64, q + 1, 0);
    }
  }

  lemma {:induction false} PrintAllAppend(rs: seq<Record>, r: Record)
    ensures PrintAll(rs + [r]) == PrintAll(rs) + Print(r)
    decreases |rs|
  {
    if rs == [] {
      assert rs + [r] == [r] && [r][1..] == [] && PrintAll([]) == [];
    } else {
      assert (rs + [r])[1..] == rs[1..] + [r];
      PrintAllAppend(rs[1..], r);
    }
  }

  class Log {
    var nextSeq: nat
    var file: Bytes
    var isOpen: bool
    ghost var records: seq<Record>

    ghost predicate Valid()
      reads this
    {
      nextSeq == (1 + |records|) % WORD64 && Numbered(records) && file == PrintAll(records)
    }

    constructor ()
      ensures Valid() && records == [] && isOpen && nextSeq == 1 && file == []
    {
      nextSeq, file, isOpen, records := 1, [], true, [];
    }

    /** `wal_append`: one record more, written field by field. */
    method Append(op: Byte, key: Bytes, value: Option<Bytes>) returns (r: int)
      requires Valid()
      modifies this
      ensures Valid() && isOpen == old(isOpen)
      ensures r == if !isOpen || (op == 1 && value.None?) then -1 else 0
      ensures records == if r == 0 then old(records) + [Record(old(nextSeq), op, key, value)] else old(records)
      ensures nextSeq == if r == 0 then (old(nextSeq) + 1) % 0x1_0000_0000_0000_0000 else old(nextSeq)
      ensures file == if r == 0 then old(file) + Print(Record(old(nextSeq), op, key, value)) else old(file)
    {
      if (op == OP_SET && value.None?) || !isOpen {
        return -1;
      }
      hide PrintAll, Print, Numbered;
      ghost var rec := Record(nextSeq, op, key, value);
      NumberedAppend(records, rec);
      var no := nextSeq;
      nextSeq := (nextSeq + 1) % WORD64;
      WriteRecord(no, op, key, value);
      PrintAllAppend(records, rec);
      records := records + [rec];
      return 0;
    }

    /** The writes of one record, in order. */
    method WriteRecord(no: nat, op: Byte, key: Bytes, value: Option<Bytes>)
      modifies this`file
      ensures file == old(file) + Print(Record(no, op, key, value))
    {
      hide Little, Stored;
      var valueSize := if value.Some? then |value.value| + 1 else 0;
      file := file + Little(no, 8);
      file := file + [op];
      file := file + Little(|key| + 1, 4);
      file := file + Stored(key);
      file := file + Little(valueSize, 4);
      if valueSize % WORD32 > 0 {
        file := file + StoredValue(value);
      }
      ghost var k, v := Little(|key| + 1, 4) + Stored(key), Little(valueSize, 4) + StoredValue(value);
      assert file == old(file) + (Little(no, 8) + [op] + k + v);
      PrintedParts(Record(no, op, key, value));
    }

    /** The log is closed, as `wal_destroy` does. */
    method Close()
      requires Valid()
      modifies this`isOpen
      ensures Valid() && !isOpen
    {
      isOpen := false;
    }
  }

  // ----- recovery

  /** `read`: the next `n` bytes, or a short read. */
  method Read(data: Bytes, pos: nat, n: nat) returns (ok: bool, chunk: Bytes)
    requires pos <= |data|
    ensures ok == (n <= |data| - pos)
    ensures ok ==> chunk == data[pos..pos + n]
  {
    ok := n <= |data| - pos;
    chunk := if ok then data[pos..pos + n] else data[pos..];
  }

  /** One record, or as much of it as there is. */
  method ReadRecord(data: Bytes, start: nat, next0: nat) returns (ok: bool, e: Entry, pos: nat, next: nat)
    requires start <= |data|
    ensures ok == ReadOne(data[start..]).Whole?
    ensures ok ==>
      var w := ReadOne(data[start..]);
      e == w.entry && start < pos <= |data| && w.rest == data[pos..] && next == NextAfter(next0, [w.no])
    ensures !ok ==>
      var seen := ReadOne(data[start..]).seen; next == NextAfter(next0, if seen.None? then [] else [seen.value])
  {
    var chunk;
    pos, next, e := start, next0, Entry(0, [], None);
    ghost var bs := data[start..];
    ok, chunk := Read(data, pos, 8);
    if !ok { return; }
    assert chunk == bs[..8];
    pos := pos + 8;
    var no := FromLittle(chunk);
    if no >= next {
      next := (no + 1) % WORD64;
    }
    assert next == NextAfter(next0, [no]);
    ok, chunk := Read(data, pos, 1);
    if !ok { return; }
    var op := chunk[0];
    pos := pos + 1;
    assert op == bs[8] && data[pos..] == bs[9..];
    ok, e, pos := ReadBody(data, pos, no, op);
  }

  /** Key and value of a record. */
  method ReadBody(data: Bytes, start: nat, ghost no: nat, op: Byte) returns (ok: bool, e: Entry, pos: nat)
    requires start <= |data|
    ensures start <= pos <= |data|
    ensures ok ==> ReadKey(no, op, data[start..]) == Whole(no, e, data[pos..])
    ensures !ok ==> ReadKey(no, op, data[start..]) == Short(Some(no))
  {
    hide FromLittle;
    var chunk, value;
    pos, e := start, Entry(op, [], None);
    ok, chunk := Read(data, pos, 4);
    if !ok { return; }
    assert chunk == data[start..][..4];
    var size := FromLittle(chunk);
    pos := pos + 4;
    var key;
    ok, key := Read(data, pos, size);
    if !ok { return; }
    pos := pos + size;
    assert key == data[start..][4..][..size] && data[pos..] == data[start..][4..][size..];
    ok, value, pos := ReadTail(data, pos, no, op, key);
    e := Entry(op, key, value);
  }

  method ReadTail(data: Bytes, start: nat, ghost no: nat, ghost op: Byte, ghost key: Bytes)
    returns (ok: bool, value: Option<Bytes>, pos: nat)
    requires start <= |data|
    ensures start <= pos <= |data|
    ensures ok ==> ReadValue(no, op, key, data[start..]) == Whole(no, Entry(op, key, value), data[pos..])
    ensures !ok ==> ReadValue(no, op, key, data[start..]) == Short(Some(no))
  {
    hide FromLittle;
    var chunk;
    pos, value := start, None;
    ok, chunk := Read(data, pos, 4);
    if !ok { return; }
    assert chunk == data[start..][..4];
    var size := FromLittle(chunk);
    pos := pos + 4;
    assert data[pos..] == data[start..][4..];
    if size > 0 {
      ok, chunk := Read(data, pos, size);
      if !ok { return; }
      assert chunk == data[pos..][..size] && data[pos + size..] == data[pos..][size..];
      value := Some(chunk);
      pos := pos + size;
    }
  }

  /** `wal_recover` on one file: the applied entries, and the counter it leaves. */
  method Recover(data: Bytes, next0: nat) returns (applied: seq<Entry>, next: nat)
    ensures applied == Replay(data).entries && next == NextAfter(next0, Replay(data).seen)
  {
    hide ReadOne;
    applied, next := [], next0;
    var pos := 0;
    assert data[0..] == data;
    while true
      invariant 0 <= pos <= |data|
      invariant applied + Replay(data[pos..]).entries == Replay(data).entries
      invariant NextAfter(next, Replay(data[pos..]).seen) == NextAfter(next0, Replay(data).seen)
      decreases |data| - pos
    {
      var ok, e, pos', next' := ReadRecord(data, pos, next);
      ghost var r := ReadOne(data[pos..]);
      next := next';
      if !ok {
        break;
      }
      assert ([r.no] + Replay(r.rest).seen)[1..] == Replay(r.rest).seen;
      applied, pos := applied + [e], pos';
    }
  }
}
