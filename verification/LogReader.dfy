/**
 The firmware log ring and the cursor of one open reader.

 The firmware keeps appending while a read is under way. `log` is the log it would be if
 nothing were ever overwritten; the ring holds its last `nentries` entries.
 */
module LogReader {
  import opened Machine
  import opened RingIndex

  const LINE_SIZE: nat := 151
  const EFAULT: int := 14

  datatype Entry = Entry(thread: int, timestamp: nat, message: string)

  /** Characters "%d" prints. */
  function Width(x: int): (w: nat)
    ensures w > 0
    decreases if x < 0 then 1 - x else x
  {
    if x < 0 then 1 + Width(-x) else if x < 10 then 1 else 1 + Width(x / 10)
  }

  // ---------------------------------------------------------------- a line

  /** Decimal digits of a number, without leading zeros. */
  function Digits(x: nat): (s: string)
    ensures |s| == Width(x) && Digital(s)
  {
    if x < 10 then ['0' + x as char] else Digits(x / 10) + ['0' + (x % 10) as char]
  }

  /** The number a string of digits stands for. */
  function Value(s: string): nat
    requires Digital(s)
  {
    if s == "" then 0 else 10 * Value(s[..|s| - 1]) + (s[|s| - 1] - '0') as int
  }

  /** Reading the digits back gives the number. */
  lemma {:induction false} DigitsRead(x: nat)
    ensures Value(Digits(x)) == x
  {
    if x < 10 {
      assert Digits(x)[..0] == "";
    } else {
      DigitsRead(x / 10);
      assert Digits(x)[..|Digits(x)| - 1] == Digits(x / 10);
    }
  }

  function Repeat(c: char, n: nat): (s: string)
    ensures |s| == n && forall i :: 0 <= i < n ==> s[i] == c
  {
    seq(n, _ => c)
  }

  /** `s` on the right of a field of `width` characters. */
  function Padded(s: string, width: nat, c: char): (p: string)
    ensures |p| == if |s| < width then width else |s|
    ensures s == p[|p| - |s|..] && forall i :: 0 <= i < |p| - |s| ==> p[i] == c
  {
    if |s| < width then Repeat(c, width - |s|) + s else s
  }

  /** "%d" */
  function Signed(x: int): (s: string)
    ensures |s| == Width(x)
  {
    if x < 0 then "-" + Digits(-x) else Digits(x)
  }

  /** "%3d: %010u: %s\n" for a 32-bit timestamp */
  function Rendered(e: Entry): string {
    Padded(Signed(e.thread), 3, ' ') + ": " + Padded(Digits(U32(e.timestamp)), 10, '0') + ": " + e.message + "\n"
  }

  /** What snprintf returns for the line. */
  function LineLength(e: Entry): (l: nat)
    ensures l > 0
  {
    |Rendered(e)|
  }

  lemma {:induction false} ZerosRead(k: nat, s: string)
    requires Digital(s)
    ensures Value(Repeat('0', k) + s) == Value(s)
    decreases |s|, k
  {
    var z := Repeat('0', k) + s;
    if s != "" {
      ZerosRead(k, s[..|s| - 1]);
      assert z[..|z| - 1] == Repeat('0', k) + s[..|s| - 1];
    } else if k > 0 {
      ZerosRead(k - 1, s);
      assert z[..|z| - 1] == Repeat('0', k - 1) + s;
    }
  }

  /** Digits padded with zeros still read the same. */
  lemma ZeroPadded(s: string)
    requires Digital(s) && |s| <= 10
    ensures var p := Padded(s, 10, '0');
            |p| == 10 && Digital(p) && Value(p) == Value(s)
  {
    hide Value;
    ZerosRead(10 - |s|, s);
    assert Padded(s, 10, '0') == Repeat('0', 10 - |s|) + s;
  }

  /** The timestamp's ten digits read back. */
  lemma StampRead(x: nat)
    requires x < 0x1_0000_0000
    ensures var s := Padded(Digits(x), 10, '0');
            |s| == 10 && Digital(s) && Value(s) == x
  {
    hide Value, Digits, Padded, Width, Digital;
    Pow10Of10();
    WidthBound(x, 10);
    DigitsRead(x);
    ZeroPadded(Digits(x));
  }

  /** A thread number that is not negative reads back from the right of its field. */
  lemma ThreadRead(x: int) returns (blanks: string, thread: string)
    ensures Padded(Signed(x), 3, ' ') == blanks + thread && |thread| == Width(x)
    ensures |blanks| == (if |thread| < 3 then 3 - |thread| else 0)
    ensures x >= 0 ==> Digital(thread) && Value(thread) == x
  {
    thread := Signed(x);
    blanks := Repeat(' ', if |thread| < 3 then 3 - |thread| else 0);
    if x >= 0 {
      DigitsRead(x);
    }
  }

  /** A line is three fields of known width, and each reads back. */
  lemma LineRead(e: Entry) returns (blanks: string, thread: string, stamp: string)
    ensures Rendered(e) == (blanks + thread) + ": " + stamp + ": " + e.message + "\n"
    ensures |thread| == Width(e.thread) && |blanks| == (if |thread| < 3 then 3 - |thread| else 0)
    ensures |stamp| == 10 && Digital(stamp) && Value(stamp) == U32(e.timestamp)
    ensures e.thread >= 0 ==> Digital(thread) && Value(thread) == e.thread
  {
    hide Value, Digits, Width, U32, Padded, Signed, Digital;
    blanks, thread := ThreadRead(e.thread);
    stamp := Padded(Digits(U32(e.timestamp)), 10, '0');
    StampRead(U32(e.timestamp));
  }

  predicate Digital(s: string) {
    forall i :: 0 <= i < |s| ==> '0' <= s[i] <= '9'
  }

  /** A 32-bit timestamp fills its ten digits exactly. */
  lemma LineParts(e: Entry)
    ensures LineLength(e)
         == (if Width(e.thread) < 3 then 3 else Width(e.thread)) + 2 + 10 + 2 + |e.message| + 1
  {
    Pow10Of10();
    WidthBound(U32(e.timestamp), 10);
  }

  lemma Pow10Of10()
    ensures Pow10(10) == 10_000_000_000
  {
    assert Pow10(5) == 100000;
    assert Pow10(10) == 10 * (10 * (10 * (10 * (10 * Pow10(5)))));
  }

  function Pow10(d: nat): nat {
    if d == 0 then 1 else 10 * Pow10(d - 1)
  }

  lemma {:induction false} WidthBound(x: nat, d: nat)
    requires d > 0 && x < Pow10(d)
    ensures Width(x) <= d
  {
    if x >= 10 {
      WidthBound(x / 10, d - 1);
    }
  }

  /** A thread number of up to five characters and a terminated message make a line that fits. */
  lemma LineFits(e: Entry)
    requires -9999 <= e.thread <= 99999 && |e.message| <= 131
    ensures LineLength(e) <= LINE_SIZE
  {
    assert Pow10(2) == 100 && Pow10(4) == 10000 && Pow10(5) == 100000;
    LineParts(e);
    WidthBound(if e.thread < 0 then -e.thread else e.thread, if e.thread < 0 then 4 else 5);
  }

  ghost predicate Recent(ring: seq<Entry>, log: seq<Entry>) {
    |ring| > 0 && forall k :: |log| - |ring| <= k < |log| && k >= 0 ==> ring[Slot(k, |ring|)] == log[k]
  }

  lemma RecentAppend(ring: seq<Entry>, log: seq<Entry>, e: Entry)
    requires Recent(ring, log)
    ensures Recent(ring[Slot(|log|, |ring|) := e], log + [e])
  {
    forall k | |log| + 1 - |ring| <= k < |log| && k >= 0
      ensures Slot(k, |ring|) != Slot(|log|, |ring|)
    {
      SlotInjective(k, |log|, |ring|);
    }
  }

  /** The newest entry that shares the ring position of entry `s`, among the first `current`. */
  function Lap(s: nat, n: nat, current: nat): (k: nat)
    requires n > 0 && s < current
    ensures s <= k < current <= k + n
    decreases current - s
  {
    if current <= s + n then s else Lap(s + n, n, current)
  }

  lemma {:induction false} LapSlot(s: nat, n: nat, current: nat)
    requires n > 0 && s < current
    ensures Slot(Lap(s, n, current), n) == Slot(s, n)
    ensures Lap(s, n, current) == s <==> current <= s + n
    decreases current - s
  {
    if current > s + n {
      assert Slot(s + n, n) == Slot(s, n);
      LapSlot(s + n, n, current);
    }
  }

  /** The log after the firmware tried to write `es`; its 32-bit counter does not wrap. */
  function Grown(log: seq<Entry>, es: seq<Entry>): (log': seq<Entry>)
    requires |log| < 0x1_0000_0000
    ensures log <= log' && |log'| < 0x1_0000_0000
  {
    log + es[..Room(log, es)]
  }

  function Room(log: seq<Entry>, es: seq<Entry>): (k: nat)
    requires |log| < 0x1_0000_0000
    ensures k <= |es| && |log| + k < 0x1_0000_0000
  {
    if |log| + |es| < 0x1_0000_0000 then |es| else 0x1_0000_0000 - 1 - |log|
  }

  /** The memory shared with the firmware: nss_log_descriptor. */
  class LogMemory {
    const ring: array<Entry>
    var currentEntry: nat
    ghost var log: seq<Entry>

    ghost predicate Valid()
      reads this, ring
    {
      && ring.Length > 0 && currentEntry == |log| < 0x1_0000_0000
      && Recent(ring[..], log)
    }

    constructor (nentries: nat, blank: Entry)
      requires nentries > 0
      ensures Valid() && log == [] && ring.Length == nentries && fresh(ring)
    {
      ring := new Entry[nentries](_ => blank);
      currentEntry, log := 0, [];
    }

    /** The firmware writes one entry. */
    method Append(e: Entry)
      requires Valid() && |log| + 1 < 0x1_0000_0000
      modifies this, ring
      ensures Valid() && log == old(log) + [e]
    {
      RecentAppend(ring[..], log, e);
      ghost var slots := ring[..][Slot(|log|, ring.Length) := e];
      SlotIsMod(currentEntry, ring.Length);
      ring[currentEntry % ring.Length] := e;
      assert ring[..] == slots;
      log := log + [e];
      currentEntry := currentEntry + 1;
    }

    /** The firmware writes several entries. */
    method Appends(es: seq<Entry>)
      requires Valid()
      modifies this, ring
      ensures Valid() && log == Grown(old(log), es)
    {
      hide Recent;
      ghost var room := Room(log, es);
      var n := 0;
      while n < |es| && currentEntry + 1 < 0x1_0000_0000
        invariant n <= room && Valid() && log == old(log) + es[..n]
        decreases |es| - n
      {
        Append(es[n]);
        assert es[..n + 1] == es[..n] + [es[n]];
        n := n + 1;
      }
    }

    /** What the slot of entry `s` holds now: that entry, or a later lap if it was overwritten. */
    method Fetch(s: nat) returns (e: Entry)
      requires Valid() && s < currentEntry
      ensures e == log[Lap(s, ring.Length, |log|)]
    {
      LapSlot(s, ring.Length, currentEntry);
      SlotIsMod(s, ring.Length);
      e := ring[s % ring.Length];
      assert ring[..][Slot(Lap(s, ring.Length, currentEntry), ring.Length)] == log[Lap(s, ring.Length, currentEntry)];
    }
  }

  // ---------------------------------------------------------------- what a reader printed

  /**
   One line taken from the ring: which entry the cursor asked for, which one its slot held, how
   long the log was at that moment and when the read sampled it, and whether the copy to the user
   succeeded.
   */
  datatype Line = Line(seqNo: nat, found: nat, entry: Entry, at: nat, sampled: nat, copied: bool)

  /** The cursor only moves forward, and the log only grows. */
  ghost predicate InOrder(lines: seq<Line>) {
    forall i, j :: 0 <= i < j < |lines| ==> lines[i].seqNo < lines[j].seqNo && lines[i].at <= lines[j].at
  }

  ghost predicate Genuine(lines: seq<Line>, log: seq<Entry>, n: nat)
    requires n > 0
  {
    forall i :: 0 <= i < |lines| ==> GenuineLine(lines[i], log, n)
  }

  /** A line is the newest log entry in the slot of the one asked for, which the read had seen written. */
  ghost predicate GenuineLine(l: Line, log: seq<Entry>, n: nat)
    requires n > 0
  {
    && l.seqNo < l.sampled <= l.at <= |log|
    && l.found == Lap(l.seqNo, n, l.at) && l.entry == log[l.found]
  }

  /** Where the cursor stood before line `i`. */
  function Before(lines: seq<Line>, i: nat): nat
    requires i <= |lines|
  {
    if i == 0 then 0 else lines[i - 1].seqNo + 1
  }

  /** A line that does not follow its predecessor directly was the oldest in the ring when its read began. */
  ghost predicate GapIsOld(l: Line, before: nat, n: nat) {
    l.seqNo == before || l.seqNo + n == l.sampled
  }

  ghost predicate GapsAreOld(lines: seq<Line>, n: nat) {
    forall i :: 0 <= i < |lines| ==> Before(lines, i) <= lines[i].seqNo && GapIsOld(lines[i], Before(lines, i), n)
  }

  /** A reader's whole record, with the cursor standing just past the last line. */
  ghost predicate GoodRecord(lines: seq<Line>, log: seq<Entry>, n: nat, cursor: nat)
    requires n > 0
  {
    && InOrder(lines) && Genuine(lines, log, n) && GapsAreOld(lines, n)
    && cursor == Before(lines, |lines|)
  }

  /** Every entry the reader skipped had left the ring when the read that skipped it began. */
  lemma SkippedHadLeft(lines: seq<Line>, log: seq<Entry>, n: nat, cursor: nat, i: nat, x: nat)
    requires n > 0 && GoodRecord(lines, log, n, cursor) && i < |lines|
    requires Before(lines, i) <= x < lines[i].seqNo
    ensures x + n < lines[i].sampled <= |log|
  {
    assert GenuineLine(lines[i], log, n);
  }

  function Bytes(lines: seq<Line>): nat {
    if lines == [] then 0 else LineLength(lines[0].entry) + Bytes(lines[1..])
  }

  /** What the user finds in the buffer: the lines whose copy succeeded. */
  function Text(lines: seq<Line>): string {
    if lines == [] then ""
    else
      var before, l := Text(lines[..|lines| - 1]), lines[|lines| - 1];
      if l.copied then before + Rendered(l.entry) else before
  }

  lemma TextAppend(lines: seq<Line>, l: Line)
    ensures Text(lines + [l]) == if l.copied then Text(lines) + Rendered(l.entry) else Text(lines)
  {
    assert (lines + [l])[..|lines|] == lines;
  }

  lemma BytesCons(l: Line, lines: seq<Line>)
    ensures Bytes([l] + lines) == LineLength(l.entry) + Bytes(lines)
  {
    assert ([l] + lines)[1..] == lines;
  }

  lemma BeforeKept(lines: seq<Line>, l: Line, i: nat)
    requires i <= |lines|
    ensures Before(lines + [l], i) == Before(lines, i)
  {
  }

  lemma OrderGrows(lines: seq<Line>, log: seq<Entry>, n: nat, l: Line)
    requires n > 0 && InOrder(lines) && Genuine(lines, log, n) && Before(lines, |lines|) <= l.seqNo && |log| <= l.at
    ensures InOrder(lines + [l])
  {
    forall i | 0 <= i < |lines|
      ensures lines[i].seqNo < l.seqNo && lines[i].at <= l.at
    {
      assert GenuineLine(lines[i], log, n);
    }
  }

  lemma GapsGrow(lines: seq<Line>, n: nat, l: Line)
    requires GapsAreOld(lines, n) && Before(lines, |lines|) <= l.seqNo && GapIsOld(l, Before(lines, |lines|), n)
    ensures GapsAreOld(lines + [l], n)
  {
    hide Before, GapIsOld;
    var lines' := lines + [l];
    forall i | 0 <= i < |lines'|
      ensures Before(lines', i) <= lines'[i].seqNo && GapIsOld(lines'[i], Before(lines', i), n)
    {
      BeforeKept(lines, l, i);
      if i < |lines| {
        assert lines'[i] == lines[i];
        assert GapIsOld(lines[i], Before(lines, i), n);
      }
    }
  }

  lemma GenuineGrows(lines: seq<Line>, log: seq<Entry>, log': seq<Entry>, n: nat, l: Line)
    requires n > 0 && Genuine(lines, log, n) && log <= log' && GenuineLine(l, log', n)
    ensures Genuine(lines + [l], log', n)
  {
    forall i | 0 <= i < |lines|
      ensures GenuineLine(lines[i], log', n)
    {
      assert GenuineLine(lines[i], log, n);
    }
  }

  /** A line fetched after the log grew from `log` to `log'` continues the record. */
  lemma RecordGrows(lines: seq<Line>, log: seq<Entry>, log': seq<Entry>, n: nat, cursor: nat, l: Line)
    requires n > 0 && GoodRecord(lines, log, n, cursor) && log <= log' && GenuineLine(l, log', n) && l.at == |log'|
    requires cursor <= l.seqNo && GapIsOld(l, cursor, n)
    ensures GoodRecord(lines + [l], log', n, l.seqNo + 1)
  {
    hide InOrder, Genuine, GapsAreOld, GenuineLine, GapIsOld;
    OrderGrows(lines, log, n, l);
    GapsGrow(lines, n, l);
    GenuineGrows(lines, log, log', n, l);
  }

  // ---------------------------------------------------------------- order

  lemma {:induction false} SlotOfSum(x: nat, d: nat, n: nat)
    requires n > 0
    ensures Slot(x + d, n) == Slot(x + Slot(d, n), n)
    decreases d
  {
    if d >= n {
      SlotOfSum(x, d - n, n);
      assert Slot(x + d, n) == Slot(x + d - n, n);
    }
  }

  lemma SlotShift(x: nat, y: nat, d: nat, n: nat)
    requires n > 0 && d <= n && Slot(x, n) == Slot(y, n)
    ensures Slot(x + d, n) == Slot(y + d, n)
  {
    SlotAdd(x, d, n);
    SlotAdd(y, d, n);
  }

  /** Where the slot of the later line's entry comes round next after what the earlier line found. */
  function NextAfter(a: Line, b: Line, n: nat): nat
    requires n > 0 && a.seqNo <= b.seqNo
  {
    a.found + Slot(b.seqNo - a.seqNo, n)
  }

  /**
   When a record runs backwards: a later line prints an older entry than an earlier line exactly
   when the firmware had not yet written its slot again since it wrote what the earlier line found.
   */
  lemma RunsBackwardsIff(lines: seq<Line>, log: seq<Entry>, n: nat, cursor: nat, i: nat, j: nat)
    requires n > 0 && GoodRecord(lines, log, n, cursor) && i < j < |lines|
    ensures lines[i].seqNo < lines[j].seqNo
    ensures lines[j].found < lines[i].found <==> lines[j].at <= NextAfter(lines[i], lines[j], n)
  {
    hide Genuine, GapsAreOld, InOrder, Before, NextAfter;
    InRecord(lines, log, n, cursor, i, j);
    LinesBackwardsIff(lines[i], lines[j], log, n);
  }

  lemma InRecord(lines: seq<Line>, log: seq<Entry>, n: nat, cursor: nat, i: nat, j: nat)
    requires n > 0 && GoodRecord(lines, log, n, cursor) && i < j < |lines|
    ensures GenuineLine(lines[i], log, n) && GenuineLine(lines[j], log, n)
    ensures lines[i].seqNo < lines[j].seqNo && lines[i].at <= lines[j].at
  {
    hide GapsAreOld, GenuineLine;
  }

  lemma LinesBackwardsIff(a: Line, b: Line, log: seq<Entry>, n: nat)
    requires n > 0 && GenuineLine(a, log, n) && GenuineLine(b, log, n) && a.seqNo < b.seqNo && a.at <= b.at
    ensures b.found < a.found <==> b.at <= NextAfter(a, b, n)
  {
    hide Slot, Lap;
    BackwardsIff(a.seqNo, a.at, b.seqNo, b.at, n);
  }

  lemma BackwardsIff(s: nat, at: nat, t: nat, at': nat, n: nat)
    requires n > 0 && s < t && s < at && t < at' && at <= at'
    ensures var f, g, r := Lap(s, n, at), Lap(t, n, at'), Slot(t - s, n);
            g < f <==> at' <= f + r
  {
    hide Slot, Lap;
    var f, g, r := Lap(s, n, at), Lap(t, n, at'), Slot(t - s, n);
    LapSlot(s, n, at);
    LapSlot(t, n, at');
    SlotShift(f, s, r, n);
    SlotOfSum(s, t - s, n);
    assert Slot(g, n) == Slot(f + r, n);
    if at' <= f + r && f <= g {
      SlotInjective(g, f + r, n);
    }
    if at' > f + r && g < f {
      SlotInjective(g, f + r, n);
    }
  }

  /** The same, but a full lap on if both lines have the same slot. */
  function RoundAfter(a: Line, b: Line, n: nat): nat
    requires n > 0 && a.seqNo <= b.seqNo
  {
    var r := Slot(b.seqNo - a.seqNo, n);
    a.found + if r == 0 then n else r
  }

  /**
   When a record does not increase: a later line prints an older entry than an earlier line, or the
   same one again, exactly when the firmware had not yet come round to its slot again.
   */
  lemma NotIncreasingIff(lines: seq<Line>, log: seq<Entry>, n: nat, cursor: nat, i: nat, j: nat)
    requires n > 0 && GoodRecord(lines, log, n, cursor) && i < j < |lines|
    ensures lines[i].seqNo < lines[j].seqNo
    ensures lines[j].found <= lines[i].found <==> lines[j].at <= RoundAfter(lines[i], lines[j], n)
  {
    hide Genuine, GapsAreOld, InOrder, Before, Slot, Lap;
    InRecord(lines, log, n, cursor, i, j);
    var a, b := lines[i], lines[j];
    BackwardsOrSameIff(a.seqNo, a.at, b.seqNo, b.at, n);
  }

  lemma BackwardsOrSameIff(s: nat, at: nat, t: nat, at': nat, n: nat)
    requires n > 0 && s < t && s < at && t < at' && at <= at'
    ensures var f, g, r := Lap(s, n, at), Lap(t, n, at'), Slot(t - s, n);
            g <= f <==> at' <= f + if r == 0 then n else r
  {
    hide Slot, Lap;
    var f, g, r := Lap(s, n, at), Lap(t, n, at'), Slot(t - s, n);
    BackwardsIff(s, at, t, at', n);
    LapSlot(s, n, at);
    LapSlot(t, n, at');
    SlotShift(f, s, r, n);
    SlotOfSum(s, t - s, n);
    assert Slot(g, n) == Slot(f + r, n);
    if r == 0 && at' <= f + n {
      SlotInjective(f, g, n);
    }
    if r > 0 && g == f {
      SlotInjective(f, f + r, n);
    }
  }

  /** As long as the firmware laps neither line, entries come out in strictly increasing order. */
  lemma PrintedInOrder(lines: seq<Line>, log: seq<Entry>, n: nat, cursor: nat, i: nat, j: nat)
    requires n > 0 && GoodRecord(lines, log, n, cursor) && i < j < |lines|
    requires lines[j].at <= lines[j].seqNo + n && lines[i].at <= lines[i].seqNo + n
    ensures lines[i].found < lines[j].found && lines[i].entry == log[lines[i].seqNo]
  {
    assert GenuineLine(lines[i], log, n) && GenuineLine(lines[j], log, n);
  }

  // ---------------------------------------------------------------- one read on values

  /** The outside of one read: what the firmware writes before a fetch, and whether the copy succeeds, by cursor. */
  datatype World = World(arrivals: nat -> seq<Entry>, copyOk: nat -> bool)

  datatype Copied = Copied(log: seq<Entry>, lines: seq<Line>, bytes: nat, failed: bool)

  /** The line the cursor gets when the firmware has first written what it writes then. */
  function LineAt(log: seq<Entry>, n: nat, cursor: nat, sampled: nat, ok: bool): (l: Line)
    requires n > 0 && cursor < |log|
  {
    Line(cursor, Lap(cursor, n, |log|), log[Lap(cursor, n, |log|)], |log|, sampled, ok)
  }

  /** The copy loop: until the sampled index, until the next line might not fit, or until a copy fails. */
  function Copy(log: seq<Entry>, n: nat, cursor: nat, sampled: nat, size: nat, bytes: nat, w: World): (r: Copied)
    requires n > 0 && cursor < sampled <= |log| < 0x1_0000_0000
    ensures log <= r.log && |r.log| < 0x1_0000_0000 && r.lines != []
    decreases sampled - cursor
  {
    var log' := Grown(log, w.arrivals(cursor));
    var l := LineAt(log', n, cursor, sampled, w.copyOk(cursor));
    var total := bytes + LineLength(l.entry);
    if !l.copied then Copied(log', [l], bytes, true)
    else if total + LINE_SIZE >= size || cursor + 1 == sampled then Copied(log', [l], total, false)
    else
      var r := Copy(log', n, cursor + 1, sampled, size, total, w);
      r.(lines := [l] + r.lines)
  }

  /** A read that has already printed some lines. */
  function Continue(lines: seq<Line>, r: Copied): Copied {
    r.(lines := lines + r.lines)
  }

  lemma ContinueNone(r: Copied)
    ensures Continue([], r) == r
  {
  }

  /** One round of the copy loop. */
  lemma ContinueStep(lines: seq<Line>, log: seq<Entry>, n: nat, cursor: nat, sampled: nat,
                     size: nat, bytes: nat, w: World)
    requires n > 0 && cursor < sampled <= |log| < 0x1_0000_0000
    ensures var log', ok := Grown(log, w.arrivals(cursor)), w.copyOk(cursor);
            var l := LineAt(log', n, cursor, sampled, ok);
            var total := bytes + LineLength(l.entry);
            Continue(lines, Copy(log, n, cursor, sampled, size, bytes, w))
            == if !ok then Copied(log', lines + [l], bytes, true)
               else if total + LINE_SIZE >= size || cursor + 1 == sampled then Copied(log', lines + [l], total, false)
               else Continue(lines + [l], Copy(log', n, cursor + 1, sampled, size, total, w))
  {
    hide LineLength, Lap, Grown;
    var log' := Grown(log, w.arrivals(cursor));
    var l := LineAt(log', n, cursor, sampled, w.copyOk(cursor));
    var total := bytes + LineLength(l.entry);
    if l.copied && total + LINE_SIZE < size && cursor + 1 < sampled {
      var r := Copy(log', n, cursor + 1, sampled, size, total, w);
      assert lines + ([l] + r.lines) == (lines + [l]) + r.lines;
    }
  }

  /** The lines of one read are consecutive, each is copied or not as the outside has it, and only the last may fail. */
  lemma {:induction false} CopyLines(log: seq<Entry>, n: nat, cursor: nat, sampled: nat,
                                     size: nat, bytes: nat, w: World)
    requires n > 0 && cursor < sampled <= |log| < 0x1_0000_0000
    ensures var r := Copy(log, n, cursor, sampled, size, bytes, w);
            && cursor + |r.lines| <= sampled
            && (forall i :: 0 <= i < |r.lines| ==>
                  && r.lines[i].seqNo == cursor + i && r.lines[i].copied == w.copyOk(cursor + i)
                  && r.lines[i].copied == (!r.failed || i < |r.lines| - 1))
    decreases sampled - cursor
  {
    hide LineLength, Lap, Grown;
    var log' := Grown(log, w.arrivals(cursor));
    var l := LineAt(log', n, cursor, sampled, w.copyOk(cursor));
    var total := bytes + LineLength(l.entry);
    if l.copied && total + LINE_SIZE < size && cursor + 1 < sampled {
      CopyLines(log', n, cursor + 1, sampled, size, total, w);
    }
  }

  ghost predicate ShortLines(lines: seq<Line>) {
    forall i :: 0 <= i < |lines| ==> LineLength(lines[i].entry) <= LINE_SIZE
  }

  /** A read returns the length of its lines. */
  lemma {:induction false} CopyTotal(log: seq<Entry>, n: nat, cursor: nat, sampled: nat,
                                     size: nat, bytes: nat, w: World)
    requires n > 0 && cursor < sampled <= |log| < 0x1_0000_0000
    ensures var r := Copy(log, n, cursor, sampled, size, bytes, w);
            !r.failed ==> r.bytes == bytes + Bytes(r.lines)
    decreases sampled - cursor
  {
    hide LineLength, Lap, Grown;
    var log' := Grown(log, w.arrivals(cursor));
    var l := LineAt(log', n, cursor, sampled, w.copyOk(cursor));
    var total := bytes + LineLength(l.entry);
    BytesCons(l, []);
    assert [l] + [] == [l];
    if l.copied && total + LINE_SIZE < size && cursor + 1 < sampled {
      CopyTotal(log', n, cursor + 1, sampled, size, total, w);
      BytesCons(l, Copy(log', n, cursor + 1, sampled, size, total, w).lines);
    }
  }

  lemma ShortCons(l: Line, lines: seq<Line>)
    ensures ShortLines([l] + lines) ==> ShortLines(lines)
  {
    assert forall i :: 0 <= i < |lines| ==> ([l] + lines)[i + 1] == lines[i];
  }

  /** If no line is longer than 151 bytes, a read stays within the caller's buffer. */
  lemma {:induction false} CopyFits(log: seq<Entry>, n: nat, cursor: nat, sampled: nat,
                                    size: nat, bytes: nat, w: World)
    requires n > 0 && cursor < sampled <= |log| < 0x1_0000_0000
    requires LINE_SIZE <= size && (bytes == 0 || bytes + LINE_SIZE < size)
    ensures var r := Copy(log, n, cursor, sampled, size, bytes, w);
            !r.failed && ShortLines(r.lines) ==> r.bytes <= size
    decreases sampled - cursor
  {
    hide LineLength, Lap, Grown;
    var log' := Grown(log, w.arrivals(cursor));
    var l := LineAt(log', n, cursor, sampled, w.copyOk(cursor));
    var total := bytes + LineLength(l.entry);
    if l.copied && total + LINE_SIZE < size && cursor + 1 < sampled {
      CopyFits(log', n, cursor + 1, sampled, size, total, w);
      ShortCons(l, Copy(log', n, cursor + 1, sampled, size, total, w).lines);
    } else {
      assert [l][0] == l;
    }
  }

  /** A read stops early only when another line might not have fitted. */
  lemma {:induction false} CopyStops(log: seq<Entry>, n: nat, cursor: nat, sampled: nat,
                                     size: nat, bytes: nat, w: World)
    requires n > 0 && cursor < sampled <= |log| < 0x1_0000_0000
    ensures var r := Copy(log, n, cursor, sampled, size, bytes, w);
            !r.failed ==> cursor + |r.lines| == sampled || r.bytes + LINE_SIZE >= size
    decreases sampled - cursor
  {
    hide LineLength, Lap, Grown;
    var log' := Grown(log, w.arrivals(cursor));
    var l := LineAt(log', n, cursor, sampled, w.copyOk(cursor));
    var total := bytes + LineLength(l.entry);
    if l.copied && total + LINE_SIZE < size && cursor + 1 < sampled {
      CopyStops(log', n, cursor + 1, sampled, size, total, w);
    }
  }

  lemma BytesPrefix(l: Line, lines: seq<Line>, k: nat)
    requires k <= |lines|
    ensures Bytes(([l] + lines)[..k + 1]) == LineLength(l.entry) + Bytes(lines[..k])
  {
    assert ([l] + lines)[..k + 1] == [l] + lines[..k];
    BytesCons(l, lines[..k]);
  }

  /** And it goes on only while another line is sure to fit, with a byte to spare. */
  lemma {:induction false} CopyGoesOn(log: seq<Entry>, n: nat, cursor: nat, sampled: nat,
                                      size: nat, bytes: nat, w: World, k: nat)
    requires n > 0 && cursor < sampled <= |log| < 0x1_0000_0000
    requires 0 < k < |Copy(log, n, cursor, sampled, size, bytes, w).lines|
    ensures bytes + Bytes(Copy(log, n, cursor, sampled, size, bytes, w).lines[..k]) + LINE_SIZE < size
    decreases sampled - cursor
  {
    hide LineLength, Lap, Grown, Bytes;
    var log' := Grown(log, w.arrivals(cursor));
    var l := LineAt(log', n, cursor, sampled, w.copyOk(cursor));
    var total := bytes + LineLength(l.entry);
    var rest := Copy(log', n, cursor + 1, sampled, size, total, w).lines;
    BytesPrefix(l, rest, k - 1);
    if k == 1 {
      NoBytes();
    } else {
      CopyGoesOn(log', n, cursor + 1, sampled, size, total, w, k - 1);
    }
  }

  lemma NoBytes()
    ensures forall lines: seq<Line> :: Bytes(lines[..0]) == 0
  {
  }

  /** One read continues the reader's record. */
  lemma {:induction false} CopyRecord(lines: seq<Line>, last: nat, log: seq<Entry>, n: nat, cursor: nat, sampled: nat,
                                      size: nat, bytes: nat, w: World)
    requires n > 0 && last <= cursor < sampled <= |log| < 0x1_0000_0000
    requires GoodRecord(lines, log, n, last) && (cursor == last || cursor + n == sampled)
    ensures var r := Copy(log, n, cursor, sampled, size, bytes, w);
            GoodRecord(lines + r.lines, r.log, n, cursor + |r.lines|)
    decreases sampled - cursor
  {
    hide GoodRecord, LineLength, Lap;
    var log' := Grown(log, w.arrivals(cursor));
    var l := LineAt(log', n, cursor, sampled, w.copyOk(cursor));
    var total := bytes + LineLength(l.entry);
    RecordGrows(lines, log, log', n, last, l);
    if l.copied && total + LINE_SIZE < size && cursor + 1 < sampled {
      CopyRecord(lines + [l], cursor + 1, log', n, cursor + 1, sampled, size, total, w);
      var r := Copy(log', n, cursor + 1, sampled, size, total, w);
      assert (lines + [l]) + r.lines == lines + ([l] + r.lines);
    }
  }

  /**
   A read that runs backwards: the log fills the ring exactly, the first read starts at entry 0, and
   before the first fetch the firmware writes one entry more. It prints entry `n`, then entry 1.
   */
  lemma LappedReadRunsBackwards(log: seq<Entry>, e: Entry, size: nat, w: World)
    requires 2 <= |log| < 0x1_0000_0000 - 1 && LineLength(e) + LINE_SIZE < size
    requires w.copyOk(0) && w.arrivals(0) == [e] && w.arrivals(1) == []
    ensures var n := |log|;
            var lines := Copy(log, n, 0, n, size, 0, w).lines;
            |lines| >= 2 && lines[0].found == n && lines[0].entry == e && lines[1].found == 1
  {
    hide LineLength;
    var n := |log|;
    var log' := Grown(log, [e]);
    assert log' == log + [e];
    assert Lap(0, n, n + 1) == n && Lap(1, n, n + 1) == 1;
    assert Grown(log', []) == log';
    assert LineAt(log', n, 0, n, true).entry == e;
    assert Copy(log', n, 1, n, size, LineLength(e), w).lines[0].found == 1;
  }

  /**
   A run that repeats itself: a ring of two entries is full, the first read starts at entry 0, and
   before the first fetch the firmware writes one entry more. The read prints entries 2 and 1, and
   the next read prints entry 2 again.
   */
  lemma LappedReadRepeats(log: seq<Entry>, e: Entry, size: nat, size': nat, w: World, w': World)
    requires |log| == 2 && LineLength(e) + LINE_SIZE < size
    requires w.copyOk(0) && w.arrivals(0) == [e] && w.arrivals(1) == [] && w'.arrivals(2) == []
    ensures var first := Copy(log, 2, 0, 2, size, 0, w);
            && |first.lines| == 2 && first.lines[0].found == 2 && first.lines[1].found == 1
            && first.log == log + [e]
            && var again := Copy(first.log, 2, 2, 3, size', 0, w').lines[0];
               again.found == 2 && again.entry == first.lines[0].entry == e
  {
    hide LineLength;
    var log' := Grown(log, [e]);
    assert log' == log + [e];
    assert Lap(0, 2, 3) == 2 && Lap(1, 2, 3) == 1 && Lap(2, 2, 3) == 2;
    assert Grown(log', []) == log';
    assert LineAt(log', 2, 0, 2, true).entry == e;
    var second := LineAt(log', 2, 1, 2, w.copyOk(1));
    assert Copy(log', 2, 1, 2, size, LineLength(e), w).lines == [second];
    assert Copy(log', 2, 2, 3, size', 0, w').lines == [LineAt(log', 2, 2, 3, w'.copyOk(2))];
  }

  lemma NoText()
    ensures Text([]) == ""
  {
  }

  lemma CopiedAt(log: seq<Entry>, n: nat, cursor: nat, sampled: nat, ok: bool)
    requires n > 0 && cursor < |log|
    ensures LineAt(log, n, cursor, sampled, ok).copied == ok
  {
  }

  // ---------------------------------------------------------------- the reader

  /** nss_log_data together with the file position. */
  class Reader {
    const mem: LogMemory
    var lastEntry: nat
    var ppos: nat
    ghost var lines: seq<Line>

    ghost predicate Valid()
      reads this, mem, mem.ring
    {
      && mem.Valid()
      && GoodRecord(lines, mem.log, mem.ring.Length, lastEntry)
      && (ppos == 0 <==> lines == [])
    }

    /** nss_log_open */
    constructor (mem: LogMemory)
      requires mem.Valid()
      ensures Valid() && lines == [] && this.mem == mem
    {
      this.mem := mem;
      lastEntry, ppos, lines := 0, 0, [];
    }

    /** Where the cursor is put before a read: past everything that has left the ring. */
    function Restart(entry: nat): (start: nat)
      reads this
      ensures lastEntry <= entry && (ppos == 0 ==> lastEntry == 0) ==> lastEntry <= start <= entry
      ensures start == lastEntry || start + mem.ring.Length == entry || (ppos == 0 && start == 0)
      ensures entry <= start + mem.ring.Length
    {
      var n := mem.ring.Length;
      if ppos == 0 then (if entry > n then entry - n else 0)
      else if entry > n && entry - n > lastEntry then entry - n
      else lastEntry
    }

    /** One round of the copy loop before the copy: the firmware writes, then the slot is read. */
    method FetchLine(cursor: nat, arrivals: seq<Entry>, ghost sampled: nat, ghost ok: bool)
      returns (e: Entry, ghost l: Line)
      requires mem.Valid() && cursor < |mem.log|
      modifies mem, mem.ring
      ensures mem.Valid() && mem.log == Grown(old(mem.log), arrivals)
      ensures l == LineAt(mem.log, mem.ring.Length, cursor, sampled, ok) && e == l.entry
    {
      mem.Appends(arrivals);
      e := mem.Fetch(cursor);
      l := LineAt(mem.log, mem.ring.Length, cursor, sampled, ok);
    }

    /** The copy loop. */
    method CopyLoop(start: nat, entry: nat, size: nat, w: World)
      returns (bytes: nat, failed: bool, text: string, ghost added: seq<Line>)
      requires mem.Valid() && start < entry <= |mem.log| && LINE_SIZE <= size
      modifies this`lastEntry, mem, mem.ring
      ensures mem.Valid() && lastEntry == start + |added|
      ensures Copied(mem.log, added, bytes, failed) == Copy(old(mem.log), mem.ring.Length, start, entry, size, 0, w)
      ensures text == Text(added) && bytes == |text|
    {
      hide Recent, Lap, Rendered, Grown, Copy, LineAt, Continue, Text;
      ghost var n, whole := mem.ring.Length, Copy(mem.log, mem.ring.Length, start, entry, size, 0, w);
      lastEntry := start;
      bytes, failed, text, added := 0, false, "", [];
      NoText();
      ContinueNone(whole);
      var done := false;
      while !done
        invariant mem.Valid() && start <= lastEntry <= entry <= |mem.log| && lastEntry == start + |added|
        invariant !done ==> lastEntry < entry && !failed
        invariant !done ==> whole == Continue(added, Copy(mem.log, n, lastEntry, entry, size, bytes, w))
        invariant done ==> whole == Copied(mem.log, added, bytes, failed)
        invariant text == Text(added) && bytes == |text|
        decreases entry - lastEntry, !done
      {
        var cursor := lastEntry;
        var ok := w.copyOk(cursor);
        ContinueStep(added, mem.log, n, cursor, entry, size, bytes, w);
        var e, l := FetchLine(cursor, w.arrivals(cursor), entry, ok);
        lastEntry := lastEntry + 1;
        CopiedAt(mem.log, n, cursor, entry, ok);
        TextAppend(added, l);
        added := added + [l];
        if ok {
          text := text + Rendered(e);
          bytes := bytes + LineLength(e);
        } else {
          failed := true;
        }
        done := failed || bytes + LINE_SIZE >= size || entry <= lastEntry;
      }
    }

    /**
     nss_log_read. Every call continues the one record: lines in strictly increasing order, nothing
     skipped that was still in the ring when the call began.
     */
    method Read(size: nat, w: World) returns (r: int, text: string, ghost added: seq<Line>)
      requires Valid()
      modifies this, mem, mem.ring
      ensures Valid() && old(mem.log) <= mem.log && lines == old(lines) + added
      ensures size < LINE_SIZE || old(mem.currentEntry) == old(lastEntry) ==>
                r == 0 && added == [] && lastEntry == old(lastEntry)
      // otherwise it prints consecutive entries from the restart point, copied as the outside has it
      ensures size >= LINE_SIZE && old(mem.currentEntry) != old(lastEntry) ==>
        var start := old(Restart(mem.currentEntry));
        && added != [] && lastEntry == start + |added| <= old(mem.currentEntry)
        && (forall i :: 0 <= i < |added| ==> added[i].seqNo == start + i && added[i].copied == w.copyOk(start + i))
      // up to the index sampled at the start, a line that might not fit, or a copy that fails
      ensures r >= 0 && added != [] ==> lastEntry == old(mem.currentEntry) || r + LINE_SIZE >= size
      // what it returns is the number of characters the user gets, which are those of its lines
      ensures text == Text(added) && (r >= 0 ==> r == |text|)
      ensures r >= 0 ==> r == Bytes(added) && forall i :: 0 <= i < |added| ==> added[i].copied
      ensures r < 0 ==> r == -EFAULT && added != [] &&
                        forall i :: 0 <= i < |added| ==> (added[i].copied <==> i < |added| - 1)
      ensures ShortLines(added) ==> r <= size
    {
      hide Recent, Lap, LineLength, Grown, GoodRecord, Copy, ShortLines, Text;
      text, added := "", [];
      NoText();
      if size < LINE_SIZE {
        return 0, "", [];
      }
      var entry := mem.currentEntry;
      if lastEntry == entry {
        return 0, "", [];
      }
      ghost var n, log, last := mem.ring.Length, mem.log, lastEntry;
      CursorBounded();
      var start := Restart(entry);
      CopyLines(log, n, start, entry, size, 0, w);
      CopyTotal(log, n, start, entry, size, 0, w);
      CopyFits(log, n, start, entry, size, 0, w);
      CopyStops(log, n, start, entry, size, 0, w);
      CopyRecord(lines, last, log, n, start, entry, size, 0, w);
      var bytes, failed;
      bytes, failed, text, added := CopyLoop(start, entry, size, w);
      lines := lines + added;
      if failed {
        ppos := 0x1_0000_0000 - EFAULT;
        return -EFAULT, text, added;
      }
      if bytes > 0 {
        ppos := bytes;
      }
      return bytes, text, added;
    }

    lemma CursorBounded()
      requires Valid()
      ensures lastEntry <= mem.currentEntry && (ppos == 0 ==> lastEntry == 0)
    {
      if lines != [] {
        assert GenuineLine(lines[|lines| - 1], mem.log, mem.ring.Length);
      }
    }
  }
}
