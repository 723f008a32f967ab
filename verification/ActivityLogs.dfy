/**
 * The activity log of activity-log.ts: a live file and older ones, renamed along when the live file is full.
 */
module ActivityLogs {
  /** One line with its line break, a character for each byte. */
  type Line = string

  /** The files by number, 0 the live one. */
  type Disk = map<nat, seq<Line>>

  function Size(lines: seq<Line>): nat { if lines == [] then 0 else Size(lines[..|lines| - 1]) + |lines[|lines| - 1]| }

  function Lines(disk: Disk, i: nat): seq<Line> { if i in disk then disk[i] else [] }

  /** What the first n files hold, oldest line first. */
  function Collected(disk: Disk, n: nat): seq<Line> {
    if n == 0 then [] else Lines(disk, n - 1) + Collected(disk, n - 1)
  }

  predicate SuffixOf(s: seq<Line>, t: seq<Line>) { |s| <= |t| && t[|t| - |s|..] == s }

  /** `now` holds each of the first n files one place on, and nothing in place 0. */
  ghost predicate Shifted(disk: Disk, now: Disk, n: nat) {
    && 0 !in now
    && (forall i | 0 < i < n :: (i in now <==> i - 1 in disk) && Lines(now, i) == Lines(disk, i - 1))
    && (forall i | i >= n && i > 0 :: (i in now <==> i in disk) && Lines(now, i) == Lines(disk, i))
  }

  /** File k, if there is one, in the place after it. */
  ghost function MovedOn(disk: Disk, k: nat): Disk {
    if k in disk then (disk - {k})[k + 1 := disk[k]] else disk
  }

  /** The first n files each moved one place on, from the oldest; what was in the last of the n places is gone. */
  ghost function Shift(disk: Disk, n: nat): Disk
    requires n > 0
    decreases n
  {
    if n == 1 then disk - {0} else Shift(MovedOn(disk - {n - 1}, n - 2), n - 1)
  }

  lemma MovedOnFiles(disk: Disk, k: nat, i: nat)
    ensures var next := MovedOn(disk - {k + 1}, k);
      && (i < k || i > k + 1 ==> (i in next <==> i in disk) && Lines(next, i) == Lines(disk, i))
      && (k + 1 in next <==> k in disk) && Lines(next, k + 1) == Lines(disk, k)
  {
  }

  lemma {:induction false} ShiftShifts(disk: Disk, n: nat)
    requires n > 0
    ensures Shifted(disk, Shift(disk, n), n)
    decreases n
  {
    if n > 1 {
      var next, now := MovedOn(disk - {n - 1}, n - 2), Shift(disk, n);
      ShiftShifts(next, n - 1);
      forall i | 0 < i < n ensures (i in now <==> i - 1 in disk) && Lines(now, i) == Lines(disk, i - 1) {
        MovedOnFiles(disk, n - 2, i - 1);
      }
      forall i | i >= n && i > 0 ensures (i in now <==> i in disk) && Lines(now, i) == Lines(disk, i) {
        MovedOnFiles(disk, n - 2, i);
      }
    }
  }

  ghost predicate Rotates(disk: Disk, maxBytes: nat, line: Line) {
    var size := Size(Lines(disk, 0));
    size > 0 && size + |line| > maxBytes
  }

  /** The files after one line is appended. */
  ghost function Appended(disk: Disk, n: nat, maxBytes: nat, line: Line): Disk
    requires n > 0
  {
    var base := if Rotates(disk, maxBytes, line) then Shift(disk, n) else disk;
    base[0 := Lines(base, 0) + [line]]
  }

  ghost function AppendedAll(disk: Disk, n: nat, maxBytes: nat, lines: seq<Line>): Disk
    requires n > 0
  {
    if lines == [] then disk
    else Appended(AppendedAll(disk, n, maxBytes, lines[..|lines| - 1]), n, maxBytes, lines[|lines| - 1])
  }

  /** No file is larger than the limit. */
  ghost predicate Bounded(disk: Disk, n: nat, maxBytes: nat) {
    forall i | 0 <= i < n :: Size(Lines(disk, i)) <= maxBytes
  }

  lemma {:induction false} ShiftedCollects(disk: Disk, now: Disk, n: nat, k: nat)
    requires Shifted(disk, now, n) && 0 < k <= n
    ensures Collected(now, k) == Collected(disk, k - 1)
  {
    if k > 1 { ShiftedCollects(disk, now, n, k - 1); }
  }

  lemma {:induction false} CollectsAlike(a: Disk, b: Disk, k: nat, line: Line)
    requires k > 0 && Lines(b, 0) == Lines(a, 0) + [line]
    requires forall i | 0 < i < k :: Lines(b, i) == Lines(a, i)
    ensures Collected(b, k) == Collected(a, k) + [line]
  {
    if k > 1 {
      CollectsAlike(a, b, k - 1, line);
      assert Lines(a, k - 1) + (Collected(a, k - 1) + [line]) == Collected(a, k) + [line];
    }
  }

  lemma SizeMore(lines: seq<Line>, line: Line)
    ensures Size(lines + [line]) == Size(lines) + |line|
  {
    assert (lines + [line])[..|lines|] == lines;
  }

  lemma SuffixThrough(a: seq<Line>, b: seq<Line>, c: seq<Line>)
    requires SuffixOf(a, b) && SuffixOf(b, c)
    ensures SuffixOf(a, c)
  {
  }

  lemma SuffixMore(a: seq<Line>, b: seq<Line>, tail: seq<Line>)
    requires SuffixOf(a, b)
    ensures SuffixOf(a + tail, b + tail)
  {
    var i := |b| - |a|;
    assert (b + tail)[i..] == b[i..] + tail;
  }

  /** An append loses no line, or, when the live file is full, those of the file in the last place. */
  lemma AppendCollects(disk: Disk, n: nat, maxBytes: nat, line: Line)
    requires n > 0
    ensures Collected(Appended(disk, n, maxBytes, line), n) ==
      Collected(disk, if Rotates(disk, maxBytes, line) then n - 1 else n) + [line]
  {
    if Rotates(disk, maxBytes, line) {
      var base := Shift(disk, n);
      ShiftShifts(disk, n);
      ShiftedCollects(disk, base, n, n);
      CollectsAlike(base, base[0 := Lines(base, 0) + [line]], n, line);
    } else {
      CollectsAlike(disk, disk[0 := Lines(disk, 0) + [line]], n, line);
    }
  }

  /** So the log is the end of what it was with the line added, and all of it while the last place is free. */
  lemma AppendKeepsEnd(disk: Disk, n: nat, maxBytes: nat, line: Line)
    requires n > 0
    ensures var now := Collected(Appended(disk, n, maxBytes, line), n);
      && SuffixOf(now, Collected(disk, n) + [line])
      && (n - 1 !in disk ==> now == Collected(disk, n) + [line])
  {
    AppendCollects(disk, n, maxBytes, line);
    SuffixMore(Collected(disk, n - 1), Collected(disk, n), [line]);
  }

  lemma AppendKeepsBound(disk: Disk, n: nat, maxBytes: nat, line: Line)
    requires n > 0 && Bounded(disk, n, maxBytes) && |line| <= maxBytes
    ensures Bounded(Appended(disk, n, maxBytes, line), n, maxBytes)
    ensures forall i | i >= n :: i in Appended(disk, n, maxBytes, line) <==> i in disk
  {
    var now := Appended(disk, n, maxBytes, line);
    SizeMore(Lines(disk, 0), line);
    SizeMore([], line);
    ShiftShifts(disk, n);
    forall i | 0 < i < n ensures Size(Lines(now, i)) <= maxBytes {
      assert Lines(now, i) == Lines(disk, i) || Lines(now, i) == Lines(disk, i - 1);
    }
    assert forall i | i >= n :: (i in Shift(disk, n) <==> i in disk) && i > 0;
  }

  lemma EndStep(now: seq<Line>, mid: seq<Line>, all: seq<Line>, before: seq<Line>, last: Line)
    requires SuffixOf(mid, all + before) && SuffixOf(now, mid + [last])
    ensures SuffixOf(now, all + (before + [last]))
  {
    SuffixMore(mid, all + before, [last]);
    assert all + (before + [last]) == all + before + [last];
    SuffixThrough(now, mid + [last], all + before + [last]);
  }

  /** Any number of appends: what is left is the end of the old log and the new lines together. */
  lemma {:induction false} LogIsTheEnd(disk: Disk, n: nat, maxBytes: nat, lines: seq<Line>)
    requires n > 0
    ensures SuffixOf(Collected(AppendedAll(disk, n, maxBytes, lines), n), Collected(disk, n) + lines)
    decreases |lines|
  {
    if lines == [] {
      assert Collected(disk, n) + lines == Collected(disk, n);
    } else {
      var before, last := lines[..|lines| - 1], lines[|lines| - 1];
      var mid := AppendedAll(disk, n, maxBytes, before);
      LogIsTheEnd(disk, n, maxBytes, before);
      AppendKeepsEnd(mid, n, maxBytes, last);
      assert before + [last] == lines;
      EndStep(Collected(Appended(mid, n, maxBytes, last), n), Collected(mid, n), Collected(disk, n), before, last);
    }
  }

  /** It is held in the same n places, none of them larger than the limit when no line is. */
  lemma {:induction false} LogStaysBounded(disk: Disk, n: nat, maxBytes: nat, lines: seq<Line>)
    requires n > 0 && Bounded(disk, n, maxBytes) && forall k | 0 <= k < |lines| :: |lines[k]| <= maxBytes
    ensures var now := AppendedAll(disk, n, maxBytes, lines);
      Bounded(now, n, maxBytes) && forall i | i >= n :: i in now <==> i in disk
    decreases |lines|
  {
    if lines != [] {
      var before, last := lines[..|lines| - 1], lines[|lines| - 1];
      LogStaysBounded(disk, n, maxBytes, before);
      AppendKeepsBound(AppendedAll(disk, n, maxBytes, before), n, maxBytes, last);
    }
  }

  /** What a file holds, byte for byte. */
  function Text(lines: seq<Line>): string {
    if lines == [] then "" else Text(lines[..|lines| - 1]) + lines[|lines| - 1]
  }

  lemma {:induction false} SizeIsBytes(lines: seq<Line>)
    ensures Size(lines) == |Text(lines)|
  {
    if lines != [] { SizeIsBytes(lines[..|lines| - 1]); }
  }

  /** The live file takes a line that it has room for or that it is empty for. No other file changes. */
  lemma AppendJoins(disk: Disk, n: nat, maxBytes: nat, line: Line)
    requires n > 0
    requires var bytes := |Text(Lines(disk, 0))|; bytes == 0 || bytes + |line| <= maxBytes
    ensures var now := Appended(disk, n, maxBytes, line);
      && Lines(now, 0) == Lines(disk, 0) + [line]
      && forall i | i > 0 :: (i in now <==> i in disk) && Lines(now, i) == Lines(disk, i)
  {
    SizeIsBytes(Lines(disk, 0));
  }

  /** A line too many begins a new live file, and each of the others is in the next place. */
  lemma AppendRotates(disk: Disk, n: nat, maxBytes: nat, line: Line)
    requires n > 0
    requires var bytes := |Text(Lines(disk, 0))|; bytes > 0 && bytes + |line| > maxBytes
    ensures var now := Appended(disk, n, maxBytes, line);
      && Lines(now, 0) == [line]
      && (forall i | 0 < i < n :: (i in now <==> i - 1 in disk) && Lines(now, i) == Lines(disk, i - 1))
      && forall i | i >= n :: (i in now <==> i in disk) && Lines(now, i) == Lines(disk, i)
  {
    SizeIsBytes(Lines(disk, 0));
    ShiftShifts(disk, n);
  }

  /** A file stands behind another only because that one's first line did not fit into it. */
  ghost predicate Packed(disk: Disk, n: nat, maxBytes: nat) {
    forall i | 0 < i < n && i in disk ::
      Lines(disk, i - 1) != [] && |Text(Lines(disk, i))| + |Lines(disk, i - 1)[0]| > maxBytes
  }

  lemma AppendKeepsPacked(disk: Disk, n: nat, maxBytes: nat, line: Line)
    requires n > 0 && Packed(disk, n, maxBytes)
    ensures Packed(Appended(disk, n, maxBytes, line), n, maxBytes)
  {
    var bytes := |Text(Lines(disk, 0))|;
    if bytes == 0 || bytes + |line| <= maxBytes {
      AppendJoins(disk, n, maxBytes, line);
    } else {
      AppendRotates(disk, n, maxBytes, line);
    }
  }

  /** So rotation wastes no place: that holds however many lines are appended. */
  lemma {:induction false} LogStaysPacked(disk: Disk, n: nat, maxBytes: nat, lines: seq<Line>)
    requires n > 0 && Packed(disk, n, maxBytes)
    ensures Packed(AppendedAll(disk, n, maxBytes, lines), n, maxBytes)
    decreases |lines|
  {
    if lines != [] {
      var before := lines[..|lines| - 1];
      LogStaysPacked(disk, n, maxBytes, before);
      AppendKeepsPacked(AppendedAll(disk, n, maxBytes, before), n, maxBytes, lines[|lines| - 1]);
    }
  }

  class ActivityLog {
    const maxBytes: nat
    const files: nat
    var disk: Disk

    constructor (disk: Disk, maxBytes: nat, files: nat)
      ensures this.disk == disk && this.maxBytes == maxBytes && this.files == files
    {
      this.disk, this.maxBytes, this.files := disk, maxBytes, files;
    }

    /** Older files first, each into the place the next older one has just left; the oldest falls off. */
    method Rotate()
      requires files > 0
      modifies this
      ensures disk == Shift(old(disk), files)
    {
      disk := map k | k in disk && k != files - 1 :: disk[k];
      var i := files - 1;
      assert disk == old(disk) - {i} && disk - {i} == disk;
      while i > 0
        invariant 0 <= i < files && i !in disk
        invariant Shift(disk, i + 1) == Shift(old(disk), files)
      {
        i := i - 1;
        assert disk - {i + 1} == disk;
        ghost var before := disk;
        if i in disk {
          var moved := disk[i];
          disk := map k | k in disk && k != i :: disk[k];
          disk := disk[i + 1 := moved];
        }
        assert disk == MovedOn(before, i);
      }
      assert disk - {0} == disk;
    }

    /** append, when writing succeeds. */
    method Append(line: Line)
      requires files > 0
      modifies this
      ensures disk == Appended(old(disk), files, maxBytes, line)
    {
      SizeMore(Lines(disk, 0), line);
      var size := if 0 in disk then Size(disk[0]) else 0;
      if size > 0 && size + |line| > maxBytes {
        Rotate();
      }
      disk := disk[0 := (if 0 in disk then disk[0] else []) + [line]];
    }
  }
}
