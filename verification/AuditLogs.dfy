/**
 * The audit log of audit.ts: a live file rolled over by day and by size into day files, which age out and are
 * held under a cap.
 */
module AuditLogs {
  import opened Options

  /** A rolled-over file. Days are counted from the epoch. */
  datatype DayFile = DayFile(day: int, n: nat, bytes: nat)

  /** The live file: its size and the day of its last write. */
  datatype Live = Live(size: nat, written: int)

  predicate Older(a: DayFile, b: DayFile) { a.day < b.day || (a.day == b.day && a.n < b.n) }

  /** Day files as they are listed: oldest first, no name twice. */
  ghost predicate Sorted(files: seq<DayFile>) {
    forall i, j | 0 <= i < j < |files| :: Older(files[i], files[j])
  }

  function Total(files: seq<DayFile>): nat { if files == [] then 0 else files[0].bytes + Total(files[1..]) }

  /** The files from a day on. */
  function Since(files: seq<DayFile>, day: int): seq<DayFile> {
    if files == [] then []
    else if files[0].day >= day then [files[0]] + Since(files[1..], day) else Since(files[1..], day)
  }

  /** How many files from the front go for `live` and the rest to come within the cap. */
  function Excess(files: seq<DayFile>, live: nat, cap: nat): (k: nat)
    ensures k <= |files|
  {
    if files == [] || live + Total(files) <= cap then 0 else 1 + Excess(files[1..], live, cap)
  }

  /** What pruning leaves. A window of 0 days keeps every day. */
  function Pruned(files: seq<DayFile>, live: nat, days: nat, cap: nat, today: int): seq<DayFile> {
    var kept := if days > 0 then Since(files, today - days) else files;
    kept[Excess(kept, live, cap)..]
  }

  lemma {:induction false} SinceAll(files: seq<DayFile>, day: int)
    requires forall i | 0 <= i < |files| :: files[i].day >= day
    ensures Since(files, day) == files
  {
    if files != [] { SinceAll(files[1..], day); }
  }

  /** What is past the window is at the front. */
  lemma {:induction false} SinceIsTheEnd(files: seq<DayFile>, day: int)
    requires Sorted(files)
    ensures var kept := Since(files, day); var gone := |files| - |kept|;
      && gone >= 0 && kept == files[gone..]
      && (forall i | 0 <= i < |files| :: files[i].day < day <==> i < gone)
  {
    if files != [] {
      if files[0].day >= day {
        assert forall i | 0 < i < |files| :: Older(files[0], files[i]);
        SinceAll(files, day);
      } else {
        SinceIsTheEnd(files[1..], day);
        var gone := |files| - |Since(files, day)|;
        assert files[gone..] == files[1..][gone - 1..];
        forall i | 0 <= i < |files| ensures files[i].day < day <==> i < gone {
          if i > 0 { assert files[i] == files[1..][i - 1]; }
        }
      }
    }
  }

  /** The files from the i-th on are, with the live one, over the cap. */
  ghost predicate OverCap(files: seq<DayFile>, i: nat, live: nat, cap: nat) {
    i <= |files| && live + Total(files[i..]) > cap
  }

  lemma {:induction false} ExcessIsLeast(files: seq<DayFile>, live: nat, cap: nat)
    ensures var k := Excess(files, live, cap);
      && (live + Total(files[k..]) <= cap || k == |files|)
      && (forall j: nat | j < k :: OverCap(files, j, live, cap))
  {
    if files != [] && live + Total(files) > cap {
      ExcessIsLeast(files[1..], live, cap);
      var k := Excess(files[1..], live, cap);
      assert files[1 + k..] == files[1..][k..];
      forall j: nat | j < 1 + k ensures OverCap(files, j, live, cap) {
        if j > 0 { assert OverCap(files[1..], j - 1, live, cap); EndOfEnd(files, 1, j - 1); } else { assert files[0..] == files; }
      }
    }
  }

  /**
   * Pruning leaves the newest files: all in the window, within the cap or none, and a file that is gone was
   * past the window or, with the newer ones, over the cap.
   */
  lemma PruneIsExact(files: seq<DayFile>, live: nat, days: nat, cap: nat, today: int)
    requires Sorted(files)
    ensures var left := Pruned(files, live, days, cap, today);
      var gone := |files| - |left|;
      && gone >= 0 && left == files[gone..] && Sorted(left)
      && (live + Total(left) <= cap || left == [])
      && (days > 0 ==> forall f | f in left :: f.day >= today - days)
      && (forall i | 0 <= i < gone ::
            (days > 0 && files[i].day < today - days) || OverCap(files, i, live, cap))
  {
    var skipped := |files| - |if days > 0 then Since(files, today - days) else files|;
    WindowIsEnd(files, days, today);
    GoneAre(files, live, days, cap, today, skipped);
    SortedEnd(files, |files| - |Pruned(files, live, days, cap, today)|);
  }

  /** How many go from the front, and why each of them does. */
  lemma GoneAre(files: seq<DayFile>, live: nat, days: nat, cap: nat, today: int, skipped: nat)
    requires skipped <= |files| && files[skipped..] == if days > 0 then Since(files, today - days) else files
    requires forall i | 0 <= i < |files| :: days > 0 && files[i].day < today - days <==> i < skipped
    ensures var left := Pruned(files, live, days, cap, today);
      var gone := |files| - |left|;
      && gone >= 0 && left == files[gone..]
      && (live + Total(left) <= cap || left == [])
      && (days > 0 ==> forall f | f in left :: f.day >= today - days)
      && forall i | 0 <= i < gone :: (days > 0 && files[i].day < today - days) || OverCap(files, i, live, cap)
  {
    var gone := skipped + Excess(files[skipped..], live, cap);
    ExcessOfEnd(files, skipped, live, cap);
    if days > 0 { EndsInWindow(files, skipped, gone, today - days); }
    assert Pruned(files, live, days, cap, today) == files[gone..];
    forall i | 0 <= i < gone ensures (days > 0 && files[i].day < today - days) || OverCap(files, i, live, cap) {
      if i >= skipped { assert OverCap(files, i, live, cap); }
    }
  }

  /** The window leaves an end of the listing. */
  lemma WindowIsEnd(files: seq<DayFile>, days: nat, today: int)
    requires Sorted(files)
    ensures var kept := if days > 0 then Since(files, today - days) else files; var skipped := |files| - |kept|;
      && skipped >= 0 && kept == files[skipped..]
      && forall i | 0 <= i < |files| :: days > 0 && files[i].day < today - days <==> i < skipped
  {
    if days > 0 { SinceIsTheEnd(files, today - days); }
  }

  /** Of the files from one on, the cap leaves the longest end that fits, or none. */
  lemma ExcessOfEnd(files: seq<DayFile>, skipped: nat, live: nat, cap: nat)
    requires skipped <= |files|
    ensures var gone := skipped + Excess(files[skipped..], live, cap);
      && gone <= |files| && files[skipped..][gone - skipped..] == files[gone..]
      && (live + Total(files[gone..]) <= cap || gone == |files|)
      && (forall i | skipped <= i < gone :: OverCap(files, i, live, cap))
  {
    var kept := files[skipped..];
    var k := Excess(kept, live, cap);
    ExcessIsLeast(kept, live, cap);
    EndOfEnd(files, skipped, k);
    forall i | skipped <= i < skipped + k ensures OverCap(files, i, live, cap) {
      assert OverCap(kept, i - skipped, live, cap);
      EndOfEnd(files, skipped, i - skipped);
    }
  }

  lemma EndOfEnd(files: seq<DayFile>, i: nat, j: nat)
    requires i + j <= |files|
    ensures files[i..][j..] == files[i + j..]
  {
  }

  lemma SortedEnd(files: seq<DayFile>, k: nat)
    requires Sorted(files) && k <= |files|
    ensures Sorted(files[k..])
  {
  }

  lemma EndsInWindow(files: seq<DayFile>, gone: nat, k: nat, day: int)
    requires gone <= k <= |files| && forall i | 0 <= i < |files| :: files[i].day < day <==> i < gone
    ensures forall f | f in files[k..] :: f.day >= day
  {
    forall f | f in files[k..] ensures f.day >= day {
      var i :| 0 <= i < |files[k..]| && files[k..][i] == f;
      assert f == files[k + i];
    }
  }

  // ---- Rolling over ----

  predicate Named(files: seq<DayFile>, day: int, n: nat) { exists f | f in files :: f.day == day && f.n == n }

  /** The listing with one more file in it. */
  function Inserted(files: seq<DayFile>, f: DayFile): seq<DayFile> {
    if files == [] || Older(f, files[0]) then [f] + files else [files[0]] + Inserted(files[1..], f)
  }

  lemma {:induction false} InsertedHolds(files: seq<DayFile>, f: DayFile)
    ensures multiset(Inserted(files, f)) == multiset(files) + multiset{f}
    ensures Total(Inserted(files, f)) == Total(files) + f.bytes
  {
    if files == [] || Older(f, files[0]) {
      assert ([f] + files)[1..] == files;
    } else {
      InsertedHolds(files[1..], f);
      assert files == [files[0]] + files[1..];
    }
  }

  lemma FirstThenRest(first: DayFile, rest: seq<DayFile>)
    requires Sorted(rest) && forall i | 0 <= i < |rest| :: Older(first, rest[i])
    ensures Sorted([first] + rest)
  {
  }

  lemma {:induction false} InsertedKeeps(files: seq<DayFile>, f: DayFile)
    requires Sorted(files) && !Named(files, f.day, f.n)
    ensures Sorted(Inserted(files, f))
    ensures multiset(Inserted(files, f)) == multiset(files) + multiset{f}
    ensures Total(Inserted(files, f)) == Total(files) + f.bytes
  {
    InsertedHolds(files, f);
    if files == [] {
    } else if Older(f, files[0]) {
      forall i | 0 <= i < |files| ensures Older(f, files[i]) {
        if i > 0 { assert Older(files[0], files[i]); }
      }
      FirstThenRest(f, files);
    } else {
      var rest := Inserted(files[1..], f);
      InsertedKeeps(files[1..], f);
      InsertedHolds(files[1..], f);
      assert files[0] in files;
      forall i | 0 <= i < |rest| ensures Older(files[0], rest[i]) {
        assert rest[i] in multiset(rest);
        assert rest[i] == f || rest[i] in files[1..];
      }
      FirstThenRest(files[0], rest);
    }
  }

  /** The first number from n on that the day has not used. */
  function NextFree(files: seq<DayFile>, day: int, n: nat): (free: nat)
    ensures free >= n && !Named(files, day, free) && forall k | n <= k < free :: Named(files, day, k)
    decreases Higher(files, day, n)
  {
    if Named(files, day, n) then
      NextIsFewer(files, day, n);
      NextFree(files, day, n + 1)
    else n
  }

  /** The listing after the live file has become the next file of `day`, compressed to `packed` bytes. */
  function Rolled(files: seq<DayFile>, live: Option<Live>, day: int, packed: nat): seq<DayFile> {
    if live.None? then files else Inserted(files, DayFile(day, NextFree(files, day, 1), packed))
  }

  function SizeOf(live: Option<Live>): nat { if live.Some? then live.value.size else 0 }

  class AuditLog {
    const days: nat
    const cap: nat
    var files: seq<DayFile>
    var live: Option<Live>
    /** What this process has counted into the live file, and the day it belongs to; none before its first write. */
    var liveBytes: nat
    var liveDay: Option<int>

    /** The listing is in order, and once this process has written, it knows the live file's size. */
    ghost predicate Valid()
      reads this
    {
      Sorted(files) && (liveDay.Some? ==> liveBytes == SizeOf(live))
    }

    /** The day the live file's events belong to: as this process knows, or as the file's last write says. */
    function Day(today: int): int
      reads this
    {
      if liveDay.Some? then liveDay.value else if live.Some? then live.value.written else today
    }

    /** Whether the next event of this size joins the live file. */
    predicate Stays(today: int, bytes: nat)
      reads this
    {
      Day(today) == today && 4 * (SizeOf(live) + bytes) < cap
    }

    /** A process that has not written yet, over whatever files it finds. */
    constructor (days: nat, cap: nat, files: seq<DayFile>, live: Option<Live>)
      requires Sorted(files)
      ensures Valid() && this.files == files && this.live == live && this.days == days && this.cap == cap
      ensures liveDay == None
    {
      this.days, this.cap, this.files, this.live, liveBytes, liveDay := days, cap, files, live, 0, None;
    }

    /** pruneAuditFiles: past the window first, then the oldest while over the cap. */
    method PruneAuditFiles(today: int)
      requires Valid()
      modifies this`files
      ensures files == Pruned(old(files), SizeOf(live), days, cap, today) && Valid()
    {
      PruneIsExact(files, SizeOf(live), days, cap, today);
      if days > 0 {
        files := Since(files, today - days);
      }
      var total := SizeOf(live) + Total(files);
      ghost var kept, k := files, 0;
      while total > cap && files != []
        invariant k <= |kept| && files == kept[k..] && total == SizeOf(live) + Total(files)
        invariant Excess(kept, SizeOf(live), cap) == k + Excess(files, SizeOf(live), cap)
        decreases |files|
      {
        total := total - files[0].bytes;
        files := files[1..];
        k := k + 1;
      }
    }

    /** rollAuditFile: the live file becomes that day's next free file, compressed to `packed` bytes. */
    method RollAuditFile(day: int, packed: nat)
      requires Valid()
      modifies this
      ensures Valid() && live == None && liveBytes == 0 && liveDay == old(liveDay)
      ensures files == Rolled(old(files), old(live), day, packed)
    {
      liveBytes := 0;
      if live.None? { return; }
      var n := 1;
      while Named(files, day, n)
        invariant n >= 1 && NextFree(old(files), day, 1) == NextFree(old(files), day, n)
        invariant files == old(files) && live == old(live) && liveDay == old(liveDay) && liveBytes == 0
        decreases Higher(files, day, n)
      {
        NextIsFewer(files, day, n);
        n := n + 1;
      }
      InsertedKeeps(files, DayFile(day, n, packed));
      files := Inserted(files, DayFile(day, n, packed));
      live := None;
    }

    /** maybeRoll: a new day, or a quarter of the cap, starts a fresh live file and prunes. */
    method MaybeRoll(today: int, adding: nat, packed: nat)
      requires Valid()
      modifies this
      ensures Valid() && liveDay == Some(today)
      ensures old(Stays(today, adding)) ==> live == old(live) && files == old(files)
      ensures old(!Stays(today, adding)) ==> live == None
      ensures old(!Stays(today, adding)) ==>
        files == Pruned(Rolled(old(files), old(live), old(Day(today)), packed), 0, days, cap, today)
    {
      var day := liveDay;
      if day.None? {
        if live.Some? {
          day, liveBytes := Some(live.value.written), live.value.size;
        } else {
          day, liveBytes := Some(today), 0;
        }
      }
      liveDay := day;
      var size := liveBytes + adding;
      if day.value != today || 4 * size >= cap {
        RollAuditFile(day.value, packed);
        liveDay := Some(today);
        PruneAuditFiles(today);
      }
      liveDay := Some(today);
    }

    /**
     * audit, when writing succeeds: the event joins the live file, or begins a fresh one on a new day or at a
     * quarter of the cap. The counted size stays the real one; the live file stays under a quarter of the cap
     * unless one event alone is larger; and the day files, once within the cap, stay within it.
     */
    method Audit(today: int, bytes: nat, packed: nat)
      requires Valid()
      modifies this
      ensures Valid() && liveDay == Some(today) && live.Some? && liveBytes == live.value.size
      ensures old(Stays(today, bytes)) ==> live.value.size == old(SizeOf(live)) + bytes && files == old(files)
      ensures old(!Stays(today, bytes)) ==> live.value.size == bytes
      ensures old(!Stays(today, bytes)) ==>
        files == Pruned(Rolled(old(files), old(live), old(Day(today)), packed), 0, days, cap, today)
      ensures 4 * live.value.size < cap || live.value.size == bytes
      ensures
        (old(liveDay) == Some(today) || (old(liveDay) == None && (old(live) == None || old(live).value.written == today)))
        && 4 * (if old(live) == None then bytes else old(live).value.size + bytes) < cap ==>
          live == Some(Live(if old(live) == None then bytes else old(live).value.size + bytes, today))
          && files == old(files)
      ensures forall day ::
        old(live).Some? && (old(liveDay) == Some(day) || (old(liveDay) == None && old(live).value.written == day))
        && (day != today || 4 * (old(live).value.size + bytes) >= cap) ==>
          live == Some(Live(bytes, today))
          && files == Pruned(Rolled(old(files), old(live), day, packed), 0, days, cap, today)
      ensures Total(old(files)) <= cap ==> Total(files) <= cap
    {
      RolledKeeps(files, live, Day(today), packed);
      PruneIsExact(Rolled(files, live, Day(today), packed), 0, days, cap, today);
      MaybeRoll(today, bytes, packed);
      live := Some(Live(SizeOf(live) + bytes, today));
      liveBytes := liveBytes + bytes;
    }
  }

  /** Rolling over overwrites no day file and adds one for the live file, if there is one. */
  lemma RolledKeeps(files: seq<DayFile>, live: Option<Live>, day: int, packed: nat)
    requires Sorted(files)
    ensures var after := Rolled(files, live, day, packed);
      && Sorted(after)
      && (live.Some? ==> exists n | n >= 1 ::
            !Named(files, day, n) && multiset(after) == multiset(files) + multiset{DayFile(day, n, packed)})
  {
    if live.Some? {
      InsertedKeeps(files, DayFile(day, NextFree(files, day, 1), packed));
      assert !Named(files, day, NextFree(files, day, 1));
    }
  }

  /** The numbers a day has used from n on. */
  function Higher(files: seq<DayFile>, day: int, n: nat): set<nat> {
    set f | f in files && f.day == day && f.n >= n :: f.n
  }

  lemma NextIsFewer(files: seq<DayFile>, day: int, n: nat)
    requires Named(files, day, n)
    ensures Higher(files, day, n + 1) < Higher(files, day, n)
  {
    assert n in Higher(files, day, n) && n !in Higher(files, day, n + 1);
  }
}
