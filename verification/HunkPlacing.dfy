/** Finding each hunk's place again in a file that has moved on (placeHunks of inline-review.ts). */
module HunkPlacing {
  import opened Options
  import opened LineDiff

  const CONTEXT: nat := 2

  ghost predicate ReadsAt<T>(lines: seq<T>, at: int, needle: seq<T>) {
    0 <= at && at + |needle| <= |lines| && lines[at..at + |needle|] == needle
  }

  /** The base lines just before a hunk, as many as there are up to CONTEXT. */
  function Before<T>(base: seq<T>, h: Hunk<T>): seq<T>
    requires h.OldEnd() <= |base|
  {
    base[if h.oldStart < CONTEXT then 0 else h.oldStart - CONTEXT..h.oldStart]
  }

  /** The base lines just after it. */
  function After<T>(base: seq<T>, h: Hunk<T>): seq<T>
    requires h.OldEnd() <= |base|
  {
    base[h.OldEnd()..if h.OldEnd() + CONTEXT > |base| then |base| else h.OldEnd() + CONTEXT]
  }

  /** The hunk's old lines and the base lines around them read the same at `p`, at or below `floor`. */
  ghost predicate Fits<T>(base: seq<T>, current: seq<T>, h: Hunk<T>, floor: nat, p: int)
    requires h.OldEnd() <= |base|
  {
    && p >= floor
    && ReadsAt(current, p, h.oldLines)
    && ReadsAt(current, p - |Before(base, h)|, Before(base, h))
    && ReadsAt(current, p + |h.oldLines|, After(base, h))
  }

  /** A search outwards from `expected`, from distance `d` to `n`, upwards first. */
  ghost function Search(fits: int -> bool, n: nat, expected: int, d: nat): Option<nat>
    requires forall p | fits(p) :: p >= 0
    decreases n + 1 - d
  {
    if d > n then None
    else if fits(expected - d) then Some(expected - d)
    else if d > 0 && fits(expected + d) then Some(expected + d)
    else Search(fits, n, expected, d + 1)
  }

  /** A pure insertion into an empty base has nothing to be recognised by. */
  predicate Unanchored<T>(base: seq<T>, h: Hunk<T>)
    requires h.OldEnd() <= |base|
  {
    |h.oldLines| == 0 && |Before(base, h)| == 0 && |After(base, h)| == 0
  }

  /** Where a hunk fits, as a test of positions. */
  ghost function FitTest<T>(base: seq<T>, current: seq<T>, h: Hunk<T>, floor: nat): (fits: int -> bool)
    requires h.OldEnd() <= |base|
    ensures forall p :: fits(p) <==> Fits(base, current, h, floor, p)
  {
    p => Fits(base, current, h, floor, p)
  }

  ghost function PlaceOne<T>(base: seq<T>, current: seq<T>, h: Hunk<T>, drift: int, floor: nat): Option<nat>
    requires h.OldEnd() <= |base|
  {
    if Unanchored(base, h) then (if current == [] then Some(0) else None)
    else Search(FitTest(base, current, h, floor), |current|, h.oldStart + drift, 0)
  }

  ghost function DriftAfter<T>(base: seq<T>, h: Hunk<T>, drift: int, place: Option<nat>): int
    requires h.OldEnd() <= |base|
  {
    if Unanchored(base, h) || place.None? then drift else place.value - h.oldStart
  }

  ghost function FloorAfter<T>(base: seq<T>, h: Hunk<T>, floor: nat, place: Option<nat>): nat
    requires h.OldEnd() <= |base|
  {
    if Unanchored(base, h) || place.None? then floor else place.value + |h.oldLines|
  }

  ghost function PlaceFrom<T>(base: seq<T>, current: seq<T>, hs: seq<Hunk<T>>, at: nat, drift: int, floor: nat)
    : (places: seq<Option<nat>>)
    requires Ordered(base, hs, at)
    ensures |places| == |hs|
    decreases |hs|
  {
    if hs == [] then []
    else
      var h := hs[0];
      var place := PlaceOne(base, current, h, drift, floor);
      [place] + PlaceFrom(base, current, hs[1..], h.OldEnd(), DriftAfter(base, h, drift, place), FloorAfter(base, h, floor, place))
  }

  /** Where each hunk of `base` begins in `current`. */
  ghost function Places<T>(base: seq<T>, current: seq<T>, hs: seq<Hunk<T>>): (places: seq<Option<nat>>)
    requires Ordered(base, hs, 0)
    ensures |places| == |hs|
  {
    if base == current then seq(|hs|, k requires 0 <= k < |hs| => Some(hs[k].oldStart))
    else PlaceFrom(base, current, hs, 0, 0, 0)
  }

  // ---- The search is a nearest-fit search ----

  function Distance(p: int, q: int): nat { if p > q then p - q else q - p }

  /**
   * What the search finds: nothing exactly when every fit lies more than `n` above `expected`, and
   * otherwise a nearest fit, the upper one of two equally near.
   */
  ghost predicate Nearest(fits: int -> bool, n: nat, expected: int, found: Option<nat>) {
    && (found.None? <==> forall p | fits(p) :: p < expected - n)
    && (found.Some? ==>
          && fits(found.value)
          && forall p | fits(p) ::
               && Distance(found.value, expected) <= Distance(p, expected)
               && (Distance(found.value, expected) == Distance(p, expected) ==> found.value <= p))
  }

  lemma {:induction false} SearchIsNearest(fits: int -> bool, n: nat, expected: int, d: nat)
    requires d <= n + 1 && expected >= 0
    requires forall p | fits(p) :: 0 <= p <= n && Distance(p, expected) >= d
    ensures Nearest(fits, n, expected, Search(fits, n, expected, d))
    decreases n + 1 - d
  {
    if d <= n && !fits(expected - d) && !(d > 0 && fits(expected + d)) {
      forall p | fits(p) ensures Distance(p, expected) >= d + 1 {
        assert p != expected - d && p != expected + d;
      }
      SearchIsNearest(fits, n, expected, d + 1);
    }
  }

  /**
   * What one place must be. Nothing is found exactly when every fit lies more than the length of the
   * file above where the hunk was expected; so nothing that fits is missed while the hunk is expected
   * inside the file.
   */
  ghost predicate NearestFit<T>(base: seq<T>, current: seq<T>, h: Hunk<T>, floor: nat, expected: int, place: Option<nat>)
    requires h.OldEnd() <= |base|
  {
    Nearest(FitTest(base, current, h, floor), |current|, expected, place)
  }

  lemma PlaceOneIsNearest<T>(base: seq<T>, current: seq<T>, h: Hunk<T>, drift: int, floor: nat)
    requires h.OldEnd() <= |base| && !Unanchored(base, h) && h.oldStart + drift >= 0
    ensures NearestFit(base, current, h, floor, h.oldStart + drift, PlaceOne(base, current, h, drift, floor))
  {
    SearchIsNearest(FitTest(base, current, h, floor), |current|, h.oldStart + drift, 0);
  }

  /** Every hunk that has anything to be recognised by is expected at or below the floor and placed at a nearest fit. */
  ghost predicate AllNearest<T>(
    base: seq<T>, current: seq<T>, hs: seq<Hunk<T>>, at: nat, drift: int, floor: nat, places: seq<Option<nat>>)
    requires Ordered(base, hs, at) && |places| == |hs|
    decreases |hs|
  {
    hs == [] ||
    var h := hs[0];
    && (!Unanchored(base, h) ==>
          && h.oldStart + drift >= floor
          && NearestFit(base, current, h, floor, h.oldStart + drift, places[0]))
    && AllNearest(base, current, hs[1..], h.OldEnd(), DriftAfter(base, h, drift, places[0]),
         FloorAfter(base, h, floor, places[0]), places[1..])
  }

  /** An expected place never lies above the floor. */
  lemma {:induction false} PlaceFromIsNearest<T>(
    base: seq<T>, current: seq<T>, hs: seq<Hunk<T>>, at: nat, drift: int, floor: nat)
    requires Ordered(base, hs, at) && at + drift >= floor
    ensures AllNearest(base, current, hs, at, drift, floor, PlaceFrom(base, current, hs, at, drift, floor))
    decreases |hs|
  {
    if hs != [] {
      var h := hs[0];
      var place := PlaceOne(base, current, h, drift, floor);
      if !Unanchored(base, h) {
        PlaceOneIsNearest(base, current, h, drift, floor);
      }
      PlaceFromIsNearest(base, current, hs[1..], h.OldEnd(), DriftAfter(base, h, drift, place), FloorAfter(base, h, floor, place));
    }
  }

  // ---- The same, told by the two files alone ----

  /** A hunk's old lines, with the two lines of the base on each side or as many as there are, read at `p`. */
  ghost predicate ReadsWithin<T>(base: seq<T>, current: seq<T>, h: Hunk<T>, p: nat)
    requires h.OldEnd() <= |base|
  {
    var lead := if h.oldStart < 2 then h.oldStart else 2;
    var tail := if |base| - h.OldEnd() < 2 then |base| - h.OldEnd() else 2;
    && lead <= p && p + |h.oldLines| + tail <= |current|
    && current[p - lead..p + |h.oldLines| + tail] == base[h.oldStart - lead..h.OldEnd() + tail]
  }

  lemma FitsReads<T>(base: seq<T>, current: seq<T>, h: Hunk<T>, floor: nat, p: int)
    requires h.OldEnd() <= |base| && base[h.oldStart..h.OldEnd()] == h.oldLines
    ensures Fits(base, current, h, floor, p) <==> p >= floor && ReadsWithin(base, current, h, p)
  {
    AroundHunk(base, h);
    if p >= 0 { ReadsAsOne(current, p, Before(base, h), h.oldLines, After(base, h)); }
  }

  lemma AroundHunk<T>(base: seq<T>, h: Hunk<T>)
    requires h.OldEnd() <= |base| && base[h.oldStart..h.OldEnd()] == h.oldLines
    ensures var lead := if h.oldStart < 2 then h.oldStart else 2;
      var tail := if |base| - h.OldEnd() < 2 then |base| - h.OldEnd() else 2;
      && |Before(base, h)| == lead && |After(base, h)| == tail
      && base[h.oldStart - lead..h.OldEnd() + tail] == Before(base, h) + h.oldLines + After(base, h)
  {
    var lead, tail := |Before(base, h)|, |After(base, h)|;
    CutTwice(base, h.oldStart - lead, h.oldStart, h.OldEnd(), h.OldEnd() + tail);
  }

  lemma CutTwice<T>(lines: seq<T>, a: nat, b: nat, c: nat, d: nat)
    requires a <= b <= c <= d <= |lines|
    ensures lines[a..d] == lines[a..b] + lines[b..c] + lines[c..d]
  {
    var whole := lines[a..b] + lines[b..c] + lines[c..d];
    assert |whole| == d - a && forall k | 0 <= k < d - a :: whole[k] == lines[a..d][k];
  }

  lemma ReadsAsOne<T>(current: seq<T>, p: nat, before: seq<T>, mid: seq<T>, after: seq<T>)
    ensures (|before| <= p && p + |mid| + |after| <= |current|
             && current[p - |before|..p + |mid| + |after|] == before + mid + after)
      <==> ReadsAt(current, p, mid) && ReadsAt(current, p - |before|, before) && ReadsAt(current, p + |mid|, after)
  {
    if |before| <= p && p + |mid| + |after| <= |current| {
      var x, y, z := current[p - |before|..p], current[p..p + |mid|], current[p + |mid|..p + |mid| + |after|];
      CutTwice(current, p - |before|, p, p + |mid|, p + |mid| + |after|);
      ThreePieces(x, y, z, before, mid, after);
    }
  }

  lemma ThreePieces<T>(x: seq<T>, y: seq<T>, z: seq<T>, x': seq<T>, y': seq<T>, z': seq<T>)
    requires |x| == |x'| && |y| == |y'| && |z| == |z'|
    ensures x + y + z == x' + y' + z' <==> x == x' && y == y' && z == z'
  {
    var a, b := x + y + z, x' + y' + z';
    assert a[..|x|] == x && a[|x|..|x| + |y|] == y && a[|x| + |y|..] == z;
    assert b[..|x|] == x' && b[|x|..|x| + |y|] == y' && b[|x| + |y|..] == z';
  }

  /** The last of the first `k` hunks that was placed. */
  ghost function LastPlaced(places: seq<Option<nat>>, k: nat): (last: Option<nat>)
    requires k <= |places|
    ensures last.Some? ==> last.value < k && places[last.value].Some? && forall j | last.value < j < k :: places[j].None?
    ensures last.None? ==> forall j | 0 <= j < k :: places[j].None?
  {
    if k == 0 then None else if places[k - 1].Some? then Some(k - 1) else LastPlaced(places, k - 1)
  }

  /** The first line behind the last hunk placed. */
  ghost function FloorAt<T>(hs: seq<Hunk<T>>, places: seq<Option<nat>>, k: nat): nat
    requires |places| == |hs| && k <= |hs|
  {
    var last := LastPlaced(places, k);
    if last.Some? then places[last.value].value + |hs[last.value].oldLines| else 0
  }

  /** How far the last hunk placed had moved. */
  ghost function DriftAt<T>(hs: seq<Hunk<T>>, places: seq<Option<nat>>, k: nat): int
    requires |places| == |hs| && k <= |hs|
  {
    var last := LastPlaced(places, k);
    if last.Some? then places[last.value].value - hs[last.value].oldStart else 0
  }

  /**
   * The k-th hunk stands at the nearest place, behind the hunks placed before, where it reads, counted from where
   * it lies in the base moved as far as the last hunk placed; of two as near, at the upper one. It stands nowhere
   * exactly when every such place is further above than the file is long.
   */
  ghost predicate PlacedNearest<T>(base: seq<T>, current: seq<T>, hs: seq<Hunk<T>>, places: seq<Option<nat>>, k: nat)
    requires |places| == |hs| && k < |hs| && hs[k].OldEnd() <= |base|
  {
    var h, floor, expected := hs[k], FloorAt(hs, places, k), hs[k].oldStart + DriftAt(hs, places, k);
    && (places[k].None? <==>
          forall p: nat | p >= floor && ReadsWithin(base, current, h, p) :: p + |current| < expected)
    && (places[k].Some? ==>
          var p := places[k].value;
          && p >= floor && ReadsWithin(base, current, h, p)
          && forall q: nat | q >= floor && ReadsWithin(base, current, h, q) ::
               && Distance(p, expected) <= Distance(q, expected)
               && (Distance(p, expected) == Distance(q, expected) ==> p <= q))
  }

  lemma NearestReads<T>(base: seq<T>, current: seq<T>, hs: seq<Hunk<T>>, places: seq<Option<nat>>, k: nat)
    requires |places| == |hs| && k < |hs| && hs[k].OldEnd() <= |base| && base[hs[k].oldStart..hs[k].OldEnd()] == hs[k].oldLines
    requires NearestFit(base, current, hs[k], FloorAt(hs, places, k), hs[k].oldStart + DriftAt(hs, places, k), places[k])
    ensures PlacedNearest(base, current, hs, places, k)
  {
    var h, floor := hs[k], FloorAt(hs, places, k);
    var fits := FitTest(base, current, h, floor);
    forall p: int ensures fits(p) <==> p >= floor && ReadsWithin(base, current, h, p) {
      FitsReads(base, current, h, floor, p);
    }
  }

  /** Where each hunk of a diff of `base` is found in `current`, by what the files hold. */
  ghost predicate PlacedAsRead<T>(base: seq<T>, current: seq<T>, hs: seq<Hunk<T>>, places: seq<Option<nat>>)
    requires forall k | 0 <= k < |hs| :: hs[k].OldEnd() <= |base|
  {
    && |places| == |hs|
    && if base == current then forall k | 0 <= k < |hs| :: places[k] == Some(hs[k].oldStart)
       else if base == [] then forall k | 0 <= k < |hs| :: places[k] == None
       else forall k | 0 <= k < |hs| :: PlacedNearest(base, current, hs, places, k)
  }

  lemma {:induction false} OrderedEnds<T>(lines: seq<T>, hs: seq<Hunk<T>>, at: nat)
    requires Ordered(lines, hs, at)
    ensures forall k | 0 <= k < |hs| :: hs[k].OldEnd() <= |lines|
    decreases |hs|
  {
    if hs != [] {
      OrderedEnds(lines, hs[1..], hs[0].OldEnd());
      forall k | 0 < k < |hs| ensures hs[k].OldEnd() <= |lines| { assert hs[k] == hs[1..][k - 1]; }
    }
  }

  /** placeHunks finds every hunk of a diff as it reads. */
  lemma PlacesAreAsRead<T>(base: seq<T>, current: seq<T>, hs: seq<Hunk<T>>)
    requires Ordered(base, hs, 0) && Stand(base, hs)
    ensures forall k | 0 <= k < |hs| :: hs[k].OldEnd() <= |base|
    ensures PlacedAsRead(base, current, hs, Places(base, current, hs))
  {
    OrderedEnds(base, hs, 0);
    if base != current {
      var places := Places(base, current, hs);
      assert hs[0..] == hs && places[0..] == places;
      if base == [] { NothingAnchors(base, current, hs, 0, 0, 0); } else { FromIsNearest(base, current, hs, places, 0, 0); }
    }
  }

  lemma {:induction false} NothingAnchors<T>(base: seq<T>, current: seq<T>, hs: seq<Hunk<T>>, at: nat, drift: int, floor: nat)
    requires base == [] && current != [] && Ordered(base, hs, at)
    ensures forall k | 0 <= k < |hs| :: PlaceFrom(base, current, hs, at, drift, floor)[k] == None
    decreases |hs|
  {
    if hs != [] { NothingAnchors(base, current, hs[1..], hs[0].OldEnd(), drift, floor); }
  }

  lemma {:induction false} FromIsNearest<T>(
    base: seq<T>, current: seq<T>, hs: seq<Hunk<T>>, places: seq<Option<nat>>, i: nat, at: nat)
    requires |places| == |hs| && i <= |hs| && base != [] && Stand(base, hs)
    requires Ordered(base, hs[i..], at) && at + DriftAt(hs, places, i) >= FloorAt(hs, places, i)
    requires places[i..] == PlaceFrom(base, current, hs[i..], at, DriftAt(hs, places, i), FloorAt(hs, places, i))
    ensures forall k | i <= k < |hs| :: PlacedNearest(base, current, hs, places, k)
    decreases |hs| - i
  {
    if i < |hs| {
      NextIsNearest(base, current, hs, places, i, at);
      assert hs[i..][1..] == hs[i + 1..] && places[i..][1..] == places[i + 1..];
      FromIsNearest(base, current, hs, places, i + 1, hs[i].OldEnd());
    }
  }

  lemma NextIsNearest<T>(base: seq<T>, current: seq<T>, hs: seq<Hunk<T>>, places: seq<Option<nat>>, i: nat, at: nat)
    requires |places| == |hs| && i < |hs| && base != [] && Stand(base, hs)
    requires at <= hs[i].oldStart && hs[i].OldEnd() <= |base| && at + DriftAt(hs, places, i) >= FloorAt(hs, places, i)
    requires places[i] == PlaceOne(base, current, hs[i], DriftAt(hs, places, i), FloorAt(hs, places, i))
    ensures PlacedNearest(base, current, hs, places, i)
    ensures DriftAt(hs, places, i + 1) == DriftAfter(base, hs[i], DriftAt(hs, places, i), places[i])
    ensures FloorAt(hs, places, i + 1) == FloorAfter(base, hs[i], FloorAt(hs, places, i), places[i])
    ensures hs[i].OldEnd() + DriftAt(hs, places, i + 1) >= FloorAt(hs, places, i + 1)
  {
    PlaceOneIsNearest(base, current, hs[i], DriftAt(hs, places, i), FloorAt(hs, places, i));
    NearestReads(base, current, hs, places, i);
  }

  /** A hunk that is placed reads somewhere. */
  lemma FoundReads<T>(base: seq<T>, current: seq<T>, hs: seq<Hunk<T>>, places: seq<Option<nat>>, k: nat)
    requires k < |hs| && forall i | 0 <= i < |hs| :: hs[i].OldEnd() <= |base|
    requires PlacedAsRead(base, current, hs, places) && places[k].Some?
    ensures ReadsWithin(base, current, hs[k], places[k].value)
  {
    if base != current && base != [] { assert PlacedNearest(base, current, hs, places, k); }
  }

  /** Hunks placed as they read never overlap. */
  lemma {:induction false} PlacedApart<T>(base: seq<T>, current: seq<T>, hs: seq<Hunk<T>>, places: seq<Option<nat>>, i: nat, j: nat)
    requires |places| == |hs| && i < j < |hs| && places[i].Some? && places[j].Some?
    requires forall k | 0 <= k < |hs| :: hs[k].OldEnd() <= |base| && PlacedNearest(base, current, hs, places, k)
    ensures places[i].value + |hs[i].oldLines| <= places[j].value
    decreases j
  {
    var last := LastPlaced(places, j).value;
    assert PlacedNearest(base, current, hs, places, j);
    if last != i { PlacedApart(base, current, hs, places, i, last); }
  }

  // ---- What is placed reads the same, in order, without overlap ----

  /** The placed hunks with their positions in the current file. */
  ghost function PlacedHunks<T>(hs: seq<Hunk<T>>, places: seq<Option<nat>>): seq<Hunk<T>>
    requires |places| == |hs|
  {
    if hs == [] then []
    else
      (if places[0].Some? then [hs[0].(oldStart := places[0].value)] else []) + PlacedHunks(hs[1..], places[1..])
  }

  /** Where a hunk is placed, its old lines stand. */
  ghost predicate Stand<T>(current: seq<T>, placed: seq<Hunk<T>>) {
    forall k | 0 <= k < |placed| ::
      placed[k].OldEnd() <= |current| && current[placed[k].oldStart..placed[k].OldEnd()] == placed[k].oldLines
  }

  lemma PlaceOneStands<T>(base: seq<T>, current: seq<T>, h: Hunk<T>, drift: int, floor: nat)
    requires h.OldEnd() <= |base| && h.oldStart + drift >= floor
    ensures var place := PlaceOne(base, current, h, drift, floor);
      place.Some? ==>
        && place.value + |h.oldLines| <= |current|
        && current[place.value..place.value + |h.oldLines|] == h.oldLines
        && (Unanchored(base, h) ==> place.value == 0 && current == [])
        && (!Unanchored(base, h) ==> place.value >= floor)
  {
    if !Unanchored(base, h) { PlaceOneIsNearest(base, current, h, drift, floor); }
  }

  lemma {:induction false} PlaceFromStands<T>(
    base: seq<T>, current: seq<T>, hs: seq<Hunk<T>>, at: nat, drift: int, floor: nat)
    requires Ordered(base, hs, at) && at + drift >= floor && floor <= |current|
    requires base == [] ==> |hs| <= 1
    ensures var placed := PlacedHunks(hs, PlaceFrom(base, current, hs, at, drift, floor));
      Ordered(current, placed, floor) && Stand(current, placed)
    decreases |hs|
  {
    if hs != [] {
      var h := hs[0];
      var place := PlaceOne(base, current, h, drift, floor);
      var drift', floor' := DriftAfter(base, h, drift, place), FloorAfter(base, h, floor, place);
      PlaceOneStands(base, current, h, drift, floor);
      PlaceFromStands(base, current, hs[1..], h.OldEnd(), drift', floor');
      var places := PlaceFrom(base, current, hs[1..], h.OldEnd(), drift', floor');
      PlacedFirst(hs, place, places);
      var rest := PlacedHunks(hs[1..], places);
      assert PlacedHunks(hs, PlaceFrom(base, current, hs, at, drift, floor)) ==
        (if place.Some? then [h.(oldStart := place.value)] else []) + rest;
      if place.Some? {
        StandsFirst(current, h.(oldStart := place.value), rest, floor);
      } else {
        assert [] + rest == rest;
      }
    }
  }

  lemma PlacedFirst<T>(hs: seq<Hunk<T>>, place: Option<nat>, places: seq<Option<nat>>)
    requires hs != [] && |places| == |hs| - 1
    ensures PlacedHunks(hs, [place] + places) ==
      (if place.Some? then [hs[0].(oldStart := place.value)] else []) + PlacedHunks(hs[1..], places)
  {
    assert ([place] + places)[1..] == places;
  }

  lemma StandsFirst<T>(current: seq<T>, first: Hunk<T>, rest: seq<Hunk<T>>, floor: nat)
    requires floor <= first.oldStart && first.OldEnd() <= |current|
    requires current[first.oldStart..first.OldEnd()] == first.oldLines
    requires Ordered(current, rest, first.OldEnd()) && Stand(current, rest)
    ensures Ordered(current, [first] + rest, floor) && Stand(current, [first] + rest)
  {
    assert ([first] + rest)[1..] == rest;
  }

  lemma {:induction false} PlacedInPlace<T>(hs: seq<Hunk<T>>)
    ensures PlacedHunks(hs, seq(|hs|, k requires 0 <= k < |hs| => Some(hs[k].oldStart))) == hs
  {
    if hs != [] {
      PlacedInPlace(hs[1..]);
      var places := seq(|hs|, k requires 0 <= k < |hs| => Some(hs[k].oldStart));
      assert places[1..] == seq(|hs[1..]|, k requires 0 <= k < |hs[1..]| => Some(hs[1..][k].oldStart));
      assert hs[0].(oldStart := places[0].value) == hs[0];
    }
  }

  /**
   * For hunks of a diff of `base`, whatever `current` holds: the placed hunks come in order, none
   * overlaps another, and each one's old lines are what stands at its place.
   */
  lemma PlacesStand<T>(base: seq<T>, current: seq<T>, hs: seq<Hunk<T>>)
    requires Ordered(base, hs, 0) && Stand(base, hs)
    requires base == [] ==> |hs| <= 1
    ensures var placed := PlacedHunks(hs, Places(base, current, hs));
      Ordered(current, placed, 0) && Stand(current, placed)
  {
    if base == current {
      PlacedInPlace(hs);
    } else {
      PlaceFromStands(base, current, hs, 0, 0, 0);
    }
  }

  /** The hunks of a diff meet what placing asks for. */
  lemma {:induction false} DescribesStands<T>(a: seq<T>, b: seq<T>, hs: seq<Hunk<T>>, i: nat, j: nat)
    requires Describes(a, b, hs, i, j)
    ensures Ordered(a, hs, i) && Stand(a, hs)
    ensures a == [] ==> |hs| <= 1
    decreases |hs|
  {
    if hs != [] {
      var h := hs[0];
      DescribesStands(a, b, hs[1..], h.OldEnd(), h.NewEnd());
      forall k | 0 <= k < |hs|
        ensures hs[k].OldEnd() <= |a| && a[hs[k].oldStart..hs[k].OldEnd()] == hs[k].oldLines
      {
        if k > 0 { assert hs[k] == hs[1..][k - 1]; }
      }
    }
  }

  /** A hunk expected beyond twice the length of the file is never placed, whatever fits. */
  lemma FarHunksAreMissed<T>(base: seq<T>, current: seq<T>, h: Hunk<T>, drift: int, floor: nat)
    requires h.OldEnd() <= |base| && !Unanchored(base, h) && h.oldStart + drift > 2 * |current|
    ensures PlaceOne(base, current, h, drift, floor) == None
  {
    PlaceOneIsNearest(base, current, h, drift, floor);
  }

  /**
   * So a change the developer's file still has room for, its lines and context intact, can be missed:
   * the agent deletes the last line, and the developer has removed more lines from the top than are left.
   */
  lemma SearchCanMissAFit<T>(top: seq<T>, current: seq<T>, h: Hunk<T>)
    requires |current| >= 3 && |top| > |current| + 1
    requires h == Hunk(|top| + |current| - 1, h.newStart, current[|current| - 1..], [])
    ensures Fits(top + current, current, h, 0, |current| - 1)
    ensures PlaceOne(top + current, current, h, 0, 0) == None
  {
    var base, n := top + current, |current|;
    assert Before(base, h) == current[n - 3..n - 1] && After(base, h) == [];
    FarHunksAreMissed(base, current, h, 0, 0);
  }

  // ---- The imperative search ----

  method MatchesAt<T(==)>(hay: seq<T>, at: int, needle: seq<T>) returns (yes: bool)
    ensures yes <==> ReadsAt(hay, at, needle)
  {
    if at < 0 || at + |needle| > |hay| { return false; }
    for k := 0 to |needle|
      invariant forall i | 0 <= i < k :: hay[at + i] == needle[i]
    {
      if hay[at + k] != needle[k] {
        assert hay[at..at + |needle|][k] != needle[k];
        return false;
      }
    }
    assert forall i | 0 <= i < |needle| :: hay[at..at + |needle|][i] == needle[i];
    return true;
  }

  method FitsAt<T(==)>(base: seq<T>, current: seq<T>, h: Hunk<T>, floor: nat, p: int) returns (yes: bool)
    requires h.OldEnd() <= |base|
    ensures yes <==> Fits(base, current, h, floor, p)
  {
    if p < floor { return false; }
    var before, after := Before(base, h), After(base, h);
    yes := MatchesAt(current, p, h.oldLines);
    if yes { yes := MatchesAt(current, p - |before|, before); }
    if yes { yes := MatchesAt(current, p + |h.oldLines|, after); }
  }

  lemma SearchFurther(fits: int -> bool, n: nat, expected: int, d: nat)
    requires forall p | fits(p) :: p >= 0
    requires d <= n && !fits(expected - d) && (d > 0 ==> !fits(expected + d))
    ensures Search(fits, n, expected, d) == Search(fits, n, expected, d + 1)
  {
  }

  method SearchNear<T(==)>(base: seq<T>, current: seq<T>, h: Hunk<T>, floor: nat, expected: int)
    returns (found: Option<nat>)
    requires h.OldEnd() <= |base|
    ensures found == Search(FitTest(base, current, h, floor), |current|, expected, 0)
  {
    ghost var fits := FitTest(base, current, h, floor);
    for d := 0 to |current| + 1
      invariant Search(fits, |current|, expected, d) == Search(fits, |current|, expected, 0)
    {
      var up := FitsAt(base, current, h, floor, expected - d);
      if up { return Some(expected - d); }
      if d > 0 {
        var down := FitsAt(base, current, h, floor, expected + d);
        if down { return Some(expected + d); }
      }
      SearchFurther(fits, |current|, expected, d);
    }
    return None;
  }

  method PlaceNext<T(==)>(base: seq<T>, current: seq<T>, h: Hunk<T>, drift: int, floor: nat)
    returns (place: Option<nat>, drift': int, floor': nat)
    requires h.OldEnd() <= |base|
    ensures place == PlaceOne(base, current, h, drift, floor)
    ensures drift' == DriftAfter(base, h, drift, place) && floor' == FloorAfter(base, h, floor, place)
  {
    drift', floor' := drift, floor;
    if Unanchored(base, h) {
      place := if current == [] then Some(0) else None;
      return;
    }
    place := SearchNear(base, current, h, floor, h.oldStart + drift);
    if place.Some? {
      drift', floor' := place.value - h.oldStart, place.value + |h.oldLines|;
    }
  }

  /** placeHunks. */
  method PlaceHunks<T(==)>(base: seq<T>, current: seq<T>, hunks: seq<Hunk<T>>) returns (out: seq<Option<nat>>)
    requires Ordered(base, hunks, 0)
    ensures out == Places(base, current, hunks)
  {
    if base == current {
      return seq(|hunks|, k requires 0 <= k < |hunks| => Some(hunks[k].oldStart));
    }
    out := [];
    var drift: int, floor: nat := 0, 0;
    ghost var at: nat := 0;
    for k := 0 to |hunks|
      invariant Ordered(base, hunks[k..], at)
      invariant out + PlaceFrom(base, current, hunks[k..], at, drift, floor) == PlaceFrom(base, current, hunks, 0, 0, 0)
    {
      var h := hunks[k];
      assert hunks[k..][0] == h && hunks[k..][1..] == hunks[k + 1..];
      var place;
      place, drift, floor := PlaceNext(base, current, h, drift, floor);
      at := h.OldEnd();
      out := out + [place];
    }
  }
}
