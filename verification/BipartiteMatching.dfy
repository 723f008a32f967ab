/**
 * Assigning observed calls to expectations so that no call meets two of them: the augmenting-path
 * search of match.ts, proved to leave an assignment that no other can beat.
 */
module BipartiteMatching {

  /** Row e, column c: call c meets expectation e. */
  type Fits = seq<seq<bool>>

  ghost predicate Rectangular(fits: Fits, m: nat) {
    forall e | 0 <= e < |fits| :: |fits[e]| == m
  }

  /** A one-to-one assignment of calls to some of the expectations. */
  ghost predicate IsAssignment(fits: Fits, f: map<nat, nat>) {
    && (forall e | e in f :: e < |fits| && f[e] < |fits[e]| && fits[e][f[e]])
    && (forall e, e' | e in f && e' in f && e != e' :: f[e] != f[e'])
  }

  /** No one-to-one assignment meets more than `k` expectations, and some assignment meets `k`. */
  ghost predicate MostMet(fits: Fits, k: nat) {
    && (forall f | IsAssignment(fits, f) :: |f| <= k)
    && (exists f :: IsAssignment(fits, f) && |f| == k)
  }

  // ---- The owner array ----

  /**
   * Apart from the cell `hole`, every owned cell fits its owner and no two cells have one owner.
   * While an augmenting path is being laid, one cell still names an owner that has moved on.
   */
  ghost predicate Matched(fits: Fits, o: seq<int>, hole: int) {
    && (forall c | 0 <= c < |o| && c != hole && o[c] != -1 ::
          0 <= o[c] < |fits| && c < |fits[o[c]]| && fits[o[c]][c])
    && (forall c, d | 0 <= c < d < |o| && c != hole && d != hole && o[c] != -1 :: o[c] != o[d])
  }

  ghost predicate Owns(o: seq<int>, hole: int, e: int) {
    exists c :: 0 <= c < |o| && c != hole && o[c] == e
  }

  /** Every call that meets expectation `e` is in `s`. */
  ghost predicate ReachesOnly(fits: Fits, e: int, s: set<int>)
    requires 0 <= e < |fits|
  {
    forall c | 0 <= c < |fits[e]| && fits[e][c] :: c in s
  }

  /** A set of owned calls whose owners can be met by no call outside it: no augmenting path leaves it. */
  ghost predicate Blocked(fits: Fits, o: seq<int>, s: set<int>) {
    forall c | c in s :: 0 <= c < |o| && 0 <= o[c] < |fits| && ReachesOnly(fits, o[c], s)
  }

  ghost function Seen(seen: seq<bool>): set<int> { set c | 0 <= c < |seen| && seen[c] }

  ghost function Unseen(seen: seq<bool>): set<int> { set c | 0 <= c < |seen| && !seen[c] }

  /** After a free cell is taken, or its owner has moved elsewhere, expectation `ei` can have cell `oi`. */
  lemma TakeCell(fits: Fits, before: seq<int>, mid: seq<int>, after: seq<int>, ei: int, oi: int, hole: int)
    requires |before| == |mid| && 0 <= ei < |fits| && 0 <= oi < |mid| && after == mid[oi := ei]
    requires oi < |fits[ei]| && fits[ei][oi] && oi != hole
    requires Matched(fits, before, -1) && Matched(fits, mid, oi)
    requires hole == -1 || (0 <= hole < |mid| && mid[hole] == before[hole] == ei)
    requires forall c | 0 <= c < |before| && c != hole :: before[c] != ei
    requires forall e | e != -1 :: Owns(mid, oi, e) <==> Owns(before, -1, e)
    ensures Matched(fits, after, hole)
    ensures forall e | e != -1 :: Owns(after, hole, e) <==> Owns(before, hole, e) || e == ei
  {
    forall c | 0 <= c < |mid| && c != oi && c != hole ensures mid[c] != ei {
      assert Owns(mid, oi, ei) <==> Owns(before, -1, ei);
    }
    forall e | e != -1 ensures Owns(after, hole, e) <==> Owns(before, hole, e) || e == ei {
      assert after[oi] == ei;
      if e != ei {
        assert Owns(after, hole, e) <==> Owns(mid, oi, e) by {
          assert forall c | 0 <= c < |mid| && c != oi :: mid[c] == after[c];
          if Owns(mid, oi, e) {
            var c :| 0 <= c < |mid| && c != oi && mid[c] == e;
            assert after[c] == e && c != hole;
          }
          if Owns(after, hole, e) {
            var c :| 0 <= c < |after| && c != hole && after[c] == e;
            assert mid[c] == e;
          }
        }
        assert Owns(before, hole, e) <==> Owns(before, -1, e) by {
          if Owns(before, -1, e) {
            var c :| 0 <= c < |before| && c != -1 && before[c] == e;
            assert c != hole;
          }
        }
      }
    }
  }

  /** A cell whose owner has found another cell is free for the taking. */
  lemma VacatedCell(before: seq<int>, mid: seq<int>, oi: int)
    requires 0 <= oi < |before| == |mid| && before[oi] != -1
    requires forall e | e != -1 :: Owns(mid, oi, e) <==> Owns(before, oi, e) || e == before[oi]
    ensures forall e | e != -1 :: Owns(mid, oi, e) <==> Owns(before, -1, e)
  {
    forall e | e != -1 ensures Owns(mid, oi, e) <==> Owns(before, -1, e) {
      if Owns(before, -1, e) {
        var c :| 0 <= c < |before| && before[c] == e;
        if c != oi { assert Owns(before, oi, e); }
      }
    }
  }

  /**
   * Find expectation `ei` a call, moving other owners along if need be. `s` is any blocked set and
   * `hole` the cell `ei` is being moved away from (-1 when it has none).
   */
  method Augment(fits: Fits, owner: array<int>, seen: array<bool>, ei: nat, ghost hole: int, ghost s: set<int>)
    returns (found: bool)
    requires owner.Length == seen.Length && Rectangular(fits, owner.Length) && ei < |fits|
    requires Matched(fits, owner[..], -1) && Blocked(fits, owner[..], s)
    requires hole == -1 || (0 <= hole < owner.Length && seen[hole] && owner[hole] == ei)
    requires forall c | 0 <= c < owner.Length && c != hole :: owner[c] != ei
    modifies owner, seen
    ensures forall c | 0 <= c < seen.Length && old(seen[c]) :: seen[c] && owner[c] == old(owner[c])
    ensures found ==>
      && Matched(fits, owner[..], hole)
      && (forall e | e != -1 :: Owns(owner[..], hole, e) <==> Owns(old(owner[..]), hole, e) || e == ei)
      && (forall c | c in s :: 0 <= c < owner.Length && owner[c] == old(owner[c]))
      && !ReachesOnly(fits, ei, s)
    ensures !found ==>
      && owner[..] == old(owner[..])
      && ReachesOnly(fits, ei, Seen(seen[..]))
      && (forall c | c in Seen(seen[..]) && c !in Seen(old(seen[..])) ::
            0 <= owner[c] < |fits| && ReachesOnly(fits, owner[c], Seen(seen[..])))
    decreases Unseen(seen[..])
  {
    ghost var before := owner[..];
    for oi := 0 to owner.Length
      invariant owner[..] == before
      invariant forall c | 0 <= c < seen.Length && old(seen[c]) :: seen[c]
      invariant forall c | 0 <= c < oi && fits[ei][c] :: c in Seen(seen[..])
      invariant forall c | c in Seen(seen[..]) && c !in Seen(old(seen[..])) ::
        0 <= owner[c] < |fits| && ReachesOnly(fits, owner[c], Seen(seen[..]))
      invariant Unseen(seen[..]) <= Unseen(old(seen[..]))
    {
      if !fits[ei][oi] || seen[oi] { continue; }
      seen[oi] := true;
      assert oi in Unseen(old(seen[..])) && oi !in Unseen(seen[..]);
      if owner[oi] == -1 {
        owner[oi] := ei;
        TakeCell(fits, before, before, owner[..], ei, oi, hole);
        return true;
      }
      ghost var entry := seen[..];
      var moved := Augment(fits, owner, seen, owner[oi], oi, s);
      if moved {
        ghost var mid := owner[..];
        VacatedCell(before, mid, oi);
        owner[oi] := ei;
        TakeCell(fits, before, mid, owner[..], ei, oi, hole);
        return true;
      }
    }
    return false;
  }

  // ---- No assignment meets more ----

  function Owned(o: seq<int>): set<int> { set c | 0 <= c < |o| && o[c] != -1 :: o[c] }

  /** Every expectation below `n` that owns no call can be met only by calls in `s`. */
  ghost predicate Stranded(fits: Fits, o: seq<int>, s: set<int>, n: nat)
    requires n <= |fits|
  {
    forall e | 0 <= e < n && e !in Owned(o) :: ReachesOnly(fits, e, s)
  }

  lemma {:induction false} InjectionIsNoLarger<A, B>(xs: set<A>, ys: set<B>, g: map<A, B>)
    requires forall x | x in xs :: x in g && g[x] in ys
    requires forall x, x' | x in xs && x' in xs && x != x' :: g[x] != g[x']
    ensures |xs| <= |ys|
  {
    if xs != {} {
      var x :| x in xs;
      InjectionIsNoLarger(xs - {x}, ys - {g[x]}, g);
    }
  }

  /**
   * Any assignment maps one-to-one into the owners: an expectation met inside `s` stands for the owner
   * of that call, one met outside `s` for itself.
   */
  lemma NoAssignmentBeats(fits: Fits, m: nat, o: seq<int>, s: set<int>, f: map<nat, nat>)
    requires Rectangular(fits, m) && |o| == m && Matched(fits, o, -1)
    requires Blocked(fits, o, s) && Stranded(fits, o, s, |fits|)
    requires IsAssignment(fits, f)
    ensures |f| <= |Owned(o)|
  {
    var g: map<nat, int> := map e | e in f :: if f[e] in s then o[f[e]] else e;
    forall e | e in f ensures g[e] in Owned(o) {
      if f[e] in s { assert o[f[e]] in Owned(o); }
    }
    forall e, e' | e in f && e' in f && e != e' ensures g[e] != g[e'] {
      if f[e] !in s { OwnCellOutside(fits, o, s, f, e); }
      if f[e'] !in s { OwnCellOutside(fits, o, s, f, e'); }
    }
    InjectionIsNoLarger(f.Keys, Owned(o), g);
  }

  lemma OwnCellOutside(fits: Fits, o: seq<int>, s: set<int>, f: map<nat, nat>, e: nat)
    requires Rectangular(fits, |o|) && Matched(fits, o, -1) && Blocked(fits, o, s) && IsAssignment(fits, f)
    requires e in f && f[e] !in s
    ensures forall c | c in s :: o[c] != e
  {
    assert fits[e][f[e]];
  }

  /** The owner array read as an assignment. */
  lemma {:induction false} OwnersAssign(fits: Fits, o: seq<int>, k: nat) returns (f: map<nat, nat>)
    requires Rectangular(fits, |o|) && Matched(fits, o, -1) && k <= |o|
    ensures IsAssignment(fits, f) && (forall e | e in f :: f[e] < k && o[f[e]] == e)
    ensures forall c | 0 <= c < k && o[c] != -1 :: o[c] in f
  {
    if k == 0 {
      f := map[];
    } else {
      f := OwnersAssign(fits, o, k - 1);
      if o[k - 1] != -1 { f := f[o[k - 1] := k - 1]; }
    }
  }

  lemma OwnedIsMostMet(fits: Fits, o: seq<int>, s: set<int>)
    requires Rectangular(fits, |o|) && Matched(fits, o, -1)
    requires Blocked(fits, o, s) && Stranded(fits, o, s, |fits|)
    ensures MostMet(fits, |Owned(o)|)
    ensures exists f :: IsAssignment(fits, f) && f.Keys == Owned(o)
  {
    forall f | IsAssignment(fits, f) ensures |f| <= |Owned(o)| {
      NoAssignmentBeats(fits, |o|, o, s, f);
    }
    var f := OwnersAssign(fits, o, |o|);
    assert f.Keys == Owned(o);
    assert |f| == |f.Keys|;
  }

  /** A failed search adds what it saw to the blocked set, and strands its expectation there. */
  lemma AfterFailure(fits: Fits, o: seq<int>, s: set<int>, seen: seq<bool>, ei: nat)
    requires |seen| == |o| && ei < |fits| && Blocked(fits, o, s) && Stranded(fits, o, s, ei)
    requires ReachesOnly(fits, ei, Seen(seen))
    requires forall c | c in Seen(seen) :: 0 <= o[c] < |fits| && ReachesOnly(fits, o[c], Seen(seen))
    ensures Blocked(fits, o, s + Seen(seen)) && Stranded(fits, o, s + Seen(seen), ei + 1)
  {
  }

  /** One search per expectation, in order; the calls' owners at the end meet as many as can be met. */
  method MaximumMatching(fits: Fits, m: nat) returns (owner: array<int>)
    requires Rectangular(fits, m)
    ensures fresh(owner) && owner.Length == m && Matched(fits, owner[..], -1)
    ensures MostMet(fits, |Owned(owner[..])|)
    ensures exists f :: IsAssignment(fits, f) && f.Keys == Owned(owner[..])
  {
    owner := new int[m](_ => -1);
    ghost var s: set<int> := {};
    for ei := 0 to |fits|
      invariant fresh(owner) && owner.Length == m
      invariant Matched(fits, owner[..], -1) && Blocked(fits, owner[..], s)
      invariant forall c | 0 <= c < m :: owner[c] < ei
      invariant Stranded(fits, owner[..], s, ei)
    {
      var seen := new bool[m](_ => false);
      ghost var before := owner[..];
      assert Seen(seen[..]) == {};
      var found := Augment(fits, owner, seen, ei, -1, s);
      if found {
        AfterFound(fits, before, owner[..], ei, s);
      } else {
        AfterFailure(fits, owner[..], s, seen[..], ei);
        s := s + Seen(seen[..]);
      }
    }
    OwnedIsMostMet(fits, owner[..], s);
  }

  lemma AfterFound(fits: Fits, before: seq<int>, after: seq<int>, ei: nat, s: set<int>)
    requires |before| == |after| && ei < |fits| && Blocked(fits, before, s) && Stranded(fits, before, s, ei)
    requires forall c | 0 <= c < |before| :: before[c] < ei
    requires forall e | e != -1 :: Owns(after, -1, e) <==> Owns(before, -1, e) || e == ei
    requires forall c | c in s :: after[c] == before[c]
    ensures Blocked(fits, after, s) && Stranded(fits, after, s, ei + 1)
    ensures forall c | 0 <= c < |after| :: after[c] <= ei
  {
    forall c | 0 <= c < |after| ensures after[c] <= ei {
      if after[c] != -1 { assert Owns(after, -1, after[c]); }
    }
    forall e | 0 <= e < ei + 1 && e !in Owned(after) ensures e < ei && e !in Owned(before) {
      assert !Owns(after, -1, e);
    }
  }
}
