/** The pass or fail rules of the agent evals (match.ts): four ways an expectation list can be met. */
module EvalMatch {
  import opened Options
  import opened Selections
  import opened BipartiteMatching

  datatype MatchMode = Exact | OrderedSubset | Subset | ContainsAny

  datatype MatchResult<O, E> = MatchResult(
    matched: nat,
    total: nat,
    score: real,
    passed: bool,
    missing: seq<E>,
    violations: Option<seq<O>>)

  /**
   * The rules a case is judged by: `meets` says whether a call meets an expectation, `namesTool` whether
   * a forbidden entry names a tool at all (one that does not bans nothing).
   */
  datatype Rules<!O, !E> = Rules(meets: (O, E) -> bool, namesTool: E -> bool) {
    predicate Forbids(call: O, entry: E) {
      namesTool(entry) && meets(call, entry)
    }
  }

  // ---- What each mode asks for ----

  /** Calls at strictly increasing positions meet the expectations one by one. */
  ghost predicate Embeds<O, E>(rules: Rules<O, E>, observed: seq<O>, expected: seq<E>, at: seq<nat>) {
    && |at| == |expected|
    && (forall k | 0 <= k < |at| :: at[k] < |observed| && rules.meets(observed[at[k]], expected[k]))
    && (forall k, l | 0 <= k < l < |at| :: at[k] < at[l])
  }

  function FitsOf<O, E>(rules: Rules<O, E>, observed: seq<O>, expected: seq<E>): (fits: Fits)
    ensures |fits| == |expected| && Rectangular(fits, |observed|)
    ensures forall e, c | 0 <= e < |expected| && 0 <= c < |observed| ::
      fits[e][c] == rules.meets(observed[c], expected[e])
  {
    seq(|expected|, e requires 0 <= e < |expected| =>
      seq(|observed|, c requires 0 <= c < |observed| => rules.meets(observed[c], expected[e])))
  }

  /** The expectation list is met in the sense of `mode`. */
  ghost predicate Meets<O, E>(rules: Rules<O, E>, observed: seq<O>, expected: seq<E>, mode: MatchMode) {
    match mode
    case Exact =>
      |observed| == |expected| && forall k | 0 <= k < |expected| :: rules.meets(observed[k], expected[k])
    case OrderedSubset =>
      exists at :: Embeds(rules, observed, expected, at)
    case Subset =>
      exists f :: IsAssignment(FitsOf(rules, observed, expected), f) && |f| == |expected|
    case ContainsAny =>
      expected == [] || exists k, c | 0 <= k < |expected| && 0 <= c < |observed| :: rules.meets(observed[c], expected[k])
  }

  /** No observed call trips a forbidden entry. */
  ghost predicate Clean<O, E>(rules: Rules<O, E>, observed: seq<O>, forbidden: seq<E>) {
    forall c, f | 0 <= c < |observed| && 0 <= f < |forbidden| :: !rules.Forbids(observed[c], forbidden[f])
  }

  /** The modes from strictest to loosest: what passes one passes every later one. */
  lemma LooserModesPass<O, E>(rules: Rules<O, E>, observed: seq<O>, expected: seq<E>)
    ensures Meets(rules, observed, expected, Exact) ==> Meets(rules, observed, expected, OrderedSubset)
    ensures Meets(rules, observed, expected, OrderedSubset) ==> Meets(rules, observed, expected, Subset)
    ensures Meets(rules, observed, expected, Subset) ==> Meets(rules, observed, expected, ContainsAny)
  {
    if Meets(rules, observed, expected, Exact) {
      assert Embeds(rules, observed, expected, seq(|expected|, k => k));
    }
    if at :| Embeds(rules, observed, expected, at) {
      EmbeddingAssigns(rules, observed, expected, at);
    }
    if f :| IsAssignment(FitsOf(rules, observed, expected), f) && |f| == |expected| {
      if expected != [] { AssignedCallMeets(rules, observed, expected, f); }
    }
  }

  lemma EmbeddingAssigns<O, E>(rules: Rules<O, E>, observed: seq<O>, expected: seq<E>, at: seq<nat>)
    requires Embeds(rules, observed, expected, at)
    ensures exists f :: IsAssignment(FitsOf(rules, observed, expected), f) && |f| == |expected|
  {
    var f: map<nat, nat> := map e: nat | e < |at| :: at[e];
    assert IsAssignment(FitsOf(rules, observed, expected), f);
    assert f.Keys == Below(|expected|);
  }

  lemma AssignedCallMeets<O, E>(rules: Rules<O, E>, observed: seq<O>, expected: seq<E>, f: map<nat, nat>)
    requires IsAssignment(FitsOf(rules, observed, expected), f) && |f| > 0
    ensures exists k, c | 0 <= k < |expected| && 0 <= c < |observed| :: rules.meets(observed[c], expected[k])
  {
    assert f.Keys != {};
    var e :| e in f.Keys;
    assert FitsOf(rules, observed, expected)[e][f[e]];
  }

  lemma OneCallAssigned<O, E>(rules: Rules<O, E>, observed: seq<O>, expected: seq<E>, e: nat, c: nat)
    requires e < |expected| && c < |observed| && rules.meets(observed[c], expected[e])
    ensures exists f :: IsAssignment(FitsOf(rules, observed, expected), f) && |f| == 1
  {
    var one: map<nat, nat> := map[e := c];
    assert IsAssignment(FitsOf(rules, observed, expected), one);
    assert one.Keys == {e};
  }

  /** The positions of a list of `n`. */
  ghost function Below(n: nat): (s: set<nat>)
    ensures |s| == n && forall k: nat :: k in s <==> k < n
  {
    if n == 0 then {} else Below(n - 1) + {n - 1}
  }

  // ---- Which expectations are met, and which are missing ----

  /** `missing` is the expectations at the positions `lacking`, in order. */
  ghost predicate Lists<E>(expected: seq<E>, lacking: set<nat>, missing: seq<E>) {
    exists at :: Picks(expected, at, missing) && forall k: nat :: k in at <==> k in lacking
  }

  /** The expectations from position `k` on that are not among `met`, in order. */
  ghost function Unmet<E>(expected: seq<E>, met: set<nat>, k: nat): seq<E>
    requires k <= |expected|
    decreases |expected| - k
  {
    if k == |expected| then []
    else (if k in met then [] else [expected[k]]) + Unmet(expected, met, k + 1)
  }

  /** Walks `expected` once: counts those in `met` and lists the others, in order. */
  ghost predicate Tallied<E>(expected: seq<E>, met: set<nat>, matched: nat, missing: seq<E>) {
    && (forall k | k in met :: k < |expected|)
    && matched == |met|
    && missing == Unmet(expected, met, 0)
  }

  /** Nothing is counted twice or lost. */
  lemma {:induction false} UnmetCount<E>(expected: seq<E>, met: set<nat>, k: nat)
    requires k <= |expected| && forall j | j in met :: j < |expected|
    ensures |Unmet(expected, met, k)| + |set j | j in met && j >= k| == |expected| - k
    decreases |expected| - k
  {
    var rest := set j | j in met && j >= k;
    if k == |expected| {
      assert rest == {};
    } else {
      UnmetCount(expected, met, k + 1);
      var next := set j | j in met && j >= k + 1;
      if k in met { assert rest == next + {k}; } else { assert rest == next; }
    }
  }

  lemma TalliedSum<E>(expected: seq<E>, met: set<nat>, matched: nat, missing: seq<E>)
    requires Tallied(expected, met, matched, missing)
    ensures matched + |missing| == |expected|
  {
    UnmetCount(expected, met, 0);
    assert (set j | j in met && j >= 0) == met;
  }

  lemma {:induction false} UnmetPlaces<E>(expected: seq<E>, met: set<nat>, k: nat) returns (at: seq<nat>)
    requires k <= |expected|
    ensures Picks(expected, at, Unmet(expected, met, k))
    ensures forall j: nat :: j in at <==> k <= j < |expected| && j !in met
    decreases |expected| - k
  {
    if k == |expected| {
      at := [];
    } else {
      var below := UnmetPlaces(expected, met, k + 1);
      forall j | 0 <= j < |below| ensures below[j] > k { assert below[j] in below; }
      StandsFirst(expected, k, below, Unmet(expected, met, k + 1));
      assert [] + Unmet(expected, met, k + 1) == Unmet(expected, met, k + 1);
      at := if k in met then below else [k] + below;
    }
  }

  lemma StandsFirst<E>(expected: seq<E>, k: nat, below: seq<nat>, rest: seq<E>)
    requires k < |expected| && Picks(expected, below, rest) && forall j | 0 <= j < |below| :: below[j] > k
    ensures Picks(expected, [k] + below, [expected[k]] + rest)
    ensures forall j: nat :: j in [k] + below <==> j == k || j in below
  {
  }

  /** What a tally lists are the expectations not met. */
  lemma TalliedLists<E>(expected: seq<E>, met: set<nat>, matched: nat, missing: seq<E>, lacking: set<nat>)
    requires Tallied(expected, met, matched, missing)
    requires forall k: nat :: k in lacking <==> k < |expected| && k !in met
    ensures Lists(expected, lacking, missing)
  {
    var at := UnmetPlaces(expected, met, 0);
  }

  lemma {:induction false} UnmetSnoc<E>(expected: seq<E>, met: set<nat>, k: nat)
    requires k < |expected|
    ensures Unmet(expected[..k + 1], met, 0) == Unmet(expected[..k], met, 0) + (if k in met then [] else [expected[k]])
  {
    UnmetSnocFrom(expected, met, k, 0);
  }

  lemma {:induction false} UnmetSnocFrom<E>(expected: seq<E>, met: set<nat>, k: nat, i: nat)
    requires i <= k < |expected|
    ensures Unmet(expected[..k + 1], met, i) == Unmet(expected[..k], met, i) + (if k in met then [] else [expected[k]])
    decreases k - i
  {
    assert expected[..k + 1][i] == expected[i];
    if i < k {
      assert expected[..k][i] == expected[i];
      UnmetSnocFrom(expected, met, k, i + 1);
    }
  }

  /** Only members below the end of the list matter. */
  lemma {:induction false} UnmetIgnores<E>(expected: seq<E>, met: set<nat>, met': set<nat>, k: nat)
    requires k <= |expected| && forall j | k <= j < |expected| :: j in met <==> j in met'
    ensures Unmet(expected, met, k) == Unmet(expected, met', k)
    decreases |expected| - k
  {
    if k < |expected| { UnmetIgnores(expected, met, met', k + 1); }
  }

  /** One more expectation, met or not, added to a tally. */
  lemma TallyNext<E>(expected: seq<E>, k: nat, met: set<nat>, matched: nat, missing: seq<E>)
    requires k < |expected| && Tallied(expected[..k], met, matched, missing)
    ensures Tallied(expected[..k + 1], met + {k}, matched + 1, missing)
    ensures Tallied(expected[..k + 1], met, matched, missing + [expected[k]])
  {
    UnmetSnoc(expected, met, k);
    UnmetSnoc(expected, met + {k}, k);
    UnmetIgnores(expected[..k], met, met + {k}, 0);
  }

  // ---- exact ----

  ghost function MetInPlace<O, E>(rules: Rules<O, E>, observed: seq<O>, expected: seq<E>): set<nat> {
    set k: nat | k < |expected| && k < |observed| && rules.meets(observed[k], expected[k])
  }

  method CountInPlace<O, E>(rules: Rules<O, E>, observed: seq<O>, expected: seq<E>)
    returns (matched: nat, missing: seq<E>)
    ensures Tallied(expected, MetInPlace(rules, observed, expected), matched, missing)
  {
    matched, missing := 0, [];
    for i := 0 to |expected|
      invariant Tallied(expected[..i], MetInPlace(rules, observed, expected[..i]), matched, missing)
    {
      TallyNext(expected, i, MetInPlace(rules, observed, expected[..i]), matched, missing);
      if i < |observed| && rules.meets(observed[i], expected[i]) {
        assert MetInPlace(rules, observed, expected[..i + 1]) == MetInPlace(rules, observed, expected[..i]) + {i};
        matched := matched + 1;
      } else {
        assert MetInPlace(rules, observed, expected[..i + 1]) == MetInPlace(rules, observed, expected[..i]);
        missing := missing + [expected[i]];
      }
    }
    assert expected[..|expected|] == expected;
  }

  // ---- ordered_subset ----

  /** The first call at or after `from` that meets `e`; the number of calls when there is none. */
  ghost function FirstAt<O, E>(rules: Rules<O, E>, observed: seq<O>, e: E, from: nat): (at: nat)
    requires from <= |observed|
    ensures from <= at <= |observed|
    ensures at < |observed| ==> rules.meets(observed[at], e)
    ensures forall c | from <= c < at :: !rules.meets(observed[c], e)
    decreases |observed| - from
  {
    if from == |observed| || rules.meets(observed[from], e) then from
    else FirstAt(rules, observed, e, from + 1)
  }

  /** Where the greedy search stands after the first `k` expectations. */
  ghost function Cursor<O, E>(rules: Rules<O, E>, observed: seq<O>, expected: seq<E>, k: nat): (cursor: nat)
    requires k <= |expected|
    ensures cursor <= |observed|
  {
    if k == 0 then 0
    else
      var from := Cursor(rules, observed, expected, k - 1);
      var at := FirstAt(rules, observed, expected[k - 1], from);
      if at < |observed| then at + 1 else from
  }

  /** Expectation `k` finds a call at or after the cursor. */
  ghost predicate Found<O, E>(rules: Rules<O, E>, observed: seq<O>, expected: seq<E>, k: nat) {
    k < |expected| && FirstAt(rules, observed, expected[k], Cursor(rules, observed, expected, k)) < |observed|
  }

  ghost function MetInOrder<O, E>(rules: Rules<O, E>, observed: seq<O>, expected: seq<E>, n: nat): set<nat> {
    set k: nat | k < n && Found(rules, observed, expected, k)
  }

  /**
   * The place of one expectation, given those of the ones before it: the first call that meets it behind all
   * the calls they took, and none when there is no such call.
   */
  ghost predicate EarliestAt<O, E>(rules: Rules<O, E>, observed: seq<O>, e: E, before: seq<Option<nat>>, place: Option<nat>) {
    && (place.Some? ==> place.value < |observed| && rules.meets(observed[place.value], e) && Behind(before, place.value))
    && forall c: nat | c < |observed| && rules.meets(observed[c], e) && Behind(before, c) :: place.Some? && place.value <= c
  }

  /** Behind every call taken. */
  ghost predicate Behind(taken: seq<Option<nat>>, c: nat) {
    forall j | 0 <= j < |taken| && taken[j].Some? :: taken[j].value < c
  }

  /** Each expectation, in order, takes the first call behind those already taken that meets it, if there is one. */
  ghost predicate TakesEarliest<O, E>(rules: Rules<O, E>, observed: seq<O>, expected: seq<E>, places: seq<Option<nat>>) {
    |places| == |expected| && forall k | 0 <= k < |places| :: EarliestAt(rules, observed, expected[k], places[..k], places[k])
  }

  /** There is only one way to. */
  lemma {:induction false} EarliestIsUnique<O, E>(
    rules: Rules<O, E>, observed: seq<O>, expected: seq<E>, a: seq<Option<nat>>, b: seq<Option<nat>>)
    requires TakesEarliest(rules, observed, expected, a) && TakesEarliest(rules, observed, expected, b)
    ensures a == b
  {
    for k := 0 to |expected|
      invariant a[..k] == b[..k]
    {
      assert EarliestAt(rules, observed, expected[k], a[..k], a[k]) && EarliestAt(rules, observed, expected[k], b[..k], b[k]);
    }
  }

  /** The cursor stands right behind the last call taken. */
  lemma {:induction false} CursorTakes<O, E>(rules: Rules<O, E>, observed: seq<O>, expected: seq<E>, n: nat)
    returns (places: seq<Option<nat>>)
    requires n <= |expected|
    ensures TakesEarliest(rules, observed, expected[..n], places)
    ensures forall k | 0 <= k < n :: places[k].Some? <==> Found(rules, observed, expected, k)
    ensures forall c: nat :: Behind(places, c) <==> c >= Cursor(rules, observed, expected, n)
  {
    if n == 0 {
      places := [];
    } else {
      var before := CursorTakes(rules, observed, expected, n - 1);
      var place := CursorFinds(rules, observed, expected[n - 1], before, Cursor(rules, observed, expected, n - 1));
      places := before + [place];
      EarliestSnoc(rules, observed, expected, before, place, n);
    }
  }

  lemma CursorFinds<O, E>(rules: Rules<O, E>, observed: seq<O>, e: E, before: seq<Option<nat>>, cursor: nat)
    returns (place: Option<nat>)
    requires cursor <= |observed| && forall c: nat :: Behind(before, c) <==> c >= cursor
    ensures EarliestAt(rules, observed, e, before, place)
    ensures var at := FirstAt(rules, observed, e, cursor);
      && place == (if at < |observed| then Some(at) else None)
      && forall c: nat :: Behind(before + [place], c) <==> c >= if at < |observed| then at + 1 else cursor
  {
    var at := FirstAt(rules, observed, e, cursor);
    place := if at < |observed| then Some(at) else None;
    forall c: nat ensures Behind(before + [place], c) <==> Behind(before, c) && (place.Some? ==> place.value < c) {
      BehindMore(before, place, c);
    }
  }

  lemma BehindMore(before: seq<Option<nat>>, place: Option<nat>, c: nat)
    ensures Behind(before + [place], c) <==> Behind(before, c) && (place.Some? ==> place.value < c)
  {
    var all := before + [place];
    assert all[|before|] == place && forall j | 0 <= j < |before| :: all[j] == before[j];
  }

  lemma EarliestSnoc<O, E>(
    rules: Rules<O, E>, observed: seq<O>, expected: seq<E>, before: seq<Option<nat>>, place: Option<nat>, n: nat)
    requires 0 < n <= |expected| && TakesEarliest(rules, observed, expected[..n - 1], before)
    requires EarliestAt(rules, observed, expected[n - 1], before, place)
    ensures TakesEarliest(rules, observed, expected[..n], before + [place])
  {
    var places := before + [place];
    forall k | 0 <= k < n ensures EarliestAt(rules, observed, expected[..n][k], places[..k], places[k]) {
      assert places[..k] == before[..k];
      if k < n - 1 {
        assert expected[..n - 1][k] == expected[..n][k];
        assert EarliestAt(rules, observed, expected[..n - 1][k], before[..k], before[k]);
      } else {
        assert before[..k] == before;
      }
    }
  }

  /** While nothing is missed, no embedding can be ahead of the greedy search. */
  lemma {:induction false} GreedyStaysAhead<O, E>(
    rules: Rules<O, E>, observed: seq<O>, expected: seq<E>, at: seq<nat>, k: nat)
    requires Embeds(rules, observed, expected, at) && k <= |expected|
    ensures k > 0 ==> Cursor(rules, observed, expected, k) <= at[k - 1] + 1
    ensures forall j | 0 <= j < k :: Found(rules, observed, expected, j)
  {
    if k > 0 {
      GreedyStaysAhead(rules, observed, expected, at, k - 1);
      var from := Cursor(rules, observed, expected, k - 1);
      assert from <= at[k - 1];
      assert rules.meets(observed[at[k - 1]], expected[k - 1]);
    }
  }

  lemma {:induction false} GreedyEmbeds<O, E>(rules: Rules<O, E>, observed: seq<O>, expected: seq<E>, k: nat)
    returns (at: seq<nat>)
    requires k <= |expected| && forall j | 0 <= j < k :: Found(rules, observed, expected, j)
    ensures Embeds(rules, observed, expected[..k], at)
    ensures k > 0 ==> Cursor(rules, observed, expected, k) == at[k - 1] + 1
    ensures forall j | 0 <= j < |at| :: at[j] < Cursor(rules, observed, expected, k)
  {
    if k == 0 {
      at := [];
    } else {
      at := GreedyEmbeds(rules, observed, expected, k - 1);
      assert Found(rules, observed, expected, k - 1);
      at := at + [FirstAt(rules, observed, expected[k - 1], Cursor(rules, observed, expected, k - 1))];
    }
  }

  lemma AllFound<O, E>(rules: Rules<O, E>, observed: seq<O>, expected: seq<E>)
    ensures |MetInOrder(rules, observed, expected, |expected|)| == |expected|
       <==> forall j | 0 <= j < |expected| :: Found(rules, observed, expected, j)
  {
    var met, all := MetInOrder(rules, observed, expected, |expected|), Below(|expected|);
    if |met| == |expected| {
      FullSubset(met, all);
      forall j | 0 <= j < |expected| ensures Found(rules, observed, expected, j) { assert j in all; }
    }
    if forall j | 0 <= j < |expected| :: Found(rules, observed, expected, j) {
      assert met == all;
    }
  }

  /** The greedy search meets every expectation exactly when some embedding does. */
  lemma GreedyIsComplete<O, E>(rules: Rules<O, E>, observed: seq<O>, expected: seq<E>)
    ensures |MetInOrder(rules, observed, expected, |expected|)| == |expected|
       <==> Meets(rules, observed, expected, OrderedSubset)
  {
    AllFound(rules, observed, expected);
    if at :| Embeds(rules, observed, expected, at) {
      GreedyStaysAhead(rules, observed, expected, at, |expected|);
    }
    if forall j | 0 <= j < |expected| :: Found(rules, observed, expected, j) {
      var at := GreedyEmbeds(rules, observed, expected, |expected|);
      assert expected[..|expected|] == expected;
    }
  }

  lemma {:induction false} FullSubset<T>(xs: set<T>, ys: set<T>)
    requires xs <= ys && |xs| == |ys|
    ensures xs == ys
  {
    if y :| y in ys && y !in xs {
      assert xs <= ys - {y};
      SubsetSize(xs, ys - {y});
    }
  }

  lemma {:induction false} SubsetSize<T>(xs: set<T>, ys: set<T>)
    requires xs <= ys
    ensures |xs| <= |ys|
  {
    if xs != {} {
      var x :| x in xs;
      SubsetSize(xs - {x}, ys - {x});
    }
  }

  method FindFrom<O, E>(rules: Rules<O, E>, observed: seq<O>, e: E, cursor: nat) returns (at: int)
    requires cursor <= |observed|
    ensures var first := FirstAt(rules, observed, e, cursor); at == if first < |observed| then first else -1
  {
    for i := 0 to |observed|
      invariant forall c | cursor <= c < i :: !rules.meets(observed[c], e)
    {
      if i >= cursor && rules.meets(observed[i], e) { return i; }
    }
    return -1;
  }

  lemma NextInOrder<O, E>(rules: Rules<O, E>, observed: seq<O>, expected: seq<E>, k: nat)
    requires k < |expected|
    ensures var at := FirstAt(rules, observed, expected[k], Cursor(rules, observed, expected, k));
      var before := MetInOrder(rules, observed, expected, k);
      MetInOrder(rules, observed, expected, k + 1) == if at < |observed| then before + {k} else before
  {
  }

  method CountInOrder<O, E>(rules: Rules<O, E>, observed: seq<O>, expected: seq<E>)
    returns (matched: nat, missing: seq<E>)
    ensures Tallied(expected, MetInOrder(rules, observed, expected, |expected|), matched, missing)
  {
    matched, missing := 0, [];
    var cursor := 0;
    for k := 0 to |expected|
      invariant cursor == Cursor(rules, observed, expected, k)
      invariant Tallied(expected[..k], MetInOrder(rules, observed, expected, k), matched, missing)
    {
      TallyNext(expected, k, MetInOrder(rules, observed, expected, k), matched, missing);
      var at := FindFrom(rules, observed, expected[k], cursor);
      NextInOrder(rules, observed, expected, k);
      if at == -1 {
        missing := missing + [expected[k]];
      } else {
        matched := matched + 1;
        cursor := at + 1;
      }
    }
    assert expected[..|expected|] == expected;
  }

  // ---- subset and contains_any ----

  method CountOwners<E>(expected: seq<E>, owners: set<int>) returns (matched: nat, missing: seq<E>)
    requires forall e | e in owners :: 0 <= e < |expected|
    ensures Tallied(expected, owners, matched, missing)
  {
    matched, missing := 0, [];
    ghost var met: set<nat> := {};
    for k := 0 to |expected|
      invariant Tallied(expected[..k], met, matched, missing)
      invariant forall j: nat :: j in met <==> j < k && j in owners
    {
      TallyNext(expected, k, met, matched, missing);
      if k in owners {
        matched, met := matched + 1, met + {k};
      } else {
        missing := missing + [expected[k]];
      }
    }
    assert expected[..|expected|] == expected;
    assert met == owners;
  }

  /**
   * A one-to-one assignment of calls meets all expectations but `missing`, and none meets more than
   * `matched`.
   */
  ghost predicate AssignsMost<O, E>(
    rules: Rules<O, E>, observed: seq<O>, expected: seq<E>, matched: nat, missing: seq<E>)
  {
    && MostMet(FitsOf(rules, observed, expected), matched)
    && exists f ::
         && IsAssignment(FitsOf(rules, observed, expected), f) && Tallied(expected, f.Keys, matched, missing)
         && Lists(expected, (set k: nat | k < |expected| && k !in f), missing)
  }

  method CountAssigned<O, E>(rules: Rules<O, E>, observed: seq<O>, expected: seq<E>)
    returns (matched: nat, missing: seq<E>)
    ensures AssignsMost(rules, observed, expected, matched, missing)
    ensures matched + |missing| == |expected|
  {
    var fits := FitsOf(rules, observed, expected);
    var owner := MaximumMatching(fits, |observed|);
    var owners := Owned(owner[..]);
    matched, missing := CountOwners(expected, owners);
    TalliedSum(expected, owners, matched, missing);
    TalliedLists(expected, owners, matched, missing, (set k: nat | k < |expected| && k !in owners));
  }

  /** Everything can be assigned exactly when the maximum is everything. */
  lemma MostMetIsAll(fits: Fits, k: nat)
    requires MostMet(fits, k)
    ensures k == |fits| <==> exists f :: IsAssignment(fits, f) && |f| == |fits|
  {
    if f :| IsAssignment(fits, f) && |f| == |fits| {
      var best :| IsAssignment(fits, best) && |best| == k;
      AssignmentSize(fits, best);
    }
  }

  /** Something is met exactly when the maximum is not nothing. */
  lemma MostMetIsSome<O, E>(rules: Rules<O, E>, observed: seq<O>, expected: seq<E>, k: nat)
    requires MostMet(FitsOf(rules, observed, expected), k)
    ensures k > 0 <==> exists e, c | 0 <= e < |expected| && 0 <= c < |observed| :: rules.meets(observed[c], expected[e])
  {
    var best :| IsAssignment(FitsOf(rules, observed, expected), best) && |best| == k;
    if k > 0 { AssignedCallMeets(rules, observed, expected, best); }
    if e, c :| 0 <= e < |expected| && 0 <= c < |observed| && rules.meets(observed[c], expected[e]) {
      OneCallAssigned(rules, observed, expected, e, c);
    }
  }

  lemma AssignmentSize(fits: Fits, f: map<nat, nat>)
    requires IsAssignment(fits, f)
    ensures |f| <= |fits|
  {
    SubsetSize(f.Keys, Below(|fits|));
  }

  // ---- The whole judgement ----

  predicate Trips<O, E>(rules: Rules<O, E>, call: O, forbidden: seq<E>) {
    exists f | 0 <= f < |forbidden| :: rules.Forbids(call, forbidden[f])
  }

  /** The observed calls that trip a forbidden entry, in order. */
  function Violations<O, E>(rules: Rules<O, E>, observed: seq<O>, forbidden: seq<E>): (v: seq<O>)
    ensures v == [] <==> Clean(rules, observed, forbidden)
  {
    if observed == [] then []
    else
      var rest := Violations(rules, observed[1..], forbidden);
      if Trips(rules, observed[0], forbidden) then [observed[0]] + rest else rest
  }

  /** The violations are calls in the order observed, at all the places where an entry forbids the call and no others. */
  lemma {:induction false} ViolationsInOrder<O, E>(rules: Rules<O, E>, observed: seq<O>, forbidden: seq<E>)
    returns (places: seq<nat>)
    ensures Picks(observed, places, Violations(rules, observed, forbidden))
    ensures forall c: nat | c < |observed| :: c in places <==> Trips(rules, observed[c], forbidden)
  {
    places := [];
    if observed != [] {
      var below := ViolationsInOrder(rules, observed[1..], forbidden);
      var shifted := PicksShifted(observed, below, Violations(rules, observed[1..], forbidden));
      places := if Trips(rules, observed[0], forbidden) then [0] + shifted else shifted;
      forall c: nat | c < |observed| ensures c in places <==> Trips(rules, observed[c], forbidden) {
        if c > 0 { assert observed[c] == observed[1..][c - 1]; }
      }
    }
  }

  /**
   * What is reported as missing, mode by mode, all the rest being matched: in place, the expectations whose own
   * call does not meet them; in order, those that find no call behind the ones taken; else as few as can be.
   */
  ghost predicate Reports<O, E>(
    rules: Rules<O, E>, observed: seq<O>, expected: seq<E>, mode: MatchMode, matched: nat, missing: seq<E>)
  {
    && matched + |missing| == |expected|
    && match mode
       case Exact =>
         Lists(expected, (set k: nat | k < |expected| && (k >= |observed| || !rules.meets(observed[k], expected[k]))), missing)
       case OrderedSubset =>
         exists places: seq<Option<nat>> ::
           && TakesEarliest(rules, observed, expected, places)
           && Lists(expected, (set k: nat | k < |places| && places[k].None?), missing)
       case Subset => AssignsMost(rules, observed, expected, matched, missing)
       case ContainsAny => AssignsMost(rules, observed, expected, matched, missing)
  }

  /**
   * matchCalls. A case passes exactly when its expectations are met in the sense of its mode and no
   * forbidden call was made (with no expectations, every mode but exact passes).
   */
  method MatchCalls<O, E>(rules: Rules<O, E>, observed: seq<O>, expected: seq<E>, mode: MatchMode, forbidden: seq<E>)
    returns (r: MatchResult<O, E>)
    ensures r.total == |expected| && r.matched + |r.missing| == r.total
    ensures r.violations ==
      if forbidden == [] then None else Some(Violations(rules, observed, forbidden))
    ensures r.passed <==> Meets(rules, observed, expected, mode) && Clean(rules, observed, forbidden)
    ensures expected != [] ==> r.score == r.matched as real / r.total as real
    ensures expected == [] ==> r.score == if Meets(rules, observed, expected, mode) then 1.0 else 0.0
    ensures Reports(rules, observed, expected, mode, r.matched, r.missing)
  {
    var violations := if forbidden == [] then None else Some(Violations(rules, observed, forbidden));
    var clean := violations == None || violations.value == [];
    var total := |expected|;
    if total == 0 {
      NothingExpected(rules, observed, expected);
      var met := mode != Exact || observed == [];
      return MatchResult(0, 0, if met then 1.0 else 0.0, met && clean, [], violations);
    }
    if mode == Exact {
      var matched, missing := CountInPlace(rules, observed, expected);
      InPlaceReports(rules, observed, expected, matched, missing);
      InPlaceDecides(rules, observed, expected);
      return MatchResult(matched, total, matched as real / total as real,
        |observed| == |expected| && matched == total && clean, missing, violations);
    }
    var matched, missing;
    if mode == OrderedSubset {
      matched, missing := CountInOrder(rules, observed, expected);
      InOrderReports(rules, observed, expected, matched, missing);
      GreedyIsComplete(rules, observed, expected);
    } else {
      matched, missing := CountAssigned(rules, observed, expected);
      MostMetIsAll(FitsOf(rules, observed, expected), matched);
      MostMetIsSome(rules, observed, expected, matched);
    }
    var passed := if mode == ContainsAny then matched > 0 else matched == total;
    r := MatchResult(matched, total, matched as real / total as real, passed && clean, missing, violations);
  }

  lemma InPlaceReports<O, E>(rules: Rules<O, E>, observed: seq<O>, expected: seq<E>, matched: nat, missing: seq<E>)
    requires Tallied(expected, MetInPlace(rules, observed, expected), matched, missing)
    ensures Reports(rules, observed, expected, Exact, matched, missing)
  {
    TalliedSum(expected, MetInPlace(rules, observed, expected), matched, missing);
    TalliedLists(expected, MetInPlace(rules, observed, expected), matched, missing,
      (set k: nat | k < |expected| && (k >= |observed| || !rules.meets(observed[k], expected[k]))));
  }

  lemma InOrderReports<O, E>(rules: Rules<O, E>, observed: seq<O>, expected: seq<E>, matched: nat, missing: seq<E>)
    requires Tallied(expected, MetInOrder(rules, observed, expected, |expected|), matched, missing)
    ensures Reports(rules, observed, expected, OrderedSubset, matched, missing)
  {
    TalliedSum(expected, MetInOrder(rules, observed, expected, |expected|), matched, missing);
    var places := CursorTakes(rules, observed, expected, |expected|);
    assert expected[..|expected|] == expected;
    TalliedLists(expected, MetInOrder(rules, observed, expected, |expected|), matched, missing,
      (set k: nat | k < |places| && places[k].None?));
  }

  lemma InPlaceDecides<O, E>(rules: Rules<O, E>, observed: seq<O>, expected: seq<E>)
    ensures |observed| == |expected| ==>
      (|MetInPlace(rules, observed, expected)| == |expected| <==> Meets(rules, observed, expected, Exact))
  {
    var met := MetInPlace(rules, observed, expected);
    var all := Below(|expected|);
    if |met| == |expected| == |observed| {
      FullSubset(met, all);
      forall k | 0 <= k < |expected| ensures rules.meets(observed[k], expected[k]) {
        assert k in all;
      }
    }
    if Meets(rules, observed, expected, Exact) {
      assert met == all;
    }
  }

  lemma NothingExpected<O, E>(rules: Rules<O, E>, observed: seq<O>, expected: seq<E>)
    requires expected == []
    ensures Meets(rules, observed, expected, Exact) <==> observed == []
    ensures Meets(rules, observed, expected, OrderedSubset)
    ensures Meets(rules, observed, expected, Subset)
    ensures Meets(rules, observed, expected, ContainsAny)
    ensures forall mode :: Reports(rules, observed, expected, mode, 0, [])
  {
    var fits := FitsOf(rules, observed, expected);
    assert Embeds(rules, observed, expected, []);
    assert MetInPlace(rules, observed, expected) == {} && MetInOrder(rules, observed, expected, |expected|) == {};
    InPlaceReports(rules, observed, expected, 0, []);
    InOrderReports(rules, observed, expected, 0, []);
    var none: map<nat, nat> := map[];
    assert IsAssignment(fits, none) && none.Keys == {};
    assert Tallied(expected, none.Keys, 0, []);
    TalliedLists(expected, none.Keys, 0, [], (set k: nat | k < |expected| && k !in none));
    forall f | IsAssignment(fits, f) ensures |f| <= 0 { AssignmentSize(fits, f); }
  }
}
