/** Edit scripts and longest common subsequences: what a line diff is measured against. */
module EditScripts {

  /** One step of turning an old file into a new one, line by line. */
  datatype Edit<T> = Keep(line: T) | Delete(line: T) | Insert(line: T)

  /** The file a script starts from. */
  ghost function Source<T>(es: seq<Edit<T>>): seq<T> {
    if es == [] then [] else (if es[0].Insert? then [] else [es[0].line]) + Source(es[1..])
  }

  /** The file a script ends at. */
  ghost function Target<T>(es: seq<Edit<T>>): seq<T> {
    if es == [] then [] else (if es[0].Delete? then [] else [es[0].line]) + Target(es[1..])
  }

  /** How many lines a script deletes plus inserts. */
  ghost function Cost<T>(es: seq<Edit<T>>): nat {
    if es == [] then 0 else (if es[0].Keep? then 0 else 1) + Cost(es[1..])
  }

  /** `s` is what is left of `a` after dropping some of its lines. */
  ghost predicate Subsequence<T>(s: seq<T>, a: seq<T>) {
    s == [] || (a != [] && ((s[0] == a[0] && Subsequence(s[1..], a[1..])) || Subsequence(s, a[1..])))
  }

  /** The length of a longest common subsequence. */
  ghost function Lcs<T>(a: seq<T>, b: seq<T>): nat
    decreases |a| + |b|
  {
    if a == [] || b == [] then 0
    else if a[0] == b[0] then 1 + Lcs(a[1..], b[1..])
    else Max(Lcs(a[1..], b), Lcs(a, b[1..]))
  }

  function Max(x: nat, y: nat): nat {
    if x > y then x else y
  }

  lemma {:induction false} LcsBounded<T>(a: seq<T>, b: seq<T>)
    ensures Lcs(a, b) <= |a| && Lcs(a, b) <= |b|
    decreases |a| + |b|
  {
    if a != [] && b != [] {
      LcsBounded(a[1..], b[1..]);
      LcsBounded(a[1..], b);
      LcsBounded(a, b[1..]);
    }
  }

  /** Dropping the first line of either file never helps and loses at most one. */
  lemma {:induction false} LcsDropOne<T>(a: seq<T>, b: seq<T>)
    ensures a != [] ==> Lcs(a[1..], b) <= Lcs(a, b) <= Lcs(a[1..], b) + 1
    ensures b != [] ==> Lcs(a, b[1..]) <= Lcs(a, b) <= Lcs(a, b[1..]) + 1
    decreases |a| + |b|
  {
    if a != [] && b != [] {
      LcsDropOne(a[1..], b[1..]);
      LcsDropOne(a[1..], b);
      LcsDropOne(a, b[1..]);
    }
  }

  /** A shared last line is always worth keeping. */
  lemma {:induction false} LcsSharedLast<T>(a: seq<T>, b: seq<T>, x: T)
    ensures Lcs(a + [x], b + [x]) == Lcs(a, b) + 1
    decreases |a| + |b|
  {
    var ax, bx := a + [x], b + [x];
    if a == [] && b == [] {
    } else if a == [] {
      assert bx[0] == b[0] && bx[1..] == b[1..] + [x] && ax[1..] == [];
      LcsSharedLast(a, b[1..], x);
      LcsBounded([], b);
    } else if b == [] {
      assert ax[0] == a[0] && ax[1..] == a[1..] + [x] && bx[1..] == [];
      LcsSharedLast(a[1..], b, x);
    } else {
      assert ax[0] == a[0] && ax[1..] == a[1..] + [x];
      assert bx[0] == b[0] && bx[1..] == b[1..] + [x];
      if a[0] == b[0] {
        LcsSharedLast(a[1..], b[1..], x);
      } else {
        LcsSharedLast(a[1..], b, x);
        LcsSharedLast(a, b[1..], x);
      }
    }
  }

  /** Setting a common prefix aside changes the measure by exactly its length. */
  lemma {:induction false} LcsSharedPrefix<T>(p: seq<T>, a: seq<T>, b: seq<T>)
    ensures Lcs(p + a, p + b) == |p| + Lcs(a, b)
  {
    if p == [] {
      assert p + a == a && p + b == b;
    } else {
      assert (p + a)[1..] == p[1..] + a && (p + b)[1..] == p[1..] + b;
      LcsSharedPrefix(p[1..], a, b);
    }
  }

  /** And so does setting a common suffix aside. */
  lemma {:induction false} LcsSharedSuffix<T>(a: seq<T>, b: seq<T>, s: seq<T>)
    ensures Lcs(a + s, b + s) == Lcs(a, b) + |s|
    decreases |s|
  {
    if s == [] {
      assert a + s == a && b + s == b;
    } else {
      var x, rest := s[0], s[1..];
      assert a + s == (a + [x]) + rest && b + s == (b + [x]) + rest;
      LcsSharedSuffix(a + [x], b + [x], rest);
      LcsSharedLast(a, b, x);
    }
  }

  /** No edit script is cheaper than deleting and inserting everything outside a longest common subsequence. */
  lemma {:induction false} NoCheaperScript<T>(es: seq<Edit<T>>)
    ensures Cost(es) >= |Source(es)| + |Target(es)| - 2 * Lcs(Source(es), Target(es))
  {
    if es != [] {
      var a, b := Source(es), Target(es);
      NoCheaperScript(es[1..]);
      match es[0]
      case Keep(_) =>
        assert a[1..] == Source(es[1..]) && b[1..] == Target(es[1..]);
      case Delete(_) =>
        assert a[1..] == Source(es[1..]) && b == Target(es[1..]);
        LcsDropOne(a, b);
      case Insert(_) =>
        assert a == Source(es[1..]) && b[1..] == Target(es[1..]);
        LcsDropOne(a, b);
    }
  }

  /** `Lcs` is an upper bound on every common subsequence. */
  lemma {:induction false} LcsIsLongest<T>(s: seq<T>, a: seq<T>, b: seq<T>)
    requires Subsequence(s, a) && Subsequence(s, b)
    ensures |s| <= Lcs(a, b)
    decreases |a| + |b|
  {
    if s != [] {
      LcsDropOne(a, b);
      if !(s[0] == a[0] && Subsequence(s[1..], a[1..])) {
        LcsIsLongest(s, a[1..], b);
      } else if !(s[0] == b[0] && Subsequence(s[1..], b[1..])) {
        LcsIsLongest(s, a, b[1..]);
      } else {
        LcsIsLongest(s[1..], a[1..], b[1..]);
      }
    }
  }

  /** And it is attained. */
  lemma {:induction false} LcsIsAttained<T>(a: seq<T>, b: seq<T>) returns (s: seq<T>)
    ensures Subsequence(s, a) && Subsequence(s, b) && |s| == Lcs(a, b)
    decreases |a| + |b|
  {
    if a == [] || b == [] {
      s := [];
    } else if a[0] == b[0] {
      var rest := LcsIsAttained(a[1..], b[1..]);
      s := [a[0]] + rest;
      assert s[1..] == rest;
    } else if Lcs(a[1..], b) > Lcs(a, b[1..]) {
      s := LcsIsAttained(a[1..], b);
    } else {
      s := LcsIsAttained(a, b[1..]);
    }
  }
}
