/**
 * mirrorInto of git-changes.ts: making one folder hold exactly a list of files when anything there may be a
 * file, a folder or a link, on a filesystem whose operations follow links as POSIX path resolution does.
 */
module MirrorTree {
  import opened Options

  /** Components from the root folder down; the root itself is []. */
  type Path = seq<string>

  /** A link's target is written as the absolute path it stands for. Times are in milliseconds. */
  datatype Node = Dir | File(bytes: seq<bv8>, mtime: real) | Link(target: Path)

  type Nodes = map<Path, Node>

  /** The most links one path resolution follows. */
  const MAX_LINKS: nat := 40

  // ---- The filesystem ----

  ghost predicate IsDir(n: Nodes, p: Path) { p in n && n[p].Dir? }

  function Parent(p: Path): Path
    requires p != []
  {
    p[..|p| - 1]
  }

  /** Every entry is in a real folder. */
  ghost predicate Tree(n: Nodes) {
    IsDir(n, []) && forall p {:trigger Parent(p)} | p in n && p != [] :: IsDir(n, Parent(p))
  }

  /** Resolution of `rest` from the real folder `base`, following every link. */
  function Real(n: Nodes, base: Path, rest: Path, fuel: nat): Option<Path>
    decreases fuel, |rest|
  {
    if rest == [] then Some(base)
    else
      var at := base + [rest[0]];
      if at !in n then None
      else match n[at]
        case Dir => Real(n, at, rest[1..], fuel)
        case Link(target) => if fuel == 0 then None else Real(n, [], target + rest[1..], fuel - 1)
        case File(_, _) => if |rest| == 1 then Some(at) else None
  }

  /** realpath. */
  function RealPath(n: Nodes, p: Path): Option<Path> { Real(n, [], p, MAX_LINKS) }

  /** The entry a path names, its last component not followed. */
  function Locate(n: Nodes, p: Path): (at: Option<Path>)
    ensures at.Some? ==> at.value != [] && IsDir(n, Parent(at.value))
  {
    if p == [] then None
    else
      var parent := RealPath(n, Parent(p));
      if parent.None? || parent.value !in n || !n[parent.value].Dir? then None
      else
        assert Parent(parent.value + [p[|p| - 1]]) == parent.value;
        Some(parent.value + [p[|p| - 1]])
  }

  /** The entry that opening a path for writing writes or creates. */
  function Opened(n: Nodes, p: Path, fuel: nat): Option<Path>
    decreases fuel
  {
    var at := Locate(n, p);
    if at.Some? && at.value in n && n[at.value].Link? then
      if fuel == 0 then None else Opened(n, n[at.value].target, fuel - 1)
    else at
  }

  /** The regular file a path leads to. */
  function FileAt(n: Nodes, p: Path): (f: Option<Node>)
    ensures f.Some? ==> f.value.File?
  {
    var at := RealPath(n, p);
    if at.Some? && at.value in n && n[at.value].File? then Some(n[at.value]) else None
  }

  /** Equal sizes and times less than a millisecond apart: what mirroring takes for the same file. */
  predicate UpToDate(d: Node, s: Node) {
    d.File? && s.File? && |d.bytes| == |s.bytes| && -1.0 < d.mtime - s.mtime < 1.0
  }

  // ---- What may change ----

  /** The two agree on everything that is not inside `root`. */
  ghost predicate SameOutside(a: Nodes, b: Nodes, root: Path) {
    forall p :: !(root < p) ==> (p in a <==> p in b) && (p in a ==> a[p] == b[p])
  }

  /** Resolving `rest` from `base` never meets an entry inside `root`. */
  ghost predicate Avoids(n: Nodes, root: Path, base: Path, rest: Path, fuel: nat)
    decreases fuel, |rest|
  {
    rest == [] ||
    var at := base + [rest[0]];
    && !(root < at)
    && (at in n ==> match n[at]
          case Dir => Avoids(n, root, at, rest[1..], fuel)
          case Link(target) => fuel > 0 ==> Avoids(n, root, [], target + rest[1..], fuel - 1)
          case File(_, _) => true)
  }

  /** `dir` leads to the real folder `root` without passing through its contents. */
  ghost predicate Grounded(n: Nodes, dir: Path, root: Path) {
    RealPath(n, dir) == Some(root) && IsDir(n, root) && Avoids(n, root, [], dir, MAX_LINKS)
  }

  /** Changes inside `root` change no resolution that avoids it. */
  lemma {:induction false} RealStays(a: Nodes, b: Nodes, root: Path, base: Path, rest: Path, fuel: nat)
    requires SameOutside(a, b, root) && Avoids(a, root, base, rest, fuel) && !(root < base)
    ensures Real(b, base, rest, fuel) == Real(a, base, rest, fuel) && Avoids(b, root, base, rest, fuel)
    ensures var r := Real(a, base, rest, fuel); r.Some? ==> !(root < r.value)
    decreases fuel, |rest|
  {
    if rest != [] {
      var at := base + [rest[0]];
      if at in a {
        match a[at]
        case Dir => RealStays(a, b, root, at, rest[1..], fuel);
        case Link(target) => if fuel > 0 { RealStays(a, b, root, [], target + rest[1..], fuel - 1); }
        case File(_, _) =>
      }
    }
  }

  lemma GroundedStays(a: Nodes, b: Nodes, dir: Path, root: Path)
    requires Grounded(a, dir, root) && SameOutside(a, b, root)
    ensures Grounded(b, dir, root)
  {
    RealStays(a, b, root, [], dir, MAX_LINKS);
  }

  lemma SourceStays(a: Nodes, b: Nodes, root: Path, p: Path)
    requires SameOutside(a, b, root) && Avoids(a, root, [], p, MAX_LINKS)
    ensures FileAt(b, p) == FileAt(a, p)
  {
    RealStays(a, b, root, [], p, MAX_LINKS);
  }

  // ---- Where paths below the folder lead ----

  lemma {:induction false} FoldersAbove(n: Nodes, p: Path, k: nat)
    requires Tree(n) && p in n && k < |p|
    ensures IsDir(n, p[..k])
  {
    var parent := Parent(p);
    if k < |p| - 1 {
      FoldersAbove(n, parent, k);
      assert parent[..k] == p[..k];
    }
  }

  /** From a real folder, real folders resolve to themselves. */
  lemma {:induction false} RealFolders(n: Nodes, base: Path, rest: Path, fuel: nat)
    requires Tree(n) && IsDir(n, base + rest)
    ensures Real(n, base, rest, fuel) == Some(base + rest)
    decreases |rest|
  {
    if rest == [] {
      assert base + rest == base;
    } else {
      var at := base + [rest[0]];
      assert at + rest[1..] == base + rest;
      if |rest| > 1 {
        FoldersAbove(n, base + rest, |at|);
        assert (base + rest)[..|at|] == at;
      } else {
        assert at == base + rest;
      }
      RealFolders(n, at, rest[1..], fuel);
    }
  }

  /** Beyond whatever links lead to the folder, a real folder inside it is where its path says. */
  lemma {:induction false} RealBeyond(n: Nodes, base: Path, rest: Path, fuel: nat, root: Path, rel: Path)
    requires Tree(n) && IsDir(n, root) && IsDir(n, root + rel)
    requires Real(n, base, rest, fuel) == Some(root)
    ensures Real(n, base, rest + rel, fuel) == Some(root + rel)
    decreases fuel, |rest|
  {
    if rest == [] {
      assert rest + rel == rel;
      RealFolders(n, root, rel, fuel);
    } else {
      assert (rest + rel)[1..] == rest[1..] + rel;
      var at := base + [rest[0]];
      match n[at]
      case Dir => RealBeyond(n, at, rest[1..], fuel, root, rel);
      case Link(target) =>
        Regroup(target, rest[1..], rel);
        RealBeyond(n, [], target + rest[1..], fuel - 1, root, rel);
      case File(_, _) => assert false;
    }
  }

  lemma Inside(n: Nodes, dir: Path, root: Path, parent: Path, name: string)
    requires Tree(n) && Grounded(n, dir, root) && IsDir(n, root + parent)
    ensures RealPath(n, dir + parent) == Some(root + parent)
    ensures Locate(n, dir + (parent + [name])) == Some(root + (parent + [name]))
  {
    RealBeyond(n, [], dir, MAX_LINKS, root, parent);
    LocateIn(n, dir + parent, name, root + parent);
    Regroup(dir, parent, [name]);
    Regroup(root, parent, [name]);
  }

  lemma Regroup(a: Path, b: Path, c: Path)
    ensures a + (b + c) == a + b + c
  {
  }

  lemma LocateIn(n: Nodes, folder: Path, name: string, at: Path)
    requires RealPath(n, folder) == Some(at) && IsDir(n, at)
    ensures Locate(n, folder + [name]) == Some(at + [name])
  {
    assert Parent(folder + [name]) == folder;
  }

  /** Nothing lies beyond a path that leads to a regular file. */
  lemma {:induction false} NothingBeyondFile(n: Nodes, base: Path, rest: Path, fuel: nat, more: Path)
    requires Tree(n) && IsDir(n, base) && more != []
    requires var r := Real(n, base, rest, fuel); r.Some? && r.value in n && n[r.value].File?
    ensures Real(n, base, rest + more, fuel).None?
    decreases fuel, |rest|
  {
    assert (rest + more)[1..] == rest[1..] + more;
    var at := base + [rest[0]];
    match n[at]
    case Dir => NothingBeyondFile(n, at, rest[1..], fuel, more);
    case Link(target) =>
      Regroup(target, rest[1..], more);
      NothingBeyondFile(n, [], target + rest[1..], fuel - 1, more);
    case File(_, _) =>
  }

  /** So of two listed files that both exist, neither lies below the other. */
  lemma SourcesApart(n: Nodes, from: Path, a: Path, b: Path)
    requires Tree(n) && FileAt(n, from + a).Some? && a < b
    ensures FileAt(n, from + b).None?
  {
    assert from + b == (from + a) + b[|a|..];
    NothingBeyondFile(n, [], from + a, MAX_LINKS, b[|a|..]);
  }

  // ---- Deleting what is gone ----

  /** `b` is `a` without the unwanted non-folders below `at`, of those only the ones through `names`. */
  ghost predicate SweptThrough(a: Nodes, b: Nodes, root: Path, at: Path, names: set<string>, want: set<Path>)
    requires root <= at
  {
    forall p ::
      && (p in b <==> p in a && !(at < p && p[|at|] in names && !a[p].Dir? && p[|root|..] !in want))
      && (p in b ==> b[p] == a[p])
  }

  ghost predicate Swept(a: Nodes, b: Nodes, root: Path, at: Path, want: set<Path>)
    requires root <= at
  {
    forall p ::
      && (p in b <==> p in a && !(at < p && !a[p].Dir? && p[|root|..] !in want))
      && (p in b ==> b[p] == a[p])
  }

  /** Removing only non-folders leaves a tree. */
  lemma OnlyLeavesGone(a: Nodes, b: Nodes)
    requires Tree(a)
    requires forall p | p in b :: p in a && b[p] == a[p]
    requires forall p | p in a && a[p].Dir? :: p in b
    ensures Tree(b)
  {
  }

  lemma SweptFolder(a: Nodes, b: Nodes, c: Nodes, root: Path, at: Path, names: set<string>, name: string, want: set<Path>)
    requires root <= at && IsDir(a, at + [name])
    requires SweptThrough(a, b, root, at, names, want) && Swept(b, c, root, at + [name], want)
    ensures SweptThrough(a, c, root, at, names + {name}, want)
  {
    forall p | at < p ensures p[|at|] == name <==> p == at + [name] || at + [name] < p {
      assert p[..|at|] == at;
      if p[|at|] == name { assert p[..|at| + 1] == at + [name]; }
    }
  }

  ghost predicate LeafTaken(b: Nodes, c: Nodes, leaf: Path) {
    forall p :: (p in c <==> p in b && p != leaf) && (p in c ==> c[p] == b[p])
  }

  lemma NothingBelowLeaf(n: Nodes, leaf: Path)
    requires Tree(n) && leaf in n && !n[leaf].Dir?
    ensures forall p | p in n && leaf <= p :: p == leaf
  {
    forall p | p in n && leaf <= p ensures p == leaf {
      assert p[..|leaf|] == leaf;
      if |p| > |leaf| { FoldersAbove(n, p, |leaf|); } else { assert p[..|leaf|] == p; }
    }
  }

  lemma OnlyLeaf(a: Nodes, at: Path, name: string, p: Path)
    requires Tree(a) && at + [name] in a && !a[at + [name]].Dir? && at < p && p in a && p[|at|] == name
    ensures p == at + [name]
  {
    assert p[..|at| + 1] == at + [name];
    NothingBelowLeaf(a, at + [name]);
  }

  lemma SweptLeaf(
    a: Nodes, b: Nodes, c: Nodes, root: Path, at: Path, names: set<string>, name: string, want: set<Path>)
    requires Tree(a) && root <= at && at + [name] in a && !a[at + [name]].Dir? && name !in names
    requires SweptThrough(a, b, root, at, names, want)
    requires if (at + [name])[|root|..] in want then c == b else LeafTaken(b, c, at + [name])
    ensures SweptThrough(a, c, root, at, names + {name}, want)
  {
    var leaf := at + [name];
    assert at < leaf && leaf[|at|] == name;
    forall p
      ensures p in c <==> p in a && !(at < p && p[|at|] in names + {name} && !a[p].Dir? && p[|root|..] !in want)
      ensures p in c ==> c[p] == a[p]
    {
      if p in a && at < p && p[|at|] == name {
        OnlyLeaf(a, at, name, p);
        assert p in b;
      } else {
        assert p != leaf || p !in a;
        assert p in c <==> p in b;
      }
    }
  }

  /** In the middle of a sweep an entry not yet reached is still where the listing had it. */
  lemma Found(
    a: Nodes, b: Nodes, dir: Path, root: Path, rel: Path, names: set<string>, name: string, want: set<Path>)
    requires Tree(a) && Grounded(a, dir, root) && IsDir(a, root + rel) && root + rel + [name] in a && name !in names
    requires SweptThrough(a, b, root, root + rel, names, want)
    ensures Tree(b) && Grounded(b, dir, root) && Locate(b, dir + (rel + [name])) == Some(root + rel + [name])
    ensures root + rel + [name] in b && b[root + rel + [name]] == a[root + rel + [name]]
  {
    OnlyLeavesGone(a, b);
    GroundedStays(a, b, dir, root);
    assert root + (rel + [name]) == root + rel + [name];
    Inside(b, dir, root, rel, name);
  }

  ghost function Names(names: seq<string>): set<string> { set name | name in names }

  lemma NamesMore(names: seq<string>, i: nat)
    requires i < |names| && forall j, k | 0 <= j < k < |names| :: names[j] != names[k]
    ensures names[i] !in Names(names[..i]) && Names(names[..i + 1]) == Names(names[..i]) + {names[i]}
  {
    assert names[..i + 1] == names[..i] + [names[i]];
  }

  ghost function Below(n: Nodes, at: Path): set<Path> { set p | p in n && at < p }

  lemma BelowShrinks(a: Nodes, b: Nodes, at: Path, name: string)
    requires b.Keys <= a.Keys && at + [name] in a
    ensures Below(b, at + [name]) < Below(a, at)
  {
    assert at + [name] in Below(a, at);
    assert at + [name] !in Below(b, at + [name]);
    forall p | p in Below(b, at + [name]) ensures p in Below(a, at) {
      assert p[..|at|] == (at + [name])[..|at|];
    }
  }

  lemma SweptAll(a: Nodes, b: Nodes, root: Path, at: Path, names: set<string>, want: set<Path>)
    requires Tree(a) && root <= at && SweptThrough(a, b, root, at, names, want)
    requires forall name :: at + [name] in a ==> name in names
    ensures Swept(a, b, root, at, want) && Tree(b)
  {
    OnlyLeavesGone(a, b);
    forall p | at < p && p in a ensures p[|at|] in names {
      assert p[..|at| + 1] == at + [p[|at|]];
      if |p| > |at| + 1 { FoldersAbove(a, p, |at| + 1); } else { assert p[..|at| + 1] == p; }
    }
  }

  // ---- Making real folders on the way to a file ----

  ghost predicate OnTheWay(root: Path, p: Path, to: Path) { root < p && p <= to }

  /** `b` is `a` with real folders from `root` (which is one) down to `to`. */
  ghost predicate Paved(a: Nodes, b: Nodes, root: Path, to: Path) {
    forall p ::
      && (p in b <==> p in a || OnTheWay(root, p, to))
      && (p in b ==> b[p] == if OnTheWay(root, p, to) then Dir else a[p])
  }

  lemma PavedOne(a: Nodes, b: Nodes, root: Path, to: Path, name: string)
    requires root <= to && Paved(a, b, root, to)
    ensures Paved(a, b[to + [name] := Dir], root, to + [name])
  {
    forall p ensures OnTheWay(root, p, to + [name]) <==> OnTheWay(root, p, to) || p == to + [name] {
      PrefixOfOneMore(p, to, name);
    }
  }

  lemma PrefixOfOneMore(p: Path, to: Path, name: string)
    ensures p <= to + [name] <==> p <= to || p == to + [name]
  {
    if p <= to + [name] && |p| <= |to| { assert (to + [name])[..|p|] == to[..|p|]; }
    if p <= to { assert (to + [name])[..|p|] == to[..|p|]; }
  }

  /** A new folder in a real folder, in place of whatever non-folder was there, keeps a tree. */
  lemma FolderAdded(n: Nodes, folder: Path, name: string)
    requires Tree(n) && IsDir(n, folder)
    ensures Tree(n[folder + [name] := Dir])
  {
    assert Parent(folder + [name]) == folder;
  }

  lemma PrefixThrough(a: Path, b: Path, c: Path)
    ensures a <= b && b <= c ==> a <= c
    ensures a < b && b <= c ==> a < c
  {
    if a <= b && b <= c { assert c[..|a|] == b[..|a|]; }
  }

  lemma SameOutsideThrough(a: Nodes, b: Nodes, c: Nodes, root: Path)
    requires SameOutside(a, b, root) && SameOutside(b, c, root)
    ensures SameOutside(a, c, root)
  {
  }

  lemma ParentIn(n: Nodes, root: Path, parent: Path, name: string)
    requires Tree(n) && root + (parent + [name]) in n
    ensures IsDir(n, root + parent)
  {
    FoldersAbove(n, root + (parent + [name]), |root + parent|);
    assert (root + (parent + [name]))[..|root + parent|] == root + parent;
  }

  lemma NothingBelowNothing(n: Nodes, p: Path)
    requires Tree(n) && p !in n
    ensures forall q | q in n :: !(p < q)
  {
    forall q | q in n ensures !(p < q) {
      if p < q {
        assert q[..|p|] == p;
        FoldersAbove(n, q, |p|);
      }
    }
  }

  /** What is left after an entry and everything below it are removed. */
  lemma RemovedTree(a: Nodes, b: Nodes, root: Path, at: Path)
    requires Tree(a) && root < at
    requires forall q :: (q in b <==> q in a && !(at <= q)) && (q in b ==> b[q] == a[q])
    ensures Tree(b) && SameOutside(a, b, root)
  {
    forall p | p in b && p != [] ensures IsDir(b, Parent(p)) {
      PrefixThrough(at, Parent(p), p);
    }
    forall p | !(root < p) ensures (p in a <==> p in b) && (p in a ==> a[p] == b[p]) {
      PrefixThrough(root, at, p);
    }
  }

  lemma PavedOutside(a: Nodes, b: Nodes, root: Path, to: Path)
    requires Paved(a, b, root, to)
    ensures SameOutside(a, b, root)
  {
    assert forall p :: OnTheWay(root, p, to) ==> root < p;
  }

  /** Folders that were there already are left as they were. */
  lemma {:induction false} PavedAlready(a: Nodes, b: Nodes, root: Path, to: Path)
    requires Tree(a) && Paved(a, b, root, to) && IsDir(a, to)
    ensures a == b
  {
    forall p | OnTheWay(root, p, to) ensures IsDir(a, p) {
      if |p| < |to| { FoldersAbove(a, to, |p|); }
      assert p == to[..|p|];
      assert to[..|to|] == to;
    }
  }

  // ---- Copying one file ----

  /** `b` is `a` with nothing but a file up to date with `s` at `dst`: the one that was there, or a copy. */
  ghost predicate Placed(a: Nodes, b: Nodes, dst: Path, s: Node) {
    && (forall p :: p != dst && !(dst < p) ==> (p in a <==> p in b) && (p in a ==> a[p] == b[p]))
    && (forall p | p in b :: !(dst < p))
    && dst in b && UpToDate(b[dst], s)
    && ((dst in a && a[dst] == b[dst]) || (b[dst].bytes == s.bytes))
  }

  lemma PlacedTree(a: Nodes, b: Nodes, root: Path, folder: Path, name: string, s: Node)
    requires Tree(a) && root <= folder && IsDir(a, folder) && Placed(a, b, folder + [name], s)
    ensures Tree(b) && SameOutside(a, b, root)
  {
    var dst := folder + [name];
    assert root < dst && Parent(dst) == folder;
    forall p | p in b && p != [] ensures IsDir(b, Parent(p)) {
      PrefixThrough(dst, Parent(p), p);
      assert p != dst ==> Parent(p) != dst;
    }
    forall p | !(root < p) ensures (p in a <==> p in b) && (p in a ==> a[p] == b[p]) {
      PrefixThrough(root, dst, p);
    }
  }

  // ---- The whole mirror ----

  /** There is a file as long as the source was at the start, and less than a millisecond from its time. */
  ghost predicate Settled(start: Nodes, now: Nodes, from: Path, root: Path, rel: Path) {
    var s := FileAt(start, from + rel);
    && s.Some? && root + rel in now && now[root + rel].File?
    && |now[root + rel].bytes| == |s.value.bytes| && -1.0 < now[root + rel].mtime - s.value.mtime < 1.0
  }

  /** No file inside is anything but what was there or a copy of its source. */
  ghost predicate Honest(start: Nodes, now: Nodes, from: Path, root: Path) {
    forall p | p in now && root < p && now[p].File? ::
      || (p in start && start[p] == now[p])
      || (var s := FileAt(start, from + p[|root|..]); s.Some? && now[p].bytes == s.value.bytes)
  }

  ghost predicate OnlyWanted(now: Nodes, root: Path, want: set<Path>) {
    forall p | p in now && root < p && !now[p].Dir? :: p[|root|..] in want
  }

  /**
   * What mirroring promises: inside `root` the entries that are not folders are exactly the listed files,
   * each a regular file up to date with its source, and either a copy of it or the file that was there.
   */
  ghost predicate Mirrors(start: Nodes, now: Nodes, from: Path, root: Path, files: seq<Path>) {
    && (forall p | root < p :: p in now && !now[p].Dir? <==> p[|root|..] in files)
    && (forall rel | rel in files :: Settled(start, now, from, root, rel))
    && Honest(start, now, from, root)
  }

  /** When equal size and time mean equal bytes, every file is its source's copy. */
  lemma MirrorsCopies(start: Nodes, now: Nodes, from: Path, root: Path, files: seq<Path>, rel: Path)
    requires Mirrors(start, now, from, root, files) && rel in files && rel != []
    requires forall p, s | p in start && FileAt(start, s).Some? && UpToDate(start[p], FileAt(start, s).value) ::
      start[p].bytes == FileAt(start, s).value.bytes
    ensures var s := FileAt(start, from + rel);
      s.Some? && root + rel in now && now[root + rel].File? && now[root + rel].bytes == s.value.bytes
  {
    assert Settled(start, now, from, root, rel);
    assert root < root + rel && (root + rel)[|root|..] == rel;
  }

  lemma SettledPaved(start: Nodes, a: Nodes, b: Nodes, from: Path, root: Path, done: Path, parent: Path, name: string)
    requires Tree(start) && Settled(start, a, from, root, done) && Paved(a, b, root, root + parent)
    requires FileAt(start, from + (parent + [name])).Some?
    ensures Settled(start, b, from, root, done)
  {
    if OnTheWay(root, root + done, root + parent) {
      assert (root + parent)[..|root + done|] == root + done;
      assert (root + done)[|root|..] == done && (root + parent)[|root|..] == parent;
      assert done <= parent;
      SourcesApart(start, from, done, parent + [name]);
    }
  }

  lemma SettledPlaced(start: Nodes, b: Nodes, c: Nodes, from: Path, root: Path, done: Path, rel: Path)
    requires Tree(start) && Settled(start, b, from, root, done) && FileAt(start, from + rel).Some?
    requires Placed(b, c, root + rel, FileAt(start, from + rel).value)
    ensures Settled(start, c, from, root, done)
  {
    if root + done == root + rel {
      assert (root + done)[|root|..] == done && (root + rel)[|root|..] == rel;
    } else if root + rel < root + done {
      assert (root + done)[|root|..] == done && (root + rel)[|root|..] == rel;
      assert rel < done;
      SourcesApart(start, from, rel, done);
    }
  }

  /** The files already dealt with stay so. */
  lemma SettledBefore(
    start: Nodes, a: Nodes, b: Nodes, c: Nodes, from: Path, root: Path, files: seq<Path>, i: nat, parent: Path, name: string)
    requires i <= |files| && Tree(start) && FileAt(start, from + (parent + [name])).Some?
    requires forall k | 0 <= k < i :: Settled(start, a, from, root, files[k])
    requires Paved(a, b, root, root + parent)
    requires Placed(b, c, root + (parent + [name]), FileAt(start, from + (parent + [name])).value)
    ensures forall k | 0 <= k < i :: Settled(start, c, from, root, files[k])
  {
    forall k | 0 <= k < i ensures Settled(start, c, from, root, files[k]) {
      SettledPaved(start, a, b, from, root, files[k], parent, name);
      SettledPlaced(start, b, c, from, root, files[k], parent + [name]);
    }
  }

  /** What holds after one more file. */
  lemma AfterPlaced(
    start: Nodes, a: Nodes, b: Nodes, c: Nodes, dir: Path, from: Path, root: Path,
    files: seq<Path>, i: nat, parent: Path, name: string)
    requires i < |files| && files[i] == parent + [name] && Tree(start) && FileAt(start, from + (parent + [name])).Some?
    requires Tree(b) && Grounded(b, dir, root) && IsDir(b, root + parent) && SameOutside(start, b, root)
    requires Honest(start, a, from, root) && OnlyWanted(a, root, set f | f in files) && Paved(a, b, root, root + parent)
    requires forall k | 0 <= k < i :: Settled(start, a, from, root, files[k])
    requires Placed(b, c, root + (parent + [name]), FileAt(start, from + (parent + [name])).value)
    ensures Tree(c) && Grounded(c, dir, root) && SameOutside(start, c, root)
    ensures Honest(start, c, from, root) && OnlyWanted(c, root, set f | f in files)
    ensures forall k | 0 <= k < i + 1 :: Settled(start, c, from, root, files[k])
  {
    var rel := parent + [name];
    assert root + rel == root + parent + [name];
    PlacedTree(b, c, root, root + parent, name, FileAt(start, from + rel).value);
    GroundedStays(b, c, dir, root);
    SameOutsideThrough(start, b, c, root);
    HonestStep(start, a, b, c, from, root, rel, root + parent, set f | f in files);
    SettledBefore(start, a, b, c, from, root, files, i, parent, name);
  }

  /** What the entries were before one file is dealt with they still are after, but for that file. */
  lemma HonestStep(
    start: Nodes, a: Nodes, b: Nodes, c: Nodes, from: Path, root: Path, rel: Path, to: Path, want: set<Path>)
    requires Honest(start, a, from, root) && OnlyWanted(a, root, want) && Paved(a, b, root, to)
    requires rel != [] && rel in want && FileAt(start, from + rel).Some?
    requires Placed(b, c, root + rel, FileAt(start, from + rel).value)
    ensures Honest(start, c, from, root) && OnlyWanted(c, root, want)
  {
    HonestPaved(start, a, b, from, root, to, want);
    assert (root + rel)[|root|..] == rel && root < root + rel;
  }

  lemma HonestPaved(start: Nodes, a: Nodes, b: Nodes, from: Path, root: Path, to: Path, want: set<Path>)
    requires Honest(start, a, from, root) && OnlyWanted(a, root, want) && Paved(a, b, root, to)
    ensures Honest(start, b, from, root) && OnlyWanted(b, root, want)
  {
  }

  lemma MirrorsAtLast(start: Nodes, now: Nodes, from: Path, root: Path, files: seq<Path>)
    requires Honest(start, now, from, root) && OnlyWanted(now, root, set rel | rel in files)
    requires forall k | 0 <= k < |files| :: Settled(start, now, from, root, files[k])
    ensures Mirrors(start, now, from, root, files)
  {
    forall p | root < p && p[|root|..] in files ensures p in now && !now[p].Dir? {
      assert root + p[|root|..] == p;
      assert Settled(start, now, from, root, p[|root|..]);
    }
  }

  /** After the first pass only wanted non-folders are left, each as it was. */
  lemma SweptHonest(start: Nodes, now: Nodes, from: Path, root: Path, want: set<Path>)
    requires Swept(start, now, root, root, want)
    ensures Honest(start, now, from, root) && OnlyWanted(now, root, want) && SameOutside(start, now, root)
    ensures OnlyWanted(start, root, want) ==> now == start
  {
  }

  /** Done, a listed file that is not a regular file in the source, or the refusal the code can raise. */
  datatype Outcome = Done | Missing | Refused

  class FileSystem {
    var nodes: Nodes

    constructor (nodes: Nodes)
      ensures this.nodes == nodes
    {
      this.nodes := nodes;
    }

    method Lstat(p: Path) returns (node: Option<Node>)
      ensures var at := Locate(nodes, p);
        node == if at.Some? && at.value in nodes then Some(nodes[at.value]) else None
    {
      var at := Locate(nodes, p);
      node := if at.Some? && at.value in nodes then Some(nodes[at.value]) else None;
    }

    /** readdir: every entry of a folder once, in some order. */
    method ReadDir(p: Path) returns (names: seq<string>)
      ensures var at := RealPath(nodes, p); at.Some? ==>
        && (forall name :: name in names <==> at.value + [name] in nodes)
        && (forall i, j | 0 <= i < j < |names| :: names[i] != names[j])
    {
      names := [];
      var at := RealPath(nodes, p);
      if at.None? { return; }
      var left := set q | q in nodes && |q| == |at.value| + 1 && at.value < q :: q[|at.value|];
      assert forall name :: at.value + [name] in nodes ==> name in left by {
        forall name | at.value + [name] in nodes ensures name in left {
          var q := at.value + [name];
          assert at.value < q && q[|at.value|] == name;
        }
      }
      assert forall q | q in nodes && |q| == |at.value| + 1 && at.value < q :: q == at.value + [q[|at.value|]];
      ghost var all := left;
      while left != {}
        invariant left <= all
        invariant forall name :: name in names <==> name in all - left
        invariant forall i, j | 0 <= i < j < |names| :: names[i] != names[j]
        decreases left
      {
        var name :| name in left;
        assert forall i | 0 <= i < |names| :: names[i] in names;
        names, left := names + [name], left - {name};
      }
    }

    /** rm: a folder only when `recursive`; a link as itself; nothing when nothing is there. */
    method Rm(p: Path, recursive: bool)
      modifies this
      ensures var at := Locate(old(nodes), p);
        if at.None? || at.value !in old(nodes) || (old(nodes)[at.value].Dir? && !recursive) then nodes == old(nodes)
        else forall q ::
          && (q in nodes <==> q in old(nodes) && !(at.value <= q))
          && (q in nodes ==> nodes[q] == old(nodes)[q])
    {
      var at := Locate(nodes, p);
      if at.None? || at.value !in nodes || (nodes[at.value].Dir? && !recursive) { return; }
      nodes := map q | q in nodes && !(at.value <= q) :: nodes[q];
    }

    method Mkdir(p: Path) returns (ok: bool)
      modifies this
      ensures var at := Locate(old(nodes), p);
        && ok == (at.Some? && at.value !in old(nodes))
        && nodes == if ok then old(nodes)[at.value := Dir] else old(nodes)
    {
      var at := Locate(nodes, p);
      ok := at.Some? && at.value !in nodes;
      if ok { nodes := nodes[at.value := Dir]; }
    }

    /** copyFile then utimes: the bytes, and the source's time cut to whole milliseconds. */
    method CopyFile(src: Node, p: Path) returns (ok: bool)
      requires src.File?
      modifies this
      ensures var at := Opened(old(nodes), p, MAX_LINKS);
        && ok == (at.Some? && (at.value in old(nodes) ==> !old(nodes)[at.value].Dir?))
        && nodes == if ok then old(nodes)[at.value := File(src.bytes, src.mtime.Floor as real)] else old(nodes)
    {
      var at := Opened(nodes, p, MAX_LINKS);
      ok := at.Some? && (at.value in nodes ==> !nodes[at.value].Dir?);
      if ok { nodes := nodes[at.value := File(src.bytes, src.mtime.Floor as real)]; }
    }

    /** The first pass: every unwanted non-folder below, found without following a link. */
    method Walk(dir: Path, rel: Path, want: set<Path>, ghost root: Path)
      requires Tree(nodes) && Grounded(nodes, dir, root) && IsDir(nodes, root + rel)
      modifies this
      ensures Tree(nodes) && Swept(old(nodes), nodes, root, root + rel, want)
      decreases Below(nodes, root + rel), 1
    {
      RealBeyond(nodes, [], dir, MAX_LINKS, root, rel);
      var names := ReadDir(dir + rel);
      ghost var start := nodes;
      for i := 0 to |names|
        invariant SweptThrough(start, nodes, root, root + rel, Names(names[..i]), want)
      {
        NamesMore(names, i);
        WalkEntry(dir, rel, names[i], want, root, start, Names(names[..i]));
      }
      SweptAll(start, nodes, root, root + rel, Names(names[..|names|]), want);
    }

    /** One entry of the folder being walked. */
    method WalkEntry(
      dir: Path, rel: Path, name: string, want: set<Path>, ghost root: Path, ghost start: Nodes, ghost done: set<string>)
      requires Tree(start) && Grounded(start, dir, root) && IsDir(start, root + rel) && root + rel + [name] in start
      requires SweptThrough(start, nodes, root, root + rel, done, want) && name !in done
      modifies this
      ensures SweptThrough(start, nodes, root, root + rel, done + {name}, want)
      decreases Below(start, root + rel), 0
    {
      ghost var at := root + rel;
      var child := rel + [name];
      assert root + child == at + [name] && child == (at + [name])[|root|..];
      Found(start, nodes, dir, root, rel, done, name, want);
      var entry := Lstat(dir + child);
      if entry.Some? && entry.value.Dir? {
        ghost var before := nodes;
        BelowShrinks(start, before, at, name);
        Walk(dir, child, want, root);
        SweptFolder(start, before, nodes, root, at, done, name, want);
      } else {
        ghost var before := nodes;
        if child !in want {
          Rm(dir + child, false);
          NothingBelowLeaf(start, at + [name]);
          assert LeafTaken(before, nodes, at + [name]);
        }
        SweptLeaf(start, before, nodes, root, at, done, name, want);
      }
    }

    /** One component of a destination's folder: a real folder, whatever was there. */
    method MakeFolder(dir: Path, parent: Path, name: string, ghost root: Path) returns (ok: bool)
      requires Tree(nodes) && Grounded(nodes, dir, root) && IsDir(nodes, root + parent)
      modifies this
      ensures ok && nodes == old(nodes)[root + parent + [name] := Dir]
    {
      ghost var at := root + parent + [name];
      assert root + (parent + [name]) == at && root < at;
      Inside(nodes, dir, root, parent, name);
      var entry := Lstat(dir + (parent + [name]));
      if entry.Some? && entry.value.Dir? { return true; }
      if entry.Some? {
        NothingBelowLeaf(nodes, at);
        Rm(dir + (parent + [name]), false);
        OnlyLeavesGone(old(nodes), nodes);
        GroundedStays(old(nodes), nodes, dir, root);
        Inside(nodes, dir, root, parent, name);
      }
      ok := Mkdir(dir + (parent + [name]));
    }

    method MakeFolders(dir: Path, rel: Path, ghost root: Path) returns (ok: bool)
      requires Tree(nodes) && Grounded(nodes, dir, root) && rel != []
      modifies this
      ensures ok && Tree(nodes) && Grounded(nodes, dir, root)
      ensures Paved(old(nodes), nodes, root, root + Parent(rel)) && IsDir(nodes, root + Parent(rel))
    {
      ghost var start := nodes;
      assert root + rel[..0] == root;
      for k := 0 to |rel| - 1
        invariant Tree(nodes) && Grounded(nodes, dir, root) && IsDir(nodes, root + rel[..k])
        invariant Paved(start, nodes, root, root + rel[..k])
      {
        ghost var before := nodes;
        PavedOne(start, nodes, root, root + rel[..k], rel[k]);
        assert root + rel[..k + 1] == root + rel[..k] + [rel[k]];
        ok := MakeFolder(dir, rel[..k], rel[k], root);
        if !ok { return; }
        FolderAdded(before, root + rel[..k], rel[k]);
        GroundedStays(before, nodes, dir, root);
      }
      ok := true;
    }

    /** The second pass for one file. `inside` is the folder's real path, read before the pass. */
    method CopyOne(from: Path, dir: Path, parent: Path, name: string, inside: Path) returns (r: Outcome)
      requires Tree(nodes) && Grounded(nodes, dir, inside) && IsDir(nodes, inside + parent)
      modifies this
      ensures r != Refused && (r == Missing <==> FileAt(old(nodes), from + (parent + [name])).None?)
      ensures r == Missing ==> nodes == old(nodes)
      ensures r == Done ==>
        Placed(old(nodes), nodes, inside + (parent + [name]), FileAt(old(nodes), from + (parent + [name])).value)
      ensures Settled(old(nodes), old(nodes), from, inside, parent + [name]) ==> nodes == old(nodes)
    {
      var rel := parent + [name];
      ghost var dst := inside + rel;
      Inside(nodes, dir, inside, parent, name);
      var folder := RealPath(nodes, dir + parent);
      if folder.None? || !(inside <= folder.value) { return Refused; }
      var src := FileAt(nodes, from + rel);
      if src.None? { return Missing; }
      var entry := Lstat(dir + rel);
      if entry.Some? && UpToDate(entry.value, src.value) {
        NothingBelowLeaf(nodes, dst);
        return Done;
      }
      if entry.Some? && !entry.value.File? {
        Rm(dir + rel, entry.value.Dir?);
        RemovedTree(old(nodes), nodes, inside, dst);
        GroundedStays(old(nodes), nodes, dir, inside);
        assert inside + rel == inside + parent + [name];
        Inside(nodes, dir, inside, parent, name);
      } else if entry.Some? {
        NothingBelowLeaf(nodes, dst);
      }
      if dst !in nodes { NothingBelowNothing(nodes, dst); }
      var ok := CopyFile(src.value, dir + rel);
      r := if ok then Done else Refused;
    }

    /** One listed file: real folders on the way, then the file itself. */
    method MirrorOne(from: Path, dir: Path, rel: Path, root: Path, ghost start: Nodes, ghost files: seq<Path>, ghost i: nat)
      returns (r: Outcome)
      requires i < |files| && rel == files[i] && rel != [] && Avoids(start, root, [], from + rel, MAX_LINKS)
      requires Tree(start) && Tree(nodes) && Grounded(nodes, dir, root) && SameOutside(start, nodes, root)
      requires Honest(start, nodes, from, root) && OnlyWanted(nodes, root, set f | f in files)
      requires forall k | 0 <= k < i :: Settled(start, nodes, from, root, files[k])
      modifies this
      ensures Tree(nodes) && Grounded(nodes, dir, root) && SameOutside(start, nodes, root)
      ensures r != Refused && (r == Missing <==> FileAt(start, from + rel).None?)
      ensures r == Done ==> Honest(start, nodes, from, root) && OnlyWanted(nodes, root, set f | f in files)
      ensures r == Done ==> forall k | 0 <= k < i + 1 :: Settled(start, nodes, from, root, files[k])
      ensures old(nodes) == start && Settled(start, start, from, root, rel) ==> nodes == start
    {
      ghost var a := nodes;
      ghost var parent, name := Parent(rel), rel[|rel| - 1];
      assert rel == parent + [name];
      var ok := MakeFolders(dir, rel, root);
      if !ok { return Refused; }
      ghost var b := nodes;
      PavedOutside(a, b, root, root + parent);
      SameOutsideThrough(start, a, b, root);
      SourceStays(start, b, root, from + rel);
      if a == start && Settled(start, start, from, root, rel) {
        ParentIn(start, root, parent, name);
        PavedAlready(a, b, root, root + parent);
      }
      r := CopyOne(from, dir, Parent(rel), rel[|rel| - 1], root);
      if r != Done { return; }
      AfterPlaced(start, a, b, nodes, dir, from, root, files, i, parent, name);
    }

    /**
     * mirrorInto. `root` is where `dir` leads. Neither the way to `dir` nor to any source may pass through
     * what is being replaced. The refusal is never raised.
     */
    method MirrorInto(from: Path, dir: Path, files: seq<Path>, ghost root: Path) returns (r: Outcome)
      requires Tree(nodes) && Grounded(nodes, dir, root)
      requires forall rel | rel in files :: rel != [] && Avoids(nodes, root, [], from + rel, MAX_LINKS)
      modifies this
      ensures Tree(nodes) && SameOutside(old(nodes), nodes, root)
      ensures r == Done || r == Missing
      ensures r == Done <==> forall rel | rel in files :: FileAt(old(nodes), from + rel).Some?
      ensures r == Done ==> Mirrors(old(nodes), nodes, from, root, files)
      ensures Mirrors(old(nodes), old(nodes), from, root, files) ==> nodes == old(nodes)
    {
      ghost var start := nodes;
      var want := set rel | rel in files;
      assert root + [] == root;
      Walk(dir, [], want, root);
      SweptHonest(start, nodes, from, root, want);
      GroundedStays(start, nodes, dir, root);
      var inside := RealPath(nodes, dir).value;
      for i := 0 to |files|
        invariant Tree(nodes) && Grounded(nodes, dir, root) && SameOutside(start, nodes, root)
        invariant Honest(start, nodes, from, root) && OnlyWanted(nodes, root, want)
        invariant forall k | 0 <= k < i :: Settled(start, nodes, from, root, files[k])
        invariant Mirrors(start, start, from, root, files) ==> nodes == start
      {
        var rel := files[i];
        assert rel in files;
        r := MirrorOne(from, dir, rel, inside, start, files, i);
        if r != Done { return; }
      }
      MirrorsAtLast(start, nodes, from, root, files);
      r := Done;
    }
  }
}
