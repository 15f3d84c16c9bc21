/**
 A file system of paths: directories, files, symbolic links and other objects, each at the one path
 that leads to it through real directories.  Looking a path up follows the links on the way to its
 last component, as the system calls do.
 */
module FileSystems {
  import opened Names

  /** Names in a directory: those of the ownership marker and of the prefix ".testplay-delete-" stand out. */
  datatype Component = Plain(name: Name) | MarkerName | Reserved(token: Name)

  type Path = seq<Component>

  datatype Contents = Bytes(text: Name) | MarkerText(schema: int, leaseId: Name, token: Name)

  datatype Node =
    | Directory(identity: Identity, mode: nat)
    | File(identity: Identity, contents: Contents)
    | Link(absolute: bool, target: Path)
    | Special

  type FileSystem = map<Path, Node>

  function DirOf(p: Path): Path
    requires p != []
  {
    p[..|p| - 1]
  }

  function Base(p: Path): Component
    requires p != []
  {
    p[|p| - 1]
  }

  /** Every object lies in a directory. */
  ghost predicate IsTree(f: FileSystem) {
    forall p | p in f && p != [] :: DirOf(p) in f && f[DirOf(p)].Directory?
  }

  /** Whatever leads to an object exists. */
  lemma {:induction false} Upward(f: FileSystem, y: Path, p: Path)
    requires IsTree(f) && p in f && y <= p
    ensures y in f
    decreases |p|
  {
    if |y| < |p| {
      assert y <= DirOf(p);
      Upward(f, y, DirOf(p));
    } else {
      assert y == p;
    }
  }

  // ----- Lookup -----------------------------------------------------------------------------

  /** Where a path leads; NoEntry: a component is missing; NotReachable: a file or too many links in the way. */
  datatype Lookup = At(path: Path) | NoEntry | NotReachable

  const LINK_LIMIT: nat := 40

  /** The directory reached from `at` through all the components of `rest`. */
  function Enter(f: FileSystem, at: Path, rest: Path, links: nat): Lookup
    decreases links, |rest|
  {
    if rest == [] then At(at)
    else
      var next := at + [rest[0]];
      if next !in f then NoEntry
      else
        match f[next]
        case Directory(_, _) => Enter(f, next, rest[1..], links)
        case Link(absolute, target) =>
          if links == 0 then NotReachable
          else Enter(f, if absolute then [] else at, target + rest[1..], links - 1)
        case _ => NotReachable
  }

  /** The place that a path names; its last component is not followed. */
  function Locate(f: FileSystem, p: Path): Lookup {
    if p == [] then At([])
    else
      match Enter(f, [], DirOf(p), LINK_LIMIT)
      case At(d) => At(d + [Base(p)])
      case other => other
  }

  predicate Exists(f: FileSystem, p: Path) {
    Locate(f, p).At? && Locate(f, p).path in f
  }

  function Lstat(f: FileSystem, p: Path): Node
    requires Exists(f, p)
  {
    f[Locate(f, p).path]
  }

  /** `os.IsNotExist` of what Lstat answers. */
  predicate Absent(f: FileSystem, p: Path) {
    Locate(f, p).NoEntry? || (Locate(f, p).At? && Locate(f, p).path !in f)
  }

  lemma {:induction false} EnterIsDirectory(f: FileSystem, at: Path, rest: Path, links: nat)
    ensures
      var d := Enter(f, at, rest, links);
      d.At? ==> d.path == [] || d.path == at || (d.path in f && f[d.path].Directory?)
    decreases links, |rest|
  {
    if rest != [] && at + [rest[0]] in f {
      var next := at + [rest[0]];
      match f[next]
      case Directory(_, _) => EnterIsDirectory(f, next, rest[1..], links);
      case Link(absolute, target) =>
        if links > 0 { EnterIsDirectory(f, if absolute then [] else at, target + rest[1..], links - 1); }
      case _ =>
    }
  }

  lemma {:induction false} EnterFurther(f: FileSystem, at: Path, rest: Path, links: nat, c: Component)
    requires Enter(f, at, rest, links).At?
    requires var d := Enter(f, at, rest, links).path; d + [c] in f && f[d + [c]].Directory?
    ensures Enter(f, at, rest + [c], links) == At(Enter(f, at, rest, links).path + [c])
    decreases links, |rest|
  {
    if rest == [] {
      assert (rest + [c])[1..] == [];
    } else {
      var next := at + [rest[0]];
      assert (rest + [c])[1..] == rest[1..] + [c];
      match f[next]
      case Directory(_, _) => EnterFurther(f, next, rest[1..], links, c);
      case Link(absolute, target) =>
        assert target + (rest[1..] + [c]) == (target + rest[1..]) + [c];
        EnterFurther(f, if absolute then [] else at, target + rest[1..], links - 1, c);
      case _ =>
    }
  }

  /** A name inside a real directory lies at the directory's place. */
  lemma LocateInside(f: FileSystem, p: Path, c: Component)
    requires p != [] && Exists(f, p) && Lstat(f, p).Directory?
    ensures Locate(f, p + [c]) == At(Locate(f, p).path + [c])
  {
    EnterFurther(f, [], DirOf(p), LINK_LIMIT, Base(p));
    assert DirOf(p) + [Base(p)] == p;
    assert DirOf(p + [c]) == p;
  }

  /** Everything that lookups in f can pass is still there in g, save perhaps the empty directory m. */
  ghost predicate KeptBut(f: FileSystem, g: FileSystem, m: Path) {
    && (forall p | p in f && p != m :: p in g && (g[p] == f[p] || (f[p].Directory? && g[p].Directory?)))
    && (m in f ==> EmptyDirectory(f, m))
  }

  predicate EmptyDirectory(f: FileSystem, m: Path) {
    m in f && f[m].Directory? && forall p | p in f :: m <= p ==> p == m
  }

  /** So lookups end where they did. */
  lemma {:induction false} EnterKept(f: FileSystem, g: FileSystem, m: Path, at: Path, rest: Path, links: nat)
    requires KeptBut(f, g, m) && Enter(f, at, rest, links).At?
    requires Enter(f, at, rest, links).path == m && m in f ==> m in g && g[m].Directory?
    ensures Enter(g, at, rest, links) == Enter(f, at, rest, links)
    decreases links, |rest|
  {
    if rest != [] {
      var next := at + [rest[0]];
      match f[next]
      case Directory(_, _) =>
        if next == m && rest[1..] != [] {
          assert m <= m + [rest[1..][0]];
        }
        EnterKept(f, g, m, next, rest[1..], links);
      case Link(absolute, target) =>
        EnterKept(f, g, m, if absolute then [] else at, target + rest[1..], links - 1);
      case _ =>
    }
  }

  lemma LocateKept(f: FileSystem, g: FileSystem, m: Path, p: Path)
    requires p != [] && KeptBut(f, g, m) && Locate(f, p).At?
    requires DirOf(Locate(f, p).path) == m && m in f ==> m in g && g[m].Directory?
    ensures Locate(g, p) == Locate(f, p)
  {
    EnterKept(f, g, m, [], DirOf(p), LINK_LIMIT);
  }

  /** Names beside each other lie beside each other. */
  lemma LocateBeside(f: FileSystem, p: Path, q: Path)
    requires p != [] && q != [] && DirOf(p) == DirOf(q) && Locate(f, p).At?
    ensures Locate(f, p).path == DirOf(Locate(f, p).path) + [Base(p)]
    ensures Locate(f, q) == At(DirOf(Locate(f, p).path) + [Base(q)])
  {
  }

  // ----- Whole trees ------------------------------------------------------------------------

  /** Without everything at and under r. */
  function Prune(f: FileSystem, r: Path): FileSystem {
    map p | p in f && !(r <= p) :: f[p]
  }

  /** The tree at r, by paths relative to it. */
  function TreeAt(f: FileSystem, r: Path): FileSystem {
    var suffixes := set p | p in f && r <= p :: p[|r|..];
    map s | s in suffixes && r + s in f :: f[r + s]
  }

  /** With this tree at r, in place of what was there. */
  function Graft(f: FileSystem, r: Path, tree: FileSystem): FileSystem {
    var grafted := set s | s in tree :: r + s;
    map p | p in f.Keys + grafted && (r <= p ==> p[|r|..] in tree) :: if r <= p then tree[p[|r|..]] else f[p]
  }

  function Renamed(f: FileSystem, a: Path, b: Path): FileSystem {
    Graft(Prune(f, a), b, TreeAt(f, a))
  }

  ghost predicate SameAt(f: FileSystem, g: FileSystem, p: Path) {
    (p in f <==> p in g) && (p in f ==> f[p] == g[p])
  }

  lemma TreeAtHas(f: FileSystem, r: Path, s: Path)
    ensures s in TreeAt(f, r) <==> r + s in f
    ensures s in TreeAt(f, r) ==> TreeAt(f, r)[s] == f[r + s]
  {
    assert (r + s)[|r|..] == s;
  }

  lemma GraftHas(f: FileSystem, r: Path, tree: FileSystem, p: Path)
    ensures if r <= p then (p in Graft(f, r, tree) <==> p[|r|..] in tree) && (p in Graft(f, r, tree) ==> Graft(f, r, tree)[p] == tree[p[|r|..]])
            else SameAt(f, Graft(f, r, tree), p)
  {
    if r <= p {
      assert p == r + p[|r|..];
    }
  }

  /** A rename carries the tree over and touches nothing else. */
  lemma RenamedHas(f: FileSystem, a: Path, b: Path, p: Path)
    ensures
      var g := Renamed(f, a, b);
      if b <= p then
        (p in g <==> a + p[|b|..] in f) && (p in g ==> g[p] == f[a + p[|b|..]])
      else if a <= p then p !in g
      else SameAt(f, g, p)
  {
    GraftHas(Prune(f, a), b, TreeAt(f, a), p);
    if b <= p {
      TreeAtHas(f, a, p[|b|..]);
    }
  }

  /** Renaming a tree to a free place and removing it there is removing it. */
  lemma RenamedThenPruned(f: FileSystem, a: Path, b: Path)
    requires forall p | p in f :: !(b <= p)
    ensures Prune(Renamed(f, a, b), b) == Prune(f, a)
  {
    var g, h := Prune(Renamed(f, a, b), b), Prune(f, a);
    forall p ensures SameAt(g, h, p) {
      RenamedHas(f, a, b, p);
    }
    assert g.Keys == h.Keys by {
      forall p ensures p in g <==> p in h {
        assert SameAt(g, h, p);
      }
    }
    forall p | p in g ensures g[p] == h[p] {
      assert SameAt(g, h, p);
    }
  }
}
