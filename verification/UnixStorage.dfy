/**
 Directory-clone leases on a file system: a cloned child below the store root, marked as owned, and a
 link to it at the mount path; and the removal of both, which deletes nothing that is not the acquired
 child even if the file system changes under its hands.
 */
module UnixStorage {
  import opened Wrappers
  import opened Environments
  import opened Names
  import opened FileSystems

  const MARKER_SCHEMA: int := 1

  /** What a lease remembers of the child it acquired. */
  datatype Ownership = Ownership(storeRoot: Path, childPath: Path, leaseId: Name, token: Name, identity: Identity) {
    function Marker(): Contents {
      MarkerText(MARKER_SCHEMA, leaseId, token)
    }
  }

  predicate WithinRoot(root: Path, p: Path) {
    root < p
  }

  /** `validateChildIdentity`. */
  predicate HasIdentity(f: FileSystem, o: Ownership, p: Path) {
    Exists(f, p) && Lstat(f, p).Directory? && Lstat(f, p).identity == o.identity
  }

  predicate HasMarker(f: FileSystem, o: Ownership, p: Path) {
    && Exists(f, p + [MarkerName])
    && Lstat(f, p + [MarkerName]).File?
    && Lstat(f, p + [MarkerName]).contents == o.Marker()
  }

  /** `validateOwnedChildAt`. */
  predicate OwnedAt(f: FileSystem, o: Ownership, p: Path) {
    WithinRoot(o.storeRoot, p) && HasIdentity(f, o, p) && HasMarker(f, o, p)
  }

  /** At r itself lies the acquired directory, and in it the marker. */
  predicate IsAcquired(f: FileSystem, o: Ownership, r: Path) {
    && r in f && f[r].Directory? && f[r].identity == o.identity
    && r + [MarkerName] in f && f[r + [MarkerName]].File? && f[r + [MarkerName]].contents == o.Marker()
  }

  lemma OwnedIsAcquired(f: FileSystem, o: Ownership, p: Path)
    requires WithinRoot(o.storeRoot, p)
    ensures OwnedAt(f, o, p) <==> Locate(f, p).At? && IsAcquired(f, o, Locate(f, p).path)
    ensures Locate(f, p).At? ==>
              var r := Locate(f, p).path;
              OwnedAt(f, o, p) <==>
                && r in f && f[r].Directory? && f[r].identity == o.identity
                && r + [MarkerName] in f && f[r + [MarkerName]].File? && f[r + [MarkerName]].contents == MarkerText(1, o.leaseId, o.token)
  {
    if Exists(f, p) && Lstat(f, p).Directory? {
      LocateInside(f, p, MarkerName);
    }
  }

  lemma OwnedLies(f: FileSystem, o: Ownership, p: Path)
    requires OwnedAt(f, o, p)
    ensures WithinRoot(o.storeRoot, p) && Exists(f, p)
  {
  }

  /** The mount path is the link that acquire made. */
  predicate IsMount(f: FileSystem, mount: Path, child: Path) {
    Exists(f, mount) && Lstat(f, mount) == Link(true, child)
  }

  /** What `chooseQuarantinePath` accepts: a free name under the reserved prefix beside the child. */
  predicate GoodQuarantine(f: FileSystem, o: Ownership, q: Path) {
    && q != [] && o.childPath != [] && DirOf(q) == DirOf(o.childPath) && Base(q).Reserved?
    && WithinRoot(o.storeRoot, q) && Absent(f, q)
  }

  /** What `renameNoReplace` needs to succeed. */
  predicate CanRename(f: FileSystem, a: Path, b: Path) {
    && Exists(f, a) && Locate(f, b).At? && Locate(f, b).path !in f
    && !(Locate(f, a).path <= Locate(f, b).path)
  }

  function AfterRename(f: FileSystem, a: Path, b: Path): FileSystem
    requires CanRename(f, a, b)
  {
    Renamed(f, Locate(f, a).path, Locate(f, b).path)
  }

  /** The tree at r with all its directories opened for removal. */
  function Loosened(f: FileSystem, r: Path, which: set<Path>): FileSystem {
    map p | p in f :: if r <= p && p in which && f[p].Directory? then f[p].(mode := 0x1c0) else f[p]
  }

  /** What a cut removal of the tree at r leaves. */
  function Partly(f: FileSystem, r: Path, left: set<Path>): FileSystem {
    map p | p in f && (!(r <= p) || p in left) :: f[p]
  }

  /** Nothing but the tree at r differs, and nothing is there that was not. */
  ghost predicate OnlyTreeShrank(f: FileSystem, g: FileSystem, r: Path) {
    && (forall p | !(r <= p) :: SameAt(f, g, p))
    && (forall p | p in g :: p in f)
  }

  /**
   What `removeOwnedChild` may do once the adversary has made g of the file system: delete from a tree
   that is the acquired one; or delete nothing and perhaps put the directory back.
   */
  ghost predicate SafeRemoval(g: FileSystem, h: FileSystem, o: Ownership, q: Path) {
    if OwnedAt(g, o, q)
    then IsAcquired(g, o, Locate(g, q).path) && OnlyTreeShrank(g, h, Locate(g, q).path)
    else h == g || (HasIdentity(g, o, q) && CanRename(g, q, o.childPath) && h == AfterRename(g, q, o.childPath))
  }

  type Hook = Option<FileSystem -> FileSystem>

  function Meddle(hook: Hook, f: FileSystem): FileSystem {
    match hook
    case None => f
    case Some(change) => change(f)
  }

  lemma LoosenedShrinks(f: FileSystem, r: Path, which: set<Path>)
    ensures OnlyTreeShrank(f, Loosened(f, r, which), r)
    ensures Prune(Loosened(f, r, which), r) == Prune(f, r)
  {
  }

  lemma ShrinksFurther(f: FileSystem, g: FileSystem, r: Path, left: set<Path>)
    requires OnlyTreeShrank(f, g, r)
    ensures OnlyTreeShrank(f, Prune(g, r), r) && OnlyTreeShrank(f, Partly(g, r, left), r)
  {
    forall p | !(r <= p) ensures SameAt(f, Prune(g, r), p) && SameAt(f, Partly(g, r, left), p) {
      assert SameAt(f, g, p);
    }
  }

  lemma LoosenedLookup(f: FileSystem, r: Path, which: set<Path>, p: Path)
    requires p != [] && Locate(f, p).At?
    ensures Locate(Loosened(f, r, which), p) == Locate(f, p)
  {
    EnterLoosened(f, r, which, [], DirOf(p), LINK_LIMIT);
  }

  lemma {:induction false} EnterLoosened(f: FileSystem, r: Path, which: set<Path>, at: Path, rest: Path, links: nat)
    ensures Enter(Loosened(f, r, which), at, rest, links) == Enter(f, at, rest, links)
    decreases links, |rest|
  {
    if rest != [] && at + [rest[0]] in f {
      var next := at + [rest[0]];
      match f[next]
      case Directory(_, _) => EnterLoosened(f, r, which, next, rest[1..], links);
      case Link(absolute, target) =>
        if links > 0 { EnterLoosened(f, r, which, if absolute then [] else at, target + rest[1..], links - 1); }
      case _ =>
    }
  }

  // ----- A lease between acquire and release ------------------------------------------------

  datatype Request = Request(storeRoot: Path, parent: Path, child: Path, mount: Path, leaseId: Name)

  /** What the clone, the random source and the file system come up with during one acquire or release. */
  datatype Draws = Draws(clone: FileSystem, markerIdentity: Identity, token: Name, remade: Identity, quarantine: Path)

  /** `validateCloneSource`: directories and regular files only, and no ownership marker below the root. */
  predicate ValidSource(f: FileSystem, root: Path) {
    && Exists(f, root)
    && var r := Locate(f, root).path;
    && forall p | p in f && r <= p :: (f[p].Directory? || f[p].File?) && (p != r && p != [] ==> Base(p) != MarkerName)
  }

  /** There are directories and regular files only, and below the top nothing with the marker's name. */
  ghost predicate PlainTree(f: FileSystem, place: Lookup) {
    && place.At? && place.path in f
    && forall p | p in f && place.path <= p ::
         (f[p].Directory? || f[p].File?) && (|p| > |place.path| ==> p[|p| - 1] != MarkerName)
  }

  lemma ValidIsPlain(f: FileSystem, root: Path)
    ensures ValidSource(f, root) <==> PlainTree(f, Locate(f, root))
  {
    if Exists(f, root) {
      var r := Locate(f, root).path;
      assert forall p | p in f && r <= p :: p != r && p != [] <==> |p| > |r|;
    }
  }

  /** `validateOwnershipInputs`. */
  predicate ValidInputs(f: FileSystem, request: Request) {
    Exists(f, request.storeRoot) && Lstat(f, request.storeRoot).Directory? && WithinRoot(request.storeRoot, request.child)
  }

  /** Child and mount have places in f: a free one, and a free one or an empty directory outside it. */
  ghost predicate Places(f: FileSystem, child: Path, mount: Path, c: Path, m: Path) {
    && child != [] && mount != [] && IsTree(f)
    && Locate(f, child) == At(c) && c !in f
    && Locate(f, mount) == At(m) && (m in f ==> EmptyDirectory(f, m)) && !(c <= m)
  }

  /** Since f, only the child's tree and the mount have changed. */
  ghost predicate Lent(f: FileSystem, g: FileSystem, child: Path, mount: Path, c: Path, m: Path) {
    && Places(f, child, mount, c, m)
    && (forall p | !(c <= p) && p != m :: SameAt(f, g, p))
    && (DirOf(c) == m ==> SameAt(f, g, m))
  }

  /** Everything is as it was, though an empty mount directory may have been made anew. */
  ghost predicate AsBefore(f: FileSystem, g: FileSystem, m: Path) {
    && (forall p | p != m :: SameAt(f, g, p))
    && (SameAt(f, g, m) || Remade(f, g, m))
  }

  ghost predicate Remade(f: FileSystem, g: FileSystem, m: Path) {
    m in f && m in g && f[m].Directory? && g[m].Directory? && g[m].mode == f[m].mode
  }

  lemma LentKept(f: FileSystem, g: FileSystem, child: Path, mount: Path, c: Path, m: Path)
    requires Lent(f, g, child, mount, c, m)
    ensures KeptBut(f, g, m) && Locate(g, child) == At(c) && Locate(g, mount) == At(m)
    ensures forall p | c <= p :: p !in f
  {
    forall p | c <= p ensures p !in f {
      if p in f { Upward(f, c, p); }
    }
    forall p | p in f && p != m ensures p in g && g[p] == f[p] {
      assert SameAt(f, g, p);
    }
    assert m in f && DirOf(c) == m ==> SameAt(f, g, m);
    LocateKept(f, g, m, child);
    LocateKept(f, g, m, mount);
  }

  lemma PrefixesOfOne(y: Path, c: Path, p: Path)
    requires |y| == |c|
    ensures y <= p && c <= p ==> y == c
  {
    if y <= p && c <= p {
      assert y == p[..|y|];
    }
  }

  lemma AboveMount(f: FileSystem, mount: Path, m: Path, y: Path)
    requires IsTree(f) && mount != [] && Locate(f, mount) == At(m) && y != [] && y <= m
    ensures y == m || y in f
  {
    if |y| < |m| {
      EnterIsDirectory(f, [], DirOf(mount), LINK_LIMIT);
      assert y <= DirOf(m);
      Upward(f, y, DirOf(m));
    } else {
      assert y == m;
    }
  }

  lemma MountDirectory(f: FileSystem, child: Path, mount: Path, c: Path, m: Path)
    requires Places(f, child, mount, c, m)
    ensures m in f ==> f[m].Directory?
    ensures DirOf(c) == m ==> m in f
  {
    hide IsTree;
    EnterIsDirectory(f, [], DirOf(child), LINK_LIMIT);
    var d := Enter(f, [], DirOf(child), LINK_LIMIT).path;
    hide Enter;
    assert c == d + [Base(child)] && DirOf(c) == d;
    assert m != [];
  }

  /** Nothing lies under a free name beside the child. */
  lemma NothingBeside(f: FileSystem, g: FileSystem, child: Path, mount: Path, c: Path, m: Path, y: Path)
    requires Lent(f, g, child, mount, c, m)
    requires y != [] && c != [] && DirOf(y) == DirOf(c) && y != c && y !in g
    ensures forall p | p in g :: !(y <= p)
    ensures forall p | p in f && y <= p :: p == m
  {
    assert y in f ==> y == m by {
      PrefixesOfOne(y, c, y);
      assert y != m ==> SameAt(f, g, y);
    }
    forall p | p in f && y <= p ensures p == m {
      Upward(f, y, p);
    }
    if y <= m { AboveMount(f, mount, m, y); }
    forall p | y <= p ensures p !in g {
      PrefixesOfOne(y, c, p);
      assert p != m ==> SameAt(f, g, p);
    }
  }

  /** A tree carried from c to y is still the acquired one. */
  lemma CarriedIsAcquired(g: FileSystem, o: Ownership, c: Path, y: Path)
    requires IsAcquired(g, o, c)
    ensures IsAcquired(Renamed(g, c, y), o, y)
  {
    RenamedHas(g, c, y, y);
    RenamedHas(g, c, y, y + [MarkerName]);
    assert c + y[|y|..] == c && c + (y + [MarkerName])[|y|..] == c + [MarkerName];
    hide Renamed;
  }

  /** The rename beside it does not disturb the way to the child. */
  lemma CarriedLookup(f: FileSystem, g: FileSystem, child: Path, mount: Path, c: Path, m: Path, y: Path)
    requires Lent(f, g, child, mount, c, m)
    requires y != [] && c != [] && DirOf(y) == DirOf(c) && y != c && y !in g
    ensures Enter(Renamed(g, c, y), [], DirOf(child), LINK_LIMIT) == At(DirOf(c))
  {
    LentKept(f, g, child, mount, c, m);
    NothingBeside(f, g, child, mount, c, m, y);
    var h := Renamed(g, c, y);
    forall p | p in f && p != m ensures p in h && h[p] == f[p] {
      RenamedHas(g, c, y, p);
      assert SameAt(f, g, p);
    }
    hide IsTree;
    if m in f && DirOf(c) == m {
      RenamedHas(g, c, y, m);
      assert SameAt(f, g, m);
    }
    hide Renamed;
    assert DirOf(c) == Enter(f, [], DirOf(child), LINK_LIMIT).path;
    EnterKept(f, h, m, [], DirOf(child), LINK_LIMIT);
  }

  /** The child moved aside is still found there, and deleting it there is deleting it where it was. */
  lemma MovedAside(f: FileSystem, g: FileSystem, o: Ownership, mount: Path, c: Path, m: Path, q: Path)
    requires Lent(f, g, o.childPath, mount, c, m) && OwnedAt(g, o, o.childPath) && GoodQuarantine(g, o, q)
    ensures CanRename(g, o.childPath, q)
    ensures
      var h := AfterRename(g, o.childPath, q);
      OwnedAt(h, o, q) && Prune(h, Locate(h, q).path) == Prune(g, c)
  {
    hide Enter, Renamed, Prune, IsTree;
    var child := o.childPath;
    LentKept(f, g, child, mount, c, m);
    OwnedIsAcquired(g, o, child);
    LocateBeside(g, child, q);
    var y := Locate(g, q).path;
    assert c == DirOf(c) + [Base(child)] && y == DirOf(c) + [Base(q)];
    assert y != c && |y| == |c|;
    NothingBeside(f, g, child, mount, c, m, y);
    CarriedIsAcquired(g, o, c, y);
    CarriedLookup(f, g, child, mount, c, m, y);
    RenamedThenPruned(g, c, y);
    OwnedIsAcquired(Renamed(g, c, y), o, q);
  }

  /** With the child deleted and the mount put back, everything is as before. */
  lemma PrunedIsBefore(f: FileSystem, g: FileSystem, child: Path, mount: Path, c: Path, m: Path)
    requires Lent(f, g, child, mount, c, m)
    requires SameAt(f, g, m) || Remade(f, g, m)
    ensures AsBefore(f, Prune(g, c), m)
  {
    LentKept(f, g, child, mount, c, m);
    forall p | p != m ensures SameAt(f, Prune(g, c), p) {
      if !(c <= p) { assert SameAt(f, g, p); }
    }
  }

  /** Both together. */
  lemma ChildUndone(f: FileSystem, g: FileSystem, o: Ownership, mount: Path, c: Path, m: Path, q: Path)
    requires Lent(f, g, o.childPath, mount, c, m) && OwnedAt(g, o, o.childPath) && GoodQuarantine(g, o, q)
    requires SameAt(f, g, m) || Remade(f, g, m)
    ensures CanRename(g, o.childPath, q)
    ensures
      var h := AfterRename(g, o.childPath, q);
      OwnedAt(h, o, q) && AsBefore(f, Prune(h, Locate(h, q).path), m)
  {
    MovedAside(f, g, o, mount, c, m, q);
    PrunedIsBefore(f, g, o.childPath, mount, c, m);
  }

  ghost predicate Ordinary(f: FileSystem, request: Request) {
    && Locate(f, request.child).At? && Locate(f, request.mount).At?
    && Places(f, request.child, request.mount, Locate(f, request.child).path, Locate(f, request.mount).path)
  }

  ghost predicate LentBy(f: FileSystem, g: FileSystem, request: Request) {
    && Locate(f, request.child).At? && Locate(f, request.mount).At?
    && Lent(f, g, request.child, request.mount, Locate(f, request.child).path, Locate(f, request.mount).path)
  }

  predicate Removable(f: FileSystem, p: Path) {
    && Exists(f, p)
    && (Lstat(f, p).Directory? ==> EmptyDirectory(f, Locate(f, p).path))
  }

  /** What is at the mount's place gives way to the link. */
  predicate Clearable(f: FileSystem, m: Path, existed: bool) {
    if existed then m in f && (f[m].Directory? ==> EmptyDirectory(f, m)) else m !in f
  }

  predicate Vacant(f: FileSystem, p: Path) {
    Locate(f, p).At? && Locate(f, p).path !in f
  }

  /** The clone in place of the child, with its ownership marker. */
  function Marked(f: FileSystem, c: Path, draws: Draws, o: Ownership): FileSystem {
    Graft(f, c, draws.clone)[c + [MarkerName] := File(draws.markerIdentity, o.Marker())]
  }

  predicate Establishes(request: Request, draws: Draws, o: Ownership) {
    o.storeRoot == request.storeRoot && o.childPath == request.child && o.leaseId == request.leaseId && o.token == draws.token
  }

  /** A clone of a directory tree that was a valid source. */
  predicate GoodClone(tree: FileSystem) {
    && [] in tree && tree[[]].Directory?
    && forall s | s in tree :: (tree[s].Directory? || tree[s].File?) && (s != [] ==> Base(s) != MarkerName)
  }

  predicate Markable(f: FileSystem, request: Request)
    requires Exists(f, request.child)
  {
    && WithinRoot(request.storeRoot, request.child) && Lstat(f, request.child).Directory?
    && Locate(f, request.child).path + [MarkerName] !in f
  }

  /** What is grafted is a good clone at its new place. */
  lemma GraftedNode(f: FileSystem, c: Path, tree: FileSystem, p: Path)
    requires c != [] && GoodClone(tree) && c <= p && p in Graft(f, c, tree)
    ensures
      var node := Graft(f, c, tree)[p];
      (node.Directory? || node.File?) && (p != c ==> p != [] && Base(p) != MarkerName)
  {
    GraftHas(f, c, tree, p);
    var s := p[|c|..];
    assert p == c + s && s in tree;
    if p != c {
      assert s != [] && Base(p) == Base(s);
    }
  }

  lemma GraftedRoot(f: FileSystem, c: Path, tree: FileSystem)
    requires c != [] && GoodClone(tree)
    ensures c in Graft(f, c, tree) && Graft(f, c, tree)[c].Directory?
    ensures c + [MarkerName] !in Graft(f, c, tree)
  {
    GraftHas(f, c, tree, c);
    assert c[|c|..] == [];
    var x := c + [MarkerName];
    GraftHas(f, c, tree, x);
    assert x[|c|..] == [MarkerName] && Base([MarkerName]) == MarkerName;
  }

  /** Grafted in place of the child it is a valid source again. */
  lemma ClonedSource(f: FileSystem, c: Path, tree: FileSystem, request: Request)
    requires Ordinary(f, request) && Locate(f, request.child) == At(c) && GoodClone(tree)
    ensures
      var g := Graft(f, c, tree);
      && Locate(g, request.child) == At(c) && ValidSource(g, request.child) && Lstat(g, request.child).Directory?
      && c + [MarkerName] !in g
  {
    hide Enter, IsTree, Graft, EmptyDirectory, GoodClone;
    assert c != [];
    var g := Graft(f, c, tree);
    forall p ensures !(c <= p) ==> SameAt(f, g, p) {
      GraftHas(f, c, tree, p);
    }
    LentKept(f, g, request.child, request.mount, c, Locate(f, request.mount).path);
    GraftedRoot(f, c, tree);
    hide Locate;
    forall p | p in g && c <= p
      ensures (g[p].Directory? || g[p].File?) && (p != c && p != [] ==> Base(p) != MarkerName)
    {
      GraftedNode(f, c, tree, p);
    }
  }

  lemma MountChanged(f: FileSystem, g: FileSystem, h: FileSystem, child: Path, mount: Path, c: Path, m: Path)
    requires Lent(f, g, child, mount, c, m)
    requires forall p | p != m :: SameAt(g, h, p)
    requires DirOf(c) == m && SameAt(f, g, m) ==> SameAt(g, h, m)
    ensures Lent(f, h, child, mount, c, m)
  {
    forall p | !(c <= p) && p != m ensures SameAt(f, h, p) {
      assert SameAt(f, g, p) && SameAt(g, h, p);
    }
  }

  /** A mount that can be taken away does not hold the child. */
  lemma MountGivesWay(f: FileSystem, g: FileSystem, request: Request, existed: bool)
    requires LentBy(f, g, request) && Locate(f, request.child).path in g
    requires
      var m := Locate(f, request.mount).path;
      && Clearable(g, m, existed) && (existed <==> m in f)
    ensures
      var m := Locate(f, request.mount).path;
      && LentBy(f, g - {m}, request) && LentBy(f, g[m := Link(true, request.child)], request)
  {
    var c := Locate(f, request.child).path;
    var m := Locate(f, request.mount).path;
    EnterIsDirectory(f, [], DirOf(request.child), LINK_LIMIT);
    assert DirOf(c) == m ==> m <= c && c != m;
    MountChanged(f, g, g - {m}, request.child, request.mount, c, m);
    MountChanged(f, g, g[m := Link(true, request.child)], request.child, request.mount, c, m);
  }

  lemma StillClearable(f: FileSystem, g: FileSystem, request: Request)
    requires LentBy(f, g, request) && SameAt(f, g, Locate(f, request.mount).path)
    requires !(Locate(f, request.mount).path <= Locate(f, request.child).path)
    ensures Clearable(g, Locate(f, request.mount).path, Locate(f, request.mount).path in f)
  {
    hide IsTree;
    var c, m := Locate(f, request.child).path, Locate(f, request.mount).path;
    forall p | p in g && m <= p ensures m in f ==> p == m {
      EitherWay(c, m, p);
      assert p != m && !(c <= p) ==> SameAt(f, g, p);
    }
  }

  lemma EitherWay(c: Path, m: Path, p: Path)
    requires m <= p
    ensures c <= p ==> c <= m || m <= c
  {
    if c <= p {
      assert c == p[..|c|] && m == p[..|m|];
      if |c| <= |m| { assert c == m[..|c|]; } else { assert m == c[..|m|]; }
    }
  }

  /** A change at the mount alone leaves the child owned. */
  lemma OwnedBesideMount(f: FileSystem, g: FileSystem, h: FileSystem, o: Ownership, mount: Path, c: Path, m: Path)
    requires Lent(f, g, o.childPath, mount, c, m) && Lent(f, h, o.childPath, mount, c, m)
    requires (forall p | p != m :: SameAt(g, h, p)) && OwnedAt(g, o, o.childPath)
    ensures OwnedAt(h, o, o.childPath)
  {
    LentKept(f, g, o.childPath, mount, c, m);
    LentKept(f, h, o.childPath, mount, c, m);
    OwnedIsAcquired(g, o, o.childPath);
    OwnedIsAcquired(h, o, o.childPath);
    assert c <= c + [MarkerName];
    assert SameAt(g, h, c) && SameAt(g, h, c + [MarkerName]);
  }

  /** What a failing acquire that began on f finds at the mount's place. */
  ghost predicate MountToUndo(f: FileSystem, g: FileSystem, request: Request, linked: bool, existed: bool, mode: nat)
    requires Locate(f, request.child).At? && Locate(f, request.mount).At?
  {
    var m := Locate(f, request.mount).path;
    && (existed <==> m in f) && (existed ==> mode == ModeOf(f, m))
    && (if linked then m in g && g[m].Link? else SameAt(f, g, m) || (existed && m !in g))
  }

  function ModeOf(f: FileSystem, m: Path): nat {
    if m in f && f[m].Directory? then f[m].mode else 0x1c0
  }

  datatype Info = Info(parent: Path, child: Path, mount: Path, ownership: Ownership, mountExisted: bool, mountMode: nat)

  /** A lease in use: only the child's tree and the mount differ from f, the one is owned and the other links to it. */
  ghost predicate Holds(f: FileSystem, g: FileSystem, request: Request, info: Info) {
    && LentBy(f, g, request)
    && info.ownership.childPath == info.child == request.child && info.mount == request.mount
    && OwnedAt(g, info.ownership, info.child) && IsMount(g, info.mount, info.child)
    && var m := Locate(f, request.mount).path;
    && (info.mountExisted <==> m in f) && info.mountMode == ModeOf(f, m)
  }

  /** The state in which acquire turns from the child to the mount. */
  ghost predicate Linkable(f: FileSystem, g: FileSystem, request: Request, existed: bool, mode: nat) {
    && LentBy(f, g, request)
    && var m := Locate(f, request.mount).path;
    && SameAt(f, g, m) && (existed <==> m in f) && mode == ModeOf(f, m)
  }

  /** Acquire has nothing to object to. */
  ghost predicate Acquirable(f: FileSystem, request: Request) {
    && Ordinary(f, request) && ValidInputs(f, request) && ValidSource(f, request.parent)
    && !(Locate(f, request.mount).path <= Locate(f, request.child).path)
  }

  class Storage {
    var fs: FileSystem
    const env: Environment

    constructor (fs: FileSystem, env: Environment)
      ensures this.fs == fs && this.env == env
    {
      this.fs, this.env := fs, env;
    }

    // ----- System calls ---------------------------------------------------------------------

    /** A rename that never replaces anything. */
    method RenameNoReplace(a: Path, b: Path) returns (ok: bool)
      modifies `fs, env
      ensures fs == old(fs) || (CanRename(old(fs), a, b) && fs == AfterRename(old(fs), a, b))
      ensures ok ==> CanRename(old(fs), a, b) && fs == AfterRename(old(fs), a, b)
      ensures !ok && !env.crashed ==> fs == old(fs)
      ensures old(env.Calm()) ==> env.Calm() && ok == CanRename(old(fs), a, b)
      ensures old(env.crashed) ==> env.crashed
    {
      if !CanRename(fs, a, b) {
        return false;
      }
      var o := env.Next();
      if o.Landed() {
        fs := AfterRename(fs, a, b);
      }
      ok := o.Done?;
    }

    /** `prepareChildRemoval`: directories of the tree are made writable; if cut, some of them. */
    method Loosen(q: Path) returns (ok: bool)
      requires q != [] && Exists(fs, q)
      modifies `fs, env
      ensures OnlyTreeShrank(old(fs), fs, Locate(old(fs), q).path) && Locate(fs, q) == Locate(old(fs), q)
      ensures Prune(fs, Locate(old(fs), q).path) == Prune(old(fs), Locate(old(fs), q).path)
      ensures ok ==> !env.crashed
      ensures old(env.Calm()) ==> ok && env.Calm()
      ensures old(env.crashed) ==> env.crashed
    {
      var r := Locate(fs, q).path;
      var dead := env.crashed;
      var o := env.Next();
      ok := o.Done?;
      var some: set<Path> := *;
      var which := if ok then fs.Keys else if dead then {} else some;
      LoosenedLookup(fs, r, which, q);
      LoosenedShrinks(fs, r, which);
      fs := Loosened(fs, r, which);
    }

    /** `prepareChildRemoval` and `os.RemoveAll`: neither follows links; if cut, some of the tree is left. */
    method RemoveTree(q: Path) returns (ok: bool)
      requires q != [] && Exists(fs, q)
      modifies `fs, env
      ensures OnlyTreeShrank(old(fs), fs, Locate(old(fs), q).path)
      ensures ok ==> fs == Prune(old(fs), Locate(old(fs), q).path)
      ensures old(env.Calm()) ==> ok && env.Calm()
      ensures old(env.crashed) ==> env.crashed
    {
      ghost var before := fs;
      ok := Loosen(q);
      if !ok {
        return;
      }
      var r := Locate(fs, q).path;
      var left: set<Path> := *;
      ShrinksFurther(before, fs, r, left);
      var o := env.Next();
      fs := if o.Landed() then Prune(fs, r) else Partly(fs, r, left);
      ok := o.Done?;
    }

    /** `removeOwnedMount`. */
    method RemoveOwnedMount(mount: Path, child: Path) returns (ok: bool)
      modifies `fs, env
      ensures fs == old(fs) || (IsMount(old(fs), mount, child) && fs == old(fs) - {Locate(old(fs), mount).path})
      ensures ok ==> IsMount(old(fs), mount, child) && fs == old(fs) - {Locate(old(fs), mount).path}
      ensures fs != old(fs) ==> Exists(old(fs), mount) && old(fs)[Locate(old(fs), mount).path] == Link(true, child)
      ensures !ok && !env.crashed ==> fs == old(fs)
      ensures old(env.Calm()) ==> env.Calm() && ok == IsMount(old(fs), mount, child)
      ensures old(env.crashed) ==> env.crashed
    {
      if !IsMount(fs, mount, child) {
        return false;
      }
      var o := env.Next();
      if o.Landed() {
        fs := fs - {Locate(fs, mount).path};
      }
      ok := o.Done?;
    }

    // ----- Removal of a child ---------------------------------------------------------------

    /**
     `removeOwnedChild`, with an arbitrary change of the file system right after the rename.  What is
     deleted belongs to a tree whose root has the acquired identity and marker at that moment; nothing
     outside it changes; without that proof of ownership nothing is deleted, and the directory goes
     back if it still is the acquired one and its old path is free.
     */
    method RemoveOwnedChild(o: Ownership, q: Path, hook: Hook) returns (ok: bool)
      modifies `fs, env
      ensures !(OwnedAt(old(fs), o, o.childPath) && GoodQuarantine(old(fs), o, q)) ==> !ok && fs == old(fs)
      ensures || fs == old(fs)
              || (CanRename(old(fs), o.childPath, q)
                  && (|| fs == AfterRename(old(fs), o.childPath, q)
                      || SafeRemoval(Meddle(hook, AfterRename(old(fs), o.childPath, q)), fs, o, q)))
      ensures ok ==>
                && CanRename(old(fs), o.childPath, q)
                && var g := Meddle(hook, AfterRename(old(fs), o.childPath, q));
                && OwnedAt(g, o, q) && fs == Prune(g, Locate(g, q).path)
      ensures old(env.Calm() && OwnedAt(fs, o, o.childPath) && GoodQuarantine(fs, o, q) && CanRename(fs, o.childPath, q)) ==>
                && var g := Meddle(hook, AfterRename(old(fs), o.childPath, q));
                var r, back := Locate(g, q), Locate(g, o.childPath);
                if OwnedAt(g, o, q) then
                  // everything at and under the quarantine name is gone, and nothing else
                  ok && forall p :: if p in g && !(r.path <= p) then p in fs && fs[p] == g[p] else p !in fs
                else
                  // what still is the acquired directory goes back if its old path is free
                  && !ok
                  && if r.At? && r.path in g && g[r.path].Directory? && g[r.path].identity == o.identity
                        && back.At? && back.path !in g && !(r.path <= back.path)
                     then fs == Renamed(g, r.path, back.path) else fs == g
      // nothing is touched but the acquired directory with its marker, under a reserved name beside it
      ensures fs != old(fs) ==>
                && q != [] && o.childPath != [] && q[..|q| - 1] == o.childPath[..|o.childPath| - 1] && q[|q| - 1].Reserved?
                && o.storeRoot < q && o.storeRoot < o.childPath
                && Locate(old(fs), o.childPath).At?
                && var c := Locate(old(fs), o.childPath).path;
                && c in old(fs) && old(fs)[c].Directory? && old(fs)[c].identity == o.identity
                && c + [MarkerName] in old(fs) && old(fs)[c + [MarkerName]].File?
                && old(fs)[c + [MarkerName]].contents == MarkerText(1, o.leaseId, o.token)
      ensures old(env.Calm()) ==> env.Calm()
      ensures old(env.crashed) ==> env.crashed
    {
      if !OwnedAt(fs, o, o.childPath) || !GoodQuarantine(fs, o, q) {
        return false;
      }
      OwnedIsAcquired(fs, o, o.childPath);
      var moved := RenameNoReplace(o.childPath, q);
      if !moved {
        return false;
      }
      fs := Meddle(hook, fs);
      if !OwnedAt(fs, o, q) {
        if HasIdentity(fs, o, q) {
          var _ := RenameNoReplace(q, o.childPath);
        }
        return false;
      }
      OwnedIsAcquired(fs, o, q);
      ok := RemoveTree(q);
    }

    // ----- Acquire --------------------------------------------------------------------------

    /** `os.Remove` of an empty directory or a link. */
    method RemoveEntry(p: Path) returns (ok: bool)
      modifies `fs, env
      ensures fs == old(fs) || (Removable(old(fs), p) && fs == old(fs) - {Locate(old(fs), p).path})
      ensures ok ==> Removable(old(fs), p) && fs == old(fs) - {Locate(old(fs), p).path}
      ensures !ok && !env.crashed ==> fs == old(fs)
      ensures old(env.Calm()) ==> env.Calm() && ok == Removable(old(fs), p)
      ensures old(env.crashed) ==> env.crashed
    {
      if !Removable(fs, p) {
        return false;
      }
      var o := env.Next();
      if o.Landed() {
        fs := fs - {Locate(fs, p).path};
      }
      ok := o.Done?;
    }

    /** `os.Mkdir` and `os.Symlink`: nothing may be there yet. */
    method MakeEntry(p: Path, node: Node) returns (ok: bool)
      modifies `fs, env
      ensures fs == old(fs) || (Vacant(old(fs), p) && fs == old(fs)[Locate(old(fs), p).path := node])
      ensures ok ==> Vacant(old(fs), p) && fs == old(fs)[Locate(old(fs), p).path := node]
      ensures !ok && !env.crashed ==> fs == old(fs)
      ensures old(env.Calm()) ==> env.Calm() && ok == Vacant(old(fs), p)
      ensures old(env.crashed) ==> env.crashed
    {
      if !Vacant(fs, p) {
        return false;
      }
      var o := env.Next();
      if o.Landed() {
        fs := fs[Locate(fs, p).path := node];
      }
      ok := o.Done?;
    }

    /** `establishChildOwnership`: the marker is created, never overwritten, and then verified. */
    method MarkChild(request: Request, draws: Draws) returns (ownership: Option<Ownership>)
      requires request.child != [] && Exists(fs, request.child)
      modifies `fs, env
      ensures
        var r := Locate(old(fs), request.child).path;
        forall p | !(r <= p) :: SameAt(old(fs), fs, p)
      ensures Locate(old(fs), request.child).path in fs
      ensures ownership.Some? ==>
                && !env.crashed && Establishes(request, draws, ownership.value) && OwnedAt(fs, ownership.value, request.child)
                && var r := Locate(old(fs), request.child).path;
                && fs == old(fs)[r + [MarkerName] := File(draws.markerIdentity, MarkerText(1, request.leaseId, draws.token))]
                && r + [MarkerName] !in old(fs)
      ensures old(env.Calm()) ==>
                && env.Calm()
                && (Markable(old(fs), request) ==> ownership.Some?)
    {
      var found := Lstat(fs, request.child);
      if !found.Directory? {
        return None;
      }
      LocateInside(fs, request.child, MarkerName);
      if !Vacant(fs, request.child + [MarkerName]) {
        return None;
      }
      var owner := Ownership(request.storeRoot, request.child, request.leaseId, draws.token, found.identity);
      var x := Locate(fs, request.child + [MarkerName]).path;
      var o := env.Next();
      var torn: bool := *;
      if o.Landed() {
        fs := fs[x := File(draws.markerIdentity, owner.Marker())];
        LocateKept(old(fs), fs, x, request.child);
        if WithinRoot(request.storeRoot, request.child) { OwnedIsAcquired(fs, owner, request.child); }
      } else if torn {
        fs := fs[x := File(draws.markerIdentity, Bytes(draws.token))];
      }
      ownership := if o.Done? && OwnedAt(fs, owner, request.child) then Some(owner) else None;
    }

    /** The clone and its ownership marker; what is not verified as owned is left in place and observed. */
    method CloneChild(request: Request, draws: Draws) returns (ownership: Option<Ownership>, observed: bool)
      requires request.child != []
      modifies `fs, env
      ensures !Locate(old(fs), request.child).At? ==> fs == old(fs)
      ensures old(Ordinary(fs, request)) ==> LentBy(old(fs), fs, request) && SameAt(old(fs), fs, Locate(old(fs), request.mount).path)
      ensures ownership.Some? ==>
                && !observed && !env.crashed && Establishes(request, draws, ownership.value)
                && Locate(old(fs), request.child).At? && OwnedAt(fs, ownership.value, request.child)
      ensures old(Ordinary(fs, request)) && ownership.Some? ==>
                fs == Marked(old(fs), Locate(old(fs), request.child).path, draws, ownership.value)
      ensures old(Ordinary(fs, request)) && ownership.None? && !observed && !env.crashed ==> fs == old(fs)
      ensures old(env.Calm()) ==>
                && env.Calm()
                && (old(Ordinary(fs, request)) && WithinRoot(request.storeRoot, request.child) && GoodClone(draws.clone) ==> ownership.Some?)
    {
      ownership, observed := None, false;
      var o := env.Next();
      if !o.Done? || !Locate(fs, request.child).At? {
        return;
      }
      var c := Locate(fs, request.child).path;
      o := env.Next();
      var tree := draws.clone;
      if !o.Done? {
        tree := *;
      }
      if o.Done? || [] in tree {
        fs := Graft(fs, c, tree);
      }
      forall p | !(c <= p) ensures SameAt(old(fs), fs, p) {
        GraftHas(old(fs), c, tree, p);
      }
      GraftHas(old(fs), c, tree, c);
      assert c[|c|..] == [];
      if old(Ordinary(fs, request)) {
        LentKept(old(fs), fs, request.child, request.mount, c, Locate(old(fs), request.mount).path);
      }
      if !o.Done? {
        observed := Exists(fs, request.child);
        return;
      }
      observed := true;
      if old(Ordinary(fs, request)) && GoodClone(tree) { ClonedSource(old(fs), c, tree, request); }
      if ValidSource(fs, request.child) {
        ghost var cloned := fs;
        ownership := MarkChild(request, draws);
        observed := ownership.None?;
        if old(Ordinary(fs, request)) {
          assert Locate(cloned, request.child) == At(c);
          forall p | !(c <= p) ensures SameAt(old(fs), fs, p) {
            assert SameAt(old(fs), cloned, p) && SameAt(cloned, fs, p);
          }
        }
      }
    }

    /** An existing mount directory, which must be empty, is taken away. */
    method ClearMount(request: Request, existed: bool, ghost f: FileSystem) returns (ok: bool)
      requires request.mount != []
      modifies `fs, env
      ensures LentBy(f, old(fs), request) ==>
                var m := Locate(f, request.mount).path;
                && Locate(fs, request.mount) == At(m)
                && (fs == old(fs) || (existed && Clearable(old(fs), m, existed) && fs == old(fs) - {m}))
                && (ok && existed ==> Clearable(old(fs), m, existed) && fs == old(fs) - {m})
      ensures ok && !existed ==> fs == old(fs)
      ensures !ok && !env.crashed ==> fs == old(fs)
      ensures old(env.crashed) ==> env.crashed
      ensures old(env.Calm()) ==>
                && env.Calm()
                && (LentBy(f, old(fs), request) && Clearable(old(fs), Locate(f, request.mount).path, existed) ==> ok)
    {
      hide Enter, EmptyDirectory, IsTree;
      ghost var m := if LentBy(f, fs, request) then Locate(f, request.mount).path else [];
      if LentBy(f, fs, request) {
        LentKept(f, fs, request.child, request.mount, Locate(f, request.child).path, m);
        assert DirOf(m) != m;
        LocateKept(f, fs - {m}, m, request.mount);
      }
      hide Lent, Places, Locate;
      ok := true;
      if existed {
        ok := RemoveEntry(request.mount);
      }
    }

    /** The second half of acquire: measure the child, take an empty mount directory away, link. */
    method LinkWorkspace(request: Request, existed: bool, ghost f: FileSystem) returns (ok: bool, linked: bool)
      requires request.mount != []
      modifies `fs, env
      ensures LentBy(f, old(fs), request) ==>
                var m := Locate(f, request.mount).path;
                && (fs == old(fs) || (Clearable(old(fs), m, existed) && (fs == old(fs) - {m} || fs == old(fs)[m := Link(true, request.child)])))
                && (linked ==> fs == old(fs)[m := Link(true, request.child)])
                && (!linked && !env.crashed ==> fs == old(fs) || (existed && fs == old(fs) - {m}))
      ensures ok ==> linked && !env.crashed
      ensures old(env.Calm()) ==>
                && env.Calm()
                && (LentBy(f, old(fs), request) && Clearable(old(fs), Locate(f, request.mount).path, existed) ==> ok)
    {
      hide EmptyDirectory, Lent, Locate;
      ok, linked := false, false;
      var o := env.Next();
      if !o.Done? {
        return;
      }
      o := env.Next();
      if !o.Done? {
        return;
      }
      var cleared := ClearMount(request, existed, f);
      if !cleared {
        return;
      }
      linked := MakeEntry(request.mount, Link(true, request.child));
      if linked {
        o := env.Next();
        ok := o.Done?;
      }
    }

    /** The mount half of a failing acquire's cleanup: the link goes, the empty directory comes back. */
    method UndoMount(request: Request, linked: bool, existed: bool, mode: nat, remade: Identity, ghost f: FileSystem) returns (clean: bool)
      requires request.mount != []
      modifies `fs, env
      ensures !linked && (existed ==> Exists(old(fs), request.mount)) ==> fs == old(fs) && clean
      ensures LentBy(f, old(fs), request) && MountToUndo(f, old(fs), request, linked, existed, mode) ==>
                var m := Locate(f, request.mount).path;
                && LentBy(f, fs, request)
                && (forall p | p != m :: SameAt(old(fs), fs, p))
                && (clean && !env.crashed ==> SameAt(f, fs, m) || Remade(f, fs, m))
      ensures old(env.crashed) ==> env.crashed
    {
      hide IsTree, EmptyDirectory, Enter;
      clean := true;
      ghost var undoable := LentBy(f, fs, request) && MountToUndo(f, fs, request, linked, existed, mode);
      ghost var c, m := if undoable then Locate(f, request.child).path else [], if undoable then Locate(f, request.mount).path else [];
      if undoable {
        LentKept(f, fs, request.child, request.mount, c, m);
        MountDirectory(f, request.child, request.mount, c, m);
      }
      if linked {
        clean := RemoveOwnedMount(request.mount, request.child);
        if undoable { MountChanged(f, old(fs), fs, request.child, request.mount, c, m); }
      }
      if existed {
        ghost var before := fs;
        if undoable { LentKept(f, fs, request.child, request.mount, c, m); }
        var made := MakeEntry(request.mount, Directory(remade, mode));
        clean := clean && (made || Exists(fs, request.mount));
        if undoable { MountChanged(f, before, fs, request.child, request.mount, c, m); }
      }
    }

    /** What a failing acquire does about its mount and child; `clean` when no error came up. */
    method Undo(request: Request, linked: bool, existed: bool, mode: nat, ownership: Option<Ownership>, observed: bool, draws: Draws,
                ghost f: FileSystem) returns (clean: bool)
      requires request.child != [] && request.mount != []
      requires ownership.Some? ==> ownership.value.childPath == request.child
      modifies `fs, env
      ensures old(fs) == f && !linked && ownership.None? && (existed ==> Exists(f, request.mount)) ==> fs == f
      ensures LentBy(f, old(fs), request) && MountToUndo(f, old(fs), request, linked, existed, mode) && clean && !env.crashed ==>
                var m := Locate(f, request.mount).path;
                (ownership.None? && !observed ==> forall p | p != m :: SameAt(f, old(fs), p)) ==> AsBefore(f, fs, m)
      ensures old(env.crashed) ==> env.crashed
    {
      hide Locate, Places, Prune, Renamed, OwnedAt, GoodQuarantine, CanRename, SafeRemoval;
      ghost var undoable := LentBy(f, fs, request) && MountToUndo(f, fs, request, linked, existed, mode);
      ghost var c, m := if undoable then Locate(f, request.child).path else [], if undoable then Locate(f, request.mount).path else [];
      clean := UndoMount(request, linked, existed, mode, draws.remade, f);
      ghost var restored := fs;
      if ownership.Some? {
        var removed := RemoveOwnedChild(ownership.value, draws.quarantine, None);
        clean := clean && removed;
        if undoable && clean && !env.crashed {
          ChildUndone(f, restored, ownership.value, request.mount, c, m, draws.quarantine);
        }
      } else if observed {
        clean := false;
      }
      if undoable && ownership.None? && !observed && (forall p | p != m :: SameAt(f, old(fs), p)) {
        forall p | p != m ensures SameAt(f, fs, p) {
          assert SameAt(f, old(fs), p) && SameAt(old(fs), fs, p);
        }
      }
    }

    /**
     `unixBackend.Acquire`.  A lease means the child is owned and linked and nothing else has changed; a
     refusal without a cleanup error means that everything is as before.
     */
    method Acquire(request: Request, draws: Draws) returns (lease: Option<Info>, clean: bool)
      modifies `fs, env
      ensures lease.Some? ==>
                && !env.crashed && Establishes(request, draws, lease.value.ownership)
                && lease.value.child == request.child && lease.value.mount == request.mount
      ensures old(Ordinary(fs, request)) && lease.Some? ==>
                && Holds(old(fs), fs, request, lease.value)
                && fs == Marked(old(fs), Locate(old(fs), request.child).path, draws, lease.value.ownership)
                           [Locate(old(fs), request.mount).path := Link(true, request.child)]
      ensures lease.None? && clean && !env.crashed ==>
                && (old(Ordinary(fs, request)) ==> AsBefore(old(fs), fs, Locate(old(fs), request.mount).path))
                && (!Locate(old(fs), request.child).At? ==> fs == old(fs))
      ensures old(env.Calm() && Acquirable(fs, request) && GoodClone(draws.clone)) ==> lease.Some? && env.Calm()
      // what is cloned holds directories and regular files only, and no marker; the store root is a real directory
      ensures lease.Some? ==>
                && Exists(old(fs), request.storeRoot) && old(fs)[Locate(old(fs), request.storeRoot).path].Directory?
                && request.storeRoot < request.child && Absent(old(fs), request.child) && PlainTree(old(fs), Locate(old(fs), request.parent))
      // the mount was missing, or a real directory with nothing in it
      ensures lease.Some? ==>
                || Absent(old(fs), request.mount)
                || (Exists(old(fs), request.mount)
                    && var m := Locate(old(fs), request.mount).path;
                    old(fs)[m].Directory? && forall p | p in old(fs) && m <= p :: p == m)
    {
      hide Enter, IsTree, Prune, Renamed, ValidSource, GoodClone;
      lease, clean := None, true;
      if !ValidInputs(fs, request) || !ValidSource(fs, request.parent) || !Absent(fs, request.child) || request.mount == [] {
        return;
      }
      ValidIsPlain(fs, request.parent);
      var existed := Exists(fs, request.mount);
      if if existed then !EmptyDirectory(fs, Locate(fs, request.mount).path) else !Absent(fs, request.mount) {
        return;
      }
      var mode := if existed then ModeOf(fs, Locate(fs, request.mount).path) else 0x1c0;
      var ownership, observed := CloneChild(request, draws);
      if ownership.None? {
        clean := Undo(request, false, existed, mode, None, observed, draws, old(fs));
        return;
      }
      if old(Acquirable(fs, request)) { StillClearable(old(fs), fs, request); }
      lease, clean := Finish(request, draws, ownership.value, existed, mode, old(fs));
    }

    /** From an owned child to a lease in use, or back. */
    method Finish(request: Request, draws: Draws, ownership: Ownership, existed: bool, mode: nat, ghost f: FileSystem)
      returns (lease: Option<Info>, clean: bool)
      requires request.mount != [] && request.child != [] && Establishes(request, draws, ownership) && OwnedAt(fs, ownership, request.child)
      modifies `fs, env
      ensures lease.Some? ==> !env.crashed && lease.value == Info(request.parent, request.child, request.mount, ownership, existed, mode)
      ensures lease.Some? && Linkable(f, old(fs), request, existed, mode) ==>
                Holds(f, fs, request, lease.value) && fs == old(fs)[Locate(f, request.mount).path := Link(true, request.child)]
      ensures lease.None? && clean && !env.crashed && Linkable(f, old(fs), request, existed, mode) ==>
                AsBefore(f, fs, Locate(f, request.mount).path)
      ensures old(env.Calm()) && LentBy(f, old(fs), request) && Clearable(old(fs), Locate(f, request.mount).path, existed) ==>
                lease.Some? && env.Calm()
    {
      hide Enter, IsTree, Prune, Renamed, OwnedAt, EmptyDirectory;
      lease, clean := None, true;
      ghost var linkable := Linkable(f, fs, request, existed, mode);
      ghost var c, m := if linkable then Locate(f, request.child).path else [], if linkable then Locate(f, request.mount).path else [];
      if linkable {
        LentKept(f, fs, request.child, request.mount, c, m);
        OwnedLies(fs, ownership, request.child);
      }
      var ok, linked := LinkWorkspace(request, existed, f);
      if linkable && fs != old(fs) {
        MountGivesWay(f, old(fs), request, existed);
      }
      if !ok {
        clean := Undo(request, linked, existed, mode, Some(ownership), false, draws, f);
        return;
      }
      if linkable {
        OwnedBesideMount(f, old(fs), fs, ownership, request.mount, c, m);
        LentKept(f, fs, request.child, request.mount, c, m);
      }
      lease := Some(Info(request.parent, request.child, request.mount, ownership, existed, mode));
    }
  }

  // ----- Release, and the snapshot that outlives the process -----------------------------------

  /** With the link gone, the mount put back or left absent. */
  ghost predicate MountReturned(f: FileSystem, g: FileSystem, request: Request) {
    LentBy(f, g, request) && (SameAt(f, g, Locate(f, request.mount).path) || Remade(f, g, Locate(f, request.mount).path))
  }

  /** A quarantine name that is free while the link stands is free after it. */
  lemma QuarantineStays(f: FileSystem, g: FileSystem, h: FileSystem, o: Ownership, mount: Path, c: Path, m: Path, q: Path)
    requires Lent(f, g, o.childPath, mount, c, m) && Lent(f, h, o.childPath, mount, c, m)
    requires (forall p | p != m :: SameAt(g, h, p)) && m in g && GoodQuarantine(g, o, q)
    ensures GoodQuarantine(h, o, q)
  {
    hide Enter, IsTree;
    LentKept(f, g, o.childPath, mount, c, m);
    LentKept(f, h, o.childPath, mount, c, m);
    LocateBeside(g, o.childPath, q);
    LocateBeside(h, o.childPath, q);
    var y := Locate(g, q).path;
    assert SameAt(g, h, y) || y == m;
  }

  datatype Snapshot = Snapshot(
    storeRoot: Path, parentPath: Path, childPath: Path, mountPath: Path, leaseId: Name, ownerToken: Name,
    device: nat, inode: nat, mountExisted: bool, mountMode: nat)

  /** `SnapshotUnixLease`. */
  function SnapshotOf(info: Info): Snapshot {
    Snapshot(info.ownership.storeRoot, info.parent, info.child, info.mount, info.ownership.leaseId, info.ownership.token,
             info.ownership.identity.device, info.ownership.identity.inode, info.mountExisted, info.mountMode)
  }

  /** `RecoverUnixLease`: fails unless child, marker and link are still the acquired ones. */
  function RecoverLease(f: FileSystem, s: Snapshot): Option<Info> {
    var o := Ownership(s.storeRoot, s.childPath, s.leaseId, s.ownerToken, Identity(s.device, s.inode));
    if OwnedAt(f, o, s.childPath) && IsMount(f, s.mountPath, s.childPath)
    then Some(Info(s.parentPath, s.childPath, s.mountPath, o, s.mountExisted, s.mountMode))
    else None
  }

  /** A recovered lease is the lease that was snapshot, and there is one exactly while it holds. */
  lemma RecoveredIsTheSame(f: FileSystem, info: Info)
    requires info.ownership.childPath == info.child
    ensures RecoverLease(f, SnapshotOf(info)) ==
              if OwnedAt(f, info.ownership, info.child) && IsMount(f, info.mount, info.child) then Some(info) else None
  {
    assert info.ownership == Ownership(info.ownership.storeRoot, info.child, info.ownership.leaseId, info.ownership.token,
                                       Identity(info.ownership.identity.device, info.ownership.identity.inode));
  }

  class UnixLease {
    const storage: Storage
    const info: Info
    var released: bool

    constructor (storage: Storage, info: Info)
      ensures this.storage == storage && this.info == info && !released
    {
      this.storage, this.info, released := storage, info, false;
    }

    /** The first half of release: the link goes and an empty directory comes back. */
    method ReturnMount(remade: Identity, ghost f: FileSystem, ghost request: Request) returns (ok: bool)
      modifies storage`fs, storage.env
      ensures Holds(f, old(storage.fs), request, info) && ok && !storage.env.crashed ==>
                && MountReturned(f, storage.fs, request)
                && (forall p | p != Locate(f, request.mount).path :: SameAt(old(storage.fs), storage.fs, p))
      ensures old(storage.env.Calm()) ==> storage.env.Calm() && (Holds(f, old(storage.fs), request, info) ==> ok)
      ensures old(storage.env.crashed) ==> storage.env.crashed
    {
      hide Enter, IsTree, EmptyDirectory, OwnedAt;
      ghost var holds := Holds(f, storage.fs, request, info);
      ghost var c, m := if holds then Locate(f, request.child).path else [], if holds then Locate(f, request.mount).path else [];
      if holds {
        LentKept(f, storage.fs, request.child, request.mount, c, m);
        MountDirectory(f, request.child, request.mount, c, m);
      }
      ok := storage.RemoveOwnedMount(info.mount, info.child);
      if !ok {
        return;
      }
      ghost var unlinked := storage.fs;
      if holds {
        MountChanged(f, old(storage.fs), unlinked, request.child, request.mount, c, m);
        LentKept(f, unlinked, request.child, request.mount, c, m);
      }
      if info.mountExisted {
        ok := storage.MakeEntry(info.mount, Directory(remade, info.mountMode));
        if holds { MountChanged(f, unlinked, storage.fs, request.child, request.mount, c, m); }
      }
    }

    /**
     `unixLease.Release`.  Whatever was done inside the child since acquire, an OK release with deletion
     leaves everything as it was before acquire.
     */
    method Release(deleteChild: bool, draws: Draws, hook: Hook, ghost f: FileSystem, ghost request: Request) returns (ok: bool)
      modifies this, storage`fs, storage.env
      ensures old(released) ==> ok && storage.fs == old(storage.fs)
      ensures released == (old(released) || ok)
      ensures Holds(f, old(storage.fs), request, info) && !old(released) && ok && !storage.env.crashed ==>
                && (deleteChild && hook.None? ==> AsBefore(f, storage.fs, Locate(f, request.mount).path))
                && (!deleteChild ==> MountReturned(f, storage.fs, request) && OwnedAt(storage.fs, info.ownership, info.child))
      ensures old(storage.env.Calm()) && Holds(f, old(storage.fs), request, info) && hook.None?
              && GoodQuarantine(old(storage.fs), info.ownership, draws.quarantine) ==>
                ok && storage.env.Calm()
    {
      hide Enter, IsTree, EmptyDirectory, OwnedAt, Prune, Renamed, CanRename, GoodQuarantine;
      ok := true;
      if released {
        return;
      }
      var o := storage.env.Next();
      if !o.Done? {
        return false;
      }
      ghost var holds := Holds(f, storage.fs, request, info);
      ghost var c, m := if holds then Locate(f, request.child).path else [], if holds then Locate(f, request.mount).path else [];
      ok := ReturnMount(draws.remade, f, request);
      if !ok {
        return;
      }
      ghost var returned := storage.fs;
      if holds && !storage.env.crashed {
        OwnedBesideMount(f, old(storage.fs), returned, info.ownership, request.mount, c, m);
      }
      if deleteChild && !OwnedAt(storage.fs, info.ownership, info.child) {
        return false;
      }
      o := storage.env.Next();
      if !o.Done? || !Exists(storage.fs, info.child) {
        if OwnedAt(storage.fs, info.ownership, info.child) { OwnedLies(storage.fs, info.ownership, info.child); }
        return false;
      }
      if deleteChild {
        if holds && GoodQuarantine(old(storage.fs), info.ownership, draws.quarantine) {
          assert m in old(storage.fs) by { LentKept(f, old(storage.fs), request.child, request.mount, c, m); }
          QuarantineStays(f, old(storage.fs), returned, info.ownership, request.mount, c, m, draws.quarantine);
        }
        if holds && GoodQuarantine(returned, info.ownership, draws.quarantine) {
          ChildUndone(f, returned, info.ownership, request.mount, c, m, draws.quarantine);
        }
        ok := storage.RemoveOwnedChild(info.ownership, draws.quarantine, hook);
        if !ok {
          return;
        }
      }
      o := storage.env.Next();
      ok := o.Done?;
      released := ok;
    }
  }

  /**
   Release undoes acquire: whatever a consumer does inside the child, as long as its identity and marker
   stay, and even if the lease is swapped for one recovered from its snapshot in between.
   */
  method AcquireUseRelease(storage: Storage, request: Request, draws: Draws, use: FileSystem -> FileSystem, restarted: bool) returns (ok: bool)
    requires storage.env.Calm() && Acquirable(storage.fs, request) && GoodClone(draws.clone)
    requires forall g, p | !(Locate(storage.fs, request.child).path <= p) :: SameAt(g, use(g), p)
    requires forall g, o | OwnedAt(g, o, request.child) :: OwnedAt(use(g), o, request.child)
    requires FreshName(storage.fs, request, draws.quarantine)
    modifies storage`fs, storage.env
    ensures ok && AsBefore(old(storage.fs), storage.fs, Locate(old(storage.fs), request.mount).path)
  {
    hide Enter, IsTree, EmptyDirectory, GoodQuarantine;
    var info, clean := storage.Acquire(request, draws);
    ghost var c, m := Locate(old(storage.fs), request.child).path, Locate(old(storage.fs), request.mount).path;
    ghost var acquired := storage.fs;
    storage.fs := use(storage.fs);
    UsedInside(old(storage.fs), acquired, storage.fs, request, info.value);
    FreshStays(old(storage.fs), storage.fs, request, info.value.ownership, draws.quarantine);
    var lease := new UnixLease(storage, info.value);
    if restarted {
      RecoveredIsTheSame(storage.fs, info.value);
      lease := new UnixLease(storage, RecoverLease(storage.fs, SnapshotOf(lease.info)).value);
    }
    ok := lease.Release(true, draws, None, old(storage.fs), request);
  }

  /** A quarantine name that nothing in f uses, nor the mount. */
  ghost predicate FreshName(f: FileSystem, request: Request, q: Path) {
    && q != [] && request.child != [] && q != request.child && DirOf(q) == DirOf(request.child)
    && Base(q).Reserved? && WithinRoot(request.storeRoot, q)
    && Vacant(f, q) && Locate(f, q) != Locate(f, request.mount)
  }

  lemma FreshStays(f: FileSystem, h: FileSystem, request: Request, o: Ownership, q: Path)
    requires LentBy(f, h, request) && FreshName(f, request, q)
    requires o.childPath == request.child && o.storeRoot == request.storeRoot
    ensures GoodQuarantine(h, o, q)
  {
    hide Enter, IsTree;
    var c, m := Locate(f, request.child).path, Locate(f, request.mount).path;
    LentKept(f, h, request.child, request.mount, c, m);
    LocateBeside(f, request.child, q);
    LocateBeside(h, request.child, q);
    var y := Locate(f, q).path;
    assert c == DirOf(c) + [Base(request.child)] && y == DirOf(c) + [Base(q)];
    assert Base(q) != Base(request.child) by {
      assert q == DirOf(q) + [Base(q)] && request.child == DirOf(request.child) + [Base(request.child)];
    }
    PrefixesOfOne(y, c, y);
    assert SameAt(f, h, y);
  }

  /** Work inside the child keeps the lease. */
  lemma UsedInside(f: FileSystem, g: FileSystem, h: FileSystem, request: Request, info: Info)
    requires Holds(f, g, request, info)
    requires forall p | !(Locate(f, request.child).path <= p) :: SameAt(g, h, p)
    requires OwnedAt(h, info.ownership, info.child)
    ensures Holds(f, h, request, info)
  {
    hide Enter, IsTree, EmptyDirectory, OwnedAt;
    var c, m := Locate(f, request.child).path, Locate(f, request.mount).path;
    assert SameAt(g, h, m);
    forall p | !(c <= p) && p != m ensures SameAt(f, h, p) {
      assert SameAt(f, g, p) && SameAt(g, h, p);
    }
    LentKept(f, g, request.child, request.mount, c, m);
    LentKept(f, h, request.child, request.mount, c, m);
  }
}
