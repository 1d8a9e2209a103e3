/** Binding a package manifest to the files staged under the package root. */
module PackageTree {
  import opened Wrappers
  import opened Text

  datatype Name = Name(text: string)

  /** A path below the package root, as its components. */
  type Path = seq<Name>

  /** A component of a link's target, which need not stay below the root. */
  datatype Component = RootDir | CurDir | ParentDir | Normal(name: string)

  /** The components of a target text: a leading slash, a leading dot, and the pieces between
      slashes other than empty ones and further dots. */
  function Components(target: string): seq<Component> {
    var pieces := Split(target, '/');
    (if target != "" && target[0] == '/' then [RootDir] else if pieces[0] == "." then [CurDir] else [])
    + Steps(pieces)
  }

  function Steps(pieces: seq<string>): seq<Component> {
    if pieces == [] then []
    else
      var last := pieces[|pieces| - 1];
      Steps(pieces[..|pieces| - 1])
      + if last == "" || last == "." then [] else if last == ".." then [ParentDir] else [Normal(last)]
  }

  /** Targets are compared component by component. */
  predicate SameTarget(a: string, b: string) { Components(a) == Components(b) }

  /** A trailing slash makes no difference. */
  lemma TrailingSlash(target: string)
    requires target != ""
    ensures SameTarget(target + "/", target)
  {
    var pieces := Split(target, '/');
    JoinSplit(target, '/');
    JoinSnoc(pieces, "", '/');
    assert target + "/" == target + ['/'] + "";
    SplitJoin(pieces + [""], '/');
    assert (pieces + [""])[..|pieces|] == pieces;
  }

  lemma {:induction false} StepsCons(h: string, pieces: seq<string>)
    ensures Steps([h] + pieces) == Steps([h]) + Steps(pieces)
  {
    var all := [h] + pieces;
    if pieces == [] {
      assert all == [h];
    } else {
      assert all[..|all| - 1] == [h] + pieces[..|pieces| - 1];
      StepsCons(h, pieces[..|pieces| - 1]);
    }
  }

  /** A path text that starts with a name of its own: no slash, and no dot. */
  predicate IsPlain(target: string) {
    target != "" && target[0] != '/' && Split(target, '/')[0] != "."
  }

  /** How a text is taken apart from the front: a leading slash, a leading dot, a parent step and
      a name are each a component. */
  lemma ComponentsFrom(h: string, t: string)
    requires '/' !in h && IsPlain(t)
    ensures Components(h + "/" + t)
         == (if h == "" then [RootDir] else if h == "." then [CurDir] else if h == ".." then [ParentDir]
           else [Normal(h)])
            + Components(t)
    ensures h != "" ==>
      Components(h) == if h == "." then [CurDir] else if h == ".." then [ParentDir] else [Normal(h)]
  {
    hide Split, Steps;
    FirstPiece(h, t);
    OnePiece(h);
  }

  lemma RootAlone()
    ensures Components("/") == [RootDir]
  {
    FirstPiece("", "");
    OnePiece("");
    assert "" + "/" + "" == "/";
  }

  /** A second slash or a dot between two steps changes nothing. */
  lemma EmptyStep(name: string, middle: string, t: string)
    requires '/' !in name && name != "" && middle in {"", "."}
    ensures Components(name + "/" + middle + "/" + t) == Components(name + "/" + t)
  {
    hide Split, Steps;
    FirstPiece(name, middle + "/" + t);
    FirstPiece(middle, t);
    FirstPiece(name, t);
    OnePiece(middle);
    assert name + "/" + (middle + "/" + t) == name + "/" + middle + "/" + t;
  }

  lemma OnePiece(h: string)
    requires '/' !in h
    ensures Split(h, '/') == [h]
    ensures Steps([h]) == if h == "" || h == "." then [] else if h == ".." then [ParentDir] else [Normal(h)]
  {
    assert [h][..0] == [] && Steps([]) == [];
  }

  lemma FirstPiece(h: string, t: string)
    requires '/' !in h
    ensures Split(h + "/" + t, '/') == [h] + Split(t, '/')
    ensures Steps(Split(h + "/" + t, '/')) == Steps([h]) + Steps(Split(t, '/'))
  {
    SplitOnceOf(h, t, '/');
    StepsCons(h, Split(t, '/'));
  }

  /** What the file system holds at a path. Hashing is abstract: a file is known by its size
      and digest. */
  datatype Node =
    | File(size: nat, sha256: string)
    | Symlink(target: string)
    | Directory(children: map<Name, Node>)
    | Special

  datatype Identity = Identity(sizeBytes: nat, sha256: string)

  /** The entry at `path`; only directories are searched. */
  function Lookup(node: Node, path: Path): Option<Node> {
    if path == [] then Some(node)
    else if node.Directory? && path[0] in node.children then Lookup(node.children[path[0]], path[1..])
    else None
  }

  /** What the operating system finds at a path that goes on behind the symlink at `at`. */
  type Behind = (Path, string, Path) -> Option<Node>

  /** The entry the operating system finds: symlinks on the way are followed, one at the end of
      the path is not. */
  function Resolve(node: Node, at: Path, path: Path, behind: Behind): Option<Node>
    decreases path
  {
    if path == [] then Some(node)
    else
      match node
      case Directory(children) =>
        if path[0] in children then Resolve(children[path[0]], at + [path[0]], path[1..], behind) else None
      case Symlink(target) => behind(at, target, path)
      case _ => None
  }

  ghost predicate HasDirectory(root: Node, path: Path) {
    var node := Lookup(root, path);
    node.Some? && node.value.Directory?
  }

  /** What the manifest allows an entry below the root to be. */
  predicate IsAllowed(artifacts: map<Path, Identity>, manifest: Path, links: map<Path, string>, path: Path,
      node: Node) {
    match node
    case Directory(_) => true
    case File(_, _) => path == manifest || path in artifacts
    case Symlink(target) => path in links && SameTarget(target, links[path])
    case Special => false
  }

  /** The package itself holds this file. */
  predicate IsStaged(root: Node, path: Path, identity: Identity) {
    Lookup(root, path) == Some(File(identity.sizeBytes, identity.sha256))
  }

  /** The operating system finds this file. */
  predicate IsFound(root: Node, path: Path, identity: Identity, behind: Behind) {
    Resolve(root, [], path, behind) == Some(File(identity.sizeBytes, identity.sha256))
  }

  /** The tree holds nothing but what its manifest allows, and all of the expected links. */
  ghost predicate IsTidy(artifacts: map<Path, Identity>, root: Node, manifest: Path, links: map<Path, string>) {
    && root.Directory?
    && (forall p :: p != [] && Lookup(root, p).Some? ==>
          IsAllowed(artifacts, manifest, links, p, Lookup(root, p).value))
    && (forall p :: p in links ==> HasLink(root, p, links[p]))
  }

  /** The package is exactly what its manifest declares. */
  ghost predicate IsFaithful(artifacts: map<Path, Identity>, root: Node, manifest: Path, links: map<Path, string>) {
    IsTidy(artifacts, root, manifest, links) && forall p :: p in artifacts ==> IsStaged(root, p, artifacts[p])
  }

  /** The tree is tidy and the operating system finds every artifact, in the package or behind a
      link of it. */
  ghost predicate IsAccepted(artifacts: map<Path, Identity>, root: Node, manifest: Path, links: map<Path, string>,
                             behind: Behind) {
    IsTidy(artifacts, root, manifest, links) && forall p :: p in artifacts ==> IsFound(root, p, artifacts[p], behind)
  }

  /** A declared path goes on behind an expected link. */
  predicate RunsThroughLink(links: map<Path, string>, path: Path) {
    exists k :: 0 < k < |path| && path[..k] in links
  }

  /** A symlink with this target stands at `path`. */
  predicate HasLink(root: Node, path: Path, target: string) {
    var node := Lookup(root, path);
    node.Some? && node.value.Symlink? && SameTarget(node.value.target, target)
  }

  lemma {:induction false} LookupChild(root: Node, path: Path, name: Name)
    ensures Lookup(root, path + [name]) ==
            if HasDirectory(root, path) && name in Lookup(root, path).value.children
            then Some(Lookup(root, path).value.children[name]) else None
    decreases path
  {
    if path == [] {
      assert [] + [name] == [name];
    } else {
      assert (path + [name])[1..] == path[1..] + [name];
      if root.Directory? && path[0] in root.children {
        LookupChild(root.children[path[0]], path[1..], name);
      }
    }
  }

  /** The directories of a tree are finitely many. */
  ghost function Directories(node: Node): set<Path> {
    if !node.Directory? then {}
    else {[]} + set k, p | k in node.children && p in Directories(node.children[k]) :: [k] + p
  }

  lemma {:induction false} DirectoriesAll(node: Node, path: Path)
    ensures path in Directories(node) <==> HasDirectory(node, path)
    decreases path
  {
    if path != [] && node.Directory? {
      if path[0] in node.children {
        DirectoriesAll(node.children[path[0]], path[1..]);
      }
      assert path == [path[0]] + path[1..];
      forall k, p | k in node.children && p in Directories(node.children[k]) && [k] + p == path
        ensures k == path[0] && p == path[1..]
      {
        assert ([k] + p)[1..] == p;
      }
    }
  }

  // -------------------------------------------------------------------- the scan

  /** The subdirectories of `dir` among `names`. */
  ghost function Subdirectories(dir: Path, children: map<Name, Node>, names: set<Name>): set<Path> {
    set k | k in names && k in children && children[k].Directory? :: dir + [k]
  }

  ghost function LinksIn(dir: Path, children: map<Name, Node>, names: set<Name>): set<Path> {
    set k | k in names && k in children && children[k].Symlink? :: dir + [k]
  }

  ghost predicate AllAllowed(artifacts: map<Path, Identity>, manifest: Path, links: map<Path, string>,
                             dir: Path, children: map<Name, Node>, names: set<Name>) {
    forall k :: k in names && k in children ==> IsAllowed(artifacts, manifest, links, dir + [k], children[k])
  }

  ghost predicate Distinct(stack: seq<Path>) {
    forall i, j :: 0 <= i < j < |stack| ==> stack[i] != stack[j]
  }

  /** Read one directory in whatever order its entries come. */
  method ScanDirectory(artifacts: map<Path, Identity>, manifest: Path, links: map<Path, string>, dir: Path,
      children: map<Name, Node>)
    returns (ok: bool, found: seq<Path>, observed: set<Path>)
    ensures ok <==> AllAllowed(artifacts, manifest, links, dir, children, children.Keys)
    ensures ok ==> Distinct(found) && (forall p :: p in found <==> p in Subdirectories(dir, children, children.Keys))
    ensures ok ==> observed == LinksIn(dir, children, children.Keys)
  {
    found, observed := [], {};
    var left := children.Keys;
    ghost var done: set<Name> := {};
    while left != {}
      invariant done !! left && done + left == children.Keys
      invariant AllAllowed(artifacts, manifest, links, dir, children, done)
      invariant Distinct(found) && forall p :: p in found <==> p in Subdirectories(dir, children, done)
      invariant observed == LinksIn(dir, children, done)
    {
      var name :| name in left;
      var path, node := dir + [name], children[name];
      if !IsAllowed(artifacts, manifest, links, path, node) {
        return false, found, observed;
      }
      FreshName(dir, children, done, name);
      if node.Directory? {
        found := found + [path];
      } else if node.Symlink? {
        observed := observed + {path};
      }
      left, done := left - {name}, done + {name};
    }
    ok := true;
  }

  lemma FreshName(dir: Path, children: map<Name, Node>, done: set<Name>, name: Name)
    requires name in children && name !in done
    ensures dir + [name] !in Subdirectories(dir, children, done)
    ensures Subdirectories(dir, children, done + {name})
            == Subdirectories(dir, children, done) + if children[name].Directory? then {dir + [name]} else {}
    ensures LinksIn(dir, children, done + {name})
            == LinksIn(dir, children, done) + if children[name].Symlink? then {dir + [name]} else {}
  {
    forall k | dir + [k] == dir + [name] ensures k == name {
      assert (dir + [k])[|dir|] == k;
    }
  }

  /** The state of the walk: directories that are done, and a stack of those still to read. */
  ghost predicate Walking(artifacts: map<Path, Identity>, root: Node, manifest: Path, links: map<Path, string>,
                          stack: seq<Path>, done: set<Path>, observed: set<Path>) {
    Frontier(root, stack, done) && AllRead(artifacts, root, manifest, links, stack, done)
      && SeesLinks(root, done, observed)
  }

  ghost predicate Frontier(root: Node, stack: seq<Path>, done: set<Path>) {
    && ([] in done || [] in stack) && Distinct(stack)
    && (forall p :: p in stack ==> p !in done)
    && (forall p {:trigger IsKnown(root, done, p)} :: p in stack || p in done ==> IsKnown(root, done, p))
  }

  /** A directory that was found by reading the one above it. */
  ghost predicate IsKnown(root: Node, done: set<Path>, p: Path) {
    HasDirectory(root, p) && (p != [] ==> Parent(p) in done)
  }

  ghost predicate AllRead(artifacts: map<Path, Identity>, root: Node, manifest: Path, links: map<Path, string>,
      stack: seq<Path>, done: set<Path>) {
    forall d :: d in done ==> IsRead(artifacts, root, manifest, links, d, stack, done)
  }

  ghost predicate SeesLinks(root: Node, done: set<Path>, observed: set<Path>) {
    forall p :: p in observed <==> p != [] && Parent(p) in done && IsLink(root, p)
  }

  function Parent(path: Path): Path
    requires path != []
  {
    path[..|path| - 1]
  }

  ghost predicate IsLink(root: Node, path: Path) {
    Lookup(root, path).Some? && Lookup(root, path).value.Symlink?
  }

  /** Every entry of a read directory is allowed, and its subdirectories are known. */
  ghost predicate IsRead(artifacts: map<Path, Identity>, root: Node, manifest: Path, links: map<Path, string>,
                         dir: Path, stack: seq<Path>, done: set<Path>) {
    && HasDirectory(root, dir)
    && var children := Lookup(root, dir).value.children;
       && AllAllowed(artifacts, manifest, links, dir, children, children.Keys)
       && forall p :: p in Subdirectories(dir, children, children.Keys) ==> p in stack || p in done
  }

  /** Reading the directory on top of the stack. */
  lemma WalkStep(artifacts: map<Path, Identity>, root: Node, manifest: Path, links: map<Path, string>,
                 stack: seq<Path>, done: set<Path>, observed: set<Path>, found: seq<Path>)
    requires Walking(artifacts, root, manifest, links, stack, done, observed) && stack != []
    requires var dir := stack[|stack| - 1];
             && HasDirectory(root, dir)
             && var children := Lookup(root, dir).value.children;
                && AllAllowed(artifacts, manifest, links, dir, children, children.Keys)
                && Distinct(found) && (forall p :: p in found <==> p in Subdirectories(dir, children, children.Keys))
    ensures var dir := stack[|stack| - 1];
            Walking(artifacts, root, manifest, links, stack[..|stack| - 1] + found, done + {dir},
                    observed + LinksIn(dir, Lookup(root, dir).value.children, Lookup(root, dir).value.children.Keys))
  {
    hide Frontier, IsRead, Lookup, AllAllowed, IsLink;
    var dir, rest := stack[|stack| - 1], stack[..|stack| - 1];
    var children := Lookup(root, dir).value.children;
    FrontierStep(root, stack, done, found);
    assert stack == rest + [dir];
    forall d | d in done + {dir} ensures IsRead(artifacts, root, manifest, links, d, rest + found, done + {dir}) {
      ReadStep(artifacts, root, manifest, links, d, stack, done, found);
    }
    var observed' := observed + LinksIn(dir, children, children.Keys);
    forall p ensures p in observed' <==> p != [] && Parent(p) in done + {dir} && IsLink(root, p) {
      LinkStep(root, dir, p);
    }
  }

  lemma FrontierStep(root: Node, stack: seq<Path>, done: set<Path>, found: seq<Path>)
    requires Frontier(root, stack, done) && stack != [] && HasDirectory(root, stack[|stack| - 1]) && Distinct(found)
    requires var dir := stack[|stack| - 1];
             var children := Lookup(root, dir).value.children;
             forall p :: p in found <==> p in Subdirectories(dir, children, children.Keys)
    ensures Frontier(root, stack[..|stack| - 1] + found, done + {stack[|stack| - 1]})
  {
    var dir, rest := stack[|stack| - 1], stack[..|stack| - 1];
    assert dir in stack && stack == rest + [dir];
    forall p | p in found ensures p != [] && Parent(p) == dir && HasDirectory(root, p) {
      FoundBelow(root, dir, p);
    }
    hide HasDirectory, Subdirectories, Lookup;
    assert forall p :: p in rest ==> p in stack;
    forall p | p in rest + found || p in done + {dir} ensures IsKnown(root, done + {dir}, p) {
      if p !in found {
        assert IsKnown(root, done, p);
      }
    }
    assert forall p :: p in found ==> p !in stack && p !in done by {
      forall p | p in stack || p in done ensures p !in found {
        assert IsKnown(root, done, p);
      }
    }
    hide IsKnown;
    DistinctConcat(rest, found);
  }

  lemma ReadStep(artifacts: map<Path, Identity>, root: Node, manifest: Path, links: map<Path, string>,
                 d: Path, stack: seq<Path>, done: set<Path>, found: seq<Path>)
    requires stack != [] && d in done + {stack[|stack| - 1]}
    requires d in done ==> IsRead(artifacts, root, manifest, links, d, stack, done)
    requires var dir := stack[|stack| - 1];
             && HasDirectory(root, dir)
             && var children := Lookup(root, dir).value.children;
                && AllAllowed(artifacts, manifest, links, dir, children, children.Keys)
                && forall p :: p in found <==> p in Subdirectories(dir, children, children.Keys)
    ensures IsRead(artifacts, root, manifest, links, d, stack[..|stack| - 1] + found, done + {stack[|stack| - 1]})
  {
    hide AllAllowed, Lookup;
    var dir, rest := stack[|stack| - 1], stack[..|stack| - 1];
    assert stack == rest + [dir];
  }

  lemma FoundBelow(root: Node, dir: Path, p: Path)
    requires HasDirectory(root, dir)
    requires var children := Lookup(root, dir).value.children; p in Subdirectories(dir, children, children.Keys)
    ensures p != [] && Parent(p) == dir && HasDirectory(root, p)
  {
    var children := Lookup(root, dir).value.children;
    var k :| k in children && children[k].Directory? && p == dir + [k];
    LookupChild(root, dir, k);
  }

  lemma DistinctConcat(a: seq<Path>, b: seq<Path>)
    requires Distinct(a) && Distinct(b) && forall p :: p in b ==> p !in a
    ensures Distinct(a + b)
  {
    assert forall i :: 0 <= i < |a| ==> a[i] in a;
    assert forall i :: 0 <= i < |b| ==> b[i] in b;
  }

  lemma LinkStep(root: Node, dir: Path, p: Path)
    requires HasDirectory(root, dir)
    ensures var children := Lookup(root, dir).value.children;
            p in LinksIn(dir, children, children.Keys) <==> p != [] && Parent(p) == dir && IsLink(root, p)
  {
    if p != [] && Parent(p) == dir {
      assert p == dir + [p[|p| - 1]];
      LookupChild(root, dir, p[|p| - 1]);
    }
    forall k | p == dir + [k] ensures p != [] && Parent(p) == dir && p[|p| - 1] == k {
      LookupChild(root, dir, k);
    }
  }

  /** The walk reads every directory exactly once and terminates. */
  method WalkTree(artifacts: map<Path, Identity>, root: Node, manifest: Path, links: map<Path, string>)
    returns (ok: bool, observed: set<Path>)
    requires root.Directory?
    ensures ok <==> forall p :: p != [] && Lookup(root, p).Some? ==>
                      IsAllowed(artifacts, manifest, links, p, Lookup(root, p).value)
    ensures ok ==> forall p :: p in observed <==> p != [] && IsLink(root, p)
  {
    var stack: seq<Path> := [[]];
    ghost var done: set<Path> := {};
    observed := {};
    while stack != []
      invariant Walking(artifacts, root, manifest, links, stack, done, observed)
      decreases Directories(root) - done
    {
      var dir := stack[|stack| - 1];
      assert dir in stack && IsKnown(root, done, dir);
      var children := Lookup(root, dir).value.children;
      DirectoriesAll(root, dir);
      var fine, found, seen := ScanDirectory(artifacts, manifest, links, dir, children);
      if !fine {
        NotAllowed(artifacts, root, manifest, links, dir);
        return false, observed;
      }
      WalkStep(artifacts, root, manifest, links, stack, done, observed, found);
      stack := stack[..|stack| - 1] + found;
      observed := observed + seen;
      done := done + {dir};
    }
    WalkDone(artifacts, root, manifest, links, done, observed);
    ok := true;
  }

  lemma NotAllowed(artifacts: map<Path, Identity>, root: Node, manifest: Path, links: map<Path, string>, dir: Path)
    requires HasDirectory(root, dir)
    requires var children := Lookup(root, dir).value.children;
             !AllAllowed(artifacts, manifest, links, dir, children, children.Keys)
    ensures exists p :: && p != [] && Lookup(root, p).Some?
                        && !IsAllowed(artifacts, manifest, links, p, Lookup(root, p).value)
  {
    var children := Lookup(root, dir).value.children;
    var k :| k in children && !IsAllowed(artifacts, manifest, links, dir + [k], children[k]);
    LookupChild(root, dir, k);
    assert dir + [k] != [];
  }

  lemma WalkDone(artifacts: map<Path, Identity>, root: Node, manifest: Path, links: map<Path, string>, done: set<Path>,
      observed: set<Path>)
    requires Walking(artifacts, root, manifest, links, [], done, observed)
    ensures forall p :: p != [] && Lookup(root, p).Some? ==>
              IsAllowed(artifacts, manifest, links, p, Lookup(root, p).value)
    ensures forall p :: p in observed <==> p != [] && IsLink(root, p)
  {
    forall p | p != [] && Lookup(root, p).Some?
      ensures Parent(p) in done && IsAllowed(artifacts, manifest, links, p, Lookup(root, p).value)
    {
      EntryRead(artifacts, root, manifest, links, done, observed, p);
    }
  }

  /** Once the stack is empty, every entry of the tree has been looked at. */
  lemma {:induction false} EntryRead(artifacts: map<Path, Identity>, root: Node, manifest: Path,
                                     links: map<Path, string>,
                                     done: set<Path>, observed: set<Path>, p: Path)
    requires Walking(artifacts, root, manifest, links, [], done, observed) && p != [] && Lookup(root, p).Some?
    ensures Parent(p) in done && IsAllowed(artifacts, manifest, links, p, Lookup(root, p).value)
    decreases |p|
  {
    hide Lookup, IsAllowed, IsKnown;
    var dir, k := Parent(p), p[|p| - 1];
    assert p == dir + [k];
    LookupChild(root, dir, k);
    if dir != [] {
      EntryRead(artifacts, root, manifest, links, done, observed, dir);
      var above, name := Parent(dir), dir[|dir| - 1];
      assert dir == above + [name];
      LookupChild(root, above, name);
      assert IsRead(artifacts, root, manifest, links, above, [], done);
      var children := Lookup(root, above).value.children;
      assert dir in Subdirectories(above, children, children.Keys);
    }
    assert IsRead(artifacts, root, manifest, links, dir, [], done);
  }

  /** Check the declared artifacts one after another. */
  method CheckArtifacts(artifacts: map<Path, Identity>, root: Node, behind: Behind) returns (ok: bool)
    ensures ok <==> forall p :: p in artifacts ==> IsFound(root, p, artifacts[p], behind)
  {
    var left := artifacts.Keys;
    while left != {}
      invariant left <= artifacts.Keys
      invariant forall p :: p in artifacts && p !in left ==> IsFound(root, p, artifacts[p], behind)
    {
      var path :| path in left;
      left := left - {path};
      var node := Resolve(root, [], path, behind);
      if node.None? || !node.value.File? {
        return false;
      }
      if node.value.size != artifacts[path].sizeBytes || node.value.sha256 != artifacts[path].sha256 {
        return false;
      }
    }
    ok := true;
  }

  /** The check accepts exactly the tidy trees whose artifacts are all found. */
  method VerifyPackageTree(artifacts: map<Path, Identity>, root: Node, manifest: Path, links: map<Path, string>,
                           behind: Behind)
    returns (ok: bool)
    ensures ok <==> IsAccepted(artifacts, root, manifest, links, behind)
  {
    hide SameTarget, Resolve;
    if !root.Directory? {
      return false;
    }
    var found := CheckArtifacts(artifacts, root, behind);
    if !found {
      return false;
    }
    var fine, observed := WalkTree(artifacts, root, manifest, links);
    if !fine {
      return false;
    }
    forall p | p in links ensures p in observed <==> HasLink(root, p, links[p]) {
      if p in observed {
        assert IsAllowed(artifacts, manifest, links, p, Lookup(root, p).value);
      }
    }
    ok := forall p :: p in links ==> p in observed;
    assert ok <==> forall p :: p in links ==> HasLink(root, p, links[p]);
    assert forall p :: p in artifacts ==> IsFound(root, p, artifacts[p], behind);
    assert forall p :: p != [] && Lookup(root, p).Some? ==>
             IsAllowed(artifacts, manifest, links, p, Lookup(root, p).value);
  }

  // ------------------------------------------------------------ what acceptance means

  /** The package, by kinds of entries: its files are declared, or the manifest itself; it holds
      nothing but files, directories and symlinks; its symlinks stand where they are expected
      and nowhere else, with the expected components. */
  ghost predicate MatchesManifest(artifacts: map<Path, Identity>, root: Node, manifest: Path,
      links: map<Path, string>) {
    && root.Directory?
    && (forall p :: Lookup(root, p).Some? && Lookup(root, p).value.File? ==> p in artifacts.Keys + {manifest})
    && (forall p :: Lookup(root, p).Some? ==> !Lookup(root, p).value.Special?)
    && (forall p :: p in links.Keys <==> Lookup(root, p).Some? && Lookup(root, p).value.Symlink?)
    && (forall p :: p in links && Lookup(root, p).Some? && Lookup(root, p).value.Symlink? ==>
          Components(Lookup(root, p).value.target) == Components(links[p]))
  }

  /** The check accepts exactly the packages that match their manifest and whose artifacts are
      found as files of their declared size and hash. */
  lemma AcceptedExactly(artifacts: map<Path, Identity>, root: Node, manifest: Path, links: map<Path, string>,
      behind: Behind)
    ensures IsAccepted(artifacts, root, manifest, links, behind)
       <==> && MatchesManifest(artifacts, root, manifest, links)
            && forall p :: p in artifacts ==>
                 var node := Resolve(root, [], p, behind);
                 && node.Some? && node.value.File?
                 && node.value.size == artifacts[p].sizeBytes && node.value.sha256 == artifacts[p].sha256
  {
    hide Components, Resolve;
    if IsTidy(artifacts, root, manifest, links) {
      forall p ensures Lookup(root, p).Some? ==> (p in links.Keys <==> Lookup(root, p).value.Symlink?) {
        if p in links {
          assert HasLink(root, p, links[p]);
        }
      }
      forall p | p in links ensures Lookup(root, p).Some? {
        assert HasLink(root, p, links[p]);
      }
    }
    if MatchesManifest(artifacts, root, manifest, links) {
      forall p | p in links ensures HasLink(root, p, links[p]) {
        assert p in links.Keys;
      }
      forall p | p != [] && Lookup(root, p).Some?
        ensures IsAllowed(artifacts, manifest, links, p, Lookup(root, p).value)
      {
        assert p in links.Keys <==> Lookup(root, p).value.Symlink?;
      }
    }
  }

  /** An undeclared file, a device or an unexpected link in the root directory, whatever else
      is there, is refused. */
  lemma Undeclared(artifacts: map<Path, Identity>, root: Node, manifest: Path, links: map<Path, string>,
      behind: Behind, name: Name)
    requires root.Directory? && name in root.children
    ensures IsAccepted(artifacts, root, manifest, links, behind) ==>
      match root.children[name]
      case File(_, _) => [name] == manifest || [name] in artifacts
      case Symlink(_) => [name] in links
      case Directory(_) => [name] !in links
      case Special => false
  {
    LookupChild(root, [], name);
    assert [] + [name] == [name];
    AcceptedExactly(artifacts, root, manifest, links, behind);
  }

  /** One file is accepted as the manifest and refused under another name. */
  lemma LoneFile(behind: Behind)
    ensures var root := Directory(map[Name("a") := File(3, "h")]);
      IsAccepted(map[], root, [Name("a")], map[], behind) && !IsAccepted(map[], root, [Name("b")], map[], behind)
    ensures !IsAccepted(map[], Directory(map[Name("a") := Special]), [Name("a")], map[], behind)
  {
    var root := Directory(map[Name("a") := File(3, "h")]);
    Undeclared(map[], root, [Name("b")], map[], behind, Name("a"));
    Undeclared(map[], Directory(map[Name("a") := Special]), [Name("a")], map[], behind, Name("a"));
    forall p | p != [] && Lookup(root, p).Some? ensures p == [Name("a")] {
      assert p[0] == Name("a") && Lookup(File(3, "h"), p[1..]).Some?;
      assert p == [Name("a")] + p[1..];
    }
    assert [Name("a")][1..] == [];
    assert Lookup(root, [Name("a")]) == Some(File(3, "h"));
    assert IsTidy(map[], root, [Name("a")], map[]);
  }

  // --------------------------------------------------------------- links on the way

  /** The two lookups differ only where a path goes on behind a symlink. */
  lemma {:induction false} ResolveIsLookup(node: Node, at: Path, path: Path, behind: Behind)
    requires forall k :: 0 <= k < |path| ==> !IsLink(node, path[..k])
    ensures Resolve(node, at, path, behind) == Lookup(node, path)
    decreases path
  {
    if path != [] {
      assert path[..0] == [] && !IsLink(node, path[..0]);
      if node.Directory? && path[0] in node.children {
        var child, rest := node.children[path[0]], path[1..];
        forall k | 0 <= k < |rest| ensures !IsLink(child, rest[..k]) {
          assert path[..k + 1][0] == path[0] && path[..k + 1][1..] == rest[..k];
          assert !IsLink(node, path[..k + 1]);
        }
        ResolveIsLookup(child, at + [path[0]], rest, behind);
      }
    }
  }

  /** At a symlink with more path to go, what the operating system finds behind it counts. */
  lemma {:induction false} ResolveAtLink(node: Node, at: Path, path: Path, k: nat, behind: Behind)
    requires k < |path| && IsLink(node, path[..k])
    ensures Resolve(node, at, path, behind) == behind(at + path[..k], Lookup(node, path[..k]).value.target, path[k..])
    decreases k
  {
    if k == 0 {
      assert path[..0] == [] && at + path[..0] == at && path[0..] == path;
    } else {
      assert path[..k][0] == path[0] && path[..k][1..] == path[1..][..k - 1];
      ResolveAtLink(node.children[path[0]], at + [path[0]], path[1..], k - 1, behind);
      assert at + [path[0]] + path[1..][..k - 1] == at + path[..k] && path[1..][k - 1..] == path[k..];
    }
  }

  /** Behind a symlink the package itself holds nothing. */
  lemma {:induction false} NothingBehindLink(node: Node, path: Path, k: nat)
    requires k < |path| && IsLink(node, path[..k])
    ensures Lookup(node, path).None?
    decreases k
  {
    if k > 0 {
      assert path[..k][0] == path[0] && path[..k][1..] == path[1..][..k - 1];
      NothingBehindLink(node.children[path[0]], path[1..], k - 1);
    } else {
      assert path[..0] == [];
    }
  }

  /** A package is faithful to its manifest exactly when the check accepts it and no artifact is
      declared behind an expected link. */
  lemma FaithfulExactly(artifacts: map<Path, Identity>, root: Node, manifest: Path, links: map<Path, string>,
                        behind: Behind)
    ensures IsFaithful(artifacts, root, manifest, links)
       <==> && IsAccepted(artifacts, root, manifest, links, behind)
            && forall p :: p in artifacts ==> !RunsThroughLink(links, p)
  {
    if IsTidy(artifacts, root, manifest, links) {
      forall p | p in artifacts
        ensures RunsThroughLink(links, p) ==> Lookup(root, p).None?
        ensures !RunsThroughLink(links, p) ==> Resolve(root, [], p, behind) == Lookup(root, p)
      {
        LinkOnTheWay(artifacts, root, manifest, links, behind, p);
      }
    }
  }

  lemma LinkOnTheWay(artifacts: map<Path, Identity>, root: Node, manifest: Path, links: map<Path, string>,
                     behind: Behind, p: Path)
    requires IsTidy(artifacts, root, manifest, links)
    ensures RunsThroughLink(links, p) ==> Lookup(root, p).None?
    ensures !RunsThroughLink(links, p) ==> Resolve(root, [], p, behind) == Lookup(root, p)
  {
    hide SameTarget, Resolve;
    if RunsThroughLink(links, p) {
      var k :| 0 < k < |p| && p[..k] in links;
      assert HasLink(root, p[..k], links[p[..k]]);
      NothingBehindLink(root, p, k);
    } else {
      forall k | 0 <= k < |p| ensures !IsLink(root, p[..k]) {
        assert k == 0 ==> p[..k] == [];
        assert k > 0 ==> p[..k] !in links;
        if k > 0 && Lookup(root, p[..k]).Some? {
          assert IsAllowed(artifacts, manifest, links, p[..k], Lookup(root, p[..k]).value);
        }
      }
      ResolveIsLookup(root, [], p, behind);
    }
  }

  /** A package whose one artifact lies behind its one link: accepted, though the package holds
      no file at all. */
  lemma ArtifactBehindLink(behind: Behind)
    requires behind([Name("lib")], "/opt", [Name("x")]) == Some(File(1, "h"))
    ensures var lib, x := Name("lib"), Name("x");
            var root := Directory(map[lib := Symlink("/opt")]);
            var artifacts := map[[lib, x] := Identity(1, "h")];
            var links := map[[lib] := "/opt"];
            && IsAccepted(artifacts, root, [Name("manifest")], links, behind)
            && !IsFaithful(artifacts, root, [Name("manifest")], links)
  {
    hide Components;
    var lib, x := Name("lib"), Name("x");
    var root := Directory(map[lib := Symlink("/opt")]);
    var artifacts := map[[lib, x] := Identity(1, "h")];
    var links := map[[lib] := "/opt"];
    assert [lib, x][1..] == [x] && [lib][1..] == [];
    assert Lookup(root, [lib]) == Some(Symlink("/opt"));
    forall p | p != [] && Lookup(root, p).Some? ensures p == [lib] {
      assert p[0] == lib && Lookup(Symlink("/opt"), p[1..]).Some?;
      assert p == [lib] + p[1..];
    }
    assert [] + [lib] == [lib];
    assert Resolve(Symlink("/opt"), [lib], [x], behind) == Some(File(1, "h"));
    assert IsFound(root, [lib, x], Identity(1, "h"), behind);
    assert HasLink(root, [lib], "/opt");
    assert IsTidy(artifacts, root, [Name("manifest")], links);
    assert Lookup(Symlink("/opt"), [x]) == None && Lookup(root, [lib, x]) == None;
    assert [lib, x] in artifacts && !IsStaged(root, [lib, x], artifacts[[lib, x]]);
    assert !IsFaithful(artifacts, root, [Name("manifest")], links);
    assert forall p :: p in artifacts ==> IsFound(root, p, artifacts[p], behind);
  }
}
