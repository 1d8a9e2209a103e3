/** Which host suites and which target builds a set of changed files asks for. */
module TargetSelection {
  import opened Wrappers
  import opened Text
  import opened ModuleWalk

  datatype Package = Package(name: string)

  type Dependencies = map<Package, set<Package>>

  /** A directory or file path as its components. */
  type Path = seq<string>

  // ------------------------------------------------------------------- ownership

  /** A workspace member and the directory of its manifest. */
  datatype Member = Member(package: Package, directory: Path)

  /** Member `k` holds the file, no member that does has a longer directory, and no earlier
      one has an equally long one. */
  ghost predicate IsOwner(path: Path, members: seq<Member>, k: nat) {
    && k < |members| && members[k].directory <= path
    && forall j :: 0 <= j < |members| && members[j].directory <= path ==>
         if j < k then |members[j].directory| < |members[k].directory|
             else |members[j].directory| <= |members[k].directory|
  }

  /** The package that owns a file. */
  ghost function OwnerOf(path: Path, members: seq<Member>): Option<Package> {
    if exists k: nat :: IsOwner(path, members, k) then
      var k: nat :| IsOwner(path, members, k);
      Some(members[k].package)
    else None
  }

  lemma OwnerIs(path: Path, members: seq<Member>, k: nat)
    requires IsOwner(path, members, k)
    ensures OwnerOf(path, members) == Some(members[k].package)
  {
    forall j | IsOwner(path, members, j) ensures j == k {
    }
  }

  /** The member whose directory is the longest that holds the file; nobody owns a file that
      no member's directory holds. */
  method OwningPackage(path: Path, members: seq<Member>) returns (best: Option<Package>)
    ensures best == OwnerOf(path, members)
    ensures best.None? <==> forall j :: 0 <= j < |members| ==> !(members[j].directory <= path)
  {
    var found: Option<nat> := None;
    for i := 0 to |members|
      invariant found.Some? ==> found.value < i && IsOwner(path, members[..i], found.value)
      invariant found.None? ==> forall j :: 0 <= j < i ==> !(members[j].directory <= path)
    {
      if members[i].directory <= path
         && (found.None? || |members[i].directory| > |members[found.value].directory|) {
        found := Some(i);
      }
    }
    assert members[..|members|] == members;
    if found.Some? {
      OwnerIs(path, members, found.value);
      best := Some(members[found.value].package);
    } else {
      best := None;
    }
  }

  // --------------------------------------------------- reverse-dependency closure

  /** A suite that must run makes the suites of everything that depends on it run. */
  ghost predicate ClosedUnderDependents(dependencies: Dependencies, s: set<Package>) {
    forall p, q :: p in s && q in dependencies && p in dependencies[q] ==> q in s
  }

  /** `p` depends on a seed through some chain of dependencies, possibly empty. */
  ghost predicate DependsOn(dependencies: Dependencies, seeds: set<Package>, chain: seq<Package>, p: Package) {
    if chain == [] then p in seeds
    else && p in dependencies && chain[|chain| - 1] in dependencies[p]
         && DependsOn(dependencies, seeds, chain[..|chain| - 1], chain[|chain| - 1])
  }

  ghost predicate Required(dependencies: Dependencies, seeds: set<Package>, p: Package) {
    exists chain :: DependsOn(dependencies, seeds, chain, p)
  }

  function Dependents(dependencies: Dependencies, p: Package): set<Package> {
    set q | q in dependencies && p in dependencies[q]
  }

  /** The worklist collects exactly the required packages. */
  method Closure(dependencies: Dependencies, seeds: set<Package>) returns (required: set<Package>)
    ensures forall p :: p in required <==> Required(dependencies, seeds, p)
    ensures seeds <= required && ClosedUnderDependents(dependencies, required)
    ensures forall s :: seeds <= s && ClosedUnderDependents(dependencies, s) ==> required <= s
  {
    required := {};
    var queue := SetToSeq(seeds);
    forall p | p in queue ensures Required(dependencies, seeds, p) {
      assert DependsOn(dependencies, seeds, [], p);
    }
    while queue != []
      invariant forall p :: p in queue || p in required ==> Required(dependencies, seeds, p)
      invariant forall p :: p in seeds ==> p in required || p in queue
      invariant forall p, q :: p in required && q in dependencies && p in dependencies[q] ==>
                  q in required || q in queue
      invariant required <= seeds + dependencies.Keys && (forall p :: p in queue ==> p in seeds + dependencies.Keys)
      decreases (seeds + dependencies.Keys) - required, |queue|
    {
      var name := queue[0];
      assert queue == [name] + queue[1..];
      queue := queue[1..];
      if name !in required {
        required := required + {name};
        var more := SetToSeq(Dependents(dependencies, name));
        forall p | p in more ensures Required(dependencies, seeds, p) {
          var chain :| DependsOn(dependencies, seeds, chain, name);
          assert (chain + [name])[..|chain|] == chain;
          assert DependsOn(dependencies, seeds, chain + [name], p);
        }
        queue := queue + more;
      }
    }
    forall p | Required(dependencies, seeds, p) ensures p in required {
      RequiredIn(dependencies, seeds, required, p);
    }
    forall s | seeds <= s && ClosedUnderDependents(dependencies, s) ensures required <= s {
      forall p | p in required ensures p in s {
        RequiredIn(dependencies, seeds, s, p);
      }
    }
  }

  /** Every closed set over the seeds holds the required packages. */
  lemma RequiredIn(dependencies: Dependencies, seeds: set<Package>, s: set<Package>, p: Package)
    requires Required(dependencies, seeds, p) && seeds <= s && ClosedUnderDependents(dependencies, s)
    ensures p in s
  {
    var chain :| DependsOn(dependencies, seeds, chain, p);
    ChainIn(dependencies, seeds, s, chain, p);
  }

  lemma {:induction false} ChainIn(dependencies: Dependencies, seeds: set<Package>, s: set<Package>,
      chain: seq<Package>, p: Package)
    requires DependsOn(dependencies, seeds, chain, p) && seeds <= s && ClosedUnderDependents(dependencies, s)
    ensures p in s
  {
    if chain != [] {
      ChainIn(dependencies, seeds, s, chain[..|chain| - 1], chain[|chain| - 1]);
    }
  }

  method SetToSeq<T>(s: set<T>) returns (r: seq<T>)
    ensures forall x :: x in r <==> x in s
  {
    r := [];
    var left := s;
    while left != {}
      invariant left <= s && forall x :: x in r <==> x in s - left
    {
      var x :| x in left;
      r := r + [x];
      left := left - {x};
    }
  }

  // ------------------------------------------------------------------ host suites

  /** What `cargo metadata` says: the members, in its order, and who depends on whom. */
  datatype Workspace = Workspace(members: seq<Member>, dependencies: Dependencies)

  /** How one changed path bears on the host suites. */
  datatype Bearing = Irrelevant | Owned(package: Package) | Unclear

  predicate StartsWith(s: string, prefix: string) { prefix <= s }

  predicate HasNoHostEffect(path: string) {
    StartsWith(path, "docs/") || StartsWith(path, "platforms/") || StartsWith(path, ".github/")
  }

  /** Outside `engine/` only documentation, platform and workflow files are known to be
      harmless; inside it the owner decides. `resolve` makes a path absolute. */
  ghost function BearingOf(path: string, resolve: string -> Path, members: seq<Member>): Bearing {
    if !StartsWith(path, "engine/") then
      if HasNoHostEffect(path) then Irrelevant else Unclear
    else
      var owner := OwnerOf(resolve(path), members);
      if owner.None? then Unclear else Owned(owner.value)
  }

  method FindBearing(path: string, resolve: string -> Path, members: seq<Member>) returns (bearing: Bearing)
    ensures bearing == BearingOf(path, resolve, members)
  {
    if !StartsWith(path, "engine/") {
      return if HasNoHostEffect(path) then Irrelevant else Unclear;
    }
    var owner := OwningPackage(resolve(path), members);
    bearing := if owner.None? then Unclear else Owned(owner.value);
  }

  /** Some changed path cannot be placed. */
  ghost predicate IsUnclear(workspace: Workspace, resolve: string -> Path, changed: seq<string>) {
    exists i :: 0 <= i < |changed| && BearingOf(changed[i], resolve, workspace.members) == Unclear
  }

  /** The owners of the changed files. */
  ghost function Seeds(workspace: Workspace, resolve: string -> Path, changed: seq<string>): set<Package> {
    set i | 0 <= i < |changed| && BearingOf(changed[i], resolve, workspace.members).Owned?
      :: BearingOf(changed[i], resolve, workspace.members).package
  }

  /** What the selection means: every suite (`None`) as soon as a path is unclear, and
      otherwise the owners of the changed files and all that depends on them. */
  ghost predicate IsHostSelection(workspace: Workspace, resolve: string -> Path, changed: seq<string>,
      r: Option<set<Package>>) {
    if IsUnclear(workspace, resolve, changed) then r.None?
    else
      && r.Some?
      && forall p :: p in r.value <==> Required(workspace.dependencies, Seeds(workspace, resolve, changed), p)
  }

  /** The host suites a change needs, failing closed to every suite. */
  method HostSuites(graph: Option<Workspace>, resolve: string -> Path, changed: seq<string>)
    returns (r: Option<set<Package>>)
    ensures graph.None? ==> r.None?
    ensures graph.Some? ==> IsHostSelection(graph.value, resolve, changed, r)
  {
    hide BearingOf;
    if graph.None? {
      return None;
    }
    var members := graph.value.members;
    var seeds: set<Package> := {};
    for i := 0 to |changed|
      invariant forall k :: 0 <= k < i ==> BearingOf(changed[k], resolve, members) != Unclear
      invariant seeds == set k | 0 <= k < i && BearingOf(changed[k], resolve, members).Owned?
                           :: BearingOf(changed[k], resolve, members).package
    {
      var bearing := FindBearing(changed[i], resolve, members);
      match bearing
      case Irrelevant =>
      case Unclear => return None;
      case Owned(package) => seeds := seeds + {package};
    }
    var required := Closure(graph.value.dependencies, seeds);
    r := Some(required);
  }

  /** A larger change never needs fewer suites; `None` is the top. */
  lemma HostSuitesMonotone(workspace: Workspace, resolve: string -> Path, changed: seq<string>, more: seq<string>,
                           r: Option<set<Package>>, r': Option<set<Package>>)
    requires IsHostSelection(workspace, resolve, changed, r) && IsHostSelection(workspace, resolve, changed + more, r')
    ensures r'.None? || (r.Some? && r.value <= r'.value)
  {
    hide BearingOf;
    var all, members := changed + more, workspace.members;
    assert forall i :: 0 <= i < |changed| ==> all[i] == changed[i];
    if r'.Some? {
      var seeds, seeds' := Seeds(workspace, resolve, changed), Seeds(workspace, resolve, all);
      assert seeds <= seeds' by {
        forall p | p in seeds ensures p in seeds' {
          var i :| 0 <= i < |changed| && BearingOf(changed[i], resolve, members) == Owned(p);
          assert BearingOf(all[i], resolve, members) == Owned(p);
        }
      }
      forall p | p in r.value ensures p in r'.value {
        var chain :| DependsOn(workspace.dependencies, seeds, chain, p);
        MoreSeeds(workspace.dependencies, seeds, seeds', chain, p);
      }
    }
  }

  lemma {:induction false} MoreSeeds(dependencies: Dependencies, seeds: set<Package>, seeds': set<Package>,
      chain: seq<Package>, p: Package)
    requires DependsOn(dependencies, seeds, chain, p) && seeds <= seeds'
    ensures DependsOn(dependencies, seeds', chain, p)
  {
    if chain != [] {
      MoreSeeds(dependencies, seeds, seeds', chain[..|chain| - 1], chain[|chain| - 1]);
    }
  }

  // ---------------------------------------------------------------- target builds

  datatype Tier = Compile | Link

  /** A lane that must be run, at some tier. */
  datatype Demand = Demand(target: Platform, tier: Tier)

  /** Why a path makes a demand. */
  datatype Why = Gradle | Cdylib | GatedCrate | Condition

  datatype Reason = Reason(path: string, why: Why)

  /** A target build with its tier and everything that asked for it. */
  datatype Requirement = Requirement(tier: Tier, reasons: set<Reason>)

  const ANDROID: Platform := Platform("android")
  const ANDROID_JAVA: Platform := Platform("android-java")

  predicate IsNameChar(c: char) { '0' <= c <= '9' || 'a' <= c <= 'z' || 'A' <= c <= 'Z' || c == '_' || c == '-' }

  /** The crate a path under `engine/crates/` belongs to. */
  function CrateOf(path: string): Option<string> {
    var prefix := "engine/crates/";
    if !StartsWith(path, prefix) then None
    else
      var rest := path[|prefix|..];
      var i := Find(rest, '/', 0);
      if 0 < i < |rest| && forall j :: 0 <= j < i ==> IsNameChar(rest[j]) then Some(rest[..i]) else None
  }

  predicate EndsWith(s: string, suffix: string) { |suffix| <= |s| && s[|s| - |suffix|..] == suffix }

  predicate OccursAt(s: string, part: string, i: nat) { i + |part| <= |s| && s[i..i + |part|] == part }

  predicate Contains(s: string, part: string) { exists i :: 0 <= i <= |s| && OccursAt(s, part, i) }

  /** The checkout: which paths are files, and what each crate's directory holds. */
  datatype Tree = Tree(isFile: string -> bool, crates: string -> Crate)

  ghost predicate ValidTree(tree: Tree) { forall c :: ValidCrate(tree.crates(c)) }

  predicate IsCrateSource(path: string, crate: string) {
    EndsWith(path, ".rs") && Contains(path, "engine/crates/" + crate + "/src/")
  }

  predicate IsGated(crate: string) { crate == "core" || crate == "graphics" || crate == "platform" || crate == "capi" }

  /** A demand together with its reason. */
  datatype Ask = Ask(demand: Demand, reason: Reason)

  /** A path asks for the platforms' Java half, for what its crate is, and for every platform
      that guards a declaration path to it or is mentioned in it. */
  ghost predicate Asks(tree: Tree, path: string, a: Ask) {
    && a.reason.path == path
    && match a.reason.why
       case Gradle => StartsWith(path, "platforms/android/") && a.demand == Demand(ANDROID_JAVA, Compile)
       case Cdylib => CrateOf(path) == Some("android-jni") && a.demand == Demand(ANDROID, Link)
       case GatedCrate => CrateOf(path).Some? && IsGated(CrateOf(path).value) && a.demand == Demand(ANDROID, Compile)
       case Condition =>
         && IsExamined(tree, path) && a.demand.tier == Compile
         && Guards(tree.crates(CrateOf(path).value), File(path), a.demand.target)
  }

  /** An existing source file of a crate: its conditions are looked up. */
  predicate IsExamined(tree: Tree, path: string) {
    CrateOf(path).Some? && IsCrateSource(path, CrateOf(path).value) && tree.isFile(path)
  }

  /** Whether a path's conditions could not be determined: no declaration leads to it. */
  ghost predicate IsUndetermined(tree: Tree, path: string) {
    IsExamined(tree, path) && !InCrate(tree.crates(CrateOf(path).value), File(path))
  }

  /** Some changed path asks for this. */
  ghost predicate Asked(tree: Tree, changed: seq<string>, a: Ask) {
    exists i :: 0 <= i < |changed| && Asks(tree, changed[i], a)
  }

  ghost predicate Demanded(tree: Tree, changed: seq<string>, d: Demand) {
    exists reason :: Asked(tree, changed, Ask(d, reason))
  }

  /** What the plan means: the demanded targets, each at its highest demanded tier and with
      the reasons of all of its demands. */
  ghost predicate IsPlan(tree: Tree, changed: seq<string>, plan: map<Platform, Requirement>) {
    forall t :: PlansTarget(tree, changed, plan, t)
  }

  ghost predicate PlansTarget(tree: Tree, changed: seq<string>, plan: map<Platform, Requirement>, t: Platform) {
    && (t in plan <==> Demanded(tree, changed, Demand(t, Compile)) || Demanded(tree, changed, Demand(t, Link)))
    && (t in plan ==>
          && (plan[t].tier == Link <==> Demanded(tree, changed, Demand(t, Link)))
          && forall reason :: reason in plan[t].reasons <==>
               Asked(tree, changed, Ask(Demand(t, Compile), reason))
                 || Asked(tree, changed, Ask(Demand(t, Link), reason)))
  }

  type Conditions = map<File, set<Platform>>

  /** `conditions` is what the module walk of the crate records. */
  ghost predicate IsResolved(crate: Crate, conditions: Conditions) {
    && (forall f :: f in conditions <==> InCrate(crate, f))
    && (forall f, p :: f in conditions ==> (p in conditions[f] <==> Guards(crate, f, p)))
  }

  /** The crates resolved so far. */
  ghost predicate AreResolved(tree: Tree, resolved: map<string, Conditions>) {
    forall c :: c in resolved ==> IsResolved(tree.crates(c), resolved[c])
  }

  /** The demands one path makes without looking into the crate. */
  function PlainAsks(path: string): set<Ask> {
    (if StartsWith(path, "platforms/android/") then {Ask(Demand(ANDROID_JAVA, Compile), Reason(path, Gradle))} else {})
    + if CrateOf(path) == Some("android-jni") then {Ask(Demand(ANDROID, Link), Reason(path, Cdylib))}
      else if CrateOf(path).Some? && IsGated(CrateOf(path).value) then
        {Ask(Demand(ANDROID, Compile), Reason(path, GatedCrate))}
      else {}
  }

  lemma PlainAsksExact(tree: Tree, path: string, a: Ask)
    requires !a.reason.why.Condition?
    ensures a in PlainAsks(path) <==> Asks(tree, path, a)
  {
    assert a == Ask(a.demand, Reason(a.reason.path, a.reason.why));
  }

  /** Everything one path asks for. Its crate is resolved at most once. */
  method CollectAsks(tree: Tree, path: string, resolved: map<string, Conditions>)
    returns (asks: set<Ask>, undetermined: bool, resolved': map<string, Conditions>)
    requires ValidTree(tree) && AreResolved(tree, resolved)
    ensures AreResolved(tree, resolved') && (forall a :: a in asks <==> Asks(tree, path, a))
    ensures undetermined == IsUndetermined(tree, path)
  {
    hide CrateOf, IsCrateSource, InCrate, PlainAsks;
    asks, undetermined, resolved' := PlainAsks(path), false, resolved;
    forall a: Ask | !a.reason.why.Condition? ensures a in PlainAsks(path) <==> Asks(tree, path, a) {
      PlainAsksExact(tree, path, a);
    }
    assert forall a :: a in PlainAsks(path) ==> !a.reason.why.Condition? by {
      PlainIsPlain(path);
    }
    if !IsExamined(tree, path) {
      return;
    }
    var crate := CrateOf(path).value;
    if crate !in resolved {
      var conditions, unreachable := ResolveCrate(tree.crates(crate));
      resolved' := resolved[crate := conditions];
    }
    var conditions := resolved'[crate];
    if File(path) !in conditions {
      undetermined := true;
      return;
    }
    asks := asks + set p | p in conditions[File(path)] :: Ask(Demand(p, Compile), Reason(path, Condition));
    forall a | Asks(tree, path, a) && a.reason.why.Condition? ensures a in asks {
      assert a == Ask(Demand(a.demand.target, Compile), Reason(path, Condition));
    }
  }

  lemma PlainIsPlain(path: string)
    ensures forall a :: a in PlainAsks(path) ==> !a.reason.why.Condition?
  {
  }

  /** The target builds a change needs, with their reasons, and the paths that leave it open. */
  method Select(tree: Tree, changed: seq<string>) returns (plan: map<Platform, Requirement>, undetermined: set<string>)
    requires ValidTree(tree)
    ensures IsPlan(tree, changed, plan)
    ensures forall p :: p in undetermined <==> p in changed && IsUndetermined(tree, p)
  {
    hide Asks, IsUndetermined, ValidTree, AreResolved;
    var asks: set<Ask>, resolved: map<string, Conditions> := {}, map[];
    undetermined := {};
    assert AreResolved(tree, resolved) by { NothingResolved(tree); }
    for i := 0 to |changed|
      invariant AreResolved(tree, resolved)
      invariant forall a :: a in asks <==> exists k :: 0 <= k < i && Asks(tree, changed[k], a)
      invariant forall p :: p in undetermined <==> p in changed[..i] && IsUndetermined(tree, p)
    {
      var more, isOpen;
      more, isOpen, resolved := CollectAsks(tree, changed[i], resolved);
      asks := asks + more;
      if isOpen {
        undetermined := undetermined + {changed[i]};
      }
    }
    assert changed[..|changed|] == changed;
    plan := HighestTiers(asks);
    AsksArePlan(tree, changed, asks, plan);
  }

  /** The highest tiers over everything asked for are the plan. */
  ghost predicate IsHighest(asks: set<Ask>, plan: map<Platform, Requirement>) {
    && (forall t :: t in plan <==> exists a :: a in asks && a.demand.target == t)
    && (forall t :: t in plan ==> (plan[t].tier == Link <==> exists a :: a in asks && a.demand == Demand(t, Link)))
    && (forall t, reason :: t in plan ==>
          (reason in plan[t].reasons <==> exists a :: a in asks && a.demand.target == t && a.reason == reason))
  }

  lemma AsksArePlan(tree: Tree, changed: seq<string>, asks: set<Ask>, plan: map<Platform, Requirement>)
    requires IsHighest(asks, plan) && forall a :: a in asks <==> Asked(tree, changed, a)
    ensures IsPlan(tree, changed, plan)
  {
    hide Asked, IsHighest, PlansTarget;
    forall t ensures PlansTarget(tree, changed, plan, t) {
      AsksPlanTarget(tree, changed, asks, plan, t);
    }
  }

  lemma DemandedIsAsked(tree: Tree, changed: seq<string>, asks: set<Ask>, d: Demand)
    requires forall a :: a in asks <==> Asked(tree, changed, a)
    ensures Demanded(tree, changed, d) <==> exists a :: a in asks && a.demand == d
  {
    hide Asked;
    if a :| a in asks && a.demand == d {
      assert Asked(tree, changed, Ask(d, a.reason));
    }
    if reason :| Asked(tree, changed, Ask(d, reason)) {
      assert Ask(d, reason) in asks;
    }
  }

  lemma AsksPlanTarget(tree: Tree, changed: seq<string>, asks: set<Ask>, plan: map<Platform, Requirement>, t: Platform)
    requires IsHighest(asks, plan) && forall a :: a in asks <==> Asked(tree, changed, a)
    ensures PlansTarget(tree, changed, plan, t)
  {
    hide Asked, Demanded;
    DemandedIsAsked(tree, changed, asks, Demand(t, Compile));
    DemandedIsAsked(tree, changed, asks, Demand(t, Link));
    assert forall a :: a in asks && a.demand.target == t ==>
             a.demand == Demand(t, Compile) || a.demand == Demand(t, Link);
    forall reason
      ensures (exists a :: a in asks && a.demand.target == t && a.reason == reason) <==>
                Ask(Demand(t, Compile), reason) in asks || Ask(Demand(t, Link), reason) in asks
    {
      if a :| a in asks && a.demand.target == t && a.reason == reason {
        assert a == Ask(Demand(t, a.demand.tier), reason);
      }
    }
  }

  lemma NothingResolved(tree: Tree)
    ensures AreResolved(tree, map[])
  {
  }

  /** The highest tier per target and all of its reasons, whatever order the asks come in. */
  method HighestTiers(asks: set<Ask>) returns (plan: map<Platform, Requirement>)
    ensures IsHighest(asks, plan)
  {
    plan := map[];
    var left := asks;
    ghost var done: set<Ask> := {};
    while left != {}
      invariant done + left == asks
      invariant IsHighest(done, plan)
    {
      var a :| a in left;
      var t, tier := a.demand.target, a.demand.tier;
      assert a.demand == Demand(t, tier);
      left, done := left - {a}, done + {a};
      if t !in plan {
        plan := plan[t := Requirement(tier, {a.reason})];
      } else {
        plan := plan[t := Requirement(if tier == Link then Link else plan[t].tier, plan[t].reasons + {a.reason})];
      }
    }
  }

  /** A larger change never drops a target, never lowers its tier and never loses a reason. */
  lemma SelectMonotone(tree: Tree, changed: seq<string>, more: seq<string>,
                       plan: map<Platform, Requirement>, plan': map<Platform, Requirement>)
    requires IsPlan(tree, changed, plan) && IsPlan(tree, changed + more, plan')
    ensures forall t :: t in plan ==>
              t in plan' && (plan[t].tier == Link ==> plan'[t].tier == Link) && plan[t].reasons <= plan'[t].reasons
  {
    hide Asks;
    forall a | Asked(tree, changed, a) ensures Asked(tree, changed + more, a) {
      var i :| 0 <= i < |changed| && Asks(tree, changed[i], a);
      assert (changed + more)[i] == changed[i];
    }
    forall d | Demanded(tree, changed, d) ensures Demanded(tree, changed + more, d) {
      var reason :| Asked(tree, changed, Ask(d, reason));
    }
    hide Asked, Demanded;
    forall t | t in plan
      ensures t in plan' && (plan[t].tier == Link ==> plan'[t].tier == Link) && plan[t].reasons <= plan'[t].reasons
    {
      assert PlansTarget(tree, changed, plan, t) && PlansTarget(tree, changed + more, plan', t);
    }
  }

  // ------------------------------------------------------- what single paths do

  /** How a path bears on the host suites, by its text: outside the engine only three
      directories are harmless. */
  lemma BearingByText(path: string, resolve: string -> Path, members: seq<Member>)
    ensures BearingOf(path, resolve, members) == Irrelevant
       <==> || (|path| >= 5 && path[..5] == "docs/")
            || (|path| >= 10 && path[..10] == "platforms/")
            || (|path| >= 8 && path[..8] == ".github/")
    ensures BearingOf(path, resolve, members).Owned? ==>
      && |path| >= 7 && path[..7] == "engine/"
      && exists k: nat :: IsOwner(resolve(path), members, k)
            && members[k].package == BearingOf(path, resolve, members).package
    ensures BearingOf(path, resolve, members) == Unclear ==>
      |path| < 7 || path[..7] != "engine/" || forall m :: m in members ==> !(m.directory <= resolve(path))
  {
    hide IsOwner;
    assert "docs/" <= path ==> path[0] == 'd';
    assert "platforms/" <= path ==> path[0] == 'p';
    assert ".github/" <= path ==> path[0] == '.';
    assert "engine/" <= path ==> path[0] == 'e';
    if BearingOf(path, resolve, members) == Unclear && "engine/" <= path {
      forall m | m in members ensures !(m.directory <= resolve(path)) {
        if m.directory <= resolve(path) {
          OwnerExists(resolve(path), members);
        }
      }
    }
  }

  /** Some member owns a file as soon as one member's directory holds it. */
  lemma {:induction false} OwnerExists(path: Path, members: seq<Member>)
    requires exists j :: 0 <= j < |members| && members[j].directory <= path
    ensures exists k: nat :: IsOwner(path, members, k)
  {
    var last, init := |members| - 1, members[..|members| - 1];
    if j :| 0 <= j < |init| && init[j].directory <= path {
      OwnerExists(path, init);
      var k: nat :| IsOwner(path, init, k);
      if members[last].directory <= path && |members[last].directory| > |members[k].directory| {
        assert IsOwner(path, members, last);
      } else {
        assert IsOwner(path, members, k);
      }
    } else {
      assert forall j :: 0 <= j < last ==> init[j] == members[j];
      assert IsOwner(path, members, last);
    }
  }

  /** A changed file outside the engine and the three harmless directories runs every suite;
      changes to the latter alone run none. */
  lemma OutsideEngine(workspace: Workspace, resolve: string -> Path, changed: seq<string>, r: Option<set<Package>>)
    requires IsHostSelection(workspace, resolve, changed, r)
    ensures (exists path :: path in changed && !("engine/" <= path) && !("docs/" <= path) && !("platforms/" <= path)
              && !(".github/" <= path)) ==> r.None?
    ensures (forall path :: path in changed ==> "docs/" <= path || "platforms/" <= path || ".github/" <= path) ==>
      r == Some({})
  {
    forall path ensures
      && (BearingOf(path, resolve, workspace.members) == Irrelevant <==>
            "docs/" <= path || "platforms/" <= path || ".github/" <= path)
      && (!("engine/" <= path) ==> !BearingOf(path, resolve, workspace.members).Owned?)
    {
      BearingByText(path, resolve, workspace.members);
    }
    hide BearingOf;
    if forall path :: path in changed ==> "docs/" <= path || "platforms/" <= path || ".github/" <= path {
      forall i | 0 <= i < |changed| ensures BearingOf(changed[i], resolve, workspace.members) == Irrelevant {
        assert changed[i] in changed;
      }
      assert !IsUnclear(workspace, resolve, changed) && Seeds(workspace, resolve, changed) == {};
      forall p ensures !Required(workspace.dependencies, {}, p) {
        forall chain ensures !DependsOn(workspace.dependencies, {}, chain, p) {
          NoSeeds(workspace.dependencies, chain, p);
        }
      }
      assert r.value == {};
    }
  }

  lemma {:induction false} NoSeeds(dependencies: Dependencies, chain: seq<Package>, p: Package)
    ensures !DependsOn(dependencies, {}, chain, p)
  {
    if chain != [] {
      NoSeeds(dependencies, chain[..|chain| - 1], chain[|chain| - 1]);
    }
  }

  /** ASCII digits, letters of both cases, the underscore and the hyphen. */
  predicate IsCrateLetter(c: int) { 48 <= c < 58 || 65 <= c < 91 || 97 <= c < 123 || c == 95 || c == 45 }

  predicate IsCrateName(crate: string) {
    crate != "" && forall c :: c in crate ==> IsCrateLetter(c as int)
  }

  lemma CrateLetter(c: char)
    ensures IsNameChar(c) <==> IsCrateLetter(c as int)
  {
  }

  /** The crate of a path is the name between `engine/crates/` and the next slash. */
  lemma CrateExactly(path: string, crate: string)
    ensures CrateOf(path) == Some(crate)
       <==> IsCrateName(crate) && "engine/crates/" + crate + "/" <= path
  {
    var prefix := "engine/crates/";
    var text := prefix + crate + "/";
    if CrateOf(path) == Some(crate) {
      assert text == path[..|text|];
    }
    if IsCrateName(crate) && text <= path {
      var rest := path[|prefix|..];
      assert prefix == path[..|prefix|];
      forall j | 0 <= j < |crate| ensures rest[j] == crate[j] && rest[j] != '/' && IsNameChar(rest[j]) {
        assert path[|prefix| + j] == text[|prefix| + j];
        assert crate[j] in crate;
        CrateLetter(crate[j]);
      }
      assert path[|prefix| + |crate|] == text[|prefix| + |crate|];
      assert rest[|crate|] == '/';
      assert Find(rest, '/', 0) == |crate|;
      assert rest[..|crate|] == crate;
    }
  }

  /** Which paths ask for the Java half, and which for linking the bridge crate, by their text. */
  lemma AsksByText(tree: Tree, path: string)
    ensures Asks(tree, path, Ask(Demand(Platform("android-java"), Compile), Reason(path, Gradle)))
       <==> "platforms/android/" <= path
    ensures Asks(tree, path, Ask(Demand(Platform("android"), Link), Reason(path, Cdylib)))
       <==> "engine/crates/android-jni/" <= path
  {
    assert "engine/crates/" + "android-jni" + "/" == "engine/crates/android-jni/";
    CrateExactly(path, "android-jni");
    assert IsCrateName("android-jni");
    hide CrateOf, IsCrateName;
  }

  /** The four crates with platform conditions are compiled, and no other crate for its name. */
  lemma GatedByText(tree: Tree, path: string, crate: string)
    ensures crate in {"core", "graphics", "platform", "capi"} && "engine/crates/" + crate + "/" <= path ==>
      Asks(tree, path, Ask(Demand(Platform("android"), Compile), Reason(path, GatedCrate)))
    ensures Asks(tree, path, Ask(Demand(Platform("android"), Compile), Reason(path, GatedCrate))) ==>
      exists c :: c in {"core", "graphics", "platform", "capi"} && "engine/crates/" + c + "/" <= path
  {
    CrateExactly(path, crate);
    assert crate in {"core", "graphics", "platform", "capi"} ==> IsCrateName(crate);
    if CrateOf(path).Some? {
      CrateExactly(path, CrateOf(path).value);
    }
    hide CrateOf, IsCrateName;
  }

  /** An existing `.rs` file under a crate's `src` is looked up, and nothing else. */
  lemma ExaminedByText(tree: Tree, crate: string, rest: string, path: string)
    requires IsCrateName(crate)
    ensures var source := "engine/crates/" + crate + "/src/" + rest + ".rs";
      IsExamined(tree, source) <==> tree.isFile(source)
    ensures IsExamined(tree, path) ==> |path| >= 3 && path[|path| - 3..] == ".rs" && "engine/crates/" <= path
  {
    var front, source := "engine/crates/" + crate + "/src/", "engine/crates/" + crate + "/src/" + rest + ".rs";
    assert "engine/crates/" + crate + "/" <= source;
    CrateExactly(source, crate);
    assert source[0..0 + |front|] == front;
    assert OccursAt(source, front, 0);
    assert source[|source| - 3..] == ".rs";
  }
}
