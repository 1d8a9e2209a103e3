/** The module walk of one crate: which platforms' conditions guard each source file.

    Conditions are inherited down `mod` declarations, so a file carries the platforms of
    every declaration path that leads to it from the crate root. */
module ModuleWalk {

  datatype File = File(path: string)

  datatype Platform = Platform(name: string)

  /** A `mod` declaration that names another file, with the platforms its attributes mention. */
  datatype Declaration = Declaration(platforms: set<Platform>, child: File)

  /** The declarations of every file of the crate. Reading and scanning the text is left to
      the caller; a declaration whose file does not exist is not listed. */
  type Modules = map<File, seq<Declaration>>

  /** Every declared child is a file of the crate. Cycles are allowed. */
  ghost predicate Closed(modules: Modules) {
    forall f, i :: f in modules && 0 <= i < |modules[f]| ==> modules[f][i].child in modules
  }

  // ------------------------------------------------------- paths of declarations

  datatype Step = Step(from: File, index: nat)

  ghost predicate IsStep(modules: Modules, s: Step) {
    s.from in modules && s.index < |modules[s.from]|
  }

  ghost function Declared(modules: Modules, s: Step): Declaration
    requires IsStep(modules, s)
  {
    modules[s.from][s.index]
  }

  /** `path` is a chain of declarations from `entry` to `f`. */
  ghost predicate IsPath(modules: Modules, entry: File, path: seq<Step>, f: File) {
    if path == [] then f == entry
    else
      var last := path[|path| - 1];
      IsStep(modules, last) && Declared(modules, last).child == f
        && IsPath(modules, entry, path[..|path| - 1], last.from)
  }

  /** The platforms mentioned anywhere along a path. */
  ghost function Along(modules: Modules, path: seq<Step>): set<Platform>
    requires forall i :: 0 <= i < |path| ==> IsStep(modules, path[i])
  {
    if path == [] then {}
    else Along(modules, path[..|path| - 1]) + Declared(modules, path[|path| - 1]).platforms
  }

  lemma {:induction false} PathSteps(modules: Modules, entry: File, path: seq<Step>, f: File)
    requires IsPath(modules, entry, path, f)
    ensures forall i :: 0 <= i < |path| ==> IsStep(modules, path[i])
  {
    if path != [] {
      PathSteps(modules, entry, path[..|path| - 1], path[|path| - 1].from);
    }
  }

  ghost predicate Reached(modules: Modules, entry: File, f: File) {
    exists path :: IsPath(modules, entry, path, f)
  }

  /** Some path to `f` mentions `p`. */
  ghost predicate Inherits(modules: Modules, entry: File, f: File, p: Platform) {
    exists path :: IsPath(modules, entry, path, f) && MentionedOn(modules, path, p)
  }

  ghost predicate MentionedOn(modules: Modules, path: seq<Step>, p: Platform) {
    (forall i :: 0 <= i < |path| ==> IsStep(modules, path[i])) && p in Along(modules, path)
  }

  lemma PathSnoc(modules: Modules, entry: File, path: seq<Step>, s: Step)
    requires IsStep(modules, s) && IsPath(modules, entry, path, s.from)
    ensures IsPath(modules, entry, path + [s], Declared(modules, s).child)
    ensures forall p :: p in Declared(modules, s).platforms || MentionedOn(modules, path, p) ==>
              MentionedOn(modules, path + [s], p)
  {
    PathSteps(modules, entry, path, s.from);
    assert (path + [s])[..|path|] == path;
  }

  /** A declaration passes reachability and all inherited platforms on, and adds its own. */
  lemma ReachNext(modules: Modules, entry: File, s: Step)
    requires IsStep(modules, s) && Reached(modules, entry, s.from)
    ensures Reached(modules, entry, Declared(modules, s).child)
    ensures forall p :: p in Declared(modules, s).platforms || Inherits(modules, entry, s.from, p) ==>
              Inherits(modules, entry, Declared(modules, s).child, p)
  {
    hide IsPath, MentionedOn;
    var path :| IsPath(modules, entry, path, s.from);
    PathSnoc(modules, entry, path, s);
    forall p | Inherits(modules, entry, s.from, p) ensures Inherits(modules, entry, Declared(modules, s).child, p) {
      var q :| IsPath(modules, entry, q, s.from) && MentionedOn(modules, q, p);
      PathSnoc(modules, entry, q, s);
    }
  }

  // -------------------------------------------------------------------- the walk

  datatype Entry = Entry(file: File, conditions: set<Platform>)

  type Inherited = map<File, set<Platform>>

  /** Everything recorded so far is justified by a path. */
  ghost predicate Sound(modules: Modules, entry: File, f: File, platforms: set<Platform>) {
    f in modules && Reached(modules, entry, f) && forall p :: p in platforms ==> Inherits(modules, entry, f, p)
  }

  /** The first `n` declarations of `f` have handed `conditions` down. */
  ghost predicate HandedDown(modules: Modules, inherited: Inherited, f: File, conditions: set<Platform>, n: nat)
    requires f in modules && n <= |modules[f]|
  {
    forall i :: 0 <= i < n ==>
      var d := modules[f][i];
      d.child in inherited && conditions + d.platforms <= inherited[d.child]
  }

  /** `f` has nothing left to hand down, or an up-to-date entry for it is still queued. */
  ghost predicate Settled(modules: Modules, inherited: Inherited, queue: seq<Entry>, f: File)
    requires f in modules && f in inherited
  {
    HandedDown(modules, inherited, f, inherited[f], |modules[f]|) || Entry(f, inherited[f]) in queue
  }

  /** The state of the walk, leaving `busy` out of the settled files while it is processed. */
  ghost predicate Walking(modules: Modules, entry: File, inherited: Inherited, queue: seq<Entry>, busy: set<File>) {
    && Closed(modules) && entry in inherited
    && (forall f :: f in inherited ==> Sound(modules, entry, f, inherited[f]))
    && (forall e :: e in queue ==> e.file in inherited && e.conditions <= inherited[e.file])
    && (forall f :: f in inherited && f !in busy ==> Settled(modules, inherited, queue, f))
  }

  /** What is known, as a set of facts: a file is reached, or a file inherits a platform. */
  datatype Fact = IsReached(file: File) | HasPlatform(file: File, platform: Platform)

  ghost function Facts(inherited: Inherited): set<Fact> {
    (set f | f in inherited :: IsReached(f)) + (set f, p | f in inherited && p in inherited[f] :: HasPlatform(f, p))
  }

  /** All platforms that any declaration mentions. */
  ghost function AllPlatforms(modules: Modules): set<Platform> {
    set f, i, p | f in modules && 0 <= i < |modules[f]| && p in modules[f][i].platforms :: p
  }

  ghost function AllFacts(modules: Modules): set<Fact> {
    (set f | f in modules :: IsReached(f))
    + (set f, p | f in modules && p in AllPlatforms(modules) :: HasPlatform(f, p))
  }

  lemma {:induction false} AlongKnown(modules: Modules, entry: File, path: seq<Step>, f: File, p: Platform)
    requires IsPath(modules, entry, path, f) && MentionedOn(modules, path, p)
    ensures p in AllPlatforms(modules)
  {
    var last := path[|path| - 1];
    if p !in Declared(modules, last).platforms {
      AlongKnown(modules, entry, path[..|path| - 1], last.from, p);
    }
  }

  lemma FactsBounded(modules: Modules, entry: File, inherited: Inherited)
    requires forall f :: f in inherited ==> Sound(modules, entry, f, inherited[f])
    ensures Facts(inherited) <= AllFacts(modules)
  {
    forall f, p | f in inherited && p in inherited[f] ensures f in modules && p in AllPlatforms(modules) {
      assert Sound(modules, entry, f, inherited[f]) && Inherits(modules, entry, f, p);
      var path :| IsPath(modules, entry, path, f) && MentionedOn(modules, path, p);
      AlongKnown(modules, entry, path, f, p);
    }
    forall f | f in inherited ensures f in modules {
      assert Sound(modules, entry, f, inherited[f]);
    }
  }

  /** Handing `platforms` to `child`: nothing to do, or a strictly larger record and a queued
      entry for it. */
  method HandTo(child: File, platforms: set<Platform>, inherited: Inherited, queue: seq<Entry>)
    returns (inherited': Inherited, queue': seq<Entry>)
    ensures child in inherited' && platforms <= inherited'[child]
    ensures if child in inherited && platforms <= inherited[child] then inherited' == inherited && queue' == queue
            else && inherited' == inherited[child := (if child in inherited then inherited[child] else {}) + platforms]
                 && queue' == queue + [Entry(child, inherited'[child])]
                 && Facts(inherited) < Facts(inherited')
  {
    if child in inherited && platforms <= inherited[child] {
      return inherited, queue;
    }
    inherited' := inherited[child := (if child in inherited then inherited[child] else {}) + platforms];
    queue' := queue + [Entry(child, inherited'[child])];
    FactsGrow(inherited, child, platforms);
  }

  lemma FactsGrow(inherited: Inherited, child: File, platforms: set<Platform>)
    requires child !in inherited || !(platforms <= inherited[child])
    ensures Facts(inherited) < Facts(inherited[child := (if child in inherited then inherited[child] else {})
            + platforms])
  {
    var after := inherited[child := (if child in inherited then inherited[child] else {}) + platforms];
    forall x | x in Facts(inherited) ensures x in Facts(after) {
    }
    if child in inherited {
      var p :| p in platforms && p !in inherited[child];
      assert HasPlatform(child, p) in Facts(after) && HasPlatform(child, p) !in Facts(inherited);
    } else {
      assert IsReached(child) in Facts(after) && IsReached(child) !in Facts(inherited);
    }
  }

  /** Handing down keeps the walk's invariant: records only grow, and what grows is queued. */
  lemma HandKeeps(modules: Modules, entry: File, inherited: Inherited, queue: seq<Entry>, busy: set<File>, s: Step,
      conditions: set<Platform>)
    requires Walking(modules, entry, inherited, queue, busy) && IsStep(modules, s)
    requires s.from in inherited && conditions <= inherited[s.from]
    requires var d := Declared(modules, s); d.child !in inherited || !(conditions + d.platforms <= inherited[d.child])
    ensures var d := Declared(modules, s);
            var inherited' := inherited[d.child := (if d.child in inherited then inherited[d.child] else {})
                + (conditions + d.platforms)];
            Walking(modules, entry, inherited', queue + [Entry(d.child, inherited'[d.child])], busy)
  {
    var d := Declared(modules, s);
    var inherited' := inherited[d.child := (if d.child in inherited then inherited[d.child] else {})
        + (conditions + d.platforms)];
    var queue' := queue + [Entry(d.child, inherited'[d.child])];
    assert Sound(modules, entry, s.from, inherited[s.from]);
    ReachNext(modules, entry, s);
    assert d.child in inherited ==> Sound(modules, entry, d.child, inherited[d.child]);
    forall f | f in inherited' ensures Sound(modules, entry, f, inherited'[f]) {
      if f != d.child {
        assert Sound(modules, entry, f, inherited[f]);
      }
    }
    forall f | f in inherited' && f !in busy ensures Settled(modules, inherited', queue', f) {
      if f != d.child {
        assert Settled(modules, inherited, queue, f);
        GrowKeepsHanded(modules, inherited, inherited', f, inherited[f], |modules[f]|);
      }
    }
  }

  lemma GrowKeepsHanded(modules: Modules, inherited: Inherited, inherited': Inherited, f: File,
      conditions: set<Platform>, n: nat)
    requires f in modules && n <= |modules[f]|
    requires forall g :: g in inherited ==> g in inherited' && inherited[g] <= inherited'[g]
    ensures HandedDown(modules, inherited, f, conditions, n) ==> HandedDown(modules, inherited', f, conditions, n)
  {
  }

  /** Where the file being processed stands: settled, or still carrying exactly `conditions`. */
  ghost predicate InHand(modules: Modules, inherited: Inherited, queue: seq<Entry>, m: File,
      conditions: set<Platform>) {
    m in modules && m in inherited && conditions <= inherited[m]
    && (Settled(modules, inherited, queue, m) || inherited[m] == conditions)
  }

  /** One declaration of the file in hand. */
  method HandOne(modules: Modules, ghost entry: File, s: Step, conditions: set<Platform>, inherited: Inherited,
      queue: seq<Entry>)
    returns (inherited': Inherited, queue': seq<Entry>)
    requires IsStep(modules, s) && Walking(modules, entry, inherited, queue, {s.from})
    requires InHand(modules, inherited, queue, s.from, conditions)
             && HandedDown(modules, inherited, s.from, conditions, s.index)
    ensures Walking(modules, entry, inherited', queue', {s.from})
    ensures InHand(modules, inherited', queue', s.from, conditions)
            && HandedDown(modules, inherited', s.from, conditions, s.index + 1)
    ensures Facts(inherited) < Facts(inherited') || (inherited' == inherited && queue' == queue)
  {
    hide Sound, Facts;
    var d := modules[s.from][s.index];
    inherited', queue' := HandTo(d.child, conditions + d.platforms, inherited, queue);
    if inherited' != inherited {
      HandKeeps(modules, entry, inherited, queue, {s.from}, s, conditions);
      GrowKeepsHanded(modules, inherited, inherited', s.from, conditions, s.index);
      GrowKeepsHanded(modules, inherited, inherited', s.from, inherited[s.from], |modules[s.from]|);
    }
  }

  /** All declarations of a file taken off the queue. */
  method HandAll(modules: Modules, ghost entry: File, m: File, conditions: set<Platform>, inherited: Inherited,
      queue: seq<Entry>)
    returns (inherited': Inherited, queue': seq<Entry>)
    requires Walking(modules, entry, inherited, queue, {m}) && InHand(modules, inherited, queue, m, conditions)
    ensures Walking(modules, entry, inherited', queue', {})
    ensures Facts(inherited) < Facts(inherited') || (inherited' == inherited && queue' == queue)
  {
    hide Sound, Facts;
    inherited', queue' := inherited, queue;
    for i := 0 to |modules[m]|
      invariant Walking(modules, entry, inherited', queue', {m}) && InHand(modules, inherited', queue', m, conditions)
      invariant HandedDown(modules, inherited', m, conditions, i)
      invariant Facts(inherited) < Facts(inherited') || (inherited' == inherited && queue' == queue)
    {
      inherited', queue' := HandOne(modules, entry, Step(m, i), conditions, inherited', queue');
    }
  }

  lemma TakeOff(modules: Modules, entry: File, inherited: Inherited, queue: seq<Entry>)
    requires Walking(modules, entry, inherited, queue, {}) && queue != []
    ensures var last := queue[|queue| - 1];
            && Walking(modules, entry, inherited, queue[..|queue| - 1], {last.file})
            && InHand(modules, inherited, queue[..|queue| - 1], last.file, last.conditions)
  {
    var last, init := queue[|queue| - 1], queue[..|queue| - 1];
    assert queue == init + [last];
    assert last in queue;
    assert Sound(modules, entry, last.file, inherited[last.file]);
    forall f | f in inherited && (f != last.file || last.conditions != inherited[f])
        ensures Settled(modules, inherited, init, f) {
      assert Settled(modules, inherited, queue, f);
    }
  }

  /** The walk terminates on every module graph and records, for exactly the reached files,
      exactly the platforms of all paths that lead to them. */
  method Walk(modules: Modules, entry: File) returns (inherited: Inherited)
    requires Closed(modules) && entry in modules
    ensures forall f :: f in inherited <==> Reached(modules, entry, f)
    ensures forall f, p :: f in inherited ==> (p in inherited[f] <==> Inherits(modules, entry, f, p))
  {
    inherited := map[entry := {}];
    var queue := [Entry(entry, {})];
    assert IsPath(modules, entry, [], entry);
    while queue != []
      invariant Walking(modules, entry, inherited, queue, {})
      decreases AllFacts(modules) - Facts(inherited), |queue|
    {
      TakeOff(modules, entry, inherited, queue);
      FactsBounded(modules, entry, inherited);
      var last := queue[|queue| - 1];
      inherited, queue := HandAll(modules, entry, last.file, last.conditions, inherited, queue[..|queue| - 1]);
      FactsBounded(modules, entry, inherited);
    }
    WalkComplete(modules, entry, inherited);
  }

  lemma WalkComplete(modules: Modules, entry: File, inherited: Inherited)
    requires Walking(modules, entry, inherited, [], {})
    ensures forall f :: f in inherited <==> Reached(modules, entry, f)
    ensures forall f, p :: f in inherited ==> (p in inherited[f] <==> Inherits(modules, entry, f, p))
  {
    forall f | Reached(modules, entry, f) ensures f in inherited {
      var path :| IsPath(modules, entry, path, f);
      PathCovered(modules, entry, inherited, path, f);
    }
    forall f, p | f in inherited && Inherits(modules, entry, f, p) ensures p in inherited[f] {
      var path :| IsPath(modules, entry, path, f) && MentionedOn(modules, path, p);
      PathCovered(modules, entry, inherited, path, f);
    }
    forall f | f in inherited ensures Sound(modules, entry, f, inherited[f]) {
    }
  }

  lemma {:induction false} PathCovered(modules: Modules, entry: File, inherited: Inherited, path: seq<Step>, f: File)
    requires Walking(modules, entry, inherited, [], {}) && IsPath(modules, entry, path, f)
    ensures f in inherited && forall p :: MentionedOn(modules, path, p) ==> p in inherited[f]
  {
    PathSteps(modules, entry, path, f);
    if path != [] {
      var last := path[|path| - 1];
      PathCovered(modules, entry, inherited, path[..|path| - 1], last.from);
      assert Settled(modules, inherited, [], last.from);
    }
  }

  /** What one crate's directory holds: the declarations and the platforms mentioned in the
      text of every file, the source files, and the crate root. */
  datatype Crate = Crate(modules: Modules, own: map<File, set<Platform>>, sources: set<File>, entry: File)

  ghost predicate ValidCrate(crate: Crate) {
    Closed(crate.modules) && crate.own.Keys == crate.modules.Keys
  }

  /** The crate has a root and a declaration path leads from it to `f`. */
  ghost predicate InCrate(crate: Crate, f: File) {
    crate.entry in crate.modules && Reached(crate.modules, crate.entry, f)
  }

  /** `p` guards some declaration path to `f` or is mentioned in `f` itself. */
  ghost predicate Guards(crate: Crate, f: File, p: Platform) {
    InCrate(crate, f) && (Inherits(crate.modules, crate.entry, f, p) || (f in crate.own && p in crate.own[f]))
  }

  /** A crate's result: every reached file with its inherited and its own platforms, and the
      source files that no declaration reached. */
  method ResolveCrate(crate: Crate) returns (conditions: map<File, set<Platform>>, unreachable: set<File>)
    requires ValidCrate(crate)
    ensures forall f :: f in conditions <==> InCrate(crate, f)
    ensures forall f, p :: f in conditions ==> (p in conditions[f] <==> Guards(crate, f, p))
    ensures forall f :: f in unreachable <==> f in crate.sources && !InCrate(crate, f)
  {
    if crate.entry !in crate.modules {
      return map[], crate.sources;
    }
    var inherited := Walk(crate.modules, crate.entry);
    conditions := map f | f in inherited :: inherited[f] + (if f in crate.own then crate.own[f] else {});
    unreachable := crate.sources - inherited.Keys;
  }
}
