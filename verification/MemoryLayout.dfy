/** The memory overview: objects inside components inside modules on one side, sections inside segments on the other. */
module MemoryLayout {
  import opened Sums

  datatype SegmentName = Flash | Ram | Rom | Default | Stack | Heap | Nvm | Ota | Unknown

  const GAPS := "LINKER_GAPS"
  const LINKER := "linker"

  /** The size dictionary of an object, component or module: four segments are kept. */
  datatype Sizes = Sizes(flash: int, ram: int, rom: int, others: int)

  const NO_SIZE := Sizes(0, 0, 0, 0)

  function At(z: Sizes, s: SegmentName): int {
    match s
    case Flash => z.flash
    case Ram => z.ram
    case Rom => z.rom
    case Default => z.others
    case _ => 0
  }

  predicate IsPart(s: SegmentName) { s == Flash || s == Ram || s == Rom || s == Default }

  function Plus(a: Sizes, b: Sizes): (r: Sizes)
    ensures forall s :: At(r, s) == At(a, s) + At(b, s)
  {
    Sizes(a.flash + b.flash, a.ram + b.ram, a.rom + b.rom, a.others + b.others)
  }

  /** Section names with sizes. */
  type Sections = map<string, nat>

  datatype Obj = Obj(sections: Sections, size: Sizes)

  /** A component holds objects by name: two components that hold one name share one object. */
  datatype Component = Component(objects: set<string>, size: Sizes)

  datatype Module = Module(components: map<string, Component>, size: Sizes)

  datatype Segment = Segment(sections: Sections, size: int, totalSize: nat)

  type Objects = map<string, Obj>
  type Modules = map<string, Module>
  type Segments = m: map<SegmentName, Segment> | forall s :: s in m witness EMPTY_SEGMENTS

  const EMPTY := Segment(map[], 0, 0)
  const EMPTY_SEGMENTS: map<SegmentName, Segment> := map s: SegmentName | true :: EMPTY

  // ---------- what the structures mean ----------

  /** The bytes of an object that lie in sections of a segment. */
  ghost function Share(o: Sections, seg: Sections): nat {
    TotalOfNats(InSegment(o, seg));
    Total(InSegment(o, seg))
  }

  function InSegment(o: Sections, seg: Sections): map<string, int> {
    map s | s in o && s in seg :: o[s]
  }

  lemma TotalOfNats(m: map<string, int>)
    requires forall k :: k in m ==> m[k] >= 0
    ensures Total(m) >= 0
  {
    var zeros: map<string, int> := map k | k in m :: 0;
    TotalZero(zeros);
    TotalCompare(zeros, m);
  }

  ghost function Shares(objects: Objects, seg: Sections): (r: map<string, int>)
    ensures r.Keys == objects.Keys
  {
    map o | o in objects :: Share(objects[o].sections, seg)
  }

  /** The components an object is attached to. */
  ghost function Holders(modules: Modules, o: string): set<(string, string)> {
    set m, c | m in modules && c in modules[m].components && o in modules[m].components[c].objects :: (m, c)
  }

  ghost function PairsIn(modules: Modules, met: set<string>): set<(string, string)> {
    set m, c | m in met && m in modules && c in modules[m].components :: (m, c)
  }

  ghost function Pairs(modules: Modules): set<(string, string)> { PairsIn(modules, modules.Keys) }

  predicate SameShape(a: Modules, b: Modules) {
    && a.Keys == b.Keys
    && (forall m :: m in a ==> a[m].components.Keys == b[m].components.Keys)
    && forall m, c :: m in a && c in a[m].components ==> a[m].components[c].objects == b[m].components[c].objects
  }

  predicate SameSections(a: Objects, b: Objects) {
    a.Keys == b.Keys && forall o :: o in a ==> a[o].sections == b[o].sections
  }

  /** n times s. */
  function Repeated(n: nat, s: int): int {
    if n == 0 then 0 else Repeated(n - 1, s) + s
  }

  /** s + 2s + ... + ns. */
  function Counted(n: nat, s: int): int {
    if n == 0 then 0 else Counted(n - 1, s) + Repeated(n, s)
  }

  /** What an object attached n times adds to the module sizes: its size n(n+1)/2 times. */
  lemma {:induction false} CountedIsTriangular(n: nat, s: int)
    ensures Repeated(n, s) == n * s && 2 * Counted(n, s) == n * (n + 1) * s
  {
    if n > 0 {
      CountedIsTriangular(n - 1, s);
      assert n * s == (n - 1) * s + s;
      assert n * (n + 1) * s == (n - 1) * n * s + 2 * (n * s);
    }
  }

  /** An attached object is counted right when attached once, or when it has no size; too much otherwise. */
  lemma {:induction false} CountedOnce(n: nat, s: nat)
    requires n >= 1
    ensures Counted(n, s) >= s && Repeated(n, s) >= s && (s == 0 ==> Repeated(n, s) == 0)
    ensures Counted(n, s) == s <==> n == 1 || s == 0
  {
    if n == 1 {
      assert Repeated(1, s) == Repeated(0, s) + s;
      assert Counted(1, s) == Counted(0, s) + Repeated(1, s);
    } else {
      CountedOnce(n - 1, s);
    }
  }

  /** How many of some components hold o. */
  ghost function Met(modules: Modules, o: string, done: set<(string, string)>): nat { |Holders(modules, o) * done| }

  ghost function Visits(modules: Modules, names: set<string>, done: set<(string, string)>): (v: map<string, nat>)
    ensures v.Keys == names
  {
    map o | o in names :: Met(modules, o, done)
  }

  function Bump(visits: map<string, nat>, names: set<string>): (v: map<string, nat>)
    ensures v.Keys == visits.Keys
  {
    map o | o in visits :: if o in names then visits[o] + 1 else visits[o]
  }

  ghost function Weights(visits: map<string, nat>, shares: map<string, int>): (r: map<string, int>)
    requires visits.Keys == shares.Keys
    ensures r.Keys == shares.Keys
  {
    map o | o in shares :: Counted(visits[o], shares[o])
  }

  ghost function Weight(visits: map<string, nat>, shares: map<string, int>): int
    requires visits.Keys == shares.Keys
  {
    Total(Weights(visits, shares))
  }

  lemma VisitsStep(modules: Modules, names: set<string>, done: set<(string, string)>, m: string, c: string)
    requires m in modules && c in modules[m].components && (m, c) !in done
    ensures Bump(Visits(modules, names, done), modules[m].components[c].objects) ==
            Visits(modules, names, done + {(m, c)})
  {
    hide Met;
    forall o | o in names
      ensures Met(modules, o, done + {(m, c)}) ==
              Met(modules, o, done) + if o in modules[m].components[c].objects then 1 else 0
    {
      OneMoreHolder(modules, done, m, c, o);
    }
  }

  lemma HolderIs(modules: Modules, o: string, m: string, c: string)
    requires m in modules && c in modules[m].components
    ensures (m, c) in Holders(modules, o) <==> o in modules[m].components[c].objects
  {}

  lemma OneMoreHolder(modules: Modules, done: set<(string, string)>, m: string, c: string, o: string)
    requires m in modules && c in modules[m].components && (m, c) !in done
    ensures Met(modules, o, done + {(m, c)}) ==
            Met(modules, o, done) + if o in modules[m].components[c].objects then 1 else 0
  {
    hide Holders;
    var h := Holders(modules, o);
    HolderIs(modules, o, m, c);
    if (m, c) in h {
      assert h * (done + {(m, c)}) == h * done + {(m, c)};
    } else {
      assert h * (done + {(m, c)}) == h * done;
    }
  }

  /** Counting one more visit of o. */
  lemma WeightStep(visits: map<string, nat>, shares: map<string, int>, o: string)
    requires visits.Keys == shares.Keys && o in visits
    ensures Weight(visits[o := visits[o] + 1], shares) == Weight(visits, shares) + Repeated(visits[o] + 1, shares[o])
  {
    hide Repeated;
    var n := visits[o] + 1;
    assert Counted(n, shares[o]) == Counted(n - 1, shares[o]) + Repeated(n, shares[o]);
    assert Weights(visits[o := n], shares) == Weights(visits, shares)[o := Counted(n, shares[o])];
    TotalUpdate(Weights(visits, shares), o, Counted(n, shares[o]));
  }

  /** Every object's sizes are its shares, added up once per visit. */
  ghost predicate SizesAre(objects: Objects, segments: Segments, visits: map<string, nat>)
    requires visits.Keys == objects.Keys
  {
    forall o, s :: o in objects && IsPart(s) ==>
      At(objects[o].size, s) == Repeated(visits[o], Share(objects[o].sections, segments[s].sections))
  }

  // ---------- counting ----------

  ghost predicate Closed(objects: Objects, modules: Modules) {
    forall m, c, o :: m in modules && c in modules[m].components && o in modules[m].components[c].objects ==>
      o in objects
  }

  /** The sections met so far. */
  function Part(o: Sections, done: set<string>): Sections {
    map s | s in o && s in done :: o[s]
  }

  lemma ShareStep(o: Sections, done: set<string>, section: string, seg: Sections)
    requires section in o && section !in done
    ensures Share(Part(o, done + {section}), seg) ==
            Share(Part(o, done), seg) + if section in seg then o[section] else 0
  {
    hide Total;
    var was, now := InSegment(Part(o, done), seg), InSegment(Part(o, done + {section}), seg);
    if section in seg {
      assert now == was[section := o[section]];
      TotalInsert(was, section, o[section]);
    } else {
      assert now == was;
    }
  }

  lemma ShareOfAll(o: Sections, seg: Sections)
    ensures Share(Part(o, {}), seg) == 0 && Share(Part(o, o.Keys), seg) == Share(o, seg)
  {
    assert InSegment(Part(o, {}), seg) == map[];
    assert Part(o, o.Keys) == o;
  }

  /** One more object of a component has been counted. */
  lemma BumpStep(visits: map<string, nat>, done: set<string>, o: string, shares: map<string, int>)
    requires visits.Keys == shares.Keys && o in visits && o !in done
    ensures Bump(visits, done + {o}) == Bump(visits, done)[o := visits[o] + 1]
    ensures Weight(Bump(visits, done + {o}), shares) ==
            Weight(Bump(visits, done), shares) + Repeated(visits[o] + 1, shares[o])
  {
    hide Weight, Repeated;
    assert Bump(visits, done + {o}) == Bump(visits, done)[o := visits[o] + 1];
    WeightStep(Bump(visits, done), shares, o);
  }

  lemma SizesStep(a: Objects, b: Objects, segments: Segments, visits: map<string, nat>, o: string)
    requires visits.Keys == a.Keys && o in a && SizesAre(a, segments, visits)
    requires SameSections(a, b) && forall p :: p in a && p != o ==> a[p] == b[p]
    requires forall s :: IsPart(s) ==> At(b[o].size, s) == At(a[o].size, s) + Share(a[o].sections, segments[s].sections)
    ensures SizesAre(b, segments, visits[o := visits[o] + 1])
  {
    hide Share, At, IsPart;
  }

  lemma CountObject(start: Objects, now: Objects, segments: Segments, visits: map<string, nat>, done: set<string>,
                    o: string)
    requires SameSections(start, now) && visits.Keys == start.Keys && o in now && o !in done
    requires SizesAre(now, segments, Bump(visits, done)[o := visits[o] + 1])
    ensures Bump(visits, done + {o}) == Bump(visits, done)[o := visits[o] + 1]
    ensures forall s :: IsPart(s) ==>
      Weight(Bump(visits, done + {o}), Shares(start, segments[s].sections)) ==
      Weight(Bump(visits, done), Shares(start, segments[s].sections)) + At(now[o].size, s)
  {
    hide Share, Weight, Repeated, At, IsPart;
    assert Bump(visits, done + {o}) == Bump(visits, done)[o := visits[o] + 1];
    forall s | IsPart(s)
      ensures Weight(Bump(visits, done + {o}), Shares(start, segments[s].sections)) ==
              Weight(Bump(visits, done), Shares(start, segments[s].sections)) + At(now[o].size, s)
    {
      BumpStep(visits, done, o, Shares(start, segments[s].sections));
    }
  }

  /** A snapshot of the three dictionaries. */
  datatype Layout = Layout(objects: Objects, modules: Modules, segments: Segments)

  /** What the components met so far add up to in a segment. */
  ghost function Counts(was: Layout, done: set<(string, string)>, s: SegmentName): int {
    Weight(Visits(was.modules, was.objects.Keys, done), Shares(was.objects, was.segments[s].sections))
  }

  /** Nothing but sizes has changed, and the objects have been counted once for each component met. */
  ghost predicate Progress(was: Layout, now: Layout, done: set<(string, string)>) {
    && SameSections(was.objects, now.objects) && SameShape(was.modules, now.modules) && was.segments == now.segments
    && SizesAre(now.objects, now.segments, Visits(was.modules, was.objects.Keys, done))
  }

  /** The same, in the middle of a component. */
  ghost predicate InComponent(was: Layout, now: Layout, done: set<(string, string)>, names: set<string>) {
    && SameSections(was.objects, now.objects) && SameShape(was.modules, now.modules) && was.segments == now.segments
    && SizesAre(now.objects, now.segments, Bump(Visits(was.modules, was.objects.Keys, done), names))
  }

  ghost function CountsWith(was: Layout, done: set<(string, string)>, names: set<string>, s: SegmentName): int {
    Weight(Bump(Visits(was.modules, was.objects.Keys, done), names), Shares(was.objects, was.segments[s].sections))
  }

  lemma ComponentBegins(was: Layout, now: Layout, done: set<(string, string)>, m: string, c: string)
    requires Progress(was, now, done) && m in now.modules && c in now.modules[m].components
    ensures m in was.modules && c in was.modules[m].components
    ensures was.modules[m].components[c].objects == now.modules[m].components[c].objects
    ensures InComponent(was, now, done, {})
    ensures forall s :: CountsWith(was, done, {}, s) == Counts(was, done, s)
  {
    hide Weight, Visits, SizesAre, Shares;
    var v := Visits(was.modules, was.objects.Keys, done);
    assert Bump(v, {}) == v;
  }

  lemma ComponentGoesOn(was: Layout, a: Layout, b: Layout, done: set<(string, string)>, names: set<string>, o: string)
    requires InComponent(was, a, done, names) && o in a.objects && o !in names
    requires SameSections(a.objects, b.objects) && o in b.objects && a.modules == b.modules && a.segments == b.segments
    requires forall p :: p in a.objects && p != o ==> a.objects[p] == b.objects[p]
    requires forall s :: IsPart(s) ==>
      At(b.objects[o].size, s) == At(a.objects[o].size, s) + Share(a.objects[o].sections, a.segments[s].sections)
    ensures InComponent(was, b, done, names + {o})
    ensures forall s :: IsPart(s) ==>
      CountsWith(was, done, names + {o}, s) == CountsWith(was, done, names, s) + At(b.objects[o].size, s)
  {
    hide Share, SizesAre, Weight, At, IsPart, Repeated, Shares;
    var v := Visits(was.modules, was.objects.Keys, done);
    SizesStep(a.objects, b.objects, a.segments, Bump(v, names), o);
    CountObject(was.objects, b.objects, a.segments, v, names, o);
  }

  lemma ComponentEnds(was: Layout, now: Layout, done: set<(string, string)>, m: string, c: string)
    requires m in was.modules && c in was.modules[m].components && (m, c) !in done
    requires InComponent(was, now, done, was.modules[m].components[c].objects)
    ensures Progress(was, now, done + {(m, c)})
    ensures forall s ::
      CountsWith(was, done, was.modules[m].components[c].objects, s) == Counts(was, done + {(m, c)}, s)
  {
    hide Weight, SizesAre, Shares, Visits;
    VisitsStep(was.modules, was.objects.Keys, done, m, c);
  }

  /** Only the size of component c of module m may have changed. */
  ghost predicate ComponentSized(a: Modules, b: Modules, m: string, c: string) {
    && m in a && c in a[m].components && a.Keys == b.Keys
    && a[m].components.Keys == b[m].components.Keys && a[m].size == b[m].size
    && (forall p :: p in a && p != m ==> a[p] == b[p])
    && (forall d :: d in a[m].components && d != c ==> a[m].components[d] == b[m].components[d])
    && a[m].components[c].objects == b[m].components[c].objects
  }

  lemma ComponentResized(was: Layout, a: Layout, b: Layout, done: set<(string, string)>, m: string, c: string)
    requires ComponentSized(a.modules, b.modules, m, c) && a.objects == b.objects && a.segments == b.segments
    ensures Progress(was, a, done) ==> Progress(was, b, done)
    ensures Closed(a.objects, a.modules) ==> Closed(b.objects, b.modules)
  {
    hide SizesAre, Visits;
    assert forall p, d :: p in a.modules && d in a.modules[p].components ==>
      a.modules[p].components[d].objects == b.modules[p].components[d].objects;
  }

  lemma ModuleResized(was: Layout, a: Layout, b: Layout, done: set<(string, string)>, m: string)
    requires m in a.modules && a.modules.Keys == b.modules.Keys && a.objects == b.objects && a.segments == b.segments
    requires a.modules[m].components == b.modules[m].components
    requires forall p :: p in a.modules && p != m ==> a.modules[p] == b.modules[p]
    ensures Progress(was, a, done) ==> Progress(was, b, done)
    ensures Closed(a.objects, a.modules) ==> Closed(b.objects, b.modules)
  {
    hide SizesAre, Visits;
    assert forall p :: p in a.modules ==> a.modules[p].components == b.modules[p].components;
  }

  // ---------- lines of a map file ----------

  const HEAP_SECTION := "HEAP"
  const STACK_SECTION := "CSTACK"

  /** What the parser takes out of a line: names resolved, addresses and archives already looked up. */
  datatype Line =
    | Load(m: string, c: string, o: string)
    | Bytes(m: string, c: string, o: string, section: string, n: nat)
    | Fill(section: string, n: nat)
    | HeapSize(n: nat)
    | StackSize(n: nat)
    | SectionSize(s: SegmentName, section: string, n: nat)
    | MemoryPart(s: SegmentName, n: nat)

  function With(sections: Sections, section: string, n: nat): Sections {
    sections[section := if section in sections then sections[section] + n else n]
  }

  function WithObject(objects: Objects, o: string): Objects {
    if o in objects then objects else objects[o := Obj(map[], NO_SIZE)]
  }

  function Informed(objects: Objects, o: string, section: string, n: nat): Objects {
    var all := WithObject(objects, o);
    all[o := all[o].(sections := With(all[o].sections, section, n))]
  }

  function Attached(modules: Modules, m: string, c: string, o: string): Modules {
    var module' := if m in modules then modules[m] else Module(map[], NO_SIZE);
    var component := if c in module'.components then module'.components[c] else Component({}, NO_SIZE);
    modules[m := module'.(components := module'.components[c := component.(objects := component.objects + {o})])]
  }

  lemma InformedNew(objects: Objects, o: string, section: string, n: nat)
    ensures Informed(WithObject(objects, o), o, section, n) == Informed(objects, o, section, n)
  {}

  /** Attaching is the same once module and component have been made. */
  lemma AttachedSteps(a: Modules, b: Modules, m: string, c: string, o: string)
    requires var module' := if m in a then a[m] else Module(map[], NO_SIZE);
      var full := module'.(components := if c in module'.components then module'.components
                                         else module'.components[c := Component({}, NO_SIZE)]);
      b == a[m := full]
    ensures m in b && c in b[m].components
    ensures var component := b[m].components[c];
      Attached(a, m, c, o) ==
      b[m := b[m].(components := b[m].components[c := component.(objects := component.objects + {o})])]
  {
    var module' := if m in a then a[m] else Module(map[], NO_SIZE);
    var component := b[m].components[c];
    var full := component.(objects := component.objects + {o});
    assert module'.components[c := full] == b[m].components[c := full];
  }

  function Opened(segments: Segments, s: SegmentName, section: string, n: nat): Segments {
    if section in segments[s].sections then segments
    else segments[s := segments[s].(sections := segments[s].sections[section := n])]
  }

  function Grown(segments: Segments, s: SegmentName, section: string, n: nat): Segments {
    segments[s := segments[s].(sections := With(segments[s].sections, section, n))]
  }

  const START := Layout(map[], map[], EMPTY_SEGMENTS)

  function Applied(l: Layout, line: Line): Layout {
    match line
    case Load(m, c, o) => l.(objects := WithObject(l.objects, o), modules := Attached(l.modules, m, c, o))
    case Bytes(m, c, o, section, n) =>
      l.(objects := Informed(l.objects, o, section, n),
         modules := if o in l.objects then l.modules else Attached(l.modules, m, c, o))
    case Fill(section, n) => l.(objects := Informed(l.objects, GAPS, section, n))
    case HeapSize(n) =>
      l.(objects := Informed(l.objects, LINKER, HEAP_SECTION, n), segments := Grown(l.segments, Heap, HEAP_SECTION, n))
    case StackSize(n) =>
      l.(objects := Informed(l.objects, LINKER, STACK_SECTION, n),
         segments := Grown(l.segments, Stack, STACK_SECTION, n))
    case SectionSize(s, section, n) => l.(segments := Opened(l.segments, s, section, n))
    case MemoryPart(s, n) => l.(segments := l.segments[s := l.segments[s].(totalSize := l.segments[s].totalSize + n)])
  }

  /** The dictionaries after some lines. */
  function Run(lines: seq<Line>): Layout {
    if lines == [] then START else Applied(Run(lines[..|lines| - 1]), lines[|lines| - 1])
  }

  ghost predicate Sound(objects: Objects, modules: Modules) {
    Closed(objects, modules) && Unsized(Layout(objects, modules, EMPTY_SEGMENTS))
  }

  lemma InformedKeeps(objects: Objects, modules: Modules, o: string, section: string, n: nat)
    requires Sound(objects, modules)
    ensures Sound(Informed(objects, o, section, n), modules) && Sound(WithObject(objects, o), modules)
  {}

  lemma AttachedKeeps(objects: Objects, modules: Modules, m: string, c: string, o: string)
    requires Sound(objects, modules) && o in objects
    ensures Sound(objects, Attached(modules, m, c, o))
  {}

  lemma AppliedKeeps(l: Layout, line: Line)
    requires Sound(l.objects, l.modules)
    ensures Sound(Applied(l, line).objects, Applied(l, line).modules)
  {
    hide Sound, Informed, Attached;
    match line
    case Load(m, c, o) =>
      InformedKeeps(l.objects, l.modules, o, "", 0);
      AttachedKeeps(WithObject(l.objects, o), l.modules, m, c, o);
    case Bytes(m, c, o, section, n) =>
      InformedKeeps(l.objects, l.modules, o, section, n);
      InformedHas(l.objects, o, section, n);
      AttachedKeeps(Informed(l.objects, o, section, n), l.modules, m, c, o);
    case Fill(section, n) => InformedKeeps(l.objects, l.modules, GAPS, section, n);
    case HeapSize(n) => InformedKeeps(l.objects, l.modules, LINKER, HEAP_SECTION, n);
    case StackSize(n) => InformedKeeps(l.objects, l.modules, LINKER, STACK_SECTION, n);
    case _ =>
  }

  lemma InformedHas(objects: Objects, o: string, section: string, n: nat)
    ensures o in Informed(objects, o, section, n)
  {}

  lemma {:induction false} RunKeeps(lines: seq<Line>)
    ensures Sound(Run(lines).objects, Run(lines).modules)
  {
    hide Sound, Applied;
    if lines != [] {
      RunKeeps(lines[..|lines| - 1]);
      AppliedKeeps(Run(lines[..|lines| - 1]), lines[|lines| - 1]);
    } else {
      StartKeeps();
    }
  }

  lemma SoundMeans(l: Layout)
    requires Sound(l.objects, l.modules)
    ensures Closed(l.objects, l.modules) && Unsized(l)
  {}

  lemma StartKeeps()
    ensures Sound(START.objects, START.modules)
  {}

  /** What the tool warns about for a layout: the check runs on what sizing and cleaning made of it. */
  ghost predicate Reports(l: Layout, warnings: set<Warning>) {
    exists sized: Layout :: Sized(l, sized) && forall w :: w in warnings <==> Warns(Cleaned(sized), w)
  }

  ghost function Restricted(m: map<string, int>, keys: set<string>): map<string, int> {
    map k | k in m && k in keys :: m[k]
  }

  lemma TotalsMet(m: map<string, int>, met: set<string>, k: string)
    ensures Total(Restricted(m, {})) == 0
    ensures k in m && k !in met ==> Total(Restricted(m, met + {k})) == Total(Restricted(m, met)) + m[k]
  {
    hide Total;
    assert Restricted(m, {}) == map[];
    TotalZero(map[]);
    if k in m && k !in met {
      assert Restricted(m, met + {k}) == Restricted(m, met)[k := m[k]];
      TotalInsert(Restricted(m, met), k, m[k]);
    }
  }

  predicate IsChecked(s: SegmentName) { s == Flash || s == Ram || s == Rom }

  datatype Warning =
    | ModulesDiffer(segment: SegmentName)
    | SectionDiffers(segment: SegmentName, section: string)
    | ObjectsDiffer(segment: SegmentName)

  function SectionBytes(objects: Objects, s: string): map<string, int> {
    map o | o in objects && s in objects[o].sections :: objects[o].sections[s]
  }

  ghost function SectionTotals(objects: Objects, sections: Sections): map<string, int> {
    map s | s in sections :: Total(SectionBytes(objects, s))
  }

  /** What the linker's gaps take of a segment. */
  ghost function Gaps(objects: Objects, seg: Sections): int {
    if GAPS in objects then Share(objects[GAPS].sections, seg) else 0
  }

  /** When each warning is due. */
  ghost predicate Warns(l: Layout, w: Warning) {
    && IsChecked(w.segment)
    && var seg := l.segments[w.segment];
      match w
      case ModulesDiffer(c) => ModuleTotal(l.modules, c) + Gaps(l.objects, seg.sections) != seg.size
      case SectionDiffers(c, s) => s in seg.sections && Total(SectionBytes(l.objects, s)) != seg.sections[s]
      case ObjectsDiffer(c) => Total(SectionTotals(l.objects, seg.sections)) != seg.size
  }

  lemma WarnsMean(l: Layout, c: SegmentName)
    requires IsChecked(c)
    ensures var seg := l.segments[c];
      && (Warns(l, ModulesDiffer(c)) <==> ModuleTotal(l.modules, c) + Gaps(l.objects, seg.sections) != seg.size)
      && (Warns(l, ObjectsDiffer(c)) <==> Total(SectionTotals(l.objects, seg.sections)) != seg.size)
      && forall s :: Warns(l, SectionDiffers(c, s)) <==>
           s in seg.sections && Total(SectionBytes(l.objects, s)) != seg.sections[s]
  {}

  // ---------- cleaning ----------

  function WithBytes(o: Sections): Sections {
    map s | s in o && o[s] > 0 :: o[s]
  }

  predicate Occupied(objects: Objects, o: string) {
    o in objects && WithBytes(objects[o].sections) != map[]
  }

  function CleanComponent(c: Component, objects: Objects): Component {
    c.(objects := set o | o in c.objects && Occupied(objects, o))
  }

  function CleanModule(m: Module, objects: Objects): Module {
    m.(components := map c | c in m.components && CleanComponent(m.components[c], objects).objects != {} ::
         CleanComponent(m.components[c], objects))
  }

  function Cleaned(l: Layout): Layout {
    Layout(
      map o | o in l.objects && Occupied(l.objects, o) :: l.objects[o].(sections := WithBytes(l.objects[o].sections)),
      map m | m in l.modules && CleanModule(l.modules[m], l.objects).components != map[] ::
        CleanModule(l.modules[m], l.objects),
      map s | s in l.segments :: l.segments[s].(sections := WithBytes(l.segments[s].sections)))
  }

  lemma SizesStay(l: Layout)
    ensures forall s :: Cleaned(l).segments[s].size == l.segments[s].size
  {}

  lemma StaysClosed(l: Layout)
    requires Closed(l.objects, l.modules)
    ensures Closed(Cleaned(l).objects, Cleaned(l).modules)
  {}

  method SumOf(m: map<string, int>) returns (n: int)
    ensures n == Total(m)
  {
    n := 0;
    var rest := m;
    while rest != map[]
      invariant n + Total(rest) == Total(m)
      decreases |rest|
    {
      var k :| k in rest.Keys;
      TotalSplit(rest, k);
      n := n + rest[k];
      rest := rest - {k};
    }
  }

  lemma NoSize()
    ensures forall s :: At(NO_SIZE, s) == 0
  {}

  ghost function SizedSegment(seg: Segment): Segment { seg.(size := Total(seg.sections)) }

  ghost function SizedSegments(segments: Segments): Segments { map s | s in segments :: SizedSegment(segments[s]) }

  lemma SegmentsSized(segments: Segments)
    ensures forall s :: SizedSegments(segments)[s] == segments[s].(size := Total(segments[s].sections))
  {}

  /** The used size of a segment: its sections, or all that parts, sections and stack leave of the RAM. */
  ghost function Used(segments: Segments, heapIsRemainingRam: bool, s: SegmentName): int {
    if s == Heap && heapIsRemainingRam then
      segments[Ram].totalSize - Total(segments[Ram].sections) - Total(segments[Stack].sections)
    else Total(segments[s].sections)
  }

  /** Nothing has been counted yet. */
  ghost predicate Unsized(l: Layout) {
    && (forall o :: o in l.objects ==> l.objects[o].size == NO_SIZE)
    && (forall m :: m in l.modules ==> l.modules[m].size == NO_SIZE)
    && forall m, c :: m in l.modules && c in l.modules[m].components ==> l.modules[m].components[c].size == NO_SIZE
  }

  function ModuleCounts(modules: Modules, met: set<string>, s: SegmentName): map<string, int> {
    map m | m in met && m in modules :: At(modules[m].size, s)
  }

  ghost function ModuleTotal(modules: Modules, s: SegmentName): int { Total(ModuleCounts(modules, modules.Keys, s)) }

  /** No object of the module has a byte in the segment. */
  ghost predicate Flat(l: Layout, m: string, s: SegmentName) {
    && m in l.modules
    && forall c, o :: c in l.modules[m].components && o in l.modules[m].components[c].objects && o in l.objects ==>
      Share(l.objects[o].sections, l.segments[s].sections) == 0
  }

  /** What the size calculation makes of a layout. */
  ghost predicate Sized(a: Layout, b: Layout) {
    && SameSections(a.objects, b.objects) && SameShape(a.modules, b.modules)
    && (forall s :: b.segments[s].sections == a.segments[s].sections)
    && (forall s :: IsPart(s) ==> b.segments[s].size == Total(a.segments[s].sections))
    && (forall s :: IsPart(s) ==> ModuleTotal(b.modules, s) == Counts(a, Pairs(a.modules), s))
    && forall m, s :: m in b.modules && IsPart(s) && Flat(a, m, s) ==> At(b.modules[m].size, s) == 0
  }

  lemma UnsizedStays(l: Layout)
    ensures Unsized(l) <==> Unsized(l.(segments := SizedSegments(l.segments)))
    ensures forall m :: m in l.modules && Unsized(l) ==> l.modules[m].size == NO_SIZE
  {}

  /** The modules met so far add up to what was counted in them, and those without bytes in a segment have no size
      there. */
  ghost predicate ModulesDone(was: Layout, modules: Modules, met: set<string>) {
    && met <= modules.Keys
    && (forall s :: IsPart(s) ==> Total(ModuleCounts(modules, met, s)) == Counts(was, PairsIn(was.modules, met), s))
    && forall m, s :: m in met && IsPart(s) && Flat(was, m, s) ==> At(modules[m].size, s) == 0
  }

  lemma CountingBegins(was: Layout)
    requires Unsized(was)
    ensures Progress(was, was, {}) && PairsIn(was.modules, {}) == {}
    ensures ModulesDone(was, was.modules, {})
  {
    hide Share, Holders;
    var v := Visits(was.modules, was.objects.Keys, {});
    assert forall o :: o in v ==> v[o] == 0;
    forall s ensures Counts(was, {}, s) == 0 {
      TotalZero(Weights(v, Shares(was.objects, was.segments[s].sections)));
    }
  }

  lemma ModuleBegins(was: Layout, now: Layout, met: set<string>, m: string)
    requires Unsized(was) && m in was.modules && m !in met && m in now.modules && now.modules[m] == was.modules[m]
    ensures forall c :: c in now.modules[m].components ==> (m, c) !in PairsIn(was.modules, met)
    ensures forall c :: c in now.modules[m].components ==> now.modules[m].components[c].size == NO_SIZE
    ensures now.modules[m].size == NO_SIZE
    ensures var names := now.modules[m].components.Keys;
      PairsIn(was.modules, met) + PairsOf(m, names) == PairsIn(was.modules, met + {m})
  {}

  /** A flat module adds nothing. */
  lemma FlatModule(was: Layout, done: set<(string, string)>, m: string, s: SegmentName)
    requires m in was.modules && Flat(was, m, s)
    ensures Counts(was, done + PairsOf(m, was.modules[m].components.Keys), s) == Counts(was, done, s)
  {
    hide Share, Total, Counted, Repeated, Met, PairsOf, Flat, Holders;
    var then' := done + PairsOf(m, was.modules[m].components.Keys);
    var shares := Shares(was.objects, was.segments[s].sections);
    forall o | o in was.objects
      ensures Counted(Met(was.modules, o, then'), shares[o]) == Counted(Met(was.modules, o, done), shares[o])
    {
      FlatObject(was, done, m, s, o);
    }
    assert Weights(Visits(was.modules, was.objects.Keys, then'), shares) ==
           Weights(Visits(was.modules, was.objects.Keys, done), shares);
  }

  lemma AllPairs(a: Modules, b: Modules)
    requires SameShape(a, b)
    ensures a.Keys == b.Keys && PairsIn(a, b.Keys) == Pairs(a)
  {}

  lemma ProgressKeeps(was: Layout, now: Layout, done: set<(string, string)>)
    requires Progress(was, now, done)
    ensures SameSections(was.objects, now.objects) && SameShape(was.modules, now.modules)
    ensures was.segments == now.segments && !IsPart(Heap)
  {}

  lemma CountingEnds(a: Layout, was: Layout, now: Layout, met: set<string>)
    requires was == Layout(a.objects, a.modules, SizedSegments(a.segments))
    requires SameSections(was.objects, now.objects) && SameShape(was.modules, now.modules) && met == now.modules.Keys
    requires forall s :: now.segments[s].sections == was.segments[s].sections
    requires forall s :: IsPart(s) ==> now.segments[s] == was.segments[s]
    requires ModulesDone(was, now.modules, met)
    ensures Sized(a, now)
  {
    hide At, Share, Weight, Visits, Total, SameShape, SameSections, ModuleCounts;
    AllPairs(was.modules, now.modules);
    forall s | IsPart(s) ensures Counts(was, Pairs(a.modules), s) == Counts(a, Pairs(a.modules), s) {
      assert was.segments[s].sections == a.segments[s].sections;
    }
    forall m, s | Flat(a, m, s) ensures Flat(was, m, s) {
      assert was.segments[s].sections == a.segments[s].sections;
    }
  }

  lemma ModuleCounted(before: Modules, after: Modules, met: set<string>, m: string)
    requires before.Keys == after.Keys && m in after && m !in met && met <= after.Keys
    requires forall p :: p in after && p != m ==> before[p] == after[p]
    ensures forall s :: Total(ModuleCounts(after, met + {m}, s)) ==
                        Total(ModuleCounts(before, met, s)) + At(after[m].size, s)
  {
    hide At, Total;
    forall s
      ensures Total(ModuleCounts(after, met + {m}, s)) == Total(ModuleCounts(before, met, s)) + At(after[m].size, s)
    {
      TotalInsert(ModuleCounts(before, met, s), m, At(after[m].size, s));
      assert ModuleCounts(after, met + {m}, s) == ModuleCounts(before, met, s)[m := At(after[m].size, s)];
    }
  }

  lemma OneMoreModule(was: Layout, before: Modules, after: Modules, met: set<string>, m: string)
    requires ModulesDone(was, before, met) && m !in met && before.Keys == after.Keys
    requires m in was.modules && m in after && before[m].size == NO_SIZE
    requires after[m].components.Keys == was.modules[m].components.Keys
    requires forall p :: p in after && p != m ==> after[p] == before[p]
    requires var pairs := PairsIn(was.modules, met);
      forall s :: IsPart(s) ==>
        At(after[m].size, s) == At(before[m].size, s) +
        Counts(was, pairs + PairsOf(m, after[m].components.Keys), s) - Counts(was, pairs, s)
    ensures ModulesDone(was, after, met + {m})
  {
    hide At, Total, Counts, Flat, ModuleCounts, IsPart;
    var pairs := PairsIn(was.modules, met);
    assert pairs + PairsOf(m, after[m].components.Keys) == PairsIn(was.modules, met + {m});
    ModuleCounted(before, after, met, m);
    NoSize();
    forall s | Flat(was, m, s)
      ensures Counts(was, PairsIn(was.modules, met + {m}), s) == Counts(was, pairs, s)
    {
      FlatModule(was, pairs, m, s);
    }
  }

  lemma {:induction false} CountedZero(n: nat)
    ensures Repeated(n, 0) == 0 && Counted(n, 0) == 0
  {
    if n > 0 {
      CountedZero(n - 1);
    }
  }

  lemma FlatObject(was: Layout, done: set<(string, string)>, m: string, s: SegmentName, o: string)
    requires Flat(was, m, s) && o in was.objects
    ensures var then' := done + PairsOf(m, was.modules[m].components.Keys);
      var share := Share(was.objects[o].sections, was.segments[s].sections);
      Counted(Met(was.modules, o, then'), share) == Counted(Met(was.modules, o, done), share)
  {
    hide Share, Counted;
    var then' := done + PairsOf(m, was.modules[m].components.Keys);
    var share := Share(was.objects[o].sections, was.segments[s].sections);
    if share == 0 {
      CountedZero(Met(was.modules, o, then'));
      CountedZero(Met(was.modules, o, done));
    } else {
      assert Holders(was.modules, o) * then' == Holders(was.modules, o) * done;
    }
  }

  lemma PairsStart(done: set<(string, string)>, m: string)
    ensures done + PairsOf(m, {}) == done
  {}

  lemma PairsStep(done: set<(string, string)>, m: string, met: set<string>, c: string)
    requires c !in met && (m, c) !in done
    ensures (m, c) !in done + PairsOf(m, met)
    ensures (done + PairsOf(m, met)) + {(m, c)} == done + PairsOf(m, met + {c})
  {}

  ghost function PairsOf(m: string, names: set<string>): set<(string, string)> {
    set c | c in names :: (m, c)
  }

  // ---------- the tool ----------

  class Memory {
    var objects: Objects
    var modules: Modules
    var segments: Segments
    const heapIsRemainingRam: bool

    function Now(): Layout
      reads this
    {
      Layout(objects, modules, segments)
    }

    ghost predicate Valid()
      reads this
    {
      Closed(objects, modules)
    }

    constructor (heapIsRemainingRam: bool)
      ensures Now() == START && this.heapIsRemainingRam == heapIsRemainingRam
    {
      objects, modules, segments := map[], map[], EMPTY_SEGMENTS;
      this.heapIsRemainingRam := heapIsRemainingRam;
    }

    /** Note the bytes an object takes in a section; the object is made when it is new. */
    method AddObjInfo(o: string, section: string, n: nat)
      modifies this`objects
      ensures objects == Informed(old(objects), o, section, n)
    {
      if o !in objects {
        objects := objects[o := Obj(map[], NO_SIZE)];
      }
      var sections := objects[o].sections;
      sections := sections[section := if section in sections then sections[section] + n else n];
      objects := objects[o := objects[o].(sections := sections)];
    }

    /** Attach an object to a component of a module; all three are made when they are new. */
    method AddObj2Comp(m: string, c: string, o: string)
      modifies this`objects, this`modules
      ensures objects == WithObject(old(objects), o) && modules == Attached(old(modules), m, c, o)
    {
      if m !in modules {
        modules := modules[m := Module(map[], NO_SIZE)];
      }
      if c !in modules[m].components {
        modules := modules[m := modules[m].(components := modules[m].components[c := Component({}, NO_SIZE)])];
      }
      assert modules == old(modules)[m := modules[m]];
      if o !in objects {
        objects := objects[o := Obj(map[], NO_SIZE)];
      }
      ghost var then' := modules;
      AttachedSteps(old(modules), then', m, c, o);
      var component := modules[m].components[c];
      if o !in component.objects {
        component := component.(objects := component.objects + {o});
      }
      assert component.objects == then'[m].components[c].objects + {o};
      modules := modules[m := modules[m].(components := modules[m].components[c := component])];
    }

    /** The first size given for a section stays. */
    method AddSection(s: SegmentName, section: string, n: nat)
      modifies this`segments
      ensures segments == Opened(old(segments), s, section, n)
    {
      if section !in segments[s].sections {
        segments := segments[s := segments[s].(sections := segments[s].sections[section := n])];
      }
    }

    method AddSectionPart(s: SegmentName, section: string, n: nat)
      modifies this`segments
      ensures segments == Grown(old(segments), s, section, n)
    {
      var sections := segments[s].sections;
      sections := sections[section := if section in sections then sections[section] + n else n];
      segments := segments[s := segments[s].(sections := sections)];
    }

    method AddPart(s: SegmentName, n: nat)
      modifies this`segments
      ensures segments == old(segments)[s := old(segments)[s].(totalSize := old(segments)[s].totalSize + n)]
    {
      segments := segments[s := segments[s].(totalSize := segments[s].totalSize + n)];
    }

    method ParseLine(line: Line)
      modifies this`objects, this`modules, this`segments
      ensures Now() == Applied(old(Now()), line)
    {
      hide Attached, Informed, Grown, Opened;
      match line
      case Load(m, c, o) => AddObj2Comp(m, c, o);
      case Bytes(m, c, o, section, n) =>
        if o !in objects {
          AddObj2Comp(m, c, o);
          InformedNew(old(objects), o, section, n);
        }
        AddObjInfo(o, section, n);
      case Fill(section, n) => AddObjInfo(GAPS, section, n);
      case HeapSize(n) =>
        AddSectionPart(Heap, HEAP_SECTION, n);
        AddObjInfo(LINKER, HEAP_SECTION, n);
      case StackSize(n) =>
        AddSectionPart(Stack, STACK_SECTION, n);
        AddObjInfo(LINKER, STACK_SECTION, n);
      case SectionSize(s, section, n) => AddSection(s, section, n);
      case MemoryPart(s, n) => AddPart(s, n);
    }

    /** Add n bytes for every segment that knows the section. */
    function AddTo(size: Sizes, section: string, n: nat): (r: Sizes)
      reads this
      ensures forall s :: IsPart(s) ==> At(r, s) == At(size, s) + if section in segments[s].sections then n else 0
    {
      Plus(size, Sizes(if section in segments[Flash].sections then n else 0,
                       if section in segments[Ram].sections then n else 0,
                       if section in segments[Rom].sections then n else 0,
                       if section in segments[Default].sections then n else 0))
    }

    method CalcObject(name: string)
      requires Valid() && name in objects
      modifies this`objects
      ensures Valid() && name in objects
      ensures objects == old(objects)[name := old(objects)[name].(size := objects[name].size)]
      ensures forall s :: IsPart(s) ==>
        At(objects[name].size, s) ==
        At(old(objects)[name].size, s) + Share(old(objects)[name].sections, segments[s].sections)
    {
      hide Share, At, IsPart;
      var o := objects[name];
      var size, todo := o.size, o.sections.Keys;
      ghost var done: set<string> := {};
      forall s | IsPart(s) ensures Share(Part(o.sections, {}), segments[s].sections) == 0 {
        ShareOfAll(o.sections, segments[s].sections);
      }
      while todo != {}
        invariant done * todo == {} && done + todo == o.sections.Keys
        invariant forall s :: IsPart(s) ==>
          At(size, s) == At(o.size, s) + Share(Part(o.sections, done), segments[s].sections)
      {
        var section :| section in todo;
        forall s | IsPart(s)
          ensures Share(Part(o.sections, done + {section}), segments[s].sections) ==
                  Share(Part(o.sections, done), segments[s].sections) +
                  if section in segments[s].sections then o.sections[section] else 0
        {
          ShareStep(o.sections, done, section, segments[s].sections);
        }
        size := AddTo(size, section, o.sections[section]);
        todo, done := todo - {section}, done + {section};
      }
      assert done == o.sections.Keys;
      forall s | IsPart(s)
        ensures Share(Part(o.sections, done), segments[s].sections) == Share(o.sections, segments[s].sections)
      {
        ShareOfAll(o.sections, segments[s].sections);
      }
      objects := objects[name := o.(size := size)];
    }

    method CalcComponent(m: string, c: string, ghost was: Layout, ghost done: set<(string, string)>)
      requires Valid() && m in modules && c in modules[m].components
      requires Progress(was, Now(), done) && (m, c) !in done
      modifies this`objects, this`modules
      ensures Valid() && Progress(was, Now(), done + {(m, c)})
      ensures ComponentSized(old(modules), modules, m, c)
      ensures forall s :: IsPart(s) ==>
        At(modules[m].components[c].size, s) ==
        At(old(modules)[m].components[c].size, s) + Counts(was, done + {(m, c)}, s) - Counts(was, done, s)
    {
      hide Share, SizesAre, At, IsPart, Counts, CountsWith, Visits, SameShape, Progress, InComponent;
      var component := modules[m].components[c];
      var size, todo := component.size, component.objects;
      ghost var met: set<string> := {};
      ComponentBegins(was, Now(), done, m, c);
      while todo != {}
        invariant met * todo == {} && met + todo == component.objects
        invariant Valid() && InComponent(was, Now(), done, met) && modules == old(modules)
        invariant forall s :: IsPart(s) ==>
          At(size, s) == At(component.size, s) + CountsWith(was, done, met, s) - Counts(was, done, s)
      {
        var o :| o in todo;
        ghost var before := Now();
        CalcObject(o);
        assert SameSections(before.objects, objects);
        ComponentGoesOn(was, before, Now(), done, met, o);
        size := Plus(size, objects[o].size);
        todo, met := todo - {o}, met + {o};
      }
      assert met == component.objects;
      ComponentEnds(was, Now(), done, m, c);
      ghost var before := Now();
      modules := modules[m := modules[m].(components := modules[m].components[c := component.(size := size)])];
      ComponentResized(was, before, Now(), done + {(m, c)}, m, c);
    }

    method CalcModule(m: string, ghost was: Layout, ghost done: set<(string, string)>)
      requires Valid() && m in modules && Progress(was, Now(), done)
      requires forall c :: c in modules[m].components ==> (m, c) !in done && modules[m].components[c].size == NO_SIZE
      modifies this`objects, this`modules
      ensures Valid() && m in modules && Progress(was, Now(), done + PairsOf(m, modules[m].components.Keys))
      ensures modules.Keys == old(modules).Keys && modules[m].components.Keys == old(modules)[m].components.Keys
      ensures forall p :: p in modules && p != m ==> modules[p] == old(modules)[p]
      ensures forall s :: IsPart(s) ==>
        At(modules[m].size, s) == At(old(modules)[m].size, s) +
        Counts(was, done + PairsOf(m, modules[m].components.Keys), s) - Counts(was, done, s)
    {
      hide SizesAre, At, IsPart, Counts, Progress, Closed, PairsOf;
      var size, todo := modules[m].size, modules[m].components.Keys;
      ghost var start, met: set<string>, pairs := modules, {}, done;
      PairsStart(done, m);
      NoSize();
      while todo != {}
        invariant met * todo == {} && met + todo == start[m].components.Keys && pairs == done + PairsOf(m, met)
        invariant Valid() && Progress(was, Now(), pairs)
        invariant modules.Keys == start.Keys && modules[m].components.Keys == start[m].components.Keys
        invariant modules[m].size == start[m].size
        invariant forall p :: p in modules && p != m ==> modules[p] == start[p]
        invariant forall c :: c in todo ==> modules[m].components[c] == start[m].components[c]
        invariant forall s :: IsPart(s) ==>
          At(size, s) == At(start[m].size, s) + Counts(was, pairs, s) - Counts(was, done, s)
      {
        var c :| c in todo;
        PairsStep(done, m, met, c);
        CalcComponent(m, c, was, pairs);
        size := Plus(size, modules[m].components[c].size);
        todo, met, pairs := todo - {c}, met + {c}, pairs + {(m, c)};
      }
      assert met == start[m].components.Keys;
      ghost var before := Now();
      modules := modules[m := modules[m].(size := size)];
      ModuleResized(was, before, Now(), pairs, m);
    }

    /** The whole map file: its lines, then sizes, cleaning and the check, in this order. */
    method ParseMapFile(lines: seq<Line>) returns (warnings: set<Warning>)
      requires Now() == START
      modifies this`objects, this`modules, this`segments
      ensures Reports(Run(lines), warnings)
      ensures forall s :: segments[s].size == Used(Run(lines).segments, heapIsRemainingRam, s)
    {
      hide Applied, Closed, Unsized, Sound, Cleaned, Sized, Warns, Used;
      for k := 0 to |lines|
        invariant Now() == Run(lines[..k])
      {
        ParseLine(lines[k]);
        assert lines[..k + 1][..k] == lines[..k];
      }
      assert lines[..|lines|] == lines;
      RunKeeps(lines);
      SoundMeans(Now());
      CalculateSizes();
      ghost var sized := Now();
      Clean();
      SizesStay(sized);
      warnings := CheckSizes();
    }

    method CalcSegments()
      modifies this`segments
      ensures segments == SizedSegments(old(segments))
    {
      var todo: set<SegmentName> := segments.Keys;
      ghost var start := segments;
      while todo != {}
        invariant forall s :: segments[s] == if s in todo then start[s] else SizedSegment(start[s])
      {
        var s :| s in todo;
        var n := SumOf(segments[s].sections);
        segments := segments[s := segments[s].(size := n)];
        todo := todo - {s};
      }
    }

    /** The sizes of all modules, whatever order they are visited in. */
    method CalcModules()
      requires Valid() && Unsized(Now())
      modifies this`objects, this`modules
      ensures Valid() && Progress(old(Now()), Now(), PairsIn(old(modules), modules.Keys))
      ensures ModulesDone(old(Now()), modules, modules.Keys)
    {
      hide Total, SizesAre, At, IsPart, Counts, Closed, PairsOf, PairsIn, Progress, ModulesDone, Unsized;
      ghost var was, met: set<string>, pairs: set<(string, string)> := Now(), {}, {};
      var todo := modules.Keys;
      UnsizedStays(was);
      CountingBegins(was);
      while todo != {}
        invariant met * todo == {} && met + todo == was.modules.Keys == modules.Keys
        invariant pairs == PairsIn(was.modules, met)
        invariant Valid() && Progress(was, Now(), pairs)
        invariant forall m :: m in todo ==> modules[m] == was.modules[m]
        invariant ModulesDone(was, modules, met)
      {
        var m :| m in todo;
        ghost var before := modules;
        ModuleBegins(was, Now(), met, m);
        CalcModule(m, was, pairs);
        OneMoreModule(was, before, modules, met, m);
        todo, met, pairs := todo - {m}, met + {m}, pairs + PairsOf(m, modules[m].components.Keys);
      }
    }

    /** Sizes from the bottom up; what a heap of all the remaining RAM takes comes last. */
    method CalculateSizes()
      requires Valid() && Unsized(Now())
      modifies this`objects, this`modules, this`segments
      ensures Valid() && Sized(old(Now()), Now())
      ensures forall s :: segments[s].size == Used(old(segments), heapIsRemainingRam, s)
    {
      hide Total, SizedSegments, Progress, ModulesDone, Sized, Unsized, Closed, SizedSegment, PairsIn, IsPart;
      UnsizedStays(Now());
      CalcSegments();
      SegmentsSized(old(segments));
      ghost var was := Now();
      CalcModules();
      ProgressKeeps(was, Now(), PairsIn(was.modules, modules.Keys));
      if heapIsRemainingRam {
        var heap := segments[Ram].totalSize - segments[Ram].size - segments[Stack].size;
        segments := segments[Heap := segments[Heap].(size := heap)];
      }
      CountingEnds(old(Now()), was, Now(), modules.Keys);
    }

    /** Drop sections without bytes, then what has become empty. */
    method Clean()
      requires Valid()
      modifies this`objects, this`modules, this`segments
      ensures Valid() && Now() == Cleaned(old(Now()))
    {
      hide Closed;
      segments := map s | s in segments :: segments[s].(sections := WithBytes(segments[s].sections));
      ghost var before := Now();
      modules := map m | m in modules && CleanModule(modules[m], objects).components != map[] ::
        CleanModule(modules[m], objects);
      objects := map o | o in objects && Occupied(objects, o) ::
        objects[o].(sections := WithBytes(objects[o].sections));
      StaysClosed(before);
    }

    /** The warnings about Flash, Ram and Rom. */
    method CheckSizes() returns (warnings: set<Warning>)
      ensures forall w :: w in warnings <==> Warns(Now(), w)
    {
      var flash := CheckSegment(Flash);
      var ram := CheckSegment(Ram);
      var rom := CheckSegment(Rom);
      warnings := flash + ram + rom;
    }

    method CheckSegment(c: SegmentName) returns (warnings: set<Warning>)
      requires IsChecked(c)
      ensures forall w :: w in warnings <==> w.segment == c && Warns(Now(), w)
    {
      hide Total, ModuleCounts, SectionTotals, SectionBytes, InSegment, Warns;
      WarnsMean(Now(), c);
      var modulesSize := SumOf(ModuleCounts(modules, modules.Keys, c));
      var gaps := 0;
      if GAPS in objects {
        gaps := SumOf(InSegment(objects[GAPS].sections, segments[c].sections));
      }
      var different, size := CheckSections(segments[c].sections);
      warnings := set s | s in different :: SectionDiffers(c, s);
      if modulesSize + gaps != segments[c].size {
        warnings := warnings + {ModulesDiffer(c)};
      }
      if size != segments[c].size {
        warnings := warnings + {ObjectsDiffer(c)};
      }
    }

    /** The sections whose size is not that of their objects, and the sum of the objects' sizes. */
    method CheckSections(sections: Sections) returns (different: set<string>, size: int)
      ensures forall s :: s in different <==> s in sections && Total(SectionBytes(objects, s)) != sections[s]
      ensures size == Total(SectionTotals(objects, sections))
    {
      hide Total, SectionBytes;
      different, size := {}, 0;
      var todo := sections.Keys;
      ghost var met: set<string> := {};
      ghost var totals := SectionTotals(objects, sections);
      TotalsMet(totals, {}, "");
      while todo != {}
        invariant met * todo == {} && met + todo == sections.Keys
        invariant size == Total(Restricted(totals, met))
        invariant forall s :: s in different <==> s in met && Total(SectionBytes(objects, s)) != sections[s]
      {
        var s :| s in todo;
        TotalsMet(totals, met, s);
        var section := SumOf(SectionBytes(objects, s));
        size := size + section;
        if section != sections[s] {
          different := different + {s};
        }
        todo, met := todo - {s}, met + {s};
      }
      assert Restricted(totals, met) == totals;
    }
  }
}
