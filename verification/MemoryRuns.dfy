/** What the memory overview collects and warns about, told from the lines of the map file alone. */
module MemoryRuns {
  import opened Sums
  import opened MemoryLayout
  import opened MemoryChecks

  // ---------- sums over lines ----------

  datatype Whose = Everyone | Only(o: string)

  predicate HasBytes(line: Line) {
    line.Bytes? || line.Fill? || line.HeapSize? || line.StackSize?
  }

  function ObjectOf(line: Line): string {
    match line
    case Bytes(_, _, o, _, _) => o
    case Fill(_, _) => "LINKER_GAPS"
    case _ => "linker"
  }

  function SectionOf(line: Line): string {
    match line
    case Bytes(_, _, _, section, _) => section
    case Fill(section, _) => section
    case HeapSize(_) => "HEAP"
    case _ => "CSTACK"
  }

  predicate Gives(line: Line, w: Whose, sections: set<string>) {
    HasBytes(line) && (w == Everyone || w == Only(ObjectOf(line))) && SectionOf(line) in sections
  }

  /** The bytes the lines give to an object, or to all of them, in some sections. */
  function BytesOf(lines: seq<Line>, w: Whose, sections: set<string>): nat {
    if lines == [] then 0
    else
      var last := lines[|lines| - 1];
      BytesOf(lines[..|lines| - 1], w, sections) + if Gives(last, w, sections) then last.n else 0
  }

  /** What heap and stack lines add to a section of a segment. */
  function GrowthOf(lines: seq<Line>, g: SegmentName, s: string): nat {
    if lines == [] then 0
    else
      var last := lines[|lines| - 1];
      GrowthOf(lines[..|lines| - 1], g, s) + if Grows(last, g, s) then last.n else 0
  }

  predicate Grows(line: Line, g: SegmentName, s: string) {
    || (line.HeapSize? && g == Heap && s == "HEAP")
    || (line.StackSize? && g == Stack && s == "CSTACK")
  }

  function PartsOf(lines: seq<Line>, g: SegmentName): nat {
    if lines == [] then 0
    else
      var last := lines[|lines| - 1];
      PartsOf(lines[..|lines| - 1], g) + if last.MemoryPart? && last.s == g then last.n else 0
  }

  predicate Lists(line: Line, g: SegmentName, s: string) {
    Grows(line, g, s) || (line.SectionSize? && line.s == g && line.section == s)
  }

  /** Line k is the first that lists the section. */
  predicate FirstAt(lines: seq<Line>, k: int, g: SegmentName, s: string) {
    0 <= k < |lines| && Lists(lines[k], g, s) && forall j :: 0 <= j < k ==> !Lists(lines[j], g, s)
  }

  // ---------- what is collected ----------

  predicate Has(objects: Objects, o: string, s: string) { o in objects && s in objects[o].sections }

  predicate SomeGive(lines: seq<Line>, o: string, s: string) {
    exists k :: 0 <= k < |lines| && Gives(lines[k], Only(o), {s})
  }

  lemma InformedHolds(objects: Objects, p: string, t: string, n: nat, o: string, s: string)
    ensures Has(Informed(objects, p, t, n), o, s) <==> Has(objects, o, s) || (p == o && t == s)
    ensures Cell(Informed(objects, p, t, n), o, s) == Cell(objects, o, s) + if p == o && t == s then n else 0
  {}

  lemma WithObjectHolds(objects: Objects, p: string, o: string, s: string)
    ensures Has(WithObject(objects, p), o, s) <==> Has(objects, o, s)
    ensures Cell(WithObject(objects, p), o, s) == Cell(objects, o, s)
  {}

  lemma AppliedHolds(l: Layout, line: Line, o: string, s: string)
    ensures Has(Applied(l, line).objects, o, s) <==> Has(l.objects, o, s) || Gives(line, Only(o), {s})
    ensures Cell(Applied(l, line).objects, o, s) ==
            Cell(l.objects, o, s) + if Gives(line, Only(o), {s}) then line.n else 0
  {
    hide Has, Cell, Informed, WithObject, Attached, Grown, Opened;
    match line
    case Load(m, c, p) => WithObjectHolds(l.objects, p, o, s);
    case Bytes(m, c, p, t, n) => InformedHolds(l.objects, p, t, n, o, s);
    case Fill(t, n) => InformedHolds(l.objects, "LINKER_GAPS", t, n, o, s);
    case HeapSize(n) => InformedHolds(l.objects, "linker", "HEAP", n, o, s);
    case StackSize(n) => InformedHolds(l.objects, "linker", "CSTACK", n, o, s);
    case _ =>
  }

  lemma SomeGiveStep(lines: seq<Line>, o: string, s: string)
    requires lines != []
    ensures SomeGive(lines, o, s) <==>
            SomeGive(lines[..|lines| - 1], o, s) || Gives(lines[|lines| - 1], Only(o), {s})
  {
    var before := lines[..|lines| - 1];
    if SomeGive(before, o, s) {
      var k :| 0 <= k < |before| && Gives(before[k], Only(o), {s});
      assert Gives(lines[k], Only(o), {s});
    }
  }

  /** An object has a section when some line gives it bytes there, and it has all the bytes the lines give it. */
  lemma {:induction false} ObjectsHold(lines: seq<Line>, o: string, s: string)
    ensures var objects := Run(lines).objects;
      && (o in objects && s in objects[o].sections <==> SomeGive(lines, o, s))
      && (SomeGive(lines, o, s) ==> objects[o].sections[s] == BytesOf(lines, Only(o), {s}))
      && Cell(objects, o, s) == BytesOf(lines, Only(o), {s})
  {
    hide Applied, Gives, SomeGive;
    if lines == [] {
      NobodyGives(o, s);
    } else {
      var before, last := lines[..|lines| - 1], lines[|lines| - 1];
      ObjectsHold(before, o, s);
      SomeGiveStep(lines, o, s);
      AppliedHolds(Run(before), last, o, s);
    }
  }

  lemma NobodyGives(o: string, s: string)
    ensures !SomeGive([], o, s) && Cell(START.objects, o, s) == 0
  {}

  // ---------- segments ----------

  lemma GrownHolds(segments: Segments, h: SegmentName, t: string, n: nat, g: SegmentName, s: string)
    ensures var was, now := segments[g].sections, Grown(segments, h, t, n)[g].sections;
      && (s in now <==> s in was || (g == h && s == t))
      && (s in now ==> now[s] == (if s in was then was[s] else 0) + if g == h && s == t then n else 0)
  {}

  lemma OpenedHolds(segments: Segments, h: SegmentName, t: string, n: nat, g: SegmentName, s: string)
    ensures var was, now := segments[g].sections, Opened(segments, h, t, n)[g].sections;
      && (s in now <==> s in was || (g == h && s == t))
      && (s in now ==> now[s] == if s in was then was[s] else n)
  {}

  lemma AppliedLists(l: Layout, line: Line, g: SegmentName, s: string)
    ensures var was, now := l.segments[g].sections, Applied(l, line).segments[g].sections;
      && (s in now <==> s in was || Lists(line, g, s))
      && (s in was ==> now[s] == was[s] + if Grows(line, g, s) then line.n else 0)
      && (s !in was && Lists(line, g, s) ==> now[s] == line.n)
  {
    hide Informed, WithObject, Attached, Grown, Opened;
    match line
    case HeapSize(n) => GrownHolds(l.segments, Heap, "HEAP", n, g, s);
    case StackSize(n) => GrownHolds(l.segments, Stack, "CSTACK", n, g, s);
    case SectionSize(h, t, n) => OpenedHolds(l.segments, h, t, n, g, s);
    case _ =>
  }

  lemma AppliedParts(l: Layout, line: Line, g: SegmentName)
    ensures Applied(l, line).segments[g].totalSize ==
            l.segments[g].totalSize + if line.MemoryPart? && line.s == g then line.n else 0
    ensures Applied(l, line).segments[g].size == l.segments[g].size
  {
    hide Informed, WithObject, Attached;
  }

  /** The available size of a segment is the sum of its parts. */
  lemma {:induction false} PartsAdd(lines: seq<Line>, g: SegmentName)
    ensures Run(lines).segments[g].totalSize == PartsOf(lines, g)
  {
    hide Applied;
    if lines != [] {
      PartsAdd(lines[..|lines| - 1], g);
      AppliedParts(Run(lines[..|lines| - 1]), lines[|lines| - 1], g);
    }
  }

  lemma {:induction false} NothingListed(lines: seq<Line>, g: SegmentName, s: string)
    requires forall k :: 0 <= k < |lines| ==> !Lists(lines[k], g, s)
    ensures s !in Run(lines).segments[g].sections && GrowthOf(lines, g, s) == 0
  {
    hide Applied;
    if lines != [] {
      NothingListed(lines[..|lines| - 1], g, s);
      AppliedLists(Run(lines[..|lines| - 1]), lines[|lines| - 1], g, s);
    }
  }

  /** The size of a section is what its first line says, and all that heap or stack lines add. */
  lemma {:induction false} SectionsHold(lines: seq<Line>, k: int, g: SegmentName, s: string)
    requires FirstAt(lines, k, g, s)
    ensures var sections := Run(lines).segments[g].sections;
      && s in sections
      && sections[s] == (if lines[k].SectionSize? then lines[k].n else 0) + GrowthOf(lines, g, s)
  {
    hide Applied, Grows;
    var before, last := lines[..|lines| - 1], lines[|lines| - 1];
    AppliedLists(Run(before), last, g, s);
    if k == |before| {
      NothingListed(before, g, s);
      OpensOrGrows(last, g, s);
    } else {
      SectionsHold(before, k, g, s);
    }
  }

  lemma OpensOrGrows(line: Line, g: SegmentName, s: string)
    ensures Lists(line, g, s) ==> (line.SectionSize? <==> !Grows(line, g, s))
  {}

  lemma {:induction false} SomeFirst(lines: seq<Line>, j: int, g: SegmentName, s: string)
    requires 0 <= j < |lines| && Lists(lines[j], g, s)
    ensures exists k :: FirstAt(lines, k, g, s)
  {
    hide Lists;
    if i :| 0 <= i < j && Lists(lines[i], g, s) {
      SomeFirst(lines, i, g, s);
    } else {
      assert FirstAt(lines, j, g, s);
    }
  }

  /** A segment has the sections that lines list, and no other. */
  lemma SectionsAreListed(lines: seq<Line>, g: SegmentName, s: string)
    ensures s in Run(lines).segments[g].sections <==> exists k :: FirstAt(lines, k, g, s)
  {
    hide Run, Lists;
    if j :| 0 <= j < |lines| && Lists(lines[j], g, s) {
      SomeFirst(lines, j, g, s);
      var k :| FirstAt(lines, k, g, s);
      SectionsHold(lines, k, g, s);
    } else {
      NothingListed(lines, g, s);
    }
  }

  /** The sections that section lines list for a segment, each with the size of its first line. */
  function Listed(lines: seq<Line>, g: SegmentName): set<string> {
    set k | 0 <= k < |lines| && lines[k].SectionSize? && lines[k].s == g :: lines[k].section
  }

  ghost function SizeOf(lines: seq<Line>, g: SegmentName, s: string): nat {
    if k :| FirstAt(lines, k, g, s) && lines[k].SectionSize? then lines[k].n else 0
  }

  ghost function ListedSizes(lines: seq<Line>, g: SegmentName): Sections {
    map s | s in Listed(lines, g) :: SizeOf(lines, g, s)
  }

  lemma ListedIsFirst(lines: seq<Line>, g: SegmentName, s: string)
    requires g != Heap && g != Stack
    ensures s in Listed(lines, g) <==> exists k :: FirstAt(lines, k, g, s)
    ensures forall k :: FirstAt(lines, k, g, s) ==> lines[k].SectionSize? && lines[k].n == SizeOf(lines, g, s)
  {
    if s in Listed(lines, g) {
      var j :| 0 <= j < |lines| && lines[j].SectionSize? && lines[j].s == g && lines[j].section == s;
      SomeFirst(lines, j, g, s);
    }
    forall k | FirstAt(lines, k, g, s) ensures lines[k].n == SizeOf(lines, g, s) {
      var i :| FirstAt(lines, i, g, s) && lines[i].SectionSize? && SizeOf(lines, g, s) == lines[i].n;
      assert i == k;
    }
  }

  lemma NoGrowth(lines: seq<Line>, g: SegmentName, s: string)
    requires g != Heap && g != Stack
    ensures GrowthOf(lines, g, s) == 0
  {}

  /** Away from heap and stack, sections and sizes are those of the section lines. */
  lemma SectionsAre(lines: seq<Line>, g: SegmentName)
    requires g != Heap && g != Stack
    ensures Run(lines).segments[g].sections == ListedSizes(lines, g)
    ensures Run(lines).segments[g].sections.Keys == Listed(lines, g)
  {
    hide Run, FirstAt, SizeOf, Listed;
    var sections := Run(lines).segments[g].sections;
    forall s
      ensures s in sections <==> s in Listed(lines, g)
      ensures s in sections ==> sections[s] == SizeOf(lines, g, s)
    {
      SectionsAreListed(lines, g, s);
      ListedIsFirst(lines, g, s);
      if k :| FirstAt(lines, k, g, s) {
        SectionsHold(lines, k, g, s);
        NoGrowth(lines, g, s);
      }
    }
  }

  /** The used size of each segment of a run; with a heap of all remaining RAM, the parts of the RAM less its sections
      and the stack. */
  lemma UsedIs(lines: seq<Line>, heapIsRemainingRam: bool, g: SegmentName)
    ensures var segments := Run(lines).segments;
      && (g != Heap && g != Stack ==> Used(segments, heapIsRemainingRam, g) == Total(ListedSizes(lines, g)))
      && (Used(segments, true, Heap) ==
          PartsOf(lines, Ram) - Total(ListedSizes(lines, Ram)) - Total(segments[Stack].sections))
      && Used(segments, false, Heap) == Total(segments[Heap].sections)
      && Used(segments, heapIsRemainingRam, Stack) == Total(segments[Stack].sections)
  {
    hide Run, Total, ListedSizes;
    PartsAdd(lines, Ram);
    SectionsAre(lines, Ram);
    if g != Heap && g != Stack {
      SectionsAre(lines, g);
    }
  }

  // ---------- sums over sections ----------

  ghost function PerSection(lines: seq<Line>, w: Whose, sections: set<string>): map<string, int> {
    map s | s in sections :: BytesOf(lines, w, {s})
  }

  ghost function Alone(line: Line, w: Whose, sections: set<string>): map<string, int> {
    map s | s in sections :: if Gives(line, w, {s}) then line.n else 0
  }

  lemma OneLine(line: Line, w: Whose, sections: set<string>)
    ensures Total(Alone(line, w, sections)) == if Gives(line, w, sections) then line.n else 0
  {
    var all := Alone(line, w, sections);
    if Gives(line, w, sections) {
      TotalSplit(all, SectionOf(line));
      TotalZero(all - {SectionOf(line)});
    } else {
      TotalZero(all);
    }
  }

  /** Summed line by line or section by section. */
  lemma {:induction false} SectionBySection(lines: seq<Line>, w: Whose, sections: set<string>)
    ensures Total(PerSection(lines, w, sections)) == BytesOf(lines, w, sections)
  {
    hide Total, Gives;
    if lines == [] {
      TotalZero(PerSection(lines, w, sections));
    } else {
      var before, last := lines[..|lines| - 1], lines[|lines| - 1];
      SectionBySection(before, w, sections);
      OneLine(last, w, sections);
      TotalOfSums(PerSection(before, w, sections), Alone(last, w, sections), PerSection(lines, w, sections));
    }
  }

  lemma OtherSectionsStay(objects: Objects, p: string, t: string, n: nat, s: string)
    requires s != t
    ensures SectionBytes(Informed(objects, p, t, n), s) == SectionBytes(objects, s)
  {
    hide Cell;
    forall o ensures Has(Informed(objects, p, t, n), o, s) <==> Has(objects, o, s) {
      InformedHolds(objects, p, t, n, o, s);
    }
  }

  lemma SectionGrows(objects: Objects, p: string, s: string, n: nat)
    ensures SectionBytes(Informed(objects, p, s, n), s) == SectionBytes(objects, s)[p := Cell(objects, p, s) + n]
  {}

  lemma SectionInformed(objects: Objects, p: string, t: string, n: nat, s: string)
    ensures Total(SectionBytes(Informed(objects, p, t, n), s)) ==
            Total(SectionBytes(objects, s)) + if s == t then n else 0
  {
    hide Total, Informed;
    var was := SectionBytes(objects, s);
    if s != t {
      OtherSectionsStay(objects, p, t, n, s);
    } else {
      SectionGrows(objects, p, s, n);
      if p in was {
        TotalUpdate(was, p, was[p] + n);
      } else {
        TotalInsert(was, p, n);
      }
    }
  }

  lemma SectionWithObject(objects: Objects, p: string, s: string)
    ensures SectionBytes(WithObject(objects, p), s) == SectionBytes(objects, s)
  {}

  lemma AppliedSection(l: Layout, line: Line, s: string)
    ensures Total(SectionBytes(Applied(l, line).objects, s)) ==
            Total(SectionBytes(l.objects, s)) + if Gives(line, Everyone, {s}) then line.n else 0
  {
    hide Total, SectionBytes, Informed, WithObject, Attached, Grown, Opened;
    match line
    case Load(m, c, p) => SectionWithObject(l.objects, p, s);
    case Bytes(m, c, p, t, n) => SectionInformed(l.objects, p, t, n, s);
    case Fill(t, n) => SectionInformed(l.objects, "LINKER_GAPS", t, n, s);
    case HeapSize(n) => SectionInformed(l.objects, "linker", "HEAP", n, s);
    case StackSize(n) => SectionInformed(l.objects, "linker", "CSTACK", n, s);
    case _ =>
  }

  /** All bytes of a section, object by object, are all bytes the lines give there. */
  lemma {:induction false} SectionIsAllBytes(lines: seq<Line>, s: string)
    ensures Total(SectionBytes(Run(lines).objects, s)) == BytesOf(lines, Everyone, {s})
  {
    hide Total, Applied, Gives;
    if lines == [] {
      TotalZero(SectionBytes(START.objects, s));
    } else {
      SectionIsAllBytes(lines[..|lines| - 1], s);
      AppliedSection(Run(lines[..|lines| - 1]), lines[|lines| - 1], s);
    }
  }

  lemma BytesInSections(lines: seq<Line>, o: string, seg: Sections)
    ensures o in Run(lines).objects ==> Share(Run(lines).objects[o].sections, seg) == BytesOf(lines, Only(o), seg.Keys)
    ensures o !in Run(lines).objects ==> BytesOf(lines, Only(o), seg.Keys) == 0
  {
    hide Run, Total, SomeGive;
    var all := PerSection(lines, Only(o), seg.Keys);
    SectionBySection(lines, Only(o), seg.Keys);
    forall s ensures BytesOf(lines, Only(o), {s}) == Cell(Run(lines).objects, o, s) {
      ObjectsHold(lines, o, s);
    }
    if o in Run(lines).objects {
      TotalDrop(all, InSegment(Run(lines).objects[o].sections, seg));
    } else {
      TotalZero(all);
    }
  }

  // ---------- cleaning ----------

  /** Cleaning leaves the sections with bytes, the objects that have such, the components and modules that hold one of
      those, and all the sizes. */
  lemma CleanLeaves(l: Layout)
    ensures forall o :: o in Cleaned(l).objects <==> HasSomeBytes(l.objects, o)
    ensures forall o, s :: o in Cleaned(l).objects ==>
      (s in Cleaned(l).objects[o].sections <==> s in l.objects[o].sections && l.objects[o].sections[s] > 0)
    ensures forall o, s :: o in Cleaned(l).objects && s in Cleaned(l).objects[o].sections ==>
      Cleaned(l).objects[o].sections[s] == l.objects[o].sections[s]
    ensures forall o :: o in Cleaned(l).objects ==> Cleaned(l).objects[o].size == l.objects[o].size
    ensures forall g, s :: (s in Cleaned(l).segments[g].sections <==>
      s in l.segments[g].sections && l.segments[g].sections[s] > 0)
    ensures forall g, s :: s in Cleaned(l).segments[g].sections ==>
      Cleaned(l).segments[g].sections[s] == l.segments[g].sections[s]
    ensures forall g :: Cleaned(l).segments[g].size == l.segments[g].size
    ensures forall g :: Cleaned(l).segments[g].totalSize == l.segments[g].totalSize
  {
    forall o ensures o in Cleaned(l).objects <==> HasSomeBytes(l.objects, o) {
      OccupiedHasBytes(l.objects, o);
    }
  }

  predicate HasSomeBytes(objects: Objects, o: string) {
    o in objects && exists s :: s in objects[o].sections && objects[o].sections[s] > 0
  }

  lemma OccupiedHasBytes(objects: Objects, o: string)
    ensures Occupied(objects, o) <==> HasSomeBytes(objects, o)
  {
    if o in objects {
      var left := WithBytes(objects[o].sections);
      if left != map[] {
        var s :| s in left;
        assert objects[o].sections[s] > 0;
      }
      if s :| s in objects[o].sections && objects[o].sections[s] > 0 {
        assert s in left;
      }
    }
  }

  /** The component holds an object with bytes. */
  predicate Lives(l: Layout, m: string, c: string) {
    && m in l.modules && c in l.modules[m].components
    && exists o :: o in l.modules[m].components[c].objects && HasSomeBytes(l.objects, o)
  }

  lemma CleanKeepsTheLiving(l: Layout, m: string, c: string)
    ensures m in Cleaned(l).modules <==> exists d :: Lives(l, m, d)
    ensures var now := Cleaned(l).modules;
      && (m in now && c in now[m].components <==> Lives(l, m, c))
      && (m in now ==> now[m].size == l.modules[m].size)
      && (m in now && c in now[m].components ==>
          (var was := l.modules[m].components[c];
           && now[m].components[c].size == was.size
           && forall o :: o in now[m].components[c].objects <==> o in was.objects && HasSomeBytes(l.objects, o)))
  {
    hide HasSomeBytes, Occupied;
    forall o ensures Occupied(l.objects, o) <==> HasSomeBytes(l.objects, o) {
      OccupiedHasBytes(l.objects, o);
    }
    if m in l.modules {
      CleanModuleIs(l, m);
      var left := CleanModule(l.modules[m], l.objects).components;
      if left != map[] {
        var d :| d in left;
        assert Lives(l, m, d);
      }
    }
  }

  lemma CleanModuleIs(l: Layout, m: string)
    requires m in l.modules
    requires forall o :: Occupied(l.objects, o) <==> HasSomeBytes(l.objects, o)
    ensures forall c :: c in CleanModule(l.modules[m], l.objects).components <==> Lives(l, m, c)
  {
    hide HasSomeBytes, Occupied;
    forall c | c in l.modules[m].components
      ensures CleanComponent(l.modules[m].components[c], l.objects).objects != {} <==> Lives(l, m, c)
    {
      var left := CleanComponent(l.modules[m].components[c], l.objects).objects;
      if left != {} {
        var o :| o in left;
        assert HasSomeBytes(l.objects, o);
      }
      if o :| o in l.modules[m].components[c].objects && HasSomeBytes(l.objects, o) {
        assert o in left;
      }
    }
  }

  // ---------- the warnings of whole runs ----------

  /** The listed sections that are not empty. */
  ghost function Sizable(lines: seq<Line>, g: SegmentName): set<string> {
    set s | s in Listed(lines, g) && SizeOf(lines, g, s) > 0
  }

  lemma NonEmptyAreSizable(lines: seq<Line>, g: SegmentName)
    ensures WithBytes(ListedSizes(lines, g)).Keys == Sizable(lines, g)
    ensures Total(WithBytes(ListedSizes(lines, g))) == Total(ListedSizes(lines, g))
  {
    hide Total, Listed, SizeOf;
    TotalDrop(ListedSizes(lines, g), WithBytes(ListedSizes(lines, g)));
  }

  /** What a checked segment and the objects' bytes in it look like after sizing and cleaning. */
  lemma AfterCleaning(lines: seq<Line>, sized: Layout, c: SegmentName)
    requires Sized(Run(lines), sized) && IsChecked(c)
    ensures var seg := Cleaned(sized).segments[c];
      seg.sections == WithBytes(ListedSizes(lines, c)) && seg.size == Total(ListedSizes(lines, c))
    ensures forall s :: Total(SectionBytes(Cleaned(sized).objects, s)) == BytesOf(lines, Everyone, {s})
    ensures Total(SectionTotals(Cleaned(sized).objects, Cleaned(sized).segments[c].sections)) ==
            BytesOf(lines, Everyone, Sizable(lines, c))
  {
    hide Total, Sized, Cleaned, SameSections, SectionBytes, Counts, Pairs, ModuleTotal, Run, ListedSizes, Sizable;
    hide WithBytes, IsPart;
    SectionsAre(lines, c);
    SizedMeans(Run(lines), sized, c);
    CleanSegment(sized, c);
    NonEmptyAreSizable(lines, c);
    forall s ensures Total(SectionBytes(Cleaned(sized).objects, s)) == BytesOf(lines, Everyone, {s}) {
      SameBytes(Run(lines).objects, sized.objects, s);
      CleanSection(sized, s);
      SectionIsAllBytes(lines, s);
    }
    SectionBySection(lines, Everyone, Sizable(lines, c));
    assert SectionTotals(Cleaned(sized).objects, Cleaned(sized).segments[c].sections) ==
           PerSection(lines, Everyone, Sizable(lines, c));
  }

  /** Every run, every map file: a section warning comes for a section of nonzero size whose objects got other bytes
      than that, and a warning about all objects when the bytes given to the sections of nonzero size do not add up to
      the size of the segment. */
  lemma WhenSectionsDiffer(lines: seq<Line>, c: SegmentName, warnings: set<Warning>)
    requires Reports(Run(lines), warnings) && (c == Flash || c == Ram || c == Rom)
    ensures forall s :: SectionDiffers(c, s) in warnings <==>
      s in Sizable(lines, c) && BytesOf(lines, Everyone, {s}) != SizeOf(lines, c, s)
    ensures ObjectsDiffer(c) in warnings <==>
      BytesOf(lines, Everyone, Sizable(lines, c)) != Total(ListedSizes(lines, c))
  {
    hide Run, Total, Sized, Cleaned, Warns, SectionBytes, Listed, SizeOf, SectionTotals;
    var sized: Layout :| Sized(Run(lines), sized) && forall w :: w in warnings <==> Warns(Cleaned(sized), w);
    WarnsMean(Cleaned(sized), c);
    AfterCleaning(lines, sized, c);
  }

  lemma OnlyThreeAreChecked(lines: seq<Line>, warnings: set<Warning>, w: Warning)
    requires Reports(Run(lines), warnings) && w in warnings
    ensures w.segment == Flash || w.segment == Ram || w.segment == Rom
  {
    hide Run, Sized, Cleaned;
  }

  function Named(lines: seq<Line>): set<string> {
    set k | 0 <= k < |lines| && (lines[k].Load? || lines[k].Bytes?) :: lines[k].o
  }

  /** What the modules add up to in a segment: n places count an object's bytes there n(n+1)/2 times. */
  function CountedBytes(lines: seq<Line>, c: SegmentName): map<string, int> {
    map o | o in Named(lines) ::
      var n := |Places(lines, o)|;
      n * (n + 1) * BytesOf(lines, Only(o), Listed(lines, c)) / 2
  }

  lemma {:induction false} PlacedAreNamed(lines: seq<Line>, o: string)
    ensures o in Named(lines) ==> Mentioned(lines, o)
    ensures o !in Named(lines) ==> Places(lines, o) == {}
  {
    if lines != [] {
      PlacedAreNamed(lines[..|lines| - 1], o);
    }
    if o in Named(lines) {
      var k :| 0 <= k < |lines| && Names(lines[k], o);
      assert Makes(lines[k], o);
    }
  }

  lemma CountedIs(lines: seq<Line>, c: SegmentName, o: string)
    requires o in Run(lines).objects && IsChecked(c)
    ensures CountedNow(Run(lines), c)[o] == if o in Named(lines) then CountedBytes(lines, c)[o] else 0
  {
    hide Run, Share, Holders, Pairs, Met, Counted, Places, Named, Listed;
    var l := Run(lines);
    AllHolders(l.modules, o);
    RunHolds(lines, o);
    PlacedAreNamed(lines, o);
    SectionsAre(lines, c);
    BytesInSections(lines, o, l.segments[c].sections);
    CountedIsTriangular(|Places(lines, o)|, BytesOf(lines, Only(o), Listed(lines, c)));
    NeverCounted(BytesOf(lines, Only(o), Listed(lines, c)));
  }

  lemma CountedInAll(lines: seq<Line>, c: SegmentName)
    requires IsChecked(c)
    ensures Counts(Run(lines), Pairs(Run(lines).modules), c) == Total(CountedBytes(lines, c))
  {
    hide Total, Run, Counts, Pairs, CountedNow, Places, Named, Listed, Mentioned;
    var l := Run(lines);
    CountsAreTotal(l, c);
    forall o
      ensures o in Named(lines) ==> o in l.objects
      ensures o in l.objects ==>
        CountedNow(l, c)[o] == if o in Named(lines) then CountedBytes(lines, c)[o] else 0
    {
      PlacedAreNamed(lines, o);
      RunHolds(lines, o);
      if o in l.objects {
        CountedIs(lines, c, o);
      }
    }
    TotalDrop(CountedNow(l, c), CountedBytes(lines, c));
  }

  lemma ShareOfBytes(o: Sections, seg: Sections)
    ensures Share(WithBytes(o), seg) == Share(o, seg)
  {
    hide Total;
    TotalDrop(InSegment(o, seg), InSegment(WithBytes(o), seg));
  }

  lemma GapsAfterCleaning(lines: seq<Line>, sized: Layout, c: SegmentName)
    requires Sized(Run(lines), sized) && IsChecked(c)
    ensures Gaps(Cleaned(sized).objects, Cleaned(sized).segments[c].sections) ==
            BytesOf(lines, Only("LINKER_GAPS"), Sizable(lines, c))
  {
    hide Total, Sized, Run, ListedSizes, Sizable, WithBytes, IsPart, Share, Occupied, Counts, Pairs, ModuleTotal;
    var seg := WithBytes(ListedSizes(lines, c));
    AfterCleaning(lines, sized, c);
    NonEmptyAreSizable(lines, c);
    BytesInSections(lines, GAPS, seg);
    SizedMeans(Run(lines), sized, c);
    if GAPS in sized.objects {
      ShareOfBytes(sized.objects[GAPS].sections, seg);
      if !Occupied(sized.objects, GAPS) {
        UnoccupiedIsFlat(sized.objects, GAPS, seg);
      }
    }
  }

  /** Every run, every map file: the module warning comes when the counted bytes and the gaps in sections of nonzero
      size do not add up to the size of the segment. */
  lemma WhenModulesDiffer(lines: seq<Line>, c: SegmentName, warnings: set<Warning>)
    requires Reports(Run(lines), warnings) && (c == Flash || c == Ram || c == Rom)
    ensures ModulesDiffer(c) in warnings <==>
      Total(CountedBytes(lines, c)) + BytesOf(lines, Only("LINKER_GAPS"), Sizable(lines, c)) !=
      Total(ListedSizes(lines, c))
  {
    hide Run, Total, Sized, Cleaned, Warns, Gaps, ModuleTotal, Counts, Pairs, CountedBytes, Sizable, ListedSizes;
    var sized: Layout :| Sized(Run(lines), sized) && forall w :: w in warnings <==> Warns(Cleaned(sized), w);
    WarnsMean(Cleaned(sized), c);
    AfterCleaning(lines, sized, c);
    GapsAfterCleaning(lines, sized, c);
    SizedMeans(Run(lines), sized, c);
    CleanModules(Run(lines), sized, c);
    CountedInAll(lines, c);
  }

  // ---------- double counting ----------

  lemma AgreeingIsConsistent(lines: seq<Line>, c: SegmentName)
    requires c == Flash || c == Ram || c == Rom
    ensures Consistent(Run(lines), c) <==>
      forall s :: s in Listed(lines, c) ==> BytesOf(lines, Everyone, {s}) == SizeOf(lines, c, s)
  {
    hide Run, Total, SectionBytes, Listed, SizeOf;
    SectionsAre(lines, c);
    forall s ensures Total(SectionBytes(Run(lines).objects, s)) == BytesOf(lines, Everyone, {s}) {
      SectionIsAllBytes(lines, s);
    }
  }

  /** The lines alone decide whether the tool finds an object counted twice: when every listed section has the bytes
      that are given to it, there is a module warning exactly for an object with bytes in the segment and two places. */
  lemma TwoPlacesAreFound(lines: seq<Line>, c: SegmentName, warnings: set<Warning>)
    requires Plain(lines) && Reports(Run(lines), warnings) && (c == Flash || c == Ram || c == Rom)
    requires forall s :: s in Listed(lines, c) ==> BytesOf(lines, Everyone, {s}) == SizeOf(lines, c, s)
    requires "HEAP" !in Listed(lines, c) && "CSTACK" !in Listed(lines, c)
    ensures ModulesDiffer(c) in warnings <==>
      exists o :: o in Named(lines) && |Places(lines, o)| > 1 && BytesOf(lines, Only(o), Listed(lines, c)) > 0
    ensures ObjectsDiffer(c) !in warnings && forall s :: SectionDiffers(c, s) !in warnings
  {
    hide Run, Share, Places, Consistent, Plain, Reports, Listed, SizeOf, Mentioned, Named;
    AgreeingIsConsistent(lines, c);
    SectionsAre(lines, c);
    DoubleCountingIsFound(lines, c, warnings);
    var l := Run(lines);
    forall o
      ensures o in l.objects ==>
        Share(l.objects[o].sections, l.segments[c].sections) == BytesOf(lines, Only(o), Listed(lines, c))
      ensures o in Named(lines) ==> o in l.objects && o != GAPS
      ensures |Places(lines, o)| > 1 ==> o in Named(lines)
    {
      BytesInSections(lines, o, l.segments[c].sections);
      PlacedAreNamed(lines, o);
      RunHolds(lines, o);
      NotTheGaps(lines, o);
    }
  }

  lemma NotTheGaps(lines: seq<Line>, o: string)
    requires Plain(lines)
    ensures o in Named(lines) ==> o != GAPS && o != LINKER
  {}
}
