/** What the size check of the memory overview finds out: conservation of bytes, and when objects are counted twice. */
module MemoryChecks {
  import opened Sums
  import opened MemoryLayout

  /** Before cleaning, each section of the segment is as large as what the objects put into it. */
  ghost predicate Consistent(l: Layout, c: SegmentName) {
    forall s :: s in l.segments[c].sections ==> Total(SectionBytes(l.objects, s)) == l.segments[c].sections[s]
  }

  // ---------- objects against sections ----------

  ghost function Cell(objects: Objects, o: string, s: string): int {
    if o in objects && s in objects[o].sections then objects[o].sections[s] else 0
  }

  lemma RowIsShare(objects: Objects, seg: Sections, o: string)
    requires o in objects
    ensures Total(Row((p, s) => Cell(objects, p, s), o, seg.Keys)) == Share(objects[o].sections, seg)
  {
    TotalDrop(Row((p, s) => Cell(objects, p, s), o, seg.Keys), InSegment(objects[o].sections, seg));
  }

  lemma ColumnIsSection(objects: Objects, s: string)
    ensures Total(Column((p, t) => Cell(objects, p, t), objects.Keys, s)) == Total(SectionBytes(objects, s))
  {
    TotalDrop(Column((p, t) => Cell(objects, p, t), objects.Keys, s), SectionBytes(objects, s));
  }

  /** The bytes of a segment, object by object or section by section. */
  lemma SharesAreSections(objects: Objects, seg: Sections)
    ensures Total(Shares(objects, seg)) == Total(SectionTotals(objects, seg))
  {
    hide Total, Share, Cell, SectionBytes, Row, Column;
    var cell := (p: string, s: string) => Cell(objects, p, s);
    forall o | o in objects ensures Total(Row(cell, o, seg.Keys)) == Share(objects[o].sections, seg) {
      RowIsShare(objects, seg, o);
    }
    forall s | s in seg ensures Total(Column(cell, objects.Keys, s)) == Total(SectionBytes(objects, s)) {
      ColumnIsSection(objects, s);
    }
    TotalSwap(cell, objects.Keys, seg.Keys);
    assert RowTotals(cell, objects.Keys, seg.Keys) == Shares(objects, seg);
    assert ColumnTotals(cell, objects.Keys, seg.Keys) == SectionTotals(objects, seg);
  }

  /** In a consistent layout the objects' bytes in a segment are the segment's size. */
  lemma SharesAreTheSegment(l: Layout, c: SegmentName)
    requires Consistent(l, c)
    ensures Total(Shares(l.objects, l.segments[c].sections)) == Total(l.segments[c].sections)
  {
    hide Total, Share, SectionBytes;
    SharesAreSections(l.objects, l.segments[c].sections);
    assert SectionTotals(l.objects, l.segments[c].sections) == l.segments[c].sections;
  }

  // ---------- what cleaning leaves alone ----------

  lemma WithBytesHas(o: Sections, s: string)
    ensures s in WithBytes(o) <==> s in o && o[s] > 0
  {}

  lemma OccupiedStays(m: Module, objects: Objects, c: string, o: string)
    requires c in m.components && o in m.components[c].objects
    ensures Occupied(objects, o) ==> c in CleanModule(m, objects).components
  {
    assert Occupied(objects, o) ==> o in CleanComponent(m.components[c], objects).objects;
  }

  lemma CleanSection(l: Layout, s: string)
    ensures Total(SectionBytes(Cleaned(l).objects, s)) == Total(SectionBytes(l.objects, s))
  {
    var all, kept := SectionBytes(l.objects, s), SectionBytes(Cleaned(l).objects, s);
    forall o | o in all && o !in kept ensures all[o] == 0 {
      WithBytesHas(l.objects[o].sections, s);
    }
    TotalDrop(all, kept);
  }

  lemma NothingInEmptySections(l: Layout, c: SegmentName, s: string, o: string)
    requires Consistent(l, c) && s in l.segments[c].sections && l.segments[c].sections[s] == 0
    requires o in l.objects && s in l.objects[o].sections
    ensures l.objects[o].sections[s] == 0
  {
    hide Total;
    var bytes := SectionBytes(l.objects, s);
    var zeros: map<string, int> := map p | p in bytes :: 0;
    TotalZero(zeros);
    TotalCompare(zeros, bytes);
    assert bytes[o] == zeros[o];
  }

  lemma CleanGaps(l: Layout, c: SegmentName)
    requires Consistent(l, c)
    ensures Gaps(Cleaned(l).objects, Cleaned(l).segments[c].sections) == Gaps(l.objects, l.segments[c].sections)
  {
    hide Total, Consistent;
    if GAPS in l.objects {
      var o, seg := l.objects[GAPS].sections, l.segments[c].sections;
      forall s | s in o && s in seg && (o[s] == 0 || seg[s] == 0) ensures o[s] == 0 {
        if seg[s] == 0 {
          NothingInEmptySections(l, c, s, GAPS);
        }
      }
      TotalDrop(InSegment(o, seg), InSegment(WithBytes(o), WithBytes(seg)));
      if !Occupied(l.objects, GAPS) {
        assert InSegment(WithBytes(o), WithBytes(seg)) == map[];
        TotalZero(map[]);
      }
    }
  }

  lemma UnoccupiedIsFlat(objects: Objects, o: string, seg: Sections)
    requires o in objects && !Occupied(objects, o)
    ensures Share(objects[o].sections, seg) == 0
  {
    forall s | s in objects[o].sections ensures objects[o].sections[s] == 0 {
      WithBytesHas(objects[o].sections, s);
    }
    TotalZero(InSegment(objects[o].sections, seg));
  }

  lemma DroppedIsFlat(a: Layout, b: Layout, m: string, s: SegmentName)
    requires SameSections(a.objects, b.objects) && SameShape(a.modules, b.modules) && m in b.modules
    requires CleanModule(b.modules[m], b.objects).components == map[]
    ensures Flat(a, m, s)
  {
    hide Share;
    forall c, o | c in a.modules[m].components && o in a.modules[m].components[c].objects && o in a.objects
      ensures Share(a.objects[o].sections, a.segments[s].sections) == 0
    {
      OccupiedStays(b.modules[m], b.objects, c, o);
      UnoccupiedIsFlat(b.objects, o, a.segments[s].sections);
    }
  }

  lemma CleanModules(a: Layout, b: Layout, s: SegmentName)
    requires Sized(a, b) && IsPart(s)
    ensures ModuleTotal(Cleaned(b).modules, s) == ModuleTotal(b.modules, s)
  {
    hide Total, At, Flat, Counts, IsPart;
    var kept := Cleaned(b).modules;
    forall m | m in b.modules && m !in kept ensures At(b.modules[m].size, s) == 0 {
      DroppedIsFlat(a, b, m, s);
    }
    TotalDrop(ModuleCounts(b.modules, b.modules.Keys, s), ModuleCounts(kept, kept.Keys, s));
  }

  // ---------- the check ----------

  lemma SizedMeans(a: Layout, b: Layout, c: SegmentName)
    requires Sized(a, b) && IsChecked(c)
    ensures SameSections(a.objects, b.objects) && b.segments[c].sections == a.segments[c].sections
    ensures b.segments[c].size == Total(a.segments[c].sections)
    ensures ModuleTotal(b.modules, c) == Counts(a, Pairs(a.modules), c) && IsPart(c)
  {
    hide Total, At, Counts, ModuleTotal, SameSections, SameShape, Flat, Pairs;
  }

  lemma CleanSegment(l: Layout, c: SegmentName)
    ensures Cleaned(l).segments[c] == l.segments[c].(sections := WithBytes(l.segments[c].sections))
  {}

  /** On a consistent layout the checks by section are silent. */
  lemma SectionsAgree(a: Layout, b: Layout, c: SegmentName)
    requires Sized(a, b) && IsChecked(c) && Consistent(a, c)
    ensures forall s :: !Warns(Cleaned(b), SectionDiffers(c, s))
    ensures !Warns(Cleaned(b), ObjectsDiffer(c))
  {
    hide Total, Sized, Cleaned, SameSections, SectionBytes, Counts, Pairs, ModuleTotal, IsPart;
    var l, seg := Cleaned(b), a.segments[c].sections;
    SizedMeans(a, b, c);
    CleanSegment(b, c);
    forall s ensures Total(SectionBytes(l.objects, s)) == Total(SectionBytes(a.objects, s)) {
      SameBytes(a.objects, b.objects, s);
      CleanSection(b, s);
    }
    TotalDrop(seg, WithBytes(seg));
    assert SectionTotals(l.objects, WithBytes(seg)) == WithBytes(seg);
  }

  /** There the check by module compares what was counted, plus the gaps, with the bytes of all objects. */
  lemma ModulesAgree(a: Layout, b: Layout, c: SegmentName)
    requires Sized(a, b) && IsChecked(c) && Consistent(a, c)
    ensures var seg := a.segments[c].sections;
      Warns(Cleaned(b), ModulesDiffer(c)) <==>
      Counts(a, Pairs(a.modules), c) + Gaps(a.objects, seg) != Total(Shares(a.objects, seg))
  {
    hide Total, Sized, Cleaned, SameSections, SectionBytes, Counts, Pairs, ModuleTotal, IsPart, Gaps, Shares;
    var seg := a.segments[c].sections;
    SizedMeans(a, b, c);
    CleanSegment(b, c);
    forall s ensures SectionBytes(b.objects, s) == SectionBytes(a.objects, s) {
      SameBytes(a.objects, b.objects, s);
    }
    SharesAreTheSegment(a, c);
    CleanGaps(b, c);
    SameGaps(a.objects, b.objects, seg);
    CleanModules(a, b, c);
  }

  lemma SameBytes(a: Objects, b: Objects, s: string)
    requires SameSections(a, b)
    ensures SectionBytes(a, s) == SectionBytes(b, s)
  {}

  lemma SameGaps(a: Objects, b: Objects, seg: Sections)
    requires SameSections(a, b)
    ensures Gaps(a, seg) == Gaps(b, seg)
  {}

  // ---------- counting once ----------

  /** What the parser keeps to: every object is attached, but for the gaps and the linker's own, which has no bytes
      here. */
  ghost predicate WellAttached(l: Layout, c: SegmentName) {
    && (forall o :: o in l.objects && o != GAPS && o != LINKER ==> Holders(l.modules, o) != {})
    && Holders(l.modules, GAPS) == {} && Holders(l.modules, LINKER) == {}
    && (LINKER in l.objects ==> Share(l.objects[LINKER].sections, l.segments[c].sections) == 0)
  }

  /** No object with bytes in the segment is attached to two components. */
  ghost predicate AttachedOnce(l: Layout, c: SegmentName) {
    forall o :: o in l.objects && o != GAPS && Share(l.objects[o].sections, l.segments[c].sections) > 0 ==>
      |Holders(l.modules, o)| == 1
  }

  /** What the check by module adds up, object by object. */
  ghost function Added(l: Layout, c: SegmentName): (r: map<string, int>)
    ensures r.Keys == l.objects.Keys
  {
    map o | o in l.objects :: AddedFor(l, c, o)
  }

  ghost function AddedFor(l: Layout, c: SegmentName, o: string): int
    requires o in l.objects
  {
    var share := Share(l.objects[o].sections, l.segments[c].sections);
    if o == GAPS then share else Counted(|Holders(l.modules, o)|, share)
  }

  /** The bytes counted for each object, the gaps' left out. */
  ghost function CountedNow(l: Layout, c: SegmentName): (r: map<string, int>)
    ensures r.Keys == l.objects.Keys
  {
    Weights(Visits(l.modules, l.objects.Keys, Pairs(l.modules)), Shares(l.objects, l.segments[c].sections))
  }

  lemma AddedTotal(l: Layout, c: SegmentName)
    requires Holders(l.modules, GAPS) == {}
    ensures Counts(l, Pairs(l.modules), c) + Gaps(l.objects, l.segments[c].sections) == Total(Added(l, c))
  {
    hide Total, Share, Holders, CountedNow, AddedFor, Counts, Pairs;
    CountsAreTotal(l, c);
    CountedFor(l, c);
    if GAPS in l.objects {
      TotalUpdate(CountedNow(l, c), GAPS, AddedFor(l, c, GAPS));
      assert CountedNow(l, c)[GAPS := AddedFor(l, c, GAPS)] == Added(l, c);
    } else {
      assert CountedNow(l, c) == Added(l, c);
    }
  }

  lemma CountsAreTotal(l: Layout, c: SegmentName)
    ensures Counts(l, Pairs(l.modules), c) == Total(CountedNow(l, c))
  {}

  lemma CountedFor(l: Layout, c: SegmentName)
    requires Holders(l.modules, GAPS) == {}
    ensures forall o :: o in l.objects ==> CountedNow(l, c)[o] == if o == GAPS then 0 else AddedFor(l, c, o)
    ensures GAPS in l.objects ==> AddedFor(l, c, GAPS) == Gaps(l.objects, l.segments[c].sections)
  {
    hide Share, Holders, Pairs, Met, Counted;
    forall o | o in l.objects
      ensures Met(l.modules, o, Pairs(l.modules)) == |Holders(l.modules, o)|
    {
      AllHolders(l.modules, o);
    }
    forall share ensures Counted(0, share) == 0 {
      NeverCounted(share);
    }
  }

  lemma NeverCounted(share: int)
    ensures Counted(0, share) == 0
  {}

  lemma AllHolders(modules: Modules, o: string)
    ensures Met(modules, o, Pairs(modules)) == |Holders(modules, o)|
  {
    assert Holders(modules, o) * Pairs(modules) == Holders(modules, o);
  }

  lemma AddedObject(l: Layout, c: SegmentName, o: string)
    requires WellAttached(l, c) && o in l.objects
    ensures var share := Share(l.objects[o].sections, l.segments[c].sections);
      && AddedFor(l, c, o) >= share
      && (AddedFor(l, c, o) == share <==> o == GAPS || share == 0 || |Holders(l.modules, o)| == 1)
  {
    hide Share, Holders, Counted;
    var share := Share(l.objects[o].sections, l.segments[c].sections);
    CountedZero(|Holders(l.modules, o)|);
    if o != GAPS && o != LINKER {
      CountedOnce(|Holders(l.modules, o)|, share);
    }
  }

  lemma GapsAreLoose(l: Layout, c: SegmentName)
    requires WellAttached(l, c)
    ensures Holders(l.modules, GAPS) == {}
  {}

  /** The counted bytes are the bytes there are exactly when every object with bytes is attached once. */
  lemma CountingIsExact(l: Layout, c: SegmentName)
    requires WellAttached(l, c)
    ensures var seg := l.segments[c].sections;
      Counts(l, Pairs(l.modules), c) + Gaps(l.objects, seg) == Total(Shares(l.objects, seg)) <==> AttachedOnce(l, c)
  {
    hide Share, Holders, Counted, Total, Counts, Gaps, WellAttached, AddedFor;
    GapsAreLoose(l, c);
    var shares, added := Shares(l.objects, l.segments[c].sections), Added(l, c);
    AddedTotal(l, c);
    forall o | o in l.objects
      ensures added[o] >= shares[o]
      ensures added[o] == shares[o] <==> o == GAPS || shares[o] == 0 || |Holders(l.modules, o)| == 1
    {
      AddedObject(l, c, o);
    }
    TotalCompare(shares, added);
    assert AttachedOnce(l, c) ==> shares == added;
  }

  // ---------- whole runs ----------

  /** The object a line names as an object file, if any. */
  predicate Names(line: Line, o: string) {
    (line.Load? || line.Bytes?) && line.o == o
  }

  /** Some line makes the object. */
  predicate Mentioned(lines: seq<Line>, o: string) {
    exists k :: 0 <= k < |lines| && Makes(lines[k], o)
  }

  predicate Makes(line: Line, o: string) {
    Names(line, o) || (line.Fill? && o == GAPS) || ((line.HeapSize? || line.StackSize?) && o == LINKER)
  }

  /** The components the lines put an object into: every load does, a line with its bytes only when the object is
      new. */
  function Places(lines: seq<Line>, o: string): set<(string, string)> {
    if lines == [] then {}
    else
      var before, last := lines[..|lines| - 1], lines[|lines| - 1];
      Places(before, o) +
      if Names(last, o) && (last.Load? || !Mentioned(before, o)) then {(last.m, last.c)} else {}
  }

  /** The lines do not name the two reserved objects as object files. */
  predicate Plain(lines: seq<Line>) {
    forall k :: 0 <= k < |lines| ==> !Names(lines[k], GAPS) && !Names(lines[k], LINKER)
  }

  lemma AttachedHolders(modules: Modules, m: string, c: string, o: string, p: string)
    ensures Holders(Attached(modules, m, c, o), p) == Holders(modules, p) + if p == o then {(m, c)} else {}
  {}

  lemma MentionedStep(lines: seq<Line>, o: string)
    requires lines != []
    ensures Mentioned(lines, o) <==> Mentioned(lines[..|lines| - 1], o) || Makes(lines[|lines| - 1], o)
  {
    var before := lines[..|lines| - 1];
    if Mentioned(before, o) {
      var k :| 0 <= k < |before| && Makes(before[k], o);
      assert Makes(lines[k], o);
    }
  }

  lemma AppliedObjects(l: Layout, line: Line, o: string)
    ensures o in Applied(l, line).objects <==> o in l.objects || Makes(line, o)
  {}

  /** The dictionaries hold what the lines say. */
  lemma {:induction false} RunHolds(lines: seq<Line>, o: string)
    ensures o in Run(lines).objects <==> Mentioned(lines, o)
    ensures Holders(Run(lines).modules, o) == Places(lines, o)
  {
    hide Holders, Attached, Informed, Mentioned, Makes;
    if lines == [] {
      NothingAtStart(o);
    } else {
      var before, last := lines[..|lines| - 1], lines[|lines| - 1];
      RunHolds(before, o);
      MentionedStep(lines, o);
      AppliedObjects(Run(before), last, o);
      if last.Load? || last.Bytes? {
        AttachedHolders(Run(before).modules, last.m, last.c, last.o, o);
      }
    }
  }

  lemma NothingAtStart(o: string)
    ensures Holders(START.modules, o) == {} && !Mentioned([], o)
  {}

  lemma {:induction false} PlainPlaces(lines: seq<Line>, o: string)
    requires Plain(lines)
    ensures o == GAPS || o == LINKER ==> Places(lines, o) == {}
    ensures o != GAPS && o != LINKER && Mentioned(lines, o) ==> Places(lines, o) != {}
  {
    hide Mentioned;
    if lines == [] {
      NothingAtStart(o);
    } else {
      PlainPlaces(lines[..|lines| - 1], o);
      MentionedStep(lines, o);
    }
  }

  /** The linker's own object only has the heap and the stack. */
  lemma {:induction false} LinkerSections(lines: seq<Line>)
    requires Plain(lines)
    ensures var objects := Run(lines).objects;
      LINKER in objects ==> objects[LINKER].sections.Keys <= {HEAP_SECTION, STACK_SECTION}
  {
    hide Applied;
    if lines != [] {
      LinkerSections(lines[..|lines| - 1]);
      LinkerKeeps(Run(lines[..|lines| - 1]), lines[|lines| - 1]);
    }
  }

  lemma LinkerKeeps(l: Layout, line: Line)
    requires !Names(line, LINKER)
    requires LINKER in l.objects ==> l.objects[LINKER].sections.Keys <= {HEAP_SECTION, STACK_SECTION}
    ensures var objects := Applied(l, line).objects;
      LINKER in objects ==> objects[LINKER].sections.Keys <= {HEAP_SECTION, STACK_SECTION}
  {
    hide Attached, Grown, Opened;
  }

  lemma RunIsWellAttached(lines: seq<Line>, c: SegmentName)
    requires Plain(lines)
    requires HEAP_SECTION !in Run(lines).segments[c].sections && STACK_SECTION !in Run(lines).segments[c].sections
    ensures WellAttached(Run(lines), c)
  {
    hide Holders, Mentioned, Places, Run, Plain, Total;
    var l := Run(lines);
    forall o
      ensures o in l.objects && o != GAPS && o != LINKER ==> Holders(l.modules, o) != {}
      ensures o == GAPS || o == LINKER ==> Holders(l.modules, o) == {}
    {
      RunHolds(lines, o);
      PlainPlaces(lines, o);
    }
    LinkerSections(lines);
    if LINKER in l.objects {
      TotalZero(InSegment(l.objects[LINKER].sections, l.segments[c].sections));
    }
  }

  /** Over every run: when the sections of a segment are as large as their objects, the tool is silent about its
      sections, and warns about its modules exactly when some object with bytes there was put into more than one
      component. */
  lemma DoubleCountingIsFound(lines: seq<Line>, c: SegmentName, warnings: set<Warning>)
    requires Plain(lines) && IsChecked(c) && Consistent(Run(lines), c) && Reports(Run(lines), warnings)
    requires HEAP_SECTION !in Run(lines).segments[c].sections && STACK_SECTION !in Run(lines).segments[c].sections
    ensures ObjectsDiffer(c) !in warnings && forall s :: SectionDiffers(c, s) !in warnings
    ensures ModulesDiffer(c) in warnings <==>
      exists o :: o in Run(lines).objects && o != GAPS && |Places(lines, o)| > 1 &&
        Share(Run(lines).objects[o].sections, Run(lines).segments[c].sections) > 0
  {
    hide Run, Share, Places, Holders, Sized, Cleaned, Warns, Counts, Gaps, Shares, Total, Consistent, Plain;
    hide WellAttached, Pairs;
    var l := Run(lines);
    var sized: Layout :| Sized(l, sized) && forall w :: w in warnings <==> Warns(Cleaned(sized), w);
    SectionsAgree(l, sized, c);
    ModulesAgree(l, sized, c);
    RunIsWellAttached(lines, c);
    CountingIsExact(l, c);
    forall o | o in l.objects && o != GAPS && Share(l.objects[o].sections, l.segments[c].sections) > 0
      ensures |Holders(l.modules, o)| == |Places(lines, o)| >= 1
    {
      RunHolds(lines, o);
      PlacedOnce(l, c, o);
    }
  }

  lemma PlacedOnce(l: Layout, c: SegmentName, o: string)
    requires WellAttached(l, c) && o in l.objects && o != GAPS
    requires Share(l.objects[o].sections, l.segments[c].sections) > 0
    ensures |Holders(l.modules, o)| >= 1
  {
    hide Share, Holders;
    assert |Holders(l.modules, o)| == 0 ==> Holders(l.modules, o) == {};
  }
}
