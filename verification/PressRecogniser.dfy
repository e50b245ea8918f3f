/** The Matter switch: from button edges and two timers to the events of the Switch cluster. */
module PressRecogniser {
  import opened Results

  /** The generic-switch handlers, as posted to the application's queue. */
  datatype Handler = InitialPress | LongPress | ShortRelease | LongRelease | MultiPressOngoing | MultiPressComplete

  /** A handler that ran, with the multi-press count on its entry. */
  datatype Entry = Entry(handler: Handler, count: nat)

  datatype State = State(
    pressed: bool, multiPress: bool, longDetected: bool,
    longTimer: bool, multiTimer: bool,
    queue: seq<Handler>, count: nat, ran: seq<Entry>)

  /** What can happen: an edge of the button, a running timer that expires, the next queued handler being run. */
  datatype Step = Press | Release | LongTimeout | MultiTimeout | Dispatch

  // ---------- one step ----------

  function Next(s: State, step: Step): State {
    match step
    case Press =>
      if s.multiPress then
        s.(pressed := true, longTimer := true, multiTimer := false,
           queue := s.queue + [InitialPress, MultiPressOngoing])
      else s.(pressed := true, longTimer := true, queue := s.queue + [InitialPress])
    case Release =>
      s.(pressed := false, multiPress := true, longDetected := false, multiTimer := true,
         queue := s.queue + [if s.longDetected then LongRelease else ShortRelease])
    case MultiTimeout =>
      if !s.multiTimer then s
      else s.(multiTimer := false, multiPress := false, queue := s.queue + [MultiPressComplete])
    case LongTimeout =>
      if !s.longTimer then s
      else if s.pressed && !s.multiPress then
        s.(longTimer := false, longDetected := true, queue := s.queue + [LongPress])
      else s.(longTimer := false)
    case Dispatch =>
      if s.queue == [] then s
      else
        var h := s.queue[0];
        s.(queue := s.queue[1..], ran := s.ran + [Entry(h, s.count)],
           count := match h
                    case MultiPressOngoing => (s.count + 1) % 256
                    case MultiPressComplete => 1
                    case _ => s.count)
  }

  function Run(s: State, steps: seq<Step>): State {
    if steps == [] then s else Next(Run(s, steps[..|steps| - 1]), steps[|steps| - 1])
  }

  /** The latest edge was a press. */
  function Pressed(steps: seq<Step>): bool {
    if steps == [] then false
    else
      match steps[|steps| - 1]
      case Press => true
      case Release => false
      case _ => Pressed(steps[..|steps| - 1])
  }

  /** The button is pressed only when it is up, and released only when it is down. */
  predicate Alternating(steps: seq<Step>) {
    steps == [] ||
    var before, step := steps[..|steps| - 1], steps[|steps| - 1];
    Alternating(before) && (step.Press? ==> !Pressed(before)) && (step.Release? ==> Pressed(before))
  }

  const INITIAL := State(false, false, false, false, false, [], 1, [])

  // ---------- the recogniser ----------

  class Recogniser {
    var switchButtonPressed: bool
    var isMultipressOngoing: bool
    var longPressDetected: bool
    var longTimerRunning: bool
    var multiTimerRunning: bool
    var queue: seq<Handler>
    var multiPressCount: nat
    ghost var ran: seq<Entry>

    ghost function Now(): State
      reads this
    {
      State(switchButtonPressed, isMultipressOngoing, longPressDetected, longTimerRunning, multiTimerRunning, queue,
            multiPressCount, ran)
    }

    constructor ()
      ensures Now() == INITIAL
    {
      switchButtonPressed, isMultipressOngoing, longPressDetected := false, false, false;
      longTimerRunning, multiTimerRunning := false, false;
      queue, multiPressCount := [], 1;
      ran := [];
    }

    method PostEvent(h: Handler)
      modifies this`queue
      ensures queue == old(queue) + [h]
    {
      queue := queue + [h];
    }

    /** An edge of the switch button. */
    method ButtonEventHandler(btnPressed: bool)
      modifies this
      ensures Now() == Next(old(Now()), if btnPressed then Press else Release)
    {
      var handler: Handler;
      if !btnPressed {
        handler := if longPressDetected then LongRelease else ShortRelease;
        isMultipressOngoing := true;
        switchButtonPressed := false;
        longPressDetected := false;
        multiTimerRunning := false;
        multiTimerRunning := true;
      } else {
        switchButtonPressed := true;
        longTimerRunning := false;
        longTimerRunning := true;
        if isMultipressOngoing {
          PostEvent(InitialPress);
          multiTimerRunning := false;
          handler := MultiPressOngoing;
          assert old(queue) + [InitialPress] + [handler] == old(queue) + [InitialPress, handler];
        } else {
          handler := InitialPress;
        }
      }
      PostEvent(handler);
    }

    method MultiPressTimeoutHandler()
      requires multiTimerRunning
      modifies this
      ensures Now() == Next(old(Now()), MultiTimeout)
    {
      multiTimerRunning := false;
      isMultipressOngoing := false;
      PostEvent(MultiPressComplete);
    }

    method LongPressTimeoutHandler()
      requires longTimerRunning
      modifies this
      ensures Now() == Next(old(Now()), LongTimeout)
    {
      longTimerRunning := false;
      if switchButtonPressed && !isMultipressOngoing {
        longPressDetected := true;
        PostEvent(LongPress);
      }
    }

    /** The application task takes the oldest handler off the queue and runs it. */
    method DispatchEvent()
      requires queue != []
      modifies this
      ensures Now() == Next(old(Now()), Dispatch)
    {
      var handler := queue[0];
      queue := queue[1..];
      ran := ran + [Entry(handler, multiPressCount)];
      match handler {
        case MultiPressOngoing => multiPressCount := (multiPressCount + 1) % 256;
        case MultiPressComplete => multiPressCount := 1;
        case InitialPress => case LongPress => case ShortRelease => case LongRelease =>
      }
    }
  }

  // ---------- the grammar ----------

  /** One burst of presses: whether the first was long, and how many followed. */
  datatype Burst = Burst(long: bool, more: nat)

  function Opening(long: bool): seq<Handler> {
    if long then [InitialPress, LongPress, LongRelease] else [InitialPress, ShortRelease]
  }

  function Again(n: nat): seq<Handler> {
    if n == 0 then [] else Again(n - 1) + [InitialPress, MultiPressOngoing, ShortRelease]
  }

  /** Initial (ShortRelease or LongPress LongRelease) (Initial Ongoing ShortRelease)* Complete */
  function BurstEvents(b: Burst): seq<Handler> { Opening(b.long) + Again(b.more) + [MultiPressComplete] }

  function Bursts(bs: seq<Burst>): seq<Handler> {
    if bs == [] then [] else Bursts(bs[..|bs| - 1]) + BurstEvents(bs[|bs| - 1])
  }

  ghost predicate InGrammar(hs: seq<Handler>) { exists bs: seq<Burst> :: hs <= Bursts(bs) }

  /** Where an unfinished burst stands. */
  datatype Open =
    | Idle | First | Held
    | Up(long: bool, more: nat) | Repeated(long: bool, more: nat) | Down(long: bool, more: nat)

  function OpenEvents(o: Open): seq<Handler> {
    match o
    case Idle => []
    case First => [InitialPress]
    case Held => [InitialPress, LongPress]
    case Up(long, more) => Opening(long) + Again(more)
    case Repeated(long, more) => Opening(long) + Again(more) + [InitialPress]
    case Down(long, more) => Opening(long) + Again(more) + [InitialPress, MultiPressOngoing]
  }

  /** hs are finished bursts and then an open one. */
  ghost predicate Stands(hs: seq<Handler>, o: Open) {
    exists bs: seq<Burst> :: hs == Bursts(bs) + OpenEvents(o)
  }

  function Follow(o: Open, h: Handler): Option<Open> {
    match (o, h)
    case (Idle, InitialPress) => Some(First)
    case (First, ShortRelease) => Some(Up(false, 0))
    case (First, LongPress) => Some(Held)
    case (Held, LongRelease) => Some(Up(true, 0))
    case (Up(long, more), InitialPress) => Some(Repeated(long, more))
    case (Up(_, _), MultiPressComplete) => Some(Idle)
    case (Repeated(long, more), MultiPressOngoing) => Some(Down(long, more))
    case (Down(long, more), ShortRelease) => Some(Up(long, more + 1))
    case _ => None
  }

  lemma OpenStep(o: Open, h: Handler)
    requires Follow(o, h).Some? && !h.MultiPressComplete?
    ensures OpenEvents(Follow(o, h).value) == OpenEvents(o) + [h]
  {
    match o {
      case Down(long, more) => OpenDown(long, more);
      case Up(long, more) =>
        hide Opening, Again;
      case Repeated(long, more) => OpenRepeated(long, more);
      case _ =>
        assert Again(0) == [];
    }
  }

  lemma OpenDown(long: bool, more: nat)
    ensures OpenEvents(Up(long, more + 1)) == OpenEvents(Down(long, more)) + [ShortRelease]
  {
    hide Opening;
    assert Again(more + 1) == Again(more) + [InitialPress, MultiPressOngoing, ShortRelease];
    var a := Opening(long) + Again(more);
    assert Opening(long) + Again(more + 1) == a + [InitialPress, MultiPressOngoing] + [ShortRelease];
  }

  lemma OpenRepeated(long: bool, more: nat)
    ensures OpenEvents(Down(long, more)) == OpenEvents(Repeated(long, more)) + [MultiPressOngoing]
  {
    hide Opening, Again;
    var a := Opening(long) + Again(more);
    assert a + [InitialPress] + [MultiPressOngoing] == a + [InitialPress, MultiPressOngoing];
  }

  lemma FollowStands(hs: seq<Handler>, o: Open, h: Handler)
    requires Stands(hs, o) && Follow(o, h).Some?
    ensures Stands(hs + [h], Follow(o, h).value)
  {
    hide Bursts, Opening, Again, OpenEvents;
    var bs: seq<Burst> :| hs == Bursts(bs) + OpenEvents(o);
    if h.MultiPressComplete? {
      CompleteBurst(bs, o.long, o.more);
      NothingOpen(bs + [Burst(o.long, o.more)]);
    } else {
      OpenStep(o, h);
      assert hs + [h] == Bursts(bs) + (OpenEvents(o) + [h]);
    }
  }

  lemma NothingOpen(bs: seq<Burst>)
    ensures Bursts(bs) == Bursts(bs) + OpenEvents(Idle)
  {}

  lemma CompleteBurst(bs: seq<Burst>, long: bool, more: nat)
    ensures Bursts(bs + [Burst(long, more)]) == Bursts(bs) + OpenEvents(Up(long, more)) + [MultiPressComplete]
  {
    assert (bs + [Burst(long, more)])[..|bs|] == bs;
    hide Opening, Again;
    var a := Opening(long) + Again(more);
    assert Bursts(bs) + (a + [MultiPressComplete]) == Bursts(bs) + a + [MultiPressComplete];
  }

  /** The open burst after hs, or None when hs leave the grammar. */
  function Parse(hs: seq<Handler>): Option<Open> {
    if hs == [] then Some(Idle)
    else
      match Parse(hs[..|hs| - 1])
      case None => None
      case Some(o) => Follow(o, hs[|hs| - 1])
  }

  lemma {:induction false} ParseStands(hs: seq<Handler>)
    requires Parse(hs).Some?
    ensures Stands(hs, Parse(hs).value)
  {
    hide Follow;
    if hs == [] {
      assert hs == Bursts([]) + OpenEvents(Idle);
    } else {
      var init, last := hs[..|hs| - 1], hs[|hs| - 1];
      ParseStands(init);
      FollowStands(init, Parse(init).value, last);
      assert hs == init + [last];
    }
  }

  /** An open burst can always be completed. */
  lemma Finish(hs: seq<Handler>, o: Open) returns (more: seq<Handler>)
    requires Stands(hs, o)
    ensures Stands(hs + more, Idle)
  {
    hide Stands;
    match o {
      case Idle =>
        more := [];
        assert hs + [] == hs;
      case Up(_, _) =>
        FollowStands(hs, o, MultiPressComplete);
        more := [MultiPressComplete];
      case _ =>
        var h := match o
          case Held => LongRelease
          case Repeated(_, _) => MultiPressOngoing
          case _ => ShortRelease;
        FollowStands(hs, o, h);
        var rest := FinishNext(hs + [h], Follow(o, h).value);
        more := [h] + rest;
        assert hs + more == hs + [h] + rest;
    }
  }

  lemma FinishNext(hs: seq<Handler>, o: Open) returns (more: seq<Handler>)
    requires Stands(hs, o) && (o.Up? || o.Down?)
    ensures Stands(hs + more, Idle)
  {
    hide Stands;
    if o.Up? {
      FollowStands(hs, o, MultiPressComplete);
      more := [MultiPressComplete];
    } else {
      FollowStands(hs, o, ShortRelease);
      FollowStands(hs + [ShortRelease], Up(o.long, o.more + 1), MultiPressComplete);
      more := [ShortRelease, MultiPressComplete];
      assert hs + more == hs + [ShortRelease] + [MultiPressComplete];
    }
  }

  lemma {:induction false} ParsePrefix(hs: seq<Handler>, n: nat)
    requires n <= |hs| && Parse(hs).Some?
    ensures Parse(hs[..n]).Some?
    decreases |hs|
  {
    if n < |hs| {
      assert hs[..|hs| - 1][..n] == hs[..n];
      ParsePrefix(hs[..|hs| - 1], n);
    } else {
      assert hs[..n] == hs;
    }
  }

  function FollowAll(o: Option<Open>, hs: seq<Handler>): Option<Open> {
    if hs == [] then o
    else
      match FollowAll(o, hs[..|hs| - 1])
      case None => None
      case Some(p) => Follow(p, hs[|hs| - 1])
  }

  lemma {:induction false} ParseConcat(a: seq<Handler>, b: seq<Handler>)
    ensures Parse(a + b) == FollowAll(Parse(a), b)
    decreases |b|
  {
    hide Follow;
    if b == [] {
      assert a + b == a;
    } else {
      assert (a + b)[..|a + b| - 1] == a + b[..|b| - 1];
      ParseConcat(a, b[..|b| - 1]);
    }
  }

  lemma FollowOne(o: Open, h: Handler)
    ensures FollowAll(Some(o), [h]) == Follow(o, h)
  {
    assert [h][..0] == [];
  }

  lemma ParseNext(hs: seq<Handler>, o: Open, h: Handler)
    requires Parse(hs) == Some(o)
    ensures Parse(hs + [h]) == Follow(o, h)
  {
    hide Follow;
    ParseConcat(hs, [h]);
    FollowOne(o, h);
  }

  /** One repeated press. */
  lemma ParseRepeat(hs: seq<Handler>, long: bool, n: nat)
    requires Parse(hs) == Some(Up(long, n))
    ensures Parse(hs + [InitialPress, MultiPressOngoing, ShortRelease]) == Some(Up(long, n + 1))
  {
    hide Parse;
    ParseNext(hs, Up(long, n), InitialPress);
    ParseNext(hs + [InitialPress], Repeated(long, n), MultiPressOngoing);
    ParseNext(hs + [InitialPress] + [MultiPressOngoing], Down(long, n), ShortRelease);
    assert hs + [InitialPress, MultiPressOngoing, ShortRelease] ==
      hs + [InitialPress] + [MultiPressOngoing] + [ShortRelease];
  }

  lemma {:induction false} ParseAgain(hs: seq<Handler>, long: bool, n: nat)
    requires Parse(hs) == Some(Up(long, 0))
    ensures Parse(hs + Again(n)) == Some(Up(long, n))
    decreases n
  {
    hide Parse;
    if n == 0 {
      assert hs + [] == hs;
    } else {
      var unit := [InitialPress, MultiPressOngoing, ShortRelease];
      ParseAgain(hs, long, n - 1);
      ParseRepeat(hs + Again(n - 1), long, n - 1);
      assert hs + (Again(n - 1) + unit) == hs + Again(n - 1) + unit;
    }
  }

  lemma ParseOpening(hs: seq<Handler>, long: bool)
    requires Parse(hs) == Some(Idle)
    ensures Parse(hs + Opening(long)) == Some(Up(long, 0))
  {
    hide Parse;
    var first := hs + [InitialPress];
    ParseNext(hs, Idle, InitialPress);
    if long {
      ParseNext(first, First, LongPress);
      ParseNext(first + [LongPress], Held, LongRelease);
      assert hs + Opening(true) == first + [LongPress] + [LongRelease];
    } else {
      ParseNext(first, First, ShortRelease);
      assert hs + Opening(false) == first + [ShortRelease];
    }
  }

  lemma ParseBurst(hs: seq<Handler>, b: Burst)
    requires Parse(hs) == Some(Idle)
    ensures Parse(hs + BurstEvents(b)) == Some(Idle)
  {
    hide Parse, Opening, Again;
    ParseOpening(hs, b.long);
    ParseAgain(hs + Opening(b.long), b.long, b.more);
    ParseNext(hs + Opening(b.long) + Again(b.more), Up(b.long, b.more), MultiPressComplete);
    Reassociate(hs, Opening(b.long), Again(b.more), [MultiPressComplete]);
  }

  lemma Reassociate(a: seq<Handler>, b: seq<Handler>, c: seq<Handler>, d: seq<Handler>)
    ensures a + b + c + d == a + (b + c + d)
  {}

  lemma {:induction false} ParseBursts(bs: seq<Burst>)
    ensures Parse(Bursts(bs)) == Some(Idle)
  {
    hide BurstEvents;
    if bs != [] {
      ParseBursts(bs[..|bs| - 1]);
      ParseBurst(Bursts(bs[..|bs| - 1]), bs[|bs| - 1]);
    }
  }

  /** The parser accepts exactly the prefixes of the words of the grammar. */
  lemma ParseIsGrammar(hs: seq<Handler>)
    ensures Parse(hs).Some? <==> InGrammar(hs)
  {
    if Parse(hs).Some? {
      ParseStands(hs);
      var more := Finish(hs, Parse(hs).value);
      var bs: seq<Burst> :| hs + more == Bursts(bs) + OpenEvents(Idle);
      NothingOpen(bs);
      assert hs <= hs + more;
      assert hs <= Bursts(bs);
    }
    if InGrammar(hs) {
      var bs: seq<Burst> :| hs <= Bursts(bs);
      ParseBursts(bs);
      ParsePrefix(Bursts(bs), |hs|);
      assert Bursts(bs)[..|hs|] == hs;
    }
  }

  // ---------- counting presses ----------

  /** Presses since the last completed burst. */
  function Presses(hs: seq<Handler>): nat {
    if hs == [] then 0
    else
      match hs[|hs| - 1]
      case MultiPressComplete => 0
      case InitialPress => Presses(hs[..|hs| - 1]) + 1
      case _ => Presses(hs[..|hs| - 1])
  }

  function HandlersOf(ran: seq<Entry>): (hs: seq<Handler>)
    ensures |hs| == |ran| && forall k :: 0 <= k < |ran| ==> hs[k] == ran[k].handler
  {
    seq(|ran|, k requires 0 <= k < |ran| => ran[k].handler)
  }

  /** Presses counted by the count variable at this point of a burst. */
  function Counted(o: Open): nat {
    match o
    case Up(_, more) => more + 1
    case Down(_, more) => more + 2
    case Repeated(_, more) => more + 1
    case _ => 1
  }

  function PressesIn(o: Open): nat {
    match o
    case Idle => 0
    case Up(_, more) => more + 1
    case Down(_, more) => more + 2
    case Repeated(_, more) => more + 2
    case _ => 1
  }

  /** On entry to the completion handler the count is the number of presses of the burst, as an 8-bit number. */
  predicate CountRight(ran: seq<Entry>, k: nat)
    requires k < |ran|
  {
    ran[k].handler.MultiPressComplete? ==> ran[k].count == Presses(HandlersOf(ran[..k])) % 256
  }

  // ---------- invariants of all runs ----------

  /** Where the posted handlers stand, as the flags tell it. */
  predicate FlagsMatch(s: State, o: Open) {
    && (o.Idle? <==> !s.pressed && !s.multiPress)
    && (o.First? <==> s.pressed && !s.multiPress && !s.longDetected)
    && (o.Held? <==> s.pressed && !s.multiPress && s.longDetected)
    && (o.Up? <==> !s.pressed && s.multiPress)
    && (o.Down? <==> s.pressed && s.multiPress)
    && (s.longDetected ==> o.Held?)
    && (s.multiTimer <==> s.multiPress && !s.pressed)
  }

  function Posted(s: State): seq<Handler> { HandlersOf(s.ran) + s.queue }

  predicate PostedFine(s: State) {
    Parse(Posted(s)).Some? && FlagsMatch(s, Parse(Posted(s)).value)
  }

  predicate CountFine(s: State) {
    && Parse(HandlersOf(s.ran)).Some?
    && s.count == Counted(Parse(HandlersOf(s.ran)).value) % 256
    && Presses(HandlersOf(s.ran)) == PressesIn(Parse(HandlersOf(s.ran)).value)
  }

  predicate Invariant(s: State) {
    && PostedFine(s) && CountFine(s)
    && (s.longTimer && s.pressed && !s.multiPress ==> !s.longDetected)
    && (forall k :: 0 <= k < |s.ran| ==> CountRight(s.ran, k))
  }

  /** Posting a handler keeps what ran, and moves the open burst on. */
  lemma PostStep(s: State, h: Handler)
    requires Parse(Posted(s)).Some?
    ensures Parse(HandlersOf(s.ran) + (s.queue + [h])) == Follow(Parse(Posted(s)).value, h)
  {
    hide Follow;
    ParseConcat(Posted(s), [h]);
    FollowOne(Parse(Posted(s)).value, h);
    assert HandlersOf(s.ran) + (s.queue + [h]) == Posted(s) + [h];
  }

  lemma HandlersConcat(ran: seq<Entry>, e: Entry)
    ensures HandlersOf(ran + [e]) == HandlersOf(ran) + [e.handler]
  {}

  lemma DispatchMoves(s: State)
    requires s.queue != []
    ensures Posted(Next(s, Dispatch)) == Posted(s)
  {
    HandlersConcat(s.ran, Entry(s.queue[0], s.count));
    hide HandlersOf;
    assert HandlersOf(s.ran) + s.queue == HandlersOf(s.ran) + [s.queue[0]] + s.queue[1..];
  }

  lemma DispatchKeepsInvariant(s: State)
    requires Invariant(s) && s.queue != []
    ensures Invariant(Next(s, Dispatch))
  {
    hide FlagsMatch, Parse, CountFine, CountRight;
    var h, s' := s.queue[0], Next(s, Dispatch);
    DispatchMoves(s);
    SameFlags(s, s', Parse(Posted(s)).value);
    DispatchCounts(s);
  }

  /** The handler that runs next moves the open burst on. */
  lemma DispatchParses(s: State)
    requires s.queue != [] && Parse(HandlersOf(s.ran)).Some? && Parse(Posted(s)).Some?
    ensures Parse(HandlersOf(s.ran) + [s.queue[0]]) == Follow(Parse(HandlersOf(s.ran)).value, s.queue[0])
    ensures Follow(Parse(HandlersOf(s.ran)).value, s.queue[0]).Some?
  {
    hide Follow, Parse;
    var ran, h := HandlersOf(s.ran), s.queue[0];
    assert Posted(s)[..|ran| + 1] == ran + [h];
    ParsePrefix(Posted(s), |ran| + 1);
    ParseNext(ran, Parse(ran).value, h);
  }

  lemma PressesNext(hs: seq<Handler>, h: Handler)
    ensures Presses(hs + [h]) == match h
      case InitialPress => Presses(hs) + 1
      case MultiPressComplete => 0
      case _ => Presses(hs)
  {
    assert (hs + [h])[..|hs|] == hs;
  }

  lemma DispatchCounts(s: State)
    requires s.queue != [] && CountFine(s) && Parse(Posted(s)).Some?
    requires forall k :: 0 <= k < |s.ran| ==> CountRight(s.ran, k)
    ensures CountFine(Next(s, Dispatch))
    ensures forall k :: 0 <= k < |Next(s, Dispatch).ran| ==> CountRight(Next(s, Dispatch).ran, k)
  {
    hide Follow, Counted, PressesIn, Parse, Presses, HandlersOf, CountRight, Posted;
    var h, entry := s.queue[0], Entry(s.queue[0], s.count);
    DispatchParses(s);
    HandlersConcat(s.ran, entry);
    PressesNext(HandlersOf(s.ran), h);
    CountStep(Parse(HandlersOf(s.ran)).value, h);
    CountsStay(s.ran, entry);
  }

  /** One more entry leaves the earlier counts right. */
  lemma CountsStay(ran: seq<Entry>, e: Entry)
    requires forall k :: 0 <= k < |ran| ==> CountRight(ran, k)
    requires e.handler.MultiPressComplete? ==> e.count == Presses(HandlersOf(ran)) % 256
    ensures forall k :: 0 <= k < |ran + [e]| ==> CountRight(ran + [e], k)
  {
    hide Presses, HandlersOf;
    var more := ran + [e];
    assert more[..|ran|] == ran;
    forall k | 0 <= k < |ran| ensures CountRight(more, k) {
      assert CountRight(ran, k) && more[..k] == ran[..k];
    }
  }

  lemma SameFlags(s: State, s': State, o: Open)
    requires s' == s.(queue := s'.queue, ran := s'.ran, count := s'.count)
    ensures FlagsMatch(s', o) == FlagsMatch(s, o)
  {}

  lemma CountStep(o: Open, h: Handler)
    requires Follow(o, h).Some?
    ensures Counted(Follow(o, h).value) == match h
      case MultiPressOngoing => Counted(o) + 1
      case MultiPressComplete => 1
      case _ => Counted(o)
    ensures PressesIn(Follow(o, h).value) == match h
      case InitialPress => PressesIn(o) + 1
      case MultiPressComplete => 0
      case _ => PressesIn(o)
    ensures h.MultiPressComplete? ==> Counted(o) == PressesIn(o)
  {}

  /** Every step but an edge out of turn. */
  predicate InTurn(s: State, step: Step) { (step.Press? ==> !s.pressed) && (step.Release? ==> s.pressed) }

  lemma StepKeepsInvariant(s: State, step: Step)
    requires Invariant(s) && InTurn(s, step)
    ensures Invariant(Next(s, step))
  {
    hide Parse, CountFine, CountRight;
    var s' := Next(s, step);
    match step {
      case Dispatch =>
        if s.queue != [] {
          DispatchKeepsInvariant(s);
        }
      case Press =>
        SameCount(s, s');
        PostStep(s, InitialPress);
        var middle := s.(queue := s.queue + [InitialPress]);
        if s.multiPress {
          PostStep(middle, MultiPressOngoing);
          assert s'.queue == middle.queue + [MultiPressOngoing];
        }
      case Release =>
        SameCount(s, s');
        PostStep(s, if s.longDetected then LongRelease else ShortRelease);
      case MultiTimeout =>
        SameCount(s, s');
        PostStep(s, MultiPressComplete);
      case LongTimeout =>
        SameCount(s, s');
        PostStep(s, LongPress);
    }
  }

  lemma SameCount(s: State, s': State)
    requires s'.ran == s.ran && s'.count == s.count
    ensures CountFine(s') == CountFine(s)
  {}

  lemma {:induction false} RunKeepsInvariant(steps: seq<Step>)
    requires Alternating(steps)
    ensures Invariant(Run(INITIAL, steps))
    decreases |steps|
  {
    hide Next, Invariant;
    if steps == [] {
      InitialInvariant();
    } else {
      RunKeepsInvariant(steps[..|steps| - 1]);
      PressedIs(steps[..|steps| - 1]);
      StepKeepsInvariant(Run(INITIAL, steps[..|steps| - 1]), steps[|steps| - 1]);
    }
  }

  lemma {:induction false} PressedIs(steps: seq<Step>)
    ensures Run(INITIAL, steps).pressed == Pressed(steps)
  {
    if steps != [] {
      PressedIs(steps[..|steps| - 1]);
    }
  }

  /** What was posted stays posted, in its order. */
  lemma PostedGrows(s: State, step: Step)
    ensures Posted(s) <= Posted(Next(s, step))
  {
    if step.Dispatch? && s.queue != [] {
      DispatchMoves(s);
    }
  }

  /** An edge out of turn posts a handler that does not belong there. */
  lemma OutOfTurn(s: State, step: Step)
    requires Invariant(s) && !InTurn(s, step)
    ensures Parse(Posted(Next(s, step))).None?
  {
    hide Parse, CountFine, CountRight;
    var h := if step.Press? then InitialPress else ShortRelease;
    var posted := HandlersOf(s.ran) + (s.queue + [h]);
    var s' := Next(s, step);
    PostStep(s, h);
    if Parse(Posted(s')).Some? {
      assert Posted(s')[..|posted|] == posted;
      ParsePrefix(Posted(s'), |posted|);
      assert false;
    }
  }

  lemma {:induction false} OtherRunsLeave(steps: seq<Step>)
    requires !Alternating(steps)
    ensures Parse(Posted(Run(INITIAL, steps))).None?
    decreases |steps|
  {
    hide Next, Invariant, Parse, Posted;
    var before, step := steps[..|steps| - 1], steps[|steps| - 1];
    var s := Run(INITIAL, before);
    if Alternating(before) {
      RunKeepsInvariant(before);
      PressedIs(before);
      OutOfTurn(s, step);
    } else {
      OtherRunsLeave(before);
      PostedGrows(s, step);
      var posted := Posted(Next(s, step));
      assert posted[..|Posted(s)|] == Posted(s);
      if Parse(posted).Some? {
        ParsePrefix(posted, |Posted(s)|);
        assert false;
      }
    }
  }

  lemma InitialInvariant()
    ensures Invariant(INITIAL)
  {
    assert HandlersOf([]) == [];
  }

  // ---------- what every run guarantees ----------

  /** The handlers posted are a prefix of the grammar exactly when presses and releases alternate, however timer
      expiries and dispatches come between; then so are the handlers run. */
  lemma RunsFollowGrammar(steps: seq<Step>)
    ensures InGrammar(Posted(Run(INITIAL, steps))) <==> Alternating(steps)
    ensures Alternating(steps) ==> InGrammar(HandlersOf(Run(INITIAL, steps).ran))
  {
    hide Run, Parse;
    ParseIsGrammar(HandlersOf(Run(INITIAL, steps).ran));
    ParseIsGrammar(Posted(Run(INITIAL, steps)));
    if Alternating(steps) {
      RunKeepsInvariant(steps);
    } else {
      OtherRunsLeave(steps);
    }
  }

  /** The count on entry to the completion handler is the number of presses of its burst, modulo 256. */
  lemma CountIsPresses(steps: seq<Step>, k: nat)
    requires Alternating(steps)
    requires k < |Run(INITIAL, steps).ran| && Run(INITIAL, steps).ran[k].handler.MultiPressComplete?
    ensures Run(INITIAL, steps).ran[k].count == Presses(HandlersOf(Run(INITIAL, steps).ran[..k])) % 256
  {
    hide Run;
    RunKeepsInvariant(steps);
    assert CountRight(Run(INITIAL, steps).ran, k);
  }

  /** The button was pressed since the long-press timer last expired. */
  predicate PressSinceLong(steps: seq<Step>) {
    exists k :: 0 <= k < |steps| && steps[k].Press? && forall j :: k < j < |steps| ==> !steps[j].LongTimeout?
  }

  lemma PressSinceLongStep(steps: seq<Step>)
    requires steps != []
    ensures var step := steps[|steps| - 1];
      PressSinceLong(steps) <==> step.Press? || (PressSinceLong(steps[..|steps| - 1]) && !step.LongTimeout?)
  {
    var before, n := steps[..|steps| - 1], |steps| - 1;
    if PressSinceLong(before) && !steps[n].LongTimeout? {
      var k :| 0 <= k < n && before[k].Press? && forall j :: k < j < n ==> !before[j].LongTimeout?;
      assert forall j :: k < j < n ==> steps[j] == before[j];
      assert steps[k].Press? && forall j :: k < j < |steps| ==> !steps[j].LongTimeout?;
    }
    if PressSinceLong(steps) && !steps[n].Press? {
      var k :| 0 <= k < |steps| && steps[k].Press? && forall j :: k < j < |steps| ==> !steps[j].LongTimeout?;
      assert before[k].Press? && forall j :: k < j < n ==> !before[j].LongTimeout?;
    }
  }

  /** On any edges, the long-press timer is pending exactly when the button was pressed since it last expired: each press
      starts it, in a burst or not, and a release does not stop it. */
  lemma {:induction false} LongTimerMeansPress(steps: seq<Step>)
    ensures Run(INITIAL, steps).longTimer <==> PressSinceLong(steps)
  {
    hide PressSinceLong;
    if steps == [] {
      NoPressYet();
    } else {
      LongTimerMeansPress(steps[..|steps| - 1]);
      PressSinceLongStep(steps);
    }
  }

  lemma NoPressYet()
    ensures !PressSinceLong([])
  {}

  /** The multi-press timer is pending exactly while a burst is going on and the button is up; on any edges whatever. */
  lemma {:induction false} MultiTimerMeansUp(steps: seq<Step>)
    ensures var s := Run(INITIAL, steps); s.multiTimer <==> s.multiPress && !s.pressed
  {
    if steps != [] {
      MultiTimerMeansUp(steps[..|steps| - 1]);
    }
  }

  // ---------- and every word of the grammar can happen ----------

  lemma {:induction false} RunConcat(s: State, a: seq<Step>, b: seq<Step>)
    ensures Run(s, a + b) == Run(Run(s, a), b)
    decreases |b|
  {
    hide Next;
    if b == [] {
      assert a + b == a;
    } else {
      assert (a + b)[..|a + b| - 1] == a + b[..|b| - 1];
      RunConcat(s, a, b[..|b| - 1]);
    }
  }

  lemma RunOne(s: State, step: Step)
    ensures Run(s, [step]) == Next(s, step) && Run(s, []) == s
  {
    hide Next;
    assert [step][..0] == [];
    assert Run(s, [step][..0]) == s;
  }

  function RepeatSteps(n: nat): seq<Step> { if n == 0 then [] else RepeatSteps(n - 1) + [Press, Release] }

  function BurstSteps(b: Burst): seq<Step> {
    (if b.long then [Press, LongTimeout, Release] else [Press, Release]) + RepeatSteps(b.more) + [MultiTimeout]
  }

  /** The state differs from s only in its timers, flags and these further queued handlers. */
  predicate Queued(s: State, s': State, hs: seq<Handler>) {
    s'.queue == s.queue + hs && s'.ran == s.ran && s'.count == s.count
  }

  predicate AtRest(s: State) { !s.pressed && !s.multiPress && !s.longDetected && !s.multiTimer }

  predicate InBurst(s: State) { !s.pressed && s.multiPress && !s.longDetected && s.multiTimer }

  lemma OpeningHappens(s: State, long: bool)
    requires AtRest(s)
    ensures var s' := Run(s, if long then [Press, LongTimeout, Release] else [Press, Release]);
      InBurst(s') && Queued(s, s', Opening(long))
  {
    var s1 := Next(s, Press);
    RunOne(s, Press);
    if long {
      var s2 := Next(s1, LongTimeout);
      RunOne(s1, LongTimeout);
      RunOne(s2, Release);
      RunConcat(s, [Press], [LongTimeout]);
      RunConcat(s, [Press] + [LongTimeout], [Release]);
      assert [Press] + [LongTimeout] + [Release] == [Press, LongTimeout, Release];
    } else {
      RunOne(s1, Release);
      RunConcat(s, [Press], [Release]);
      assert [Press] + [Release] == [Press, Release];
    }
  }

  lemma {:induction false} RepeatHappens(s: State, n: nat)
    requires InBurst(s)
    ensures var s' := Run(s, RepeatSteps(n)); InBurst(s') && Queued(s, s', Again(n))
  {
    RunOne(s, Press);
    if n > 0 {
      RepeatHappens(s, n - 1);
      var s1 := Run(s, RepeatSteps(n - 1));
      var s2 := Next(s1, Press);
      var s3 := Next(s2, Release);
      RunOne(s1, Press);
      RunOne(s2, Release);
      RunConcat(s1, [Press], [Release]);
      RunConcat(s, RepeatSteps(n - 1), [Press, Release]);
      assert [Press] + [Release] == [Press, Release];
      hide Run;
      assert s3.queue == s.queue + (Again(n - 1) + [InitialPress, MultiPressOngoing, ShortRelease]);
    }
  }

  lemma BurstHappens(s: State, b: Burst)
    requires AtRest(s)
    ensures var s' := Run(s, BurstSteps(b)); AtRest(s') && Queued(s, s', BurstEvents(b))
  {
    hide Run, Opening, Again, RepeatSteps;
    var opening := if b.long then [Press, LongTimeout, Release] else [Press, Release];
    OpeningHappens(s, b.long);
    var s1 := Run(s, opening);
    RepeatHappens(s1, b.more);
    RunConcat(s, opening, RepeatSteps(b.more));
    var s2 := Run(s1, RepeatSteps(b.more));
    RunConcat(s, opening + RepeatSteps(b.more), [MultiTimeout]);
    RunOne(s2, MultiTimeout);
    assert s.queue + Opening(b.long) + Again(b.more) + [MultiPressComplete] == s.queue + BurstEvents(b);
  }

  lemma {:induction false} BurstsHappen(bs: seq<Burst>) returns (steps: seq<Step>)
    ensures AtRest(Run(INITIAL, steps)) && Queued(INITIAL, Run(INITIAL, steps), Bursts(bs))
  {
    hide BurstEvents, Next;
    if bs == [] {
      steps := [];
    } else {
      var before := BurstsHappen(bs[..|bs| - 1]);
      var b := bs[|bs| - 1];
      BurstHappens(Run(INITIAL, before), b);
      RunConcat(INITIAL, before, BurstSteps(b));
      steps := before + BurstSteps(b);
    }
  }

  lemma {:induction false} DispatchAll(s: State) returns (steps: seq<Step>)
    ensures HandlersOf(Run(s, steps).ran) == Posted(s) && Run(s, steps).queue == []
    decreases |s.queue|
  {
    hide Run, HandlersOf;
    if s.queue == [] {
      RunOne(s, Dispatch);
      steps := [];
    } else {
      var s' := Next(s, Dispatch);
      DispatchMoves(s);
      var rest := DispatchAll(s');
      RunOne(s, Dispatch);
      RunConcat(s, [Dispatch], rest);
      steps := [Dispatch] + rest;
    }
  }

  /** The grammar is exact: each of its words is what some run emits. */
  lemma EveryWordHappens(bs: seq<Burst>) returns (steps: seq<Step>)
    ensures Alternating(steps) && HandlersOf(Run(INITIAL, steps).ran) == Bursts(bs)
  {
    hide Run, Bursts, Next, Alternating;
    var pressing := BurstsHappen(bs);
    var draining := DispatchAll(Run(INITIAL, pressing));
    RunConcat(INITIAL, pressing, draining);
    steps := pressing + draining;
    assert HandlersOf([]) == [];
    assert [] + Bursts(bs) == Bursts(bs);
    assert Posted(Run(INITIAL, steps)) == Bursts(bs);
    assert InGrammar(Bursts(bs));
    RunsFollowGrammar(steps);
  }
}
