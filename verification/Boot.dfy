/** The user-mode bootloader over whole runs: power-on boots, sleeps, wake-ups, boot-address switches and upgrades. */
module Boot {
  import opened Results

  type Address = nat

  const CERTIFICATE_MAGIC := 0xE5ECCE01
  const BOOT_ADDRESS_MODULUS := 0x2000_0000  // the mask 0x1FFFFFFF
  const VTOR_MAX := 0xFFFF_FFF8

  /** What the bootloader looks at in an application header. */
  datatype Image = Image(magic: nat, validates: bool, vpp: nat)

  datatype ResetReason = HwPor | SoftPorBootloader | SoftPorByRegmap | SoftPorByWatchdog | OtherPor

  datatype Phase = Off(reason: ResetReason) | Booting | Running(app: Address) | Sleeping(app: Address)

  datatype Event =
    | PowerOn(reason: ResetReason)
    | PendingCheck(found: bool)
    | Installed | InstallRefused | InstallFailed
    | Validated(header: Address, ok: bool)
    | Stored(header: Address) | StoreFailed(header: Address, left: Address)
    | Jumped(header: Address, wake: bool)
    | Panicked
    | Switched(address: Address) | SleepAllowed | Slept

  /** bootAddress, wakeUpAddress and pending are the persistent metadata; images is the rest of the flash. */
  datatype State = State(
    phase: Phase, bootAddress: Address, wakeUpAddress: Address, pending: bool, images: map<Address, Image>,
    sleepEnabled: bool, trace: seq<Event>)

  /** How the calls into flash and crypto code turn out in one boot. */
  datatype Install = Success(images: map<Address, Image>, pending: bool)
                   | LoadFailed(images: map<Address, Image>, pending: bool)
                   | Refused

  datatype BootEnv = BootEnv(initOk: bool, install: Install, storeOk: bool, garbledWakeUp: Address)

  function At(images: map<Address, Image>, a: Address): Image {
    if a in images then images[a] else Image(0, false, 0)
  }

  predicate Present(images: map<Address, Image>, a: Address) { At(images, a).magic == CERTIFICATE_MAGIC }

  predicate Valid(images: map<Address, Image>, a: Address) { At(images, a).validates }

  /** The vector table address, a 32-bit shift by eight, lies between the primary slot and the VTOR limit. */
  predicate VectorInRange(images: map<Address, Image>, a: Address, primary: Address) {
    primary <= At(images, a).vpp * 256 % 0x1_0000_0000 <= VTOR_MAX
  }

  predicate TriggersUpgrade(r: ResetReason) { r != OtherPor }

  // ---------- one boot ----------

  function Log(s: State, e: Event): State { s.(trace := s.trace + [e]) }

  function Panic(s: State): State { Log(s, Panicked).(phase := Off(SoftPorByRegmap)) }

  function Upgrade(s: State, reason: ResetReason, install: Install): State {
    if !TriggersUpgrade(reason) then s
    else
      var c := Log(s, PendingCheck(s.pending));
      if !s.pending then c
      else
        match install
        case Success(images, pending) => Log(c.(images := images, pending := pending), Installed)
        case LoadFailed(images, pending) => Panic(Log(c.(images := images, pending := pending), InstallFailed))
        case Refused => Log(c, InstallRefused)
  }

  /** The application to boot: the active one if present and valid, else the primary one if present and valid. */
  function Chosen(images: map<Address, Image>, active: Address, primary: Address): Option<Address> {
    if Present(images, active) && Valid(images, active) then Some(active)
    else if Present(images, primary) && Valid(images, primary) then Some(primary)
    else None
  }

  /** The validations made on the way; absent applications are not validated. */
  function Validations(images: map<Address, Image>, active: Address, primary: Address): seq<Event> {
    var first := if Present(images, active) then [Validated(active, Valid(images, active))] else [];
    if active == primary || (Present(images, active) && Valid(images, active)) || !Present(images, primary) then first
    else first + [Validated(primary, Valid(images, primary))]
  }

  function Store(s: State, header: Address, env: BootEnv): State {
    if header == s.wakeUpAddress then s
    else if header == 0 then Panic(Log(s, StoreFailed(0, s.wakeUpAddress)))
    else if !env.storeOk then
      Panic(Log(s.(wakeUpAddress := env.garbledWakeUp), StoreFailed(header, env.garbledWakeUp)))
    else Log(s.(wakeUpAddress := header), Stored(header))
  }

  function Jump(s: State, header: Address, wake: bool, primary: Address): State {
    if header == 0 || !VectorInRange(s.images, header, primary) then Panic(s)
    else Log(s.(phase := Running(header)), Jumped(header, wake))
  }

  function Launch(s: State, primary: Address, env: BootEnv): State {
    var active := s.bootAddress % BOOT_ADDRESS_MODULUS;
    var v := s.(trace := s.trace + Validations(s.images, active, primary));
    match Chosen(s.images, active, primary)
    case None => Panic(v)
    case Some(header) =>
      var stored := Store(v, header, env);
      if stored.phase.Booting? then Jump(stored, header, false, primary) else stored
  }

  function PowerOnBoot(s: State, reason: ResetReason, primary: Address, env: BootEnv): State {
    var start := Log(s, PowerOn(reason)).(phase := Booting, sleepEnabled := true);
    if !env.initOk then Panic(start)
    else
      var u := Upgrade(start, reason, env.install);
      if u.phase.Booting? then Launch(u, primary, env) else u
  }

  function WakeUp(s: State, primary: Address): State {
    if s.wakeUpAddress == 0 then Panic(s) else Jump(s, s.wakeUpAddress, true, primary)
  }

  // ---------- the bootloader ----------

  class Bootloader {
    const primary: Address
    var phase: Phase
    var bootAddress: Address
    var wakeUpAddress: Address
    var pending: bool
    var images: map<Address, Image>
    var sleepEnabled: bool
    ghost var trace: seq<Event>

    constructor (primary: Address, bootAddress: Address, wakeUpAddress: Address, pending: bool,
                 images: map<Address, Image>)
      ensures this.primary == primary
      ensures Now() == State(Off(HwPor), bootAddress, wakeUpAddress, pending, images, true, [])
    {
      this.primary := primary;
      this.bootAddress, this.wakeUpAddress, this.pending, this.images := bootAddress, wakeUpAddress, pending, images;
      phase, sleepEnabled := Off(HwPor), true;
      trace := [];
    }

    ghost function Now(): State
      reads this
    {
      State(phase, bootAddress, wakeUpAddress, pending, images, sleepEnabled, trace)
    }

    method RaisePanic()
      modifies this
      ensures Now() == Panic(old(Now()))
    {
      trace := trace + [Panicked];
      phase := Off(SoftPorByRegmap);
    }

    /** Install the pending image; only a failure while loading it is fatal. */
    method OtaExecute(install: Install)
      modifies this
      ensures Now() == match install
        case Success(images, pending) => Log(old(Now()).(images := images, pending := pending), Installed)
        case LoadFailed(images, pending) => Panic(Log(old(Now()).(images := images, pending := pending), InstallFailed))
        case Refused => Log(old(Now()), InstallRefused)
    {
      match install {
        case Success(newImages, stillPending) =>
          images, pending := newImages, stillPending;
          trace := trace + [Installed];
        case LoadFailed(newImages, stillPending) =>
          images, pending := newImages, stillPending;
          trace := trace + [InstallFailed];
          RaisePanic();
        case Refused =>
          trace := trace + [InstallRefused];
      }
    }

    /** The presence check and the validate/fallback loop; None stands for a panic. */
    method SelectApplication() returns (header: Option<Address>, validations: nat)
      modifies this`trace
      ensures header == Chosen(images, bootAddress % BOOT_ADDRESS_MODULUS, primary)
      ensures trace == old(trace) + Validations(images, bootAddress % BOOT_ADDRESS_MODULUS, primary)
      ensures validations <= 2
    {
      var fwHeader: Address := bootAddress % BOOT_ADDRESS_MODULUS;
      ghost var active, was := fwHeader, trace;
      validations := 0;
      if !Present(images, fwHeader) {
        if fwHeader == primary {
          return None, validations;
        }
        fwHeader := primary;
        if !Present(images, fwHeader) {
          return None, validations;
        }
      }
      var fallback, isValid := true, false;
      while fallback && !isValid
        invariant Present(images, fwHeader) && (fwHeader == active || fwHeader == primary)
        invariant validations == 0 || (validations == 1 && (fallback && !isValid ==> fwHeader == primary != active)) ||
                  (validations == 2 && (!fallback || isValid))
        invariant fallback && !isValid && validations == 0 ==>
          trace == was && (fwHeader != active ==> !Present(images, active))
        invariant fallback && !isValid && validations > 0 ==>
          trace == was + [Validated(active, false)] && Present(images, active) && !Valid(images, active)
        invariant !fallback || isValid ==> isValid
        invariant isValid ==> Chosen(images, active, primary) == Some(fwHeader)
        invariant isValid ==> trace == was + Validations(images, active, primary)
        decreases if fallback && !isValid then 2 - validations else 0
      {
        fallback := fwHeader != primary;
        isValid := Valid(images, fwHeader);
        trace := trace + [Validated(fwHeader, isValid)];
        validations := validations + 1;
        if !isValid {
          if fallback {
            if !Present(images, primary) {
              return None, validations;
            }
            fwHeader := primary;
            continue;
          }
          return None, validations;
        }
      }
      header := Some(fwHeader);
    }

    /** Remember where to wake up, only when that changes. */
    method PrepareWakeUp(header: Address, env: BootEnv)
      requires phase.Booting?
      modifies this
      ensures Now() == Store(old(Now()), header, env)
    {
      if header != wakeUpAddress {
        if header == 0 {
          trace := trace + [StoreFailed(0, wakeUpAddress)];
          RaisePanic();
        } else if !env.storeOk {
          wakeUpAddress := env.garbledWakeUp;
          trace := trace + [StoreFailed(header, env.garbledWakeUp)];
          RaisePanic();
        } else {
          wakeUpAddress := header;
          trace := trace + [Stored(header)];
        }
      }
    }

    method JumpToApp(header: Address, wake: bool)
      modifies this
      ensures Now() == Jump(old(Now()), header, wake, primary)
    {
      if header == 0 {
        RaisePanic();
        return;
      }
      var vectorTableAddress := At(images, header).vpp * 256 % 0x1_0000_0000;
      if vectorTableAddress < primary || vectorTableAddress > VTOR_MAX {
        RaisePanic();
        return;
      }
      phase := Running(header);
      trace := trace + [Jumped(header, wake)];
    }

    /** The bootloader's main function, run at power-on. */
    method Boot(reason: ResetReason, env: BootEnv)
      modifies this
      ensures Now() == PowerOnBoot(old(Now()), reason, primary, env)
    {
      hide Launch, Panic;
      trace := trace + [PowerOn(reason)];
      phase, sleepEnabled := Booting, true;
      if !env.initOk {
        RaisePanic();
        return;
      }
      if reason == HwPor || reason == SoftPorBootloader || reason == SoftPorByRegmap || reason == SoftPorByWatchdog {
        trace := trace + [PendingCheck(pending)];
        if pending {
          OtaExecute(env.install);
          if !phase.Booting? {
            return;
          }
        }
      }
      LaunchApplication(env);
    }

    method LaunchApplication(env: BootEnv)
      requires phase.Booting?
      modifies this
      ensures Now() == Launch(old(Now()), primary, env)
    {
      hide Store, Jump, Chosen, Validations, Panic;
      var header, validations := SelectApplication();
      if header.None? {
        RaisePanic();
        return;
      }
      PrepareWakeUp(header.value, env);
      if !phase.Booting? {
        return;
      }
      JumpToApp(header.value, false);
    }

    /** The reset handler: power-on goes through main, waking up goes straight to the stored application. */
    method ResetHandler(env: BootEnv)
      requires phase.Off? || phase.Sleeping?
      modifies this
      ensures Now() == if old(phase).Off? then PowerOnBoot(old(Now()), old(phase).reason, primary, env)
                       else WakeUp(old(Now()), primary)
    {
      if phase.Off? {
        Boot(phase.reason, env);
      } else {
        if wakeUpAddress == 0 {
          RaisePanic();
          return;
        }
        JumpToApp(wakeUpAddress, true);
      }
    }

    /** The running application selects the other stack; sleep is disabled when the address was written. */
    method SwitchStack(address: Address, ok: bool) returns (done: bool)
      requires phase.Running?
      modifies this
      ensures done == ok
      ensures Now() == SwitchBoot(old(Now()), address, ok)
    {
      if ok {
        bootAddress := address;
        sleepEnabled := false;
        trace := trace + [Switched(address)];
      }
      done := ok;
    }
  }

  function SwitchBoot(s: State, address: Address, ok: bool): State {
    if ok then Log(s.(bootAddress := address, sleepEnabled := false), Switched(address)) else s
  }

  // ---------- runs ----------

  datatype Step =
    | PowerUp(env: BootEnv) | Wake | Sleep | AllowSleep | Switch(address: Address, ok: bool)
    | WriteFlash(images: map<Address, Image>, pending: bool)  // an application changing flash other than the metadata
    | Reset(reason: ResetReason) | AppReturns
    // during a boot, after n events of it
    | PowerLoss(env: BootEnv, n: nat, images: map<Address, Image>, pending: bool)

  /** One step of the device; a step that is not possible in the phase changes nothing. */
  function Next(s: State, step: Step, primary: Address): State {
    match step
    case PowerUp(env) => if s.phase.Off? then PowerOnBoot(s, s.phase.reason, primary, env) else s
    case Wake => if s.phase.Sleeping? then WakeUp(s, primary) else s
    case Sleep => if s.phase.Running? && s.sleepEnabled then Log(s.(phase := Sleeping(s.phase.app)), Slept) else s
    case AllowSleep => if s.phase.Running? then Log(s.(sleepEnabled := true), SleepAllowed) else s
    case Switch(address, ok) => if s.phase.Running? then SwitchBoot(s, address, ok) else s
    case WriteFlash(images, pending) => if s.phase.Running? then s.(images := images, pending := pending) else s
    case Reset(reason) => if s.phase.Running? || s.phase.Sleeping? then s.(phase := Off(reason)) else s
    case AppReturns => if s.phase.Running? then Panic(s) else s
    case PowerLoss(env, n, images, pending) =>
      if s.phase.Off? then CutOff(s, PowerOnBoot(s, s.phase.reason, primary, env), n, images, pending) else s
  }

  /** The boot from s to b lost power after its first n events: the flash may hold anything, the wake-up address what
      these events have written. */
  function CutOff(s: State, b: State, n: nat, images: map<Address, Image>, pending: bool): State {
    var m := |s.trace| + n;
    var trace := if m <= |b.trace| then b.trace[..m] else b.trace;
    var events := if |s.trace| <= |trace| then trace[|s.trace|..] else [];
    State(Off(HwPor), s.bootAddress, AddressAfter(events, s.wakeUpAddress), pending, images, true, trace)
  }

  /** The stored wake-up address after these events. */
  function AddressAfter(events: seq<Event>, address: Address): Address {
    if events == [] then address
    else
      match events[|events| - 1]
      case Stored(header) => header
      case StoreFailed(_, left) => left
      case _ => AddressAfter(events[..|events| - 1], address)
  }

  function Run(s: State, steps: seq<Step>, primary: Address): State {
    if steps == [] then s else Next(Run(s, steps[..|steps| - 1], primary), steps[|steps| - 1], primary)
  }

  /** A device that has not run yet; its metadata and flash may hold anything. */
  predicate Initial(s: State) { s.phase.Off? && s.trace == [] && s.sleepEnabled }

  // ---------- what a trace tells ----------

  /** What can be read off a trace: the wake-up address and what it was at the latest power-on, the latest validation
      since then with its outcome, whether the address was written since then, the header the latest completed boot
      jumped to, and the latest event. */
  datatype View = View(held: Address, atPowerOn: Address, validated: Option<(Address, bool)>, written: bool,
                       booted: Option<Address>, last: Option<Event>)

  function Seen(v: View, e: Event): View { SeenBefore(v, e).(last := Some(e)) }

  function SeenBefore(v: View, e: Event): View {
    match e
    case PowerOn(_) => v.(atPowerOn := v.held, validated := None, written := false)
    case Validated(header, ok) => v.(validated := Some((header, ok)))
    case Stored(header) => v.(held := header, written := true)
    case StoreFailed(_, left) => v.(held := left, written := true)
    case Jumped(header, false) => v.(booted := Some(header))
    case _ => v
  }

  /** The view of a trace that began with this wake-up address. */
  function ViewOf(trace: seq<Event>, wakeUpAddress: Address): View {
    if trace == [] then View(wakeUpAddress, wakeUpAddress, None, false, None, None)
    else Seen(ViewOf(trace[..|trace| - 1], wakeUpAddress), trace[|trace| - 1])
  }

  /** This boot has chosen the header. */
  predicate Chose(v: View, header: Address) { v.validated == Some((header, true)) }

  /** In a boot that has chosen a header the address was written exactly if it differed at power-on. */
  predicate WrittenAsNeeded(v: View) {
    v.validated.Some? && v.validated.value.1 ==> (v.written <==> v.atPowerOn != v.validated.value.0)
  }

  /** Power came back after it was lost. */
  predicate PowerIsBack(e: Event) { e == PowerOn(HwPor) }

  /** Which event may come right after another. */
  predicate Follows(e: Event, next: Event) {
    match e
    case PowerOn(reason) =>
      next.Panicked? || PowerIsBack(next) || (if reason == OtherPor then next.Validated? else next.PendingCheck?)
    case PendingCheck(found) =>
      PowerIsBack(next) ||
      (if found then next.Installed? || next.InstallRefused? || next.InstallFailed?
       else next.Validated? || next.Panicked?)
    case Installed => next.Validated? || next.Panicked? || PowerIsBack(next)
    case InstallRefused => next.Validated? || next.Panicked? || PowerIsBack(next)
    case InstallFailed => next.Panicked? || PowerIsBack(next)
    case Validated(header, ok) =>
      next.Panicked? || PowerIsBack(next) ||
      (if ok then next == Stored(header) || (next.StoreFailed? && next.header == header) || next == Jumped(header, false)
       else next.Validated?)
    case Stored(header) => next == Jumped(header, false) || next.Panicked? || PowerIsBack(next)
    case StoreFailed(_, _) => next.Panicked? || PowerIsBack(next)
    case Panicked => next == PowerOn(SoftPorByRegmap) || PowerIsBack(next)
    case Slept => (next.Jumped? && next.wake) || next.Panicked? || next.PowerOn?
    case _ => next.Slept? || next.SleepAllowed? || next.Switched? || next.Panicked? || next.PowerOn?
  }

  /** An event of a running application. */
  predicate OfApplication(e: Event) { e.Jumped? || e.SleepAllowed? || e.Switched? }

  /** An event right before an application is looked for. */
  predicate BeforeLaunch(e: Event) {
    e == PowerOn(OtherPor) || e == PendingCheck(false) || e.Installed? || e.InstallRefused?
  }

  /** Which events may come next. */
  predicate Justified(v: View, e: Event) {
    (v.last.Some? ==> Follows(v.last.value, e)) && Allowed(v, e)
  }

  predicate Allowed(v: View, e: Event) {
    match e
    case Validated(_, _) => !v.written
    case Stored(header) => Chose(v, header) && header != v.held && !v.written
    case StoreFailed(header, _) => Chose(v, header) && header != v.held && !v.written
    case Jumped(header, wake) =>
      header == v.held && WrittenAsNeeded(v) && (if wake then v.booted == Some(header) else Chose(v, header))
    case Panicked => WrittenAsNeeded(v)
    case _ => true
  }

  predicate JustifiedAt(trace: seq<Event>, wakeUpAddress: Address, k: nat)
    requires k < |trace|
  {
    Justified(ViewOf(trace[..k], wakeUpAddress), trace[k])
  }

  predicate AllJustified(trace: seq<Event>, wakeUpAddress: Address) {
    forall k :: 0 <= k < |trace| ==> JustifiedAt(trace, wakeUpAddress, k)
  }

  lemma OneMoreEvent(trace: seq<Event>, wakeUpAddress: Address, e: Event)
    ensures ViewOf(trace + [e], wakeUpAddress) == Seen(ViewOf(trace, wakeUpAddress), e)
    ensures AllJustified(trace + [e], wakeUpAddress) <==>
            AllJustified(trace, wakeUpAddress) && Justified(ViewOf(trace, wakeUpAddress), e)
  {
    hide Justified, Seen;
    var more := trace + [e];
    assert more[..|trace|] == trace;
    assert JustifiedAt(more, wakeUpAddress, |trace|) <==> Justified(ViewOf(trace, wakeUpAddress), e);
    forall k | 0 <= k < |trace|
      ensures JustifiedAt(more, wakeUpAddress, k) <==> JustifiedAt(trace, wakeUpAddress, k)
    {
      assert more[..k] == trace[..k] && more[k] == trace[k];
    }
  }

  /** Where the validation of a view lies in the trace. */
  lemma {:induction false} ValidationAt(trace: seq<Event>, wakeUpAddress: Address) returns (v: nat)
    requires ViewOf(trace, wakeUpAddress).validated.Some?
    ensures v < |trace|
    ensures var (header, ok) := ViewOf(trace, wakeUpAddress).validated.value; trace[v] == Validated(header, ok)
    ensures forall m :: v < m < |trace| ==> !trace[m].PowerOn? && !trace[m].Validated?
  {
    var last := trace[|trace| - 1];
    if last.Validated? {
      v := |trace| - 1;
    } else {
      v := ValidationAt(trace[..|trace| - 1], wakeUpAddress);
    }
  }

  /** Where the latest completed boot of a view ends. */
  lemma {:induction false} BootAt(trace: seq<Event>, wakeUpAddress: Address) returns (j: nat)
    requires ViewOf(trace, wakeUpAddress).booted.Some?
    ensures j < |trace| && trace[j] == Jumped(ViewOf(trace, wakeUpAddress).booted.value, false)
    ensures forall m :: j < m < |trace| ==> !(trace[m].Jumped? && !trace[m].wake)
  {
    var last := trace[|trace| - 1];
    if last.Jumped? && !last.wake {
      j := |trace| - 1;
    } else {
      j := BootAt(trace[..|trace| - 1], wakeUpAddress);
    }
  }

  // ---------- answers between events ----------

  /** Some cause in the trace has no answer after it. */
  ghost predicate Owes(trace: seq<Event>, cause: Event -> bool, answer: Event -> bool) {
    exists i :: 0 <= i < |trace| && cause(trace[i]) && NoneAfter(trace, i, answer)
  }

  ghost predicate NoneAfter(trace: seq<Event>, i: nat, answer: Event -> bool) {
    forall m :: i < m < |trace| ==> !answer(trace[m])
  }

  /** No effect happens while an answer is owed. */
  ghost predicate Answered(trace: seq<Event>, cause: Event -> bool, answer: Event -> bool, effect: Event -> bool) {
    forall j :: 0 <= j < |trace| && effect(trace[j]) ==> !Owes(trace[..j], cause, answer)
  }

  lemma OwesStep(trace: seq<Event>, e: Event, cause: Event -> bool, answer: Event -> bool, effect: Event -> bool)
    ensures Owes(trace + [e], cause, answer) <==> cause(e) || (Owes(trace, cause, answer) && !answer(e))
    ensures Answered(trace, cause, answer, effect) && (effect(e) ==> !Owes(trace, cause, answer)) ==>
      Answered(trace + [e], cause, answer, effect)
  {
    var more := trace + [e];
    assert more[|trace|] == e && more[..|trace|] == trace;
    if cause(e) {
      assert NoneAfter(more, |trace|, answer);
    }
    if Owes(trace, cause, answer) && !answer(e) {
      var i :| 0 <= i < |trace| && cause(trace[i]) && NoneAfter(trace, i, answer);
      assert more[i] == trace[i] && NoneAfter(more, i, answer);
    }
    if Owes(more, cause, answer) && !cause(e) {
      var i :| 0 <= i < |more| && cause(more[i]) && NoneAfter(more, i, answer);
      assert i < |trace| && more[i] == trace[i];
      forall m | i < m < |trace| ensures !answer(trace[m]) {
        assert more[m] == trace[m];
      }
      assert NoneAfter(trace, i, answer);
    }
    if Answered(trace, cause, answer, effect) && (effect(e) ==> !Owes(trace, cause, answer)) {
      forall j | 0 <= j < |more| && effect(more[j]) ensures !Owes(more[..j], cause, answer) {
        if j < |trace| {
          assert more[..j] == trace[..j] && more[j] == trace[j];
        }
      }
    }
  }

  /** So between a cause and a later effect there is an answer. */
  lemma AnswerBetween(trace: seq<Event>, cause: Event -> bool, answer: Event -> bool, effect: Event -> bool,
                      i: nat, j: nat) returns (m: nat)
    requires Answered(trace, cause, answer, effect) && i < j < |trace| && cause(trace[i]) && effect(trace[j])
    ensures i < m < j && answer(trace[m])
  {
    assert trace[..j][i] == trace[i];
    assert !Owes(trace[..j], cause, answer);
    m :| i < m < j && answer(trace[..j][m]);
  }

  const IS_FATAL: Event -> bool := (e: Event) => e.Panicked? || e.InstallFailed?
  const IS_CHECK: Event -> bool := (e: Event) => e.PendingCheck?
  const IS_JUMP: Event -> bool := (e: Event) => e.Jumped?
  const IS_SWITCH: Event -> bool := (e: Event) => e.Switched?
  const ENDS_SWITCH: Event -> bool := (e: Event) => e.SleepAllowed? || e.PowerOn?
  const IS_SLEEP: Event -> bool := (e: Event) => e.Slept?

  ghost predicate PanicOwes(trace: seq<Event>) { Owes(trace, IS_FATAL, IS_CHECK) }

  /** Between any panic or failed installation and any later jump lies a check for a pending image. */
  ghost predicate PanicsAnswered(trace: seq<Event>) { Answered(trace, IS_FATAL, IS_CHECK, IS_JUMP) }

  ghost predicate SwitchOwes(trace: seq<Event>) { Owes(trace, IS_SWITCH, ENDS_SWITCH) }

  /** Between a stack switch and any later sleep the device was powered on again, or sleep was allowed anew. */
  ghost predicate SwitchesAnswered(trace: seq<Event>) { Answered(trace, IS_SWITCH, ENDS_SWITCH, IS_SLEEP) }

  // ---------- the invariant of all runs ----------

  /** All that is claimed of the events so far. */
  ghost predicate Sound(trace: seq<Event>, wakeUpAddress: Address) {
    AllJustified(trace, wakeUpAddress) && PanicsAnswered(trace) && SwitchesAnswered(trace)
  }

  ghost predicate SoundNext(trace: seq<Event>, wakeUpAddress: Address, e: Event) {
    && Justified(ViewOf(trace, wakeUpAddress), e)
    && (e.Jumped? ==> !PanicOwes(trace)) && (e.Slept? ==> !SwitchOwes(trace))
  }

  lemma Extend(trace: seq<Event>, wakeUpAddress: Address, e: Event)
    ensures Sound(trace, wakeUpAddress) && SoundNext(trace, wakeUpAddress, e) ==> Sound(trace + [e], wakeUpAddress)
    ensures ViewOf(trace + [e], wakeUpAddress) == Seen(ViewOf(trace, wakeUpAddress), e)
    ensures PanicOwes(trace + [e]) <==>
      e.Panicked? || e.InstallFailed? || (PanicOwes(trace) && !e.PendingCheck?)
    ensures SwitchOwes(trace + [e]) <==> e.Switched? || (SwitchOwes(trace) && !e.SleepAllowed? && !e.PowerOn?)
  {
    hide Justified, Seen;
    OneMoreEvent(trace, wakeUpAddress, e);
    OwesStep(trace, e, IS_FATAL, IS_CHECK, IS_JUMP);
    OwesStep(trace, e, IS_SWITCH, ENDS_SWITCH, IS_SLEEP);
  }

  /** w0 is the wake-up address the run began with. */
  ghost predicate Invariant(s: State, w0: Address) {
    && Sound(s.trace, w0) && !s.phase.Booting?
    && ViewOf(s.trace, w0).held == s.wakeUpAddress
    && (s.phase.Running? || s.phase.Sleeping? ==>
          WrittenAsNeeded(ViewOf(s.trace, w0)) &&
          ViewOf(s.trace, w0).booted == Some(s.wakeUpAddress) && s.phase.app == s.wakeUpAddress)
    && (PanicOwes(s.trace) ==> s.phase.Off? && TriggersUpgrade(s.phase.reason))
    && (s.phase.Off? || (SwitchOwes(s.trace) <==> !s.sleepEnabled))
    && LastFits(ViewOf(s.trace, w0).last, s.phase)
  }

  predicate LastFits(last: Option<Event>, phase: Phase) {
    match phase
    case Off(reason) => last.Some? ==> Follows(last.value, PowerOn(reason))
    case Running(_) => last.Some? && OfApplication(last.value)
    case Sleeping(_) => last.Some? && last.value.Slept?
    case Booting => last.Some? && BeforeLaunch(last.value)
  }

  /** A boot that has not validated or written anything yet. */
  predicate Unchosen(v: View, held: Address) {
    v.held == held == v.atPowerOn && v.validated == None && !v.written
  }

  lemma ValidationEvents(trace: seq<Event>, w0: Address, images: map<Address, Image>, active: Address, primary: Address)
    requires Sound(trace, w0) && Unchosen(ViewOf(trace, w0), ViewOf(trace, w0).held)
    requires LastFits(ViewOf(trace, w0).last, Booting)
    ensures var t := trace + Validations(images, active, primary);
      && Sound(t, w0)
      && ViewOf(t, w0) == ViewOf(trace, w0).(validated := ViewOf(t, w0).validated, last := ViewOf(t, w0).last)
      && (PanicOwes(t) <==> PanicOwes(trace)) && (SwitchOwes(t) <==> SwitchOwes(trace))
      && match Chosen(images, active, primary)
         case None =>
           && (ViewOf(t, w0).validated.Some? ==> !ViewOf(t, w0).validated.value.1)
           && ViewOf(t, w0).last.Some? && Follows(ViewOf(t, w0).last.value, Panicked)
         case Some(header) => Chose(ViewOf(t, w0), header) && ViewOf(t, w0).last == Some(Validated(header, true))
  {
    hide Sound, ViewOf, PanicOwes, SwitchOwes;
    var vs := Validations(images, active, primary);
    if |vs| == 0 {
      assert trace + vs == trace;
    } else {
      Extend(trace, w0, vs[0]);
      if |vs| == 1 {
        assert vs == [vs[0]];
      } else {
        Extend(trace + [vs[0]], w0, vs[1]);
        assert trace + vs == (trace + [vs[0]]) + [vs[1]];
      }
    }
  }

  /** A boot that has chosen its header: storing and jumping keep the invariant. */
  lemma ChosenKeepsInvariant(s: State, w0: Address, header: Address, primary: Address, env: BootEnv)
    requires s.phase.Booting? && Sound(s.trace, w0) && !PanicOwes(s.trace) && !SwitchOwes(s.trace) && s.sleepEnabled
    requires ViewOf(s.trace, w0).held == s.wakeUpAddress == ViewOf(s.trace, w0).atPowerOn
    requires !ViewOf(s.trace, w0).written && Chose(ViewOf(s.trace, w0), header)
    requires ViewOf(s.trace, w0).last == Some(Validated(header, true))
    ensures var stored := Store(s, header, env);
      Invariant(if stored.phase.Booting? then Jump(stored, header, false, primary) else stored, w0)
  {
    hide Sound, ViewOf, PanicOwes, SwitchOwes, VectorInRange;
    var t := s.trace;
    Extend(t, w0, Panicked);
    if header == s.wakeUpAddress {
      Extend(t, w0, Jumped(header, false));
    } else if header == 0 || !env.storeOk {
      var failed := StoreFailed(header, if header == 0 then s.wakeUpAddress else env.garbledWakeUp);
      Extend(t, w0, failed);
      Extend(t + [failed], w0, Panicked);
    } else {
      Extend(t, w0, Stored(header));
      Extend(t + [Stored(header)], w0, Panicked);
      Extend(t + [Stored(header)], w0, Jumped(header, false));
    }
  }

  lemma LaunchKeepsInvariant(s: State, w0: Address, primary: Address, env: BootEnv)
    requires s.phase.Booting? && Sound(s.trace, w0) && !PanicOwes(s.trace) && !SwitchOwes(s.trace) && s.sleepEnabled
    requires Unchosen(ViewOf(s.trace, w0), s.wakeUpAddress) && LastFits(ViewOf(s.trace, w0).last, Booting)
    ensures Invariant(Launch(s, primary, env), w0)
  {
    hide Sound, ViewOf, PanicOwes, SwitchOwes, Chosen, Validations, Store, Jump, Chose;
    var active := s.bootAddress % BOOT_ADDRESS_MODULUS;
    var v := s.(trace := s.trace + Validations(s.images, active, primary));
    ValidationEvents(s.trace, w0, s.images, active, primary);
    if Chosen(s.images, active, primary).Some? {
      ChosenKeepsInvariant(v, w0, Chosen(s.images, active, primary).value, primary, env);
    } else {
      Extend(v.trace, w0, Panicked);
    }
  }

  lemma BootKeepsInvariant(s: State, w0: Address, reason: ResetReason, primary: Address, env: BootEnv)
    requires Sound(s.trace, w0) && (PanicOwes(s.trace) ==> TriggersUpgrade(reason))
    requires ViewOf(s.trace, w0).held == s.wakeUpAddress && LastFits(ViewOf(s.trace, w0).last, Off(reason))
    ensures Invariant(PowerOnBoot(s, reason, primary, env), w0)
  {
    hide Sound, ViewOf, PanicOwes, SwitchOwes, Launch;
    var t := s.trace + [PowerOn(reason)];
    Extend(s.trace, w0, PowerOn(reason));
    Extend(t, w0, Panicked);
    var c := t + [PendingCheck(s.pending)];
    Extend(t, w0, PendingCheck(s.pending));
    Extend(c, w0, Installed);
    Extend(c, w0, InstallRefused);
    Extend(c, w0, InstallFailed);
    Extend(c + [InstallFailed], w0, Panicked);
    var u := Upgrade(Log(s, PowerOn(reason)).(phase := Booting, sleepEnabled := true), reason, env.install);
    if u.phase.Booting? {
      LaunchKeepsInvariant(u, w0, primary, env);
    }
  }

  /** A boot only adds events. */
  lemma BootExtends(s: State, reason: ResetReason, primary: Address, env: BootEnv)
    ensures s.trace <= PowerOnBoot(s, reason, primary, env).trace
  {
    hide Launch;
    var start := Log(s, PowerOn(reason)).(phase := Booting, sleepEnabled := true);
    var u := Upgrade(start, reason, env.install);
    UpgradeExtends(start, reason, env.install);
    LaunchExtends(u, primary, env);
    hide Upgrade;
    assert s.trace <= start.trace;
  }

  lemma UpgradeExtends(s: State, reason: ResetReason, install: Install)
    ensures s.trace <= Upgrade(s, reason, install).trace
  {}

  lemma LaunchExtends(s: State, primary: Address, env: BootEnv)
    ensures s.trace <= Launch(s, primary, env).trace
  {
    hide Chosen, Validations, Store, Jump;
    var active := s.bootAddress % BOOT_ADDRESS_MODULUS;
    var v := s.(trace := s.trace + Validations(s.images, active, primary));
    if Chosen(s.images, active, primary).Some? {
      var header := Chosen(s.images, active, primary).value;
      StoreExtends(v, header, env);
      JumpExtends(Store(v, header, env), header, false, primary);
    }
  }

  lemma StoreExtends(s: State, header: Address, env: BootEnv)
    ensures s.trace <= Store(s, header, env).trace
  {}

  lemma JumpExtends(s: State, header: Address, wake: bool, primary: Address)
    ensures s.trace <= Jump(s, header, wake, primary).trace
  {}

  lemma {:induction false} HeldAfter(trace: seq<Event>, events: seq<Event>, w0: Address)
    ensures ViewOf(trace + events, w0).held == AddressAfter(events, ViewOf(trace, w0).held)
    decreases |events|
  {
    if events == [] {
      assert trace + events == trace;
    } else {
      assert (trace + events)[..|trace + events| - 1] == trace + events[..|events| - 1];
      HeldAfter(trace, events[..|events| - 1], w0);
    }
  }

  /** What holds of a trace holds of its beginnings. */
  lemma SoundPrefix(trace: seq<Event>, n: nat, w0: Address)
    requires Sound(trace, w0) && n <= |trace|
    ensures Sound(trace[..n], w0)
  {
    hide ViewOf, Justified;
    forall k | 0 <= k < n ensures JustifiedAt(trace[..n], w0, k) {
      assert JustifiedAt(trace, w0, k) && trace[..n][..k] == trace[..k];
    }
    AnsweredPrefix(trace, n, IS_FATAL, IS_CHECK, IS_JUMP);
    AnsweredPrefix(trace, n, IS_SWITCH, ENDS_SWITCH, IS_SLEEP);
  }

  lemma AnsweredPrefix(trace: seq<Event>, n: nat, cause: Event -> bool, answer: Event -> bool, effect: Event -> bool)
    requires Answered(trace, cause, answer, effect) && n <= |trace|
    ensures Answered(trace[..n], cause, answer, effect)
  {
    hide Owes;
    forall j | 0 <= j < n && effect(trace[..n][j]) ensures !Owes(trace[..n][..j], cause, answer) {
      assert trace[..n][..j] == trace[..j];
    }
  }

  lemma CutOffKeepsInvariant(s: State, b: State, n: nat, images: map<Address, Image>, pending: bool, w0: Address)
    requires Invariant(s, w0) && Invariant(b, w0) && s.trace <= b.trace
    ensures Invariant(CutOff(s, b, n, images, pending), w0)
  {
    hide Sound, ViewOf, PanicOwes, SwitchOwes;
    var m := |s.trace| + n;
    var trace := if m <= |b.trace| then b.trace[..m] else b.trace;
    assert trace == s.trace + trace[|s.trace|..];
    HeldAfter(s.trace, trace[|s.trace|..], w0);
    SoundPrefix(b.trace, if m <= |b.trace| then m else |b.trace|, w0);
    assert b.trace[..|b.trace|] == b.trace;
  }

  lemma StepKeepsInvariant(s: State, w0: Address, step: Step, primary: Address)
    requires Invariant(s, w0)
    ensures Invariant(Next(s, step, primary), w0)
  {
    hide Sound, ViewOf, PanicOwes, SwitchOwes, PowerOnBoot, VectorInRange, CutOff;
    match step {
      case PowerUp(env) =>
        if s.phase.Off? {
          BootKeepsInvariant(s, w0, s.phase.reason, primary, env);
        }
      case Wake =>
        Extend(s.trace, w0, Panicked);
        Extend(s.trace, w0, Jumped(s.wakeUpAddress, true));
      case Sleep => Extend(s.trace, w0, Slept);
      case AllowSleep => Extend(s.trace, w0, SleepAllowed);
      case Switch(address, _) => Extend(s.trace, w0, Switched(address));
      case WriteFlash(_, _) =>
      case Reset(_) =>
      case AppReturns => Extend(s.trace, w0, Panicked);
      case PowerLoss(env, n, images, pending) =>
        if s.phase.Off? {
          BootKeepsInvariant(s, w0, s.phase.reason, primary, env);
          BootExtends(s, s.phase.reason, primary, env);
          CutOffKeepsInvariant(s, PowerOnBoot(s, s.phase.reason, primary, env), n, images, pending, w0);
        }
    }
  }

  lemma {:induction false} RunKeepsInvariant(s: State, steps: seq<Step>, primary: Address)
    requires Initial(s)
    ensures Invariant(Run(s, steps, primary), s.wakeUpAddress)
    decreases |steps|
  {
    hide Next;
    if steps != [] {
      RunKeepsInvariant(s, steps[..|steps| - 1], primary);
      StepKeepsInvariant(Run(s, steps[..|steps| - 1], primary), s.wakeUpAddress, steps[|steps| - 1], primary);
    }
  }

  // ---------- what every run guarantees ----------

  /** Every jump, at power-on or from sleep, targets the header that passed validation in the latest completed power-on
      boot, whatever was switched, written or reset since: j is where that boot ended, v where it validated the header,
      and neither another power-on nor another validation lies between. */
  lemma EveryJumpIsValidated(s: State, steps: seq<Step>, primary: Address, k: nat) returns (v: nat, j: nat)
    requires Initial(s) && k < |Run(s, steps, primary).trace| && Run(s, steps, primary).trace[k].Jumped?
    ensures var trace := Run(s, steps, primary).trace;
      && v < j <= k && trace[v] == Validated(trace[k].header, true) && trace[j] == Jumped(trace[k].header, false)
      && (forall m :: v < m < j ==> !trace[m].PowerOn? && !trace[m].Validated?)
      && (if trace[k].wake then forall m :: j < m < k ==> !(trace[m].Jumped? && !trace[m].wake) else j == k)
  {
    hide Run, ViewOf, WrittenAsNeeded, PanicsAnswered, SwitchesAnswered, PanicOwes, SwitchOwes;
    RunKeepsInvariant(s, steps, primary);
    var trace := Run(s, steps, primary).trace;
    assert JustifiedAt(trace, s.wakeUpAddress, k);
    if trace[k].wake {
      j := BootAt(trace[..k], s.wakeUpAddress);
    } else {
      j := k;
    }
    assert JustifiedAt(trace, s.wakeUpAddress, j);
    v := ValidationAt(trace[..j], s.wakeUpAddress);
  }

  /** After any panic and any failed decompression a pending image is looked for before anything is started. */
  lemma EveryPanicIsAnswered(s: State, steps: seq<Step>, primary: Address, i: nat, j: nat)
    requires Initial(s) && i < j < |Run(s, steps, primary).trace|
    requires Run(s, steps, primary).trace[i].Panicked? || Run(s, steps, primary).trace[i].InstallFailed?
    requires Run(s, steps, primary).trace[j].Jumped?
    ensures exists m :: i < m < j && Run(s, steps, primary).trace[m].PendingCheck?
  {
    hide Run;
    RunKeepsInvariant(s, steps, primary);
    var trace := Run(s, steps, primary).trace;
    var m := AnswerBetween(trace, IS_FATAL, IS_CHECK, IS_JUMP, i, j);
  }

  /** The wake-up address is written exactly on the boots that change it. A write, successful or not, is of the header
      just chosen, differs from what is stored, and is the only one of its boot; when a boot that has chosen a header
      ends, in a jump or a panic, there was a write exactly if the address stored at power-on was another; and every
      jump goes to the address stored. */
  lemma WritesAreSpared(s: State, steps: seq<Step>, primary: Address, k: nat)
    requires Initial(s) && k < |Run(s, steps, primary).trace|
    ensures var e := Run(s, steps, primary).trace[k];
      var v := ViewOf(Run(s, steps, primary).trace[..k], s.wakeUpAddress);
      && (e.Stored? || e.StoreFailed? ==> Chose(v, e.header) && e.header != v.held && !v.written)
      && (e.Jumped? ==> e.header == v.held)
      && (forall h :: (e.Jumped? || e.Panicked?) && Chose(v, h) ==> (v.written <==> v.atPowerOn != h))
  {
    hide Run;
    RunKeepsInvariant(s, steps, primary);
    assert JustifiedAt(Run(s, steps, primary).trace, s.wakeUpAddress, k);
  }

  /** What comes right after what, over all runs. */
  lemma EventsFollow(s: State, steps: seq<Step>, primary: Address, k: nat)
    requires Initial(s) && k + 1 < |Run(s, steps, primary).trace|
    ensures Follows(Run(s, steps, primary).trace[k], Run(s, steps, primary).trace[k + 1])
  {
    hide Run, Follows, Allowed;
    RunKeepsInvariant(s, steps, primary);
    var trace := Run(s, steps, primary).trace;
    assert JustifiedAt(trace, s.wakeUpAddress, k + 1);
    assert trace[..k + 1][k] == trace[k];
    LastIs(trace[..k + 1], s.wakeUpAddress);
  }

  lemma LastIs(trace: seq<Event>, w0: Address)
    requires trace != []
    ensures ViewOf(trace, w0).last == Some(trace[|trace| - 1])
  {}

  /** Only a running application that has not switched stacks since it was allowed to sleep, or powered on, can sleep. */
  lemma WhenSleepIsAllowed(s: State, steps: seq<Step>, primary: Address)
    requires Initial(s)
    ensures var t := Run(s, steps, primary);
      Next(t, Sleep, primary).phase != t.phase <==> t.phase.Running? && !SwitchOwes(t.trace)
  {
    hide Run, SwitchOwes, Sound, ViewOf;
    RunKeepsInvariant(s, steps, primary);
  }

  /** After a stack switch the device does not sleep before it is powered on again or sleep is allowed anew. */
  lemma NoSleepAfterSwitch(s: State, steps: seq<Step>, primary: Address, i: nat, j: nat)
    requires Initial(s) && i < j < |Run(s, steps, primary).trace|
    requires Run(s, steps, primary).trace[i].Switched? && Run(s, steps, primary).trace[j].Slept?
    ensures exists m :: i < m < j && ENDS_SWITCH(Run(s, steps, primary).trace[m])
  {
    hide Run;
    RunKeepsInvariant(s, steps, primary);
    var trace := Run(s, steps, primary).trace;
    var m := AnswerBetween(trace, IS_SWITCH, ENDS_SWITCH, IS_SLEEP, i, j);
  }
}
