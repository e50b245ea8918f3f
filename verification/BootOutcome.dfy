/** What one boot or wake-up does, in terms of the flash, the metadata and the reset reason alone. */
module BootOutcome {
  import opened Results
  import opened Boot

  /** A header with the certificate's magic number that validates. */
  predicate Works(images: map<Address, Image>, a: Address) {
    a in images && images[a].magic == 0xE5ECCE01 && images[a].validates
  }

  /** The vector table lies between the primary application and the highest aligned 32-bit address. */
  predicate TableInRange(images: map<Address, Image>, a: Address, primary: Address) {
    primary <= (if a in images then images[a].vpp * 256 % 0x1_0000_0000 else 0) <= 0xFFFF_FFF8
  }

  /** Chip reset, reset by the ROM bootloader, by the register map or by the watchdog: all of them look for an upgrade. */
  predicate LooksForUpgrade(reason: ResetReason) {
    reason == HwPor || reason == SoftPorBootloader || reason == SoftPorByRegmap || reason == SoftPorByWatchdog
  }

  /** This boot tries to install the pending image. */
  predicate Installs(s: State, reason: ResetReason, env: BootEnv) {
    env.initOk && LooksForUpgrade(reason) && s.pending
  }

  /** The flash this boot chooses from. */
  function FlashAfter(s: State, reason: ResetReason, env: BootEnv): map<Address, Image> {
    if Installs(s, reason, env) && !env.install.Refused? then env.install.images else s.images
  }

  /** The header to boot: the active one if it works, else the primary one if that does. */
  predicate ToBoot(images: map<Address, Image>, active: Address, primary: Address, h: Address) {
    Works(images, h) && (h == active || (h == primary && !Works(images, active)))
  }

  lemma ChosenIs(images: map<Address, Image>, active: Address, primary: Address)
    ensures forall h: Address :: Chosen(images, active, primary) == Some(h) <==> ToBoot(images, active, primary, h)
  {}

  function StoreAndJump(s: State, header: Address, primary: Address, env: BootEnv): State {
    var stored := Store(s, header, env);
    if stored.phase.Booting? then Jump(stored, header, false, primary) else stored
  }

  lemma HeaderStarts(s: State, header: Address, primary: Address, env: BootEnv)
    requires s.phase.Booting?
    ensures var after := StoreAndJump(s, header, primary, env);
      && (after.phase == Running(header) <==>
          TableInRange(s.images, header, primary) && header != 0 && (header == s.wakeUpAddress || env.storeOk))
      && (after.phase == Running(header) ==> after.wakeUpAddress == header)
      && (after.phase == Running(header) || after.phase == Off(SoftPorByRegmap))
      && after.images == s.images && after.pending == s.pending && after.bootAddress == s.bootAddress
  {
    hide VectorInRange;
    RangeIs(s.images, header, primary);
    StoreIs(s, header, env);
    hide Store;
  }

  lemma RangeIs(images: map<Address, Image>, a: Address, primary: Address)
    ensures VectorInRange(images, a, primary) <==> TableInRange(images, a, primary)
  {}

  lemma StoreIs(s: State, header: Address, env: BootEnv)
    requires s.phase.Booting?
    ensures var stored := Store(s, header, env);
      && (stored.phase.Booting? <==> header == s.wakeUpAddress || (header != 0 && env.storeOk))
      && (stored.phase.Booting? ==> stored.wakeUpAddress == header)
      && (stored.phase.Booting? || stored.phase == Off(SoftPorByRegmap))
      && stored.images == s.images && stored.pending == s.pending && stored.bootAddress == s.bootAddress
  {}

  lemma StoreAdds(s: State, header: Address, env: BootEnv) returns (events: seq<Event>)
    requires s.phase.Booting?
    ensures Store(s, header, env).trace == s.trace + events && NoSwitch(events)
  {
    if header == s.wakeUpAddress {
      events := [];
    } else if header == 0 || !env.storeOk {
      events := [StoreFailed(header, if header == 0 then s.wakeUpAddress else env.garbledWakeUp), Panicked];
    } else {
      events := [Stored(header)];
    }
  }

  lemma HeaderAdds(s: State, header: Address, primary: Address, env: BootEnv) returns (events: seq<Event>)
    requires s.phase.Booting?
    ensures StoreAndJump(s, header, primary, env).trace == s.trace + events && NoSwitch(events)
  {
    hide VectorInRange, Store;
    events := StoreAdds(s, header, env);
    var stored := Store(s, header, env);
    if stored.phase.Booting? {
      var last := if Jump(stored, header, false, primary).phase.Off? then Panicked else Jumped(header, false);
      assert Jump(stored, header, false, primary).trace == s.trace + (events + [last]);
      events := events + [last];
    }
  }

  /** From the chosen header on. */
  lemma LaunchStarts(s: State, primary: Address, env: BootEnv, h: Address)
    requires s.phase.Booting?
    ensures var active := s.bootAddress % 0x2000_0000;
      Launch(s, primary, env).phase == Running(h) <==>
      && ToBoot(s.images, active, primary, h) && TableInRange(s.images, h, primary) && h != 0
      && (h == s.wakeUpAddress || env.storeOk)
    ensures Launch(s, primary, env).phase == Running(h) ==> Launch(s, primary, env).wakeUpAddress == h
    ensures Launch(s, primary, env).phase.Running? || Launch(s, primary, env).phase == Off(SoftPorByRegmap)
    ensures Launch(s, primary, env).images == s.images && Launch(s, primary, env).pending == s.pending
    ensures Launch(s, primary, env).bootAddress == s.bootAddress
  {
    hide Chosen, ToBoot, Validations, Store, Jump, StoreAndJump, TableInRange;
    var active := s.bootAddress % 0x2000_0000;
    ChosenIs(s.images, active, primary);
    var v := s.(trace := s.trace + Validations(s.images, active, primary));
    LaunchIs(s, primary, env);
    if Chosen(s.images, active, primary).Some? {
      HeaderStarts(v, Chosen(s.images, active, primary).value, primary, env);
    }
  }

  lemma LaunchIs(s: State, primary: Address, env: BootEnv)
    ensures var active := s.bootAddress % 0x2000_0000;
      var v := s.(trace := s.trace + Validations(s.images, active, primary));
      Launch(s, primary, env) ==
      if Chosen(s.images, active, primary).Some? then
        StoreAndJump(v, Chosen(s.images, active, primary).value, primary, env)
      else Panic(v)
  {
    hide Chosen, Validations, Store, Jump;
  }

  /** A power-on boot starts h if and only if initialisation succeeds, no installation fails while loading, and in the
      flash as it then is h is the header to boot, usable as a jump target, and stored or storable for wake-up. In every
      other case it resets with the register-map reason. Flash and pending flag are what the installation left. */
  lemma BootStarts(s: State, reason: ResetReason, primary: Address, env: BootEnv, h: Address)
    requires s.phase.Off?
    ensures var images := FlashAfter(s, reason, env);
      var after := PowerOnBoot(s, reason, primary, env);
      && (after.phase == Running(h) <==>
          && env.initOk && !(Installs(s, reason, env) && env.install.LoadFailed?)
          && ToBoot(images, s.bootAddress % 0x2000_0000, primary, h) && TableInRange(images, h, primary) && h != 0
          && (h == s.wakeUpAddress || env.storeOk))
      && (after.phase.Running? || after.phase == Off(SoftPorByRegmap))
      && after.images == images && after.bootAddress == s.bootAddress
      && after.pending == (if Installs(s, reason, env) && !env.install.Refused? then env.install.pending else s.pending)
      && (after.phase == Running(h) ==> after.wakeUpAddress == h)
  {
    hide Launch, ToBoot, TableInRange;
    var start := Log(s, PowerOn(reason)).(phase := Booting, sleepEnabled := true);
    var u := Upgrade(start, reason, env.install);
    if u.phase.Booting? {
      LaunchStarts(u, primary, env, h);
    }
  }

  function OutcomeOf(install: Install): Event {
    match install
    case Success(_, _) => Installed
    case LoadFailed(_, _) => InstallFailed
    case Refused => InstallRefused
  }

  /** The first events of a boot: power-on, then, if initialisation succeeds after a reset that looks for an upgrade, the
      check of the pending flag as it is, then, if it is set, the outcome of the installation. */
  lemma BootBegins(s: State, reason: ResetReason, primary: Address, env: BootEnv)
    requires s.phase.Off?
    ensures var trace, n := PowerOnBoot(s, reason, primary, env).trace, |s.trace|;
      && s.trace + [PowerOn(reason)] <= trace
      && (env.initOk && LooksForUpgrade(reason) ==> s.trace + [PowerOn(reason), PendingCheck(s.pending)] <= trace)
      && (Installs(s, reason, env) ==> |trace| > n + 2 && trace[n + 2] == OutcomeOf(env.install))
      && (!env.initOk ==> trace == s.trace + [PowerOn(reason), Panicked])
  {
    hide Launch;
    var start := Log(s, PowerOn(reason)).(phase := Booting, sleepEnabled := true);
    LaunchExtends(Upgrade(start, reason, env.install), primary, env);
  }

  /** Which headers are validated: those present, the active one first, the primary one only when the active one does not
      work. */
  lemma ValidatedHeaders(images: map<Address, Image>, active: Address, primary: Address, h: Address, ok: bool)
    ensures var vs := Validations(images, active, primary);
      && (Validated(h, ok) in vs <==>
          && h in images && images[h].magic == 0xE5ECCE01 && ok == images[h].validates
          && (h == active || (h == primary && !Works(images, active))))
      && |vs| <= 2 && (|vs| == 2 ==> vs[0] == Validated(active, false) && vs[1].header == primary)
  {}

  /** A wake-up resumes the stored application whenever it can be jumped to, else it resets. */
  lemma WakeStarts(s: State, primary: Address, h: Address)
    requires s.phase.Sleeping?
    ensures WakeUp(s, primary).phase == Running(h) <==>
      h == s.wakeUpAddress && h != 0 && TableInRange(s.images, h, primary)
    ensures WakeUp(s, primary).phase.Running? || WakeUp(s, primary).phase == Off(SoftPorByRegmap)
    ensures WakeUp(s, primary) == s.(phase := WakeUp(s, primary).phase, trace := WakeUp(s, primary).trace)
  {}

  // ---------- which application is active ----------

  /** The address switched to last. */
  function LastSwitched(trace: seq<Event>, bootAddress: Address): Address {
    if trace == [] then bootAddress
    else if trace[|trace| - 1].Switched? then trace[|trace| - 1].address
    else LastSwitched(trace[..|trace| - 1], bootAddress)
  }

  predicate NoSwitch(events: seq<Event>) { forall k :: 0 <= k < |events| ==> !events[k].Switched? }

  lemma {:induction false} SwitchesStay(trace: seq<Event>, events: seq<Event>, b0: Address)
    requires NoSwitch(events)
    ensures LastSwitched(trace + events, b0) == LastSwitched(trace, b0)
    decreases |events|
  {
    if events == [] {
      assert trace + events == trace;
    } else {
      assert (trace + events)[..|trace + events| - 1] == trace + events[..|events| - 1];
      SwitchesStay(trace, events[..|events| - 1], b0);
    }
  }

  /** A boot does not switch. */
  lemma BootSwitchesNothing(s: State, reason: ResetReason, primary: Address, env: BootEnv) returns (events: seq<Event>)
    ensures PowerOnBoot(s, reason, primary, env).trace == s.trace + events && NoSwitch(events)
    ensures PowerOnBoot(s, reason, primary, env).bootAddress == s.bootAddress
  {
    hide Launch;
    var start := Log(s, PowerOn(reason)).(phase := Booting, sleepEnabled := true);
    var u := Upgrade(start, reason, env.install);
    var after := PowerOnBoot(s, reason, primary, env);
    var upgrade := u.trace[|s.trace|..];
    assert u.trace == s.trace + upgrade;
    if !env.initOk {
      events := [PowerOn(reason), Panicked];
    } else if u.phase.Booting? {
      var more := LaunchSwitchesNothing(u, primary, env);
      events := upgrade + more;
      assert after.trace == s.trace + upgrade + more;
    } else {
      events := upgrade;
    }
  }

  lemma LaunchSwitchesNothing(s: State, primary: Address, env: BootEnv) returns (events: seq<Event>)
    requires s.phase.Booting?
    ensures Launch(s, primary, env).trace == s.trace + events && NoSwitch(events)
    ensures Launch(s, primary, env).bootAddress == s.bootAddress
  {
    hide Chosen, Validations, StoreAndJump, Launch;
    var active := s.bootAddress % 0x2000_0000;
    var vs := Validations(s.images, active, primary);
    LaunchIs(s, primary, env);
    ValidationsSwitchNothing(s.images, active, primary);
    if Chosen(s.images, active, primary).Some? {
      var header := Chosen(s.images, active, primary).value;
      var more := HeaderAdds(s.(trace := s.trace + vs), header, primary, env);
      HeaderStarts(s.(trace := s.trace + vs), header, primary, env);
      events := vs + more;
      assert s.trace + vs + more == s.trace + (vs + more);
    } else {
      events := vs + [Panicked];
      assert s.trace + vs + [Panicked] == s.trace + (vs + [Panicked]);
    }
  }

  lemma ValidationsSwitchNothing(images: map<Address, Image>, active: Address, primary: Address)
    ensures NoSwitch(Validations(images, active, primary))
  {}

  lemma StepSwitches(s: State, step: Step, primary: Address, b0: Address)
    requires LastSwitched(s.trace, b0) == s.bootAddress
    ensures LastSwitched(Next(s, step, primary).trace, b0) == Next(s, step, primary).bootAddress
  {
    hide PowerOnBoot, VectorInRange, LastSwitched;
    match step {
      case PowerUp(env) =>
        if s.phase.Off? {
          var events := BootSwitchesNothing(s, s.phase.reason, primary, env);
          SwitchesStay(s.trace, events, b0);
        }
      case PowerLoss(env, n, _, _) =>
        if s.phase.Off? {
          var events := BootSwitchesNothing(s, s.phase.reason, primary, env);
          var m := if n <= |events| then n else |events|;
          SwitchesStay(s.trace, events[..m], b0);
          assert (s.trace + events)[..|s.trace| + m] == s.trace + events[..m];
          assert (s.trace + events)[..|s.trace + events|] == s.trace + events;
        }
      case Switch(address, ok) => SwitchIsLast(s.trace, address, b0);
      case _ =>
        SwitchesStay(s.trace, [Panicked], b0);
        SwitchesStay(s.trace, [Jumped(s.wakeUpAddress, true)], b0);
        SwitchesStay(s.trace, [Slept], b0);
        SwitchesStay(s.trace, [SleepAllowed], b0);
    }
  }

  lemma SwitchIsLast(trace: seq<Event>, address: Address, b0: Address)
    ensures LastSwitched(trace + [Switched(address)], b0) == address
  {}

  /** Over every run the active application is the one switched to last, whatever was installed, reset or cut off. */
  lemma {:induction false} ActiveIsLastSwitched(s: State, steps: seq<Step>, primary: Address)
    requires Initial(s)
    ensures Run(s, steps, primary).bootAddress == LastSwitched(Run(s, steps, primary).trace, s.bootAddress)
    decreases |steps|
  {
    hide Next, LastSwitched;
    if steps == [] {
      NothingSwitched(s.bootAddress);
    } else {
      ActiveIsLastSwitched(s, steps[..|steps| - 1], primary);
      StepSwitches(Run(s, steps[..|steps| - 1], primary), steps[|steps| - 1], primary, s.bootAddress);
    }
  }

  lemma NothingSwitched(b0: Address)
    ensures LastSwitched([], b0) == b0
  {}
}
