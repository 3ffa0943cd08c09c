/** The Rust copy of the governor (src/main.rs): temperature from the first
    existing sensor in whole degrees, the hysteresis step on a `u64` cap with
    wrap-around arithmetic as the source writes it, and the per-core actuation. */
module ThrottleRs {
  import opened Wrappers
  import opened MachineInts
  import opened Text
  import opened Sysfs

  const MinFreqFile: Path := "/sys/devices/system/cpu/cpu0/cpufreq/cpuinfo_min_freq"
  const MaxFreqFile: Path := "/sys/devices/system/cpu/cpu0/cpufreq/cpuinfo_max_freq"

  /** Frequency change per poll. */
  const StepFreq: u64 := 100000

  /** Width in degrees of the band below the target in which nothing changes. */
  const Deadband: u64 := 5

  // Reading numbers from files

  datatype FileError = NotFound | NotANumber

  /** `parse_int_file`: the file's text, trimmed, parsed as a `u64`. */
  function ParseIntFile(fs: FileSystem, path: Path): Result<u64, FileError> {
    if path !in fs then Failure(NotFound)
    else
      match ParseUnsigned(Trim(fs[path]))
      case None => Failure(NotANumber)
      case Some(v) => Success(v)
  }

  /** The line `set_freq` writes for a cap: its decimal digits and a newline. */
  function CapText(freq: u64): string {
    ShowNat(freq) + "\n"
  }

  /** A cap file written by `set_freq` reads back, through `parse_int_file`,
      as the cap that was written. */
  lemma CapTextReadsBack(fs: FileSystem, path: Path, freq: u64)
    requires path in fs && fs[path] == CapText(freq)
    ensures ParseIntFile(fs, path) == Success(freq)
  {
    TrimLine(ShowNat(freq));
    ParseUnsignedShow(freq);
  }

  /** Everything that ends the process, as an error value. */
  datatype Error =
    | BoundsReadError(path: Path, reason: FileError)
    | SensorFailure(cause: SensorError)
    | ActuationError(core: nat)

  /** What the loop works with, fixed at startup. */
  datatype Config = Config(minFreq: u64, maxFreq: u64, maxTemp: u64)

  /** `min_frequency()?` then `max_frequency()?`: the minimum is read first. */
  function ReadBounds(fs: FileSystem, maxTemp: u64): Result<Config, Error> {
    match ParseIntFile(fs, MinFreqFile)
    case Failure(e) => Failure(BoundsReadError(MinFreqFile, e))
    case Success(lo) =>
      match ParseIntFile(fs, MaxFreqFile)
      case Failure(e) => Failure(BoundsReadError(MaxFreqFile, e))
      case Success(hi) => Success(Config(lo, hi, maxTemp))
  }

  /** A missing capability file is an error naming it, the minimum file being
      looked at first. */
  lemma ReadBoundsMissing(fs: FileSystem, maxTemp: u64)
    ensures MinFreqFile !in fs ==> ReadBounds(fs, maxTemp) == Failure(BoundsReadError(MinFreqFile, NotFound))
    ensures ParseIntFile(fs, MinFreqFile).Success? && MaxFreqFile !in fs ==>
              ReadBounds(fs, maxTemp) == Failure(BoundsReadError(MaxFreqFile, NotFound))
  {
  }

  /** The bounds are the numbers written in the two capability files. */
  lemma ReadBoundsFromFiles(fs: FileSystem, maxTemp: u64, lo: u64, hi: u64)
    ensures ReadBounds(fs[MinFreqFile := CapText(lo)][MaxFreqFile := CapText(hi)], maxTemp)
              == Success(Config(lo, hi, maxTemp))
  {
    var fs2 := fs[MinFreqFile := CapText(lo)][MaxFreqFile := CapText(hi)];
    // The two paths differ only in "min" / "max", from index 46 on.
    assert MinFreqFile[46] != MaxFreqFile[46];
    assert fs2[MinFreqFile] == CapText(lo) && fs2[MaxFreqFile] == CapText(hi);
    CapTextReadsBack(fs2, MinFreqFile, lo);
    CapTextReadsBack(fs2, MaxFreqFile, hi);
  }

  // Temperature

  /** `get_temp`: the first existing candidate, its number divided by 1000. */
  function TempReading(fs: FileSystem): Result<u64, SensorError> {
    match FirstExisting(TempCandidates, fs)
    case None => Failure(SensorUnavailable)
    case Some(i) =>
      match ParseIntFile(fs, TempCandidates[i])
      case Failure(_) => Failure(SensorReadError(TempCandidates[i]))
      case Success(raw) => Success(raw / 1000)
  }

  /** The search loop of `get_temp`. */
  method GetTemp(fs: FileSystem) returns (r: Result<u64, SensorError>)
    ensures r == TempReading(fs)
  {
    var i := 0;
    while i < |TempCandidates|
      invariant 0 <= i <= |TempCandidates|
      invariant forall j :: 0 <= j < i ==> TempCandidates[j] !in fs
    {
      var file := TempCandidates[i];
      if file in fs {
        FirstExistingUnique(TempCandidates, fs, i);
        var raw := ParseIntFile(fs, file);
        if raw.Failure? {
          return Failure(SensorReadError(file));
        }
        return Success(raw.value / 1000);
      }
      i := i + 1;
    }
    return Failure(SensorUnavailable);
  }

  /** The reading of the first existing sensor, in whole degrees truncated
      towards zero: t degrees for every raw value from 1000 t to 1000 t + 999. */
  lemma TempFromFirstSensor(fs: FileSystem, i: nat, raw: u64)
    requires IsFirstExisting(TempCandidates, fs, i)
    requires ParseIntFile(fs, TempCandidates[i]) == Success(raw)
    ensures TempReading(fs).Success?
    ensures TempReading(fs).value * 1000 <= raw < TempReading(fs).value * 1000 + 1000
  {
    FirstExistingUnique(TempCandidates, fs, i);
  }

  /** A first existing sensor that does not hold a number is an error naming it;
      later sensors are not tried. */
  lemma UnreadableSensorFails(fs: FileSystem, i: nat)
    requires IsFirstExisting(TempCandidates, fs, i)
    requires ParseIntFile(fs, TempCandidates[i]).Failure?
    ensures TempReading(fs) == Failure(SensorReadError(TempCandidates[i]))
  {
    FirstExistingUnique(TempCandidates, fs, i);
  }

  /** The process gives up on the sensor exactly when no candidate exists. */
  lemma NoSensorIff(fs: FileSystem)
    ensures TempReading(fs) == Failure(SensorUnavailable)
            <==> forall j :: 0 <= j < |TempCandidates| ==> TempCandidates[j] !in fs
  {
  }

  /** Only the first existing candidate is consulted: two filesystems that agree
      on it, and on the absence of every earlier candidate, give the same
      reading, whatever the later candidates hold. */
  lemma OnlyFirstSensorConsulted(fs: FileSystem, fs': FileSystem, i: nat)
    requires IsFirstExisting(TempCandidates, fs, i)
    requires forall j :: 0 <= j < i ==> TempCandidates[j] !in fs'
    requires TempCandidates[i] in fs' && fs'[TempCandidates[i]] == fs[TempCandidates[i]]
    ensures TempReading(fs') == TempReading(fs)
  {
    var p := TempCandidates[i];
    FirstExistingUnique(TempCandidates, fs, i);
    FirstExistingUnique(TempCandidates, fs', i);
    assert ParseIntFile(fs', p) == ParseIntFile(fs, p);
  }

  /** 64999 milli-degrees is reported as 64 degrees, not 65. */
  lemma TruncationExample()
    ensures TempReading(map[TempCandidates[0] := CapText(64999)]) == Success(64)
  {
    var fs := map[TempCandidates[0] := CapText(64999)];
    CapTextReadsBack(fs, TempCandidates[0], 64999);
    assert IsFirstExisting(TempCandidates, fs, 0);
    TempFromFirstSensor(fs, 0, 64999);
  }

  /** With the first and third candidates present, the third is never read. */
  lemma FirstOverThirdExample(first: string, third: string)
    ensures TempReading(map[TempCandidates[0] := first, TempCandidates[2] := third])
            == TempReading(map[TempCandidates[0] := first])
  {
    var fs := map[TempCandidates[0] := first];
    FirstExistingUnique(TempCandidates, fs, 0);
    OnlyFirstSensorConsulted(fs, map[TempCandidates[0] := first, TempCandidates[2] := third], 0);
  }

  // Actuation

  /** `set_freq`: the cap's line written to every core's cap file, in core
      order, stopping at the first core whose file cannot be created or written. */
  method SetFreq(caps: array<string>, freq: u64, faults: map<nat, WriteFault>)
    returns (r: Result<(), nat>)
    modifies caps
    ensures FannedOut(old(caps[..]), caps[..], CapText(freq), faults)
    ensures r.Success? <==> FirstFault(faults, 0, caps.Length).None?
    ensures r.Failure? ==> FirstFault(faults, 0, caps.Length) == Some(r.error)
  {
    r := WriteCaps(caps, CapText(freq), faults);
  }

  // The control step

  /** What one poll does: nothing, or move the cap to `freq` and actuate it. */
  datatype Decision = Hold | Apply(freq: u64)

  /** The decision of one iteration of the loop in `main`, with `u64`
      arithmetic as written: `cur_freq -= STEP_FREQ`, `cur_freq += STEP_FREQ`
      and `max_temp - 5` wrap around modulo 2^64. */
  function Next(cfg: Config, cur: u64, temp: u64): (d: Decision)
    ensures d.Apply? ==> d.freq != cur
  {
    if temp > cfg.maxTemp && cur > cfg.minFreq then
      var lowered := WrappingSubU64(cur, StepFreq);
      Apply(if lowered < cfg.minFreq then cfg.minFreq else lowered)
    else if temp < WrappingSubU64(cfg.maxTemp, Deadband) && cur < cfg.maxFreq then
      var raised := WrappingAddU64(cur, StepFreq);
      Apply(if raised > cfg.maxFreq then cfg.maxFreq else raised)
    else
      Hold
  }

  /** The cap after one poll. */
  function Stepped(cfg: Config, cur: u64, temp: u64): u64 {
    match Next(cfg, cur, temp)
    case Hold => cur
    case Apply(f) => f
  }

  /** Bounds under which neither step can wrap around. */
  predicate NoOverflow(cfg: Config) {
    StepFreq <= cfg.minFreq && cfg.maxFreq + StepFreq < TwoTo64
  }

  /** The invariant of the cap: inside the bounds when they are ordered and
      cannot overflow, and stuck at the maximum when the bounds are inverted. */
  predicate InBounds(cfg: Config, cur: u64) {
    && (cfg.maxFreq < cfg.minFreq ==> cur == cfg.maxFreq)
    && (cfg.minFreq <= cfg.maxFreq && NoOverflow(cfg) ==> cfg.minFreq <= cur <= cfg.maxFreq)
  }

  /** The starting cap, the maximum, satisfies the invariant. */
  lemma StartInBounds(cfg: Config)
    ensures InBounds(cfg, cfg.maxFreq)
  {
  }

  /** Cooling: hot and above the minimum, the cap drops one step, clamped to the
      minimum, and is actuated. */
  lemma CoolingStep(cfg: Config, cur: u64, temp: u64)
    requires temp > cfg.maxTemp && cur > cfg.minFreq && StepFreq <= cur
    ensures Next(cfg, cur, temp) == Apply(if cur - StepFreq < cfg.minFreq then cfg.minFreq else cur - StepFreq)
  {
  }

  /** Warming: more than five degrees below the target and below the maximum,
      the cap rises one step, clamped to the maximum, and is actuated. */
  lemma WarmingStep(cfg: Config, cur: u64, temp: u64)
    requires Deadband <= cfg.maxTemp && temp + Deadband < cfg.maxTemp
    requires cur < cfg.maxFreq && cur + StepFreq < TwoTo64
    ensures Next(cfg, cur, temp) == Apply(if cur + StepFreq > cfg.maxFreq then cfg.maxFreq else cur + StepFreq)
  {
  }

  /** Nothing happens exactly when neither the cooling condition nor the
      warming condition holds. */
  lemma HoldIff(cfg: Config, cur: u64, temp: u64)
    requires Deadband <= cfg.maxTemp
    ensures Next(cfg, cur, temp) == Hold
            <==> !(temp > cfg.maxTemp && cur > cfg.minFreq)
                 && !(temp + Deadband < cfg.maxTemp && cur < cfg.maxFreq)
  {
  }

  /** Inside the deadband, from the target minus five to the target, nothing
      changes whatever the cap. */
  lemma DeadbandHolds(cfg: Config, cur: u64, temp: u64)
    requires Deadband <= cfg.maxTemp && cfg.maxTemp - Deadband <= temp <= cfg.maxTemp
    ensures Next(cfg, cur, temp) == Hold
  {
  }

  /** At the minimum a hot reading changes nothing; at the maximum a cool
      reading changes nothing. */
  lemma PinnedAtBounds(cfg: Config, temp: u64)
    requires Deadband <= cfg.maxTemp
    ensures temp > cfg.maxTemp ==> Next(cfg, cfg.minFreq, temp) == Hold
    ensures temp + Deadband < cfg.maxTemp ==> Next(cfg, cfg.maxFreq, temp) == Hold
  {
  }

  /** One poll preserves the invariant of the cap. */
  lemma StepPreservesBounds(cfg: Config, cur: u64, temp: u64)
    requires InBounds(cfg, cur)
    ensures InBounds(cfg, Stepped(cfg, cur, temp))
    ensures Next(cfg, cur, temp).Apply? && cfg.minFreq <= cfg.maxFreq && NoOverflow(cfg) ==>
              cfg.minFreq <= Next(cfg, cur, temp).freq <= cfg.maxFreq
    ensures cfg.maxFreq < cfg.minFreq ==> Next(cfg, cur, temp) == Hold
  {
  }

  /** Example: bounds 800000..2000000, cap 850000, a cooling signal gives
      exactly 800000, not 750000. */
  lemma ClampExample()
    ensures Next(Config(800000, 2000000, 70), 850000, 71) == Apply(800000)
  {
  }

  /** Example: target 70, cap strictly between the bounds. 65 to 70 is the
      deadband; 71 cools by a step; 64 warms by a step. */
  lemma DeadbandExample(cur: u64, temp: u64)
    requires 800000 < cur < 2000000
    ensures 65 <= temp <= 70 <==> Next(Config(800000, 2000000, 70), cur, temp) == Hold
    ensures temp == 71 ==> Next(Config(800000, 2000000, 70), cur, temp)
                            == Apply(if cur - 100000 < 800000 then 800000 else cur - 100000)
    ensures temp == 64 ==> Next(Config(800000, 2000000, 70), cur, temp)
                            == Apply(if cur + 100000 > 2000000 then 2000000 else cur + 100000)
  {
    HoldIff(Config(800000, 2000000, 70), cur, temp);
  }

  /** As written, a minimum below one step lets `cur_freq -= STEP_FREQ` wrap:
      with bounds 50000..2000000 and cap 80000, a hot reading sets the cap to
      2^64 - 20000, far above the maximum (a debug build panics here instead). */
  lemma UnderflowEscapesBounds()
    ensures Next(Config(50000, 2000000, 70), 80000, 71) == Apply(TwoTo64 - 20000)
    ensures TwoTo64 - 20000 > 2000000
  {
  }

  /** As written, a target below five makes `max_temp - 5` wrap to a huge
      threshold: the deadband disappears, and every reading that does not cool
      warms, even a hot one at the minimum. */
  lemma LowTargetAlwaysWarms(cfg: Config, cur: u64, temp: u64)
    requires cfg.maxTemp < Deadband && temp <= (TwoTo64 - 1) / 1000
    requires !(temp > cfg.maxTemp && cur > cfg.minFreq)
    requires cur < cfg.maxFreq && cur + StepFreq < TwoTo64
    ensures Next(cfg, cur, temp) == Apply(if cur + StepFreq > cfg.maxFreq then cfg.maxFreq else cur + StepFreq)
  {
  }

  // Finite traces of the loop

  /** The cap after polling the readings `temps` in order. */
  function Run(cfg: Config, cur: u64, temps: seq<u64>): u64
    decreases |temps|
  {
    if temps == [] then cur else Run(cfg, Stepped(cfg, cur, temps[0]), temps[1..])
  }

  /** The caps handed to `set_freq` while polling `temps`, in order. */
  function Actuations(cfg: Config, cur: u64, temps: seq<u64>): (r: seq<u64>)
    ensures |r| <= |temps|
    decreases |temps|
  {
    if temps == [] then []
    else
      match Next(cfg, cur, temps[0])
      case Hold => Actuations(cfg, cur, temps[1..])
      case Apply(f) => [f] + Actuations(cfg, f, temps[1..])
  }

  /** Over any finite trace the invariant holds at the end, and with ordered,
      overflow-free bounds every actuated cap lies within them. */
  lemma {:induction false} RunInBounds(cfg: Config, cur: u64, temps: seq<u64>)
    requires InBounds(cfg, cur)
    ensures InBounds(cfg, Run(cfg, cur, temps))
    ensures cfg.minFreq <= cfg.maxFreq && NoOverflow(cfg) ==>
              forall k :: 0 <= k < |Actuations(cfg, cur, temps)| ==>
                cfg.minFreq <= Actuations(cfg, cur, temps)[k] <= cfg.maxFreq
    decreases |temps|
  {
    if temps != [] {
      StepPreservesBounds(cfg, cur, temps[0]);
      RunInBounds(cfg, Stepped(cfg, cur, temps[0]), temps[1..]);
    }
  }

  /** With inverted bounds the cap stays at the maximum and nothing is ever
      actuated after the initial write. */
  lemma {:induction false} InvertedBoundsFrozen(cfg: Config, temps: seq<u64>)
    requires cfg.maxFreq < cfg.minFreq
    ensures Run(cfg, cfg.maxFreq, temps) == cfg.maxFreq
    ensures Actuations(cfg, cfg.maxFreq, temps) == []
  {
    if temps != [] {
      InvertedBoundsFrozen(cfg, temps[1..]);
    }
  }

  /** Idempotence at the top: at the maximum, a run of cool readings never
      raises the cap and never actuates. */
  lemma {:induction false} CoolRunAtMax(cfg: Config, temps: seq<u64>)
    requires Deadband <= cfg.maxTemp
    requires forall k :: 0 <= k < |temps| ==> temps[k] + Deadband < cfg.maxTemp
    ensures Run(cfg, cfg.maxFreq, temps) == cfg.maxFreq
    ensures Actuations(cfg, cfg.maxFreq, temps) == []
  {
    if temps != [] {
      PinnedAtBounds(cfg, temps[0]);
      CoolRunAtMax(cfg, temps[1..]);
    }
  }

  /** Idempotence at the bottom: at the minimum, a run of hot readings never
      lowers the cap and never actuates. */
  lemma {:induction false} HotRunAtMin(cfg: Config, temps: seq<u64>)
    requires Deadband <= cfg.maxTemp
    requires forall k :: 0 <= k < |temps| ==> temps[k] > cfg.maxTemp
    ensures Run(cfg, cfg.minFreq, temps) == cfg.minFreq
    ensures Actuations(cfg, cfg.minFreq, temps) == []
  {
    if temps != [] {
      PinnedAtBounds(cfg, temps[0]);
      HotRunAtMin(cfg, temps[1..]);
    }
  }

  // The governor as the source runs it

  /** The state of `main` once the bounds are read: the cap `cur_freq` and the
      cores' cap files. */
  class Governor {
    const cfg: Config
    const caps: array<string>
    var curFreq: u64
    /** Whether the initial `set_freq(max_freq)` has succeeded. */
    ghost var started: bool

    ghost predicate Valid()
      reads this, caps
    {
      && InBounds(cfg, curFreq)
      && (!started ==> curFreq == cfg.maxFreq)
      && (started ==> forall c :: 0 <= c < caps.Length ==> caps[c] == CapText(curFreq))
    }

    /** `let mut cur_freq = max_freq`. */
    constructor (cfg: Config, caps: array<string>)
      ensures this.cfg == cfg && this.caps == caps
      ensures curFreq == cfg.maxFreq && !started && Valid()
    {
      this.cfg := cfg;
      this.caps := caps;
      curFreq := cfg.maxFreq;
      started := false;
    }

    /** `set_freq(cur_freq)?` before the loop: every core gets the maximum
      before any temperature is read. */
    method Start(faults: map<nat, WriteFault>) returns (r: Result<(), Error>)
      requires Valid() && !started
      modifies this, caps
      ensures curFreq == cfg.maxFreq
      ensures FannedOut(old(caps[..]), caps[..], CapText(cfg.maxFreq), faults)
      ensures r.Success? <==> FirstFault(faults, 0, caps.Length).None?
      ensures r.Failure? ==> r.error == ActuationError(FirstFault(faults, 0, caps.Length).value)
      ensures r.Success? ==> started && Valid()
    {
      var w := SetFreq(caps, curFreq, faults);
      if w.Failure? {
        return Failure(ActuationError(w.error));
      }
      started := true;
      return Success(());
    }

    /** The decision and actuation half of an iteration, for a temperature
      already read: nothing when the cap stays, otherwise the new cap is
      stored and written to every core. */
    method React(temp: u64, faults: map<nat, WriteFault>) returns (r: Result<(), Error>)
      requires Valid() && started
      modifies this, caps
      ensures started
      ensures Next(cfg, old(curFreq), temp) == Hold ==>
                r == Success(()) && curFreq == old(curFreq) && caps[..] == old(caps[..])
      ensures Next(cfg, old(curFreq), temp).Apply? ==>
                && curFreq == Next(cfg, old(curFreq), temp).freq
                && FannedOut(old(caps[..]), caps[..], CapText(curFreq), faults)
                && (r.Success? <==> FirstFault(faults, 0, caps.Length).None?)
                && (r.Failure? ==> r.error == ActuationError(FirstFault(faults, 0, caps.Length).value))
      ensures r.Success? ==> Valid()
    {
      var d := Next(cfg, curFreq, temp);
      StepPreservesBounds(cfg, curFreq, temp);
      if d.Hold? {
        return Success(());
      }
      curFreq := d.freq;
      var w := SetFreq(caps, curFreq, faults);
      if w.Failure? {
        return Failure(ActuationError(w.error));
      }
      return Success(());
    }

    /** One iteration of the loop: read the temperature, decide, and actuate
      when the cap changes. Any error ends the process. */
    method Poll(fs: FileSystem, faults: map<nat, WriteFault>) returns (r: Result<(), Error>)
      requires Valid() && started
      modifies this, caps
      ensures started
      ensures TempReading(fs).Failure? ==>
                && r == Failure(SensorFailure(TempReading(fs).error))
                && curFreq == old(curFreq) && caps[..] == old(caps[..])
      ensures TempReading(fs).Success? && Next(cfg, old(curFreq), TempReading(fs).value) == Hold ==>
                && r == Success(())
                && curFreq == old(curFreq) && caps[..] == old(caps[..])
      ensures TempReading(fs).Success? && Next(cfg, old(curFreq), TempReading(fs).value).Apply? ==>
                && curFreq == Next(cfg, old(curFreq), TempReading(fs).value).freq
                && FannedOut(old(caps[..]), caps[..], CapText(curFreq), faults)
                && (r.Success? <==> FirstFault(faults, 0, caps.Length).None?)
                && (r.Failure? ==> r.error == ActuationError(FirstFault(faults, 0, caps.Length).value))
      ensures r.Success? ==> Valid()
    {
      var t := GetTemp(fs);
      if t.Failure? {
        return Failure(SensorFailure(t.error));
      }
      r := React(t.value, faults);
    }
  }
}
