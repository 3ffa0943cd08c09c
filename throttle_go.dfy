/** The Go copy of the governor (tct.go): the first existing sensor, the
    hysteresis step on an `int64` cap with wrap-around arithmetic as the source
    writes it, and the per-core actuation. The two floating-point comparisons of
    the loop (temperature above the target, temperature more than five degrees
    below it) are inputs. */
module ThrottleGo {
  import opened Wrappers
  import opened MachineInts
  import opened Text
  import opened Sysfs

  const MinFreqFile: Path := "/sys/devices/system/cpu/cpu0/cpufreq/cpuinfo_min_freq"
  const MaxFreqFile: Path := "/sys/devices/system/cpu/cpu0/cpufreq/cpuinfo_max_freq"

  /** `var step int64 = 100000`. */
  const Step: i64 := 100000

  /** Everything that ends the process through `log.Fatal`, as an error value. */
  datatype Error =
    | FreqOpenError(path: Path)
    | FreqParseError(path: Path)
    | SensorFailure(cause: SensorError)
    | ActuationError(core: nat)

  /** The line `setFrequency` writes: `fmt.Sprintf("%d\n", freq)`. */
  function CapText(freq: i64): string {
    ShowInt(freq) + "\n"
  }

  /** A cap file written by `setFrequency` parses back as the cap written. */
  lemma CapTextReadsBack(freq: i64)
    ensures ParseSigned(Trim(CapText(freq))) == Some(freq)
  {
    ParseSignedLine(freq);
  }

  // Frequency bounds

  /** `parseFreqFile`: fatal when the file is missing or not an int64. */
  function ParseFreqFile(fs: FileSystem, path: Path): Result<i64, Error> {
    if path !in fs then Failure(FreqOpenError(path))
    else
      match ParseSigned(Trim(fs[path]))
      case None => Failure(FreqParseError(path))
      case Some(v) => Success(v)
  }

  datatype Config = Config(minFreq: i64, maxFreq: i64)

  /** `collectMinFreq()` then `collectMaxFreq()`. */
  function ReadBounds(fs: FileSystem): Result<Config, Error> {
    match ParseFreqFile(fs, MinFreqFile)
    case Failure(e) => Failure(e)
    case Success(lo) =>
      match ParseFreqFile(fs, MaxFreqFile)
      case Failure(e) => Failure(e)
      case Success(hi) => Success(Config(lo, hi))
  }

  /** A frequency file holding a written line reads back as its value. */
  lemma FreqFileReadsBack(fs: FileSystem, path: Path, v: i64)
    requires path in fs && fs[path] == CapText(v)
    ensures ParseFreqFile(fs, path) == Success(v)
  {
    CapTextReadsBack(v);
  }

  /** A missing frequency file is a fatal error naming it, the minimum file
      being looked at first. */
  lemma ReadBoundsMissing(fs: FileSystem)
    ensures MinFreqFile !in fs ==> ReadBounds(fs) == Failure(FreqOpenError(MinFreqFile))
    ensures ParseFreqFile(fs, MinFreqFile).Success? && MaxFreqFile !in fs ==>
              ReadBounds(fs) == Failure(FreqOpenError(MaxFreqFile))
  {
  }

  /** The bounds are the values written in the two capability files. */
  lemma ReadBoundsFromFiles(fs: FileSystem, lo: i64, hi: i64)
    ensures ReadBounds(fs[MinFreqFile := CapText(lo)][MaxFreqFile := CapText(hi)]) == Success(Config(lo, hi))
  {
    var fs2 := fs[MinFreqFile := CapText(lo)][MaxFreqFile := CapText(hi)];
    // The two paths differ only in "min" / "max", from index 46 on.
    assert MinFreqFile[46] != MaxFreqFile[46];
    assert fs2[MinFreqFile] == CapText(lo) && fs2[MaxFreqFile] == CapText(hi);
    FreqFileReadsBack(fs2, MinFreqFile, lo);
    FreqFileReadsBack(fs2, MaxFreqFile, hi);
    ReadBoundsOfParsed(fs2, lo, hi);
  }

  /** Both frequency files parse: the bounds are their values. */
  lemma ReadBoundsOfParsed(fs: FileSystem, lo: i64, hi: i64)
    requires ParseFreqFile(fs, MinFreqFile) == Success(lo) && ParseFreqFile(fs, MaxFreqFile) == Success(hi)
    ensures ReadBounds(fs) == Success(Config(lo, hi))
  {
  }

  // Temperature

  /** What `parseTempFile` gives back: an error for a missing file, a fatal
      exit for an unparsable one, or the raw milli-degree reading. */
  datatype TempFile = Missing | Unparsable | Reading(raw: i64)

  function ParseTempFile(fs: FileSystem, path: Path): TempFile {
    if path !in fs then Missing
    else
      match ParseSigned(Trim(fs[path]))
      case None => Unparsable
      case Some(v) => Reading(v)
  }

  /** `parseTempFile` returns an error exactly when the path does not exist,
      and a written line reads back as its value. */
  lemma ParseTempFileSpec(fs: FileSystem, path: Path, v: i64)
    ensures ParseTempFile(fs, path).Missing? <==> path !in fs
    ensures ParseTempFile(fs[path := CapText(v)], path) == Reading(v)
  {
    var fs' := fs[path := CapText(v)];
    CapTextReadsBack(v);
    assert path in fs' && ParseSigned(Trim(fs'[path])) == Some(v);
  }

  /** `collectTemp`, in milli-degrees: the first candidate for which
      `parseTempFile` does not return an error. */
  function CollectedReading(fs: FileSystem): Result<i64, SensorError> {
    match FirstExisting(TempCandidates, fs)
    case None => Failure(SensorUnavailable)
    case Some(i) =>
      match ParseTempFile(fs, TempCandidates[i])
      case Reading(v) => Success(v)
      case _ => Failure(SensorReadError(TempCandidates[i]))
  }

  /** The search loop of `collectTemp`. */
  method CollectTemp(fs: FileSystem) returns (r: Result<i64, SensorError>)
    ensures r == CollectedReading(fs)
  {
    var i := 0;
    while i < |TempCandidates|
      invariant 0 <= i <= |TempCandidates|
      invariant forall j :: 0 <= j < i ==> TempCandidates[j] !in fs
    {
      var file := TempCandidates[i];
      var t := ParseTempFile(fs, file);
      if t.Reading? {
        FirstExistingUnique(TempCandidates, fs, i);
        return Success(t.raw);
      } else if t.Unparsable? {
        FirstExistingUnique(TempCandidates, fs, i);
        return Failure(SensorReadError(file));
      }
      i := i + 1;
    }
    return Failure(SensorUnavailable);
  }

  /** The reading is that of the first existing candidate; a fatal exit when
      that one is unparsable or when none exists. */
  lemma CollectedFromFirstSensor(fs: FileSystem, i: nat)
    requires IsFirstExisting(TempCandidates, fs, i)
    ensures ParseTempFile(fs, TempCandidates[i]).Reading? ==>
              CollectedReading(fs) == Success(ParseTempFile(fs, TempCandidates[i]).raw)
    ensures ParseTempFile(fs, TempCandidates[i]).Unparsable? ==>
              CollectedReading(fs) == Failure(SensorReadError(TempCandidates[i]))
  {
    FirstExistingUnique(TempCandidates, fs, i);
  }

  /** The process gives up on the sensor exactly when no candidate exists. */
  lemma NoSensorIff(fs: FileSystem)
    ensures CollectedReading(fs) == Failure(SensorUnavailable)
            <==> forall j :: 0 <= j < |TempCandidates| ==> TempCandidates[j] !in fs
  {
  }

  /** Later candidates are never consulted: two filesystems that agree on the
      first existing candidate, and on the absence of the earlier ones, give
      the same reading. */
  lemma OnlyFirstSensorConsulted(fs: FileSystem, fs': FileSystem, i: nat)
    requires IsFirstExisting(TempCandidates, fs, i)
    requires forall j :: 0 <= j < i ==> TempCandidates[j] !in fs'
    requires TempCandidates[i] in fs' && fs'[TempCandidates[i]] == fs[TempCandidates[i]]
    ensures CollectedReading(fs') == CollectedReading(fs)
  {
    var p := TempCandidates[i];
    FirstExistingUnique(TempCandidates, fs, i);
    FirstExistingUnique(TempCandidates, fs', i);
    assert ParseTempFile(fs', p) == ParseTempFile(fs, p);
  }

  // Actuation

  /** `setFrequency`: the cap's line written to cpu 0 .. num_cpus-1 in order,
      stopping fatally at the first failed write. */
  method SetFrequency(caps: array<string>, freq: i64, faults: map<nat, WriteFault>)
    returns (r: Result<(), nat>)
    modifies caps
    ensures FannedOut(old(caps[..]), caps[..], CapText(freq), faults)
    ensures r.Success? <==> FirstFault(faults, 0, caps.Length).None?
    ensures r.Failure? ==> FirstFault(faults, 0, caps.Length) == Some(r.error)
  {
    r := WriteCaps(caps, CapText(freq), faults);
  }

  // The control step

  datatype Decision = Hold | Apply(freq: i64)

  /** The decision of one iteration of the loop in `main`, with `int64`
      arithmetic as written; `hot` is `temp > max_temp` and `cool` is
      `temp < max_temp-5.0`. */
  function Next(cfg: Config, cur: i64, hot: bool, cool: bool): (d: Decision)
    ensures d.Apply? ==> d.freq != cur
  {
    if hot && cur > cfg.minFreq then
      var lowered := WrappingSubI64(cur, Step);
      Apply(if lowered < cfg.minFreq then cfg.minFreq else lowered)
    else if cool && cur < cfg.maxFreq then
      var raised := WrappingAddI64(cur, Step);
      Apply(if raised > cfg.maxFreq then cfg.maxFreq else raised)
    else
      Hold
  }

  function Stepped(cfg: Config, cur: i64, hot: bool, cool: bool): i64 {
    match Next(cfg, cur, hot, cool)
    case Hold => cur
    case Apply(f) => f
  }

  /** Bounds at least one step away from the ends of the int64 range. */
  predicate NoOverflow(cfg: Config) {
    I64Min + Step <= cfg.minFreq && cfg.maxFreq + Step <= I64Max
  }

  /** The invariant of the cap: inside ordered, overflow-free bounds, and
      stuck at the maximum when the bounds are inverted. */
  predicate InBounds(cfg: Config, cur: i64) {
    && (cfg.maxFreq < cfg.minFreq ==> cur == cfg.maxFreq)
    && (cfg.minFreq <= cfg.maxFreq && NoOverflow(cfg) ==> cfg.minFreq <= cur <= cfg.maxFreq)
  }

  /** The starting cap, the maximum, satisfies the invariant. */
  lemma StartInBounds(cfg: Config)
    ensures InBounds(cfg, cfg.maxFreq)
  {
  }

  /** A hot step gives max(cur - step, min), and only when above the minimum. */
  lemma CoolingStep(cfg: Config, cur: i64, cool: bool)
    requires I64Min + Step <= cur
    ensures cur > cfg.minFreq ==>
              Next(cfg, cur, true, cool) == Apply(if cur - Step < cfg.minFreq then cfg.minFreq else cur - Step)
    ensures cur <= cfg.minFreq && !(cool && cur < cfg.maxFreq) ==> Next(cfg, cur, true, cool) == Hold
  {
  }

  /** A cool step gives min(cur + step, max), and only when below the maximum. */
  lemma WarmingStep(cfg: Config, cur: i64)
    requires cur + Step <= I64Max
    ensures cur < cfg.maxFreq ==>
              Next(cfg, cur, false, true) == Apply(if cur + Step > cfg.maxFreq then cfg.maxFreq else cur + Step)
    ensures cur >= cfg.maxFreq ==> Next(cfg, cur, false, true) == Hold
  {
  }

  /** Nothing happens exactly when neither condition holds. */
  lemma HoldIff(cfg: Config, cur: i64, hot: bool, cool: bool)
    ensures Next(cfg, cur, hot, cool) == Hold
            <==> !(hot && cur > cfg.minFreq) && !(cool && cur < cfg.maxFreq)
  {
  }

  /** One poll preserves the invariant of the cap, and inverted bounds never
      actuate. */
  lemma StepPreservesBounds(cfg: Config, cur: i64, hot: bool, cool: bool)
    requires InBounds(cfg, cur)
    ensures InBounds(cfg, Stepped(cfg, cur, hot, cool))
    ensures Next(cfg, cur, hot, cool).Apply? && cfg.minFreq <= cfg.maxFreq && NoOverflow(cfg) ==>
              cfg.minFreq <= Next(cfg, cur, hot, cool).freq <= cfg.maxFreq
    ensures cfg.maxFreq < cfg.minFreq ==> Next(cfg, cur, hot, cool) == Hold
  {
  }

  /** Signed arithmetic lets the clamp absorb a negative intermediate value:
      with minimum 0 and a cap below one step, a hot step gives exactly 0. */
  lemma NegativeIntermediateClamped(cfg: Config, cur: i64, cool: bool)
    requires cfg.minFreq == 0 && 0 < cur < Step
    ensures Next(cfg, cur, true, cool) == Apply(0)
  {
  }

  /** As written, a minimum within one step of the bottom of the int64 range
      lets `cur_freq -= step` wrap to a large positive cap above the maximum. */
  lemma OverflowNearInt64Min()
    ensures Next(Config(I64Min, 0), I64Min + 1, true, false) == Apply(I64Max - 99998)
  {
  }

  // Finite traces of the loop

  /** The outcome of the two temperature comparisons of one poll. */
  datatype Signal = Signal(hot: bool, cool: bool)

  function Run(cfg: Config, cur: i64, signals: seq<Signal>): i64
    decreases |signals|
  {
    if signals == [] then cur
    else Run(cfg, Stepped(cfg, cur, signals[0].hot, signals[0].cool), signals[1..])
  }

  /** The caps handed to `setFrequency` inside the loop, in order. */
  function Actuations(cfg: Config, cur: i64, signals: seq<Signal>): (r: seq<i64>)
    ensures |r| <= |signals|
    decreases |signals|
  {
    if signals == [] then []
    else
      match Next(cfg, cur, signals[0].hot, signals[0].cool)
      case Hold => Actuations(cfg, cur, signals[1..])
      case Apply(f) => [f] + Actuations(cfg, f, signals[1..])
  }

  /** Over any finite trace the invariant holds at the end, and with ordered,
      overflow-free bounds every actuated cap lies within them. */
  lemma {:induction false} RunInBounds(cfg: Config, cur: i64, signals: seq<Signal>)
    requires InBounds(cfg, cur)
    ensures InBounds(cfg, Run(cfg, cur, signals))
    ensures cfg.minFreq <= cfg.maxFreq && NoOverflow(cfg) ==>
              forall k :: 0 <= k < |Actuations(cfg, cur, signals)| ==>
                cfg.minFreq <= Actuations(cfg, cur, signals)[k] <= cfg.maxFreq
    decreases |signals|
  {
    if signals != [] {
      StepPreservesBounds(cfg, cur, signals[0].hot, signals[0].cool);
      RunInBounds(cfg, Stepped(cfg, cur, signals[0].hot, signals[0].cool), signals[1..]);
    }
  }

  /** With inverted bounds the state never changes and nothing is actuated. */
  lemma {:induction false} InvertedBoundsFrozen(cfg: Config, signals: seq<Signal>)
    requires cfg.maxFreq < cfg.minFreq
    ensures Run(cfg, cfg.maxFreq, signals) == cfg.maxFreq
    ensures Actuations(cfg, cfg.maxFreq, signals) == []
  {
    if signals != [] {
      InvertedBoundsFrozen(cfg, signals[1..]);
    }
  }

  /** Idempotence at the top: at the maximum, cool-only signals never raise the
      cap and never actuate. */
  lemma {:induction false} CoolRunAtMax(cfg: Config, signals: seq<Signal>)
    requires forall k :: 0 <= k < |signals| ==> !signals[k].hot
    ensures Run(cfg, cfg.maxFreq, signals) == cfg.maxFreq
    ensures Actuations(cfg, cfg.maxFreq, signals) == []
  {
    if signals != [] {
      CoolRunAtMax(cfg, signals[1..]);
    }
  }

  /** Idempotence at the bottom: at the minimum, hot signals never lower the
      cap and never actuate. */
  lemma {:induction false} HotRunAtMin(cfg: Config, signals: seq<Signal>)
    requires forall k :: 0 <= k < |signals| ==> signals[k].hot && !signals[k].cool
    ensures Run(cfg, cfg.minFreq, signals) == cfg.minFreq
    ensures Actuations(cfg, cfg.minFreq, signals) == []
  {
    if signals != [] {
      HotRunAtMin(cfg, signals[1..]);
    }
  }

  // The governor as the source runs it

  /** The state of `main` once the bounds are read: the cap `cur_freq` and the
      cores' cap files (one per `runtime.NumCPU()`). */
  class Governor {
    const cfg: Config
    const caps: array<string>
    var curFreq: i64
    /** Whether the initial `setFrequency(cur_freq, num_cpus)` has succeeded. */
    ghost var started: bool

    ghost predicate Valid()
      reads this, caps
    {
      && InBounds(cfg, curFreq)
      && (!started ==> curFreq == cfg.maxFreq)
      && (started ==> forall c :: 0 <= c < caps.Length ==> caps[c] == CapText(curFreq))
    }

    /** `cur_freq := max_freq`. */
    constructor (cfg: Config, caps: array<string>)
      ensures this.cfg == cfg && this.caps == caps
      ensures curFreq == cfg.maxFreq && !started && Valid()
    {
      this.cfg := cfg;
      this.caps := caps;
      curFreq := cfg.maxFreq;
      started := false;
    }

    /** `setFrequency(cur_freq, num_cpus)` before the loop: every core gets
      the maximum before the first temperature read. */
    method Start(faults: map<nat, WriteFault>) returns (r: Result<(), Error>)
      requires Valid() && !started
      modifies this, caps
      ensures curFreq == cfg.maxFreq
      ensures FannedOut(old(caps[..]), caps[..], CapText(cfg.maxFreq), faults)
      ensures r.Success? <==> FirstFault(faults, 0, caps.Length).None?
      ensures r.Failure? ==> r.error == ActuationError(FirstFault(faults, 0, caps.Length).value)
      ensures r.Success? ==> started && Valid()
    {
      var w := SetFrequency(caps, curFreq, faults);
      if w.Failure? {
        return Failure(ActuationError(w.error));
      }
      started := true;
      return Success(());
    }

    /** The decision and actuation half of an iteration, for the two
      comparisons already made: nothing when the cap stays, otherwise the new
      cap is stored and written to every core. */
    method React(hot: bool, cool: bool, faults: map<nat, WriteFault>) returns (r: Result<(), Error>)
      requires Valid() && started
      modifies this, caps
      ensures started
      ensures Next(cfg, old(curFreq), hot, cool) == Hold ==>
                r == Success(()) && curFreq == old(curFreq) && caps[..] == old(caps[..])
      ensures Next(cfg, old(curFreq), hot, cool).Apply? ==>
                && curFreq == Next(cfg, old(curFreq), hot, cool).freq
                && FannedOut(old(caps[..]), caps[..], CapText(curFreq), faults)
                && (r.Success? <==> FirstFault(faults, 0, caps.Length).None?)
                && (r.Failure? ==> r.error == ActuationError(FirstFault(faults, 0, caps.Length).value))
      ensures r.Success? ==> Valid()
    {
      var d := Next(cfg, curFreq, hot, cool);
      StepPreservesBounds(cfg, curFreq, hot, cool);
      if d.Hold? {
        return Success(());
      }
      curFreq := d.freq;
      var w := SetFrequency(caps, curFreq, faults);
      if w.Failure? {
        return Failure(ActuationError(w.error));
      }
      return Success(());
    }

    /** One iteration of the loop: collect the temperature, decide from the two
      comparisons, and actuate when the cap changes. Any error ends the process. */
    method Poll(fs: FileSystem, hot: bool, cool: bool, faults: map<nat, WriteFault>)
      returns (r: Result<(), Error>)
      requires Valid() && started
      modifies this, caps
      ensures started
      ensures CollectedReading(fs).Failure? ==>
                && r == Failure(SensorFailure(CollectedReading(fs).error))
                && curFreq == old(curFreq) && caps[..] == old(caps[..])
      ensures CollectedReading(fs).Success? && Next(cfg, old(curFreq), hot, cool) == Hold ==>
                && r == Success(())
                && curFreq == old(curFreq) && caps[..] == old(caps[..])
      ensures CollectedReading(fs).Success? && Next(cfg, old(curFreq), hot, cool).Apply? ==>
                && curFreq == Next(cfg, old(curFreq), hot, cool).freq
                && FannedOut(old(caps[..]), caps[..], CapText(curFreq), faults)
                && (r.Success? <==> FirstFault(faults, 0, caps.Length).None?)
                && (r.Failure? ==> r.error == ActuationError(FirstFault(faults, 0, caps.Length).value))
      ensures r.Success? ==> Valid()
    {
      var t := CollectTemp(fs);
      if t.Failure? {
        return Failure(SensorFailure(t.error));
      }
      r := React(hot, cool, faults);
    }
  }
}
