# throttle-cpu-temp, modelled in Dafny

throttle-cpu-temp is a closed-loop thermal governor for Linux. It reads the CPU
temperature from the first sensor file that exists, and every three seconds
moves an upper bound on the CPU clock, the cap `cur_freq`, by one step of
100000 kHz. It lowers the cap when the temperature is above a target. It
raises the cap when the temperature is more than five degrees below the target.
Between those two thresholds (the deadband) nothing changes. The cap is kept
between the hardware's minimum and maximum frequency, starts at the maximum, and
every change is written to each core's `scaling_max_freq` file. The repository
holds two copies of the governor: a Rust one (`src/main.rs`) and an older Go
one (`tct.go`). Both are modelled.

Modules, leaf first:

- `Wrappers`: `Option` and `Result`, used for the program's error exits.
- `MachineInts`: `u64`, `i64`, and explicit wrap-around subtraction and addition modulo 2^64.
- `Text`: the whitespace trim shared by Rust's `str::trim` and Go's
  `strings.TrimSpace`. Two decimal parsers: Rust's `u64::from_str` and Go's
  `strconv.ParseInt(s, 10, 64)`. The decimal printer, with round-trip lemmas.
- `Sysfs`: the filesystem as a value, a map from each existing path to its
  text. Also the nine candidate sensor paths (identical in both copies), the
  first-existing search, and the core-by-core write loop `WriteCaps`. That loop
  stops at the first failing core. The cores' cap files are an `array<string>`,
  one cell per logical CPU. A map from core index to `WriteFault` says which
  writes fail.
- `ThrottleRs` (src/main.rs) and `ThrottleGo` (tct.go): each has the bounds
  reading, the temperature reading (a pure specification function plus the
  source's search loop as a method proved against it), and the actuation. Each
  also has the control step `Next` as a pure function with the source's 64-bit
  arithmetic, lemmas about it and about finite traces (`Run`, `Actuations`),
  and a `Governor` class. The class holds `cur_freq` and the cap files. `Start`
  is the initial write of the maximum, `React` is the decide-and-actuate half
  of an iteration, and `Poll` is one whole iteration.

Arithmetic is modelled as the code writes it. In Rust, `cur_freq -= STEP_FREQ`,
`cur_freq += STEP_FREQ` and `max_temp - 5` are on `u64`; the model uses wrap-around, the
behaviour of a release build. The lemmas name the conditions under which no
wrap happens: minimum at least one step, maximum plus one step below 2^64, and
target at least 5. `UnderflowEscapesBounds` and `LowTargetAlwaysWarms` show
what happens when those conditions fail. In Go the cap is a signed `int64`, so
the clamp absorbs a negative intermediate value. Wrap-around there needs bounds
within one step of the ends of the int64 range (`OverflowNearInt64Min`). Neither
copy checks that the minimum is at most the maximum. With inverted bounds the cap
stays at the maximum and nothing is ever written again (`InvertedBoundsFrozen`).

The Go copy parses readings and frequencies as signed integers, so it accepts
negative values, and it compares temperatures as floating-point numbers. The
model follows the code in both respects. A reading is an `i64` in milli-degrees,
and the two comparisons of the loop are boolean inputs.

## Model

| member | source | states |
|---|---|---|
| `MachineInts.WrappingSubU64` | src/main.rs:105 | `u64` subtraction without overflow checks: the result differs from the true difference by a multiple of 2^64 and is either it or it plus 2^64 |
| `MachineInts.WrappingAddU64` | src/main.rs:111 | `u64` addition without overflow checks: the true sum, or the sum minus 2^64 |
| `MachineInts.WrappingSubI64` | tct.go:145 | Go `int64` subtraction: the true difference brought back into range modulo 2^64 |
| `MachineInts.WrappingAddI64` | tct.go:151 | Go `int64` addition: the true sum brought back into range modulo 2^64 |
| `Text.Trim` | src/main.rs:39 | `trim()` returns text no longer than its input, with no whitespace at either end |
| `Text.TrimSlice` | tct.go:77 | the trimmed text is a slice of the input with only whitespace before and after it |
| `Text.TrimPadded` | tct.go:77 | trimming removes exactly the surrounding whitespace: `Trim(p + t + q) == t` for blank `p`, `q` and a non-blank trimmed `t` |
| `Text.ParseUnsigned` | src/main.rs:39 | `u64::from_str`: no contract of its own; specified by `ParseUnsignedShow` (every printed `u64` reads back) |
| `Text.ParseSigned` | tct.go:62 | `ParseInt(s, 10, 64)`: no contract of its own; specified by `ParseSignedShow` and used through `ParseSignedLine` |
| `Text.ShowInt` | tct.go:108 | `%d` of an `int64` is non-empty with no surrounding whitespace, and starts with '-' exactly when the value is negative; `ParseSignedShow` reads it back |
| `Text.ShowNat` | src/main.rs:66 | `format!("{}")` of a number is a non-empty string of digits with no leading zero |
| `Text.ParseUnsignedShow` | src/main.rs:39 | `u64::from_str` reads back every printed `u64` |
| `Text.ParseSignedShow` | tct.go:78 | `ParseInt(s, 10, 64)` reads back every printed `int64`, negative ones included |
| `Text.TrimLine` | src/main.rs:66 | a written line `"n\n"` trims back to `"n"` |
| `Sysfs.FirstExisting` | src/main.rs:51-55 | the candidate search returns the index of the first existing path, with every earlier one absent, or None exactly when no candidate exists |
| `Sysfs.FirstExistingUnique` | tct.go:95-99 | the first existing position is unique: any index that is first-existing is the one the search returns |
| `Sysfs.FirstFault` | src/main.rs:63-67 | the lowest core below the core count whose write fails, every earlier core being fault-free, or None when no write fails |
| `Sysfs.WriteCaps` | src/main.rs:63-68 | writes the text to cores 0, 1, ... in order. Every core before the first failing one holds the text, and the failing core is left as it was (create fails) or truncated (write fails). Later cores are untouched. The result is success exactly when no core fails, and otherwise names the failing core |
| `ThrottleRs.ParseIntFile` | src/main.rs:38-40 | `parse_int_file`: no contract of its own; specified by `CapTextReadsBack`, `ReadBoundsMissing` and `UnreadableSensorFails` |
| `ThrottleRs.ReadBounds` | src/main.rs:95-97 | `min_frequency()?` then `max_frequency()?`: no contract of its own; specified by `ReadBoundsMissing` and `ReadBoundsFromFiles` |
| `ThrottleRs.CapTextReadsBack` | src/main.rs:38-40 | a cap file holding what `set_freq` writes is read by `parse_int_file` as the value written |
| `ThrottleRs.ReadBoundsMissing` | src/main.rs:95-97 | a missing minimum file is an error naming it; with a readable minimum, a missing maximum file is an error naming that one |
| `ThrottleRs.ReadBoundsFromFiles` | src/main.rs:42-48 | the bounds are the numbers written in `cpuinfo_min_freq` and `cpuinfo_max_freq` |
| `ThrottleRs.TempReading` | src/main.rs:50-59 | the value `get_temp` computes: no contract of its own; specified by `TempFromFirstSensor`, `UnreadableSensorFails`, `NoSensorIff` and `OnlyFirstSensorConsulted`, and `GetTemp` is proved equal to it |
| `ThrottleRs.GetTemp` | src/main.rs:50-59 | the search loop of `get_temp` returns exactly `TempReading`: first existing sensor, `/ 1000`, error when it is unparsable or none exists |
| `ThrottleRs.TempFromFirstSensor` | src/main.rs:53-54 | the reported temperature is the first existing sensor's raw value truncated to whole degrees: `1000 t <= raw < 1000 t + 1000` |
| `ThrottleRs.UnreadableSensorFails` | src/main.rs:53 | an unparsable first existing sensor is an error; later candidates are not tried |
| `ThrottleRs.NoSensorIff` | src/main.rs:57-58 | the sensor-unavailable exit happens if and only if no candidate path exists |
| `ThrottleRs.OnlyFirstSensorConsulted` | src/main.rs:51-55 | filesystems agreeing on the first existing sensor and on the absence of earlier ones give the same result, whatever later candidates hold |
| `ThrottleRs.TruncationExample` | src/main.rs:54 | a raw reading of 64999 is reported as 64 |
| `ThrottleRs.FirstOverThirdExample` | src/main.rs:51-55 | when the first and third candidates exist, the third is never read |
| `ThrottleRs.SetFreq` | src/main.rs:61-69 | `set_freq` writes `"freq\n"` to every core in order and stops at the first failing core, as `WriteCaps` states |
| `ThrottleRs.Next` | src/main.rs:104-116 | the loop body's decision with `u64` wrap-around: every actuation changes the cap; otherwise specified by `CoolingStep`, `WarmingStep`, `HoldIff` and `StepPreservesBounds` |
| `ThrottleRs.StartInBounds` | src/main.rs:100 | the initial cap, the maximum, satisfies the cap invariant |
| `ThrottleRs.CoolingStep` | src/main.rs:104-109 | hot and above the minimum, with no underflow: the new cap is `max(cur - STEP_FREQ, min)` and it is actuated |
| `ThrottleRs.WarmingStep` | src/main.rs:110-115 | more than 5 degrees below the target and below the maximum, with no overflow: the new cap is `min(cur + STEP_FREQ, max)` and it is actuated |
| `ThrottleRs.HoldIff` | src/main.rs:104-116 | with a target of at least 5, nothing changes and nothing is written if and only if neither the cooling nor the warming condition holds |
| `ThrottleRs.DeadbandHolds` | src/main.rs:110 | a temperature from target - 5 to target changes nothing, whatever the cap |
| `ThrottleRs.PinnedAtBounds` | src/main.rs:104-110 | a hot reading at the minimum and a cool reading at the maximum change nothing |
| `ThrottleRs.StepPreservesBounds` | src/main.rs:104-116 | one iteration preserves the invariant: within ordered, overflow-free bounds the cap and every actuated value stay in `[min, max]`; with inverted bounds nothing is actuated |
| `ThrottleRs.ClampExample` | src/main.rs:105-108 | bounds 800000..2000000, cap 850000, a hot reading: the new cap is exactly 800000 |
| `ThrottleRs.DeadbandExample` | src/main.rs:104-115 | target 70, cap strictly inside the bounds: 65..70 is exactly the set of readings that change nothing; 71 cools by a step and 64 warms by a step |
| `ThrottleRs.UnderflowEscapesBounds` | src/main.rs:105-108 | as written, minimum 50000 and cap 80000 with a hot reading gives cap 2^64 - 20000, far above the maximum |
| `ThrottleRs.LowTargetAlwaysWarms` | src/main.rs:110 | as written, with a target below 5 the deadband vanishes: every reading that does not cool warms, even a hot one at the minimum |
| `ThrottleRs.Run` | src/main.rs:102-119 | the cap after a finite trace of readings: no contract of its own; specified by `RunInBounds`, `InvertedBoundsFrozen`, `CoolRunAtMax` and `HotRunAtMin` |
| `ThrottleRs.Actuations` | src/main.rs:102-119 | the values passed to `set_freq` in the loop: at most one per reading; their bounds are stated by `RunInBounds` |
| `ThrottleRs.RunInBounds` | src/main.rs:102-119 | over any finite trace of readings the cap invariant holds at the end, and with ordered, overflow-free bounds every value passed to `set_freq` is in `[min, max]` |
| `ThrottleRs.InvertedBoundsFrozen` | src/main.rs:100-116 | with min > max the cap stays at the maximum over any trace and nothing is ever actuated |
| `ThrottleRs.CoolRunAtMax` | src/main.rs:110-115 | at the maximum, any run of cool readings leaves the cap at the maximum with no actuation |
| `ThrottleRs.HotRunAtMin` | src/main.rs:104-109 | at the minimum, any run of hot readings leaves the cap at the minimum with no actuation |
| `ThrottleRs.Governor.constructor` | src/main.rs:100 | the cap starts at the maximum, before any write |
| `ThrottleRs.Governor.Start` | src/main.rs:101 | the maximum is written to every core before any temperature is read; on success every core holds it |
| `ThrottleRs.Governor.React` | src/main.rs:104-116 | the new cap is `Next` of the old one; on a change it is written to all cores with first-failure semantics; on success every core holds the new cap and the invariant is kept |
| `ThrottleRs.Governor.Poll` | src/main.rs:103-116 | a sensor error ends the iteration with no change; otherwise the iteration is `React` on the reading |
| `ThrottleGo.ParseFreqFile` | tct.go:56-67 | `parseFreqFile`: no contract of its own; specified by `FreqFileReadsBack` and `ReadBoundsMissing` |
| `ThrottleGo.ReadBounds` | tct.go:130-132 | `collectMinFreq()` then `collectMaxFreq()`: no contract of its own; specified by `ReadBoundsMissing` and `ReadBoundsFromFiles` |
| `ThrottleGo.CapTextReadsBack` | tct.go:108 | the `"%d\n"` line `setFrequency` writes trims and parses back to the cap |
| `ThrottleGo.FreqFileReadsBack` | tct.go:56-67 | `parseFreqFile` of a file holding a written line gives its value |
| `ThrottleGo.ReadBoundsMissing` | tct.go:130-132 | a missing minimum file is fatal, naming it; with a readable minimum a missing maximum file is fatal, naming that one |
| `ThrottleGo.ReadBoundsFromFiles` | tct.go:86-92 | the bounds are the values written in the two capability files |
| `ThrottleGo.ParseTempFile` | tct.go:69-84 | `parseTempFile`: no contract of its own; specified by `ParseTempFileSpec` |
| `ThrottleGo.CollectedReading` | tct.go:94-103 | the value `collectTemp` computes, in milli-degrees: no contract of its own; specified by `CollectedFromFirstSensor`, `NoSensorIff` and `OnlyFirstSensorConsulted`, and `CollectTemp` is proved equal to it |
| `ThrottleGo.ParseTempFileSpec` | tct.go:69-84 | `parseTempFile` returns an error exactly when the path does not exist; a written line reads back as its value |
| `ThrottleGo.CollectTemp` | tct.go:94-103 | the search loop of `collectTemp` returns exactly `CollectedReading`: first existing sensor, fatal when unparsable or when none exists |
| `ThrottleGo.CollectedFromFirstSensor` | tct.go:95-99 | the reading is the first existing candidate's value, and a fatal error naming it when it does not parse |
| `ThrottleGo.NoSensorIff` | tct.go:101 | the fatal no-sensor exit happens if and only if no candidate exists |
| `ThrottleGo.OnlyFirstSensorConsulted` | tct.go:95-99 | later candidates are never consulted |
| `ThrottleGo.SetFrequency` | tct.go:105-114 | writes `"freq\n"` to cpu 0 .. num_cpus-1 in order and stops at the first failing write, as `WriteCaps` states |
| `ThrottleGo.Next` | tct.go:144-156 | the loop body's decision with `int64` wrap-around: every actuation changes the cap; otherwise specified by `CoolingStep`, `WarmingStep`, `HoldIff` and `StepPreservesBounds` |
| `ThrottleGo.StartInBounds` | tct.go:138 | the initial cap, the maximum, satisfies the cap invariant |
| `ThrottleGo.CoolingStep` | tct.go:144-149 | a hot step gives `max(cur - step, min)` and happens only when the cap is above the minimum |
| `ThrottleGo.WarmingStep` | tct.go:150-155 | a cool step gives `min(cur + step, max)` and happens only when the cap is below the maximum |
| `ThrottleGo.HoldIff` | tct.go:144-156 | nothing changes if and only if neither `hot && cur > min` nor `cool && cur < max` |
| `ThrottleGo.StepPreservesBounds` | tct.go:144-156 | one iteration keeps the cap in `[min, max]` for ordered, overflow-free bounds; with inverted bounds nothing changes and nothing is actuated |
| `ThrottleGo.NegativeIntermediateClamped` | tct.go:145-148 | with minimum 0 and a cap below one step, a hot step gives exactly 0 (the negative intermediate is clamped) |
| `ThrottleGo.OverflowNearInt64Min` | tct.go:145-148 | as written, a minimum at the bottom of the int64 range lets the subtraction wrap to a cap above the maximum |
| `ThrottleGo.Run` | tct.go:142-158 | the cap after a finite trace of signals: no contract of its own; specified by `RunInBounds`, `InvertedBoundsFrozen`, `CoolRunAtMax` and `HotRunAtMin` |
| `ThrottleGo.Actuations` | tct.go:142-158 | the values passed to `setFrequency` in the loop: at most one per poll; their bounds are stated by `RunInBounds` |
| `ThrottleGo.RunInBounds` | tct.go:142-158 | over any finite trace the cap invariant holds and every actuated cap is in bounds |
| `ThrottleGo.InvertedBoundsFrozen` | tct.go:138-156 | with min > max the state never changes and nothing is actuated |
| `ThrottleGo.CoolRunAtMax` | tct.go:150-155 | at the maximum, signals that are never hot leave the cap there with no actuation |
| `ThrottleGo.HotRunAtMin` | tct.go:144-149 | at the minimum, hot signals leave the cap there with no actuation |
| `ThrottleGo.Governor.constructor` | tct.go:138 | `cur_freq` starts at `max_freq` |
| `ThrottleGo.Governor.Start` | tct.go:139 | the maximum is written to every core before the first temperature read |
| `ThrottleGo.Governor.React` | tct.go:144-156 | the new cap is `Next` of the old one; on a change it is written to all cores; on success the invariant is kept |
| `ThrottleGo.Governor.Poll` | tct.go:143-156 | a failed `collectTemp` ends the process with no change; otherwise the iteration is `React` on the two comparisons |

## Left out

- Real file reads, writes and existence checks are replaced by the filesystem map and the cap array. File contents are `string` (no UTF-8 decoding errors), and a write only fails where the fault map says so.
- `Path::exists` (Rust) and `os.Stat` + `IsNotExist` (Go) differ when a path exists but cannot be inspected, for example for lack of permission. The model has no such paths.
- Sysfs.WriteCaps: a write that fails after the file was opened leaves it empty in the model. A partial write of some bytes is not modelled. Nor is a failure to close the file after a complete write, which Go's `ioutil.WriteFile` (tct.go:108) reports: that core then holds the full text and the process still ends through `log.Fatal`. Rust drops the `File` without checking its close.
- ThrottleRs.TempReading: `SensorReadError(path)` names the unparsable sensor. The error Rust returns from `parse_int_file(...)?` at src/main.rs:53 has no context and does not name it. The Go copy does name it (tct.go:80).
- ThrottleRs.Next: models the release-build wrap-around of `u64`. A debug build panics at the same inputs instead, which also ends the process.
- ThrottleGo.Governor.Poll: the comparisons `temp > max_temp` and `temp < max_temp-5.0` are boolean inputs. The floating-point division `float64(temp)/1000` and `ParseFloat` of the target are not modelled.
- ThrottleGo.Next: takes `hot` and `cool` as independent inputs. It does not relate them to a reading, so it also covers NaN and infinite targets.
- Command-line checking and usage messages (src/main.rs:77-90, tct.go:117-126): process-interface plumbing. The Rust target is a `Config` field and the Go target is abstracted into the comparisons.
- Logger initialisation and all log output: side channel with no effect on the state.
- `thread::sleep` / `time.Sleep` and the endless loop: one iteration is a method (`Poll`), and finite traces are the functions `Run` and `Actuations` with their lemmas.
- `num_cpus::get()` / `runtime.NumCPU()`: the core count is the length of the cap array.
- `process::exit`, `log.Fatal` and `?` propagation out of `main` become `Failure` values. After a failure no further call is made, matching the process ending.
- `SLEEP_TIME_MILLI` and Go's `Version`: no behaviour to model.
