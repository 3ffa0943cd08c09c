/** The sysfs files the governor reads and writes, as values: a snapshot of the
    filesystem maps each existing path to its text, and the per-core
    `scaling_max_freq` files are the cells of an array. Both copies share this
    layer: the nine candidate sensor paths, the first-existing search over them
    and the core-by-core write loop that stops at the first failure. */
module Sysfs {
  import opened Wrappers

  type Path = string

  /** A snapshot of the filesystem: a path is present exactly when it exists. */
  type FileSystem = map<Path, string>

  /** Candidate temperature sensors, in preference order: thermal zones first,
      then hwmon sensors, then hwmon device sensors. */
  const TempCandidates: seq<Path> := [
    "/sys/class/thermal/thermal_zone0/temp",
    "/sys/class/thermal/thermal_zone1/temp",
    "/sys/class/thermal/thermal_zone2/temp",
    "/sys/class/hwmon/hwmon0/temp1_input",
    "/sys/class/hwmon/hwmon1/temp1_input",
    "/sys/class/hwmon/hwmon2/temp1_input",
    "/sys/class/hwmon/hwmon0/device/temp1_input",
    "/sys/class/hwmon/hwmon1/device/temp1_input",
    "/sys/class/hwmon/hwmon2/device/temp1_input"
  ]

  /** `i` is the position of the first path of `paths` that exists in `fs`. */
  ghost predicate IsFirstExisting(paths: seq<Path>, fs: FileSystem, i: nat) {
    i < |paths| && paths[i] in fs && forall j :: 0 <= j < i ==> paths[j] !in fs
  }

  /** The index of the first existing path, or None when none exists. */
  function FirstExisting(paths: seq<Path>, fs: FileSystem): (r: Option<nat>)
    ensures r.Some? ==> IsFirstExisting(paths, fs, r.value)
    ensures r.None? ==> forall j :: 0 <= j < |paths| ==> paths[j] !in fs
  {
    if paths == [] then None
    else if paths[0] in fs then Some(0)
    else
      match FirstExisting(paths[1..], fs)
      case None => None
      case Some(i) => Some(i + 1)
  }

  /** The search has one answer: any first existing position is the one it finds. */
  lemma FirstExistingUnique(paths: seq<Path>, fs: FileSystem, i: nat)
    requires IsFirstExisting(paths, fs, i)
    ensures FirstExisting(paths, fs) == Some(i)
  {
  }

  /** Why no temperature could be produced. Both are fatal in the source. */
  datatype SensorError =
    | SensorUnavailable         // no candidate path exists
    | SensorReadError(path: Path) // the first existing one does not hold a number

  /** How a core's cap write fails: the file cannot be opened for writing (it is
      left as it was), or it is opened, and so truncated, but the write fails. */
  datatype WriteFault = CreateFails | WriteFails

  /** The first core in `k..n` whose write fails. */
  function FirstFault(faults: map<nat, WriteFault>, k: nat, n: nat): (r: Option<nat>)
    ensures r.Some? ==> k <= r.value < n && r.value in faults
                        && forall j :: k <= j < r.value ==> j !in faults
    ensures r.None? ==> forall j :: k <= j < n ==> j !in faults
    decreases n - k
  {
    if k >= n then None
    else if k in faults then Some(k)
    else FirstFault(faults, k + 1, n)
  }

  /** `after` is what writing `text` to every core of `before`, in core order,
      leaves behind when the cores in `faults` fail: every core before the first
      failing one holds `text`, the failing one is untouched or truncated, and
      the cores after it are untouched. */
  ghost predicate FannedOut(before: seq<string>, after: seq<string>, text: string,
                            faults: map<nat, WriteFault>)
  {
    |after| == |before| &&
    match FirstFault(faults, 0, |before|)
    case None => forall c :: 0 <= c < |after| ==> after[c] == text
    case Some(k) =>
      && (forall c :: 0 <= c < k ==> after[c] == text)
      && after[k] == (if faults[k] == WriteFails then "" else before[k])
      && (forall c :: k < c < |after| ==> after[c] == before[c])
  }

  /** The per-core write loop: writes `text` to core 0, 1, ... and returns the
      index of the first core whose write fails. */
  method WriteCaps(caps: array<string>, text: string, faults: map<nat, WriteFault>)
    returns (r: Result<(), nat>)
    modifies caps
    ensures FannedOut(old(caps[..]), caps[..], text, faults)
    ensures r.Success? <==> FirstFault(faults, 0, caps.Length).None?
    ensures r.Failure? ==> FirstFault(faults, 0, caps.Length) == Some(r.error)
  {
    var c := 0;
    while c < caps.Length
      invariant 0 <= c <= caps.Length
      invariant forall j :: 0 <= j < c ==> j !in faults
      invariant forall j :: 0 <= j < c ==> caps[j] == text
      invariant forall j :: c <= j < caps.Length ==> caps[j] == old(caps[j])
    {
      if c in faults {
        if faults[c] == WriteFails {
          caps[c] := "";
        }
        assert FirstFault(faults, c, caps.Length) == Some(c);
        return Failure(c);
      }
      caps[c] := text;
      c := c + 1;
    }
    return Success(());
  }
}
