/**
 * The state of a `Differ` and what each public operation does to it, as
 * functions: construction (differ.rb:14-23), the memoised base file
 * (differ.rb:20), `get_diff` with its cache (differ.rb:29-45) and `to_s`
 * (differ.rb:51-58). The class in module Differ is proved to follow them.
 */
module Lifecycle {
  import opened Wrappers
  import opened Entries
  import opened Accumulation
  import opened Rendering
  import opened Files

  /** `Diff::LCS.sdiff` as the caller supplies it: the script from one line list to another. */
  type Aligner = (seq<string>, seq<string>) -> Script

  /**
   * The fields of a `Differ`: `@base_filename`, `@files` (the comparison
   * files), `@data` (the memoised base), `@total_diff`, and the log of every
   * file read so far, in order (each read prints "Loading ...").
   */
  datatype State = State(baseFilename: string, files: seq<string>, data: Option<seq<string>>, totalDiff: Table, loads: seq<string>)

  const ArgumentMessage: string := "At least two files should be specified"

  /**
   * `Differ.new(*files)`: at least two names, else an ArgumentError. The
   * first name becomes the base and, because `shift` acts on the very array
   * stored in `@files`, the comparison list is the rest in order. Nothing
   * is read: the base is only loaded on first use.
   */
  function Initialize(names: seq<string>): (r: Result<State, string>)
    ensures r.Ok? <==> |names| > 1
    ensures r.Err? ==> r.error == ArgumentMessage
    ensures r.Ok? ==> [r.value.baseFilename] + r.value.files == names && |r.value.files| > 0
    ensures r.Ok? ==> r.value.loads == [] && r.value.data.None? && r.value.totalDiff == []
  {
    if |names| > 1 then Ok(State(names[0], names[1..], None, [], [])) else Err(ArgumentMessage)
  }

  /** The lambda in `@base_file`: `@data ||= get_file_data(@base_filename)`. */
  function BaseFile(st: State, fs: FileSystem): (Result<seq<string>, LoadError>, State)
  {
    if st.data.Some? then (Ok(st.data.value), st)
    else
      var r := ReadLines(fs, st.baseFilename);
      (r, st.(data := if r.Ok? then Some(r.value) else None, loads := st.loads + [st.baseFilename]))
  }

  /** The base lines `get_diff` compares against: read afresh when forced, else through the memo. */
  function Sample(st: State, fs: FileSystem, forceReload: bool): (Result<seq<string>, LoadError>, State)
  {
    if forceReload then (ReadLines(fs, st.baseFilename), st.(loads := st.loads + [st.baseFilename]))
    else BaseFile(st, fs)
  }

  /** The outcome of the loop over the comparison files: their scripts, up to the first file that fails. */
  datatype Run = Run(scripts: seq<Script>, failure: Option<LoadError>)

  /** How many comparison files the loop tried to read. */
  function Attempted(run: Run): nat
  {
    |run.scripts| + if run.failure.Some? then 1 else 0
  }

  /** Reads each comparison file in order and aligns the base with it; a read failure ends the loop. */
  function Compare(fs: FileSystem, sdiff: Aligner, sample: seq<string>, others: seq<string>): (run: Run)
    ensures Attempted(run) <= |others|
    ensures run.failure.None? ==> |run.scripts| == |others|
  {
    CompareFrom(fs, sdiff, sample, others, 0)
  }

  /** `Compare` for the comparison files from index `k` on. */
  function CompareFrom(fs: FileSystem, sdiff: Aligner, sample: seq<string>, others: seq<string>, k: nat): (run: Run)
    requires k <= |others|
    ensures Attempted(run) <= |others| - k
    ensures run.failure.None? ==> |run.scripts| == |others| - k
    decreases |others| - k
  {
    if k == |others| then Run([], None)
    else
      match ReadLines(fs, others[k])
      case Err(e) => Run([], Some(e))
      case Ok(lines) =>
        var rest := CompareFrom(fs, sdiff, sample, others, k + 1);
        Run([sdiff(sample, lines)] + rest.scripts, rest.failure)
  }

  /** What the outer loop of `get_diff` leaves: the table, the read log, and the failure that ended it, if any. */
  datatype Rebuilt = Rebuilt(table: Table, log: seq<string>, failure: Option<LoadError>)

  /**
   * The outer loop of `get_diff` (differ.rb:35-42) from comparison file `k`
   * on, step by step: read the file (logging it), stop on failure, else
   * fold its script into the table and go on with the next file.
   */
  function RebuildFrom(fs: FileSystem, sdiff: Aligner, sample: seq<string>, others: seq<string>, k: nat,
                       table: Table, log: seq<string>): Rebuilt
    requires k <= |others|
    decreases |others| - k
  {
    if k == |others| then Rebuilt(table, log, None)
    else
      match ReadLines(fs, others[k])
      case Err(e) => Rebuilt(table, log + [others[k]], Some(e))
      case Ok(lines) => RebuildFrom(fs, sdiff, sample, others, k + 1, Fold(table, sdiff(sample, lines)), log + [others[k]])
  }

  /** One readable comparison file: both loops take one step with its script. */
  lemma ReadableStep(fs: FileSystem, sdiff: Aligner, sample: seq<string>, others: seq<string>,
                     k: nat, table: Table, log: seq<string>)
    requires k < |others| && ReadLines(fs, others[k]).Ok?
    ensures var script := sdiff(sample, ReadLines(fs, others[k]).value);
      var next := CompareFrom(fs, sdiff, sample, others, k + 1);
      && CompareFrom(fs, sdiff, sample, others, k) == Run([script] + next.scripts, next.failure)
      && RebuildFrom(fs, sdiff, sample, others, k, table, log)
         == RebuildFrom(fs, sdiff, sample, others, k + 1, Fold(table, script), log + [others[k]])
  {
  }

  /** Logging file `k` and then the next `n` files is logging the `n + 1` files from `k`. */
  lemma LogStep(log: seq<string>, others: seq<string>, k: nat, n: nat)
    requires k + 1 + n <= |others|
    ensures (log + [others[k]]) + others[k + 1..k + 1 + n] == log + others[k..k + 1 + n]
  {
    assert others[k..k + 1 + n] == [others[k]] + others[k + 1..k + 1 + n];
  }

  /**
   * The step-by-step loop computes the table of the scripts that `Compare`
   * collects: having folded `done`, it ends with the table of `done` and the
   * remaining scripts, having read exactly the files it attempted.
   */
  lemma {:induction false} RebuildMatchesCompare(fs: FileSystem, sdiff: Aligner, sample: seq<string>, others: seq<string>,
                                                 k: nat, done: seq<Script>, log: seq<string>)
    requires k <= |others|
    ensures var rest := CompareFrom(fs, sdiff, sample, others, k);
      RebuildFrom(fs, sdiff, sample, others, k, Accumulate(done), log)
        == Rebuilt(Accumulate(done + rest.scripts), log + others[k..k + Attempted(rest)], rest.failure)
    decreases |others| - k
  {
    var rest := CompareFrom(fs, sdiff, sample, others, k);
    if k == |others| {
      assert done + rest.scripts == done;
      assert others[k..k] == [];
    } else if ReadLines(fs, others[k]).Err? {
      assert done + rest.scripts == done;
      assert others[k..k + 1] == [others[k]];
    } else {
      var script := sdiff(sample, ReadLines(fs, others[k]).value);
      var next := CompareFrom(fs, sdiff, sample, others, k + 1);
      ReadableStep(fs, sdiff, sample, others, k, Accumulate(done), log);
      AccumulateSnoc(done, script);
      RebuildMatchesCompare(fs, sdiff, sample, others, k + 1, done + [script], log + [others[k]]);
      assert (done + [script]) + next.scripts == done + rest.scripts;
      LogStep(log, others, k, Attempted(next));
    }
  }

  /**
   * `get_diff(force_reload: ...)`: the new state and the result. A stored
   * non-empty table is returned as is unless forced. Otherwise the base is
   * read (the memo is used and filled only when not forced), `@total_diff`
   * is reset and rebuilt file by file; a failing read raises, leaving the
   * rows of the files processed before it.
   */
  function GetDiff(st: State, fs: FileSystem, sdiff: Aligner, forceReload: bool): (State, Result<Table, LoadError>)
  {
    if |st.totalDiff| > 0 && !forceReload then (st, Ok(st.totalDiff))
    else
      var sampled := Sample(st, fs, forceReload);
      var st1 := sampled.1;
      if sampled.0.Err? then (st1, Err(sampled.0.error))
      else
        var run := Compare(fs, sdiff, sampled.0.value, st.files);
        var st2 := st1.(totalDiff := Accumulate(run.scripts), loads := st1.loads + st.files[..Attempted(run)]);
        (st2, if run.failure.Some? then Err(run.failure.value) else Ok(st2.totalDiff))
  }

  /**
   * When `get_diff` does recompute and the base is read, its outcome is
   * that of the step-by-step loop started on an empty table.
   */
  lemma GetDiffRebuilds(st: State, fs: FileSystem, sdiff: Aligner, forceReload: bool)
    requires forceReload || |st.totalDiff| == 0
    requires Sample(st, fs, forceReload).0.Ok?
    ensures var sampled := Sample(st, fs, forceReload);
      var out := RebuildFrom(fs, sdiff, sampled.0.value, st.files, 0, [], sampled.1.loads);
      GetDiff(st, fs, sdiff, forceReload)
        == (sampled.1.(totalDiff := out.table, loads := out.log),
            if out.failure.Some? then Err(out.failure.value) else Ok(out.table))
  {
    var sampled := Sample(st, fs, forceReload);
    RebuildMatchesCompare(fs, sdiff, sampled.0.value, st.files, 0, [], sampled.1.loads);
    var run := Compare(fs, sdiff, sampled.0.value, st.files);
    assert [] + run.scripts == run.scripts;
    assert st.files[0..Attempted(run)] == st.files[..Attempted(run)];
  }

  /** `to_s(force_reload: ...)`: recompute only when forced or when the table is empty, then render it. */
  function ToS(st: State, fs: FileSystem, sdiff: Aligner, forceReload: bool): (State, Result<string, LoadError>)
  {
    if forceReload || |st.totalDiff| == 0 then
      var (st2, r) := GetDiff(st, fs, sdiff, forceReload);
      (st2, if r.Err? then Err(r.error) else Ok(Render(st2.totalDiff)))
    else (st, Ok(Render(st.totalDiff)))
  }

  // -----------------------------------------------------------------------
  // Properties of the state machine
  // -----------------------------------------------------------------------

  /**
   * A stored non-empty table is returned unchanged without a forced reload:
   * no file is read, nothing changes, whatever the file system now holds.
   */
  lemma CachedTableReturned(st: State, fs: FileSystem, sdiff: Aligner)
    requires |st.totalDiff| > 0
    ensures GetDiff(st, fs, sdiff, false) == (st, Ok(st.totalDiff))
    ensures ToS(st, fs, sdiff, false) == (st, Ok(Render(st.totalDiff)))
  {
  }

  /** An empty table is always recomputed: at least one file is read. */
  lemma EmptyTableRecomputed(st: State, fs: FileSystem, sdiff: Aligner, forceReload: bool)
    requires |st.files| > 0 && st.totalDiff == []
    ensures |GetDiff(st, fs, sdiff, forceReload).0.loads| > |st.loads|
  {
    var sampled := Sample(st, fs, forceReload);
    if sampled.0.Ok? {
      var run := Compare(fs, sdiff, sampled.0.value, st.files);
      assert Attempted(run) > 0;
    }
  }

  /** When every comparison file can be read, the loop aligns each of them, in order. */
  lemma {:induction false} CompareAllReadable(fs: FileSystem, sdiff: Aligner, sample: seq<string>, others: seq<string>, k: nat)
    requires k <= |others|
    requires forall j :: k <= j < |others| ==> ReadLines(fs, others[j]).Ok?
    ensures CompareFrom(fs, sdiff, sample, others, k) ==
      Run(seq(|others| - k, j requires 0 <= j < |others| - k => sdiff(sample, ReadLines(fs, others[k + j]).value)), None)
    decreases |others| - k
  {
    if k < |others| {
      CompareAllReadable(fs, sdiff, sample, others, k + 1);
    }
  }

  /**
   * A forced reload reflects what the files hold now: when all of them can
   * be read, the table is that of the fresh scripts, the base and then every
   * comparison file are read once each, and the memo `@data` is left as it
   * was (a forced read does not refresh it).
   */
  lemma ForcedReloadReadsAfresh(st: State, fs: FileSystem, sdiff: Aligner)
    requires ReadLines(fs, st.baseFilename).Ok?
    requires forall k :: 0 <= k < |st.files| ==> ReadLines(fs, st.files[k]).Ok?
    ensures var base := ReadLines(fs, st.baseFilename).value;
      var scripts := seq(|st.files|, k requires 0 <= k < |st.files| => sdiff(base, ReadLines(fs, st.files[k]).value));
      GetDiff(st, fs, sdiff, true) ==
        (st.(totalDiff := Accumulate(scripts), loads := st.loads + [st.baseFilename] + st.files), Ok(Accumulate(scripts)))
  {
    var base := ReadLines(fs, st.baseFilename).value;
    var scripts := seq(|st.files|, k requires 0 <= k < |st.files| => sdiff(base, ReadLines(fs, st.files[k]).value));
    CompareAllReadable(fs, sdiff, base, st.files, 0);
    assert Compare(fs, sdiff, base, st.files) == Run(scripts, None);
    assert st.files[..|st.files|] == st.files;
  }

  /**
   * Once the base is memoised, an unforced recompute compares against the
   * memo even if the base file has changed, and does not read it again.
   */
  lemma MemoisedBaseReused(st: State, fs: FileSystem, sdiff: Aligner)
    requires st.data.Some? && st.totalDiff == []
    ensures var run := Compare(fs, sdiff, st.data.value, st.files);
      GetDiff(st, fs, sdiff, false).0 == st.(totalDiff := Accumulate(run.scripts), loads := st.loads + st.files[..Attempted(run)])
  {
  }

  /** The first unforced recompute that reads the base stores it in the memo; a forced one never touches the memo. */
  lemma MemoFilledOnlyUnforced(st: State, fs: FileSystem, sdiff: Aligner)
    requires st.data.None? && st.totalDiff == []
    ensures ReadLines(fs, st.baseFilename).Ok? ==>
      GetDiff(st, fs, sdiff, false).0.data == Some(ReadLines(fs, st.baseFilename).value)
    ensures GetDiff(st, fs, sdiff, true).0.data.None?
  {
  }

  /** An unreadable base raises before `@total_diff` is reset: the stored table survives. */
  lemma BaseFailureKeepsTable(st: State, fs: FileSystem, sdiff: Aligner, forceReload: bool)
    requires ReadLines(fs, st.baseFilename).Err?
    requires |st.totalDiff| == 0 || forceReload
    requires st.data.None? || forceReload
    ensures GetDiff(st, fs, sdiff, forceReload).1 == Err(ReadLines(fs, st.baseFilename).error)
    ensures GetDiff(st, fs, sdiff, forceReload).0.totalDiff == st.totalDiff
    ensures GetDiff(st, fs, sdiff, forceReload).0.data == st.data
  {
  }

  /**
   * A comparison file that cannot be read raises after `@total_diff` was
   * reset, leaving the rows of the files before it; when at least one row
   * was built, an unforced call that follows returns those rows as if they
   * were the whole table.
   */
  lemma PartialTableAfterFailure(st: State, fs: FileSystem, fs2: FileSystem, sdiff: Aligner, forceReload: bool, k: nat)
    requires |st.totalDiff| == 0 || forceReload
    requires Sample(st, fs, forceReload).0.Ok?
    requires k < |st.files| && ReadLines(fs, st.files[k]).Err?
    requires forall j :: 0 <= j < k ==> ReadLines(fs, st.files[j]).Ok?
    ensures var base := Sample(st, fs, forceReload).0.value;
      var partial := Accumulate(seq(k, j requires 0 <= j < k => sdiff(base, ReadLines(fs, st.files[j]).value)));
      var after := GetDiff(st, fs, sdiff, forceReload);
      after.1 == Err(ReadLines(fs, st.files[k]).error) && after.0.totalDiff == partial &&
      (|partial| > 0 ==> GetDiff(after.0, fs2, sdiff, false) == (after.0, Ok(partial)))
  {
    var base := Sample(st, fs, forceReload).0.value;
    var scripts := seq(k, j requires 0 <= j < k => sdiff(base, ReadLines(fs, st.files[j]).value));
    CompareStopsAt(fs, sdiff, base, st.files, 0, k);
    assert Compare(fs, sdiff, base, st.files) == Run(scripts, Some(ReadLines(fs, st.files[k]).error));
  }

  /** The loop stops at the first file that cannot be read, having aligned every file before it. */
  lemma {:induction false} CompareStopsAt(fs: FileSystem, sdiff: Aligner, sample: seq<string>, others: seq<string>, k: nat, stop: nat)
    requires k <= stop < |others| && ReadLines(fs, others[stop]).Err?
    requires forall j :: k <= j < stop ==> ReadLines(fs, others[j]).Ok?
    ensures CompareFrom(fs, sdiff, sample, others, k) ==
      Run(seq(stop - k, j requires 0 <= j < stop - k => sdiff(sample, ReadLines(fs, others[k + j]).value)),
          Some(ReadLines(fs, others[stop]).error))
    decreases stop - k
  {
    if k < stop {
      CompareStopsAt(fs, sdiff, sample, others, k + 1, stop);
    }
  }

  /**
   * `to_s` leaves the same state as `get_diff` and renders the table it
   * yields: its own guard calls `get_diff` exactly when `get_diff` would
   * recompute.
   */
  lemma ToSRendersGetDiff(st: State, fs: FileSystem, sdiff: Aligner, forceReload: bool)
    ensures ToS(st, fs, sdiff, forceReload).0 == GetDiff(st, fs, sdiff, forceReload).0
    ensures GetDiff(st, fs, sdiff, forceReload).1.Err? ==>
      ToS(st, fs, sdiff, forceReload).1 == Err(GetDiff(st, fs, sdiff, forceReload).1.error)
    ensures GetDiff(st, fs, sdiff, forceReload).1.Ok? ==>
      ToS(st, fs, sdiff, forceReload).1 == Ok(Render(GetDiff(st, fs, sdiff, forceReload).1.value))
  {
  }
}
