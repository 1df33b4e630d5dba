/**
 * The `Differ` object of differ.rb: its fields are updated in place by
 * construction, by the memoised base read and by `get_diff`'s nested loops.
 * Each method is proved to leave exactly the state, and return exactly the
 * result, that module Lifecycle prescribes.
 */
module Differ {
  import opened Wrappers
  import opened Entries
  import opened Accumulation
  import opened Files
  import opened Rendering
  import opened Lifecycle

  class Differ {
    var baseFilename: string
    /** `@files`: after the `shift`, the comparison files only. */
    var files: seq<string>
    /** `@data`: the base file's lines once the memoising lambda has read them. */
    var data: Option<seq<string>>
    /** `@total_diff`. */
    var totalDiff: Table
    /** Every file name read so far, in order: what the "Loading ..." lines show. */
    ghost var loads: seq<string>

    ghost function Abstract(): State
      reads this
    {
      State(baseFilename, files, data, totalDiff, loads)
    }

    /** There is always at least one comparison file. */
    ghost predicate Valid()
      reads this
    {
      |files| > 0
    }

    /** The body of `initialize` once its argument check has passed. */
    constructor (names: seq<string>)
      requires |names| > 1
      ensures Valid() && Abstract() == Initialize(names).value
    {
      // `@files = files` keeps the argument array itself, so the `shift`
      // that takes out the base also takes it out of `@files`.
      var args := names;
      baseFilename := args[0];
      args := args[1..];
      files := args;
      data := None;
      totalDiff := [];
      loads := [];
    }

    /** `get_file_data`: logs the read and returns the stripped lines or the wrapped failure. */
    method GetFileData(fs: FileSystem, name: string) returns (r: Result<seq<string>, LoadError>)
      modifies this`loads
      ensures loads == old(loads) + [name]
      ensures r == ReadLines(fs, name)
    {
      loads := loads + [name];
      r := ReadLines(fs, name);
    }

    /** Calling the `@base_file` lambda: `@data ||= get_file_data(@base_filename)`. */
    method BaseFile(fs: FileSystem) returns (r: Result<seq<string>, LoadError>)
      modifies this`data, this`loads
      ensures (r, Abstract()) == Lifecycle.BaseFile(old(Abstract()), fs)
    {
      if data.Some? {
        r := Ok(data.value);
      } else {
        r := GetFileData(fs, baseFilename);
        if r.Ok? {
          data := Some(r.value);
        }
      }
    }

    /**
     * `get_diff`: return the stored table unless it is empty or a reload is
     * forced; otherwise reset it and, file by file, append each change of
     * that file's script to the row of its index, creating the row first
     * when it does not exist yet.
     */
    method GetDiff(fs: FileSystem, sdiff: Aligner, forceReload: bool) returns (r: Result<Table, LoadError>)
      requires Valid()
      modifies this`data, this`loads, this`totalDiff
      ensures Valid()
      ensures (Abstract(), r) == Lifecycle.GetDiff(old(Abstract()), fs, sdiff, forceReload)
      ensures |old(totalDiff)| == 0 ==> |loads| > |old(loads)|
    {
      if |totalDiff| > 0 && !forceReload {
        return Ok(totalDiff);
      }
      ghost var st0 := Abstract();
      if |totalDiff| == 0 {
        EmptyTableRecomputed(st0, fs, sdiff, forceReload);
      }
      var sample;
      if forceReload {
        sample := GetFileData(fs, baseFilename);
      } else {
        sample := BaseFile(fs);
      }
      ghost var st1 := Abstract();
      assert (sample, st1) == Sample(st0, fs, forceReload);
      if sample.Err? {
        return Err(sample.error);
      }
      r := Rebuild(fs, sdiff, sample.value);
      GetDiffRebuilds(st0, fs, sdiff, forceReload);
    }

    /**
     * The rebuilding part of `get_diff` (differ.rb:34-44): reset the table,
     * then read each comparison file in order and fold its script into the
     * rows; a failing read raises and leaves the rows built so far.
     */
    method Rebuild(fs: FileSystem, sdiff: Aligner, sample: seq<string>) returns (r: Result<Table, LoadError>)
      modifies this`loads, this`totalDiff
      ensures var out := RebuildFrom(fs, sdiff, sample, files, 0, [], old(loads));
        && totalDiff == out.table
        && loads == out.log
        && r == if out.failure.Some? then Err(out.failure.value) else Ok(totalDiff)
    {
      totalDiff := [];
      var k := 0;
      while k < |files|
        invariant 0 <= k <= |files|
        invariant RebuildFrom(fs, sdiff, sample, files, k, totalDiff, loads)
               == RebuildFrom(fs, sdiff, sample, files, 0, [], old(loads))
      {
        var other := GetFileData(fs, files[k]);
        if other.Err? {
          return Err(other.error);
        }
        var script := sdiff(sample, other.value);
        FoldScript(script);
        k := k + 1;
      }
      return Ok(totalDiff);
    }

    /**
     * The inner loop of `get_diff` (differ.rb:38-41): append the `i`-th
     * change of one script to row `i`, creating the row first when it does
     * not exist yet.
     */
    method FoldScript(script: Script)
      modifies this`totalDiff
      ensures totalDiff == Fold(old(totalDiff), script)
    {
      var j := 0;
      while j < |script|
        invariant 0 <= j <= |script|
        invariant |totalDiff| == Max(|old(totalDiff)|, j)
        invariant forall i :: 0 <= i < |totalDiff| ==>
          totalDiff[i] == (if i < |old(totalDiff)| then old(totalDiff)[i] else [])
                          + (if i < j then [ProcessDiffLine(script[i])] else [])
      {
        var entry := ProcessDiffLine(script[j]);
        if j < |totalDiff| {
          // `@total_diff[line_num] << ...` on an existing row
          totalDiff := totalDiff[j := totalDiff[j] + [entry]];
        } else {
          // `@total_diff[line_num] ||= []` creates the next row
          totalDiff := totalDiff + [[entry]];
        }
        j := j + 1;
      }
    }

    /** `to_s`: recompute when forced or when the table is empty, then render the stored table. */
    method ToS(fs: FileSystem, sdiff: Aligner, forceReload: bool) returns (r: Result<string, LoadError>)
      requires Valid()
      modifies this`data, this`loads, this`totalDiff
      ensures Valid()
      ensures (Abstract(), r) == Lifecycle.ToS(old(Abstract()), fs, sdiff, forceReload)
    {
      if forceReload || |totalDiff| == 0 {
        var d := GetDiff(fs, sdiff, forceReload);
        if d.Err? {
          return Err(d.error);
        }
      }
      r := Ok(Render(totalDiff));
    }
  }

  /** `Differ.new(*files)`: an ArgumentError for fewer than two names, raised before anything is read. */
  method New(names: seq<string>) returns (r: Result<Differ, string>)
    ensures r.Ok? <==> |names| > 1
    ensures r.Err? ==> r.error == ArgumentMessage
    ensures r.Ok? ==> fresh(r.value) && r.value.Valid() && r.value.Abstract() == Initialize(names).value
  {
    if |names| > 1 {
      var d := new Differ(names);
      r := Ok(d);
    } else {
      r := Err(ArgumentMessage);
    }
  }
}
