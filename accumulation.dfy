/**
 * The table `Differ#get_diff` builds (differ.rb:34-42): the edit script of
 * each comparison file, walked by index, folded into row `i` in file order.
 * This module gives the table as a function of the scripts and proves its
 * shape; the class in module Differ builds it with the source's loops.
 */
module Accumulation {
  import opened Wrappers
  import opened Entries

  /** The output of `Diff::LCS.sdiff` for one comparison file. */
  type Script = seq<Op>
  /** One row of `@total_diff`. */
  type Row = seq<Entry>
  /** `@total_diff`: a jagged array of rows. */
  type Table = seq<Row>

  function Max(a: nat, b: nat): nat
  {
    if a < b then b else a
  }

  /** The length of the longest script, 0 when there is none or all are empty. */
  function MaxLen(scripts: seq<Script>): (m: nat)
    ensures forall k :: 0 <= k < |scripts| ==> |scripts[k]| <= m
    ensures m == 0 || exists k :: 0 <= k < |scripts| && |scripts[k]| == m
  {
    if scripts == [] then 0
    else Max(MaxLen(scripts[..|scripts| - 1]), |scripts[|scripts| - 1]|)
  }

  /** Row `i` as the loops leave it: each script in turn appends its `i`-th change, if it has one. */
  function Column(scripts: seq<Script>, i: nat): Row
  {
    if scripts == [] then []
    else
      var last := scripts[|scripts| - 1];
      Column(scripts[..|scripts| - 1], i) + (if i < |last| then [ProcessDiffLine(last[i])] else [])
  }

  /** The indices of the scripts longer than `i`, in increasing order. */
  function Longer(scripts: seq<Script>, i: nat): (ks: seq<nat>)
    ensures forall a, b :: 0 <= a < b < |ks| ==> ks[a] < ks[b]
    ensures forall a :: 0 <= a < |ks| ==> ks[a] < |scripts| && i < |scripts[ks[a]]|
    ensures forall j :: 0 <= j < |scripts| && i < |scripts[j]| ==> j in ks
  {
    if scripts == [] then []
    else Longer(scripts[..|scripts| - 1], i) + (if i < |scripts[|scripts| - 1]| then [|scripts| - 1] else [])
  }

  /**
   * One pass of the inner loop of `get_diff` (differ.rb:38-41): the `i`-th
   * change of script `s` is appended to row `i`, the row being created
   * first when the table is not that long yet.
   */
  function Fold(t: Table, s: Script): Table
  {
    seq(Max(|t|, |s|), i requires 0 <= i < Max(|t|, |s|) =>
      (if i < |t| then t[i] else []) + (if i < |s| then [ProcessDiffLine(s[i])] else []))
  }

  /** The table after the outer loop has folded in every script, in order. */
  function Accumulate(scripts: seq<Script>): Table
  {
    if scripts == [] then []
    else Fold(Accumulate(scripts[..|scripts| - 1]), scripts[|scripts| - 1])
  }

  /** Folding in one more script is one more pass of the loop. */
  lemma AccumulateSnoc(scripts: seq<Script>, s: Script)
    ensures Accumulate(scripts + [s]) == Fold(Accumulate(scripts), s)
  {
    assert (scripts + [s])[..|scripts|] == scripts;
  }

  /**
   * The fold and the column-wise reading agree: the table has one row per
   * position up to the longest script, and row `i` is `Column(scripts, i)`.
   */
  lemma {:induction false} AccumulateByColumns(scripts: seq<Script>)
    ensures |Accumulate(scripts)| == MaxLen(scripts)
    ensures forall i :: 0 <= i < |Accumulate(scripts)| ==> Accumulate(scripts)[i] == Column(scripts, i)
  {
    if scripts != [] {
      var init := scripts[..|scripts| - 1];
      AccumulateByColumns(init);
      forall i | 0 <= i < |Accumulate(scripts)|
        ensures Accumulate(scripts)[i] == Column(scripts, i)
      {
        if MaxLen(init) <= i {
          ColumnBeyond(init, i);
        }
      }
    }
  }

  /**
   * Row `i` holds exactly one entry per script longer than `i`, in script
   * order, and that entry is the classified `i`-th change of that script;
   * entries are packed, not aligned to a per-file slot.
   */
  lemma {:induction false} ColumnExact(scripts: seq<Script>, i: nat)
    ensures |Column(scripts, i)| == |Longer(scripts, i)|
    ensures forall a :: 0 <= a < |Column(scripts, i)| ==>
      Column(scripts, i)[a] == ProcessDiffLine(scripts[Longer(scripts, i)[a]][i])
  {
    if scripts != [] {
      var init := scripts[..|scripts| - 1];
      ColumnExact(init, i);
      forall a | 0 <= a < |Column(scripts, i)|
        ensures Column(scripts, i)[a] == ProcessDiffLine(scripts[Longer(scripts, i)[a]][i])
      {
        if a < |Column(init, i)| {
          assert Longer(scripts, i)[a] == Longer(init, i)[a];
          assert scripts[Longer(init, i)[a]] == init[Longer(init, i)[a]];
        }
      }
    }
  }

  /** Past the longest script no script contributes anything. */
  lemma {:induction false} ColumnBeyond(scripts: seq<Script>, i: nat)
    requires MaxLen(scripts) <= i
    ensures Column(scripts, i) == []
  {
    if scripts != [] {
      ColumnBeyond(scripts[..|scripts| - 1], i);
    }
  }

  /**
   * The table is as long as the longest script, and no row is missing or
   * empty: every row below that length has at least one entry.
   */
  lemma TableShape(scripts: seq<Script>)
    ensures |Accumulate(scripts)| == MaxLen(scripts)
    ensures forall i :: 0 <= i < |Accumulate(scripts)| ==> |Accumulate(scripts)[i]| > 0
  {
    AccumulateByColumns(scripts);
    forall i | 0 <= i < MaxLen(scripts)
      ensures |Accumulate(scripts)[i]| > 0
    {
      var k :| 0 <= k < |scripts| && |scripts[k]| == MaxLen(scripts);
      assert k in Longer(scripts, i);
      ColumnExact(scripts, i);
    }
  }

  /**
   * Processing one more file only appends: the table grows to the longer of
   * the two lengths, and row `i` keeps every entry already placed and gains
   * the new file's `i`-th change at its end, if the file has one, and
   * nothing else.
   */
  lemma AppendScript(scripts: seq<Script>, s: Script)
    ensures |Accumulate(scripts + [s])| == Max(|Accumulate(scripts)|, |s|)
    ensures forall i :: 0 <= i < |Accumulate(scripts)| ==>
      Accumulate(scripts + [s])[i][..|Accumulate(scripts)[i]|] == Accumulate(scripts)[i]
    ensures forall i :: 0 <= i < |s| ==>
      Accumulate(scripts + [s])[i][|Accumulate(scripts + [s])[i]| - 1] == ProcessDiffLine(s[i])
    ensures forall i :: 0 <= i < |Accumulate(scripts + [s])| ==>
      |Accumulate(scripts + [s])[i]| == (if i < |Accumulate(scripts)| then |Accumulate(scripts)[i]| else 0) + (if i < |s| then 1 else 0)
  {
    AccumulateSnoc(scripts, s);
  }

  /** A single script gives one single-entry row per change. */
  lemma SingleScript(s: Script)
    ensures Accumulate([s]) == seq(|s|, i requires 0 <= i < |s| => [ProcessDiffLine(s[i])])
  {
    assert [s][..0] == [];
    assert Accumulate([s]) == Fold([], s);
    var t := Accumulate([s]);
    assert |t| == |s|;
    forall i | 0 <= i < |s|
      ensures t[i] == [ProcessDiffLine(s[i])]
    {
    }
  }

  /**
   * Comparing the base with an identical file: `sdiff` then matches every
   * line, and the table holds one row per line with a single match entry.
   */
  lemma SelfComparison(lines: seq<string>, s: Script)
    requires |s| == |lines|
    requires forall i :: 0 <= i < |s| ==> s[i] == Op("=", Some(lines[i]), Some(lines[i]))
    ensures Accumulate([s]) == seq(|lines|, i requires 0 <= i < |lines| => [Tagged("", Some(lines[i]))])
  {
    SingleScript(s);
  }

  /** The old side of a script: the base lines it consumes, in order. */
  function OldSide(s: Script): seq<string>
  {
    if s == [] then []
    else (if s[0].oldLine.Some? then [s[0].oldLine.value] else []) + OldSide(s[1..])
  }

  /** The new side of a script: the comparison-file lines it consumes, in order. */
  function NewSide(s: Script): seq<string>
  {
    if s == [] then []
    else (if s[0].newLine.Some? then [s[0].newLine.value] else []) + NewSide(s[1..])
  }

  lemma {:induction false} SidesBounded(s: Script)
    ensures |OldSide(s)| <= |s| && |NewSide(s)| <= |s|
  {
    if s != [] {
      SidesBounded(s[1..]);
    }
  }

  /**
   * When each script reconstructs the base on its old side and its file on
   * its new side (what `sdiff` promises), the table has at least as many rows
   * as the base has lines and as any comparison file has lines.
   */
  lemma TableCoversInputs(scripts: seq<Script>, base: seq<string>, others: seq<seq<string>>)
    requires |scripts| == |others| > 0
    requires forall k :: 0 <= k < |scripts| ==> OldSide(scripts[k]) == base && NewSide(scripts[k]) == others[k]
    ensures |Accumulate(scripts)| >= |base|
    ensures forall k :: 0 <= k < |others| ==> |Accumulate(scripts)| >= |others[k]|
  {
    AccumulateByColumns(scripts);
    forall k | 0 <= k < |scripts|
      ensures |Accumulate(scripts)| >= |base| && |Accumulate(scripts)| >= |others[k]|
    {
      SidesBounded(scripts[k]);
    }
    SidesBounded(scripts[0]);
  }
}
