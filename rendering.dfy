/**
 * The string `Differ#to_s` builds from the table (differ.rb:54-57): one line
 * per row, `"<n>. "` with the 1-based row number, then the row's entries
 * joined by `;`.
 */
module Rendering {
  import opened Wrappers
  import opened Text
  import opened Entries
  import opened Accumulation

  /** Line `i` of the output: `"#{line_num.succ}. #{str_data}"`. */
  function RenderRow(i: nat, row: Row): string
  {
    NatToString(i + 1) + ". " + Join(seq(|row|, k requires 0 <= k < |row| => RenderEntry(row[k])), ";")
  }

  /** The rendered lines of a table, in row order. */
  function RenderedLines(t: Table): seq<string>
  {
    seq(|t|, i requires 0 <= i < |t| => RenderRow(i, t[i]))
  }

  /** `to_s`'s string: the rendered rows joined by newlines. */
  function Render(t: Table): string
  {
    Join(RenderedLines(t), "\n")
  }

  /** No symbol or text of the table holds a newline. */
  predicate NewlineFree(t: Table)
  {
    forall i, k :: 0 <= i < |t| && 0 <= k < |t[i]| ==>
      (t[i][k].Tagged? ==> '\n' !in t[i][k].symbol && '\n' !in Interpolate(t[i][k].text))
  }

  lemma RowNewlineFree(i: nat, row: Row)
    requires forall k :: 0 <= k < |row| ==>
      (row[k].Tagged? ==> '\n' !in row[k].symbol && '\n' !in Interpolate(row[k].text))
    ensures '\n' !in RenderRow(i, row)
  {
    var rendered := seq(|row|, k requires 0 <= k < |row| => RenderEntry(row[k]));
    forall k | 0 <= k < |row|
      ensures '\n' !in rendered[k]
    {
      RenderEntryFree(row[k], '\n');
    }
    JoinFree(rendered, ";", '\n');
    var number := NatToString(i + 1);
    assert forall k :: 0 <= k < |number| ==> IsDigit(number[k]);
  }

  /**
   * The output has one line per row and nothing else: when no text holds a
   * newline, splitting the string at newlines gives back each row's
   * rendering, in order, and line `i` starts with the number `i + 1`.
   */
  lemma RenderLines(t: Table)
    requires |t| > 0
    requires NewlineFree(t)
    ensures Split(Render(t), '\n') == RenderedLines(t)
    ensures forall i :: 0 <= i < |t| ==>
      var line := RenderedLines(t)[i];
      var number := NatToString(i + 1);
      |number| + 2 <= |line| && line[..|number| + 2] == number + ". " && ParseDecimal(number) == i + 1
  {
    var lines := RenderedLines(t);
    forall i | 0 <= i < |t|
      ensures '\n' !in lines[i] && ParseDecimal(NatToString(i + 1)) == i + 1
    {
      RowNewlineFree(i, t[i]);
      ParseNatToString(i + 1);
    }
    SplitJoin(lines, '\n');
  }

  /** An empty table renders as the empty string. */
  lemma RenderEmpty()
    ensures Render([]) == ""
  {
  }

  /**
   * A worked example: base `a b c` against `a x c`. The match rows carry the
   * leading space of the empty symbol and the change row the `*` marker.
   */
  lemma ChangedMiddleLine()
    ensures Render(Accumulate([[Op("=", Some("a"), Some("a")), Op("!", Some("b"), Some("x")), Op("=", Some("c"), Some("c"))]]))
      == "1.  a\n2. * b|x\n3.  c"
  {
    ChangedMiddleTable();
    ChangedMiddleRendering();
  }

  lemma ChangedMiddleTable()
    ensures Accumulate([[Op("=", Some("a"), Some("a")), Op("!", Some("b"), Some("x")), Op("=", Some("c"), Some("c"))]])
      == [[Tagged("", Some("a"))], [Tagged("*", Some("b|x"))], [Tagged("", Some("c"))]]
  {
    var s := [Op("=", Some("a"), Some("a")), Op("!", Some("b"), Some("x")), Op("=", Some("c"), Some("c"))];
    SingleScript(s);
    assert ProcessDiffLine(s[1]) == Tagged("*", Some("b|x")) by {
      assert Interpolate(Some("b")) + "|" + Interpolate(Some("x")) == "b|x";
    }
  }

  lemma ChangedMiddleRendering()
    ensures Render([[Tagged("", Some("a"))], [Tagged("*", Some("b|x"))], [Tagged("", Some("c"))]]) == "1.  a\n2. * b|x\n3.  c"
  {
    var t := [[Tagged("", Some("a"))], [Tagged("*", Some("b|x"))], [Tagged("", Some("c"))]];
    var lines := ["1.  a", "2. * b|x", "3.  c"];
    SingleEntryLine(0, "a", lines[0]);
    SingleEntryLine(1, "b|x", lines[1]);
    SingleEntryLine(2, "c", lines[2]);
    assert RenderedLines(t) == lines;
    assert Join(lines[2..], "\n") == "3.  c";
    assert Join(lines[1..], "\n") == "2. * b|x" + "\n" + "3.  c";
  }

  /** Rows of the worked example: a match or a change with the given text. */
  lemma SingleEntryLine(i: nat, text: string, line: string)
    requires i < 3
    requires line == (if i == 1 then "2. * " + text else NatToString(i + 1) + ".  " + text)
    ensures RenderRow(i, [Tagged(if i == 1 then "*" else "", Some(text))]) == line
  {
    var e := Tagged(if i == 1 then "*" else "", Some(text));
    SingleEntryRow(i, e);
    var ps := seq(|Parts(e)|, k requires 0 <= k < |Parts(e)| => Interpolate(Parts(e)[k]));
    assert ps == [e.symbol, text];
    assert RenderEntry(e) == e.symbol + " " + text by {
      assert Join(ps[1..], " ") == text;
    }
    if i == 1 {
      assert NatToString(2) == "2";
    }
  }

  /** A row with one entry renders as its number and that entry. */
  lemma SingleEntryRow(i: nat, e: Entry)
    ensures RenderRow(i, [e]) == NatToString(i + 1) + ". " + RenderEntry(e)
  {
    assert seq(1, k requires 0 <= k < 1 => RenderEntry([e][k])) == [RenderEntry(e)];
  }

  /**
   * Base `a` against `a b` and `a`: two rows, the second holding only the
   * first file's insertion; the second file has no entry there.
   */
  lemma ShorterScriptLeavesNoEntry()
    ensures Accumulate([[Op("=", Some("a"), Some("a")), Op("+", None, Some("b"))], [Op("=", Some("a"), Some("a"))]])
      == [[Tagged("", Some("a")), Tagged("", Some("a"))], [Tagged("+", Some("b"))]]
  {
    var s1 := [Op("=", Some("a"), Some("a")), Op("+", None, Some("b"))];
    var s2 := [Op("=", Some("a"), Some("a"))];
    SingleScript(s1);
    assert Accumulate([s1]) == [[Tagged("", Some("a"))], [Tagged("+", Some("b"))]];
    AppendScript([s1], s2);
    assert [s1] + [s2] == [s1, s2];
    var t := Accumulate([s1, s2]);
    assert |t| == 2;
    assert t[0] == [Tagged("", Some("a")), Tagged("", Some("a"))];
    assert t[1] == [Tagged("+", Some("b"))];
  }
}
