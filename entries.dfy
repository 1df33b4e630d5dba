/**
 * One step of an edit script and the row entry `Differ#process_diff_line`
 * turns it into (differ.rb:76-87).
 */
module Entries {
  import opened Wrappers
  import opened Text

  /**
   * One change of `Diff::LCS.sdiff`, read as `[action, [old_pos, old], [new_pos, new]]`;
   * the positions are never looked at, so only the elements are kept.
   */
  datatype Op = Op(action: string, oldLine: Option<string>, newLine: Option<string>)

  /**
   * A row entry: the Ruby array `[symbol, text]` (text may be nil), or the
   * one-element array that stands for an action the classifier does not know.
   */
  datatype Entry = Tagged(symbol: string, text: Option<string>) | Placeholder

  const PlaceholderText: string := "? possible diff-lcs bug ?"

  /** The four actions `sdiff` emits: match, change, delete, insert. */
  predicate KnownAction(action: string)
  {
    action == "=" || action == "!" || action == "-" || action == "+"
  }

  /** `"#{x}"`: interpolating nil gives the empty string. */
  function Interpolate(x: Option<string>): string
  {
    x.GetOr("")
  }

  /** `process_diff_line`: a total case analysis on the action. */
  function ProcessDiffLine(op: Op): (e: Entry)
    ensures e.Placeholder? <==> !KnownAction(op.action)
    ensures e.Tagged? ==> e.symbol in {"", "*", "-", "+"}
  {
    if op.action == "!" then Tagged("*", Some(Interpolate(op.oldLine) + "|" + Interpolate(op.newLine)))
    else if op.action == "-" || op.action == "+" then
      // `line1.last || line2.last`: only nil falls through, an empty string does not
      Tagged(op.action, if op.oldLine.Some? then op.oldLine else op.newLine)
    else if op.action == "=" then Tagged("", op.oldLine)
    else Placeholder
  }

  /**
   * The shape of every change `sdiff` produces: a match carries the same line
   * on both sides, a change two different lines, a delete only the old line
   * and an insert only the new one.
   */
  predicate IsSdiffChange(op: Op)
  {
    match op.action
    case "=" => op.oldLine.Some? && op.newLine == op.oldLine
    case "!" => op.oldLine.Some? && op.newLine.Some? && op.oldLine != op.newLine
    case "-" => op.oldLine.Some? && op.newLine.None?
    case "+" => op.oldLine.None? && op.newLine.Some?
    case _ => false
  }

  /** Reads an entry back as the change it came from, where that is possible. */
  function Unclassify(e: Entry): Option<Op>
  {
    match e
    case Placeholder => None
    case Tagged(symbol, text) =>
      if text.None? then None
      else if symbol == "" then Some(Op("=", text, text))
      else if symbol == "-" then Some(Op("-", text, None))
      else if symbol == "+" then Some(Op("+", None, text))
      else if symbol == "*" then
        var parts := Split(text.value, '|');
        if |parts| == 2 then Some(Op("!", Some(parts[0]), Some(parts[1]))) else None
      else None
  }

  /**
   * Classification loses nothing of a well-formed change: the entry determines
   * the change, provided the two sides of a change hold no `|`.
   */
  lemma ClassifyRoundTrip(op: Op)
    requires IsSdiffChange(op)
    requires op.action == "!" ==> '|' !in op.oldLine.value && '|' !in op.newLine.value
    ensures Unclassify(ProcessDiffLine(op)) == Some(op)
  {
    if op.action == "!" {
      var parts := [op.oldLine.value, op.newLine.value];
      SplitJoin(parts, '|');
      assert Join(parts, "|") == op.oldLine.value + "|" + op.newLine.value by {
        assert Join(parts[1..], "|") == op.newLine.value;
      }
    }
  }

  /** The placeholder an action outside the four yields reads back as no operation: the action is lost. */
  lemma UnknownActionIsPlaceholder(op: Op)
    requires !KnownAction(op.action)
    ensures Unclassify(ProcessDiffLine(op)).None?
  {
  }

  /** The Ruby array an entry is: `[symbol, text]` or `['? possible diff-lcs bug ?']`. */
  function Parts(e: Entry): seq<Option<string>>
  {
    match e
    case Tagged(symbol, text) => [Some(symbol), text]
    case Placeholder => [Some(PlaceholderText)]
  }

  /** `f_diff.join(" ")`: nil parts join as empty strings. */
  function RenderEntry(e: Entry): string
  {
    Join(seq(|Parts(e)|, k requires 0 <= k < |Parts(e)| => Interpolate(Parts(e)[k])), " ")
  }

  /**
   * How each change reads once classified and rendered: a match with a
   * leading space, a change as `* old|new`, a delete or insert after its
   * operator, anything else as the placeholder text.
   */
  lemma RenderedChange(op: Op)
    ensures op.action == "=" ==> RenderEntry(ProcessDiffLine(op)) == " " + Interpolate(op.oldLine)
    ensures op.action == "!" ==>
      RenderEntry(ProcessDiffLine(op)) == "* " + Interpolate(op.oldLine) + "|" + Interpolate(op.newLine)
    ensures op.action == "-" || op.action == "+" ==>
      RenderEntry(ProcessDiffLine(op)) == op.action + " " + (if op.oldLine.Some? then op.oldLine.value else Interpolate(op.newLine))
    ensures !KnownAction(op.action) ==> RenderEntry(ProcessDiffLine(op)) == PlaceholderText
  {
    var e := ProcessDiffLine(op);
    var ps := seq(|Parts(e)|, k requires 0 <= k < |Parts(e)| => Interpolate(Parts(e)[k]));
    if e.Tagged? {
      assert ps == [e.symbol, Interpolate(e.text)];
      assert Join(ps[1..], " ") == Interpolate(e.text);
    } else {
      assert ps == [PlaceholderText];
    }
  }

  /** A rendered entry holds a character only if its symbol or text does (the placeholder holds no newline). */
  lemma RenderEntryFree(e: Entry, c: char)
    requires c != ' '
    requires e.Tagged? ==> c !in e.symbol && c !in Interpolate(e.text)
    requires e.Placeholder? ==> c !in PlaceholderText
    ensures c !in RenderEntry(e)
  {
    var ps := seq(|Parts(e)|, k requires 0 <= k < |Parts(e)| => Interpolate(Parts(e)[k]));
    JoinFree(ps, " ", c);
  }
}
