/// The change report printed when the editor exits: the line diff of the old
/// and the new patch text, grouped with context, rendered as plain text
/// (the terminal styling is not modelled).
///
/// The diff itself comes from a line-diff library; its result is the input
/// here: a sequence of groups, each a sequence of diff operations, each
/// operation given by the inline changes it expands to.
module ChangeReport {
  import opened Wrappers
  import opened Gutter

  /// Kind of a changed line.
  datatype Tag = Delete | Insert | Equal

  /// A piece of a line's text and whether it is emphasized as changed within the line.
  type Span = (bool, string)

  /// One line of the diff: its 0-based index in the old and in the new text
  /// (absent on the side where the line does not exist), its text as spans,
  /// and whether the line lacks its terminating newline.
  datatype Change = Change(
    tag: Tag,
    oldIndex: Option<nat>,
    newIndex: Option<nat>,
    spans: seq<Span>,
    missingNewline: bool)

  /// A diff operation, as the inline changes it expands to.
  type Op = seq<Change>

  /// A group of operations: one hunk with its surrounding context.
  type Group = seq<Op>

  const RuleWidth: nat := 80

  /// The line printed between two groups: 80 dashes and a newline.
  function Divider(): (r: string)
    ensures |r| == RuleWidth + 1 && r[RuleWidth] == '\n'
    ensures forall i :: 0 <= i < RuleWidth ==> r[i] == '-'
  {
    seq(RuleWidth, _ => '-') + "\n"
  }

  /// The sign column for each kind of change.
  function Sign(tag: Tag): char
  {
    match tag
    case Delete => '-'
    case Insert => '+'
    case Equal => ' '
  }

  /// The text of the spans, in order; emphasis does not change the characters.
  function SpansText(spans: seq<Span>): string
  {
    if spans == [] then "" else SpansText(spans[..|spans| - 1]) + spans[|spans| - 1].1
  }

  /// The printed row of one change: both gutters, ` |`, the sign, the spans,
  /// and a newline when the change's own text lacks one.
  function ChangeText(c: Change): string
  {
    RowHead(c) + SpansText(c.spans) + RowEnd(c)
  }

  /// The part of a row printed by one formatted write: `{}{} |{}`.
  function RowHead(c: Change): string
  {
    Line(c.oldIndex) + Line(c.newIndex) + " |" + [Sign(c.tag)]
  }

  /// The newline added after a change that lacks one.
  function RowEnd(c: Change): string
  {
    if c.missingNewline then "\n" else ""
  }

  /// The rows of the changes of one operation, in order.
  function OpText(op: Op): string
  {
    if op == [] then "" else OpText(op[..|op| - 1]) + ChangeText(op[|op| - 1])
  }

  /// The rows of the operations of one group, in order.
  function GroupText(group: Group): string
  {
    if group == [] then "" else GroupText(group[..|group| - 1]) + OpText(group[|group| - 1])
  }

  /// What precedes the group at position `idx`: a divider unless it is the first.
  function Separator(idx: nat): string
  {
    if idx > 0 then Divider() else ""
  }

  /// The whole report for the groups, in order.
  function Report(groups: seq<Group>): string
  {
    if groups == [] then ""
    else
      var n := |groups| - 1;
      Report(groups[..n]) + Separator(n) + GroupText(groups[n])
  }

  lemma ReportSnoc(groups: seq<Group>, idx: nat)
    requires idx < |groups|
    ensures Report(groups[..idx + 1]) == Report(groups[..idx]) + Separator(idx) + GroupText(groups[idx])
  {
    assert groups[..idx + 1][..idx] == groups[..idx];
  }

  lemma GroupTextSnoc(group: Group, o: nat)
    requires o < |group|
    ensures GroupText(group[..o + 1]) == GroupText(group[..o]) + OpText(group[o])
  {
    assert group[..o + 1][..o] == group[..o];
  }

  lemma OpTextSnoc(op: Op, k: nat)
    requires k < |op|
    ensures OpText(op[..k + 1]) == OpText(op[..k]) + ChangeText(op[k])
  {
    assert op[..k + 1][..k] == op[..k];
  }

  lemma SpansTextSnoc(spans: seq<Span>, s: nat)
    requires s < |spans|
    ensures SpansText(spans[..s + 1]) == SpansText(spans[..s]) + spans[s].1
  {
    assert spans[..s + 1][..s] == spans[..s];
  }

  lemma Assoc(a: string, b: string, c: string)
    ensures (a + b) + c == a + (b + c)
  {
  }

  /// The row of one change, as the body of the innermost loop of `edit`
  /// writes it: the two gutters, ` |` and the sign in one formatted write,
  /// then each span, then a newline when the change lacks one. Emphasized
  /// and plain spans print the same characters; only their styling differs,
  /// which is not modelled.
  method RenderChange(change: Change) returns (row: string)
    ensures row == ChangeText(change)
  {
    row := RowHead(change);
    ghost var head := row;
    for s := 0 to |change.spans|
      invariant row == head + SpansText(change.spans[..s])
    {
      var (emphasized, value) := change.spans[s];
      SpansTextSnoc(change.spans, s);
      Assoc(head, SpansText(change.spans[..s]), value);
      if emphasized {
        row := row + value;
      } else {
        row := row + value;
      }
    }
    assert change.spans[..|change.spans|] == change.spans;
    if change.missingNewline {
      row := row + "\n";
    }
  }

  /// The rendering loop of `edit`: walks the groups, the operations of each
  /// group and the inline changes of each operation, writing the report
  /// piece by piece to the output, here the buffer `out`.
  method RenderReport(groups: seq<Group>) returns (out: string)
    ensures out == Report(groups)
    ensures groups == [] ==> out == ""
  {
    out := "";
    for idx := 0 to |groups|
      invariant out == Report(groups[..idx])
    {
      ghost var before := out;
      if idx > 0 {
        out := out + Divider();
      }
      ghost var groupStart := out;
      var group := groups[idx];
      for o := 0 to |group|
        invariant out == groupStart + GroupText(group[..o])
      {
        ghost var opStart := out;
        var op := group[o];
        for k := 0 to |op|
          invariant out == opStart + OpText(op[..k])
        {
          var row := RenderChange(op[k]);
          OpTextSnoc(op, k);
          Assoc(opStart, OpText(op[..k]), row);
          out := out + row;
        }
        assert op[..|op|] == op;
        GroupTextSnoc(group, o);
        Assoc(groupStart, GroupText(group[..o]), OpText(op));
      }
      assert group[..|group|] == group;
      ReportSnoc(groups, idx);
      Assoc(before, Separator(idx), GroupText(group));
    }
    assert groups[..|groups|] == groups;
  }
}
