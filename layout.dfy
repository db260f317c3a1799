/// What the change report looks like, stated against an independent,
/// structural view of it: the report is the sequence of its pieces, each
/// piece either a divider or the row of one change.
module ReportLayout {
  import opened Wrappers
  import opened Gutter
  import opened ChangeReport

  // ---------------------------------------------------------------------
  // One row
  // ---------------------------------------------------------------------

  /// The kind of change a sign column shows, if any.
  function TagOfSign(ch: char): Option<Tag>
  {
    if ch == '-' then Some(Delete)
    else if ch == '+' then Some(Insert)
    else if ch == ' ' then Some(Equal)
    else None
  }

  /// A row reads back column by column: the old gutter gives the old line,
  /// the new gutter the new line, then ` |`, then the sign of the change's
  /// kind, then the span texts, then a newline exactly when the change lacks
  /// one.
  lemma RowColumns(c: Change)
    ensures
      var t := ChangeText(c);
      var w1 := |Line(c.oldIndex)|;
      var w2 := |Line(c.newIndex)|;
      && w1 + w2 + 3 <= |t|
      && ParseLine(t[..w1]) == c.oldIndex
      && ParseLine(t[w1..w1 + w2]) == c.newIndex
      && t[w1 + w2..w1 + w2 + 2] == " |"
      && TagOfSign(t[w1 + w2 + 2]) == Some(c.tag)
      && t[w1 + w2 + 3..] == SpansText(c.spans) + (if c.missingNewline then "\n" else "")
  {
    GutterColumns(c);
    MarkColumns(c);
  }

  /// The two gutters of a row read back as the change's line indices.
  lemma GutterColumns(c: Change)
    ensures
      var t := ChangeText(c);
      var w1 := |Line(c.oldIndex)|;
      var w2 := |Line(c.newIndex)|;
      && w1 + w2 + 3 <= |t|
      && ParseLine(t[..w1]) == c.oldIndex
      && ParseLine(t[w1..w1 + w2]) == c.newIndex
  {
    RowSplit(c);
    CellsReadBack(c.oldIndex, c.newIndex, " |" + ([Sign(c.tag)] + (SpansText(c.spans) + RowEnd(c))));
  }

  /// Two gutter cells followed by any text read back as their indices.
  lemma CellsReadBack(oldIndex: Option<nat>, newIndex: Option<nat>, rest: string)
    ensures
      var a, b := Line(oldIndex), Line(newIndex);
      var t := a + (b + rest);
      && |t| == |a| + |b| + |rest|
      && ParseLine(t[..|a|]) == oldIndex
      && ParseLine(t[|a|..|a| + |b|]) == newIndex
  {
    var a, b := Line(oldIndex), Line(newIndex);
    var t := a + (b + rest);
    assert t[..|a|] == a;
    assert t[|a|..|a| + |b|] == b by {
      assert t[|a|..] == b + rest;
    }
    LineRoundTrip(oldIndex);
    LineRoundTrip(newIndex);
  }

  /// After the gutters come ` |`, the sign of the change's kind and the text.
  lemma MarkColumns(c: Change)
    ensures
      var t := ChangeText(c);
      var w := |Line(c.oldIndex)| + |Line(c.newIndex)|;
      && w + 3 <= |t|
      && t[w..w + 2] == " |"
      && TagOfSign(t[w + 2]) == Some(c.tag)
      && t[w + 3..] == SpansText(c.spans) + (if c.missingNewline then "\n" else "")
  {
    RowSplit(c);
    Columns(Line(c.oldIndex), Line(c.newIndex), Sign(c.tag), SpansText(c.spans) + RowEnd(c));
  }

  /// While both line numbers have at most four digits the gutters are four
  /// wide, so the sign of every row sits in the same column, 10 (0-based).
  lemma SignColumn(c: Change)
    ensures
      (c.oldIndex.None? || c.oldIndex.value + 1 <= 9999) &&
      (c.newIndex.None? || c.newIndex.value + 1 <= 9999)
      ==> |ChangeText(c)| > 10 && TagOfSign(ChangeText(c)[10]) == Some(c.tag)
  {
    LineLayout(c.oldIndex);
    LineLayout(c.newIndex);
    RowColumns(c);
  }

  /// Past 9999 the two gutters run together with no separator, so a row no
  /// longer determines its line numbers: these two different changes, lines
  /// 1111 and 11111 against lines 11111 and 1111, print the same row.
  lemma GuttersRunTogether()
    ensures
      var c1 := Change(Equal, Some(1110), Some(11110), [(false, "x\n")], false);
      var c2 := Change(Equal, Some(11110), Some(1110), [(false, "x\n")], false);
      c1 != c2 && ChangeText(c1) == ChangeText(c2)
  {
    var four, five := Line(Some(1110)), Line(Some(11110));
    SampleGutters();
    assert four + five == five + four;
  }

  /// The gutters of lines 1111 and 11111.
  lemma SampleGutters()
    ensures Line(Some(1110)) == "1111" && Line(Some(11110)) == "11111"
  {
    assert Decimal(1) == "1" && Decimal(11) == "11" && Decimal(111) == "111";
    assert Decimal(1111) == "1111";
  }

  /// Where each part of a row lies in the row.
  lemma Columns(a: string, b: string, sign: char, rest: string)
    ensures
      var t := a + (b + (" |" + ([sign] + rest)));
      var w := |a| + |b|;
      && |t| == w + 3 + |rest|
      && t[..|a|] == a && t[|a|..w] == b
      && t[w..w + 2] == " |" && t[w + 2] == sign && t[w + 3..] == rest
  {
    var t := a + (b + (" |" + ([sign] + rest)));
    var w := |a| + |b|;
    assert t[|a|..] == b + (" |" + ([sign] + rest));
    assert t[|a|..w] == t[|a|..][..|b|];
    assert t[w..] == " |" + ([sign] + rest);
    assert t[w..w + 2] == t[w..][..2];
    assert t[w + 3..] == t[w..][3..];
  }

  /// A row as the old gutter, the new gutter and what follows them.
  lemma RowSplit(c: Change)
    ensures ChangeText(c) == Line(c.oldIndex) + (Line(c.newIndex)
      + (" |" + ([Sign(c.tag)] + (SpansText(c.spans) + RowEnd(c)))))
  {
    var a, b := Line(c.oldIndex), Line(c.newIndex);
    var sp, e := SpansText(c.spans), RowEnd(c);
    var tail := " |" + ([Sign(c.tag)] + (sp + e));
    calc {
      ChangeText(c);
      { Assoc(RowHead(c), sp, e); }
      RowHead(c) + (sp + e);
      { Assoc(a + b + " |", [Sign(c.tag)], sp + e); }
      (a + b + " |") + ([Sign(c.tag)] + (sp + e));
      { Assoc(a + b, " |", [Sign(c.tag)] + (sp + e)); }
      (a + b) + tail;
      { Assoc(a, b, tail); }
      a + (b + tail);
    }
  }

  /// The text of a list of spans, span by span.
  function Texts(spans: seq<Span>): seq<string>
  {
    seq(|spans|, i requires 0 <= i < |spans| => spans[i].1)
  }

  /// Only the texts of the spans reach the output; the emphasis flags do not.
  lemma {:induction false} SpansTextIgnoresEmphasis(a: seq<Span>, b: seq<Span>)
    requires Texts(a) == Texts(b)
    ensures SpansText(a) == SpansText(b)
    decreases |a|
  {
    assert |a| == |Texts(a)| == |Texts(b)| == |b|;
    if a != [] {
      var n := |a| - 1;
      assert Texts(a[..n]) == Texts(b[..n]) by {
        forall i | 0 <= i < n ensures Texts(a[..n])[i] == Texts(b[..n])[i] {
          assert Texts(a)[i] == Texts(b)[i];
        }
      }
      SpansTextIgnoresEmphasis(a[..n], b[..n]);
      assert Texts(a)[n] == Texts(b)[n];
    }
  }

  /// A change prints the same characters whichever of its spans are emphasized.
  lemma EmphasisInvisible(c: Change, spans: seq<Span>)
    requires Texts(spans) == Texts(c.spans)
    ensures ChangeText(c.(spans := spans)) == ChangeText(c)
  {
    SpansTextIgnoresEmphasis(spans, c.spans);
  }

  // ---------------------------------------------------------------------
  // Counting lines
  // ---------------------------------------------------------------------

  function NewlineCount(s: string): nat
  {
    if s == [] then 0 else (if s[0] == '\n' then 1 else 0) + NewlineCount(s[1..])
  }

  lemma {:induction false} NewlineCountAppend(a: string, b: string)
    ensures NewlineCount(a + b) == NewlineCount(a) + NewlineCount(b)
    decreases |a|
  {
    if a != [] {
      assert (a + b)[0] == a[0];
      assert (a + b)[1..] == a[1..] + b;
      NewlineCountAppend(a[1..], b);
    } else {
      assert a + b == b;
    }
  }

  lemma {:induction false} NoNewline(s: string)
    requires forall i :: 0 <= i < |s| ==> s[i] != '\n'
    ensures NewlineCount(s) == 0
    decreases |s|
  {
    if s != [] {
      NoNewline(s[1..]);
    }
  }

  /// The shape of a change that the line-count lemmas assume: its text
  /// holds at most one newline, at its very end, and it is flagged as
  /// missing its newline exactly when there is none.
  predicate LineShaped(c: Change)
  {
    var t := SpansText(c.spans);
    if c.missingNewline then NewlineCount(t) == 0
    else |t| > 0 && t[|t| - 1] == '\n' && NewlineCount(t) == 1
  }

  /// With the newline added exactly for the changes missing one, every change
  /// becomes exactly one terminated line of the report.
  lemma OneRowPerChange(c: Change)
    requires LineShaped(c)
    ensures NewlineCount(ChangeText(c)) == 1
    ensures ChangeText(c)[|ChangeText(c)| - 1] == '\n'
  {
    var head := RowHead(c);
    LineLayout(c.oldIndex);
    LineLayout(c.newIndex);
    forall i | 0 <= i < |head| ensures head[i] != '\n' {
      var a, b := Line(c.oldIndex), Line(c.newIndex);
      assert head == a + b + " |" + [Sign(c.tag)];
      if i < |a| {
        assert head[i] == a[i];
      } else if i < |a| + |b| {
        assert head[i] == b[i - |a|];
      }
    }
    NoNewline(head);
    NewlineCountAppend(head, SpansText(c.spans));
    NewlineCountAppend(head + SpansText(c.spans), RowEnd(c));
  }

  // ---------------------------------------------------------------------
  // The report as a sequence of pieces
  // ---------------------------------------------------------------------

  /// A piece of the report: the divider line, or the row of one change.
  datatype Piece = Rule | Row(change: Change)

  function PieceText(p: Piece): string
  {
    match p
    case Rule => Divider()
    case Row(c) => ChangeText(c)
  }

  function PiecesText(ps: seq<Piece>): string
  {
    ConcatMap(PieceText, ps)
  }

  /// The texts `f` gives the elements, joined in order.
  function ConcatMap<T>(f: T -> string, xs: seq<T>): string
  {
    if xs == [] then "" else f(xs[0]) + ConcatMap(f, xs[1..])
  }

  /// The changes of a group, operation after operation.
  function Flat(group: Group): seq<Change>
  {
    if group == [] then [] else group[0] + Flat(group[1..])
  }

  /// The changes of all groups, group after group.
  function AllChanges(groups: seq<Group>): seq<Change>
  {
    if groups == [] then [] else Flat(groups[0]) + AllChanges(groups[1..])
  }

  function Rows(cs: seq<Change>): seq<Piece>
  {
    seq(|cs|, i requires 0 <= i < |cs| => Row(cs[i]))
  }

  /// The pieces of the report: the rows of the first group, then for each
  /// further group a divider followed by its rows.
  function Pieces(groups: seq<Group>): seq<Piece>
  {
    if groups == [] then []
    else if |groups| == 1 then Rows(Flat(groups[0]))
    else Rows(Flat(groups[0])) + [Rule] + Pieces(groups[1..])
  }

  function RuleCount(ps: seq<Piece>): nat
  {
    if ps == [] then 0 else (if ps[0] == Rule then 1 else 0) + RuleCount(ps[1..])
  }

  /// The changes whose rows appear among the pieces, in order.
  function RowChanges(ps: seq<Piece>): seq<Change>
  {
    if ps == [] then [] else (if ps[0].Row? then [ps[0].change] else []) + RowChanges(ps[1..])
  }

  /// How many dividers `k` groups get.
  function Dividers(k: nat): nat
  {
    if k == 0 then 0 else k - 1
  }

  lemma {:induction false} ConcatMapAppend<T>(f: T -> string, a: seq<T>, b: seq<T>)
    ensures ConcatMap(f, a + b) == ConcatMap(f, a) + ConcatMap(f, b)
    decreases |a|
  {
    if a != [] {
      assert (a + b)[0] == a[0];
      assert (a + b)[1..] == a[1..] + b;
      ConcatMapAppend(f, a[1..], b);
      Assoc(f(a[0]), ConcatMap(f, a[1..]), ConcatMap(f, b));
    } else {
      assert a + b == b;
    }
  }

  lemma ConcatMapSingleton<T>(f: T -> string, x: T)
    ensures ConcatMap(f, [x]) == f(x)
  {
    assert [x][1..] == [];
    assert f(x) + "" == f(x);
  }

  lemma SingletonText(p: Piece)
    ensures PiecesText([p]) == PieceText(p)
  {
    ConcatMapSingleton(PieceText, p);
  }

  lemma PiecesTextAppend(a: seq<Piece>, b: seq<Piece>)
    ensures PiecesText(a + b) == PiecesText(a) + PiecesText(b)
  {
    ConcatMapAppend(PieceText, a, b);
  }

  lemma {:induction false} RuleCountAppend(a: seq<Piece>, b: seq<Piece>)
    ensures RuleCount(a + b) == RuleCount(a) + RuleCount(b)
    decreases |a|
  {
    if a != [] {
      assert (a + b)[0] == a[0];
      assert (a + b)[1..] == a[1..] + b;
      RuleCountAppend(a[1..], b);
    } else {
      assert a + b == b;
    }
  }

  lemma {:induction false} RowChangesAppend(a: seq<Piece>, b: seq<Piece>)
    ensures RowChanges(a + b) == RowChanges(a) + RowChanges(b)
    decreases |a|
  {
    if a != [] {
      assert (a + b)[0] == a[0];
      assert (a + b)[1..] == a[1..] + b;
      RowChangesAppend(a[1..], b);
    } else {
      assert a + b == b;
    }
  }

  lemma {:induction false} RowsPieces(cs: seq<Change>)
    ensures RuleCount(Rows(cs)) == 0 && RowChanges(Rows(cs)) == cs
    decreases |cs|
  {
    if cs != [] {
      assert Rows(cs)[1..] == Rows(cs[1..]);
      RowsPieces(cs[1..]);
    }
  }

  lemma {:induction false} FlatSnoc(group: Group, op: Op)
    ensures Flat(group + [op]) == Flat(group) + op
    decreases |group|
  {
    if group == [] {
      assert Flat([op]) == op + Flat([]);
    } else {
      assert (group + [op])[1..] == group[1..] + [op];
      FlatSnoc(group[1..], op);
    }
  }

  lemma RowsSnoc(cs: seq<Change>)
    requires cs != []
    ensures Rows(cs) == Rows(cs[..|cs| - 1]) + [Row(cs[|cs| - 1])]
  {
  }

  /// An operation's rows, in the order of its changes.
  lemma {:induction false} OpTextIsRows(op: Op)
    ensures OpText(op) == PiecesText(Rows(op))
    decreases |op|
  {
    if op != [] {
      var n := |op| - 1;
      var pre, c := op[..n], op[n];
      calc {
        PiecesText(Rows(op));
        { RowsSnoc(op); }
        PiecesText(Rows(pre) + [Row(c)]);
        { PiecesTextAppend(Rows(pre), [Row(c)]); }
        PiecesText(Rows(pre)) + PiecesText([Row(c)]);
        { SingletonText(Row(c)); }
        PiecesText(Rows(pre)) + ChangeText(c);
        { OpTextIsRows(pre); }
        OpText(pre) + ChangeText(c);
        OpText(op);
      }
    }
  }

  lemma RowsAppend(a: seq<Change>, b: seq<Change>)
    ensures Rows(a + b) == Rows(a) + Rows(b)
  {
  }

  /// A group's rows, in the order of its operations and their changes.
  lemma {:induction false} GroupTextIsRows(group: Group)
    ensures GroupText(group) == PiecesText(Rows(Flat(group)))
    decreases |group|
  {
    if group != [] {
      var n := |group| - 1;
      var pre, last := group[..n], group[n];
      calc {
        PiecesText(Rows(Flat(group)));
        { assert group == pre + [last]; FlatSnoc(pre, last); }
        PiecesText(Rows(Flat(pre) + last));
        { RowsAppend(Flat(pre), last); }
        PiecesText(Rows(Flat(pre)) + Rows(last));
        { PiecesTextAppend(Rows(Flat(pre)), Rows(last)); }
        PiecesText(Rows(Flat(pre))) + PiecesText(Rows(last));
        { GroupTextIsRows(pre); OpTextIsRows(last); }
        GroupText(pre) + OpText(last);
        GroupText(group);
      }
    }
  }

  lemma {:induction false} PiecesSnoc(groups: seq<Group>, g: Group)
    requires groups != []
    ensures Pieces(groups + [g]) == Pieces(groups) + [Rule] + Rows(Flat(g))
    decreases |groups|
  {
    var all := groups + [g];
    if |groups| == 1 {
      assert all[1..] == [g];
    } else {
      assert all[1..] == groups[1..] + [g];
      PiecesSnoc(groups[1..], g);
    }
  }

  /// The pieces with a divider and one more group's rows appended.
  lemma PiecesTextSnoc(ps: seq<Piece>, g: Group)
    ensures PiecesText(ps + [Rule] + Rows(Flat(g))) == PiecesText(ps) + Divider() + GroupText(g)
  {
    calc {
      PiecesText(ps + [Rule] + Rows(Flat(g)));
      { PiecesTextAppend(ps + [Rule], Rows(Flat(g))); }
      PiecesText(ps + [Rule]) + PiecesText(Rows(Flat(g)));
      { PiecesTextAppend(ps, [Rule]); SingletonText(Rule); }
      PiecesText(ps) + Divider() + PiecesText(Rows(Flat(g)));
      { GroupTextIsRows(g); }
      PiecesText(ps) + Divider() + GroupText(g);
    }
  }

  /// The report printed by the rendering loop is the text of its pieces.
  lemma {:induction false} ReportIsPieces(groups: seq<Group>)
    ensures Report(groups) == PiecesText(Pieces(groups))
    decreases |groups|
  {
    if groups != [] {
      var n := |groups| - 1;
      var pre, last := groups[..n], groups[n];
      if n == 0 {
        calc {
          Report(groups);
          { assert pre == []; }
          GroupText(last);
          { GroupTextIsRows(last); }
          PiecesText(Pieces(groups));
        }
      } else {
        calc {
          PiecesText(Pieces(groups));
          { assert groups == pre + [last]; PiecesSnoc(pre, last); }
          PiecesText(Pieces(pre) + [Rule] + Rows(Flat(last)));
          { PiecesTextSnoc(Pieces(pre), last); }
          PiecesText(Pieces(pre)) + Divider() + GroupText(last);
          { ReportIsPieces(pre); }
          Report(pre) + Divider() + GroupText(last);
          Report(groups);
        }
      }
    }
  }

  /// With `k` groups the pieces hold exactly `k - 1` dividers (none for no
  /// groups), and the rows of every change of every group, in input order.
  lemma {:induction false} PiecesContents(groups: seq<Group>)
    ensures RuleCount(Pieces(groups)) == Dividers(|groups|)
    ensures RowChanges(Pieces(groups)) == AllChanges(groups)
  {
    PiecesRuleCount(groups);
    PiecesRowChanges(groups);
  }

  lemma {:induction false} PiecesRuleCount(groups: seq<Group>)
    ensures RuleCount(Pieces(groups)) == Dividers(|groups|)
    decreases |groups|
  {
    if |groups| > 1 {
      RowsPieces(Flat(groups[0]));
      PiecesRuleCount(groups[1..]);
      RuleCountAppend(Rows(Flat(groups[0])) + [Rule], Pieces(groups[1..]));
      RuleCountAppend(Rows(Flat(groups[0])), [Rule]);
      assert RuleCount([Rule]) == 1 + RuleCount([]);
    } else if groups != [] {
      RowsPieces(Flat(groups[0]));
    }
  }

  lemma {:induction false} PiecesRowChanges(groups: seq<Group>)
    ensures RowChanges(Pieces(groups)) == AllChanges(groups)
    decreases |groups|
  {
    if |groups| > 1 {
      var rows, rest := Rows(Flat(groups[0])), groups[1..];
      calc {
        RowChanges(Pieces(groups));
        RowChanges(rows + [Rule] + Pieces(rest));
        { RowChangesAppend(rows + [Rule], Pieces(rest)); }
        RowChanges(rows + [Rule]) + RowChanges(Pieces(rest));
        { RowChangesAppend(rows, [Rule]); RuleHasNoRow(); }
        RowChanges(rows) + [] + RowChanges(Pieces(rest));
        { RowsPieces(Flat(groups[0])); PiecesRowChanges(rest); }
        Flat(groups[0]) + [] + AllChanges(rest);
        { assert Flat(groups[0]) + [] == Flat(groups[0]); }
        AllChanges(groups);
      }
    } else if groups != [] {
      RowsPieces(Flat(groups[0]));
      assert AllChanges(groups[1..]) == [];
    }
  }

  lemma RuleHasNoRow()
    ensures RowChanges([Rule]) == []
  {
    assert RowChanges([Rule]) == [] + RowChanges([]);
  }

  /// The report begins with the first group's rows, with no divider before
  /// them, and every later group follows a divider; no groups print nothing.
  lemma ReportCons(g: Group, rest: seq<Group>)
    ensures Report([]) == ""
    ensures Report([g] + rest) == GroupText(g) + (if rest == [] then "" else Divider() + Report(rest))
  {
    var groups := [g] + rest;
    assert groups[0] == g && groups[1..] == rest;
    ReportIsPieces(groups);
    if rest == [] {
      GroupTextIsRows(g);
      assert GroupText(g) + "" == GroupText(g);
    } else {
      calc {
        PiecesText(Pieces(groups));
        PiecesText(Rows(Flat(g)) + [Rule] + Pieces(rest));
        { PiecesTextAppend(Rows(Flat(g)) + [Rule], Pieces(rest)); }
        PiecesText(Rows(Flat(g)) + [Rule]) + PiecesText(Pieces(rest));
        { PiecesTextAppend(Rows(Flat(g)), [Rule]); SingletonText(Rule); GroupTextIsRows(g); }
        GroupText(g) + Divider() + PiecesText(Pieces(rest));
        { ReportIsPieces(rest); }
        GroupText(g) + Divider() + Report(rest);
        { Assoc(GroupText(g), Divider(), Report(rest)); }
        GroupText(g) + (Divider() + Report(rest));
      }
    }
  }

  /// The divider is one line.
  lemma DividerLineCount()
    ensures NewlineCount(Divider()) == 1
  {
    var d := Divider();
    assert d == d[..RuleWidth] + "\n";
    NoNewline(d[..RuleWidth]);
    NewlineCountAppend(d[..RuleWidth], "\n");
  }

  /// Every piece is one line, provided a row's change has the assumed shape.
  lemma PieceLineCount(p: Piece)
    requires p.Row? ==> LineShaped(p.change)
    ensures NewlineCount(PieceText(p)) == 1
  {
    match p
    case Rule => DividerLineCount();
    case Row(c) => OneRowPerChange(c);
  }

  lemma {:induction false} PiecesLineCount(ps: seq<Piece>)
    requires forall c :: c in RowChanges(ps) ==> LineShaped(c)
    ensures NewlineCount(PiecesText(ps)) == |ps|
    ensures |ps| == RuleCount(ps) + |RowChanges(ps)|
    decreases |ps|
  {
    if ps != [] {
      assert forall c :: c in RowChanges(ps[1..]) ==> c in RowChanges(ps);
      PiecesLineCount(ps[1..]);
      NewlineCountAppend(PieceText(ps[0]), PiecesText(ps[1..]));
      assert ps[0].Row? ==> ps[0].change in RowChanges(ps);
      PieceLineCount(ps[0]);
    }
  }

  /// When every change has the shape `LineShaped` assumes, the report has
  /// exactly one line per change plus one line per divider.
  lemma ReportLineCount(groups: seq<Group>)
    requires forall c :: c in AllChanges(groups) ==> LineShaped(c)
    ensures NewlineCount(Report(groups)) == |AllChanges(groups)| + Dividers(|groups|)
  {
    ReportIsPieces(groups);
    PiecesContents(groups);
    PiecesLineCount(Pieces(groups));
  }
}
