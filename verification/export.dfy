/** The two exporters of the grouping panel: the plain-text block copied to the
    clipboard (`copyToClipboard`) and the CSV text offered for download
    (`downloadCSV`). Only the string construction is modelled. */
module Export {
  import opened Types
  import opened Seqs
  import opened Text
  import opened Wrappers
  import opened Shuffle
  import opened Grouping

  /** `--- name ---`, the first line of a group's block. */
  function Header(g: Group): string
  {
    "--- " + g.name + " ---"
  }

  /** `• member`, one line per member, in member order. */
  function Bullets(members: seq<Participant>): (lines: seq<string>)
    ensures |lines| == |members|
  {
    seq(|members|, i requires 0 <= i < |members| => "\U{2022} " + members[i].name)
  }

  /** One group's block: its header, a line break, then its bullet lines. */
  function Block(g: Group): string
  {
    Header(g) + "\n" + Join(Bullets(g.members), "\n")
  }

  /** The clipboard text: the blocks of all groups separated by a blank line. */
  function ClipboardText(groups: seq<Group>): (text: string)
    ensures text == "" <==> |groups| == 0
    ensures |groups| > 0 ==> |text| >= |Block(groups[0])| && text[..|Block(groups[0])|] == Block(groups[0])
  {
    var blocks := seq(|groups|, i requires 0 <= i < |groups| => Block(groups[i]));
    if |groups| == 0 then ""
    else
      JoinStartsWithFirst(blocks, "\n\n");
      Join(blocks, "\n\n")
  }

  /** Reference reading of the clipboard text, line by line: for each group its
      header and its bullets, and an empty line between consecutive groups. */
  function ClipboardLines(groups: seq<Group>): (lines: seq<string>)
    decreases |groups|
  {
    if |groups| == 0 then []
    else if |groups| == 1 then [Header(groups[0])] + Bullets(groups[0].members)
    else [Header(groups[0])] + Bullets(groups[0].members) + [""] + ClipboardLines(groups[1..])
  }

  /** Every group has at least one member, as the grouping engine guarantees. */
  predicate NoEmptyGroup(groups: seq<Group>)
  {
    forall g :: 0 <= g < |groups| ==> |groups[g].members| > 0
  }

  /** The clipboard text is exactly the reference lines joined by line breaks. */
  lemma {:induction false} ClipboardIsLines(groups: seq<Group>)
    requires NoEmptyGroup(groups)
    ensures ClipboardText(groups) == Join(ClipboardLines(groups), "\n")
    decreases |groups|
  {
    if |groups| >= 1 {
      var g := groups[0];
      var own := [Header(g)] + Bullets(g.members);
      BlockIsLines(g);
      if |groups| >= 2 {
        var rest := groups[1..];
        ClipboardTextCons(groups);
        ClipboardIsLines(rest);
        assert ClipboardLines(groups) == own + ([""] + ClipboardLines(rest));
        JoinBlankLine(own, ClipboardLines(rest));
      }
    }
  }

  /** A group's block is its header and bullets joined by line breaks. */
  lemma BlockIsLines(g: Group)
    requires |g.members| > 0
    ensures Join([Header(g)] + Bullets(g.members), "\n") == Block(g)
  {
    var own := [Header(g)] + Bullets(g.members);
    assert own[0] == Header(g) && own[1..] == Bullets(g.members);
  }

  /** The clipboard text is the first block, a blank line, then the text of the
      other groups. */
  lemma ClipboardTextCons(groups: seq<Group>)
    requires |groups| >= 2
    ensures ClipboardText(groups) == Block(groups[0]) + "\n\n" + ClipboardText(groups[1..])
  {
    var blocks := seq(|groups|, i requires 0 <= i < |groups| => Block(groups[i]));
    var rest := groups[1..];
    var restBlocks := seq(|rest|, i requires 0 <= i < |rest| => Block(rest[i]));
    assert blocks[1..] == restBlocks;
  }

  /** Joining lines with an empty line in between puts a blank line between the
      two joined halves. */
  lemma JoinBlankLine(a: seq<string>, b: seq<string>)
    requires |a| >= 1 && |b| >= 1
    ensures Join(a + ([""] + b), "\n") == Join(a, "\n") + "\n\n" + Join(b, "\n")
  {
    JoinAppend(a, [""] + b, "\n");
    JoinAppend([""], b, "\n");
  }

  /** Splitting the clipboard text at line breaks gives back the reference lines,
      provided no group or member name contains a line break. */
  lemma ClipboardReadBack(groups: seq<Group>)
    requires |groups| >= 1 && NoEmptyGroup(groups) && BreakFree(groups)
    ensures SplitOn(ClipboardText(groups), '\n') == ClipboardLines(groups)
  {
    ClipboardIsLines(groups);
    LinesAvoidBreaks(groups);
    SplitOnJoin(ClipboardLines(groups), '\n');
  }

  /** With break-free names, no reference line contains a line break. */
  lemma {:induction false} LinesAvoidBreaks(groups: seq<Group>)
    requires |groups| >= 1 && BreakFree(groups)
    ensures |ClipboardLines(groups)| >= 1
    ensures forall i :: 0 <= i < |ClipboardLines(groups)| ==> Avoids(ClipboardLines(groups)[i], {'\n'})
    decreases |groups|
  {
    var g := groups[0];
    var own := [Header(g)] + Bullets(g.members);
    assert forall i :: 0 <= i < |own| ==> Avoids(own[i], {'\n'}) by {
      forall i | 0 <= i < |own|
        ensures Avoids(own[i], {'\n'})
      {
        if i == 0 {
          assert Header(g) == "--- " + g.name + " ---";
        } else {
          assert own[i] == "\U{2022} " + g.members[i - 1].name;
        }
      }
    }
    if |groups| >= 2 {
      LinesAvoidBreaks(groups[1..]);
    }
  }

  /** The column titles of the CSV file. */
  const CsvTitle: string := "Group Name,Participant Name"

  /** The first line of the CSV file, with its line break. */
  const CsvHeader: string := CsvTitle + "\n"

  /** `"group","member"`: both fields are wrapped in quotes; quotes inside a
      field are written as they are. */
  function CsvRow(groupName: string, memberName: string): (row: string)
    ensures |row| == |groupName| + |memberName| + 5
    ensures row[0] == '"' && row[|row| - 1] == '"'
    ensures row[1..|groupName| + 1] == groupName
    ensures row[|groupName| + 1..|groupName| + 4] == "\",\""
    ensures row[|groupName| + 4..|row| - 1] == memberName
  {
    "\"" + groupName + "\",\"" + memberName + "\""
  }

  /** The rows of one group, one per member, in member order. */
  function GroupRows(g: Group): (rows: seq<string>)
    ensures |rows| == |g.members|
  {
    seq(|g.members|, i requires 0 <= i < |g.members| => CsvRow(g.name, g.members[i].name))
  }

  /** `groups.flatMap(...)`: the rows of all groups, group after group. */
  function CsvRows(groups: seq<Group>): seq<string>
    decreases |groups|
  {
    if |groups| == 0 then [] else GroupRows(groups[0]) + CsvRows(groups[1..])
  }

  /** The downloaded CSV text. */
  function Csv(groups: seq<Group>): (text: string)
    ensures |text| >= |CsvHeader| && text[..|CsvHeader|] == CsvHeader
    ensures text == CsvHeader <==> |CsvRows(groups)| == 0
  {
    var rows := CsvRows(groups);
    if |rows| == 0 then CsvHeader
    else
      JoinStartsWithFirst(rows, "\n");
      CsvRowsNonEmpty(groups);
      CsvHeader + Join(rows, "\n")
  }

  /** No CSV row is empty: each holds at least its four quotes and a comma. */
  lemma {:induction false} CsvRowsNonEmpty(groups: seq<Group>)
    ensures forall i :: 0 <= i < |CsvRows(groups)| ==> |CsvRows(groups)[i]| >= 5
    decreases |groups|
  {
    if |groups| > 0 {
      CsvRowsNonEmpty(groups[1..]);
      var own := GroupRows(groups[0]);
      forall i | 0 <= i < |CsvRows(groups)|
        ensures |CsvRows(groups)[i]| >= 5
      {
        if i >= |own| {
          assert CsvRows(groups)[i] == CsvRows(groups[1..])[i - |own|];
        }
      }
    }
  }

  /** No group or member name contains a line break. */
  predicate BreakFree(groups: seq<Group>)
  {
    && (forall g :: 0 <= g < |groups| ==> Avoids(groups[g].name, {'\n'}))
    && (forall g, m :: 0 <= g < |groups| && 0 <= m < |groups[g].members| ==> Avoids(groups[g].members[m].name, {'\n'}))
  }

  /** With break-free names, no row contains a line break. */
  lemma {:induction false} CsvRowsAvoidBreaks(groups: seq<Group>)
    requires BreakFree(groups)
    ensures forall i :: 0 <= i < |CsvRows(groups)| ==> Avoids(CsvRows(groups)[i], {'\n'})
    decreases |groups|
  {
    if |groups| > 0 {
      CsvRowsAvoidBreaks(groups[1..]);
      var own := GroupRows(groups[0]);
      forall i | 0 <= i < |own|
        ensures Avoids(own[i], {'\n'})
      {
        assert own[i] == "\"" + groups[0].name + "\",\"" + groups[0].members[i].name + "\"";
      }
    }
  }

  /** Read line by line, the CSV text is the header line followed by the rows,
      provided there is at least one row and no name contains a line break. */
  lemma CsvReadBack(groups: seq<Group>)
    requires BreakFree(groups) && |CsvRows(groups)| >= 1
    ensures SplitOn(Csv(groups), '\n') == [CsvTitle] + CsvRows(groups)
  {
    var rows := CsvRows(groups);
    var lines := [CsvTitle] + rows;
    JoinAppend([CsvTitle], rows, "\n");
    assert Csv(groups) == Join(lines, "\n");
    CsvRowsAvoidBreaks(groups);
    TitleAvoidsBreaks();
    forall i | 0 <= i < |lines|
      ensures Avoids(lines[i], {'\n'})
    {
      if i > 0 {
        assert lines[i] == rows[i - 1];
      }
    }
    SplitOnJoin(lines, '\n');
  }

  /** The header line contains no line break. */
  lemma TitleAvoidsBreaks()
    ensures Avoids(CsvTitle, {'\n'})
  {
  }

  /** There is exactly one row per member: as many rows as members in all groups. */
  lemma {:induction false} CsvRowCount(groups: seq<Group>)
    ensures |CsvRows(groups)| == TotalLength(Members(groups))
    decreases |groups|
  {
    if |groups| > 0 {
      CsvRowCount(groups[1..]);
      assert Members(groups)[1..] == Members(groups[1..]);
    }
  }

  /** After a grouping, the CSV has one row per person on the roster. */
  lemma CsvRowsMatchRoster(roster: seq<Participant>, draws: seq<nat>, k: nat, groups: seq<Group>)
    requires k >= 1 && ValidDraws(|roster|, draws)
    requires IsChunking(groups, FisherYates(roster, draws), k)
    ensures |CsvRows(groups)| == |roster|
  {
    CsvRowCount(groups);
    GroupingKeepsEveryone(roster, draws, k, groups);
  }

  /** Member `m` of group `g` has its row right after the rows of the groups
      before `g` and of the members before `m`: rows follow group order, then
      member order. */
  lemma {:induction false} CsvRowPlacement(groups: seq<Group>, g: nat, m: nat)
    requires g < |groups| && m < |groups[g].members|
    ensures TotalLength(Members(groups[..g])) + m < |CsvRows(groups)|
    ensures CsvRows(groups)[TotalLength(Members(groups[..g])) + m]
         == CsvRow(groups[g].name, groups[g].members[m].name)
    decreases g
  {
    if g == 0 {
      assert Members(groups[..0]) == [];
      assert CsvRows(groups) == GroupRows(groups[0]) + CsvRows(groups[1..]);
    } else {
      var rest := groups[1..];
      CsvRowPlacement(rest, g - 1, m);
      MembersBeforeStep(groups, g);
      CsvRowsAfterFirst(groups, TotalLength(Members(rest[..g - 1])) + m);
    }
  }

  /** The members before group `g` are the first group's followed by those
      before `g` among the rest. */
  lemma MembersBeforeStep(groups: seq<Group>, g: nat)
    requires 0 < g <= |groups|
    ensures TotalLength(Members(groups[..g]))
         == |groups[0].members| + TotalLength(Members(groups[1..][..g - 1]))
  {
    assert groups[1..][..g - 1] == groups[1..g];
    assert Members(groups[..g])[1..] == Members(groups[1..][..g - 1]);
    assert Members(groups[..g])[0] == groups[0].members;
  }

  /** Past the first group's rows, the rows are those of the rest. */
  lemma CsvRowsAfterFirst(groups: seq<Group>, j: nat)
    requires |groups| > 0 && j < |CsvRows(groups[1..])|
    ensures |groups[0].members| + j < |CsvRows(groups)|
    ensures CsvRows(groups)[|groups[0].members| + j] == CsvRows(groups[1..])[j]
  {
    assert CsvRows(groups) == GroupRows(groups[0]) + CsvRows(groups[1..]);
  }

  /** Reads one row back: the text between the outer quotes, cut at the first
      `","`. Fails on text that is not shaped like a row. */
  function ParseCsvRow(row: string): (r: Option<(string, string)>)
  {
    if |row| >= 2 && row[0] == '"' && row[|row| - 1] == '"' then
      var inner := row[1..|row| - 1];
      var n := PieceLength(inner, {'"'});
      if n + 3 <= |inner| && inner[n..n + 3] == "\",\"" then Some((inner[..n], inner[n + 3..]))
      else None
    else None
  }

  /** A row whose group name contains no quote reads back as its two fields. */
  lemma CsvRowReadBack(groupName: string, memberName: string)
    requires Avoids(groupName, {'"'})
    ensures ParseCsvRow(CsvRow(groupName, memberName)) == Some((groupName, memberName))
  {
    var row := CsvRow(groupName, memberName);
    var tail := "\",\"" + memberName;
    var inner := row[1..|row| - 1];
    assert inner == groupName + tail;
    PieceLengthStops(groupName, tail, {'"'});
    assert inner[..|groupName|] == groupName;
    assert inner[|groupName|..|groupName| + 3] == "\",\"";
    assert inner[|groupName| + 3..] == memberName;
  }

  /** Because quotes inside a field are not doubled, two different pairs of
      names can produce the same row. */
  lemma CsvRowAmbiguous()
    ensures CsvRow("A\",\"B", "C") == CsvRow("A", "B\",\"C")
  {
  }
}
