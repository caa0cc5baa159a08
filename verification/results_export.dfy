/** The results export (components/PollResultsExport.tsx): the record built
    per poll, the CSV text (a summary row per poll, then a detail line per
    option) and the totals of the JSON document. Date formatting is the
    supplied `formatDate`; the export date is a supplied string. */
module ResultsExport {
  import opened Common
  import opened Strings
  import opened Types
  import opened PollUtils

  datatype ExportOption = ExportOption(text: string, votes: nat, percentage: nat)

  datatype ExportEdit = ExportEdit(timestamp: string, changes: seq<string>, adminId: string)

  /** One entry of `resultsData`. It has no field for the voters or for the
      allowed e-mails. */
  datatype ExportRecord = ExportRecord(
    id: string,
    title: string,
    description: string,
    createdAt: string,
    lastEditedAt: Option<string>,
    totalVotes: nat,
    isRestricted: bool,
    options: seq<ExportOption>,
    winningOption: string,
    editHistory: seq<ExportEdit>)

  // -------------------------------------------------------------- projection

  function ExportOptions(opts: seq<PollOption>, totalVotes: nat): (r: seq<ExportOption>)
    ensures |r| == |opts|
    ensures forall i :: 0 <= i < |opts| ==>
      r[i] == ExportOption(opts[i].text, opts[i].votes, CalculatePercentage(opts[i].votes, totalVotes))
  {
    seq(|opts|, i requires 0 <= i < |opts| =>
      ExportOption(opts[i].text, opts[i].votes, CalculatePercentage(opts[i].votes, totalVotes)))
  }

  function ExportEdits(history: seq<EditRecord>, formatDate: nat -> string): (r: seq<ExportEdit>)
    ensures |r| == |history|
    ensures forall i :: 0 <= i < |history| ==>
      r[i] == ExportEdit(formatDate(history[i].timestamp), history[i].changes, history[i].adminId)
  {
    seq(|history|, i requires 0 <= i < |history| =>
      ExportEdit(formatDate(history[i].timestamp), history[i].changes, history[i].adminId))
  }

  /** The record of one poll. `options.reduce` without a start value throws
      on an empty option list, which aborts the whole export: None. */
  function Project(poll: Poll, formatDate: nat -> string): (r: Option<ExportRecord>)
    ensures r.Some? <==> |poll.options| > 0
  {
    if |poll.options| == 0 then None
    else
      Some(ExportRecord(
        poll.id, poll.title, poll.description, formatDate(poll.createdAt),
        if poll.lastEditedAt.Some? then Some(formatDate(poll.lastEditedAt.value)) else None,
        poll.totalVotes, poll.isRestricted,
        ExportOptions(poll.options, poll.totalVotes),
        poll.options[WinnerIndex(poll.options)].text,
        ExportEdits(poll.editHistory, formatDate)))
  }

  /** `resultsData`: one record per poll in poll order, or None when some
      poll has no options. */
  function ResultsData(polls: seq<Poll>, formatDate: nat -> string): (r: Option<seq<ExportRecord>>)
    ensures r.Some? <==> forall i :: 0 <= i < |polls| ==> |polls[i].options| > 0
    ensures r.Some? ==> |r.value| == |polls| && forall i :: 0 <= i < |polls| ==> Project(polls[i], formatDate) == Some(r.value[i])
  {
    if |polls| == 0 then Some([])
    else
      assert forall i :: 0 <= i < |polls| - 1 ==> polls[1..][i] == polls[i + 1];
      var first := Project(polls[0], formatDate);
      var rest := ResultsData(polls[1..], formatDate);
      if first.Some? && rest.Some? then Some([first.value] + rest.value) else None
  }

  /** The record carries the poll's fields, each option's text, votes and
      percentage in order, and each edit's changes and author in order. */
  lemma ProjectFields(poll: Poll, formatDate: nat -> string)
    requires |poll.options| > 0
    ensures var r := Project(poll, formatDate).value;
      && r.id == poll.id && r.title == poll.title && r.description == poll.description
      && r.totalVotes == poll.totalVotes && r.isRestricted == poll.isRestricted
      && |r.options| == |poll.options|
      && (forall i :: 0 <= i < |poll.options| ==>
            r.options[i].text == poll.options[i].text && r.options[i].votes == poll.options[i].votes)
      && |r.editHistory| == |poll.editHistory|
      && (forall i :: 0 <= i < |poll.editHistory| ==>
            r.editHistory[i].changes == poll.editHistory[i].changes && r.editHistory[i].adminId == poll.editHistory[i].adminId)
  {
  }

  /** Who voted and who may vote do not reach the export. */
  lemma ExportHidesVoters(poll: Poll, voters: seq<string>, allowed: Option<seq<string>>, formatDate: nat -> string)
    ensures Project(poll, formatDate) == Project(poll.(votedUsers := voters, allowedUsers := allowed), formatDate)
  {
  }

  /** The winning option is the text of the first option with the most
      votes: no option has more, and every earlier option has fewer. */
  lemma WinningOptionIsFirstMax(poll: Poll, formatDate: nat -> string)
    requires |poll.options| > 0
    ensures exists w ::
      && 0 <= w < |poll.options|
      && Project(poll, formatDate).value.winningOption == poll.options[w].text
      && (forall j :: 0 <= j < |poll.options| ==> poll.options[j].votes <= poll.options[w].votes)
      && (forall j :: 0 <= j < w ==> poll.options[j].votes < poll.options[w].votes)
  {
    var w := WinnerIndex(poll.options);
    assert Project(poll, formatDate).value.winningOption == poll.options[w].text;
  }

  lemma {:induction false} VotesWithinSum(opts: seq<PollOption>, i: nat)
    requires i < |opts|
    ensures opts[i].votes <= SumVotes(opts)
  {
    if i > 0 {
      VotesWithinSum(opts[1..], i - 1);
    }
  }

  /** When the option votes do not exceed the poll's total, every exported
      percentage lies between 0 and 100. */
  lemma ExportedPercentagesBounded(poll: Poll, formatDate: nat -> string)
    requires |poll.options| > 0 && SumVotes(poll.options) <= poll.totalVotes
    ensures forall o :: o in Project(poll, formatDate).value.options ==> o.percentage <= 100
  {
    var r := Project(poll, formatDate).value;
    forall o | o in r.options ensures o.percentage <= 100 {
      var i :| 0 <= i < |r.options| && r.options[i] == o;
      VotesWithinSum(poll.options, i);
      PercentageBounds(poll.options[i].votes, poll.totalVotes);
    }
  }

  // --------------------------------------------------------------------- CSV

  const SummaryColumns := ["Poll ID", "Title", "Description", "Created At", "Total Votes", "Winning Option", "Is Restricted"]
  /** "Poll ID,Title,Description,Created At,Total Votes,Winning Option,Is Restricted". */
  const SummaryHeaderLine := Join(SummaryColumns, ',')
  const DetailHeader := "\n\nDetailed Results:\nPoll ID,Poll Title,Option,Votes,Percentage\n"

  /** A field in double quotes; an embedded quote is not doubled. */
  function Quote(s: string): string
  {
    "\"" + s + "\""
  }

  function BoolText(b: bool): string
  {
    if b then "true" else "false"
  }

  /** The summary row of one record. */
  function SummaryRow(r: ExportRecord): string
  {
    Quote(r.id) + "," + Quote(r.title) + "," + Quote(r.description) + "," + Quote(r.createdAt) + ","
      + NatToString(r.totalVotes) + "," + Quote(r.winningOption) + "," + BoolText(r.isRestricted)
  }

  function SummaryRows(rs: seq<ExportRecord>): (r: seq<string>)
    ensures |r| == |rs|
    ensures forall i :: 0 <= i < |rs| ==> r[i] == SummaryRow(rs[i])
  {
    seq(|rs|, i requires 0 <= i < |rs| => SummaryRow(rs[i]))
  }

  /** The header line, a line break, and the summary rows joined by breaks. */
  function SummaryText(rs: seq<ExportRecord>): string
  {
    SummaryHeaderLine + "\n" + Join(SummaryRows(rs), '\n')
  }

  /** The detail line of one option of one record. */
  function DetailLine(r: ExportRecord, o: ExportOption): string
  {
    Quote(r.id) + "," + Quote(r.title) + "," + Quote(o.text) + "," + NatToString(o.votes) + ","
      + NatToString(o.percentage) + "%\n"
  }

  function OptionLines(r: ExportRecord): (lines: seq<string>)
    ensures |lines| == |r.options|
    ensures forall j :: 0 <= j < |r.options| ==> lines[j] == DetailLine(r, r.options[j])
  {
    seq(|r.options|, j requires 0 <= j < |r.options| => DetailLine(r, r.options[j]))
  }

  /** The nested `forEach`: poll by poll, option by option. */
  function DetailLines(rs: seq<ExportRecord>): seq<string>
  {
    if |rs| == 0 then [] else OptionLines(rs[0]) + DetailLines(rs[1..])
  }

  /** The string concatenation of `optionsData +=`. */
  function Concat(lines: seq<string>): string
  {
    if |lines| == 0 then [] else lines[0] + Concat(lines[1..])
  }

  /** The whole CSV file. */
  function CsvContent(rs: seq<ExportRecord>): string
  {
    SummaryText(rs) + DetailHeader + Concat(DetailLines(rs))
  }

  /** The number of (poll, option) pairs. */
  function OptionCount(rs: seq<ExportRecord>): nat
  {
    if |rs| == 0 then 0 else |rs[0].options| + OptionCount(rs[1..])
  }

  lemma {:induction false} OptionCountSplit(rs: seq<ExportRecord>, p: nat)
    requires p < |rs|
    ensures OptionCount(rs[..p + 1]) == OptionCount(rs[..p]) + |rs[p].options|
  {
    if p > 0 {
      assert rs[..p + 1][1..] == rs[1..][..p];
      assert rs[..p][1..] == rs[1..][..p - 1];
      OptionCountSplit(rs[1..], p - 1);
    } else {
      assert rs[..1][1..] == [];
    }
  }

  lemma {:induction false} OptionCountPrefix(rs: seq<ExportRecord>, p: nat)
    requires p <= |rs|
    ensures OptionCount(rs[..p]) <= OptionCount(rs)
    decreases |rs| - p
  {
    if p < |rs| {
      OptionCountSplit(rs, p);
      OptionCountPrefix(rs, p + 1);
    } else {
      assert rs[..p] == rs;
    }
  }

  /** One detail line per (poll, option) pair. */
  lemma {:induction false} DetailLinesCount(rs: seq<ExportRecord>)
    ensures |DetailLines(rs)| == OptionCount(rs)
  {
    if |rs| > 0 {
      DetailLinesCount(rs[1..]);
    }
  }

  /** The line of option `o` of poll `p` sits after the lines of all earlier
      polls' options: poll-then-option order. */
  lemma {:induction false} DetailLineAt(rs: seq<ExportRecord>, p: nat, o: nat)
    requires p < |rs| && o < |rs[p].options|
    ensures OptionCount(rs[..p]) + o < |DetailLines(rs)|
    ensures DetailLines(rs)[OptionCount(rs[..p]) + o] == DetailLine(rs[p], rs[p].options[o])
  {
    DetailLinesCount(rs);
    if p == 0 {
      assert rs[..0] == [];
    } else {
      DetailLineAt(rs[1..], p - 1, o);
      assert rs[..p][1..] == rs[1..][..p - 1];
      assert OptionCount(rs[..p]) == |rs[0].options| + OptionCount(rs[1..][..p - 1]);
    }
  }

  /** Every detail line ends in the percentage sign and a line break. */
  lemma DetailLinesEnd(rs: seq<ExportRecord>, k: nat)
    requires k < |DetailLines(rs)|
    ensures EndsWith(DetailLines(rs)[k], "%\n")
    decreases |rs|
  {
    if |rs| > 0 {
      var first := OptionLines(rs[0]);
      if k < |first| {
        var line := first[k];
        assert line == (Quote(rs[0].id) + "," + Quote(rs[0].title) + "," + Quote(rs[0].options[k].text) + ","
          + NatToString(rs[0].options[k].votes) + "," + NatToString(rs[0].options[k].percentage)) + "%\n";
      } else {
        DetailLinesEnd(rs[1..], k - |first|);
      }
    }
  }

  /** No field that the summary row quotes contains a line break. */
  predicate NoBreaks(r: ExportRecord)
  {
    '\n' !in r.id && '\n' !in r.title && '\n' !in r.description && '\n' !in r.createdAt && '\n' !in r.winningOption
  }

  lemma NoBreakInRow(r: ExportRecord)
    requires NoBreaks(r)
    ensures '\n' !in SummaryRow(r)
  {
    var digits := NatToString(r.totalVotes);
    assert forall i :: 0 <= i < |digits| ==> IsDigit(digits[i]);
    assert '\n' !in BoolText(r.isRestricted);
  }

  lemma HeaderHasNoBreak()
    ensures '\n' !in SummaryHeaderLine
  {
    assert '\n' !in "Poll ID" && '\n' !in "Title" && '\n' !in "Description" && '\n' !in "Created At";
    assert '\n' !in "Total Votes" && '\n' !in "Winning Option" && '\n' !in "Is Restricted";
    JoinAvoids(SummaryColumns, ',', '\n');
  }

  /** With no line break inside the fields, the summary is the header line
      and exactly one line per poll, in poll order. */
  lemma SummaryOneLinePerPoll(rs: seq<ExportRecord>)
    requires |rs| >= 1
    requires forall i :: 0 <= i < |rs| ==> NoBreaks(rs[i])
    ensures Split(SummaryText(rs), '\n') == [SummaryHeaderLine] + SummaryRows(rs)
  {
    var lines := [SummaryHeaderLine] + SummaryRows(rs);
    HeaderHasNoBreak();
    forall k | 0 <= k < |lines| ensures '\n' !in lines[k] {
      if k > 0 {
        NoBreakInRow(rs[k - 1]);
      }
    }
    assert lines[1..] == SummaryRows(rs);
    assert Join(lines, '\n') == SummaryText(rs);
    SplitJoin(lines, '\n');
  }

  // -------------------------------------------------------------------- JSON

  /** The JSON document: export date, counts and the records. */
  datatype JsonExport = JsonExport(exportDate: string, totalPolls: nat, totalVotes: nat, polls: seq<ExportRecord>)

  function JsonDocument(polls: seq<Poll>, formatDate: nat -> string, exportDate: string): (r: Option<JsonExport>)
    ensures r.Some? <==> ResultsData(polls, formatDate).Some?
  {
    match ResultsData(polls, formatDate)
    case Some(rs) => Some(JsonExport(exportDate, |polls|, TotalVotes(polls), rs))
    case None => None
  }

  /** The sum of the exported records' vote totals. */
  function RecordVotes(rs: seq<ExportRecord>): nat
  {
    if |rs| == 0 then 0 else rs[0].totalVotes + RecordVotes(rs[1..])
  }

  lemma {:induction false} RecordVotesMatch(polls: seq<Poll>, rs: seq<ExportRecord>, formatDate: nat -> string)
    requires |rs| == |polls|
    requires forall i :: 0 <= i < |polls| ==> Project(polls[i], formatDate) == Some(rs[i])
    ensures RecordVotes(rs) == TotalVotes(polls)
  {
    if |polls| > 0 {
      RecordVotesMatch(polls[1..], rs[1..], formatDate);
    }
  }

  /** `totalPolls` counts the records listed and `totalVotes` is the sum of
      the listed records' totals. */
  lemma JsonTotals(polls: seq<Poll>, formatDate: nat -> string, exportDate: string)
    requires JsonDocument(polls, formatDate, exportDate).Some?
    ensures var d := JsonDocument(polls, formatDate, exportDate).value;
      && d.totalPolls == |d.polls| == |polls|
      && d.totalVotes == RecordVotes(d.polls)
      && d.exportDate == exportDate
  {
    var rs := ResultsData(polls, formatDate).value;
    RecordVotesMatch(polls, rs, formatDate);
  }
}
