/** The edit-poll form (components/EditPoll.tsx): it opens on the poll's
    own option list, edits it with the same length rules as the create form,
    and submits the non-blank rows with their ids. */
module EditPollForm {
  import opened Common
  import opened Strings
  import opened Types
  import opened PollUtils
  import opened FormValidation

  const MinOptions := 2
  const MaxOptions := 8

  datatype EditForm = EditForm(title: string, description: string, options: seq<EditOption>)

  /** The form as it opens on `poll`: its title, description and (id, text)
      pairs in poll order. */
  function InitialEdit(poll: Poll): (f: EditForm)
    ensures f.title == poll.title && f.description == poll.description
    ensures |f.options| == |poll.options|
    ensures forall i :: 0 <= i < |poll.options| ==> f.options[i] == EditOption(poll.options[i].id, poll.options[i].text)
  {
    EditForm(poll.title, poll.description, AsEditOptions(poll.options))
  }

  /** `addOption`: a new row with the empty id, while there are fewer than 8. */
  function AddOption(f: EditForm): (r: EditForm)
    ensures |f.options| < MaxOptions ==> r.options == f.options + [EditOption([], [])]
    ensures |f.options| >= MaxOptions ==> r == f
    ensures r.(options := f.options) == f
  {
    if |f.options| < MaxOptions then f.(options := f.options + [EditOption([], [])]) else f
  }

  /** `removeOption(index)`, while there are more than 2 rows. */
  function RemoveOption(f: EditForm, index: int): (r: EditForm)
    ensures |f.options| > MinOptions && 0 <= index < |f.options| ==>
      |r.options| == |f.options| - 1
      && (forall j :: 0 <= j < index ==> r.options[j] == f.options[j])
      && (forall j :: index <= j < |r.options| ==> r.options[j] == f.options[j + 1])
    ensures |f.options| <= MinOptions ==> r == f
    ensures r.(options := f.options) == f
  {
    if |f.options| > MinOptions then f.(options := RemoveAt(f.options, index)) else f
  }

  /** `updateOption(index, value)`: the text of row `index` changes; its id,
      the other rows and the length do not. */
  function UpdateOption(f: EditForm, index: nat, value: string): (r: EditForm)
    requires index < |f.options|
    ensures |r.options| == |f.options|
    ensures r.options[index] == EditOption(f.options[index].id, value)
    ensures forall j :: 0 <= j < |f.options| && j != index ==> r.options[j] == f.options[j]
    ensures r.(options := f.options) == f
  {
    f.(options := f.options[index := f.options[index].(text := value)])
  }

  datatype Action = Add | Remove(index: int) | Update(index: int, value: string)

  /** Applies one action; an update of a row that is not shown leaves the form
      as it is. */
  function Step(f: EditForm, a: Action): EditForm
  {
    match a
    case Add => AddOption(f)
    case Remove(i) => RemoveOption(f, i)
    case Update(i, v) => if 0 <= i < |f.options| then UpdateOption(f, i, v) else f
  }

  function Run(f: EditForm, actions: seq<Action>): EditForm
    decreases |actions|
  {
    if |actions| == 0 then f else Run(Step(f, actions[0]), actions[1..])
  }

  predicate RowsInRange(f: EditForm)
  {
    MinOptions <= |f.options| <= MaxOptions
  }

  lemma {:induction false} RowsStayInRange(f: EditForm, actions: seq<Action>)
    requires RowsInRange(f)
    ensures RowsInRange(Run(f, actions))
    decreases |actions|
  {
    if |actions| > 0 {
      RowsStayInRange(Step(f, actions[0]), actions[1..]);
    }
  }

  // ------------------------------------------------------------------ ids

  /** Every non-empty id on the form is an id of the poll, and none repeats. */
  predicate IdsFrom(opts: seq<EditOption>, poll: Poll)
  {
    && (forall i :: 0 <= i < |opts| && opts[i].id != [] ==> opts[i].id in OptionIds(poll.options))
    && NonEmptyIdsDistinct(opts)
  }

  lemma InitialIdsFrom(poll: Poll)
    requires Distinct(OptionIds(poll.options))
    ensures IdsFrom(InitialEdit(poll).options, poll)
  {
    var opts := InitialEdit(poll).options;
    forall i | 0 <= i < |opts| && opts[i].id != [] ensures opts[i].id in OptionIds(poll.options) {
      assert OptionIds(poll.options)[i] == opts[i].id;
    }
    forall i, j | 0 <= i < |opts| && 0 <= j < |opts| && i != j && opts[i].id != []
      ensures opts[i].id != opts[j].id {
      assert OptionIds(poll.options)[i] == opts[i].id && OptionIds(poll.options)[j] == opts[j].id;
    }
  }

  lemma StepKeepsIds(f: EditForm, a: Action, poll: Poll)
    requires IdsFrom(f.options, poll)
    ensures IdsFrom(Step(f, a).options, poll)
  {
    match a
    case Add =>
      if |f.options| < MaxOptions {
        var r := Step(f, a).options;
        assert forall i :: 0 <= i < |f.options| ==> r[i] == f.options[i];
      }
    case Remove(index) =>
      if |f.options| > MinOptions && 0 <= index < |f.options| {
        RemoveKeepsIds(f.options, index, poll);
      }
    case Update(index, v) =>
      if 0 <= index < |f.options| {
        var r := Step(f, a).options;
        assert forall i :: 0 <= i < |r| ==> r[i].id == f.options[i].id;
      }
  }

  lemma RemoveKeepsIds(opts: seq<EditOption>, index: nat, poll: Poll)
    requires index < |opts| && IdsFrom(opts, poll)
    ensures IdsFrom(RemoveAt(opts, index), poll)
  {
    var r := RemoveAt(opts, index);
    forall i, j | 0 <= i < |r| && 0 <= j < |r| && i != j && r[i].id != [] ensures r[i].id != r[j].id {
      var i' := if i < index then i else i + 1;
      var j' := if j < index then j else j + 1;
      assert r[i] == opts[i'] && r[j] == opts[j'];
    }
    forall i | 0 <= i < |r| && r[i].id != [] ensures r[i].id in OptionIds(poll.options) {
      if i < index { assert r[i] == opts[i]; } else { assert r[i] == opts[i + 1]; }
    }
  }

  /** Editing never introduces an id the poll does not have, nor a repeat. */
  lemma {:induction false} RunKeepsIds(f: EditForm, actions: seq<Action>, poll: Poll)
    requires IdsFrom(f.options, poll)
    ensures IdsFrom(Run(f, actions).options, poll)
    decreases |actions|
  {
    if |actions| > 0 {
      StepKeepsIds(f, actions[0], poll);
      RunKeepsIds(Step(f, actions[0]), actions[1..], poll);
    }
  }

  // ------------------------------------------------------------ submission

  /** `options.filter(option => option.text.trim())`. */
  function NonBlankRows(opts: seq<EditOption>): (r: seq<EditOption>)
    ensures forall i :: 0 <= i < |r| ==> !IsBlank(r[i].text) && r[i] in opts
  {
    Filter(opts, (o: EditOption) => !IsBlank(o.text))
  }

  /** Rows are filtered independently and keep their order: the non-blank
      rows of two runs of rows are those of the first, then those of the
      second. */
  lemma NonBlankRowsConcat(a: seq<EditOption>, b: seq<EditOption>)
    ensures NonBlankRows(a + b) == NonBlankRows(a) + NonBlankRows(b)
  {
    FilterConcat(a, b, (o: EditOption) => !IsBlank(o.text));
  }

  /** A single row survives, id and text as typed, exactly when its text is
      not blank. */
  lemma NonBlankRowsSingle(o: EditOption)
    ensures NonBlankRows([o]) == if IsBlank(o.text) then [] else [o]
  {
    FilterSingleton(o, (o: EditOption) => !IsBlank(o.text));
  }

  /** The texts of the non-blank rows are the non-blank texts. */
  lemma {:induction false} NonBlankRowsTexts(opts: seq<EditOption>)
    ensures EditTexts(NonBlankRows(opts)) == NonBlank(EditTexts(opts))
  {
    if |opts| > 0 {
      NonBlankRowsTexts(opts[1..]);
      assert EditTexts(opts)[1..] == EditTexts(opts[1..]);
      if !IsBlank(opts[0].text) {
        assert EditTexts(NonBlankRows(opts)) == [opts[0].text] + EditTexts(NonBlankRows(opts[1..]));
      }
    }
  }

  /** Filtering rows keeps the non-empty ids distinct and from the poll. */
  lemma {:induction false} NonBlankRowsKeepIds(opts: seq<EditOption>, poll: Poll)
    requires IdsFrom(opts, poll)
    ensures IdsFrom(NonBlankRows(opts), poll)
  {
    if |opts| > 0 {
      var tail := opts[1..];
      TailKeepsIds(opts, poll);
      NonBlankRowsKeepIds(tail, poll);
      var rest := NonBlankRows(tail);
      if !IsBlank(opts[0].text) {
        assert NonBlankRows(opts) == [opts[0]] + rest;
        forall k | 0 <= k < |rest| && opts[0].id != [] ensures rest[k].id != opts[0].id {
          assert rest[k] in tail;
          var m :| 0 <= m < |tail| && tail[m] == rest[k];
          assert opts[m + 1] == rest[k];
        }
        ConsKeepsIds(opts[0], rest, poll);
      }
    }
  }

  /** Dropping the first row keeps the ids distinct and from the poll. */
  lemma TailKeepsIds(opts: seq<EditOption>, poll: Poll)
    requires |opts| > 0 && IdsFrom(opts, poll)
    ensures IdsFrom(opts[1..], poll)
  {
    var tail := opts[1..];
    forall i, j | 0 <= i < |tail| && 0 <= j < |tail| && i != j && tail[i].id != [] ensures tail[i].id != tail[j].id {
      assert tail[i] == opts[i + 1] && tail[j] == opts[j + 1];
    }
    forall i | 0 <= i < |tail| && tail[i].id != [] ensures tail[i].id in OptionIds(poll.options) {
      assert tail[i] == opts[i + 1];
    }
  }

  /** A row put in front keeps the ids distinct and from the poll when its
      id, if any, is the poll's and no later row has it. */
  lemma ConsKeepsIds(x: EditOption, rest: seq<EditOption>, poll: Poll)
    requires IdsFrom(rest, poll)
    requires x.id != [] ==> x.id in OptionIds(poll.options) && forall k :: 0 <= k < |rest| ==> rest[k].id != x.id
    ensures IdsFrom([x] + rest, poll)
  {
    var r := [x] + rest;
    forall i, j | 0 <= i < |r| && 0 <= j < |r| && i != j && r[i].id != [] ensures r[i].id != r[j].id {
      if i == 0 {
        assert r[j] == rest[j - 1];
      } else if j == 0 {
        assert r[i] == rest[i - 1];
      } else {
        assert r[i] == rest[i - 1] && r[j] == rest[j - 1];
      }
    }
    forall i | 0 <= i < |r| && r[i].id != [] ensures r[i].id in OptionIds(poll.options) {
      if i > 0 { assert r[i] == rest[i - 1]; }
    }
  }

  /** `handleSubmit`: nothing when validation fails; otherwise the trimmed
      title and description and the non-blank rows, ids kept and text
      untrimmed. */
  function HandleSubmit(f: EditForm): (r: Option<EditPollData>)
    ensures r.Some? <==> NoErrors(Validate(f.title, f.description, EditTexts(f.options)))
    ensures r.Some? ==> r.value == EditPollData(Trim(f.title), Trim(f.description), NonBlankRows(f.options))
  {
    if NoErrors(Validate(f.title, f.description, EditTexts(f.options))) then
      Some(EditPollData(Trim(f.title), Trim(f.description), NonBlankRows(f.options)))
    else None
  }

  /** What an accepted edit submits: at least two rows, none blank, texts
      distinct after trimming and lower-casing, every row one of the form's. */
  lemma SubmissionIsClean(f: EditForm)
    requires HandleSubmit(f).Some?
    ensures var d := HandleSubmit(f).value;
      && IsTrimmed(d.title) && d.title != []
      && IsTrimmed(d.description) && d.description != []
      && |d.options| >= MinOptions
      && Distinct(Normalized(EditTexts(d.options)))
      && (forall i :: 0 <= i < |d.options| ==> !IsBlank(d.options[i].text) && d.options[i] in f.options)
  {
    ValidateIff(f.title, f.description, EditTexts(f.options));
    NonBlankRowsTexts(f.options);
  }

  /** Every non-blank row is submitted with its id, and rows keep their
      relative order: the rows before and after any split point are filtered
      independently. */
  lemma SubmissionKeepsRows(f: EditForm, i: nat, a: seq<EditOption>, b: seq<EditOption>)
    requires HandleSubmit(f).Some?
    requires i < |f.options| && !IsBlank(f.options[i].text)
    requires f.options == a + b
    ensures f.options[i] in HandleSubmit(f).value.options
    ensures HandleSubmit(f).value.options == NonBlankRows(a) + NonBlankRows(b)
  {
    FilterKeeps(f.options, (o: EditOption) => !IsBlank(o.text), i);
    NonBlankRowsConcat(a, b);
  }

  /** The whole edit session cannot create votes: starting from a poll with
      distinct, non-empty option ids, whatever rows are added, removed or
      retyped, the submitted edit gives options holding at most the votes
      the poll's options held. */
  lemma EditSessionNeverAddsVotes(poll: Poll, actions: seq<Action>, adminId: string, mint: nat -> string, now: nat)
    requires IdsUsable(poll.options)
    ensures match HandleSubmit(Run(InitialEdit(poll), actions))
      case Some(d) => SumVotes(UpdatePoll(poll, d, adminId, mint, now).options) <= SumVotes(poll.options)
      case None => true
  {
    var f := Run(InitialEdit(poll), actions);
    InitialIdsFrom(poll);
    RunKeepsIds(InitialEdit(poll), actions, poll);
    match HandleSubmit(f)
    case Some(d) =>
      NonBlankRowsKeepIds(f.options, poll);
      UpdateNeverAddsVotes(poll, d, adminId, mint, now);
    case None =>
  }
}
