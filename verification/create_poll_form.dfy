/** The create-poll form (components/CreatePoll.tsx): the option-list editing
    operations and what the form submits. */
module CreatePollForm {
  import opened Common
  import opened Strings
  import opened Types
  import opened FormValidation

  const MinOptions := 2
  const MaxOptions := 8

  /** The form's state: the text fields and the option rows as typed. */
  datatype CreateForm = CreateForm(title: string, description: string, options: seq<string>, isRestricted: bool)

  /** The form as it opens: empty fields and two empty option rows. */
  function Initial(): (f: CreateForm)
    ensures f.options == ["", ""] && f.title == [] && f.description == [] && !f.isRestricted
  {
    CreateForm([], [], ["", ""], false)
  }

  /** `addOption`: an empty row is appended while there are fewer than 8. */
  function AddOption(f: CreateForm): (r: CreateForm)
    ensures |f.options| < MaxOptions ==> r.options == f.options + [""]
    ensures |f.options| >= MaxOptions ==> r == f
    ensures r.(options := f.options) == f
  {
    if |f.options| < MaxOptions then f.(options := f.options + [""]) else f
  }

  /** `removeOption(index)`: row `index` goes while there are more than 2. */
  function RemoveOption(f: CreateForm, index: int): (r: CreateForm)
    ensures |f.options| > MinOptions && 0 <= index < |f.options| ==>
      |r.options| == |f.options| - 1
      && (forall j :: 0 <= j < index ==> r.options[j] == f.options[j])
      && (forall j :: index <= j < |r.options| ==> r.options[j] == f.options[j + 1])
    ensures |f.options| <= MinOptions ==> r == f
    ensures r.(options := f.options) == f
  {
    if |f.options| > MinOptions then f.(options := RemoveAt(f.options, index)) else f
  }

  /** `updateOption(index, value)` on a row the form shows. */
  function UpdateOption(f: CreateForm, index: nat, value: string): (r: CreateForm)
    requires index < |f.options|
    ensures |r.options| == |f.options| && r.options[index] == value
    ensures forall j :: 0 <= j < |f.options| && j != index ==> r.options[j] == f.options[j]
    ensures r.(options := f.options) == f
  {
    f.(options := f.options[index := value])
  }

  /** The access radio buttons: "restricted" is disabled while the whitelist
      is empty, so choosing it then changes nothing; "public" is always
      available. */
  function ChooseAccess(f: CreateForm, restricted: bool, whitelist: seq<WhitelistUser>): (r: CreateForm)
    ensures r.(isRestricted := f.isRestricted) == f
    ensures r.isRestricted <==> restricted && (|whitelist| > 0 || f.isRestricted)
  {
    if restricted && |whitelist| == 0 then f else f.(isRestricted := restricted)
  }

  /** With no whitelisted users, a form that starts public submits a public
      poll, whatever is chosen. */
  lemma {:induction false} NoWhitelistStaysPublic(f: CreateForm, choices: seq<bool>)
    requires !f.isRestricted
    ensures !ChooseAll(f, choices, []).isRestricted
    decreases |choices|
  {
    if |choices| > 0 {
      NoWhitelistStaysPublic(ChooseAccess(f, choices[0], []), choices[1..]);
    }
  }

  function ChooseAll(f: CreateForm, choices: seq<bool>, whitelist: seq<WhitelistUser>): CreateForm
    decreases |choices|
  {
    if |choices| == 0 then f else ChooseAll(ChooseAccess(f, choices[0], whitelist), choices[1..], whitelist)
  }

  /** A user action on the option rows. */
  datatype Action = Add | Remove(index: int) | Update(index: int, value: string)

  /** Applies one action; an update of a row that is not shown is not an
      action the form can produce and leaves the form as it is. */
  function Step(f: CreateForm, a: Action): CreateForm
  {
    match a
    case Add => AddOption(f)
    case Remove(i) => RemoveOption(f, i)
    case Update(i, v) => if 0 <= i < |f.options| then UpdateOption(f, i, v) else f
  }

  function Run(f: CreateForm, actions: seq<Action>): CreateForm
    decreases |actions|
  {
    if |actions| == 0 then f else Run(Step(f, actions[0]), actions[1..])
  }

  predicate RowsInRange(f: CreateForm)
  {
    MinOptions <= |f.options| <= MaxOptions
  }

  /** Every action keeps the number of rows between 2 and 8. */
  lemma StepKeepsRange(f: CreateForm, a: Action)
    requires RowsInRange(f)
    ensures RowsInRange(Step(f, a))
  {
  }

  /** From the opening form, any sequence of actions leaves between 2 and 8
      option rows. */
  lemma {:induction false} RowsStayInRange(f: CreateForm, actions: seq<Action>)
    requires RowsInRange(f)
    ensures RowsInRange(Run(f, actions))
    decreases |actions|
  {
    if |actions| > 0 {
      StepKeepsRange(f, actions[0]);
      RowsStayInRange(Step(f, actions[0]), actions[1..]);
    }
  }

  lemma InitialInRange()
    ensures RowsInRange(Initial())
    ensures forall actions :: RowsInRange(Run(Initial(), actions))
  {
    forall actions ensures RowsInRange(Run(Initial(), actions)) {
      RowsStayInRange(Initial(), actions);
    }
  }

  /** `handleSubmit`: nothing when validation fails; otherwise the trimmed
      title and description, the non-blank rows untrimmed and in order, and
      the restriction flag. */
  function HandleSubmit(f: CreateForm): (r: Option<CreatePollData>)
    ensures r.Some? <==> NoErrors(Validate(f.title, f.description, f.options))
    ensures r.Some? ==> r.value == CreatePollData(Trim(f.title), Trim(f.description), NonBlank(f.options), Some(f.isRestricted))
  {
    if NoErrors(Validate(f.title, f.description, f.options)) then
      Some(CreatePollData(Trim(f.title), Trim(f.description), NonBlank(f.options), Some(f.isRestricted)))
    else None
  }

  /** What a submission guarantees: trimmed, non-blank title and description,
      at least two options, none blank, no two equal after trimming and
      lower-casing, each one a row of the form. */
  lemma SubmissionIsClean(f: CreateForm)
    requires HandleSubmit(f).Some?
    ensures var d := HandleSubmit(f).value;
      && IsTrimmed(d.title) && d.title != []
      && IsTrimmed(d.description) && d.description != []
      && |d.options| >= MinOptions
      && Distinct(Normalized(d.options))
      && (forall i :: 0 <= i < |d.options| ==> !IsBlank(d.options[i]) && d.options[i] in f.options)
  {
    ValidateIff(f.title, f.description, f.options);
  }

  /** Every non-blank row is submitted, and rows keep their relative order:
      the rows before and after any split point are filtered independently. */
  lemma SubmissionKeepsRows(f: CreateForm, i: nat, a: seq<string>, b: seq<string>)
    requires HandleSubmit(f).Some?
    requires i < |f.options| && !IsBlank(f.options[i])
    requires f.options == a + b
    ensures f.options[i] in HandleSubmit(f).value.options
    ensures HandleSubmit(f).value.options == NonBlank(a) + NonBlank(b)
  {
    FilterKeeps(f.options, (t: string) => !IsBlank(t), i);
    FilterConcat(a, b, (t: string) => !IsBlank(t));
  }

  /** A submitted poll passes the same validation again. */
  lemma SubmissionRevalidates(f: CreateForm)
    requires HandleSubmit(f).Some?
    ensures var d := HandleSubmit(f).value;
      NoErrors(Validate(d.title, d.description, d.options))
  {
    var d := HandleSubmit(f).value;
    ValidateIff(f.title, f.description, f.options);
    NonBlankIdempotent(f.options);
    TrimIdempotent(f.title);
    TrimIdempotent(f.description);
    ValidateIff(d.title, d.description, d.options);
  }
}
