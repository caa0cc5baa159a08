/** The `validateForm` rule the create and edit forms share
    (components/CreatePoll.tsx and components/EditPoll.tsx): a title, a
    description, at least two non-blank options, and no two options equal
    once trimmed and lower-cased. */
module FormValidation {
  import opened Common
  import opened Strings

  /** The error stored under the `options` key; a duplicate overwrites the
      "too few" message because it is checked second. */
  datatype OptionsError = TooFewOptions | DuplicateOptions

  /** The keys of `newErrors`. */
  datatype FormErrors = FormErrors(titleMissing: bool, descriptionMissing: bool, options: Option<OptionsError>)

  const TitleRequired := "Title is required"
  const DescriptionRequired := "Description is required"
  const TooFewMessage := "At least 2 options are required"
  const DuplicateMessage := "All options must be unique"

  function OptionsMessage(e: OptionsError): string
  {
    match e
    case TooFewOptions => TooFewMessage
    case DuplicateOptions => DuplicateMessage
  }

  /** `options.filter(option => option.trim())`: the entries that are not
      blank (`Trim` is empty exactly on blank strings), untrimmed, in their
      order. */
  function NonBlank(texts: seq<string>): (r: seq<string>)
    ensures forall i :: 0 <= i < |r| ==> !IsBlank(r[i])
    ensures forall i :: 0 <= i < |r| ==> r[i] in texts
  {
    Filter(texts, (t: string) => !IsBlank(t))
  }

  /** `opt.trim().toLowerCase()` of every entry (the CSV import reads its
      header keys the same way). */
  function Normalized(texts: seq<string>): (r: seq<string>)
    ensures |r| == |texts|
    ensures forall i :: 0 <= i < |texts| ==> r[i] == Lower(Trim(texts[i]))
  {
    seq(|texts|, i requires 0 <= i < |texts| => Lower(Trim(texts[i])))
  }

  /** The options check of `validateForm` on the normalised non-blank
      entries (as many as the non-blank entries): a duplicate is reported
      even when there are also too few, since its message is written last. */
  function OptionsCheck(n: seq<string>): (r: Option<OptionsError>)
    ensures r == Some(DuplicateOptions) <==> !Distinct(n)
    ensures r == Some(TooFewOptions) <==> Distinct(n) && |n| < 2
    ensures r == None <==> Distinct(n) && |n| >= 2
  {
    DistinctIffSetSize(n);
    if |ToSet(n)| != |n| then Some(DuplicateOptions)
    else if |n| < 2 then Some(TooFewOptions)
    else None
  }

  /** `validateForm` as the error record it builds. */
  function Validate(title: string, description: string, texts: seq<string>): FormErrors
  {
    FormErrors(Trim(title) == [], Trim(description) == [], OptionsCheck(Normalized(NonBlank(texts))))
  }

  /** `Object.keys(newErrors).length === 0`. */
  predicate NoErrors(e: FormErrors)
  {
    !e.titleMissing && !e.descriptionMissing && e.options.None?
  }

  /** The form is accepted exactly when the title and the description are
      not blank, at least two options are not blank, and the non-blank
      options are distinct after trimming and lower-casing. */
  lemma ValidateIff(title: string, description: string, texts: seq<string>)
    ensures NoErrors(Validate(title, description, texts)) <==>
      && Trim(title) != [] && Trim(description) != []
      && |NonBlank(texts)| >= 2
      && Distinct(Normalized(NonBlank(texts)))
  {
  }

  /** Filtering twice is filtering once. */
  lemma NonBlankIdempotent(texts: seq<string>)
    ensures NonBlank(NonBlank(texts)) == NonBlank(texts)
  {
    var r := NonBlank(texts);
    FilterAll(r, (t: string) => !IsBlank(t));
  }
}
