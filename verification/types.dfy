/** The records of the polling application (types/poll.ts and types/auth.ts).
    Timestamps are opaque naturals; optional fields are `Option`s. */
module Types {
  import opened Common

  /** The three lifecycle states of a poll: 'active' | 'on-hold' | 'closed'. */
  datatype Status = Active | OnHold | Closed

  datatype PollOption = PollOption(id: string, text: string, votes: nat)

  /** One admin edit: when, the human-readable change lines, and who. */
  datatype EditRecord = EditRecord(timestamp: nat, changes: seq<string>, adminId: string)

  datatype Poll = Poll(
    id: string,
    title: string,
    description: string,
    options: seq<PollOption>,
    createdAt: nat,
    totalVotes: nat,
    votedUsers: seq<string>,
    lastEditedAt: Option<nat>,
    editHistory: seq<EditRecord>,
    allowedUsers: Option<seq<string>>,
    isRestricted: bool,
    status: Status)

  /** What the creation form submits; `isRestricted` is optional in the type. */
  datatype CreatePollData = CreatePollData(
    title: string,
    description: string,
    options: seq<string>,
    isRestricted: Option<bool>)

  /** An option as the edit form holds it; a newly added one has id "". */
  datatype EditOption = EditOption(id: string, text: string)

  datatype EditPollData = EditPollData(title: string, description: string, options: seq<EditOption>)

  /** 'admin' | 'user'. */
  datatype Role = Admin | Regular

  datatype User = User(
    id: string,
    role: Role,
    username: Option<string>,
    email: Option<string>,
    name: Option<string>)

  datatype AdminCredentials = AdminCredentials(username: string, password: string)

  /** A whitelist entry. The CSV import stores one key per header column, so an
      entry is its map of fields; `email` is the one the program reads. */
  datatype WhitelistUser = WhitelistUser(fields: map<string, string>)

  const EmailField := "email"

  /** `user.email`, when present. */
  function EmailOf(u: WhitelistUser): Option<string>
  {
    if EmailField in u.fields then Some(u.fields[EmailField]) else None
  }

  /** The JavaScript truthiness of `user.email`: present and non-empty. */
  predicate HasEmail(u: WhitelistUser)
  {
    EmailField in u.fields && u.fields[EmailField] != []
  }

  /** The JavaScript truthiness of `currentUser.email`. */
  predicate UserHasEmail(u: User)
  {
    u.email.Some? && u.email.value != []
  }

  function OptionTexts(opts: seq<PollOption>): (r: seq<string>)
    ensures |r| == |opts|
    ensures forall i :: 0 <= i < |opts| ==> r[i] == opts[i].text
  {
    MapSeq(opts, (o: PollOption) => o.text)
  }

  function OptionIds(opts: seq<PollOption>): (r: seq<string>)
    ensures |r| == |opts|
    ensures forall i :: 0 <= i < |opts| ==> r[i] == opts[i].id
  {
    MapSeq(opts, (o: PollOption) => o.id)
  }

  function EditTexts(opts: seq<EditOption>): (r: seq<string>)
    ensures |r| == |opts|
    ensures forall i :: 0 <= i < |opts| ==> r[i] == opts[i].text
  {
    MapSeq(opts, (o: EditOption) => o.text)
  }

  /** Every non-empty id occurs once: the empty id marks an option still to
      be minted and may repeat. */
  predicate NonEmptyIdsDistinct(opts: seq<EditOption>)
  {
    forall i, j :: 0 <= i < |opts| && 0 <= j < |opts| && i != j && opts[i].id != [] ==> opts[i].id != opts[j].id
  }

  /** The sum of the option tallies. */
  function SumVotes(opts: seq<PollOption>): nat
  {
    if |opts| == 0 then 0 else opts[0].votes + SumVotes(opts[1..])
  }

  lemma {:induction false} SumVotesConcat(a: seq<PollOption>, b: seq<PollOption>)
    ensures SumVotes(a + b) == SumVotes(a) + SumVotes(b)
  {
    if |a| == 0 {
      assert a + b == b;
    } else {
      assert (a + b)[1..] == a[1..] + b;
      SumVotesConcat(a[1..], b);
    }
  }
}
