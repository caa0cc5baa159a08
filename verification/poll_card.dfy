/** The logic of one poll card (components/PollCard.tsx): whether a click
    forwards a vote, which option is highlighted as winning, how an option
    row looks, and the "recent changes" box. */
module PollCard {
  import opened Common
  import opened Types
  import opened PollUtils
  import opened App

  /** `poll.votedUsers.includes(currentUser.id)`. */
  predicate HasVoted(poll: Poll, user: User)
  {
    user.id in poll.votedUsers
  }

  /** `showResults || hasVoted`. */
  predicate DisplayResults(poll: Poll, user: User, showResults: bool)
  {
    showResults || HasVoted(poll, user)
  }

  /** A call of the card's `onVote` callback. */
  datatype VoteCall = VoteCall(pollId: string, optionId: string)

  /** The card's `handleVote`: nothing unless the poll is active; a restricted
      poll and a user without e-mail always forward (the shell then asks for
      the e-mail); otherwise only a user who has not voted forwards. */
  function CardVote(poll: Poll, user: User, optionId: string): (r: Option<VoteCall>)
    ensures r.Some? ==> r.value == VoteCall(poll.id, optionId)
  {
    if poll.status != Active then None
    else if poll.isRestricted && !UserHasEmail(user) then Some(VoteCall(poll.id, optionId))
    else if !HasVoted(poll, user) && user.id !in poll.votedUsers then Some(VoteCall(poll.id, optionId))
    else None
  }

  /** When `handleVote` forwards, as one condition. */
  lemma CardVoteIff(poll: Poll, user: User, optionId: string)
    ensures CardVote(poll, user, optionId).Some? <==>
      poll.status == Active && ((poll.isRestricted && !UserHasEmail(user)) || !HasVoted(poll, user))
    ensures poll.isRestricted && !UserHasEmail(user) && HasVoted(poll, user) && poll.status == Active ==>
      CardVote(poll, user, optionId).Some?
  {
  }

  /** The option row's `onClick`: only while results are hidden and the poll
      is active does it reach `handleVote`. */
  function Click(poll: Poll, user: User, showResults: bool, optionId: string): (r: Option<VoteCall>)
    ensures DisplayResults(poll, user, showResults) ==> r == None
    ensures poll.status != Active ==> r == None
  {
    if !DisplayResults(poll, user, showResults) && poll.status == Active then CardVote(poll, user, optionId)
    else None
  }

  /** A click while results are hidden on an active poll always forwards:
      hidden results already mean the user has not voted. */
  lemma ClickForwardsIff(poll: Poll, user: User, showResults: bool, optionId: string)
    ensures Click(poll, user, showResults, optionId) == Some(VoteCall(poll.id, optionId)) <==>
      !DisplayResults(poll, user, showResults) && poll.status == Active
    ensures Click(poll, user, showResults, optionId).Some? ==> !HasVoted(poll, user)
  {
  }

  /** A forwarded click is never lost by the shell: for the poll the shell
      finds under that id, it either opens the e-mail prompt or records the
      vote in that poll. */
  lemma ForwardedClickCounts(s: Session, k: nat, showResults: bool, optionId: string)
    requires k < |s.polls| && FirstPoll(s.polls, s.polls[k].id) == Some(k)
    requires Click(s.polls[k], s.user, showResults, optionId).Some?
    ensures var poll := s.polls[k];
      var r := HandleVote(s, poll.id, optionId);
      && (poll.isRestricted && !UserHasEmail(s.user) ==> r == s.(emailPrompt := Some(poll.id)))
      && (!(poll.isRestricted && !UserHasEmail(s.user)) ==>
            |r.polls| == |s.polls| && r.polls[k] == CastVote(poll, optionId, s.user.id))
  {
  }

  /** `getWinningOption()`: the first option with the most votes. The card
      calls it while rendering, so it cannot render a poll with no options. */
  function WinningOption(poll: Poll): PollOption
    requires |poll.options| > 0
  {
    poll.options[WinnerIndex(poll.options)]
  }

  /** `isWinning` of option `j`: results shown, some vote cast, and the
      option's id is the winner's id. */
  predicate IsWinning(poll: Poll, user: User, showResults: bool, j: nat)
    requires j < |poll.options|
  {
    DisplayResults(poll, user, showResults) && poll.options[j].id == WinningOption(poll).id && poll.totalVotes > 0
  }

  /** With distinct option ids exactly the first most-voted option is
      highlighted, and only while results are shown and a vote exists. */
  lemma WinnerHighlight(poll: Poll, user: User, showResults: bool, j: nat)
    requires j < |poll.options| && Distinct(OptionIds(poll.options))
    ensures IsWinning(poll, user, showResults, j) <==>
      && DisplayResults(poll, user, showResults) && poll.totalVotes > 0
      && (forall k :: 0 <= k < |poll.options| ==> poll.options[k].votes <= poll.options[j].votes)
      && (forall k :: 0 <= k < j ==> poll.options[k].votes < poll.options[j].votes)
  {
    var w := WinnerIndex(poll.options);
    assert OptionIds(poll.options)[j] == poll.options[j].id;
    assert OptionIds(poll.options)[w] == poll.options[w].id;
  }

  /** At most one option is highlighted when the ids are distinct. */
  lemma OneWinner(poll: Poll, user: User, showResults: bool, i: nat, j: nat)
    requires i < |poll.options| && j < |poll.options| && Distinct(OptionIds(poll.options))
    requires IsWinning(poll, user, showResults, i) && IsWinning(poll, user, showResults, j)
    ensures i == j
  {
    assert OptionIds(poll.options)[i] == poll.options[i].id;
    assert OptionIds(poll.options)[j] == poll.options[j].id;
  }

  /** The four looks of an option row. */
  datatype Look = Winner | Result | Locked | Open

  /** The class chosen for option `j`. */
  function OptionLook(poll: Poll, user: User, showResults: bool, j: nat): Look
    requires j < |poll.options|
  {
    if DisplayResults(poll, user, showResults) then
      if IsWinning(poll, user, showResults, j) then Winner else Result
    else if HasVoted(poll, user) || poll.status != Active then Locked
    else Open
  }

  /** A row looks clickable exactly when clicking it forwards a vote. */
  lemma OpenIffClickForwards(poll: Poll, user: User, showResults: bool, j: nat)
    requires j < |poll.options|
    ensures OptionLook(poll, user, showResults, j) == Open <==> Click(poll, user, showResults, poll.options[j].id).Some?
  {
  }

  // ---------------------------------------------------------- recent changes

  /** The "recent changes" box: the lines shown, and the count of the
      "And n more changes..." line when there is one. */
  datatype Recent = Recent(shown: seq<string>, more: Option<nat>)

  /** Nothing when the poll was never edited; otherwise the first three
      changes of the latest edit record and the count of the rest when more
      than three. */
  function RecentChanges(poll: Poll): (r: Option<Recent>)
    ensures r.None? <==> poll.editHistory == []
  {
    if |poll.editHistory| == 0 then None
    else
      var changes := poll.editHistory[|poll.editHistory| - 1].changes;
      Some(Recent(changes[..if |changes| < 3 then |changes| else 3], if |changes| > 3 then Some(|changes| - 3) else None))
  }

  /** The box shows a prefix of the latest record's changes of length
      min(3, n), announces the rest iff n > 3, and together the shown lines
      and the announced count account for every change exactly. */
  lemma RecentChangesAccount(poll: Poll)
    requires poll.editHistory != []
    ensures var changes := poll.editHistory[|poll.editHistory| - 1].changes;
      var r := RecentChanges(poll).value;
      && |r.shown| <= 3 && (|r.shown| == 3 || r.shown == changes)
      && r.shown <= changes
      && (r.more.Some? <==> |changes| > 3)
      && |r.shown| + (if r.more.Some? then r.more.value else 0) == |changes|
  {
  }
}
