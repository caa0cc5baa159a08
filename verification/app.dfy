/** The state transitions of the application shell (App.tsx): voting, status
    changes, edits, deletion, creation, e-mail verification, admin login and
    logout, each a function from one session state to the next. */
module App {
  import opened Common
  import opened Types
  import opened PollUtils
  import opened AuthUtils

  /** The part of the component state the handlers read and write. */
  datatype Session = Session(
    polls: seq<Poll>,
    user: User,
    store: Store,
    emailPrompt: Option<string>,
    editingPollId: Option<string>,
    deletingPollId: Option<string>,
    showCreatePoll: bool,
    showAdminLogin: bool,
    loginError: string,
    emailError: string)

  const InvalidLogin := "Invalid username or password"
  const NotAuthorized := "Your email is not authorized to vote in this poll. Please contact the administrator."

  // ------------------------------------------------------------------ voting

  /** How many options carry `id`. */
  function CountId(opts: seq<PollOption>, id: string): nat
  {
    if |opts| == 0 then 0 else (if opts[0].id == id then 1 else 0) + CountId(opts[1..], id)
  }

  /** The option map of a vote: every option whose id is `optionId` gains one. */
  function Bump(opts: seq<PollOption>, optionId: string): (r: seq<PollOption>)
    ensures |r| == |opts|
    ensures forall i :: 0 <= i < |opts| ==> r[i].id == opts[i].id && r[i].text == opts[i].text
    ensures forall i :: 0 <= i < |opts| ==> r[i].votes == if opts[i].id == optionId then opts[i].votes + 1 else opts[i].votes
  {
    MapSeq(opts, (o: PollOption) => if o.id == optionId then o.(votes := o.votes + 1) else o)
  }

  /** A vote adds one to the option sum per option carrying the id. */
  lemma {:induction false} SumVotesBump(opts: seq<PollOption>, optionId: string)
    ensures SumVotes(Bump(opts, optionId)) == SumVotes(opts) + CountId(opts, optionId)
  {
    if |opts| > 0 {
      SumVotesBump(opts[1..], optionId);
      assert Bump(opts, optionId)[1..] == Bump(opts[1..], optionId);
    }
  }

  /** The record update of one accepted vote. */
  function CastVote(p: Poll, optionId: string, voter: string): Poll
  {
    p.(options := Bump(p.options, optionId), totalVotes := p.totalVotes + 1, votedUsers := p.votedUsers + [voter])
  }

  /** `poll.id === pollId && !poll.votedUsers.includes(userId)`. */
  predicate Eligible(p: Poll, pollId: string, voter: string)
  {
    p.id == pollId && voter !in p.votedUsers
  }

  /** The `setPolls` map of `handleVote`. */
  function VoteAll(polls: seq<Poll>, pollId: string, optionId: string, voter: string): (r: seq<Poll>)
    ensures |r| == |polls|
    ensures forall j :: 0 <= j < |polls| ==>
      r[j] == if Eligible(polls[j], pollId, voter) then CastVote(polls[j], optionId, voter) else polls[j]
  {
    MapSeq(polls, (p: Poll) => if Eligible(p, pollId, voter) then CastVote(p, optionId, voter) else p)
  }

  /** `polls.find(p => p.id === pollId)`, as an index. */
  function FirstPoll(polls: seq<Poll>, pollId: string): Option<nat>
  {
    FindFirst(polls, (p: Poll) => p.id == pollId)
  }

  /** `handleVote`. The gates look at the first poll with the id: unknown or
      not active, nothing happens; restricted while the user has no e-mail,
      only the e-mail prompt opens. Otherwise every poll with the id that the
      user has not voted in records the vote. */
  function HandleVote(s: Session, pollId: string, optionId: string): (r: Session)
    ensures r.(polls := s.polls, emailPrompt := s.emailPrompt) == s
    ensures r.emailPrompt != s.emailPrompt ==> r.emailPrompt == Some(pollId) && r.polls == s.polls
    ensures (&& FirstPoll(s.polls, pollId).Some?
             && s.polls[FirstPoll(s.polls, pollId).value].status == Active
             && !(s.polls[FirstPoll(s.polls, pollId).value].isRestricted && !UserHasEmail(s.user)))
      ==> r.polls == VoteAll(s.polls, pollId, optionId, s.user.id)
  {
    match FirstPoll(s.polls, pollId)
    case None => s
    case Some(k) =>
      var poll := s.polls[k];
      if poll.status != Active then s
      else if poll.isRestricted && !UserHasEmail(s.user) then s.(emailPrompt := Some(pollId))
      else s.(polls := VoteAll(s.polls, pollId, optionId, s.user.id))
  }

  /** An unknown poll id, or a first match that is on hold or closed, changes
      nothing at all. */
  lemma VoteNeedsActivePoll(s: Session, pollId: string, optionId: string)
    requires FirstPoll(s.polls, pollId).None? || s.polls[FirstPoll(s.polls, pollId).value].status != Active
    ensures HandleVote(s, pollId, optionId) == s
  {
  }

  /** A restricted poll and a user without e-mail: the polls stay as they are
      and the e-mail prompt opens for this poll. */
  lemma VoteNeedsEmail(s: Session, pollId: string, optionId: string)
    requires FirstPoll(s.polls, pollId).Some?
    requires s.polls[FirstPoll(s.polls, pollId).value].status == Active
    requires s.polls[FirstPoll(s.polls, pollId).value].isRestricted && !UserHasEmail(s.user)
    ensures HandleVote(s, pollId, optionId) == s.(emailPrompt := Some(pollId))
  {
  }

  /** The vote is recorded only where the user has not voted: if the user is
      in the voter list of every poll with the id, the polls do not change. */
  lemma VoteAlreadyCast(s: Session, pollId: string, optionId: string)
    requires forall j :: 0 <= j < |s.polls| && s.polls[j].id == pollId ==> s.user.id in s.polls[j].votedUsers
    ensures HandleVote(s, pollId, optionId).polls == s.polls
  {
    var v := VoteAll(s.polls, pollId, optionId, s.user.id);
    assert forall j :: 0 <= j < |s.polls| ==> v[j] == s.polls[j];
  }

  /** Voting twice is the same as voting once, whatever option the second
      vote names. */
  lemma {:induction false} VoteTwiceIsNoop(s: Session, pollId: string, o1: string, o2: string)
    ensures HandleVote(HandleVote(s, pollId, o1), pollId, o2) == HandleVote(s, pollId, o1)
  {
    var s1 := HandleVote(s, pollId, o1);
    match FirstPoll(s.polls, pollId)
    case None =>
    case Some(k) =>
      var poll := s.polls[k];
      if poll.status == Active && !(poll.isRestricted && !UserHasEmail(s.user)) {
        var v := VoteAll(s.polls, pollId, o1, s.user.id);
        assert s1.polls == v;
        forall j | 0 <= j < |v| ensures v[j].id == s.polls[j].id && v[j].status == s.polls[j].status {
        }
        assert FirstPoll(v, pollId) == Some(k) by {
          forall j | 0 <= j < k ensures v[j].id != pollId {
            assert s.polls[j].id != pollId;
          }
        }
        forall j | 0 <= j < |v| && v[j].id == pollId ensures s.user.id in v[j].votedUsers {
          if Eligible(s.polls[j], pollId, s.user.id) {
            assert v[j].votedUsers == s.polls[j].votedUsers + [s.user.id];
            assert v[j].votedUsers[|s.polls[j].votedUsers|] == s.user.id;
          }
        }
        VoteAlreadyCast(s1, pollId, o2);
      }
  }

  /** One accepted vote on one poll: the named option (every option carrying
      the id) gains one, the others keep their counts, the total gains one and
      the voter is appended; nothing else in the poll changes. */
  lemma CastVoteEffect(p: Poll, optionId: string, voter: string)
    ensures var q := CastVote(p, optionId, voter);
      && |q.options| == |p.options|
      && (forall i :: 0 <= i < |p.options| && p.options[i].id == optionId ==> q.options[i] == p.options[i].(votes := p.options[i].votes + 1))
      && (forall i :: 0 <= i < |p.options| && p.options[i].id != optionId ==> q.options[i] == p.options[i])
      && q.totalVotes == p.totalVotes + 1
      && q.votedUsers == p.votedUsers + [voter]
      && q.(options := p.options, totalVotes := p.totalVotes, votedUsers := p.votedUsers) == p
  {
  }

  /** A vote that names exactly one option of the poll keeps the tally
      invariant. */
  lemma CastVoteKeepsTally(p: Poll, optionId: string, voter: string)
    requires Tallied(p) && voter !in p.votedUsers
    requires CountId(p.options, optionId) == 1
    ensures Tallied(CastVote(p, optionId, voter))
  {
    SumVotesBump(p.options, optionId);
    AppendKeepsDistinct(p.votedUsers, voter);
  }

  lemma AppendKeepsDistinct(xs: seq<string>, x: string)
    requires Distinct(xs) && x !in xs
    ensures Distinct(xs + [x])
  {
    var ys := xs + [x];
    forall i, j | 0 <= i < j < |ys| ensures ys[i] != ys[j] {
      if j == |xs| { assert ys[i] == xs[i]; } else { assert ys[i] == xs[i] && ys[j] == xs[j]; }
    }
  }

  /** The code does not reject an option id the poll lacks: such a vote still
      raises the total and records the voter, so the total no longer equals
      the option sum. */
  lemma UnknownOptionBreaksTally(p: Poll, optionId: string, voter: string)
    requires Tallied(p)
    requires CountId(p.options, optionId) == 0
    ensures var q := CastVote(p, optionId, voter);
      q.totalVotes == SumVotes(q.options) + 1 && !Tallied(q)
  {
    SumVotesBump(p.options, optionId);
  }

  /** A weaker invariant that every vote keeps, whatever option it names, as
      long as at most one option carries that id, and that edits keep too:
      the option sum never exceeds the total, and there is one distinct voter
      per counted vote. */
  predicate Accounted(p: Poll)
  {
    && SumVotes(p.options) <= p.totalVotes
    && |p.votedUsers| == p.totalVotes
    && Distinct(p.votedUsers)
  }

  lemma CastVoteKeepsAccounted(p: Poll, optionId: string, voter: string)
    requires Accounted(p) && voter !in p.votedUsers
    requires CountId(p.options, optionId) <= 1
    ensures Accounted(CastVote(p, optionId, voter))
  {
    SumVotesBump(p.options, optionId);
    AppendKeepsDistinct(p.votedUsers, voter);
  }

  /** Every poll the vote touches names at most one option with the id. */
  predicate OptionIdUnique(polls: seq<Poll>, pollId: string, optionId: string)
  {
    forall j :: 0 <= j < |polls| && polls[j].id == pollId ==> CountId(polls[j].options, optionId) <= 1
  }

  /** `handleVote` keeps every poll accounted. */
  lemma VoteKeepsAccounted(s: Session, pollId: string, optionId: string)
    requires forall j :: 0 <= j < |s.polls| ==> Accounted(s.polls[j])
    requires OptionIdUnique(s.polls, pollId, optionId)
    ensures var r := HandleVote(s, pollId, optionId);
      forall j :: 0 <= j < |r.polls| ==> Accounted(r.polls[j])
  {
    var v := VoteAll(s.polls, pollId, optionId, s.user.id);
    forall j | 0 <= j < |v| ensures Accounted(v[j]) {
      if Eligible(s.polls[j], pollId, s.user.id) {
        CastVoteKeepsAccounted(s.polls[j], optionId, s.user.id);
      }
    }
  }

  /** The polls in which the vote would be recorded. */
  function CountEligible(polls: seq<Poll>, pollId: string, voter: string): nat
  {
    if |polls| == 0 then 0 else (if Eligible(polls[0], pollId, voter) then 1 else 0) + CountEligible(polls[1..], pollId, voter)
  }

  lemma {:induction false} TotalVotesOfVoteAll(polls: seq<Poll>, pollId: string, optionId: string, voter: string)
    ensures TotalVotes(VoteAll(polls, pollId, optionId, voter)) == TotalVotes(polls) + CountEligible(polls, pollId, voter)
  {
    if |polls| > 0 {
      TotalVotesOfVoteAll(polls[1..], pollId, optionId, voter);
      assert VoteAll(polls, pollId, optionId, voter)[1..] == VoteAll(polls[1..], pollId, optionId, voter);
    }
  }

  /** `CountEligible` is 1 when exactly one poll carries the id and the user
      has not voted in it. */
  lemma {:induction false} CountEligibleOne(polls: seq<Poll>, pollId: string, voter: string, k: nat)
    requires k < |polls| && Eligible(polls[k], pollId, voter)
    requires forall j :: 0 <= j < |polls| && j != k ==> polls[j].id != pollId
    ensures CountEligible(polls, pollId, voter) == 1
  {
    if k == 0 {
      CountEligibleNone(polls[1..], pollId, voter);
    } else {
      assert polls[0].id != pollId;
      CountEligibleOne(polls[1..], pollId, voter, k - 1);
    }
  }

  lemma {:induction false} CountEligibleNone(polls: seq<Poll>, pollId: string, voter: string)
    requires forall j :: 0 <= j < |polls| ==> polls[j].id != pollId
    ensures CountEligible(polls, pollId, voter) == 0
  {
    if |polls| > 0 {
      CountEligibleNone(polls[1..], pollId, voter);
    }
  }

  /** The header total (`polls.reduce(...)` over `totalVotes`) rises by exactly
      one on a successful vote in a poll whose id is unique. */
  lemma VoteRaisesHeaderTotal(s: Session, pollId: string, optionId: string, k: nat)
    requires k < |s.polls| && s.polls[k].id == pollId
    requires forall j :: 0 <= j < |s.polls| && j != k ==> s.polls[j].id != pollId
    requires s.polls[k].status == Active
    requires !s.polls[k].isRestricted || UserHasEmail(s.user)
    requires s.user.id !in s.polls[k].votedUsers
    ensures TotalVotes(HandleVote(s, pollId, optionId).polls) == TotalVotes(s.polls) + 1
  {
    assert FirstPoll(s.polls, pollId) == Some(k);
    TotalVotesOfVoteAll(s.polls, pollId, optionId, s.user.id);
    CountEligibleOne(s.polls, pollId, s.user.id, k);
  }

  // ------------------------------------------------------- status and edits

  /** `handleStatusChange`. */
  function HandleStatusChange(s: Session, pollId: string, status: Status): (r: Session)
    ensures r.(polls := s.polls) == s
    ensures |r.polls| == |s.polls|
    ensures forall j :: 0 <= j < |s.polls| && s.polls[j].id == pollId ==> r.polls[j] == s.polls[j].(status := status)
    ensures forall j :: 0 <= j < |s.polls| && s.polls[j].id != pollId ==> r.polls[j] == s.polls[j]
  {
    s.(polls := MapSeq(s.polls, (p: Poll) => if p.id == pollId then p.(status := status) else p))
  }

  /** A status change touches nothing but the status: every poll is the same
      once its old status is put back, and the header total is unchanged. */
  lemma {:induction false} StatusChangeOnlyStatus(s: Session, pollId: string, status: Status)
    ensures var r := HandleStatusChange(s, pollId, status);
      && (forall j :: 0 <= j < |s.polls| ==> r.polls[j].(status := s.polls[j].status) == s.polls[j])
      && TotalVotes(r.polls) == TotalVotes(s.polls)
  {
    SameTotals(s.polls, HandleStatusChange(s, pollId, status).polls);
  }

  lemma {:induction false} SameTotals(a: seq<Poll>, b: seq<Poll>)
    requires |a| == |b|
    requires forall j :: 0 <= j < |a| ==> a[j].totalVotes == b[j].totalVotes
    ensures TotalVotes(a) == TotalVotes(b)
  {
    if |a| > 0 {
      SameTotals(a[1..], b[1..]);
    }
  }

  /** `handleUpdatePoll`: every poll with the id is replaced by `updatePoll`'s
      result, with the current user as the editing admin; the edit form closes. */
  function HandleUpdatePoll(s: Session, pollId: string, data: EditPollData, mint: nat -> string, now: nat): (r: Session)
    ensures r.(polls := s.polls, editingPollId := s.editingPollId) == s
    ensures r.editingPollId == None
    ensures |r.polls| == |s.polls|
    ensures forall j :: 0 <= j < |s.polls| && s.polls[j].id == pollId ==> r.polls[j] == UpdatePoll(s.polls[j], data, s.user.id, mint, now)
    ensures forall j :: 0 <= j < |s.polls| && s.polls[j].id != pollId ==> r.polls[j] == s.polls[j]
  {
    s.(polls := MapSeq(s.polls, (p: Poll) => if p.id == pollId then UpdatePoll(p, data, s.user.id, mint, now) else p),
       editingPollId := None)
  }

  /** Edits never change the header total, because `updatePoll` does not
      recompute `totalVotes`. */
  lemma UpdateKeepsHeaderTotal(s: Session, pollId: string, data: EditPollData, mint: nat -> string, now: nat)
    ensures TotalVotes(HandleUpdatePoll(s, pollId, data, mint, now).polls) == TotalVotes(s.polls)
  {
    SameTotals(s.polls, HandleUpdatePoll(s, pollId, data, mint, now).polls);
  }

  /** With distinct non-empty old ids and distinct submitted ids an edit keeps
      a poll accounted: options may lose votes but never gain any. */
  lemma UpdateKeepsAccounted(p: Poll, data: EditPollData, adminId: string, mint: nat -> string, now: nat)
    requires Accounted(p) && IdsUsable(p.options) && NonEmptyIdsDistinct(data.options)
    ensures Accounted(UpdatePoll(p, data, adminId, mint, now))
  {
    UpdateNeverAddsVotes(p, data, adminId, mint, now);
  }

  // -------------------------------------------------------------- deletion

  /** `confirmDeletePoll`: with a non-empty pending id, drops every poll with
      that id and clears the pending id; otherwise does nothing. */
  function ConfirmDeletePoll(s: Session): (r: Session)
    ensures s.deletingPollId.None? || s.deletingPollId == Some([]) ==> r == s
    ensures s.deletingPollId.Some? && s.deletingPollId.value != [] ==>
      && r.(polls := s.polls, deletingPollId := s.deletingPollId) == s
      && r.deletingPollId == None
      && r.polls == Filter(s.polls, (p: Poll) => p.id != s.deletingPollId.value)
  {
    match s.deletingPollId
    case Some(d) =>
      if d != [] then s.(polls := Filter(s.polls, (p: Poll) => p.id != d), deletingPollId := None) else s
    case None => s
  }

  /** After deletion no poll with the id is left, every other poll is still
      there, and the survivors keep their relative order: the polls before
      and after any split point are deleted from independently. */
  lemma DeleteRemovesExactly(s: Session, d: string, a: seq<Poll>, b: seq<Poll>)
    requires s.deletingPollId == Some(d) && d != []
    requires s.polls == a + b
    ensures var r := ConfirmDeletePoll(s);
      && (forall j :: 0 <= j < |r.polls| ==> r.polls[j].id != d)
      && (forall j :: 0 <= j < |s.polls| && s.polls[j].id != d ==> s.polls[j] in r.polls)
      && r.polls == ConfirmDeletePoll(s.(polls := a)).polls + ConfirmDeletePoll(s.(polls := b)).polls
  {
    FilterConcat(a, b, (p: Poll) => p.id != d);
    forall j | 0 <= j < |s.polls| && s.polls[j].id != d ensures s.polls[j] in ConfirmDeletePoll(s).polls {
      FilterKeeps(s.polls, (p: Poll) => p.id != d, j);
    }
  }

  // -------------------------------------------------------------- creation

  /** `getWhitelistedUsers().map(user => user.email)`; an entry without an
      e-mail (never stored by the whitelist manager) contributes "". */
  function WhitelistEmails(users: seq<WhitelistUser>): (r: seq<string>)
    ensures |r| == |users|
    ensures forall i :: 0 <= i < |users| && EmailOf(users[i]).Some? ==> r[i] == EmailOf(users[i]).value
  {
    MapSeq(users, (u: WhitelistUser) => match EmailOf(u) case Some(e) => e case None => [])
  }

  /** `handleCreatePoll`: refused for a non-admin; otherwise the new poll,
      restricted to the whitelist e-mails when asked, goes to the front. */
  function HandleCreatePoll(s: Session, data: CreatePollData, mint: nat -> string, now: nat): (r: Session)
    ensures s.user.role != Admin ==> r == s
    ensures s.user.role == Admin ==>
      var allowed := if data.isRestricted == Some(true) then Some(WhitelistEmails(GetWhitelistedUsers(s.store))) else None;
      && r.polls == [CreatePoll(data, allowed, mint, now)] + s.polls
      && r.(polls := s.polls, showCreatePoll := s.showCreatePoll) == s
      && !r.showCreatePoll
  {
    if s.user.role != Admin then s
    else
      var allowed := if data.isRestricted == Some(true) then Some(WhitelistEmails(GetWhitelistedUsers(s.store))) else None;
      s.(polls := [CreatePoll(data, allowed, mint, now)] + s.polls, showCreatePoll := false)
  }

  /** An admin's new poll heads the list, is tallied and active, and is
      restricted to exactly the stored whitelist e-mails when asked. The old
      polls follow unchanged and the header total does not move. */
  lemma CreatePollPrepends(s: Session, data: CreatePollData, mint: nat -> string, now: nat)
    requires s.user.role == Admin
    ensures var r := HandleCreatePoll(s, data, mint, now);
      && |r.polls| == |s.polls| + 1
      && r.polls[1..] == s.polls
      && Tallied(r.polls[0]) && r.polls[0].status == Active
      && (data.isRestricted == Some(true) ==> r.polls[0].allowedUsers == Some(WhitelistEmails(GetWhitelistedUsers(s.store))))
      && (data.isRestricted != Some(true) ==> r.polls[0].allowedUsers == None)
      && TotalVotes(r.polls) == TotalVotes(s.polls)
  {
    var allowed := if data.isRestricted == Some(true) then Some(WhitelistEmails(GetWhitelistedUsers(s.store))) else None;
    var r := HandleCreatePoll(s, data, mint, now);
    CreatedPollIsTallied(data, allowed, mint, now);
    assert r.polls[1..] == s.polls;
  }

  // -------------------------------------------------------------- identity

  /** `handleEmailVerification`: an address not on the whitelist only sets
      the error; otherwise the e-mail and name are attached to the current
      user (stored as well), the prompt closes and the error clears. */
  function HandleEmailVerification(s: Session, email: string, name: string): (r: Session)
    ensures !IsUserWhitelisted(s.store, email) ==> r == s.(emailError := NotAuthorized)
    ensures IsUserWhitelisted(s.store, email) ==>
      && r.user == s.user.(email := Some(email), name := Some(name))
      && r.store == SetCurrentUser(s.store, r.user)
      && r.emailPrompt == None && r.emailError == []
      && r.polls == s.polls
      && r == s.(user := r.user, store := r.store, emailPrompt := None, emailError := [])
  {
    if !IsUserWhitelisted(s.store, email) then s.(emailError := NotAuthorized)
    else
      var u := s.user.(email := Some(email), name := Some(name));
      s.(user := u, store := SetCurrentUser(s.store, u), emailPrompt := None, emailError := [])
  }

  /** `handleAdminLogin`: with the right credentials the user becomes the
      admin carrying the device id of `getUserId`; otherwise only the error is
      set. */
  function HandleAdminLogin(s: Session, c: AdminCredentials, freshId: string): (r: Session)
    ensures !AuthenticateAdmin(c) ==> r == s.(loginError := InvalidLogin)
    ensures AuthenticateAdmin(c) ==>
      && r.user == User(GetUserId(s.store, freshId).0, Admin, Some(c.username), None, None)
      && r.store == SetCurrentUser(GetUserId(s.store, freshId).1, r.user)
      && !r.showAdminLogin && r.loginError == []
      && r.polls == s.polls
      && r == s.(user := r.user, store := r.store, showAdminLogin := false, loginError := [])
  {
    if !AuthenticateAdmin(c) then s.(loginError := InvalidLogin)
    else
      var (id, st) := GetUserId(s.store, freshId);
      var u := User(id, Admin, Some(c.username), None, None);
      s.(user := u, store := SetCurrentUser(st, u), showAdminLogin := false, loginError := [])
  }

  /** `handleLogout`: the session key goes, the user becomes the default
      regular user, and the create, edit and delete views close. */
  function HandleLogout(s: Session, freshId: string): (r: Session)
    ensures r.polls == s.polls
    ensures !r.showCreatePoll && r.editingPollId == None && r.deletingPollId == None
    ensures r.user == DefaultUser(GetUserId(Logout(s.store), freshId).0)
    ensures r.store == GetCurrentUser(Logout(s.store), freshId).1
    ensures r == s.(user := r.user, store := r.store, showCreatePoll := false, editingPollId := None, deletingPollId := None)
  {
    var (u, st) := GetCurrentUser(Logout(s.store), freshId);
    s.(user := u, store := st, showCreatePoll := false, editingPollId := None, deletingPollId := None)
  }

  /** The visitor's identity is the persisted device id. */
  predicate IdentityPersisted(s: Session)
  {
    PersistedId(s.store) == Some(s.user.id)
  }

  /** Verifying an e-mail changes the e-mail and name only: the id and role
      stay, and so does the persisted identity. */
  lemma EmailVerificationKeepsIdentity(s: Session, email: string, name: string)
    requires IdentityPersisted(s)
    ensures var r := HandleEmailVerification(s, email, name);
      r.user.id == s.user.id && r.user.role == s.user.role && IdentityPersisted(r)
  {
    var r := HandleEmailVerification(s, email, name);
    assert PersistedId(r.store) == PersistedId(s.store);
  }

  /** Logging in as admin changes the role, not the identity: the admin
      carries the id the visitor already had. */
  lemma AdminLoginKeepsIdentity(s: Session, c: AdminCredentials, freshId: string)
    requires IdentityPersisted(s) && AuthenticateAdmin(c)
    ensures var r := HandleAdminLogin(s, c, freshId);
      r.user.id == s.user.id && r.user.role == Admin && IdentityPersisted(r)
  {
    var r := HandleAdminLogin(s, c, freshId);
    assert PersistedId(r.store) == PersistedId(s.store);
  }

  /** A first admin login on a fresh device persists the new id it issues. */
  lemma AdminLoginEstablishesIdentity(s: Session, c: AdminCredentials, freshId: string)
    requires AuthenticateAdmin(c) && freshId != []
    ensures IdentityPersisted(HandleAdminLogin(s, c, freshId))
  {
    var r := HandleAdminLogin(s, c, freshId);
    assert PersistedId(r.store) == PersistedId(GetUserId(s.store, freshId).1);
  }

  /** Logging out keeps the identity: the regular user left behind has the
      same id, and no new id is drawn. */
  lemma LogoutKeepsIdentity(s: Session, freshId: string)
    requires IdentityPersisted(s)
    ensures var r := HandleLogout(s, freshId);
      r.user == DefaultUser(s.user.id) && IdentityPersisted(r)
  {
    LogoutKeepsDeviceId(s.store, freshId);
    assert PersistedId(Logout(s.store)) == PersistedId(s.store);
  }
}
