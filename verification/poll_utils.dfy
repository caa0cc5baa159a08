/** The poll factory and the edit-reconciliation engine (utils/pollUtils.ts),
    plus the tallying helpers the views share: the rounded percentage, the
    winning option and the sum of poll totals. */
module PollUtils {
  import opened Common
  import opened Strings
  import opened Types

  /** The tally invariant the data model describes: the total is the sum of
      the option counts and there is one distinct voter per vote. */
  predicate Tallied(p: Poll)
  {
    && p.totalVotes == SumVotes(p.options)
    && |p.votedUsers| == p.totalVotes
    && Distinct(p.votedUsers)
  }

  // ---------------------------------------------------------------- creation

  /** `createPoll`. Ids come from the generator `mint`: option i gets
      `mint(i)` and the poll, minted after its options, `mint(|options|)`. */
  function CreatePoll(data: CreatePollData, allowedUsers: Option<seq<string>>, mint: nat -> string, now: nat): (p: Poll)
    ensures |p.options| == |data.options|
    ensures forall i :: 0 <= i < |p.options| ==> p.options[i] == PollOption(mint(i), data.options[i], 0)
    ensures p.id == mint(|data.options|)
    ensures p.title == data.title && p.description == data.description && p.createdAt == now
    ensures p.totalVotes == 0 && p.votedUsers == [] && p.editHistory == []
    ensures p.lastEditedAt == None && p.status == Active
    ensures p.isRestricted <==> data.isRestricted == Some(true)
    ensures p.allowedUsers == if p.isRestricted then allowedUsers else None
  {
    var restricted := data.isRestricted == Some(true);
    Poll(
      mint(|data.options|),
      data.title,
      data.description,
      seq(|data.options|, i requires 0 <= i < |data.options| => PollOption(mint(i), data.options[i], 0)),
      now,
      0,
      [],
      None,
      [],
      if restricted then allowedUsers else None,
      restricted,
      Active)
  }

  lemma {:induction false} SumVotesAllZero(opts: seq<PollOption>)
    requires forall i :: 0 <= i < |opts| ==> opts[i].votes == 0
    ensures SumVotes(opts) == 0
  {
    if |opts| > 0 {
      SumVotesAllZero(opts[1..]);
    }
  }

  /** A freshly created poll satisfies the tally invariant. */
  lemma CreatedPollIsTallied(data: CreatePollData, allowedUsers: Option<seq<string>>, mint: nat -> string, now: nat)
    ensures Tallied(CreatePoll(data, allowedUsers, mint, now))
  {
    SumVotesAllZero(CreatePoll(data, allowedUsers, mint, now).options);
  }

  /** With an injective generator the option ids are distinct and differ from
      the poll id. */
  lemma CreatedIdsDistinct(data: CreatePollData, allowedUsers: Option<seq<string>>, mint: nat -> string, now: nat)
    requires forall i: nat, j: nat :: i != j ==> mint(i) != mint(j)
    ensures var p := CreatePoll(data, allowedUsers, mint, now);
      Distinct(OptionIds(p.options)) && p.id !in OptionIds(p.options)
  {
    var p := CreatePoll(data, allowedUsers, mint, now);
    var ids := OptionIds(p.options);
    forall i, j | 0 <= i < j < |ids| ensures ids[i] != ids[j] {
      assert ids[i] == mint(i) && ids[j] == mint(j);
    }
    assert p.id !in ids by {
      forall i | 0 <= i < |ids| ensures ids[i] != p.id {
        assert ids[i] == mint(i);
      }
    }
  }

  // -------------------------------------------------------------- change log

  /** One line of an edit record, before it is rendered as text. */
  datatype Change =
    | TitleChanged(from: string, to: string)
    | DescriptionUpdated
    | OptionAdded(text: string)
    | OptionRemoved(text: string)
    | OptionChanged(from: string, to: string)

  function Quoted(s: string): string
  {
    "\"" + s + "\""
  }

  /** The human-readable line stored in `EditRecord.changes`. */
  function Describe(c: Change): string
  {
    match c
    case TitleChanged(a, b) => "Title changed from " + Quoted(a) + " to " + Quoted(b)
    case DescriptionUpdated => "Description updated"
    case OptionAdded(t) => "Added option: " + Quoted(t)
    case OptionRemoved(t) => "Removed option: " + Quoted(t)
    case OptionChanged(a, b) => "Changed option from " + Quoted(a) + " to " + Quoted(b)
  }

  /** The pass a change belongs to; the log lists the passes in this order. */
  function Rank(c: Change): nat
  {
    match c
    case TitleChanged(_, _) => 0
    case DescriptionUpdated => 1
    case OptionAdded(_) => 2
    case OptionRemoved(_) => 3
    case OptionChanged(_, _) => 4
  }

  /** `newOptions.filter(text => !oldOptions.includes(text))`. */
  function AddedTexts(oldTexts: seq<string>, newTexts: seq<string>): seq<string>
  {
    Filter(newTexts, (t: string) => t !in oldTexts)
  }

  /** `oldOptions.filter(text => !newOptions.includes(text))`. */
  function RemovedTexts(oldTexts: seq<string>, newTexts: seq<string>): seq<string>
  {
    Filter(oldTexts, (t: string) => t !in newTexts)
  }

  /** `data.options.find(opt => opt.id === id)`, as an index. */
  function FirstWithId(submitted: seq<EditOption>, id: string): Option<nat>
  {
    FindFirst(submitted, (e: EditOption) => e.id == id)
  }

  /** The rename line, if any, for one old option: the first submitted option
      carrying its id has a different text. */
  function RenameOf(o: PollOption, submitted: seq<EditOption>): (r: Option<Change>)
    ensures r.Some? ==> r.value.OptionChanged? && r.value.from == o.text
  {
    match FirstWithId(submitted, o.id)
    case Some(k) => if submitted[k].text != o.text then Some(OptionChanged(o.text, submitted[k].text)) else None
    case None => None
  }

  /** The rename line of one old option as a block of zero or one lines. */
  function RenameLine(o: PollOption, submitted: seq<EditOption>): seq<Change>
  {
    match RenameOf(o, submitted) case Some(c) => [c] case None => []
  }

  /** The third pass, over the old options in their order. */
  function Renames(prior: seq<PollOption>, submitted: seq<EditOption>): (r: seq<Change>)
    ensures |r| <= |prior|
    ensures forall i :: 0 <= i < |r| ==> r[i].OptionChanged?
    ensures forall c :: c in r <==> exists i :: 0 <= i < |prior| && RenameOf(prior[i], submitted) == Some(c)
  {
    if |prior| == 0 then []
    else
      var here := RenameLine(prior[0], submitted);
      var rest := Renames(prior[1..], submitted);
      assert forall c :: (exists i :: 0 <= i < |prior| && RenameOf(prior[i], submitted) == Some(c)) <==>
        (RenameOf(prior[0], submitted) == Some(c) || exists i :: 0 <= i < |prior[1..]| && RenameOf(prior[1..][i], submitted) == Some(c)) by {
        forall c ensures (exists i :: 0 <= i < |prior| && RenameOf(prior[i], submitted) == Some(c)) ==>
          (RenameOf(prior[0], submitted) == Some(c) || exists i :: 0 <= i < |prior[1..]| && RenameOf(prior[1..][i], submitted) == Some(c)) {
          if exists i :: 0 <= i < |prior| && RenameOf(prior[i], submitted) == Some(c) {
            var i :| 0 <= i < |prior| && RenameOf(prior[i], submitted) == Some(c);
            if i > 0 { assert prior[1..][i - 1] == prior[i]; }
          }
        }
      }
      here + rest
  }

  /** The first pass: the title line, present iff the title changed. */
  function TitleBlock(poll: Poll, data: EditPollData): (r: seq<Change>)
    ensures forall i :: 0 <= i < |r| ==> Rank(r[i]) == 0
    ensures forall a, b :: TitleChanged(a, b) in r <==> a == poll.title && b == data.title && a != b
  {
    if poll.title != data.title then [TitleChanged(poll.title, data.title)] else []
  }

  /** The second pass: "Description updated", present iff the description changed. */
  function DescriptionBlock(poll: Poll, data: EditPollData): (r: seq<Change>)
    ensures forall i :: 0 <= i < |r| ==> Rank(r[i]) == 1
    ensures DescriptionUpdated in r <==> poll.description != data.description
  {
    if poll.description != data.description then [DescriptionUpdated] else []
  }

  /** One "Added" line per submitted text that no old option has, in
      submission order. */
  function AddedBlock(poll: Poll, data: EditPollData): (r: seq<Change>)
    ensures forall i :: 0 <= i < |r| ==> Rank(r[i]) == 2
    ensures forall t :: OptionAdded(t) in r <==> t in EditTexts(data.options) && t !in OptionTexts(poll.options)
  {
    var oldTexts := OptionTexts(poll.options);
    var newTexts := EditTexts(data.options);
    var added := AddedTexts(oldTexts, newTexts);
    var r := MapSeq(added, (t: string) => OptionAdded(t));
    assert forall t :: OptionAdded(t) in r <==> t in added by {
      forall t ensures OptionAdded(t) in r <==> t in added {
        if OptionAdded(t) in r {
          var j :| 0 <= j < |r| && r[j] == OptionAdded(t);
          assert added[j] == t;
        }
        if t in added {
          var j :| 0 <= j < |added| && added[j] == t;
          assert r[j] == OptionAdded(t);
        }
      }
    }
    assert forall t :: t in added <==> t in newTexts && t !in oldTexts by {
      forall t ensures t in added <==> t in newTexts && t !in oldTexts {
        if t in newTexts && t !in oldTexts {
          var i :| 0 <= i < |newTexts| && newTexts[i] == t;
          FilterKeeps(newTexts, (t: string) => t !in oldTexts, i);
        }
      }
    }
    r
  }

  /** One "Removed" line per old text that no submitted option has, in the
      poll's order. */
  function RemovedBlock(poll: Poll, data: EditPollData): (r: seq<Change>)
    ensures forall i :: 0 <= i < |r| ==> Rank(r[i]) == 3
    ensures forall t :: OptionRemoved(t) in r <==> t in OptionTexts(poll.options) && t !in EditTexts(data.options)
  {
    var oldTexts := OptionTexts(poll.options);
    var newTexts := EditTexts(data.options);
    var removed := RemovedTexts(oldTexts, newTexts);
    var r := MapSeq(removed, (t: string) => OptionRemoved(t));
    assert forall t :: OptionRemoved(t) in r <==> t in removed by {
      forall t ensures OptionRemoved(t) in r <==> t in removed {
        if OptionRemoved(t) in r {
          var j :| 0 <= j < |r| && r[j] == OptionRemoved(t);
          assert removed[j] == t;
        }
        if t in removed {
          var j :| 0 <= j < |removed| && removed[j] == t;
          assert r[j] == OptionRemoved(t);
        }
      }
    }
    assert forall t :: t in removed <==> t in oldTexts && t !in newTexts by {
      forall t ensures t in removed <==> t in oldTexts && t !in newTexts {
        if t in oldTexts && t !in newTexts {
          var i :| 0 <= i < |oldTexts| && oldTexts[i] == t;
          FilterKeeps(oldTexts, (t: string) => t !in newTexts, i);
        }
      }
    }
    r
  }

  /** The "Added" lines of a concatenated submission are those of its two
      parts in order: with `AddedBlockSingle` this fixes one line per
      submitted text, in submission order, duplicates included. */
  lemma AddedBlockConcat(poll: Poll, data: EditPollData, a: seq<EditOption>, b: seq<EditOption>)
    requires data.options == a + b
    ensures AddedBlock(poll, data) == AddedBlock(poll, data.(options := a)) + AddedBlock(poll, data.(options := b))
  {
    var oldTexts := OptionTexts(poll.options);
    var p := (t: string) => t !in oldTexts;
    var f := (t: string) => OptionAdded(t);
    assert EditTexts(a + b) == EditTexts(a) + EditTexts(b);
    FilterConcat(EditTexts(a), EditTexts(b), p);
    MapConcat(Filter(EditTexts(a), p), Filter(EditTexts(b), p), f);
  }

  /** One submitted option contributes one "Added" line exactly when its
      text is new. */
  lemma AddedBlockSingle(poll: Poll, data: EditPollData, e: EditOption)
    requires data.options == [e]
    ensures AddedBlock(poll, data) == if e.text in OptionTexts(poll.options) then [] else [OptionAdded(e.text)]
  {
    assert EditTexts([e]) == [e.text];
    FilterSingleton(e.text, (t: string) => t !in OptionTexts(poll.options));
  }

  /** The "Removed" lines over a concatenated list of old options are those
      of its two parts in order: one line per dropped old text, in the
      poll's order. */
  lemma RemovedBlockConcat(poll: Poll, data: EditPollData, a: seq<PollOption>, b: seq<PollOption>)
    requires poll.options == a + b
    ensures RemovedBlock(poll, data) == RemovedBlock(poll.(options := a), data) + RemovedBlock(poll.(options := b), data)
  {
    var newTexts := EditTexts(data.options);
    var p := (t: string) => t !in newTexts;
    var f := (t: string) => OptionRemoved(t);
    assert OptionTexts(a + b) == OptionTexts(a) + OptionTexts(b);
    FilterConcat(OptionTexts(a), OptionTexts(b), p);
    MapConcat(Filter(OptionTexts(a), p), Filter(OptionTexts(b), p), f);
  }

  /** One old option contributes one "Removed" line exactly when nothing
      submitted has its text. */
  lemma RemovedBlockSingle(poll: Poll, data: EditPollData, o: PollOption)
    requires poll.options == [o]
    ensures RemovedBlock(poll, data) == if o.text in EditTexts(data.options) then [] else [OptionRemoved(o.text)]
  {
    assert OptionTexts([o]) == [o.text];
    FilterSingleton(o.text, (t: string) => t !in EditTexts(data.options));
  }

  /** The rename pass over concatenated old options is the passes over the
      two parts in order: one line at most per old option, in their order. */
  lemma {:induction false} RenamesConcat(a: seq<PollOption>, b: seq<PollOption>, submitted: seq<EditOption>)
    ensures Renames(a + b, submitted) == Renames(a, submitted) + Renames(b, submitted)
  {
    if |a| > 0 {
      assert (a + b)[0] == a[0];
      assert (a + b)[1..] == a[1..] + b;
      assert Renames(a + b, submitted) == RenameLine(a[0], submitted) + Renames(a[1..] + b, submitted);
      assert Renames(a, submitted) == RenameLine(a[0], submitted) + Renames(a[1..], submitted);
      RenamesConcat(a[1..], b, submitted);
    } else {
      assert a + b == b;
    }
  }

  /** One old option gives its rename line, if any, and nothing else. */
  lemma RenamesSingle(o: PollOption, submitted: seq<EditOption>)
    ensures Renames([o], submitted) == match RenameOf(o, submitted) case Some(c) => [c] case None => []
  {
    assert [o][1..] == [];
  }

  /** The ordered change log of `updatePoll`: title, description, additions and
      removals by exact text, then renames by id. */
  function ChangeLog(poll: Poll, data: EditPollData): seq<Change>
  {
    TitleBlock(poll, data) + DescriptionBlock(poll, data) + AddedBlock(poll, data)
    + RemovedBlock(poll, data) + Renames(poll.options, data.options)
  }

  /** What each kind of line in the log means: a title line iff the title
      changed, the description line iff the description changed, an "Added"
      line for exactly the new texts, a "Removed" line for exactly the dropped
      texts, and a "Changed" line for exactly the old options whose id was
      submitted (first occurrence) with another text. */
  lemma ChangeLogContents(poll: Poll, data: EditPollData)
    ensures var log := ChangeLog(poll, data);
      && (forall a, b :: TitleChanged(a, b) in log <==> a == poll.title && b == data.title && a != b)
      && (DescriptionUpdated in log <==> poll.description != data.description)
      && (forall t :: OptionAdded(t) in log <==> t in EditTexts(data.options) && t !in OptionTexts(poll.options))
      && (forall t :: OptionRemoved(t) in log <==> t in OptionTexts(poll.options) && t !in EditTexts(data.options))
      && (forall a, b :: OptionChanged(a, b) in log <==>
            exists i :: 0 <= i < |poll.options| && RenameOf(poll.options[i], data.options) == Some(OptionChanged(a, b)))
  {
    forall a, b ensures TitleChanged(a, b) in ChangeLog(poll, data) <==> TitleChanged(a, b) in TitleBlock(poll, data) {
      InChangeLog(poll, data, TitleChanged(a, b));
    }
    InChangeLog(poll, data, DescriptionUpdated);
    forall t ensures OptionAdded(t) in ChangeLog(poll, data) <==> OptionAdded(t) in AddedBlock(poll, data) {
      InChangeLog(poll, data, OptionAdded(t));
    }
    forall t ensures OptionRemoved(t) in ChangeLog(poll, data) <==> OptionRemoved(t) in RemovedBlock(poll, data) {
      InChangeLog(poll, data, OptionRemoved(t));
    }
    forall a, b ensures OptionChanged(a, b) in ChangeLog(poll, data) <==> OptionChanged(a, b) in Renames(poll.options, data.options) {
      InChangeLog(poll, data, OptionChanged(a, b));
    }
  }

  /** A change can only sit in the block of its own rank. */
  lemma InChangeLog(poll: Poll, data: EditPollData, c: Change)
    ensures c in ChangeLog(poll, data) <==>
      || (Rank(c) == 0 && c in TitleBlock(poll, data))
      || (Rank(c) == 1 && c in DescriptionBlock(poll, data))
      || (Rank(c) == 2 && c in AddedBlock(poll, data))
      || (Rank(c) == 3 && c in RemovedBlock(poll, data))
      || (Rank(c) == 4 && c in Renames(poll.options, data.options))
  {
    var cb := Renames(poll.options, data.options);
    RanksExclude(TitleBlock(poll, data), 0);
    RanksExclude(DescriptionBlock(poll, data), 1);
    RanksExclude(AddedBlock(poll, data), 2);
    RanksExclude(RemovedBlock(poll, data), 3);
    assert forall i :: 0 <= i < |cb| ==> Rank(cb[i]) == 4;
    RanksExclude(cb, 4);
  }

  /** A block of one rank holds no change of another rank. */
  lemma RanksExclude(block: seq<Change>, m: nat)
    requires forall i :: 0 <= i < |block| ==> Rank(block[i]) == m
    ensures forall c :: c in block ==> Rank(c) == m
  {
  }

  predicate SortedByRank(log: seq<Change>)
  {
    forall i, j :: 0 <= i < j < |log| ==> Rank(log[i]) <= Rank(log[j])
  }

  predicate RanksBetween(log: seq<Change>, lo: nat, hi: nat)
  {
    forall i :: 0 <= i < |log| ==> lo <= Rank(log[i]) <= hi
  }

  lemma SortedConcat(a: seq<Change>, b: seq<Change>, m: nat)
    requires SortedByRank(a) && SortedByRank(b)
    requires RanksBetween(a, 0, m) && RanksBetween(b, m, 4)
    ensures SortedByRank(a + b) && RanksBetween(a + b, 0, 4)
  {
    var s := a + b;
    forall i, j | 0 <= i < j < |s| ensures Rank(s[i]) <= Rank(s[j]) {
      if j < |a| {
        assert s[i] == a[i] && s[j] == a[j];
      } else if i >= |a| {
        assert s[i] == b[i - |a|] && s[j] == b[j - |a|];
      } else {
        assert s[i] == a[i] && s[j] == b[j - |a|];
      }
    }
  }

  /** The log lists the title line before the description line, that before
      the additions, those before the removals, and those before the renames. */
  lemma ChangeLogOrdered(poll: Poll, data: EditPollData)
    ensures SortedByRank(ChangeLog(poll, data))
  {
    var tb := TitleBlock(poll, data);
    var db := DescriptionBlock(poll, data);
    var ab := AddedBlock(poll, data);
    var rb := RemovedBlock(poll, data);
    var cb := Renames(poll.options, data.options);
    assert forall i :: 0 <= i < |cb| ==> Rank(cb[i]) == 4;
    SortedConcat(tb, db, 1);
    SortedConcat(tb + db, ab, 2);
    SortedConcat(tb + db + ab, rb, 3);
    SortedConcat(tb + db + ab + rb, cb, 4);
  }

  /** The edit form's starting list: the poll's (id, text) pairs in order. */
  function AsEditOptions(opts: seq<PollOption>): (r: seq<EditOption>)
    ensures |r| == |opts|
    ensures forall i :: 0 <= i < |opts| ==> r[i] == EditOption(opts[i].id, opts[i].text)
  {
    MapSeq(opts, (o: PollOption) => EditOption(o.id, o.text))
  }

  lemma {:induction false} NoRenamesOfSuffix(prior: seq<PollOption>, submitted: seq<EditOption>, from: nat)
    requires from <= |prior|
    requires submitted == AsEditOptions(prior)
    requires Distinct(OptionIds(prior))
    ensures Renames(prior[from..], submitted) == []
    decreases |prior| - from
  {
    if from < |prior| {
      var o := prior[from];
      var found := FirstWithId(submitted, o.id);
      assert submitted[from].id == o.id;
      assert found.Some?;
      var k := found.value;
      assert k == from by {
        assert prior[k].id == submitted[k].id == o.id;
        assert OptionIds(prior)[k] == OptionIds(prior)[from];
      }
      assert RenameOf(o, submitted) == None;
      NoRenamesOfSuffix(prior, submitted, from + 1);
      assert prior[from..][1..] == prior[from + 1..];
    }
  }

  /** Submitting a poll's own title, description and option list, with
      distinct option ids, logs nothing. */
  lemma UnchangedSubmissionLogsNothing(poll: Poll)
    requires Distinct(OptionIds(poll.options))
    ensures ChangeLog(poll, EditPollData(poll.title, poll.description, AsEditOptions(poll.options))) == []
  {
    var data := EditPollData(poll.title, poll.description, AsEditOptions(poll.options));
    var texts := OptionTexts(poll.options);
    assert EditTexts(data.options) == texts;
    FilterNone(texts, (t: string) => t !in texts);
    NoRenamesOfSuffix(poll.options, data.options, 0);
    assert poll.options[0..] == poll.options;
  }

  // ---------------------------------------------------------- reconciliation

  /** `poll.options.find(opt => opt.id === id)`, as an index. */
  function ExistingIndex(prior: seq<PollOption>, id: string): Option<nat>
  {
    FindFirst(prior, (o: PollOption) => o.id == id)
  }

  /** The votes an option submitted with `id` starts from. */
  function CarriedVotes(prior: seq<PollOption>, id: string): (v: nat)
    ensures forall k :: 0 <= k < |prior| && prior[k].id == id && (forall k' :: 0 <= k' < k ==> prior[k'].id != id) ==> v == prior[k].votes
    ensures (forall k :: 0 <= k < |prior| ==> prior[k].id != id) ==> v == 0
  {
    match ExistingIndex(prior, id)
    case Some(k) => prior[k].votes
    case None => 0
  }

  /** The option list of `updatePoll`: in submission order, with the submitted
      text; a non-empty id is kept verbatim and only an empty one is replaced
      by `mint(i)`; an option carries the votes of the first old option with
      its id and starts from 0 when there is none. */
  function Reconcile(prior: seq<PollOption>, submitted: seq<EditOption>, mint: nat -> string): (r: seq<PollOption>)
    ensures |r| == |submitted|
    ensures forall i :: 0 <= i < |r| ==> r[i].text == submitted[i].text
    ensures forall i :: 0 <= i < |r| && submitted[i].id != [] ==> r[i].id == submitted[i].id
    ensures forall i :: 0 <= i < |r| && submitted[i].id == [] ==> r[i].id == mint(i)
    ensures forall i, k ::
      (&& 0 <= i < |r| && 0 <= k < |prior| && prior[k].id == submitted[i].id
       && (forall k' :: 0 <= k' < k ==> prior[k'].id != submitted[i].id))
      ==> r[i].votes == prior[k].votes
    ensures forall i :: 0 <= i < |r| && (forall k :: 0 <= k < |prior| ==> prior[k].id != submitted[i].id) ==> r[i].votes == 0
  {
    var r := seq(|submitted|, i requires 0 <= i < |submitted| =>
      PollOption(
        if submitted[i].id != [] then submitted[i].id else mint(i),
        submitted[i].text,
        CarriedVotes(prior, submitted[i].id)));
    assert forall i :: 0 <= i < |r| ==> r[i].votes == CarriedVotes(prior, submitted[i].id);
    r
  }

  /** `updatePoll`: the reconciled options, the new title and description,
      `lastEditedAt` set, and exactly one edit record appended; id, creation
      time, tallies, voters, restriction and status are carried over as they
      are (the total is not recomputed). */
  function UpdatePoll(poll: Poll, data: EditPollData, adminId: string, mint: nat -> string, now: nat): (r: Poll)
    ensures r.options == Reconcile(poll.options, data.options, mint)
    ensures r.title == data.title && r.description == data.description
    ensures r.lastEditedAt == Some(now)
    ensures |r.editHistory| == |poll.editHistory| + 1
    ensures r.editHistory[..|poll.editHistory|] == poll.editHistory
    ensures r.editHistory[|poll.editHistory|] == EditRecord(now, MapSeq(ChangeLog(poll, data), Describe), adminId)
    ensures r.id == poll.id && r.createdAt == poll.createdAt && r.status == poll.status
    ensures r.totalVotes == poll.totalVotes && r.votedUsers == poll.votedUsers
    ensures r.isRestricted == poll.isRestricted && r.allowedUsers == poll.allowedUsers
  {
    var record := EditRecord(now, MapSeq(ChangeLog(poll, data), Describe), adminId);
    poll.(
      title := data.title,
      description := data.description,
      options := Reconcile(poll.options, data.options, mint),
      lastEditedAt := Some(now),
      editHistory := poll.editHistory + [record])
  }

  /** The sum of the votes each submitted option carries over. */
  function SumCarried(prior: seq<PollOption>, submitted: seq<EditOption>): nat
  {
    if |submitted| == 0 then 0 else CarriedVotes(prior, submitted[0].id) + SumCarried(prior, submitted[1..])
  }

  lemma {:induction false} SumVotesOfCarried(r: seq<PollOption>, prior: seq<PollOption>, submitted: seq<EditOption>)
    requires |r| == |submitted|
    requires forall i :: 0 <= i < |r| ==> r[i].votes == CarriedVotes(prior, submitted[i].id)
    ensures SumVotes(r) == SumCarried(prior, submitted)
  {
    if |r| > 0 {
      SumVotesOfCarried(r[1..], prior, submitted[1..]);
    }
  }

  predicate IdsUsable(prior: seq<PollOption>)
  {
    Distinct(OptionIds(prior)) && forall k :: 0 <= k < |prior| ==> prior[k].id != []
  }

  /** Removing the old option with id `gone` does not change what any other
      id carries over. */
  lemma CarriedAfterRemoval(prior: seq<PollOption>, k: nat, id: string)
    requires k < |prior| && IdsUsable(prior) && id != prior[k].id
    ensures CarriedVotes(RemoveAt(prior, k), id) == CarriedVotes(prior, id)
  {
    var rest := RemoveAt(prior, k);
    match ExistingIndex(prior, id)
    case None =>
      assert forall m :: 0 <= m < |rest| ==> rest[m].id != id by {
        forall m | 0 <= m < |rest| ensures rest[m].id != id {
          if m < k { assert rest[m] == prior[m]; } else { assert rest[m] == prior[m + 1]; }
        }
      }
    case Some(m) =>
      var m' := if m < k then m else m - 1;
      assert m != k;
      assert rest[m'] == prior[m];
      forall q | 0 <= q < m' ensures rest[q].id != id {
        if q < k {
          assert rest[q] == prior[q];
        } else {
          assert rest[q] == prior[q + 1];
          assert OptionIds(prior)[q + 1] != OptionIds(prior)[m];
        }
      }
      assert ExistingIndex(rest, id) == Some(m');
  }

  lemma {:induction false} SumCarriedAfterRemoval(prior: seq<PollOption>, k: nat, submitted: seq<EditOption>)
    requires k < |prior| && IdsUsable(prior)
    requires forall i :: 0 <= i < |submitted| ==> submitted[i].id != prior[k].id
    ensures SumCarried(RemoveAt(prior, k), submitted) == SumCarried(prior, submitted)
  {
    if |submitted| > 0 {
      CarriedAfterRemoval(prior, k, submitted[0].id);
      SumCarriedAfterRemoval(prior, k, submitted[1..]);
    }
  }

  lemma RemovalKeepsIdsUsable(prior: seq<PollOption>, k: nat)
    requires k < |prior| && IdsUsable(prior)
    ensures IdsUsable(RemoveAt(prior, k))
  {
    var rest := RemoveAt(prior, k);
    forall i, j | 0 <= i < j < |rest| ensures OptionIds(rest)[i] != OptionIds(rest)[j] {
      var i' := if i < k then i else i + 1;
      var j' := if j < k then j else j + 1;
      assert rest[i] == prior[i'] && rest[j] == prior[j'];
      assert OptionIds(prior)[i'] != OptionIds(prior)[j'];
    }
    forall m | 0 <= m < |rest| ensures rest[m].id != [] {
      if m < k { assert rest[m] == prior[m]; } else { assert rest[m] == prior[m + 1]; }
    }
  }

  lemma SumVotesRemoveAt(prior: seq<PollOption>, k: nat)
    requires k < |prior|
    ensures SumVotes(prior) == prior[k].votes + SumVotes(RemoveAt(prior, k))
  {
    var a := prior[..k];
    var b := prior[k + 1..];
    var tail := [prior[k]] + b;
    assert tail[1..] == b;
    assert SumVotes(tail) == prior[k].votes + SumVotes(b);
    assert prior == a + tail;
    SumVotesConcat(a, tail);
    assert RemoveAt(prior, k) == a + b;
    SumVotesConcat(a, b);
  }

  /** Every old option's votes are carried over at most once. */
  lemma {:induction false} SumCarriedBound(prior: seq<PollOption>, submitted: seq<EditOption>)
    requires IdsUsable(prior)
    requires NonEmptyIdsDistinct(submitted)
    ensures SumCarried(prior, submitted) <= SumVotes(prior)
    decreases |submitted|
  {
    if |submitted| > 0 {
      var tail := submitted[1..];
      assert NonEmptyIdsDistinct(tail) by {
        forall i, j | 0 <= i < |tail| && 0 <= j < |tail| && i != j && tail[i].id != []
          ensures tail[i].id != tail[j].id {
          assert tail[i] == submitted[i + 1] && tail[j] == submitted[j + 1];
        }
      }
      match ExistingIndex(prior, submitted[0].id)
      case None =>
        SumCarriedBound(prior, tail);
      case Some(k) =>
        assert submitted[0].id == prior[k].id != [];
        forall i | 0 <= i < |tail| ensures tail[i].id != prior[k].id {
          assert tail[i] == submitted[i + 1];
        }
        SumCarriedAfterRemoval(prior, k, tail);
        RemovalKeepsIdsUsable(prior, k);
        SumVotesRemoveAt(prior, k);
        SumCarriedBound(RemoveAt(prior, k), tail);
    }
  }

  /** An edit never creates votes: with distinct, non-empty old ids and
      distinct non-empty submitted ids, the new options hold at most the votes
      the old ones held (removed options lose theirs). */
  lemma UpdateNeverAddsVotes(poll: Poll, data: EditPollData, adminId: string, mint: nat -> string, now: nat)
    requires IdsUsable(poll.options)
    requires NonEmptyIdsDistinct(data.options)
    ensures SumVotes(UpdatePoll(poll, data, adminId, mint, now).options) <= SumVotes(poll.options)
  {
    var r := Reconcile(poll.options, data.options, mint);
    assert forall i :: 0 <= i < |r| ==> r[i].votes == CarriedVotes(poll.options, data.options[i].id);
    SumVotesOfCarried(r, poll.options, data.options);
    SumCarriedBound(poll.options, data.options);
  }

  /** An option submitted under an old id keeps that option's votes (old ids
      distinct). */
  lemma SurvivingOptionKeepsVotes(poll: Poll, data: EditPollData, adminId: string, mint: nat -> string, now: nat, i: nat, k: nat)
    requires Distinct(OptionIds(poll.options))
    requires i < |data.options| && k < |poll.options| && data.options[i].id == poll.options[k].id
    ensures UpdatePoll(poll, data, adminId, mint, now).options[i].votes == poll.options[k].votes
  {
    forall k' | 0 <= k' < k ensures poll.options[k'].id != data.options[i].id {
      assert OptionIds(poll.options)[k'] != OptionIds(poll.options)[k];
    }
  }

  // ------------------------------------------------------------ percentages

  /** `calculatePercentage`: `Math.round(votes / totalVotes * 100)`, and 0 for
      an empty poll. The ensures says the result is the nearest integer to
      100 * votes / totalVotes, halves rounding up. */
  function CalculatePercentage(votes: nat, totalVotes: nat): (r: nat)
    ensures totalVotes == 0 ==> r == 0
    ensures totalVotes > 0 ==> 2 * totalVotes * r <= 200 * votes + totalVotes < 2 * totalVotes * (r + 1)
  {
    if totalVotes == 0 then 0 else (200 * votes + totalVotes) / (2 * totalVotes)
  }

  /** A share of the votes is a percentage between 0 and 100; all of them is
      exactly 100. */
  lemma PercentageBounds(votes: nat, totalVotes: nat)
    requires votes <= totalVotes
    ensures CalculatePercentage(votes, totalVotes) <= 100
    ensures 0 < totalVotes == votes ==> CalculatePercentage(votes, totalVotes) == 100
  {
    if totalVotes > 0 {
      var r := CalculatePercentage(votes, totalVotes);
      var d := 2 * totalVotes;
      assert d * r <= 200 * votes + totalVotes;
      assert 200 * votes + totalVotes < d * 101;
      MulCancel(d, r, 101);
      if votes == totalVotes {
        assert d * 100 <= 200 * votes + totalVotes;
        MulCancel(d, 100, r + 1);
      }
    }
  }

  lemma MulCancel(d: nat, a: nat, b: nat)
    requires d * a < d * b
    ensures a < b
  {
    if a >= b { MulMonotone(d, b, a); }
  }

  lemma MulMonotone(d: nat, a: nat, b: nat)
    requires a <= b
    ensures d * a <= d * b
  {
  }

  /** More votes never mean a smaller percentage. */
  lemma PercentageMonotone(v1: nat, v2: nat, totalVotes: nat)
    requires v1 <= v2
    ensures CalculatePercentage(v1, totalVotes) <= CalculatePercentage(v2, totalVotes)
  {
    if totalVotes > 0 {
      var d := 2 * totalVotes;
      var r1 := CalculatePercentage(v1, totalVotes);
      var r2 := CalculatePercentage(v2, totalVotes);
      assert d * r1 <= 200 * v1 + totalVotes <= 200 * v2 + totalVotes < d * (r2 + 1);
      MulCancel(d, r1, r2 + 1);
    }
  }

  // ------------------------------------------------------------- the winner

  /** `options.reduce((w, o) => o.votes > w.votes ? o : w)`: the index of the
      FIRST option with the most votes (a later tie does not replace it). */
  function WinnerIndex(opts: seq<PollOption>): (w: nat)
    requires |opts| > 0
    ensures w < |opts|
    ensures forall j :: 0 <= j < |opts| ==> opts[j].votes <= opts[w].votes
    ensures forall j :: 0 <= j < w ==> opts[j].votes < opts[w].votes
  {
    if |opts| == 1 then 0
    else
      var prefix := opts[..|opts| - 1];
      var w := WinnerIndex(prefix);
      assert forall j :: 0 <= j < |prefix| ==> prefix[j] == opts[j];
      if opts[|opts| - 1].votes > opts[w].votes then |opts| - 1 else w
  }

  // ---------------------------------------------------------- vote totals

  /** `polls.reduce((sum, poll) => sum + poll.totalVotes, 0)`. */
  function TotalVotes(polls: seq<Poll>): nat
  {
    if |polls| == 0 then 0 else polls[0].totalVotes + TotalVotes(polls[1..])
  }

  lemma {:induction false} TotalVotesConcat(a: seq<Poll>, b: seq<Poll>)
    ensures TotalVotes(a + b) == TotalVotes(a) + TotalVotes(b)
  {
    if |a| == 0 {
      assert a + b == b;
    } else {
      assert (a + b)[1..] == a[1..] + b;
      TotalVotesConcat(a[1..], b);
    }
  }
}
