/** Properties that relate several operations: what creation leaves behind,
    how a vote moves the results, the sweeper's idempotence and its
    boundary with vote liveness, and the invariants every history of
    requests keeps. */
module Lifecycle {
  import opened Outcome
  import opened PollModel
  import opened Expiry
  import opened VoteTally
  import opened Server

  /** A freshly created poll reads back as created, has no results, and
      takes votes exactly until its expiry. */
  lemma CreateThenRead(s: Store, now: Millis, question: Option<string>, options: Option<seq<string>>,
                       expiresIn: ExpiresIn, isPrivate: Option<bool>, later: Millis, optionIndex: int)
    requires CreatePoll(s, now, question, options, expiresIn, isPrivate).Ok?
    ensures var c := CreatePoll(s, now, question, options, expiresIn, isPrivate).value;
      && GetPoll(c.store, c.poll.id) == Ok(c.poll)
      && !c.poll.expired && c.poll.votes == []
      && ComputeResults(c.store, c.poll.id) == Ok(map[])
      && (RecordVote(c.store, later, c.poll.id, optionIndex).Ok? <==> later <= c.poll.expiresAt)
  {
  }

  /** A number of seconds gives an expiry that many seconds after `now`,
      cut to the whole second; no usable field gives 24 hours. */
  lemma CreatedExpiry(s: Store, now: Millis, question: Option<string>, options: Option<seq<string>>,
                      expiresIn: ExpiresIn, isPrivate: Option<bool>)
    requires CreatePoll(s, now, question, options, expiresIn, isPrivate).Ok?
    ensures var e := CreatePoll(s, now, question, options, expiresIn, isPrivate).value.poll.expiresAt;
      && (expiresIn.Seconds? ==> e <= now + expiresIn.n * 1000 < e + 1000)
      && (expiresIn.Other? ==> e <= now + 86_400_000 < e + 1000)
      && (expiresIn.DateText? ==> e <= expiresIn.parsed.value < e + 1000)
      && e % 1000 == 0
  {
  }

  /** An accepted vote for `optionIndex` adds one to that option's count and
      changes no other count, in this poll or any other. */
  lemma VoteUpdatesResults(s: Store, now: Millis, id: int, optionIndex: int, other: int)
    requires RecordVote(s, now, id, optionIndex).Ok?
    ensures var before := ComputeResults(s, id).value;
      var after := ComputeResults(RecordVote(s, now, id, optionIndex).value, id).value;
      && after.Keys == before.Keys + {optionIndex}
      && after[optionIndex] == (if optionIndex in before then before[optionIndex] else 0) + 1
      && (forall k :: k in before && k != optionIndex ==> after[k] == before[k])
    ensures other != id ==>
      ComputeResults(RecordVote(s, now, id, optionIndex).value, other) == ComputeResults(s, other)
  {
    TallyAppend(s.polls[id].votes, optionIndex);
  }

  /** The counts of a poll's results add up to the number of its votes. */
  lemma ResultsSumToVoteCount(s: Store, id: int)
    requires id in s.polls
    ensures SumOver(ComputeResults(s, id).value, Distinct(s.polls[id].votes)) == |s.polls[id].votes|
  {
    TallySumsToVoteCount(s.polls[id].votes);
  }

  /** A second sweep at the same instant changes nothing. */
  lemma SweepIdempotent(s: Store, now: Millis)
    ensures SweepTick(SweepTick(s, now), now) == SweepTick(s, now)
  {
  }

  /** Sweeps at two instants amount to one sweep at the later one. */
  lemma SweepsCompose(s: Store, t1: Millis, t2: Millis)
    requires t1 <= t2
    ensures SweepTick(SweepTick(s, t1), t2) == SweepTick(s, t2)
  {
  }

  /** At the expiry instant itself a vote is still taken, yet a sweep at that
      same instant flags the poll, after which the same vote is refused. */
  lemma BoundaryAsymmetry(s: Store, id: int, optionIndex: int)
    requires id in s.polls && !s.polls[id].expired
    ensures var now := s.polls[id].expiresAt;
      && RecordVote(s, now, id, optionIndex).Ok?
      && SweepTick(s, now).polls[id].expired
      && RecordVote(SweepTick(s, now), now, id, optionIndex) == Err(Expired)
  {
  }

  /** With a clock that never runs backwards, an earlier sweep changes the
      outcome of a vote only at the one instant where the sweep, the vote
      and the poll's expiry coincide. */
  lemma SweepMattersOnlyAtExpiry(s: Store, t: Millis, now: Millis, id: int, optionIndex: int)
    requires t <= now
    ensures RecordVote(SweepTick(s, t), now, id, optionIndex).Ok?
      <==> RecordVote(s, now, id, optionIndex).Ok? && !(t == now && id in s.polls && s.polls[id].expiresAt == now)
  {
  }

  /** A comment added to a poll is the last one listed for that poll, and
      the listing of every other poll id is unchanged. */
  lemma AddThenList(s: Store, id: int, text: Option<string>, other: int)
    requires AddComment(s, id, text).Ok?
    ensures var c := AddComment(s, id, text).value;
      && ListComments(c.store, id) == ListComments(s, id) + [c.comment]
      && (other != id ==> ListComments(c.store, other) == ListComments(s, other))
  {
    var c := AddComment(s, id, text).value;
    ListAppend(s.comments, c.comment, id);
    ListAppend(s.comments, c.comment, other);
  }

  /** Appending a comment appends it to the listing of its own poll only. */
  lemma {:induction false} ListAppend(cs: seq<Comment>, c: Comment, id: int)
    ensures CommentsFor(cs + [c], id) == CommentsFor(cs, id) + (if c.pollId == id then [c] else [])
    decreases |cs|
  {
    var mine: seq<Comment> := if c.pollId == id then [c] else [];
    if cs == [] {
      assert ([] + [c])[1..] == [];
      assert CommentsFor([c], id) == mine + CommentsFor([], id);
    } else {
      var head: seq<Comment> := if cs[0].pollId == id then [cs[0]] else [];
      assert (cs + [c])[0] == cs[0];
      assert (cs + [c])[1..] == cs[1..] + [c];
      assert CommentsFor(cs + [c], id) == head + CommentsFor(cs[1..] + [c], id);
      ListAppend(cs[1..], c, id);
      assert CommentsFor(cs, id) == head + CommentsFor(cs[1..], id);
    }
  }

  /** Everything a later store keeps of an earlier one's poll: the
      immutable fields as they were, the old votes as a prefix of the new,
      and a set expiry flag still set. */
  predicate PollPersists(p: Poll, q: Poll) {
    && q.id == p.id && q.question == p.question && q.options == p.options
    && q.expiresAt == p.expiresAt && q.isPrivate == p.isPrivate
    && |p.votes| <= |q.votes| && q.votes[..|p.votes|] == p.votes
    && (p.expired ==> q.expired)
  }

  /** `s2` is a possible future of `s1`: no poll or comment disappears and
      every poll persists. */
  predicate Evolves(s1: Store, s2: Store) {
    && (forall id :: id in s1.polls ==> id in s2.polls && PollPersists(s1.polls[id], s2.polls[id]))
    && |s1.comments| <= |s2.comments| && s2.comments[..|s1.comments|] == s1.comments
  }

  lemma EvolvesTransitive(s1: Store, s2: Store, s3: Store)
    requires Evolves(s1, s2) && Evolves(s2, s3)
    ensures Evolves(s1, s3)
  {
  }

  /** The requests that change the store. Reads return no store. */
  datatype Request =
    | CreateReq(now: Millis, question: Option<string>, options: Option<seq<string>>,
                expiresIn: ExpiresIn, isPrivate: Option<bool>)
    | VoteReq(now: Millis, id: int, optionIndex: int)
    | CommentReq(id: int, text: Option<string>)
    | SweepReq(now: Millis)

  /** The store after one request; a rejected request leaves it as it was. */
  function Step(s: Store, req: Request): Store {
    match req
    case CreateReq(now, question, options, expiresIn, isPrivate) =>
      (match CreatePoll(s, now, question, options, expiresIn, isPrivate)
       case Ok(c) => c.store
       case Err(_) => s)
    case VoteReq(now, id, optionIndex) =>
      (match RecordVote(s, now, id, optionIndex)
       case Ok(s') => s'
       case Err(_) => s)
    case CommentReq(id, text) =>
      (match AddComment(s, id, text)
       case Ok(c) => c.store
       case Err(_) => s)
    case SweepReq(now) => SweepTick(s, now)
  }

  /** The store after a sequence of requests handled one at a time. */
  function Run(s: Store, reqs: seq<Request>): Store
    decreases |reqs|
  {
    if reqs == [] then s else Run(Step(s, reqs[0]), reqs[1..])
  }

  /** Creating a poll keeps the store valid and only lets it evolve: it
      adds the one new poll and leaves every existing poll and comment as
      it was. */
  lemma CreateEvolves(s: Store, now: Millis, question: Option<string>, options: Option<seq<string>>,
                      expiresIn: ExpiresIn, isPrivate: Option<bool>)
    requires Valid(s) && CreatePoll(s, now, question, options, expiresIn, isPrivate).Ok?
    ensures var c := CreatePoll(s, now, question, options, expiresIn, isPrivate).value;
      && Valid(c.store) && Evolves(s, c.store)
      && c.store.polls.Keys == s.polls.Keys + {c.poll.id}
      && (forall id :: id in s.polls ==> c.store.polls[id] == s.polls[id])
      && c.store.comments == s.comments
  {
  }

  /** An accepted vote keeps the store valid and only lets it evolve: the
      voted poll gains the vote and keeps every other field, and every
      other poll and comment is as it was. */
  lemma VoteEvolves(s: Store, now: Millis, id: int, optionIndex: int)
    requires Valid(s) && RecordVote(s, now, id, optionIndex).Ok?
    ensures var s' := RecordVote(s, now, id, optionIndex).value;
      && Valid(s') && Evolves(s, s')
      && s'.polls[id] == s.polls[id].(votes := s.polls[id].votes + [optionIndex])
      && (forall other :: other in s.polls && other != id ==> s'.polls[other] == s.polls[other])
      && s'.comments == s.comments
  {
  }

  /** An accepted comment keeps the store valid and only lets it evolve:
      it appends the one comment and leaves every poll as it was. */
  lemma CommentEvolves(s: Store, id: int, text: Option<string>)
    requires Valid(s) && AddComment(s, id, text).Ok?
    ensures var c := AddComment(s, id, text).value;
      && Valid(c.store) && Evolves(s, c.store)
      && c.store.polls == s.polls
      && c.store.comments == s.comments + [c.comment]
  {
    var s' := AddComment(s, id, text).value.store;
    assert s'.polls == s.polls;
    EvolvesReflexive(s);
    assert s'.comments[..|s.comments|] == s.comments;
  }

  /** A sweep keeps the store valid and only lets it evolve: it never
      clears a flag and keeps every poll's votes and other fields. */
  lemma SweepEvolves(s: Store, now: Millis)
    requires Valid(s)
    ensures Valid(SweepTick(s, now)) && Evolves(s, SweepTick(s, now))
    ensures forall id :: id in s.polls ==>
      && SweepTick(s, now).polls[id].votes == s.polls[id].votes
      && SweepTick(s, now).polls[id] == s.polls[id].(expired := SweepTick(s, now).polls[id].expired)
    ensures SweepTick(s, now).comments == s.comments
  {
  }

  lemma EvolvesReflexive(s: Store)
    ensures Evolves(s, s)
  {
  }

  /** One request keeps the store valid and only lets it evolve; a rejected
      one leaves it as it was. */
  lemma StepEvolves(s: Store, req: Request)
    requires Valid(s)
    ensures Valid(Step(s, req)) && Evolves(s, Step(s, req))
  {
    match req
    case CreateReq(now, question, options, expiresIn, isPrivate) =>
      if CreatePoll(s, now, question, options, expiresIn, isPrivate).Ok? {
        CreateEvolves(s, now, question, options, expiresIn, isPrivate);
      } else {
        EvolvesReflexive(s);
      }
    case VoteReq(now, id, optionIndex) =>
      if RecordVote(s, now, id, optionIndex).Ok? {
        VoteEvolves(s, now, id, optionIndex);
      } else {
        EvolvesReflexive(s);
      }
    case CommentReq(id, text) =>
      if AddComment(s, id, text).Ok? {
        CommentEvolves(s, id, text);
      } else {
        EvolvesReflexive(s);
      }
    case SweepReq(now) =>
      SweepEvolves(s, now);
  }

  /** Every history of requests keeps the store valid, never removes a poll
      or comment, never changes a poll's question, options, expiry or
      privacy, only appends votes and never clears an expiry flag. */
  lemma {:induction false} RunEvolves(s: Store, reqs: seq<Request>)
    requires Valid(s)
    ensures Valid(Run(s, reqs)) && Evolves(s, Run(s, reqs))
    decreases |reqs|
  {
    if reqs == [] {
      EvolvesReflexive(s);
    } else {
      StepEvolves(s, reqs[0]);
      RunEvolves(Step(s, reqs[0]), reqs[1..]);
      EvolvesTransitive(s, Step(s, reqs[0]), Run(s, reqs));
    }
  }

  /** Starting from an empty database, every history of requests leaves a
      valid store: ids below the counter, comments only on existing polls,
      comment ids in increasing order. */
  lemma RunFromEmpty(reqs: seq<Request>)
    ensures Valid(Run(EmptyStore(), reqs))
  {
    RunEvolves(EmptyStore(), reqs);
  }
}
