/** The request handlers of the poll service and the expiry sweeper, as
    pure operations over the store.  The clock is a parameter `now`. */
module Server {
  import opened Outcome
  import opened PollModel
  import opened Expiry
  import opened VoteTally
  import opened Text

  /** A created poll and the store that now holds it. */
  datatype Created = Created(poll: Poll, store: Store)

  /** A created comment and the store that now holds it. */
  datatype Commented = Commented(comment: Comment, store: Store)

  /** Whether a poll still takes votes at `now`: its flag is clear and its
      expiry is not behind the clock.  A vote at the expiry instant itself
      is still taken. */
  predicate AcceptsVotes(p: Poll, now: Millis) {
    !p.expired && now <= p.expiresAt
  }

  /** Creating a poll.  The expiry is resolved first and refused when it is
      not a valid time; a null question or option list is then refused by
      the store.  Otherwise one poll is inserted with the column defaults. */
  function CreatePoll(s: Store, now: Millis, question: Option<string>, options: Option<seq<string>>,
                      expiresIn: ExpiresIn, isPrivate: Option<bool>): (r: Result<Created>)
    ensures Normalize(expiresIn, now).None? ==> r == Err(InvalidExpiration)
    ensures Normalize(expiresIn, now).Some? && (question.None? || options.None?) ==> r == Err(MissingField)
    ensures r.Ok? <==> Normalize(expiresIn, now).Some? && question.Some? && options.Some?
    ensures r.Ok? ==>
      var p := r.value.poll;
      && Some(p.expiresAt) == Normalize(expiresIn, now)
      && p.question == question.value && p.options == options.value
      && p.votes == [] && !p.expired
      && (p.isPrivate <==> isPrivate == Some(true))
      && r.value.store.polls == s.polls[p.id := p]
      && r.value.store.comments == s.comments
    ensures r.Ok? && Valid(s) ==> r.value.poll.id !in s.polls && Valid(r.value.store)
  {
    match Normalize(expiresIn, now)
    case None => Err(InvalidExpiration)
    case Some(expiresAt) =>
      if question.None? || options.None? then Err(MissingField)
      else
        var (p, s') := InsertPoll(s, question.value, options.value, expiresAt, isPrivate);
        Ok(Created(p, s'))
  }

  /** Recording a vote.  An absent poll is NotFound; a flagged poll or one
      whose expiry is behind the clock is Expired.  Otherwise the option
      index is appended to the poll's votes, unchecked against the options,
      and nothing else in the store changes. */
  function RecordVote(s: Store, now: Millis, id: int, optionIndex: int): (r: Result<Store>)
    ensures id !in s.polls ==> r == Err(NotFound)
    ensures id in s.polls && (s.polls[id].expired || now > s.polls[id].expiresAt) ==> r == Err(Expired)
    ensures r.Ok? <==> id in s.polls && AcceptsVotes(s.polls[id], now)
    ensures r.Ok? ==>
      && r.value.polls.Keys == s.polls.Keys
      && r.value.polls[id].votes == s.polls[id].votes + [optionIndex]
      && |r.value.polls[id].votes| == |s.polls[id].votes| + 1
      && r.value.polls[id] == s.polls[id].(votes := r.value.polls[id].votes)
      && (forall other :: other in s.polls && other != id ==> r.value.polls[other] == s.polls[other])
      && r.value.comments == s.comments
      && r.value.nextPollId == s.nextPollId && r.value.nextCommentId == s.nextCommentId
  {
    if id !in s.polls then Err(NotFound)
    else
      var p := s.polls[id];
      if p.expired || now > p.expiresAt then Err(Expired)
      else Ok(s.(polls := s.polls[id := p.(votes := p.votes + [optionIndex])]))
  }

  /** The results of a poll: for each distinct recorded option index, the
      number of votes carrying it.  Reading changes nothing. */
  function ComputeResults(s: Store, id: int): (r: Result<map<int, nat>>)
    ensures r.Err? <==> id !in s.polls
    ensures r.Err? ==> r.error == NotFound
    ensures r.Ok? ==> forall k :: k in r.value <==> k in s.polls[id].votes
    ensures r.Ok? ==> forall k :: k in r.value ==> r.value[k] == multiset(s.polls[id].votes)[k]
  {
    if id !in s.polls then Err(NotFound)
    else
      TallyCounts(s.polls[id].votes);
      Ok(Tally(s.polls[id].votes))
  }

  /** Fetching a poll as stored, without any liveness check: the flag may
      still be clear after the expiry has passed. */
  function GetPoll(s: Store, id: int): (r: Result<Poll>)
    ensures r.Err? <==> id !in s.polls
    ensures r.Err? ==> r.error == NotFound
    ensures r.Ok? ==> r.value == s.polls[id]
  {
    if id !in s.polls then Err(NotFound) else Ok(s.polls[id])
  }

  /** Adding a comment.  Absent or blank text is refused before the poll is
      looked up; otherwise the trimmed text is stored against an existing
      poll. */
  function AddComment(s: Store, id: int, text: Option<string>): (r: Result<Commented>)
    ensures text.None? || AllWhiteSpace(text.value) ==> r == Err(EmptyText)
    ensures text.Some? && !AllWhiteSpace(text.value) && id !in s.polls ==> r == Err(NotFound)
    ensures r.Ok? <==> text.Some? && !AllWhiteSpace(text.value) && id in s.polls
    ensures r.Ok? ==>
      var c := r.value.comment;
      && c.pollId == id && c.text == Trim(text.value)
      && c.text != [] && !IsWhiteSpace(c.text[0]) && !IsWhiteSpace(c.text[|c.text| - 1])
      && r.value.store.comments == s.comments + [c]
      && r.value.store.polls == s.polls
    ensures r.Ok? && Valid(s) ==> Valid(r.value.store)
  {
    if text.None? || Trim(text.value) == [] then Err(EmptyText)
    else
      var t := Trim(text.value);
      if id !in s.polls then Err(NotFound)
      else
        var (c, s') := InsertComment(s, id, t);
        Ok(Commented(c, s'))
  }

  /** The comments stored against a poll id, in insertion order.  An id
      with no comments, or no poll, yields the empty sequence. */
  function ListComments(s: Store, id: int): (r: seq<Comment>)
    ensures forall i :: 0 <= i < |r| ==> r[i].pollId == id && r[i] in s.comments
    ensures forall i :: 0 <= i < |s.comments| && s.comments[i].pollId == id ==> s.comments[i] in r
    ensures forall c :: multiset(r)[c] == if c.pollId == id then multiset(s.comments)[c] else 0
  {
    CommentsForCounts(s.comments, id);
    CommentsFor(s.comments, id)
  }

  /** The comments of `cs` whose poll id is `id`, in their order in `cs`:
      each matching comment as often as it occurs there, and no other. */
  function CommentsFor(cs: seq<Comment>, id: int): (r: seq<Comment>)
    ensures forall i :: 0 <= i < |r| ==> r[i].pollId == id && r[i] in cs
    decreases |cs|
  {
    if cs == [] then []
    else (if cs[0].pollId == id then [cs[0]] else []) + CommentsFor(cs[1..], id)
  }

  lemma {:induction false} CommentsForCounts(cs: seq<Comment>, id: int)
    ensures forall c :: multiset(CommentsFor(cs, id))[c] == if c.pollId == id then multiset(cs)[c] else 0
    decreases |cs|
  {
    if cs != [] {
      assert cs == [cs[0]] + cs[1..];
      CommentsForCounts(cs[1..], id);
    }
  }

  /** One run of the periodic sweeper: every poll whose expiry is not after
      `now` gets its flag set, whether or not it was set already; every
      other poll, and everything else in the store, is left alone. */
  function SweepTick(s: Store, now: Millis): (r: Store)
    ensures r.polls.Keys == s.polls.Keys
    ensures forall id :: id in s.polls ==>
      && r.polls[id].expired == (s.polls[id].expired || s.polls[id].expiresAt <= now)
      && r.polls[id] == s.polls[id].(expired := r.polls[id].expired)
    ensures r.comments == s.comments
    ensures r.nextPollId == s.nextPollId && r.nextCommentId == s.nextCommentId
  {
    var polls := map id | id in s.polls ::
      if s.polls[id].expiresAt <= now then s.polls[id].(expired := true) else s.polls[id];
    s.(polls := polls)
  }
}
