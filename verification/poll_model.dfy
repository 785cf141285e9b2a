/** The persisted records: polls, comments, and the store holding them.
    The relational store is replaced by an immutable value; the
    auto-increment counters of both tables are part of it. */
module PollModel {
  import opened Outcome

  /** Milliseconds since the Unix epoch. */
  type Millis = int

  /** A poll row.  `expiresAt` is the stored expiry column (named
      `expiresIn` in the table); `votes` holds one option index per
      accepted vote, in acceptance order. */
  datatype Poll = Poll(
    id: int,
    question: string,
    options: seq<string>,
    expiresAt: Millis,
    votes: seq<int>,
    isPrivate: bool,
    expired: bool)

  /** A comment row; `pollId` refers to the owning poll. */
  datatype Comment = Comment(id: int, pollId: int, text: string)

  /** Both tables and their next auto-increment values. */
  datatype Store = Store(
    polls: map<int, Poll>,
    comments: seq<Comment>,
    nextPollId: int,
    nextCommentId: int)

  /** Auto-increment keys start at one. */
  const FirstId: int := 1

  function EmptyStore(): (s: Store)
    ensures Valid(s)
  {
    Store(map[], [], FirstId, FirstId)
  }

  /** What the store guarantees between operations: every key was handed
      out by the counter and is stored under itself, every comment refers
      to an existing poll, and comment ids increase in insertion order. */
  predicate Valid(s: Store) {
    && FirstId <= s.nextPollId
    && FirstId <= s.nextCommentId
    && (forall id :: id in s.polls ==> FirstId <= id < s.nextPollId && s.polls[id].id == id)
    && (forall i :: 0 <= i < |s.comments| ==>
          s.comments[i].pollId in s.polls && FirstId <= s.comments[i].id < s.nextCommentId)
    && (forall i, j :: 0 <= i < j < |s.comments| ==> s.comments[i].id < s.comments[j].id)
  }

  /** A fresh poll row with the column defaults: no votes, not expired,
      and public unless the flag was given as true. */
  function NewPoll(id: int, question: string, options: seq<string>, expiresAt: Millis,
                   isPrivate: Option<bool>): Poll
  {
    Poll(id, question, options, expiresAt, [], isPrivate.Some? && isPrivate.value, false)
  }

  /** Inserts a poll under the next auto-increment key. */
  function InsertPoll(s: Store, question: string, options: seq<string>, expiresAt: Millis,
                      isPrivate: Option<bool>): (r: (Poll, Store))
    ensures r.0.id == s.nextPollId && r.1.nextPollId == s.nextPollId + 1
    ensures r.1.polls == s.polls[r.0.id := r.0]
    ensures r.1.comments == s.comments && r.1.nextCommentId == s.nextCommentId
    ensures r.0 == NewPoll(r.0.id, question, options, expiresAt, isPrivate)
    ensures Valid(s) ==> r.0.id !in s.polls && Valid(r.1)
  {
    var p := NewPoll(s.nextPollId, question, options, expiresAt, isPrivate);
    (p, s.(polls := s.polls[p.id := p], nextPollId := s.nextPollId + 1))
  }

  /** Appends a comment row under the next auto-increment key. */
  function InsertComment(s: Store, pollId: int, text: string): (r: (Comment, Store))
    ensures r.0.id == s.nextCommentId && r.1.nextCommentId == s.nextCommentId + 1
    ensures r.1.comments == s.comments + [r.0]
    ensures r.0.pollId == pollId && r.0.text == text
    ensures r.1.polls == s.polls && r.1.nextPollId == s.nextPollId
    ensures Valid(s) && pollId in s.polls ==> Valid(r.1)
  {
    var c := Comment(s.nextCommentId, pollId, text);
    (c, s.(comments := s.comments + [c], nextCommentId := s.nextCommentId + 1))
  }
}
