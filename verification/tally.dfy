/** Folding a poll's vote list into per-option counts. */
module VoteTally {

  /** The vote list folded left to right into a count per recorded value:
      each vote adds one to its key, starting from zero when the key is new.
      Every recorded value becomes a key, in range of the options or not. */
  function Tally(votes: seq<int>): (r: map<int, nat>)
    ensures forall k :: k in r <==> k in votes
    decreases |votes|
  {
    if votes == [] then map[]
    else
      var init, x := votes[..|votes| - 1], votes[|votes| - 1];
      assert votes == init + [x];
      var acc := Tally(init);
      acc[x := (if x in acc then acc[x] else 0) + 1]
  }

  /** Each count of the tally is the number of occurrences of its key among
      the votes. */
  lemma {:induction false} TallyCounts(votes: seq<int>)
    ensures forall k :: k in Tally(votes) ==> Tally(votes)[k] == multiset(votes)[k]
    decreases |votes|
  {
    if votes != [] {
      var init, x := votes[..|votes| - 1], votes[|votes| - 1];
      assert votes == init + [x];
      TallyCounts(init);
    }
  }

  /** The reduce loop of the results handler, written as a loop over the
      votes with an accumulator map. */
  method ReduceVotes(votes: seq<int>) returns (acc: map<int, nat>)
    ensures acc == Tally(votes)
    ensures forall k :: k in acc <==> k in votes
    ensures forall k :: k in acc ==> acc[k] == multiset(votes)[k]
  {
    acc := map[];
    var i := 0;
    while i < |votes|
      invariant 0 <= i <= |votes|
      invariant acc == Tally(votes[..i])
      invariant forall k :: k in acc <==> k in votes[..i]
      invariant forall k :: k in acc ==> acc[k] == multiset(votes[..i])[k]
    {
      var vote := votes[i];
      assert votes[..i + 1] == votes[..i] + [vote];
      assert votes[..i + 1][..i] == votes[..i];
      acc := acc[vote := (if vote in acc then acc[vote] else 0) + 1];
      i := i + 1;
    }
    assert votes[..i] == votes;
  }

  predicate NoDuplicates(ks: seq<int>) {
    forall i, j :: 0 <= i < j < |ks| ==> ks[i] != ks[j]
  }

  /** The distinct recorded values, each listed once, in order of first
      occurrence. */
  function Distinct(votes: seq<int>): (r: seq<int>)
    ensures forall k :: k in r <==> k in votes
    ensures NoDuplicates(r)
    decreases |votes|
  {
    if votes == [] then []
    else
      var init, x := votes[..|votes| - 1], votes[|votes| - 1];
      assert votes == init + [x];
      var d := Distinct(init);
      if x in init then d else d + [x]
  }

  /** Sum of the counts stored under the listed keys. */
  function SumOver(m: map<int, nat>, ks: seq<int>): nat
    requires forall i :: 0 <= i < |ks| ==> ks[i] in m
    decreases |ks|
  {
    if ks == [] then 0
    else SumOver(m, ks[..|ks| - 1]) + m[ks[|ks| - 1]]
  }

  lemma {:induction false} SumOverFrame(m: map<int, nat>, m': map<int, nat>, ks: seq<int>)
    requires forall i :: 0 <= i < |ks| ==> ks[i] in m && ks[i] in m' && m[ks[i]] == m'[ks[i]]
    ensures SumOver(m, ks) == SumOver(m', ks)
    decreases |ks|
  {
    if ks != [] {
      SumOverFrame(m, m', ks[..|ks| - 1]);
    }
  }

  /** Adding one to a key listed exactly once adds one to the sum. */
  lemma {:induction false} SumOverBump(m: map<int, nat>, ks: seq<int>, x: int)
    requires forall i :: 0 <= i < |ks| ==> ks[i] in m
    requires NoDuplicates(ks) && x in ks
    ensures SumOver(m[x := m[x] + 1], ks) == SumOver(m, ks) + 1
    decreases |ks|
  {
    var init, last := ks[..|ks| - 1], ks[|ks| - 1];
    assert ks == init + [last];
    if last == x {
      assert x !in init;
      SumOverFrame(m[x := m[x] + 1], m, init);
    } else {
      SumOverBump(m, init, x);
    }
  }

  /** The counts of all distinct keys add up to the number of votes. */
  lemma {:induction false} TallySumsToVoteCount(votes: seq<int>)
    ensures SumOver(Tally(votes), Distinct(votes)) == |votes|
    decreases |votes|
  {
    if votes != [] {
      var init, x := votes[..|votes| - 1], votes[|votes| - 1];
      assert votes == init + [x];
      TallySumsToVoteCount(init);
      SumStep(init, x);
    }
  }

  /** One more vote adds one to the sum of the counts. */
  lemma SumStep(init: seq<int>, x: int)
    ensures SumOver(Tally(init + [x]), Distinct(init + [x])) == SumOver(Tally(init), Distinct(init)) + 1
  {
    var v := init + [x];
    assert v[..|v| - 1] == init;
    var acc, d := Tally(init), Distinct(init);
    if x in init {
      assert Tally(v) == acc[x := acc[x] + 1];
      assert Distinct(v) == d;
      SumOverBump(acc, d, x);
    } else {
      assert Tally(v) == acc[x := 1];
      var d' := d + [x];
      assert Distinct(v) == d';
      assert forall i :: 0 <= i < |d| ==> d[i] in init && d[i] != x;
      assert d'[..|d'| - 1] == d;
      SumOverFrame(acc[x := 1], acc, d);
    }
  }

  /** One more vote for `x` makes `x` a key and adds one to its number of
      occurrences; every other key keeps its count. */
  lemma TallyAppend(votes: seq<int>, x: int)
    ensures forall k :: k in Tally(votes + [x]) <==> k in votes || k == x
    ensures forall k :: k in Tally(votes + [x]) ==>
      Tally(votes + [x])[k] == multiset(votes)[k] + (if k == x then 1 else 0)
  {
    TallyCounts(votes + [x]);
    assert multiset(votes + [x]) == multiset(votes) + multiset{x};
  }
}
