/** The vote toggle shared by the four vote handlers: one user's vote on one
    target moves between no vote, an upvote and a downvote, and the target's
    cached `upvotes`/`downvotes` counters follow the vote table. */
module Toggle {
  import opened VoteTable

  /** The cached counter columns of a question or a response. */
  datatype Counters = Counters(upvotes: int, downvotes: int) {
    /** The counter that counts votes `v`. */
    function Of(v: VoteValue): int {
      if v == UPVOTE then upvotes else downvotes
    }

    /** The counters after the one counting `v` is stepped by `d`. */
    function Step(v: VoteValue, d: int): Counters {
      if v == UPVOTE then this.(upvotes := upvotes + d) else this.(downvotes := downvotes + d)
    }
  }

  /** The cached counters of target t agree with the table. */
  ghost predicate Consistent(rows: seq<VoteRow>, t: TargetId, c: Counters) {
    c.upvotes == Tally(rows, t, UPVOTE) && c.downvotes == Tally(rows, t, DOWNVOTE)
  }

  /** The three-state machine: casting the vote one already holds retracts it,
      any other cast leaves the cast vote in place. */
  function Next(prev: Option<VoteValue>, dir: VoteValue): Option<VoteValue> {
    if prev == Some(dir) then None else Some(dir)
  }

  /** The counters once the vote state of one voter moves from `prev` to `next`:
      each counter loses what `prev` counted and gains what `next` counts. In
      the handlers' terms: no move leaves the counters alone, a retraction
      steps the old vote's counter down, a first vote steps its counter up,
      and a flip steps the old counter down and then the new one up. */
  function Recount(c: Counters, prev: Option<VoteValue>, next: Option<VoteValue>): (r: Counters)
    ensures prev == next ==> r == c
    ensures prev.Some? && next.None? ==> r == c.Step(prev.value, -1)
    ensures prev.None? && next.Some? ==> r == c.Step(next.value, 1)
    ensures prev.Some? && next.Some? && prev != next ==> r == c.Step(prev.value, -1).Step(next.value, 1)
  {
    Counters(c.upvotes - Contribution(prev, UPVOTE) + Contribution(next, UPVOTE),
             c.downvotes - Contribution(prev, DOWNVOTE) + Contribution(next, DOWNVOTE))
  }

  datatype Ballot = Ballot(rows: seq<VoteRow>, counters: Counters)

  /** Reference definition of one cast of `dir` by user u on target t whose
      counters are c: the state machine moves (u, t)'s vote state and the
      counters are recounted from the move. */
  function Cast(rows: seq<VoteRow>, c: Counters, u: UserId, t: TargetId, dir: VoteValue): Ballot {
    var prev := VoteOf(rows, u, t);
    var next := Next(prev, dir);
    Ballot(Put(rows, u, t, next), Recount(c, prev, next))
  }

  /** The body the four vote handlers share, as they write it: get_or_create the
      row of (u, t) with `dir` as default, then delete it (same vote again),
      flip it (opposite vote) or keep the created one, stepping the counters. */
  method ApplyVote(rows: seq<VoteRow>, c: Counters, u: UserId, t: TargetId, dir: VoteValue)
      returns (rows': seq<VoteRow>, c': Counters)
    ensures Ballot(rows', c') == Cast(rows, c, u, t, dir)
  {
    var found := IndexOf(rows, u, t);
    var created := found.None?;
    if !created && rows[found.value].vote == dir {
      // vote.delete(); target.<dir>votes -= 1
      rows' := rows[..found.value] + rows[found.value + 1..];
      c' := c.Step(dir, -1);
    } else if !created && rows[found.value].vote == Opposite(dir) {
      // vote.vote = dir; vote.save(); the opposite counter -= 1, this one += 1
      rows' := rows[found.value := rows[found.value].(vote := dir)];
      c' := c.Step(Opposite(dir), -1).Step(dir, 1);
    } else {
      // the row was created with vote = dir; target.<dir>votes += 1
      rows' := rows + [VoteRow(u, t, dir)];
      c' := c.Step(dir, 1);
    }
  }

  // ---------------------------------------------------------------------------
  // Lemmas

  /** A cast leaves (u, t) with no vote exactly when it repeats the vote held,
      and otherwise with the cast vote; no other user's or target's vote moves,
      and the table keeps one row per (user, target). */
  lemma CastVoteState(rows: seq<VoteRow>, c: Counters, u: UserId, t: TargetId, dir: VoteValue)
    requires Unique(rows)
    ensures Unique(Cast(rows, c, u, t, dir).rows)
    ensures VoteOf(Cast(rows, c, u, t, dir).rows, u, t) == (if VoteOf(rows, u, t) == Some(dir) then None else Some(dir))
    ensures forall u': UserId, t': TargetId :: (u' != u || t' != t) ==>
      VoteOf(Cast(rows, c, u, t, dir).rows, u', t') == VoteOf(rows, u', t')
  {
    var next := Next(VoteOf(rows, u, t), dir);
    PutUnique(rows, u, t, next);
    PutVoteOf(rows, u, t, next);
  }

  /** The counter invariant: if target t's counters agree with the table
      before a cast, they agree after it, and the tallies of every other
      target are unchanged (so their counters stay in agreement too). */
  lemma CastKeepsConsistent(rows: seq<VoteRow>, c: Counters, u: UserId, t: TargetId, dir: VoteValue)
    requires Unique(rows)
    requires Consistent(rows, t, c)
    ensures Consistent(Cast(rows, c, u, t, dir).rows, t, Cast(rows, c, u, t, dir).counters)
    ensures forall t': TargetId, v: VoteValue :: t' != t ==>
      Tally(Cast(rows, c, u, t, dir).rows, t', v) == Tally(rows, t', v)
  {
    var next := Next(VoteOf(rows, u, t), dir);
    PutTally(rows, u, t, next, t, UPVOTE);
    PutTally(rows, u, t, next, t, DOWNVOTE);
    forall t': TargetId, v: VoteValue | t' != t
      ensures Tally(Put(rows, u, t, next), t', v) == Tally(rows, t', v)
    {
      PutTally(rows, u, t, next, t', v);
    }
  }

  /** The counter deltas of the three branches: a repeat vote takes one off
      its counter, a flip moves one from the opposite counter to this one, a
      first vote adds one to its counter. */
  lemma CastCounters(rows: seq<VoteRow>, c: Counters, u: UserId, t: TargetId, dir: VoteValue)
    ensures VoteOf(rows, u, t) == Some(dir) ==>
      Cast(rows, c, u, t, dir).counters == c.Step(dir, -1)
    ensures VoteOf(rows, u, t) == Some(Opposite(dir)) ==>
      Cast(rows, c, u, t, dir).counters == c.Step(Opposite(dir), -1).Step(dir, 1)
    ensures VoteOf(rows, u, t) == None ==>
      Cast(rows, c, u, t, dir).counters == c.Step(dir, 1)
  {
  }

  /** Voting the same way twice from no vote gives back the very same table
      and counters. */
  lemma CastTwiceRestores(rows: seq<VoteRow>, c: Counters, u: UserId, t: TargetId, dir: VoteValue)
    requires VoteOf(rows, u, t) == None
    ensures var once := Cast(rows, c, u, t, dir);
            Cast(once.rows, once.counters, u, t, dir) == Ballot(rows, c)
  {
    PutThenRemove(rows, u, t, dir);
  }

  /** Upvote, downvote, downvote from no vote on a target with no votes:
      the vote goes up, then down, then away, and the counters read
      (1, 0), (0, 1), (0, 0). */
  lemma UpDownDownScenario(rows: seq<VoteRow>, u: UserId, t: TargetId)
    requires Unique(rows)
    requires Consistent(rows, t, Counters(0, 0))
    ensures var b1 := Cast(rows, Counters(0, 0), u, t, UPVOTE);
            var b2 := Cast(b1.rows, b1.counters, u, t, DOWNVOTE);
            var b3 := Cast(b2.rows, b2.counters, u, t, DOWNVOTE);
            && VoteOf(b1.rows, u, t) == Some(UPVOTE) && b1.counters == Counters(1, 0)
            && VoteOf(b2.rows, u, t) == Some(DOWNVOTE) && b2.counters == Counters(0, 1)
            && VoteOf(b3.rows, u, t) == None && b3.counters == Counters(0, 0)
            && Consistent(b3.rows, t, b3.counters)
  {
    var c := Counters(0, 0);
    assert VoteOf(rows, u, t) == None by {
      if VoteOf(rows, u, t).Some? {
        VoteOfMembership(rows, u, t, VoteOf(rows, u, t).value);
        TallyPositive(rows, VoteRow(u, t, VoteOf(rows, u, t).value));
      }
    }
    CastVoteState(rows, c, u, t, UPVOTE);
    CastKeepsConsistent(rows, c, u, t, UPVOTE);
    var b1 := Cast(rows, c, u, t, UPVOTE);
    CastVoteState(b1.rows, b1.counters, u, t, DOWNVOTE);
    CastKeepsConsistent(b1.rows, b1.counters, u, t, DOWNVOTE);
    var b2 := Cast(b1.rows, b1.counters, u, t, DOWNVOTE);
    CastVoteState(b2.rows, b2.counters, u, t, DOWNVOTE);
    CastKeepsConsistent(b2.rows, b2.counters, u, t, DOWNVOTE);
  }

  /** A row on t with vote v makes the tally of (t, v) positive. */
  lemma {:induction false} TallyPositive(rows: seq<VoteRow>, x: VoteRow)
    requires x in rows
    ensures Tally(rows, x.target, x.vote) > 0
  {
    if rows[0] != x {
      TallyPositive(rows[1..], x);
    }
  }
}
