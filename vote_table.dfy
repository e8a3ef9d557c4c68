/** The two vote tables of the forum (VoteQuestion and VoteResponse share one
    shape: a user, a target and a small-integer vote) and the counting functions
    that the cached `upvotes`/`downvotes` columns of a target are compared with.

    A table is the sequence of its rows in storage order. The database's
    unique_together constraint on (user, target) is the invariant `Unique`;
    `VoteOf` reads the table as a map from (user, target) to an optional vote. */
module VoteTable {

  datatype Option<+T> = None | Some(value: T)

  type UserId = nat
  type TargetId = nat

  const UPVOTE: int := 1
  const DOWNVOTE: int := -1

  /** The `vote` column: a small integer restricted to the two declared choices. */
  type VoteValue = v: int | v == UPVOTE || v == DOWNVOTE witness UPVOTE

  /** The other of the two choices. */
  function Opposite(v: VoteValue): VoteValue {
    if v == UPVOTE then DOWNVOTE else UPVOTE
  }

  datatype VoteRow = VoteRow(user: UserId, target: TargetId, vote: VoteValue)

  predicate Matches(row: VoteRow, u: UserId, t: TargetId) {
    row.user == u && row.target == t
  }

  /** At most one row per (user, target). */
  ghost predicate Unique(rows: seq<VoteRow>) {
    forall i, j :: 0 <= i < j < |rows| ==>
      !(rows[i].user == rows[j].user && rows[i].target == rows[j].target)
  }

  /** The lookup of get_or_create: the position of the first row of (u, t). */
  function IndexOf(rows: seq<VoteRow>, u: UserId, t: TargetId): (r: Option<nat>)
    ensures r.Some? ==> r.value < |rows| && Matches(rows[r.value], u, t)
    ensures r.Some? ==> forall j :: 0 <= j < r.value ==> !Matches(rows[j], u, t)
    ensures r.None? ==> forall j :: 0 <= j < |rows| ==> !Matches(rows[j], u, t)
  {
    if rows == [] then None
    else if Matches(rows[0], u, t) then Some(0)
    else match IndexOf(rows[1..], u, t)
      case None => None
      case Some(k) => Some(k + 1)
  }

  /** The vote that user u holds on target t, if any. */
  function VoteOf(rows: seq<VoteRow>, u: UserId, t: TargetId): (r: Option<VoteValue>)
    ensures r.Some? ==> VoteRow(u, t, r.value) in rows
    ensures r.None? ==> forall v: VoteValue :: VoteRow(u, t, v) !in rows
  {
    match IndexOf(rows, u, t)
    case None => None
    case Some(i) => Some(rows[i].vote)
  }

  /** 1 when the optional vote state `s` is the vote `v`, else 0. */
  function Contribution(s: Option<VoteValue>, v: VoteValue): nat {
    if s == Some(v) then 1 else 0
  }

  /** Number of rows on target t whose vote is v. */
  function Tally(rows: seq<VoteRow>, t: TargetId, v: VoteValue): nat {
    if rows == [] then 0
    else (if rows[0].target == t && rows[0].vote == v then 1 else 0) + Tally(rows[1..], t, v)
  }

  /** Number of rows of user u on target t whose vote is v: the per-viewer
      Count(Case(When(votes__user=user, votes__vote=v, then=1))) annotation. */
  function CountVotes(rows: seq<VoteRow>, u: UserId, t: TargetId, v: VoteValue): nat {
    if rows == [] then 0
    else (if Matches(rows[0], u, t) && rows[0].vote == v then 1 else 0) + CountVotes(rows[1..], u, t, v)
  }

  /** The table after the vote state of (u, t) is set to `s`: the row is deleted
      (s == None), updated in place, or inserted at the end. */
  function Put(rows: seq<VoteRow>, u: UserId, t: TargetId, s: Option<VoteValue>): seq<VoteRow> {
    match IndexOf(rows, u, t)
    case None => if s.None? then rows else rows + [VoteRow(u, t, s.value)]
    case Some(i) => if s.None? then rows[..i] + rows[i + 1..] else rows[i := VoteRow(u, t, s.value)]
  }

  /** The rows that survive the cascade when the targets in `gone` are deleted. */
  function DropTargets(rows: seq<VoteRow>, gone: set<TargetId>): (r: seq<VoteRow>)
    ensures forall x :: x in r <==> x in rows && x.target !in gone
  {
    if rows == [] then []
    else (if rows[0].target in gone then [] else [rows[0]]) + DropTargets(rows[1..], gone)
  }

  // ---------------------------------------------------------------------------
  // Lemmas

  /** Under uniqueness the map view is exactly row membership. */
  lemma VoteOfMembership(rows: seq<VoteRow>, u: UserId, t: TargetId, v: VoteValue)
    requires Unique(rows)
    ensures VoteOf(rows, u, t) == Some(v) <==> VoteRow(u, t, v) in rows
  {
    if VoteRow(u, t, v) in rows {
      var j :| 0 <= j < |rows| && rows[j] == VoteRow(u, t, v);
    }
  }

  /** A table is unique exactly when its tail is and its head's key is not in the tail. */
  lemma UniqueCons(x: VoteRow, rest: seq<VoteRow>)
    ensures Unique([x] + rest) <==>
      Unique(rest) && forall y :: y in rest ==> !(y.user == x.user && y.target == x.target)
  {
    var r := [x] + rest;
    assert forall k :: 0 <= k < |rest| ==> r[k + 1] == rest[k];
    if Unique(r) {
      forall y | y in rest ensures !(y.user == x.user && y.target == x.target) {
        var k :| 0 <= k < |rest| && rest[k] == y;
        assert r[0] == x && r[k + 1] == y;
        assert !(r[0].user == r[k + 1].user && r[0].target == r[k + 1].target);
      }
    }
    if Unique(rest) && forall y :: y in rest ==> !(y.user == x.user && y.target == x.target) {
      forall i, j | 0 <= i < j < |r| ensures !(r[i].user == r[j].user && r[i].target == r[j].target) {
        assert r[j] == rest[j - 1];
        if i > 0 { assert r[i] == rest[i - 1]; }
      }
    }
  }

  lemma {:induction false} TallyConcat(a: seq<VoteRow>, b: seq<VoteRow>, t: TargetId, v: VoteValue)
    ensures Tally(a + b, t, v) == Tally(a, t, v) + Tally(b, t, v)
  {
    if a == [] {
      assert a + b == b;
    } else {
      assert (a + b)[1..] == a[1..] + b;
      TallyConcat(a[1..], b, t, v);
    }
  }

  /** Tally of a table split around one row. */
  lemma TallySplit(rows: seq<VoteRow>, i: nat, t: TargetId, v: VoteValue)
    requires i < |rows|
    ensures Tally(rows, t, v) == Tally(rows[..i], t, v)
      + (if rows[i].target == t && rows[i].vote == v then 1 else 0) + Tally(rows[i + 1..], t, v)
  {
    assert rows == rows[..i] + [rows[i]] + rows[i + 1..];
    TallyConcat(rows[..i] + [rows[i]], rows[i + 1..], t, v);
    TallyConcat(rows[..i], [rows[i]], t, v);
  }

  /** Put keeps one row per (user, target) and adds no row for another key. */
  lemma PutUnique(rows: seq<VoteRow>, u: UserId, t: TargetId, s: Option<VoteValue>)
    requires Unique(rows)
    ensures Unique(Put(rows, u, t, s))
    ensures forall x :: x in Put(rows, u, t, s) ==> x in rows || Matches(x, u, t)
  {
    var r := Put(rows, u, t, s);
    match IndexOf(rows, u, t)
    case None =>
    case Some(i) =>
      if s.None? {
        assert r == rows[..i] + rows[i + 1..];
        forall x | x in r ensures x in rows {
          var k :| 0 <= k < |r| && r[k] == x;
          if k < i { assert x == rows[k]; } else { assert x == rows[k + 1]; }
        }
      } else {
        forall x | x in r ensures x in rows || Matches(x, u, t) {
          var k :| 0 <= k < |r| && r[k] == x;
          if k != i { assert x == rows[k]; }
        }
      }
  }

  /** Put cuts the table around the row of (u, t): the parts before and after
      it are kept, the row itself (if any) is replaced by the one `s` describes. */
  lemma PutShape(rows: seq<VoteRow>, u: UserId, t: TargetId, s: Option<VoteValue>)
      returns (a: seq<VoteRow>, b: seq<VoteRow>)
    requires Unique(rows)
    ensures rows == a + Row(u, t, VoteOf(rows, u, t)) + b
    ensures Put(rows, u, t, s) == a + Row(u, t, s) + b
    ensures forall x :: x in a + b ==> !Matches(x, u, t)
  {
    match IndexOf(rows, u, t)
    case None =>
      a, b := rows, [];
    case Some(i) =>
      a, b := rows[..i], rows[i + 1..];
      assert rows == a + [rows[i]] + b;
      forall x | x in a + b ensures !Matches(x, u, t) {
        var k :| 0 <= k < |a + b| && (a + b)[k] == x;
        if k >= i {
          assert x == rows[k + 1];
          assert !(rows[i].user == rows[k + 1].user && rows[i].target == rows[k + 1].target);
        }
      }
  }

  /** The rows that the vote state `s` of (u, t) stands for. */
  function Row(u: UserId, t: TargetId, s: Option<VoteValue>): seq<VoteRow> {
    if s.None? then [] else [VoteRow(u, t, s.value)]
  }

  /** Put sets the vote state of (u, t) to `s` and leaves every other key alone. */
  lemma PutVoteOf(rows: seq<VoteRow>, u: UserId, t: TargetId, s: Option<VoteValue>)
    requires Unique(rows)
    ensures VoteOf(Put(rows, u, t, s), u, t) == s
    ensures forall u': UserId, t': TargetId :: (u' != u || t' != t) ==>
      VoteOf(Put(rows, u, t, s), u', t') == VoteOf(rows, u', t')
  {
    var r := Put(rows, u, t, s);
    PutUnique(rows, u, t, s);
    var a, b := PutShape(rows, u, t, s);
    match s
    case None =>
      if VoteOf(r, u, t).Some? { VoteOfMembership(r, u, t, VoteOf(r, u, t).value); }
    case Some(w) =>
      VoteOfMembership(r, u, t, w);
    forall u': UserId, t': TargetId | u' != u || t' != t
      ensures VoteOf(r, u', t') == VoteOf(rows, u', t')
    {
      PutVoteOfOther(rows, u, t, s, u', t');
    }
  }

  /** Put leaves the vote state of another key (u', t') alone. */
  lemma PutVoteOfOther(rows: seq<VoteRow>, u: UserId, t: TargetId, s: Option<VoteValue>, u': UserId, t': TargetId)
    requires Unique(rows)
    requires u' != u || t' != t
    ensures VoteOf(Put(rows, u, t, s), u', t') == VoteOf(rows, u', t')
  {
    var r := Put(rows, u, t, s);
    PutUnique(rows, u, t, s);
    var a, b := PutShape(rows, u, t, s);
    OtherKeyRows(a, b, u, t, VoteOf(rows, u, t), s, u', t');
    match VoteOf(rows, u', t')
    case None =>
      if VoteOf(r, u', t').Some? { VoteOfMembership(r, u', t', VoteOf(r, u', t').value); }
    case Some(w) =>
      VoteOfMembership(rows, u', t', w);
      VoteOfMembership(r, u', t', w);
  }

  /** Replacing the row of (u, t) does not change which rows another key has. */
  lemma OtherKeyRows(a: seq<VoteRow>, b: seq<VoteRow>, u: UserId, t: TargetId,
                     s: Option<VoteValue>, s': Option<VoteValue>, u': UserId, t': TargetId)
    requires u' != u || t' != t
    ensures forall v: VoteValue :: VoteRow(u', t', v) in a + Row(u, t, s) + b <==>
                                   VoteRow(u', t', v) in a + Row(u, t, s') + b
  {
  }

  /** Put moves the tally of target t by the change of (u, t)'s vote state;
      tallies of other targets do not move. */
  lemma PutTally(rows: seq<VoteRow>, u: UserId, t: TargetId, s: Option<VoteValue>, t': TargetId, v: VoteValue)
    requires Unique(rows)
    ensures Tally(Put(rows, u, t, s), t', v) ==
      Tally(rows, t', v) + (if t' == t then Contribution(s, v) - Contribution(VoteOf(rows, u, t), v) else 0)
  {
    match IndexOf(rows, u, t)
    case None =>
      if s.Some? { TallyConcat(rows, [VoteRow(u, t, s.value)], t', v); }
    case Some(i) =>
      TallySplit(rows, i, t', v);
      if s.None? {
        TallyConcat(rows[..i], rows[i + 1..], t', v);
      } else {
        var r := rows[i := VoteRow(u, t, s.value)];
        assert r[..i] == rows[..i] && r[i + 1..] == rows[i + 1..];
        TallySplit(r, i, t', v);
      }
  }

  /** Inserting a row for a key that has none and then deleting it gives back
      the very same table. */
  lemma PutThenRemove(rows: seq<VoteRow>, u: UserId, t: TargetId, v: VoteValue)
    requires VoteOf(rows, u, t) == None
    ensures VoteOf(Put(rows, u, t, Some(v)), u, t) == Some(v)
    ensures Put(Put(rows, u, t, Some(v)), u, t, None) == rows
  {
    var r := rows + [VoteRow(u, t, v)];
    assert Put(rows, u, t, Some(v)) == r;
    assert r[|rows|] == VoteRow(u, t, v);
    assert IndexOf(r, u, t) == Some(|rows|);
    assert r[..|rows|] == rows;
  }

  /** The per-user count is the indicator of that user's vote state. */
  lemma {:induction false} CountVotesIsContribution(rows: seq<VoteRow>, u: UserId, t: TargetId, v: VoteValue)
    requires Unique(rows)
    ensures CountVotes(rows, u, t, v) == Contribution(VoteOf(rows, u, t), v)
  {
    if rows != [] {
      var rest := rows[1..];
      assert Unique(rest) by {
        forall i, j | 0 <= i < j < |rest|
          ensures !(rest[i].user == rest[j].user && rest[i].target == rest[j].target)
        {
          assert rest[i] == rows[i + 1] && rest[j] == rows[j + 1];
        }
      }
      CountVotesIsContribution(rest, u, t, v);
      if Matches(rows[0], u, t) {
        assert forall j :: 0 <= j < |rest| ==> !Matches(rest[j], u, t) by {
          forall j | 0 <= j < |rest| ensures !Matches(rest[j], u, t) {
            assert rest[j] == rows[j + 1];
          }
        }
        assert VoteOf(rest, u, t) == None;
      } else {
        assert VoteOf(rows, u, t) == VoteOf(rest, u, t);
      }
    }
  }

  lemma {:induction false} DropTargetsTally(rows: seq<VoteRow>, gone: set<TargetId>, t: TargetId, v: VoteValue)
    ensures Tally(DropTargets(rows, gone), t, v) == if t in gone then 0 else Tally(rows, t, v)
  {
    if rows != [] {
      var head := if rows[0].target in gone then [] else [rows[0]];
      DropTargetsTally(rows[1..], gone, t, v);
      TallyConcat(head, DropTargets(rows[1..], gone), t, v);
    }
  }

  lemma {:induction false} DropTargetsUnique(rows: seq<VoteRow>, gone: set<TargetId>)
    requires Unique(rows)
    ensures Unique(DropTargets(rows, gone))
  {
    if rows != [] {
      assert rows == [rows[0]] + rows[1..];
      UniqueCons(rows[0], rows[1..]);
      DropTargetsUnique(rows[1..], gone);
      if rows[0].target !in gone {
        UniqueCons(rows[0], DropTargets(rows[1..], gone));
      }
    }
  }
}
