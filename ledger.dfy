/**
 * The vote table and the score derived from it.
 *
 * The table is a sequence of rows; the unique constraint on (user, post) is
 * not built into the representation but kept as the invariant `UniquePairs`,
 * which every vote operation is proved to preserve.
 */
module Ledger {
  import opened Wrappers
  import opened ForumTypes

  predicate SamePair(row: Vote, u: UserId, p: PostId)
  {
    row.user == u && row.post == p
  }

  /** The unique constraint on (user_id, post_id): no two rows share a pair. */
  ghost predicate UniquePairs(rows: seq<Vote>)
  {
    forall i, j :: 0 <= i < j < |rows| ==> !SamePair(rows[j], rows[i].user, rows[i].post)
  }

  /** Every stored vote is a like (1) or a dislike (-1). */
  ghost predicate Directions(rows: seq<Vote>)
  {
    forall i :: 0 <= i < |rows| ==> IsDirection(rows[i].value)
  }

  /** The first row holding the vote of `u` on `p`: the `.first()` lookup. */
  function FindVote(rows: seq<Vote>, u: UserId, p: PostId): (r: Option<nat>)
    ensures r.Some? ==> r.value < |rows| && SamePair(rows[r.value], u, p)
    ensures r.Some? ==> forall k :: 0 <= k < r.value ==> !SamePair(rows[k], u, p)
    ensures r.None? ==> forall k :: 0 <= k < |rows| ==> !SamePair(rows[k], u, p)
  {
    if rows == [] then None
    else if SamePair(rows[0], u, p) then Some(0)
    else match FindVote(rows[1..], u, p)
      case None => None
      case Some(i) => Some(i + 1)
  }

  /** The direction `u` currently holds on `p`, or None when there is no row. */
  function VoteOf(rows: seq<Vote>, u: UserId, p: PostId): Option<int>
  {
    match FindVote(rows, u, p)
    case None => None
    case Some(i) => Some(rows[i].value)
  }

  /** What `u` holds on `p` after voting `v`: the same direction again takes the vote back. */
  function NextVote(current: Option<int>, v: int): Option<int>
  {
    if current == Some(v) then None else Some(v)
  }

  /**
   * The vote route's three-way update of the table: with no row a new one is
   * appended; a row with the same direction is deleted; a row with the other
   * direction is flipped in place and its date refreshed.
   */
  function ApplyVote(rows: seq<Vote>, u: UserId, p: PostId, v: int, now: Timestamp): seq<Vote>
  {
    match FindVote(rows, u, p)
    case None => rows + [Vote(u, p, v, now)]
    case Some(i) =>
      if rows[i].value == v then rows[..i] + rows[i + 1..]
      else rows[i := rows[i].(value := v, date := now)]
  }

  /** Number of rows on post `p` with direction `v` (`filter_by(vote_type=v).count()`). */
  function Count(rows: seq<Vote>, p: PostId, v: int): nat
  {
    if rows == [] then 0
    else (if rows[0].post == p && rows[0].value == v then 1 else 0) + Count(rows[1..], p, v)
  }

  /** `Post.score`: likes minus dislikes, computed from the table on demand. */
  function ScoreOf(rows: seq<Vote>, p: PostId): int
  {
    Count(rows, p, 1) - Count(rows, p, -1)
  }

  /** Number of rows cast by `u` (`user.votes.count()`). */
  function VotesBy(rows: seq<Vote>, u: UserId): nat
  {
    if rows == [] then 0 else (if rows[0].user == u then 1 else 0) + VotesBy(rows[1..], u)
  }

  /** The contribution of a held vote to a score. */
  function Weight(held: Option<int>): int
  {
    if held.Some? then held.value else 0
  }

  /** The vote route's token: "like" is 1, "dislike" is -1, anything else is refused. */
  function DirectionOf(token: string): (r: Option<int>)
    ensures r.Some? ==> IsDirection(r.value)
    ensures r == Some(1) <==> token == "like"
    ensures r == Some(-1) <==> token == "dislike"
  {
    if token == "like" then Some(1) else if token == "dislike" then Some(-1) else None
  }

  // ---------------------------------------------------------------------------
  // Counting lemmas

  lemma {:induction false} CountConcat(a: seq<Vote>, b: seq<Vote>, p: PostId, v: int)
    ensures Count(a + b, p, v) == Count(a, p, v) + Count(b, p, v)
  {
    if a == [] {
      assert a + b == b;
    } else {
      assert (a + b)[1..] == a[1..] + b;
      CountConcat(a[1..], b, p, v);
    }
  }

  lemma {:induction false} VotesByConcat(a: seq<Vote>, b: seq<Vote>, u: UserId)
    ensures VotesBy(a + b, u) == VotesBy(a, u) + VotesBy(b, u)
  {
    if a == [] {
      assert a + b == b;
    } else {
      assert (a + b)[1..] == a[1..] + b;
      VotesByConcat(a[1..], b, u);
    }
  }

  /** Splitting the table around row `i`. */
  lemma CountAround(rows: seq<Vote>, i: nat, p: PostId, v: int)
    requires i < |rows|
    ensures Count(rows, p, v)
         == Count(rows[..i], p, v) + Count([rows[i]], p, v) + Count(rows[i + 1..], p, v)
  {
    assert rows == rows[..i] + ([rows[i]] + rows[i + 1..]);
    CountConcat(rows[..i], [rows[i]] + rows[i + 1..], p, v);
    CountConcat([rows[i]], rows[i + 1..], p, v);
  }

  lemma ScoreAround(rows: seq<Vote>, i: nat, p: PostId)
    requires i < |rows|
    ensures ScoreOf(rows, p)
         == ScoreOf(rows[..i], p) + ScoreOf([rows[i]], p) + ScoreOf(rows[i + 1..], p)
  {
    CountAround(rows, i, p, 1);
    CountAround(rows, i, p, -1);
  }

  lemma ScoreOfOne(x: Vote, q: PostId)
    ensures ScoreOf([x], q) == (if x.post == q && x.value == 1 then 1 else 0)
                             - (if x.post == q && x.value == -1 then 1 else 0)
  {
    assert [x][1..] == [];
    assert Count([x], q, 1) == (if x.post == q && x.value == 1 then 1 else 0) + Count([], q, 1);
    assert Count([x], q, -1) == (if x.post == q && x.value == -1 then 1 else 0) + Count([], q, -1);
  }

  lemma ScoreConcat(a: seq<Vote>, b: seq<Vote>, p: PostId)
    ensures ScoreOf(a + b, p) == ScoreOf(a, p) + ScoreOf(b, p)
  {
    CountConcat(a, b, p, 1);
    CountConcat(a, b, p, -1);
  }

  // ---------------------------------------------------------------------------
  // The ledger view

  /** Under the unique constraint, a row for (u, p) anywhere is the vote `u` holds on `p`. */
  lemma {:induction false} VoteOfRow(rows: seq<Vote>, i: nat)
    requires UniquePairs(rows) && i < |rows|
    ensures VoteOf(rows, rows[i].user, rows[i].post) == Some(rows[i].value)
  {
    assert forall k :: 0 <= k < i ==> !SamePair(rows[k], rows[i].user, rows[i].post) by {
      forall k | 0 <= k < i ensures !SamePair(rows[k], rows[i].user, rows[i].post) {
        assert !SamePair(rows[i], rows[k].user, rows[k].post);
      }
    }
  }

  /** Without a row for (u, p), `u` holds no vote on `p`. */
  lemma VoteOfNoRow(rows: seq<Vote>, u: UserId, p: PostId)
    requires forall k :: 0 <= k < |rows| ==> !SamePair(rows[k], u, p)
    ensures VoteOf(rows, u, p) == None
  {
  }

  /** A table whose pairs occur in the same rows as another's, with the same values, has the same ledger view. */
  lemma SameView(a: seq<Vote>, b: seq<Vote>, u: UserId, p: PostId)
    requires UniquePairs(a) && UniquePairs(b)
    requires forall i :: 0 <= i < |a| && SamePair(a[i], u, p) ==>
               exists j :: 0 <= j < |b| && b[j] == a[i]
    requires forall j :: 0 <= j < |b| && SamePair(b[j], u, p) ==>
               exists i :: 0 <= i < |a| && a[i] == b[j]
    ensures VoteOf(a, u, p) == VoteOf(b, u, p)
  {
    match FindVote(a, u, p)
    case Some(i) =>
      var j :| 0 <= j < |b| && b[j] == a[i];
      VoteOfRow(a, i);
      VoteOfRow(b, j);
    case None =>
      match FindVote(b, u, p)
      case None =>
      case Some(j) =>
        assert false;
  }

  /**
   * `after` is `rows` with one vote of `u` on `p` in direction `v` applied: the
   * unique constraint and the directions hold, the voter's holding on this
   * post moved from `h` to `NextVote(h, v)`, and no other pair changed.
   */
  ghost predicate LedgerStep(rows: seq<Vote>, after: seq<Vote>, u: UserId, p: PostId, v: int)
  {
    && UniquePairs(after) && Directions(after)
    && VoteOf(after, u, p) == NextVote(VoteOf(rows, u, p), v)
    && forall u': UserId, p': PostId :: (u', p') != (u, p) ==> VoteOf(after, u', p') == VoteOf(rows, u', p')
  }

  /** No row yet: the appended row is the new holding. */
  lemma ApplyVoteAppends(rows: seq<Vote>, u: UserId, p: PostId, v: int, now: Timestamp)
    requires UniquePairs(rows) && Directions(rows) && IsDirection(v)
    requires FindVote(rows, u, p).None?
    ensures LedgerStep(rows, rows + [Vote(u, p, v, now)], u, p, v)
  {
    var r := rows + [Vote(u, p, v, now)];
    VoteOfRow(r, |rows|);
    forall u': UserId, p': PostId | (u', p') != (u, p)
      ensures VoteOf(r, u', p') == VoteOf(rows, u', p')
    {
      forall i | 0 <= i < |rows| && SamePair(rows[i], u', p')
        ensures exists j :: 0 <= j < |r| && r[j] == rows[i]
      {
        assert r[i] == rows[i];
      }
      forall j | 0 <= j < |r| && SamePair(r[j], u', p')
        ensures exists i :: 0 <= i < |rows| && rows[i] == r[j]
      {
        assert j < |rows| && rows[j] == r[j];
      }
      SameView(rows, r, u', p');
    }
  }

  /** A row with the same direction: deleting it takes the vote back. */
  lemma ApplyVoteRetracts(rows: seq<Vote>, u: UserId, p: PostId, v: int, i: nat)
    requires UniquePairs(rows) && Directions(rows) && IsDirection(v)
    requires FindVote(rows, u, p) == Some(i) && rows[i].value == v
    ensures LedgerStep(rows, rows[..i] + rows[i + 1..], u, p, v)
  {
    var r := rows[..i] + rows[i + 1..];
    forall k | 0 <= k < |r| ensures r[k] == rows[if k < i then k else k + 1] {
      if k < i { assert r[k] == rows[..i][k]; } else { assert r[k] == rows[i + 1..][k - i]; }
    }
    assert UniquePairs(r) by {
      forall a, b | 0 <= a < b < |r|
        ensures !SamePair(r[b], r[a].user, r[a].post)
      {
        var a' := if a < i then a else a + 1;
        var b' := if b < i then b else b + 1;
        assert r[a] == rows[a'] && r[b] == rows[b'] && a' < b';
      }
    }
    assert Directions(r) by {
      forall k | 0 <= k < |r| ensures IsDirection(r[k].value) {
        assert r[k] == rows[if k < i then k else k + 1];
      }
    }
    VoteOfRow(rows, i);
    forall k | 0 <= k < |r|
      ensures !SamePair(r[k], u, p)
    {
      var k' := if k < i then k else k + 1;
      assert r[k] == rows[k'] && k' != i;
      if k' < i {
        assert !SamePair(rows[i], rows[k'].user, rows[k'].post);
      } else {
        assert !SamePair(rows[k'], rows[i].user, rows[i].post);
      }
    }
    VoteOfNoRow(r, u, p);
    forall u': UserId, p': PostId | (u', p') != (u, p)
      ensures VoteOf(r, u', p') == VoteOf(rows, u', p')
    {
      forall a | 0 <= a < |rows| && SamePair(rows[a], u', p')
        ensures exists j :: 0 <= j < |r| && r[j] == rows[a]
      {
        assert a != i;
        var j := if a < i then a else a - 1;
        assert r[j] == rows[a];
      }
      forall j | 0 <= j < |r| && SamePair(r[j], u', p')
        ensures exists a :: 0 <= a < |rows| && rows[a] == r[j]
      {
        assert rows[if j < i then j else j + 1] == r[j];
      }
      SameView(rows, r, u', p');
    }
  }

  /** A row with the other direction: flipping it in place holds the new direction. */
  lemma ApplyVoteFlips(rows: seq<Vote>, u: UserId, p: PostId, v: int, now: Timestamp, i: nat)
    requires UniquePairs(rows) && Directions(rows) && IsDirection(v)
    requires FindVote(rows, u, p) == Some(i) && rows[i].value != v
    ensures LedgerStep(rows, rows[i := rows[i].(value := v, date := now)], u, p, v)
  {
    var r := rows[i := rows[i].(value := v, date := now)];
    assert UniquePairs(r) by {
      forall a, b | 0 <= a < b < |r|
        ensures !SamePair(r[b], r[a].user, r[a].post)
      {
        assert r[a].user == rows[a].user && r[a].post == rows[a].post;
        assert r[b].user == rows[b].user && r[b].post == rows[b].post;
      }
    }
    VoteOfRow(r, i);
    forall u': UserId, p': PostId | (u', p') != (u, p)
      ensures VoteOf(r, u', p') == VoteOf(rows, u', p')
    {
      forall a | 0 <= a < |rows| && SamePair(rows[a], u', p')
        ensures exists j :: 0 <= j < |r| && r[j] == rows[a]
      {
        assert r[a] == rows[a];
      }
      forall j | 0 <= j < |r| && SamePair(r[j], u', p')
        ensures exists a :: 0 <= a < |rows| && rows[a] == r[j]
      {
        assert rows[j] == r[j];
      }
      SameView(rows, r, u', p');
    }
  }

  /**
   * One vote keeps the unique constraint and the directions, moves the voter's
   * holding on this post from `h` to `NextVote(h, v)`, and changes no other pair.
   */
  lemma ApplyVoteLedger(rows: seq<Vote>, u: UserId, p: PostId, v: int, now: Timestamp)
    requires UniquePairs(rows) && Directions(rows) && IsDirection(v)
    ensures UniquePairs(ApplyVote(rows, u, p, v, now))
    ensures Directions(ApplyVote(rows, u, p, v, now))
    ensures VoteOf(ApplyVote(rows, u, p, v, now), u, p) == NextVote(VoteOf(rows, u, p), v)
    ensures forall u': UserId, p': PostId :: (u', p') != (u, p) ==>
              VoteOf(ApplyVote(rows, u, p, v, now), u', p') == VoteOf(rows, u', p')
  {
    match FindVote(rows, u, p)
    case None =>
      ApplyVoteAppends(rows, u, p, v, now);
    case Some(i) =>
      if rows[i].value == v {
        ApplyVoteRetracts(rows, u, p, v, i);
      } else {
        ApplyVoteFlips(rows, u, p, v, now, i);
      }
  }

  /**
   * The score of the voted post moves by the new holding's weight minus the old
   * one's: +v for a fresh vote, -v when a vote is taken back, 2v for a flip.
   * No other post's score changes.
   */
  lemma ApplyVoteScore(rows: seq<Vote>, u: UserId, p: PostId, v: int, now: Timestamp)
    requires UniquePairs(rows) && Directions(rows) && IsDirection(v)
    ensures ScoreOf(ApplyVote(rows, u, p, v, now), p)
         == ScoreOf(rows, p) + Weight(NextVote(VoteOf(rows, u, p), v)) - Weight(VoteOf(rows, u, p))
    ensures forall q :: q != p ==> ScoreOf(ApplyVote(rows, u, p, v, now), q) == ScoreOf(rows, q)
  {
    var r := ApplyVote(rows, u, p, v, now);
    match FindVote(rows, u, p)
    case None =>
      forall q ensures ScoreOf(r, q) == ScoreOf(rows, q) + (if q == p then v else 0) {
        ScoreConcat(rows, [Vote(u, p, v, now)], q);
        ScoreOfOne(Vote(u, p, v, now), q);
      }
    case Some(i) =>
      assert IsDirection(rows[i].value);
      if rows[i].value == v {
        forall q ensures ScoreOf(r, q) == ScoreOf(rows, q) - (if q == p then v else 0) {
          ScoreConcat(rows[..i], rows[i + 1..], q);
          ScoreAround(rows, i, q);
          ScoreOfOne(rows[i], q);
        }
      } else {
        forall q ensures ScoreOf(r, q) == ScoreOf(rows, q) + (if q == p then 2 * v else 0) {
          ScoreAround(r, i, q);
          ScoreAround(rows, i, q);
          ScoreOfOne(r[i], q);
          ScoreOfOne(rows[i], q);
          assert r[..i] == rows[..i] && r[i + 1..] == rows[i + 1..];
        }
      }
  }

  /** Voting the same direction twice from no vote restores the table exactly, hence the score. */
  lemma ToggleRestores(rows: seq<Vote>, u: UserId, p: PostId, v: int, t1: Timestamp, t2: Timestamp)
    requires VoteOf(rows, u, p) == None
    ensures ApplyVote(ApplyVote(rows, u, p, v, t1), u, p, v, t2) == rows
    ensures ScoreOf(ApplyVote(ApplyVote(rows, u, p, v, t1), u, p, v, t2), p) == ScoreOf(rows, p)
  {
    var once := rows + [Vote(u, p, v, t1)];
    assert ApplyVote(rows, u, p, v, t1) == once;
    assert FindVote(once, u, p) == Some(|rows|) by {
      assert SamePair(once[|rows|], u, p);
      assert forall k :: 0 <= k < |rows| ==> once[k] == rows[k];
    }
    assert once[..|rows|] + once[|rows| + 1..] == rows;
  }

  /** Switching a like to a dislike lowers the score by two; the other way raises it by two. */
  lemma FlipMovesScoreByTwo(rows: seq<Vote>, u: UserId, p: PostId, v: int, now: Timestamp)
    requires UniquePairs(rows) && Directions(rows) && IsDirection(v)
    requires VoteOf(rows, u, p) == Some(-v)
    ensures VoteOf(ApplyVote(rows, u, p, v, now), u, p) == Some(v)
    ensures ScoreOf(ApplyVote(rows, u, p, v, now), p) == ScoreOf(rows, p) + 2 * v
  {
    ApplyVoteLedger(rows, u, p, v, now);
    ApplyVoteScore(rows, u, p, v, now);
  }

  /** A sequence of vote requests, each given as the voter, post, direction and time it carries. */
  function ApplyBallots(rows: seq<Vote>, ballots: seq<Vote>): seq<Vote>
    decreases |ballots|
  {
    if ballots == [] then rows
    else ApplyBallots(ApplyVote(rows, ballots[0].user, ballots[0].post, ballots[0].value, ballots[0].date), ballots[1..])
  }

  /** After any sequence of valid votes there is still at most one row per (user, post). */
  lemma {:induction false} AtMostOneRowPerPair(rows: seq<Vote>, ballots: seq<Vote>)
    requires UniquePairs(rows) && Directions(rows)
    requires forall k :: 0 <= k < |ballots| ==> IsDirection(ballots[k].value)
    ensures UniquePairs(ApplyBallots(rows, ballots)) && Directions(ApplyBallots(rows, ballots))
    decreases |ballots|
  {
    if ballots != [] {
      var b := ballots[0];
      ApplyVoteLedger(rows, b.user, b.post, b.value, b.date);
      AtMostOneRowPerPair(ApplyVote(rows, b.user, b.post, b.value, b.date), ballots[1..]);
    }
  }
}
