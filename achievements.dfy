/**
 * Achievements: the seeded catalog of (condition type, threshold) rules and
 * the evaluator that, after an event, walks the catalog once and awards every
 * rule the user has not yet earned and now satisfies.
 *
 * `PassAwards` is the specification of one walk; `AwardPass` is the loop
 * that performs it while growing the set of achievement ids already held.
 */
module Achievements {
  import opened Wrappers
  import opened ForumTypes
  import opened Ledger

  /** A row of the achievement table; only the condition decides when it is awarded. */
  datatype Achievement = Achievement(
    id: AchievementId,
    name: string,
    description: string,
    icon: string,
    conditionType: string,
    conditionValue: int)

  /** What a vote tells the evaluator about the post voted on. */
  datatype VoteContext = VoteContext(postId: PostId, postUserId: UserId, postAuthorId: UserId)

  /** The event that triggers an evaluation, with the context only votes supply. */
  datatype Event = Event(kind: string, context: Option<VoteContext>)

  const NewPost := Event("new_post", None)
  const NewVote := Event("new_vote", None)
  const PostDeletedRecheckPostsMade := Event("post_deleted_recheck_posts_made", None)
  const PostDeletedRecheckTotalUpvotes := Event("post_deleted_recheck_total_upvotes", None)

  /** The event sent to a post's author after someone votes on the post. */
  function VoteOnMyPost(p: Post): Event
  {
    Event("vote_on_my_post", Some(VoteContext(p.id, p.author, p.author)))
  }

  /** The eight rules seeded into an empty database, with the ids they receive in seeding order. */
  const SeededCatalog: seq<Achievement> := [
    Achievement(1, "Первопроходец", "Первый пост", "🚀", "posts_made", 1),
    Achievement(2, "Болтун", "5 постов", "💬", "posts_made", 5),
    Achievement(3, "Оратор", "15 постов", "🗣️", "posts_made", 15),
    Achievement(4, "Бог", "100 постов", "GG anonchik", "posts_made", 100),
    Achievement(5, "Голосующий", "10 голосов", "🗳️", "votes_cast", 10),
    Achievement(6, "Популярный", "Суммарно 10 лайков", "🌟", "total_post_upvotes_received", 10),
    Achievement(7, "Мудрец", "Пост с рейтингом +5", "💡", "post_score_reached", 5),
    Achievement(8, "GAY", "Пост с рейтингом 1", "oOo", "post_score_reached", 1)
  ]

  // ---------------------------------------------------------------------------
  // The counts the conditions read

  /** How many posts `u` has written. */
  function PostsBy(posts: seq<Post>, u: UserId): nat
  {
    if posts == [] then 0
    else (if posts[0].author == u then 1 else 0) + PostsBy(posts[1..], u)
  }

  /** The author of the post with id `p` (`Post.query.get(p).user_id`), if there is one. */
  function AuthorOf(posts: seq<Post>, p: PostId): (r: Option<UserId>)
    ensures r.Some? <==> exists i :: 0 <= i < |posts| && posts[i].id == p
    ensures r.Some? ==> exists i :: 0 <= i < |posts| && posts[i].id == p && posts[i].author == r.value
                          && forall k :: 0 <= k < i ==> posts[k].id != p
  {
    match IndexOf(posts, p)
    case None => None
    case Some(i) => Some(posts[i].author)
  }

  /** The likes on posts written by `u`: the vote table joined with the post table. */
  function UpvotesReceived(posts: seq<Post>, votes: seq<Vote>, u: UserId): nat
  {
    if votes == [] then 0
    else (if votes[0].value == 1 && AuthorOf(posts, votes[0].post) == Some(u) then 1 else 0)
         + UpvotesReceived(posts, votes[1..], u)
  }

  /** The event concerns a vote on a post of `u`, so the vote-driven rules are looked at. */
  predicate Gated(ev: Event, u: UserId)
  {
    ev.kind == "vote_on_my_post" && ev.context.Some?
    && (ev.context.value.postAuthorId == u || ev.context.value.postUserId == u)
  }

  /** Whether rule `a` holds for user `u` after event `ev`, over the post and vote tables. */
  predicate Satisfied(a: Achievement, u: UserId, ev: Event, posts: seq<Post>, votes: seq<Vote>)
  {
    if a.conditionType == "posts_made" then
      PostsBy(posts, u) >= a.conditionValue
    else if a.conditionType == "votes_cast" then
      VotesBy(votes, u) >= a.conditionValue
    else if a.conditionType == "total_post_upvotes_received" then
      && ev.kind == "vote_on_my_post" && ev.context.Some? && ev.context.value.postAuthorId == u
      && UpvotesReceived(posts, votes, u) >= a.conditionValue
    else if a.conditionType == "post_score_reached" then
      && ev.kind == "vote_on_my_post" && ev.context.Some? && ev.context.value.postUserId == u
      && ev.context.value.postId != 0
      && AuthorOf(posts, ev.context.value.postId).Some?
      && ScoreOf(votes, ev.context.value.postId) >= a.conditionValue
    else
      false
  }

  // ---------------------------------------------------------------------------
  // One evaluation

  /**
   * The ids one walk over `catalog` awards, in catalog order, to a user who
   * already holds `held`; an id awarded during the walk counts as held for
   * the rest of it.
   */
  function PassAwards(catalog: seq<Achievement>, held: set<AchievementId>, u: UserId, ev: Event,
                      posts: seq<Post>, votes: seq<Vote>): seq<AchievementId>
    decreases |catalog|
  {
    if catalog == [] then []
    else if catalog[0].id !in held && Satisfied(catalog[0], u, ev, posts, votes) then
      [catalog[0].id] + PassAwards(catalog[1..], held + {catalog[0].id}, u, ev, posts, votes)
    else
      PassAwards(catalog[1..], held, u, ev, posts, votes)
  }

  /**
   * The evaluator's loop. A user who is not active (banned) is turned away
   * before the loop and is awarded nothing.
   */
  method AwardPass(active: bool, catalog: seq<Achievement>, held: set<AchievementId>, u: UserId, ev: Event,
                   posts: seq<Post>, votes: seq<Vote>)
    returns (awarded: seq<AchievementId>)
    ensures awarded == if active then PassAwards(catalog, held, u, ev, posts, votes) else []
  {
    awarded := [];
    if !active {
      return;
    }
    var ids := held;
    var i := 0;
    while i < |catalog|
      invariant 0 <= i <= |catalog|
      invariant awarded + PassAwards(catalog[i..], ids, u, ev, posts, votes)
                == PassAwards(catalog, held, u, ev, posts, votes)
    {
      var ach := catalog[i];
      assert catalog[i..][1..] == catalog[i + 1..];
      if ach.id in ids {
        i := i + 1;
        continue;
      }
      var awardedThisCheck := false;
      if ach.conditionType == "posts_made" && PostsBy(posts, u) >= ach.conditionValue {
        awardedThisCheck := true;
      } else if ach.conditionType == "votes_cast" && VotesBy(votes, u) >= ach.conditionValue {
        awardedThisCheck := true;
      } else if ach.conditionType == "total_post_upvotes_received" {
        if ev.kind == "vote_on_my_post" && ev.context.Some? && ev.context.value.postAuthorId == u {
          if UpvotesReceived(posts, votes, u) >= ach.conditionValue {
            awardedThisCheck := true;
          }
        }
      } else if ach.conditionType == "post_score_reached" {
        if ev.kind == "vote_on_my_post" && ev.context.Some? && ev.context.value.postUserId == u {
          var target := ev.context.value.postId;
          if target != 0 {
            if AuthorOf(posts, target).Some? && ScoreOf(votes, target) >= ach.conditionValue {
              awardedThisCheck := true;
            }
          }
        }
      }
      assert awardedThisCheck == Satisfied(ach, u, ev, posts, votes);
      if awardedThisCheck {
        awarded := awarded + [ach.id];
        ids := ids + {ach.id};
      }
      i := i + 1;
    }
    assert catalog[i..] == [];
  }

  // ---------------------------------------------------------------------------
  // Properties of an evaluation

  /** Every awarded id belongs to a rule of the catalog that holds and was not held before. */
  lemma {:induction false} AwardsAreEarned(catalog: seq<Achievement>, held: set<AchievementId>, u: UserId,
                                           ev: Event, posts: seq<Post>, votes: seq<Vote>)
    ensures forall id :: id in PassAwards(catalog, held, u, ev, posts, votes) ==>
              id !in held && exists a :: a in catalog && a.id == id && Satisfied(a, u, ev, posts, votes)
    decreases |catalog|
  {
    if catalog != [] {
      var a := catalog[0];
      if a.id !in held && Satisfied(a, u, ev, posts, votes) {
        AwardsAreEarned(catalog[1..], held + {a.id}, u, ev, posts, votes);
      } else {
        AwardsAreEarned(catalog[1..], held, u, ev, posts, votes);
      }
      forall id | id in PassAwards(catalog, held, u, ev, posts, votes)
        ensures exists b :: b in catalog && b.id == id && Satisfied(b, u, ev, posts, votes)
      {
        if id != a.id || !(a.id !in held && Satisfied(a, u, ev, posts, votes)) {
          var b :| b in catalog[1..] && b.id == id && Satisfied(b, u, ev, posts, votes);
          assert b in catalog;
        }
      }
    }
  }

  /** No element occurs twice. */
  ghost predicate NoRepeats(s: seq<AchievementId>)
  {
    forall i, j :: 0 <= i < j < |s| ==> s[i] != s[j]
  }

  /** No id is awarded twice in one evaluation. */
  lemma {:induction false} AwardsAreDistinct(catalog: seq<Achievement>, held: set<AchievementId>, u: UserId,
                                             ev: Event, posts: seq<Post>, votes: seq<Vote>)
    ensures NoRepeats(PassAwards(catalog, held, u, ev, posts, votes))
    decreases |catalog|
  {
    if catalog != [] {
      var a := catalog[0];
      if a.id !in held && Satisfied(a, u, ev, posts, votes) {
        AwardsAreDistinct(catalog[1..], held + {a.id}, u, ev, posts, votes);
        AwardsAreEarned(catalog[1..], held + {a.id}, u, ev, posts, votes);
        var rest := PassAwards(catalog[1..], held + {a.id}, u, ev, posts, votes);
        var r := [a.id] + rest;
        assert PassAwards(catalog, held, u, ev, posts, votes) == r;
        forall i, j | 0 <= i < j < |r| ensures r[i] != r[j] {
          if i == 0 {
            assert r[j] == rest[j - 1] && rest[j - 1] in rest;
            assert rest[j - 1] !in held + {a.id};
          } else {
            assert r[i] == rest[i - 1] && r[j] == rest[j - 1];
          }
        }
      } else {
        AwardsAreDistinct(catalog[1..], held, u, ev, posts, votes);
        assert PassAwards(catalog, held, u, ev, posts, votes) == PassAwards(catalog[1..], held, u, ev, posts, votes);
      }
    }
  }

  /** Every rule that holds and is not already held is awarded. */
  lemma {:induction false} AwardsAreComplete(catalog: seq<Achievement>, held: set<AchievementId>, u: UserId,
                                             ev: Event, posts: seq<Post>, votes: seq<Vote>)
    ensures forall a :: a in catalog && a.id !in held && Satisfied(a, u, ev, posts, votes) ==>
              a.id in PassAwards(catalog, held, u, ev, posts, votes)
    decreases |catalog|
  {
    if catalog != [] {
      var a0 := catalog[0];
      var r := PassAwards(catalog, held, u, ev, posts, votes);
      if a0.id !in held && Satisfied(a0, u, ev, posts, votes) {
        AwardsAreComplete(catalog[1..], held + {a0.id}, u, ev, posts, votes);
        forall a | a in catalog && a.id !in held && Satisfied(a, u, ev, posts, votes) ensures a.id in r {
          if a.id != a0.id {
            assert a != a0;
            assert a in catalog[1..];
          }
        }
      } else {
        AwardsAreComplete(catalog[1..], held, u, ev, posts, votes);
        forall a | a in catalog && a.id !in held && Satisfied(a, u, ev, posts, votes) ensures a.id in r {
          assert a != a0;
          assert a in catalog[1..];
        }
      }
    }
  }

  /** A walk in which nothing holds that is not already held awards nothing. */
  lemma {:induction false} NothingLeftToAward(catalog: seq<Achievement>, held: set<AchievementId>, u: UserId,
                                              ev: Event, posts: seq<Post>, votes: seq<Vote>)
    requires forall a :: a in catalog && Satisfied(a, u, ev, posts, votes) ==> a.id in held
    ensures PassAwards(catalog, held, u, ev, posts, votes) == []
    decreases |catalog|
  {
    if catalog != [] {
      assert catalog[0] in catalog;
      NothingLeftToAward(catalog[1..], held, u, ev, posts, votes);
    }
  }

  /** Once the awards of a walk are added to the held set, a second walk on the same tables awards nothing. */
  lemma SecondPassAwardsNothing(catalog: seq<Achievement>, held: set<AchievementId>, u: UserId,
                                ev: Event, posts: seq<Post>, votes: seq<Vote>)
    ensures var r := PassAwards(catalog, held, u, ev, posts, votes);
      PassAwards(catalog, held + (set id | id in r), u, ev, posts, votes) == []
  {
    var r := PassAwards(catalog, held, u, ev, posts, votes);
    AwardsAreComplete(catalog, held, u, ev, posts, votes);
    NothingLeftToAward(catalog, held + (set id | id in r), u, ev, posts, votes);
  }

  /**
   * The count rules (`posts_made`, `votes_cast`) do not look at the event; the
   * two vote rules need a `vote_on_my_post` event naming the user. So every
   * event that does not concern a vote on the user's own post yields the same
   * awards, and those awards come from count rules only.
   */
  lemma {:induction false} UngatedEventsAgree(catalog: seq<Achievement>, held: set<AchievementId>, u: UserId,
                                              ev1: Event, ev2: Event, posts: seq<Post>, votes: seq<Vote>)
    requires !Gated(ev1, u) && !Gated(ev2, u)
    ensures PassAwards(catalog, held, u, ev1, posts, votes) == PassAwards(catalog, held, u, ev2, posts, votes)
    decreases |catalog|
  {
    if catalog != [] {
      assert Satisfied(catalog[0], u, ev1, posts, votes) == Satisfied(catalog[0], u, ev2, posts, votes);
      UngatedEventsAgree(catalog[1..], held, u, ev1, ev2, posts, votes);
      UngatedEventsAgree(catalog[1..], held + {catalog[0].id}, u, ev1, ev2, posts, votes);
    }
  }

  lemma UngatedAwardsCountRulesOnly(catalog: seq<Achievement>, held: set<AchievementId>, u: UserId,
                                    ev: Event, posts: seq<Post>, votes: seq<Vote>)
    requires !Gated(ev, u)
    ensures forall id :: id in PassAwards(catalog, held, u, ev, posts, votes) ==>
              exists a :: a in catalog && a.id == id
                && (a.conditionType == "posts_made" || a.conditionType == "votes_cast")
  {
    AwardsAreEarned(catalog, held, u, ev, posts, votes);
  }

  /** A walk whose first rule alone holds awards that rule's id and nothing else. */
  lemma OnlyFirstAwarded(catalog: seq<Achievement>, u: UserId, ev: Event, posts: seq<Post>, votes: seq<Vote>)
    requires catalog != [] && Satisfied(catalog[0], u, ev, posts, votes)
    requires forall i :: 1 <= i < |catalog| ==> !Satisfied(catalog[i], u, ev, posts, votes)
    ensures PassAwards(catalog, {}, u, ev, posts, votes) == [catalog[0].id]
  {
    var rest := catalog[1..];
    forall a | a in rest ensures !Satisfied(a, u, ev, posts, votes) {
      var i :| 0 <= i < |rest| && rest[i] == a;
      assert rest[i] == catalog[i + 1];
    }
    NothingLeftToAward(rest, {catalog[0].id}, u, ev, posts, votes);
    assert {} + {catalog[0].id} == {catalog[0].id};
    assert PassAwards(catalog, {}, u, ev, posts, votes) == [catalog[0].id] + PassAwards(rest, {catalog[0].id}, u, ev, posts, votes);
  }

  /** A rule other than "one post" that a one-post user with fewer than ten votes does not meet on a new post. */
  lemma UnmetRule(a: Achievement, u: UserId, posts: seq<Post>, votes: seq<Vote>)
    requires PostsBy(posts, u) == 1 && VotesBy(votes, u) < 10
    requires a.conditionType == "posts_made" ==> a.conditionValue > 1
    requires a.conditionType == "votes_cast" ==> a.conditionValue >= 10
    ensures !Satisfied(a, u, NewPost, posts, votes)
  {
  }

  /** With the seeded catalog, a user's first post earns exactly the first-post achievement. */
  lemma FirstPostEarnsPioneer(u: UserId, posts: seq<Post>, votes: seq<Vote>)
    requires PostsBy(posts, u) == 1 && VotesBy(votes, u) < 10
    ensures PassAwards(SeededCatalog, {}, u, NewPost, posts, votes) == [1]
  {
    var c := SeededCatalog;
    forall i | 1 <= i < |c| ensures !Satisfied(c[i], u, NewPost, posts, votes) {
      UnmetRule(c[i], u, posts, votes);
    }
    OnlyFirstAwarded(c, u, NewPost, posts, votes);
  }

  // ---------------------------------------------------------------------------
  // The award table

  /** The ids of the achievements `u` holds. */
  function HeldBy(earned: map<UserId, set<AchievementId>>, u: UserId): set<AchievementId>
  {
    if u in earned then earned[u] else {}
  }

  /**
   * The award table after one evaluation for `u`: the awarded ids are added
   * to what `u` holds, and nothing is written when nothing is awarded.
   */
  function AwardUser(active: bool, catalog: seq<Achievement>, earned: map<UserId, set<AchievementId>>,
                     u: UserId, ev: Event, posts: seq<Post>, votes: seq<Vote>): map<UserId, set<AchievementId>>
  {
    var r := if active then PassAwards(catalog, HeldBy(earned, u), u, ev, posts, votes) else [];
    if r == [] then earned else earned[u := HeldBy(earned, u) + (set id | id in r)]
  }

  /**
   * An evaluation only adds: every user keeps every achievement, users other
   * than `u` are untouched, and what `u` gains are satisfied rules of the catalog.
   */
  lemma AwardUserOnlyAdds(active: bool, catalog: seq<Achievement>, earned: map<UserId, set<AchievementId>>,
                          u: UserId, ev: Event, posts: seq<Post>, votes: seq<Vote>)
    ensures var after := AwardUser(active, catalog, earned, u, ev, posts, votes);
      && (forall w :: HeldBy(earned, w) <= HeldBy(after, w))
      && (forall w :: w != u ==> HeldBy(after, w) == HeldBy(earned, w))
      && (forall id :: id in HeldBy(after, u) && id !in HeldBy(earned, u) ==>
            active && exists a :: a in catalog && a.id == id && Satisfied(a, u, ev, posts, votes))
  {
    AwardsAreEarned(catalog, HeldBy(earned, u), u, ev, posts, votes);
  }

  /** Evaluating twice on unchanged tables is the same as evaluating once. */
  lemma AwardUserIdempotent(active: bool, catalog: seq<Achievement>, earned: map<UserId, set<AchievementId>>,
                            u: UserId, ev: Event, posts: seq<Post>, votes: seq<Vote>)
    ensures var once := AwardUser(active, catalog, earned, u, ev, posts, votes);
      AwardUser(active, catalog, once, u, ev, posts, votes) == once
  {
    var held := HeldBy(earned, u);
    var once := AwardUser(active, catalog, earned, u, ev, posts, votes);
    if active {
      var r := PassAwards(catalog, held, u, ev, posts, votes);
      SecondPassAwardsNothing(catalog, held, u, ev, posts, votes);
      assert HeldBy(once, u) == held + (set id | id in r);
    }
  }
}
