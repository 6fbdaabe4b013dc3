/**
 * The forum's database as one object, with the state-changing routes as its
 * methods: registration, posting, voting, editing and deleting posts, banning
 * and unbanning, and reporting.
 *
 * Every route first checks who is asking. An id that is not in the user table
 * stands for a visitor who is not logged in, and a banned account is turned
 * away as well. A refused request returns a `Failure` and changes nothing.
 */
module Forum {
  import opened Wrappers
  import opened ForumTypes
  import opened Ledger
  import opened TagText
  import opened Achievements

  /** Some post carries tag `t`. */
  predicate TagUsed(posts: seq<Post>, t: TagId)
  {
    exists i :: 0 <= i < |posts| && t in posts[i].tags
  }

  /** A tag stays carried when one post is replaced by another that keeps it or it is carried elsewhere. */
  lemma TagUsedAfterReplace(posts: seq<Post>, i: nat, q: Post, t: TagId)
    requires i < |posts|
    requires TagUsed(posts, t) && (t in posts[i].tags ==> t in q.tags)
    ensures TagUsed(posts[i := q], t)
  {
    var j :| 0 <= j < |posts| && t in posts[j].tags;
    if j == i {
      assert t in posts[i := q][i].tags;
    } else {
      assert t in posts[i := q][j].tags;
    }
  }

  /** A tag the removed post did not carry is still carried by another post. */
  lemma TagUsedAfterRemove(posts: seq<Post>, i: nat, t: TagId)
    requires i < |posts|
    requires TagUsed(posts, t) && t !in posts[i].tags
    ensures TagUsed(posts[..i] + posts[i + 1..], t)
  {
    var j :| 0 <= j < |posts| && t in posts[j].tags;
    var r := posts[..i] + posts[i + 1..];
    if j < i {
      assert r[j] == posts[j];
    } else {
      assert r[j - 1] == posts[j];
    }
  }

  /** `tag.posts.count()`: how many posts carry tag `t`. */
  function Carriers(posts: seq<Post>, t: TagId): (n: nat)
    ensures n <= |posts|
    ensures n > 0 <==> TagUsed(posts, t)
  {
    if posts == [] then 0
    else
      var rest := Carriers(posts[1..], t);
      assert TagUsed(posts, t) <==> t in posts[0].tags || TagUsed(posts[1..], t) by {
        if TagUsed(posts[1..], t) {
          var i :| 0 <= i < |posts[1..]| && t in posts[1..][i].tags;
          assert t in posts[i + 1].tags;
        }
        if TagUsed(posts, t) && t !in posts[0].tags {
          var i :| 0 <= i < |posts| && t in posts[i].tags;
          assert t in posts[1..][i - 1].tags;
        }
      }
      (if t in posts[0].tags then 1 else 0) + rest
  }

  /** No two posts share an id. */
  ghost predicate UniqueIds(posts: seq<Post>)
  {
    forall i, j :: 0 <= i < j < |posts| ==> posts[i].id != posts[j].id
  }

  /** No two tags share a name (the unique constraint on `tag.name`). */
  ghost predicate NamesUnique(tags: map<TagId, string>)
  {
    forall t1, t2 :: t1 in tags && t2 in tags && tags[t1] == tags[t2] ==> t1 == t2
  }

  /** The tag table as find-or-create keeps it: unique clean names, ids below the counter. */
  ghost predicate TagStore(tags: map<TagId, string>, nextTagId: TagId)
  {
    NamesUnique(tags) && forall t :: t in tags ==> t < nextTagId && CleanName(tags[t])
  }

  /** Adding a clean name not yet stored, under the next id, keeps the tag table in shape. */
  lemma AddFreshTag(tags: map<TagId, string>, nextTagId: TagId, name: string)
    requires TagStore(tags, nextTagId) && CleanName(name) && name !in tags.Values
    ensures TagStore(tags[nextTagId := name], nextTagId + 1)
  {
    forall t | t in tags ensures tags[t] != name {
      assert tags[t] in tags.Values;
    }
  }

  /** Names drawn from a table of clean names are clean. */
  lemma StoredNamesClean(tags: map<TagId, string>, names: seq<string>)
    requires forall t :: t in tags ==> CleanName(tags[t])
    requires forall k :: 0 <= k < |names| ==> names[k] in tags.Values
    ensures forall k :: 0 <= k < |names| ==> CleanName(names[k])
  {
    forall k | 0 <= k < |names| ensures CleanName(names[k]) {
      var n := names[k];
      assert n in tags.Values;
      var t :| t in tags && tags[t] == n;
    }
  }

  /** Every name in `names` is the name of some tag among `ids`: each parsed name is attached. */
  ghost predicate NamesAttached(tags: map<TagId, string>, ids: set<TagId>, names: seq<string>)
  {
    forall n :: n in names ==> exists t :: t in ids && t in tags && tags[t] == n
  }

  /** When every name is stored and `ids` are exactly the tags with those names, every name is attached. */
  lemma StoredNamesAttached(tags: map<TagId, string>, ids: set<TagId>, names: seq<string>)
    requires forall n :: n in names ==> n in tags.Values
    requires forall t :: t in ids <==> t in tags && tags[t] in names
    ensures NamesAttached(tags, ids, names)
  {
    forall n | n in names ensures exists t :: t in ids && t in tags && tags[t] == n {
      assert n in tags.Values;
      var t :| t in tags && tags[t] == n;
      assert t in ids;
    }
  }

  /**
   * The tags `ids` a post gets from the parsed names `names` when find-or-create
   * turns the table `before` into `after`, `carried` being the post's previous
   * tags: exactly the tags whose names are named, with every name attached; an
   * existing tag of a named name is the one reused; and names that name exactly
   * the tags `carried` give back `carried`.
   */
  ghost predicate Retagged(before: map<TagId, string>, after: map<TagId, string>,
                           carried: set<TagId>, ids: set<TagId>, names: seq<string>)
    requires carried <= before.Keys
  {
    && (forall t :: t in ids <==> t in after && after[t] in names)
    && NamesAttached(after, ids, names)
    && (forall t :: t in before && before[t] in names ==> t in ids)
    && ((forall n :: n in names <==> exists t :: t in carried && before[t] == n) ==> ids == carried)
  }

  /**
   * Resubmitting a post's own tag names: when `names` names exactly the tags
   * `carried` in the table `before`, and find-or-create reused every tag of
   * `before` whose name is named, the tags `ids` attached are `carried` again.
   */
  lemma ResubmitKeepsTags(before: map<TagId, string>, after: map<TagId, string>,
                          carried: set<TagId>, names: seq<string>, ids: set<TagId>)
    requires carried <= before.Keys && NamesUnique(after)
    requires forall t :: t in ids <==> t in after && after[t] in names
    requires forall t :: t in before && before[t] in names ==> t in ids
    requires forall t :: t in before && t in after ==> after[t] == before[t]
    ensures (forall n :: n in names <==> exists t :: t in carried && before[t] == n) ==> ids == carried
  {
    if forall n :: n in names <==> exists t :: t in carried && before[t] == n {
      forall t | t in carried ensures t in ids {
        assert before[t] in names;
      }
      forall t | t in ids ensures t in carried {
        var t0 :| t0 in carried && before[t0] == after[t];
        assert t0 in ids && after[t0] == after[t];
      }
    }
  }

  /**
   * One step of find-or-create: `done` are the names handled so far, and
   * `name` has just been found or created as tag `t`, turning `before` into
   * `after`. With `name` handled too, the tags of `orig` are still there, the
   * tags added since carry handled names, the ids collected are exactly the
   * tags whose names were handled, and every handled name is stored.
   */
  lemma FindOrCreateStep(orig: map<TagId, string>, before: map<TagId, string>, after: map<TagId, string>,
                         ids: set<TagId>, t: TagId, done: seq<string>, name: string, handled: seq<string>)
    requires handled == done + [name]
    requires NamesUnique(after) && t in after && after[t] == name
    requires forall u :: u in before ==> u in after && after[u] == before[u]
    requires forall u :: u in after && u !in before ==> u == t
    requires forall u :: u in orig ==> u in before && before[u] == orig[u]
    requires forall u :: u in before && u !in orig ==> before[u] in done
    requires forall u :: u in ids <==> u in before && before[u] in done
    requires forall n :: n in done ==> n in before.Values
    ensures forall u :: u in orig ==> u in after && after[u] == orig[u]
    ensures forall u :: u in after && u !in orig ==> after[u] in handled
    ensures forall u :: u in ids + {t} <==> u in after && after[u] in handled
    ensures forall n :: n in handled ==> n in after.Values
  {
    forall u | u in after && u != t ensures after[u] in handled <==> before[u] in done {
      assert after[u] != name;
    }
    forall n | n in done ensures n in after.Values {
      assert n in before.Values;
      var u :| u in before && before[u] == n;
      assert after[u] == n;
    }
    assert after[t] in after.Values;
  }

  /** The vote rows that survive deleting post `p` (the cascade on `Post.votes`). */
  function DropVotesOn(rows: seq<Vote>, p: PostId): (r: seq<Vote>)
    ensures forall v :: v in r <==> v in rows && v.post != p
  {
    if rows == [] then []
    else if rows[0].post == p then DropVotesOn(rows[1..], p)
    else [rows[0]] + DropVotesOn(rows[1..], p)
  }

  /** The cascade keeps the unique constraint and the directions of the remaining rows. */
  lemma {:induction false} DropVotesOnKeepsLedger(rows: seq<Vote>, p: PostId)
    requires UniquePairs(rows) && Directions(rows)
    ensures UniquePairs(DropVotesOn(rows, p)) && Directions(DropVotesOn(rows, p))
    ensures forall i :: 0 <= i < |DropVotesOn(rows, p)| ==> DropVotesOn(rows, p)[i].post != p
  {
    if rows != [] {
      var tail := rows[1..];
      assert UniquePairs(tail) by {
        forall i, j | 0 <= i < j < |tail| ensures !SamePair(tail[j], tail[i].user, tail[i].post) {
          assert tail[i] == rows[i + 1] && tail[j] == rows[j + 1];
        }
      }
      assert Directions(tail) by {
        forall i | 0 <= i < |tail| ensures IsDirection(tail[i].value) {
          assert tail[i] == rows[i + 1];
        }
      }
      DropVotesOnKeepsLedger(tail, p);
      var rest := DropVotesOn(tail, p);
      if rows[0].post != p {
        var r := [rows[0]] + rest;
        forall i, j | 0 <= i < j < |r| ensures !SamePair(r[j], r[i].user, r[i].post) {
          if i == 0 {
            assert r[j] == rest[j - 1] && rest[j - 1] in rest;
            var k :| 0 <= k < |tail| && tail[k] == rest[j - 1];
            assert rows[k + 1] == rest[j - 1];
          } else {
            assert r[i] == rest[i - 1] && r[j] == rest[j - 1];
          }
        }
        forall i | 0 <= i < |r| ensures IsDirection(r[i].value) && r[i].post != p {
          if i > 0 {
            assert r[i] == rest[i - 1];
          }
        }
      }
    }
  }

  /** Marking every unresolved report about `u` as resolved (the update run by a ban). */
  function ResolveReportsAbout(reports: seq<Report>, u: UserId): (r: seq<Report>)
    ensures |r| == |reports|
  {
    if reports == [] then []
    else
      var head := if reports[0].reported == u then reports[0].(resolved := true) else reports[0];
      [head] + ResolveReportsAbout(reports[1..], u)
  }

  /** After the update no report about `u` is open, and reports about anyone else are untouched. */
  lemma {:induction false} ResolveReportsAboutClears(reports: seq<Report>, u: UserId)
    ensures forall i :: 0 <= i < |reports| ==>
      ResolveReportsAbout(reports, u)[i] ==
        if reports[i].reported == u then reports[i].(resolved := true) else reports[i]
  {
    if reports != [] {
      ResolveReportsAboutClears(reports[1..], u);
      var r := ResolveReportsAbout(reports, u);
      forall i | 1 <= i < |reports|
        ensures r[i] == if reports[i].reported == u then reports[i].(resolved := true) else reports[i]
      {
        assert r[i] == ResolveReportsAbout(reports[1..], u)[i - 1];
        assert reports[i] == reports[1..][i - 1];
      }
    }
  }

  /** An unresolved report by `reporter` about `reported` exists. */
  predicate OpenReport(reports: seq<Report>, reporter: UserId, reported: UserId)
  {
    exists i :: 0 <= i < |reports| && reports[i].reporter == reporter
      && reports[i].reported == reported && !reports[i].resolved
  }

  /** A user name is taken. */
  predicate NameTakenIn(users: map<UserId, User>, name: string)
  {
    exists u :: u in users && users[u].name == name
  }

  /** All three registration fields are present and non-empty (`all([username, password, password_confirm])`). */
  predicate FormComplete(name: Option<string>, password: Option<string>, confirm: Option<string>)
  {
    name.Some? && name.value != "" && password.Some? && password.value != "" && confirm.Some? && confirm.value != ""
  }

  /** Why a registration form is refused, checked in the route's order; None means it is accepted. */
  function RegistrationError(users: map<UserId, User>, name: Option<string>, password: Option<string>,
                             confirm: Option<string>): (e: Option<Error>)
    ensures e.None? ==> name.Some? && |name.value| >= 3 && !NameTakenIn(users, name.value)
    ensures e.None? ==> password.Some? && password.value != "" && password == confirm
    ensures e == Some(PasswordMismatch) ==> password != confirm
    ensures name.Some? && name.value != "" && password.Some? && password.value != "" && password == confirm
            ==> (e.None? <==> |name.value| >= 3 && !NameTakenIn(users, name.value))
    ensures e == Some(MissingField) <==> !FormComplete(name, password, confirm)
    ensures e == Some(PasswordMismatch) <==> FormComplete(name, password, confirm) && password.value != confirm.value
    ensures e == Some(NameTooShort) <==>
      FormComplete(name, password, confirm) && password.value == confirm.value && |name.value| < 3
    ensures e == Some(NameTaken) <==>
      && FormComplete(name, password, confirm) && password.value == confirm.value && |name.value| >= 3
      && NameTakenIn(users, name.value)
    ensures e.None? <==>
      && FormComplete(name, password, confirm) && password.value == confirm.value && |name.value| >= 3
      && !NameTakenIn(users, name.value)
  {
    if name.None? || name.value == "" || password.None? || password.value == ""
       || confirm.None? || confirm.value == "" then Some(MissingField)
    else if password.value != confirm.value then Some(PasswordMismatch)
    else if |name.value| < 3 then Some(NameTooShort)
    else if NameTakenIn(users, name.value) then Some(NameTaken)
    else None
  }

  /**
   * The gate of the edit and delete routes, in the order its checks are made:
   * a logged-in account, not banned, an existing post, and the post's author
   * or an administrator.
   */
  function PostGate(users: map<UserId, User>, posts: seq<Post>, actor: UserId, postId: PostId): (e: Option<Error>)
    ensures e == Some(NotAuthenticated) <==> actor !in users
    ensures e == Some(Banned) <==> actor in users && users[actor].isBanned
    ensures e == Some(NotFound) <==> actor in users && !users[actor].isBanned && IndexOf(posts, postId).None?
    ensures e == Some(Forbidden) <==>
              actor in users && !users[actor].isBanned && IndexOf(posts, postId).Some?
              && !users[actor].isAdmin && posts[IndexOf(posts, postId).value].author != actor
    ensures e.None? <==>
              actor in users && !users[actor].isBanned && IndexOf(posts, postId).Some?
              && (users[actor].isAdmin || posts[IndexOf(posts, postId).value].author == actor)
  {
    if actor !in users then Some(NotAuthenticated)
    else if users[actor].isBanned then Some(Banned)
    else match IndexOf(posts, postId)
      case None => Some(NotFound)
      case Some(i) => if users[actor].isAdmin || posts[i].author == actor then None else Some(Forbidden)
  }

  /** The edit route's checks: the post gate, then a body with some text. */
  function EditError(users: map<UserId, User>, posts: seq<Post>, actor: UserId, postId: PostId,
                     content: Option<string>): (e: Option<Error>)
    ensures PostGate(users, posts, actor, postId).Some? ==> e == PostGate(users, posts, actor, postId)
    ensures e == Some(EmptyContent) <==>
              PostGate(users, posts, actor, postId).None? && (content.None? || !HasText(content.value))
    ensures e.None? <==> PostGate(users, posts, actor, postId).None? && content.Some? && HasText(content.value)
  {
    var gate := PostGate(users, posts, actor, postId);
    if gate.Some? then gate
    else if content.None? || !HasText(content.value) then Some(EmptyContent)
    else None
  }

  /** The outcome of an accepted vote: the voter's holding on the post and the post's new score. */
  datatype VoteOutcome = VoteOutcome(userVote: Option<int>, newScore: int)

  class ForumState {
    var users: map<UserId, User>
    var posts: seq<Post>
    var votes: seq<Vote>
    var tags: map<TagId, string>
    var reports: seq<Report>
    var earned: map<UserId, set<AchievementId>>
    const catalog: seq<Achievement>
    var nextUserId: UserId
    var nextPostId: PostId
    var nextTagId: TagId

    /**
     * The database's constraints: unique vote pairs with valid directions,
     * unique post ids, posts written by registered users and carrying existing
     * tags, unique tag names, every tag carried by some post, and the id
     * counters above every id in use.
     */
    ghost predicate Valid()
      reads this`users, this`posts, this`votes, this`tags, this`nextUserId, this`nextPostId, this`nextTagId
    {
      ValidExcept({})
    }

    /** The constraints, except that tags among `candidates` may be carried by no post. */
    ghost predicate ValidExcept(candidates: set<TagId>)
      reads this`users, this`posts, this`votes, this`tags, this`nextUserId, this`nextPostId, this`nextTagId
    {
      && UniquePairs(votes) && Directions(votes)
      && UniqueIds(posts)
      && (forall i :: 0 <= i < |posts| ==>
            posts[i].id < nextPostId && posts[i].author in users && posts[i].tags <= tags.Keys)
      && NamesUnique(tags) && (forall t :: t in tags ==> CleanName(tags[t]))
      && (forall t :: t in tags ==> t < nextTagId && (TagUsed(posts, t) || t in candidates))
      && (forall u :: u in users ==> u < nextUserId)
    }

    /**
     * The edit form shows the post at `i` with its tag field set to
     * `', '.join(...)` of its tags' names. Every stored name is clean, so that
     * field, submitted unchanged, parses back to the very same names: it names
     * exactly the post's tags, which is the case in which `EditPost` keeps them.
     */
    lemma StoredTagListRoundTrip(i: nat, names: seq<string>)
      requires Valid() && i < |posts|
      requires forall n :: n in names <==> exists t :: t in posts[i].tags && tags[t] == n
      ensures ParseTagNames(Join(names, ", ")) == names
      ensures forall n :: n in ParseTagNames(Join(names, ", ")) <==> exists t :: t in posts[i].tags && tags[t] == n
    {
      forall k | 0 <= k < |names| ensures names[k] in tags.Values {
        assert names[k] in names;
        var t :| t in posts[i].tags && tags[t] == names[k];
        assert tags[t] in tags.Values;
      }
      StoredNamesClean(tags, names);
      ParseOfJoin(names);
    }

    /** A logged-in account that is not banned (`is_authenticated` and `is_active`). */
    predicate Active(u: UserId)
      reads this`users
    {
      u in users && !users[u].isBanned
    }

    /** The empty database with the seeded achievement catalog; ids start at 1. */
    constructor ()
      ensures Valid()
      ensures users == map[] && posts == [] && votes == [] && tags == map[] && reports == [] && earned == map[]
      ensures catalog == SeededCatalog
    {
      users := map[];
      posts := [];
      votes := [];
      tags := map[];
      reports := [];
      earned := map[];
      catalog := SeededCatalog;
      nextUserId := 1;
      nextPostId := 1;
      nextTagId := 1;
    }

    /** Registration: the form is checked, and the very first account becomes an administrator. */
    method Register(name: Option<string>, password: Option<string>, confirm: Option<string>)
      returns (r: Result<UserId, Error>)
      requires Valid()
      modifies this`users, this`nextUserId
      ensures Valid()
      ensures r.Failure? <==> RegistrationError(old(users), name, password, confirm).Some?
      ensures r.Failure? ==> r.error == RegistrationError(old(users), name, password, confirm).value
                             && users == old(users) && nextUserId == old(nextUserId)
      ensures r.Success? ==> r.value !in old(users)
                             && users == old(users)[r.value := User(name.value, |old(users)| == 0, false)]
    {
      var err := RegistrationError(users, name, password, confirm);
      if err.Some? {
        return Failure(err.value);
      }
      var id := nextUserId;
      var isAdmin := |users| == 0;
      users := users[id := User(name.value, isAdmin, false)];
      nextUserId := nextUserId + 1;
      r := Success(id);
    }

    /** The achievement evaluator for `u` after event `ev`, over the current tables. */
    method CheckAndAward(u: UserId, ev: Event)
      modifies this`earned
      ensures earned == AwardUser(Active(u), catalog, old(earned), u, ev, posts, votes)
    {
      var awarded := AwardPass(u in users && !users[u].isBanned, catalog, HeldBy(earned, u), u, ev, posts, votes);
      if awarded != [] {
        earned := earned[u := HeldBy(earned, u) + (set id | id in awarded)];
      }
    }

    /** Applies one vote to the vote table; returns the voter's holding on the post afterwards. */
    method RecordVote(actor: UserId, postId: PostId, v: int, now: Timestamp) returns (status: Option<int>)
      requires Valid() && IsDirection(v)
      modifies this`votes
      ensures Valid()
      ensures votes == ApplyVote(old(votes), actor, postId, v, now)
      ensures status == NextVote(VoteOf(old(votes), actor, postId), v)
      ensures status == VoteOf(votes, actor, postId)
      ensures ScoreOf(votes, postId) == ScoreOf(old(votes), postId) + Weight(status) - Weight(VoteOf(old(votes), actor, postId))
    {
      ApplyVoteLedger(votes, actor, postId, v, now);
      ApplyVoteScore(votes, actor, postId, v, now);
      status := NextVote(VoteOf(votes, actor, postId), v);
      votes := ApplyVote(votes, actor, postId, v, now);
    }

    /**
     * The vote route: checks the voter, the post and the token, applies the
     * vote to the table, then evaluates achievements for the voter and for the
     * post's author.
     */
    method CastVote(actor: UserId, postId: PostId, token: string, now: Timestamp)
      returns (r: Result<VoteOutcome, Error>)
      requires Valid()
      modifies this`votes, this`earned
      ensures Valid()
      ensures r == Failure(NotAuthenticated) <==> actor !in users
      ensures r == Failure(Banned) <==> actor in users && users[actor].isBanned
      ensures r == Failure(NotFound) <==> Active(actor) && IndexOf(posts, postId).None?
      ensures r == Failure(BadVoteType) <==>
                Active(actor) && IndexOf(posts, postId).Some? && DirectionOf(token).None?
      ensures r.Success? <==> Active(actor) && IndexOf(posts, postId).Some? && DirectionOf(token).Some?
      ensures r.Failure? ==> votes == old(votes) && earned == old(earned)
      ensures r.Success? ==>
        && Active(actor) && IndexOf(posts, postId).Some? && DirectionOf(token).Some?
        && votes == ApplyVote(old(votes), actor, postId, DirectionOf(token).value, now)
        && r.value.userVote == NextVote(VoteOf(old(votes), actor, postId), DirectionOf(token).value)
        && r.value.userVote == VoteOf(votes, actor, postId)
        && r.value.newScore == ScoreOf(votes, postId)
        && r.value.newScore == ScoreOf(old(votes), postId)
                               + Weight(r.value.userVote) - Weight(VoteOf(old(votes), actor, postId))
        && var author := posts[IndexOf(posts, postId).value].author;
           earned == AwardUser(Active(author), catalog,
                               AwardUser(true, catalog, old(earned), actor, NewVote, posts, votes),
                               author, VoteOnMyPost(posts[IndexOf(posts, postId).value]), posts, votes)
    {
      if actor !in users {
        return Failure(NotAuthenticated);
      }
      if users[actor].isBanned {
        return Failure(Banned);
      }
      var found := IndexOf(posts, postId);
      if found.None? {
        return Failure(NotFound);
      }
      var post := posts[found.value];
      var direction := DirectionOf(token);
      if direction.None? {
        return Failure(BadVoteType);
      }
      var status := RecordVote(actor, postId, direction.value, now);
      CheckAndAward(actor, NewVote);
      CheckAndAward(post.author, VoteOnMyPost(post));
      r := Success(VoteOutcome(status, ScoreOf(votes, postId)));
    }

    /**
     * Banning: only an administrator may ban, never themself nor another
     * administrator; a ban also resolves every open report about the user.
     */
    method BanUser(actor: UserId, target: UserId) returns (r: Result<(), Error>)
      requires Valid()
      modifies this`users, this`reports
      ensures Valid()
      ensures r == Failure(NotAuthenticated) <==> actor !in old(users)
      ensures r == Failure(Banned) <==> actor in old(users) && old(users)[actor].isBanned
      ensures r == Failure(Forbidden) <==> old(Active(actor)) && !old(users)[actor].isAdmin
      ensures r == Failure(NotFound) <==>
                old(Active(actor)) && old(users)[actor].isAdmin && target !in old(users)
      ensures r == Failure(SelfTarget) <==>
                old(Active(actor)) && old(users)[actor].isAdmin && target == actor
      ensures r == Failure(AdminTarget) <==>
                old(Active(actor)) && old(users)[actor].isAdmin && target in old(users)
                && target != actor && old(users)[target].isAdmin
      ensures r.Success? <==>
                old(Active(actor)) && old(users)[actor].isAdmin && target in old(users)
                && target != actor && !old(users)[target].isAdmin
      ensures r.Failure? ==> users == old(users) && reports == old(reports)
      ensures r.Success? ==>
        && users == old(users)[target := old(users)[target].(isBanned := true)]
        && reports == ResolveReportsAbout(old(reports), target)
    {
      if actor !in users {
        return Failure(NotAuthenticated);
      }
      if users[actor].isBanned {
        return Failure(Banned);
      }
      if !users[actor].isAdmin {
        return Failure(Forbidden);
      }
      if target !in users {
        return Failure(NotFound);
      }
      if target == actor {
        return Failure(SelfTarget);
      }
      if users[target].isAdmin {
        return Failure(AdminTarget);
      }
      users := users[target := users[target].(isBanned := true)];
      reports := ResolveReportsAbout(reports, target);
      r := Success(());
    }

    /** Unbanning: any administrator may lift any ban. */
    method UnbanUser(actor: UserId, target: UserId) returns (r: Result<(), Error>)
      requires Valid()
      modifies this`users
      ensures Valid()
      ensures r == Failure(NotAuthenticated) <==> actor !in old(users)
      ensures r == Failure(Banned) <==> actor in old(users) && old(users)[actor].isBanned
      ensures r == Failure(Forbidden) <==> old(Active(actor)) && !old(users)[actor].isAdmin
      ensures r == Failure(NotFound) <==>
                old(Active(actor)) && old(users)[actor].isAdmin && target !in old(users)
      ensures r.Success? <==> old(Active(actor)) && old(users)[actor].isAdmin && target in old(users)
      ensures r.Failure? ==> users == old(users)
      ensures r.Success? ==> users == old(users)[target := old(users)[target].(isBanned := false)]
    {
      if actor !in users {
        return Failure(NotAuthenticated);
      }
      if users[actor].isBanned {
        return Failure(Banned);
      }
      if !users[actor].isAdmin {
        return Failure(Forbidden);
      }
      if target !in users {
        return Failure(NotFound);
      }
      users := users[target := users[target].(isBanned := false)];
      r := Success(());
    }

    /**
     * Reporting a user: not oneself, and not while one's earlier report about
     * the same user is still open. A blank reason is stored as no reason.
     */
    method ReportUser(actor: UserId, target: UserId, reason: string, now: Timestamp)
      returns (r: Result<(), Error>)
      requires Valid()
      modifies this`reports
      ensures Valid()
      ensures r == Failure(NotAuthenticated) <==> actor !in users
      ensures r == Failure(Banned) <==> actor in users && users[actor].isBanned
      ensures r == Failure(NotFound) <==> Active(actor) && target !in users
      ensures r == Failure(SelfTarget) <==> Active(actor) && target in users && target == actor
      ensures r == Failure(AlreadyReported) <==>
                Active(actor) && target in users && target != actor && OpenReport(old(reports), actor, target)
      ensures r.Success? <==>
                Active(actor) && target in users && target != actor && !OpenReport(old(reports), actor, target)
      ensures r.Failure? ==> reports == old(reports)
      ensures r.Success? ==>
        reports == old(reports) + [Report(actor, target, if Strip(reason) == "" then None else Some(Strip(reason)), now, false)]
    {
      if actor !in users {
        return Failure(NotAuthenticated);
      }
      if users[actor].isBanned {
        return Failure(Banned);
      }
      if target !in users {
        return Failure(NotFound);
      }
      if actor == target {
        return Failure(SelfTarget);
      }
      var cleaned := Strip(reason);
      if OpenReport(reports, actor, target) {
        return Failure(AlreadyReported);
      }
      reports := reports + [Report(actor, target, if cleaned == "" then None else Some(cleaned), now, false)];
      r := Success(());
    }

    /**
     * Find-or-create for one name: the tag of that name if there is one,
     * otherwise a new tag row under the next id.
     */
    method FindOrCreateTag(name: string) returns (t: TagId)
      requires TagStore(tags, nextTagId) && CleanName(name)
      modifies this`tags, this`nextTagId
      ensures TagStore(tags, nextTagId)
      ensures t in tags && tags[t] == name
      ensures forall u :: u in old(tags) ==> u in tags && tags[u] == old(tags)[u]
      ensures forall u :: u in tags && u !in old(tags) ==> u == t
    {
      if name in tags.Values {
        t :| t in tags && tags[t] == name;
      } else {
        t := nextTagId;
        AddFreshTag(tags, nextTagId, name);
        tags := tags[t := name];
        nextTagId := nextTagId + 1;
      }
    }

    /**
     * Find-or-create for each parsed name: an existing tag of that name is
     * reused, otherwise a new tag row is added. Returns the ids of the tags
     * named, which are exactly the tags whose names are in `names`.
     */
    method FindOrCreateTags(names: seq<string>) returns (ids: set<TagId>)
      requires TagStore(tags, nextTagId)
      requires forall k :: 0 <= k < |names| ==> CleanName(names[k])
      modifies this`tags, this`nextTagId
      ensures TagStore(tags, nextTagId)
      ensures forall t :: t in old(tags) ==> t in tags && tags[t] == old(tags)[t]
      ensures forall t :: t in tags && t !in old(tags) ==> tags[t] in names
      ensures forall t :: t in ids <==> t in tags && tags[t] in names
      ensures forall n :: n in names ==> n in tags.Values
    {
      ids := {};
      var i := 0;
      while i < |names|
        invariant 0 <= i <= |names|
        invariant TagStore(tags, nextTagId)
        invariant forall t :: t in old(tags) ==> t in tags && tags[t] == old(tags)[t]
        invariant forall t :: t in tags && t !in old(tags) ==> tags[t] in names[..i]
        invariant forall t :: t in ids <==> t in tags && tags[t] in names[..i]
        invariant forall n :: n in names[..i] ==> n in tags.Values
      {
        var name := names[i];
        ghost var before := tags;
        var t := FindOrCreateTag(name);
        assert names[..i + 1] == names[..i] + [name];
        FindOrCreateStep(old(tags), before, tags, ids, t, names[..i], name, names[..i + 1]);
        ids := ids + {t};
        i := i + 1;
      }
      assert names[..i] == names;
    }

    /**
     * Find-or-create over a clean database: the named tags may be carried by
     * no post yet, every other tag still is.
     */
    method TagsNamed(names: seq<string>) returns (ids: set<TagId>)
      requires Valid() && forall k :: 0 <= k < |names| ==> CleanName(names[k])
      modifies this`tags, this`nextTagId
      ensures ValidExcept(ids) && ids <= tags.Keys
      ensures forall t :: t in old(tags) ==> t in tags && tags[t] == old(tags)[t]
      ensures forall t :: t in tags && t !in old(tags) ==> t in ids
      ensures forall t :: t in ids <==> t in tags && tags[t] in names
      ensures NamesAttached(tags, ids, names)
    {
      ids := FindOrCreateTags(names);
      StoredNamesAttached(tags, ids, names);
      forall t | t in tags ensures t < nextTagId && (TagUsed(posts, t) || t in ids) {
        if t !in old(tags) {
          assert tags[t] in names;
        }
      }
      forall i | 0 <= i < |posts| ensures posts[i].tags <= tags.Keys {
        assert posts[i].tags <= old(tags).Keys;
      }
    }

    /**
     * Tag garbage collection: every tag among `candidates` that no post
     * carries any more is deleted; all other tags stay.
     */
    method CollectTags(candidates: set<TagId>)
      requires ValidExcept(candidates)
      modifies this`tags
      ensures Valid()
      ensures forall t :: t in tags <==> t in old(tags) && (t !in candidates || TagUsed(posts, t))
      ensures forall t :: t in tags ==> tags[t] == old(tags)[t]
    {
      var pending := candidates;
      while pending != {}
        invariant pending <= candidates
        invariant forall t :: t in tags <==>
          t in old(tags) && (t !in candidates || t in pending || TagUsed(posts, t))
        invariant forall t :: t in tags ==> tags[t] == old(tags)[t]
        decreases pending
      {
        var t :| t in pending;
        if t in tags && Carriers(posts, t) == 0 {
          tags := tags - {t};
        }
        pending := pending - {t};
      }
      forall i | 0 <= i < |posts| ensures posts[i].tags <= tags.Keys {
        forall t | t in posts[i].tags ensures t in tags {
          assert TagUsed(posts, t);
        }
      }
    }

    /** Adds a post under the next id; the tags it carries are the ones not yet carried by any post. */
    method AppendPost(p: Post)
      requires ValidExcept(p.tags)
      requires p.id == nextPostId && p.author in users && p.tags <= tags.Keys
      modifies this`posts, this`nextPostId
      ensures Valid()
      ensures posts == old(posts) + [p] && nextPostId == old(nextPostId) + 1
    {
      posts := posts + [p];
      nextPostId := nextPostId + 1;
      forall t | t in tags ensures TagUsed(posts, t) {
        if TagUsed(old(posts), t) {
          var i :| 0 <= i < |old(posts)| && t in old(posts)[i].tags;
          assert posts[i] == old(posts)[i];
        } else {
          assert posts[|posts| - 1] == p;
        }
      }
    }

    /** Writes a new post under the next id, carrying the tags `names` names, found or created. */
    method PublishPost(actor: UserId, body: string, names: seq<string>, pinned: bool, now: Timestamp)
      returns (id: PostId, ids: set<TagId>)
      requires Valid() && actor in users && forall k :: 0 <= k < |names| ==> CleanName(names[k])
      modifies this`posts, this`tags, this`nextPostId, this`nextTagId
      ensures Valid()
      ensures id == old(nextPostId) && IndexOf(old(posts), id).None? && nextPostId == old(nextPostId) + 1
      ensures posts == old(posts) + [Post(id, actor, body, now, pinned, 0, None, ids)]
      ensures forall t :: t in ids <==> t in tags && tags[t] in names
      ensures NamesAttached(tags, ids, names)
      ensures forall t :: t in old(tags) ==> t in tags && tags[t] == old(tags)[t]
      ensures forall t :: t in tags && t !in old(tags) ==> t in ids
    {
      ids := TagsNamed(names);
      id := nextPostId;
      AppendPost(Post(id, actor, body, now, pinned, 0, None, ids));
    }

    /**
     * The new-post route: a logged-in, unbanned author and a body with some
     * text are required; the pinned box counts only for administrators; the
     * tag field is parsed and its tags found or created; then achievements are
     * evaluated for the author.
     */
    method CreatePost(actor: UserId, content: Option<string>, tagField: string, pinnedBox: bool, now: Timestamp)
      returns (r: Result<PostId, Error>)
      requires Valid()
      modifies this`posts, this`tags, this`nextPostId, this`nextTagId, this`earned
      ensures Valid()
      ensures r == Failure(NotAuthenticated) <==> actor !in users
      ensures r == Failure(Banned) <==> actor in users && users[actor].isBanned
      ensures r == Failure(EmptyContent) <==> Active(actor) && (content.None? || !HasText(content.value))
      ensures r.Success? <==> Active(actor) && content.Some? && HasText(content.value)
      ensures r.Failure? ==> posts == old(posts) && tags == old(tags) && earned == old(earned)
                             && nextPostId == old(nextPostId) && nextTagId == old(nextTagId)
      ensures r.Success? ==>
        && content.Some? && r.value == old(nextPostId) && IndexOf(old(posts), r.value).None?
        && nextPostId == old(nextPostId) + 1
        && |posts| == |old(posts)| + 1
        && var ids := posts[|old(posts)|].tags;
           && posts == old(posts) + [Post(r.value, actor, content.value, now, pinnedBox && users[actor].isAdmin, 0, None, ids)]
           && (forall t :: t in ids <==> t in tags && tags[t] in ParseTagNames(tagField))
           && NamesAttached(tags, ids, ParseTagNames(tagField))
           && (forall t :: t in old(tags) ==> t in tags && tags[t] == old(tags)[t])
           && (forall t :: t in tags && t !in old(tags) ==> t in ids)
           && earned == AwardUser(true, catalog, old(earned), actor, NewPost, posts, votes)
    {
      if actor !in users {
        return Failure(NotAuthenticated);
      }
      if users[actor].isBanned {
        return Failure(Banned);
      }
      var pinned := pinnedBox && users[actor].isAdmin;
      if content.None? || !HasText(content.value) {
        return Failure(EmptyContent);
      }
      ParseTagNamesClean(tagField);
      var id, ids := PublishPost(actor, content.value, ParseTagNames(tagField), pinned, now);
      CheckAndAward(actor, NewPost);
      r := Success(id);
    }

    /** Puts `q` in place of the post at `i`; the tags `i` carried and `q` does not may end up carried by no post. */
    method ReplacePost(i: nat, q: Post)
      requires ValidExcept(q.tags)
      requires i < |posts| && q.id == posts[i].id && q.author == posts[i].author && q.tags <= tags.Keys
      modifies this`posts
      ensures ValidExcept(old(posts)[i].tags - q.tags)
      ensures posts == old(posts)[i := q]
    {
      var before := posts;
      posts := posts[i := q];
      forall t | t in tags ensures TagUsed(posts, t) || t in before[i].tags - q.tags {
        if t in q.tags {
          assert t in posts[i].tags;
        } else if t !in before[i].tags {
          TagUsedAfterReplace(before, i, q, t);
        }
      }
      assert UniqueIds(posts) by {
        forall a, b | 0 <= a < b < |posts| ensures posts[a].id != posts[b].id {
          assert posts[a].id == before[a].id && posts[b].id == before[b].id;
        }
      }
    }

    /** Deletes the post at `i` with its votes; the tags it carried may end up carried by no post. */
    method RemovePost(i: nat)
      requires Valid()
      requires i < |posts|
      modifies this`posts, this`votes
      ensures ValidExcept(old(posts)[i].tags)
      ensures posts == old(posts)[..i] + old(posts)[i + 1..]
      ensures votes == DropVotesOn(old(votes), old(posts)[i].id)
    {
      var before := posts;
      DropVotesOnKeepsLedger(votes, posts[i].id);
      votes := DropVotesOn(votes, posts[i].id);
      posts := posts[..i] + posts[i + 1..];
      assert forall j :: 0 <= j < |posts| ==> posts[j] == before[if j < i then j else j + 1];
      forall t | t in tags ensures TagUsed(posts, t) || t in before[i].tags {
        if t !in before[i].tags {
          TagUsedAfterRemove(before, i, t);
        }
      }
    }

    /**
     * Rewrites the post at `i`: new body, edit time and count, and the tags
     * `names` names in place of its old ones; old tags no post carries any
     * more are deleted.
     */
    method RevisePost(i: nat, body: string, names: seq<string>, now: Timestamp) returns (ids: set<TagId>)
      requires Valid() && i < |posts| && forall k :: 0 <= k < |names| ==> CleanName(names[k])
      modifies this`posts, this`tags, this`nextTagId
      ensures Valid()
      ensures posts == old(posts)[i := old(posts)[i].(content := body, lastEditedAt := Some(now),
                                                     editCount := old(posts)[i].editCount + 1, tags := ids)]
      ensures old(posts)[i].tags <= old(tags).Keys && Retagged(old(tags), tags, old(posts)[i].tags, ids, names)
      ensures forall t :: t in old(tags) ==> (t in tags <==> TagUsed(posts, t)) && (t in tags ==> tags[t] == old(tags)[t])
    {
      var post := posts[i];
      ids := TagsNamed(names);
      ghost var named := tags;
      ReplacePost(i, post.(content := body, lastEditedAt := Some(now), editCount := post.editCount + 1, tags := ids));
      CollectTags(post.tags - ids);
      forall n | n in names ensures exists t :: t in ids && t in tags && tags[t] == n {
        var t :| t in ids && t in named && named[t] == n;
        assert t in tags;
      }
      ResubmitKeepsTags(old(tags), tags, post.tags, names, ids);
    }

    /**
     * The edit route: only the author or an administrator may edit, and the
     * new body must have some text. The edit replaces the body, stamps the
     * edit time, bumps the edit count and replaces the post's tags with the
     * parsed tag field; then tags the post no longer carries and no other
     * post carries are deleted.
     */
    method EditPost(actor: UserId, postId: PostId, content: Option<string>, tagField: string, now: Timestamp)
      returns (r: Result<(), Error>)
      requires Valid()
      modifies this`posts, this`tags, this`nextTagId
      ensures Valid()
      ensures r.Failure? <==> EditError(users, old(posts), actor, postId, content).Some?
      ensures r.Failure? ==> r.error == EditError(users, old(posts), actor, postId, content).value
                             && posts == old(posts) && tags == old(tags) && nextTagId == old(nextTagId)
      ensures r.Success? ==>
        && IndexOf(old(posts), postId).Some? && content.Some?
        && var i := IndexOf(old(posts), postId).value;
           && i < |posts|
           && posts == old(posts)[i := old(posts)[i].(content := content.value, lastEditedAt := Some(now),
                                                     editCount := old(posts)[i].editCount + 1, tags := posts[i].tags)]
           && old(posts)[i].tags <= old(tags).Keys
           && Retagged(old(tags), tags, old(posts)[i].tags, posts[i].tags, ParseTagNames(tagField))
           && (forall t :: t in old(tags) ==> (t in tags <==> TagUsed(posts, t)) && (t in tags ==> tags[t] == old(tags)[t]))
    {
      var err := EditError(users, posts, actor, postId, content);
      if err.Some? {
        return Failure(err.value);
      }
      var i := IndexOf(posts, postId).value;
      ParseTagNamesClean(tagField);
      var ids := RevisePost(i, content.value, ParseTagNames(tagField), now);
      assert posts[i].tags == ids;
      r := Success(());
    }

    /** Deletes the post at `i` and its votes, then the tags it carried that no post carries any more. */
    method DiscardPost(i: nat)
      requires Valid() && i < |posts|
      modifies this`posts, this`votes, this`tags
      ensures Valid()
      ensures posts == old(posts)[..i] + old(posts)[i + 1..]
      ensures votes == DropVotesOn(old(votes), old(posts)[i].id)
      ensures forall t :: t in old(tags) ==> (t in tags <==> TagUsed(posts, t)) && (t in tags ==> tags[t] == old(tags)[t])
    {
      var tagIdsToCheck := posts[i].tags;
      RemovePost(i);
      CollectTags(tagIdsToCheck);
    }

    /**
     * The delete route: only the author or an administrator may delete. The
     * post's votes go with it; then each of its tags that no post carries any
     * more is deleted, and achievements are evaluated again for its author.
     */
    method DeletePost(actor: UserId, postId: PostId) returns (r: Result<(), Error>)
      requires Valid()
      modifies this`posts, this`votes, this`tags, this`earned
      ensures Valid()
      ensures r.Failure? <==> PostGate(users, old(posts), actor, postId).Some?
      ensures r.Failure? ==> r.error == PostGate(users, old(posts), actor, postId).value
                             && posts == old(posts) && votes == old(votes) && tags == old(tags) && earned == old(earned)
      ensures r.Success? ==>
        && IndexOf(old(posts), postId).Some?
        && var i := IndexOf(old(posts), postId).value;
           var author := old(posts)[i].author;
           && posts == old(posts)[..i] + old(posts)[i + 1..]
           && votes == DropVotesOn(old(votes), postId)
           && earned == AwardUser(Active(author), catalog,
                                  AwardUser(Active(author), catalog, old(earned), author,
                                            PostDeletedRecheckPostsMade, posts, votes),
                                  author, PostDeletedRecheckTotalUpvotes, posts, votes)
           && (forall t :: t in old(tags) ==> (t in tags <==> TagUsed(posts, t)) && (t in tags ==> tags[t] == old(tags)[t]))
    {
      var err := PostGate(users, posts, actor, postId);
      if err.Some? {
        return Failure(err.value);
      }
      var i := IndexOf(posts, postId).value;
      var author := posts[i].author;
      DiscardPost(i);
      CheckAndAward(author, PostDeletedRecheckPostsMade);
      CheckAndAward(author, PostDeletedRecheckTotalUpvotes);
      r := Success(());
    }
  }
}
