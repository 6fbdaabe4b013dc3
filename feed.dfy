/**
 * The post feed: the index page's GET branch (pinned posts first, then one of
 * three sort orders, optionally restricted to one tag) and the polling
 * endpoint that returns the pinned posts plus the posts newer than a given id.
 *
 * Sorting is a stable insertion sort in descending order of an integer key;
 * ascending orders use the negated key. Where SQL leaves the order of equal
 * keys open, the model keeps the order of the post table (creation order).
 */
module Feed {
  import opened Wrappers
  import opened ForumTypes
  import opened Ledger

  /** The keys the feed sorts by; `HighestScore` carries the vote table the score is read from. */
  datatype SortKey = Newest | Oldest | LowestId | HighestScore(votes: seq<Vote>)

  function KeyOf(k: SortKey, p: Post): int
  {
    match k
    case Newest => p.date
    case Oldest => -(p.date as int)
    case LowestId => -(p.id as int)
    case HighestScore(votes) => ScoreOf(votes, p.id)
  }

  /** `s` is in non-increasing order of `k`. */
  ghost predicate Ordered(s: seq<Post>, k: SortKey)
  {
    forall i, j :: 0 <= i < j < |s| ==> KeyOf(k, s[i]) >= KeyOf(k, s[j])
  }

  /** `x` may precede `y` when sorting by `k` and then by `k2`, both descending. */
  ghost predicate Before(k: SortKey, k2: SortKey, x: Post, y: Post)
  {
    KeyOf(k, x) > KeyOf(k, y) || (KeyOf(k, x) == KeyOf(k, y) && KeyOf(k2, x) >= KeyOf(k2, y))
  }

  /** `s` is in non-increasing order of `k`, and of `k2` among equal `k`. */
  ghost predicate OrderedThen(s: seq<Post>, k: SortKey, k2: SortKey)
  {
    forall i, j :: 0 <= i < j < |s| ==> Before(k, k2, s[i], s[j])
  }

  /** Puts `x` in front of the first element whose key is not greater than its own. */
  function Insert(x: Post, s: seq<Post>, k: SortKey): (r: seq<Post>)
    ensures |r| == |s| + 1
  {
    if s == [] then [x]
    else if KeyOf(k, s[0]) <= KeyOf(k, x) then [x] + s
    else [s[0]] + Insert(x, s[1..], k)
  }

  /** Python's stable `sorted(s, key=k, reverse=True)`. */
  function SortBy(s: seq<Post>, k: SortKey): (r: seq<Post>)
    ensures |r| == |s|
  {
    if s == [] then []
    else Insert(s[0], SortBy(s[1..], k), k)
  }

  lemma {:induction false} InsertPerm(x: Post, s: seq<Post>, k: SortKey)
    ensures multiset(Insert(x, s, k)) == multiset(s) + multiset{x}
  {
    if s != [] && KeyOf(k, s[0]) > KeyOf(k, x) {
      InsertPerm(x, s[1..], k);
      assert s == [s[0]] + s[1..];
    }
  }

  /** Sorting is a permutation. */
  lemma {:induction false} SortPerm(s: seq<Post>, k: SortKey)
    ensures multiset(SortBy(s, k)) == multiset(s)
  {
    if s != [] {
      SortPerm(s[1..], k);
      InsertPerm(s[0], SortBy(s[1..], k), k);
      assert s == [s[0]] + s[1..];
    }
  }

  /** Inserting keeps every key under a common bound. */
  lemma {:induction false} InsertBounded(x: Post, s: seq<Post>, k: SortKey, b: int)
    requires KeyOf(k, x) <= b
    requires forall i :: 0 <= i < |s| ==> KeyOf(k, s[i]) <= b
    ensures forall i :: 0 <= i < |Insert(x, s, k)| ==> KeyOf(k, Insert(x, s, k)[i]) <= b
  {
    if s != [] {
      var r := Insert(x, s, k);
      if KeyOf(k, s[0]) <= KeyOf(k, x) {
        forall i | 0 <= i < |r| ensures KeyOf(k, r[i]) <= b {
          if i > 0 {
            assert r[i] == s[i - 1];
          }
        }
      } else {
        var t := s[1..];
        InsertBounded(x, t, k, b);
        var u := Insert(x, t, k);
        forall i | 0 <= i < |r| ensures KeyOf(k, r[i]) <= b {
          if i > 0 {
            assert r[i] == u[i - 1];
          }
        }
      }
    }
  }

  lemma {:induction false} InsertOrdered(x: Post, s: seq<Post>, k: SortKey)
    requires Ordered(s, k)
    ensures Ordered(Insert(x, s, k), k)
  {
    if s != [] {
      var r := Insert(x, s, k);
      if KeyOf(k, s[0]) <= KeyOf(k, x) {
        forall i, j | 0 <= i < j < |r| ensures KeyOf(k, r[i]) >= KeyOf(k, r[j]) {
          assert r[j] == s[j - 1];
          if i > 0 {
            assert r[i] == s[i - 1];
          }
        }
      } else {
        var t := s[1..];
        assert Ordered(t, k) by {
          forall i, j | 0 <= i < j < |t| ensures KeyOf(k, t[i]) >= KeyOf(k, t[j]) {
            assert t[i] == s[i + 1] && t[j] == s[j + 1];
          }
        }
        forall i | 0 <= i < |t| ensures KeyOf(k, t[i]) <= KeyOf(k, s[0]) {
          assert t[i] == s[i + 1];
        }
        InsertOrdered(x, t, k);
        InsertBounded(x, t, k, KeyOf(k, s[0]));
        var u := Insert(x, t, k);
        forall i, j | 0 <= i < j < |r| ensures KeyOf(k, r[i]) >= KeyOf(k, r[j]) {
          assert r[j] == u[j - 1];
          if i > 0 {
            assert r[i] == u[i - 1];
          }
        }
      }
    }
  }

  /** The sort's result is ordered by its key. */
  lemma {:induction false} SortOrdered(s: seq<Post>, k: SortKey)
    ensures Ordered(SortBy(s, k), k)
  {
    if s != [] {
      SortOrdered(s[1..], k);
      InsertOrdered(s[0], SortBy(s[1..], k), k);
    }
  }

  lemma {:induction false} InsertStable(x: Post, s: seq<Post>, k: SortKey, k2: SortKey)
    requires OrderedThen(s, k, k2)
    requires forall y :: y in s ==> KeyOf(k2, y) <= KeyOf(k2, x)
    ensures OrderedThen(Insert(x, s, k), k, k2)
  {
    if s == [] {
    } else if KeyOf(k, s[0]) <= KeyOf(k, x) {
      var r := [x] + s;
      forall i, j | 0 <= i < j < |r| ensures Before(k, k2, r[i], r[j]) {
        assert r[j] == s[j - 1] && s[j - 1] in s;
        if i == 0 {
          if j > 1 {
            assert Before(k, k2, s[0], s[j - 1]);
          }
        } else {
          assert r[i] == s[i - 1];
        }
      }
    } else {
      var t := s[1..];
      assert OrderedThen(t, k, k2) by {
        forall i, j | 0 <= i < j < |t| ensures Before(k, k2, t[i], t[j]) {
          assert t[i] == s[i + 1] && t[j] == s[j + 1];
        }
      }
      forall y | y in t ensures KeyOf(k2, y) <= KeyOf(k2, x) {
        assert y in s;
      }
      forall i | 0 <= i < |t| ensures Before(k, k2, s[0], t[i]) {
        assert t[i] == s[i + 1];
      }
      InsertStable(x, t, k, k2);
      InsertFollows(s[0], x, t, k, k2);
      var u := Insert(x, t, k);
      var r := [s[0]] + u;
      forall i, j | 0 <= i < j < |r| ensures Before(k, k2, r[i], r[j]) {
        assert r[j] == u[j - 1];
        if i > 0 {
          assert r[i] == u[i - 1];
        }
      }
    }
  }

  /** Inserting keeps every element after `h` when `x` and all of `t` may follow `h`. */
  lemma {:induction false} InsertFollows(h: Post, x: Post, t: seq<Post>, k: SortKey, k2: SortKey)
    requires Before(k, k2, h, x)
    requires forall i :: 0 <= i < |t| ==> Before(k, k2, h, t[i])
    ensures forall i :: 0 <= i < |Insert(x, t, k)| ==> Before(k, k2, h, Insert(x, t, k)[i])
  {
    if t != [] {
      var r := Insert(x, t, k);
      if KeyOf(k, t[0]) <= KeyOf(k, x) {
        forall i | 0 <= i < |r| ensures Before(k, k2, h, r[i]) {
          if i > 0 {
            assert r[i] == t[i - 1];
          }
        }
      } else {
        var w := t[1..];
        InsertFollows(h, x, w, k, k2);
        var u := Insert(x, w, k);
        forall i | 0 <= i < |r| ensures Before(k, k2, h, r[i]) {
          if i > 0 {
            assert r[i] == u[i - 1];
          }
        }
      }
    }
  }

  /**
   * Stability: sorting a list that is already ordered by `k2` yields a list
   * ordered by `k` and, among equal `k`, still by `k2`.
   */
  lemma {:induction false} SortStable(s: seq<Post>, k: SortKey, k2: SortKey)
    requires Ordered(s, k2)
    ensures OrderedThen(SortBy(s, k), k, k2)
  {
    if s != [] {
      SortStable(s[1..], k, k2);
      SortPerm(s[1..], k);
      forall y | y in SortBy(s[1..], k) ensures KeyOf(k2, y) <= KeyOf(k2, s[0]) {
        assert y in multiset(s[1..]);
        var m :| 0 <= m < |s[1..]| && s[1..][m] == y;
        assert s[m + 1] == y;
      }
      InsertStable(s[0], SortBy(s[1..], k), k, k2);
    }
  }

  /** Sorting keeps exactly the same posts. */
  lemma SortMembers(s: seq<Post>, k: SortKey)
    ensures forall x :: x in SortBy(s, k) <==> x in s
  {
    SortPerm(s, k);
    forall x ensures x in SortBy(s, k) <==> x in s {
      assert x in SortBy(s, k) <==> x in multiset(SortBy(s, k));
      assert x in s <==> x in multiset(s);
    }
  }

  // ---------------------------------------------------------------------------
  // Selecting posts

  /** The row filters of the feed queries. */
  datatype Criterion =
    | IsPinned
    | IsUnpinned
    | TaggedWith(tags: map<TagId, string>, name: string)
    | UnpinnedAfter(id: PostId)

  predicate Meets(c: Criterion, p: Post)
  {
    match c
    case IsPinned => p.pinned
    case IsUnpinned => !p.pinned
    case TaggedWith(tags, name) => Carries(tags, name, p)
    case UnpinnedAfter(id) => !p.pinned && p.id > id
  }

  /** `p` has a tag called `name`. */
  predicate Carries(tags: map<TagId, string>, name: string, p: Post)
  {
    exists t :: t in p.tags && t in tags && tags[t] == name
  }

  /** Every post of `s` meets `c`. */
  ghost predicate All(s: seq<Post>, c: Criterion)
  {
    forall i :: 0 <= i < |s| ==> Meets(c, s[i])
  }

  /** The posts of `s` that meet `c`, in their order in `s`. */
  function Select(s: seq<Post>, c: Criterion): (r: seq<Post>)
    ensures |r| <= |s|
    ensures All(r, c)
    ensures forall x :: x in r <==> x in s && Meets(c, x)
  {
    if s == [] then []
    else if Meets(c, s[0]) then [s[0]] + Select(s[1..], c)
    else Select(s[1..], c)
  }

  /** A post occurs in the selection as often as in `s` if it meets `c`, and not at all otherwise. */
  lemma {:induction false} SelectCount(s: seq<Post>, c: Criterion, x: Post)
    ensures multiset(Select(s, c))[x] == if Meets(c, x) then multiset(s)[x] else 0
  {
    if s != [] {
      SelectCount(s[1..], c, x);
      assert s == [s[0]] + s[1..];
      assert multiset(s) == multiset{s[0]} + multiset(s[1..]);
      if Meets(c, s[0]) {
        assert multiset(Select(s, c)) == multiset{s[0]} + multiset(Select(s[1..], c));
      }
    }
  }

  /**
   * Selection keeps the input's order: selecting from `a + b` gives the
   * selection from `a` followed by the selection from `b`. With the membership
   * clause of `Select`, this determines the selection of every sequence.
   */
  lemma {:induction false} SelectConcat(a: seq<Post>, b: seq<Post>, c: Criterion)
    ensures Select(a + b, c) == Select(a, c) + Select(b, c)
  {
    if a == [] {
      assert a + b == b;
    } else {
      assert (a + b)[1..] == a[1..] + b;
      SelectConcat(a[1..], b, c);
    }
  }

  /** Selecting from posts that all meet the criterion keeps them all, in order. */
  lemma {:induction false} SelectAll(s: seq<Post>, c: Criterion)
    requires All(s, c)
    ensures Select(s, c) == s
  {
    if s != [] {
      SelectAll(s[1..], c);
    }
  }

  /** Selecting from posts none of which meets the criterion gives nothing. */
  lemma {:induction false} SelectNone(s: seq<Post>, c: Criterion)
    requires forall i :: 0 <= i < |s| ==> !Meets(c, s[i])
    ensures Select(s, c) == []
  {
    if s != [] {
      SelectNone(s[1..], c);
    }
  }

  /** Pinned and unpinned posts together are all the posts. */
  lemma PinnedSplit(s: seq<Post>)
    ensures multiset(Select(s, IsPinned)) + multiset(Select(s, IsUnpinned)) == multiset(s)
  {
    forall x ensures (multiset(Select(s, IsPinned)) + multiset(Select(s, IsUnpinned)))[x] == multiset(s)[x] {
      SelectCount(s, IsPinned, x);
      SelectCount(s, IsUnpinned, x);
    }
  }

  /** Sorting keeps a property every post has. */
  lemma SortAll(s: seq<Post>, k: SortKey, c: Criterion)
    requires All(s, c)
    ensures All(SortBy(s, k), c)
  {
    SortMembers(s, k);
    forall i | 0 <= i < |SortBy(s, k)| ensures Meets(c, SortBy(s, k)[i]) {
      assert SortBy(s, k)[i] in SortBy(s, k);
      var j :| 0 <= j < |s| && s[j] == SortBy(s, k)[i];
    }
  }

  /** A pinned group followed by an unpinned group has its pinned posts in front. */
  lemma PinnedInFront(a: seq<Post>, b: seq<Post>)
    requires All(a, IsPinned) && All(b, IsUnpinned)
    ensures forall i, j :: 0 <= i < j < |a + b| && (a + b)[j].pinned ==> (a + b)[i].pinned
  {
    var r := a + b;
    forall j | |a| <= j < |r| ensures !r[j].pinned {
      assert r[j] == b[j - |a|];
      assert Meets(IsUnpinned, b[j - |a|]);
    }
    forall i | 0 <= i < |a| ensures r[i].pinned {
      assert Meets(IsPinned, a[i]);
    }
  }

  // ---------------------------------------------------------------------------
  // The index feed

  /** The index page's `sort_by` argument; anything unrecognised, or none, means newest first. */
  datatype SortMode = DateDesc | DateAsc | ScoreDesc

  function SortModeOf(arg: Option<string>): (m: SortMode)
    ensures m == DateAsc <==> arg == Some("date_asc")
    ensures m == ScoreDesc <==> arg == Some("score_desc")
  {
    if arg == Some("date_asc") then DateAsc
    else if arg == Some("score_desc") then ScoreDesc
    else DateDesc
  }

  /** The `tag` argument takes effect only when it names an existing tag and is not `all`. */
  function ActiveTag(tags: map<TagId, string>, arg: Option<string>): (r: Option<string>)
    ensures r.Some? <==> arg.Some? && arg.value != "" && arg.value != "all" && arg.value in tags.Values
    ensures r.Some? ==> r == arg
  {
    if arg.Some? && arg.value != "" && arg.value != "all" && arg.value in tags.Values then arg else None
  }

  /** The posts the feed query matches. */
  function Matching(posts: seq<Post>, tags: map<TagId, string>, arg: Option<string>): seq<Post>
  {
    match ActiveTag(tags, arg)
    case None => posts
    case Some(name) => Select(posts, TaggedWith(tags, name))
  }

  /** The SQL query `order_by(pinned desc, date desc)` over the matching posts. */
  function NewestFirst(matching: seq<Post>): seq<Post>
  {
    SortBy(Select(matching, IsPinned), Newest) + SortBy(Select(matching, IsUnpinned), Newest)
  }

  /** The index feed for a sort mode and a tag argument. */
  function ComposeFeed(posts: seq<Post>, votes: seq<Vote>, tags: map<TagId, string>,
                       mode: SortMode, tagArg: Option<string>): seq<Post>
  {
    var matching := Matching(posts, tags, tagArg);
    match mode
    case DateAsc =>
      SortBy(Select(matching, IsPinned), Oldest) + SortBy(Select(matching, IsUnpinned), Oldest)
    case ScoreDesc =>
      var listed := NewestFirst(matching);
      SortBy(Select(listed, IsPinned), Newest) + SortBy(Select(listed, IsUnpinned), HighestScore(votes))
    case DateDesc =>
      NewestFirst(matching)
  }

  /** Re-selecting the two groups of the newest-first listing gives back the groups. */
  lemma NewestFirstGroups(matching: seq<Post>)
    ensures Select(NewestFirst(matching), IsPinned) == SortBy(Select(matching, IsPinned), Newest)
    ensures Select(NewestFirst(matching), IsUnpinned) == SortBy(Select(matching, IsUnpinned), Newest)
  {
    var a := SortBy(Select(matching, IsPinned), Newest);
    var b := SortBy(Select(matching, IsUnpinned), Newest);
    SortAll(Select(matching, IsPinned), Newest, IsPinned);
    SortAll(Select(matching, IsUnpinned), Newest, IsUnpinned);
    SelectConcat(a, b, IsPinned);
    SelectConcat(a, b, IsUnpinned);
    SelectAll(a, IsPinned);
    SelectAll(b, IsUnpinned);
    assert forall i :: 0 <= i < |b| ==> !Meets(IsPinned, b[i]) by {
      forall i | 0 <= i < |b| ensures !Meets(IsPinned, b[i]) {
        assert Meets(IsUnpinned, b[i]);
      }
    }
    assert forall i :: 0 <= i < |a| ==> !Meets(IsUnpinned, a[i]) by {
      forall i | 0 <= i < |a| ensures !Meets(IsUnpinned, a[i]) {
        assert Meets(IsPinned, a[i]);
      }
    }
    SelectNone(b, IsPinned);
    SelectNone(a, IsUnpinned);
  }

  /** The feed of every mode is the pinned posts, then the unpinned posts, of the matching set, each group in the mode's order. */
  lemma FeedGroups(posts: seq<Post>, votes: seq<Vote>, tags: map<TagId, string>,
                   mode: SortMode, tagArg: Option<string>)
    returns (a: seq<Post>, b: seq<Post>)
    ensures ComposeFeed(posts, votes, tags, mode, tagArg) == a + b
    ensures multiset(a) == multiset(Select(Matching(posts, tags, tagArg), IsPinned))
    ensures multiset(b) == multiset(Select(Matching(posts, tags, tagArg), IsUnpinned))
    ensures All(a, IsPinned) && All(b, IsUnpinned)
    ensures mode == DateAsc ==> Ordered(a, Oldest) && Ordered(b, Oldest)
    ensures mode == DateDesc ==> Ordered(a, Newest) && Ordered(b, Newest)
    ensures mode == ScoreDesc ==> Ordered(a, Newest) && OrderedThen(b, HighestScore(votes), Newest)
  {
    var m := Matching(posts, tags, tagArg);
    var p, u := Select(m, IsPinned), Select(m, IsUnpinned);
    match mode
    case DateAsc =>
      a, b := SortBy(p, Oldest), SortBy(u, Oldest);
      SortPerm(p, Oldest);
      SortPerm(u, Oldest);
      SortOrdered(p, Oldest);
      SortOrdered(u, Oldest);
      SortAll(p, Oldest, IsPinned);
      SortAll(u, Oldest, IsUnpinned);
    case DateDesc =>
      a, b := SortBy(p, Newest), SortBy(u, Newest);
      SortPerm(p, Newest);
      SortPerm(u, Newest);
      SortOrdered(p, Newest);
      SortOrdered(u, Newest);
      SortAll(p, Newest, IsPinned);
      SortAll(u, Newest, IsUnpinned);
    case ScoreDesc =>
      NewestFirstGroups(m);
      a, b := SortBy(SortBy(p, Newest), Newest), SortBy(SortBy(u, Newest), HighestScore(votes));
      SortPerm(p, Newest);
      SortPerm(SortBy(p, Newest), Newest);
      SortPerm(u, Newest);
      SortPerm(SortBy(u, Newest), HighestScore(votes));
      SortOrdered(SortBy(p, Newest), Newest);
      SortOrdered(u, Newest);
      SortStable(SortBy(u, Newest), HighestScore(votes), Newest);
      SortAll(p, Newest, IsPinned);
      SortAll(SortBy(p, Newest), Newest, IsPinned);
      SortAll(u, Newest, IsUnpinned);
      SortAll(SortBy(u, Newest), HighestScore(votes), IsUnpinned);
  }

  /** In every sort mode the feed is a permutation of the matching posts with the pinned ones in front. */
  lemma FeedPinnedFirst(posts: seq<Post>, votes: seq<Vote>, tags: map<TagId, string>,
                        mode: SortMode, tagArg: Option<string>)
    ensures multiset(ComposeFeed(posts, votes, tags, mode, tagArg)) == multiset(Matching(posts, tags, tagArg))
    ensures var r := ComposeFeed(posts, votes, tags, mode, tagArg);
      forall i, j :: 0 <= i < j < |r| && r[j].pinned ==> r[i].pinned
  {
    var a, b := FeedGroups(posts, votes, tags, mode, tagArg);
    PinnedSplit(Matching(posts, tags, tagArg));
    PinnedInFront(a, b);
  }

  /** How two posts of the same group are ordered in each sort mode; `score_desc` keeps newest first among equal scores. */
  ghost predicate InModeOrder(mode: SortMode, votes: seq<Vote>, x: Post, y: Post)
  {
    match mode
    case DateAsc => x.date <= y.date
    case DateDesc => x.date >= y.date
    case ScoreDesc =>
      if x.pinned then x.date >= y.date
      else ScoreOf(votes, x.id) > ScoreOf(votes, y.id)
           || (ScoreOf(votes, x.id) == ScoreOf(votes, y.id) && x.date >= y.date)
  }

  /** A pinned group and an unpinned group, each sorted as a mode requires, are in that mode's order. */
  lemma GroupsInModeOrder(a: seq<Post>, b: seq<Post>, mode: SortMode, votes: seq<Vote>)
    requires All(a, IsPinned) && All(b, IsUnpinned)
    requires mode == DateAsc ==> Ordered(a, Oldest) && Ordered(b, Oldest)
    requires mode == DateDesc ==> Ordered(a, Newest) && Ordered(b, Newest)
    requires mode == ScoreDesc ==> Ordered(a, Newest) && OrderedThen(b, HighestScore(votes), Newest)
    ensures forall i, j :: 0 <= i < j < |a + b| && (a + b)[i].pinned == (a + b)[j].pinned
              ==> InModeOrder(mode, votes, (a + b)[i], (a + b)[j])
  {
    var r := a + b;
    forall i, j | 0 <= i < j < |r| && r[i].pinned == r[j].pinned
      ensures InModeOrder(mode, votes, r[i], r[j])
    {
      if j < |a| {
        assert r[i] == a[i] && r[j] == a[j];
        assert Meets(IsPinned, a[i]);
        assert KeyOf(Oldest, a[i]) >= KeyOf(Oldest, a[j]) || KeyOf(Newest, a[i]) >= KeyOf(Newest, a[j]);
      } else if i >= |a| {
        assert r[i] == b[i - |a|] && r[j] == b[j - |a|];
        assert Meets(IsUnpinned, b[i - |a|]);
      } else {
        assert false;
      }
    }
  }

  /** Within the pinned group and within the unpinned group, the feed follows the sort mode. */
  lemma FeedOrder(posts: seq<Post>, votes: seq<Vote>, tags: map<TagId, string>,
                  mode: SortMode, tagArg: Option<string>)
    ensures forall i, j :: 0 <= i < j < |ComposeFeed(posts, votes, tags, mode, tagArg)|
              && ComposeFeed(posts, votes, tags, mode, tagArg)[i].pinned == ComposeFeed(posts, votes, tags, mode, tagArg)[j].pinned
              ==> InModeOrder(mode, votes, ComposeFeed(posts, votes, tags, mode, tagArg)[i],
                              ComposeFeed(posts, votes, tags, mode, tagArg)[j])
  {
    var a, b := FeedGroups(posts, votes, tags, mode, tagArg);
    GroupsInModeOrder(a, b, mode, votes);
  }

  /** A `tag` argument of `all`, or one naming no tag, gives the unfiltered feed. */
  lemma UnknownTagIgnored(posts: seq<Post>, votes: seq<Vote>, tags: map<TagId, string>,
                          mode: SortMode, name: string)
    requires name == "all" || name !in tags.Values
    ensures ComposeFeed(posts, votes, tags, mode, Some(name)) == ComposeFeed(posts, votes, tags, mode, None)
  {
  }

  /** A known tag restricts the feed to exactly the posts that carry it. */
  lemma KnownTagFilters(posts: seq<Post>, votes: seq<Vote>, tags: map<TagId, string>,
                        mode: SortMode, name: string)
    requires name != "" && name != "all" && name in tags.Values
    ensures forall p :: p in ComposeFeed(posts, votes, tags, mode, Some(name)) <==>
              p in posts && exists t :: t in p.tags && t in tags && tags[t] == name
  {
    var r := ComposeFeed(posts, votes, tags, mode, Some(name));
    FeedPinnedFirst(posts, votes, tags, mode, Some(name));
    var m := Select(posts, TaggedWith(tags, name));
    assert Matching(posts, tags, Some(name)) == m;
    forall p ensures p in r <==> p in posts && Meets(TaggedWith(tags, name), p) {
      assert p in r <==> p in multiset(r);
      assert p in m <==> p in multiset(m);
    }
  }

  // ---------------------------------------------------------------------------
  // Polling

  /** The polling endpoint: every pinned post, newest first, then the unpinned posts with id above `latest`, by id. */
  function NewPostsSince(posts: seq<Post>, latest: PostId): seq<Post>
  {
    SortBy(Select(posts, IsPinned), Newest) + SortBy(Select(posts, UnpinnedAfter(latest)), LowestId)
  }

  /** The polled posts are the pinned posts and the newer unpinned ones, nothing else. */
  lemma NewPostsSinceMembers(posts: seq<Post>, latest: PostId)
    ensures forall p :: p in NewPostsSince(posts, latest) <==> p in posts && (p.pinned || p.id > latest)
  {
    SortMembers(Select(posts, IsPinned), Newest);
    SortMembers(Select(posts, UnpinnedAfter(latest)), LowestId);
  }

  /** A pinned block, newest first, followed by a block of unpinned posts newer than `latest`, by ascending id. */
  ghost predicate PolledShape(r: seq<Post>, k: nat, latest: PostId)
  {
    && k <= |r|
    && (forall i :: 0 <= i < k ==> r[i].pinned)
    && (forall i, j :: 0 <= i < j < k ==> r[i].date >= r[j].date)
    && (forall i :: k <= i < |r| ==> !r[i].pinned && r[i].id > latest)
    && (forall i, j :: k <= i < j < |r| ==> r[i].id <= r[j].id)
  }

  lemma PolledBlocks(a: seq<Post>, b: seq<Post>, latest: PostId)
    requires All(a, IsPinned) && Ordered(a, Newest)
    requires All(b, UnpinnedAfter(latest)) && Ordered(b, LowestId)
    ensures PolledShape(a + b, |a|, latest)
  {
    var r, k := a + b, |a|;
    forall i | 0 <= i < k ensures r[i].pinned {
      assert Meets(IsPinned, a[i]);
    }
    forall i, j | 0 <= i < j < k ensures r[i].date >= r[j].date {
      assert KeyOf(Newest, a[i]) >= KeyOf(Newest, a[j]);
    }
    forall i | k <= i < |r| ensures !r[i].pinned && r[i].id > latest {
      assert r[i] == b[i - k];
      assert Meets(UnpinnedAfter(latest), b[i - k]);
    }
    forall i, j | k <= i < j < |r| ensures r[i].id <= r[j].id {
      assert r[i] == b[i - k] && r[j] == b[j - k];
      assert KeyOf(LowestId, b[i - k]) >= KeyOf(LowestId, b[j - k]);
    }
  }

  /** The polled posts come as a pinned block, newest first, then a block of newer unpinned posts in ascending id. */
  lemma NewPostsSinceOrder(posts: seq<Post>, latest: PostId)
    returns (k: nat)
    ensures PolledShape(NewPostsSince(posts, latest), k, latest)
  {
    var p := Select(posts, IsPinned);
    var u := Select(posts, UnpinnedAfter(latest));
    SortOrdered(p, Newest);
    SortOrdered(u, LowestId);
    SortAll(p, Newest, IsPinned);
    SortAll(u, LowestId, UnpinnedAfter(latest));
    PolledBlocks(SortBy(p, Newest), SortBy(u, LowestId), latest);
    k := |SortBy(p, Newest)|;
  }
}
