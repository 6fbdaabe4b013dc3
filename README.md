# A verified model of the forum's core

The forum (`main.py`, a Flask and SQLAlchemy application) lets registered users write posts with
comma-separated tags, like or dislike posts, edit and delete their own posts, and report other users.
Administrators pin posts and ban users, and achievements are awarded automatically. This project models
the parts of that program that hold its rules, and proves what those rules guarantee:

- **the vote ledger** (`ledger.dfy`, module `Ledger`). This covers the vote table with its unique
  (user, post) constraint and the vote route's three-way update: add a vote, take it back, or flip it.
  It also covers `Post.score`, computed on demand as likes minus dislikes.
- **the tag text** (`tag_text.dfy`, module `TagText`). Python's `split(',')`, `strip()` and
  `', '.join(...)` are written out, and so is the tag field's parse
  `[t.strip() for t in field.split(',') if t.strip()]`.
- **the feed** (`feed.dfy`, module `Feed`). This is the index page's listing: its tag filter, its
  three sort modes and its pinned-first grouping. It also covers the `get_new_posts` polling endpoint.
- **the achievement evaluator** (`achievements.dfy`, module `Achievements`). It walks the catalog of
  rules, with the eight seeded rules as a constant.
- **the forum state** (`forum.dfy`, module `Forum`). A class `ForumState` holds the tables. Its methods
  are the state-changing routes: register, create, edit and delete a post, vote, ban, unban and
  report. Each route checks the same gate first: a logged-in, unbanned user, owner or admin. Tags are
  found or created, and tags that no post carries any more are collected.

The shared records live in `forum_types.dfy`, and `Option`/`Result` live in `wrappers.dfy`.

The class's invariant `Valid()` is the database's constraints:

- unique vote pairs, with every vote a like or a dislike;
- unique post ids, and posts written by registered users;
- posts carry only existing tags, and every tag is carried by some post;
- tag names are unique, and every tag name is clean: non-empty, with no comma and no outer whitespace;
- the id counters stay above the ids in use.

Every route is proved to preserve it. Each refused request is specified by its error, and a refused
request is proved to change nothing: no table, and no id counter.

Modelling decisions:

- **Login gate.** A user id not in the user table stands for a visitor who is not logged in.
  `User.is_active` is `not is_banned` (`main.py:96-98`). Flask-Login's `UserMixin.is_authenticated`
  returns `is_active` in the versions the program is written against. So `@login_required` turns a
  banned account away before any route body runs. The model therefore checks "logged in" and then
  "not banned" first in every route; the error `Banned` stands for that refusal. This also holds for
  `delete_post`, `ban_user` and `report_user`, which have no `is_active` check of their own. It
  explains the edit route as well, whose own `is_active` check (`main.py:2155`) comes after the
  permission check.
- **Tables.** Posts, votes and reports are sequences in table order. Users, tags and the achievements
  held are maps from id to row. Ids come from counters that start at 1.
- **Time.** Time is a natural-number timestamp passed in by the caller.

Specification functions. The routes' effects are stated through these functions. They have no
contract of their own; the rows below name them next to the lemmas that state what they compute:

- `Ledger.ApplyVote` (`main.py:2229-2242`): the vote route's three-way update of the vote table.
- `Ledger.ScoreOf` (`main.py:129-132`): `Post.score`, likes minus dislikes.
- `Achievements.Satisfied` (`main.py:203-220`): one catalog rule's condition for a user and an event.
- `Achievements.PassAwards` (`main.py:199-225`): the ids one walk over the catalog awards.
- `Achievements.AwardUser` (`main.py:222-226`): the achievement table after one evaluation.
- `Feed.ComposeFeed` (`main.py:1952-1974`): the index page's listing.
- `Feed.NewPostsSince` (`main.py:2200-2205`): the `get_new_posts` list.
- `TagText.Split`, `TagText.Strip` and `TagText.ParseTagNames` (`main.py:1934`): `split(',')`,
  `strip()` and the tag field's parse.

## Model

| member | source | states |
|---|---|---|
| Ledger.FindVote | main.py:2226 | the found row is the first row of that (user, post) pair; None means no row of the pair exists |
| Ledger.DirectionOf | main.py:2223-2224 | "like" maps to 1 and "dislike" to -1, both ways; every other token is refused |
| Ledger.ApplyVoteLedger | main.py:2229-2242 | `ApplyVote`: one vote keeps the unique constraint and the directions, moves the voter's holding to the toggled value (same direction retracts, other direction flips, none adds), and no other pair changes |
| Ledger.ApplyVoteAppends | main.py:2238-2242 | with no row, appending the new row gives the voter that vote and changes no other pair |
| Ledger.ApplyVoteRetracts | main.py:2230-2232 | deleting the row of the same direction leaves the voter with no vote and keeps every other pair |
| Ledger.ApplyVoteFlips | main.py:2233-2237 | flipping the row in place gives the voter the new direction and keeps every other pair |
| Ledger.ApplyVoteScore | main.py:129-132 | `ScoreOf` and `ApplyVote`: after a vote the post's likes-minus-dislikes moves by the new holding's weight minus the old one's; every other post's score is unchanged |
| Ledger.ScoreConcat | main.py:129-132 | `ScoreOf`: the score over two tables is the sum of their scores |
| Ledger.VoteOfRow | main.py:158 | under the unique constraint, any row of a pair is that pair's vote |
| Ledger.ToggleRestores | main.py:2229-2242 | voting the same direction twice from no vote restores the table exactly, and so the score |
| Ledger.FlipMovesScoreByTwo | main.py:2233-2237 | flipping a vote moves the score by two in the new direction |
| Ledger.AtMostOneRowPerPair | main.py:158 | after any sequence of votes there is still at most one row per (user, post), each a like or a dislike |
| TagText.SplitPiecesLackSep | main.py:1934 | `Split`: no piece of `split(',')` contains a comma |
| TagText.JoinOfSplit | main.py:1934 | `Split`: joining the pieces of a split with the separator gives back the text |
| TagText.StripIsClean | main.py:1934 | `Strip`: `strip()` returns exactly the stretch of the text between a run of leading and a run of trailing whitespace, and that stretch neither starts nor ends with whitespace |
| TagText.StripEmptyIffBlank | main.py:1930 | `s.strip()` is empty exactly when `s` holds only whitespace, so the body test `not content.strip()` is the blank test the routes use |
| TagText.ParseTagNamesClean | main.py:1934 | `ParseTagNames`: every parsed tag name is non-empty, has no comma and no surrounding whitespace |
| TagText.ParseOfJoin | main.py:2191 | `ParseTagNames`: the edit form's `', '.join(names)` of clean names parses back to exactly those names |
| TagText.StripPadded | main.py:2175 | leading whitespace before a clean name is exactly what strip removes |
| Feed.SortPerm | main.py:1971-1972 | Python's `sorted` returns a permutation of its input |
| Feed.SortOrdered | main.py:1971-1972 | `sorted(..., reverse=True)` is in non-increasing key order |
| Feed.SortStable | main.py:1970-1972 | the sort is stable: on a list already ordered by a second key, equal primary keys stay in that order |
| Feed.SortMembers | main.py:1971-1972 | sorting keeps exactly the same posts |
| Feed.Select | main.py:1971-1972 | the comprehension keeps exactly the posts meeting the filter; its order is the input's, as `Feed.SelectConcat` states |
| Feed.SelectConcat | main.py:1971-1972 | selecting from two post lists joined gives the first list's selection followed by the second's, so the selection keeps the input's order |
| Feed.SelectAll | main.py:1971-1972 | when every post meets the filter the selection is the input itself, in order |
| Feed.SelectNone | main.py:1971-1972 | when no post meets the filter the selection is empty |
| Feed.SelectCount | main.py:1971-1972 | a filtered list holds each matching post as often as the input, and no other post |
| Feed.PinnedSplit | main.py:1971-1972 | the pinned and unpinned lists together are all the matching posts |
| Feed.SortModeOf | main.py:1967-1974 | `date_asc` and `score_desc` select those modes; anything else, or no argument, means newest first |
| Feed.ActiveTag | main.py:1957-1965 | the tag filter applies exactly when the argument is non-empty, not `all`, and names an existing tag |
| Feed.NewestFirstGroups | main.py:1970-1972 | re-selecting the pinned and unpinned posts of the pinned-desc, date-desc query gives each group newest first |
| Feed.FeedGroups | main.py:1967-1974 | `ComposeFeed`: in every mode the feed is the matching pinned posts, then the matching unpinned ones, each group a permutation in its mode's order; in `score_desc` the unpinned group is by score with newest first among equal scores |
| Feed.FeedPinnedFirst | main.py:1967-1974 | `ComposeFeed`: in every mode the feed is a permutation of the matching posts, with every pinned post before every unpinned one |
| Feed.GroupsInModeOrder | main.py:1967-1974 | two groups sorted as a mode requires are in that mode's order pair by pair |
| Feed.FeedOrder | main.py:1967-1974 | `ComposeFeed`: within each group the feed follows the sort mode: date ascending, date descending, or score descending then newest |
| Feed.UnknownTagIgnored | main.py:1957-1965 | `ComposeFeed`: a tag argument of `all`, or one naming no tag, gives the unfiltered feed |
| Feed.KnownTagFilters | main.py:1957-1961 | `ComposeFeed`: a known tag restricts the feed to exactly the posts carrying it |
| Feed.NewPostsSinceMembers | main.py:2200-2205 | `NewPostsSince`: the polled posts are the pinned posts and the unpinned posts with id above the client's latest, nothing else |
| Feed.NewPostsSinceOrder | main.py:2200-2205 | `NewPostsSince`: the polled list is a pinned block newest first, then unpinned posts above the latest id in ascending id order |
| Achievements.AuthorOf | main.py:218-219 | a post is found exactly when some post has that id, and the result is the author of the first post with that id |
| Achievements.AwardPass | main.py:191-228 | the evaluator's loop awards exactly the catalog walk's ids, and nothing to an inactive user |
| Achievements.AwardsAreEarned | main.py:199-225 | `PassAwards` with `Satisfied`: every awarded id was not held before and belongs to a catalog rule whose condition holds |
| Achievements.AwardsAreDistinct | main.py:222-225 | `PassAwards`: no id is awarded twice in one evaluation |
| Achievements.AwardsAreComplete | main.py:199-225 | `PassAwards` with `Satisfied`: every rule that holds and is not held is awarded |
| Achievements.NothingLeftToAward | main.py:199-202 | a walk in which every rule that holds is already held awards nothing |
| Achievements.SecondPassAwardsNothing | main.py:196-202 | re-running the evaluation after its awards are recorded awards nothing |
| Achievements.UngatedEventsAgree | main.py:203-220 | any two events that are not a vote on the user's own post award the same ids |
| Achievements.UngatedAwardsCountRulesOnly | main.py:203-220 | such events award only `posts_made` and `votes_cast` rules |
| Achievements.OnlyFirstAwarded | main.py:199-225 | a catalog whose first rule alone holds awards exactly that rule's id |
| Achievements.FirstPostEarnsPioneer | main.py:2409-2427 | with the seeded catalog, a user's first post (with fewer than ten votes cast) earns exactly achievement 1, "Первопроходец" |
| Achievements.AwardUserOnlyAdds | main.py:222-226 | `AwardUser`: an evaluation only adds rows: nobody loses an achievement, other users are untouched, and new ones are satisfied rules |
| Achievements.AwardUserIdempotent | main.py:196-226 | `AwardUser`: evaluating twice on unchanged tables equals evaluating once |
| Forum.TagUsedAfterReplace | main.py:2174-2179 | a tag stays carried when the replaced post keeps it or another post carries it |
| Forum.TagUsedAfterRemove | main.py:2284 | a tag the deleted post did not carry is still carried |
| Forum.Carriers | main.py:2289 | `tag.posts.count()` is positive exactly when some post carries the tag |
| ForumTypes.IndexOf | main.py:2279 | the lookup finds the first post with that id, or None when no post has it |
| Forum.DropVotesOn | main.py:126 | the vote cascade keeps exactly the rows on other posts |
| Forum.DropVotesOnKeepsLedger | main.py:126 | the cascade keeps the unique constraint and the directions, and no row on the deleted post is left |
| Forum.ResolveReportsAboutClears | main.py:2324 | the ban's update resolves every report about the user and leaves every other report as it was |
| Forum.RegistrationError | main.py:2347-2360 | each refusal is returned exactly in its case, in the route's order: a missing or empty field, then different passwords, then a name under 3 characters, then a taken name; the form is accepted exactly when none applies |
| Forum.PostGate | main.py:2279-2281 | the edit/delete gate refuses a visitor, a banned user, a missing post, and a non-author non-admin, each exactly in its case, and passes exactly the author or an admin of an existing post |
| Forum.EditError | main.py:2151-2162 | the edit refuses exactly what the gate refuses, then exactly a missing or blank body |
| Forum.ForumState.constructor | main.py:2408-2427 | the empty database holds the seeded catalog |
| Forum.ResubmitKeepsTags | main.py:2171-2179 | when the parsed names name exactly a post's tags and find-or-create reuses every existing tag of a named name, the post gets exactly its old tags back |
| Forum.ForumState.StoredTagListRoundTrip | main.py:2191 | every stored tag name is clean, so the edit form's `', '.join` of a post's tag names, submitted unchanged, parses back to the same names, which name exactly the post's tags; `EditPost` then keeps the post's tags |
| Forum.ForumState.Register | main.py:2341-2368 | registration fails exactly when the form is refused and then changes nothing; otherwise it adds one unbanned user, an admin exactly when the user table was empty |
| Forum.ForumState.CheckAndAward | main.py:191-231 | the award table becomes the evaluation's result; a banned or unknown user gets nothing |
| Forum.ForumState.RecordVote | main.py:2226-2242 | the vote table becomes the three-way update, the returned status is the voter's new holding, and the score moves by the holdings' difference |
| Forum.ForumState.CastVote | main.py:2215-2257 | each refusal happens exactly in its case and changes nothing; the vote is accepted exactly when an active voter names an existing post with a valid token; an accepted vote applies the ledger update and returns the new holding and score, then evaluates achievements for the voter and the post's author |
| Forum.ForumState.BanUser | main.py:2313-2326 | only an active admin may ban, never themself and never an admin, each refusal exactly in its case; the ban succeeds exactly when an active admin names another existing user who is not an admin; a ban sets the flag and resolves every open report about the user |
| Forum.ForumState.UnbanUser | main.py:2331-2337 | only an active admin may unban, each refusal exactly in its case, and it succeeds exactly when an active admin names an existing user; unbanning clears the flag only |
| Forum.ForumState.ReportUser | main.py:1793-1824 | refuses a visitor, a banned user, an unknown target, oneself, and a reporter whose earlier report about the same user is unresolved, each exactly in its case; it succeeds exactly when none of these applies, and then appends one report with the stripped reason, a blank reason stored as none |
| Forum.ForumState.FindOrCreateTag | main.py:1936-1937 | the tag returned carries the name; an existing tag of that name is reused, otherwise exactly one new tag is added; old tags are kept and tag names stay unique and clean |
| Forum.ForumState.FindOrCreateTags | main.py:1935-1938 | existing tags are reused, new ones created only for named names; the ids are exactly the tags whose names are named, and tag names stay unique |
| Forum.ForumState.TagsNamed | main.py:2176-2179 | find-or-create on a consistent database: the ids are exactly the tags whose names are named, every named name has its tag among them, only the named tags may be uncarried, and old tags are kept |
| Forum.ForumState.CollectTags | main.py:2183-2187 | among the candidates exactly the tags no post carries are deleted; all other tags stay unchanged |
| Forum.ForumState.AppendPost | main.py:1939-1940 | the post is added under the next id and the database constraints are restored |
| Forum.ForumState.PublishPost | main.py:1933-1940 | a new post under the next id is appended, the post counter advancing by one, carrying exactly the tags whose names are named, with every named name attached, found or created |
| Forum.ForumState.CreatePost | main.py:1916-1941 | refuses a visitor, a banned user or a blank body, each exactly in its case, changing nothing, the id counters included; it succeeds exactly when an active author sends a body with text, and then appends exactly one post under the next id, advancing the post counter by one, with the body, pinned only for admins, score 0, no edit, and exactly the tags named by the parsed tag field, every parsed name attached, then evaluates achievements |
| Forum.ForumState.ReplacePost | main.py:2171-2179 | only the post at the index changes; only tags it carried and its replacement does not may become uncarried |
| Forum.ForumState.RemovePost | main.py:2284-2285 | the post is removed with its votes, and the remaining posts keep their order |
| Forum.ForumState.RevisePost | main.py:2170-2187 | the post gets the new body, edit time, edit count plus one, and exactly the named tags, every named name attached and an existing tag of a named name reused; a field naming exactly the post's old tags gives them back; an old tag survives exactly when some post still carries it |
| Forum.ForumState.EditPost | main.py:2148-2189 | fails exactly as the edit gate says and then changes nothing, the tag counter included; otherwise it rewrites only that post (body, edit time, edit count plus one, exactly the tags the parsed field names, every parsed name attached, an existing tag of a named name reused, and the old tags kept when the field names exactly them) and deletes exactly the old tags no post carries |
| Forum.ForumState.DiscardPost | main.py:2282-2290 | the post and its votes are deleted, and exactly the tags no post carries any more go with it |
| Forum.ForumState.DeletePost | main.py:2276-2295 | fails exactly as the gate says and changes nothing; otherwise removes the post and its votes, deletes its tags no post carries, and re-evaluates the author's achievements twice |

## Left out

- Rendering, templates, flash messages and logging are not modelled.
- The `X-Requested-With` header checks are not modelled. The new-post route refuses a request without the header before anything else (`main.py:1918`). The vote route refuses it after `@login_required` (`main.py:2216-2218`). Either way the refused request changes nothing.
- Replies, direct messages, profiles, login, logout and password hashing are not modelled, nor are `admin_reports` and `admin_resolve_report`. The model stores no password.
- Commit, rollback and database failures are not modelled: every commit is taken to succeed.
- Forum.ForumState.CheckAndAward: the evaluator commits its awards separately (`main.py:229-234`). If that commit fails, only the awards are rolled back. The vote, post or deletion committed before it stays (`main.py:2243-2245`, `main.py:1940-1941`). The model always records the awards.
- Time is a caller-supplied natural number, and `awarded_at` and the report's own timestamp source are not modelled.
- Post ids come from a counter that never reuses an id; SQLite may reuse the id of a deleted last row.
- The order SQL gives to rows with equal sort keys is taken to be table order.
- Forum.ForumState.CreatePost and Forum.ForumState.EditPost: a tag field that names the same tag twice appends that tag to the post twice (`main.py:1938`, `main.py:2179`). The join table's primary key is (post, tag) (`main.py:28-31`), so the commit rejects the second row and the program does not store the tag twice. The model's post carries a set of tag ids: it accepts such a request and stores the tag once.
- Forum.ForumState.EditPost: a form without a `content` field makes the program raise at `main.py:2165` (`new_content.strip()` on `None`). The model returns `EmptyContent` for it instead.
- Forum.ForumState.Register: the route's redirect of an already logged-in user is not modelled. Neither is the administrator account created at start-up, nor password storage.
- Achievements.FirstPostEarnsPioneer: the lemma assumes the user has cast fewer than ten votes, because ten votes earn the voting achievement in the same walk.
- Forum.ForumState.CheckAndAward: the event context (`main.py:208`, `main.py:215`) is an `Option`. An empty context dictionary counts as no context.
- `AnonN.py` is not part of this model.
