/**
 * The entities of the forum database (users, posts, vote rows, reports,
 * achievements) as values, and the ways a request can be turned away.
 * Wall-clock times are abstract natural numbers.
 */
module ForumTypes {
  import opened Wrappers

  type UserId = nat
  type PostId = nat
  type TagId = nat
  type AchievementId = nat
  type Timestamp = nat

  /** A registered account; passwords and the profile text are not modelled. */
  datatype User = User(name: string, isAdmin: bool, isBanned: bool)

  /** A forum post; `tags` is the set of tag rows the join table links to it. */
  datatype Post = Post(
    id: PostId,
    author: UserId,
    content: string,
    date: Timestamp,
    pinned: bool,
    editCount: nat,
    lastEditedAt: Option<Timestamp>,
    tags: set<TagId>)

  /** The position of the first post with id `id` (`Post.query.get`), or None when no post has it. */
  function IndexOf(posts: seq<Post>, id: PostId): (r: Option<nat>)
    ensures r.Some? ==> r.value < |posts| && posts[r.value].id == id
    ensures r.Some? ==> forall i :: 0 <= i < r.value ==> posts[i].id != id
    ensures r.None? ==> forall i :: 0 <= i < |posts| ==> posts[i].id != id
  {
    if posts == [] then None
    else if posts[0].id == id then Some(0)
    else match IndexOf(posts[1..], id)
      case None => None
      case Some(i) => Some(i + 1)
  }

  /** One row of the vote table: `value` is 1 for a like and -1 for a dislike. */
  datatype Vote = Vote(user: UserId, post: PostId, value: int, date: Timestamp)

  /** A complaint one user files about another. */
  datatype Report = Report(
    reporter: UserId,
    reported: UserId,
    reason: Option<string>,
    date: Timestamp,
    resolved: bool)

  /** Why a request was refused; a refused request changes nothing. */
  datatype Error =
    | NotAuthenticated   // no such account is logged in
    | Banned             // the acting account is banned
    | NotFound           // the post or user named by the request does not exist
    | Forbidden          // neither the owner nor an administrator
    | EmptyContent       // the post body is missing or only whitespace
    | BadVoteType        // the vote token is neither "like" nor "dislike"
    | SelfTarget         // banning or reporting oneself
    | AdminTarget        // banning an administrator
    | AlreadyReported    // an unresolved report by the same reporter already exists
    | MissingField       // a registration field is empty
    | PasswordMismatch   // the two passwords differ
    | NameTooShort       // the user name has fewer than three characters
    | NameTaken          // the user name is already registered

  /** A vote direction as stored in the vote table. */
  predicate IsDirection(v: int)
  {
    v == 1 || v == -1
  }

  /** Python's `str.isspace()` for one character: the characters `str.strip()` removes. */
  predicate IsSpace(c: char)
  {
    ('\U{9}' <= c <= '\U{D}') || ('\U{1C}' <= c <= '\U{20}') || c == '\U{85}' || c == '\U{A0}'
    || c == '\U{1680}' || ('\U{2000}' <= c <= '\U{200A}') || c == '\U{2028}' || c == '\U{2029}'
    || c == '\U{202F}' || c == '\U{205F}' || c == '\U{3000}'
  }

  /** True when `s` holds at least one character that is not whitespace (`s.strip()` is truthy). */
  predicate HasText(s: string)
  {
    exists i :: 0 <= i < |s| && !IsSpace(s[i])
  }
}
