/**
 * The rows of the four tables of the posts application (Group, Post,
 * Comment, Follow) and of the external user table, their two string
 * projections, their default orderings and the row selectors the queries
 * filter by.
 */
module Models {
  import opened Seqs

  type UserId = nat
  type GroupId = nat
  type PostId = nat
  type CommentId = nat
  type FollowId = nat

  datatype Option<T> = None | Some(value: T)

  /** The user record of the identity provider: only what the views use. */
  datatype User = User(id: UserId, username: string)

  datatype Group = Group(id: GroupId, title: string, slug: string, description: string)

  /**
   * `pubDate` is set once when the row is created; `group` is nullable;
   * `image` is the stored file name, empty when there is none.
   */
  datatype Post = Post(
    id: PostId,
    text: string,
    pubDate: int,
    author: UserId,
    group: Option<GroupId>,
    image: string)

  datatype Comment = Comment(id: CommentId, post: PostId, author: UserId, text: string, created: int)

  /**
   * `user` follows `author`. Neither uniqueness of the pair nor
   * `user != author` is a constraint of the table.
   */
  datatype Follow = Follow(id: FollowId, author: UserId, user: UserId)

  const PostStrLength: nat := 15

  /** `Post.__str__`: the first 15 characters of the text. */
  function PostStr(p: Post): (r: string)
    ensures r <= p.text
    ensures |r| == if |p.text| < PostStrLength then |p.text| else PostStrLength
  {
    if |p.text| <= PostStrLength then p.text else p.text[..PostStrLength]
  }

  /** A text no longer than 15 characters is shown whole. */
  lemma ShortPostStrIsText(p: Post)
    requires |p.text| <= PostStrLength
    ensures PostStr(p) == p.text
  {
  }

  /** `Group.__str__`: the title. */
  function GroupStr(g: Group): (r: string)
    ensures r == g.title
  {
    g.title
  }

  function PubDate(p: Post): int { p.pubDate }

  function Created(c: Comment): int { c.created }

  /** `Post.Meta.ordering = ['-pub_date']`. */
  function OrderedPosts(posts: seq<Post>): (r: seq<Post>)
    ensures SortedDesc(r, PubDate)
    ensures multiset(r) == multiset(posts) && |r| == |posts|
    ensures forall d :: Filter(r, HasKey(PubDate, d)) == Filter(posts, HasKey(PubDate, d))
  {
    SortDescSorted(posts, PubDate);
    forall d ensures Filter(SortDesc(posts, PubDate), HasKey(PubDate, d)) == Filter(posts, HasKey(PubDate, d)) {
      SortDescStable(posts, PubDate, d);
    }
    SortDesc(posts, PubDate)
  }

  /** `Comment.Meta.ordering = ['-created']`. */
  function OrderedComments(comments: seq<Comment>): (r: seq<Comment>)
    ensures SortedDesc(r, Created)
    ensures multiset(r) == multiset(comments)
    ensures forall d :: Filter(r, HasKey(Created, d)) == Filter(comments, HasKey(Created, d))
  {
    SortDescSorted(comments, Created);
    forall d ensures Filter(SortDesc(comments, Created), HasKey(Created, d)) == Filter(comments, HasKey(Created, d)) {
      SortDescStable(comments, Created, d);
    }
    SortDesc(comments, Created)
  }

  // Columns.

  function UserKey(u: User): UserId { u.id }
  function Username(u: User): string { u.username }
  function GroupKey(g: Group): GroupId { g.id }
  function Slug(g: Group): string { g.slug }
  function PostKey(p: Post): PostId { p.id }
  function CommentKey(c: Comment): CommentId { c.id }
  function FollowKey(f: Follow): FollowId { f.id }
  /** The (user, author) pair of a Follow row. */
  function FollowEdge(f: Follow): (UserId, UserId) { (f.user, f.author) }

  // Row selectors (the keyword arguments of `filter()` / `get()`).

  function UserIdIs(u: UserId): User -> bool { (x: User) => x.id == u }
  function UserIdIsNot(u: UserId): User -> bool { (x: User) => x.id != u }
  function UsernameIs(name: string): User -> bool { (x: User) => x.username == name }

  function GroupIdIsNot(g: GroupId): Group -> bool { (x: Group) => x.id != g }
  function SlugIs(slug: string): Group -> bool { (x: Group) => x.slug == slug }

  function PostIdIs(id: PostId): Post -> bool { (p: Post) => p.id == id }
  function PostIdIsNot(id: PostId): Post -> bool { (p: Post) => p.id != id }
  function AuthoredBy(u: UserId): Post -> bool { (p: Post) => p.author == u }
  function NotAuthoredBy(u: UserId): Post -> bool { (p: Post) => p.author != u }
  function InGroup(g: GroupId): Post -> bool { (p: Post) => p.group == Some(g) }

  function OnPost(id: PostId): Comment -> bool { (c: Comment) => c.post == id }
  function NotOnPost(id: PostId): Comment -> bool { (c: Comment) => c.post != id }
  /** The comments that survive deleting user `u` and the posts `gone`. */
  function SurvivesUser(u: UserId, gone: set<PostId>): Comment -> bool {
    (c: Comment) => c.author != u && c.post !in gone
  }

  function FollowPair(user: UserId, author: UserId): Follow -> bool {
    (f: Follow) => f.user == user && f.author == author
  }
  function NotFollowPair(user: UserId, author: UserId): Follow -> bool {
    (f: Follow) => !(f.user == user && f.author == author)
  }
  function FollowIdIsNot(id: FollowId): Follow -> bool { (f: Follow) => f.id != id }
  function AuthorIs(u: UserId): Follow -> bool { (f: Follow) => f.author == u }
  function UserIs(u: UserId): Follow -> bool { (f: Follow) => f.user == u }
  function NotTouching(u: UserId): Follow -> bool { (f: Follow) => f.user != u && f.author != u }

  /** The posts of a group or of an author, newest first. */
  function SelectedPosts(posts: seq<Post>, keep: Post -> bool): (r: seq<Post>)
    ensures forall p :: p in r <==> p in posts && keep(p)
    ensures SortedDesc(r, PubDate)
    ensures |r| == |Filter(posts, keep)|
  {
    var r := OrderedPosts(Filter(posts, keep));
    assert forall p :: p in r <==> p in multiset(r);
    r
  }

  /** `post.comments.all()`: the comments on a post, newest first. */
  function CommentsOn(comments: seq<Comment>, id: PostId): (r: seq<Comment>)
    ensures forall c :: c in r <==> c in comments && c.post == id
    ensures SortedDesc(r, Created)
    ensures |r| == |Filter(comments, OnPost(id))|
  {
    var on := Filter(comments, OnPost(id));
    var r := OrderedComments(on);
    assert forall c :: c in r <==> c in multiset(r);
    assert forall c :: c in on <==> c in multiset(on);
    r
  }

  /** `post.group = None` for every post of group `g` (its delete rule). */
  function ClearGroup(posts: seq<Post>, g: GroupId): (r: seq<Post>)
    ensures |r| == |posts|
    ensures forall i :: 0 <= i < |r| ==>
      r[i] == if posts[i].group == Some(g) then posts[i].(group := None) else posts[i]
  {
    if posts == [] then []
    else
      var p := posts[0];
      [if p.group == Some(g) then p.(group := None) else p] + ClearGroup(posts[1..], g)
  }

  /** Writes `edited` over the row with the same id. */
  function ReplacePost(posts: seq<Post>, edited: Post): (r: seq<Post>)
    ensures |r| == |posts|
    ensures forall i :: 0 <= i < |r| ==>
      r[i] == if posts[i].id == edited.id then edited else posts[i]
  {
    if posts == [] then []
    else [if posts[0].id == edited.id then edited else posts[0]] + ReplacePost(posts[1..], edited)
  }
}
