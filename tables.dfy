/**
 * The integrity the database keeps over the five tables: primary keys are
 * unique and drawn from one counter, `username` and `Group.slug` are unique
 * columns, and every foreign key names an existing row. Each lemma here
 * says that one kind of write (an insert, an update of a post, a delete
 * with its cascades) keeps that integrity.
 */
module Tables {
  import opened Seqs
  import opened Models

  predicate UserExists(users: seq<User>, u: UserId)
  {
    exists x :: x in users && x.id == u
  }

  predicate GroupExists(groups: seq<Group>, g: GroupId)
  {
    exists x :: x in groups && x.id == g
  }

  predicate PostExists(posts: seq<Post>, id: PostId)
  {
    exists x :: x in posts && x.id == id
  }

  ghost predicate Unique(users: seq<User>, groups: seq<Group>, posts: seq<Post>, comments: seq<Comment>, follows: seq<Follow>)
  {
    && Distinct(users, UserKey) && Distinct(users, Username)
    && Distinct(groups, GroupKey) && Distinct(groups, Slug)
    && Distinct(posts, PostKey)
    && Distinct(comments, CommentKey)
    && Distinct(follows, FollowKey)
  }

  ghost predicate KeysBelow(users: seq<User>, groups: seq<Group>, posts: seq<Post>, comments: seq<Comment>, follows: seq<Follow>, next: nat)
  {
    && (forall u :: u in users ==> u.id < next)
    && (forall g :: g in groups ==> g.id < next)
    && (forall p :: p in posts ==> p.id < next)
    && (forall c :: c in comments ==> c.id < next)
    && (forall f :: f in follows ==> f.id < next)
  }

  /** A post's author and group exist. */
  ghost predicate PostLinked(users: seq<User>, groups: seq<Group>, p: Post)
  {
    UserExists(users, p.author) && (p.group.Some? ==> GroupExists(groups, p.group.value))
  }

  ghost predicate Linked(users: seq<User>, groups: seq<Group>, posts: seq<Post>, comments: seq<Comment>, follows: seq<Follow>)
  {
    && (forall p :: p in posts ==> PostLinked(users, groups, p))
    && (forall c :: c in comments ==> PostExists(posts, c.post) && UserExists(users, c.author))
    && (forall f :: f in follows ==> UserExists(users, f.user) && UserExists(users, f.author))
  }

  ghost predicate Consistent(users: seq<User>, groups: seq<Group>, posts: seq<Post>, comments: seq<Comment>, follows: seq<Follow>, next: nat)
  {
    && Unique(users, groups, posts, comments, follows)
    && KeysBelow(users, groups, posts, comments, follows, next)
    && Linked(users, groups, posts, comments, follows)
  }

  // Growing a table keeps every reference into it valid.

  lemma UsersGrow(users: seq<User>, more: seq<User>)
    ensures forall u :: UserExists(users, u) ==> UserExists(users + more, u)
  {
    forall u | UserExists(users, u) ensures UserExists(users + more, u) {
      var x :| x in users && x.id == u;
      assert x in users + more;
    }
  }

  lemma GroupsGrow(groups: seq<Group>, more: seq<Group>)
    ensures forall g :: GroupExists(groups, g) ==> GroupExists(groups + more, g)
  {
    forall g | GroupExists(groups, g) ensures GroupExists(groups + more, g) {
      var x :| x in groups && x.id == g;
      assert x in groups + more;
    }
  }

  lemma PostsGrow(posts: seq<Post>, more: seq<Post>)
    ensures forall id :: PostExists(posts, id) ==> PostExists(posts + more, id)
  {
    forall id | PostExists(posts, id) ensures PostExists(posts + more, id) {
      var x :| x in posts && x.id == id;
      assert x in posts + more;
    }
  }

  // Inserts.

  lemma InsertUser(users: seq<User>, groups: seq<Group>, posts: seq<Post>, comments: seq<Comment>, follows: seq<Follow>, next: nat, x: User)
    requires Consistent(users, groups, posts, comments, follows, next)
    requires x.id == next && forall y :: y in users ==> y.username != x.username
    ensures Consistent(users + [x], groups, posts, comments, follows, next + 1)
  {
    AppendDistinct(users, x, UserKey);
    AppendDistinct(users, x, Username);
    UsersGrow(users, [x]);
  }

  lemma InsertGroup(users: seq<User>, groups: seq<Group>, posts: seq<Post>, comments: seq<Comment>, follows: seq<Follow>, next: nat, x: Group)
    requires Consistent(users, groups, posts, comments, follows, next)
    requires x.id == next && forall y :: y in groups ==> y.slug != x.slug
    ensures Consistent(users, groups + [x], posts, comments, follows, next + 1)
  {
    AppendDistinct(groups, x, GroupKey);
    AppendDistinct(groups, x, Slug);
    GroupsGrow(groups, [x]);
  }

  lemma InsertPost(users: seq<User>, groups: seq<Group>, posts: seq<Post>, comments: seq<Comment>, follows: seq<Follow>, next: nat, p: Post)
    requires Consistent(users, groups, posts, comments, follows, next)
    requires p.id == next && PostLinked(users, groups, p)
    ensures Consistent(users, groups, posts + [p], comments, follows, next + 1)
  {
    AppendDistinct(posts, p, PostKey);
    PostsGrow(posts, [p]);
  }

  lemma InsertComment(users: seq<User>, groups: seq<Group>, posts: seq<Post>, comments: seq<Comment>, follows: seq<Follow>, next: nat, c: Comment)
    requires Consistent(users, groups, posts, comments, follows, next)
    requires c.id == next && PostExists(posts, c.post) && UserExists(users, c.author)
    ensures Consistent(users, groups, posts, comments + [c], follows, next + 1)
  {
    AppendDistinct(comments, c, CommentKey);
  }

  lemma InsertFollow(users: seq<User>, groups: seq<Group>, posts: seq<Post>, comments: seq<Comment>, follows: seq<Follow>, next: nat, f: Follow)
    requires Consistent(users, groups, posts, comments, follows, next)
    requires f.id == next && UserExists(users, f.user) && UserExists(users, f.author)
    ensures Consistent(users, groups, posts, comments, follows + [f], next + 1)
  {
    AppendDistinct(follows, f, FollowKey);
  }

  // Updates.

  /** `form.save()` on a post: same id, a valid author and group. */
  lemma UpdatePost(users: seq<User>, groups: seq<Group>, posts: seq<Post>, comments: seq<Comment>, follows: seq<Follow>, next: nat, e: Post)
    requires Consistent(users, groups, posts, comments, follows, next)
    requires PostExists(posts, e.id) && PostLinked(users, groups, e)
    ensures Consistent(users, groups, ReplacePost(posts, e), comments, follows, next)
  {
    var r := ReplacePost(posts, e);
    ReplaceKeepsKeys(posts, e);
    forall x | x in r ensures x.id < next && PostLinked(users, groups, x) {
      var i :| 0 <= i < |r| && r[i] == x;
      assert posts[i] in posts;
    }
    forall c | c in comments ensures PostExists(r, c.post) {
      assert PostExists(posts, c.post);
    }
  }

  /** Writing a post over the row with its id keeps the key column as it was. */
  lemma ReplaceKeepsKeys(posts: seq<Post>, e: Post)
    requires Distinct(posts, PostKey)
    ensures Distinct(ReplacePost(posts, e), PostKey)
    ensures forall id :: PostExists(posts, id) ==> PostExists(ReplacePost(posts, e), id)
  {
    var r := ReplacePost(posts, e);
    forall i, j | 0 <= i < j < |r| ensures r[i].id != r[j].id {
      assert r[i].id == posts[i].id && r[j].id == posts[j].id;
    }
    forall id | PostExists(posts, id) ensures PostExists(r, id) {
      var y :| y in posts && y.id == id;
      var i :| 0 <= i < |posts| && posts[i] == y;
      assert r[i].id == id && r[i] in r;
    }
  }

  // Deletes.

  /** Deleting a group and setting its posts' group to null. */
  lemma DeleteGroupRows(users: seq<User>, groups: seq<Group>, posts: seq<Post>, comments: seq<Comment>, follows: seq<Follow>, next: nat, g: GroupId)
    requires Consistent(users, groups, posts, comments, follows, next)
    ensures Consistent(users, Filter(groups, GroupIdIsNot(g)), ClearGroup(posts, g), comments, follows, next)
  {
    FilterDistinct(groups, GroupIdIsNot(g), GroupKey);
    FilterDistinct(groups, GroupIdIsNot(g), Slug);
    ClearGroupRows(users, groups, posts, next, g);
  }

  /** Clearing group `g` keeps the post ids and leaves every post linked to a remaining group. */
  lemma ClearGroupRows(users: seq<User>, groups: seq<Group>, posts: seq<Post>, next: nat, g: GroupId)
    requires Distinct(posts, PostKey)
    requires forall p :: p in posts ==> p.id < next && PostLinked(users, groups, p)
    ensures Distinct(ClearGroup(posts, g), PostKey)
    ensures forall x :: x in ClearGroup(posts, g) ==>
      x.id < next && PostLinked(users, Filter(groups, GroupIdIsNot(g)), x)
    ensures forall id :: PostExists(posts, id) ==> PostExists(ClearGroup(posts, g), id)
  {
    ClearGroupKeys(posts, g);
    var gs := Filter(groups, GroupIdIsNot(g));
    var r := ClearGroup(posts, g);
    forall x | x in r ensures x.id < next && PostLinked(users, gs, x) {
      var i :| 0 <= i < |r| && r[i] == x;
      assert posts[i] in posts;
      if x.group.Some? {
        var y :| y in groups && y.id == x.group.value;
        assert y in gs;
      }
    }
  }

  lemma ClearGroupKeys(posts: seq<Post>, g: GroupId)
    requires Distinct(posts, PostKey)
    ensures Distinct(ClearGroup(posts, g), PostKey)
    ensures forall id :: PostExists(posts, id) ==> PostExists(ClearGroup(posts, g), id)
  {
    var r := ClearGroup(posts, g);
    assert Distinct(r, PostKey) by {
      forall i, j | 0 <= i < j < |r| ensures r[i].id != r[j].id {
        assert r[i].id == posts[i].id && r[j].id == posts[j].id;
      }
    }
    forall id | PostExists(posts, id) ensures PostExists(r, id) {
      var y :| y in posts && y.id == id;
      var i :| 0 <= i < |posts| && posts[i] == y;
      assert r[i].id == id && r[i] in r;
    }
  }

  /** Deleting a post and, by cascade, its comments. */
  lemma DeletePostRows(users: seq<User>, groups: seq<Group>, posts: seq<Post>, comments: seq<Comment>, follows: seq<Follow>, next: nat, id: PostId)
    requires Consistent(users, groups, posts, comments, follows, next)
    ensures Consistent(users, groups, Filter(posts, PostIdIsNot(id)), Filter(comments, NotOnPost(id)), follows, next)
  {
    var ps := Filter(posts, PostIdIsNot(id));
    FilterDistinct(posts, PostIdIsNot(id), PostKey);
    FilterDistinct(comments, NotOnPost(id), CommentKey);
    forall c | c in Filter(comments, NotOnPost(id)) ensures PostExists(ps, c.post) {
      var y :| y in posts && y.id == c.post;
      assert y in ps;
    }
  }

  /** Deleting a user and, by cascade, their posts, comments and follow rows, and the comments on their posts. */
  lemma DeleteUserRows(users: seq<User>, groups: seq<Group>, posts: seq<Post>, comments: seq<Comment>, follows: seq<Follow>, next: nat, u: UserId, gone: set<PostId>)
    requires Consistent(users, groups, posts, comments, follows, next)
    requires gone == set p | p in posts && p.author == u :: p.id
    ensures Consistent(Filter(users, UserIdIsNot(u)), groups, Filter(posts, NotAuthoredBy(u)),
                       Filter(comments, SurvivesUser(u, gone)), Filter(follows, NotTouching(u)), next)
  {
    var us := Filter(users, UserIdIsNot(u));
    var ps := Filter(posts, NotAuthoredBy(u));
    var cs := Filter(comments, SurvivesUser(u, gone));
    var fs := Filter(follows, NotTouching(u));
    FilterDistinct(users, UserIdIsNot(u), UserKey);
    FilterDistinct(users, UserIdIsNot(u), Username);
    FilterDistinct(posts, NotAuthoredBy(u), PostKey);
    FilterDistinct(comments, SurvivesUser(u, gone), CommentKey);
    FilterDistinct(follows, NotTouching(u), FollowKey);
    forall p | p in ps ensures PostLinked(us, groups, p) {
      var x :| x in users && x.id == p.author;
      assert x in us;
    }
    forall c | c in cs ensures PostExists(ps, c.post) && UserExists(us, c.author) {
      var q :| q in posts && q.id == c.post;
      assert q.author != u;
      assert q in ps;
      var x :| x in users && x.id == c.author;
      assert x in us;
    }
    forall f | f in fs ensures UserExists(us, f.user) && UserExists(us, f.author) {
      var x :| x in users && x.id == f.user;
      var y :| y in users && y.id == f.author;
      assert x in us && y in us;
    }
  }

  /** Deleting follow rows. */
  lemma DeleteFollowRows(users: seq<User>, groups: seq<Group>, posts: seq<Post>, comments: seq<Comment>, follows: seq<Follow>, next: nat, keep: Follow -> bool)
    requires Consistent(users, groups, posts, comments, follows, next)
    ensures Consistent(users, groups, posts, comments, Filter(follows, keep), next)
  {
    FilterDistinct(follows, keep, FollowKey);
  }

  /**
   * On a consistent store the lookups by username, by slug and by primary
   * key never raise MultipleObjectsReturned: each column is unique.
   */
  lemma LookupIsNeverMultiple(users: seq<User>, groups: seq<Group>, posts: seq<Post>, comments: seq<Comment>, follows: seq<Follow>, next: nat,
                              name: string, slug: string, id: PostId)
    requires Consistent(users, groups, posts, comments, follows, next)
    ensures !Get(users, UsernameIs(name)).MultipleFound?
    ensures !Get(groups, SlugIs(slug)).MultipleFound?
    ensures !Get(posts, PostIdIs(id)).MultipleFound?
  {
    AtMostOneMatch(users, Username, UsernameIs(name), name);
    AtMostOneMatch(groups, Slug, SlugIs(slug), slug);
    AtMostOneMatch(posts, PostKey, PostIdIs(id), id);
  }
}
