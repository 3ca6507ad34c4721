/**
 * The request handlers of the posts application, over an in-memory store
 * that stands in for the database: one class holding the five tables, whose
 * methods are the handlers that write (and the delete rules of the foreign
 * keys) and whose functions are the handlers that only read.
 *
 * `@login_required` becomes the precondition that the requester is a row
 * of the user table. The clock behind `auto_now_add` is the parameter `now`.
 */
module Views {
  import opened Seqs
  import opened Paginator
  import opened Models
  import opened Feed
  import opened Tables

  datatype Error = NotFound | MultipleObjectsReturned | IntegrityError

  datatype Result<T> = Ok(value: T) | Err(error: Error)

  datatype Redirect = ToProfile(username: string) | ToPostDetail(postId: PostId)

  /** The answer of a handler that may write: a redirect, the form page again, or an error. */
  datatype Response = Redirected(to: Redirect) | FormShown | Failed(error: Error)

  /**
   * The fields a client submits to the post form. `image` is a newly
   * uploaded file, if any; `author` is whatever the client sends for it,
   * which the handlers never read.
   */
  datatype PostForm = PostForm(text: string, group: Option<GroupId>, image: Option<string>, author: Option<UserId>)

  datatype CommentForm = CommentForm(text: string)

  datatype GroupView = GroupView(group: Group, page: Page<Post>)

  datatype ProfileView = ProfileView(author: User, following: bool, page: Page<Post>)

  datatype DetailView = DetailView(post: Post, comments: seq<Comment>)

  /** What `form.save()` writes over an existing post. */
  function Edited(p: Post, f: PostForm): (r: Post)
    ensures r.id == p.id && r.pubDate == p.pubDate && r.author == p.author
    ensures r.text == f.text && r.group == f.group
  {
    p.(text := f.text, group := f.group, image := if f.image.Some? then f.image.value else p.image)
  }

  /** Writing an edit over its post keeps every row's id, author and date, and every other row. */
  lemma EditKeepsRows(posts: seq<Post>, p: Post, f: PostForm)
    requires p in posts && Distinct(posts, PostKey)
    ensures var r := ReplacePost(posts, Edited(p, f));
      && |r| == |posts|
      && (forall i :: 0 <= i < |r| ==>
            r[i].id == posts[i].id && r[i].author == posts[i].author && r[i].pubDate == posts[i].pubDate)
      && (forall i :: 0 <= i < |r| && r[i].id != p.id ==> r[i] == posts[i])
  {
    var r := ReplacePost(posts, Edited(p, f));
    forall i | 0 <= i < |r|
      ensures r[i].id == posts[i].id && r[i].author == posts[i].author && r[i].pubDate == posts[i].pubDate
    {
      if posts[i].id == p.id {
        var j :| 0 <= j < |posts| && posts[j] == p;
        assert PostKey(posts[i]) == PostKey(posts[j]);
        assert r[i] == Edited(p, f);
      }
    }
  }

  /** When nobody follows the pair, following and then unfollowing gives the table back. */
  lemma FollowThenUnfollow(follows: seq<Follow>, f: Follow)
    requires forall x :: x in follows ==> !(x.user == f.user && x.author == f.author)
    ensures Filter(follows + [f], NotFollowPair(f.user, f.author)) == follows
  {
    FilterConcat(follows, [f], NotFollowPair(f.user, f.author));
    FilterAll(follows, NotFollowPair(f.user, f.author));
    assert Filter([f], NotFollowPair(f.user, f.author)) == [];
  }

  /** With one row per pair, the follow lookups never raise MultipleObjectsReturned. */
  lemma PairLookupIsNeverMultiple(follows: seq<Follow>, user: UserId, author: UserId)
    requires Distinct(follows, FollowEdge)
    ensures !Get(follows, FollowPair(user, author)).MultipleFound?
  {
    AtMostOneMatch(follows, FollowEdge, FollowPair(user, author), (user, author));
  }

  class Store {
    var users: seq<User>
    var groups: seq<Group>
    var posts: seq<Post>
    var comments: seq<Comment>
    var follows: seq<Follow>
    /** The next primary key; every table draws from it. */
    var nextId: nat
    /** `settings.PAGINATION_COUNT`. */
    const pageSize: nat

    ghost predicate Valid()
      reads this
    {
      pageSize > 0 && Consistent(users, groups, posts, comments, follows, nextId)
    }

    /**
     * At most one Follow row per (user, author) pair. The table does not
     * enforce it; the follow handler keeps it.
     */
    ghost predicate FollowPairsUnique()
      reads this
    {
      Distinct(follows, FollowEdge)
    }

    constructor (pageSize: nat)
      requires pageSize > 0
      ensures Valid() && FollowPairsUnique()
      ensures this.pageSize == pageSize
      ensures users == [] && groups == [] && posts == [] && comments == [] && follows == []
    {
      this.pageSize := pageSize;
      users, groups, posts, comments, follows := [], [], [], [], [];
      nextId := 0;
    }

    // ---- Forms (PostForm, CommentForm) ----

    /** A bound post form is valid when its text is not empty and its group, if any, exists. */
    predicate ValidPostForm(form: Option<PostForm>)
      reads this
    {
      form.Some? && |form.value.text| > 0 && (form.value.group.Some? ==> GroupExists(groups, form.value.group.value))
    }

    predicate ValidCommentForm(form: Option<CommentForm>)
    {
      form.Some? && |form.value.text| > 0
    }

    // ---- Handlers that only read ----

    /** `index`: every post, newest first, one page of it. */
    function Index(arg: PageArg): (r: Page<Post>)
      reads this
      requires pageSize > 0
      ensures r.count == |posts| && 1 <= r.number <= r.numPages
      ensures arg.Number? && 1 <= arg.n <= r.numPages ==> r.number == arg.n
      ensures r.number < r.numPages ==> |r.items| == pageSize
      ensures forall p :: p in r.items ==> p in posts
      ensures SortedDesc(r.items, PubDate)
      ensures ServesPage(r, OrderedPosts(posts), pageSize, arg)
    {
      var items := OrderedPosts(posts);
      assert forall p :: p in items ==> p in multiset(posts);
      ServedPage(items, pageSize, arg);
      GetPageFromPaginator(items, pageSize, arg)
    }

    /** What every page of an ordered list shows, whatever the `page` parameter. */
    static lemma ServedPage(items: seq<Post>, size: nat, arg: PageArg)
      requires size > 0 && SortedDesc(items, PubDate)
      ensures var p := GetPageFromPaginator(items, size, arg);
        && (forall x :: x in p.items ==> x in items)
        && SortedDesc(p.items, PubDate)
        && (p.number < p.numPages ==> |p.items| == size)
    {
      var k := PageNumber(|items|, size, arg);
      PageItemsFromList(items, size, k);
      PageSorted(items, PubDate, size, k);
      PageLength(items, size, k);
    }

    /**
     * The listing with `pageSize + 2` posts: page 1 holds the `pageSize`
     * newest posts, page 2 the two oldest.
     */
    lemma IndexTwoPages()
      requires 2 <= pageSize && |posts| == pageSize + 2
      ensures Index(Number(1)).items == OrderedPosts(posts)[..pageSize]
      ensures |Index(Number(1)).items| == pageSize
      ensures Index(Number(2)).items == OrderedPosts(posts)[pageSize..]
      ensures |Index(Number(2)).items| == 2
    {
      TwoMoreThanAPage(OrderedPosts(posts), pageSize);
    }

    /** `group_posts`: the posts of the group with this slug, newest first. */
    function GroupPosts(slug: string, arg: PageArg): (r: Result<GroupView>)
      reads this
      requires pageSize > 0
      ensures r == Err(NotFound) <==> forall g :: g in groups ==> g.slug != slug
      ensures r.Ok? <==> |Filter(groups, SlugIs(slug))| == 1
      ensures r == Err(MultipleObjectsReturned) <==> |Filter(groups, SlugIs(slug))| > 1
      ensures r.Ok? ==> r.value.group in groups && r.value.group.slug == slug
      ensures r.Ok? ==> r.value.page.count == |Filter(posts, InGroup(r.value.group.id))|
      ensures r.Ok? ==> forall p :: p in r.value.page.items ==> p in posts && p.group == Some(r.value.group.id)
      ensures r.Ok? ==> SortedDesc(r.value.page.items, PubDate)
      ensures r.Ok? ==> r.value.page.number < r.value.page.numPages ==> |r.value.page.items| == pageSize
      ensures r.Ok? ==> ServesPage(r.value.page, SelectedPosts(posts, InGroup(r.value.group.id)), pageSize, arg)
    {
      match Get(groups, SlugIs(slug))
      case DoesNotExist => Err(NotFound)
      case MultipleFound => Err(MultipleObjectsReturned)
      case Found(g) =>
        var items := SelectedPosts(posts, InGroup(g.id));
        ServedPage(items, pageSize, arg);
        Ok(GroupView(g, GetPageFromPaginator(items, pageSize, arg)))
    }

    /** The group listing with `pageSize + 2` posts in the group: a full page 1, then 2 posts. */
    lemma GroupPostsTwoPages(g: Group)
      requires Valid() && g in groups && 2 <= pageSize
      requires |Filter(posts, InGroup(g.id))| == pageSize + 2
      ensures GroupPosts(g.slug, Number(1)).Ok? && GroupPosts(g.slug, Number(2)).Ok?
      ensures var items := SelectedPosts(posts, InGroup(g.id));
        && GroupPosts(g.slug, Number(1)).value.page.items == items[..pageSize]
        && |GroupPosts(g.slug, Number(1)).value.page.items| == pageSize
        && GroupPosts(g.slug, Number(2)).value.page.items == items[pageSize..]
        && |GroupPosts(g.slug, Number(2)).value.page.items| == 2
    {
      ExistingRowsAreServed(None, "", g.slug, 0, Number(1));
      OnlyMatch(groups, SlugIs(g.slug), g, GroupPosts(g.slug, Number(1)).value.group);
      TwoMoreThanAPage(SelectedPosts(posts, InGroup(g.id)), pageSize);
    }

    /** The `following` flag of `profile` (`.exists()` of the pair's rows): false for an anonymous viewer. */
    function IsFollowing(viewer: Option<UserId>, author: UserId): (r: bool)
      reads this
      ensures r <==> viewer.Some? && exists f :: f in follows && f.user == viewer.value && f.author == author
    {
      if viewer.None? then false
      else
        var matches := Filter(follows, FollowPair(viewer.value, author));
        assert |matches| > 0 ==> matches[0] in matches;
        |matches| > 0
    }

    /** `profile`: the posts of the user with this username, newest first. */
    function Profile(viewer: Option<UserId>, username: string, arg: PageArg): (r: Result<ProfileView>)
      reads this
      requires pageSize > 0
      ensures r == Err(NotFound) <==> forall u :: u in users ==> u.username != username
      ensures r.Ok? <==> |Filter(users, UsernameIs(username))| == 1
      ensures r == Err(MultipleObjectsReturned) <==> |Filter(users, UsernameIs(username))| > 1
      ensures r.Ok? ==> r.value.author in users && r.value.author.username == username
      ensures r.Ok? ==> r.value.page.count == |Filter(posts, AuthoredBy(r.value.author.id))|
      ensures r.Ok? ==> forall p :: p in r.value.page.items ==> p in posts && p.author == r.value.author.id
      ensures r.Ok? ==> SortedDesc(r.value.page.items, PubDate)
      ensures r.Ok? ==> r.value.page.number < r.value.page.numPages ==> |r.value.page.items| == pageSize
      ensures r.Ok? ==> ServesPage(r.value.page, SelectedPosts(posts, AuthoredBy(r.value.author.id)), pageSize, arg)
      ensures r.Ok? ==> (r.value.following <==>
        viewer.Some? && exists f :: f in follows && f.user == viewer.value && f.author == r.value.author.id)
    {
      match Get(users, UsernameIs(username))
      case DoesNotExist => Err(NotFound)
      case MultipleFound => Err(MultipleObjectsReturned)
      case Found(u) =>
        var items := SelectedPosts(posts, AuthoredBy(u.id));
        ServedPage(items, pageSize, arg);
        Ok(ProfileView(u, IsFollowing(viewer, u.id), GetPageFromPaginator(items, pageSize, arg)))
    }

    /** The profile listing with `pageSize + 2` posts by the author: a full page 1, then 2 posts. */
    lemma ProfileTwoPages(viewer: Option<UserId>, u: User)
      requires Valid() && u in users && 2 <= pageSize
      requires |Filter(posts, AuthoredBy(u.id))| == pageSize + 2
      ensures Profile(viewer, u.username, Number(1)).Ok? && Profile(viewer, u.username, Number(2)).Ok?
      ensures var items := SelectedPosts(posts, AuthoredBy(u.id));
        && Profile(viewer, u.username, Number(1)).value.page.items == items[..pageSize]
        && |Profile(viewer, u.username, Number(1)).value.page.items| == pageSize
        && Profile(viewer, u.username, Number(2)).value.page.items == items[pageSize..]
        && |Profile(viewer, u.username, Number(2)).value.page.items| == 2
    {
      ExistingRowsAreServed(viewer, u.username, "", 0, Number(1));
      OnlyMatch(users, UsernameIs(u.username), u, Profile(viewer, u.username, Number(1)).value.author);
      TwoMoreThanAPage(SelectedPosts(posts, AuthoredBy(u.id)), pageSize);
    }

    /**
     * On a consistent store `group_posts`, `profile` and `post_detail` serve
     * their page exactly when the slug, username or id names a row.
     */
    lemma ExistingRowsAreServed(viewer: Option<UserId>, username: string, slug: string, id: PostId, arg: PageArg)
      requires Valid()
      ensures GroupPosts(slug, arg).Ok? <==> exists g :: g in groups && g.slug == slug
      ensures Profile(viewer, username, arg).Ok? <==> exists u :: u in users && u.username == username
      ensures PostDetail(id).Ok? <==> exists p :: p in posts && p.id == id
    {
      LookupIsNeverMultiple(users, groups, posts, comments, follows, nextId, username, slug, id);
    }

    /** `post_detail`: the post and its comments, newest first. */
    function PostDetail(id: PostId): (r: Result<DetailView>)
      reads this
      ensures r == Err(NotFound) <==> forall p :: p in posts ==> p.id != id
      ensures r.Ok? <==> |Filter(posts, PostIdIs(id))| == 1
      ensures r == Err(MultipleObjectsReturned) <==> |Filter(posts, PostIdIs(id))| > 1
      ensures r.Ok? ==> r.value.post in posts && r.value.post.id == id
      ensures r.Ok? ==> forall c :: c in r.value.comments <==> c in comments && c.post == id
      ensures r.Ok? ==> r.value.comments == CommentsOn(comments, id)
      ensures r.Ok? ==> SortedDesc(r.value.comments, Created)
    {
      match Get(posts, PostIdIs(id))
      case DoesNotExist => Err(NotFound)
      case MultipleFound => Err(MultipleObjectsReturned)
      case Found(p) => Ok(DetailView(p, CommentsOn(comments, id)))
    }

    /**
     * The loop of `follow_index`: append each row's author's posts to
     * `followed_posts`, then sort the list by date, newest first.
     */
    method MergeFeed(rows: seq<Follow>) returns (feed: seq<Post>)
      ensures feed == FeedOf(rows, posts)
    {
      var merged: seq<Post> := [];
      var i := 0;
      while i < |rows|
        invariant 0 <= i <= |rows|
        invariant merged == FanOut(rows[..i], posts)
      {
        merged := merged + AuthorPosts(posts, rows[i].author);
        i := i + 1;
        assert rows[..i][..i - 1] == rows[..i - 1];
      }
      assert rows[..|rows|] == rows;
      feed := SortDesc(merged, PubDate);
    }

    /**
     * `follow_index` as written: the rows come from `request.user.following`,
     * i.e. those whose author is the viewer, so the page shows the viewer's
     * own posts, and nothing when nobody follows the viewer.
     */
    method FollowIndex(viewer: User, arg: PageArg) returns (page: Page<Post>)
      requires pageSize > 0
      ensures page == GetPageFromPaginator(FeedOf(FollowingRows(follows, viewer.id), posts), pageSize, arg)
      ensures ServesPage(page, FeedOf(FollowingRows(follows, viewer.id), posts), pageSize, arg)
      ensures page.count == |FanOut(FollowingRows(follows, viewer.id), posts)|
      ensures 1 <= page.number <= page.numPages
      ensures forall p :: p in page.items ==> p in posts && p.author == viewer.id
      ensures SortedDesc(page.items, PubDate)
      ensures (forall f :: f in follows ==> f.author != viewer.id) ==> page.items == []
    {
      var rows := FollowingRows(follows, viewer.id);
      var feed := MergeFeed(rows);
      FeedPage(rows, posts, pageSize, arg);
      forall p | p in feed ensures p in posts && p.author == viewer.id {
        AsWrittenFeedIsOwnPosts(follows, posts, viewer.id, p);
      }
      PageItemsFromList(feed, pageSize, PageNumber(|feed|, pageSize, arg));
      page := GetPageFromPaginator(feed, pageSize, arg);
      if forall f :: f in follows ==> f.author != viewer.id {
        assert rows == [];
      }
    }

    /**
     * `follow_index` reading the rows the docstring means,
     * `request.user.follower`: the page shows posts of the authors the viewer
     * follows, and only those.
     */
    method FollowIndexIntended(viewer: User, arg: PageArg) returns (page: Page<Post>)
      requires pageSize > 0
      ensures page == GetPageFromPaginator(FeedOf(FollowerRows(follows, viewer.id), posts), pageSize, arg)
      ensures ServesPage(page, FeedOf(FollowerRows(follows, viewer.id), posts), pageSize, arg)
      ensures page.count == |FanOut(FollowerRows(follows, viewer.id), posts)|
      ensures 1 <= page.number <= page.numPages
      ensures forall p :: p in page.items ==>
        p in posts && exists f :: f in follows && f.user == viewer.id && f.author == p.author
      ensures SortedDesc(page.items, PubDate)
      ensures (forall f :: f in follows ==> f.user != viewer.id) ==> page.items == []
    {
      var rows := FollowerRows(follows, viewer.id);
      var feed := MergeFeed(rows);
      FeedPage(rows, posts, pageSize, arg);
      FollowedPostsPage(follows, posts, viewer.id, pageSize, arg);
      page := GetPageFromPaginator(feed, pageSize, arg);
      if forall f :: f in follows ==> f.user != viewer.id {
        assert rows == [];
      }
    }

    /** A page of the feed counts the merged posts and is ordered newest first. */
    static lemma FeedPage(rows: seq<Follow>, posts: seq<Post>, size: nat, arg: PageArg)
      requires size > 0
      ensures var page := GetPageFromPaginator(FeedOf(rows, posts), size, arg);
        && page.count == |FanOut(rows, posts)|
        && SortedDesc(page.items, PubDate)
    {
      var feed := FanOut(rows, posts);
      SortDescSorted(feed, PubDate);
      PageSorted(FeedOf(rows, posts), PubDate, size, PageNumber(|feed|, size, arg));
    }

    /** A page of the intended feed shows only posts of authors the viewer follows. */
    static lemma FollowedPostsPage(follows: seq<Follow>, posts: seq<Post>, viewer: UserId, size: nat, arg: PageArg)
      requires size > 0
      ensures var page := GetPageFromPaginator(FeedOf(FollowerRows(follows, viewer), posts), size, arg);
        forall p :: p in page.items ==>
          p in posts && exists f :: f in follows && f.user == viewer && f.author == p.author
    {
      var feed := FeedOf(FollowerRows(follows, viewer), posts);
      PageItemsFromList(feed, size, PageNumber(|feed|, size, arg));
      forall p | p in feed
        ensures p in posts && exists f :: f in follows && f.user == viewer && f.author == p.author
      {
        IntendedFeedIsFollowedPosts(follows, posts, viewer, p);
      }
    }

    // ---- Handlers that write ----

    /** `post_create`. */
    method PostCreate(requester: User, form: Option<PostForm>, now: int) returns (resp: Response)
      requires Valid() && requester in users
      modifies this
      ensures Valid()
      ensures users == old(users) && groups == old(groups) && comments == old(comments) && follows == old(follows)
      ensures old(ValidPostForm(form)) ==>
        && posts == old(posts) + [Post(old(nextId), form.value.text, now, requester.id, form.value.group,
                                       if form.value.image.Some? then form.value.image.value else "")]
        && nextId == old(nextId) + 1
        && resp == Redirected(ToProfile(requester.username))
      ensures !old(ValidPostForm(form)) ==> posts == old(posts) && nextId == old(nextId) && resp == FormShown
    {
      if ValidPostForm(form) {
        var f := form.value;
        var p := Post(nextId, f.text, now, requester.id, f.group, if f.image.Some? then f.image.value else "");
        assert UserExists(users, requester.id);
        InsertPost(users, groups, posts, comments, follows, nextId, p);
        posts := posts + [p];
        nextId := nextId + 1;
        resp := Redirected(ToProfile(requester.username));
      } else {
        resp := FormShown;
      }
    }

    /** `post_edit`. */
    method PostEdit(requester: User, id: PostId, form: Option<PostForm>) returns (resp: Response)
      requires Valid() && requester in users
      modifies this
      ensures Valid()
      ensures users == old(users) && groups == old(groups) && comments == old(comments) && follows == old(follows)
      ensures nextId == old(nextId)
      ensures var q := Get(old(posts), PostIdIs(id));
        && (q.DoesNotExist? ==> resp == Failed(NotFound) && posts == old(posts))
        && (q.MultipleFound? ==> resp == Failed(MultipleObjectsReturned) && posts == old(posts))
        && (q.Found? && q.value.author != requester.id ==>
              resp == Redirected(ToPostDetail(id)) && posts == old(posts))
        && (q.Found? && q.value.author == requester.id && !old(ValidPostForm(form)) ==>
              resp == FormShown && posts == old(posts))
        && (q.Found? && q.value.author == requester.id && old(ValidPostForm(form)) ==>
              resp == Redirected(ToPostDetail(id)) && posts == ReplacePost(old(posts), Edited(q.value, form.value)))
      // No post is added or removed; ids, authors and dates stay; only the post `id` may change.
      ensures |posts| == |old(posts)|
      ensures forall i :: 0 <= i < |posts| ==>
        posts[i].id == old(posts)[i].id && posts[i].author == old(posts)[i].author
        && posts[i].pubDate == old(posts)[i].pubDate
      ensures forall i :: 0 <= i < |posts| && posts[i].id != id ==> posts[i] == old(posts)[i]
    {
      match Get(posts, PostIdIs(id))
      case DoesNotExist =>
        resp := Failed(NotFound);
      case MultipleFound =>
        resp := Failed(MultipleObjectsReturned);
      case Found(p) =>
        if requester.id != p.author {
          resp := Redirected(ToPostDetail(id));
        } else if ValidPostForm(form) {
          var e := Edited(p, form.value);
          assert UserExists(users, requester.id) && PostExists(posts, e.id);
          UpdatePost(users, groups, posts, comments, follows, nextId, e);
          EditKeepsRows(posts, p, form.value);
          posts := ReplacePost(posts, e);
          resp := Redirected(ToPostDetail(id));
        } else {
          resp := FormShown;
        }
    }

    /** `add_comment`: the form is checked first; the post is looked up only for a valid one. */
    method AddComment(requester: User, id: PostId, form: Option<CommentForm>, now: int) returns (resp: Response)
      requires Valid() && requester in users
      modifies this
      ensures Valid()
      ensures users == old(users) && groups == old(groups) && posts == old(posts) && follows == old(follows)
      ensures !ValidCommentForm(form) ==>
        resp == Redirected(ToPostDetail(id)) && comments == old(comments) && nextId == old(nextId)
      ensures ValidCommentForm(form) ==>
        var q := Get(old(posts), PostIdIs(id));
        && (q.DoesNotExist? ==> resp == Failed(NotFound) && comments == old(comments) && nextId == old(nextId))
        && (q.MultipleFound? ==>
              resp == Failed(MultipleObjectsReturned) && comments == old(comments) && nextId == old(nextId))
        && (q.Found? ==>
              && resp == Redirected(ToPostDetail(id))
              && comments == old(comments) + [Comment(old(nextId), id, requester.id, form.value.text, now)]
              && nextId == old(nextId) + 1
              && |Filter(comments, OnPost(id))| == |Filter(old(comments), OnPost(id))| + 1)
    {
      resp := Redirected(ToPostDetail(id));
      if ValidCommentForm(form) {
        match Get(posts, PostIdIs(id))
        case DoesNotExist =>
          resp := Failed(NotFound);
        case MultipleFound =>
          resp := Failed(MultipleObjectsReturned);
        case Found(p) =>
          var c := Comment(nextId, id, requester.id, form.value.text, now);
          assert UserExists(users, requester.id) && PostExists(posts, id);
          InsertComment(users, groups, posts, comments, follows, nextId, c);
          FilterConcat(comments, [c], OnPost(id));
          comments := comments + [c];
          nextId := nextId + 1;
      }
    }

    /** `profile_follow`: `get_or_create` of the (requester, author) row. */
    method ProfileFollow(requester: User, username: string) returns (resp: Response)
      requires Valid() && requester in users
      modifies this
      ensures Valid()
      ensures users == old(users) && groups == old(groups) && posts == old(posts) && comments == old(comments)
      ensures var u := Get(users, UsernameIs(username));
        && (u.DoesNotExist? ==> resp == Failed(NotFound) && follows == old(follows) && nextId == old(nextId))
        && (u.MultipleFound? ==>
              resp == Failed(MultipleObjectsReturned) && follows == old(follows) && nextId == old(nextId))
        && (u.Found? ==>
              var q := Get(old(follows), FollowPair(requester.id, u.value.id));
              && (q.DoesNotExist? ==>
                    resp == Redirected(ToProfile(username))
                    && follows == old(follows) + [Follow(old(nextId), u.value.id, requester.id)]
                    && nextId == old(nextId) + 1)
              && (q.Found? ==>
                    resp == Redirected(ToProfile(username)) && follows == old(follows) && nextId == old(nextId))
              && (q.MultipleFound? ==>
                    resp == Failed(MultipleObjectsReturned) && follows == old(follows) && nextId == old(nextId))
              && (resp.Redirected? ==> IsFollowing(Some(requester.id), u.value.id)))
      ensures old(FollowPairsUnique()) ==> FollowPairsUnique()
    {
      match Get(users, UsernameIs(username))
      case DoesNotExist =>
        resp := Failed(NotFound);
      case MultipleFound =>
        resp := Failed(MultipleObjectsReturned);
      case Found(author) =>
        match Get(follows, FollowPair(requester.id, author.id))
        case Found(_) =>
          resp := Redirected(ToProfile(username));
        case MultipleFound =>
          resp := Failed(MultipleObjectsReturned);
        case DoesNotExist =>
          var f := Follow(nextId, author.id, requester.id);
          assert UserExists(users, requester.id) && UserExists(users, author.id);
          InsertFollow(users, groups, posts, comments, follows, nextId, f);
          if FollowPairsUnique() {
            AppendDistinct(follows, f, FollowEdge);
          }
          follows := follows + [f];
          assert f in follows;
          nextId := nextId + 1;
          resp := Redirected(ToProfile(username));
    }

    /**
     * Following the same author twice: the second request finds the row the
     * first one made and writes nothing.
     */
    method FollowTwice(requester: User, username: string) returns (first: Response, second: Response)
      requires Valid() && requester in users && FollowPairsUnique()
      modifies this
      ensures Valid() && FollowPairsUnique()
      ensures first == second
      ensures var u := Get(users, UsernameIs(username));
        u.Found? ==> |Filter(follows, FollowPair(requester.id, u.value.id))| == 1
                     && |follows| <= |old(follows)| + 1
                     && Filter(follows, NotFollowPair(requester.id, u.value.id))
                        == Filter(old(follows), NotFollowPair(requester.id, u.value.id))
    {
      var before := follows;
      first := ProfileFollow(requester, username);
      var between := follows;
      second := ProfileFollow(requester, username);
      var u := Get(users, UsernameIs(username));
      if u.Found? {
        var pair := FollowPair(requester.id, u.value.id);
        var other := NotFollowPair(requester.id, u.value.id);
        PairLookupIsNeverMultiple(before, requester.id, u.value.id);
        if Get(before, pair).DoesNotExist? {
          var f := Follow(old(nextId), u.value.id, requester.id);
          assert between == before + [f];
          FilterConcat(before, [f], pair);
          FilterConcat(before, [f], other);
          assert Filter([f], pair) == [f];
          assert Filter([f], other) == [];
          assert Filter(before, pair) == [];
        }
        assert |Filter(between, pair)| == 1;
      }
    }

    /** Following an author one does not follow, then unfollowing, leaves the follow table as it was. */
    method FollowThenUnfollowRequests(requester: User, username: string) returns (first: Response, second: Response)
      requires Valid() && requester in users
      requires Get(users, UsernameIs(username)).Found?
      requires !IsFollowing(Some(requester.id), Get(users, UsernameIs(username)).value.id)
      modifies this
      ensures Valid()
      ensures first == second == Redirected(ToProfile(username))
      ensures follows == old(follows)
      ensures users == old(users) && groups == old(groups) && posts == old(posts) && comments == old(comments)
    {
      var before := follows;
      var author := Get(users, UsernameIs(username)).value;
      first := ProfileFollow(requester, username);
      var f := Follow(old(nextId), author.id, requester.id);
      var pair := FollowPair(requester.id, author.id);
      assert follows == before + [f];
      FilterConcat(before, [f], pair);
      assert Filter([f], pair) == [f];
      assert Filter(before, pair) == [];
      second := ProfileUnfollow(requester, username);
      FollowThenUnfollow(before, f);
    }

    /** `profile_unfollow`: delete the (requester, author) row. */
    method ProfileUnfollow(requester: User, username: string) returns (resp: Response)
      requires Valid() && requester in users
      modifies this
      ensures Valid()
      ensures users == old(users) && groups == old(groups) && posts == old(posts) && comments == old(comments)
      ensures nextId == old(nextId)
      ensures var u := Get(users, UsernameIs(username));
        && (u.DoesNotExist? ==> resp == Failed(NotFound) && follows == old(follows))
        && (u.MultipleFound? ==> resp == Failed(MultipleObjectsReturned) && follows == old(follows))
        && (u.Found? ==>
              var q := Get(old(follows), FollowPair(requester.id, u.value.id));
              && (q.DoesNotExist? ==> resp == Failed(NotFound) && follows == old(follows))
              && (q.MultipleFound? ==> resp == Failed(MultipleObjectsReturned) && follows == old(follows))
              && (q.Found? ==>
                    && resp == Redirected(ToProfile(username))
                    && follows == Filter(old(follows), NotFollowPair(requester.id, u.value.id))
                    && |follows| == |old(follows)| - 1
                    && !IsFollowing(Some(requester.id), u.value.id)))
      ensures old(FollowPairsUnique()) ==> FollowPairsUnique()
    {
      match Get(users, UsernameIs(username))
      case DoesNotExist =>
        resp := Failed(NotFound);
      case MultipleFound =>
        resp := Failed(MultipleObjectsReturned);
      case Found(author) =>
        match Get(follows, FollowPair(requester.id, author.id))
        case DoesNotExist =>
          resp := Failed(NotFound);
        case MultipleFound =>
          resp := Failed(MultipleObjectsReturned);
        case Found(f) =>
          OnlyRowOfPair(follows, f, requester.id, author.id);
          FilterAgree(follows, FollowIdIsNot(f.id), NotFollowPair(requester.id, author.id));
          FilterSplit(follows, FollowPair(requester.id, author.id), NotFollowPair(requester.id, author.id));
          DeleteFollowRows(users, groups, posts, comments, follows, nextId, FollowIdIsNot(f.id));
          if FollowPairsUnique() {
            FilterDistinct(follows, FollowIdIsNot(f.id), FollowEdge);
          }
          follows := Filter(follows, FollowIdIsNot(f.id));
          resp := Redirected(ToProfile(username));
    }

    /**
     * `follow.delete()` removes the row by its key; on a table with unique
     * keys that is the same as removing the only row of the pair.
     */
    static lemma OnlyRowOfPair(s: seq<Follow>, f: Follow, user: UserId, author: UserId)
      requires Distinct(s, FollowKey)
      requires f in s && f.user == user && f.author == author
      requires |Filter(s, FollowPair(user, author))| == 1
      ensures forall x :: x in s ==> FollowIdIsNot(f.id)(x) == NotFollowPair(user, author)(x)
    {
      var m := Filter(s, FollowPair(user, author));
      assert f in m;
      forall x | x in s ensures FollowIdIsNot(f.id)(x) == NotFollowPair(user, author)(x) {
        if x.user == user && x.author == author {
          assert x in m && m[0] == f && m[0] == x;
        }
        if x.id == f.id {
          var i :| 0 <= i < |s| && s[i] == x;
          var j :| 0 <= j < |s| && s[j] == f;
          assert i == j;
        }
      }
    }

    // ---- Delete rules of the foreign keys ----

    /** Deleting a group: `on_delete=SET_NULL` on `Post.group`. */
    method DeleteGroup(g: GroupId)
      requires Valid()
      modifies this
      ensures Valid()
      ensures groups == Filter(old(groups), GroupIdIsNot(g))
      ensures posts == ClearGroup(old(posts), g)
      ensures users == old(users) && comments == old(comments) && follows == old(follows) && nextId == old(nextId)
    {
      DeleteGroupRows(users, groups, posts, comments, follows, nextId, g);
      groups := Filter(groups, GroupIdIsNot(g));
      posts := ClearGroup(posts, g);
    }

    /** Deleting a post: `on_delete=CASCADE` on `Comment.post`. */
    method DeletePost(id: PostId)
      requires Valid()
      modifies this
      ensures Valid()
      ensures posts == Filter(old(posts), PostIdIsNot(id))
      ensures comments == Filter(old(comments), NotOnPost(id))
      ensures users == old(users) && groups == old(groups) && follows == old(follows) && nextId == old(nextId)
    {
      DeletePostRows(users, groups, posts, comments, follows, nextId, id);
      posts := Filter(posts, PostIdIsNot(id));
      comments := Filter(comments, NotOnPost(id));
    }

    /**
     * Deleting a user: `on_delete=CASCADE` on `Post.author`, `Comment.author`,
     * `Follow.user` and `Follow.author`, and through the deleted posts on
     * `Comment.post`.
     */
    method DeleteUser(u: UserId)
      requires Valid()
      modifies this
      ensures Valid()
      ensures users == Filter(old(users), UserIdIsNot(u))
      ensures posts == Filter(old(posts), NotAuthoredBy(u))
      ensures comments == Filter(old(comments), SurvivesUser(u, set p | p in old(posts) && p.author == u :: p.id))
      ensures follows == Filter(old(follows), NotTouching(u))
      ensures groups == old(groups) && nextId == old(nextId)
    {
      var gone := set p | p in posts && p.author == u :: p.id;
      DeleteUserRows(users, groups, posts, comments, follows, nextId, u, gone);
      users := Filter(users, UserIdIsNot(u));
      posts := Filter(posts, NotAuthoredBy(u));
      comments := Filter(comments, SurvivesUser(u, gone));
      follows := Filter(follows, NotTouching(u));
    }

    // ---- Rows created outside the views ----

    /** A user registered through the identity provider; usernames are unique. */
    method AddUser(username: string) returns (r: Result<User>)
      requires Valid()
      modifies this
      ensures Valid()
      ensures groups == old(groups) && posts == old(posts) && comments == old(comments) && follows == old(follows)
      ensures (exists x :: x in old(users) && x.username == username) ==>
        r == Err(IntegrityError) && users == old(users) && nextId == old(nextId)
      ensures (forall x :: x in old(users) ==> x.username != username) ==>
        r == Ok(User(old(nextId), username)) && users == old(users) + [r.value] && nextId == old(nextId) + 1
    {
      if exists x :: x in users && x.username == username {
        r := Err(IntegrityError);
      } else {
        var x := User(nextId, username);
        InsertUser(users, groups, posts, comments, follows, nextId, x);
        users := users + [x];
        nextId := nextId + 1;
        r := Ok(x);
      }
    }

    /** A group created by an administrator; `slug` is a unique column. */
    method AddGroup(title: string, slug: string, description: string) returns (r: Result<Group>)
      requires Valid()
      modifies this
      ensures Valid()
      ensures users == old(users) && posts == old(posts) && comments == old(comments) && follows == old(follows)
      ensures (exists x :: x in old(groups) && x.slug == slug) ==>
        r == Err(IntegrityError) && groups == old(groups) && nextId == old(nextId)
      ensures (forall x :: x in old(groups) ==> x.slug != slug) ==>
        r == Ok(Group(old(nextId), title, slug, description)) && groups == old(groups) + [r.value]
        && nextId == old(nextId) + 1
    {
      if exists x :: x in groups && x.slug == slug {
        r := Err(IntegrityError);
      } else {
        var x := Group(nextId, title, slug, description);
        InsertGroup(users, groups, posts, comments, follows, nextId, x);
        groups := groups + [x];
        nextId := nextId + 1;
        r := Ok(x);
      }
    }
  }
}
