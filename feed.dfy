/**
 * The "followed authors" feed of `follow_index`: for each Follow row taken
 * from the viewer, that row's author's posts (newest first, the related
 * manager's default ordering) are appended to one list, which is then
 * stable-sorted by publication date, newest first.
 *
 * The view reads the rows through `request.user.following`. `following` is
 * the related name of `Follow.author`, so these are the rows whose AUTHOR
 * is the viewer (`FollowingRows`), and each row's author is the viewer
 * again. The rows the docstring means are those whose USER is the viewer,
 * reached through `Follow.user`'s related name `follower` (`FollowerRows`).
 */
module Feed {
  import opened Seqs
  import opened Models

  /** `request.user.following.all()`: the rows whose author is the viewer. */
  function FollowingRows(follows: seq<Follow>, viewer: UserId): (r: seq<Follow>)
    ensures forall f :: f in r <==> f in follows && f.author == viewer
  {
    Filter(follows, AuthorIs(viewer))
  }

  /** `request.user.follower.all()`: the rows whose follower is the viewer. */
  function FollowerRows(follows: seq<Follow>, viewer: UserId): (r: seq<Follow>)
    ensures forall f :: f in r <==> f in follows && f.user == viewer
  {
    Filter(follows, UserIs(viewer))
  }

  /** `follow.author.posts.all()`. */
  function AuthorPosts(posts: seq<Post>, author: UserId): (r: seq<Post>)
    ensures forall p :: p in r <==> p in posts && p.author == author
  {
    SelectedPosts(posts, AuthoredBy(author))
  }

  /** `followed_posts` after the loop: the per-row lists, concatenated in row order. */
  function FanOut(rows: seq<Follow>, posts: seq<Post>): (r: seq<Post>)
    ensures forall p :: p in r ==> p in posts
    ensures rows == [] ==> r == []
  {
    if rows == [] then []
    else FanOut(rows[..|rows| - 1], posts) + AuthorPosts(posts, rows[|rows| - 1].author)
  }

  /** `followed_posts` after `sort(key=pub_date, reverse=True)`: the merged posts, reordered. */
  function FeedOf(rows: seq<Follow>, posts: seq<Post>): (r: seq<Post>)
    ensures multiset(r) == multiset(FanOut(rows, posts)) && |r| == |FanOut(rows, posts)|
  {
    SortDesc(FanOut(rows, posts), PubDate)
  }

  /** A post is in the merged list exactly when one of the rows names its author. */
  lemma {:induction false} FanOutMembers(rows: seq<Follow>, posts: seq<Post>, p: Post)
    ensures p in FanOut(rows, posts) <==>
      p in posts && exists j :: 0 <= j < |rows| && rows[j].author == p.author
  {
    if rows != [] {
      var init := rows[..|rows| - 1];
      FanOutMembers(init, posts, p);
      if exists j :: 0 <= j < |init| && init[j].author == p.author {
        var j :| 0 <= j < |init| && init[j].author == p.author;
        assert rows[j] == init[j];
      }
      if exists j :: 0 <= j < |rows| && rows[j].author == p.author {
        var j :| 0 <= j < |rows| && rows[j].author == p.author;
        if j < |rows| - 1 {
          assert init[j] == rows[j];
        }
      }
    }
  }

  /**
   * The feed is ordered newest first, is a permutation of the merged list,
   * and keeps the merged list's order among posts of equal date.
   */
  lemma FeedOrdered(rows: seq<Follow>, posts: seq<Post>)
    ensures SortedDesc(FeedOf(rows, posts), PubDate)
    ensures multiset(FeedOf(rows, posts)) == multiset(FanOut(rows, posts))
    ensures forall d :: Filter(FeedOf(rows, posts), HasKey(PubDate, d))
                     == Filter(FanOut(rows, posts), HasKey(PubDate, d))
  {
    SortDescSorted(FanOut(rows, posts), PubDate);
    forall d ensures Filter(FeedOf(rows, posts), HasKey(PubDate, d))
                  == Filter(FanOut(rows, posts), HasKey(PubDate, d)) {
      SortDescStable(FanOut(rows, posts), PubDate, d);
    }
  }

  lemma FeedMembers(rows: seq<Follow>, posts: seq<Post>, p: Post)
    ensures p in FeedOf(rows, posts) <==>
      p in posts && exists j :: 0 <= j < |rows| && rows[j].author == p.author
  {
    FanOutMembers(rows, posts, p);
    assert p in FeedOf(rows, posts) <==> p in multiset(FeedOf(rows, posts));
    assert p in FanOut(rows, posts) <==> p in multiset(FanOut(rows, posts));
  }

  /** No rows, no feed. */
  lemma NoRowsNoFeed(rows: seq<Follow>, posts: seq<Post>)
    requires rows == []
    ensures FeedOf(rows, posts) == []
  {
  }

  /**
   * As written, the feed holds only the viewer's own posts, and only when
   * somebody follows the viewer: exactly the viewer's posts in that case.
   */
  lemma AsWrittenFeedIsOwnPosts(follows: seq<Follow>, posts: seq<Post>, viewer: UserId, p: Post)
    ensures p in FeedOf(FollowingRows(follows, viewer), posts) <==>
      p in posts && p.author == viewer && exists f :: f in follows && f.author == viewer
  {
    var rows := FollowingRows(follows, viewer);
    FeedMembers(rows, posts, p);
    if exists f :: f in follows && f.author == viewer {
      var f :| f in follows && f.author == viewer;
      assert f in rows;
      var j :| 0 <= j < |rows| && rows[j] == f;
    }
    if exists j :: 0 <= j < |rows| && rows[j].author == p.author {
      var j :| 0 <= j < |rows| && rows[j].author == p.author;
      assert rows[j] in rows;
    }
  }

  /**
   * The feed the view is documented to show: exactly the posts whose author
   * the viewer follows.
   */
  lemma IntendedFeedIsFollowedPosts(follows: seq<Follow>, posts: seq<Post>, viewer: UserId, p: Post)
    ensures p in FeedOf(FollowerRows(follows, viewer), posts) <==>
      p in posts && exists f :: f in follows && f.user == viewer && f.author == p.author
  {
    var rows := FollowerRows(follows, viewer);
    FeedMembers(rows, posts, p);
    if exists f :: f in follows && f.user == viewer && f.author == p.author {
      var f :| f in follows && f.user == viewer && f.author == p.author;
      assert f in rows;
      var j :| 0 <= j < |rows| && rows[j] == f;
    }
    if exists j :: 0 <= j < |rows| && rows[j].author == p.author {
      var j :| 0 <= j < |rows| && rows[j].author == p.author;
      assert rows[j] in rows;
    }
  }

  /**
   * The situation of the follow test: user 2 follows user 1, who has one
   * post. The view as written shows user 2 nothing; the intended feed shows
   * the post.
   */
  lemma FollowDirectionCounterexample()
    ensures var follows := [Follow(1, 1, 2)];
            var posts := [Post(10, "text", 0, 1, None, "")];
            FeedOf(FollowingRows(follows, 2), posts) == [] &&
            FeedOf(FollowerRows(follows, 2), posts) == posts
  {
    var follows := [Follow(1, 1, 2)];
    var posts := [Post(10, "text", 0, 1, None, "")];
    assert FollowingRows(follows, 2) == [];
    assert FollowerRows(follows, 2) == follows;
    var own := AuthorPosts(posts, 1);
    assert posts[0] in own;
    assert |own| == 1 by {
      assert Filter(posts, AuthoredBy(1)) == posts;
    }
    assert own == posts;
    assert FanOut(follows, posts) == FanOut([], posts) + own;
  }

  /**
   * Two followed authors: A with posts at t1 and t3, B with one at t2,
   * t1 > t2 > t3. The intended feed lists them t1, t2, t3.
   */
  lemma TwoAuthorsInterleave(a: Post, b: Post, c: Post, viewer: UserId)
    requires a.author == c.author != b.author
    requires a.pubDate > b.pubDate > c.pubDate
    ensures var follows := [Follow(1, a.author, viewer), Follow(2, b.author, viewer)];
            FeedOf(FollowerRows(follows, viewer), [a, b, c]) == [a, b, c]
  {
    var posts := [a, b, c];
    var follows := [Follow(1, a.author, viewer), Follow(2, b.author, viewer)];
    FilterAll(follows, UserIs(viewer));
    FanOutOfTwo(a, b, c, follows[0], follows[1]);
    SortThree(a, b, c);
  }

  lemma FanOutOfTwo(a: Post, b: Post, c: Post, f: Follow, g: Follow)
    requires a.author == c.author != b.author
    requires a.pubDate > c.pubDate
    requires f.author == a.author && g.author == b.author
    ensures FanOut([f, g], [a, b, c]) == [a, c, b]
  {
    var posts := [a, b, c];
    SelectionOfTwoAuthors(a, b, c);
    assert [f][..0] == [];
    assert FanOut([f], posts) == FanOut([], posts) + AuthorPosts(posts, a.author);
    assert [f, g][..1] == [f];
    assert FanOut([f, g], posts) == FanOut([f], posts) + AuthorPosts(posts, b.author);
  }

  lemma SortThree(a: Post, b: Post, c: Post)
    requires a.pubDate > b.pubDate > c.pubDate
    ensures SortDesc([a, c, b], PubDate) == [a, b, c]
  {
    assert [a, c, b][1..] == [c, b] && [c, b][1..] == [b] && [b][1..] == [];
    assert SortDesc([b], PubDate) == [b];
    assert Insert(c, [], PubDate) == [c];
    assert Insert(c, [b], PubDate) == [b, c];
    assert SortDesc([c, b], PubDate) == [b, c];
    assert Insert(a, [b, c], PubDate) == [a, b, c];
  }

  lemma SelectionOfTwoAuthors(a: Post, b: Post, c: Post)
    requires a.author == c.author != b.author
    requires a.pubDate > c.pubDate
    ensures AuthorPosts([a, b, c], a.author) == [a, c]
    ensures AuthorPosts([a, b, c], b.author) == [b]
  {
    FilterOfThree(a, b, c);
    SortedPairStays(a, c);
    assert SortDesc([b], PubDate) == [b] by {
      assert [b][1..] == [];
    }
  }

  lemma FilterOfThree(a: Post, b: Post, c: Post)
    requires a.author == c.author != b.author
    ensures Filter([a, b, c], AuthoredBy(a.author)) == [a, c]
    ensures Filter([a, b, c], AuthoredBy(b.author)) == [b]
  {
    assert [a, b, c] == [a] + ([b] + ([c] + []));
    FilterCons(c, [], AuthoredBy(a.author));
    FilterCons(b, [c], AuthoredBy(a.author));
    FilterCons(a, [b, c], AuthoredBy(a.author));
    FilterCons(c, [], AuthoredBy(b.author));
    FilterCons(b, [c], AuthoredBy(b.author));
    FilterCons(a, [b, c], AuthoredBy(b.author));
  }

  lemma SortedPairStays(x: Post, y: Post)
    requires x.pubDate >= y.pubDate
    ensures SortDesc([x, y], PubDate) == [x, y]
  {
    assert [x, y][1..] == [y] && [y][1..] == [];
    assert SortDesc([y], PubDate) == [y];
  }
}
