# Yatube posts: a verified model of the store and its request handlers

Yatube is a small blogging site. Users write posts, optionally filed under a
group. They comment on posts and follow other authors. The `posts`
application keeps four tables: `Group`, `Post`, `Comment` and `Follow`. The
user table comes from the identity provider.

This project models that application in Dafny:

- **The records** and their foreign keys' delete rules: cascade and set-null.
- **Default orderings**: newest first, by `pub_date` for posts and by `created` for comments.
- **Unique columns** and the two `__str__` projections.
- **Every request handler** of `posts/views.py`.

The database is replaced by one class, `Views.Store`, holding the five tables
as sequences in insertion order, plus one primary-key counter. Handlers that
write are methods of the class that modify it. The read-only handlers
`index`, `group_posts`, `profile` and `post_detail` are functions that read
it. `follow_index` reads too, but it builds its list in a loop over the
Follow rows, so it is a method (`FollowIndex`, `FollowIndexIntended`) built
on the loop `MergeFeed`; it changes nothing.

Files:

- `seqs.dfy` (`Seqs`) holds the sequence machinery:
  - filtering a table by a row predicate;
  - the stable newest-first sort, with proofs that it orders, permutes and keeps ties in order;
  - unique columns;
  - `Get`, the single-row lookup behind `get()`, `get_object_or_404` and `get_or_create`.
- `paginator.dfy` (`Paginator`) holds fixed-size pages and `get_page_from_paginator`. It covers:
  - how `Paginator.get_page` chooses the page number;
  - page-as-slice, page lengths, and that the pages together cover the list;
  - the order of items across pages.
- `models.dfy` (`Models`) holds:
  - the records and the string projections;
  - the orderings;
  - the row selectors that queries filter by;
  - the two whole-table updates: set-null of a group, and writing an edited post.
- `tables.dfy` (`Tables`) holds the integrity the database keeps:
  - unique keys, usernames and slugs;
  - keys drawn from the counter;
  - every foreign key naming a row.

  It also has one lemma per kind of write, showing that the write keeps this integrity.
- `feed.dfy` (`Feed`) holds the fan-out merge and sort of `follow_index`. It proves membership, order and stability, in both the as-written and the intended Follow direction.
- `views.dfy` (`Views`) holds the `Store` class and the handlers.

Conventions:

- **Lookups.** An absent row stands for `Http404`: it is `Err(NotFound)` in the read-only handlers, which return a `Result`, and `Failed(NotFound)` in the writing handlers, which return a `Response`. More than one match is `Err(MultipleObjectsReturned)` or `Failed(MultipleObjectsReturned)` in the same way.
- **Responses.**
  - A redirect is a tag: `ToProfile(username)` or `ToPostDetail(id)`.
  - A form page rendered again is `FormShown`.
  - Other rendered pages are the values the handler puts in its template context.
- **Forms.** A form is `None` for a GET, or for an empty POST (`request.POST or None`). It is `Some(fields)` for a submitted one.

## Model

| member | source | states |
|---|---|---|
| Seqs.Filter | yatube/posts/views.py:29 | the rows of a queryset filter are exactly the table rows satisfying the predicate, in table order |
| Seqs.Get | yatube/posts/views.py:28 | `get_object_or_404`/`get()`: DoesNotExist exactly when no row matches; a single row is returned exactly when exactly one matches, and it is a matching table row; otherwise MultipleObjectsReturned |
| Seqs.SortDesc | yatube/posts/views.py:128 | the sort returns a permutation (same length, same multiset) of its input |
| Seqs.SortDescSorted | yatube/posts/views.py:128 | the result is ordered by key, largest first |
| Seqs.SortDescStable | yatube/posts/views.py:128 | among elements of equal key the input order is kept (Python's sort is stable) |
| Seqs.FilterDistinct | yatube/posts/models.py:12 | deleting rows keeps a unique column unique |
| Seqs.AtMostOneMatch | yatube/posts/models.py:12 | on a unique column a filter fixing its value selects at most one row |
| Paginator.NumPages | yatube/posts/views.py:15 | at least one page; the pages hold every item and the last one is not empty unless the list is; at most one page's worth of items (in particular none) makes exactly one page |
| Paginator.PageNumber | yatube/posts/views.py:14-16 | `get_page` serves a page in range for every parameter: page 1 for a non-integer, the last page for a number out of range, the number itself otherwise |
| Paginator.PageNumberIdempotent | yatube/posts/views.py:14-16 | requesting the page number that was served serves it again |
| Paginator.GetPage | yatube/posts/views.py:16 | page `k` reports the item count and page count; it has a next page exactly when items lie past it, and a previous one exactly when `k > 1` |
| Paginator.PageItems | yatube/posts/views.py:15-16 | the items of page `k` (page 1 is the first `size` items, page `k` is page `k-1` of the rest): never more than `size` of them |
| Paginator.GetPageFromPaginator | yatube/posts/views.py:10-16 | the page object holds the list's count and page count, the page number `PageNumber` chooses (the requested one when valid), and exactly the slice `[(k-1)*size, min(k*size, count))` of the list for that number `k` |
| Paginator.NextPageExists | yatube/posts/views.py:15-16 | page `k` is not the last exactly when `k * size` is below the item count |
| Paginator.PageIsSlice | yatube/posts/views.py:15-16 | page `k` is exactly the slice `[(k-1)*size, min(k*size, count))` of the list |
| Paginator.PageLength | yatube/posts/views.py:15-16 | every page but the last holds `size` items, the last holds the rest, and no page of a non-empty list is empty |
| Paginator.EmptyFirstPage | yatube/posts/views.py:15-16 | an empty list still has page 1, and it is empty |
| Paginator.AllPages | yatube/posts/views.py:15 | the list of pages has `NumPages` entries and entry `k-1` is page `k` |
| Paginator.PagesCoverList | yatube/posts/views.py:15 | reading the pages one after another gives back the whole list |
| Paginator.TwoMoreThanAPage | yatube/posts/tests/test_views.py:118-137 | with `PAGINATION_COUNT + 2` items there are two pages: the first `PAGINATION_COUNT` items, then the last 2 |
| Paginator.PagesKeepOrder | yatube/posts/views.py:15-16 | on a newest-first list every item of page `k` is at least as new as every item of page `k+1` |
| Paginator.PageItemsFromList | yatube/posts/views.py:15-16 | every item on a page comes from the list |
| Paginator.PageSorted | yatube/posts/views.py:15-16 | a page of an ordered list is ordered |
| Models.PostStr | yatube/posts/models.py:62-64 | `Post.__str__` is a prefix of the text, 15 characters long or the whole text when shorter |
| Models.ShortPostStrIsText | yatube/posts/models.py:62-64 | a text of at most 15 characters is shown whole |
| Models.GroupStr | yatube/posts/models.py:16-18 | `Group.__str__` is the title |
| Models.OrderedPosts | yatube/posts/models.py:59-60 | `ordering = ['-pub_date']`: the posts, permuted, newest first, rows of equal date in table order |
| Models.OrderedComments | yatube/posts/models.py:91-92 | `ordering = ['-created']`: the comments, permuted, newest first, rows of equal time in table order |
| Models.SelectedPosts | yatube/posts/views.py:29 | `group.posts.all()` / `author.posts.all()`: exactly the matching posts, newest first |
| Models.CommentsOn | yatube/posts/views.py:58 | `post.comments.all()`: exactly the comments on the post, newest first |
| Models.ClearGroup | yatube/posts/models.py:41-49 | `on_delete=SET_NULL`: same number of posts, each of the group's posts loses its group, every other post is untouched |
| Models.ReplacePost | yatube/posts/views.py:97 | `form.save()` on an instance: the row with the edited post's id is replaced, every other row is kept, no row is added or removed |
| Tables.InsertUser | yatube/posts/models.py:4 | adding a user with a fresh key and an unused username keeps the store consistent |
| Tables.InsertGroup | yatube/posts/models.py:12 | adding a group with a fresh key and an unused slug keeps the store consistent |
| Tables.InsertPost | yatube/posts/views.py:76-78 | saving a new post with a fresh key, an existing author and an existing or no group keeps the store consistent |
| Tables.InsertComment | yatube/posts/views.py:111-114 | saving a new comment on an existing post by an existing user keeps the store consistent |
| Tables.InsertFollow | yatube/posts/views.py:140 | creating a Follow row between existing users keeps the store consistent |
| Tables.UpdatePost | yatube/posts/views.py:96-97 | writing an edited post over its row keeps the store consistent |
| Tables.ReplaceKeepsKeys | yatube/posts/views.py:97 | editing a post keeps the key column unique and every post key present |
| Tables.DeleteGroupRows | yatube/posts/models.py:41-49 | deleting a group and nulling its posts' group keeps the store consistent |
| Tables.DeletePostRows | yatube/posts/models.py:69-74 | deleting a post with its comments (cascade) keeps the store consistent |
| Tables.DeleteUserRows | yatube/posts/models.py:34-39 | deleting a user with their posts, the comments on those posts, their comments and every Follow row they are in keeps the store consistent |
| Tables.DeleteFollowRows | yatube/posts/views.py:148 | deleting Follow rows keeps the store consistent |
| Tables.LookupIsNeverMultiple | yatube/posts/models.py:12 | on a consistent store the lookups by slug, username and primary key never raise MultipleObjectsReturned |
| Feed.FollowingRows | yatube/posts/views.py:122 | `request.user.following`: the Follow rows whose author is the viewer (`related_name` of `Follow.author`, models.py:100-105) |
| Feed.FollowerRows | yatube/posts/models.py:107-112 | `request.user.follower`: the Follow rows whose follower is the viewer |
| Feed.AuthorPosts | yatube/posts/views.py:125 | `follow.author.posts.all()`: exactly that author's posts |
| Feed.FanOut | yatube/posts/views.py:123-125 | the per-row post lists concatenated in row order: only posts of the table, and nothing for no rows |
| Feed.FeedOf | yatube/posts/views.py:128 | the merged list sorted by date: the same posts with the same multiplicities |
| Feed.FanOutMembers | yatube/posts/views.py:123-125 | a post is in the merged list exactly when some row's author wrote it |
| Feed.FeedOrdered | yatube/posts/views.py:128 | the feed is newest first, a permutation of the merged list, and keeps the merged order among posts of equal date |
| Feed.FeedMembers | yatube/posts/views.py:122-128 | a post is in the feed exactly when some row's author wrote it |
| Feed.NoRowsNoFeed | yatube/posts/views.py:122-128 | no Follow rows, no posts in the feed |
| Feed.AsWrittenFeedIsOwnPosts | yatube/posts/views.py:122-128 | as written, a post is in the feed exactly when the viewer wrote it and someone follows the viewer |
| Feed.IntendedFeedIsFollowedPosts | yatube/posts/views.py:120-121 | with the intended rows, a post is in the feed exactly when the viewer follows its author |
| Feed.FollowDirectionCounterexample | yatube/posts/tests/test_views.py:411-436 | user 2 follows user 1, who has one post: the view as written shows user 2 nothing; the intended feed shows the post |
| Feed.TwoAuthorsInterleave | yatube/posts/views.py:124-128 | the scenario of one three-post table and two Follow rows: A's posts at t1 > t3 and B's at t2 come out [t1, t2, t3], interleaved rather than grouped by author (the general order is `Feed.FeedOrdered`) |
| Views.Edited | yatube/posts/views.py:91-97 | the edited post keeps its id, author and publication date and takes the form's text and group |
| Views.FollowThenUnfollow | yatube/posts/views.py:140-148 | following a pair nobody follows and then removing the pair's rows gives the table back |
| Views.PairLookupIsNeverMultiple | yatube/posts/views.py:140 | while each pair has at most one row, the follow lookups never raise MultipleObjectsReturned |
| Views.EditKeepsRows | yatube/posts/views.py:96-97 | writing an edit over its (unique) row keeps every row's id, author and date, and every other row unchanged |
| Views.Store.Valid | yatube/posts/models.py:7-112 | the store's integrity: a positive page size and `Tables.Consistent` (unique keys, usernames and slugs, keys below the counter, every foreign key naming a row) |
| Tables.Consistent | yatube/posts/models.py:7-112 | the database's constraints: unique primary keys, usernames and `Group.slug` (models.py:12), keys drawn from the counter, and every `ForeignKey` of Post, Comment and Follow naming an existing row |
| Views.Store.ValidPostForm | yatube/posts/views.py:75 | `form.is_valid()` for a post: a submitted form with non-empty text whose group, if any, exists |
| Views.Store.ValidCommentForm | yatube/posts/views.py:110 | `form.is_valid()` for a comment: a submitted form with non-empty text |
| Views.Store.constructor | yatube/posts/models.py:7-112 | an empty store is consistent |
| Views.Store.Index | yatube/posts/views.py:19-24 | the page `get_page` serves from all posts newest first: the post count, the page count, the chosen page number and exactly that slice of the ordered list; its items are posts, newest first, and fill the page unless it is the last |
| Views.Store.IndexTwoPages | yatube/posts/tests/test_views.py:118-137 | with `pageSize + 2` posts, page 1 is the `pageSize` newest posts and page 2 the two oldest |
| Views.Store.ServedPage | yatube/posts/views.py:14-16 | whatever the `page` parameter, a page of a newest-first list holds list items, newest first, and is full unless it is the last |
| Views.Store.GroupPosts | yatube/posts/views.py:27-35 | NotFound exactly when no group has the slug, MultipleObjectsReturned exactly when several do, and a served page exactly when one does: that group and the page `get_page` serves from exactly its posts newest first (count, page count, chosen number, that slice), full unless it is the last |
| Views.Store.GroupPostsTwoPages | yatube/posts/tests/test_views.py:118-137 | on a consistent store, a group with `pageSize + 2` posts has both pages served: page 1 is its `pageSize` newest posts and page 2 its two oldest |
| Views.Store.IsFollowing | yatube/posts/views.py:42-47 | the flag holds exactly when the viewer is logged in and a Follow row (viewer, author) exists |
| Views.Store.Profile | yatube/posts/views.py:38-53 | NotFound exactly when no user has the username, MultipleObjectsReturned exactly when several do, and a served page exactly when one does: that user, the following flag, and the page `get_page` serves from exactly their posts newest first (count, page count, chosen number, that slice), full unless it is the last |
| Views.Store.ProfileTwoPages | yatube/posts/tests/test_views.py:118-137 | on a consistent store, a user with `pageSize + 2` posts has both profile pages served: page 1 is their `pageSize` newest posts and page 2 their two oldest |
| Views.Store.ExistingRowsAreServed | yatube/posts/views.py:28-64 | on a consistent store, `group_posts`, `profile` and `post_detail` succeed exactly when the slug, username or id names a row |
| Seqs.OnlyMatch | yatube/posts/views.py:28 | when `get()` finds a single row, every matching table row is that row |
| Views.Store.PostDetail | yatube/posts/views.py:56-64 | NotFound exactly when no post has the id, MultipleObjectsReturned exactly when several do, and success exactly when one does; then the post and `post.comments.all()`, i.e. `CommentsOn`: exactly its comments, newest first, ties in table order |
| Views.Store.MergeFeed | yatube/posts/views.py:123-128 | the loop builds the concatenation of the per-row post lists, and the sort turns it into the feed |
| Views.Store.FollowIndex | yatube/posts/views.py:118-131 | as written: the page the `page` parameter selects from the merged and sorted feed of the `following` rows (count, page count, chosen number, that slice); its posts are all the viewer's own, newest first; empty when nobody follows the viewer |
| Views.Store.FollowIndexIntended | yatube/posts/views.py:118-131 | as intended: the page the `page` parameter selects from the merged and sorted feed of the `follower` rows (count, page count, chosen number, that slice); its posts are by authors the viewer follows, newest first; empty when the viewer follows nobody |
| Views.Store.PostCreate | yatube/posts/views.py:67-82 | a valid form appends exactly one post with the requester as author (a submitted author is ignored), a fresh key and the clock's time, then redirects to the requester's profile; an invalid form changes nothing |
| Views.Store.PostEdit | yatube/posts/views.py:85-103 | NotFound for a missing post; a non-author is redirected to the detail page with nothing changed; for the author a valid form replaces text, group and (when uploaded) image and redirects to the detail page, an invalid one changes nothing; no post is added or removed, and ids, authors and dates never change |
| Views.Store.AddComment | yatube/posts/views.py:106-115 | an invalid form redirects to the detail page with nothing changed and no lookup; a valid one on a missing post is NotFound with nothing changed (the counter included); otherwise one comment by the requester on that post is appended with the next key, the counter advances by one, its post's comment count grows by one, and the response is the detail redirect |
| Views.Store.ProfileFollow | yatube/posts/views.py:134-141 | NotFound for an unknown username with nothing changed; otherwise the (requester, author) row is created only when absent (the counter advances by one exactly then), the profile's following flag becomes true, and one row per pair is kept |
| Views.Store.FollowTwice | yatube/posts/views.py:138-140 | a repeated follow request gives the same response, and the pair has exactly one row afterwards |
| Views.Store.FollowThenUnfollowRequests | yatube/posts/views.py:134-149 | following an author one does not follow and then unfollowing leaves the follow table as it was |
| Views.Store.ProfileUnfollow | yatube/posts/views.py:144-149 | NotFound for an unknown username or a missing Follow row, with nothing changed; otherwise exactly the pair's row is removed, the following flag becomes false, and nothing else changes |
| Views.Store.OnlyRowOfPair | yatube/posts/views.py:148 | deleting the found row by key removes exactly the rows of its pair |
| Views.Store.DeleteGroup | yatube/posts/models.py:41-49 | the group is removed, its posts stay with their group set to null, and nothing else changes |
| Views.Store.DeletePost | yatube/posts/models.py:69-74 | the post is removed with all comments on it, and nothing else changes |
| Views.Store.DeleteUser | yatube/posts/models.py:34-39 | the user is removed with their posts, their comments, the comments on their posts, and every Follow row naming them as user or author (models.py:75-80, 100-112) |
| Views.Store.AddUser | yatube/posts/models.py:4 | a taken username is an IntegrityError with nothing changed; otherwise one user is appended with a fresh key |
| Views.Store.AddGroup | yatube/posts/models.py:12 | a taken slug is an IntegrityError with nothing changed; otherwise one group is appended with a fresh key |

## Left out

- **Caching, templates, rendering and HTTP details.** Rendering, template context names, status codes and redirect URLs are not modelled. A redirect is a tag naming its target.
- **Login.** `@login_required` and its login redirect become a precondition of the writing handlers: the requester is a row of the user table. The feed handlers `FollowIndex` and `FollowIndexIntended` take the logged-in viewer as a `User` value and do not need it to be a row, because they only read and never use the viewer's row. The anonymous viewer of `profile` is `None`.
- **The clock.** `auto_now_add` reads the clock. The model takes it as a parameter `now` of the methods that create rows. Dates are integers.
- **Image upload and media storage.** An image is the stored file name. An empty name means there is none. Clearing an image through the form's checkbox is not modelled.
- **Form classes.** `posts/forms.py` is not part of this model:
  - a form is valid when its text is non-empty and, for a post, its chosen group exists, following the required `TextField`s and the group choice field;
  - whitespace stripping of submitted text is not modelled;
  - field length limits are not modelled.
- **Paginator behaviour.** `Paginator.get_page` is library code outside the repository. Its choice of page for a missing, non-numeric or out-of-range parameter follows Django's documented behaviour, and is stated in `Paginator.PageNumber`.
- **Page size.** The value of `settings.PAGINATION_COUNT` is a field, `pageSize`, of any positive value.
- **Tie order between rows.** The database's order among posts (or comments) of equal date is unspecified. The model takes table order, sorted by a stable sort.
- **Order of the Follow rows.** `Follow` has no `Meta.ordering` (models.py:95-112), so the order of `request.user.following.all()` is unspecified. `Feed.FollowingRows` and `Feed.FollowerRows` take Follow table order. That order decides the merged order of `follow_index`, and so the feed's order among posts of equal date: the stability stated by `Feed.FeedOrdered` holds relative to that chosen row order.
- **User management.** The identity provider's user table is reduced to ids and unique usernames. Its own forms and views are not modelled.
- **Admin, URL routing and the test suite.** Tests are evidence for properties, not modelled code.
- **Concurrency.** Each handler is one atomic step on the store. Interleaving between the feed's queries is not modelled.
- **Unused primary-key counter values.** A single counter numbers every table. Django uses one sequence per table. Only freshness and uniqueness of keys matter to the model.

## Findings

| source | as written | input that shows it | evidently intended | confidence | as-written member | corrected member |
|---|---|---|---|---|---|---|
| yatube/posts/views.py:122 | `request.user.following.all()` reads the Follow rows whose `author` is the viewer (`related_name='following'` is on `Follow.author`, models.py:100-105). So the feed shows the viewer's own posts, once per follower. | User 2 follows user 1 (`Follow(author=1, user=2)`), and user 1 has one post. The feed of user 2 is empty. | The docstring at views.py:120-121 and the test at test_views.py:435-436 say the feed shows the posts of the authors the viewer follows, i.e. it should read `request.user.follower.all()`. | not executed | Feed.FollowDirectionCounterexample | Views.Store.FollowIndexIntended |
