/** BookmarkService over the bookmark table and the posts it points at, and
    the summary a bookmarked post is listed with. A bookmark row is keyed by
    (user id, post id). Paging is not modelled. */
module Bookmarks {
  import opened Base
  import opened Listing

  datatype PostImage = PostImage(imageUrl: Option<string>, thumbnailUrl: Option<string>)

  /** The fields of a post the summary reads; `isDeleted` is the soft delete. */
  datatype Post = Post(
    id: int, authorId: int, content: Option<string>, visibility: string, images: seq<PostImage>,
    likeCount: int, commentCount: int, createdAt: int, isDeleted: bool)

  datatype BookmarkRow = BookmarkRow(id: int, createdAt: int)

  /** (user id, post id). */
  type BookmarkKey = (int, int)

  datatype BookmarkStore = BookmarkStore(posts: map<int, Post>, rows: map<BookmarkKey, BookmarkRow>)

  datatype BookmarkError = PostNotFound(postId: int) | DuplicateBookmark | BookmarkNotFound

  datatype BookmarkResponse = BookmarkResponse(postId: int, bookmarked: bool)

  /** `findByIdAndIsDeletedFalse`: a post that exists and is not soft-deleted. */
  predicate LivePost(st: BookmarkStore, postId: int) {
    postId in st.posts && !st.posts[postId].isDeleted
  }

  /** `bookmark`: the post must be live, the pair not yet bookmarked; the new
      row gets the fresh id `rowId` and creation time `now`. */
  function Bookmark(st: BookmarkStore, userId: int, postId: int, rowId: int, now: int): (r: Result<(BookmarkResponse, BookmarkStore), BookmarkError>)
    ensures r.Ok? <==> LivePost(st, postId) && (userId, postId) !in st.rows
    ensures r.Err? && !LivePost(st, postId) ==> r.error == PostNotFound(postId)
    ensures r.Err? && LivePost(st, postId) ==> r.error == DuplicateBookmark
    ensures r.Ok? ==>
      && r.value.0 == BookmarkResponse(postId, true)
      && r.value.1.posts == st.posts
      && r.value.1.rows.Keys == st.rows.Keys + {(userId, postId)}
      && r.value.1.rows[(userId, postId)] == BookmarkRow(rowId, now)
      && forall k :: k in st.rows ==> r.value.1.rows[k] == st.rows[k]
  {
    if !LivePost(st, postId) then Err(PostNotFound(postId))
    else if (userId, postId) in st.rows then Err(DuplicateBookmark)
    else Ok((BookmarkResponse(postId, true), st.(rows := st.rows[(userId, postId) := BookmarkRow(rowId, now)])))
  }

  /** `unbookmark`: the row must exist; the post's state is not checked. */
  function Unbookmark(st: BookmarkStore, userId: int, postId: int): (r: Result<(BookmarkResponse, BookmarkStore), BookmarkError>)
    ensures r.Ok? <==> (userId, postId) in st.rows
    ensures r.Err? ==> r.error == BookmarkNotFound
    ensures r.Ok? ==>
      && r.value.0 == BookmarkResponse(postId, false)
      && r.value.1.posts == st.posts
      && r.value.1.rows.Keys == st.rows.Keys - {(userId, postId)}
      && forall k :: k in r.value.1.rows ==> r.value.1.rows[k] == st.rows[k]
  {
    if (userId, postId) !in st.rows then Err(BookmarkNotFound)
    else Ok((BookmarkResponse(postId, false), st.(rows := st.rows - {(userId, postId)})))
  }

  /** Bookmarking and then unbookmarking restores the table. */
  lemma BookmarkThenUnbookmarkRestores(st: BookmarkStore, userId: int, postId: int, rowId: int, now: int)
    requires Bookmark(st, userId, postId, rowId, now).Ok?
    ensures var mid := Bookmark(st, userId, postId, rowId, now).value.1;
      && Unbookmark(mid, userId, postId).Ok?
      && Unbookmark(mid, userId, postId).value.1 == st
  {
  }

  /** A post deleted after it was bookmarked can still be unbookmarked. */
  lemma UnbookmarkIgnoresDeletion(st: BookmarkStore, userId: int, postId: int)
    requires (userId, postId) in st.rows && !LivePost(st, postId)
    ensures Unbookmark(st, userId, postId).Ok?
  {
  }

  /** `isBookmarked`. */
  predicate IsBookmarked(st: BookmarkStore, userId: int, postId: int) {
    (userId, postId) in st.rows
  }

  /** `countByUserId`: every row of the user, deleted posts included. */
  function BookmarkCount(st: BookmarkStore, userId: int): nat {
    |set k | k in st.rows && k.0 == userId|
  }

  /** Bookmarking adds one to the user's count and leaves every other user's
      count alone; unbookmarking takes one away. */
  lemma CountAfterBookmark(st: BookmarkStore, userId: int, postId: int, rowId: int, now: int, other: int)
    requires Bookmark(st, userId, postId, rowId, now).Ok?
    ensures var after := Bookmark(st, userId, postId, rowId, now).value.1;
      BookmarkCount(after, other) == if other == userId then BookmarkCount(st, other) + 1 else BookmarkCount(st, other)
  {
    var after := Bookmark(st, userId, postId, rowId, now).value.1;
    var before := set k | k in st.rows && k.0 == other;
    var now' := set k | k in after.rows && k.0 == other;
    if other == userId {
      assert now' == before + {(userId, postId)};
    } else {
      assert now' == before;
    }
  }

  lemma CountAfterUnbookmark(st: BookmarkStore, userId: int, postId: int, other: int)
    requires Unbookmark(st, userId, postId).Ok?
    ensures var after := Unbookmark(st, userId, postId).value.1;
      BookmarkCount(after, other) == if other == userId then BookmarkCount(st, other) - 1 else BookmarkCount(st, other)
  {
    var after := Unbookmark(st, userId, postId).value.1;
    var before := set k | k in st.rows && k.0 == other;
    var now' := set k | k in after.rows && k.0 == other;
    if other == userId {
      assert now' == before - {(userId, postId)};
    } else {
      assert now' == before;
    }
  }

  /** `findBookmarkedPostIdsByUserId`: the given post ids the user has
      bookmarked, each once however often it is asked about (one row per
      bookmark matches the `IN` list). */
  function BookmarkedPostIds(st: BookmarkStore, userId: int, postIds: seq<int>): (r: seq<int>)
    ensures forall p :: p in r <==> p in postIds && IsBookmarked(st, userId, p)
    ensures Distinct(r) && |r| <= |postIds|
  {
    if |postIds| == 0 then []
    else
      var rest := BookmarkedPostIds(st, userId, postIds[1..]);
      assert forall p :: p in postIds <==> p == postIds[0] || p in postIds[1..];
      if IsBookmarked(st, userId, postIds[0]) && postIds[0] !in rest then [postIds[0]] + rest else rest
  }

  /** The rows `findByUserIdWithPost` returns: the user's, on live posts. */
  function ListedRows(st: BookmarkStore, userId: int): (r: set<BookmarkKey>)
    ensures forall k :: k in r <==> k in st.rows && k.0 == userId && LivePost(st, k.1)
  {
    set k | k in st.rows && k.0 == userId && LivePost(st, k.1)
  }

  /** The listing never exceeds the count, and matches it when none of the
      user's bookmarked posts is deleted or gone. */
  lemma ListingWithinCount(st: BookmarkStore, userId: int)
    ensures |ListedRows(st, userId)| <= BookmarkCount(st, userId)
    ensures (forall k :: k in st.rows && k.0 == userId ==> LivePost(st, k.1)) ==>
      |ListedRows(st, userId)| == BookmarkCount(st, userId)
  {
    var all := set k | k in st.rows && k.0 == userId;
    var listed := ListedRows(st, userId);
    assert listed <= all;
    SubsetCardinality(listed, all);
    if forall k :: k in st.rows && k.0 == userId ==> LivePost(st, k.1) {
      assert listed == all;
    }
  }

  lemma {:induction false} SubsetCardinality<T>(a: set<T>, b: set<T>)
    requires a <= b
    ensures |a| <= |b|
    decreases |b|
  {
    if b != {} {
      var x :| x in b;
      SubsetCardinality(a - {x}, b - {x});
    }
  }

  /** PostSummary: the post with its preview text, thumbnail and counts. */
  datatype PostSummary = PostSummary(
    id: int, content: Option<string>, visibility: string, thumbnailUrl: Option<string>,
    imageCount: nat, likeCount: int, commentCount: int, authorId: int, createdAt: int)

  datatype BookmarkedPostResponse = BookmarkedPostResponse(bookmarkId: int, bookmarkedAt: int, post: PostSummary)

  const PreviewLength: nat := 100

  /** The content preview: at most 100 characters, with "..." appended when cut. */
  function Preview(content: Option<string>): (r: Option<string>)
    ensures r.None? <==> content.None?
    ensures r.Some? && |content.value| <= PreviewLength ==> r.value == content.value
    ensures r.Some? && |content.value| > PreviewLength ==>
      |r.value| == PreviewLength + 3 && r.value[..PreviewLength] == content.value[..PreviewLength]
      && r.value[PreviewLength..] == "..."
  {
    if content.Some? && |content.value| > PreviewLength
    then
      var p := content.value[..PreviewLength] + "...";
      assert p[..PreviewLength] == content.value[..PreviewLength];
      Some(p)
    else content
  }

  /** The first image's thumbnail, else its full image, else none. */
  function Thumbnail(images: seq<PostImage>): (r: Option<string>)
    ensures |images| == 0 ==> r.None?
    ensures |images| > 0 && images[0].thumbnailUrl.Some? ==> r == images[0].thumbnailUrl
    ensures |images| > 0 && images[0].thumbnailUrl.None? ==> r == images[0].imageUrl
  {
    if |images| == 0 then None
    else if images[0].thumbnailUrl.Some? then images[0].thumbnailUrl
    else images[0].imageUrl
  }

  /** `BookmarkedPostResponse.from`. */
  function From(row: BookmarkRow, post: Post): (r: BookmarkedPostResponse)
    ensures r.bookmarkId == row.id && r.bookmarkedAt == row.createdAt
    ensures r.post.id == post.id && r.post.imageCount == |post.images|
    ensures r.post.content == Preview(post.content) && r.post.thumbnailUrl == Thumbnail(post.images)
    ensures r.post.content.Some? ==> |r.post.content.value| <= PreviewLength + 3
    ensures && r.post.visibility == post.visibility && r.post.likeCount == post.likeCount
            && r.post.commentCount == post.commentCount && r.post.createdAt == post.createdAt
            && r.post.authorId == post.authorId
  {
    BookmarkedPostResponse(row.id, row.createdAt,
      PostSummary(post.id, Preview(post.content), post.visibility, Thumbnail(post.images),
                  |post.images|, post.likeCount, post.commentCount, post.authorId, post.createdAt))
  }

  /** A preview never loses the beginning of the post: the first up-to-100
      characters are the post's own. */
  lemma PreviewKeepsPrefix(content: string)
    ensures var p := Preview(Some(content)).value;
      var n := if |content| < PreviewLength then |content| else PreviewLength;
      n <= |p| && p[..n] == content[..n]
  {
  }

  /** `getBookmarkedPosts`: the user's rows on live posts, newest bookmark first. */
  method GetBookmarkedPosts(st: BookmarkStore, userId: int) returns (r: seq<BookmarkedPostResponse>)
    ensures |r| == |ListedRows(st, userId)|
    ensures forall i, j :: 0 <= i < j < |r| ==> r[i].bookmarkedAt >= r[j].bookmarkedAt
    ensures (set i | 0 <= i < |r| :: r[i])
         == (set k | k in ListedRows(st, userId) :: From(st.rows[k], st.posts[k.1]))
  {
    var listed := ListedRows(st, userId);
    var at := map k | k in listed :: st.rows[k].createdAt;
    var order := ListNewestFirst(listed, at);
    DistinctCardinality(order, listed);
    r := seq(|order|, i requires 0 <= i < |order| => From(st.rows[order[i]], st.posts[order[i].1]));
    var listing := set i | 0 <= i < |r| :: r[i];
    var expected := set k | k in listed :: From(st.rows[k], st.posts[k.1]);
    forall x | x in listing
      ensures x in expected
    {
      var i :| 0 <= i < |r| && r[i] == x;
      assert order[i] in listed;
    }
    forall x | x in expected
      ensures x in listing
    {
      var k :| k in listed && x == From(st.rows[k], st.posts[k.1]);
      var i :| 0 <= i < |order| && order[i] == k;
      assert r[i] == x;
    }
  }
}
