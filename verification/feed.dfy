/**
 * `get_feed`: the posts, already ordered newest first by the query, joined
 * with the user-id to email map and annotated with ownership, one item per
 * post in query order.
 */
module Feed {
  import opened Posts

  /** One entry of the `posts` list in the feed response. */
  datatype FeedItem = FeedItem(
    id: string,
    userId: string,
    caption: string,
    url: string,
    fileType: string,
    fileName: string,
    createdAt: Timestamp,
    isOwner: bool,
    email: string)

  /** The response body `{"posts": [...]}`. */
  datatype FeedResponse = FeedResponse(posts: seq<FeedItem>)

  /** The email shown for a post whose owner is not in the user table. */
  const UnknownEmail := "Unknown"

  /** `user_dict.get(user_id, "Unknown")`. */
  function EmailOf(emails: map<string, string>, userId: string): (e: string)
    ensures userId in emails ==> e == emails[userId]
    ensures userId !in emails ==> e == UnknownEmail
    ensures e in emails.Values || e == UnknownEmail
  {
    if userId in emails then emails[userId] else UnknownEmail
  }

  /** The item built for one post, as seen by `requester`. */
  function ItemOf(p: Post, requester: string, emails: map<string, string>): (item: FeedItem)
    ensures item.id == p.id && item.userId == p.userId && item.caption == p.caption && item.url == p.url
    ensures item.fileType == p.fileType && item.fileName == p.fileName && item.createdAt == p.createdAt
    ensures item.isOwner <==> p.userId == requester
    ensures item.email in emails.Values || item.email == UnknownEmail
  {
    FeedItem(p.id, p.userId, p.caption, p.url, p.fileType, p.fileName, p.createdAt,
             p.userId == requester, EmailOf(emails, p.userId))
  }

  /** The feed as a whole: the item of each post, in the order of the query. */
  function FeedOf(posts: seq<Post>, requester: string, emails: map<string, string>): (feed: seq<FeedItem>)
    ensures |feed| == |posts|
    ensures forall i | 0 <= i < |feed| ::
              feed[i].id == posts[i].id && feed[i].createdAt == posts[i].createdAt &&
              (feed[i].isOwner <==> posts[i].userId == requester)
  {
    seq(|posts|, i requires 0 <= i < |posts| => ItemOf(posts[i], requester, emails))
  }

  /**
   * `get_feed`, given the result of the newest-first query over the post table
   * and the user table as a map from id to email.
   */
  method GetFeed(posts: seq<Post>, requester: string, emails: map<string, string>)
    returns (resp: FeedResponse)
    ensures resp.posts == FeedOf(posts, requester, emails)
    ensures posts == [] ==> resp == FeedResponse([])
  {
    var items: seq<FeedItem> := [];
    for i := 0 to |posts|
      invariant |items| == i
      invariant forall k | 0 <= k < i :: items[k] == ItemOf(posts[k], requester, emails)
    {
      var p := posts[i];
      items := items + [FeedItem(p.id, p.userId, p.caption, p.url, p.fileType, p.fileName,
                                 p.createdAt, p.userId == requester,
                                 EmailOf(emails, p.userId))];
    }
    resp := FeedResponse(items);
  }

  /** Newest first, as `ORDER BY created_at DESC` returns them. */
  predicate NewestFirst(posts: seq<Post>)
  {
    forall i, j | 0 <= i < j < |posts| :: posts[i].createdAt >= posts[j].createdAt
  }

  /** The items carry their posts' fields and order, so the feed is newest first too. */
  lemma FeedIsNewestFirst(posts: seq<Post>, requester: string, emails: map<string, string>)
    requires NewestFirst(posts)
    ensures var feed := FeedOf(posts, requester, emails);
      |feed| == |posts| &&
      forall i, j | 0 <= i < j < |feed| :: feed[i].createdAt >= feed[j].createdAt
  {
  }

  /** Each item is marked as the requester's exactly when the post's owner is the requester. */
  lemma FeedOwnership(posts: seq<Post>, requester: string, emails: map<string, string>, i: nat)
    requires i < |posts|
    ensures var item := FeedOf(posts, requester, emails)[i];
      (item.isOwner <==> posts[i].userId == requester) &&
      (posts[i].userId in emails ==> item.email == emails[posts[i].userId]) &&
      (posts[i].userId !in emails ==> item.email == UnknownEmail) &&
      item.id == posts[i].id && item.caption == posts[i].caption && item.url == posts[i].url &&
      item.fileType == posts[i].fileType && item.fileName == posts[i].fileName
  {
  }

  /** The ids of a query result. */
  function Ids(posts: seq<Post>): set<string>
  {
    set i | 0 <= i < |posts| :: posts[i].id
  }

  predicate DistinctIds(posts: seq<Post>)
  {
    forall i, j | 0 <= i < j < |posts| :: posts[i].id != posts[j].id
  }

  /** `posts` is a listing of the whole table: every row once, and nothing else. */
  ghost predicate ListsTable(posts: seq<Post>, rows: map<string, Post>)
  {
    && DistinctIds(posts)
    && (forall i | 0 <= i < |posts| :: posts[i].id in rows && rows[posts[i].id] == posts[i])
    && (forall id | id in rows :: id in Ids(posts))
  }

  lemma {:induction false} DistinctIdsCount(posts: seq<Post>)
    requires DistinctIds(posts)
    ensures |Ids(posts)| == |posts|
    decreases |posts|
  {
    if posts != [] {
      var last := |posts| - 1;
      var init := posts[..last];
      assert DistinctIds(init);
      DistinctIdsCount(init);
      assert Ids(posts) == Ids(init) + {posts[last].id};
      assert posts[last].id !in Ids(init);
    }
  }

  /** A listing of the table yields exactly one feed item per stored post. */
  lemma FeedHasOneItemPerRow(posts: seq<Post>, rows: map<string, Post>, requester: string,
                             emails: map<string, string>)
    requires ListsTable(posts, rows)
    ensures |FeedOf(posts, requester, emails)| == |rows|
  {
    DistinctIdsCount(posts);
    assert Ids(posts) == rows.Keys;
  }

  /** Every stored post appears in the feed, marked as the requester's when the requester owns it. */
  lemma StoredPostInFeed(posts: seq<Post>, rows: map<string, Post>, id: string, requester: string,
                         emails: map<string, string>)
    requires ListsTable(posts, rows) && id in rows
    ensures exists i | 0 <= i < |posts| ::
      FeedOf(posts, requester, emails)[i] == ItemOf(rows[id], requester, emails) &&
      (FeedOf(posts, requester, emails)[i].isOwner <==> rows[id].userId == requester)
  {
    assert id in Ids(posts);
    var i :| 0 <= i < |posts| && posts[i].id == id;
    assert FeedOf(posts, requester, emails)[i] == ItemOf(rows[id], requester, emails);
  }

  /** The post strictly newer than every other one heads a newest-first listing, so its item heads the feed. */
  lemma NewestPostLeadsFeed(posts: seq<Post>, rows: map<string, Post>, id: string, requester: string,
                            emails: map<string, string>)
    requires ListsTable(posts, rows) && NewestFirst(posts) && id in rows
    requires forall other | other in rows && other != id :: rows[other].createdAt < rows[id].createdAt
    ensures |posts| > 0 && posts[0] == rows[id]
    ensures FeedOf(posts, requester, emails)[0] == ItemOf(rows[id], requester, emails)
  {
  }

  /** After a successful upload by `owner`, the new post shows up in the owner's feed as the owner's own. */
  lemma UploadedPostShownAsOwn(posts: seq<Post>, rows: map<string, Post>, p: Post,
                               emails: map<string, string>)
    requires ListsTable(posts, rows[p.id := p])
    ensures exists i | 0 <= i < |posts| ::
      var item := FeedOf(posts, p.userId, emails)[i];
      item.id == p.id && item.isOwner && item.caption == p.caption && item.fileType == p.fileType
  {
    StoredPostInFeed(posts, rows[p.id := p], p.id, p.userId, emails);
  }
}
