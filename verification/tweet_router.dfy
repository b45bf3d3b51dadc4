/** The tweet router: the `infiniteFeed` query, its helper
    `getInfiniteTweets`, and the `create` and `toggleLike` mutations, each
    a pure function of the storage state. */
module TweetRouter {
  import opened Common
  import opened KeyOrder
  import opened Store

  /** Page size used when the caller gives none. */
  const DefaultLimit: nat := 10

  /** The query input; every field may be omitted. */
  datatype FeedInput = FeedInput(onlyFollowing: Option<bool>, limit: Option<nat>, cursor: Option<Key>)

  function EffectiveLimit(limit: Option<nat>): (n: nat)
    ensures limit.None? ==> n == DefaultLimit
    ensures limit.Some? ==> n == limit.value
  {
    limit.GetOr(DefaultLimit)
  }

  /** The where-clause choice: the following-only filter applies exactly when
      a viewer is signed in and asked for it; an anonymous request for the
      following feed gets the unfiltered feed. */
  function FeedFilter(viewer: Option<UserId>, onlyFollowing: bool): (w: Where)
    ensures w.FollowedBy? <==> viewer.Some? && onlyFollowing
    ensures w.FollowedBy? ==> w.viewer == viewer.value
  {
    if viewer.None? || !onlyFollowing then Everyone else FollowedBy(viewer.value)
  }

  /** A tweet as the feed returns it: the selected row fields plus the two
      like projections. */
  datatype TweetView = TweetView(
    id: TweetId,
    content: string,
    createdAt: int,
    user: Author,
    likeCount: nat,
    likedByMe: bool)

  /** `_count.likes`: how many like pairs reference tweet `id`. */
  function LikeCount(likes: set<Like>, id: TweetId): nat {
    |set l | l in likes && l.tweetId == id|
  }

  /** Whether the viewer's like for `id` exists; never when nobody is signed in. */
  predicate LikedBy(likes: set<Like>, viewer: Option<UserId>, id: TweetId) {
    viewer.Some? && Like(viewer.value, id) in likes
  }

  function View(likes: set<Like>, viewer: Option<UserId>, r: Row): TweetView {
    TweetView(r.id, r.content, r.createdAt, r.author, LikeCount(likes, r.id), LikedBy(likes, viewer, r.id))
  }

  function Views(likes: set<Like>, viewer: Option<UserId>, rows: seq<Row>): (vs: seq<TweetView>)
    ensures |vs| == |rows|
    ensures forall i {:trigger vs[i]} :: 0 <= i < |rows| ==> vs[i] == View(likes, viewer, rows[i])
  {
    if |rows| == 0 then [] else [View(likes, viewer, rows[0])] + Views(likes, viewer, rows[1..])
  }

  lemma ViewsAppend(likes: set<Like>, viewer: Option<UserId>, a: seq<Row>, b: seq<Row>)
    ensures Views(likes, viewer, a + b) == Views(likes, viewer, a) + Views(likes, viewer, b)
  {
    var v := Views(likes, viewer, a + b);
    var u := Views(likes, viewer, a) + Views(likes, viewer, b);
    forall i | 0 <= i < |v|
      ensures v[i] == u[i]
    {
      if i < |a| {
        assert (a + b)[i] == a[i];
      } else {
        assert (a + b)[i] == b[i - |a|];
      }
    }
  }

  /** One page of the feed and the cursor of the page after it. */
  datatype Page = Page(tweets: seq<TweetView>, nextCursor: Option<Key>)

  /** `getInfiniteTweets`: fetch `limit + 1` rows; when more than `limit`
      come back, the last one is popped and only its key is kept, as the
      cursor of the next page. Each tweet carries its like count and whether
      the viewer likes it. */
  function GetInfiniteTweets(db: Db, viewer: Option<UserId>, w: Where, limit: nat, cursor: Option<Key>): (p: Page)
    requires DistinctIds(db.tweets)
    ensures |p.tweets| <= limit
    ensures forall i :: 0 <= i < |p.tweets| ==>
      && p.tweets[i].likeCount == LikeCount(db.likes, p.tweets[i].id)
      && (p.tweets[i].likedByMe <==> viewer.Some? && Like(viewer.value, p.tweets[i].id) in db.likes)
  {
    var data := FindMany(db, w, cursor, limit + 1);
    if |data| > limit then
      var nextItem := data[|data| - 1];
      Page(Views(db.likes, viewer, data[..|data| - 1]), Some(nextItem.OrderKey()))
    else
      Page(Views(db.likes, viewer, data), None)
  }

  /** The page against all eligible rows from the cursor on (`Resume`): it
      is their first `limit` rows, and a next cursor exists exactly when a
      further row does, naming that row, which is not on the page. */
  lemma PageOfResume(db: Db, viewer: Option<UserId>, w: Where, limit: nat, cursor: Option<Key>)
    requires DistinctIds(db.tweets)
    ensures var p := GetInfiniteTweets(db, viewer, w, limit, cursor);
      var rest := Resume(db, w, cursor);
      && |p.tweets| <= |rest|
      && p.tweets == Views(db.likes, viewer, rest[..|p.tweets|])
      && (p.nextCursor.Some? <==> |rest| > limit)
      && (p.nextCursor.Some? ==> |p.tweets| == limit && p.nextCursor.value == rest[limit].OrderKey())
      && (p.nextCursor.None? ==> |p.tweets| == |rest|)
  {
    var e := Eligible(db, w);
    var n := ResumeAt(db, w, cursor);
    var data := FindMany(db, w, cursor, limit + 1);
    PopSplit(e, n, data, limit);
  }

  /** The popped row, whose key becomes the next cursor, is not on the page. */
  lemma CursorRowNotOnPage(db: Db, viewer: Option<UserId>, w: Where, limit: nat, cursor: Option<Key>)
    requires DistinctIds(db.tweets)
    ensures var p := GetInfiniteTweets(db, viewer, w, limit, cursor);
      var rest := Resume(db, w, cursor);
      p.nextCursor.Some? ==>
        forall i :: 0 <= i < |p.tweets| ==> p.tweets[i].id != rest[limit].id
  {
    var p := GetInfiniteTweets(db, viewer, w, limit, cursor);
    var rest := Resume(db, w, cursor);
    PageOfResume(db, viewer, w, limit, cursor);
    if p.nextCursor.Some? {
      ResumeKeepsOrder(db, w, cursor);
      forall i | 0 <= i < |p.tweets|
        ensures p.tweets[i].id != rest[limit].id
      {
        assert p.tweets[i].id == rest[..limit][i].id == rest[i].id;
        DistinctAt(rest, i, limit);
      }
    }
  }

  /** How `take: limit + 1` followed by a pop relates the fetched rows to
      all rows from position `n` of `e` on. */
  lemma PopSplit(e: seq<Row>, n: nat, data: seq<Row>, limit: nat)
    requires n <= |e|
    requires |data| == (if |e| - n < limit + 1 then |e| - n else limit + 1)
    requires data == e[n..n + |data|]
    ensures |data| > limit ==>
      && |e[n..]| > limit
      && data[..|data| - 1] == e[n..][..limit]
      && data[|data| - 1] == e[n..][limit]
    ensures |data| <= limit ==> data == e[n..] && e[n..][..|data|] == e[n..]
  {
  }

  /** The tweets of a page are listed strictly newest first (ties: larger id first). */
  lemma PageIsOrdered(db: Db, viewer: Option<UserId>, w: Where, limit: nat, cursor: Option<Key>)
    requires DistinctIds(db.tweets)
    ensures var t := GetInfiniteTweets(db, viewer, w, limit, cursor).tweets;
      forall i, j :: 0 <= i < j < |t| ==> Before(Key(t[i].createdAt, t[i].id), Key(t[j].createdAt, t[j].id))
  {
    var rest := Resume(db, w, cursor);
    ResumeKeepsOrder(db, w, cursor);
    PageOfResume(db, viewer, w, limit, cursor);
    var t := GetInfiniteTweets(db, viewer, w, limit, cursor).tweets;
    forall i, j | 0 <= i < j < |t|
      ensures Before(Key(t[i].createdAt, t[i].id), Key(t[j].createdAt, t[j].id))
    {
      assert t[i].id == rest[i].id && t[i].createdAt == rest[i].createdAt;
      assert t[j].id == rest[j].id && t[j].createdAt == rest[j].createdAt;
      SortedAt(rest, i, j);
    }
  }

  /** The `infiniteFeed` query: defaults `onlyFollowing = false` and
      `limit = 10`, then the where-clause choice, then `getInfiniteTweets`. */
  function InfiniteFeed(db: Db, viewer: Option<UserId>, input: FeedInput): (p: Page)
    requires DistinctIds(db.tweets)
    ensures viewer.Some? && input.onlyFollowing == Some(true) ==>
      p == GetInfiniteTweets(db, viewer, FollowedBy(viewer.value), EffectiveLimit(input.limit), input.cursor)
    ensures viewer.None? || input.onlyFollowing != Some(true) ==>
      p == GetInfiniteTweets(db, viewer, Everyone, EffectiveLimit(input.limit), input.cursor)
  {
    var onlyFollowing := input.onlyFollowing.GetOr(false);
    var limit := input.limit.GetOr(DefaultLimit);
    var w := FeedFilter(viewer, onlyFollowing);
    assert w == if viewer.Some? && input.onlyFollowing == Some(true) then FollowedBy(viewer.value) else Everyone;
    assert limit == EffectiveLimit(input.limit);
    GetInfiniteTweets(db, viewer, w, limit, input.cursor)
  }

  /** An input without fields asks for the first ten rows of the unfiltered feed. */
  lemma EmptyInputDefaults(db: Db, viewer: Option<UserId>)
    requires DistinctIds(db.tweets)
    ensures InfiniteFeed(db, viewer, FeedInput(None, None, None))
         == InfiniteFeed(db, viewer, FeedInput(Some(false), Some(10), None))
    ensures var p := InfiniteFeed(db, viewer, FeedInput(None, None, None));
      |p.tweets| == if |Eligible(db, Everyone)| < 10 then |Eligible(db, Everyone)| else 10
  {
    ResumeMembers(db, Everyone, None);
    PageOfResume(db, viewer, Everyone, 10, None);
  }

  /** Every tweet of a signed-in viewer's following-only feed is by an author
      that viewer follows, and every tweet by a followed author is among the
      rows that feed is drawn from. */
  lemma FollowingFeedIsFollowed(db: Db, viewer: UserId, limit: Option<nat>, cursor: Option<Key>)
    requires DistinctIds(db.tweets)
    ensures var p := InfiniteFeed(db, Some(viewer), FeedInput(Some(true), limit, cursor));
      forall i :: 0 <= i < |p.tweets| ==> Follow(viewer, p.tweets[i].user.id) in db.follows
    ensures forall r :: r in db.tweets && Follow(viewer, r.author.id) in db.follows ==>
      r in Eligible(db, FollowedBy(viewer))
  {
    var w := FollowedBy(viewer);
    var rest := Resume(db, w, cursor);
    var e := Eligible(db, w);
    var p := InfiniteFeed(db, Some(viewer), FeedInput(Some(true), limit, cursor));
    var n := ResumeAt(db, w, cursor);
    PageOfResume(db, Some(viewer), w, EffectiveLimit(limit), cursor);
    EligibleMembers(db, w);
    forall i | 0 <= i < |p.tweets|
      ensures Follow(viewer, p.tweets[i].user.id) in db.follows
    {
      assert p.tweets[i].user == rest[i].author;
      assert rest[i] == e[n + i];
      assert rest[i] in e;
    }
  }

  // ------------------------------------------------------------------ create

  datatype Created = Created(db: Db, tweet: Row)

  /** `create`: insert one tweet by the signed-in author. The generated id
      and the `now()` timestamp are parameters; an id already in use is
      refused by the primary key. */
  function Create(db: Db, author: Author, content: string, newId: TweetId, now: int): (r: Result<Created, DbError>)
    ensures r.Failure? <==> HasTweet(db, newId)
    ensures r.Failure? ==> r.error == UniqueViolation
    ensures r.Success? ==>
      var t := r.value.tweet;
      && t.id == newId && t.content == content && t.createdAt == now && t.author == author
      && r.value.db.tweets == db.tweets + [t]
      && r.value.db.likes == db.likes && r.value.db.follows == db.follows
    ensures ValidDb(db) && r.Success? ==> ValidDb(r.value.db)
  {
    if HasTweet(db, newId) then Failure(UniqueViolation)
    else
      var t := Row(newId, content, now, author);
      var db' := db.(tweets := db.tweets + [t]);
      AppendKeepsValid(db, t);
      Success(Created(db', t))
  }

  /** After `create`, each feed holds exactly the rows it held before, plus
      the new tweet when the tweet passes the feed's filter. */
  lemma CreateExtendsFeeds(db: Db, author: Author, content: string, newId: TweetId, now: int, w: Where)
    requires ValidDb(db)
    requires Create(db, author, content, newId, now).Success?
    ensures var c := Create(db, author, content, newId, now).value;
      forall x :: x in Eligible(c.db, w) <==>
        x in Eligible(db, w) || (x == c.tweet && Matches(db.follows, w, c.tweet))
  {
    var c := Create(db, author, content, newId, now).value;
    EligibleMembers(db, w);
    EligibleMembers(c.db, w);
  }

  /** A tweet created later than every existing tweet heads the first page of
      the unfiltered feed. */
  lemma CreateNewestFirst(db: Db, author: Author, content: string, newId: TweetId, now: int,
                          viewer: Option<UserId>, limit: nat)
    requires ValidDb(db) && limit > 0
    requires forall i :: 0 <= i < |db.tweets| ==> db.tweets[i].createdAt < now
    requires Create(db, author, content, newId, now).Success?
    ensures var c := Create(db, author, content, newId, now).value;
      var p := GetInfiniteTweets(c.db, viewer, Everyone, limit, None);
      |p.tweets| > 0 && p.tweets[0].id == newId
  {
    var c := Create(db, author, content, newId, now).value;
    forall i | 0 <= i < |c.db.tweets| && c.db.tweets[i] != c.tweet
      ensures c.db.tweets[i].createdAt < c.tweet.createdAt
    {
      assert c.db.tweets[i] == db.tweets[i];
    }
    assert c.db.tweets[|db.tweets|] == c.tweet;
    NewestLeads(c.db, Everyone, c.tweet);
    ResumeMembers(c.db, Everyone, None);
    PageOfResume(c.db, viewer, Everyone, limit, None);
  }

  // ------------------------------------------------------------- toggleLike

  datatype Toggled = Toggled(db: Db, addedLike: bool)

  /** `toggleLike`: removes the viewer's like of `id` when it exists and
      reports `addedLike = false`; otherwise inserts it and reports `true`.
      Inserting a like of a tweet that does not exist is refused by the
      foreign key. */
  function ToggleLike(db: Db, viewer: UserId, id: TweetId): (r: Result<Toggled, DbError>)
    ensures r.Failure? <==> Like(viewer, id) !in db.likes && !HasTweet(db, id)
    ensures r.Failure? ==> r.error == ForeignKeyViolation
    ensures r.Success? ==>
      && (r.value.addedLike <==> Like(viewer, id) !in db.likes)
      && (Like(viewer, id) in r.value.db.likes <==> r.value.addedLike)
      && (forall l :: l != Like(viewer, id) ==> (l in r.value.db.likes <==> l in db.likes))
      && r.value.db.tweets == db.tweets && r.value.db.follows == db.follows
    ensures ValidDb(db) && r.Success? ==> ValidDb(r.value.db)
  {
    var data := Like(viewer, id);
    if data !in db.likes then
      if HasTweet(db, id) then Success(Toggled(db.(likes := db.likes + {data}), true))
      else Failure(ForeignKeyViolation)
    else
      Success(Toggled(db.(likes := db.likes - {data}), false))
  }

  /** A toggle moves the toggled tweet's like count by exactly one, up when a
      like was added and down when one was removed, and leaves every other
      tweet's count alone. */
  lemma ToggleLikeCount(db: Db, viewer: UserId, id: TweetId, t: TweetId)
    requires ToggleLike(db, viewer, id).Success?
    ensures var r := ToggleLike(db, viewer, id).value;
      LikeCount(r.db.likes, t) ==
        if t != id then LikeCount(db.likes, t)
        else if r.addedLike then LikeCount(db.likes, t) + 1
        else LikeCount(db.likes, t) - 1
  {
    var r := ToggleLike(db, viewer, id).value;
    var data := Like(viewer, id);
    var before := set l | l in db.likes && l.tweetId == t;
    var after := set l | l in r.db.likes && l.tweetId == t;
    if t != id {
      assert after == before;
    } else if r.addedLike {
      assert after == before + {data};
    } else {
      assert after == before - {data};
    }
  }

  /** Toggling twice restores the like set: the first toggle adds the like
      exactly when the second removes it. */
  lemma ToggleTwiceRestores(db: Db, viewer: UserId, id: TweetId)
    requires ValidDb(db)
    requires ToggleLike(db, viewer, id).Success?
    ensures var r1 := ToggleLike(db, viewer, id).value;
      var r2 := ToggleLike(r1.db, viewer, id);
      && r2.Success?
      && r2.value.addedLike == !r1.addedLike
      && r2.value.db == db
  {
    var r1 := ToggleLike(db, viewer, id).value;
    var r2 := ToggleLike(r1.db, viewer, id);
    assert r2.Success?;
    assert r2.value.db.likes == db.likes;
  }

  /** After a successful toggle, any page the viewer fetches shows the toggled
      tweet with `likedByMe` equal to `addedLike` and its count moved by one. */
  lemma ToggleShowsInFeed(db: Db, viewer: UserId, id: TweetId, w: Where, limit: nat, cursor: Option<Key>)
    requires ValidDb(db)
    requires ToggleLike(db, viewer, id).Success?
    ensures var r := ToggleLike(db, viewer, id).value;
      var p := GetInfiniteTweets(r.db, Some(viewer), w, limit, cursor);
      forall i :: 0 <= i < |p.tweets| && p.tweets[i].id == id ==>
        && p.tweets[i].likedByMe == r.addedLike
        && p.tweets[i].likeCount == if r.addedLike then LikeCount(db.likes, id) + 1 else LikeCount(db.likes, id) - 1
  {
    ToggleLikeCount(db, viewer, id, id);
  }
}
