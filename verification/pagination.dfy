/** Cursor chaining: a client that feeds each page's `nextCursor` back into
    `infiniteFeed` until none is returned (the `getNextPageParam` pattern),
    and the theorem that the pages it collects list every eligible tweet
    exactly once, in feed order. */
module Pagination {
  import opened Common
  import opened KeyOrder
  import opened Store
  import opened TweetRouter

  /** The where clause `infiniteFeed` uses for this viewer and flag. */
  function FilterFor(viewer: Option<UserId>, onlyFollowing: Option<bool>): Where {
    FeedFilter(viewer, onlyFollowing.GetOr(false))
  }

  lemma InfiniteFeedIsQuery(db: Db, viewer: Option<UserId>, input: FeedInput)
    requires DistinctIds(db.tweets)
    ensures InfiniteFeed(db, viewer, input)
         == GetInfiniteTweets(db, viewer, FilterFor(viewer, input.onlyFollowing), EffectiveLimit(input.limit), input.cursor)
  {
  }

  /** Resuming at the popped row's key gives exactly the rows after the
      current page: inclusive resumption loses and repeats nothing. */
  lemma ResumeAdvances(db: Db, w: Where, cursor: Option<Key>, limit: nat)
    requires DistinctIds(db.tweets)
    requires |Resume(db, w, cursor)| > limit
    ensures Resume(db, w, Some(Resume(db, w, cursor)[limit].OrderKey())) == Resume(db, w, cursor)[limit..]
  {
    var e := Eligible(db, w);
    var n := ResumeAt(db, w, cursor);
    assert Resume(db, w, cursor)[limit] == e[n + limit];
    EligibleKeyExists(db, w, n + limit);
    SkipBeforeAt(e, n + limit);
    assert ResumeAt(db, w, Some(e[n + limit].OrderKey())) == n + limit;
  }

  /** Page `i + 1` was fetched with the cursor page `i` returned. */
  predicate Linked(db: Db, viewer: Option<UserId>, w: Where, limit: nat, pages: seq<Page>, i: nat)
    requires DistinctIds(db.tweets)
    requires i + 1 < |pages|
  {
    pages[i].nextCursor.Some? && pages[i + 1] == GetInfiniteTweets(db, viewer, w, limit, pages[i].nextCursor)
  }

  /** The pages of one query from `cursor` on, each fetched with the cursor
      the previous one returned. */
  function Chain(db: Db, viewer: Option<UserId>, w: Where, limit: nat, cursor: Option<Key>): (pages: seq<Page>)
    requires DistinctIds(db.tweets)
    requires limit > 0
    ensures |pages| > 0
    ensures pages[0] == GetInfiniteTweets(db, viewer, w, limit, cursor)
    ensures forall i: nat {:trigger Linked(db, viewer, w, limit, pages, i)} ::
      i + 1 < |pages| ==> Linked(db, viewer, w, limit, pages, i)
    ensures pages[|pages| - 1].nextCursor.None?
    decreases |Resume(db, w, cursor)|
  {
    var p := GetInfiniteTweets(db, viewer, w, limit, cursor);
    if p.nextCursor.None? then [p]
    else
      PageOfResume(db, viewer, w, limit, cursor);
      ResumeAdvances(db, w, cursor, limit);
      var tail := Chain(db, viewer, w, limit, p.nextCursor);
      ChainStep(p, tail, db, viewer, w, limit);
      [p] + tail
  }

  lemma ChainStep(p: Page, tail: seq<Page>, db: Db, viewer: Option<UserId>, w: Where, limit: nat)
    requires DistinctIds(db.tweets)
    requires p.nextCursor.Some? && |tail| > 0
    requires tail[0] == GetInfiniteTweets(db, viewer, w, limit, p.nextCursor)
    requires forall i: nat {:trigger Linked(db, viewer, w, limit, tail, i)} ::
      i + 1 < |tail| ==> Linked(db, viewer, w, limit, tail, i)
    ensures var pages := [p] + tail;
      forall i: nat {:trigger Linked(db, viewer, w, limit, pages, i)} ::
        i + 1 < |pages| ==> Linked(db, viewer, w, limit, pages, i)
  {
    var pages := [p] + tail;
    forall i: nat | i + 1 < |pages|
      ensures Linked(db, viewer, w, limit, pages, i)
    {
      assert pages[i + 1] == tail[i];
      if i > 0 {
        assert pages[i] == tail[i - 1];
        assert Linked(db, viewer, w, limit, tail, i - 1);
      }
    }
  }

  /** Page `i + 1` was requested from `infiniteFeed` with the cursor page
      `i` returned and the same filter flag and page size. */
  predicate FeedLinked(db: Db, viewer: Option<UserId>, onlyFollowing: Option<bool>, limit: Option<nat>,
                       pages: seq<Page>, i: nat)
    requires DistinctIds(db.tweets)
    requires i + 1 < |pages|
  {
    && pages[i].nextCursor.Some?
    && pages[i + 1] == InfiniteFeed(db, viewer, FeedInput(onlyFollowing, limit, pages[i].nextCursor))
  }

  /** What a client collects by calling `infiniteFeed` with a fixed filter
      flag and page size, starting at `cursor` and following `nextCursor`
      until it is absent. */
  function FetchAllPages(db: Db, viewer: Option<UserId>, onlyFollowing: Option<bool>, limit: Option<nat>,
                         cursor: Option<Key>): (pages: seq<Page>)
    requires DistinctIds(db.tweets)
    requires EffectiveLimit(limit) > 0
    ensures |pages| > 0
    ensures pages[0] == InfiniteFeed(db, viewer, FeedInput(onlyFollowing, limit, cursor))
    ensures forall i: nat {:trigger FeedLinked(db, viewer, onlyFollowing, limit, pages, i)} ::
      i + 1 < |pages| ==> FeedLinked(db, viewer, onlyFollowing, limit, pages, i)
    ensures pages[|pages| - 1].nextCursor.None?
  {
    var w := FilterFor(viewer, onlyFollowing);
    var pages := Chain(db, viewer, w, EffectiveLimit(limit), cursor);
    InfiniteFeedIsQuery(db, viewer, FeedInput(onlyFollowing, limit, cursor));
    forall i: nat | i + 1 < |pages|
      ensures FeedLinked(db, viewer, onlyFollowing, limit, pages, i)
    {
      assert Linked(db, viewer, w, EffectiveLimit(limit), pages, i);
      InfiniteFeedIsQuery(db, viewer, FeedInput(onlyFollowing, limit, pages[i].nextCursor));
    }
    pages
  }

  /** All tweets of a sequence of pages, in order (`pages.flatMap(page => page.tweets)`). */
  function Flatten(pages: seq<Page>): seq<TweetView> {
    if |pages| == 0 then [] else pages[0].tweets + Flatten(pages[1..])
  }

  /** One step of `Chain`: the first page, then the chain from its cursor. */
  lemma ChainUnfold(db: Db, viewer: Option<UserId>, w: Where, limit: nat, cursor: Option<Key>)
    requires DistinctIds(db.tweets)
    requires limit > 0
    ensures var p := GetInfiniteTweets(db, viewer, w, limit, cursor);
      Chain(db, viewer, w, limit, cursor)
        == if p.nextCursor.None? then [p] else [p] + Chain(db, viewer, w, limit, p.nextCursor)
  {
  }

  lemma FlattenCons(p: Page, tail: seq<Page>)
    ensures Flatten([p] + tail) == p.tweets + Flatten(tail)
  {
    assert ([p] + tail)[1..] == tail;
  }

  /** Putting a full page in front of pages that respect the size bounds
      keeps them respected. */
  lemma ConsSizes(p: Page, tail: seq<Page>, limit: nat)
    requires |p.tweets| == limit
    requires forall i :: 0 <= i < |tail| ==> |tail[i].tweets| <= limit
    requires forall i :: 0 <= i < |tail| - 1 ==> |tail[i].tweets| == limit
    ensures var pages := [p] + tail;
      && (forall i :: 0 <= i < |pages| ==> |pages[i].tweets| <= limit)
      && (forall i :: 0 <= i < |pages| - 1 ==> |pages[i].tweets| == limit)
  {
    var pages := [p] + tail;
    forall i | 1 <= i < |pages|
      ensures |pages[i].tweets| <= limit
      ensures i < |pages| - 1 ==> |pages[i].tweets| == limit
    {
      assert pages[i] == tail[i - 1];
    }
  }

  /** Every page holds at most `limit` tweets, and each page but the last
      holds exactly `limit`. */
  lemma {:induction false} PageSizes(db: Db, viewer: Option<UserId>, w: Where, limit: nat, cursor: Option<Key>)
    requires DistinctIds(db.tweets)
    requires limit > 0
    ensures var pages := Chain(db, viewer, w, limit, cursor);
      && (forall i :: 0 <= i < |pages| ==> |pages[i].tweets| <= limit)
      && (forall i :: 0 <= i < |pages| - 1 ==> |pages[i].tweets| == limit)
    decreases |Resume(db, w, cursor)|
  {
    var p := GetInfiniteTweets(db, viewer, w, limit, cursor);
    PageOfResume(db, viewer, w, limit, cursor);
    ChainUnfold(db, viewer, w, limit, cursor);
    if p.nextCursor.Some? {
      ResumeAdvances(db, w, cursor, limit);
      PageSizes(db, viewer, w, limit, p.nextCursor);
      ConsSizes(p, Chain(db, viewer, w, limit, p.nextCursor), limit);
    }
  }

  /** Chaining covers the feed: the pages fetched from `cursor` on,
      concatenated, are exactly the eligible rows from `cursor` on, each once,
      in feed order, with their like projections. */
  lemma {:induction false} ChainCoversResume(db: Db, viewer: Option<UserId>, w: Where, limit: nat, cursor: Option<Key>)
    requires DistinctIds(db.tweets)
    requires limit > 0
    ensures Flatten(Chain(db, viewer, w, limit, cursor)) == Views(db.likes, viewer, Resume(db, w, cursor))
    decreases |Resume(db, w, cursor)|
  {
    var rest := Resume(db, w, cursor);
    var p := GetInfiniteTweets(db, viewer, w, limit, cursor);
    PageOfResume(db, viewer, w, limit, cursor);
    ChainUnfold(db, viewer, w, limit, cursor);
    if p.nextCursor.Some? {
      ResumeAdvances(db, w, cursor, limit);
      ChainCoversResume(db, viewer, w, limit, p.nextCursor);
      FlattenCons(p, Chain(db, viewer, w, limit, p.nextCursor));
      ViewsSplit(db.likes, viewer, rest, limit);
    } else {
      FlattenCons(p, []);
      ViewsSplit(db.likes, viewer, rest, |rest|);
    }
  }

  /** The views of a sequence are the views of its first `k` rows followed
      by the views of the rest. */
  lemma ViewsSplit(likes: set<Like>, viewer: Option<UserId>, rows: seq<Row>, k: nat)
    requires k <= |rows|
    ensures Views(likes, viewer, rows) == Views(likes, viewer, rows[..k]) + Views(likes, viewer, rows[k..])
  {
    ViewsAppend(likes, viewer, rows[..k], rows[k..]);
    assert rows == rows[..k] + rows[k..];
  }

  /** The whole feed, fetched page by page from the first page on, is the
      ordered list of all eligible tweets: nothing is missing, nothing is
      repeated, the order is strictly newest first, and every page respects
      the page size. */
  lemma WholeFeedIsEligible(db: Db, viewer: Option<UserId>, onlyFollowing: Option<bool>, limit: Option<nat>)
    requires DistinctIds(db.tweets)
    requires EffectiveLimit(limit) > 0
    ensures var pages := FetchAllPages(db, viewer, onlyFollowing, limit, None);
      var all := Flatten(pages);
      var w := FilterFor(viewer, onlyFollowing);
      && all == Views(db.likes, viewer, Eligible(db, w))
      && (forall i :: 0 <= i < |pages| ==> |pages[i].tweets| <= EffectiveLimit(limit))
      && (forall i :: 0 <= i < |pages| - 1 ==> |pages[i].tweets| == EffectiveLimit(limit))
      && (forall i, j :: 0 <= i < j < |all| ==> all[i].id != all[j].id)
      && (forall i, j :: 0 <= i < j < |all| ==>
            Before(Key(all[i].createdAt, all[i].id), Key(all[j].createdAt, all[j].id)))
      && (forall r :: r in db.tweets && Matches(db.follows, w, r) ==>
            exists i :: 0 <= i < |all| && all[i].id == r.id)
  {
    var w := FilterFor(viewer, onlyFollowing);
    var n := EffectiveLimit(limit);
    ChainCoversResume(db, viewer, w, n, None);
    PageSizes(db, viewer, w, n, None);
    var all := Flatten(FetchAllPages(db, viewer, onlyFollowing, limit, None));
    var e := Eligible(db, w);
    assert all == Views(db.likes, viewer, e);
    forall i, j | 0 <= i < j < |all|
      ensures all[i].id != all[j].id
      ensures Before(Key(all[i].createdAt, all[i].id), Key(all[j].createdAt, all[j].id))
    {
      assert all[i].id == e[i].id && all[i].createdAt == e[i].createdAt;
      assert all[j].id == e[j].id && all[j].createdAt == e[j].createdAt;
      SortedAt(e, i, j);
      DistinctAt(e, i, j);
    }
    EligibleMembers(db, w);
    forall r | r in db.tweets && Matches(db.follows, w, r)
      ensures exists i :: 0 <= i < |all| && all[i].id == r.id
    {
      var i :| 0 <= i < |e| && e[i] == r;
      assert all[i].id == r.id;
    }
  }

  /** With a page size of zero the chain never advances: the page is empty
      and its cursor names the row the request started from, so feeding it
      back returns the same page again. */
  lemma ZeroLimitStalls(db: Db, viewer: Option<UserId>, onlyFollowing: Option<bool>, cursor: Option<Key>)
    requires DistinctIds(db.tweets)
    requires |Resume(db, FilterFor(viewer, onlyFollowing), cursor)| > 0
    ensures var p := InfiniteFeed(db, viewer, FeedInput(onlyFollowing, Some(0), cursor));
      && p.tweets == []
      && p.nextCursor.Some?
      && InfiniteFeed(db, viewer, FeedInput(onlyFollowing, Some(0), p.nextCursor)) == p
  {
    var w := FilterFor(viewer, onlyFollowing);
    var p := InfiniteFeed(db, viewer, FeedInput(onlyFollowing, Some(0), cursor));
    InfiniteFeedIsQuery(db, viewer, FeedInput(onlyFollowing, Some(0), cursor));
    InfiniteFeedIsQuery(db, viewer, FeedInput(onlyFollowing, Some(0), p.nextCursor));
    ResumeAdvances(db, w, cursor, 0);
    PageOfResume(db, viewer, w, 0, cursor);
    assert ResumeAt(db, w, p.nextCursor) == ResumeAt(db, w, cursor);
  }

  /** Three tweets `a`, `b`, `c`, created in that order, paged two at a
      time: the first page is `c, b` and its cursor is the key of `a`, the
      popped row, not of `b`, the last row shown; resuming there returns
      `a` alone and no further cursor. */
  lemma ThreeTweetScenario(author: Author)
    ensures var a := Row("a", "first", 1, author);
      var b := Row("b", "second", 2, author);
      var c := Row("c", "third", 3, author);
      var db := Db([a, b, c], {}, {});
      var p1 := GetInfiniteTweets(db, None, Everyone, 2, None);
      && p1.tweets == Views({}, None, [c, b])
      && p1.nextCursor == Some(Key(1, "a"))
      && GetInfiniteTweets(db, None, Everyone, 2, p1.nextCursor) == Page(Views({}, None, [a]), None)
  {
    var a := Row("a", "first", 1, author);
    var b := Row("b", "second", 2, author);
    var c := Row("c", "third", 3, author);
    var db := Db([a, b, c], {}, {});
    assert DistinctIds(db.tweets) by {
      forall i: nat, j: nat | i < j < 3
        ensures IdAt(db.tweets, i) != IdAt(db.tweets, j)
      {
      }
    }
    var s := [c, b, a];
    assert Sorted(s) by {
      forall i: nat, j: nat | i < j < 3
        ensures Before(KeyAt(s, i), KeyAt(s, j))
      {
      }
    }
    assert forall r :: r in s <==> r in db.tweets && Matches(db.follows, Everyone, r);
    EligibleIsUnique(db, Everyone, s);
    PageOfResume(db, None, Everyone, 2, None);
    ResumeMembers(db, Everyone, None);
    var p1 := GetInfiniteTweets(db, None, Everyone, 2, None);
    assert p1.nextCursor == Some(a.OrderKey());
    ResumeAdvances(db, Everyone, None, 2);
    PageOfResume(db, None, Everyone, 2, p1.nextCursor);
    assert Resume(db, Everyone, p1.nextCursor) == [a];
  }
}
