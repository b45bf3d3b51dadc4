/** The feed list component: which of its four states it shows, what the
    populated list hands to the infinite-scroll container, and how each
    tweet's heart control is chosen. Only these decisions are modelled; the
    markup, styling and date formatting are not. */
module TweetList {
  import opened Common
  import opened KeyOrder
  import opened Store
  import opened TweetRouter
  import opened Pagination

  /** The component's props. `isLoading` and `isError` are optional and take
      effect only when present and true; `tweets` may be absent (null). The
      `fetchNewTweets` callback is only passed through and is not modelled. */
  datatype ListProps = ListProps(
    isLoading: Option<bool>,
    isError: Option<bool>,
    hasMore: bool,
    tweets: Option<seq<TweetView>>)

  /** The session states the heart control distinguishes. */
  datatype SessionStatus = Authenticated | Unauthenticated | SessionLoading

  datatype HeartIcon = HeartFilled | HeartOutline

  /** The heart control: its icon, whether it is a button (interactive) or
      plain text, and the count shown beside it. */
  datatype HeartView = HeartView(icon: HeartIcon, interactive: bool, count: nat)

  /** One rendered tweet: its list key, the author's profile link, the tweet
      it shows and its heart control. */
  datatype Card = Card(key: TweetId, profileHref: string, tweet: TweetView, heart: HeartView)

  /** The four mutually exclusive things the list can show. A populated list
      passes `hasMore` and `dataLength` to the infinite-scroll container. */
  datatype ListView =
    | Loading
    | Failed
    | NoTweets
    | Populated(hasMore: bool, dataLength: nat, cards: seq<Card>)

  /** An optional flag counts as set only when present and true. */
  predicate IsSet(flag: Option<bool>) {
    flag == Some(true)
  }

  /** `HeartButton`: the icon follows `likedByMe`, the control is a button
      only for a signed-in session, and the count is always `likeCount`. */
  function Heart(status: SessionStatus, likedByMe: bool, likeCount: nat): (h: HeartView)
    ensures h.icon == HeartFilled <==> likedByMe
    ensures h.interactive <==> status == Authenticated
    ensures h.count == likeCount
  {
    var icon := if likedByMe then HeartFilled else HeartOutline;
    if status != Authenticated then HeartView(icon, false, likeCount)
    else HeartView(icon, true, likeCount)
  }

  /** `TweetCard`, keyed by the tweet id. */
  function CardOf(status: SessionStatus, t: TweetView): Card {
    Card(t.id, "/profiles/" + t.user.id, t, Heart(status, t.likedByMe, t.likeCount))
  }

  /** `tweets.map(tweet => <TweetCard key={tweet.id} .../>)`. */
  function Cards(status: SessionStatus, ts: seq<TweetView>): (cs: seq<Card>)
    ensures |cs| == |ts|
    ensures forall i {:trigger cs[i]} :: 0 <= i < |ts| ==> cs[i] == CardOf(status, ts[i])
  {
    if |ts| == 0 then [] else [CardOf(status, ts[0])] + Cards(status, ts[1..])
  }

  /** `InfiniteTweetList`: loading wins over error, error over an absent or
      empty list; otherwise the tweets are shown in their given order. */
  function Render(props: ListProps, status: SessionStatus): (v: ListView)
    ensures v.Loading? <==> IsSet(props.isLoading)
    ensures v.Failed? <==> !IsSet(props.isLoading) && IsSet(props.isError)
    ensures v.NoTweets? <==>
      !IsSet(props.isLoading) && !IsSet(props.isError) && (props.tweets.None? || |props.tweets.value| == 0)
    ensures v.Populated? <==>
      !IsSet(props.isLoading) && !IsSet(props.isError) && props.tweets.Some? && |props.tweets.value| > 0
    ensures v.Populated? ==>
      && v.hasMore == props.hasMore
      && v.dataLength == |props.tweets.value| == |v.cards|
      && forall i :: 0 <= i < |v.cards| ==>
           && v.cards[i].key == props.tweets.value[i].id
           && v.cards[i].tweet == props.tweets.value[i]
           && v.cards[i].heart == Heart(status, props.tweets.value[i].likedByMe, props.tweets.value[i].likeCount)
  {
    if IsSet(props.isLoading) then Loading
    else if IsSet(props.isError) then Failed
    else if props.tweets.None? || |props.tweets.value| == 0 then NoTweets
    else
      var ts := props.tweets.value;
      Populated(props.hasMore, |ts|, Cards(status, ts))
  }

  /** The props a feed page passes once every page has been fetched: the
      concatenated tweets, and more to come exactly when the last page
      returned a cursor. */
  function LoadedProps(pages: seq<Page>): ListProps
    requires |pages| > 0
  {
    ListProps(None, None, pages[|pages| - 1].nextCursor.Some?, Some(Flatten(pages)))
  }

  /** Rendering a fully fetched feed: the list is empty exactly when no
      tweet is eligible; otherwise it shows one card per eligible tweet, in
      feed order, with pairwise distinct keys, and asks for nothing more. */
  lemma LoadedFeedView(db: Db, viewer: Option<UserId>, onlyFollowing: Option<bool>, limit: Option<nat>,
                       status: SessionStatus)
    requires DistinctIds(db.tweets)
    requires EffectiveLimit(limit) > 0
    ensures var pages := FetchAllPages(db, viewer, onlyFollowing, limit, None);
      var e := Eligible(db, FilterFor(viewer, onlyFollowing));
      var v := Render(LoadedProps(pages), status);
      && (v.NoTweets? <==> |e| == 0)
      && (v.Populated? <==> |e| > 0)
      && (v.Populated? ==>
            && !v.hasMore
            && |v.cards| == |e|
            && (forall i :: 0 <= i < |v.cards| ==> v.cards[i].key == e[i].id)
            && (forall i, j :: 0 <= i < j < |v.cards| ==> v.cards[i].key != v.cards[j].key))
  {
    var pages := FetchAllPages(db, viewer, onlyFollowing, limit, None);
    var w := FilterFor(viewer, onlyFollowing);
    var e := Eligible(db, w);
    var all := Flatten(pages);
    WholeFeedIsEligible(db, viewer, onlyFollowing, limit);
    assert all == Views(db.likes, viewer, e);
    var v := Render(LoadedProps(pages), status);
    if v.Populated? {
      forall i | 0 <= i < |v.cards|
        ensures v.cards[i].key == e[i].id
      {
        assert v.cards[i].key == all[i].id;
      }
    }
  }

  /** After a successful like toggle, the toggled tweet's heart on any page a
      signed-in viewer fetches shows the new state: filled exactly when the
      like was added, with the count moved by one. */
  lemma ToggleFlipsHeart(db: Db, viewer: UserId, id: TweetId, w: Where, limit: nat, cursor: Option<Key>)
    requires ValidDb(db)
    requires ToggleLike(db, viewer, id).Success?
    ensures var r := ToggleLike(db, viewer, id).value;
      var cs := Cards(Authenticated, GetInfiniteTweets(r.db, Some(viewer), w, limit, cursor).tweets);
      forall i :: 0 <= i < |cs| && cs[i].key == id ==>
        && cs[i].heart.interactive
        && (cs[i].heart.icon == HeartFilled <==> r.addedLike)
        && cs[i].heart.count == if r.addedLike then LikeCount(db.likes, id) + 1 else LikeCount(db.likes, id) - 1
  {
    ToggleShowsInFeed(db, viewer, id, w, limit, cursor);
  }
}
