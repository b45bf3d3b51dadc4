# Tweet feed core, modelled in Dafny

This project models the server and list logic of a small Twitter-like
application (a Next.js/tRPC/Prisma app). It covers four things:

- the `tweet` router's `infiniteFeed` query and its `getInfiniteTweets` helper;
- the `create` and `toggleLike` mutations;
- a client that follows `nextCursor` from page to page;
- the list component's choice of what to show, and how it draws the heart control.

The database is an immutable value: a sequence of tweet rows with unique
ids, a set of (user, tweet) like pairs and a set of follow pairs. Every
operation is a pure function of that value.

Modules, in dependency order:

- `Common` (common.dfy): `Option` and `Result`.
- `KeyOrder` (order.dfy): the feed order. Keys are compared by `createdAt`, newest first, and ties are broken by larger `id` first. Ids are compared lexicographically. The order is proved irreflexive, transitive, asymmetric and total.
- `Store` (store.dfy): rows, the where clause, the sort and the filter. It also has `Eligible` (the filtered, ordered table), inclusive cursor resumption (`ResumeAt`/`Resume`) and `FindMany`.
- `TweetRouter` (tweet_router.dfy): `InfiniteFeed`, `GetInfiniteTweets`, `Create` and `ToggleLike`, with their properties.
- `Pagination` (pagination.dfy): the chain of pages obtained by feeding each `nextCursor` back. It ends with the theorem that the pages list every eligible tweet exactly once, in feed order.
- `TweetList` (tweet_list.dfy): the list's four states, the cards and the heart control.

A page's `nextCursor` is not the last tweet shown. `getInfiniteTweets`
fetches `limit + 1` rows and pops the last one (tweet.ts:95-98); the key
of that popped row, which is the first row of the next page, becomes
`nextCursor`. The next query resumes at that row and includes it
(tweet.ts:79). `Pagination.ThreeTweetScenario` works this through on three
tweets.

## Model

| member | source | states |
|---|---|---|
| KeyOrder.BeforeTotal | src/server/api/routers/tweet.ts:80 | Any two different keys are ordered one way or the other, so `orderBy: [createdAt desc, id desc]` is a strict total order on rows with unique ids |
| KeyOrder.BeforeTransitive | src/server/api/routers/tweet.ts:80 | The feed order is transitive |
| Store.Select | src/server/api/routers/tweet.ts:81 | A row is kept by the where clause exactly when it is in the table and satisfies the filter; unique ids stay unique |
| Store.SortDesc | src/server/api/routers/tweet.ts:80 | The sorted rows are strictly ordered newest first (ties by larger id), have unique ids, and are a permutation of the input |
| Store.SortedEqual | src/server/api/routers/tweet.ts:80 | Two strictly ordered sequences with the same members are equal, so the ordered result does not depend on table order |
| Store.EligibleMembers | src/server/api/routers/tweet.ts:77-81 | The ordered query result holds exactly the table rows that pass the filter |
| Store.EligibleIsUnique | src/server/api/routers/tweet.ts:80-81 | Any strictly ordered enumeration of the matching rows is the query result |
| Store.NewestLeads | src/server/api/routers/tweet.ts:80 | A matching row strictly newer than every other row heads the ordered result |
| Store.SkipBeforeAt | src/server/api/routers/tweet.ts:79 | In ordered rows, resuming at row k's key starts exactly at row k (the cursor is inclusive) |
| Store.ResumeMembers | src/server/api/routers/tweet.ts:79 | No cursor keeps every eligible row; a cursor naming no row keeps none; otherwise exactly the eligible rows not ordered before the cursor are kept |
| Store.FindMany | src/server/api/routers/tweet.ts:77-81 | `findMany` returns the first `min(take, remaining)` eligible rows from the cursor position, in order |
| TweetRouter.EffectiveLimit | src/server/api/routers/tweet.ts:21 | An omitted `limit` defaults to 10; a given one is used as is |
| TweetRouter.FeedFilter | src/server/api/routers/tweet.ts:27-33 | The following-only filter applies exactly when a viewer is signed in and asked for it, and it names that viewer |
| TweetRouter.InfiniteFeed | src/server/api/routers/tweet.ts:21-35 | The query is `getInfiniteTweets` with the followed-by-viewer filter when signed in with `onlyFollowing`, and with no filter otherwise |
| TweetRouter.EmptyInputDefaults | src/server/api/routers/tweet.ts:21 | An empty input behaves as `onlyFollowing = false, limit = 10` and yields min(10, eligible) tweets |
| TweetRouter.FollowingFeedIsFollowed | src/server/api/routers/tweet.ts:27-33 | Every tweet on a signed-in following-only page is by an author the viewer follows, and every tweet by a followed author is among the rows that feed is drawn from |
| TweetRouter.GetInfiniteTweets | src/server/api/routers/tweet.ts:65-109 | A page has at most `limit` tweets; each tweet's `likeCount` is the number of its likes, and `likedByMe` holds iff a viewer is present and has liked it |
| TweetRouter.Views | src/server/api/routers/tweet.ts:103-107 | The like projection keeps one view per row, in order, each with that row's fields, count and liked flag |
| TweetRouter.PageOfResume | src/server/api/routers/tweet.ts:77-100 | The page is the first rows from the cursor on; `nextCursor` is present iff more than `limit` rows remain, and then the page is full and the cursor is the key of the row after it |
| TweetRouter.CursorRowNotOnPage | src/server/api/routers/tweet.ts:94-99 | The popped row whose key becomes `nextCursor` is not on the returned page |
| TweetRouter.PageIsOrdered | src/server/api/routers/tweet.ts:80 | The tweets of a page are strictly newest first, ties by larger id |
| TweetRouter.Create | src/server/api/routers/tweet.ts:37-45 | `create` appends one tweet with the given content, author, id and time and changes nothing else; an id already in use is refused; table constraints are preserved |
| TweetRouter.CreateExtendsFeeds | src/server/api/routers/tweet.ts:37-45 | After `create`, each feed holds its previous rows plus the new tweet exactly when that tweet passes the filter |
| TweetRouter.CreateNewestFirst | src/server/api/routers/tweet.ts:37-45 | A tweet newer than all others appears first on the first unfiltered page |
| TweetRouter.ToggleLike | src/server/api/routers/tweet.ts:46-61 | An existing like is deleted (`addedLike = false`) and a missing one inserted (`addedLike = true`); other like pairs, tweets and follows are unchanged; liking a missing tweet fails on the foreign key |
| TweetRouter.ToggleLikeCount | src/server/api/routers/tweet.ts:46-61 | A toggle moves the toggled tweet's like count up by one when it adds and down by one when it removes, and no other count changes |
| TweetRouter.ToggleTwiceRestores | src/server/api/routers/tweet.ts:46-61 | Toggling the same like twice succeeds, flips `addedLike`, and restores the original database |
| TweetRouter.ToggleShowsInFeed | src/server/api/routers/tweet.ts:102-107 | After a toggle, the tweet on the viewer's pages shows `likedByMe = addedLike` and the count moved by one |
| Pagination.ResumeAdvances | src/server/api/routers/tweet.ts:94-99 | Resuming at a page's `nextCursor` yields exactly the rows after that page, so nothing is lost or repeated |
| Pagination.Chain | src/server/api/routers/tweet.ts:94-109 | Following `nextCursor` gives pages each fetched with the previous page's cursor, ending with a page without one |
| Pagination.FetchAllPages | src/server/api/routers/tweet.ts:21-35 | The same chain, stated through the `infiniteFeed` input with a fixed filter flag and limit |
| Pagination.PageSizes | src/server/api/routers/tweet.ts:77-100 | Every page of the chain has at most `limit` tweets and every page but the last has exactly `limit` |
| Pagination.ChainCoversResume | src/server/api/routers/tweet.ts:77-109 | The concatenated pages from a cursor are exactly the eligible rows from that cursor on, with their like projections |
| Pagination.WholeFeedIsEligible | src/server/api/routers/tweet.ts:77-109 | Fetching from the start until no cursor lists every matching tweet exactly once, strictly newest first, with full pages but the last |
| Pagination.ThreeTweetScenario | src/server/api/routers/tweet.ts:94-99 | Three tweets paged two at a time: the first page shows the two newest, its cursor is the key of the oldest (the popped row), and resuming there returns that row alone with no cursor |
| Pagination.ZeroLimitStalls | src/server/api/routers/tweet.ts:95-99 | With `limit = 0` and rows remaining, the page is empty but a cursor is returned, and that cursor yields the same page again |
| TweetList.Heart | src/components/InfiniteTweetList.tsx:81-111 | The heart is filled iff `likedByMe`, is a button iff the session is authenticated, and always shows `likeCount` |
| TweetList.Cards | src/components/InfiniteTweetList.tsx:43-45 | One card per tweet, in input order, each keyed by the tweet id |
| TweetList.Render | src/components/InfiniteTweetList.tsx:25-49 | Loading wins over error, error wins over an absent or empty list, otherwise the list is populated with `hasMore` passed through, `dataLength` = number of tweets, and one card per tweet in order |
| TweetList.LoadedFeedView | src/components/InfiniteTweetList.tsx:35-48 | A fully fetched feed renders as empty iff no tweet is eligible, otherwise one card per eligible tweet in feed order with distinct keys and `hasMore = false` |
| TweetList.ToggleFlipsHeart | src/components/InfiniteTweetList.tsx:81-111 | After a toggle, the signed-in viewer's card for that tweet shows an interactive heart, filled iff the like was added, with the count moved by one |

## Left out

- TweetRouter.EffectiveLimit: `limit` is a natural number. The input schema accepts any number, and a negative or fractional `take` is not modelled. `limit = 0` is modelled, and `Pagination.ZeroLimitStalls` shows it never advances. The chaining theorems therefore require a positive limit.
- TweetRouter.GetInfiniteTweets: with no viewer, the query deselects `likes` (tweet.ts:87) but the projection still reads `likes.length` (tweet.ts:106). The model takes the evident meaning: with no viewer, `likedByMe` is false. It does not model what the ORM returns at run time.
- Store.Resume: a cursor key that names no row of the table yields no rows. This is an assumption about the ORM's cursor handling, which is not in this repository's code.
- Store.Select: only the `followers: { some: { id: viewer } }` filter is modelled, as follow pairs. The other where shapes Prisma accepts are not modelled.
- TweetRouter.Create: the author summary (`id`, `name`, `image`) is copied into each row when the tweet is created. The code stores only `userId` (tweet.ts:41) and joins `user: { name, id, image }` when the feed is read (tweet.ts:88-90). The model therefore has no user table: two rows by the same author can carry different names, and a later profile change is not reflected in older tweets.
- TweetRouter.Create: the generated id and the creation time are parameters, because they come from the database's id generator and clock. The `content` string is stored as given.
- Input validation (zod), session resolution and `protectedProcedure` enforcement: framework plumbing. A signed-in viewer is an `Option` input. `toggleLike` takes the viewer's id, and `create` takes the signed-in user's author summary.
- The read-then-write race in `toggleLike`: concurrency. Each call is atomic in the model.
- String collation of ids in the database: ids are compared by code-point lexicographic order.
- Rendering: markup, CSS classes, date formatting, the infinite-scroll proximity trigger, `useSession` internals and the `fetchNewTweets` callback are not modelled.
- src/server/api/root.ts and src/server/api/ssgHelper.ts: router composition and server-side helper wiring, with no logic of their own.
- src/pages/profiles/[id].tsx: it calls an `infiniteProfileFeed` procedure that `tweet.ts` does not define, so it is not part of this model.
- Client cache updates after `create` or `toggleLike`: not in tweet.ts or InfiniteTweetList.tsx, so not part of this model.
