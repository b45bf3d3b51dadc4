/** The storage layer the tweet router talks to, reduced to its meaning:
    a table of tweet rows, a set of like pairs and a set of follow pairs, and
    `findMany` as a pure function that filters, orders, resumes at a cursor
    and takes a bounded number of rows. */
module Store {
  import opened Common
  import opened KeyOrder

  type UserId = string
  type TweetId = string

  /** The author summary selected with every tweet (`user: { name, id, image }`). */
  datatype Author = Author(id: UserId, name: Option<string>, image: Option<string>)

  /** One row of the tweet table; `createdAt` is a timestamp. */
  datatype Row = Row(id: TweetId, content: string, createdAt: int, author: Author) {
    function OrderKey(): Key {
      Key(createdAt, id)
    }
  }

  /** A like: at most one per (user, tweet), so a set of pairs. */
  datatype Like = Like(userId: UserId, tweetId: TweetId)

  /** `followerId` follows `followingId`. */
  datatype Follow = Follow(followerId: UserId, followingId: UserId)

  /** The tweet table is a sequence only for convenience: its order carries
      no meaning (see `SortedEqual`), ids are its primary key. */
  datatype Db = Db(tweets: seq<Row>, likes: set<Like>, follows: set<Follow>)

  /** Storage-layer refusals. */
  datatype DbError = UniqueViolation | ForeignKeyViolation

  /** The id of the row at index `i`. */
  function IdAt(rows: seq<Row>, i: nat): TweetId
    requires i < |rows|
  {
    rows[i].id
  }

  /** No two rows share an id. Like `Sorted`, stated on an index function so
      that it applies only where a proof names the rows it compares. */
  predicate DistinctIds(rows: seq<Row>) {
    forall i: nat, j: nat {:trigger IdAt(rows, i), IdAt(rows, j)} ::
      i < j < |rows| ==> IdAt(rows, i) != IdAt(rows, j)
  }

  lemma DistinctAt(rows: seq<Row>, i: nat, j: nat)
    requires DistinctIds(rows) && i < |rows| && j < |rows| && i != j
    ensures rows[i].id != rows[j].id
  {
    if i < j {
      assert IdAt(rows, i) != IdAt(rows, j);
    } else {
      assert IdAt(rows, j) != IdAt(rows, i);
    }
  }

  predicate HasTweet(db: Db, id: TweetId) {
    exists i :: 0 <= i < |db.tweets| && db.tweets[i].id == id
  }

  /** What the database's constraints guarantee: unique tweet ids, and every
      like references an existing tweet. */
  predicate ValidDb(db: Db) {
    && DistinctIds(db.tweets)
    && forall l :: l in db.likes ==> HasTweet(db, l.tweetId)
  }

  /** The feed-order key of the row at index `i`. */
  function KeyAt(rows: seq<Row>, i: nat): Key
    requires i < |rows|
  {
    rows[i].OrderKey()
  }

  /** Strictly decreasing in the feed order. The comparison is stated on
      `KeyAt`, so it applies only where a proof names the keys it compares. */
  predicate Sorted(rows: seq<Row>) {
    forall i: nat, j: nat {:trigger KeyAt(rows, i), KeyAt(rows, j)} ::
      i < j < |rows| ==> Before(KeyAt(rows, i), KeyAt(rows, j))
  }

  lemma SortedAt(rows: seq<Row>, i: nat, j: nat)
    requires Sorted(rows) && i < j < |rows|
    ensures Before(rows[i].OrderKey(), rows[j].OrderKey())
  {
    assert Before(KeyAt(rows, i), KeyAt(rows, j));
  }

  // ---------------------------------------------------------------- filtering

  /** The `where` clause of the feed query: no filter, or "the author is
      followed by `viewer`" (`user: { followers: { some: { id: viewer } } }`). */
  datatype Where = Everyone | FollowedBy(viewer: UserId)

  predicate Matches(follows: set<Follow>, w: Where, r: Row) {
    match w
    case Everyone => true
    case FollowedBy(viewer) => Follow(viewer, r.author.id) in follows
  }

  /** The rows that satisfy `w`, in their original order. */
  function Select(follows: set<Follow>, w: Where, rows: seq<Row>): (res: seq<Row>)
    ensures forall r :: r in res <==> r in rows && Matches(follows, w, r)
    ensures DistinctIds(rows) ==> DistinctIds(res)
    ensures |res| <= |rows|
  {
    if |rows| == 0 then []
    else
      var tail := Select(follows, w, rows[1..]);
      assert rows == [rows[0]] + rows[1..];
      DistinctTail(rows);
      if Matches(follows, w, rows[0]) then
        SelectStep(rows, tail);
        [rows[0]] + tail
      else tail
  }

  lemma SelectStep(rows: seq<Row>, tail: seq<Row>)
    requires |rows| > 0
    requires forall r :: r in tail ==> r in rows[1..]
    requires DistinctIds(rows) ==> DistinctIds(tail)
    ensures DistinctIds(rows) ==> DistinctIds([rows[0]] + tail)
  {
    if DistinctIds(rows) {
      forall j | 0 <= j < |tail|
        ensures tail[j].id != rows[0].id
      {
        assert tail[j] in rows[1..];
        var k :| 1 <= k < |rows| && rows[k] == tail[j];
        DistinctAt(rows, 0, k);
      }
      ConsDistinct(rows[0], tail);
    }
  }

  lemma ConsDistinct(x: Row, s: seq<Row>)
    requires DistinctIds(s)
    requires forall j :: 0 <= j < |s| ==> x.id != s[j].id
    ensures DistinctIds([x] + s)
  {
    var t := [x] + s;
    forall i: nat, j: nat | i < j < |t|
      ensures IdAt(t, i) != IdAt(t, j)
    {
      assert t[j] == s[j - 1];
      if i > 0 {
        assert t[i] == s[i - 1];
        DistinctAt(s, i - 1, j - 1);
      }
    }
  }

  // ------------------------------------------------------------------ ordering

  /** `x` may be put in front of `s` without breaking order or id uniqueness. */
  lemma ConsKeepsOrder(x: Row, s: seq<Row>)
    requires Sorted(s) && DistinctIds(s)
    requires forall j :: 0 <= j < |s| ==> Before(x.OrderKey(), s[j].OrderKey()) && x.id != s[j].id
    ensures Sorted([x] + s) && DistinctIds([x] + s)
  {
    var t := [x] + s;
    forall i: nat, j: nat | i < j < |t|
      ensures Before(KeyAt(t, i), KeyAt(t, j)) && IdAt(t, i) != IdAt(t, j)
    {
      assert t[j] == s[j - 1];
      if i > 0 {
        assert t[i] == s[i - 1];
        SortedAt(s, i - 1, j - 1);
        DistinctAt(s, i - 1, j - 1);
      }
    }
  }

  /** Inserts one row into a sorted sequence at its place in the feed order. */
  function Insert(r: Row, s: seq<Row>): (res: seq<Row>)
    requires Sorted(s) && DistinctIds(s)
    requires forall j :: 0 <= j < |s| ==> s[j].id != r.id
    ensures Sorted(res) && DistinctIds(res)
    ensures multiset(res) == multiset(s) + multiset{r}
  {
    if |s| == 0 then [r]
    else if Before(r.OrderKey(), s[0].OrderKey()) then
      InsertFront(r, s);
      [r] + s
    else
      SortedTail(s);
      DistinctTail(s);
      var tail := Insert(r, s[1..]);
      InsertBehind(r, s, tail);
      assert s == [s[0]] + s[1..];
      [s[0]] + tail
  }

  lemma InsertFront(r: Row, s: seq<Row>)
    requires Sorted(s) && DistinctIds(s) && |s| > 0
    requires forall j :: 0 <= j < |s| ==> s[j].id != r.id
    requires Before(r.OrderKey(), s[0].OrderKey())
    ensures Sorted([r] + s) && DistinctIds([r] + s)
  {
    forall j | 0 < j < |s|
      ensures Before(r.OrderKey(), s[j].OrderKey())
    {
      SortedAt(s, 0, j);
      BeforeTransitive(r.OrderKey(), s[0].OrderKey(), s[j].OrderKey());
    }
    ConsKeepsOrder(r, s);
  }

  lemma InsertBehind(r: Row, s: seq<Row>, tail: seq<Row>)
    requires Sorted(s) && DistinctIds(s) && |s| > 0
    requires forall j :: 0 <= j < |s| ==> s[j].id != r.id
    requires !Before(r.OrderKey(), s[0].OrderKey())
    requires Sorted(tail) && DistinctIds(tail)
    requires multiset(tail) == multiset(s[1..]) + multiset{r}
    ensures Sorted([s[0]] + tail) && DistinctIds([s[0]] + tail)
  {
    forall j | 0 <= j < |tail|
      ensures Before(s[0].OrderKey(), tail[j].OrderKey()) && s[0].id != tail[j].id
    {
      assert tail[j] in multiset(tail);
      if tail[j] == r {
        assert r.OrderKey() != s[0].OrderKey();
        BeforeTotal(r.OrderKey(), s[0].OrderKey());
      } else {
        assert tail[j] in s[1..];
        var k :| 1 <= k < |s| && s[k] == tail[j];
        SortedAt(s, 0, k);
        DistinctAt(s, 0, k);
      }
    }
    ConsKeepsOrder(s[0], tail);
  }

  /** `findMany`'s `orderBy: [{ createdAt: "desc" }, { id: "desc" }]`. */
  function SortDesc(s: seq<Row>): (res: seq<Row>)
    requires DistinctIds(s)
    ensures Sorted(res) && DistinctIds(res)
    ensures multiset(res) == multiset(s)
  {
    if |s| == 0 then []
    else
      DistinctTail(s);
      var tail := SortDesc(s[1..]);
      SortDescStep(s, tail);
      Insert(s[0], tail)
  }

  lemma SortDescStep(s: seq<Row>, tail: seq<Row>)
    requires DistinctIds(s) && |s| > 0
    requires multiset(tail) == multiset(s[1..])
    ensures forall j :: 0 <= j < |tail| ==> tail[j].id != s[0].id
    ensures multiset(s[1..]) + multiset{s[0]} == multiset(s)
  {
    forall j | 0 <= j < |tail|
      ensures tail[j].id != s[0].id
    {
      assert tail[j] in multiset(tail);
      assert tail[j] in s[1..];
      var k :| 1 <= k < |s| && s[k] == tail[j];
      DistinctAt(s, 0, k);
    }
    assert s == [s[0]] + s[1..];
  }

  lemma SortedTail(s: seq<Row>)
    requires Sorted(s) && |s| > 0
    ensures Sorted(s[1..])
  {
    var t := s[1..];
    forall i: nat, j: nat | i < j < |t|
      ensures Before(KeyAt(t, i), KeyAt(t, j))
    {
      SortedAt(s, i + 1, j + 1);
    }
  }

  /** A row whose id is new may be appended without breaking id uniqueness. */
  /** Appending a row whose id is not yet in use keeps the table's
      constraints: ids stay unique and every like still names a tweet. */
  lemma AppendKeepsValid(db: Db, t: Row)
    requires !HasTweet(db, t.id)
    ensures ValidDb(db) ==> ValidDb(db.(tweets := db.tweets + [t]))
  {
    if ValidDb(db) {
      var db' := db.(tweets := db.tweets + [t]);
      SnocDistinct(db.tweets, t);
      forall l | l in db'.likes
        ensures HasTweet(db', l.tweetId)
      {
        var i :| 0 <= i < |db.tweets| && db.tweets[i].id == l.tweetId;
        assert db'.tweets[i] == db.tweets[i];
      }
    }
  }

  lemma SnocDistinct(s: seq<Row>, x: Row)
    requires DistinctIds(s)
    requires forall i :: 0 <= i < |s| ==> s[i].id != x.id
    ensures DistinctIds(s + [x])
  {
    var t := s + [x];
    forall i: nat, j: nat | i < j < |t|
      ensures IdAt(t, i) != IdAt(t, j)
    {
      assert t[i] == s[i];
      if j < |s| {
        DistinctAt(s, i, j);
      }
    }
  }

  lemma DistinctTail(s: seq<Row>)
    requires |s| > 0
    ensures DistinctIds(s) ==> DistinctIds(s[1..])
  {
    if DistinctIds(s) {
      var t := s[1..];
      forall i: nat, j: nat | i < j < |t|
        ensures IdAt(t, i) != IdAt(t, j)
      {
        DistinctAt(s, i + 1, j + 1);
      }
    }
  }

  /** Names `s[0] in s` as a call, so that the impossible branch of
      `SortedEqual` holds no checked expression after the clash. */
  lemma HeadIsMember(s: seq<Row>)
    requires |s| > 0
    ensures s[0] in s
  {
  }

  /** Two sorted sequences with the same elements are equal: the feed order
      of a set of rows is unique, whatever order the table holds them in. */
  lemma {:induction false} SortedEqual(a: seq<Row>, b: seq<Row>)
    requires Sorted(a) && Sorted(b)
    requires forall x :: x in a <==> x in b
    ensures a == b
    decreases |a|
  {
    if |a| == 0 {
      if |b| > 0 {
        HeadIsMember(b);
        assert false;
      }
    } else {
      assert a[0] in b;
      assert |b| > 0;
      if a[0] != b[0] {
        var k :| 0 < k < |b| && b[k] == a[0];
        assert b[0] in b;
        var m :| 0 <= m < |a| && a[m] == b[0];
        assert m > 0;
        SortedAt(a, 0, m);
        SortedAt(b, 0, k);
        BeforeAsymmetric(a[0].OrderKey(), a[m].OrderKey());
      }
      forall x
        ensures x in a[1..] <==> x in b[1..]
      {
        if x in a[1..] {
          var i :| 1 <= i < |a| && a[i] == x;
          SortedAt(a, 0, i);
          BeforeIrreflexive(x.OrderKey());
          assert x != a[0];
          assert x in b;
        }
        if x in b[1..] {
          var i :| 1 <= i < |b| && b[i] == x;
          SortedAt(b, 0, i);
          BeforeIrreflexive(x.OrderKey());
          assert x != b[0];
          assert x in a;
        }
      }
      SortedTail(a);
      SortedTail(b);
      SortedEqual(a[1..], b[1..]);
      assert a == [a[0]] + a[1..] && b == [b[0]] + b[1..];
    }
  }

  /** The eligible rows of the table, ordered as the feed lists them. */
  function Eligible(db: Db, w: Where): (res: seq<Row>)
    requires DistinctIds(db.tweets)
    ensures Sorted(res) && DistinctIds(res)
  {
    SortDesc(Select(db.follows, w, db.tweets))
  }

  /** `Eligible` holds exactly the table rows that pass the filter. */
  lemma EligibleMembers(db: Db, w: Where)
    requires DistinctIds(db.tweets)
    ensures forall r :: r in Eligible(db, w) <==> r in db.tweets && Matches(db.follows, w, r)
  {
    var sel := Select(db.follows, w, db.tweets);
    assert forall r :: r in Eligible(db, w) <==> r in multiset(sel);
  }

  /** Each eligible row's key names a row of the table, so it is a valid cursor. */
  lemma EligibleKeyExists(db: Db, w: Where, k: nat)
    requires DistinctIds(db.tweets)
    requires k < |Eligible(db, w)|
    ensures HasKey(db, Eligible(db, w)[k].OrderKey())
  {
    var e := Eligible(db, w);
    EligibleMembers(db, w);
    assert e[k] in e;
    var i :| 0 <= i < |db.tweets| && db.tweets[i] == e[k];
  }

  /** Any strictly decreasing enumeration of the matching rows is `Eligible`:
      the feed order of a filtered table is unique. */
  lemma EligibleIsUnique(db: Db, w: Where, s: seq<Row>)
    requires DistinctIds(db.tweets)
    requires Sorted(s)
    requires forall r :: r in s <==> r in db.tweets && Matches(db.follows, w, r)
    ensures s == Eligible(db, w)
  {
    EligibleMembers(db, w);
    SortedEqual(s, Eligible(db, w));
  }

  /** A matching row created strictly later than every other row of the
      table heads the feed. */
  lemma NewestLeads(db: Db, w: Where, r: Row)
    requires DistinctIds(db.tweets)
    requires r in db.tweets && Matches(db.follows, w, r)
    requires forall i :: 0 <= i < |db.tweets| && db.tweets[i] != r ==> db.tweets[i].createdAt < r.createdAt
    ensures |Eligible(db, w)| > 0 && Eligible(db, w)[0] == r
  {
    var e := Eligible(db, w);
    EligibleMembers(db, w);
    var k :| 0 <= k < |e| && e[k] == r;
    assert e[0] in db.tweets;
    if k > 0 {
      DistinctAt(e, 0, k);
      SortedAt(e, 0, k);
      assert false;
    }
  }

  // ------------------------------------------------------------ cursor resume

  /** The index of the first row of `s`, from index `i` on, that is not
      listed strictly before the cursor key `c`. With `i = 0` it is where an
      inclusive resumption at `c` starts: the cursor row itself is kept. */
  function SkipBefore(s: seq<Row>, c: Key, i: nat): (n: nat)
    requires i <= |s|
    ensures i <= n <= |s|
    ensures forall j: nat {:trigger KeyAt(s, j)} :: i <= j < n ==> Before(KeyAt(s, j), c)
    ensures n < |s| ==> !Before(KeyAt(s, n), c)
    decreases |s| - i
  {
    if i == |s| || !Before(KeyAt(s, i), c) then i else SkipBefore(s, c, i + 1)
  }

  /** In a sorted sequence, resuming at the key of row `k` starts exactly at `k`. */
  lemma SkipBeforeAt(s: seq<Row>, k: nat)
    requires Sorted(s) && k < |s|
    ensures SkipBefore(s, s[k].OrderKey(), 0) == k
  {
    var m := SkipBefore(s, KeyAt(s, k), 0);
    if m > k {
      assert Before(KeyAt(s, k), KeyAt(s, k));
      BeforeIrreflexive(KeyAt(s, k));
    }
  }

  predicate HasKey(db: Db, c: Key) {
    exists i :: 0 <= i < |db.tweets| && db.tweets[i].OrderKey() == c
  }

  /** Where a query resumes in the eligible rows: at the start without a
      cursor, at the first row not listed before the cursor with one, and
      past the end when the cursor names no row of the table. */
  function ResumeAt(db: Db, w: Where, cursor: Option<Key>): (n: nat)
    requires DistinctIds(db.tweets)
    ensures n <= |Eligible(db, w)|
  {
    match cursor
    case None => 0
    case Some(c) => if HasKey(db, c) then SkipBefore(Eligible(db, w), c, 0) else |Eligible(db, w)|
  }

  /** All eligible rows from the cursor on, with no bound on their number. */
  function Resume(db: Db, w: Where, cursor: Option<Key>): seq<Row>
    requires DistinctIds(db.tweets)
  {
    Eligible(db, w)[ResumeAt(db, w, cursor)..]
  }

  /** Without a cursor nothing is skipped; a cursor that names no row of the
      table yields nothing; a cursor that names a row keeps exactly the
      eligible rows not listed strictly before it. */
  lemma ResumeMembers(db: Db, w: Where, cursor: Option<Key>)
    requires DistinctIds(db.tweets)
    ensures cursor.None? ==> Resume(db, w, cursor) == Eligible(db, w)
    ensures cursor.Some? && !HasKey(db, cursor.value) ==> Resume(db, w, cursor) == []
    ensures cursor.Some? && HasKey(db, cursor.value) ==>
      forall r :: r in Resume(db, w, cursor) <==> r in Eligible(db, w) && !Before(r.OrderKey(), cursor.value)
  {
    var e := Eligible(db, w);
    var n := ResumeAt(db, w, cursor);
    assert Resume(db, w, cursor) == e[n..];
    if cursor.Some? && HasKey(db, cursor.value) {
      var c := cursor.value;
      forall r | r in e
        ensures r in e[n..] <==> !Before(r.OrderKey(), c)
      {
        var i :| 0 <= i < |e| && e[i] == r;
        if i < n {
          assert Before(KeyAt(e, i), c);
          assert r !in e[n..] by {
            if r in e[n..] {
              var j :| n <= j < |e| && e[j] == r;
              DistinctAt(e, i, j);
            }
          }
        } else {
          assert r == e[n..][i - n];
          if i > n && Before(r.OrderKey(), c) {
            SortedAt(e, n, i);
            BeforeTransitive(KeyAt(e, n), KeyAt(e, i), c);
          }
        }
      }
    } else if cursor.None? {
      assert e[0..] == e;
    }
  }

  /** `findMany({ take, cursor, orderBy, where })`: the first `take` rows of
      the eligible rows from the cursor on, or all of them when fewer remain. */
  function FindMany(db: Db, w: Where, cursor: Option<Key>, take: nat): (res: seq<Row>)
    requires DistinctIds(db.tweets)
    ensures var e := Eligible(db, w); var n := ResumeAt(db, w, cursor);
      && |res| == (if |e| - n < take then |e| - n else take)
      && res == e[n..n + |res|]
  {
    var e := Eligible(db, w);
    var n := ResumeAt(db, w, cursor);
    if |e| - n <= take then e[n..] else e[n..n + take]
  }

  lemma ResumeKeepsOrder(db: Db, w: Where, cursor: Option<Key>)
    requires DistinctIds(db.tweets)
    ensures Sorted(Resume(db, w, cursor)) && DistinctIds(Resume(db, w, cursor))
  {
    SuffixKeepsOrder(Eligible(db, w), ResumeAt(db, w, cursor));
  }

  lemma SuffixKeepsOrder(s: seq<Row>, n: nat)
    requires Sorted(s) && DistinctIds(s) && n <= |s|
    ensures Sorted(s[n..]) && DistinctIds(s[n..])
  {
    var t := s[n..];
    forall i: nat, j: nat | i < j < |t|
      ensures Before(KeyAt(t, i), KeyAt(t, j)) && IdAt(t, i) != IdAt(t, j)
    {
      assert t[i] == s[n + i] && t[j] == s[n + j];
      SortedAt(s, n + i, n + j);
      DistinctAt(s, n + i, n + j);
    }
  }

  lemma PrefixKeepsOrder(s: seq<Row>, n: nat)
    requires Sorted(s) && DistinctIds(s) && n <= |s|
    ensures Sorted(s[..n]) && DistinctIds(s[..n])
  {
    var t := s[..n];
    forall i: nat, j: nat | i < j < |t|
      ensures Before(KeyAt(t, i), KeyAt(t, j)) && IdAt(t, i) != IdAt(t, j)
    {
      assert t[i] == s[i] && t[j] == s[j];
      SortedAt(s, i, j);
      DistinctAt(s, i, j);
    }
  }
}
