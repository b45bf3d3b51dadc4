/** The order in which the feed lists tweets: newest first, and among tweets
    with the same creation time, the larger id first. */
module KeyOrder {

  /** Lexicographic "strictly less" on strings, comparing characters by code.
      A proper prefix is less than the longer string. */
  predicate StrLess(a: string, b: string)
    decreases |a|
  {
    if |a| == 0 then |b| > 0
    else |b| > 0 && (a[0] < b[0] || (a[0] == b[0] && StrLess(a[1..], b[1..])))
  }

  lemma {:induction false} StrLessIrreflexive(a: string)
    ensures !StrLess(a, a)
    decreases |a|
  {
    if |a| > 0 {
      StrLessIrreflexive(a[1..]);
    }
  }

  lemma {:induction false} StrLessTransitive(a: string, b: string, c: string)
    requires StrLess(a, b) && StrLess(b, c)
    ensures StrLess(a, c)
    decreases |a|
  {
    if |a| > 0 && a[0] == b[0] && b[0] == c[0] {
      StrLessTransitive(a[1..], b[1..], c[1..]);
    }
  }

  lemma {:induction false} StrLessTotal(a: string, b: string)
    requires a != b
    ensures StrLess(a, b) || StrLess(b, a)
    decreases |a|
  {
    if |a| > 0 && |b| > 0 && a[0] == b[0] {
      assert a == [a[0]] + a[1..] && b == [b[0]] + b[1..];
      StrLessTotal(a[1..], b[1..]);
    }
  }

  /** The position of a row in the feed order, and the shape of a cursor:
      the `createdAt_id` compound unique key (a timestamp and an id). */
  datatype Key = Key(createdAt: int, id: string)

  /** `k` is listed strictly before `m` under
      `orderBy: [{ createdAt: "desc" }, { id: "desc" }]`. */
  predicate Before(k: Key, m: Key) {
    k.createdAt > m.createdAt || (k.createdAt == m.createdAt && StrLess(m.id, k.id))
  }

  lemma BeforeIrreflexive(k: Key)
    ensures !Before(k, k)
  {
    StrLessIrreflexive(k.id);
  }

  lemma BeforeTransitive(k: Key, m: Key, n: Key)
    requires Before(k, m) && Before(m, n)
    ensures Before(k, n)
  {
    if k.createdAt == m.createdAt && m.createdAt == n.createdAt {
      StrLessTransitive(n.id, m.id, k.id);
    }
  }

  lemma BeforeAsymmetric(k: Key, m: Key)
    requires Before(k, m)
    ensures !Before(m, k)
  {
    if Before(m, k) {
      BeforeTransitive(k, m, k);
      BeforeIrreflexive(k);
    }
  }

  /** Distinct keys are always comparable: the order is total, so the
      feed order is fully determined once ids are unique. */
  lemma BeforeTotal(k: Key, m: Key)
    requires k != m
    ensures Before(k, m) || Before(m, k)
  {
    if k.createdAt == m.createdAt {
      StrLessTotal(k.id, m.id);
    }
  }
}
