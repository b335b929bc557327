/** Ordering an object's members by key. The page sorts `Object.keys(value)`
    with `(a, b) => a.localeCompare(b)`; the collation is locale dependent,
    so here it is a parameter `lt` ("a sorts before b"). Where two different
    keys may compare equal it is assumed to be a strict weak order, and where
    keys never tie a strict total order. The sort is a stable insertion sort,
    as `Array.prototype.sort` is stable: `SortByKeyStable` shows that keys
    the collation ties keep their input order, and `SortByKeyUnique` that
    over a total order any sort meeting the same contract yields the same
    sequence, so the choice of algorithm is immaterial. */
module KeyOrder {
  import opened JsonValue

  ghost predicate StrictTotalOrder(lt: (string, string) -> bool)
  {
    && (forall a :: !lt(a, a))
    && (forall a, b, c :: lt(a, b) && lt(b, c) ==> lt(a, c))
    && (forall a, b :: a != b ==> lt(a, b) || lt(b, a))
  }

  /** Neither key sorts before the other. */
  predicate Ties(lt: (string, string) -> bool, a: string, b: string)
  {
    !lt(a, b) && !lt(b, a)
  }

  /** Two keys that tie with a third tie with each other. */
  ghost predicate TiesTransitive(lt: (string, string) -> bool)
  {
    forall a, b, c :: Ties(lt, a, b) && Ties(lt, b, c) ==> Ties(lt, a, c)
  }

  /** A comparator that may tie different keys but is still consistent: an
      irreflexive, transitive order whose ties are transitive too. */
  ghost predicate StrictWeakOrder(lt: (string, string) -> bool)
  {
    && (forall a :: !lt(a, a))
    && (forall a, b, c :: lt(a, b) && lt(b, c) ==> lt(a, c))
    && TiesTransitive(lt)
  }

  lemma TotalOrderIsWeak(lt: (string, string) -> bool)
    requires StrictTotalOrder(lt)
    ensures StrictWeakOrder(lt)
  {
    forall a, b, c | Ties(lt, a, b) && Ties(lt, b, c)
      ensures Ties(lt, a, c)
    {
      assert a == b && b == c;
    }
  }

  /** Ties chain under a strict weak order. */
  lemma TiesThrough(lt: (string, string) -> bool, a: string, b: string, c: string)
    requires TiesTransitive(lt)
    ensures Ties(lt, a, b) && Ties(lt, b, c) ==> Ties(lt, a, c)
  {
  }

  /** Under a strict weak order "does not sort before" is transitive. */
  lemma NotBeforeTransitive(lt: (string, string) -> bool, a: string, b: string, c: string)
    requires StrictWeakOrder(lt)
    requires !lt(a, b) && !lt(b, c)
    ensures !lt(a, c)
  {
    if lt(b, a) {
      assert lt(a, c) ==> lt(b, c);
    } else if lt(c, b) {
      assert lt(a, c) ==> lt(a, b);
    } else {
      TiesThrough(lt, a, b, c);
    }
  }

  /** Keys strictly ascend along the sequence. */
  predicate StrictlyAscending(lt: (string, string) -> bool, ms: seq<Member>)
  {
    forall i, j :: 0 <= i < j < |ms| ==> lt(ms[i].key, ms[j].key)
  }

  /** No key sorts before a key listed ahead of it. */
  predicate NonDescending(lt: (string, string) -> bool, ms: seq<Member>)
  {
    forall i, j :: 0 <= i < j < |ms| ==> !lt(ms[j].key, ms[i].key)
  }

  /** Places `m` before the first member whose key does not sort before its
      own, so `m` goes ahead of members whose keys tie with it. */
  function InsertByKey(lt: (string, string) -> bool, m: Member, ms: seq<Member>): (r: seq<Member>)
    ensures multiset(r) == multiset(ms) + multiset{m}
  {
    if |ms| == 0 then [m]
    else if !lt(ms[0].key, m.key) then [m] + ms
    else
      assert ms == [ms[0]] + ms[1..];
      [ms[0]] + InsertByKey(lt, m, ms[1..])
  }

  /** The members of an object, reordered by key. Each member is inserted
      into the already sorted members after it, ahead of any tie. */
  function SortByKey(lt: (string, string) -> bool, ms: seq<Member>): (r: seq<Member>)
    ensures multiset(r) == multiset(ms)
  {
    if |ms| == 0 then []
    else
      assert ms == [ms[0]] + ms[1..];
      InsertByKey(lt, ms[0], SortByKey(lt, ms[1..]))
  }

  lemma {:induction false} InsertByKeyAscending(lt: (string, string) -> bool, m: Member, ms: seq<Member>)
    requires StrictTotalOrder(lt)
    requires StrictlyAscending(lt, ms) && m.key !in Keys(ms)
    ensures StrictlyAscending(lt, InsertByKey(lt, m, ms))
    decreases |ms|
  {
    if |ms| > 0 && lt(ms[0].key, m.key) {
      var tail := InsertByKey(lt, m, ms[1..]);
      assert Keys(ms[1..]) <= Keys(ms);
      InsertByKeyAscending(lt, m, ms[1..]);
      forall j | 0 <= j < |tail|
        ensures lt(ms[0].key, tail[j].key)
      {
        assert tail[j] in multiset(tail);
        if tail[j] != m {
          assert tail[j] in ms[1..];
          var k :| 0 <= k < |ms[1..]| && ms[1..][k] == tail[j];
          assert ms[k + 1] == tail[j];
        }
      }
    } else if |ms| > 0 {
      assert ms[0] in ms;
      assert lt(m.key, ms[0].key);
      forall i, j | 0 <= i < j < |[m] + ms|
        ensures lt(([m] + ms)[i].key, ([m] + ms)[j].key)
      {
        if i == 0 && j > 1 {
          assert lt(ms[0].key, ms[j - 1].key);
        }
      }
    }
  }

  /** Over distinct keys and a strict total order, the sorted members are
      strictly ascending. */
  lemma {:induction false} SortByKeyAscending(lt: (string, string) -> bool, ms: seq<Member>)
    requires StrictTotalOrder(lt) && UniqueKeys(ms)
    ensures StrictlyAscending(lt, SortByKey(lt, ms))
    decreases |ms|
  {
    if |ms| > 0 {
      var rest := SortByKey(lt, ms[1..]);
      SortByKeyAscending(lt, ms[1..]);
      assert ms[0].key !in Keys(rest) by {
        forall m | m in rest
          ensures m.key != ms[0].key
        {
          assert m in multiset(ms[1..]);
          var k :| 0 <= k < |ms[1..]| && ms[1..][k] == m;
          assert ms[k + 1] == m;
        }
      }
      InsertByKeyAscending(lt, ms[0], rest);
    }
  }

  /** Inserting into ordered members keeps them ordered, ties included. */
  lemma {:induction false} InsertByKeyNonDescending(lt: (string, string) -> bool, m: Member, ms: seq<Member>)
    requires StrictWeakOrder(lt) && NonDescending(lt, ms)
    ensures NonDescending(lt, InsertByKey(lt, m, ms))
    decreases |ms|
  {
    if |ms| > 0 && lt(ms[0].key, m.key) {
      var tail := InsertByKey(lt, m, ms[1..]);
      InsertByKeyNonDescending(lt, m, ms[1..]);
      forall j | 0 <= j < |tail|
        ensures !lt(tail[j].key, ms[0].key)
      {
        assert tail[j] in multiset(tail);
        if tail[j] != m {
          assert tail[j] in ms[1..];
          var k :| 0 <= k < |ms[1..]| && ms[1..][k] == tail[j];
          assert ms[k + 1] == tail[j];
        }
      }
    } else if |ms| > 0 {
      forall i, j | 0 <= i < j < |[m] + ms|
        ensures !lt(([m] + ms)[j].key, ([m] + ms)[i].key)
      {
        if i == 0 && j > 1 {
          NotBeforeTransitive(lt, ms[j - 1].key, ms[0].key, m.key);
        }
      }
    }
  }

  /** Over a strict weak order the sorted members never descend. */
  lemma {:induction false} SortByKeyNonDescending(lt: (string, string) -> bool, ms: seq<Member>)
    requires StrictWeakOrder(lt)
    ensures NonDescending(lt, SortByKey(lt, ms))
    decreases |ms|
  {
    if |ms| > 0 {
      SortByKeyNonDescending(lt, ms[1..]);
      InsertByKeyNonDescending(lt, ms[0], SortByKey(lt, ms[1..]));
    }
  }

  /** Sorting members that are already in order, ties included, leaves them
      where they are. No assumption on the comparator is needed. */
  lemma {:induction false} SortByKeyOfOrdered(lt: (string, string) -> bool, ms: seq<Member>)
    requires NonDescending(lt, ms)
    ensures SortByKey(lt, ms) == ms
    decreases |ms|
  {
    if |ms| > 0 {
      assert NonDescending(lt, ms[1..]) by {
        forall i, j | 0 <= i < j < |ms[1..]|
          ensures !lt(ms[1..][j].key, ms[1..][i].key)
        {
          assert ms[1..][j] == ms[j + 1] && ms[1..][i] == ms[i + 1];
        }
      }
      SortByKeyOfOrdered(lt, ms[1..]);
      if |ms| > 1 {
        assert !lt(ms[1..][0].key, ms[0].key);
      }
      assert [ms[0]] + ms[1..] == ms;
    }
  }

  /** The members of `ms` whose key ties with `k`, in their order in `ms`. */
  function TiedWith(lt: (string, string) -> bool, k: string, ms: seq<Member>): seq<Member>
  {
    if |ms| == 0 then []
    else (if Ties(lt, ms[0].key, k) then [ms[0]] else []) + TiedWith(lt, k, ms[1..])
  }

  /** `TiedWith` keeps exactly the members whose key ties with `k`. */
  lemma {:induction false} TiedWithMembers(lt: (string, string) -> bool, k: string, ms: seq<Member>)
    ensures forall m :: m in TiedWith(lt, k, ms) <==> m in ms && Ties(lt, m.key, k)
    decreases |ms|
  {
    if |ms| > 0 {
      TiedWithMembers(lt, k, ms[1..]);
      assert ms == [ms[0]] + ms[1..];
    }
  }

  /** Inserting `m` changes the members tied with any key as if `m` had
      been put in front. */
  lemma {:induction false} InsertByKeyTies(lt: (string, string) -> bool, k: string, m: Member, ms: seq<Member>)
    requires TiesTransitive(lt)
    ensures TiedWith(lt, k, InsertByKey(lt, m, ms)) == TiedWith(lt, k, [m] + ms)
    decreases |ms|
  {
    if |ms| > 0 && lt(ms[0].key, m.key) {
      var tm := if Ties(lt, m.key, k) then [m] else [];
      var t0 := if Ties(lt, ms[0].key, k) then [ms[0]] else [];
      var r := InsertByKey(lt, m, ms);
      var rest := InsertByKey(lt, m, ms[1..]);
      assert r == [ms[0]] + rest;
      assert TiedWith(lt, k, r) == t0 + TiedWith(lt, k, rest);
      InsertByKeyTies(lt, k, m, ms[1..]);
      assert TiedWith(lt, k, [m] + ms[1..]) == tm + TiedWith(lt, k, ms[1..]);
      assert TiedWith(lt, k, ms) == t0 + TiedWith(lt, k, ms[1..]);
      assert TiedWith(lt, k, [m] + ms) == tm + TiedWith(lt, k, ms);
      TiesThrough(lt, ms[0].key, k, m.key);
      assert t0 == [] || tm == [];
    } else {
      assert ([m] + ms)[0] == m && ([m] + ms)[1..] == ms;
    }
  }

  /** The sort is stable: for every key, the members whose keys the
      collation ties with it come out in the order they went in. */
  lemma {:induction false} SortByKeyStable(lt: (string, string) -> bool, k: string, ms: seq<Member>)
    requires TiesTransitive(lt)
    ensures TiedWith(lt, k, SortByKey(lt, ms)) == TiedWith(lt, k, ms)
    decreases |ms|
  {
    if |ms| > 0 {
      var rest := SortByKey(lt, ms[1..]);
      InsertByKeyTies(lt, k, ms[0], rest);
      SortByKeyStable(lt, k, ms[1..]);
      assert ([ms[0]] + rest)[0] == ms[0] && ([ms[0]] + rest)[1..] == rest;
    }
  }

  /** The first member of an ascending sequence sorts before all others. */
  lemma LeastOfAscending(lt: (string, string) -> bool, s: seq<Member>, x: Member)
    requires StrictlyAscending(lt, s) && x in s
    ensures x == s[0] || lt(s[0].key, x.key)
  {
    var i :| 0 <= i < |s| && s[i] == x;
    if i > 0 {
      assert lt(s[0].key, s[i].key);
    }
  }

  /** A strictly ascending arrangement of a collection of members is unique:
      two of them holding the same members are the same sequence. */
  lemma {:induction false} AscendingArrangementUnique(lt: (string, string) -> bool, a: seq<Member>, b: seq<Member>)
    requires StrictTotalOrder(lt)
    requires StrictlyAscending(lt, a) && StrictlyAscending(lt, b)
    requires forall m :: m in a <==> m in b
    ensures a == b
    decreases |a|
  {
    NonEmptyTogether(a, b);
    if |a| > 0 {
      assert a[0] in b && b[0] in a;
      LeastOfAscending(lt, b, a[0]);
      LeastOfAscending(lt, a, b[0]);
      assert a[0] == b[0];
      forall m
        ensures m in a[1..] <==> m in b[1..]
      {
        AfterHead(lt, a, m);
        AfterHead(lt, b, m);
      }
      AscendingArrangementUnique(lt, a[1..], b[1..]);
      assert a == [a[0]] + a[1..] && b == [b[0]] + b[1..];
    }
  }

  lemma NonEmptyTogether(a: seq<Member>, b: seq<Member>)
    requires forall m :: m in a <==> m in b
    ensures |a| > 0 <==> |b| > 0
  {
    if |a| > 0 {
      assert a[0] in b;
    }
    if |b| > 0 {
      assert b[0] in a;
    }
  }

  /** In a strictly ascending sequence the head occurs once, so the rest
      holds exactly the other members. */
  lemma AfterHead(lt: (string, string) -> bool, s: seq<Member>, m: Member)
    requires StrictTotalOrder(lt) && StrictlyAscending(lt, s) && |s| > 0
    ensures m in s[1..] <==> m in s && m != s[0]
  {
    if m in s[1..] {
      var k :| 0 <= k < |s[1..]| && s[1..][k] == m;
      assert lt(s[0].key, s[k + 1].key);
    }
    if m in s && m != s[0] {
      var k :| 0 <= k < |s| && s[k] == m;
      assert s[1..][k - 1] == m;
    }
  }

  /** Any strictly ascending reordering of `ms` is exactly what `SortByKey`
      returns, whichever algorithm produced it. */
  lemma SortByKeyUnique(lt: (string, string) -> bool, ms: seq<Member>, other: seq<Member>)
    requires StrictTotalOrder(lt) && UniqueKeys(ms)
    requires multiset(other) == multiset(ms) && StrictlyAscending(lt, other)
    ensures other == SortByKey(lt, ms)
  {
    SortByKeyAscending(lt, ms);
    var sorted := SortByKey(lt, ms);
    assert forall m :: m in other <==> m in multiset(other);
    assert forall m :: m in sorted <==> m in multiset(sorted);
    AscendingArrangementUnique(lt, other, SortByKey(lt, ms));
  }
}
