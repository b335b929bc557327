/** The deep key sorter behind the "sort keys" option of the JSON page:
    arrays keep their order with each element sorted, objects are rebuilt
    with their keys in collation order and each value sorted, and every
    other value comes back as it is. `Equiv` is the independent notion of
    "same content, key order aside" that the sorter preserves and, over a
    strict total order, decides exactly. */
module DeepSort {
  import opened Wrappers
  import opened JsonValue
  import opened KeyOrder

  /** Same content up to the order in which object members are listed:
      equal leaves, arrays that agree element by element, and objects with
      the same key set whose values agree key by key. */
  predicate Equiv(x: Value, y: Value)
    decreases x
  {
    match x
    case Array(xs) =>
      && y.Array? && |xs| == |y.items|
      && forall i :: 0 <= i < |xs| ==> Equiv(xs[i], y.items[i])
    case Object(xm) =>
      && y.Object? && Keys(xm) == Keys(y.members)
      && forall i :: 0 <= i < |xm| ==>
           var found := Lookup(y.members, xm[i].key);
           found.Some? && Equiv(xm[i].value, found.value)
    case _ => x == y
  }

  /** Every object, at every depth, lists its keys in strictly ascending order. */
  predicate DeepSorted(lt: (string, string) -> bool, v: Value)
    decreases v
  {
    match v
    case Array(items) => forall i :: 0 <= i < |items| ==> DeepSorted(lt, items[i])
    case Object(ms) =>
      && StrictlyAscending(lt, ms)
      && forall i :: 0 <= i < |ms| ==> DeepSorted(lt, ms[i].value)
    case _ => true
  }

  /** Every object, at every depth, lists its keys so that no key sorts
      before one listed ahead of it; keys the collation ties may sit in
      either order. */
  predicate DeepOrdered(lt: (string, string) -> bool, v: Value)
    decreases v
  {
    match v
    case Array(items) => forall i :: 0 <= i < |items| ==> DeepOrdered(lt, items[i])
    case Object(ms) =>
      && NonDescending(lt, ms)
      && forall i :: 0 <= i < |ms| ==> DeepOrdered(lt, ms[i].value)
    case _ => true
  }

  /** The members of an object with each value deep-sorted, in their
      original order. */
  function SortValues(lt: (string, string) -> bool, ms: seq<Member>): (r: seq<Member>)
    ensures |r| == |ms|
    ensures forall i :: 0 <= i < |ms| ==> r[i].key == ms[i].key
    ensures Keys(r) == Keys(ms)
    ensures UniqueKeys(ms) ==> UniqueKeys(r)
    decreases ms, 0
  {
    var r := seq(|ms|, i requires 0 <= i < |ms| => Member(ms[i].key, SortDeep(lt, ms[i].value)));
    assert forall k :: k in Keys(ms) ==> k in Keys(r) by {
      forall k | k in Keys(ms) ensures k in Keys(r) {
        var i :| 0 <= i < |ms| && ms[i].key == k;
        assert r[i] in r;
      }
    }
    r
  }

  /** `sortObjectDeep`: a value of the same kind; a leaf unchanged, an
      array of the same length, an object with the same keys. */
  function SortDeep(lt: (string, string) -> bool, v: Value): (r: Value)
    ensures IsPrimitive(v) ==> r == v
    ensures v.Array? <==> r.Array?
    ensures v.Array? ==> |r.items| == |v.items|
    ensures v.Object? <==> r.Object?
    ensures v.Object? ==> |r.members| == |v.members| && Keys(r.members) == Keys(v.members)
    decreases v, 1
  {
    match v
    case Array(items) =>
      Array(seq(|items|, i requires 0 <= i < |items| => SortDeep(lt, items[i])))
    case Object(ms) =>
      var sorted := SortByKey(lt, SortValues(lt, ms));
      assert forall m :: m in sorted <==> m in SortValues(lt, ms) by {
        assert forall m :: m in sorted <==> m in multiset(sorted);
      }
      SameMembersKeys(sorted, SortValues(lt, ms));
      Object(sorted)
    case _ => v
  }

  lemma SameMembersKeys(a: seq<Member>, b: seq<Member>)
    requires forall m :: m in a <==> m in b
    ensures Keys(a) == Keys(b)
  {
  }

  /** An array is mapped element by element: same length, same order, and
      element `i` of the result is element `i` of the input, deep-sorted. */
  lemma SortDeepArray(lt: (string, string) -> bool, items: seq<Value>)
    ensures var r := SortDeep(lt, Array(items));
            && r.Array? && |r.items| == |items|
            && forall i :: 0 <= i < |items| ==> r.items[i] == SortDeep(lt, items[i])
  {
  }

  /** The sorted object has exactly the input's keys, and each key holds the
      deep-sorted form of the value it held; no key is added or dropped. */
  lemma SortDeepObject(lt: (string, string) -> bool, ms: seq<Member>)
    requires UniqueKeys(ms)
    ensures var r := SortDeep(lt, Object(ms));
            && r.Object? && Keys(r.members) == Keys(ms)
            && (forall i :: 0 <= i < |ms| ==>
                  Lookup(r.members, ms[i].key) == Some(SortDeep(lt, ms[i].value)))
            && (forall k :: k !in Keys(ms) ==> Lookup(r.members, k) == None)
  {
    var mapped := SortValues(lt, ms);
    var sorted := SortByKey(lt, mapped);
    assert SortDeep(lt, Object(ms)).members == sorted;
    assert forall m :: m in sorted <==> m in mapped by {
      assert forall m :: m in sorted <==> m in multiset(sorted);
    }
    forall i | 0 <= i < |ms|
      ensures Lookup(sorted, ms[i].key) == Some(SortDeep(lt, ms[i].value))
    {
      SameMembersSameLookup(sorted, mapped, ms[i].key);
      LookupMember(mapped, i);
    }
  }

  /** Deep sorting changes no content: the result is `Equiv` to the input. */
  lemma {:induction false} SortDeepKeepsContent(lt: (string, string) -> bool, v: Value)
    requires WellFormed(v)
    ensures Equiv(v, SortDeep(lt, v))
    decreases v
  {
    match v
    case Array(items) =>
      forall i | 0 <= i < |items|
        ensures Equiv(items[i], SortDeep(lt, v).items[i])
      {
        SortDeepKeepsContent(lt, items[i]);
      }
    case Object(ms) =>
      SortDeepObject(lt, ms);
      forall i | 0 <= i < |ms|
        ensures Equiv(ms[i].value, SortDeep(lt, ms[i].value))
      {
        SortDeepKeepsContent(lt, ms[i].value);
      }
    case _ =>
  }

  /** Over a strict total order, every object of the result lists its keys in
      strictly ascending order, at every depth, and keys stay distinct. */
  lemma {:induction false} SortDeepSorted(lt: (string, string) -> bool, v: Value)
    requires StrictTotalOrder(lt) && WellFormed(v)
    ensures DeepSorted(lt, SortDeep(lt, v)) && WellFormed(SortDeep(lt, v))
    decreases v
  {
    match v
    case Array(items) =>
      var r := SortDeep(lt, v);
      forall i | 0 <= i < |items|
        ensures DeepSorted(lt, r.items[i]) && WellFormed(r.items[i])
      {
        SortDeepSorted(lt, items[i]);
      }
    case Object(ms) =>
      var mapped := SortValues(lt, ms);
      var sorted := SortByKey(lt, mapped);
      SortByKeyAscending(lt, mapped);
      forall j | 0 <= j < |sorted|
        ensures DeepSorted(lt, sorted[j].value) && WellFormed(sorted[j].value)
      {
        assert sorted[j] in multiset(mapped);
        var i :| 0 <= i < |mapped| && mapped[i] == sorted[j];
        SortDeepSorted(lt, ms[i].value);
      }
      assert UniqueKeys(sorted);
    case _ =>
  }

  /** Over a strict weak order every object of the result is in order at
      every depth, whether or not keys repeat or tie. */
  lemma {:induction false} SortDeepOrdered(lt: (string, string) -> bool, v: Value)
    requires StrictWeakOrder(lt)
    ensures DeepOrdered(lt, SortDeep(lt, v))
    decreases v
  {
    match v
    case Array(items) =>
      var r := SortDeep(lt, v);
      forall i | 0 <= i < |items|
        ensures DeepOrdered(lt, r.items[i])
      {
        SortDeepOrdered(lt, items[i]);
      }
    case Object(ms) =>
      var mapped := SortValues(lt, ms);
      var sorted := SortByKey(lt, mapped);
      SortByKeyNonDescending(lt, mapped);
      forall j | 0 <= j < |sorted|
        ensures DeepOrdered(lt, sorted[j].value)
      {
        assert sorted[j] in multiset(mapped);
        var i :| 0 <= i < |mapped| && mapped[i] == sorted[j];
        SortDeepOrdered(lt, ms[i].value);
      }
    case _ =>
  }

  /** A value whose objects are already in order is left exactly as it is,
      whatever the comparator. */
  lemma {:induction false} SortDeepOfSorted(lt: (string, string) -> bool, v: Value)
    requires DeepOrdered(lt, v)
    ensures SortDeep(lt, v) == v
    decreases v
  {
    match v
    case Array(items) =>
      var r := SortDeep(lt, v);
      forall i | 0 <= i < |items|
        ensures r.items[i] == items[i]
      {
        SortDeepOfSorted(lt, items[i]);
      }
      assert r.items == items;
    case Object(ms) =>
      var mapped := SortValues(lt, ms);
      forall i | 0 <= i < |ms|
        ensures mapped[i] == ms[i]
      {
        SortDeepOfSorted(lt, ms[i].value);
      }
      assert mapped == ms;
      SortByKeyOfOrdered(lt, ms);
    case _ =>
  }

  /** Sorting twice is the same as sorting once, also under a collation
      that ties different keys. */
  lemma SortDeepIdempotent(lt: (string, string) -> bool, v: Value)
    requires StrictWeakOrder(lt)
    ensures SortDeep(lt, SortDeep(lt, v)) == SortDeep(lt, v)
  {
    SortDeepOrdered(lt, v);
    SortDeepOfSorted(lt, SortDeep(lt, v));
  }

  lemma {:induction false} EquivSymmetric(x: Value, y: Value)
    requires WellFormed(x) && WellFormed(y) && Equiv(x, y)
    ensures Equiv(y, x)
    decreases x
  {
    match x
    case Array(xs) =>
      forall i | 0 <= i < |xs|
        ensures Equiv(y.items[i], xs[i])
      {
        EquivSymmetric(xs[i], y.items[i]);
      }
    case Object(xm) =>
      var ym := y.members;
      forall j | 0 <= j < |ym|
        ensures var found := Lookup(xm, ym[j].key);
                found.Some? && Equiv(ym[j].value, found.value)
      {
        assert ym[j].key in Keys(xm);
        var i :| 0 <= i < |xm| && xm[i].key == ym[j].key;
        LookupMember(xm, i);
        LookupMember(ym, j);
        EquivSymmetric(xm[i].value, ym[j].value);
      }
    case _ =>
  }

  lemma {:induction false} EquivTransitive(x: Value, y: Value, z: Value)
    requires WellFormed(x) && WellFormed(y) && WellFormed(z)
    requires Equiv(x, y) && Equiv(y, z)
    ensures Equiv(x, z)
    decreases x
  {
    match x
    case Array(xs) =>
      forall i | 0 <= i < |xs|
        ensures Equiv(xs[i], z.items[i])
      {
        EquivTransitive(xs[i], y.items[i], z.items[i]);
      }
    case Object(xm) =>
      var ym, zm := y.members, z.members;
      forall i | 0 <= i < |xm|
        ensures var found := Lookup(zm, xm[i].key);
                found.Some? && Equiv(xm[i].value, found.value)
      {
        var w := Lookup(ym, xm[i].key).value;
        var j :| 0 <= j < |ym| && ym[j] == Member(xm[i].key, w);
        var u := Lookup(zm, ym[j].key).value;
        var l :| 0 <= l < |zm| && zm[l] == Member(ym[j].key, u);
        EquivTransitive(xm[i].value, w, u);
      }
    case _ =>
  }

  /** Values with the same content deep-sort to the very same value. */
  lemma {:induction false} EquivSortsAlike(lt: (string, string) -> bool, a: Value, b: Value)
    requires StrictTotalOrder(lt) && WellFormed(a) && WellFormed(b) && Equiv(a, b)
    ensures SortDeep(lt, a) == SortDeep(lt, b)
    decreases a
  {
    match a
    case Array(xs) =>
      var ra, rb := SortDeep(lt, a), SortDeep(lt, b);
      forall i | 0 <= i < |xs|
        ensures ra.items[i] == rb.items[i]
      {
        EquivSortsAlike(lt, xs[i], b.items[i]);
      }
      assert ra.items == rb.items;
    case Object(am) =>
      var bm := b.members;
      forall i | 0 <= i < |am|
        ensures var found := Lookup(bm, am[i].key);
                found.Some? && SortDeep(lt, am[i].value) == SortDeep(lt, found.value)
      {
        var w := Lookup(bm, am[i].key).value;
        var j :| 0 <= j < |bm| && bm[j] == Member(am[i].key, w);
        EquivSortsAlike(lt, am[i].value, w);
      }
      ObjectsSortAlike(lt, am, bm);
    case _ =>
  }

  /** Two objects with the same keys whose values sort alike key by key
      sort to the same object. */
  lemma ObjectsSortAlike(lt: (string, string) -> bool, am: seq<Member>, bm: seq<Member>)
    requires StrictTotalOrder(lt) && UniqueKeys(am) && UniqueKeys(bm)
    requires Keys(am) == Keys(bm)
    requires forall i :: 0 <= i < |am| ==>
               var found := Lookup(bm, am[i].key);
               found.Some? && SortDeep(lt, am[i].value) == SortDeep(lt, found.value)
    ensures SortDeep(lt, Object(am)) == SortDeep(lt, Object(bm))
  {
    var ma, mb := SortValues(lt, am), SortValues(lt, bm);
    SortedValuesAlike(lt, am, bm);
    var sa, sb := SortByKey(lt, ma), SortByKey(lt, mb);
    SortByKeyAscending(lt, ma);
    SortByKeyAscending(lt, mb);
    AscendingArrangementUnique(lt, sa, sb) by {
      assert forall m :: m in sa <==> m in ma by {
        assert forall m :: m in sa <==> m in multiset(sa);
      }
      assert forall m :: m in sb <==> m in mb by {
        assert forall m :: m in sb <==> m in multiset(sb);
      }
    }
    assert SortDeep(lt, Object(am)) == Object(sa);
    assert SortDeep(lt, Object(bm)) == Object(sb);
  }

  lemma SortedValuesAlike(lt: (string, string) -> bool, am: seq<Member>, bm: seq<Member>)
    requires UniqueKeys(bm) && Keys(am) == Keys(bm)
    requires forall i :: 0 <= i < |am| ==>
               var found := Lookup(bm, am[i].key);
               found.Some? && SortDeep(lt, am[i].value) == SortDeep(lt, found.value)
    ensures forall m :: m in SortValues(lt, am) <==> m in SortValues(lt, bm)
  {
    var ma, mb := SortValues(lt, am), SortValues(lt, bm);
    forall m | m in ma
      ensures m in mb
    {
      var i :| 0 <= i < |ma| && ma[i] == m;
      var w := Lookup(bm, am[i].key).value;
      var j :| 0 <= j < |bm| && bm[j] == Member(am[i].key, w);
      assert mb[j] == m;
    }
    forall m | m in mb
      ensures m in ma
    {
      var j :| 0 <= j < |mb| && mb[j] == m;
      assert bm[j].key in Keys(am);
      var i :| 0 <= i < |am| && am[i].key == bm[j].key;
      LookupMember(bm, j);
      assert ma[i] == m;
    }
  }

  /** Deep sorting is a canonical form: two values have the same content,
      key order aside, exactly when they sort to the same value. */
  lemma SortDeepDecidesEquiv(lt: (string, string) -> bool, a: Value, b: Value)
    requires StrictTotalOrder(lt) && WellFormed(a) && WellFormed(b)
    ensures Equiv(a, b) <==> SortDeep(lt, a) == SortDeep(lt, b)
  {
    if Equiv(a, b) {
      EquivSortsAlike(lt, a, b);
    }
    if SortDeep(lt, a) == SortDeep(lt, b) {
      var s := SortDeep(lt, a);
      SortDeepKeepsContent(lt, a);
      SortDeepKeepsContent(lt, b);
      SortDeepSorted(lt, b);
      EquivSymmetric(b, s);
      EquivTransitive(a, s, b);
    }
  }

  /** The document `{"b":1,"a":{"d":2,"c":3}}` sorts to `{"a":{"c":3,"d":2},"b":1}`
      under any collation that puts "a" before "b" and "c" before "d". */
  lemma SortDeepExample(lt: (string, string) -> bool)
    requires lt("a", "b") && lt("c", "d")
    ensures SortDeep(lt, Object([Member("b", Number(1.0)),
                                 Member("a", Object([Member("d", Number(2.0)), Member("c", Number(3.0))]))]))
         == Object([Member("a", Object([Member("c", Number(3.0)), Member("d", Number(2.0))])),
                    Member("b", Number(1.0))])
  {
    var inner := [Member("d", Number(2.0)), Member("c", Number(3.0))];
    var sortedInner := [Member("c", Number(3.0)), Member("d", Number(2.0))];
    SortPairObject(lt, inner[0], inner[1]);
    assert SortDeep(lt, Object(inner)) == Object(sortedInner);
    var outer := [Member("b", Number(1.0)), Member("a", Object(inner))];
    SortPairObject(lt, outer[0], outer[1]);
  }

  /** Under a collation that ties "a" and "b", `{"b":1,"a":2}` keeps its
      order, as a stable sort must. */
  lemma SortDeepTieExample(lt: (string, string) -> bool)
    requires Ties(lt, "a", "b")
    ensures SortDeep(lt, Object([Member("b", Number(1.0)), Member("a", Number(2.0))]))
         == Object([Member("b", Number(1.0)), Member("a", Number(2.0))])
  {
    var v := Object([Member("b", Number(1.0)), Member("a", Number(2.0))]);
    assert DeepOrdered(lt, v);
    SortDeepOfSorted(lt, v);
  }

  /** A two-member object whose second key sorts first comes back swapped,
      each value deep-sorted. */
  lemma SortPairObject(lt: (string, string) -> bool, x: Member, y: Member)
    requires lt(y.key, x.key)
    ensures SortDeep(lt, Object([x, y]))
         == Object([Member(y.key, SortDeep(lt, y.value)), Member(x.key, SortDeep(lt, x.value))])
  {
    var mapped := SortValues(lt, [x, y]);
    assert SortDeep(lt, Object([x, y])) == Object(SortByKey(lt, mapped));
    assert mapped == [mapped[0], mapped[1]];
    assert mapped[0] == Member(x.key, SortDeep(lt, x.value));
    assert mapped[1] == Member(y.key, SortDeep(lt, y.value));
    SwapPair(lt, mapped[0], mapped[1]);
  }

  lemma SwapPair(lt: (string, string) -> bool, x: Member, y: Member)
    requires lt(y.key, x.key)
    ensures SortByKey(lt, [x, y]) == [y, x]
  {
    assert [x, y][1..] == [y];
    assert [y][1..] == [];
    assert SortByKey(lt, [y]) == [y];
    assert InsertByKey(lt, x, [y]) == [y] + InsertByKey(lt, x, []);
  }
}
