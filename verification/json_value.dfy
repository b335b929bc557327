/** A parsed JSON document as an immutable tree. An object is its member
    sequence in enumeration order; a JavaScript object never holds one key
    twice, which `WellFormed` states at every depth. */
module JsonValue {
  import opened Wrappers

  datatype Value =
    | Null
    | Bool(b: bool)
    | Number(n: real)
    | Str(s: string)
    | Array(items: seq<Value>)
    | Object(members: seq<Member>)

  datatype Member = Member(key: string, value: Value)

  /** The four leaf kinds, which the sorter hands back untouched. */
  predicate IsPrimitive(v: Value)
  {
    v.Null? || v.Bool? || v.Number? || v.Str?
  }

  function Keys(ms: seq<Member>): set<string>
  {
    set m | m in ms :: m.key
  }

  predicate UniqueKeys(ms: seq<Member>)
  {
    forall i, j :: 0 <= i < j < |ms| ==> ms[i].key != ms[j].key
  }

  /** Every object, at every depth, has distinct keys. */
  predicate WellFormed(v: Value)
    decreases v
  {
    match v
    case Array(items) => forall i :: 0 <= i < |items| ==> WellFormed(items[i])
    case Object(ms) =>
      && UniqueKeys(ms)
      && forall i :: 0 <= i < |ms| ==> WellFormed(ms[i].value)
    case _ => true
  }

  /** Property access `obj[key]`: the value of the first member named `key`. */
  function Lookup(ms: seq<Member>, key: string): (r: Option<Value>)
    ensures r.None? <==> key !in Keys(ms)
    ensures r.Some? ==> Member(key, r.value) in ms
  {
    if |ms| == 0 then None
    else if ms[0].key == key then Some(ms[0].value)
    else Lookup(ms[1..], key)
  }

  /** With distinct keys, looking a key up finds exactly the member that
      carries it. */
  lemma LookupMember(ms: seq<Member>, i: int)
    requires UniqueKeys(ms) && 0 <= i < |ms|
    ensures Lookup(ms, ms[i].key) == Some(ms[i].value)
  {
    var r := Lookup(ms, ms[i].key);
    var j :| 0 <= j < |ms| && ms[j] == Member(ms[i].key, r.value);
    assert i == j;
  }

  /** Two member lists holding the same members, one of them free of
      duplicate keys, agree on their key sets and on every lookup. */
  lemma SameMembersSameLookup(a: seq<Member>, b: seq<Member>, key: string)
    requires UniqueKeys(b)
    requires forall m :: m in a <==> m in b
    ensures Keys(a) == Keys(b)
    ensures Lookup(a, key) == Lookup(b, key)
  {
    assert forall k :: k in Keys(a) ==> k in Keys(b) by {
      forall k | k in Keys(a) ensures k in Keys(b) {
        var m :| m in a && m.key == k;
        assert m in b;
      }
    }
    assert forall k :: k in Keys(b) ==> k in Keys(a) by {
      forall k | k in Keys(b) ensures k in Keys(a) {
        var m :| m in b && m.key == k;
        assert m in a;
      }
    }
    var ra := Lookup(a, key);
    if ra.Some? {
      var i :| 0 <= i < |a| && a[i] == Member(key, ra.value);
      var j :| 0 <= j < |b| && b[j] == a[i];
      LookupMember(b, j);
    }
  }
}
