/** `sortObjectDeep` exactly as the page writes it. The sorted copy is
    filled by assignment, `sorted[key] = …`, into a fresh object literal.
    For the key `__proto__` that assignment reaches the inherited prototype
    setter instead of creating an own property, so the key is missing from
    the copy and from its serialisation. `DeepSort.SortDeep` is the
    intended sorter; this module shows where the two part and that they
    agree on every value without that key. */
module ProtoKey {
  import opened JsonValue
  import opened KeyOrder
  import opened DeepSort

  const ProtoName: string := "__proto__"

  /** The members an assignment loop turns into own properties: all but
      the one named `__proto__`, in order. */
  function AssignedMembers(ms: seq<Member>): (r: seq<Member>)
    ensures forall m :: m in r <==> m in ms && m.key != ProtoName
  {
    if |ms| == 0 then []
    else (if ms[0].key == ProtoName then [] else [ms[0]]) + AssignedMembers(ms[1..])
  }

  lemma AssignedKeys(ms: seq<Member>)
    ensures Keys(AssignedMembers(ms)) == Keys(ms) - {ProtoName}
  {
    var r := AssignedMembers(ms);
    forall k | k in Keys(ms) - {ProtoName}
      ensures k in Keys(r)
    {
      var m :| m in ms && m.key == k;
      assert m in r;
    }
  }

  function SortValuesAsWritten(lt: (string, string) -> bool, ms: seq<Member>): (r: seq<Member>)
    ensures |r| == |ms|
    ensures forall i :: 0 <= i < |ms| ==> r[i].key == ms[i].key
    decreases ms, 0
  {
    seq(|ms|, i requires 0 <= i < |ms| => Member(ms[i].key, SortDeepAsWritten(lt, ms[i].value)))
  }

  /** Members renamed nowhere keep the key set. */
  lemma SameKeysAt(a: seq<Member>, b: seq<Member>)
    requires |a| == |b|
    requires forall i :: 0 <= i < |a| ==> a[i].key == b[i].key
    ensures Keys(a) == Keys(b)
  {
    forall k | k in Keys(a) ensures k in Keys(b) {
      var i :| 0 <= i < |a| && a[i].key == k;
      assert b[i] in b;
    }
    forall k | k in Keys(b) ensures k in Keys(a) {
      var i :| 0 <= i < |b| && b[i].key == k;
      assert a[i] in a;
    }
  }

  /** `sortObjectDeep` as written: the deep sorter with every `__proto__`
      member lost on the way. */
  function SortDeepAsWritten(lt: (string, string) -> bool, v: Value): (r: Value)
    ensures IsPrimitive(v) ==> r == v
    ensures v.Object? ==> r.Object? && Keys(r.members) == Keys(v.members) - {ProtoName}
    decreases v, 1
  {
    match v
    case Array(items) =>
      Array(seq(|items|, i requires 0 <= i < |items| => SortDeepAsWritten(lt, items[i])))
    case Object(ms) =>
      var mapped := SortValuesAsWritten(lt, ms);
      var sorted := SortByKey(lt, mapped);
      SameKeysAt(mapped, ms);
      assert forall m :: m in sorted <==> m in mapped by {
        assert forall m :: m in sorted <==> m in multiset(sorted);
      }
      SameMembersKeys(sorted, mapped);
      AssignedKeys(sorted);
      Object(AssignedMembers(sorted))
    case _ => v
  }

  /** No object at any depth has a `__proto__` key. */
  predicate NoProtoKey(v: Value)
    decreases v
  {
    match v
    case Array(items) => forall i :: 0 <= i < |items| ==> NoProtoKey(items[i])
    case Object(ms) =>
      && ProtoName !in Keys(ms)
      && forall i :: 0 <= i < |ms| ==> NoProtoKey(ms[i].value)
    case _ => true
  }

  lemma {:induction false} AssignedMembersAll(ms: seq<Member>)
    requires ProtoName !in Keys(ms)
    ensures AssignedMembers(ms) == ms
    decreases |ms|
  {
    if |ms| > 0 {
      assert ms[0] in ms;
      assert Keys(ms[1..]) <= Keys(ms) by {
        forall k | k in Keys(ms[1..]) ensures k in Keys(ms) {
          var i :| 0 <= i < |ms[1..]| && ms[1..][i].key == k;
          assert ms[1..][i] == ms[i + 1];
        }
      }
      AssignedMembersAll(ms[1..]);
    }
  }

  /** Without a `__proto__` key anywhere, the code as written sorts exactly
      as intended. */
  lemma {:induction false} AsWrittenAgrees(lt: (string, string) -> bool, v: Value)
    requires NoProtoKey(v)
    ensures SortDeepAsWritten(lt, v) == SortDeep(lt, v)
    decreases v
  {
    match v
    case Array(items) =>
      forall i | 0 <= i < |items|
        ensures SortDeepAsWritten(lt, items[i]) == SortDeep(lt, items[i])
      {
        AsWrittenAgrees(lt, items[i]);
      }
    case Object(ms) =>
      forall i | 0 <= i < |ms|
        ensures SortDeepAsWritten(lt, ms[i].value) == SortDeep(lt, ms[i].value)
      {
        AsWrittenAgrees(lt, ms[i].value);
      }
      assert SortValuesAsWritten(lt, ms) == SortValues(lt, ms);
      var sorted := SortByKey(lt, SortValues(lt, ms));
      assert Keys(sorted) == Keys(ms) by {
        assert forall m :: m in sorted <==> m in multiset(sorted);
        SameMembersKeys(sorted, SortValues(lt, ms));
      }
      AssignedMembersAll(sorted);
    case _ =>
  }

  /** The discrepancy on the smallest input: `{"__proto__": 1}` comes back
      as `{}` from the code as written, which has lost the member, while the
      intended sorter returns it unchanged. */
  lemma ProtoKeyLost(lt: (string, string) -> bool)
    ensures var v := Object([Member(ProtoName, Number(1.0))]);
            && SortDeepAsWritten(lt, v) == Object([])
            && !Equiv(v, SortDeepAsWritten(lt, v))
            && SortDeep(lt, v) == v
  {
    var v := Object([Member(ProtoName, Number(1.0))]);
    var m := Member(ProtoName, Number(1.0));
    assert SortValuesAsWritten(lt, [m]) == [m];
    assert SortByKey(lt, [m]) == [m];
    assert AssignedMembers([m]) == [];
    assert SortValues(lt, [m]) == [m];
    assert m in [m];
    assert ProtoName in Keys([m]);
  }
}
