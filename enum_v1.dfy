/** enum (first version): defineEnum builds an object whose every key is
    mapped to itself; Enum wraps such an object with keys and includes. */
module EnumV1 {

  /** A plain object with string-valued properties: its entries, and its
      own keys in the order they were first assigned. */
  datatype Record = Record(entries: map<string, string>, order: seq<string>)

  /** The key sequence lists exactly the defined keys, each once. */
  predicate Valid(r: Record)
  {
    && (forall k :: k in r.entries ==> k in r.order)
    && (forall i :: 0 <= i < |r.order| ==> r.order[i] in r.entries)
    && (forall i, j :: 0 <= i < j < |r.order| ==> r.order[i] != r.order[j])
  }

  /** The empty object literal `{}`. */
  const Empty := Record(map[], [])

  /** Property assignment `obj[k] = v`: a new key is appended to the key
      order, an existing one keeps its place. */
  function Assign(r: Record, k: string, v: string): (r': Record)
    ensures r'.entries == r.entries[k := v]
    ensures k in r.entries ==> r'.order == r.order
    ensures k !in r.entries ==> r'.order == r.order + [k]
    ensures Valid(r) ==> Valid(r')
  {
    if k in r.entries then Record(r.entries[k := v], r.order)
    else Record(r.entries[k := v], r.order + [k])
  }

  /** The reduce of defineEnum, one assignment `acc[key] = key` per key,
      left to right. */
  function EnumOf(keys: seq<string>): (r: Record)
    ensures |r.order| <= |keys|
  {
    if |keys| == 0 then Empty
    else var last := keys[|keys| - 1]; Assign(EnumOf(keys[..|keys| - 1]), last, last)
  }

  /** defineEnum(...keys): the accumulator updated in place, one key per
      step. */
  method DefineEnum(keys: seq<string>) returns (acc: Record)
    ensures acc == EnumOf(keys)
    ensures Valid(acc)
  {
    acc := Empty;
    for i := 0 to |keys|
      invariant acc == EnumOf(keys[..i])
      invariant Valid(acc)
    {
      assert keys[..i + 1][..i] == keys[..i];
      acc := Assign(acc, keys[i], keys[i]);
    }
    assert keys[..|keys|] == keys;
  }

  /** The defined keys are exactly the arguments, duplicates collapsed,
      and each is mapped to itself; with no arguments the object is empty. */
  lemma {:induction false} EnumOfEntries(keys: seq<string>)
    ensures Valid(EnumOf(keys))
    ensures EnumOf(keys).entries.Keys == set k | k in keys
    ensures forall k :: k in EnumOf(keys).entries ==> EnumOf(keys).entries[k] == k
    ensures |keys| == 0 ==> EnumOf(keys) == Empty
  {
    if |keys| > 0 {
      var init := keys[..|keys| - 1];
      var last := keys[|keys| - 1];
      EnumOfEntries(init);
      assert keys == init + [last];
      assert (set k | k in keys) == (set k | k in init) + {last};
      AssignSelf(EnumOf(init), last);
    }
  }

  /** One step of the reduce keeps every entry mapped to itself. */
  lemma AssignSelf(r: Record, k: string)
    requires forall x :: x in r.entries ==> r.entries[x] == x
    ensures Assign(r, k, k).entries.Keys == r.entries.Keys + {k}
    ensures forall x :: x in Assign(r, k, k).entries ==> Assign(r, k, k).entries[x] == x
  {
  }

  /** The key order lists each argument once, in the order of its first
      occurrence. */
  lemma {:induction false} EnumOfOrder(keys: seq<string>)
    ensures forall i :: 0 <= i < |EnumOf(keys).order| ==> EnumOf(keys).order[i] in keys
    ensures forall i, j :: 0 <= i < j < |EnumOf(keys).order| ==>
      FirstIndex(keys, EnumOf(keys).order[i]) < FirstIndex(keys, EnumOf(keys).order[j])
  {
    if |keys| > 0 {
      var init := keys[..|keys| - 1];
      var last := keys[|keys| - 1];
      EnumOfOrder(init);
      EnumOfEntries(init);
      assert keys == init + [last];
      var r := EnumOf(init);
      assert EnumOf(keys) == Assign(r, last, last);
      OrderStep(init, last, r);
    }
  }

  /** Appending one key to the arguments keeps the order by first
      occurrence. */
  lemma OrderStep(init: seq<string>, last: string, r: Record)
    requires r.entries.Keys == set k | k in init
    requires forall i :: 0 <= i < |r.order| ==> r.order[i] in init
    requires forall i, j :: 0 <= i < j < |r.order| ==> FirstIndex(init, r.order[i]) < FirstIndex(init, r.order[j])
    ensures forall i :: 0 <= i < |Assign(r, last, last).order| ==> Assign(r, last, last).order[i] in init + [last]
    ensures forall i, j :: 0 <= i < j < |Assign(r, last, last).order| ==>
      FirstIndex(init + [last], Assign(r, last, last).order[i]) < FirstIndex(init + [last], Assign(r, last, last).order[j])
  {
    var p := r.order;
    var o := Assign(r, last, last).order;
    forall i | 0 <= i < |p|
      ensures FirstIndex(init + [last], p[i]) == FirstIndex(init, p[i])
    {
      FirstIndexOfInit(init, last, p[i]);
    }
    if last in r.entries {
      assert o == p;
    } else {
      assert o == p + [last];
      FirstIndexOfLast(init, last);
    }
  }

  /** The index of the first occurrence of k in keys, or |keys| when k
      does not occur. */
  function FirstIndex(keys: seq<string>, k: string): (n: nat)
    ensures n <= |keys|
    ensures n < |keys| <==> k in keys
    ensures n < |keys| ==> keys[n] == k
    ensures forall i :: 0 <= i < n ==> keys[i] != k
  {
    if |keys| == 0 then 0
    else if keys[0] == k then 0
    else 1 + FirstIndex(keys[1..], k)
  }

  lemma FirstIndexOfInit(init: seq<string>, last: string, k: string)
    requires k in init
    ensures FirstIndex(init + [last], k) == FirstIndex(init, k)
  {
    assert (init + [last])[FirstIndex(init, k)] == k;
  }

  lemma FirstIndexOfLast(init: seq<string>, last: string)
    requires last !in init
    ensures FirstIndex(init + [last], last) == |init|
  {
    assert (init + [last])[|init|] == last;
  }

  /** Enum(obj).keys(): Object.keys, the own keys in insertion order. */
  function Keys(r: Record): (ks: seq<string>)
    ensures Valid(r) ==> forall k :: k in ks <==> k in r.entries
    ensures Valid(r) ==> forall i, j :: 0 <= i < j < |ks| ==> ks[i] != ks[j]
  {
    r.order
  }

  /** Enum(obj).includes(key): whether key is one of Object.keys(obj). */
  function Includes(r: Record, key: string): (b: bool)
    ensures Valid(r) ==> (b <==> key in r.entries)
  {
    key in Keys(r)
  }

  lemma EnumOfAB()
    ensures EnumOf(["A", "B"]) == Record(map["A" := "A", "B" := "B"], ["A", "B"])
  {
    assert ["A", "B"][..1] == ["A"];
    assert ["A"][..0] == [];
  }

  /** defineEnum("A", "B", "C") is { A: "A", B: "B", C: "C" }. */
  lemma DefineEnumExample()
    ensures EnumOf(["A", "B", "C"]) == Record(map["A" := "A", "B" := "B", "C" := "C"], ["A", "B", "C"])
  {
    assert ["A", "B", "C"][..2] == ["A", "B"];
    EnumOfAB();
  }

  /** The documented keys and includes example. */
  lemma EnumExample()
    ensures Keys(EnumOf(["对", "不对"])) == ["对", "不对"]
    ensures Includes(EnumOf(["对", "不对"]), "对")
    ensures !Includes(EnumOf(["对", "不对"]), "错")
  {
    assert ["对", "不对"][..1] == ["对"];
    assert ["对"][..0] == [];
    assert EnumOf(["对", "不对"]).order == ["对", "不对"];
    assert "错" != "对" && "错" != "不对";
  }
}
