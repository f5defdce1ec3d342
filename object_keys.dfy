/** object: hasKeys and inKeys, the many-key forms of hasOwnProperty and
    the `in` operator. */
module ObjectKeys {

  /** An object, seen through its property keys: those it holds itself
      and those it inherits along its prototype chain. */
  datatype Obj = Obj(own: set<string>, inherited: set<string>)

  /** `key in obj`: an own or an inherited property. */
  predicate HasProperty(o: Obj, key: string)
  {
    key in o.own || key in o.inherited
  }

  /** keys.every(key => obj.hasOwnProperty(key)). */
  function EveryOwn(o: Obj, keys: seq<string>): (b: bool)
    ensures b <==> forall i :: 0 <= i < |keys| ==> keys[i] in o.own
  {
    if |keys| == 0 then true else keys[0] in o.own && EveryOwn(o, keys[1..])
  }

  /** keys.every(key => key in obj). */
  function EveryIn(o: Obj, keys: seq<string>): (b: bool)
    ensures b <==> forall i :: 0 <= i < |keys| ==> HasProperty(o, keys[i])
  {
    if |keys| == 0 then true else HasProperty(o, keys[0]) && EveryIn(o, keys[1..])
  }

  /** obj.hasKeys(...keys): false for no keys, otherwise whether every key
      is an own property. */
  function HasKeys(o: Obj, keys: seq<string>): (b: bool)
    ensures |keys| == 0 ==> !b
    ensures |keys| > 0 ==> (b <==> forall k :: k in keys ==> k in o.own)
  {
    if |keys| == 0 then false else EveryOwn(o, keys)
  }

  /** obj.inKeys(...keys): false for no keys, otherwise whether every key
      is an own or an inherited property. */
  function InKeys(o: Obj, keys: seq<string>): (b: bool)
    ensures |keys| == 0 ==> !b
    ensures |keys| > 0 ==> (b <==> forall k :: k in keys ==> HasProperty(o, k))
  {
    if |keys| == 0 then false else EveryIn(o, keys)
  }

  /** An own property is also found by `in`, so hasKeys implies inKeys. */
  lemma HasKeysImpliesInKeys(o: Obj, keys: seq<string>)
    requires HasKeys(o, keys)
    ensures InKeys(o, keys)
  {
  }

  /** Only which keys are asked about matters, not their order or how
      often they repeat. */
  lemma KeysOrderFree(o: Obj, keys: seq<string>, others: seq<string>)
    requires (set x | x in keys) == (set x | x in others)
    ensures HasKeys(o, keys) == HasKeys(o, others)
    ensures InKeys(o, keys) == InKeys(o, others)
  {
    var s := set x | x in keys;
    var t := set x | x in others;
    assert forall x :: x in keys <==> x in s;
    assert forall x :: x in others <==> x in t;
    if |keys| > 0 {
      assert keys[0] in others;
    }
    if |others| > 0 {
      assert others[0] in keys;
    }
  }

  /** With no inherited properties the two coincide. */
  lemma NoInheritedSame(o: Obj, keys: seq<string>)
    requires o.inherited == {}
    ensures HasKeys(o, keys) == InKeys(o, keys)
  {
  }
}
