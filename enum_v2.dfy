/** enum (second version): Enum(...values) maps the uppercase form of each
    value to the value, and adds values() and includes(). */
module EnumV2 {
  import opened Strings

  /** The enum object: its uppercase-key entries, and the argument
      sequence that values() and includes() close over. */
  datatype EnumObject = EnumObject(entries: map<string, string>, values: seq<string>)

  /** The forEach, one assignment `obj[value.toUpperCase()] = value` per
      value, left to right. */
  function UpperEntries(values: seq<string>): (m: map<string, string>)
    ensures |values| > 0 ==> ToUpper(values[|values| - 1]) in m
    ensures |values| > 0 ==> m[ToUpper(values[|values| - 1])] == values[|values| - 1]
  {
    if |values| == 0 then map[]
    else var last := values[|values| - 1]; UpperEntries(values[..|values| - 1])[ToUpper(last) := last]
  }

  function EnumOf(values: seq<string>): (e: EnumObject)
    ensures Values(e) == values
    ensures forall v :: Includes(e, v) <==> v in values
  {
    EnumObject(UpperEntries(values), values)
  }

  /** Enum(...values): the object filled in place by the forEach; values()
      then returns the arguments unchanged, in order and with duplicates. */
  method MakeEnum(values: seq<string>) returns (e: EnumObject)
    ensures e == EnumOf(values)
    ensures Values(e) == values
  {
    var obj: map<string, string> := map[];
    for i := 0 to |values|
      invariant obj == UpperEntries(values[..i])
    {
      assert values[..i + 1][..i] == values[..i];
      obj := obj[ToUpper(values[i]) := values[i]];
    }
    assert values[..|values|] == values;
    e := EnumObject(obj, values);
  }

  /** values(): the argument sequence as given. */
  function Values(e: EnumObject): (vs: seq<string>)
    ensures forall v :: v in vs <==> Includes(e, v)
  {
    e.values
  }

  /** includes(value): whether value is one of the arguments; the
      uppercase keys play no part. */
  function Includes(e: EnumObject, value: string): (b: bool)
    ensures b <==> exists i :: 0 <= i < |e.values| && e.values[i] == value
  {
    value in e.values
  }

  /** The keys are exactly the uppercase forms of the values, and each key
      holds a value whose uppercase form it is. */
  lemma {:induction false} UpperEntriesKeys(values: seq<string>)
    ensures UpperEntries(values).Keys == set v | v in values :: ToUpper(v)
    ensures forall k :: k in UpperEntries(values) ==>
      UpperEntries(values)[k] in values && ToUpper(UpperEntries(values)[k]) == k
  {
    if |values| > 0 {
      var init := values[..|values| - 1];
      var last := values[|values| - 1];
      UpperEntriesKeys(init);
      assert values == init + [last];
      assert (set v | v in values :: ToUpper(v)) == (set v | v in init :: ToUpper(v)) + {ToUpper(last)};
    }
  }

  /** Later writes win: the key of values[j] holds values[j] when no later
      value has the same uppercase form. */
  lemma {:induction false} UpperEntriesLastWins(values: seq<string>, j: nat)
    requires j < |values|
    requires forall j' :: j < j' < |values| ==> ToUpper(values[j']) != ToUpper(values[j])
    ensures ToUpper(values[j]) in UpperEntries(values)
    ensures UpperEntries(values)[ToUpper(values[j])] == values[j]
  {
    var init := values[..|values| - 1];
    if j < |values| - 1 {
      assert ToUpper(values[|values| - 1]) != ToUpper(values[j]);
      UpperEntriesLastWins(init, j);
    }
  }

  /** An uppercase key never holds a lowercase letter. */
  lemma UpperKeysHaveNoLower(values: seq<string>)
    ensures forall k :: k in UpperEntries(values) ==> forall i :: 0 <= i < |k| ==> !IsLower(k[i])
  {
    UpperEntriesKeys(values);
    forall k | k in UpperEntries(values)
      ensures forall i :: 0 <= i < |k| ==> !IsLower(k[i])
    {
      ToUpperHasNoLower(UpperEntries(values)[k]);
    }
  }

  /** So the method names values and includes are never written by the
      forEach, and the methods assigned after it shadow no entry. */
  lemma MethodNamesFree(values: seq<string>)
    ensures "values" !in UpperEntries(values)
    ensures "includes" !in UpperEntries(values)
  {
    UpperKeysHaveNoLower(values);
    assert IsLower("values"[0]) && IsLower("includes"[0]);
  }

  lemma UpperExamples()
    ensures ToUpper("value_a") == "VALUE_A"
    ensures ToUpper("value_b") == "VALUE_B"
  {
  }

  /** The documented example: Enum("value_a", "value_b") has VALUE_A and
      VALUE_B; includes tests values, not keys. */
  lemma EnumExample()
    ensures EnumOf(["value_a", "value_b"]).entries == map["VALUE_A" := "value_a", "VALUE_B" := "value_b"]
    ensures Values(EnumOf(["value_a", "value_b"])) == ["value_a", "value_b"]
    ensures Includes(EnumOf(["value_a", "value_b"]), "value_a")
    ensures !Includes(EnumOf(["value_a", "value_b"]), "VALUE_A")
  {
    UpperExamples();
    assert ["value_a", "value_b"][..1] == ["value_a"];
    assert ["value_a"][..0] == [];
    assert "VALUE_A" != "value_a" && "VALUE_A" != "value_b";
  }
}
