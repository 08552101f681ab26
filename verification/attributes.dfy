/** The attribute registry (attributes.cpp): a bijection between the attribute
    key and value enumerations and their spellings, with an ENUM_MAX sentinel
    for every string outside the tables. The string tables are the source of
    truth; the lookup maps are built from them exactly as the constructor does. */
module Attributes {
  import opened Common

  /** attribute_key_t; KeyEnumMax is the sentinel for an unknown spelling. */
  datatype AttributeKey = KeyPath | KeyRoot | KeyProduct | KeyPlatform | KeyEnumMax

  /** attribute_value_t; ValueEnumMax is the sentinel for an unknown spelling. */
  datatype AttributeValue = ValueRemote | ValueTarget | ValueEnumMax

  /** The valid keys in ordinal order, and g_attr_key_str_map. */
  const Keys: seq<AttributeKey> := [KeyPath, KeyRoot, KeyProduct, KeyPlatform]
  const KeyStrings: seq<string> := ["path", "root", "product", "platform"]

  /** The valid values in ordinal order, and g_attr_val_str_map. */
  const Values: seq<AttributeValue> := [ValueRemote, ValueTarget]
  const ValueStrings: seq<string> := ["Remote", "Target"]

  /** The enum ordinal of a valid key. */
  function KeyOrdinal(k: AttributeKey): (i: nat)
    requires k != KeyEnumMax
    ensures i < |Keys| && Keys[i] == k
  {
    match k
    case KeyPath => 0
    case KeyRoot => 1
    case KeyProduct => 2
    case KeyPlatform => 3
  }

  /** The enum ordinal of a valid value. */
  function ValueOrdinal(v: AttributeValue): (i: nat)
    requires v != ValueEnumMax
    ensures i < |Values| && Values[i] == v
  {
    match v
    case ValueRemote => 0
    case ValueTarget => 1
  }

  /** d_key_map after the constructor's first loop has run `n` times. */
  function KeyMapPrefix(n: nat): (m: map<string, AttributeKey>)
    requires n <= |Keys|
    ensures m.Keys == set i | 0 <= i < n :: KeyStrings[i]
    ensures forall i :: 0 <= i < n ==> m[KeyStrings[i]] == Keys[i]
  {
    if n == 0 then map[]
    else KeyMapPrefix(n - 1)[KeyStrings[n - 1] := Keys[n - 1]]
  }

  /** d_value_map after the constructor's second loop has run `n` times. */
  function ValueMapPrefix(n: nat): (m: map<string, AttributeValue>)
    requires n <= |Values|
    ensures m.Keys == set i | 0 <= i < n :: ValueStrings[i]
    ensures forall i :: 0 <= i < n ==> m[ValueStrings[i]] == Values[i]
  {
    if n == 0 then map[]
    else ValueMapPrefix(n - 1)[ValueStrings[n - 1] := Values[n - 1]]
  }

  function KeyMap(): map<string, AttributeKey> {
    KeyMapPrefix(|Keys|)
  }

  function ValueMap(): map<string, AttributeValue> {
    ValueMapPrefix(|Values|)
  }

  /** Attributes::key: the key spelled `s`, or the sentinel. */
  function Key(s: string): (k: AttributeKey)
    ensures k != KeyEnumMax <==> s in KeyStrings
    ensures k != KeyEnumMax ==> KeyStrings[KeyOrdinal(k)] == s
  {
    if s in KeyMap() then KeyMap()[s] else KeyEnumMax
  }

  /** Attributes::value: the value spelled `s`, or the sentinel. */
  function Value(s: string): (v: AttributeValue)
    ensures v == ValueRemote <==> s == "Remote"
    ensures v == ValueTarget <==> s == "Target"
    ensures v == ValueEnumMax <==> s !in ValueStrings
  {
    assert ValueStrings[0] == "Remote" && ValueStrings[1] == "Target";
    if s in ValueMap() then ValueMap()[s] else ValueEnumMax
  }

  /** Attributes::key_to_str: the spelling of a key; null for the sentinel. */
  function KeyToStr(k: AttributeKey): (s: Option<string>)
    ensures s.None? <==> k == KeyEnumMax
    ensures s.Some? ==> s.value in KeyStrings
  {
    if k == KeyEnumMax then None else Some(KeyStrings[KeyOrdinal(k)])
  }

  /** Attributes::value_to_str: the spelling of a value; null for the sentinel. */
  function ValueToStr(v: AttributeValue): (s: Option<string>)
    ensures s.None? <==> v == ValueEnumMax
    ensures s.Some? ==> s.value in ValueStrings
  {
    if v == ValueEnumMax then None else Some(ValueStrings[ValueOrdinal(v)])
  }

  /** Every valid key survives the trip to its spelling and back. */
  lemma KeyRoundTrip(k: AttributeKey)
    requires k != KeyEnumMax
    ensures KeyToStr(k).Some? && Key(KeyToStr(k).value) == k
  {
  }

  /** Every valid value survives the trip to its spelling and back. */
  lemma ValueRoundTrip(v: AttributeValue)
    requires v != ValueEnumMax
    ensures ValueToStr(v).Some? && Value(ValueToStr(v).value) == v
  {
  }

  /** The other direction: a spelling the table knows is the spelling of the
      key it looks up, so the two tables are mutually inverse. */
  lemma KeySpellingRoundTrip(s: string)
    requires s in KeyStrings
    ensures KeyToStr(Key(s)) == Some(s)
  {
  }
}
