/** The typed element the parser reads (cfgelement.cpp): a copy of an
    element's token and parent plus an index of typed attributes, one slot per
    attribute key. A slot that is absent from the index is ATTRIBUTE_UNSET. */
module ConfigElements {
  import opened Common
  import opened Attributes
  import opened ConfigMachine
  import opened Elements

  /** attribute_kv_pair: the typed key, the typed value (possibly the
      sentinel) and the raw value text. */
  datatype KvPair = KvPair(key: AttributeKey, val: AttributeValue, lexeme: string)

  /** The slots of d_attribute_index; a key without a slot is unset. */
  type Slots = map<AttributeKey, KvPair>

  datatype ConfigElement = ConfigElement(
    token: Token,
    parent: Option<nat>,
    value: string,
    ready: bool,
    slots: Slots)

  /** The conversion loop over the raw attributes from position i on, in key
      order; it returns as soon as a key is not a known attribute key. */
  function IndexFrom(atts: OrderedMap, i: nat, slots: Slots): (r: Slots)
    requires i <= |atts|
    decreases |atts| - i
  {
    if i == |atts| then slots
    else
      var key := Key(atts[i].0);
      if key == KeyEnumMax then slots
      else IndexFrom(atts, i + 1, slots[key := KvPair(key, Value(atts[i].1), atts[i].1)])
  }

  /** The position of the first raw attribute whose name is not a known key,
      or |atts|: the conversion stops there. */
  function FirstUnknownKeyFrom(atts: OrderedMap, i: nat): (j: nat)
    requires i <= |atts|
    ensures i <= j <= |atts|
    ensures j < |atts| ==> Key(atts[j].0) == KeyEnumMax
    ensures forall k :: i <= k < j ==> Key(atts[k].0) != KeyEnumMax
    decreases |atts| - i
  {
    if i == |atts| then i
    else if Key(atts[i].0) == KeyEnumMax then i
    else FirstUnknownKeyFrom(atts, i + 1)
  }

  function FirstUnknownKey(atts: OrderedMap): (j: nat)
    ensures j <= |atts|
    ensures j < |atts| ==> Key(atts[j].0) == KeyEnumMax
    ensures forall k :: 0 <= k < j ==> Key(atts[k].0) != KeyEnumMax
  {
    FirstUnknownKeyFrom(atts, 0)
  }

  /** CFGElement::CFGElement. The base Element is built from token and parent
      only, so the text is lost and the converted element is not ready. */
  function Convert(e: Element): (c: ConfigElement)
    ensures c.token == e.token && c.parent == e.parent
    ensures c.value == "" && !c.ready
  {
    ConfigElement(e.token, e.parent, "", false, IndexFrom(e.attributes, 0, map[]))
  }

  /** CFGElement::attribute_index: the slot of a valid key; None when unset. */
  function AttributeIndex(c: ConfigElement, key: AttributeKey): (r: Option<KvPair>)
    requires key != KeyEnumMax
    ensures r.Some? <==> key in c.slots
    ensures r.Some? ==> r.value == c.slots[key]
  {
    if key in c.slots then Some(c.slots[key]) else None
  }

  /** The loop fills the slots of exactly the keys of the raw attributes
      before the first unknown key; later raw attributes are never looked at. */
  lemma {:induction false} IndexFromDomain(atts: OrderedMap, i: nat, slots: Slots)
    requires i <= |atts|
    ensures var r := IndexFrom(atts, i, slots);
            var j := FirstUnknownKeyFrom(atts, i);
            forall key :: key in r <==> (key in slots || exists k :: i <= k < j && Key(atts[k].0) == key)
    decreases |atts| - i
  {
    if i < |atts| && Key(atts[i].0) != KeyEnumMax {
      var key := Key(atts[i].0);
      var slots' := slots[key := KvPair(key, Value(atts[i].1), atts[i].1)];
      IndexFromDomain(atts, i + 1, slots');
      var r := IndexFrom(atts, i, slots);
      var j := FirstUnknownKeyFrom(atts, i);
      assert r == IndexFrom(atts, i + 1, slots');
      assert j == FirstUnknownKeyFrom(atts, i + 1);
      forall key' ensures key' in r <==> (key' in slots || exists k :: i <= k < j && Key(atts[k].0) == key') {
        if key' == key {
          assert Key(atts[i].0) == key';
        }
        if exists k :: i <= k < j && Key(atts[k].0) == key' {
          var k :| i <= k < j && Key(atts[k].0) == key';
          if k > i {
            assert i + 1 <= k < j;
          }
        }
      }
    }
  }

  /** Each filled slot holds (key, typed value, raw value) of its raw
      attribute, and slots filled earlier are kept. With sorted raw keys each
      slot is written once. */
  lemma {:induction false} IndexFromValues(atts: OrderedMap, i: nat, slots: Slots)
    requires i <= |atts| && Sorted(atts)
    requires forall k :: i <= k < |atts| ==> Key(atts[k].0) !in slots
    requires KeyEnumMax !in slots
    ensures var r := IndexFrom(atts, i, slots);
            var j := FirstUnknownKeyFrom(atts, i);
            && (forall key :: key in slots ==> key in r && r[key] == slots[key])
            && (forall k :: i <= k < j ==>
                  (Key(atts[k].0) in r && r[Key(atts[k].0)] == KvPair(Key(atts[k].0), Value(atts[k].1), atts[k].1)))
    decreases |atts| - i
  {
    if i < |atts| {
      var key := Key(atts[i].0);
      if key != KeyEnumMax {
        var slots' := slots[key := KvPair(key, Value(atts[i].1), atts[i].1)];
        LaterKeysDiffer(atts, i);
        IndexFromValues(atts, i + 1, slots');
      }
    }
  }

  /** In a sorted raw map no later attribute spells the key of attribute i. */
  lemma LaterKeysDiffer(atts: OrderedMap, i: nat)
    requires Sorted(atts) && i < |atts| && Key(atts[i].0) != KeyEnumMax
    ensures forall k :: i < k < |atts| ==> Key(atts[k].0) != Key(atts[i].0)
  {
    forall k | i < k < |atts| ensures Key(atts[k].0) != Key(atts[i].0) {
      assert Less(atts[i].0, atts[k].0);
      if Key(atts[k].0) == Key(atts[i].0) {
        KeyInjective(atts[i].0, atts[k].0);
        LessIrreflexive(atts[i].0);
      }
    }
  }

  /** Two different spellings never name the same valid key. */
  lemma KeyInjective(a: string, b: string)
    requires Key(a) == Key(b) && Key(a) != KeyEnumMax
    ensures a == b
  {
  }

  /** The typed index of a converted element: the slot of a valid key is set
      exactly when a raw attribute before the first unknown raw key (in key
      order) has that key. */
  lemma ConvertSlotSet(e: Element, key: AttributeKey)
    ensures key in Convert(e).slots <==>
              exists k :: 0 <= k < FirstUnknownKey(e.attributes) && Key(e.attributes[k].0) == key
  {
    IndexFromDomain(e.attributes, 0, map[]);
  }

  /** ... and the slot then holds that raw attribute, typed. */
  lemma ConvertSlotValue(e: Element, k: nat)
    requires Sorted(e.attributes) && k < FirstUnknownKey(e.attributes)
    ensures var key := Key(e.attributes[k].0);
            key in Convert(e).slots &&
            Convert(e).slots[key] == KvPair(key, Value(e.attributes[k].1), e.attributes[k].1)
  {
    IndexFromValues(e.attributes, 0, map[]);
  }

  /** The same in terms of spellings: the slot of `key` is set exactly when
      the raw attribute spelled like the key lies before the first unknown key. */
  lemma ConvertSpelling(e: Element, key: AttributeKey, k: nat)
    requires Sorted(e.attributes) && key != KeyEnumMax && k < |e.attributes|
    requires e.attributes[k].0 == KeyToStr(key).value
    ensures key in Convert(e).slots <==> k < FirstUnknownKey(e.attributes)
    ensures k < FirstUnknownKey(e.attributes) ==>
              Convert(e).slots[key] == KvPair(key, Value(e.attributes[k].1), e.attributes[k].1)
  {
    ConvertSlotSet(e, key);
    assert Key(e.attributes[k].0) == key;
    if k < FirstUnknownKey(e.attributes) {
      ConvertSlotValue(e, k);
    }
    if key in Convert(e).slots {
      var k' :| 0 <= k' < FirstUnknownKey(e.attributes) && Key(e.attributes[k'].0) == key;
      KeyInjective(e.attributes[k].0, e.attributes[k'].0);
      if k' != k {
        SortedKeysDistinct(e.attributes, if k < k' then k else k', if k < k' then k' else k);
      }
    }
  }

  /** A raw attribute with an unknown key hides every key that sorts after
      it: "path" is left unset when the element also carries "other". */
  lemma ConvertStopsAtUnknownKey(t: Token)
    ensures var e := Element(t, None, "", [("other", "x"), ("path", "/a")], false);
            Sorted(e.attributes) && KeyPath !in Convert(e).slots
  {
    var e := Element(t, None, "", [("other", "x"), ("path", "/a")], false);
    assert Key("other") == KeyEnumMax;
    assert FirstUnknownKey(e.attributes) == 0;
    assert IndexFrom(e.attributes, 0, map[]) == map[];
    assert Less("other", "path");
  }
}
