/** The element of the older format (token.cpp): a transition, a link to the
    enclosing token, the enclosed text and the attributes keyed by attribute
    key. Parents are indices into the handler's token list. */
module LegacyTokens {
  import opened Common
  import opened Attributes
  import LegacyMachine
  import Elements
  import ConfigElements

  /** d_attributes: QMap<attribute_key_t, QString>. */
  type KeyedAttributes = map<AttributeKey, string>

  datatype Token = Token(
    token: LegacyMachine.Token,
    parent: Option<nat>,
    value: string,
    attributes: KeyedAttributes,
    ready: bool)

  /** Token::Token: not ready, no text, no attributes. */
  function NewToken(t: LegacyMachine.Token, parent: Option<nat>): (r: Token)
    ensures r.token == t && r.parent == parent
    ensures !r.ready && r.value == "" && |r.attributes| == 0
  {
    Token(t, parent, "", map[], false)
  }

  /** Token::setValue: stores the text and marks the token ready; a later
      call overwrites. */
  function SetValue(tok: Token, value: string): (r: Token)
    ensures r.ready && r.value == value
    ensures r.token == tok.token && r.parent == tok.parent && r.attributes == tok.attributes
  {
    Token(tok.token, tok.parent, value, tok.attributes, true)
  }

  /** The value QXmlAttributes::value(qName) gives for attribute k: the value
      of the first attribute with that name. */
  function ValueOf(atts: Elements.AttributeList, k: nat): string
    requires k < |atts|
  {
    assert atts[k].0 in KeySet(atts) by { assert atts[k] in atts; }
    Elements.FirstValue(atts, atts[k].0)
  }

  /** value(qName) for attribute k is the value of an attribute at or before
      k with the same name, and no earlier attribute has that name. */
  lemma ValueOfFirst(atts: Elements.AttributeList, k: nat)
    requires k < |atts|
    ensures exists i :: 0 <= i <= k && atts[i] == (atts[k].0, ValueOf(atts, k)) &&
                        forall j :: 0 <= j < i ==> atts[j].0 != atts[k].0
  {
    var v := ValueOf(atts, k);
    var i :| 0 <= i < |atts| && atts[i] == (atts[k].0, v) && forall j :: 0 <= j < i ==> atts[j].0 != atts[k].0;
    assert i <= k;
  }

  /** The loop of Token::setAttributes from attribute i on: each attribute
      whose name is a known key stores value(qName) under that key; the loop
      breaks at the first unknown name and returns its index. */
  function SetAttributesFrom(m: KeyedAttributes, atts: Elements.AttributeList, i: nat): (r: (KeyedAttributes, nat))
    requires i <= |atts|
    ensures i <= r.1 <= |atts|
    decreases |atts| - i
  {
    if i == |atts| then (m, i)
    else
      var k := Key(atts[i].0);
      if k == KeyEnumMax then (m, i)
      else SetAttributesFrom(m[k := ValueOf(atts, i)], atts, i + 1)
  }

  /** Token::setAttributes: the token afterwards and the returned index. */
  function SetAttributes(tok: Token, atts: Elements.AttributeList): (r: (Token, nat))
    ensures r.1 <= |atts|
    ensures r.0.token == tok.token && r.0.parent == tok.parent
    ensures r.0.value == tok.value && r.0.ready == tok.ready
  {
    var r := SetAttributesFrom(tok.attributes, atts, 0);
    (Token(tok.token, tok.parent, tok.value, r.0, tok.ready), r.1)
  }

  /** The loop returns the index of the first unknown name. */
  lemma {:induction false} SetAttributesFromIndex(m: KeyedAttributes, atts: Elements.AttributeList, i: nat)
    requires i <= |atts|
    ensures SetAttributesFrom(m, atts, i).1 == ConfigElements.FirstUnknownKeyFrom(atts, i)
    decreases |atts| - i
  {
    if i < |atts| && Key(atts[i].0) != KeyEnumMax {
      SetAttributesFromIndex(m[Key(atts[i].0) := ValueOf(atts, i)], atts, i + 1);
    }
  }

  /** Some attribute in [i, j) spells key. */
  predicate KeyedIn(atts: Elements.AttributeList, i: nat, j: nat, key: AttributeKey)
    requires j <= |atts|
  {
    exists k :: i <= k < j && Key(atts[k].0) == key
  }

  lemma KeyedInStep(atts: Elements.AttributeList, i: nat, j: nat, key: AttributeKey)
    requires i < j <= |atts|
    ensures KeyedIn(atts, i, j, key) <==> Key(atts[i].0) == key || KeyedIn(atts, i + 1, j, key)
  {
    if KeyedIn(atts, i, j, key) {
      var k :| i <= k < j && Key(atts[k].0) == key;
      if k > i {
        assert i + 1 <= k < j;
      }
    }
  }

  /** The loop fills exactly the keys of the attributes before the first
      unknown name. */
  lemma {:induction false} SetAttributesFromDomain(m: KeyedAttributes, atts: Elements.AttributeList, i: nat, key: AttributeKey)
    requires i <= |atts|
    ensures key in SetAttributesFrom(m, atts, i).0 <==>
              (key in m || KeyedIn(atts, i, ConfigElements.FirstUnknownKeyFrom(atts, i), key))
    decreases |atts| - i
  {
    var j := ConfigElements.FirstUnknownKeyFrom(atts, i);
    if i < |atts| && Key(atts[i].0) != KeyEnumMax {
      var m' := m[Key(atts[i].0) := ValueOf(atts, i)];
      assert SetAttributesFrom(m, atts, i) == SetAttributesFrom(m', atts, i + 1);
      assert j == ConfigElements.FirstUnknownKeyFrom(atts, i + 1);
      SetAttributesFromDomain(m', atts, i + 1, key);
      KeyedInStep(atts, i, j, key);
    } else {
      assert j == i;
      assert !KeyedIn(atts, i, j, key);
    }
  }

  /** A key no attribute before the first unknown name spells keeps its entry. */
  lemma {:induction false} SetAttributesFromKeeps(m: KeyedAttributes, atts: Elements.AttributeList, i: nat, key: AttributeKey)
    requires i <= |atts| && key in m
    requires forall k :: i <= k < ConfigElements.FirstUnknownKeyFrom(atts, i) ==> Key(atts[k].0) != key
    ensures key in SetAttributesFrom(m, atts, i).0 && SetAttributesFrom(m, atts, i).0[key] == m[key]
    decreases |atts| - i
  {
    if i < |atts| && Key(atts[i].0) != KeyEnumMax {
      SetAttributesFromKeeps(m[Key(atts[i].0) := ValueOf(atts, i)], atts, i + 1, key);
    }
  }

  /** Attribute k, before the first unknown name, ends up stored under its
      key with value(qName): a later attribute with the same key has the same
      name, so it writes the same value again. */
  lemma {:induction false} SetAttributesFromStores(m: KeyedAttributes, atts: Elements.AttributeList, i: nat, k: nat)
    requires i <= |atts| && i <= k < ConfigElements.FirstUnknownKeyFrom(atts, i)
    ensures Key(atts[k].0) in SetAttributesFrom(m, atts, i).0
    ensures SetAttributesFrom(m, atts, i).0[Key(atts[k].0)] == ValueOf(atts, k)
    decreases |atts| - i
  {
    var m' := m[Key(atts[i].0) := ValueOf(atts, i)];
    assert SetAttributesFrom(m, atts, i) == SetAttributesFrom(m', atts, i + 1);
    if k > i {
      SetAttributesFromStores(m', atts, i + 1, k);
    } else {
      var j := ConfigElements.FirstUnknownKeyFrom(atts, i + 1);
      if exists k' :: i + 1 <= k' < j && Key(atts[k'].0) == Key(atts[k].0) {
        var k' :| i + 1 <= k' < j && Key(atts[k'].0) == Key(atts[k].0);
        ConfigElements.KeyInjective(atts[k].0, atts[k'].0);
        SameNameSameValue(atts, k, k');
        SetAttributesFromStores(m', atts, i + 1, k');
      } else {
        SetAttributesFromKeeps(m', atts, i + 1, Key(atts[k].0));
      }
    }
  }

  /** Two attributes with the same name get the same value(qName). */
  lemma SameNameSameValue(atts: Elements.AttributeList, a: nat, b: nat)
    requires a < |atts| && b < |atts| && atts[a].0 == atts[b].0
    ensures ValueOf(atts, a) == ValueOf(atts, b)
  {
  }

  /** Token::setAttributes, completely: it returns the index of the first
      attribute whose name is not a known key (the count when there is none);
      every attribute before that index is stored under its key, with the
      value of the first attribute of its name; no other key changes. */
  lemma SetAttributesSpec(tok: Token, atts: Elements.AttributeList)
    ensures var r := SetAttributes(tok, atts);
            var j := ConfigElements.FirstUnknownKey(atts);
            && r.1 == j
            && (forall key :: key in r.0.attributes <==>
                  (key in tok.attributes || exists k :: 0 <= k < j && Key(atts[k].0) == key))
            && (forall key :: key in tok.attributes && (forall k :: 0 <= k < j ==> Key(atts[k].0) != key) ==>
                  r.0.attributes[key] == tok.attributes[key])
            && (forall k :: 0 <= k < j ==>
                  Key(atts[k].0) in r.0.attributes && r.0.attributes[Key(atts[k].0)] == ValueOf(atts, k))
  {
    SetAttributesFromIndex(tok.attributes, atts, 0);
    forall key ensures key in SetAttributes(tok, atts).0.attributes <==>
                         (key in tok.attributes || exists k :: 0 <= k < ConfigElements.FirstUnknownKey(atts) && Key(atts[k].0) == key)
    {
      SetAttributesFromDomain(tok.attributes, atts, 0, key);
    }
    forall key | key in tok.attributes && (forall k :: 0 <= k < ConfigElements.FirstUnknownKey(atts) ==> Key(atts[k].0) != key)
      ensures SetAttributes(tok, atts).0.attributes[key] == tok.attributes[key]
    {
      SetAttributesFromKeeps(tok.attributes, atts, 0, key);
    }
    forall k | 0 <= k < ConfigElements.FirstUnknownKey(atts)
      ensures Key(atts[k].0) in SetAttributes(tok, atts).0.attributes
      ensures SetAttributes(tok, atts).0.attributes[Key(atts[k].0)] == ValueOf(atts, k)
    {
      SetAttributesFromStores(tok.attributes, atts, 0, k);
    }
  }

  /** The returned index is the count exactly when every name is a known key. */
  lemma SetAttributesAllKnown(tok: Token, atts: Elements.AttributeList)
    ensures SetAttributes(tok, atts).1 == |atts| <==> forall k :: 0 <= k < |atts| ==> atts[k].0 in KeyStrings
  {
    SetAttributesSpec(tok, atts);
  }

  /** There is no duplicate detection: a repeated key is written again, and
      since value(qName) returns the first attribute of that name the stored
      value is the first one's. */
  lemma RepeatedKeyKeepsFirstValue(t: LegacyMachine.Token)
    ensures var r := SetAttributes(NewToken(t, None), [("path", "/a"), ("path", "/b")]);
            r.1 == 2 && r.0.attributes == map[KeyPath := "/a"]
  {
    var atts: Elements.AttributeList := [("path", "/a"), ("path", "/b")];
    assert Key("path") == KeyPath;
    assert ValueOf(atts, 0) == "/a" && ValueOf(atts, 1) == "/a";
    assert SetAttributesFrom(map[], atts, 0) == SetAttributesFrom(map[KeyPath := "/a"], atts, 1);
    assert atts[1].0 == "path" && Key(atts[1].0) == KeyPath;
    var m := map[KeyPath := "/a"];
    assert m[KeyPath := ValueOf(atts, 1)] == m;
    assert SetAttributesFrom(m, atts, 1) == SetAttributesFrom(m, atts, 2);
  }

  /** An unknown name stops the loop: later known keys are not stored. */
  lemma UnknownNameStops(t: LegacyMachine.Token)
    ensures var r := SetAttributes(NewToken(t, None), [("root", "Remote"), ("size", "1"), ("path", "/a")]);
            r.1 == 1 && r.0.attributes == map[KeyRoot := "Remote"]
  {
    var atts: Elements.AttributeList := [("root", "Remote"), ("size", "1"), ("path", "/a")];
    assert Key("root") == KeyRoot;
    assert Key("size") == KeyEnumMax;
    assert ValueOf(atts, 0) == "Remote";
    assert SetAttributesFrom(map[], atts, 0) == SetAttributesFrom(map[KeyRoot := "Remote"], atts, 1);
  }
}
