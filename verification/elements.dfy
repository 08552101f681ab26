/** The untyped element the configuration handler builds (element.cpp): a
    token, a link to the enclosing element, the enclosed text and a map of raw
    attributes. Parents are indices into the handler's element list, which
    stands for the weak pointer of the source. */
module Elements {
  import opened Common
  import opened ConfigMachine

  /** QXmlAttributes: (qualified name, value) pairs in document order. */
  type AttributeList = seq<(string, string)>

  datatype Element = Element(
    token: Token,
    parent: Option<nat>,
    value: string,
    attributes: OrderedMap,
    ready: bool)

  /** Element::Element: not ready, no text, no attributes. */
  function NewElement(token: Token, parent: Option<nat>): (e: Element)
    ensures e.token == token && e.parent == parent
    ensures !e.ready && e.value == "" && |e.attributes| == 0
  {
    Element(token, parent, "", [], false)
  }

  /** Element::setValue: stores the text and marks the element ready; a later
      call overwrites. */
  function SetValue(e: Element, value: string): (r: Element)
    ensures r.ready && r.value == value
    ensures r.token == e.token && r.parent == e.parent && r.attributes == e.attributes
  {
    Element(e.token, e.parent, value, e.attributes, true)
  }

  /** QXmlAttributes::value(qName): the value of the first attribute so named. */
  function FirstValue(atts: AttributeList, name: string): (v: string)
    requires name in KeySet(atts)
    ensures exists i :: 0 <= i < |atts| && atts[i] == (name, v) &&
                        forall j :: 0 <= j < i ==> atts[j].0 != name
  {
    if atts[0].0 == name then
      assert atts[0] == (name, atts[0].1);
      atts[0].1
    else
      assert name in KeySet(atts[1..]) by {
        var p :| p in atts && p.0 == name;
        var i :| 0 <= i < |atts| && atts[i] == p;
        assert atts[1..][i - 1] == p;
      }
      var v := FirstValue(atts[1..], name);
      var i :| 0 <= i < |atts[1..]| && atts[1..][i] == (name, v) &&
               forall j :: 0 <= j < i ==> atts[1..][j].0 != name;
      assert atts[i + 1] == (name, v);
      v
  }

  /** Attribute i collides: its name is already in `m` or named earlier in the list. */
  predicate Collides(m: OrderedMap, atts: AttributeList, i: nat)
    requires i < |atts|
  {
    atts[i].0 in KeySet(m) || atts[i].0 in KeySet(atts[..i])
  }

  /** Reference definition: the index of the first colliding attribute at or
      after `i`, or |atts| when there is none. */
  function FirstCollisionFrom(m: OrderedMap, atts: AttributeList, i: nat): (j: nat)
    requires i <= |atts|
    ensures i <= j <= |atts|
    ensures j < |atts| ==> Collides(m, atts, j)
    ensures forall k :: i <= k < j ==> !Collides(m, atts, k)
    decreases |atts| - i
  {
    if i == |atts| then i
    else if Collides(m, atts, i) then i
    else FirstCollisionFrom(m, atts, i + 1)
  }

  function FirstCollision(m: OrderedMap, atts: AttributeList): (j: nat)
    ensures j <= |atts|
    ensures j < |atts| ==> Collides(m, atts, j)
    ensures forall k :: 0 <= k < j ==> !Collides(m, atts, k)
  {
    FirstCollisionFrom(m, atts, 0)
  }

  /** The loop of Element::setAttributes from attribute i on; `m` is the map
      built so far, which already holds every earlier name. */
  function SetAttributesFrom(m: OrderedMap, atts: AttributeList, i: nat): (r: (OrderedMap, Option<string>))
    requires i <= |atts|
    decreases |atts| - i
  {
    if i == |atts| then (m, None)
    else
      var name := atts[i].0;
      if name in KeySet(m) then (m, Some(name))
      else
        assert name in KeySet(atts) by { assert atts[i] in atts; }
        SetAttributesFrom(Put(m, name, FirstValue(atts, name)), atts, i + 1)
  }

  /** Element::setAttributes: the attribute map after the call and the first
      colliding name (None for a null return). */
  function SetAttributes(e: Element, atts: AttributeList): (r: (Element, Option<string>))
    ensures r.0.token == e.token && r.0.parent == e.parent
    ensures r.0.value == e.value && r.0.ready == e.ready
  {
    var r := SetAttributesFrom(e.attributes, atts, 0);
    (Element(e.token, e.parent, e.value, r.0, e.ready), r.1)
  }

  /** What the loop of setAttributes keeps at attribute i, starting from the
      map m0: the names before i are added with their own values, nothing
      else changed, and none of them collided. */
  ghost predicate LoopInv(m0: OrderedMap, m: OrderedMap, atts: AttributeList, i: nat)
    requires i <= |atts|
  {
    && KeySet(m) == KeySet(m0) + KeySet(atts[..i])
    && (forall k :: k !in KeySet(atts[..i]) ==> Get(m, k) == Get(m0, k))
    && (forall k :: 0 <= k < i ==> Get(m, atts[k].0) == Some(atts[k].1))
    && (forall k :: 0 <= k < i ==> !Collides(m0, atts, k))
  }

  /** A name that is not in the map yet does not collide, and inserting it
      keeps the loop invariant. */
  lemma LoopStep(m0: OrderedMap, m: OrderedMap, atts: AttributeList, i: nat)
    requires i < |atts| && LoopInv(m0, m, atts, i) && atts[i].0 !in KeySet(m)
    ensures atts[i].0 in KeySet(atts)
    ensures LoopInv(m0, Put(m, atts[i].0, FirstValue(atts, atts[i].0)), atts, i + 1)
  {
    var name := atts[i].0;
    KeySetSnoc(atts, i);
    FirstValueAt(atts, i);
    var m' := Put(m, name, atts[i].1);
    assert KeySet(m') == KeySet(m0) + KeySet(atts[..i + 1]);
    assert forall k :: k !in KeySet(atts[..i + 1]) ==> Get(m', k) == Get(m0, k) by {
      forall k | k !in KeySet(atts[..i + 1]) ensures Get(m', k) == Get(m0, k) {
        assert k != name && k !in KeySet(atts[..i]);
      }
    }
    assert forall k :: 0 <= k < i + 1 ==> !Collides(m0, atts, k) by {
      forall k | 0 <= k < i + 1 ensures !Collides(m0, atts, k) {
        if k == i {
          assert name !in KeySet(m0) + KeySet(atts[..i]);
        }
      }
    }
    LoopStepValues(m, atts, i);
  }

  lemma KeySetSnoc(atts: AttributeList, i: nat)
    requires i < |atts|
    ensures KeySet(atts[..i + 1]) == KeySet(atts[..i]) + {atts[i].0}
  {
    assert atts[..i + 1] == atts[..i] + [atts[i]];
  }

  /** The values stored so far survive the insertion of a new name. */
  lemma LoopStepValues(m: OrderedMap, atts: AttributeList, i: nat)
    requires i < |atts| && atts[i].0 !in KeySet(atts[..i])
    requires forall k :: 0 <= k < i ==> Get(m, atts[k].0) == Some(atts[k].1)
    ensures forall k :: 0 <= k < i + 1 ==> Get(Put(m, atts[i].0, atts[i].1), atts[k].0) == Some(atts[k].1)
  {
    forall k | 0 <= k < i ensures atts[k].0 != atts[i].0 {
      assert atts[..i][k] == atts[k];
      assert atts[..i][k] in atts[..i];
    }
  }

  /** The first attribute of its name supplies the value QXmlAttributes gives. */
  lemma FirstValueAt(atts: AttributeList, i: nat)
    requires i < |atts| && atts[i].0 !in KeySet(atts[..i])
    ensures atts[i].0 in KeySet(atts) && FirstValue(atts, atts[i].0) == atts[i].1
  {
    assert atts[i] in atts;
    var name := atts[i].0;
    var v := FirstValue(atts, name);
    var i' :| 0 <= i' < |atts| && atts[i'] == (name, v) && forall j' :: 0 <= j' < i' ==> atts[j'].0 != name;
  }

  /** The first collision is the one the loop stops at. */
  lemma FirstCollisionIs(m0: OrderedMap, atts: AttributeList, i: nat)
    requires i <= |atts|
    requires forall k :: 0 <= k < i ==> !Collides(m0, atts, k)
    requires i < |atts| ==> Collides(m0, atts, i)
    ensures FirstCollision(m0, atts) == i
  {
  }

  /** The loop adds the non-colliding prefix of the list and stops at the
      first collision, returning its name. */
  lemma {:induction false} SetAttributesFromSpec(m0: OrderedMap, m: OrderedMap, atts: AttributeList, i: nat)
    requires i <= |atts| && LoopInv(m0, m, atts, i)
    ensures var j := FirstCollision(m0, atts);
            var r := SetAttributesFrom(m, atts, i);
            && r.1 == (if j < |atts| then Some(atts[j].0) else None)
            && LoopInv(m0, r.0, atts, j)
    decreases |atts| - i
  {
    if i == |atts| {
      FirstCollisionIs(m0, atts, i);
    } else if atts[i].0 in KeySet(m) {
      assert Collides(m0, atts, i) by {
        assert atts[i].0 in KeySet(m0) + KeySet(atts[..i]);
      }
      FirstCollisionIs(m0, atts, i);
    } else {
      LoopStep(m0, m, atts, i);
      SetAttributesFromSpec(m0, Put(m, atts[i].0, FirstValue(atts, atts[i].0)), atts, i + 1);
    }
  }

  /** Element::setAttributes, completely: with j the first colliding
      attribute, the attributes before j are inserted with their own values,
      the clash (if any) is reported by name, and nothing else changes. */
  lemma SetAttributesSpec(e: Element, atts: AttributeList)
    ensures var j := FirstCollision(e.attributes, atts);
            var r := SetAttributes(e, atts);
            && r.1 == (if j < |atts| then Some(atts[j].0) else None)
            && KeySet(r.0.attributes) == KeySet(e.attributes) + KeySet(atts[..j])
            && (forall k :: k !in KeySet(atts[..j]) ==> Get(r.0.attributes, k) == Get(e.attributes, k))
            && (forall k :: 0 <= k < j ==> Get(r.0.attributes, atts[k].0) == Some(atts[k].1))
  {
    assert atts[..0] == [];
    SetAttributesFromSpec(e.attributes, e.attributes, atts, 0);
  }

  /** Distinct fresh names: everything is inserted and the call returns null. */
  lemma SetAttributesNoClash(e: Element, atts: AttributeList)
    requires forall i :: 0 <= i < |atts| ==> atts[i].0 !in KeySet(e.attributes)
    requires forall i, j :: 0 <= i < j < |atts| ==> atts[i].0 != atts[j].0
    ensures SetAttributes(e, atts).1.None?
    ensures KeySet(SetAttributes(e, atts).0.attributes) == KeySet(e.attributes) + KeySet(atts)
    ensures forall i :: 0 <= i < |atts| ==> Get(SetAttributes(e, atts).0.attributes, atts[i].0) == Some(atts[i].1)
  {
    var j := FirstCollision(e.attributes, atts);
    assert atts[..j] == atts;
    SetAttributesSpec(e, atts);
  }

  /** Calling setAttributes again with the same list (as the handler does to
      fetch the clash for its log line) returns a clash and changes nothing. */
  lemma SetAttributesAgain(e: Element, atts: AttributeList)
    requires SetAttributes(e, atts).1.Some?
    ensures var once := SetAttributes(e, atts).0;
            SetAttributes(once, atts) == (once, Some(atts[0].0))
  {
    var once := SetAttributes(e, atts).0;
    SetAttributesSpec(e, atts);
    var j := FirstCollision(e.attributes, atts);
    assert atts[0].0 in KeySet(once.attributes) by {
      if j == 0 {
        assert Collides(e.attributes, atts, 0);
        assert atts[..0] == [];
      } else {
        assert atts[..j][0] == atts[0];
      }
    }
  }

  /** setAttributes keeps the attribute map in key order. */
  lemma {:induction false} SetAttributesFromSorted(m: OrderedMap, atts: AttributeList, i: nat)
    requires i <= |atts| && Sorted(m)
    ensures Sorted(SetAttributesFrom(m, atts, i).0)
    decreases |atts| - i
  {
    if i < |atts| && atts[i].0 !in KeySet(m) {
      assert atts[i].0 in KeySet(atts) by { assert atts[i] in atts; }
      var m' := Put(m, atts[i].0, FirstValue(atts, atts[i].0));
      PutSorted(m, atts[i].0, FirstValue(atts, atts[i].0));
      SetAttributesFromSorted(m', atts, i + 1);
    }
  }

  // ---------------------------------------------------------------------------
  // description
  // ---------------------------------------------------------------------------

  /** One " [key:value]" item per attribute, in key order. */
  function AttributeText(m: OrderedMap): (s: string)
  {
    if |m| == 0 then "" else " [" + m[0].0 + ":" + m[0].1 + "]" + AttributeText(m[1..])
  }

  /** The attribute text of a map is the texts of its parts, in order. */
  lemma {:induction false} AttributeTextAppend(a: OrderedMap, b: OrderedMap)
    ensures AttributeText(a + b) == AttributeText(a) + AttributeText(b)
    decreases |a|
  {
    if |a| == 0 {
      assert a + b == b;
    } else {
      assert (a + b)[0] == a[0];
      assert (a + b)[1..] == a[1..] + b;
      AttributeTextAppend(a[1..], b);
    }
  }

  /** Item i of a map's attribute text sits after the items before it and
      before the items after it. */
  lemma AttributeTextItem(m: OrderedMap, i: nat)
    requires i < |m|
    ensures AttributeText(m) == AttributeText(m[..i]) + (" [" + m[i].0 + ":" + m[i].1 + "]") + AttributeText(m[i + 1..])
  {
    var item := " [" + m[i].0 + ":" + m[i].1 + "]";
    var pre, post := m[..i], m[i + 1..];
    assert m == pre + m[i..];
    AttributeTextAppend(pre, m[i..]);
    assert m[i..][1..] == post;
    assert AttributeText(m[i..]) == item + AttributeText(post);
    assert AttributeText(m) == AttributeText(pre) + (item + AttributeText(post));
  }

  /** Element::description: the lexeme, the attributes in key order, the text
      in braces, the lexeme again. */
  function Description(e: Element): (s: string)
    ensures var t, a := Lexeme(e.token), AttributeText(e.attributes);
            && |s| == 2 * |t| + |a| + |e.value| + 6
            && s[..|t|] == t
            && s[|t|..|t| + |a|] == a
            && s[|t| + |a|..|t| + |a| + 3] == " { "
            && s[|t| + |a| + 3..|s| - |t| - 3] == e.value
            && s[|s| - |t| - 3..|s| - |t|] == " } "
            && s[|s| - |t|..] == t
  {
    var t := Lexeme(e.token);
    t + AttributeText(e.attributes) + " { " + e.value + " } " + t
  }

  /** An element with a single attribute describes it between the lexeme and
      the text. */
  lemma DescriptionOneAttribute(e: Element, k: string, v: string)
    requires e.attributes == [(k, v)]
    ensures Description(e) == Lexeme(e.token) + " [" + k + ":" + v + "] { " + e.value + " } " + Lexeme(e.token)
  {
    assert AttributeText(e.attributes) == " [" + k + ":" + v + "]" + AttributeText([]);
  }
}
