/** The configuration event handler (cfgxmlhandler.cpp) as a fold over the
    events of an XML reader. It feeds every tag to the grammar automaton, keeps
    a flat list of the elements in document order (each with the index of its
    enclosing element) and a stack of the indices of the open elements. */
module ConfigHandler {
  import opened Common
  import opened ConfigMachine
  import opened Elements

  /** The reader's callbacks: a start tag with its attributes, an end tag,
      character data. */
  datatype Event = StartTag(name: string, atts: AttributeList) | EndTag(name: string) | Text(chars: string)

  datatype Handler = Handler(machine: Machine, elements: seq<Element>, scope: seq<nat>, parsed: bool)

  /** The result of a callback or of a run of callbacks: the handler state and
      whether the callback returned true. `Undefined` stands for endElement
      popping an empty scope stack, which has no defined behaviour. */
  datatype Outcome = Outcome(h: Handler, ok: bool) | Undefined

  const FreshHandler: Handler := Handler(Fresh, [], [], false)

  function OpenLexeme(name: string): string { "<" + name + ">" }
  function CloseLexeme(name: string): string { "</" + name + ">" }

  /** The parent pointer a new element gets: the top of the scope stack. */
  function ScopeTop(scope: seq<nat>): (p: Option<nat>)
    ensures p.None? <==> |scope| == 0
    ensures p.Some? ==> p.value == scope[|scope| - 1]
  {
    if |scope| == 0 then None else Some(scope[|scope| - 1])
  }

  /** The element startElement creates for an open token: parent is the scope
      top; setAttributes is called once, and a second time only to fetch the
      clash for the log, which changes nothing. */
  function NewChild(h: Handler, t: Token, atts: AttributeList): (e: Element)
    ensures e.token == t && e.parent == ScopeTop(h.scope)
    ensures !e.ready && e.value == ""
  {
    SetAttributes(NewElement(t, ScopeTop(h.scope)), atts).0
  }

  /** ConfigXMLHandler::startElement. */
  function StartElement(h: Handler, name: string, atts: AttributeList): (r: Outcome)
    ensures r.Outcome?
  {
    var step := InputLexeme(h.machine, OpenLexeme(name));
    if step.1 == StatusFault then Outcome(Handler(step.0, h.elements, h.scope, h.parsed), false)
    else
      var t := step.2.value;
      if t % 2 == 0 then
        var e := NewChild(h, t, atts);
        var n: nat := |h.elements|;
        Outcome(Handler(step.0, h.elements + [e], h.scope + [n], h.parsed), true)
      else Outcome(Handler(step.0, h.elements, h.scope, h.parsed), true)
  }

  /** ConfigXMLHandler::endElement. */
  function EndElement(h: Handler, name: string): (r: Outcome)
  {
    var step := InputLexeme(h.machine, CloseLexeme(name));
    if step.1 == StatusFault then Outcome(Handler(step.0, h.elements, h.scope, h.parsed), false)
    else if |h.scope| == 0 then Undefined
    else Outcome(Handler(step.0, h.elements, h.scope[..|h.scope| - 1], h.parsed), true)
  }

  /** ConfigXMLHandler::characters: the text goes to the most recently created
      element, and only while that element has no text yet. */
  function Characters(h: Handler, chars: string): (r: Handler)
    ensures r.machine == h.machine && r.scope == h.scope && r.parsed == h.parsed
    ensures |r.elements| == |h.elements|
    ensures forall i :: 0 <= i < |h.elements| - 1 ==> r.elements[i] == h.elements[i]
  {
    if |h.elements| == 0 then h
    else
      var last := h.elements[|h.elements| - 1];
      if last.ready then h
      else Handler(h.machine, h.elements[..|h.elements| - 1] + [SetValue(last, chars)], h.scope, h.parsed)
  }

  /** ConfigXMLHandler::endDocument. */
  function EndDocument(h: Handler): (r: (Handler, bool))
    ensures r.1 <==> StatusOf(h.machine.state) == StatusComplete && |h.scope| == 0
    ensures r.1 ==> r.0 == Handler(h.machine, h.elements, h.scope, true)
    ensures !r.1 ==> r.0 == h
  {
    if StatusOf(h.machine.state) != StatusComplete then (h, false)
    else if |h.scope| > 0 then (h, false)
    else (Handler(h.machine, h.elements, h.scope, true), true)
  }

  function Handle(h: Handler, ev: Event): Outcome {
    match ev
    case StartTag(name, atts) => StartElement(h, name, atts)
    case EndTag(name) => EndElement(h, name)
    case Text(chars) => Outcome(Characters(h, chars), true)
  }

  /** The reader delivers events until a callback returns false. */
  function Feed(h: Handler, events: seq<Event>): Outcome
    decreases |events|
  {
    if |events| == 0 then Outcome(h, true)
    else
      match Handle(h, events[0])
      case Undefined => Undefined
      case Outcome(h', ok) => if ok then Feed(h', events[1..]) else Outcome(h', false)
  }

  /** A whole document: startDocument (always true), the events, and
      endDocument when every event was accepted. */
  function HandleDocument(events: seq<Event>): Outcome {
    match Feed(FreshHandler, events)
    case Undefined => Undefined
    case Outcome(h, ok) =>
      if !ok then Outcome(h, false)
      else
        var (h', done) := EndDocument(h);
        Outcome(h', done)
  }

  // ---------------------------------------------------------------------------
  // Single callbacks
  // ---------------------------------------------------------------------------

  /** A tag the automaton does not know is refused and changes nothing. */
  lemma StartElementUnknown(h: Handler, name: string, atts: AttributeList)
    requires forall t: Token :: Lexeme(t) != OpenLexeme(name)
    ensures StartElement(h, name, atts) == Outcome(h, false)
  {
  }

  /** An accepted open tag appends exactly one element to the element list
      and its index to the scope stack; the new element's parent is the old
      scope top. A clashing attribute does not stop it. */
  lemma StartElementOpens(h: Handler, name: string, atts: AttributeList, t: Token)
    requires Lexeme(t) == OpenLexeme(name) && t % 2 == 0
    ensures var r := StartElement(h, name, atts);
            && r.ok
            && r.h.machine == InputToken(h.machine, t).0
            && r.h.elements == h.elements + [NewChild(h, t, atts)]
            && r.h.scope == h.scope + [|h.elements|]
            && r.h.elements[|h.elements|].parent == ScopeTop(h.scope)
            && r.h.parsed == h.parsed
  {
    KnownLexemeNeverFaults(h.machine, t);
  }

  /** An accepted end tag pops exactly one scope entry and keeps the element
      list; on an empty scope stack the pop is undefined. */
  lemma EndElementCloses(h: Handler, name: string, t: Token)
    requires Lexeme(t) == CloseLexeme(name)
    ensures |h.scope| == 0 ==> EndElement(h, name).Undefined?
    ensures |h.scope| > 0 ==>
              var r := EndElement(h, name);
              && r.Outcome? && r.ok
              && r.h.machine == InputToken(h.machine, t).0
              && r.h.scope == h.scope[..|h.scope| - 1]
              && r.h.elements == h.elements
  {
    KnownLexemeNeverFaults(h.machine, t);
  }

  /** An unknown end tag is refused, whatever the scope stack holds. */
  lemma EndElementUnknown(h: Handler, name: string)
    requires forall t: Token :: Lexeme(t) != CloseLexeme(name)
    ensures EndElement(h, name) == Outcome(h, false)
  {
  }

  /** The text goes to the last element while it is not ready; later text is
      ignored. */
  lemma CharactersFillsLast(h: Handler, chars: string)
    requires |h.elements| > 0
    ensures var last := h.elements[|h.elements| - 1];
            var r := Characters(h, chars);
            && (!last.ready ==> r.elements[|h.elements| - 1] == SetValue(last, chars))
            && (last.ready ==> r == h)
  {
  }

  // ---------------------------------------------------------------------------
  // The shape of the element list
  // ---------------------------------------------------------------------------

  /** The handler's invariant: every parent comes earlier in the element list;
      the scope stack holds increasing element indices, the bottom one has no
      parent and each other one's parent is the entry below it. */
  ghost predicate Shaped(elements: seq<Element>, scope: seq<nat>) {
    && (forall i :: 0 <= i < |elements| && elements[i].parent.Some? ==> elements[i].parent.value < i)
    && (forall k :: 0 <= k < |scope| ==> scope[k] < |elements|)
    && (forall k :: 0 < k < |scope| ==> scope[k - 1] < scope[k])
    && (|scope| > 0 ==> elements[scope[0]].parent.None?)
    && (forall k :: 0 < k < |scope| ==> elements[scope[k]].parent == Some(scope[k - 1]))
  }

  ghost predicate Valid(h: Handler) {
    Shaped(h.elements, h.scope)
  }

  lemma FreshValid()
    ensures Valid(FreshHandler)
  {
  }

  /** Opening an element whose parent is the scope top keeps the shape. */
  lemma PushShaped(elements: seq<Element>, scope: seq<nat>, e: Element)
    requires Shaped(elements, scope) && e.parent == ScopeTop(scope)
    ensures Shaped(elements + [e], scope + [|elements|])
  {
    var es, sc := elements + [e], scope + [|elements|];
    forall k | 0 < k < |sc| ensures es[sc[k]].parent == Some(sc[k - 1]) {
      if k < |scope| {
        assert es[scope[k]] == elements[scope[k]];
      }
    }
  }

  /** Closing the innermost element keeps the shape. */
  lemma PopShaped(elements: seq<Element>, scope: seq<nat>)
    requires Shaped(elements, scope) && |scope| > 0
    ensures Shaped(elements, scope[..|scope| - 1])
  {
  }

  /** Giving the last element its text keeps the shape. */
  lemma TextShaped(elements: seq<Element>, scope: seq<nat>, e: Element)
    requires Shaped(elements, scope) && |elements| > 0 && e.parent == elements[|elements| - 1].parent
    ensures Shaped(elements[..|elements| - 1] + [e], scope)
  {
    var es := elements[..|elements| - 1] + [e];
    assert forall i :: 0 <= i < |es| ==> es[i].parent == elements[i].parent;
  }

  lemma StartElementValid(h: Handler, name: string, atts: AttributeList)
    requires Valid(h)
    ensures Valid(StartElement(h, name, atts).h)
  {
    var r := StartElement(h, name, atts).h;
    if r.elements != h.elements {
      PushShaped(h.elements, h.scope, r.elements[|h.elements|]);
      assert r.elements == h.elements + [r.elements[|h.elements|]];
    }
  }

  lemma EndElementValid(h: Handler, name: string)
    requires Valid(h) && EndElement(h, name).Outcome?
    ensures Valid(EndElement(h, name).h)
  {
    var r := EndElement(h, name).h;
    if r.scope != h.scope {
      PopShaped(h.elements, h.scope);
    }
  }

  lemma CharactersValid(h: Handler, chars: string)
    requires Valid(h)
    ensures Valid(Characters(h, chars))
  {
    var r := Characters(h, chars);
    if r.elements != h.elements {
      TextShaped(h.elements, h.scope, r.elements[|h.elements| - 1]);
      assert r.elements == h.elements[..|h.elements| - 1] + [r.elements[|h.elements| - 1]];
    }
  }

  /** One callback keeps the invariant. */
  lemma HandleValid(h: Handler, ev: Event)
    requires Valid(h) && Handle(h, ev).Outcome?
    ensures Valid(Handle(h, ev).h)
  {
    match ev
    case StartTag(name, atts) => StartElementValid(h, name, atts);
    case EndTag(name) => EndElementValid(h, name);
    case Text(chars) => CharactersValid(h, chars);
  }

  /** Every run of callbacks keeps the invariant. */
  lemma {:induction false} FeedValid(h: Handler, events: seq<Event>)
    requires Valid(h) && Feed(h, events).Outcome?
    ensures Valid(Feed(h, events).h)
    decreases |events|
  {
    if |events| > 0 {
      HandleValid(h, events[0]);
      var r := Handle(h, events[0]);
      if r.ok {
        FeedValid(r.h, events[1..]);
      }
    }
  }

  // ---------------------------------------------------------------------------
  // Document order and nesting
  // ---------------------------------------------------------------------------

  /** The tokens of an element list, in list order. */
  function Tokens(es: seq<Element>): (ts: seq<Token>)
    ensures |ts| == |es|
  {
    if |es| == 0 then [] else Tokens(es[..|es| - 1]) + [es[|es| - 1].token]
  }

  /** Entry i of the list is the token of element i. */
  lemma {:induction false} TokensAt(es: seq<Element>)
    ensures forall i :: 0 <= i < |es| ==> Tokens(es)[i] == es[i].token
    decreases |es|
  {
    if |es| > 0 {
      TokensAt(es[..|es| - 1]);
    }
  }

  /** The token of an element a start tag creates: its token when that is an
      open token, nothing for an unknown tag or a close token. */
  function OpenTokenOf(ev: Event): (ts: seq<Token>)
    ensures |ts| <= 1
  {
    match ev
    case StartTag(name, _) =>
      (match TokenOf(OpenLexeme(name))
       case Some(t) => if t % 2 == 0 then [t] else []
       case None => [])
    case _ => []
  }

  /** The open tokens of the start tags, in document order: the tokens of the
      elements the handler creates from these events. */
  function OpenTokens(events: seq<Event>): seq<Token>
    decreases |events|
  {
    if |events| == 0 then [] else OpenTokenOf(events[0]) + OpenTokens(events[1..])
  }

  /** How an event moves the nesting depth when it is accepted. */
  function Delta(ev: Event): int {
    if ev.EndTag? then -1 else |OpenTokenOf(ev)|
  }

  function DepthChange(events: seq<Event>): int
    decreases |events|
  {
    if |events| == 0 then 0 else Delta(events[0]) + DepthChange(events[1..])
  }

  lemma TokensSnoc(es: seq<Element>, e: Element)
    ensures Tokens(es + [e]) == Tokens(es) + [e.token]
  {
    assert (es + [e])[..|es|] == es;
  }

  /** Replacing the last element by one with the same token keeps the tokens. */
  lemma TokensReplaceLast(es: seq<Element>, e: Element)
    requires |es| > 0 && e.token == es[|es| - 1].token
    ensures Tokens(es[..|es| - 1] + [e]) == Tokens(es)
  {
    TokensSnoc(es[..|es| - 1], e);
  }

  lemma StartElementEffect(h: Handler, name: string, atts: AttributeList)
    requires StartElement(h, name, atts).ok
    ensures Tokens(StartElement(h, name, atts).h.elements) == Tokens(h.elements) + OpenTokenOf(StartTag(name, atts))
    ensures |StartElement(h, name, atts).h.scope| == |h.scope| + |OpenTokenOf(StartTag(name, atts))|
  {
    var tok := TokenOf(OpenLexeme(name));
    if tok.Some? && tok.value % 2 == 0 {
      StartElementOpens(h, name, atts, tok.value);
      TokensSnoc(h.elements, NewChild(h, tok.value, atts));
    }
  }

  lemma CharactersKeepsTokens(h: Handler, chars: string)
    ensures Tokens(Characters(h, chars).elements) == Tokens(h.elements)
  {
    if |h.elements| > 0 && !h.elements[|h.elements| - 1].ready {
      TokensReplaceLast(h.elements, SetValue(h.elements[|h.elements| - 1], chars));
    }
  }

  /** An accepted callback appends the element of its open token, if any,
      and moves the scope stack by its depth change. */
  lemma HandleEffect(h: Handler, ev: Event)
    requires Handle(h, ev).Outcome? && Handle(h, ev).ok
    ensures Tokens(Handle(h, ev).h.elements) == Tokens(h.elements) + OpenTokenOf(ev)
    ensures |Handle(h, ev).h.scope| == |h.scope| + Delta(ev)
  {
    match ev
    case StartTag(name, atts) => StartElementEffect(h, name, atts);
    case EndTag(name) =>
    case Text(chars) => CharactersKeepsTokens(h, chars);
  }

  /** The element list grows by exactly the open tags, in document order
      (preorder of the element tree). */
  lemma {:induction false} FeedPreorder(h: Handler, events: seq<Event>)
    requires Feed(h, events).Outcome? && Feed(h, events).ok
    ensures Tokens(Feed(h, events).h.elements) == Tokens(h.elements) + OpenTokens(events)
    decreases |events|
  {
    if |events| > 0 {
      var o := Handle(h, events[0]);
      assert o.Outcome? && o.ok;
      assert Feed(h, events) == Feed(o.h, events[1..]);
      HandleEffect(h, events[0]);
      FeedPreorder(o.h, events[1..]);
      var a, b, c := Tokens(h.elements), OpenTokenOf(events[0]), OpenTokens(events[1..]);
      assert OpenTokens(events) == b + c;
      assert (a + b) + c == a + (b + c);
    }
  }

  /** A run in which every callback returns true moves the scope stack by the
      depth change of its events. */
  lemma {:induction false} FeedScopeDepth(h: Handler, events: seq<Event>)
    requires Feed(h, events).Outcome? && Feed(h, events).ok
    ensures |Feed(h, events).h.scope| == |h.scope| + DepthChange(events)
    decreases |events|
  {
    if |events| > 0 {
      HandleEffect(h, events[0]);
      var r := Handle(h, events[0]);
      FeedScopeDepth(r.h, events[1..]);
    }
  }

  /** When no prefix of the events closes more elements than are open, the
      unchecked pop of endElement is never reached. */
  lemma {:induction false} WellNestedDefined(h: Handler, events: seq<Event>)
    requires forall k :: 0 <= k <= |events| ==> |h.scope| + DepthChange(events[..k]) >= 0
    ensures Feed(h, events).Outcome?
    decreases |events|
  {
    if |events| > 0 {
      assert events[..1] == [events[0]];
      assert DepthChange(events[..1]) == Delta(events[0]) + DepthChange([]);
      var r := Handle(h, events[0]);
      if r.Outcome? && r.ok {
        assert |r.h.scope| == |h.scope| + Delta(events[0]);
        forall k | 0 <= k <= |events[1..]| ensures |r.h.scope| + DepthChange(events[1..][..k]) >= 0 {
          assert events[..k + 1][0] == events[0];
          assert events[..k + 1][1..] == events[1..][..k];
        }
        WellNestedDefined(r.h, events[1..]);
      }
    }
  }

  /** The source's remark that an empty scope stack at endDocument "should be
      always true": while every tag takes a transition init_states lists, the
      depth of the automaton's state is the height of the scope stack, so a
      COMPLETE automaton (depth 0) comes with an empty stack. */
  ghost predicate DepthAgrees(h: Handler) {
    Depth(h.machine.state) == |h.scope|
  }

  lemma StartElementKeepsDepth(h: Handler, name: string, atts: AttributeList, t: Token)
    requires DepthAgrees(h)
    requires t % 2 == 0 && Lexeme(t) == OpenLexeme(name) && Assigned(h.machine.state, t).Some?
    ensures StartElement(h, name, atts).ok && DepthAgrees(StartElement(h, name, atts).h)
  {
    StartElementOpens(h, name, atts, t);
    ListedDepth(h.machine.state, t);
  }

  lemma EndElementKeepsDepth(h: Handler, name: string, t: Token)
    requires DepthAgrees(h)
    requires Lexeme(t) == CloseLexeme(name) && Assigned(h.machine.state, t).Some?
    ensures EndElement(h, name).Outcome? && EndElement(h, name).ok && DepthAgrees(EndElement(h, name).h)
  {
    assert t % 2 == 1 by {
      LexemeParts(t);
      assert CloseLexeme(name)[1] == '/';
    }
    ListedDepth(h.machine.state, t);
    EndElementCloses(h, name, t);
  }

  /** One event whose transition is listed keeps the agreement. */
  lemma HandleKeepsDepth(h: Handler, ev: Event)
    requires DepthAgrees(h)
    requires ev.StartTag? ==> exists t: Token :: t % 2 == 0 && Lexeme(t) == OpenLexeme(ev.name) &&
                                                 Assigned(h.machine.state, t).Some?
    requires ev.EndTag? ==> exists t: Token :: Lexeme(t) == CloseLexeme(ev.name) &&
                                               Assigned(h.machine.state, t).Some?
    ensures Handle(h, ev).Outcome? && Handle(h, ev).ok && DepthAgrees(Handle(h, ev).h)
  {
    match ev
    case StartTag(name, atts) =>
      var t: Token :| t % 2 == 0 && Lexeme(t) == OpenLexeme(name) && Assigned(h.machine.state, t).Some?;
      StartElementKeepsDepth(h, name, atts, t);
    case EndTag(name) =>
      var t: Token :| Lexeme(t) == CloseLexeme(name) && Assigned(h.machine.state, t).Some?;
      EndElementKeepsDepth(h, name, t);
    case Text(chars) =>
  }

  /** A COMPLETE automaton whose depth agrees has an empty scope stack, so
      endDocument's second check never fails on such a run. */
  lemma CompleteMeansEmptyScope(h: Handler)
    requires DepthAgrees(h) && StatusOf(h.machine.state) == StatusComplete
    ensures |h.scope| == 0 && EndDocument(h).1
  {
  }

  // ---------------------------------------------------------------------------
  // A document
  // ---------------------------------------------------------------------------

  /** `<configuration platform=.. product=..></configuration>` is accepted:
      one element, no parent, attributes in key order, and parsed is set. */
  lemma SmallDocument(platform: string, product: string)
    ensures var r := HandleDocument([StartTag("configuration", [("platform", platform), ("product", product)]),
                                     EndTag("configuration")]);
            && r.Outcome? && r.ok && r.h.parsed
            && |r.h.elements| == 1
            && r.h.elements[0].token == ConfigurationOpen
            && r.h.elements[0].parent.None?
            && r.h.elements[0].attributes == [("platform", platform), ("product", product)]
  {
    var atts := [("platform", platform), ("product", product)];
    var events := [StartTag("configuration", atts), EndTag("configuration")];
    ConfigurationOpens(atts);
    var h1 := StartElement(FreshHandler, "configuration", atts).h;
    ConfigurationCloses(h1);
    var h2 := EndElement(h1, "configuration").h;
    assert Feed(FreshHandler, events) == Feed(h1, events[1..]);
    assert Feed(h1, events[1..]) == Feed(h2, []);
    SmallDocumentAttributes(platform, product);
  }

  /** The first step of SmallDocument: `<configuration ..>` on a fresh handler. */
  lemma ConfigurationOpens(atts: AttributeList)
    ensures var r := StartElement(FreshHandler, "configuration", atts);
            && r.ok && r.h.machine.state == 1 && r.h.scope == [0] && !r.h.parsed
            && r.h.elements == [NewChild(FreshHandler, ConfigurationOpen, atts)]
  {
    assert Lexeme(ConfigurationOpen) == OpenLexeme("configuration");
    StartElementOpens(FreshHandler, "configuration", atts, ConfigurationOpen);
    StepTo(0, ConfigurationOpen, 1);
  }

  /** The second step of SmallDocument: `</configuration>` in state 1 completes. */
  lemma ConfigurationCloses(h: Handler)
    requires h.machine.state == 1 && h.scope == [0]
    ensures var r := EndElement(h, "configuration");
            && r.Outcome? && r.ok && r.h.machine.state == FinalState && r.h.scope == []
            && r.h.elements == h.elements && r.h.parsed == h.parsed
  {
    assert Lexeme(ConfigurationClose) == CloseLexeme("configuration");
    EndElementCloses(h, "configuration", ConfigurationClose);
    StepTo(1, ConfigurationClose, FinalState);
  }

  /** The element of that document keeps both attributes, in key order. */
  lemma SmallDocumentAttributes(platform: string, product: string)
    ensures NewChild(FreshHandler, ConfigurationOpen, [("platform", platform), ("product", product)]).attributes ==
            [("platform", platform), ("product", product)]
  {
    var atts := [("platform", platform), ("product", product)];
    HeaderFirstValues(platform, product);
    var m1 := Put([], "platform", platform);
    HeaderPuts(platform, product);
    assert SetAttributesFrom([], atts, 0) == SetAttributesFrom(m1, atts, 1);
    assert SetAttributesFrom(m1, atts, 1) == SetAttributesFrom(Put(m1, "product", product), atts, 2);
  }

  lemma HeaderFirstValues(platform: string, product: string)
    ensures FirstValue([("platform", platform), ("product", product)], "platform") == platform
    ensures FirstValue([("platform", platform), ("product", product)], "product") == product
  {
    var atts := [("platform", platform), ("product", product)];
    assert atts[0].0 == "platform" && atts[1].0 == "product";
    assert "platform" != "product";
  }

  lemma HeaderPuts(platform: string, product: string)
    ensures Put([], "platform", platform) == [("platform", platform)]
    ensures Put([("platform", platform)], "product", product) == [("platform", platform), ("product", product)]
  {
    assert !Less("product", "platform") by {
      assert "product"[1..] == "roduct" && "platform"[1..] == "latform";
    }
  }
}
