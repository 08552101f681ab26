/** The event handler of the older format (xmlhandler.cpp) as a fold over the
    events of an XML reader: every tag goes through the legacy automaton, a
    flat list of tokens is kept in document order (each with the index of its
    enclosing token) together with a stack of the indices of the open ones. */
module LegacyHandler {
  import opened Common
  import opened LegacyMachine
  import LegacyTokens
  import Elements

  datatype Event = StartTag(name: string, atts: Elements.AttributeList) | EndTag(name: string) | Text(chars: string)

  datatype Handler = Handler(machine: Machine, tokens: seq<LegacyTokens.Token>, scope: seq<nat>, parsed: bool)

  /** The handler state and whether the callback returned true; `Undefined`
      stands for endElement popping an empty scope stack. */
  datatype Outcome = Outcome(h: Handler, ok: bool) | Undefined

  const FreshHandler: Handler := Handler(Fresh, [], [], false)

  function OpenLexeme(name: string): string { "<" + name + ">" }
  function CloseLexeme(name: string): string { "</" + name + ">" }

  function ScopeTop(scope: seq<nat>): (p: Option<nat>)
    ensures p.None? <==> |scope| == 0
    ensures p.Some? ==> p.value == scope[|scope| - 1]
  {
    if |scope| == 0 then None else Some(scope[|scope| - 1])
  }

  /** The token startElement creates: parent is the scope top, and the
      attributes are set whatever setAttributes returns (an unknown key is
      only logged). */
  function NewChild(h: Handler, t: Token, atts: Elements.AttributeList): (tok: LegacyTokens.Token)
    ensures tok.token == t && tok.parent == ScopeTop(h.scope)
    ensures !tok.ready && tok.value == ""
  {
    LegacyTokens.SetAttributes(LegacyTokens.NewToken(t, ScopeTop(h.scope)), atts).0
  }

  /** XMLHandler::startElement. */
  function StartElement(h: Handler, name: string, atts: Elements.AttributeList): (r: Outcome)
    ensures r.Outcome?
  {
    var step := InputLexeme(h.machine, OpenLexeme(name));
    if step.1 == StatusFault then Outcome(Handler(step.0, h.tokens, h.scope, h.parsed), false)
    else
      var t := step.2.value;
      if t % 2 == 0 then
        var tok := NewChild(h, t, atts);
        var n: nat := |h.tokens|;
        Outcome(Handler(step.0, h.tokens + [tok], h.scope + [n], h.parsed), true)
      else Outcome(Handler(step.0, h.tokens, h.scope, h.parsed), true)
  }

  /** XMLHandler::endElement. */
  function EndElement(h: Handler, name: string): (r: Outcome)
  {
    var step := InputLexeme(h.machine, CloseLexeme(name));
    if step.1 == StatusFault then Outcome(Handler(step.0, h.tokens, h.scope, h.parsed), false)
    else if |h.scope| == 0 then Undefined
    else Outcome(Handler(step.0, h.tokens, h.scope[..|h.scope| - 1], h.parsed), true)
  }

  /** XMLHandler::characters: the text goes to the most recently created
      token, and only while that token has no text yet. */
  function Characters(h: Handler, chars: string): (r: Handler)
    ensures r.machine == h.machine && r.scope == h.scope && r.parsed == h.parsed
    ensures |r.tokens| == |h.tokens|
    ensures forall i :: 0 <= i < |h.tokens| - 1 ==> r.tokens[i] == h.tokens[i]
  {
    if |h.tokens| == 0 then h
    else
      var last := h.tokens[|h.tokens| - 1];
      if last.ready then h
      else Handler(h.machine, h.tokens[..|h.tokens| - 1] + [LegacyTokens.SetValue(last, chars)], h.scope, h.parsed)
  }

  /** XMLHandler::endDocument. */
  function EndDocument(h: Handler): (r: (Handler, bool))
    ensures r.1 <==> StatusOf(h.machine.state) == StatusComplete && |h.scope| == 0
    ensures r.1 ==> r.0 == Handler(h.machine, h.tokens, h.scope, true)
    ensures !r.1 ==> r.0 == h
  {
    if StatusOf(h.machine.state) != StatusComplete then (h, false)
    else if |h.scope| > 0 then (h, false)
    else (Handler(h.machine, h.tokens, h.scope, true), true)
  }

  function Handle(h: Handler, ev: Event): Outcome {
    match ev
    case StartTag(name, atts) => StartElement(h, name, atts)
    case EndTag(name) => EndElement(h, name)
    case Text(chars) => Outcome(Characters(h, chars), true)
  }

  /** The reader delivers events until a callback returns false. */
  function Feed(h: Handler, events: seq<Event>): Outcome
    decreases |events|
  {
    if |events| == 0 then Outcome(h, true)
    else
      match Handle(h, events[0])
      case Undefined => Undefined
      case Outcome(h', ok) => if ok then Feed(h', events[1..]) else Outcome(h', false)
  }

  /** A whole document: startDocument (always true), the events, and
      endDocument when every event was accepted. */
  function HandleDocument(events: seq<Event>): Outcome {
    match Feed(FreshHandler, events)
    case Undefined => Undefined
    case Outcome(h, ok) =>
      if !ok then Outcome(h, false)
      else
        var (h', done) := EndDocument(h);
        Outcome(h', done)
  }

  // ---------------------------------------------------------------------------
  // Single callbacks
  // ---------------------------------------------------------------------------

  /** A tag the automaton does not know is refused and changes nothing. */
  lemma StartElementUnknown(h: Handler, name: string, atts: Elements.AttributeList)
    requires forall t: Token :: Lexeme(t) != OpenLexeme(name)
    ensures StartElement(h, name, atts) == Outcome(h, false)
  {
  }

  /** An accepted open tag appends exactly one token to the token list and its
      index to the scope stack, with the old scope top as parent; an unknown
      attribute key does not stop it. */
  lemma StartElementOpens(h: Handler, name: string, atts: Elements.AttributeList, t: Token)
    requires Lexeme(t) == OpenLexeme(name) && t % 2 == 0
    ensures var r := StartElement(h, name, atts);
            && r.ok
            && r.h.machine == InputToken(h.machine, t).0
            && r.h.tokens == h.tokens + [NewChild(h, t, atts)]
            && r.h.scope == h.scope + [|h.tokens|]
            && r.h.tokens[|h.tokens|].parent == ScopeTop(h.scope)
            && r.h.parsed == h.parsed
  {
    KnownLexemeNeverFaults(h.machine, t);
  }

  /** An accepted end tag pops exactly one scope entry and keeps the token
      list; on an empty scope stack the pop is undefined. */
  lemma EndElementCloses(h: Handler, name: string, t: Token)
    requires Lexeme(t) == CloseLexeme(name)
    ensures |h.scope| == 0 ==> EndElement(h, name).Undefined?
    ensures |h.scope| > 0 ==>
              var r := EndElement(h, name);
              && r.Outcome? && r.ok
              && r.h.machine == InputToken(h.machine, t).0
              && r.h.scope == h.scope[..|h.scope| - 1]
              && r.h.tokens == h.tokens
  {
    KnownLexemeNeverFaults(h.machine, t);
  }

  /** An unknown end tag is refused, whatever the scope stack holds. */
  lemma EndElementUnknown(h: Handler, name: string)
    requires forall t: Token :: Lexeme(t) != CloseLexeme(name)
    ensures EndElement(h, name) == Outcome(h, false)
  {
  }

  /** The text goes to the last token while it is not ready; later text is
      ignored. */
  lemma CharactersFillsLast(h: Handler, chars: string)
    requires |h.tokens| > 0
    ensures var last := h.tokens[|h.tokens| - 1];
            var r := Characters(h, chars);
            && (!last.ready ==> r.tokens[|h.tokens| - 1] == LegacyTokens.SetValue(last, chars))
            && (last.ready ==> r == h)
  {
  }

  // ---------------------------------------------------------------------------
  // The shape of the token list
  // ---------------------------------------------------------------------------

  /** The handler's invariant: every parent comes earlier in the token list;
      the scope stack holds increasing indices, the bottom one has no parent
      and each other one's parent is the entry below it. */
  ghost predicate Shaped(tokens: seq<LegacyTokens.Token>, scope: seq<nat>) {
    && (forall i :: 0 <= i < |tokens| && tokens[i].parent.Some? ==> tokens[i].parent.value < i)
    && (forall k :: 0 <= k < |scope| ==> scope[k] < |tokens|)
    && (forall k :: 0 < k < |scope| ==> scope[k - 1] < scope[k])
    && (|scope| > 0 ==> tokens[scope[0]].parent.None?)
    && (forall k :: 0 < k < |scope| ==> tokens[scope[k]].parent == Some(scope[k - 1]))
  }

  ghost predicate Valid(h: Handler) {
    Shaped(h.tokens, h.scope)
  }

  lemma PushShaped(tokens: seq<LegacyTokens.Token>, scope: seq<nat>, tok: LegacyTokens.Token)
    requires Shaped(tokens, scope) && tok.parent == ScopeTop(scope)
    ensures Shaped(tokens + [tok], scope + [|tokens|])
  {
    var ts, sc := tokens + [tok], scope + [|tokens|];
    forall k | 0 < k < |sc| ensures ts[sc[k]].parent == Some(sc[k - 1]) {
      if k < |scope| {
        assert ts[scope[k]] == tokens[scope[k]];
      }
    }
  }

  lemma TextShaped(tokens: seq<LegacyTokens.Token>, scope: seq<nat>, tok: LegacyTokens.Token)
    requires Shaped(tokens, scope) && |tokens| > 0 && tok.parent == tokens[|tokens| - 1].parent
    ensures Shaped(tokens[..|tokens| - 1] + [tok], scope)
  {
    var ts := tokens[..|tokens| - 1] + [tok];
    assert forall i :: 0 <= i < |ts| ==> ts[i].parent == tokens[i].parent;
  }

  lemma StartElementValid(h: Handler, name: string, atts: Elements.AttributeList)
    requires Valid(h)
    ensures Valid(StartElement(h, name, atts).h)
  {
    var r := StartElement(h, name, atts).h;
    if r.tokens != h.tokens {
      PushShaped(h.tokens, h.scope, r.tokens[|h.tokens|]);
      assert r.tokens == h.tokens + [r.tokens[|h.tokens|]];
    }
  }

  lemma EndElementValid(h: Handler, name: string)
    requires Valid(h) && EndElement(h, name).Outcome?
    ensures Valid(EndElement(h, name).h)
  {
  }

  lemma CharactersValid(h: Handler, chars: string)
    requires Valid(h)
    ensures Valid(Characters(h, chars))
  {
    var r := Characters(h, chars);
    if r.tokens != h.tokens {
      TextShaped(h.tokens, h.scope, r.tokens[|h.tokens| - 1]);
      assert r.tokens == h.tokens[..|h.tokens| - 1] + [r.tokens[|h.tokens| - 1]];
    }
  }

  /** One callback keeps the invariant. */
  lemma HandleValid(h: Handler, ev: Event)
    requires Valid(h) && Handle(h, ev).Outcome?
    ensures Valid(Handle(h, ev).h)
  {
    match ev
    case StartTag(name, atts) => StartElementValid(h, name, atts);
    case EndTag(name) => EndElementValid(h, name);
    case Text(chars) => CharactersValid(h, chars);
  }

  /** Every run of callbacks keeps the invariant. */
  lemma {:induction false} FeedValid(h: Handler, events: seq<Event>)
    requires Valid(h) && Feed(h, events).Outcome?
    ensures Valid(Feed(h, events).h)
    decreases |events|
  {
    if |events| > 0 {
      HandleValid(h, events[0]);
      var r := Handle(h, events[0]);
      if r.ok {
        FeedValid(r.h, events[1..]);
      }
    }
  }

  // ---------------------------------------------------------------------------
  // Document order
  // ---------------------------------------------------------------------------

  /** The transitions of a token list, in list order. */
  function Transitions(ts: seq<LegacyTokens.Token>): (r: seq<Token>)
    ensures |r| == |ts|
  {
    if |ts| == 0 then [] else Transitions(ts[..|ts| - 1]) + [ts[|ts| - 1].token]
  }

  /** Entry i of the list is the token of element i. */
  lemma {:induction false} TransitionsAt(ts: seq<LegacyTokens.Token>)
    ensures forall i :: 0 <= i < |ts| ==> Transitions(ts)[i] == ts[i].token
    decreases |ts|
  {
    if |ts| > 0 {
      TransitionsAt(ts[..|ts| - 1]);
    }
  }

  /** The open token a start tag creates a token for, if any. */
  function OpenTokenOf(ev: Event): (r: seq<Token>)
    ensures |r| <= 1
  {
    match ev
    case StartTag(name, _) =>
      (match TokenOf(OpenLexeme(name))
       case Some(t) => if t % 2 == 0 then [t] else []
       case None => [])
    case _ => []
  }

  /** The open tokens of the start tags, in document order. */
  function OpenTokens(events: seq<Event>): seq<Token>
    decreases |events|
  {
    if |events| == 0 then [] else OpenTokenOf(events[0]) + OpenTokens(events[1..])
  }

  lemma TransitionsSnoc(ts: seq<LegacyTokens.Token>, tok: LegacyTokens.Token)
    ensures Transitions(ts + [tok]) == Transitions(ts) + [tok.token]
  {
    assert (ts + [tok])[..|ts|] == ts;
  }

  /** Replacing the last token by one with the same transition keeps the list's
      transitions. */
  lemma TransitionsReplaceLast(ts: seq<LegacyTokens.Token>, tok: LegacyTokens.Token)
    requires |ts| > 0 && tok.token == ts[|ts| - 1].token
    ensures Transitions(ts[..|ts| - 1] + [tok]) == Transitions(ts)
  {
    TransitionsSnoc(ts[..|ts| - 1], tok);
  }

  lemma StartElementAppends(h: Handler, name: string, atts: Elements.AttributeList)
    requires StartElement(h, name, atts).ok
    ensures Transitions(StartElement(h, name, atts).h.tokens) == Transitions(h.tokens) + OpenTokenOf(StartTag(name, atts))
  {
    var tok := TokenOf(OpenLexeme(name));
    if tok.Some? && tok.value % 2 == 0 {
      StartElementOpens(h, name, atts, tok.value);
      TransitionsSnoc(h.tokens, NewChild(h, tok.value, atts));
    }
  }

  lemma CharactersKeepsTransitions(h: Handler, chars: string)
    ensures Transitions(Characters(h, chars).tokens) == Transitions(h.tokens)
  {
    if |h.tokens| > 0 && !h.tokens[|h.tokens| - 1].ready {
      var last := h.tokens[|h.tokens| - 1];
      TransitionsReplaceLast(h.tokens, LegacyTokens.SetValue(last, chars));
    }
  }

  /** An accepted callback appends the token of its open tag, if any. */
  lemma HandleAppends(h: Handler, ev: Event)
    requires Handle(h, ev).Outcome? && Handle(h, ev).ok
    ensures Transitions(Handle(h, ev).h.tokens) == Transitions(h.tokens) + OpenTokenOf(ev)
  {
    match ev
    case StartTag(name, atts) => StartElementAppends(h, name, atts);
    case EndTag(name) =>
    case Text(chars) => CharactersKeepsTransitions(h, chars);
  }

  /** The token list grows by exactly the open tags, in document order. */
  lemma {:induction false} FeedPreorder(h: Handler, events: seq<Event>)
    requires Feed(h, events).Outcome? && Feed(h, events).ok
    ensures Transitions(Feed(h, events).h.tokens) == Transitions(h.tokens) + OpenTokens(events)
    decreases |events|
  {
    if |events| > 0 {
      var o := Handle(h, events[0]);
      assert o.Outcome? && o.ok;
      assert Feed(h, events) == Feed(o.h, events[1..]);
      HandleAppends(h, events[0]);
      FeedPreorder(o.h, events[1..]);
      var a, b, c := Transitions(h.tokens), OpenTokenOf(events[0]), OpenTokens(events[1..]);
      assert OpenTokens(events) == b + c;
      assert (a + b) + c == a + (b + c);
    }
  }

  // ---------------------------------------------------------------------------
  // A document
  // ---------------------------------------------------------------------------

  /** `<swupdate></swupdate>` is accepted: one token without parent, and
      parsed is set. */
  lemma SmallDocument()
    ensures var r := HandleDocument([StartTag("swupdate", []), EndTag("swupdate")]);
            && r.Outcome? && r.ok && r.h.parsed
            && |r.h.tokens| == 1
            && r.h.tokens[0].token == SwupdateOpen
            && r.h.tokens[0].parent.None?
  {
    var events := [StartTag("swupdate", []), EndTag("swupdate")];
    SwupdateOpens();
    var h1 := StartElement(FreshHandler, "swupdate", []).h;
    SwupdateCloses(h1);
    var h2 := EndElement(h1, "swupdate").h;
    assert Feed(FreshHandler, events) == Feed(h1, events[1..]);
    assert Feed(h1, events[1..]) == Feed(h2, []);
  }

  /** The first step of SmallDocument: `<swupdate>` on a fresh handler. */
  lemma SwupdateOpens()
    ensures var r := StartElement(FreshHandler, "swupdate", []);
            && r.ok && r.h.machine.state == 1 && r.h.scope == [0] && !r.h.parsed
            && |r.h.tokens| == 1 && r.h.tokens[0].token == SwupdateOpen && r.h.tokens[0].parent.None?
  {
    assert Lexeme(SwupdateOpen) == OpenLexeme("swupdate");
    StartElementOpens(FreshHandler, "swupdate", [], SwupdateOpen);
    RunAlong([0, 1], [SwupdateOpen]);
  }

  /** The second step of SmallDocument: `</swupdate>` in state 1 completes. */
  lemma SwupdateCloses(h: Handler)
    requires h.machine.state == 1 && h.scope == [0]
    ensures var r := EndElement(h, "swupdate");
            && r.Outcome? && r.ok && r.h.machine.state == FinalState && r.h.scope == []
            && r.h.tokens == h.tokens && r.h.parsed == h.parsed
  {
    assert Lexeme(SwupdateClose) == CloseLexeme("swupdate");
    EndElementCloses(h, "swupdate", SwupdateClose);
    RunAlong([1, FinalState], [SwupdateClose]);
  }

  /** A document that closes more than it opens reaches the unchecked pop:
      `</swupdate>` alone is undefined, since the table sends the unlisted
      pair to the start state instead of faulting. */
  lemma StrayCloseIsUndefined()
    ensures HandleDocument([EndTag("swupdate")]).Undefined?
  {
    assert Lexeme(SwupdateClose) == CloseLexeme("swupdate");
    EndElementCloses(FreshHandler, "swupdate", SwupdateClose);
  }
}
