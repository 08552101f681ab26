/** The automaton of the older update format (xmlstatemachine.cpp): the same
    design as the configuration automaton over the swupdate tag set, with
    its own token numbering, states and statuses.

    The table is again modelled as the code builds it: the static
    initializer `{{FaultState}}` gives FaultState to cell [0][0] only and zero
    to every other cell, and init_states overwrites [0][0]. Every pair that
    init_states does not list leads to state 0, and FaultState is never
    entered. */
module LegacyMachine {
  import opened Common

  const TransitionEnumMax: nat := 24
  const NMachineStates: nat := 18

  /** Transition: open tokens are even, and each close token is its open token + 1. */
  type Token = t: nat | t < TransitionEnumMax
  type State = s: nat | s < NMachineStates

  const SwupdateOpen: Token := 0
  const SwupdateClose: Token := 1
  const MediaOpen: Token := 2
  const MediaClose: Token := 3
  const MediaPathOpen: Token := 4
  const MediaPathClose: Token := 5
  const FileMatchOpen: Token := 6
  const FileMatchClose: Token := 7
  const UpdateValidateOpen: Token := 8
  const UpdateValidateClose: Token := 9
  const ExpectOpen: Token := 10
  const ExpectClose: Token := 11
  const UpdateOpen: Token := 12
  const UpdateClose: Token := 13
  const CopyOpen: Token := 14
  const CopyClose: Token := 15
  const DirectoryOpen: Token := 16
  const DirectoryClose: Token := 17
  const ToDirectoryOpen: Token := 18
  const ToDirectoryClose: Token := 19
  const FileOpen: Token := 20
  const FileClose: Token := 21
  const RemoveOpen: Token := 22
  const RemoveClose: Token := 23

  const StartState: State := 0
  const FinalState: State := 15
  const FaultState: State := 17

  datatype Status = StatusOk | StatusFault | StatusComplete

  /** Tag names, one per open/close pair, in token order. */
  const TagNames: seq<string> := ["swupdate", "media", "media-path", "file-match", "update-validate",
                                  "expect", "update", "copy", "directory", "to-directory", "file", "remove"]

  /** transition_string_map: `<name>` for an open token, `</name>` for a close one. */
  function Lexeme(t: Token): string {
    if t % 2 == 0 then "<" + TagNames[t / 2] + ">" else "</" + TagNames[t / 2] + ">"
  }

  /** The assignments of init_states, in the order they execute. */
  const InitStates: seq<Assignment> := [
    Assign(0, SwupdateOpen, 1),
    Assign(1, MediaOpen, 2),
    Assign(1, UpdateValidateOpen, 5),
    Assign(1, UpdateOpen, 7),
    Assign(1, SwupdateClose, FinalState),
    Assign(2, MediaClose, 1),
    Assign(2, MediaPathOpen, 3),
    Assign(2, FileMatchOpen, 4),
    Assign(3, MediaPathClose, 2),
    Assign(4, FileMatchClose, 2),
    Assign(5, UpdateValidateClose, 1),
    Assign(5, ExpectOpen, 6),
    Assign(6, ExpectClose, 5),
    Assign(7, UpdateClose, 1),
    Assign(7, CopyOpen, 8),
    Assign(7, RemoveOpen, 16),
    Assign(8, DirectoryOpen, 9),
    Assign(8, CopyClose, 7),
    Assign(8, FileOpen, 12),
    Assign(9, DirectoryClose, 10),
    Assign(10, ToDirectoryOpen, 11),
    Assign(11, ToDirectoryClose, 8),
    Assign(12, FileClose, 13),
    Assign(13, ToDirectoryOpen, 14),
    Assign(14, ToDirectoryClose, 8),
    Assign(16, RemoveClose, 7)
  ]

  /** The static initializer `{{FaultState}}`: only the very first cell gets FaultState. */
  function Initializer(s: State, t: Token): State {
    if s == 0 && t == 0 then FaultState else 0
  }

  /** The cell (s, t) as init_states writes it, or None when init_states leaves
      it alone. Each cell is written at most once. State 15, the final state,
      has no listed transition. */
  function Assigned(s: State, t: Token): Option<State> {
    match s
    case 0 => if t == SwupdateOpen then Some(1) else None
    case 1 =>
      if t == MediaOpen then Some(2)
      else if t == UpdateValidateOpen then Some(5)
      else if t == UpdateOpen then Some(7)
      else if t == SwupdateClose then Some(FinalState)
      else None
    case 2 =>
      if t == MediaClose then Some(1)
      else if t == MediaPathOpen then Some(3)
      else if t == FileMatchOpen then Some(4)
      else None
    case 3 => if t == MediaPathClose then Some(2) else None
    case 4 => if t == FileMatchClose then Some(2) else None
    case 5 =>
      if t == UpdateValidateClose then Some(1)
      else if t == ExpectOpen then Some(6)
      else None
    case 6 => if t == ExpectClose then Some(5) else None
    case 7 =>
      if t == UpdateClose then Some(1)
      else if t == CopyOpen then Some(8)
      else if t == RemoveOpen then Some(16)
      else None
    case 8 =>
      if t == DirectoryOpen then Some(9)
      else if t == CopyClose then Some(7)
      else if t == FileOpen then Some(12)
      else None
    case 9 => if t == DirectoryClose then Some(10) else None
    case 10 => if t == ToDirectoryOpen then Some(11) else None
    case 11 => if t == ToDirectoryClose then Some(8) else None
    case 12 => if t == FileClose then Some(13) else None
    case 13 => if t == ToDirectoryOpen then Some(14) else None
    case 14 => if t == ToDirectoryClose then Some(8) else None
    case 16 => if t == RemoveClose then Some(7) else None
    case _ => None
  }

  /** Assigned is exactly the list init_states executes. */
  lemma AssignedIsInitStates(s: State, t: Token)
    ensures Assigned(s, t).Some? ==> Assign(s, t, Assigned(s, t).value) in InitStates
    ensures forall x: nat :: Assign(s, t, x) in InitStates ==> Assigned(s, t) == Some(x)
  {
    AssignedListed(s, t);
    ListedAssigned(s, t);
  }

  lemma AssignedListed(s: State, t: Token)
    ensures Assigned(s, t).Some? ==> Assign(s, t, Assigned(s, t).value) in InitStates
  {
  }

  lemma ListedAssigned(s: State, t: Token)
    ensures forall x: nat :: Assign(s, t, x) in InitStates ==> Assigned(s, t) == Some(x)
  {
  }

  /** map[s][t] once the constructor has run. */
  function Next(s: State, t: Token): State {
    match Assigned(s, t)
    case Some(x) => x
    case None => Initializer(s, t)
  }

  /** Whether init_states assigns the cell (s, t). */
  ghost predicate Listed(s: State, t: Token) {
    exists x :: Assign(s, t, x) in InitStates
  }

  /** The table as a reference relation: a listed cell holds its listed
      target and every other cell, including every cell of the final state,
      holds the start state. */
  lemma NextIsTable(s: State, t: Token)
    ensures forall x :: Assign(s, t, x) in InitStates ==> Next(s, t) == x
    ensures !Listed(s, t) ==> Next(s, t) == StartState
    ensures s == FinalState ==> Next(s, t) == StartState
  {
    AssignedIsInitStates(s, t);
  }

  /** No cell of the table holds FaultState. */
  lemma NextNeverFaults(s: State, t: Token)
    ensures Next(s, t) != FaultState
  {
  }

  /** Machine::status. */
  function StatusOf(s: State): (r: Status)
    ensures r == StatusComplete <==> s == FinalState
    ensures r == StatusFault <==> s == FaultState
  {
    if s == FinalState then StatusComplete
    else if s == FaultState then StatusFault
    else StatusOk
  }

  datatype Machine = Machine(state: State)

  /** A freshly constructed machine (d_state = 0); also the effect of reset. */
  const Fresh: Machine := Machine(StartState)

  /** Machine::reset: back to the start state, whatever the current one. */
  function Reset(m: Machine): (r: Machine)
    ensures r.state == StartState && StatusOf(r.state) == StatusOk
  {
    Machine(StartState)
  }

  /** Machine::input(Transition): one table lookup; never faults. */
  function InputToken(m: Machine, t: Token): (r: (Machine, Status))
    ensures r.1 == StatusOf(r.0.state)
    ensures r.1 != StatusFault
  {
    NextNeverFaults(m.state, t);
    var n := Machine(Next(m.state, t));
    (n, StatusOf(n.state))
  }

  // ---------------------------------------------------------------------------
  // Lexemes
  // ---------------------------------------------------------------------------

  lemma TagNamesDistinct()
    ensures forall i, j :: 0 <= i < j < |TagNames| ==> TagNames[i] != TagNames[j]
  {
  }

  /** A lexeme is decoded by its second character (parity) and the text
      between the brackets (the tag name). */
  lemma LexemeParts(t: Token)
    ensures |Lexeme(t)| >= 3
    ensures Lexeme(t)[1] == '/' <==> t % 2 == 1
    ensures t % 2 == 0 ==> Lexeme(t)[1..|Lexeme(t)| - 1] == TagNames[t / 2]
    ensures t % 2 == 1 ==> Lexeme(t)[2..|Lexeme(t)| - 1] == TagNames[t / 2]
  {
    assert forall i :: 0 <= i < |TagNames| ==> |TagNames[i]| > 0 && TagNames[i][0] != '/';
  }

  /** The lexemes are pairwise distinct, so the lexeme map is injective. */
  lemma LexemeInjective(t1: Token, t2: Token)
    requires Lexeme(t1) == Lexeme(t2)
    ensures t1 == t2
  {
    LexemeParts(t1);
    LexemeParts(t2);
    TagNamesDistinct();
  }

  /** transition_string_map as a table indexed by token. */
  function Lexemes(): (ls: seq<string>)
    ensures |ls| == TransitionEnumMax
    ensures forall t: Token :: ls[t] == Lexeme(t)
  {
    seq(TransitionEnumMax, i requires 0 <= i < TransitionEnumMax => Lexeme(i))
  }

  lemma LexemesDistinct()
    ensures Distinct(Lexemes())
  {
    var ls := Lexemes();
    forall i, j | 0 <= i < j < |ls| ensures ls[i] != ls[j] {
      if ls[i] == ls[j] {
        LexemeInjective(i, j);
      }
    }
  }

  /** d_token_hash_map: built from transition_string_map by the constructor's loop. */
  function LexemeMap(): map<string, nat> {
    LexemesDistinct();
    IndexMap(Lexemes(), TransitionEnumMax)
  }

  /** The lookup at the head of Machine::input(QString, Transition*), as a
      scan of the lexeme table. */
  function TokenOf(lex: string): (r: Option<Token>)
    ensures r.Some? ==> Lexeme(r.value) == lex
    ensures r.None? ==> forall t: Token :: Lexeme(t) != lex
  {
    var ls := Lexemes();
    var r := Find(ls, lex, 0);
    if r.None? then
      assert forall t: Token :: ls[t] != lex;
      None
    else Some(r.value as Token)
  }

  /** The scan agrees with d_token_hash_map. */
  lemma TokenOfIsMapLookup(lex: string)
    ensures lex in LexemeMap() <==> TokenOf(lex).Some?
    ensures lex in LexemeMap() ==> TokenOf(lex).value == LexemeMap()[lex]
  {
    var m := LexemeMap();
    var r := TokenOf(lex);
    if lex in m {
      assert Lexeme(m[lex]) == lex;
      if r.Some? {
        LexemeInjective(r.value, m[lex]);
      }
    }
    if r.Some? {
      assert Lexemes()[r.value] == lex;
    }
  }

  /** Machine::input(QString, Transition*): an unknown lexeme faults and
      changes nothing; a known one writes its token and then behaves as
      input(Transition). */
  function InputLexeme(m: Machine, lex: string): (r: (Machine, Status, Option<Token>))
    ensures r.2 == TokenOf(lex)
    ensures r.2.None? ==> r.0 == m && r.1 == StatusFault
    ensures r.2.Some? ==> (r.0, r.1) == InputToken(m, r.2.value)
  {
    var tok := TokenOf(lex);
    if tok.None? then (m, StatusFault, None)
    else
      var step := InputToken(m, tok.value);
      (step.0, step.1, tok)
  }

  /** A known lexeme never makes input(QString) fault, and it is decoded to
      its own token. */
  lemma KnownLexemeNeverFaults(m: Machine, t: Token)
    ensures InputLexeme(m, Lexeme(t)).1 != StatusFault
    ensures InputLexeme(m, Lexeme(t)).2 == Some(t)
  {
    var r := InputLexeme(m, Lexeme(t));
    assert r.2.Some?;
    LexemeInjective(r.2.value, t);
  }

  // ---------------------------------------------------------------------------
  // Runs of the automaton
  // ---------------------------------------------------------------------------

  /** The state reached from `s` by feeding `ts` through input(Transition). */
  function Run(s: State, ts: seq<Token>): State
    decreases |ts|
  {
    if |ts| == 0 then s else Run(Next(s, ts[0]), ts[1..])
  }

  lemma {:induction false} RunAppend(s: State, ts: seq<Token>, us: seq<Token>)
    ensures Run(s, ts + us) == Run(Run(s, ts), us)
    decreases |ts|
  {
    if |ts| > 0 {
      assert (ts + us)[0] == ts[0];
      assert (ts + us)[1..] == ts[1..] + us;
      RunAppend(Next(s, ts[0]), ts[1..], us);
    } else {
      assert ts + us == us;
    }
  }

  /** FaultState is unreachable: no token sequence leads there, from any state. */
  lemma {:induction false} RunNeverFaults(s: State, ts: seq<Token>)
    requires s != FaultState
    ensures Run(s, ts) != FaultState
    decreases |ts|
  {
    if |ts| > 0 {
      NextNeverFaults(s, ts[0]);
      RunNeverFaults(Next(s, ts[0]), ts[1..]);
    }
  }

  /** Following listed cells along `path` is what Run does. */
  lemma {:induction false} RunAlong(path: seq<State>, ts: seq<Token>)
    requires |path| == |ts| + 1
    requires forall i :: 0 <= i < |ts| ==> Assign(path[i], ts[i], path[i + 1]) in InitStates
    ensures Run(path[0], ts) == path[|ts|]
    decreases |ts|
  {
    if |ts| > 0 {
      AssignedIsInitStates(path[0], ts[0]);
      assert forall i :: 0 <= i < |ts| - 1 ==> Assign(path[1..][i], ts[1..][i], path[1..][i + 1]) in InitStates by {
        forall i | 0 <= i < |ts| - 1 ensures Assign(path[1..][i], ts[1..][i], path[1..][i + 1]) in InitStates {
          assert Assign(path[i + 1], ts[i + 1], path[i + 2]) in InitStates;
        }
      }
      RunAlong(path[1..], ts[1..]);
    }
  }

  /** A token sequence driving the start state to `s`, with the states it
      passes through, for every s other than FaultState; each step is a
      transition init_states lists. */
  function Witness(s: State): (w: (seq<State>, seq<Token>))
    requires s != FaultState
    ensures |w.0| == |w.1| + 1 && w.0[0] == StartState && w.0[|w.1|] == s
    ensures forall i :: 0 <= i < |w.1| ==> Assign(w.0[i], w.1[i], w.0[i + 1]) in InitStates
  {
    match s
    case 0 => ([0], [])
    case 1 => ([0, 1], [SwupdateOpen])
    case 2 => ([0, 1, 2], [SwupdateOpen, MediaOpen])
    case 3 => ([0, 1, 2, 3], [SwupdateOpen, MediaOpen, MediaPathOpen])
    case 4 => ([0, 1, 2, 4], [SwupdateOpen, MediaOpen, FileMatchOpen])
    case 5 => ([0, 1, 5], [SwupdateOpen, UpdateValidateOpen])
    case 6 => ([0, 1, 5, 6], [SwupdateOpen, UpdateValidateOpen, ExpectOpen])
    case 7 => ([0, 1, 7], [SwupdateOpen, UpdateOpen])
    case 8 => ([0, 1, 7, 8], [SwupdateOpen, UpdateOpen, CopyOpen])
    case 9 => ([0, 1, 7, 8, 9], [SwupdateOpen, UpdateOpen, CopyOpen, DirectoryOpen])
    case 10 => ([0, 1, 7, 8, 9, 10], [SwupdateOpen, UpdateOpen, CopyOpen, DirectoryOpen, DirectoryClose])
    case 11 => ([0, 1, 7, 8, 9, 10, 11],
                [SwupdateOpen, UpdateOpen, CopyOpen, DirectoryOpen, DirectoryClose, ToDirectoryOpen])
    case 12 => ([0, 1, 7, 8, 12], [SwupdateOpen, UpdateOpen, CopyOpen, FileOpen])
    case 13 => ([0, 1, 7, 8, 12, 13], [SwupdateOpen, UpdateOpen, CopyOpen, FileOpen, FileClose])
    case 14 => ([0, 1, 7, 8, 12, 13, 14],
                [SwupdateOpen, UpdateOpen, CopyOpen, FileOpen, FileClose, ToDirectoryOpen])
    case 15 => ([0, 1, 15], [SwupdateOpen, SwupdateClose])
    case 16 => ([0, 1, 7, 16], [SwupdateOpen, UpdateOpen, RemoveOpen])
  }

  /** Exactly the states other than FaultState are reachable from the start state. */
  lemma ReachableStates(s: State)
    ensures s != FaultState <==> exists ts :: Run(StartState, ts) == s
  {
    if s != FaultState {
      var w := Witness(s);
      RunAlong(w.0, w.1);
    } else {
      forall ts ensures Run(StartState, ts) != s {
        RunNeverFaults(StartState, ts);
      }
    }
  }

  /** `<swupdate></swupdate>` is a complete document: 0 -> 1 -> 15. */
  lemma EmptySwupdateCompletes()
    ensures Run(StartState, [SwupdateOpen, SwupdateClose]) == FinalState
    ensures StatusOf(Run(StartState, [SwupdateOpen, SwupdateClose])) == StatusComplete
  {
    RunAlong([0, 1, 15], [SwupdateOpen, SwupdateClose]);
  }

  // ---------------------------------------------------------------------------
  // The copy body
  // ---------------------------------------------------------------------------

  /** The states inside a copy element, state 8 being "between pairs". */
  predicate InCopyBody(s: State) {
    8 <= s <= 14
  }

  const DirectoryPair: seq<Token> := [DirectoryOpen, DirectoryClose, ToDirectoryOpen, ToDirectoryClose]
  const FilePair: seq<Token> := [FileOpen, FileClose, ToDirectoryOpen, ToDirectoryClose]

  /** The grammar of a copy body as a regular expression, independent of the
      table: `((directory /directory | file /file) to-directory /to-directory)* /copy`. */
  ghost predicate CopyBodyWord(ts: seq<Token>)
    decreases |ts|
  {
    ts == [CopyClose] ||
    (|ts| > 4 && (ts[..4] == DirectoryPair || ts[..4] == FilePair) && CopyBodyWord(ts[4..]))
  }

  /** Every proper prefix of `ts` leaves the automaton inside the copy body. */
  ghost predicate StaysInBody(s: State, ts: seq<Token>) {
    forall k :: 0 <= k < |ts| ==> InCopyBody(Run(s, ts[..k]))
  }

  /** The tokens that lead back to state 8 from the middle of a pair. */
  function PairRest(s: State): (r: seq<Token>)
    requires 9 <= s <= 14
    ensures 1 <= |r| <= 3
  {
    match s
    case 9 => [DirectoryClose, ToDirectoryOpen, ToDirectoryClose]
    case 12 => [FileClose, ToDirectoryOpen, ToDirectoryClose]
    case 10 | 13 => [ToDirectoryOpen, ToDirectoryClose]
    case 11 | 14 => [ToDirectoryClose]
  }

  /** Dropping the first token of a body run: the rest runs from the next
      state and still stays in the body. */
  lemma StaysInBodyTail(s: State, ts: seq<Token>)
    requires |ts| > 0 && StaysInBody(s, ts)
    ensures StaysInBody(Next(s, ts[0]), ts[1..])
    ensures Run(s, ts) == Run(Next(s, ts[0]), ts[1..])
  {
    forall k | 0 <= k < |ts[1..]| ensures InCopyBody(Run(Next(s, ts[0]), ts[1..][..k])) {
      assert ts[..k + 1][0] == ts[0];
      assert ts[..k + 1][1..] == ts[1..][..k];
      assert InCopyBody(Run(s, ts[..k + 1]));
    }
  }

  /** Inside the copy body the table leaves no choice: a run that stays in
      the body and leaves it for state 7 spells a copy-body word (from state 8)
      or the rest of the current pair followed by one (from inside a pair). */
  lemma {:induction false} CopyBodyForced(s: State, ts: seq<Token>)
    requires InCopyBody(s) && StaysInBody(s, ts) && Run(s, ts) == 7
    ensures s == 8 ==> CopyBodyWord(ts)
    ensures s != 8 ==> |ts| > |PairRest(s)| && ts[..|PairRest(s)|] == PairRest(s) &&
                       CopyBodyWord(ts[|PairRest(s)|..])
    decreases |ts|
  {
    if |ts| == 0 {
      assert false;
    }
    var s1 := Next(s, ts[0]);
    StaysInBodyTail(s, ts);
    if |ts| == 1 {
      assert Run(s1, ts[1..]) == s1;
      assert s == 8 && ts[0] == CopyClose;
      assert ts == [CopyClose];
    } else {
      assert ts[..1] == [ts[0]];
      assert Run(s, ts[..1]) == s1;
      assert InCopyBody(s1);
      CopyBodyForced(s1, ts[1..]);
      if s == 8 {
        assert s1 == 9 || s1 == 12;
        assert ts[..4] == [ts[0]] + ts[1..][..3];
        assert ts[4..] == ts[1..][3..];
      } else if s1 == 8 {
        assert ts[..1] == PairRest(s);
        assert ts[1..] == ts[|PairRest(s)|..];
      } else {
        assert PairRest(s) == [ts[0]] + PairRest(s1);
        assert ts[..|PairRest(s)|] == [ts[0]] + ts[1..][..|PairRest(s1)|];
        assert ts[|PairRest(s)|..] == ts[1..][|PairRest(s1)|..];
      }
    }
  }

  /** A pair from state 8 leads back to state 8 through the body. */
  lemma PairReturns(pair: seq<Token>)
    requires pair == DirectoryPair || pair == FilePair
    ensures Run(8, pair) == 8
    ensures forall k :: 0 <= k < 4 ==> InCopyBody(Run(8, pair[..k]))
  {
    var path: seq<State> := if pair == DirectoryPair then [8, 9, 10, 11, 8] else [8, 12, 13, 14, 8];
    RunAlong(path, pair);
    forall k | 0 <= k < 4 ensures InCopyBody(Run(8, pair[..k])) {
      RunAlong(path[..k + 1], pair[..k]);
    }
  }

  /** And every copy-body word is accepted that way: it stays in the body and
      ends in state 7 (the update section). Zero pairs are allowed. */
  lemma {:induction false} CopyBodyAccepted(ts: seq<Token>)
    requires CopyBodyWord(ts)
    ensures StaysInBody(8, ts) && Run(8, ts) == 7
    decreases |ts|
  {
    if ts == [CopyClose] {
      RunAlong([8, 7], ts);
      assert ts[..0] == [];
    } else {
      var pair, rest := ts[..4], ts[4..];
      assert ts == pair + rest;
      PairReturns(pair);
      CopyBodyAccepted(rest);
      RunAppend(8, pair, rest);
      forall k | 0 <= k < |ts| ensures InCopyBody(Run(8, ts[..k])) {
        if k < 4 {
          assert ts[..k] == pair[..k];
        } else {
          assert ts[..k] == pair + rest[..k - 4];
          RunAppend(8, pair, rest[..k - 4]);
        }
      }
    }
  }

  /** `<copy></copy>` with no pair is accepted. */
  lemma EmptyCopyAccepted()
    ensures Run(8, [CopyClose]) == 7
  {
    CopyBodyAccepted([CopyClose]);
  }
}
