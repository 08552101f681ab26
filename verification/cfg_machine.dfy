/** The configuration grammar automaton (cfgstatemachine.cpp): a fixed
    transition table over open/close tokens plus a lexeme-to-token map.

    The table is modelled as the code builds it. The static initializer
    `{{FaultState}}` gives FaultState to cell [0][0] only and zero to every
    other cell; init_states then overwrites [0][0]. So every pair that
    init_states does not list leads to state 0 (the start state), and
    FaultState can never be entered. */
module ConfigMachine {
  import opened Common

  const TokenEnumMax: nat := 22
  const NMachineStates: nat := 18

  /** Token: open tokens are even, and each close token is its open token + 1. */
  type Token = t: nat | t < TokenEnumMax
  type State = s: nat | s < NMachineStates

  const ConfigurationOpen: Token := 0
  const ConfigurationClose: Token := 1
  const ResourceUriOpen: Token := 2
  const ResourceUriClose: Token := 3
  const ValidateOpen: Token := 4
  const ValidateClose: Token := 5
  const FileOpen: Token := 6
  const FileClose: Token := 7
  const DirectoryOpen: Token := 8
  const DirectoryClose: Token := 9
  const BackupOpen: Token := 10
  const BackupClose: Token := 11
  const OperationOpen: Token := 12
  const OperationClose: Token := 13
  const CopyOpen: Token := 14
  const CopyClose: Token := 15
  const FromOpen: Token := 16
  const FromClose: Token := 17
  const ToOpen: Token := 18
  const ToClose: Token := 19
  const RemoveOpen: Token := 20
  const RemoveClose: Token := 21

  const StartState: State := 0
  const FinalState: State := 16
  const FaultState: State := 17

  datatype Status = StatusReady | StatusFault | StatusComplete

  /** Tag names, one per open/close pair, in token order. */
  const TagNames: seq<string> := ["configuration", "resource-uri", "validate", "file", "directory",
                                  "backup", "operations", "copy", "from", "to", "remove"]

  /** g_token_lexeme_map: `<name>` for an open token, `</name>` for a close one. */
  function Lexeme(t: Token): string {
    if t % 2 == 0 then "<" + TagNames[t / 2] + ">" else "</" + TagNames[t / 2] + ">"
  }

  /** The assignments of init_states, in the order they execute. */
  const InitStates: seq<Assignment> := [
    Assign(0, ConfigurationOpen, 1),
    Assign(1, ResourceUriOpen, 2),
    Assign(1, ValidateOpen, 3),
    Assign(1, BackupOpen, 6),
    Assign(1, OperationOpen, 9),
    Assign(1, ConfigurationClose, FinalState),
    Assign(2, ResourceUriClose, 1),
    Assign(3, ValidateClose, 1),
    Assign(3, FileOpen, 4),
    Assign(3, DirectoryOpen, 5),
    Assign(4, FileClose, 3),
    Assign(5, DirectoryClose, 3),
    Assign(6, FileOpen, 7),
    Assign(6, DirectoryOpen, 8),
    Assign(6, BackupClose, 1),
    Assign(7, FileClose, 6),
    Assign(8, DirectoryClose, 6),
    Assign(9, CopyOpen, 10),
    Assign(9, RemoveOpen, 15),
    Assign(9, OperationClose, 1),
    Assign(10, FromOpen, 11),
    Assign(11, FromClose, 12),
    Assign(12, ToOpen, 13),
    Assign(13, ToClose, 14),
    Assign(14, CopyClose, 9),
    Assign(15, RemoveClose, 9)
  ]

  /** The static initializer `{{FaultState}}`: only the very first cell gets FaultState. */
  function Initializer(s: State, t: Token): State {
    if s == 0 && t == 0 then FaultState else 0
  }

  /** The cell (s, t) as init_states writes it, or None when init_states leaves
      it alone. Each cell is written at most once, so the order of the
      assignments does not matter. */
  function Assigned(s: State, t: Token): Option<State> {
    match s
    case 0 => if t == ConfigurationOpen then Some(1) else None
    case 1 =>
      if t == ResourceUriOpen then Some(2)
      else if t == ValidateOpen then Some(3)
      else if t == BackupOpen then Some(6)
      else if t == OperationOpen then Some(9)
      else if t == ConfigurationClose then Some(FinalState)
      else None
    case 2 => if t == ResourceUriClose then Some(1) else None
    case 3 =>
      if t == ValidateClose then Some(1)
      else if t == FileOpen then Some(4)
      else if t == DirectoryOpen then Some(5)
      else None
    case 4 => if t == FileClose then Some(3) else None
    case 5 => if t == DirectoryClose then Some(3) else None
    case 6 =>
      if t == FileOpen then Some(7)
      else if t == DirectoryOpen then Some(8)
      else if t == BackupClose then Some(1)
      else None
    case 7 => if t == FileClose then Some(6) else None
    case 8 => if t == DirectoryClose then Some(6) else None
    case 9 =>
      if t == CopyOpen then Some(10)
      else if t == RemoveOpen then Some(15)
      else if t == OperationClose then Some(1)
      else None
    case 10 => if t == FromOpen then Some(11) else None
    case 11 => if t == FromClose then Some(12) else None
    case 12 => if t == ToOpen then Some(13) else None
    case 13 => if t == ToClose then Some(14) else None
    case 14 => if t == CopyClose then Some(9) else None
    case 15 => if t == RemoveClose then Some(9) else None
    case _ => None
  }

  /** Assigned is exactly the list init_states executes. */
  lemma AssignedIsInitStates(s: State, t: Token)
    ensures Assigned(s, t).Some? ==> Assign(s, t, Assigned(s, t).value) in InitStates
    ensures forall x: nat :: Assign(s, t, x) in InitStates ==> Assigned(s, t) == Some(x)
  {
    AssignedListed(s, t);
    ListedAssigned(s, t);
  }

  lemma AssignedListed(s: State, t: Token)
    ensures Assigned(s, t).Some? ==> Assign(s, t, Assigned(s, t).value) in InitStates
  {
  }

  lemma ListedAssigned(s: State, t: Token)
    ensures forall x: nat :: Assign(s, t, x) in InitStates ==> Assigned(s, t) == Some(x)
  {
  }

  /** g_map[s][t] once the constructor has run: the init_states assignment when
      there is one, otherwise what the static initializer left. */
  function Next(s: State, t: Token): State {
    match Assigned(s, t)
    case Some(x) => x
    case None => Initializer(s, t)
  }

  /** Whether init_states assigns the cell (s, t). */
  ghost predicate Listed(s: State, t: Token) {
    exists x :: Assign(s, t, x) in InitStates
  }

  /** The table as a reference relation: a listed cell holds its listed
      target and every other cell holds the start state. */
  lemma NextIsTable(s: State, t: Token)
    ensures forall x :: Assign(s, t, x) in InitStates ==> Next(s, t) == x
    ensures !Listed(s, t) ==> Next(s, t) == StartState
  {
    AssignedIsInitStates(s, t);
  }

  /** No cell of the table holds FaultState. */
  lemma NextNeverFaults(s: State, t: Token)
    ensures Next(s, t) != FaultState
  {
  }

  /** Machine::status. */
  function StatusOf(s: State): (r: Status)
    ensures r == StatusComplete <==> s == FinalState
    ensures r == StatusFault <==> s == FaultState
  {
    if s == FinalState then StatusComplete
    else if s == FaultState then StatusFault
    else StatusReady
  }

  datatype Machine = Machine(state: State)

  /** A freshly constructed machine (d_state = 0); also the effect of reset. */
  const Fresh: Machine := Machine(StartState)

  /** Machine::reset: back to the start state, whatever the current one. */
  function Reset(m: Machine): (r: Machine)
    ensures r.state == StartState && StatusOf(r.state) == StatusReady
  {
    Machine(StartState)
  }

  /** Machine::input(Token): one table lookup; never faults (the table holds no FaultState). */
  function InputToken(m: Machine, t: Token): (r: (Machine, Status))
    ensures r.1 == StatusOf(r.0.state)
    ensures r.1 != StatusFault
  {
    NextNeverFaults(m.state, t);
    var n := Machine(Next(m.state, t));
    (n, StatusOf(n.state))
  }

  /** input(Token) moves the machine off the start state exactly along a
      listed cell: no listed cell leads back to state 0. */
  lemma InputTokenListed(m: Machine, t: Token)
    ensures Listed(m.state, t) <==> InputToken(m, t).0.state != StartState
  {
    NextIsTable(m.state, t);
  }

  // ---------------------------------------------------------------------------
  // Lexemes
  // ---------------------------------------------------------------------------

  lemma TagNamesDistinct()
    ensures forall i, j :: 0 <= i < j < |TagNames| ==> TagNames[i] != TagNames[j]
  {
  }

  /** A lexeme is decoded by its second character (parity) and the text
      between the brackets (the tag name). */
  lemma LexemeParts(t: Token)
    ensures |Lexeme(t)| >= 3
    ensures Lexeme(t)[1] == '/' <==> t % 2 == 1
    ensures t % 2 == 0 ==> Lexeme(t)[1..|Lexeme(t)| - 1] == TagNames[t / 2]
    ensures t % 2 == 1 ==> Lexeme(t)[2..|Lexeme(t)| - 1] == TagNames[t / 2]
  {
    assert forall i :: 0 <= i < |TagNames| ==> |TagNames[i]| > 0 && TagNames[i][0] != '/';
  }

  /** The lexemes are pairwise distinct, so the lexeme map is injective. */
  lemma LexemeInjective(t1: Token, t2: Token)
    requires Lexeme(t1) == Lexeme(t2)
    ensures t1 == t2
  {
    LexemeParts(t1);
    LexemeParts(t2);
    TagNamesDistinct();
  }

  /** g_token_lexeme_map as a table indexed by token. */
  function Lexemes(): (ls: seq<string>)
    ensures |ls| == TokenEnumMax
    ensures forall t: Token :: ls[t] == Lexeme(t)
  {
    seq(TokenEnumMax, i requires 0 <= i < TokenEnumMax => Lexeme(i))
  }

  /** No lexeme is listed twice. */
  lemma LexemesDistinct()
    ensures Distinct(Lexemes())
  {
    var ls := Lexemes();
    forall i, j | 0 <= i < j < |ls| ensures ls[i] != ls[j] {
      if ls[i] == ls[j] {
        LexemeInjective(i, j);
      }
    }
  }

  /** d_token_hash_map: built from g_token_lexeme_map by the constructor's loop. */
  function LexemeMap(): map<string, nat> {
    LexemesDistinct();
    IndexMap(Lexemes(), TokenEnumMax)
  }

  /** The lookup at the head of Machine::input(QString, Token*), as a scan
      of the lexeme table; TokenOfIsMapLookup shows it finds what the hash map
      finds. */
  function TokenOf(lex: string): (r: Option<Token>)
    ensures r.Some? ==> Lexeme(r.value) == lex
    ensures r.None? ==> forall t: Token :: Lexeme(t) != lex
  {
    var ls := Lexemes();
    var r := Find(ls, lex, 0);
    if r.None? then
      assert forall t: Token :: ls[t] != lex;
      None
    else Some(r.value as Token)
  }

  /** The scan agrees with d_token_hash_map, the map the constructor builds. */
  lemma TokenOfIsMapLookup(lex: string)
    ensures lex in LexemeMap() <==> TokenOf(lex).Some?
    ensures lex in LexemeMap() ==> TokenOf(lex).value == LexemeMap()[lex]
  {
    var m := LexemeMap();
    var r := TokenOf(lex);
    if lex in m {
      assert Lexeme(m[lex]) == lex;
      if r.Some? {
        LexemeInjective(r.value, m[lex]);
      }
    }
    if r.Some? {
      assert Lexemes()[r.value] == lex;
    }
  }

  /** Machine::input(QString, Token*): an unknown lexeme faults and changes
      nothing (the token out-parameter stays unwritten, None here); a known one
      writes its token and then behaves as input(Token). */
  function InputLexeme(m: Machine, lex: string): (r: (Machine, Status, Option<Token>))
    ensures r.2 == TokenOf(lex)
    ensures r.2.None? ==> r.0 == m && r.1 == StatusFault
    ensures r.2.Some? ==> (r.0, r.1) == InputToken(m, r.2.value)
  {
    var tok := TokenOf(lex);
    if tok.None? then (m, StatusFault, None)
    else
      var step := InputToken(m, tok.value);
      (step.0, step.1, tok)
  }

  /** A known lexeme never makes input(QString) fault. */
  lemma KnownLexemeNeverFaults(m: Machine, t: Token)
    ensures InputLexeme(m, Lexeme(t)).1 != StatusFault
    ensures InputLexeme(m, Lexeme(t)).2 == Some(t)
  {
    var r := InputLexeme(m, Lexeme(t));
    assert r.2.Some?;
    LexemeInjective(r.2.value, t);
  }

  // ---------------------------------------------------------------------------
  // Runs of the automaton
  // ---------------------------------------------------------------------------

  /** The state reached from `s` by feeding `ts` through input(Token). */
  function Run(s: State, ts: seq<Token>): State
    decreases |ts|
  {
    if |ts| == 0 then s else Run(Next(s, ts[0]), ts[1..])
  }

  lemma {:induction false} RunAppend(s: State, ts: seq<Token>, us: seq<Token>)
    ensures Run(s, ts + us) == Run(Run(s, ts), us)
    decreases |ts|
  {
    if |ts| > 0 {
      var s1 := Next(s, ts[0]);
      assert (ts + us)[0] == ts[0];
      assert (ts + us)[1..] == ts[1..] + us;
      RunAppend(s1, ts[1..], us);
    } else {
      assert ts + us == us;
    }
  }

  /** FaultState is unreachable: no token sequence leads there, from any state. */
  lemma {:induction false} RunNeverFaults(s: State, ts: seq<Token>)
    requires s != FaultState
    ensures Run(s, ts) != FaultState
    decreases |ts|
  {
    if |ts| > 0 {
      NextNeverFaults(s, ts[0]);
      RunNeverFaults(Next(s, ts[0]), ts[1..]);
    }
  }

  /** A token sequence driving the start state to `s`, for every s below FaultState. */
  function Witness(s: State): seq<Token>
    requires s != FaultState
  {
    var toOps := [ConfigurationOpen, OperationOpen];
    var toCopy := toOps + [CopyOpen];
    match s
    case 0 => []
    case 1 => [ConfigurationOpen]
    case 2 => [ConfigurationOpen, ResourceUriOpen]
    case 3 => [ConfigurationOpen, ValidateOpen]
    case 4 => [ConfigurationOpen, ValidateOpen, FileOpen]
    case 5 => [ConfigurationOpen, ValidateOpen, DirectoryOpen]
    case 6 => [ConfigurationOpen, BackupOpen]
    case 7 => [ConfigurationOpen, BackupOpen, FileOpen]
    case 8 => [ConfigurationOpen, BackupOpen, DirectoryOpen]
    case 9 => toOps
    case 10 => toCopy
    case 11 => toCopy + [FromOpen]
    case 12 => toCopy + [FromOpen, FromClose]
    case 13 => toCopy + [FromOpen, FromClose, ToOpen]
    case 14 => toCopy + [FromOpen, FromClose, ToOpen, ToClose]
    case 15 => toOps + [RemoveOpen]
    case 16 => [ConfigurationOpen, ConfigurationClose]
  }

  lemma StepTo(s: State, t: Token, target: State)
    requires Assign(s, t, target) in InitStates
    ensures Next(s, t) == target
  {
    AssignedIsInitStates(s, t);
  }

  /** Following listed cells along `path` is what Run does. */
  lemma {:induction false} RunAlong(path: seq<State>, ts: seq<Token>)
    requires |path| == |ts| + 1
    requires forall i :: 0 <= i < |ts| ==> Assign(path[i], ts[i], path[i + 1]) in InitStates
    ensures Run(path[0], ts) == path[|ts|]
    decreases |ts|
  {
    if |ts| > 0 {
      StepTo(path[0], ts[0], path[1]);
      assert forall i :: 0 <= i < |ts| - 1 ==> Assign(path[1..][i], ts[1..][i], path[1..][i + 1]) in InitStates by {
        forall i | 0 <= i < |ts| - 1 ensures Assign(path[1..][i], ts[1..][i], path[1..][i + 1]) in InitStates {
          assert Assign(path[i + 1], ts[i + 1], path[i + 2]) in InitStates;
        }
      }
      RunAlong(path[1..], ts[1..]);
    }
  }

  /** The witness of `s` does reach `s`. */
  lemma WitnessReaches(s: State)
    requires s != FaultState
    ensures Run(StartState, Witness(s)) == s
  {
    var path: seq<State> := match s
      case 0 => [0]
      case 1 => [0, 1]
      case 2 => [0, 1, 2]
      case 3 => [0, 1, 3]
      case 4 => [0, 1, 3, 4]
      case 5 => [0, 1, 3, 5]
      case 6 => [0, 1, 6]
      case 7 => [0, 1, 6, 7]
      case 8 => [0, 1, 6, 8]
      case 9 => [0, 1, 9]
      case 10 => [0, 1, 9, 10]
      case 11 => [0, 1, 9, 10, 11]
      case 12 => [0, 1, 9, 10, 11, 12]
      case 13 => [0, 1, 9, 10, 11, 12, 13]
      case 14 => [0, 1, 9, 10, 11, 12, 13, 14]
      case 15 => [0, 1, 9, 15]
      case 16 => [0, 1, 16];
    RunAlong(path, Witness(s));
  }

  /** Exactly the states below FaultState are reachable from the start state. */
  lemma ReachableStates(s: State)
    ensures s != FaultState <==> exists ts :: Run(StartState, ts) == s
  {
    if s != FaultState {
      WitnessReaches(s);
    } else {
      forall ts ensures Run(StartState, ts) != s {
        RunNeverFaults(StartState, ts);
      }
    }
  }

  /** `<configuration></configuration>` is a complete document: 0 -> 1 -> 16. */
  lemma EmptyConfigurationCompletes()
    ensures Run(StartState, [ConfigurationOpen, ConfigurationClose]) == FinalState
    ensures StatusOf(Run(StartState, [ConfigurationOpen, ConfigurationClose])) == StatusComplete
  {
    RunAlong([0, 1, 16], [ConfigurationOpen, ConfigurationClose]);
  }

  // ---------------------------------------------------------------------------
  // Nesting depth
  // ---------------------------------------------------------------------------

  /** How many elements are open in each state of the grammar. */
  function Depth(s: State): nat {
    match s
    case 0 => 0
    case 1 => 1
    case 2 | 3 | 6 | 9 => 2
    case 4 | 5 | 7 | 8 | 10 | 12 | 14 | 15 => 3
    case 11 | 13 => 4
    case 16 => 0
    case _ => 0
  }

  /** Every listed open transition enters one level deeper and every listed
      close transition leaves one level, so along listed transitions the depth
      of the state is the number of open elements. */
  lemma ListedDepth(s: State, t: Token)
    requires Assigned(s, t).Some?
    ensures t % 2 == 0 ==> Depth(Next(s, t)) == Depth(s) + 1
    ensures t % 2 == 1 ==> Depth(Next(s, t)) + 1 == Depth(s)
  {
  }

  /** For the nested elements (all but configuration, copy and its from/to
      children), the matching close tag of a listed open transition leads
      straight back to the enclosing state. */
  lemma CloseReturnsToEnclosing(s: State, t: Token, s': State)
    requires Assigned(s, t) == Some(s') && t % 2 == 0
    requires t != ConfigurationOpen && t != CopyOpen && t != FromOpen && t != ToOpen
    ensures Next(s', t + 1) == s
  {
  }

  // ---------------------------------------------------------------------------
  // The copy body
  // ---------------------------------------------------------------------------

  predicate InCopyBody(s: State) {
    10 <= s <= 14
  }

  /** The tokens that finish a copy element from a state of its body. */
  function CopyRest(s: State): seq<Token>
    requires InCopyBody(s)
  {
    [FromOpen, FromClose, ToOpen, ToClose, CopyClose][s - 10..]
  }

  /** One step inside the copy body: the only token that stays in the body or
      reaches state 9 is the next one of CopyRest. */
  lemma CopyStep(s: State, t: Token)
    requires InCopyBody(s)
    requires InCopyBody(Next(s, t)) || Next(s, t) == 9
    ensures t == CopyRest(s)[0]
    ensures Next(s, t) == if s == 14 then 9 else s + 1
    ensures CopyRest(s)[1..] == if s == 14 then [] else CopyRest(s + 1)
  {
  }

  /** Within a copy element there is exactly one way back to state 9: from
      `s`, a run that stays inside the copy body and ends in 9 feeds exactly
      the rest of from, /from, to, /to, /copy. */
  lemma {:induction false} CopyBodyForced(s: State, ts: seq<Token>)
    requires InCopyBody(s)
    requires forall k :: 0 <= k < |ts| ==> InCopyBody(Run(s, ts[..k]))
    requires Run(s, ts) == 9
    ensures ts == CopyRest(s)
    decreases |ts|
  {
    if |ts| == 0 {
      assert false;
    } else {
      var s1 := Next(s, ts[0]);
      assert Run(s, ts) == Run(s1, ts[1..]);
      if |ts| == 1 {
        assert Run(s1, ts[1..]) == s1;
        CopyStep(s, ts[0]);
        assert ts == [ts[0]];
      } else {
        assert ts[..1] == [ts[0]];
        assert Run(s, ts[..1]) == Run(s1, []);
        forall k | 0 <= k < |ts[1..]| ensures InCopyBody(Run(s1, ts[1..][..k])) {
          assert ts[..k + 1] == [ts[0]] + ts[1..][..k];
          RunAppend(s, [ts[0]], ts[1..][..k]);
          assert Run(s, [ts[0]]) == Run(s1, []);
          assert InCopyBody(Run(s, ts[..k + 1]));
        }
        assert InCopyBody(Run(s1, ts[1..][..0]));
        CopyStep(s, ts[0]);
        CopyBodyForced(s1, ts[1..]);
        assert ts == [ts[0]] + ts[1..];
      }
    }
  }

  /** And that way does lead back to state 9. */
  lemma CopyBodyAccepted()
    ensures Run(10, CopyRest(10)) == 9
  {
    RunAlong([10, 11, 12, 13, 14, 9], CopyRest(10));
  }
}
