/** The configuration parser (cfgparser.cpp): a recursive-descent pass over
    the typed elements in document order that fills the update description
    (platform, product, resource URIs, backup path and the validate, backup
    and update operation lists) and keeps a stack of the tokens it is inside,
    which fault() prints when the parse fails. The element queue is consumed
    from the front as by next(). */
module ConfigParser {
  import opened Common
  import opened Attributes
  import opened ConfigMachine
  import opened ConfigElements
  import opened Resources
  import opened FsOperations
  import opened Paths

  /** ParseStatus. */
  datatype ParseStatus = ParseOk | InvalidElement | InvalidAttributeKey | InvalidAttributeValue

  /** The parser's results: d_platform, d_product, d_resource_uris,
      d_backup_path and the three operation vectors. None is a null QString. */
  datatype Output = Output(
    platform: Option<string>,
    product: Option<string>,
    uris: seq<string>,
    backupPath: Option<string>,
    validateOps: seq<FsOperation>,
    backupOps: seq<FsOperation>,
    updateOps: seq<FsOperation>)

  /** The parser state: d_parse_stack and the results. */
  datatype Parser = Parser(stack: seq<Token>, out: Output)

  type Queue = seq<ConfigElement>

  /** QDir(directory).filePath(name); None is a null directory. */
  type Join = (Option<string>, string) -> string

  /** What an accept routine leaves behind: its status, the parser and the
      rest of the queue; Undefined when it reads the front of an empty queue. */
  datatype Step = Step(status: ParseStatus, p: Parser, q: Queue) | Undefined {
    predicate Ok() {
      Step? && status == ParseOk
    }
  }

  const EmptyOutput: Output := Output(None, None, [], None, [], [], [])
  const EmptyParser: Parser := Parser([], EmptyOutput)

  // ---------------------------------------------------------------------------
  // State updates, one field at a time
  // ---------------------------------------------------------------------------

  function Push(p: Parser, t: Token): (r: Parser)
    ensures r.stack == p.stack + [t] && r.out == p.out
  {
    Parser(p.stack + [t], p.out)
  }

  /** pop_back on a non-empty stack. */
  function Pop(p: Parser): (r: Parser)
    requires |p.stack| > 0
    ensures r.stack == p.stack[..|p.stack| - 1] && r.out == p.out
  {
    Parser(p.stack[..|p.stack| - 1], p.out)
  }

  function AddUri(o: Output, uri: string): Output {
    Output(o.platform, o.product, o.uris + [uri], o.backupPath, o.validateOps, o.backupOps, o.updateOps)
  }

  function AddValidate(o: Output, ops: seq<FsOperation>): Output {
    Output(o.platform, o.product, o.uris, o.backupPath, o.validateOps + ops, o.backupOps, o.updateOps)
  }

  function AddBackup(o: Output, ops: seq<FsOperation>): Output {
    Output(o.platform, o.product, o.uris, o.backupPath, o.validateOps, o.backupOps + ops, o.updateOps)
  }

  function AddUpdate(o: Output, op: FsOperation): Output {
    Output(o.platform, o.product, o.uris, o.backupPath, o.validateOps, o.backupOps, o.updateOps + [op])
  }

  function SetBackupPath(o: Output, path: string): Output {
    Output(o.platform, o.product, o.uris, Some(path), o.validateOps, o.backupOps, o.updateOps)
  }

  /** The header attributes hasAttributeKeys wrote: platform first, then product. */
  function SetHeader(o: Output, lexemes: seq<string>): Output {
    Output(if |lexemes| >= 1 then Some(lexemes[0]) else o.platform,
           if |lexemes| >= 2 then Some(lexemes[1]) else o.product,
           o.uris, o.backupPath, o.validateOps, o.backupOps, o.updateOps)
  }

  /** Only the update list differs, and it only grew at the end. */
  ghost predicate UpdatesExtend(a: Output, b: Output) {
    && b.platform == a.platform && b.product == a.product && b.uris == a.uris
    && b.backupPath == a.backupPath && b.validateOps == a.validateOps && b.backupOps == a.backupOps
    && |a.updateOps| <= |b.updateOps| && b.updateOps[..|a.updateOps|] == a.updateOps
  }

  lemma UpdatesExtendTrans(a: Output, b: Output, c: Output)
    requires UpdatesExtend(a, b) && UpdatesExtend(b, c)
    ensures UpdatesExtend(a, c)
  {
    assert c.updateOps[..|a.updateOps|] == c.updateOps[..|b.updateOps|][..|a.updateOps|];
  }

  /** The stack `b` is `a` with zero or more tokens pushed on top. */
  ghost predicate StackExtends(a: seq<Token>, b: seq<Token>) {
    |a| <= |b| && b[..|a|] == a
  }

  /** `r` is what is left of `q` after dropping some elements from the front. */
  ghost predicate SuffixOf(r: Queue, q: Queue) {
    |r| <= |q| && r == q[|q| - |r|..]
  }

  lemma SuffixTrans(a: Queue, b: Queue, c: Queue)
    requires SuffixOf(a, b) && SuffixOf(b, c)
    ensures SuffixOf(a, c)
  {
    assert c[|c| - |b|..][|b| - |a|..] == c[|c| - |a|..];
  }

  // ---------------------------------------------------------------------------
  // Attribute helpers
  // ---------------------------------------------------------------------------

  /** hasAttributeKeys, from key i on: the raw values written for the keys
      before the first unset one. The call succeeds when all were written. */
  function MatchedKeys(c: ConfigElement, keys: seq<AttributeKey>, i: nat): (ls: seq<string>)
    requires i <= |keys|
    requires forall k :: 0 <= k < |keys| ==> keys[k] != KeyEnumMax
    ensures |ls| <= |keys| - i
    ensures forall k :: i <= k < i + |ls| ==> keys[k] in c.slots && ls[k - i] == c.slots[keys[k]].lexeme
    ensures |ls| < |keys| - i ==> keys[i + |ls|] !in c.slots
    decreases |keys| - i
  {
    if i == |keys| then []
    else
      var slot := AttributeIndex(c, keys[i]);
      if slot.None? then [] else [slot.value.lexeme] + MatchedKeys(c, keys, i + 1)
  }

  /** attributeValueInSet: the position of the raw value's typed value in
      `values`, or -1. */
  function AttributeValueInSet(raw: string, values: seq<AttributeValue>): (i: int)
    ensures -1 <= i < |values|
    ensures i == -1 <==> Value(raw) !in values
    ensures i >= 0 ==> values[i] == Value(raw) && forall k :: 0 <= k < i ==> values[k] != Value(raw)
  {
    var v := Value(raw);
    if |values| == 0 then -1
    else if values[0] == v then 0
    else
      var j := AttributeValueInSet(raw, values[1..]);
      if j == -1 then -1 else j + 1
  }

  /** valid_attribute_index and valid_root_index of acceptCopy, by position. */
  const RootValues: seq<AttributeValue> := [ValueRemote, ValueTarget]
  const RootKeys: seq<RootKey> := [RootKeyRemote, RootKeyRoot]

  /** Reference reading of a root attribute: "Remote" names the remote root,
      "Target" the target root; anything else, or no attribute, names none. */
  function RootOf(c: ConfigElement): (r: Option<RootKey>)
    ensures r.Some? ==> KeyRoot in c.slots
  {
    if KeyRoot !in c.slots then None
    else
      var raw := c.slots[KeyRoot].lexeme;
      if raw == "Remote" then Some(RootKeyRemote)
      else if raw == "Target" then Some(RootKeyRoot)
      else None
  }

  /** The root lookup of acceptCopy (the parallel tables). */
  function CopyRoot(raw: string): (r: Option<RootKey>) {
    var i := AttributeValueInSet(raw, RootValues);
    if i == -1 then None else Some(RootKeys[i])
  }

  /** The root lookup of acceptRemove (two ifs over a sentinel). */
  function RemoveRoot(raw: string): (r: Option<RootKey>) {
    var v := Value(raw);
    var root := if v == ValueRemote then Some(RootKeyRemote) else None;
    if v == ValueTarget then Some(RootKeyRoot) else root
  }

  /** The two routines decode a root attribute the same way, and that way is
      RootOf. */
  lemma RootLookupsAgree(c: ConfigElement)
    requires KeyRoot in c.slots
    ensures CopyRoot(c.slots[KeyRoot].lexeme) == RootOf(c)
    ensures RemoveRoot(c.slots[KeyRoot].lexeme) == RootOf(c)
  {
  }

  // ---------------------------------------------------------------------------
  // Leaf routines
  // ---------------------------------------------------------------------------

  /** acceptResourceURI: the front element's text is appended to the URIs. */
  function AcceptResourceUri(p: Parser, q: Queue): (r: Step)
    requires |q| > 0
    ensures r.Ok() && r.q == q[1..] && r.p.stack == p.stack
    ensures r.p.out.uris == p.out.uris + [q[0].value]
  {
    Step(ParseOk, Parser(p.stack, AddUri(p.out, q[0].value)), q[1..])
  }

  /** acceptRemove: the front element needs a root attribute naming a known
      root; it becomes a RemoveOperation on a file under that root. */
  function AcceptRemove(p: Parser, q: Queue): (r: Step)
    requires |q| > 0
    ensures r.Step? && r.q == q[1..] && r.p.stack == p.stack && UpdatesExtend(p.out, r.p.out)
  {
    var remove := q[0];
    var lexemes := MatchedKeys(remove, [KeyRoot], 0);
    if |lexemes| < 1 then Step(InvalidAttributeKey, p, q[1..])
    else
      var root := RemoveRoot(lexemes[0]);
      if root.None? then Step(InvalidAttributeValue, p, q[1..])
      else Step(ParseOk, Parser(p.stack, AddUpdate(p.out, RemoveOp(Resource(remove.value, FileType, root.value)))), q[1..])
  }

  /** acceptRemove consumes exactly its element, fails exactly when the root is
      missing (key) or unknown (value), and otherwise adds one operation. */
  lemma AcceptRemoveSpec(p: Parser, q: Queue)
    requires |q| > 0
    ensures var r := AcceptRemove(p, q);
            && r.Step? && r.q == q[1..]
            && (r.status == InvalidAttributeKey <==> KeyRoot !in q[0].slots)
            && (r.status == InvalidAttributeValue <==> KeyRoot in q[0].slots && RootOf(q[0]).None?)
            && (r.status == ParseOk <==> RootOf(q[0]).Some?)
            && (r.status != ParseOk ==> r.p == p)
            && (r.status == ParseOk ==>
                  r.p == Parser(p.stack, AddUpdate(p.out, RemoveOp(Resource(q[0].value, FileType, RootOf(q[0]).value)))))
  {
    if KeyRoot in q[0].slots {
      RootLookupsAgree(q[0]);
    }
  }

  /** A <from> or <to> element is well formed when its root attribute names a
      known root. */
  predicate Endpoint(c: ConfigElement, t: Token) {
    c.token == t && RootOf(c).Some?
  }

  /** acceptCopy, entered with the <copy> element at the front (its token
      already pushed by the caller). It needs a <from> and then a <to>
      element; reading either from an empty queue is undefined. */
  function AcceptCopy(p: Parser, q: Queue): (r: Step)
    ensures r.Step? ==> SuffixOf(r.q, q) && StackExtends(p.stack, r.p.stack) && UpdatesExtend(p.out, r.p.out)
    ensures r.Ok() ==> |r.q| < |q| && r.p.stack == p.stack
  {
    if |q| == 0 then Step(InvalidElement, p, q)
    else
      var q1 := q[1..];
      if |q1| == 0 then Undefined
      else
        var p1 := Push(p, q1[0].token);
        if q1[0].token != FromOpen then Step(InvalidElement, p1, q1)
        else
          var from := q1[0];
          var q2 := q1[1..];
          var fromLex := MatchedKeys(from, [KeyRoot], 0);
          if |fromLex| < 1 then Step(InvalidAttributeKey, p1, q2)
          else
            var fromRoot := CopyRoot(fromLex[0]);
            if fromRoot.None? then Step(InvalidAttributeValue, p1, q2)
            else
              // the <from> token is popped again
              if |q2| == 0 then Undefined
              else
                var p3 := Push(p, q2[0].token);
                if q2[0].token != ToOpen then Step(InvalidElement, p3, q2)
                else
                  var to := q2[0];
                  var q3 := q2[1..];
                  var toLex := MatchedKeys(to, [KeyRoot], 0);
                  if |toLex| < 1 then Step(InvalidAttributeKey, p3, q3)
                  else
                    var toRoot := CopyRoot(toLex[0]);
                    if toRoot.None? then Step(InvalidAttributeValue, p3, q3)
                    else
                      var op := CopyOp(Resource(from.value, FileType, fromRoot.value),
                                       Resource(to.value, DirectoryType, toRoot.value));
                      Step(ParseOk, Parser(p.stack, AddUpdate(p.out, op)), q3)
  }

  /** The copy operation a well-formed <copy><from/><to/></copy> group stands for. */
  function CopyOf(from: ConfigElement, to: ConfigElement): FsOperation
    requires RootOf(from).Some? && RootOf(to).Some?
  {
    CopyOp(Resource(from.value, FileType, RootOf(from).value),
           Resource(to.value, DirectoryType, RootOf(to).value))
  }

  /** acceptCopy succeeds exactly on a <from> then a <to> with known roots,
      consumes the three elements and adds their copy; the stack is back where
      it was. */
  lemma AcceptCopyOk(p: Parser, q: Queue)
    ensures AcceptCopy(p, q).Ok() <==> |q| >= 3 && Endpoint(q[1], FromOpen) && Endpoint(q[2], ToOpen)
    ensures AcceptCopy(p, q).Ok() ==>
              AcceptCopy(p, q) == Step(ParseOk, Parser(p.stack, AddUpdate(p.out, CopyOf(q[1], q[2]))), q[3..])
  {
    if |q| >= 2 && KeyRoot in q[1].slots {
      RootLookupsAgree(q[1]);
    }
    if |q| >= 3 && KeyRoot in q[2].slots {
      RootLookupsAgree(q[2]);
    }
    if |q| >= 3 {
      assert q[1..][1..] == q[2..] && q[2..][1..] == q[3..];
    }
  }

  /** When acceptCopy fails it adds nothing, and the stack then holds the
      element where it failed on top of the caller's stack. */
  lemma AcceptCopyFails(p: Parser, q: Queue)
    requires AcceptCopy(p, q).Step? && !AcceptCopy(p, q).Ok()
    ensures var r := AcceptCopy(p, q);
            r.p.out == p.out && SuffixOf(r.q, q) &&
            (r.p.stack == p.stack || (|q| >= 2 && r.p.stack == p.stack + [q[1].token]) ||
                                     (|q| >= 3 && r.p.stack == p.stack + [q[2].token]))
  {
    if |q| >= 2 {
      assert q[1..] == q[|q| - (|q| - 1)..];
      assert q[1..][1..] == q[|q| - (|q| - 2)..];
    }
    if |q| >= 3 {
      assert q[1..][1..][1..] == q[|q| - (|q| - 3)..];
    }
  }

  /** Where acceptCopy stops and with which status: a missing <from> or <to>
      is an invalid element (with that element's token pushed and the element
      not consumed), a missing root an invalid key and an unknown root an
      invalid value (the endpoint consumed, its token pushed). */
  lemma AcceptCopyStatus(p: Parser, q: Queue)
    ensures var r := AcceptCopy(p, q);
            && (|q| == 0 ==> r == Step(InvalidElement, p, q))
            && (|q| == 1 ==> r == Undefined)
            && (|q| >= 2 && q[1].token != FromOpen ==> r == Step(InvalidElement, Push(p, q[1].token), q[1..]))
            && (|q| >= 2 && q[1].token == FromOpen && KeyRoot !in q[1].slots ==>
                  r == Step(InvalidAttributeKey, Push(p, FromOpen), q[2..]))
            && (|q| >= 2 && q[1].token == FromOpen && KeyRoot in q[1].slots && RootOf(q[1]).None? ==>
                  r == Step(InvalidAttributeValue, Push(p, FromOpen), q[2..]))
            && (|q| == 2 && Endpoint(q[1], FromOpen) ==> r == Undefined)
            && (|q| >= 3 && Endpoint(q[1], FromOpen) && q[2].token != ToOpen ==>
                  r == Step(InvalidElement, Push(p, q[2].token), q[2..]))
            && (|q| >= 3 && Endpoint(q[1], FromOpen) && q[2].token == ToOpen && KeyRoot !in q[2].slots ==>
                  r == Step(InvalidAttributeKey, Push(p, ToOpen), q[3..]))
            && (|q| >= 3 && Endpoint(q[1], FromOpen) && q[2].token == ToOpen && KeyRoot in q[2].slots && RootOf(q[2]).None? ==>
                  r == Step(InvalidAttributeValue, Push(p, ToOpen), q[3..]))
  {
    if |q| >= 2 {
      assert q[1..][1..] == q[2..];
      if KeyRoot in q[1].slots {
        RootLookupsAgree(q[1]);
      }
    }
    if |q| >= 3 {
      assert q[2..][1..] == q[3..];
      if KeyRoot in q[2].slots {
        RootLookupsAgree(q[2]);
      }
    }
  }

  /** acceptCopy with nothing after <from>: the source reads the front of an
      empty vector. */
  lemma AcceptCopyTruncated(p: Parser, copy: ConfigElement, from: ConfigElement)
    requires Endpoint(from, FromOpen)
    ensures AcceptCopy(p, [copy, from]) == Undefined
    ensures AcceptCopy(p, [copy]) == Undefined
  {
    RootLookupsAgree(from);
    assert [copy, from][1..][1..] == [];
  }

  // ---------------------------------------------------------------------------
  // Runs of <file>/<directory> children
  // ---------------------------------------------------------------------------

  predicate IsPathElement(t: Token) {
    t == FileOpen || t == DirectoryOpen
  }

  function KindOf(t: Token): ResourceType {
    if t == FileOpen then FileType else DirectoryType
  }

  /** The number of <file>/<directory> elements at the front of the queue. */
  function PathRun(q: Queue): (n: nat)
    ensures n <= |q|
    ensures forall k :: 0 <= k < n ==> IsPathElement(q[k].token)
    ensures n < |q| ==> !IsPathElement(q[n].token)
  {
    if |q| == 0 || !IsPathElement(q[0].token) then 0 else 1 + PathRun(q[1..])
  }

  /** The validation the source wants for a <file>/<directory> child: its path
      must exist under the remote root. */
  function ExpectOf(c: ConfigElement): FsOperation {
    ExpectOp(Resource(c.value, KindOf(c.token), RootKeyRemote))
  }

  /** The backup copy for a <file>/<directory> child: from the target root to
      the backup directory, under the child's directory part. */
  function BackupOf(c: ConfigElement, path: string, join: Join): FsOperation {
    CopyOp(Resource(c.value, KindOf(c.token), RootKeyRoot),
           Resource(join(Some(path), DropNameAndRootPrefix(c.value)), KindOf(c.token), RootKeyRoot))
  }

  /** The ExpectOperations of the <file>/<directory> run at the front. */
  function ExpectsOfRun(q: Queue): (ops: seq<FsOperation>)
    ensures |ops| == PathRun(q)
  {
    if |q| == 0 || !IsPathElement(q[0].token) then [] else [ExpectOf(q[0])] + ExpectsOfRun(q[1..])
  }

  /** The backup CopyOperations of the <file>/<directory> run at the front. */
  function BackupsOfRun(q: Queue, path: string, join: Join): (ops: seq<FsOperation>)
    ensures |ops| == PathRun(q)
  {
    if |q| == 0 || !IsPathElement(q[0].token) then [] else [BackupOf(q[0], path, join)] + BackupsOfRun(q[1..], path, join)
  }

  /** One ExpectOperation per child of the run, in document order. */
  lemma {:induction false} RunExpects(q: Queue)
    ensures forall k :: 0 <= k < PathRun(q) ==> ExpectsOfRun(q)[k] == ExpectOf(q[k])
    decreases |q|
  {
    if |q| > 0 && IsPathElement(q[0].token) {
      RunExpects(q[1..]);
      forall k | 1 <= k < PathRun(q) ensures ExpectsOfRun(q)[k] == ExpectOf(q[k]) {
        assert ExpectsOfRun(q)[k] == ExpectsOfRun(q[1..])[k - 1];
      }
    }
  }

  /** One backup copy per child of the run, in document order. */
  lemma {:induction false} RunBackups(q: Queue, path: string, join: Join)
    ensures forall k :: 0 <= k < PathRun(q) ==> BackupsOfRun(q, path, join)[k] == BackupOf(q[k], path, join)
    decreases |q|
  {
    if |q| > 0 && IsPathElement(q[0].token) {
      RunBackups(q[1..], path, join);
      forall k | 1 <= k < PathRun(q) ensures BackupsOfRun(q, path, join)[k] == BackupOf(q[k], path, join) {
        assert BackupsOfRun(q, path, join)[k] == BackupsOfRun(q[1..], path, join)[k - 1];
      }
    }
  }

  /** What is left after the run at the front is what is left after the run
      of the queue's tail. */
  lemma PathRunTail(q: Queue)
    requires |q| > 0 && IsPathElement(q[0].token)
    ensures q[1..][PathRun(q[1..])..] == q[PathRun(q)..]
  {
  }

  lemma AddValidateTwice(o: Output, a: seq<FsOperation>, b: seq<FsOperation>)
    ensures AddValidate(AddValidate(o, a), b) == AddValidate(o, a + b)
  {
    assert (o.validateOps + a) + b == o.validateOps + (a + b);
  }

  lemma AddBackupTwice(o: Output, a: seq<FsOperation>, b: seq<FsOperation>)
    ensures AddBackup(AddBackup(o, a), b) == AddBackup(o, a + b)
  {
    assert (o.backupOps + a) + b == o.backupOps + (a + b);
  }

  /** The loop of acceptValidate: each <file>/<directory> child is pushed,
      read, turned into an ExpectOperation and popped; the first other element
      is pushed and popped again and ends the loop without being consumed. */
  function ValidateLoop(p: Parser, q: Queue): (r: Step)
    ensures r.Ok() && r.p.stack == p.stack
    ensures r.q == q[PathRun(q)..]
    ensures r.p.out == AddValidate(p.out, ExpectsOfRun(q))
    decreases |q|
  {
    if |q| == 0 || !IsPathElement(q[0].token) then
      assert p.out.validateOps + [] == p.out.validateOps;
      Step(ParseOk, p, q)
    else
      var ops := [ExpectOf(q[0])];
      var r := ValidateLoop(Parser(p.stack, AddValidate(p.out, ops)), q[1..]);
      PathRunTail(q);
      AddValidateTwice(p.out, ops, ExpectsOfRun(q[1..]));
      r
  }

  /** The loop of acceptBackup, with the backup path `path` already read. */
  function BackupLoop(p: Parser, q: Queue, path: string, join: Join): (r: Step)
    ensures r.Ok() && r.p.stack == p.stack
    ensures r.q == q[PathRun(q)..]
    ensures r.p.out == AddBackup(p.out, BackupsOfRun(q, path, join))
    decreases |q|
  {
    if |q| == 0 || !IsPathElement(q[0].token) then
      assert p.out.backupOps + [] == p.out.backupOps;
      Step(ParseOk, p, q)
    else
      var ops := [BackupOf(q[0], path, join)];
      var r := BackupLoop(Parser(p.stack, AddBackup(p.out, ops)), q[1..], path, join);
      PathRunTail(q);
      AddBackupTwice(p.out, ops, BackupsOfRun(q[1..], path, join));
      r
  }

  // ---------------------------------------------------------------------------
  // Section routines
  // ---------------------------------------------------------------------------

  /** acceptValidate, entered with the <validate> element at the front (the
      caller has pushed its token already; the routine pushes it again). It
      consumes the element and the run of <file>/<directory> children after
      it, and never fails once the element is there. */
  function AcceptValidate(p: Parser, q: Queue): (r: Step)
    ensures |q| == 0 ==> r == Step(InvalidElement, p, q)
    ensures |q| > 0 ==> && r.Ok() && r.p.stack == p.stack
                        && r.q == q[1 + PathRun(q[1..])..]
                        && r.p.out == AddValidate(p.out, ExpectsOfRun(q[1..]))
  {
    if |q| == 0 then Step(InvalidElement, p, q)
    else
      var r := ValidateLoop(Push(p, q[0].token), q[1..]);
      assert q[1..][PathRun(q[1..])..] == q[1 + PathRun(q[1..])..];
      Step(ParseOk, Pop(r.p), r.q)
  }

  /** acceptBackup, entered with the <backup> element at the front (its token
      pushed by the caller and again here). Without a path attribute it stops
      with the element's token left on the stack; otherwise the path is
      stored and each <file>/<directory> child becomes a backup copy. */
  function AcceptBackup(p: Parser, q: Queue, join: Join): (r: Step)
    ensures |q| == 0 ==> r == Step(InvalidElement, p, q)
    ensures |q| > 0 && KeyPath !in q[0].slots ==> r == Step(InvalidAttributeKey, Push(p, q[0].token), q[1..])
    ensures |q| > 0 && KeyPath in q[0].slots ==>
              var path := q[0].slots[KeyPath].lexeme;
              && r.Ok() && r.p.stack == p.stack
              && r.q == q[1 + PathRun(q[1..])..]
              && r.p.out == AddBackup(SetBackupPath(p.out, path), BackupsOfRun(q[1..], path, join))
  {
    if |q| == 0 then Step(InvalidElement, p, q)
    else
      var p1 := Push(p, q[0].token);
      var lexemes := MatchedKeys(q[0], [KeyPath], 0);
      if |lexemes| < 1 then Step(InvalidAttributeKey, p1, q[1..])
      else
        var r := BackupLoop(Parser(p1.stack, SetBackupPath(p1.out, lexemes[0])), q[1..], lexemes[0], join);
        assert q[1..][PathRun(q[1..])..] == q[1 + PathRun(q[1..])..];
        Step(ParseOk, Pop(r.p), r.q)
  }

  /** The loop of acceptOperations: <copy> and <remove> children in any
      order; the first other element ends the loop unconsumed, and the first
      failing child ends it with that child's status and stack. */
  function OperationsLoop(p: Parser, q: Queue): (r: Step)
    ensures r.Step? ==> SuffixOf(r.q, q) && StackExtends(p.stack, r.p.stack) && UpdatesExtend(p.out, r.p.out)
    ensures r.Ok() ==> r.p.stack == p.stack
    decreases |q|
  {
    if |q| == 0 then Step(ParseOk, p, q)
    else
      var t := q[0].token;
      if t != CopyOpen && t != RemoveOpen then Step(ParseOk, p, q)
      else
        var p1 := Push(p, t);
        var r := if t == CopyOpen then AcceptCopy(p1, q) else AcceptRemove(p1, q);
        if !r.Ok() then
          assert r.Step? ==> StackExtends(p.stack, r.p.stack) by {
            if r.Step? {
              assert r.p.stack[..|p1.stack|][..|p.stack|] == p.stack;
            }
          }
          r
        else
          var rest := OperationsLoop(Pop(r.p), r.q);
          assert rest.Step? ==> SuffixOf(rest.q, q) && UpdatesExtend(p.out, rest.p.out) by {
            if rest.Step? {
              SuffixTrans(rest.q, r.q, q);
              UpdatesExtendTrans(p.out, r.p.out, rest.p.out);
            }
          }
          rest
  }

  /** acceptOperations, entered with the <operations> element at the front. */
  function AcceptOperations(p: Parser, q: Queue): (r: Step)
    ensures |q| == 0 ==> r == Step(InvalidElement, p, q)
    ensures r.Step? ==> SuffixOf(r.q, q) && StackExtends(p.stack, r.p.stack) && UpdatesExtend(p.out, r.p.out)
    ensures r.Ok() ==> r.p.stack == p.stack && |r.q| < |q|
  {
    if |q| == 0 then Step(InvalidElement, p, q)
    else
      var p1 := Push(p, q[0].token);
      var r := OperationsLoop(p1, q[1..]);
      if r.Undefined? then r
      else
        assert SuffixOf(r.q, q) by { SuffixTrans(r.q, q[1..], q); }
        if r.status != ParseOk then
          assert r.p.stack[..|p1.stack|][..|p.stack|] == p.stack;
          r
        else Step(ParseOk, Pop(r.p), r.q)
  }

  /** The tokens the switch of acceptConfiguration has a case for. */
  predicate StartsSection(t: Token) {
    t == ResourceUriOpen || t == ValidateOpen || t == BackupOpen || t == OperationOpen
  }

  /** The section routine for the element at the front of a non-empty queue,
      or INVALID_ELEMENT for an element that does not start a section. */
  function AcceptSection(p: Parser, q: Queue, join: Join): (r: Step)
    requires |q| > 0
    ensures q[0].token == ResourceUriOpen ==> r == AcceptResourceUri(p, q)
    ensures q[0].token == ValidateOpen ==> r == AcceptValidate(p, q)
    ensures q[0].token == BackupOpen ==> r == AcceptBackup(p, q, join)
    ensures q[0].token == OperationOpen ==> r == AcceptOperations(p, q)
    ensures !StartsSection(q[0].token) ==> r == Step(InvalidElement, p, q)
    ensures r.Step? ==> SuffixOf(r.q, q) && StackExtends(p.stack, r.p.stack)
    ensures r.Step? ==> r.p.out.platform == p.out.platform && r.p.out.product == p.out.product
    ensures r.Ok() ==> r.p.stack == p.stack && |r.q| < |q|
  {
    var t := q[0].token;
    if t == ResourceUriOpen then AcceptResourceUri(p, q)
    else if t == ValidateOpen then
      assert q[1 + PathRun(q[1..])..] == q[|q| - (|q| - 1 - PathRun(q[1..]))..];
      AcceptValidate(p, q)
    else if t == BackupOpen then
      var r := AcceptBackup(p, q, join);
      assert r.Step? ==> SuffixOf(r.q, q) by {
        if KeyPath in q[0].slots {
          assert q[1 + PathRun(q[1..])..] == q[|q| - (|q| - 1 - PathRun(q[1..]))..];
        }
      }
      r
    else if t == OperationOpen then AcceptOperations(p, q)
    else Step(InvalidElement, p, q)
  }

  /** The main loop of acceptConfiguration: while elements remain, push the
      front element's token, run its section routine, and pop on success;
      the first failure ends the loop with the stack as the routine left it. */
  function ConfigurationLoop(p: Parser, q: Queue, join: Join): (r: Step)
    ensures r.Step? ==> SuffixOf(r.q, q) && StackExtends(p.stack, r.p.stack)
    ensures r.Step? ==> r.p.out.platform == p.out.platform && r.p.out.product == p.out.product
    ensures r.Ok() ==> r.q == [] && r.p.stack == p.stack
    ensures |q| > 0 && !StartsSection(q[0].token) ==> r == Step(InvalidElement, Push(p, q[0].token), q)
    decreases |q|
  {
    if |q| == 0 then Step(ParseOk, p, q)
    else
      var p1 := Push(p, q[0].token);
      var r := AcceptSection(p1, q, join);
      if !r.Ok() then
        assert r.Step? ==> StackExtends(p.stack, r.p.stack) by {
          if r.Step? {
            assert r.p.stack[..|p1.stack|][..|p.stack|] == p.stack;
          }
        }
        r
      else
        var rest := ConfigurationLoop(Pop(r.p), r.q, join);
        assert rest.Step? ==> SuffixOf(rest.q, q) by {
          if rest.Step? {
            SuffixTrans(rest.q, r.q, q);
          }
        }
        rest
  }

  // ---------------------------------------------------------------------------
  // Reference reading of a configuration body
  // ---------------------------------------------------------------------------

  /** What one element adds to the output when it is read in document order,
      `section` being the innermost section element opened before it (or the
      element itself when it opens one): its URI, the backup path, the
      ExpectOperation or backup copy of a <file>/<directory> child of a
      <validate> or <backup>, the RemoveOperation of a <remove>, or the
      CopyOperation of a <copy> followed by its <from> and <to>. */
  function Contribution(o: Output, q: Queue, section: ConfigElement, join: Join): Output
    requires |q| > 0
  {
    var c := q[0];
    if c.token == ResourceUriOpen then AddUri(o, c.value)
    else if c.token == BackupOpen && KeyPath in c.slots then SetBackupPath(o, c.slots[KeyPath].lexeme)
    else if IsPathElement(c.token) && section.token == ValidateOpen then AddValidate(o, [ExpectOf(c)])
    else if IsPathElement(c.token) && section.token == BackupOpen && KeyPath in section.slots then
      AddBackup(o, [BackupOf(c, section.slots[KeyPath].lexeme, join)])
    else if c.token == RemoveOpen && RootOf(c).Some? then
      AddUpdate(o, RemoveOp(Resource(c.value, FileType, RootOf(c).value)))
    else if c.token == CopyOpen && |q| >= 3 && Endpoint(q[1], FromOpen) && Endpoint(q[2], ToOpen) then
      AddUpdate(o, CopyOf(q[1], q[2]))
    else o
  }

  /** Reference definition of the body's output: a single flat scan adding
      each element's contribution, with no nesting and no error handling. */
  function Scan(o: Output, q: Queue, section: ConfigElement, join: Join): Output
    decreases |q|
  {
    if |q| == 0 then o
    else
      var s := if StartsSection(q[0].token) then q[0] else section;
      Scan(Contribution(o, q, s, join), q[1..], s, join)
  }

  /** Inside a <validate>, the run of children scans to their ExpectOperations. */
  lemma {:induction false} ScanValidateRun(o: Output, q: Queue, section: ConfigElement, join: Join)
    requires section.token == ValidateOpen
    ensures Scan(o, q, section, join) == Scan(AddValidate(o, ExpectsOfRun(q)), q[PathRun(q)..], section, join)
    decreases |q|
  {
    if |q| == 0 || !IsPathElement(q[0].token) {
      assert o.validateOps + [] == o.validateOps;
      assert AddValidate(o, []) == o;
    } else {
      var ops := [ExpectOf(q[0])];
      ScanValidateRun(AddValidate(o, ops), q[1..], section, join);
      PathRunTail(q);
      AddValidateTwice(o, ops, ExpectsOfRun(q[1..]));
    }
  }

  /** Inside a <backup> with a path, the run of children scans to their
      backup copies. */
  lemma {:induction false} ScanBackupRun(o: Output, q: Queue, section: ConfigElement, join: Join)
    requires section.token == BackupOpen && KeyPath in section.slots
    ensures var path := section.slots[KeyPath].lexeme;
            Scan(o, q, section, join) == Scan(AddBackup(o, BackupsOfRun(q, path, join)), q[PathRun(q)..], section, join)
    decreases |q|
  {
    var path := section.slots[KeyPath].lexeme;
    if |q| == 0 || !IsPathElement(q[0].token) {
      assert o.backupOps + [] == o.backupOps;
      assert AddBackup(o, []) == o;
    } else {
      var ops := [BackupOf(q[0], path, join)];
      ScanBackupRun(AddBackup(o, ops), q[1..], section, join);
      PathRunTail(q);
      AddBackupTwice(o, ops, BackupsOfRun(q[1..], path, join));
    }
  }

  /** A well-formed <copy><from/><to/> group scans to its copy operation. */
  lemma ScanCopyGroup(o: Output, q: Queue, section: ConfigElement, join: Join)
    requires |q| >= 3 && q[0].token == CopyOpen && Endpoint(q[1], FromOpen) && Endpoint(q[2], ToOpen)
    ensures Scan(o, q, section, join) == Scan(AddUpdate(o, CopyOf(q[1], q[2])), q[3..], section, join)
  {
    var o' := AddUpdate(o, CopyOf(q[1], q[2]));
    assert q[1..][1..] == q[2..] && q[2..][1..] == q[3..];
    assert Scan(o, q, section, join) == Scan(o', q[1..], section, join);
    assert Contribution(o', q[1..], section, join) == o';
    assert Scan(o', q[1..], section, join) == Scan(o', q[2..], section, join);
    assert Contribution(o', q[2..], section, join) == o';
  }

  /** Inside <operations>, what the loop of acceptOperations appends is what
      the scan of the elements it consumed adds. */
  lemma {:induction false} ScanOperations(p: Parser, q: Queue, section: ConfigElement, join: Join)
    requires section.token == OperationOpen
    requires OperationsLoop(p, q).Ok()
    ensures var r := OperationsLoop(p, q);
            Scan(p.out, q, section, join) == Scan(r.p.out, r.q, section, join)
    decreases |q|
  {
    if |q| > 0 && (q[0].token == CopyOpen || q[0].token == RemoveOpen) {
      var p1 := Push(p, q[0].token);
      if q[0].token == CopyOpen {
        AcceptCopyOk(p1, q);
        var o := AddUpdate(p.out, CopyOf(q[1], q[2]));
        ScanCopyGroup(p.out, q, section, join);
        ScanOperations(Parser(p.stack, o), q[3..], section, join);
      } else {
        AcceptRemoveSpec(p1, q);
        var o := AddUpdate(p.out, RemoveOp(Resource(q[0].value, FileType, RootOf(q[0]).value)));
        ScanOperations(Parser(p.stack, o), q[1..], section, join);
      }
    }
  }

  /** A <validate> section scans to the expects acceptValidate appends. */
  lemma ScanValidateSection(p: Parser, q: Queue, before: ConfigElement, join: Join)
    requires |q| > 0 && q[0].token == ValidateOpen
    ensures var r := AcceptValidate(p, q);
            Scan(p.out, q, before, join) == Scan(r.p.out, r.q, q[0], join)
  {
    ScanValidateRun(p.out, q[1..], q[0], join);
    assert q[1..][PathRun(q[1..])..] == q[1 + PathRun(q[1..])..];
  }

  /** A <backup> section with a path scans to the path and the copies
      acceptBackup records. */
  lemma ScanBackupSection(p: Parser, q: Queue, before: ConfigElement, join: Join)
    requires |q| > 0 && q[0].token == BackupOpen && KeyPath in q[0].slots
    ensures var r := AcceptBackup(p, q, join);
            Scan(p.out, q, before, join) == Scan(r.p.out, r.q, q[0], join)
  {
    var path := q[0].slots[KeyPath].lexeme;
    ScanBackupRun(SetBackupPath(p.out, path), q[1..], q[0], join);
    assert q[1..][PathRun(q[1..])..] == q[1 + PathRun(q[1..])..];
  }

  /** A successful <operations> section scans to the updates acceptOperations
      appends. */
  lemma ScanOperationsSection(p: Parser, q: Queue, before: ConfigElement, join: Join)
    requires |q| > 0 && q[0].token == OperationOpen && AcceptOperations(p, q).Ok()
    ensures var r := AcceptOperations(p, q);
            Scan(p.out, q, before, join) == Scan(r.p.out, r.q, q[0], join)
  {
    ScanOperations(Push(p, q[0].token), q[1..], q[0], join);
  }

  /** A section that succeeds leaves exactly what the scan of the elements it
      consumed adds, whatever section was open before it. */
  lemma ScanSection(p: Parser, q: Queue, before: ConfigElement, join: Join)
    requires |q| > 0 && AcceptSection(p, q, join).Ok()
    ensures var r := AcceptSection(p, q, join);
            Scan(p.out, q, before, join) == Scan(r.p.out, r.q, q[0], join)
  {
    var t := q[0].token;
    if t == ValidateOpen {
      ScanValidateSection(p, q, before, join);
    } else if t == BackupOpen {
      ScanBackupSection(p, q, before, join);
    } else if t == OperationOpen {
      ScanOperationsSection(p, q, before, join);
    }
  }

  /** The section loop builds exactly the output of the reference scan. */
  lemma {:induction false} ConfigurationLoopScans(p: Parser, q: Queue, before: ConfigElement, join: Join)
    requires ConfigurationLoop(p, q, join).Ok()
    ensures ConfigurationLoop(p, q, join).p.out == Scan(p.out, q, before, join)
    decreases |q|
  {
    if |q| > 0 {
      var p1 := Push(p, q[0].token);
      var r := AcceptSection(p1, q, join);
      ScanSection(p1, q, before, join);
      ConfigurationLoopScans(Pop(r.p), r.q, q[0], join);
    }
  }

  /** A successful parse's output is the header's platform and product plus
      the reference scan of the elements after the first. */
  lemma ParseScans(q: Queue, join: Join)
    requires Parse(q, join).Ok()
    ensures |q| > 0
    ensures Parse(q, join).p.out ==
              Scan(Output(Some(q[0].slots[KeyPlatform].lexeme), Some(q[0].slots[KeyProduct].lexeme), [], None, [], [], []),
                   q[1..], q[0], join)
  {
    var lexemes := MatchedKeys(q[0], [KeyPlatform, KeyProduct], 0);
    var p2 := Parser([q[0].token], SetHeader(EmptyOutput, lexemes));
    ConfigurationLoopScans(p2, q[1..], q[0], join);
  }

  /** The platform after the header attributes are read: written when the
      element has one. */
  function PlatformAfter(o: Output, c: ConfigElement): Option<string> {
    if KeyPlatform in c.slots then Some(c.slots[KeyPlatform].lexeme) else o.platform
  }

  /** The product after the header attributes are read: written only when
      the platform, read first, was there too. */
  function ProductAfter(o: Output, c: ConfigElement): Option<string> {
    if KeyPlatform in c.slots && KeyProduct in c.slots then Some(c.slots[KeyProduct].lexeme) else o.product
  }

  /** acceptConfiguration: the first element (whatever its token) is the
      configuration; it must carry platform and product, which are stored as
      far as they are present; then the rest of the queue is parsed section
      by section. */
  function AcceptConfiguration(p: Parser, q: Queue, join: Join): (r: Step)
    ensures |q| == 0 ==> r == Step(InvalidElement, p, q)
    ensures r.Step? ==> StackExtends(p.stack, r.p.stack)
    ensures r.Ok() ==> r.q == [] && r.p.stack == p.stack
    ensures |q| > 0 && r.Step? && r.status != ParseOk ==> StackExtends(p.stack + [q[0].token], r.p.stack)
    ensures |q| > 0 && r.Step? ==> r.p.out.platform == PlatformAfter(p.out, q[0]) && r.p.out.product == ProductAfter(p.out, q[0])
    ensures |q| > 0 && r.Step? && r.status != InvalidAttributeKey ==> KeyPlatform in q[0].slots && KeyProduct in q[0].slots
  {
    if |q| == 0 then Step(InvalidElement, p, q)
    else
      var p1 := Push(p, q[0].token);
      var lexemes := MatchedKeys(q[0], [KeyPlatform, KeyProduct], 0);
      var p2 := Parser(p1.stack, SetHeader(p1.out, lexemes));
      if |lexemes| < 2 then Step(InvalidAttributeKey, p2, q[1..])
      else
        var r := ConfigurationLoop(p2, q[1..], join);
        if r.Ok() then Step(ParseOk, Pop(r.p), r.q)
        else
          assert r.Step? ==> StackExtends(p.stack, r.p.stack) by {
            if r.Step? {
              assert r.p.stack[..|p2.stack|][..|p.stack|] == p.stack;
            }
          }
          r
  }

  /** Parser::Parser: a fresh parser runs acceptConfiguration over a copy of
      the elements. */
  function Parse(q: Queue, join: Join): (r: Step)
    ensures r.Ok() ==> r.q == [] && r.p.stack == []
    ensures r.Ok() ==> |q| > 0 && KeyPlatform in q[0].slots && KeyProduct in q[0].slots
    ensures r.Ok() ==> (r.p.out.platform == Some(q[0].slots[KeyPlatform].lexeme) &&
                        r.p.out.product == Some(q[0].slots[KeyProduct].lexeme))
    ensures r.Step? && r.status != ParseOk && |q| > 0 ==> |r.p.stack| > 0 && r.p.stack[0] == q[0].token
  {
    var r := AcceptConfiguration(EmptyParser, q, join);
    assert r.Step? && r.status != ParseOk && |q| > 0 ==> r.p.stack[0] == r.p.stack[..1][0];
    r
  }

  // ---------------------------------------------------------------------------
  // fault()
  // ---------------------------------------------------------------------------

  /** The head of the fault text for a failing status. */
  function FaultPrefix(status: ParseStatus): string
    requires status != ParseOk
  {
    match status
    case InvalidElement => "Invalid element: "
    case InvalidAttributeKey => "Missing/Invalid attribute key in element: "
    case InvalidAttributeValue => "Missing/Invalid attribute value in element: "
  }

  const Separator: string := " in\n\t"

  /** The lexemes of the stack's tokens, bottom first. */
  function LexemesOf(stack: seq<Token>): (names: seq<string>)
    ensures |names| == |stack| && forall k :: 0 <= k < |stack| ==> names[k] == Lexeme(stack[k])
  {
    seq(|stack|, k requires 0 <= k < |stack| => Lexeme(stack[k]))
  }

  /** The names at index i and above, innermost first, each but the bottom
      one followed by the separator: what the loop of fault() has added once
      it has come down to index i. */
  function StackTextFrom(names: seq<string>, i: nat): string
    requires i <= |names|
    decreases |names| - i
  {
    if i == |names| then ""
    else StackTextFrom(names, i + 1) + names[i] + (if i > 0 then Separator else "")
  }

  /** The loop of fault(): from the top of the stack down, each name and,
      above the bottom, the separator. */
  method StackText(names: seq<string>) returns (text: string)
    ensures text == StackTextFrom(names, 0)
  {
    text := "";
    var i := |names| - 1;
    while i >= 0
      invariant -1 <= i < |names|
      invariant text == StackTextFrom(names, i + 1)
      decreases i
    {
      text := text + names[i];
      if i > 0 {
        text := text + Separator;
      }
      i := i - 1;
    }
  }

  /** fault(): null when the parse succeeded; otherwise the status line and
      the stack from the innermost token out, one lexeme per line. */
  method Fault(status: ParseStatus, stack: seq<Token>) returns (r: Option<string>)
    ensures status == ParseOk <==> r.None?
    ensures r.Some? ==> r.value == FaultPrefix(status) + StackTextFrom(LexemesOf(stack), 0) + "\n"
  {
    if status == ParseOk {
      return None;
    }
    var text := StackText(LexemesOf(stack));
    return Some(FaultPrefix(status) + text + "\n");
  }

  /** Reference definition: parts joined with a separator between them. */
  function JoinWith(parts: seq<string>, sep: string): string {
    if |parts| == 0 then ""
    else if |parts| == 1 then parts[0]
    else JoinWith(parts[..|parts| - 1], sep) + sep + parts[|parts| - 1]
  }

  /** The text the loop of fault() builds from index i up is the names above
      i, top first, joined by the separator (and one more separator when
      lower entries follow). */
  lemma {:induction false} StackTextIsJoin(names: seq<string>, i: nat)
    requires i < |names|
    ensures StackTextFrom(names, i) == JoinWith(Reverse(names[i..]), Separator) + (if i > 0 then Separator else "")
    decreases |names| - i
  {
    var rev := Reverse(names[i..]);
    assert names[i..][1..] == names[i + 1..];
    assert rev == Reverse(names[i + 1..]) + [names[i]];
    if i + 1 < |names| {
      StackTextIsJoin(names, i + 1);
      assert rev[..|rev| - 1] == Reverse(names[i + 1..]);
    } else {
      assert names[i + 1..] == [];
    }
  }

  /** fault() lists the stack's lexemes from the top down, one separator
      between neighbours. */
  lemma FaultTextIsJoin(status: ParseStatus, stack: seq<Token>)
    requires status != ParseOk && |stack| > 0
    ensures FaultPrefix(status) + StackTextFrom(LexemesOf(stack), 0) + "\n" ==
            FaultPrefix(status) + JoinWith(Reverse(LexemesOf(stack)), Separator) + "\n"
  {
    StackTextIsJoin(LexemesOf(stack), 0);
    assert LexemesOf(stack)[0..] == LexemesOf(stack);
  }

  // ---------------------------------------------------------------------------
  // Examples
  // ---------------------------------------------------------------------------

  function Header(platform: string, product: string): ConfigElement {
    ConfigElement(ConfigurationOpen, None, "", false,
                  map[KeyPlatform := KvPair(KeyPlatform, Value(platform), platform),
                      KeyProduct := KvPair(KeyProduct, Value(product), product)])
  }

  /** A configuration with its header and nothing else parses, with the
      header's platform and product. */
  lemma HeaderOnly(platform: string, product: string, join: Join)
    ensures var r := Parse([Header(platform, product)], join);
            r.Ok() && r.p.out == Output(Some(platform), Some(product), [], None, [], [], [])
  {
    var q := [Header(platform, product)];
    var lexemes := MatchedKeys(q[0], [KeyPlatform, KeyProduct], 0);
    assert lexemes == [platform, product];
  }

  /** A <backup> without a path fails with the backup token on the stack
      twice: once pushed by the configuration loop, once by acceptBackup. */
  lemma BackupWithoutPath(platform: string, product: string, join: Join)
    ensures var backup := ConfigElement(BackupOpen, Some(0), "", false, map[]);
            var r := Parse([Header(platform, product), backup], join);
            r.Step? && r.status == InvalidAttributeKey && r.p.stack == [ConfigurationOpen, BackupOpen, BackupOpen]
  {
    var backup := ConfigElement(BackupOpen, Some(0), "", false, map[]);
    var q := [Header(platform, product), backup];
    var lexemes := MatchedKeys(q[0], [KeyPlatform, KeyProduct], 0);
    assert lexemes == [platform, product];
    assert q[1..] == [backup];
  }

  /** A <file> directly inside the configuration is an invalid element, and
      the stack shows where it was found. */
  lemma FileOutsideSection(platform: string, product: string, join: Join)
    ensures var file := ConfigElement(FileOpen, Some(0), "", false, map[]);
            var r := Parse([Header(platform, product), file], join);
            r.Step? && r.status == InvalidElement && r.p.stack == [ConfigurationOpen, FileOpen]
  {
    var file := ConfigElement(FileOpen, Some(0), "", false, map[]);
    var q := [Header(platform, product), file];
    var lexemes := MatchedKeys(q[0], [KeyPlatform, KeyProduct], 0);
    assert lexemes == [platform, product];
    assert q[1..] == [file];
  }
}
