/** The updater (cfgupdater.cpp): it takes the parser's results and runs the
    validate, backup and update operation lists phase by phase, consulting a
    delegate before every operation, and keeps one counter per list so that a
    failed run can be resumed. The delegate's replies and the operations'
    results are oracle parameters; the kernel name is a parameter. Every call
    the updater makes is recorded in a log. */
module Updater {
  import opened Common
  import opened Resources
  import opened FsOperations
  import opened ConfigParser

  /** UpdateStatus, with its size sentinel. */
  datatype UpdateStatus =
    | StatusOk | StatusBadPlatform | StatusResourceNotFound | StatusBadResult
    | StatusBadPrecondition | StatusBadUndo | StatusEnumMax

  datatype Phase = ValidatePhase | BackupPhase | UpdatePhase

  /** One call made by execute(): a delegate hook or an operation's execute(). */
  datatype Call =
    | OnInit
    | OnConfigure
    | OnPre(phase: Phase, op: FsOperation)
    | Run(phase: Phase, op: FsOperation)
    | OnExit(status: UpdateStatus, subject: Option<FsOperation>, result: OperationResult)

  /** The delegate as oracles: the replies of on_init and
      on_configure_resource_manager (which may rewrite the manager and the
      URIs it is handed), of the pre-operation hooks and of on_exit. */
  datatype Delegate = Delegate(
    init: UpdateStatus,
    configure: (ResourceManager, seq<string>) -> (UpdateStatus, ResourceManager, seq<string>),
    pre: (Phase, FsOperation) -> UpdateStatus,
    exit: Call -> UpdateStatus)

  /** What the updater copied from the parser, apart from the lists. */
  datatype Info = Info(product: Option<string>, platform: Option<string>, uris: seq<string>, backupPath: Option<string>)

  /** d_validate_sp, d_backup_sp and d_update_sp. */
  datatype Counters = Counters(validate: nat, backup: nat, update: nat)

  /** The three operation lists. */
  datatype Plan = Plan(validate: seq<FsOperation>, backup: seq<FsOperation>, update: seq<FsOperation>)

  datatype Updater = Updater(info: Info, sp: Counters, plan: Plan)

  /** The counters never run past their lists. */
  predicate Valid(u: Updater) {
    u.sp.validate <= |u.plan.validate| && u.sp.backup <= |u.plan.backup| && u.sp.update <= |u.plan.update|
  }

  /** Updater::Updater: copies the parser's results in order; all counters 0. */
  function NewUpdater(o: Output): (u: Updater)
    ensures Valid(u) && u.sp == Counters(0, 0, 0)
    ensures u.info == Info(o.product, o.platform, o.uris, o.backupPath)
    ensures u.plan == Plan(o.validateOps, o.backupOps, o.updateOps)
  {
    Updater(Info(o.product, o.platform, o.uris, o.backupPath), Counters(0, 0, 0),
            Plan(o.validateOps, o.backupOps, o.updateOps))
  }

  // ---------------------------------------------------------------------------
  // One phase
  // ---------------------------------------------------------------------------

  /** The calls of operations that pass: the pre-hook, then execute(), for each. */
  function RunLog(phase: Phase, ops: seq<FsOperation>): (log: seq<Call>)
    ensures |log| == 2 * |ops|
  {
    if |ops| == 0 then [] else [OnPre(phase, ops[0]), Run(phase, ops[0])] + RunLog(phase, ops[1..])
  }

  /** How a phase ended: its counter, its calls, and the on_exit call to make
      if an operation failed. */
  datatype PhaseOutcome = PhaseOutcome(sp: nat, log: seq<Call>, failure: Option<Call>)

  /** The on_exit call for an operation that failed its pre-hook or its
      execute(), and the calls that led to it. */
  predicate FailedAt(phase: Phase, op: FsOperation, pre: (Phase, FsOperation) -> UpdateStatus,
                     result: OperationResult, failure: Call, tail: seq<Call>) {
    || (pre(phase, op) != StatusOk &&
        failure == OnExit(StatusBadPrecondition, Some(op), ResultEnumMax) && tail == [OnPre(phase, op)])
    || (pre(phase, op) == StatusOk && result != ResultOk &&
        failure == OnExit(StatusBadResult, Some(op), result) && tail == [OnPre(phase, op), Run(phase, op)])
  }

  /** A phase loop: while sp < bound, take read[sp], ask the pre-hook, execute
      it, and count it only when both succeed. The corrected update phase reads
      the list it counts; the update phase as written reads another one. */
  function PhaseRun(phase: Phase, read: seq<FsOperation>, bound: nat, sp: nat,
                    pre: (Phase, FsOperation) -> UpdateStatus, run: FsOperation -> OperationResult): (r: PhaseOutcome)
    requires sp <= bound <= |read|
    ensures sp <= r.sp <= bound
    ensures r.failure.None? <==> r.sp == bound
    ensures forall k :: sp <= k < r.sp ==> pre(phase, read[k]) == StatusOk && run(read[k]) == ResultOk
    ensures r.failure.None? ==> r.log == RunLog(phase, read[sp..bound])
    ensures r.failure.Some? ==> exists tail :: r.log == RunLog(phase, read[sp..r.sp]) + tail &&
                                               FailedAt(phase, read[r.sp], pre, run(read[r.sp]), r.failure.value, tail)
    decreases bound - sp
  {
    if sp == bound then
      assert read[sp..bound] == [];
      PhaseOutcome(sp, [], None)
    else
      var op := read[sp];
      if pre(phase, op) != StatusOk then
        var tail := [OnPre(phase, op)];
        assert read[sp..sp] == [];
        assert FailedAt(phase, op, pre, run(op), OnExit(StatusBadPrecondition, Some(op), ResultEnumMax), tail);
        PhaseOutcome(sp, tail, Some(OnExit(StatusBadPrecondition, Some(op), ResultEnumMax)))
      else
        var result := run(op);
        if result != ResultOk then
          var tail := [OnPre(phase, op), Run(phase, op)];
          assert read[sp..sp] == [];
          assert FailedAt(phase, op, pre, result, OnExit(StatusBadResult, Some(op), result), tail);
          PhaseOutcome(sp, tail, Some(OnExit(StatusBadResult, Some(op), result)))
        else
          var rest := PhaseRun(phase, read, bound, sp + 1, pre, run);
          var done := read[sp..rest.sp];
          assert done[0] == op && done[1..] == read[sp + 1..rest.sp];
          assert RunLog(phase, done) == [OnPre(phase, op), Run(phase, op)] + RunLog(phase, read[sp + 1..rest.sp]);
          PhaseOutcome(rest.sp, [OnPre(phase, op), Run(phase, op)] + rest.log, rest.failure)
  }

  // ---------------------------------------------------------------------------
  // execute()
  // ---------------------------------------------------------------------------

  /** What execute() leaves behind: the updater, the resource manager, the
      calls it made, and its return value (on_exit's reply). */
  datatype ExecOutcome = ExecOutcome(u: Updater, m: ResourceManager, log: seq<Call>, ret: UpdateStatus)

  /** Every return of execute() goes through on_exit, called last. */
  function Exit(u: Updater, m: ResourceManager, log: seq<Call>, d: Delegate, call: Call): (r: ExecOutcome)
    ensures r.u == u && r.m == m && r.log == log + [call] && r.ret == d.exit(call)
  {
    ExecOutcome(u, m, log + [call], d.exit(call))
  }

  /** Updater::execute, with the update phase reading its operations from
      `updateRead` while counting against the update list. The platform must
      equal the kernel name (a null platform compares as ""); then on_init,
      then on_configure_resource_manager, then the three phases from their
      stored counters. */
  function ExecuteReading(u: Updater, d: Delegate, kernel: string, m: ResourceManager,
                          run: FsOperation -> OperationResult, updateRead: seq<FsOperation>): (r: ExecOutcome)
    requires Valid(u) && |u.plan.update| <= |updateRead|
    ensures Valid(r.u) && r.u.plan == u.plan
    ensures r.u.info.product == u.info.product && r.u.info.platform == u.info.platform
    ensures r.u.info.backupPath == u.info.backupPath
    ensures u.sp.validate <= r.u.sp.validate && u.sp.backup <= r.u.sp.backup && u.sp.update <= r.u.sp.update
    ensures |r.log| > 0 && r.log[|r.log| - 1].OnExit? && r.ret == d.exit(r.log[|r.log| - 1])
    ensures kernel != u.info.platform.GetOr("") ==>
              r.u == u && r.m == m && r.log == [OnExit(StatusBadPlatform, None, ResultEnumMax)]
    ensures kernel == u.info.platform.GetOr("") && d.init != StatusOk ==>
              r.u == u && r.log == [OnInit, OnExit(d.init, None, ResultEnumMax)]
    ensures kernel == u.info.platform.GetOr("") && d.init == StatusOk && d.configure(m, u.info.uris).0 != StatusOk ==>
              r.u.sp == u.sp && r.log == [OnInit, OnConfigure, OnExit(d.configure(m, u.info.uris).0, None, ResultEnumMax)]
    ensures r.u.sp.backup > u.sp.backup ==> r.u.sp.validate == |u.plan.validate|
    ensures r.u.sp.update > u.sp.update ==> r.u.sp.backup == |u.plan.backup|
  {
    if kernel != u.info.platform.GetOr("") then
      Exit(u, m, [], d, OnExit(StatusBadPlatform, None, ResultEnumMax))
    else if d.init != StatusOk then
      Exit(u, m, [OnInit], d, OnExit(d.init, None, ResultEnumMax))
    else
      var c := d.configure(m, u.info.uris);
      var u1 := Updater(Info(u.info.product, u.info.platform, c.2, u.info.backupPath), u.sp, u.plan);
      var log := [OnInit, OnConfigure];
      if c.0 != StatusOk then Exit(u1, c.1, log, d, OnExit(c.0, None, ResultEnumMax))
      else
        var v := PhaseRun(ValidatePhase, u.plan.validate, |u.plan.validate|, u.sp.validate, d.pre, run);
        var u2 := Updater(u1.info, Counters(v.sp, u.sp.backup, u.sp.update), u.plan);
        if v.failure.Some? then Exit(u2, c.1, log + v.log, d, v.failure.value)
        else
          var b := PhaseRun(BackupPhase, u.plan.backup, |u.plan.backup|, u.sp.backup, d.pre, run);
          var u3 := Updater(u1.info, Counters(v.sp, b.sp, u.sp.update), u.plan);
          if b.failure.Some? then Exit(u3, c.1, log + v.log + b.log, d, b.failure.value)
          else
            var w := PhaseRun(UpdatePhase, updateRead, |u.plan.update|, u.sp.update, d.pre, run);
            var u4 := Updater(u1.info, Counters(v.sp, b.sp, w.sp), u.plan);
            if w.failure.Some? then Exit(u4, c.1, log + v.log + b.log + w.log, d, w.failure.value)
            else Exit(u4, c.1, log + v.log + b.log + w.log, d, OnExit(StatusOk, None, ResultEnumMax))
  }

  /** execute() as intended: the update phase runs the update list. */
  function Execute(u: Updater, d: Delegate, kernel: string, m: ResourceManager,
                   run: FsOperation -> OperationResult): (r: ExecOutcome)
    requires Valid(u)
    ensures Valid(r.u) && r.u.plan == u.plan
  {
    ExecuteReading(u, d, kernel, m, run, u.plan.update)
  }

  /** execute() as written: the update phase takes operation i from the
      backup list (cfgupdater.cpp line 137), which QVector::at only allows
      while the backup list is at least as long as the update list. */
  function ExecuteAsWritten(u: Updater, d: Delegate, kernel: string, m: ResourceManager,
                            run: FsOperation -> OperationResult): (r: ExecOutcome)
    requires Valid(u) && |u.plan.update| <= |u.plan.backup|
    ensures Valid(r.u) && r.u.plan == u.plan
  {
    ExecuteReading(u, d, kernel, m, run, u.plan.backup)
  }

  /** The remaining operations of all three phases pass their hooks and
      execute successfully. */
  predicate AllPass(ops: seq<FsOperation>, phase: Phase, d: Delegate, run: FsOperation -> OperationResult) {
    forall k :: 0 <= k < |ops| ==> d.pre(phase, ops[k]) == StatusOk && run(ops[k]) == ResultOk
  }

  /** A phase whose operations all pass runs to the end. */
  lemma PhaseCompletes(phase: Phase, read: seq<FsOperation>, bound: nat, sp: nat, d: Delegate, run: FsOperation -> OperationResult)
    requires sp <= bound <= |read| && AllPass(read[sp..bound], phase, d, run)
    ensures PhaseRun(phase, read, bound, sp, d.pre, run).failure.None?
  {
  }

  /** On full success every counter reaches its list's length, the log is
      the init and configure hooks, then each remaining operation's pre-hook
      and execute() phase by phase, then on_exit(STATUS_OK), whose reply
      execute() returns. */
  lemma ExecuteSucceeds(u: Updater, d: Delegate, kernel: string, m: ResourceManager, run: FsOperation -> OperationResult)
    requires Valid(u) && kernel == u.info.platform.GetOr("")
    requires d.init == StatusOk && d.configure(m, u.info.uris).0 == StatusOk
    requires AllPass(u.plan.validate[u.sp.validate..], ValidatePhase, d, run)
    requires AllPass(u.plan.backup[u.sp.backup..], BackupPhase, d, run)
    requires AllPass(u.plan.update[u.sp.update..], UpdatePhase, d, run)
    ensures var r := Execute(u, d, kernel, m, run);
            && r.u.sp == Counters(|u.plan.validate|, |u.plan.backup|, |u.plan.update|)
            && r.log == [OnInit, OnConfigure] + RunLog(ValidatePhase, u.plan.validate[u.sp.validate..])
                        + RunLog(BackupPhase, u.plan.backup[u.sp.backup..])
                        + RunLog(UpdatePhase, u.plan.update[u.sp.update..])
                        + [OnExit(StatusOk, None, ResultEnumMax)]
            && r.ret == d.exit(OnExit(StatusOk, None, ResultEnumMax))
  {
    assert u.plan.validate[u.sp.validate..|u.plan.validate|] == u.plan.validate[u.sp.validate..];
    assert u.plan.backup[u.sp.backup..|u.plan.backup|] == u.plan.backup[u.sp.backup..];
    assert u.plan.update[u.sp.update..|u.plan.update|] == u.plan.update[u.sp.update..];
    PhaseCompletes(ValidatePhase, u.plan.validate, |u.plan.validate|, u.sp.validate, d, run);
    PhaseCompletes(BackupPhase, u.plan.backup, |u.plan.backup|, u.sp.backup, d, run);
    PhaseCompletes(UpdatePhase, u.plan.update, |u.plan.update|, u.sp.update, d, run);
  }

  /** execute() after a failed validation resumes at the operation that
      failed: once the platform, on_init and the configuration pass again, the
      first operation consulted is the one at the stored counter. */
  lemma ExecuteResumes(u: Updater, d: Delegate, kernel: string, m: ResourceManager, run: FsOperation -> OperationResult)
    requires Valid(u) && u.sp.validate < |u.plan.validate|
    requires kernel == u.info.platform.GetOr("") && d.init == StatusOk && d.configure(m, u.info.uris).0 == StatusOk
    ensures var r := Execute(u, d, kernel, m, run);
            |r.log| > 2 && r.log[2] == OnPre(ValidatePhase, u.plan.validate[u.sp.validate])
  {
    var v := PhaseRun(ValidatePhase, u.plan.validate, |u.plan.validate|, u.sp.validate, d.pre, run);
    if v.failure.None? {
      var ops := u.plan.validate[u.sp.validate..|u.plan.validate|];
      assert v.log == RunLog(ValidatePhase, ops);
      assert v.log[0] == OnPre(ValidatePhase, ops[0]);
    } else if v.sp > u.sp.validate {
      var ops := u.plan.validate[u.sp.validate..v.sp];
      assert RunLog(ValidatePhase, ops)[0] == OnPre(ValidatePhase, ops[0]);
    }
  }

  /** A phase whose operations all execute successfully can only fail in a
      pre-hook. */
  lemma PhaseFailsOnPre(phase: Phase, read: seq<FsOperation>, bound: nat, sp: nat,
                        pre: (Phase, FsOperation) -> UpdateStatus, run: FsOperation -> OperationResult)
    requires sp <= bound <= |read| && forall op :: run(op) == ResultOk
    ensures var p := PhaseRun(phase, read, bound, sp, pre, run);
            p.failure.Some? ==> p.failure.value.status == StatusBadPrecondition
  {
    var p := PhaseRun(phase, read, bound, sp, pre, run);
    if p.failure.Some? {
      var tail :| p.log == RunLog(phase, read[sp..p.sp]) + tail &&
                  FailedAt(phase, read[p.sp], pre, run(read[p.sp]), p.failure.value, tail);
    }
  }

  /** With the file system operations of this revision, which always return
      RESULT_OK, an operation can only stop execute() through its pre-hook:
      on_exit never receives STATUS_BAD_RESULT for an operation. */
  lemma NoBadResult(u: Updater, d: Delegate, kernel: string, m: ResourceManager, rm: ResourceManager,
                    join: (Option<string>, string) -> string)
    requires Valid(u)
    ensures var r := Execute(u, d, kernel, m, op => FsOperations.Execute(op, rm, join).result);
            r.log[|r.log| - 1].subject.Some? ==> r.log[|r.log| - 1].status == StatusBadPrecondition
  {
    var run := op => FsOperations.Execute(op, rm, join).result;
    assert forall op :: run(op) == ResultOk;
    PhaseFailsOnPre(ValidatePhase, u.plan.validate, |u.plan.validate|, u.sp.validate, d.pre, run);
    PhaseFailsOnPre(BackupPhase, u.plan.backup, |u.plan.backup|, u.sp.backup, d.pre, run);
    PhaseFailsOnPre(UpdatePhase, u.plan.update, |u.plan.update|, u.sp.update, d.pre, run);
  }

  /** The update phase as written runs the backup list's operation where the
      update list's should run: with one backup b and one update x != b, the
      as-written run executes b a second time and never x. */
  lemma UpdatePhaseReadsBackup(b: FsOperation, x: FsOperation, d: Delegate, m: ResourceManager, run: FsOperation -> OperationResult)
    requires b != x
    requires d.init == StatusOk && d.configure(m, []).0 == StatusOk
    requires d.pre(BackupPhase, b) == StatusOk && run(b) == ResultOk
    requires d.pre(UpdatePhase, b) == StatusOk && d.pre(UpdatePhase, x) == StatusOk && run(x) == ResultOk
    ensures var u := Updater(Info(None, Some("Linux"), [], None), Counters(0, 0, 0), Plan([], [b], [x]));
            && ExecuteAsWritten(u, d, "Linux", m, run).log ==
                 [OnInit, OnConfigure, OnPre(BackupPhase, b), Run(BackupPhase, b),
                  OnPre(UpdatePhase, b), Run(UpdatePhase, b), OnExit(StatusOk, None, ResultEnumMax)]
            && Execute(u, d, "Linux", m, run).log ==
                 [OnInit, OnConfigure, OnPre(BackupPhase, b), Run(BackupPhase, b),
                  OnPre(UpdatePhase, x), Run(UpdatePhase, x), OnExit(StatusOk, None, ResultEnumMax)]
  {
    var u := Updater(Info(None, Some("Linux"), [], None), Counters(0, 0, 0), Plan([], [b], [x]));
    assert [b][0..1] == [b] && [x][0..1] == [x];
    assert RunLog(BackupPhase, [b]) == [OnPre(BackupPhase, b), Run(BackupPhase, b)] + RunLog(BackupPhase, []);
    assert RunLog(UpdatePhase, [b]) == [OnPre(UpdatePhase, b), Run(UpdatePhase, b)] + RunLog(UpdatePhase, []);
    assert RunLog(UpdatePhase, [x]) == [OnPre(UpdatePhase, x), Run(UpdatePhase, x)] + RunLog(UpdatePhase, []);
  }

  // ---------------------------------------------------------------------------
  // undo()
  // ---------------------------------------------------------------------------

  /** The last element of a list comes first in its reverse. */
  lemma {:induction false} ReverseLast<T>(s: seq<T>)
    requires |s| > 0
    ensures Reverse(s) == [s[|s| - 1]] + Reverse(s[..|s| - 1])
    decreases |s|
  {
    if |s| > 1 {
      ReverseLast(s[1..]);
      assert s[1..][..|s| - 2] == s[..|s| - 1][1..];
      assert s[..|s| - 1][0] == s[0];
    } else {
      assert s[..0] == [];
    }
  }

  /** An undo loop over ops[n - 1], ..., ops[0]: it stops at the first
      operation whose undo() does not return RESULT_OK. The result says
      whether it got through, and which operations it undid, in order. */
  function UndoLoop(ops: seq<FsOperation>, n: nat, undo: FsOperation -> OperationResult): (r: (bool, seq<FsOperation>))
    requires n <= |ops|
    ensures |r.1| <= n && r.1 == Reverse(ops[..n])[..|r.1|]
    ensures r.0 ==> r.1 == Reverse(ops[..n])
    ensures !r.0 ==> |r.1| > 0 && undo(r.1[|r.1| - 1]) != ResultOk
    ensures forall k :: 0 <= k < |r.1| - 1 ==> undo(r.1[k]) == ResultOk
    ensures r.0 ==> forall k :: 0 <= k < |r.1| ==> undo(r.1[k]) == ResultOk
  {
    if n == 0 then (true, [])
    else
      var op := ops[n - 1];
      ReverseLast(ops[..n]);
      assert ops[..n][..n - 1] == ops[..n - 1];
      if undo(op) != ResultOk then (false, [op])
      else
        var rest := UndoLoop(ops, n - 1, undo);
        (rest.0, [op] + rest.1)
  }

  /** undo() as intended: the successfully executed update operations
      (indices below the update counter) from the last one back, then the
      executed backup operations likewise; STATUS_BAD_UNDO at the first
      undo() that fails. Also returns the operations undone, in order. */
  function Undo(u: Updater, undo: FsOperation -> OperationResult): (r: (UpdateStatus, seq<FsOperation>))
    requires Valid(u)
    ensures r.0 == StatusOk || r.0 == StatusBadUndo
    ensures r.0 == StatusOk ==> r.1 == Reverse(u.plan.update[..u.sp.update]) + Reverse(u.plan.backup[..u.sp.backup])
    ensures r.0 == StatusOk <==>
              (forall k :: 0 <= k < u.sp.update ==> undo(u.plan.update[k]) == ResultOk) &&
              (forall k :: 0 <= k < u.sp.backup ==> undo(u.plan.backup[k]) == ResultOk)
  {
    var a := UndoLoop(u.plan.update, u.sp.update, undo);
    if !a.0 then
      UndoFailureWitness(u.plan.update, u.sp.update, undo);
      (StatusBadUndo, a.1)
    else
      var b := UndoLoop(u.plan.backup, u.sp.backup, undo);
      ReverseCovers(u.plan.update, u.sp.update);
      if !b.0 then
        UndoFailureWitness(u.plan.backup, u.sp.backup, undo);
        (StatusBadUndo, a.1 + b.1)
      else
        ReverseCovers(u.plan.backup, u.sp.backup);
        (StatusOk, a.1 + b.1)
  }

  /** Every index below n appears in the reverse of ops[..n]. */
  lemma ReverseCovers(ops: seq<FsOperation>, n: nat)
    requires n <= |ops|
    ensures forall k :: 0 <= k < n ==> ops[k] in Reverse(ops[..n])
  {
    forall k | 0 <= k < n ensures ops[k] in Reverse(ops[..n]) {
      ReverseIndex(ops[..n], k);
    }
  }

  /** Position k of a list is position |s| - 1 - k of its reverse. */
  lemma {:induction false} ReverseIndex<T>(s: seq<T>, k: nat)
    requires k < |s|
    ensures Reverse(s)[|s| - 1 - k] == s[k]
    decreases |s|
  {
    if k > 0 {
      ReverseIndex(s[1..], k - 1);
      assert Reverse(s) == Reverse(s[1..]) + [s[0]];
    }
  }

  /** A failed undo loop failed on some executed operation. */
  lemma UndoFailureWitness(ops: seq<FsOperation>, n: nat, undo: FsOperation -> OperationResult)
    requires n <= |ops| && !UndoLoop(ops, n, undo).0
    ensures exists k :: 0 <= k < n && undo(ops[k]) != ResultOk
  {
    var r := UndoLoop(ops, n, undo);
    var j := |r.1| - 1;
    assert r.1[j] == Reverse(ops[..n])[j];
    var s := ops[..n];
    assert exists i :: 0 <= i < n && Reverse(s)[j] == s[i] by {
      ReverseIndex(s, n - 1 - j);
    }
  }

  /** undo() as written (cfgupdater.cpp lines 167-180): both loops start at
      their counter inclusive, and the second, meant for the backups, reads
      the update list. QVector::at allows this only while both counters are
      below the update list's length. */
  function UndoAsWritten(u: Updater, undo: FsOperation -> OperationResult): (r: (UpdateStatus, seq<FsOperation>))
    requires Valid(u) && u.sp.update < |u.plan.update| && u.sp.backup < |u.plan.update|
    ensures r.0 == StatusOk ==> r.1 == Reverse(u.plan.update[..u.sp.update + 1]) + Reverse(u.plan.update[..u.sp.backup + 1])
  {
    var a := UndoLoop(u.plan.update, u.sp.update + 1, undo);
    if !a.0 then (StatusBadUndo, a.1)
    else
      var b := UndoLoop(u.plan.update, u.sp.backup + 1, undo);
      if !b.0 then (StatusBadUndo, a.1 + b.1) else (StatusOk, a.1 + b.1)
  }

  /** Before anything ran, undo() as written still undoes the first update
      operation, twice; undo() as intended undoes nothing. */
  lemma UndoBeforeExecute(b: FsOperation, x: FsOperation, undo: FsOperation -> OperationResult)
    requires undo(x) == ResultOk
    ensures var u := Updater(Info(None, None, [], None), Counters(0, 0, 0), Plan([], [b], [x]));
            UndoAsWritten(u, undo) == (StatusOk, [x, x]) && Undo(u, undo) == (StatusOk, [])
  {
    var u := Updater(Info(None, None, [], None), Counters(0, 0, 0), Plan([], [b], [x]));
    assert [x][..1] == [x] && [x][..0] == [] && [b][..0] == [];
    assert Reverse([x]) == Reverse([x][1..]) + [x];
    assert UndoLoop([x], 0, undo) == (true, []);
    assert UndoLoop([b], 0, undo) == (true, []);
    assert UndoLoop([x], 1, undo) == (true, [x]);
    assert Reverse<FsOperation>([]) == [];
    assert u.plan.update[..u.sp.update] == [] && u.plan.backup[..u.sp.backup] == [];
    assert Undo(u, undo).1 == [];
    var a := UndoLoop(u.plan.update, u.sp.update + 1, undo);
    assert a == (true, [x]);
    assert a.1 + a.1 == [x, x];
    assert UndoAsWritten(u, undo) == (StatusOk, [x, x]);
  }

  /** Undo reverses execution: after a fully successful execute() from fresh
      counters, undo() (with every undo() succeeding) undoes the update
      operations the log shows executed, last first, and then the backup
      operations, last first; validations are not undone. */
  lemma UndoReversesExecute(u: Updater, d: Delegate, kernel: string, m: ResourceManager,
                            run: FsOperation -> OperationResult, undo: FsOperation -> OperationResult)
    requires Valid(u) && u.sp == Counters(0, 0, 0) && kernel == u.info.platform.GetOr("")
    requires d.init == StatusOk && d.configure(m, u.info.uris).0 == StatusOk
    requires AllPass(u.plan.validate, ValidatePhase, d, run)
    requires AllPass(u.plan.backup, BackupPhase, d, run)
    requires AllPass(u.plan.update, UpdatePhase, d, run)
    requires forall op :: undo(op) == ResultOk
    ensures var r := Execute(u, d, kernel, m, run);
            Undo(r.u, undo) == (StatusOk, Reverse(RunsOf(r.log, UpdatePhase)) + Reverse(RunsOf(r.log, BackupPhase)))
  {
    var r := Execute(u, d, kernel, m, run);
    SuccessfulRuns(u, d, kernel, m, run);
    UndoAllSucceed(r.u, undo);
    assert r.u.plan.update[..r.u.sp.update] == u.plan.update;
    assert r.u.plan.backup[..r.u.sp.backup] == u.plan.backup;
  }

  /** A fully successful execute() from fresh counters leaves every counter
      at its list's end, and its log shows each list run in order. */
  lemma SuccessfulRuns(u: Updater, d: Delegate, kernel: string, m: ResourceManager, run: FsOperation -> OperationResult)
    requires Valid(u) && u.sp == Counters(0, 0, 0) && kernel == u.info.platform.GetOr("")
    requires d.init == StatusOk && d.configure(m, u.info.uris).0 == StatusOk
    requires AllPass(u.plan.validate, ValidatePhase, d, run)
    requires AllPass(u.plan.backup, BackupPhase, d, run)
    requires AllPass(u.plan.update, UpdatePhase, d, run)
    ensures var r := Execute(u, d, kernel, m, run);
            && r.u.plan == u.plan && r.u.sp == Counters(|u.plan.validate|, |u.plan.backup|, |u.plan.update|)
            && RunsOf(r.log, UpdatePhase) == u.plan.update && RunsOf(r.log, BackupPhase) == u.plan.backup
  {
    var p := u.plan;
    assert p.validate[0..] == p.validate && p.backup[0..] == p.backup && p.update[0..] == p.update;
    ExecuteSucceeds(u, d, kernel, m, run);
    SuccessLogRuns(p.validate, p.backup, p.update, UpdatePhase);
    SuccessLogRuns(p.validate, p.backup, p.update, BackupPhase);
    var nothing: seq<FsOperation> := [];
    assert nothing + nothing + p.update == p.update && nothing + p.backup + nothing == p.backup;
  }

  /** When every undo() succeeds, undo() undoes every executed operation. */
  lemma UndoAllSucceed(u: Updater, undo: FsOperation -> OperationResult)
    requires Valid(u) && forall op :: undo(op) == ResultOk
    ensures Undo(u, undo) == (StatusOk, Reverse(u.plan.update[..u.sp.update]) + Reverse(u.plan.backup[..u.sp.backup]))
  {
  }

  /** The log of a fully successful run shows each phase's operations run. */
  lemma SuccessLogRuns(vs: seq<FsOperation>, bs: seq<FsOperation>, us: seq<FsOperation>, phase: Phase)
    ensures var log := [OnInit, OnConfigure] + RunLog(ValidatePhase, vs) + RunLog(BackupPhase, bs)
                       + RunLog(UpdatePhase, us) + [OnExit(StatusOk, None, ResultEnumMax)];
            RunsOf(log, phase) == (if phase == ValidatePhase then vs else []) + (if phase == BackupPhase then bs else [])
                                  + (if phase == UpdatePhase then us else [])
  {
    var head: seq<Call> := [OnInit, OnConfigure];
    var done: seq<Call> := [OnExit(StatusOk, None, ResultEnumMax)];
    assert RunsOf(head, phase) == [] by {
      assert head[1..][1..] == [];
    }
    assert RunsOf(done, phase) == [] by {
      assert done[1..] == [];
    }
    RunsOfRunLog(ValidatePhase, vs, phase);
    RunsOfRunLog(BackupPhase, bs, phase);
    RunsOfRunLog(UpdatePhase, us, phase);
    RunsOfFive(head, RunLog(ValidatePhase, vs), RunLog(BackupPhase, bs), RunLog(UpdatePhase, us), done, phase);
  }

  lemma RunsOfFive(a: seq<Call>, b: seq<Call>, c: seq<Call>, d: seq<Call>, e: seq<Call>, phase: Phase)
    ensures RunsOf(a + b + c + d + e, phase) ==
            RunsOf(a, phase) + RunsOf(b, phase) + RunsOf(c, phase) + RunsOf(d, phase) + RunsOf(e, phase)
  {
    RunsOfAppend(a + b + c + d, e, phase);
    RunsOfAppend(a + b + c, d, phase);
    RunsOfAppend(a + b, c, phase);
    RunsOfAppend(a, b, phase);
  }

  /** The operations a log shows executed in a phase, in order. */
  function RunsOf(log: seq<Call>, phase: Phase): seq<FsOperation> {
    if |log| == 0 then []
    else (if log[0].Run? && log[0].phase == phase then [log[0].op] else []) + RunsOf(log[1..], phase)
  }

  lemma {:induction false} RunsOfAppend(a: seq<Call>, b: seq<Call>, phase: Phase)
    ensures RunsOf(a + b, phase) == RunsOf(a, phase) + RunsOf(b, phase)
    decreases |a|
  {
    if |a| > 0 {
      assert (a + b)[1..] == a[1..] + b;
      RunsOfAppend(a[1..], b, phase);
    } else {
      assert a + b == b;
    }
  }

  /** A phase's passing log shows exactly its operations run, and none of
      another phase. */
  lemma {:induction false} RunsOfRunLog(phase: Phase, ops: seq<FsOperation>, other: Phase)
    ensures RunsOf(RunLog(phase, ops), other) == if phase == other then ops else []
    decreases |ops|
  {
    if |ops| > 0 {
      var log := RunLog(phase, ops);
      RunsOfRunLog(phase, ops[1..], other);
      RunsOfAppend([OnPre(phase, ops[0]), Run(phase, ops[0])], RunLog(phase, ops[1..]), other);
      assert RunsOf([OnPre(phase, ops[0]), Run(phase, ops[0])], other) == if phase == other then [ops[0]] else [];
      if phase == other {
        assert ops == [ops[0]] + ops[1..];
      }
    }
  }
}
