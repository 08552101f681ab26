/** File system operations (fsoperation.cpp). In this revision every
    execute/undo/invert only resolves the full paths of the resources it would
    touch and returns RESULT_OK; the file system calls are commented out. An
    operation's effect is therefore the list of paths it resolves.
    QDir(root).filePath(path) is a parameter `join`; its root argument is the
    manager's path for the resource's root key, or None for a null QString. */
module FsOperations {
  import opened Common
  import opened Resources

  /** OperationResult, with its size sentinel. */
  datatype OperationResult = ResultOk | ResultBadResource | ResultBadDestination | ResultBadPermissions | ResultEnumMax

  datatype FsOperation =
    | RemoveOp(resource: Resource)
    | CopyOp(from: Resource, to: Resource)
    | ExpectOp(resource: Resource)

  /** What a call reports: its result and the full paths it resolved, in order. */
  datatype Effect = Effect(result: OperationResult, paths: seq<string>)

  /** The full path of a resource: the manager's root for its key, joined with its path. */
  function Resolve(r: Resource, m: ResourceManager, join: (Option<string>, string) -> string): string {
    join(GetResourcePath(m, r.root), r.path)
  }

  /** execute(): Remove and Expect resolve their resource, Copy resolves
      source then destination. */
  function Execute(op: FsOperation, m: ResourceManager, join: (Option<string>, string) -> string): (e: Effect)
    ensures e.result == ResultOk
    ensures op.CopyOp? ==> e.paths == [Resolve(op.from, m, join), Resolve(op.to, m, join)]
    ensures !op.CopyOp? ==> e.paths == [Resolve(op.resource, m, join)]
  {
    match op
    case RemoveOp(r) => Effect(ResultOk, [Resolve(r, m, join)])
    case CopyOp(from, to) => Effect(ResultOk, [Resolve(from, m, join), Resolve(to, m, join)])
    case ExpectOp(r) => Effect(ResultOk, [Resolve(r, m, join)])
  }

  /** undo(): a Remove resolves its resource (the restore is a TODO), a Copy
      resolves only its destination (the copy to delete), an Expect does nothing. */
  function Undo(op: FsOperation, m: ResourceManager, join: (Option<string>, string) -> string): (e: Effect)
    ensures e.result == ResultOk
    ensures op.CopyOp? ==> e.paths == [Resolve(op.to, m, join)]
    ensures op.RemoveOp? ==> e.paths == [Resolve(op.resource, m, join)]
    ensures op.ExpectOp? ==> e.paths == []
  {
    match op
    case RemoveOp(r) => Effect(ResultOk, [Resolve(r, m, join)])
    case CopyOp(_, to) => Effect(ResultOk, [Resolve(to, m, join)])
    case ExpectOp(_) => Effect(ResultOk, [])
  }

  /** The operation a Copy's invert() performs: the copy back, destination
      to source. Remove and Expect have no inverse action. */
  function Inverse(op: FsOperation): (r: FsOperation)
    ensures op.CopyOp? ==> r.CopyOp? && r.from == op.to && r.to == op.from
    ensures !op.CopyOp? ==> r == op
  {
    match op
    case CopyOp(from, to) => CopyOp(to, from)
    case _ => op
  }

  /** invert(): a Copy resolves the paths of its inverse copy; Remove and
      Expect return RESULT_OK without resolving anything. */
  function Invert(op: FsOperation, m: ResourceManager, join: (Option<string>, string) -> string): (e: Effect)
    ensures e.result == ResultOk
    ensures !op.CopyOp? ==> e.paths == []
  {
    match op
    case CopyOp(_, _) => Execute(Inverse(op), m, join)
    case _ => Effect(ResultOk, [])
  }

  /** Inverting a copy resolves its destination first and its source second. */
  lemma InvertSwaps(from: Resource, to: Resource, m: ResourceManager, join: (Option<string>, string) -> string)
    ensures Invert(CopyOp(from, to), m, join).paths == [Resolve(to, m, join), Resolve(from, m, join)]
    ensures Invert(CopyOp(from, to), m, join).paths == Execute(CopyOp(to, from), m, join).paths
  {
  }

  /** The inverse of the inverse is the operation itself. */
  lemma InverseInvolution(op: FsOperation)
    ensures Inverse(Inverse(op)) == op
  {
  }

  /** undo() of a copy removes what execute() wrote: the destination
      execute() resolved last. */
  lemma UndoCopyRemovesDestination(op: FsOperation, m: ResourceManager, join: (Option<string>, string) -> string)
    requires op.CopyOp?
    ensures Undo(op, m, join).paths == Execute(op, m, join).paths[1..]
  {
  }

  /** label(): built from the resources' paths relative to their roots. */
  function Label(op: FsOperation): (s: string)
    ensures op.RemoveOp? ==> s == "Remove " + op.resource.path
    ensures op.ExpectOp? ==> s == "Validate " + op.resource.path
    ensures op.CopyOp? ==> s == "Copy " + op.from.path + " to " + op.to.path
  {
    match op
    case RemoveOp(r) => "Remove " + r.path
    case CopyOp(from, to) => "Copy " + from.path + " to " + to.path
    case ExpectOp(r) => "Validate " + r.path
  }

  /** The label names the operation kind up front and the path after it. */
  lemma LabelPrefix(op: FsOperation)
    ensures op.RemoveOp? ==> Label(op)[..7] == "Remove " && Label(op)[7..] == op.resource.path
    ensures op.ExpectOp? ==> Label(op)[..9] == "Validate " && Label(op)[9..] == op.resource.path
    ensures op.CopyOp? ==> Label(op)[..5] == "Copy " && Label(op)[5..5 + |op.from.path|] == op.from.path
  {
  }
}
