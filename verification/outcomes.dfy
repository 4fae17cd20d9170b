/** What a run of the checker ends with. */
module Outcomes {

  /** The five diagnostics the checker prints, one per check. */
  datatype Diagnostic =
    | BadAddress
    | MarkedFree
    | UsedMoreThanOnce
    | RootMissing
    | DirectoryMalformed
  {
    /** The exact line printed before exiting with status 1, ended by a newline. */
    function Message(): (m: string)
      ensures 1 < |m| && m[|m| - 1] == '\n'
    {
      match this
      case BadAddress => "bad address in inode\n"
      case MarkedFree => "address used by inode but marked free in bitmap\n"
      case UsedMoreThanOnce => "address used more than once\n"
      case RootMissing => "root directory does not exist\n"
      case DirectoryMalformed => "directory not properly formatted\n"
    }
  }

  /**
   The end of a run: no violation (exit status 0, nothing printed), the first
   violation found (its message, exit status 1), a NULL inode dereference on a
   directory entry naming inode slot `inum` outside the table, or a directory
   walk that does not end within the depth it was given.
   */
  datatype Verdict = Clean | Failed(diag: Diagnostic) | NullInode(inum: nat) | Diverged

  /** Each diagnostic has its own message, so the output names the check that failed. */
  lemma MessagesIdentifyCheck(d1: Diagnostic, d2: Diagnostic)
    ensures d1.Message() == d2.Message() <==> d1 == d2
  {
  }
}
