/** Where the message store keeps its files under a root directory. Every
    builder appends `File.separator` and fixed names to the root; a null root
    is appended as the text "null". */
module StorePathConfigHelper {
  import opened Wrappers
  import opened Paths

  /** The six files and directories kept directly in the store root. */
  datatype TopLevelFile = ConsumeQueue | ConsumeQueueExt | Index | Checkpoint | Abort | Lock {
    function Name(): (r: string)
      ensures IsLeafName(r)
    {
      match this
      case ConsumeQueue => "consumequeue"
      case ConsumeQueueExt => "consumequeue_ext"
      case Index => "index"
      case Checkpoint => "checkpoint"
      case Abort => "abort"
      case Lock => "lock"
    }
  }

  /** `root + File.separator + name`, shared by the six top-level builders. */
  function TopLevelPath(f: TopLevelFile, rootDir: Option<string>, sep: char): (r: string)
    requires IsSeparator(sep)
    ensures Parent(r, sep) == Some(AppendText(rootDir))
    ensures LastComponent(r, sep) == f.Name()
  {
    FileUnder(AppendText(rootDir), f.Name(), sep)
  }

  /** `getStorePathConsumeQueue`: `root/consumequeue`. */
  function StorePathConsumeQueue(rootDir: Option<string>, sep: char): (r: string)
    requires IsSeparator(sep)
    ensures Parent(r, sep) == Some(AppendText(rootDir))
    ensures LastComponent(r, sep) == "consumequeue"
  {
    TopLevelPath(ConsumeQueue, rootDir, sep)
  }

  /** `getStorePathConsumeQueueExt`: `root/consumequeue_ext`. */
  function StorePathConsumeQueueExt(rootDir: Option<string>, sep: char): (r: string)
    requires IsSeparator(sep)
    ensures Parent(r, sep) == Some(AppendText(rootDir))
    ensures LastComponent(r, sep) == "consumequeue_ext"
  {
    TopLevelPath(ConsumeQueueExt, rootDir, sep)
  }

  /** `getStorePathIndex`: `root/index`. */
  function StorePathIndex(rootDir: Option<string>, sep: char): (r: string)
    requires IsSeparator(sep)
    ensures Parent(r, sep) == Some(AppendText(rootDir))
    ensures LastComponent(r, sep) == "index"
  {
    TopLevelPath(Index, rootDir, sep)
  }

  /** `getStoreCheckpoint`: `root/checkpoint`. */
  function StoreCheckpoint(rootDir: Option<string>, sep: char): (r: string)
    requires IsSeparator(sep)
    ensures Parent(r, sep) == Some(AppendText(rootDir))
    ensures LastComponent(r, sep) == "checkpoint"
  {
    TopLevelPath(Checkpoint, rootDir, sep)
  }

  /** `getAbortFile`: `root/abort`. */
  function AbortFile(rootDir: Option<string>, sep: char): (r: string)
    requires IsSeparator(sep)
    ensures Parent(r, sep) == Some(AppendText(rootDir))
    ensures LastComponent(r, sep) == "abort"
  {
    TopLevelPath(Abort, rootDir, sep)
  }

  /** `getLockFile`: `root/lock`. */
  function LockFile(rootDir: Option<string>, sep: char): (r: string)
    requires IsSeparator(sep)
    ensures Parent(r, sep) == Some(AppendText(rootDir))
    ensures LastComponent(r, sep) == "lock"
  {
    TopLevelPath(Lock, rootDir, sep)
  }

  /** `getDelayOffsetStorePath`: `root/config/delayOffset.json`. */
  function DelayOffsetStorePath(rootDir: Option<string>, sep: char): (r: string)
    requires IsSeparator(sep)
    ensures TwoLevelsUnder(r, AppendText(rootDir), "config", "delayOffset.json", sep)
  {
    NestedPath("config", "delayOffset.json", rootDir, sep)
  }

  /** `getTranStateTableStorePath`: `root/transaction/statetable`. */
  function TranStateTableStorePath(rootDir: Option<string>, sep: char): (r: string)
    requires IsSeparator(sep)
    ensures TwoLevelsUnder(r, AppendText(rootDir), "transaction", "statetable", sep)
  {
    NestedPath("transaction", "statetable", rootDir, sep)
  }

  /** `getTranRedoLogStorePath`: `root/transaction/redolog`. */
  function TranRedoLogStorePath(rootDir: Option<string>, sep: char): (r: string)
    requires IsSeparator(sep)
    ensures TwoLevelsUnder(r, AppendText(rootDir), "transaction", "redolog", sep)
  {
    NestedPath("transaction", "redolog", rootDir, sep)
  }

  /** For one root the six top-level paths are pairwise different. */
  lemma TopLevelPathsDistinct(f1: TopLevelFile, f2: TopLevelFile, rootDir: Option<string>, sep: char)
    requires IsSeparator(sep)
    ensures TopLevelPath(f1, rootDir, sep) == TopLevelPath(f2, rootDir, sep) <==> f1 == f2
  {
    assert f1 != f2 ==> f1.Name() != f2.Name();
  }

  /** Two roots give the same top-level path exactly when they are appended
      as the same text: stripping the fixed suffix recovers the root. */
  lemma TopLevelPathInjective(f: TopLevelFile, r1: Option<string>, r2: Option<string>, sep: char)
    requires IsSeparator(sep)
    ensures TopLevelPath(f, r1, sep) == TopLevelPath(f, r2, sep) <==> AppendText(r1) == AppendText(r2)
  {
    if AppendText(r1) == AppendText(r2) {
      assert TopLevelPath(f, r1, sep) == FileUnder(AppendText(r2), f.Name(), sep);
    }
  }

  /** The state table and the redo log share the directory `root/transaction`
      and differ in their last component only. */
  lemma TransactionPathsShareParent(rootDir: Option<string>, sep: char)
    requires IsSeparator(sep)
    ensures Parent(TranStateTableStorePath(rootDir, sep), sep) == Parent(TranRedoLogStorePath(rootDir, sep), sep)
    ensures LastComponent(TranStateTableStorePath(rootDir, sep), sep) != LastComponent(TranRedoLogStorePath(rootDir, sep), sep)
  {
  }
}
