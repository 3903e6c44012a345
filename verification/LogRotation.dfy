/** The size-based rotating log file (internal/logging/logging.go:14-88). The directory is a map: 0 is
    the log itself, i is its i-th backup. A rename of an existing file succeeds, a rename of a missing
    one does nothing; whether a reopening succeeds is an input. */
module LogRotation {

  newtype Byte = b: int | 0 <= b < 0x100

  type Bytes = seq<Byte>

  type Dir = map<nat, Bytes>

  datatype Config = Config(maxBytes: int, maxBackups: int) {
    /** One backup is kept even if none are asked for: the log is always renamed to the first. */
    function Kept(): nat {
      if maxBackups >= 1 then maxBackups else 1
    }
  }

  /** What a rotation makes of the directory before the new log is created. */
  function Rotated(files: Dir, kept: nat): (r: Dir)
    requires kept >= 1
  {
    map i | i in Moved(files, kept) :: if 1 <= i <= kept && i - 1 in files then files[i - 1] else files[i]
  }

  function Moved(files: Dir, kept: nat): set<nat> {
    (set i | i in files && i < kept :: i + 1) + (set i | i in files && i >= kept)
  }

  datatype Log = Log(files: Dir, currentSize: int, isOpen: bool)

  predicate MustRotate(log: Log, cfg: Config, p: Bytes) {
    log.currentSize + |p| > cfg.maxBytes
  }

  function Rotate(log: Log, cfg: Config, reopens: bool): Log {
    var files := Rotated(log.files, cfg.Kept());
    if !reopens then Log(files, log.currentSize, false)
    else Open(files)
  }

  function Open(files: Dir): Log {
    if 0 in files then Log(files, |files[0]|, true) else Log(files[0 := []], 0, true)
  }

  function Append(log: Log, p: Bytes): Log {
    if log.isOpen && 0 in log.files
    then Log(log.files[0 := log.files[0] + p], log.currentSize + |p|, true)
    else log
  }

  function Write(log: Log, cfg: Config, p: Bytes, reopens: bool): Log {
    if !MustRotate(log, cfg, p) then Append(log, p)
    else if reopens then Append(Rotate(log, cfg, true), p)
    else Rotate(log, cfg, false)
  }

  /** The bytes of p that a call reports as written: all or none. */
  function Written(log: Log, cfg: Config, p: Bytes, reopens: bool): Bytes {
    if (if MustRotate(log, cfg, p) then reopens else log.isOpen) then p else []
  }

  ghost predicate Valid(log: Log) {
    log.isOpen ==> 0 in log.files && log.currentSize == |log.files[0]|
  }

  /** File j when the backups above i have been shifted: backup i + 1 has just been vacated, unless it is
      the last one kept. */
  ghost predicate ShiftedAt(start: Dir, files: Dir, kept: nat, i: nat, j: nat)
    requires kept >= 1
  {
    var rotated := Rotated(start, kept);
    && (j in files <==> if j <= i || j > kept then j in start
                        else if j == i + 1 then j == kept && j in start
                        else j in rotated)
    && (j in files ==> files[j] == if j <= i + 1 || j > kept then start[j] else rotated[j])
  }

  ghost predicate ShiftedAbove(start: Dir, files: Dir, kept: nat, i: nat)
    requires kept >= 1
  {
    forall j: nat :: ShiftedAt(start, files, kept, i, j)
  }

  function Renamed(files: Dir, src: nat, dst: nat): Dir {
    if src in files then (files - {src})[dst := files[src]] else files
  }

  lemma RotatedAt(start: Dir, kept: nat, j: nat)
    requires kept >= 1
    ensures var rotated := Rotated(start, kept);
            if 1 <= j <= kept && j - 1 in start then j in rotated && rotated[j] == start[j - 1]
            else (j in rotated <==> j >= kept && j in start) && (j in rotated ==> rotated[j] == start[j])
  {
  }

  lemma ShiftStep(start: Dir, files: Dir, kept: nat, i: nat)
    requires 1 <= i < kept && ShiftedAbove(start, files, kept, i)
    ensures ShiftedAbove(start, Renamed(files, i, i + 1), kept, i - 1)
  {
    var files', i' := Renamed(files, i, i + 1), i - 1;
    forall j: nat ensures ShiftedAt(start, files', kept, i', j) {
      assert ShiftedAt(start, files, kept, i, i) && ShiftedAt(start, files, kept, i, j);
      RotatedAt(start, kept, j);
      hide Rotated;
    }
  }

  lemma ShiftDone(start: Dir, files: Dir, kept: nat)
    requires kept >= 1 && ShiftedAbove(start, files, kept, 0)
    ensures Renamed(files, 0, 1) == Rotated(start, kept)
  {
    forall j: nat
      ensures j in Renamed(files, 0, 1) <==> j in Rotated(start, kept)
      ensures j in Rotated(start, kept) ==> Renamed(files, 0, 1)[j] == Rotated(start, kept)[j]
    {
      assert ShiftedAt(start, files, kept, 0, 0) && ShiftedAt(start, files, kept, 0, j);
      RotatedAt(start, kept, j);
      hide Rotated;
    }
  }

  /** The backups after a rotation stay within the configured number exactly if at least one is asked for:
      the rotated log itself is kept even if none is. */
  lemma BackupsWithinLimitIff(log: Log, cfg: Config)
    requires Valid(log) && log.isOpen && forall i :: i in log.files ==> i <= cfg.Kept()
    ensures (forall i :: i in Rotate(log, cfg, true).files && i > 0 ==> i <= cfg.maxBackups) <==> cfg.maxBackups >= 1
  {
    var files := Rotated(log.files, cfg.Kept());
    RotatedAt(log.files, cfg.Kept(), 1);
    forall i | i in files ensures i <= cfg.Kept() { RotatedAt(log.files, cfg.Kept(), i); }
    assert 1 in Rotate(log, cfg, true).files;
  }

  /** For example, one backup although none is asked for. */
  lemma ZeroBackupsKeepOne()
    ensures Rotate(Log(map[0 := [65]], 1, true), Config(1, 0), true).files == map[0 := [], 1 := [65]]
  {
  }

  /** After a rotation whose reopening failed, a write reopens the log, and is written, exactly if it would
      not have fitted into the log before that rotation; a shorter one is lost. */
  lemma WrittenAfterFailureIff(log: Log, cfg: Config, lost: Bytes, p: Bytes)
    requires MustRotate(log, cfg, lost) && p != []
    ensures Written(Write(log, cfg, lost, false), cfg, p, true) == p <==> log.currentSize + |p| > cfg.maxBytes
    ensures Written(Write(log, cfg, lost, false), cfg, p, true) in {p, []}
  {
  }

  class RotatingWriter {
    var files: Dir
    const cfg: Config
    var currentSize: int
    var isOpen: bool

    ghost function View(): Log
      reads this
    {
      Log(files, currentSize, isOpen)
    }

    constructor (files: Dir, cfg: Config)
      ensures View() == Open(files) && this.cfg == cfg
    {
      this.cfg := cfg;
      this.files := if 0 in files then files else files[0 := []];
      currentSize := if 0 in files then |files[0]| else 0;
      isOpen := true;
    }

    method Rename(src: nat, dst: nat)
      requires src != dst
      modifies this`files
      ensures files == Renamed(old(files), src, dst)
    {
      if src in files {
        files := (files - {src})[dst := files[src]];
      }
    }

    method RotateFiles(reopens: bool) returns (ok: bool)
      modifies this
      ensures View() == Rotate(old(View()), cfg, reopens) && ok == reopens
    {
      isOpen := false;
      var i := cfg.maxBackups - 1;
      ghost var start, kept := files, cfg.Kept();
      while i >= 1
        invariant i < kept && (cfg.maxBackups < 1 || i >= 0)
        invariant currentSize == old(currentSize) && !isOpen
        invariant ShiftedAbove(start, files, kept, if i >= 0 then i else 0)
        decreases i
      {
        ShiftStep(start, files, kept, i);
        Rename(i, i + 1);
        i := i - 1;
      }
      ShiftDone(start, files, kept);
      Rename(0, 1);
      if !reopens {
        return false;
      }
      if 0 !in files {
        files := files[0 := []];
      }
      currentSize := |files[0]|;
      isOpen := true;
      return true;
    }

    method WriteBytes(p: Bytes, reopens: bool) returns (n: nat, ok: bool)
      requires Valid(View())
      modifies this
      ensures View() == Write(old(View()), cfg, p, reopens) && Valid(View())
      ensures n <= |p| && p[..n] == Written(old(View()), cfg, p, reopens) && (ok <==> View().isOpen)
    {
      if currentSize + |p| > cfg.maxBytes {
        var rotated := RotateFiles(reopens);
        if !rotated {
          return 0, false;
        }
      }
      if !isOpen {
        return 0, false;  // writing to a closed file
      }
      files := files[0 := files[0] + p];
      currentSize := currentSize + |p|;
      return |p|, true;
    }
  }

}
