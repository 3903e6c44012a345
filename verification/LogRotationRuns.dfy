/** What the rotating log keeps over any run of writes and restarts. */
module LogRotationRuns {
  import opened LogRotation

  datatype Op = Put(p: Bytes, reopens: bool) | Restart

  function Step(log: Log, cfg: Config, op: Op): Log {
    match op
    case Put(p, reopens) => Write(log, cfg, p, reopens)
    case Restart => Open(log.files)
  }

  function Run(log: Log, cfg: Config, ops: seq<Op>): Log {
    if ops == [] then log else Step(Run(log, cfg, ops[..|ops| - 1]), cfg, ops[|ops| - 1])
  }

  /** All bytes that the calls of the run reported as written. */
  function Stream(log: Log, cfg: Config, ops: seq<Op>): Bytes {
    if ops == [] then []
    else
      var op := ops[|ops| - 1];
      Stream(log, cfg, ops[..|ops| - 1]) +
      if op.Put? then Written(Run(log, cfg, ops[..|ops| - 1]), cfg, op.p, op.reopens) else []
  }

  /** The backups from the k-th, the oldest, to the first, and then the log itself. */
  function Chronicle(files: Dir, k: nat): Bytes {
    (if k in files then files[k] else []) + if k == 0 then [] else Chronicle(files, k - 1)
  }

  ghost predicate IsSuffix(a: Bytes, b: Bytes) {
    exists front: Bytes :: front + a == b
  }

  lemma {:induction false} ShiftedChronicle(files: Dir, kept: nat, k: nat)
    requires 1 <= k <= kept && (k < kept || k - 1 in files)
    ensures Chronicle(Rotated(files, kept), k) == Chronicle(files, k - 1)
  {
    if k > 1 { ShiftedChronicle(files, kept, k - 1); }
  }

  lemma RotationKeepsSuffix(files: Dir, kept: nat)
    requires kept >= 1
    ensures IsSuffix(Chronicle(Rotated(files, kept), kept), Chronicle(files, kept))
  {
    if kept - 1 in files {
      ShiftedChronicle(files, kept, kept);
      assert (if kept in files then files[kept] else []) + Chronicle(files, kept - 1) == Chronicle(files, kept);
    } else {
      if kept > 1 {
        ShiftedChronicle(files, kept, kept - 1);
        assert [] + Chronicle(files, kept - 2) == Chronicle(files, kept - 1);
      }
      assert Chronicle(Rotated(files, kept), kept) == Chronicle(files, kept);
      assert [] + Chronicle(files, kept) == Chronicle(files, kept);
    }
  }

  /** Only the log itself decides how a chronicle ends. */
  lemma {:induction false} ChronicleEnds(files: Dir, files': Dir, k: nat, more: Bytes)
    requires files' - {0} == files - {0} && 0 in files'
    requires files'[0] == (if 0 in files then files[0] else []) + more
    ensures Chronicle(files', k) == Chronicle(files, k) + more
  {
    if k > 0 {
      ChronicleEnds(files, files', k - 1, more);
      assert k in files' <==> k in files' - {0};
      assert k in files <==> k in files - {0};
      assert k in files ==> files'[k] == (files' - {0})[k] == (files - {0})[k];
    }
  }

  lemma SuffixFrom(front: Bytes, a: Bytes, b: Bytes)
    requires front + a == b
    ensures IsSuffix(a, b)
  {
  }

  /** Opening the log, creating it if need be, does not change the chronicle. */
  lemma OpenChronicle(files: Dir, k: nat)
    ensures Valid(Open(files)) && Chronicle(Open(files).files, k) == Chronicle(files, k)
  {
    if 0 !in files {
      ChronicleEnds(files, Open(files).files, k, []);
      assert Chronicle(files, k) + [] == Chronicle(files, k);
    }
  }

  /** Appending to an open log appends to the chronicle; a closed one takes nothing. */
  lemma AppendChronicle(log: Log, p: Bytes, k: nat)
    requires Valid(log)
    ensures Valid(Append(log, p))
    ensures Chronicle(Append(log, p).files, k) == Chronicle(log.files, k) + if log.isOpen then p else []
  {
    if log.isOpen {
      ChronicleEnds(log.files, Append(log, p).files, k, p);
    } else {
      assert Chronicle(log.files, k) + [] == Chronicle(log.files, k);
    }
  }

  lemma StepChronicle(log: Log, cfg: Config, op: Op)
    requires Valid(log)
    ensures Valid(Step(log, cfg, op))
    ensures IsSuffix(Chronicle(Step(log, cfg, op).files, cfg.Kept()),
                     Chronicle(log.files, cfg.Kept()) + if op.Put? then Written(log, cfg, op.p, op.reopens) else [])
  {
    hide Chronicle, Rotated, IsSuffix;
    var k, before := cfg.Kept(), Chronicle(log.files, cfg.Kept());
    var after := Chronicle(Step(log, cfg, op).files, k);
    if op.Restart? {
      OpenChronicle(log.files, k);
      SuffixFrom([], after, before + []);
    } else if !MustRotate(log, cfg, op.p) {
      AppendChronicle(log, op.p, k);
      SuffixFrom([], after, before + if log.isOpen then op.p else []);
    } else {
      RotationKeepsSuffix(log.files, k);
      var reopened := Open(Rotated(log.files, k));
      OpenChronicle(Rotated(log.files, k), k);
      if op.reopens {
        AppendChronicle(reopened, op.p, k);
        SuffixGrows(Chronicle(reopened.files, k), before, op.p);
      } else {
        SuffixGrows(after, before, []);
        assert after + [] == after;
      }
    }
  }

  lemma SuffixGrows(a: Bytes, b: Bytes, more: Bytes)
    requires IsSuffix(a, b)
    ensures IsSuffix(a + more, b + more)
  {
    var front: Bytes :| front + a == b;
    assert front + (a + more) == b + more;
  }

  /** At every moment the backups, oldest first, and then the log are a suffix of everything that was
      in them before the run and was written since: rotation drops the oldest bytes only and never
      reorders, duplicates or loses newer ones, even when reopening the log fails. */
  lemma {:induction false} AlwaysSuffixOfStream(log: Log, cfg: Config, ops: seq<Op>)
    requires Valid(log)
    ensures Valid(Run(log, cfg, ops))
    ensures IsSuffix(Chronicle(Run(log, cfg, ops).files, cfg.Kept()),
                     Chronicle(log.files, cfg.Kept()) + Stream(log, cfg, ops))
    decreases |ops|
  {
    hide Chronicle, Written, Step, IsSuffix, Valid;
    var k := cfg.Kept();
    if ops == [] {
      SuffixFrom([], Chronicle(log.files, k), Chronicle(log.files, k) + []);
    } else {
      var prefix, op := ops[..|ops| - 1], ops[|ops| - 1];
      AlwaysSuffixOfStream(log, cfg, prefix);
      var mid := Run(log, cfg, prefix);
      StepChronicle(mid, cfg, op);
      var new' := if op.Put? then Written(mid, cfg, op.p, op.reopens) else [];
      SuffixExtends(Chronicle(Run(log, cfg, ops).files, k), Chronicle(mid.files, k), new',
                    Chronicle(log.files, k) + Stream(log, cfg, prefix));
      assert Chronicle(log.files, k) + Stream(log, cfg, prefix) + new' == Chronicle(log.files, k) + Stream(log, cfg, ops);
    }
  }

  lemma SuffixExtends(a: Bytes, b: Bytes, more: Bytes, whole: Bytes)
    requires IsSuffix(a, b + more) && IsSuffix(b, whole)
    ensures IsSuffix(a, whole + more)
  {
    var f: Bytes :| f + a == b + more;
    var g: Bytes :| g + b == whole;
    assert (g + f) + a == g + (f + a) == g + (b + more) == whole + more;
  }

  // ----- generations

  /** The log's contents from one rotation to the next, when every reopening succeeds. */
  function Generations(cfg: Config, ops: seq<Op>): (g: seq<Bytes>)
    ensures g != []
  {
    if ops == [] then [[]]
    else
      var g, op := Generations(cfg, ops[..|ops| - 1]), ops[|ops| - 1];
      var last := g[|g| - 1];
      if op.Restart? then g
      else if |last| + |op.p| > cfg.maxBytes then g + [op.p]
      else g[..|g| - 1] + [last + op.p]
  }

  ghost predicate AllReopen(ops: seq<Op>) {
    forall op :: op in ops && op.Put? ==> op.reopens
  }

  /** Backup i holds the i-th generation before the current one, if it is kept and there is one. */
  ghost predicate HoldsGenerations(log: Log, kept: nat, g: seq<Bytes>) {
    && g != [] && log.isOpen && log.currentSize == |g[|g| - 1]|
    && (forall i: nat :: i in log.files <==> i <= kept && i < |g|)
    && (forall i: nat :: i in log.files && i < |g| ==> log.files[i] == g[|g| - 1 - i])
  }

  lemma RotatedGenerations(files: Dir, kept: nat, g: seq<Bytes>)
    requires kept >= 1 && g != []
    requires forall i: nat :: i in files <==> i <= kept && i < |g|
    requires forall i: nat :: i in files && i < |g| ==> files[i] == g[|g| - 1 - i]
    ensures var r := Rotated(files, kept);
            && (forall i: nat :: i in r <==> 1 <= i <= kept && i <= |g|)
            && (forall i: nat :: i in r && 1 <= i <= |g| ==> r[i] == g[|g| - i])
  {
    forall i: nat ensures i in Moved(files, kept) <==> 1 <= i <= kept && i <= |g| {
      if i >= 1 { assert i - 1 in files <==> i - 1 <= kept && i - 1 < |g|; }
    }
  }

  lemma StepHoldsGenerations(log: Log, cfg: Config, g: seq<Bytes>, p: Bytes)
    requires HoldsGenerations(log, cfg.Kept(), g)
    ensures HoldsGenerations(Write(log, cfg, p, true), cfg.Kept(),
                             if |g[|g| - 1]| + |p| > cfg.maxBytes then g + [p] else g[..|g| - 1] + [g[|g| - 1] + p])
  {
    hide Rotated;
    assert 0 in log.files;
    if MustRotate(log, cfg, p) {
      RotatedGenerations(log.files, cfg.Kept(), g);
      assert [] + p == p;
    }
  }

  /** After n rotations the kept backups are the last min(n, kept) generations before the current one,
      each under its own number. */
  lemma {:induction false} BackupsAreLastGenerations(cfg: Config, ops: seq<Op>)
    requires AllReopen(ops)
    ensures HoldsGenerations(Run(Open(map[]), cfg, ops), if cfg.maxBackups > 1 then cfg.maxBackups else 1, Generations(cfg, ops))
    decreases |ops|
  {
    hide Write;
    if ops != [] {
      var prefix, op := ops[..|ops| - 1], ops[|ops| - 1];
      assert op in ops && forall o :: o in prefix ==> o in ops;
      BackupsAreLastGenerations(cfg, prefix);
      if op.Put? {
        StepHoldsGenerations(Run(Open(map[]), cfg, prefix), cfg, Generations(cfg, prefix), op.p);
        hide HoldsGenerations, Generations;
      }
    }
  }

  function Flatten(g: seq<Bytes>): Bytes {
    if g == [] then [] else Flatten(g[..|g| - 1]) + g[|g| - 1]
  }

  /** The generations, in order, are the written stream. */
  lemma {:induction false} GenerationsAreStream(cfg: Config, ops: seq<Op>)
    requires AllReopen(ops)
    ensures Flatten(Generations(cfg, ops)) == Stream(Open(map[]), cfg, ops)
    decreases |ops|
  {
    if ops == [] {
      assert Flatten([[]][..0]) == [];
    } else {
      var prefix, op := ops[..|ops| - 1], ops[|ops| - 1];
      assert op in ops && forall o :: o in prefix ==> o in ops;
      GenerationsAreStream(cfg, prefix);
      if op.Put? {
        WholeWriteAccepted(cfg, prefix, op.p);
        FlattenGrows(Generations(cfg, prefix), op.p);
      }
    }
  }

  lemma WholeWriteAccepted(cfg: Config, prefix: seq<Op>, p: Bytes)
    requires AllReopen(prefix)
    ensures Written(Run(Open(map[]), cfg, prefix), cfg, p, true) == p
  {
    BackupsAreLastGenerations(cfg, prefix);
  }

  lemma FlattenGrows(g: seq<Bytes>, p: Bytes)
    requires g != []
    ensures Flatten(g + [p]) == Flatten(g[..|g| - 1] + [g[|g| - 1] + p]) == Flatten(g) + p
  {
    var last := g[|g| - 1];
    assert (g + [p])[..|g|] == g;
    assert (g[..|g| - 1] + [last + p])[..|g| - 1] == g[..|g| - 1];
    assert Flatten(g[..|g| - 1]) + (last + p) == Flatten(g) + p;
  }

  ghost predicate FitsOrSingleWrite(cfg: Config, ops: seq<Op>, piece: Bytes) {
    |piece| <= cfg.maxBytes || piece == [] || exists op :: op in ops && op.Put? && op.p == piece
  }

  /** A generation, and so the log file at any moment, is longer than allowed only if it consists of a
      single write. */
  lemma {:induction false} GenerationsFit(cfg: Config, ops: seq<Op>, piece: Bytes)
    requires piece in Generations(cfg, ops)
    ensures FitsOrSingleWrite(cfg, ops, piece)
    decreases |ops|
  {
    if ops != [] {
      var prefix, op := ops[..|ops| - 1], ops[|ops| - 1];
      assert op in ops && forall o :: o in prefix ==> o in ops;
      if piece in Generations(cfg, prefix) {
        GenerationsFit(cfg, prefix, piece);
      }
    }
  }
}
