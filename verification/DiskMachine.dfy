/**
 * The disk store as the run of system calls it makes (internal/storage/disk_store.go:36-60 and 118-153), with a crash
 * possible between any two of them, and restarts.
 */
module DiskMachine {
  import opened Bytes

  type Data = seq<byte>

  /** `Torn`: opened for writing, and not (yet) completely written. */
  datatype File = Missing | Torn | Whole(data: Data)

  /** The piece files, the temporary bitfield file and the bitfield file. */
  datatype Disk = Disk(pieces: seq<File>, tmp: File, bitfield: File)

  /** Where the program is between two system calls. */
  datatype Phase = Down | Idle | Writing(index: nat, data: Data) | Saving | WritingTmp | Renaming

  /** `bits` is the bitfield in memory; `offered` every piece content that was ever given to the store. */
  datatype Machine = Machine(disk: Disk, bits: seq<bool>, phase: Phase, offered: set<(nat, Data)>)

  datatype Step =
    | Start(readable: bool)
    | Open(index: nat, data: Data)
    | OpenFails(index: nat, data: Data)
    | WriteOk | WriteFails
    | OpenTmp | OpenTmpFails
    | TmpOk | TmpFails
    | RenameOk | RenameFails
    | Crash

  function BufOf(bits: seq<bool>): (b: Data)
    ensures |b| == |bits| && forall i :: 0 <= i < |bits| ==> b[i] == if bits[i] then 1 else 0
  {
    seq(|bits|, i requires 0 <= i < |bits| => if bits[i] then 1 else 0)
  }

  /** The bitfield file has a 1 for piece `i`. */
  predicate Marked(f: File, i: nat) {
    f.Whole? && i < |f.data| && f.data[i] == 1
  }

  function BitsOf(n: nat, f: File, readable: bool): (bits: seq<bool>)
    ensures |bits| == n && forall i :: 0 <= i < n ==> bits[i] == (readable && Marked(f, i))
  {
    seq(n, i requires 0 <= i < n => readable && Marked(f, i))
  }

  function Init(n: nat): Machine {
    Machine(Disk(seq(n, _ => Missing), Missing, Missing), [], Down, {})
  }

  ghost predicate Shaped(n: nat, m: Machine) {
    |m.disk.pieces| == n && (!m.phase.Down? ==> |m.bits| == n) && (m.phase.Writing? ==> m.phase.index < n)
  }

  ghost predicate Enabled(n: nat, m: Machine, s: Step) {
    match s
    case Start(_) => m.phase.Down?
    case Open(i, _) => m.phase.Idle? && i < n
    case OpenFails(i, _) => m.phase.Idle? && i < n
    case WriteOk => m.phase.Writing?
    case WriteFails => m.phase.Writing?
    case OpenTmp => m.phase.Saving?
    case OpenTmpFails => m.phase.Saving?
    case TmpOk => m.phase.WritingTmp?
    case TmpFails => m.phase.WritingTmp?
    case RenameOk => m.phase.Renaming?
    case RenameFails => m.phase.Renaming?
    case Crash => !m.phase.Down?
  }

  function WithPieceFile(d: Disk, i: nat, f: File): Disk
    requires i < |d.pieces|
  {
    d.(pieces := d.pieces[i := f])
  }

  /** The state after a step; opening for writing truncates, renaming is atomic, a crash loses the memory. */
  ghost function Next(n: nat, m: Machine, s: Step): (r: Machine)
    requires Shaped(n, m) && Enabled(n, m, s)
    ensures Shaped(n, r)
  {
    match s
    case Start(readable) => m.(bits := BitsOf(n, m.disk.bitfield, readable), phase := Idle)
    case Open(i, d) => m.(disk := WithPieceFile(m.disk, i, Torn), phase := Writing(i, d), offered := m.offered + {(i, d)})
    case OpenFails(i, d) => m.(offered := m.offered + {(i, d)})
    case WriteOk =>
      var i := m.phase.index;
      m.(disk := WithPieceFile(m.disk, i, Whole(m.phase.data)), bits := m.bits[i := true], phase := Saving)
    case WriteFails => m.(phase := Idle)
    case OpenTmp => m.(disk := m.disk.(tmp := Torn), phase := WritingTmp)
    case OpenTmpFails => m.(phase := Idle)
    case TmpOk => m.(disk := m.disk.(tmp := Whole(BufOf(m.bits))), phase := Renaming)
    case TmpFails => m.(phase := Idle)
    case RenameOk => m.(disk := m.disk.(bitfield := m.disk.tmp, tmp := Missing), phase := Idle)
    case RenameFails => m.(phase := Idle)
    case Crash => m.(bits := [], phase := Down)
  }

  /** Runs as logs of steps; a step that is not enabled changes nothing. */
  ghost function Exec(n: nat, log: seq<Step>): (m: Machine)
    ensures Shaped(n, m)
  {
    if log == [] then Init(n)
    else
      var m, s := Exec(n, log[..|log| - 1]), log[|log| - 1];
      if Enabled(n, m, s) then Next(n, m, s) else m
  }

  ghost predicate IsRun(n: nat, log: seq<Step>) {
    log == [] ||
    (IsRun(n, log[..|log| - 1]) && Enabled(n, Exec(n, log[..|log| - 1]), log[|log| - 1]))
  }

  lemma OneStep(n: nat, log: seq<Step>, s: Step)
    requires IsRun(n, log) && Enabled(n, Exec(n, log), s)
    ensures IsRun(n, log + [s]) && Exec(n, log + [s]) == Next(n, Exec(n, log), s)
  {
    hide Next, Enabled;
    assert (log + [s])[..|log|] == log;
  }

  // ----- What must never break -----

  predicate Bit(m: Machine, i: nat) {
    i < |m.bits| && m.bits[i]
  }

  /** File `i` is complete and holds bytes that were given to the store for piece `i`. */
  predicate Good(m: Machine, i: nat) {
    i < |m.disk.pieces| && m.disk.pieces[i].Whole? && (i, m.disk.pieces[i].data) in m.offered
  }

  predicate Persisted(m: Machine, i: nat) {
    Marked(m.disk.bitfield, i)
  }

  ghost predicate Intact(n: nat, m: Machine) {
    !m.disk.bitfield.Torn? && forall i :: 0 <= i < n && Persisted(m, i) ==> Good(m, i)
  }

  /** Intact at every point of the run, so at every point where it may crash. */
  ghost predicate AlwaysIntact(n: nat, log: seq<Step>) {
    Intact(n, Exec(n, log)) && (log != [] ==> AlwaysIntact(n, log[..|log| - 1]))
  }

  /** The caller's part: a piece whose bit is set in memory is not written again. */
  ghost predicate FirstWrites(n: nat, log: seq<Step>) {
    log == [] ||
    var front, s := log[..|log| - 1], log[|log| - 1];
    FirstWrites(n, front) && (s.Open? ==> !Bit(Exec(n, front), s.index))
  }

  /** No write is begun to a piece that the bitfield file marks. */
  ghost predicate NoMarkedOverwrite(n: nat, log: seq<Step>) {
    log == [] ||
    var front, s := log[..|log| - 1], log[|log| - 1];
    NoMarkedOverwrite(n, front) && (s.Open? ==> !Persisted(Exec(n, front), s.index))
  }

  /** Every start that finds a bitfield file also manages to read it. */
  ghost predicate LoadsSucceed(n: nat, log: seq<Step>) {
    log == [] ||
    var front, s := log[..|log| - 1], log[|log| - 1];
    LoadsSucceed(n, front) && (s.Start? ==> s.readable || Exec(n, front).disk.bitfield.Missing?)
  }

  /** The bits in memory name good files that are not being written, and a new bitfield file says what they say. */
  ghost predicate MemoryGood(n: nat, m: Machine) {
    && (forall i :: 0 <= i < n && Bit(m, i) ==> Good(m, i) && !(m.phase.Writing? && m.phase.index == i))
    && (m.phase.Renaming? ==> m.disk.tmp == Whole(BufOf(m.bits)))
    && (m.phase.Writing? ==> (m.phase.index, m.phase.data) in m.offered)
  }

  lemma StepKeepsIntact(n: nat, m: Machine, s: Step)
    requires Shaped(n, m) && Enabled(n, m, s) && Intact(n, m) && MemoryGood(n, m)
    requires s.Open? ==> !Bit(m, s.index) && !Persisted(m, s.index)
    ensures Intact(n, Next(n, m, s)) && MemoryGood(n, Next(n, m, s))
  {
    var r := Next(n, m, s);
    forall i | 0 <= i < n
      ensures Bit(r, i) ==> Good(r, i) && !(r.phase.Writing? && r.phase.index == i)
      ensures Persisted(r, i) ==> Good(r, i)
    {
      StepKeepsGood(n, m, s, i);
    }
  }

  lemma StepKeepsGood(n: nat, m: Machine, s: Step, i: nat)
    requires Shaped(n, m) && Enabled(n, m, s) && i < n
    requires Bit(m, i) ==> Good(m, i) && !(m.phase.Writing? && m.phase.index == i)
    requires Persisted(m, i) ==> Good(m, i)
    requires m.phase.Renaming? ==> m.disk.tmp == Whole(BufOf(m.bits))
    requires m.phase.Writing? ==> (m.phase.index, m.phase.data) in m.offered
    requires s.Open? ==> !Bit(m, s.index) && !Persisted(m, s.index)
    ensures var r := Next(n, m, s);
            && (Bit(r, i) ==> Good(r, i) && !(r.phase.Writing? && r.phase.index == i))
            && (Persisted(r, i) ==> Good(r, i))
  {
    if s.RenameOk? {
      assert BufOf(m.bits)[i] == 1 <==> m.bits[i];
    }
  }

  lemma {:induction false} CleanRunIntact(n: nat, log: seq<Step>)
    requires IsRun(n, log) && FirstWrites(n, log) && NoMarkedOverwrite(n, log)
    ensures AlwaysIntact(n, log) && Intact(n, Exec(n, log)) && MemoryGood(n, Exec(n, log))
  {
    hide Intact, MemoryGood, Next, Enabled, Persisted, Bit;
    if log == [] {
      InitIntact(n);
    } else {
      var front, s := log[..|log| - 1], log[|log| - 1];
      CleanRunIntact(n, front);
      StepKeepsIntact(n, Exec(n, front), s);
    }
  }

  lemma InitIntact(n: nat)
    ensures Intact(n, Init(n)) && MemoryGood(n, Init(n))
  {
  }

  /** Beginning to write a marked piece breaks the property on the spot. */
  lemma MarkedOverwriteBreaks(n: nat, m: Machine, s: Step)
    requires Shaped(n, m) && s.Open? && Enabled(n, m, s) && Persisted(m, s.index)
    ensures !Intact(n, Next(n, m, s))
  {
    var r := Next(n, m, s);
    assert Persisted(r, s.index) && !Good(r, s.index);
  }

  lemma {:induction false} IntactRunClean(n: nat, log: seq<Step>)
    requires IsRun(n, log) && AlwaysIntact(n, log)
    ensures NoMarkedOverwrite(n, log)
  {
    hide Intact, Next, Enabled, Persisted;
    if log != [] {
      var front, s := log[..|log| - 1], log[|log| - 1];
      IntactRunClean(n, front);
      if s.Open? && Persisted(Exec(n, front), s.index) {
        MarkedOverwriteBreaks(n, Exec(n, front), s);
      }
    }
  }

  /**
   * Crash consistency, exactly: every marked piece is a complete file of the given bytes at every point of the run, if
   * and only if no write was begun to a piece that the bitfield file marked.
   */
  lemma CrashConsistentIff(n: nat, log: seq<Step>)
    requires IsRun(n, log) && FirstWrites(n, log)
    ensures AlwaysIntact(n, log) <==> NoMarkedOverwrite(n, log)
  {
    if NoMarkedOverwrite(n, log) {
      CleanRunIntact(n, log);
    }
    if AlwaysIntact(n, log) {
      IntactRunClean(n, log);
    }
  }

  // ----- A bitfield file that is read whenever it exists -----

  ghost predicate MemoryComplete(n: nat, m: Machine) {
    && (forall i :: 0 <= i < n && Persisted(m, i) && !m.phase.Down? ==> Bit(m, i))
    && (m.phase.Renaming? ==> m.disk.tmp == Whole(BufOf(m.bits)))
  }

  lemma StepKeepsComplete(n: nat, m: Machine, s: Step)
    requires Shaped(n, m) && Enabled(n, m, s) && MemoryComplete(n, m)
    requires s.Start? ==> s.readable || m.disk.bitfield.Missing?
    ensures MemoryComplete(n, Next(n, m, s))
  {
    var r := Next(n, m, s);
    forall i | 0 <= i < n && Persisted(r, i) && !r.phase.Down? ensures Bit(r, i) {
      if s.Start? {
        assert Bit(r, i) <==> s.readable && Persisted(m, i);
      } else if s.RenameOk? {
        assert BufOf(m.bits)[i] == 1 <==> m.bits[i];
      } else {
        assert Persisted(m, i);
      }
    }
  }

  lemma {:induction false} LoadedRunComplete(n: nat, log: seq<Step>)
    requires IsRun(n, log) && LoadsSucceed(n, log)
    ensures MemoryComplete(n, Exec(n, log))
  {
    hide MemoryComplete, Next, Enabled;
    if log == [] {
      NothingPersisted(n);
    } else {
      var front, s := log[..|log| - 1], log[|log| - 1];
      LoadedRunComplete(n, front);
      StepKeepsComplete(n, Exec(n, front), s);
    }
  }

  lemma NothingPersisted(n: nat)
    ensures MemoryComplete(n, Init(n))
  {
  }

  lemma {:induction false} LoadedRunClean(n: nat, log: seq<Step>)
    requires IsRun(n, log) && FirstWrites(n, log) && LoadsSucceed(n, log)
    ensures NoMarkedOverwrite(n, log)
  {
    hide Next;
    if log != [] {
      var front := log[..|log| - 1];
      LoadedRunClean(n, front);
      LoadedRunComplete(n, front);
    }
  }

  /** So as long as every start reads the bitfield file it finds, no crash anywhere can leave a marked piece incomplete. */
  lemma CrashConsistent(n: nat, log: seq<Step>)
    requires IsRun(n, log) && FirstWrites(n, log) && LoadsSucceed(n, log)
    ensures AlwaysIntact(n, log)
  {
    LoadedRunClean(n, log);
    CrashConsistentIff(n, log);
  }

  /** Whatever a start loads from an intact disk names complete files of given bytes. */
  lemma ResumeSound(n: nat, log: seq<Step>, readable: bool, i: nat)
    requires IsRun(n, log) && Exec(n, log).phase.Down? && AlwaysIntact(n, log) && i < n
    ensures var m := Next(n, Exec(n, log), Start(readable));
            (Bit(m, i) ==> Good(m, i)) && (Bit(m, i) <==> readable && Persisted(Exec(n, log), i))
  {
    hide Exec, IsRun;
    var d := Exec(n, log);
    assert Intact(n, d) && (Persisted(d, i) ==> Good(d, i));
    assert BitsOf(n, d.disk.bitfield, readable)[i] == (readable && Persisted(d, i));
  }

  lemma {:induction false} RunPrefix(n: nat, log: seq<Step>, k: nat)
    requires IsRun(n, log) && k <= |log|
    ensures IsRun(n, log[..k])
    ensures FirstWrites(n, log) ==> FirstWrites(n, log[..k])
    ensures AlwaysIntact(n, log) ==> AlwaysIntact(n, log[..k])
    decreases |log|
  {
    hide Exec, Enabled, Intact, Bit;
    if k == |log| {
      assert log[..k] == log;
    } else {
      var front := log[..|log| - 1];
      RunPrefix(n, front, k);
      assert front[..k] == log[..k];
    }
  }

  /**
   * Whatever a process was about to do, it may crash after any of its steps; the next one finds the files of that
   * moment, and they are intact if the run was.
   */
  lemma CrashAnywhere(n: nat, log: seq<Step>, k: nat)
    requires IsRun(n, log) && k <= |log| && !Exec(n, log[..k]).phase.Down?
    ensures var cut := log[..k] + [Crash];
            && IsRun(n, cut) && Exec(n, cut).phase.Down? && Exec(n, cut).disk == Exec(n, log[..k]).disk
            && (FirstWrites(n, log) ==> FirstWrites(n, cut))
            && (AlwaysIntact(n, log) ==> AlwaysIntact(n, cut))
  {
    hide IsRun, Exec;
    RunPrefix(n, log, k);
    OneStep(n, log[..k], Crash);
    assert (log[..k] + [Crash])[..k] == log[..k];
    CrashKeepsIntact(n, Exec(n, log[..k]));
  }

  lemma CrashKeepsIntact(n: nat, m: Machine)
    requires Shaped(n, m) && !m.phase.Down?
    ensures Intact(n, m) ==> Intact(n, Next(n, m, Crash))
  {
    if Intact(n, m) {
      forall i | 0 <= i < n && Persisted(m, i) ensures Good(Next(n, m, Crash), i) {
        assert Good(m, i);
      }
    }
  }

  // ----- An unreadable bitfield file -----

  /** One piece, saved and marked; then a start that cannot read the bitfield file, a second download, a crash in it. */
  function UnreadableRun(): (log: seq<Step>)
    ensures |log| == 10
  {
    [Start(true), Open(0, [7]), WriteOk, OpenTmp, TmpOk, RenameOk, Crash, Start(false), Open(0, [7]), Crash]
  }

  lemma RunBy(log: seq<Step>, m: Machine, s: Step)
    requires IsRun(1, log) && FirstWrites(1, log) && Exec(1, log) == m && Enabled(1, m, s)
    requires s.Open? ==> !Bit(m, s.index)
    ensures IsRun(1, log + [s]) && FirstWrites(1, log + [s]) && Exec(1, log + [s]) == Next(1, m, s)
  {
    hide Next, Enabled, Bit;
    OneStep(1, log, s);
    assert (log + [s])[..|log|] == log;
  }

  /** The state after the first `k` steps. */
  function UnreadableState(k: nat): Machine {
    var d := Whole([7]);
    var given := {(0, [7])};
    if k == 0 then Machine(Disk([Missing], Missing, Missing), [], Down, {})
    else if k == 1 then Machine(Disk([Missing], Missing, Missing), [false], Idle, {})
    else if k == 2 then Machine(Disk([Torn], Missing, Missing), [false], Writing(0, [7]), given)
    else if k == 3 then Machine(Disk([d], Missing, Missing), [true], Saving, given)
    else if k == 4 then Machine(Disk([d], Torn, Missing), [true], WritingTmp, given)
    else if k == 5 then Machine(Disk([d], Whole([1]), Missing), [true], Renaming, given)
    else if k == 6 then Machine(Disk([d], Missing, Whole([1])), [true], Idle, given)
    else if k == 7 then Machine(Disk([d], Missing, Whole([1])), [], Down, given)
    else if k == 8 then Machine(Disk([d], Missing, Whole([1])), [false], Idle, given)
    else if k == 9 then Machine(Disk([Torn], Missing, Whole([1])), [false], Writing(0, [7]), given)
    else Machine(Disk([Torn], Missing, Whole([1])), [], Down, given)
  }

  lemma UnreadableStep(k: nat)
    requires k < 10
    ensures var m, s := UnreadableState(k), UnreadableRun()[k];
            && Shaped(1, m) && Enabled(1, m, s) && Next(1, m, s) == UnreadableState(k + 1)
            && (s.Open? ==> !Bit(m, s.index))
  {
    var r := Next(1, UnreadableState(k), UnreadableRun()[k]);
    assert r.disk.pieces == UnreadableState(k + 1).disk.pieces;
    assert r.bits == UnreadableState(k + 1).bits;
    assert k == 4 ==> BufOf([true]) == [1];
  }

  lemma {:induction false} UnreadableUpTo(k: nat)
    requires k <= 10
    ensures var log := UnreadableRun()[..k];
            IsRun(1, log) && FirstWrites(1, log) && Exec(1, log) == UnreadableState(k)
  {
    hide UnreadableRun, UnreadableState, Next, Enabled, Bit;
    if k == 0 {
      FromInit();
    } else {
      UnreadableUpTo(k - 1);
      UnreadableStep(k - 1);
      RunBy(UnreadableRun()[..k - 1], UnreadableState(k - 1), UnreadableRun()[k - 1]);
      assert UnreadableRun()[..k] == UnreadableRun()[..k - 1] + [UnreadableRun()[k - 1]];
    }
  }

  lemma FromInit()
    ensures Init(1) == UnreadableState(0)
  {
  }

  /** The piece file is torn while the bitfield file marks it, and the next start takes it for present. */
  lemma UnreadableBitfieldBreaks()
    ensures var log := UnreadableRun();
            && IsRun(1, log) && FirstWrites(1, log) && !AlwaysIntact(1, log)
            && Exec(1, log).phase.Down? && Bit(Next(1, Exec(1, log), Start(true)), 0)
            && Exec(1, log).disk.pieces[0].Torn?
  {
    hide IsRun, FirstWrites, Exec;
    UnreadableUpTo(10);
    assert UnreadableRun()[..10] == UnreadableRun();
    var m := UnreadableState(10);
    assert Persisted(m, 0) && !Good(m, 0);
  }
}
