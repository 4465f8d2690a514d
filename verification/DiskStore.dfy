/** internal/storage/disk_store.go: the store as an object; every system call it makes is logged. */
module DiskStores {
  import opened Bytes
  import opened DiskMachine

  /** Which system call of `WritePiece` fails first, if any. */
  datatype Fault = AtOpen | AtWrite | AtTmpOpen | AtTmpWrite | AtRename | NoFault

  function SaveSteps(f: Fault): seq<Step> {
    match f
    case AtTmpOpen => [OpenTmpFails]
    case AtTmpWrite => [OpenTmp, TmpFails]
    case AtRename => [OpenTmp, TmpOk, RenameFails]
    case _ => [OpenTmp, TmpOk, RenameOk]
  }

  function WriteSteps(i: nat, data: Data, f: Fault): seq<Step> {
    match f
    case AtOpen => [OpenFails(i, data)]
    case AtWrite => [Open(i, data), WriteFails]
    case _ => [Open(i, data), WriteOk] + SaveSteps(f)
  }

  /** The piece file was written, whatever became of the bitfield file. */
  predicate Stored(f: Fault) {
    !f.AtOpen? && !f.AtWrite?
  }

  /** The files after saving the bitfield, as far as it gets. */
  function SavedDisk(d: Disk, bits: seq<bool>, f: Fault): Disk {
    match f
    case AtTmpOpen => d
    case AtTmpWrite => d.(tmp := Torn)
    case AtRename => d.(tmp := Whole(BufOf(bits)))
    case _ => d.(bitfield := Whole(BufOf(bits)), tmp := Missing)
  }

  lemma SaveRun(n: nat, log: seq<Step>, f: Fault)
    requires IsRun(n, log) && Exec(n, log).phase.Saving?
    ensures IsRun(n, log + SaveSteps(f))
    ensures var m := Exec(n, log);
            Exec(n, log + SaveSteps(f)) == m.(disk := SavedDisk(m.disk, m.bits, f), phase := Idle)
  {
    hide IsRun, Exec;
    if f.AtTmpOpen? {
      OneStep(n, log, OpenTmpFails);
    } else {
      OneStep(n, log, OpenTmp);
      var l1 := log + [OpenTmp];
      if f.AtTmpWrite? {
        OneStep(n, l1, TmpFails);
        assert log + SaveSteps(f) == l1 + [TmpFails];
      } else {
        OneStep(n, l1, TmpOk);
        var last := if f.AtRename? then RenameFails else RenameOk;
        OneStep(n, l1 + [TmpOk], last);
        assert log + SaveSteps(f) == l1 + [TmpOk] + [last];
      }
    }
  }

  /** A complete file with one byte for each piece: 1 if its bit is set, and 0 if not. */
  predicate SavedAs(f: File, bits: seq<bool>) {
    f.Whole? && |f.data| == |bits| && forall i :: 0 <= i < |bits| ==> f.data[i] == if bits[i] then 1 else 0
  }

  /** A bit is set exactly where a readable file has the byte 1. */
  predicate LoadedFrom(f: File, readable: bool, bits: seq<bool>) {
    forall i :: 0 <= i < |bits| ==> (bits[i] <==> readable && f.Whole? && i < |f.data| && f.data[i] == 1)
  }

  class DiskStore {
    const numPieces: nat
    var bitfield: seq<bool>
    var disk: Disk
    /** All steps since the directory was created, in this process and earlier ones. */
    ghost var log: seq<Step>

    /** The object is what its log says, between two operations. */
    ghost predicate Valid()
      reads this
    {
      IsRun(numPieces, log) && Mirrors(Idle)
    }

    ghost predicate Mirrors(phase: Phase)
      reads this
    {
      var m := Exec(numPieces, log);
      m.disk == disk && m.bits == bitfield && m.phase == phase
    }

    /** `NewDiskStore` on what earlier processes left behind. */
    constructor (numPieces: nat, disk: Disk, ghost history: seq<Step>, readable: bool)
      requires IsRun(numPieces, history)
      requires Exec(numPieces, history).phase.Down? && Exec(numPieces, history).disk == disk
      ensures Valid() && this.numPieces == numPieces && this.disk == disk && log == history + [Start(readable)]
      ensures bitfield == BitsOf(numPieces, disk.bitfield, readable) && LoadedFrom(disk.bitfield, readable, bitfield)
    {
      this.numPieces := numPieces;
      this.disk := disk;
      bitfield := seq(numPieces, _ => false);
      log := history + [Start(readable)];
      new;
      LoadBitfield(readable);
      OneStep(numPieces, history, Start(readable));
    }

    /** A failed read, or a missing file, leaves all pieces unmarked. */
    method LoadBitfield(readable: bool)
      requires bitfield == seq(numPieces, _ => false)
      modifies `bitfield
      ensures bitfield == BitsOf(numPieces, disk.bitfield, readable) && LoadedFrom(disk.bitfield, readable, bitfield)
    {
      if !readable || !disk.bitfield.Whole? {
        return;
      }
      var data := disk.bitfield.data;
      var n := |data|;
      if n > numPieces {
        n := numPieces;
      }
      for i := 0 to n
        invariant |bitfield| == numPieces
        invariant forall k :: 0 <= k < numPieces ==> bitfield[k] == (k < i && data[k] == 1)
      {
        bitfield := bitfield[i := data[i] == 1];
      }
    }

    method WritePiece(index: int, data: Data, fault: Fault) returns (ok: bool)
      requires Valid()
      modifies this
      ensures Valid()
      ensures ok <==> 0 <= index < numPieces && fault.NoFault?
      ensures !(0 <= index < numPieces) ==> log == old(log) && disk == old(disk) && bitfield == old(bitfield)
      ensures 0 <= index < numPieces ==>
                && log == old(log) + WriteSteps(index, data, fault)
                && bitfield == (if Stored(fault) then old(bitfield)[index := true] else old(bitfield))
                && |disk.pieces| == numPieces
                && (Stored(fault) ==> disk.pieces == old(disk.pieces)[index := Whole(data)])
                && (fault.AtWrite? ==> disk.pieces == old(disk.pieces)[index := Torn])
                && (fault.AtOpen? ==> disk.pieces == old(disk.pieces))
                && (fault.NoFault? ==> SavedAs(disk.bitfield, bitfield) && disk.tmp == Missing)
                && (!fault.NoFault? ==> disk.bitfield == old(disk.bitfield))
                && (fault.AtOpen? || fault.AtWrite? || fault.AtTmpOpen? ==> disk.tmp == old(disk.tmp))
                && (fault.AtTmpWrite? ==> disk.tmp == Torn) && (fault.AtRename? ==> SavedAs(disk.tmp, bitfield))
    {
      hide IsRun, Exec;
      if index < 0 || index >= numPieces {
        return false;
      }
      StepHere(Idle);
      if fault.AtOpen? {
        log := log + [OpenFails(index, data)];
        return false;
      }
      disk := disk.(pieces := disk.pieces[index := Torn]);
      log := log + [Open(index, data)];
      StepHere(Writing(index, data));
      if fault.AtWrite? {
        log := log + [WriteFails];
        return false;
      }
      disk := disk.(pieces := disk.pieces[index := Whole(data)]);
      bitfield := bitfield[index := true];
      log := log + [WriteOk];
      ok := SaveBitfield(fault);
      LogsJoin(old(log), Open(index, data), fault);
    }

    method SaveBitfield(fault: Fault) returns (ok: bool)
      requires IsRun(numPieces, log) && Mirrors(Saving)
      requires Stored(fault)
      modifies `disk, `log
      ensures Valid() && disk.pieces == old(disk.pieces) && log == old(log) + SaveSteps(fault)
      ensures fault.NoFault? ==> SavedAs(disk.bitfield, bitfield) && disk.tmp == Missing
      ensures !fault.NoFault? ==> disk.bitfield == old(disk.bitfield)
      ensures fault.AtTmpOpen? ==> disk.tmp == old(disk.tmp)
      ensures fault.AtTmpWrite? ==> disk.tmp == Torn
      ensures fault.AtRename? ==> SavedAs(disk.tmp, bitfield)
      ensures ok <==> fault.NoFault?
    {
      hide IsRun, Exec, Next, Enabled;
      SaveRun(numPieces, log, fault);
      var buf := BitfieldBytes();
      log := log + SaveSteps(fault);
      ok := false;
      if fault.AtTmpOpen? {
        return;
      }
      disk := disk.(tmp := Torn);
      if fault.AtTmpWrite? {
        return;
      }
      disk := disk.(tmp := Whole(buf));
      if fault.AtRename? {
        return;
      }
      disk := disk.(bitfield := disk.tmp, tmp := Missing);
      ok := true;
    }

    /** One byte for each piece. */
    method BitfieldBytes() returns (r: Data)
      requires |bitfield| == numPieces
      ensures r == BufOf(bitfield)
    {
      var buf := new byte[numPieces](_ => 0);
      for i := 0 to |bitfield|
        invariant forall k :: 0 <= k < numPieces ==> buf[k] == if k < i && bitfield[k] then 1 else 0
      {
        if bitfield[i] {
          buf[i] := 1;
        }
      }
      r := buf[..];
    }

    /** How the log grows by one step from here. */
    lemma StepHere(phase: Phase)
      requires IsRun(numPieces, log) && Mirrors(phase)
      ensures |disk.pieces| == numPieces && (!phase.Down? ==> |bitfield| == numPieces)
      ensures forall s :: Enabled(numPieces, Exec(numPieces, log), s) ==>
                IsRun(numPieces, log + [s]) && Exec(numPieces, log + [s]) == Next(numPieces, Exec(numPieces, log), s)
    {
      hide Next, Enabled;
      forall s | Enabled(numPieces, Exec(numPieces, log), s)
        ensures IsRun(numPieces, log + [s]) && Exec(numPieces, log + [s]) == Next(numPieces, Exec(numPieces, log), s)
      {
        OneStep(numPieces, log, s);
      }
    }

    /** The bytes of a marked piece, unless the read fails; a torn file reads as anything. */
    method ReadPiece(index: int, readable: bool) returns (r: Option<Data>)
      ensures r.Some? <==>
                && 0 <= index < |bitfield| && index < numPieces && bitfield[index]
                && readable && index < |disk.pieces| && !disk.pieces[index].Missing?
      ensures r.Some? && disk.pieces[index].Whole? ==> r.value == disk.pieces[index].data
    {
      if index < 0 || index >= numPieces || index >= |bitfield| {
        return None;
      }
      if !bitfield[index] {
        return None;
      }
      if !readable || index >= |disk.pieces| {
        return None;
      }
      match disk.pieces[index] {
        case Missing => r := None;
        case Torn =>
          var some: Data := *;
          r := Some(some);
        case Whole(data) => r := Some(data);
      }
    }
  }

  lemma LogsJoin(before: seq<Step>, s: Step, f: Fault)
    requires s.Open? && Stored(f)
    ensures before + [s] + [WriteOk] + SaveSteps(f) == before + WriteSteps(s.index, s.data, f)
  {
  }
}
