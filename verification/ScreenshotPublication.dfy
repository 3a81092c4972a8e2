/** How scripts/provider_matrix_screenshots.py swaps a new set of captures for the
    previous one, with a failure or an interrupt possible at each step. */
module ScreenshotPublication {
  import opened Bytes
  import opened PngChunks

  const DASHBOARD_WIDTH := 1_480

  datatype File = File(content: seq<byte>, mode: nat, regular: bool, links: nat)

  type Captures = map<string, File>

  /** What one of the three paths leads to: the published set, the new one, the backup. */
  datatype Slot = Absent | Folder(files: Captures, mode: nat)

  datatype Outcome =
    | Published | BackupRemains
    | SetMismatch | BadCapture | Unprepared | CannotStage | NotPublished | Stranded
    | Interrupted

  /** How a step raises: with an OSError, having done nothing, or with anything else,
      such as an interrupt, before or after it took effect. */
  datatype Fault = Never | Failed | Before | After

  /** A removal that does not finish leaves some of the files. */
  datatype Faults = Faults(
    chmod: nat -> Fault, makeBackup: Fault, clearBackup: Fault, stage: Fault, publish: Fault,
    restore: Fault, removeBackup: Fault, leftBehind: set<string>)

  /** The first fault of the steps `k` to `n - 1`. */
  function FirstFault(fault: nat -> Fault, k: nat, n: nat): (f: Fault)
    requires k <= n
    ensures f.Never? <==> forall i: nat | k <= i < n :: fault(i).Never?
    decreases n - k
  {
    if k == n then Never else if fault(k).Never? then FirstFault(fault, k + 1, n) else fault(k)
  }

  /** The first of the steps that raises decides. */
  lemma {:induction false} FirstFaultIs(fault: nat -> Fault, k: nat, i: nat, n: nat)
    requires k <= i < n && !fault(i).Never? && forall j: nat | k <= j < i :: fault(j).Never?
    ensures FirstFault(fault, k, n) == fault(i)
    decreases i - k
  {
    if k < i { FirstFaultIs(fault, k + 1, i, n); }
  }

  /** A private regular file that starts like a dashboard capture. */
  predicate IsCapture(f: File) {
    && f.regular && f.links == 1 && |f.content| >= 1_024
    && f.content[..8] == Signature() && f.content[12..16] == Ihdr()
    && FromBig32(f.content[16..20]) == DASHBOARD_WIDTH
    && 120 <= FromBig32(f.content[20..24]) <= 12_000
  }

  /** A private file that starts as a PNG file does is a capture exactly when its header
      says it is 1480 wide and from 120 to 12000 high, and the file is not too small. */
  lemma CaptureIs(f: File, crc: Crc, h: Header, more: seq<byte>)
    requires f.content == Signature() + ChunkBytes(crc, Chunk(Ihdr(), HeaderBytes(h))) + more
    ensures IsCapture(f) <==>
            f.regular && f.links == 1 && |f.content| >= 1024 && h.width == 1480 && 120 <= h.height <= 12000
  {
    hide Signature, Ihdr, ChunkBytes, HeaderBytes, FromBig32, Big32;
    HeaderChunk(crc, h);
    var bytes := ChunkBytes(crc, Chunk(Ihdr(), HeaderBytes(h)));
    SignatureLength();
    assert f.content == Signature() + (bytes + more);
    Within(f.content, Signature(), bytes + more, 4, 8);
    Within(f.content, Signature(), bytes + more, 8, 12);
    Within(f.content, Signature(), bytes + more, 12, 16);
    assert (bytes + more)[4..8] == bytes[4..8] && (bytes + more)[8..12] == bytes[8..12];
    assert (bytes + more)[12..16] == bytes[12..16];
  }

  lemma SignatureLength()
    ensures |Signature()| == 8
  {}

  lemma Within(content: seq<byte>, head: seq<byte>, tail: seq<byte>, i: nat, j: nat)
    requires content == head + tail && i <= j <= |tail|
    ensures content[|head| + i..|head| + j] == tail[i..j] && content[..|head|] == head
  {}

  /** Where the width and the height stand in a header's chunk. */
  lemma HeaderChunk(crc: Crc, h: Header)
    ensures IsChunk(Chunk(Ihdr(), HeaderBytes(h)))
    ensures var bytes := ChunkBytes(crc, Chunk(Ihdr(), HeaderBytes(h)));
            && |bytes| == 25 && bytes[4..8] == Ihdr()
            && FromBig32(bytes[8..12]) == h.width && FromBig32(bytes[12..16]) == h.height
  {
    var c := Chunk(Ihdr(), HeaderBytes(h));
    ChunkIs(crc, c);
    HeaderRoundTrip(h, c.payload);
    var bytes := ChunkBytes(crc, c);
    assert bytes[8..12] == bytes[8..21][..4] && bytes[12..16] == bytes[8..21][4..8];
  }

  function Expected(sections: seq<string>): set<string> {
    set n | n in sections
  }

  ghost predicate IsInventory(files: Captures, sections: seq<string>) {
    files.Keys == Expected(sections) && forall n <- sections :: IsCapture(files[n])
  }

  /** The new set is complete and all of it was made private. */
  ghost predicate Prepared(files: Captures, sections: seq<string>, faults: Faults) {
    IsInventory(files, sections) && FirstFault(faults.chmod, 0, |sections| + 1).Never?
  }

  /** The previous set is about to be moved away. */
  ghost predicate ReachesStage(previous: Slot, faults: Faults) {
    previous.Folder? && faults.makeBackup.Never? && faults.clearBackup.Never?
  }

  /** The new set is about to be moved in. */
  ghost predicate ReachesPublish(previous: Slot, faults: Faults) {
    previous.Absent? || (ReachesStage(previous, faults) && faults.stage.Never?)
  }

  /** The rename of the new set took effect. */
  ghost predicate TakesEffect(previous: Slot, faults: Faults) {
    ReachesPublish(previous, faults) && (faults.publish.Never? || faults.publish.After?)
  }

  /** Nothing is left at the published path: a raise that is no OSError between the
      two renames, or a failed rename that is not undone. */
  ghost predicate LeavesNothing(previous: Slot, faults: Faults) {
    && ReachesStage(previous, faults)
    && (faults.stage.After? || (faults.stage.Never? &&
          (faults.publish.Before? || (faults.publish.Failed? && (faults.restore.Failed? || faults.restore.Before?)))))
  }

  /** What the published path leads to in the end. */
  ghost function PathAfter(files: Captures, sections: seq<string>, previous: Slot, faults: Faults): Slot {
    if !Prepared(files, sections, faults) then previous
    else if TakesEffect(previous, faults) then Folder(Private(files), 0x1C0)
    else if LeavesNothing(previous, faults) then Absent
    else previous
  }

  /** What is moved in: a folder and files that only their owner may enter, read and
      write, with the names expected and the contents staged. */
  lemma NewSetIs(files: Captures, sections: seq<string>, previous: Slot, faults: Faults)
    requires Prepared(files, sections, faults) && TakesEffect(previous, faults)
    ensures var after := PathAfter(files, sections, previous, faults);
            && after.Folder? && after.mode == 7 * 64
            && (forall n :: n in after.files <==> n in sections)
            && (forall n <- sections :: n in files && IsCapture(files[n])
                                        && after.files[n] == files[n].(mode := 6 * 64))
  {
    hide IsCapture, FirstFault;
    assert forall n :: n in sections <==> n in files.Keys;
  }

  predicate Stops(f: Fault) {
    f.Before? || f.After?
  }

  /** When a publication has each outcome. */
  ghost predicate Because(
      files: Captures, sections: seq<string>, previous: Slot, faults: Faults, outcome: Outcome)
  {
    var private := FirstFault(faults.chmod, 0, |sections| + 1);
    var moved := Prepared(files, sections, faults) && ReachesPublish(previous, faults);
    match outcome
    case SetMismatch => files.Keys != Expected(sections)
    case BadCapture => files.Keys == Expected(sections) && !IsInventory(files, sections)
    case Unprepared =>
      && IsInventory(files, sections)
      && (private.Failed? || (private.Never? && previous.Folder?
            && (faults.makeBackup.Failed? || (faults.makeBackup.Never? && faults.clearBackup.Failed?))))
    case CannotStage => Prepared(files, sections, faults) && ReachesStage(previous, faults) && faults.stage.Failed?
    case NotPublished => moved && faults.publish.Failed? && (previous.Folder? ==> faults.restore.Never?)
    case Stranded => moved && faults.publish.Failed? && previous.Folder? && faults.restore.Failed?
    case Published => moved && faults.publish.Never? && (previous.Folder? ==> faults.removeBackup.Never?)
    case BackupRemains => moved && faults.publish.Never? && previous.Folder? && faults.removeBackup.Failed?
    case Interrupted =>
      && IsInventory(files, sections)
      && (|| Stops(private)
          || (private.Never? && previous.Folder?
              && (Stops(faults.makeBackup) || (faults.makeBackup.Never? && Stops(faults.clearBackup))))
          || (private.Never? && ReachesStage(previous, faults) && Stops(faults.stage))
          || (moved && (|| Stops(faults.publish)
                        || (faults.publish.Failed? && previous.Folder? && Stops(faults.restore))
                        || (faults.publish.Never? && previous.Folder? && Stops(faults.removeBackup)))))
  }

  /** No two outcomes share their conditions, so each is exact. */
  lemma OutcomesExclude(
      files: Captures, sections: seq<string>, previous: Slot, faults: Faults, a: Outcome, b: Outcome)
    requires Because(files, sections, previous, faults, a) && Because(files, sections, previous, faults, b)
    ensures a == b
  {
    hide IsCapture, FirstFault;
  }

  /** What the removal of the previous set leaves of it. */
  ghost function Remains(previous: Slot, faults: Faults): Slot {
    if previous.Absent? then Absent
    else if faults.publish.After? then previous
    else if faults.removeBackup.Never? || faults.removeBackup.After? then Absent
    else previous.(files := map n | n in previous.files && n in faults.leftBehind :: previous.files[n])
  }

  /** What each outcome tells of the three paths: nothing has changed, or the new set is
      in place and the previous one gone or partly gone, or the previous one is whole at
      the backup path alone. */
  lemma OutcomesMean(files: Captures, sections: seq<string>, previous: Slot, faults: Faults, outcome: Outcome)
    requires Because(files, sections, previous, faults, outcome) && !outcome.Interrupted?
    ensures var path, moved := PathAfter(files, sections, previous, faults),
                               Prepared(files, sections, faults) && TakesEffect(previous, faults);
            match outcome
            case Published => moved && path == Folder(Private(files), 7 * 64) && Remains(previous, faults) == Absent
            case BackupRemains =>
              && moved && path == Folder(Private(files), 7 * 64) && previous.Folder? && Remains(previous, faults).Folder?
              && forall n <- Remains(previous, faults).files ::
                   n in previous.files && Remains(previous, faults).files[n] == previous.files[n]
            case Stranded => !moved && path == Absent && previous.Folder?
            case _ => !moved && path == previous
  {
    hide IsCapture, FirstFault, Private;
  }

  /** The same files, with private modes. */
  function Private(files: Captures): Captures {
    map n | n in files :: files[n].(mode := 0x180)
  }

  /** Each file as it was, or with the private mode. */
  ghost predicate OnlySomePrivate(now: Captures, files: Captures) {
    && now.Keys == files.Keys
    && forall n <- files :: now[n] == files[n] || now[n] == files[n].(mode := 6 * 64)
  }

  /** Accepted exactly: the expected names, no other, each a capture. */
  method ValidateCaptureInventory(files: Captures, sections: seq<string>) returns (outcome: Outcome)
    ensures outcome == Published || outcome == SetMismatch || outcome == BadCapture
    ensures outcome == Published <==> IsInventory(files, sections)
    ensures outcome == SetMismatch <==> files.Keys != Expected(sections)
  {
    if Expected(sections) - files.Keys != {} || files.Keys - Expected(sections) != {} {
      return SetMismatch;
    }
    assert files.Keys == Expected(sections);
    for i := 0 to |sections|
      invariant forall k | 0 <= k < i :: IsCapture(files[sections[k]])
    {
      assert sections[i] in Expected(sections);
      if !IsCapture(files[sections[i]]) {
        return BadCapture;
      }
    }
    return Published;
  }

  class CaptureFolders {
    var screenshots: Slot
    var staging: Slot
    var backup: Slot

    constructor (screenshots: Slot, staging: Slot)
      ensures this.screenshots == screenshots && this.staging == staging && backup == Absent
    {
      this.screenshots, this.staging, backup := screenshots, staging, Absent;
    }

    /** The staged files made private one by one; only modes change, and only to these. */
    method MakePrivate(sections: seq<string>, faults: Faults) returns (fault: Fault)
      requires staging.Folder? && staging.files.Keys == Expected(sections)
      modifies this`staging
      ensures staging.Folder? && Private(staging.files) == Private(old(staging).files)
      ensures OnlySomePrivate(staging.files, old(staging).files)
      ensures staging.mode == old(staging).mode || staging.mode == 7 * 64
      ensures fault == FirstFault(faults.chmod, 0, |sections| + 1)
      ensures fault.Never? ==> staging == Folder(Private(old(staging).files), 0x1C0)
    {
      for i := 0 to |sections|
        invariant staging.Folder? && staging.files.Keys == Expected(sections)
        invariant Private(staging.files) == Private(old(staging).files)
        invariant OnlySomePrivate(staging.files, old(staging).files) && staging.mode == old(staging).mode
        invariant FirstFault(faults.chmod, 0, |sections| + 1) == FirstFault(faults.chmod, i, |sections| + 1)
        invariant forall k | 0 <= k < i :: staging.files[sections[k]].mode == 0x180
      {
        var name := sections[i];
        var made := staging.(files := staging.files[name := staging.files[name].(mode := 0x180)]);
        if !faults.chmod(i).Never? {
          if faults.chmod(i).After? {
            staging := made;
          }
          return faults.chmod(i);
        }
        staging := made;
      }
      fault := faults.chmod(|sections|);
      assert staging.files == Private(staging.files);
      if fault.Never? || fault.After? {
        staging := staging.(mode := 0x1C0);
      }
    }

    /** Whatever raises, and whenever: the published path ends with the whole new set
        or with exactly what was there, except when `LeavesNothing` says so, and the
        previous set is then whole at the backup path. */
    method Publish(sections: seq<string>, faults: Faults) returns (outcome: Outcome)
      requires staging.Folder? && backup.Absent?
      modifies this
      ensures screenshots == PathAfter(old(staging).files, sections, old(screenshots), faults)
      ensures staging.Absent? <==> Prepared(old(staging).files, sections, faults) && TakesEffect(old(screenshots), faults)
      ensures staging.Folder? ==> OnlySomePrivate(staging.files, old(staging).files)
      ensures staging.Folder? && screenshots == old(screenshots) ==> backup == Absent || backup == Folder(map[], 0x1C0)
      ensures staging.Folder? && screenshots != old(screenshots) ==> screenshots == Absent && backup == old(screenshots)
      ensures staging.Absent? ==> backup == Remains(old(screenshots), faults)
      ensures Because(old(staging).files, sections, old(screenshots), faults, outcome)
    {
      hide IsInventory, IsCapture, Expected, FirstFault, Private;
      outcome := ValidateCaptureInventory(staging.files, sections);
      if outcome != Published {
        return;
      }
      var fault := MakePrivate(sections, faults);
      if !fault.Never? {
        return if fault.Failed? then Unprepared else Interrupted;
      }
      var hasPrevious := screenshots.Folder?;
      if hasPrevious {
        if faults.makeBackup.Failed? || faults.makeBackup.Before? {
          return if faults.makeBackup.Failed? then Unprepared else Interrupted;
        }
        backup := Folder(map[], 0x1C0);
        if faults.makeBackup.After? {
          return Interrupted;
        }
        if faults.clearBackup.Failed? || faults.clearBackup.Before? {
          return if faults.clearBackup.Failed? then Unprepared else Interrupted;
        }
        backup := Absent;
        if faults.clearBackup.After? {
          return Interrupted;
        }
        if faults.stage.Failed? || faults.stage.Before? {
          return if faults.stage.Failed? then CannotStage else Interrupted;
        }
        screenshots, backup := Absent, screenshots;
        if faults.stage.After? {
          return Interrupted;
        }
      }
      if faults.publish.Before? {
        return Interrupted;
      }
      if faults.publish.Failed? {
        if hasPrevious && backup.Folder? {
          if faults.restore.Failed? || faults.restore.Before? {
            return if faults.restore.Failed? then Stranded else Interrupted;
          }
          screenshots, backup := backup, Absent;
          if faults.restore.After? {
            return Interrupted;
          }
        }
        return NotPublished;
      }
      screenshots, staging := staging, Absent;
      if faults.publish.After? {
        return Interrupted;
      }
      if hasPrevious {
        if faults.removeBackup.Failed? || faults.removeBackup.Before? {
          backup := backup.(files := map n | n in backup.files && n in faults.leftBehind :: backup.files[n]);
          return if faults.removeBackup.Failed? then BackupRemains else Interrupted;
        }
        backup := Absent;
        if faults.removeBackup.After? {
          return Interrupted;
        }
      }
      return Published;
    }
  }
}
