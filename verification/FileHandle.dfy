/**
 `FileLedgerStore` as the object it is: four fields updated in place over a
 shared file. With the lock held, its methods are the steps of the state
 machine in `FileStore`, run to completion.
 */
module FileHandle {
  import opened Bytes
  import opened Ledger
  import opened LineScan
  import opened FileScan
  import FileStore

  class Disk {
    var bytes: Bytes

    constructor (bytes: Bytes)
      ensures this.bytes == bytes
    {
      this.bytes := bytes;
    }
  }

  datatype AppendError = BadHash | WrongIndex | WrongPrev | Unreadable

  /** A rejection another writer caused by moving the tip first: safe to retry. */
  predicate IsAppendRace(e: AppendError) {
    e.WrongIndex? || e.WrongPrev?
  }

  class Store {
    const f: Format
    const disk: Disk
    var offset: nat
    var len: nat
    var tipHash: string
    var tipRecord: Option<Record>

    ghost function State(): ChainState
      reads this
    {
      ChainState(offset, len, tipHash, tipRecord)
    }

    /** The file is well formed and this handle can resume in it. */
    ghost predicate IsHealthy()
      reads this, disk
    {
      Healthy(f, disk.bytes, State())
    }

    constructor (f: Format, disk: Disk)
      ensures this.f == f && this.disk == disk && State() == EMPTY
    {
      this.f, this.disk := f, disk;
      offset, len, tipHash, tipRecord := 0, 0, GENESIS, None;
    }

    /** Consume what was appended since the last look, link-checking each record. */
    method Refresh() returns (outcome: Outcome)
      modifies this
      ensures var sc := old(FileStore.Refresh(f, disk.bytes, State()));
              State() == sc.st && outcome == sc.outcome
      ensures outcome != Failed ==> offset <= |disk.bytes|
    {
      if |disk.bytes| < offset { return Failed; }
      ghost var goal := FileStore.Refresh(f, disk.bytes, State());
      while offset < |disk.bytes|
        invariant LeadsTo(Taking(f), disk.bytes, State(), goal)
      {
        var stop := TakeNext(disk.bytes, goal);
        if stop.Some? { return stop.value; }
      }
      AtEnd(f, disk.bytes, State(), goal);
      return Clean;
    }

    /** One line of the loop: consumed, or a reason to stop. */
    method TakeNext(file: Bytes, ghost goal: Scan) returns (stop: Option<Outcome>)
      requires LeadsTo(Taking(f), file, State(), goal) && offset < |file|
      modifies this
      ensures if stop.None? then LeadsTo(Taking(f), file, State(), goal) && offset > old(offset)
              else State() == old(State()) == goal.st && stop.value == goal.outcome
    {
      var st := ChainState(offset, len, tipHash, tipRecord);
      var l := FirstLine(f, st, file[offset..]);
      TakeLine(f, file, st, goal);
      if l.Stop? { return Some(l.outcome); }
      offset := offset + l.n;
      if l.Entry? {
        len, tipHash, tipRecord := len + 1, l.rec.recordHash, Some(l.rec);
      }
      assert State() == After(st, l);
      return None;
    }

    /** Drop bytes past the last record and make sure the file ends in a newline. */
    method RepairTail()
      requires offset <= |disk.bytes|
      modifies this, disk
      ensures var kept := old(disk.bytes[..offset]);
              && disk.bytes == (if Closed(kept) then kept else kept + [NL])
              && State() == old(State()).(offset := |disk.bytes|)
    {
      if |disk.bytes| > offset {
        disk.bytes := disk.bytes[..offset];
      }
      TakeAll(disk.bytes);
      if offset > 0 && disk.bytes[offset - 1] != NL {
        disk.bytes := disk.bytes + [NL];
        offset := offset + 1;
      }
    }

    method WriteLine(rec: Record)
      modifies this, disk
      ensures disk.bytes == old(disk.bytes) + (f.encode(rec) + [NL])
      ensures State() == ChainState(|disk.bytes|, old(len) + 1, rec.recordHash, Some(rec))
    {
      disk.bytes := disk.bytes + (f.encode(rec) + [NL]);
      offset, len, tipHash, tipRecord := |disk.bytes|, len + 1, rec.recordHash, Some(rec);
    }

    /** Append, with the lock held throughout. A rejected record leaves the file untouched. */
    method Append(rec: Record) returns (r: Result<(), AppendError>)
      modifies this, disk
      ensures r.Err? ==> disk.bytes == old(disk.bytes)
      ensures AppendSays(f, old(disk.bytes), old(State()), rec, r, disk.bytes, State())
    {
      ghost var file, st := disk.bytes, State();
      if ComputeHash(f.suite, rec) != rec.recordHash {
        RefusedUnread(f, file, st, rec);
        return Err(BadHash);
      }
      var outcome := Refresh();
      ghost var sc := FileStore.Refresh(f, file, st);
      Refused(f, file, st, rec, sc);
      if outcome == Failed {
        return Err(Unreadable);
      }
      if rec.index != len {
        return Err(WrongIndex);
      }
      if rec.prevHash != tipHash {
        return Err(WrongPrev);
      }
      RepairTail();
      WriteLine(rec);
      Accepted(f, file, st, rec, sc, disk.bytes);
      return Ok(());
    }
  }

  /** The file is well formed and a handle with this state can resume in it. */
  ghost predicate Healthy(f: Format, file: Bytes, st: ChainState) {
    FileStore.FileOk(f, file) && FileStore.HandleOk(f, file, st)
  }

  /**
   What an append does. On a healthy file: as `AppendedTo` says. On any file in
   which the handle can resume: a refusal has the reason it names, an accepted
   append cuts off debris and nothing else, and a file with a misplaced record
   or with an unreadable line in the middle is refused.
   */
  ghost predicate AppendSays(f: Format, file: Bytes, st: ChainState, rec: Record, r: Result<(), AppendError>,
                             file': Bytes, st': ChainState) {
    && (Healthy(f, file, st) && GoodFormat(f) ==> AppendedTo(f, file, rec, r.Ok?, file', st'))
    && (FileStore.HandleOk(f, file, st) && r.Err? ==> Refuses(f, file, rec, r.error))
    && (FileStore.HandleOk(f, file, st) && r.Ok? ==> CutsDebris(f, file, rec, file'))
    && (FileStore.HandleOk(f, file, st) && FileStore.StopsSomewhere(f, file, Failed) ==> r.Err?)
  }

  /**
   Accepted exactly when the record carries its own hash and extends the tip on
   disk; then the ledger is the old records and this one, otherwise the old
   records. The handle can resume either way.
   */
  ghost predicate AppendedTo(f: Format, file: Bytes, rec: Record, ok: bool, file': Bytes, st': ChainState) {
    var recs := FileStore.Committed(f, file);
    && (ok <==> Links(f.suite, rec, |recs|, Tip(recs)))
    && FileStore.FileOk(f, file') && FileStore.HandleOk(f, file', st')
    && FileStore.Committed(f, file') == (if ok then recs + [rec] else recs)
    && (ok ==> st'.len == |recs| + 1 && st'.tipHash == rec.recordHash && st'.tipRecord == Some(rec))
    && (ok ==> FileStore.OpenTail(f, file'))
  }

  /**
   Why a record is refused: it does not carry its own hash, the file is corrupt,
   or another writer moved the tip first.
   */
  ghost predicate Refuses(f: Format, file: Bytes, rec: Record, e: AppendError) {
    var recs, corrupt := FileStore.Committed(f, file), FileStore.StopsSomewhere(f, file, Failed);
    && (e.BadHash? <==> ComputeHash(f.suite, rec) != rec.recordHash)
    && (IsAppendRace(e) <==> ComputeHash(f.suite, rec) == rec.recordHash && !corrupt)
    && (e.WrongIndex? ==> rec.index != |recs|)
    && (e.WrongPrev? ==> rec.index == |recs| && rec.prevHash != Tip(recs))
  }

  /** The file is what was there up to its debris, its last line closed, and the line of the record. */
  ghost predicate CutsAt(f: Format, file: Bytes, rec: Record, file': Bytes, n: nat) {
    && n <= |file| && FileStore.Debris(f, file[n..])
    && FileStore.Committed(f, file[..n]) == FileStore.Committed(f, file)
    && file' == (if Closed(file[..n]) then file[..n] else file[..n] + [NL]) + FileStore.LineOf(f, rec)
  }

  ghost predicate CutsDebris(f: Format, file: Bytes, rec: Record, file': Bytes) {
    exists n :: CutsAt(f, file, rec, file', n)
  }

  lemma CutTail(f: Format, file: Bytes, rec: Record, file': Bytes)
    requires FileStore.Whole(f, file).outcome != Failed
    requires var o := FileStore.Whole(f, file).st.offset;
             o <= |file| &&
             file' == (if Closed(file[..o]) then file[..o] else file[..o] + [NL]) + FileStore.LineOf(f, rec)
    ensures CutsDebris(f, file, rec, file')
  {
    FileStore.TailIsDebris(f, file);
    assert CutsAt(f, file, rec, file', FileStore.Whole(f, file).st.offset);
  }

  /** A handle that can resume finds what the whole file says, failure included. */
  lemma LooksAtAll(f: Format, file: Bytes, st: ChainState)
    requires FileStore.HandleOk(f, file, st)
    ensures var sc := FileStore.Refresh(f, file, st);
            sc.st == FileStore.Whole(f, file).st && sc.outcome == FileStore.Whole(f, file).outcome
    ensures FileStore.StopsSomewhere(f, file, Failed) <==> FileStore.Refresh(f, file, st).outcome == Failed
  {
    FileStore.CatchUp(f, file, st);
    FileStore.StopIff(f, file, Failed);
  }

  lemma RefusedUnread(f: Format, file: Bytes, st: ChainState, rec: Record)
    requires ComputeHash(f.suite, rec) != rec.recordHash
    ensures AppendSays(f, file, st, rec, Err(BadHash), file, st)
  {
  }

  /** The file looked at and found wanting, or the record. */
  lemma Refused(f: Format, file: Bytes, st: ChainState, rec: Record, sc: Scan)
    requires ComputeHash(f.suite, rec) == rec.recordHash && sc == FileStore.Refresh(f, file, st)
    ensures sc.outcome == Failed ==> AppendSays(f, file, st, rec, Err(Unreadable), file, sc.st)
    ensures sc.outcome != Failed && rec.index != sc.st.len ==>
              AppendSays(f, file, st, rec, Err(WrongIndex), file, sc.st)
    ensures sc.outcome != Failed && rec.index == sc.st.len && rec.prevHash != sc.st.tipHash ==>
              AppendSays(f, file, st, rec, Err(WrongPrev), file, sc.st)
  {
    if FileStore.HandleOk(f, file, st) {
      LooksAtAll(f, file, st);
      ScanReports(Taking(f), EMPTY, file);
      if Healthy(f, file, st) {
        LocksAndLooks(f, file, st, rec);
      }
    }
  }

  lemma Accepted(f: Format, file: Bytes, st: ChainState, rec: Record, sc: Scan, file': Bytes)
    requires ComputeHash(f.suite, rec) == rec.recordHash && sc == FileStore.Refresh(f, file, st)
    requires sc.outcome != Failed && rec.index == sc.st.len && rec.prevHash == sc.st.tipHash
    requires sc.st.offset <= |file|
    requires var kept := file[..sc.st.offset];
             file' == (if Closed(kept) then kept else kept + [NL]) + FileStore.LineOf(f, rec)
    ensures AppendSays(f, file, st, rec, Ok(()), file',
                       ChainState(|file'|, sc.st.len + 1, rec.recordHash, Some(rec)))
  {
    if FileStore.HandleOk(f, file, st) {
      LooksAtAll(f, file, st);
      CutTail(f, file, rec, file');
      if Healthy(f, file, st) && GoodFormat(f) {
        AppendLine(f, file, sc.st, rec);
      }
    }
  }

  lemma TakeLine(f: Format, file: Bytes, st: ChainState, goal: Scan)
    requires LeadsTo(Taking(f), file, st, goal) && st.offset < |file|
    ensures var l := FirstLine(f, st, file[st.offset..]);
            if l.Stop? then goal.st == st && goal.outcome == l.outcome
            else LeadsTo(Taking(f), file, After(st, l), goal)
  {
    TakeOne(Taking(f), file, st, goal);
    assert Taking(f)(st, file[st.offset..]) == FirstLine(f, st, file[st.offset..]);
  }

  lemma AtEnd(f: Format, file: Bytes, st: ChainState, goal: Scan)
    requires LeadsTo(Taking(f), file, st, goal) && st.offset == |file|
    ensures goal.st == st && goal.outcome == Clean
  {
    TakeAll(file);
  }

  /** A healthy handle that refreshes stands at the end of the records. */
  lemma LocksAndLooks(f: Format, file: Bytes, st: ChainState, rec: Record)
    requires FileStore.FileOk(f, file) && FileStore.HandleOk(f, file, st)
    ensures FileStore.Refresh(f, file, st).outcome != Failed
    ensures FileStore.Refresh(f, file, st).st == FileStore.Whole(f, file).st
    ensures !Links(f.suite, rec, FileStore.Whole(f, file).st.len, FileStore.Whole(f, file).st.tipHash) ==>
              AppendedTo(f, file, rec, false, file, FileStore.Whole(f, file).st)
  {
    FileStore.CatchUp(f, file, st);
    FileStore.WholeIsResumable(f, file);
    ScanReports(Taking(f), EMPTY, file);
  }

  /** Repairing the tail and writing the whole line of a linked record commits it. */
  lemma AppendLine(f: Format, file: Bytes, st: ChainState, rec: Record)
    requires GoodFormat(f) && FileStore.FileOk(f, file) && st == FileStore.Whole(f, file).st
    requires Links(f.suite, rec, st.len, st.tipHash)
    ensures st.offset <= |file|
    ensures var kept := file[..st.offset];
            var base := if Closed(kept) then kept else kept + [NL];
            var file' := base + (f.encode(rec) + [NL]);
            AppendedTo(f, file, rec, true, file', ChainState(|file'|, st.len + 1, rec.recordHash, Some(rec)))
  {
    FileStore.TruncateFile(f, file);
    var base := RepairedTail(f, file[..st.offset]);
    FileStore.PartialLine(f, base, rec, |FileStore.LineOf(f, rec)|);
    TakeAll(FileStore.LineOf(f, rec));
    FileStore.WholeIsResumable(f, base + FileStore.LineOf(f, rec));
    ScanReports(Taking(f), EMPTY, file);
  }

  lemma RepairedTail(f: Format, kept: Bytes) returns (base: Bytes)
    requires FileStore.FileOk(f, kept) && FileStore.Whole(f, kept).outcome == Clean
    ensures base == (if Closed(kept) then kept else kept + [NL]) && Closed(base)
    ensures FileStore.FileOk(f, base) && FileStore.Whole(f, base).outcome == Clean
    ensures FileStore.Committed(f, base) == FileStore.Committed(f, kept)
    ensures FileStore.Whole(f, base).st.len == FileStore.Whole(f, kept).st.len
    ensures FileStore.Whole(f, base).st.tipHash == FileStore.Whole(f, kept).st.tipHash
  {
    base := kept;
    if !Closed(kept) {
      base := kept + [NL];
      FileStore.NewlineFile(f, kept);
    }
  }
}
