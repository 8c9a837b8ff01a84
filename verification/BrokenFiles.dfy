/** What the framed files give back when they are missing, cut, or hold something that cannot be read. */
module BrokenFiles {
  import opened ByteStrings
  import opened Documents
  import opened Mutations
  import opened WalLog
  import VectorOutbox
  import PersistenceCodec
  import TextLogs

  /** The first frames hold these records, and what follows, if anything, holds none. */
  ghost predicate ReadsUpTo(fm: Formats, frames: seq<ByteString>, rs: seq<DocumentRecord>) {
    && |rs| <= |frames|
    && (forall i :: 0 <= i < |rs| ==> fm.parseRecord(frames[i]) == Some(rs[i]))
    && (|rs| < |frames| ==> fm.parseRecord(frames[|rs|]).None?)
  }

  /** The records in front of the first unreadable frame count, and that frame is an error. */
  lemma {:induction false} RecordsUpTo(fm: Formats, frames: seq<ByteString>, rs: seq<DocumentRecord>)
    requires ReadsUpTo(fm, frames, rs)
    ensures BinaryRecords(fm, frames) ==
            LogResult(TextLogs.PutEntriesOf(rs), if |rs| == |frames| then Ok else BadRecord)
    decreases frames
  {
    if rs != [] {
      RecordsUpTo(fm, frames[1..], rs[1..]);
      assert TextLogs.PutEntriesOf(rs) == [PutEntry(rs[0])] + TextLogs.PutEntriesOf(rs[1..]);
    }
  }

  /** Some number of frames is readable. */
  lemma {:induction false} SomeAreRead(fm: Formats, frames: seq<ByteString>) returns (rs: seq<DocumentRecord>)
    ensures ReadsUpTo(fm, frames, rs)
    decreases frames
  {
    if frames == [] || fm.parseRecord(frames[0]).None? {
      rs := [];
    } else {
      var rest := SomeAreRead(fm, frames[1..]);
      rs := [fm.parseRecord(frames[0]).value] + rest;
    }
  }

  /** The same for entries of the log. */
  lemma {:induction false} EntriesUpTo(fm: Formats, frames: seq<ByteString>, es: seq<WalEntry>)
    requires |es| <= |frames| && forall i :: 0 <= i < |es| ==> DecodeWalEntry(fm, frames[i]) == Some(es[i])
    requires |es| < |frames| ==> fm.parseEntry(frames[|es|]).None?
    ensures BinaryEntries(fm, frames) == LogResult(es, if |es| == |frames| then Ok else BadEntry)
    decreases frames
  {
    if es != [] {
      EntriesUpTo(fm, frames[1..], es[1..]);
      assert es == [es[0]] + es[1..];
    }
  }

  /** An outbox file that is missing or empty holds nothing; one without the header, or cut inside a frame,
      holds nothing either and is an error of its own; otherwise it holds the records of its frames. */
  lemma OutboxExactly(fm: Formats, file: ByteString, payloads: seq<ByteString>, rest: ByteString)
    ensures VectorOutbox.OutboxContent(fm, None) == VectorOutbox.OutboxContent(fm, Some([])) == LogResult([], Ok)
    ensures file != [] && !(PersistenceCodec.MAGIC <= file) ==>
              VectorOutbox.OutboxContent(fm, Some(file)) == LogResult([], Status.MissingMagic)
    ensures file == PersistenceCodec.MAGIC + PersistenceCodec.Concatenated(payloads) + rest &&
            PersistenceCodec.Short(payloads) && PersistenceCodec.Stops(rest) ==>
              VectorOutbox.OutboxContent(fm, Some(file)) ==
              if rest == [] then BinaryRecords(fm, payloads)
              else LogResult([], if |rest| < 4 then Status.TruncatedFrame else Status.TruncatedPayload)
  {
    hide PersistenceCodec.MAGIC, PersistenceCodec.Parse, PersistenceCodec.Stops, BinaryRecords;
    if
      && file == PersistenceCodec.MAGIC + PersistenceCodec.Concatenated(payloads) + rest
      && PersistenceCodec.Short(payloads) && PersistenceCodec.Stops(rest)
    {
      Framed(file, payloads, rest);
    }
  }

  /** Log and snapshot: the same answers, without a file no error, and a text file if there is no header. */
  lemma LogAndSnapshotExactly(fm: Formats, file: ByteString, payloads: seq<ByteString>, rest: ByteString)
    ensures WalContent(fm, None) == SnapshotContent(fm, None) == LogResult([], Ok)
    ensures file == PersistenceCodec.MAGIC + PersistenceCodec.Concatenated(payloads) + rest &&
            PersistenceCodec.Short(payloads) && PersistenceCodec.Stops(rest) ==>
              var cut := LogResult([], if |rest| < 4 then Status.TruncatedFrame else Status.TruncatedPayload);
              && WalContent(fm, Some(file)) == (if rest == [] then BinaryEntries(fm, payloads) else cut)
              && SnapshotContent(fm, Some(file)) == if rest == [] then BinaryRecords(fm, payloads) else cut
  {
    hide PersistenceCodec.MAGIC, PersistenceCodec.Parse, PersistenceCodec.Stops, BinaryRecords, BinaryEntries;
    if
      && file == PersistenceCodec.MAGIC + PersistenceCodec.Concatenated(payloads) + rest
      && PersistenceCodec.Short(payloads) && PersistenceCodec.Stops(rest)
    {
      Framed(file, payloads, rest);
    }
  }

  lemma Framed(file: ByteString, payloads: seq<ByteString>, rest: ByteString)
    requires file == PersistenceCodec.MAGIC + PersistenceCodec.Concatenated(payloads) + rest
    requires PersistenceCodec.Short(payloads) && PersistenceCodec.Stops(rest)
    ensures PersistenceCodec.HasMagic(file) && file != []
    ensures PersistenceCodec.Decode(file) ==
            if rest == [] then PersistenceCodec.Decoded(payloads)
            else if |rest| < 4 then PersistenceCodec.TruncatedFrame
            else PersistenceCodec.TruncatedPayload
  {
    hide PersistenceCodec.Parse, PersistenceCodec.Stops, PersistenceCodec.Concatenated;
    assert file[|PersistenceCodec.MAGIC|..] == PersistenceCodec.Concatenated(payloads) + rest;
    PersistenceCodec.ParseConcatenated(payloads, rest);
    PersistenceCodec.ParseStops(rest);
  }

  /** A snapshot that fails ends the recovery with its error and what was read of it; otherwise the log is
      replayed over it and gives the status. */
  lemma RecoverExactly(fm: Formats, disk: Disk)
    ensures var s, l, r := SnapshotContent(fm, disk.snapshot), WalContent(fm, disk.wal), RecoverFrom(fm, disk);
            && (s.status != Ok ==> r.status == s.status)
            && (s.status == Ok ==> r.status == l.status)
            && forall k :: Lookup(r.records, k) ==
                 match LastTouch(if s.status == Ok then s.entries + l.entries else s.entries, k)
                 case None => None
                 case Some(outcome) => outcome
  {
    hide SnapshotContent, WalContent, LastTouch, Replay;
    var s, l := SnapshotContent(fm, disk.snapshot), WalContent(fm, disk.wal);
    ReplayConcat(map[], s.entries, l.entries);
    forall k ensures Lookup(RecoverFrom(fm, disk).records, k) ==
                     match LastTouch(if s.status == Ok then s.entries + l.entries else s.entries, k)
                     case None => None
                     case Some(outcome) => outcome
    {
      LastWriterWins(map[], if s.status == Ok then s.entries + l.entries else s.entries, k);
    }
  }
}
