/** The older text files: what their lines say, and that a log in text recovers to the same records as
    the framed log of the same entries. */
module TextLogs {
  import opened ByteStrings
  import opened Documents
  import opened Mutations
  import opened WalLog
  import PersistenceCodec

  /** Every line with a newline behind it. */
  function TextOf(lines: seq<ByteString>): ByteString {
    if lines == [] then [] else lines[0] + [NEWLINE] + TextOf(lines[1..])
  }

  predicate OneLiners(lines: seq<ByteString>) {
    forall i :: 0 <= i < |lines| ==> NEWLINE !in lines[i]
  }

  lemma FirstLine(line: ByteString, rest: ByteString)
    requires NEWLINE !in line
    ensures Lines(line + [NEWLINE] + rest) == [line] + Lines(rest)
  {
    var b := line + [NEWLINE] + rest;
    var n := LineEnd(b);
    assert b[|line|] == NEWLINE;
    assert forall i :: 0 <= i < |line| ==> b[i] == line[i];
    assert n == |line|;
    assert b[..n] == line && b[n + 1..] == rest;
  }

  lemma OnlyLine(line: ByteString)
    requires NEWLINE !in line
    ensures Lines(line) == if line == [] then [] else [line]
  {
    if line != [] {
      var n := LineEnd(line);
      assert n == |line|;
      assert line[..n] == line;
    }
  }

  /** Reading takes the lines apart again, whether or not the last one is terminated. */
  lemma {:induction false} LinesReadBack(lines: seq<ByteString>, last: ByteString)
    requires OneLiners(lines) && NEWLINE !in last
    ensures Lines(TextOf(lines) + last) == if last == [] then lines else lines + [last]
    decreases lines
  {
    hide Lines;
    if lines == [] {
      OnlyLine(last);
      assert TextOf(lines) + last == last;
    } else {
      var rest := lines[1..];
      assert forall i :: 0 <= i < |rest| ==> rest[i] == lines[i + 1];
      LinesReadBack(rest, last);
      FirstLine(lines[0], TextOf(rest) + last);
      assert TextOf(lines) + last == lines[0] + [NEWLINE] + (TextOf(rest) + last);
      assert lines == [lines[0]] + rest;
    }
  }

  /** "P|" and a record, or "D|" and a collection with a key. */
  ghost predicate Says(fm: Formats, line: ByteString, e: WalEntry) {
    match e.operation
    case Put => e == PutEntry(e.record) && exists text ::
      line == [0x50, BAR] + text && fm.textRecord(text) == Some(e.record)
    case Delete => e == DeleteEntry(e.collection, e.key) && exists text ::
      line == [0x44, BAR] + text && fm.textDelete(text) == Some((e.collection, e.key))
  }

  ghost predicate SayAll(fm: Formats, lines: seq<ByteString>, es: seq<WalEntry>) {
    |lines| == |es| && forall i :: 0 <= i < |es| ==> Says(fm, lines[i], es[i])
  }

  lemma LineSays(fm: Formats, line: ByteString, e: WalEntry)
    requires Says(fm, line, e)
    ensures TextLine(fm, line) == Means(e)
  {
    if e.operation == Put {
      var text :| line == [0x50, BAR] + text && fm.textRecord(text) == Some(e.record);
      assert line[2..] == text;
    } else {
      var text :| line == [0x44, BAR] + text && fm.textDelete(text) == Some((e.collection, e.key));
      assert line[2..] == text;
    }
  }

  lemma {:induction false} EntriesOfLines(fm: Formats, lines: seq<ByteString>, es: seq<WalEntry>)
    requires SayAll(fm, lines, es)
    ensures TextEntries(fm, lines) == LogResult(es, Ok)
    decreases lines
  {
    hide TextLine, Says;
    if lines != [] {
      LineSays(fm, lines[0], es[0]);
      EntriesOfLines(fm, lines[1..], es[1..]);
      assert es == [es[0]] + es[1..];
    }
  }

  /** A text log reads as the entries its lines say. */
  lemma TextLogReads(fm: Formats, lines: seq<ByteString>, es: seq<WalEntry>)
    requires OneLiners(lines) && SayAll(fm, lines, es)
    ensures WalContent(fm, Some(TextOf(lines))) == LogResult(es, Ok)
  {
    hide Says;
    LinesReadBack(lines, []);
    assert TextOf(lines) + [] == TextOf(lines);
    EntriesOfLines(fm, lines, es);
    if lines != [] {
      NotFramed(fm, lines[0], es[0], TextOf(lines));
    }
  }

  lemma NotFramed(fm: Formats, line: ByteString, e: WalEntry, b: ByteString)
    requires Says(fm, line, e) && line <= b
    ensures !PersistenceCodec.HasMagic(b)
  {
    assert b[0] == line[0];
    assert line[0] == 0x50 || line[0] == 0x44;
    assert PersistenceCodec.MAGIC[0] == 75;
  }

  lemma {:induction false} RecordsOfLines(fm: Formats, lines: seq<ByteString>, rs: seq<DocumentRecord>)
    requires |lines| == |rs| && forall i :: 0 <= i < |rs| ==> fm.textRecord(lines[i]) == Some(rs[i])
    ensures TextRecords(fm, lines) == LogResult(PutEntriesOf(rs), Ok)
    decreases lines
  {
    if lines != [] {
      RecordsOfLines(fm, lines[1..], rs[1..]);
      assert PutEntriesOf(rs) == [PutEntry(rs[0])] + PutEntriesOf(rs[1..]);
    }
  }

  function PutEntriesOf(rs: seq<DocumentRecord>): seq<WalEntry> {
    seq(|rs|, i requires 0 <= i < |rs| => PutEntry(rs[i]))
  }

  /** A text snapshot reads as the records of its lines. */
  lemma TextSnapshotReads(fm: Formats, lines: seq<ByteString>, rs: seq<DocumentRecord>)
    requires OneLiners(lines) && !PersistenceCodec.HasMagic(TextOf(lines))
    requires |lines| == |rs| && forall i :: 0 <= i < |rs| ==> fm.textRecord(lines[i]) == Some(rs[i])
    ensures SnapshotContent(fm, Some(TextOf(lines))) == LogResult(PutEntriesOf(rs), Ok)
  {
    LinesReadBack(lines, []);
    assert TextOf(lines) + [] == TextOf(lines);
    RecordsOfLines(fm, lines, rs);
  }

  /** Recovery makes of a text log what replaying the entries over the snapshot makes. */
  lemma TextLogRecovers(fm: Formats, snapshot: Option<ByteString>, lines: seq<ByteString>, es: seq<WalEntry>)
    requires OneLiners(lines) && SayAll(fm, lines, es)
    requires SnapshotContent(fm, snapshot).status == Ok
    ensures RecoverFrom(fm, Disk(Some(TextOf(lines)), snapshot)) ==
            Recovered(Replay(Replay(map[], SnapshotContent(fm, snapshot).entries), es), Ok)
  {
    hide SayAll, OneLiners, SnapshotContent, WalContent;
    TextLogReads(fm, lines, es);
  }

  /** A line that is neither is passed over; a put that cannot be read ends the log. */
  lemma OtherLines(fm: Formats, line: ByteString, rest: seq<ByteString>)
    ensures !([0x50, BAR] <= line) && !([0x44, BAR] <= line) ==>
              TextEntries(fm, [line] + rest) == TextEntries(fm, rest)
    ensures [0x50, BAR] <= line && fm.textRecord(line[2..]).None? ==>
              TextEntries(fm, [line] + rest) == LogResult([], BadRecord)
  {
    assert ([line] + rest)[1..] == rest;
    if !([0x50, BAR] <= line) && !([0x44, BAR] <= line) && |line| >= 2 {
      assert line[..2] == [line[0], line[1]];
    }
  }

  /** A framed entry deletes exactly when it says so; an unspecified operation is a put. */
  lemma OperationExactly(fm: Formats, payload: ByteString)
    ensures var d, w := DecodeWalEntry(fm, payload), fm.parseEntry(payload);
            && (d.Some? <==> w.Some?)
            && (d.Some? ==>
                  && (d.value.operation == Delete <==> w.value.operation == WireDelete)
                  && (w.value.operation == Unspecified ==> d.value == PutEntry(w.value.record)))
  {
  }
}
