/**
 What `parseStoreZip` of ts-apps/vscode/src/deployment-install.ts makes of archives that others have written: local
 headers with any extra field and whatever else they hold, and where it fails.
 */
module ZipForeign {
  import opened Wrappers
  import opened Checksums
  import opened ZipFormat
  import opened ZipArchives
  import opened ZipRoundTrip

  /** A stored entry; fields that the reader does not look at are free. */
  datatype Stored = Stored(
    version: nat, flags: nat, time: nat, date: nat, crc: nat, fullSize: nat, file: File, extra: seq<Byte>)

  /** A local header (section 4.3.7 of the APPNOTE) with the content behind it. */
  function StoredFields(e: Stored): seq<Field> {
    [U32(LOCAL_FILE_HEADER), U16(e.version), U16(e.flags), U16(0), U16(e.time), U16(e.date), U32(e.crc),
     U32(|e.file.content|), U32(e.fullSize), U16(|e.file.name|), U16(|e.extra|), Raw(e.file.name), Raw(e.extra),
     Raw(e.file.content)]
  }

  predicate Fits(e: Stored) {
    FitsFields(e.file) && |e.extra| < 0x1_0000
  }

  predicate AllFit(entries: seq<Stored>) {
    forall e | e in entries :: Fits(e)
  }

  function EntryBytes(e: Stored): seq<Byte> {
    Encoded(StoredFields(e))
  }

  function AllBytes(entries: seq<Stored>): seq<Byte> {
    if entries == [] then [] else EntryBytes(entries[0]) + AllBytes(entries[1..])
  }

  function FilesOf(entries: seq<Stored>): seq<File> {
    if entries == [] then [] else [entries[0].file] + FilesOf(entries[1..])
  }

  // ----- One entry -----

  lemma StoredOffsets(e: Stored)
    ensures var r := StoredFields(e);
            && OffsetOf(r, 0) == 0 && OffsetOf(r, 3) == 8 && OffsetOf(r, 7) == 18 && OffsetOf(r, 9) == 26
            && OffsetOf(r, 10) == 28 && OffsetOf(r, 11) == 30 && OffsetOf(r, 13) == 30 + |e.file.name| + |e.extra|
    ensures |EntryBytes(e)| == 30 + |e.file.name| + |e.extra| + |e.file.content|
  {
    hide SizeOf;
    var r := StoredFields(e);
    assert OffsetOf(r, 1) == 4;
    assert OffsetOf(r, 2) == 6;
    assert OffsetOf(r, 3) == 8;
    assert OffsetOf(r, 5) == 12;
    assert OffsetOf(r, 7) == 18;
    assert OffsetOf(r, 9) == 26;
    assert OffsetOf(r, 10) == 28;
    assert OffsetOf(r, 11) == 30;
    assert OffsetOf(r, 13) == 30 + |e.file.name| + |e.extra|;
    assert OffsetOf(r, 14) == 30 + |e.file.name| + |e.extra| + |e.file.content|;
    AllOffsetIsSize(r);
    EncodedLength(r);
  }

  lemma ReadStored(buf: seq<Byte>, off: nat, e: Stored)
    requires HasAt(buf, off, EntryBytes(e)) && Fits(e)
    ensures off + 30 <= |buf| && ReadU32(buf, off) == LOCAL_FILE_HEADER && ReadU16(buf, off + 8) == 0
    ensures EntryAt(buf, off) == (e.file, off + |EntryBytes(e)|)
  {
    hide HasAt, Encoded, OffsetOf, ReadU16, ReadU32, Slice, SizeOf;
    var r := StoredFields(e);
    StoredOffsets(e);
    Bounds(buf, off, EntryBytes(e));
    ReadField32(buf, off, r, 0, 0);
    ReadField16(buf, off, r, 3, 8);
    ReadField32(buf, off, r, 7, 18);
    ReadField16(buf, off, r, 9, 26);
    ReadField16(buf, off, r, 10, 28);
    ReadFieldRaw(buf, off, r, 11, 30);
    ReadFieldRaw(buf, off, r, 13, 30 + |e.file.name| + |e.extra|);
  }

  lemma ParseStored(buf: seq<Byte>, off: nat, e: Stored)
    requires HasAt(buf, off, EntryBytes(e)) && Fits(e)
    ensures ParseFrom(buf, off) == Prepend([e.file], ParseFrom(buf, off + |EntryBytes(e)|))
  {
    hide HasAt, EntryBytes, ReadU16, ReadU32, Slice;
    ReadStored(buf, off, e);
  }

  // ----- All entries -----

  lemma {:induction false} ParseEntries(before: seq<Byte>, entries: seq<Stored>, after: seq<Byte>)
    requires AllFit(entries)
    ensures var buf := before + AllBytes(entries) + after;
            ParseFrom(buf, |before|) == Prepend(FilesOf(entries), ParseFrom(buf, |before + AllBytes(entries)|))
    decreases |entries|
  {
    hide EntryBytes, ParseFrom;
    var buf := before + AllBytes(entries) + after;
    if entries == [] {
      assert before + AllBytes(entries) == before;
      PrependNothing(ParseFrom(buf, |before|));
    } else {
      var e, rest := entries[0], entries[1..];
      var next := before + EntryBytes(e);
      assert before + AllBytes(entries) == next + AllBytes(rest);
      assert buf == next + AllBytes(rest) + after;
      assert buf == before + EntryBytes(e) + (AllBytes(rest) + after);
      StandsBehind(before, EntryBytes(e), AllBytes(rest) + after);
      ParseStored(buf, |before|, e);
      ParseEntries(next, rest, after);
      PrependMore(e.file, FilesOf(rest), ParseFrom(buf, |before + AllBytes(entries)|));
    }
  }

  lemma StandsBehind(a: seq<Byte>, b: seq<Byte>, c: seq<Byte>)
    ensures HasAt(a + b + c, |a|, b)
  {
  }

  lemma PrependMore(f: File, files: seq<File>, r: Result<seq<File>, ParseError>)
    ensures Prepend([f] + files, r) == Prepend([f], Prepend(files, r))
  {
    if r.Success? {
      assert ([f] + files) + r.value == [f] + (files + r.value);
    }
  }

  /** What follows the entries decides how the walk ends. */
  function EndOf(after: seq<Byte>, at: nat): (end: Option<ParseError>)
    requires |after| >= 30 ==> !(ReadU32(after, 0) == LOCAL_FILE_HEADER && ReadU16(after, 8) == 0)
  {
    if |after| < 30 || ReadU32(after, 0) == CENTRAL_DIR_HEADER then None
    else if ReadU32(after, 0) != LOCAL_FILE_HEADER then Some(UnexpectedSignature(ReadU32(after, 0), at))
    else Some(UnsupportedMethod(ReadU16(after, 8)))
  }

  lemma ReadsAreLocal(before: seq<Byte>, after: seq<Byte>, k: nat)
    ensures k + 2 <= |after| ==> ReadU16(before + after, |before| + k) == ReadU16(after, k)
    ensures k + 4 <= |after| ==> ReadU32(before + after, |before| + k) == ReadU32(after, k)
  {
    assert forall i | 0 <= i < |after| :: (before + after)[|before| + i] == after[i];
  }

  lemma ParseEnd(before: seq<Byte>, after: seq<Byte>)
    requires |after| >= 30 ==> !(ReadU32(after, 0) == LOCAL_FILE_HEADER && ReadU16(after, 8) == 0)
    ensures var end := EndOf(after, |before|);
            ParseFrom(before + after, |before|) == if end.None? then Success([]) else Failure(end.value)
  {
    hide ReadU16, ReadU32;
    ReadsAreLocal(before, after, 0);
    ReadsAreLocal(before, after, 8);
  }

  /**
   Stored entries come back with their names and contents, in order, whatever their headers hold besides and however
   long their extra fields are, when fewer than 30 bytes or the central directory follow. Anything else that follows
   makes the whole archive fail, with the signature and where it stands, or with the compression method.
   */
  lemma ForeignArchive(entries: seq<Stored>, after: seq<Byte>)
    requires AllFit(entries)
    requires |after| >= 30 ==> !(ReadU32(after, 0) == LOCAL_FILE_HEADER && ReadU16(after, 8) == 0)
    ensures var r := ParseFrom(AllBytes(entries) + after, 0);
            && (|after| < 30 || ReadU32(after, 0) == CENTRAL_DIR_HEADER ==> r == Success(FilesOf(entries)))
            && (|after| >= 30 && ReadU32(after, 0) != CENTRAL_DIR_HEADER && ReadU32(after, 0) != LOCAL_FILE_HEADER ==>
                  r == Failure(UnexpectedSignature(ReadU32(after, 0), |AllBytes(entries)|)))
            && (|after| >= 30 && ReadU32(after, 0) == LOCAL_FILE_HEADER ==>
                  r == Failure(UnsupportedMethod(ReadU16(after, 8))))
  {
    hide ParseFrom, ReadU16, ReadU32, EntryBytes;
    ParseEntries([], entries, after);
    ParseEnd(AllBytes(entries), after);
    assert [] + AllBytes(entries) + after == AllBytes(entries) + after && [] + AllBytes(entries) == AllBytes(entries);
    assert FilesOf(entries) + [] == FilesOf(entries);
  }
}
