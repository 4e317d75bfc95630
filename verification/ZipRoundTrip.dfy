/** What is written is read back: by the reader of this repository, and by one that goes through the central
    directory. */
module ZipRoundTrip {
  import opened Wrappers
  import opened Checksums
  import opened ZipFormat
  import opened ZipArchives

  /** The sizes fit the fields of the headers. */
  predicate FitsFields(f: File) {
    |f.name| < 0x1_0000 && |f.content| < 0x1_0000_0000
  }

  predicate AllFitFields(files: seq<File>) {
    forall i | 0 <= i < |files| :: FitsFields(files[i])
  }

  // ----- Where the records stand -----

  lemma {:induction false} LocalsSplit(files: seq<File>, i: nat) returns (tail: seq<Field>)
    requires i <= |files|
    ensures Locals(files) == Locals(files[..i]) + tail
  {
    hide LocalFields;
    if i == |files| {
      tail := [];
      assert files[..i] == files;
      assert Locals(files) + [] == Locals(files);
    } else {
      var k := |files| - 1;
      var t := LocalsSplit(files[..k], i);
      assert files[..k][..i] == files[..i];
      tail := t + LocalFields(files[k]);
      assert (Locals(files[..i]) + t) + LocalFields(files[k]) == Locals(files[..i]) + tail;
    }
  }

  lemma {:induction false} CentralsSplit(files: seq<File>, i: nat) returns (tail: seq<Field>)
    requires i <= |files|
    ensures Centrals(files) == Centrals(files[..i]) + tail
  {
    hide CentralFields, LocalsSize;
    if i == |files| {
      tail := [];
      assert files[..i] == files;
      assert Centrals(files) + [] == Centrals(files);
    } else {
      var k := |files| - 1;
      var t := CentralsSplit(files[..k], i);
      assert files[..k][..i] == files[..i];
      var last := CentralFields(files[k], LocalsSize(files[..k]));
      tail := t + last;
      assert (Centrals(files[..i]) + t) + last == Centrals(files[..i]) + tail;
    }
  }

  /** A group of fields of the archive stands where the sizes of those before it say. */
  lemma GroupAt(a: seq<Field>, b: seq<Field>, c: seq<Field>)
    ensures HasAt(Encoded((a + b) + c), SizeOf(a), Encoded(b))
  {
    hide Encoded, SizeOf, HasAt;
    EncodedAppend(a + b, c);
    EncodedAppend(a, b);
    EncodedLength(a);
    WholeAt(Encoded(a) + Encoded(b) + Encoded(c));
    PartAt(Encoded(a) + Encoded(b) + Encoded(c), 0, Encoded(a), Encoded(b), Encoded(c));
  }

  lemma WholeAt(buf: seq<Byte>)
    ensures HasAt(buf, 0, buf)
  {
  }

  lemma Regroup<T>(l: seq<T>, c: seq<T>, b: seq<T>, t: seq<T>, e: seq<T>)
    ensures (l + ((c + b) + t)) + e == ((l + c) + b) + (t + e)
  {
  }

  lemma LocalHeaderAt(files: seq<File>, i: nat)
    requires i < |files|
    ensures HasAt(Zip(files), LocalsSize(files[..i]), Encoded(LocalFields(files[i])))
  {
    hide HasAt, Encoded, SizeOf, LocalFields, Locals, LocalsSize, Centrals, CentralsSize, EndFields;
    var tail := LocalsSplit(files, i + 1);
    LocalsSnoc(files, i);
    LocalsSizeIs(files[..i]);
    var a, b := Locals(files[..i]), LocalFields(files[i]);
    var end := EndFields(|files|, CentralsSize(files), LocalsSize(files));
    var c := tail + Centrals(files) + end;
    assert ZipFields(files) == (a + b) + c;
    GroupAt(a, b, c);
  }

  /** The i-th central entry holds the offset at which, as above, its local header stands. */
  lemma CentralHeaderAt(files: seq<File>, i: nat)
    requires i < |files|
    ensures HasAt(Zip(files), LocalsSize(files) + CentralsSize(files[..i]),
                  Encoded(CentralFields(files[i], LocalsSize(files[..i]))))
  {
    hide HasAt, Encoded, SizeOf, CentralFields, Locals, LocalsSize, Centrals, CentralsSize, EndFields;
    var tail := CentralsSplit(files, i + 1);
    LocalsSnoc(files, i);
    LocalsSizeIs(files);
    CentralsSizeIs(files[..i]);
    var a, b := Locals(files) + Centrals(files[..i]), CentralFields(files[i], LocalsSize(files[..i]));
    EncodedAppend(Locals(files), Centrals(files[..i]));
    var end := EndFields(|files|, CentralsSize(files), LocalsSize(files));
    Regroup(Locals(files), Centrals(files[..i]), b, tail, end);
    GroupAt(a, b, tail + end);
  }

  lemma EndRecordAt(files: seq<File>)
    ensures |Zip(files)| >= 22
    ensures HasAt(Zip(files), |Zip(files)| - 22,
                  Encoded(EndFields(|files|, CentralsSize(files), LocalsSize(files))))
  {
    hide HasAt, Encoded, SizeOf, Locals, LocalsSize, Centrals, CentralsSize, EndFields;
    ZipSize(files);
    LocalsSizeIs(files);
    CentralsSizeIs(files);
    var a := Locals(files) + Centrals(files);
    EncodedAppend(Locals(files), Centrals(files));
    var end := EndFields(|files|, CentralsSize(files), LocalsSize(files));
    assert ZipFields(files) == (a + end) + [];
    GroupAt(a, end, []);
  }

  // ----- Reading the records -----

  lemma Bounds(buf: seq<Byte>, off: nat, bytes: seq<Byte>)
    requires HasAt(buf, off, bytes)
    ensures off + |bytes| <= |buf|
  {
  }

  lemma ReadRaw(buf: seq<Byte>, off: nat, bytes: seq<Byte>)
    requires HasAt(buf, off, Encode(Raw(bytes)))
    ensures off + |bytes| <= |buf| && buf[off..off + |bytes|] == bytes && Slice(buf, off, off + |bytes|) == bytes
  {
  }

  lemma ReadField16(buf: seq<Byte>, off: nat, fields: seq<Field>, k: nat, at: nat)
    requires k < |fields| && fields[k].U16? && fields[k].value < 0x1_0000
    requires HasAt(buf, off, Encoded(fields)) && OffsetOf(fields, k) == at
    ensures off + at + 2 <= |buf| && ReadU16(buf, off + at) == fields[k].value
  {
    FieldAt(buf, off, fields, k);
    Bounds(buf, off + at, Encode(fields[k]));
    ReadBack16(buf, off + at, fields[k].value);
  }

  lemma ReadField32(buf: seq<Byte>, off: nat, fields: seq<Field>, k: nat, at: nat)
    requires k < |fields| && fields[k].U32? && fields[k].value < 0x1_0000_0000
    requires HasAt(buf, off, Encoded(fields)) && OffsetOf(fields, k) == at
    ensures off + at + 4 <= |buf| && ReadU32(buf, off + at) == fields[k].value
  {
    FieldAt(buf, off, fields, k);
    Bounds(buf, off + at, Encode(fields[k]));
    ReadBack32(buf, off + at, fields[k].value);
  }

  lemma ReadFieldRaw(buf: seq<Byte>, off: nat, fields: seq<Field>, k: nat, at: nat)
    requires k < |fields| && fields[k].Raw?
    requires HasAt(buf, off, Encoded(fields)) && OffsetOf(fields, k) == at
    ensures var n := |fields[k].bytes|;
            && off + at + n <= |buf| && buf[off + at..off + at + n] == fields[k].bytes
            && Slice(buf, off + at, off + at + n) == fields[k].bytes
  {
    FieldAt(buf, off, fields, k);
    ReadRaw(buf, off + at, fields[k].bytes);
  }

  /** A local header says what its file is. */
  lemma ReadLocal(buf: seq<Byte>, off: nat, f: File)
    requires HasAt(buf, off, Encoded(LocalFields(f))) && FitsFields(f)
    ensures off + 30 + |f.name| + |f.content| <= |buf|
    ensures ReadU32(buf, off) == LOCAL_FILE_HEADER && ReadU16(buf, off + 8) == 0 &&
              ReadU32(buf, off + 18) == |f.content|
    ensures ReadU16(buf, off + 26) == |f.name| && ReadU16(buf, off + 28) == 0
    ensures Slice(buf, off + 30, off + 30 + |f.name|) == f.name
    ensures var data := off + 30 + |f.name|;
            buf[data..data + |f.content|] == f.content == Slice(buf, data, data + |f.content|)
  {
    hide HasAt, Encoded, OffsetOf, Checksum, ReadU16, ReadU32, Slice, SizeOf;
    var r := LocalFields(f);
    LocalOffsets(f);
    ReadField32(buf, off, r, 0, 0);
    ReadField16(buf, off, r, 3, 8);
    ReadField32(buf, off, r, 7, 18);
    ReadField16(buf, off, r, 9, 26);
    ReadField16(buf, off, r, 10, 28);
    ReadFieldRaw(buf, off, r, 11, 30);
    ReadFieldRaw(buf, off, r, 12, 30 + |f.name|);
  }

  lemma ReadCentral(buf: seq<Byte>, off: nat, f: File, localOffset: nat)
    requires HasAt(buf, off, Encoded(CentralFields(f, localOffset))) && FitsFields(f) && localOffset < 0x1_0000_0000
    ensures off + 46 + |f.name| <= |buf|
    ensures ReadU32(buf, off) == CENTRAL_DIR_HEADER && ReadU32(buf, off + 16) == Checksum(f.content)
    ensures ReadU32(buf, off + 20) == |f.content| && ReadU16(buf, off + 28) == |f.name|
    ensures ReadU16(buf, off + 30) == 0 && ReadU16(buf, off + 32) == 0 && ReadU32(buf, off + 42) == localOffset
    ensures buf[off + 46..off + 46 + |f.name|] == f.name
  {
    hide HasAt, Encoded, OffsetOf, Checksum, ReadU16, ReadU32, Slice, SizeOf;
    var r := CentralFields(f, localOffset);
    CentralOffsets(f, localOffset);
    ReadField32(buf, off, r, 0, 0);
    ReadField32(buf, off, r, 7, 16);
    ReadField32(buf, off, r, 8, 20);
    ReadField16(buf, off, r, 10, 28);
    ReadField16(buf, off, r, 11, 30);
    ReadField16(buf, off, r, 12, 32);
    ReadField32(buf, off, r, 16, 42);
    ReadFieldRaw(buf, off, r, 17, 46);
  }

  lemma ReadEnd(buf: seq<Byte>, off: nat, count: nat, size: nat, start: nat)
    requires HasAt(buf, off, Encoded(EndFields(count, size, start))) && count < 0x1_0000 && start < 0x1_0000_0000
    ensures off + 22 <= |buf|
    ensures ReadU32(buf, off) == END_OF_CENTRAL_DIR && ReadU16(buf, off + 10) == count &&
              ReadU32(buf, off + 16) == start
  {
    hide HasAt, Encoded, OffsetOf, ReadU16, ReadU32, SizeOf;
    var r := EndFields(count, size, start);
    EndOffsets(count, size, start);
    EncodedLength(r);
    Bounds(buf, off, Encoded(r));
    ReadField32(buf, off, r, 0, 0);
    ReadField16(buf, off, r, 4, 10);
    ReadField32(buf, off, r, 6, 16);
  }

  // ----- The reader of this repository -----

  lemma ParseOne(buf: seq<Byte>, off: nat, f: File)
    requires HasAt(buf, off, Encoded(LocalFields(f))) && FitsFields(f)
    ensures ParseFrom(buf, off) == Prepend([f], ParseFrom(buf, off + 30 + |f.name| + |f.content|))
  {
    hide HasAt, Encoded, LocalFields, ReadU16, ReadU32, Slice;
    ReadLocal(buf, off, f);
    assert EntryAt(buf, off) == (f, off + 30 + |f.name| + |f.content|);
  }

  lemma StopsAtCentral(buf: seq<Byte>, off: nat)
    requires off + 30 <= |buf| ==> ReadU32(buf, off) == CENTRAL_DIR_HEADER
    ensures ParseFrom(buf, off) == Success([])
  {
  }

  lemma {:induction false} ParseRest(files: seq<File>, i: nat)
    requires i <= |files| && AllFitFields(files)
    ensures ParseFrom(Zip(files), LocalsSize(files[..i])) == Success(files[i..])
    decreases |files| - i
  {
    hide HasAt, Encoded, LocalFields, CentralFields, ParseFrom, ReadU32, Zip, LocalsSize, CentralsSize;
    var buf := Zip(files);
    if i < |files| {
      LocalHeaderAt(files, i);
      ParseOne(buf, LocalsSize(files[..i]), files[i]);
      LocalsSnoc(files, i);
      ParseRest(files, i + 1);
      assert files[i..] == [files[i]] + files[i + 1..];
    } else {
      assert files[..i] == files;
      ZipSize(files);
      NoCentrals();
      NothingSized();
      if files != [] {
        CentralHeaderAt(files, 0);
        assert files[..0] == [];
        ReadCentral(buf, LocalsSize(files), files[0], 0);
      }
      StopsAtCentral(buf, LocalsSize(files));
      assert files[i..] == [];
    }
  }

  /** `parseStoreZip(createZip(files))` gives the files back, in order. */
  lemma ParseRoundTrip(files: seq<File>)
    requires AllFitFields(files)
    ensures ParseFrom(Zip(files), 0) == Success(files)
  {
    hide ParseFrom, Zip;
    ParseRest(files, 0);
    assert files[..0] == [] && files[0..] == files;
  }

  // ----- A reader that goes through the central directory and checks the checksums -----

  function EntryFromDirectory(buf: seq<Byte>, off: nat): Option<(File, nat)> {
    if off + 46 > |buf| || ReadU32(buf, off) != CENTRAL_DIR_HEADER then None
    else
      var nameLen, size, at := ReadU16(buf, off + 28), ReadU32(buf, off + 20), ReadU32(buf, off + 42);
      var next := off + 46 + nameLen + ReadU16(buf, off + 30) + ReadU16(buf, off + 32);
      if next > |buf| || at + 30 > |buf| || ReadU32(buf, at) != LOCAL_FILE_HEADER then None
      else
        var data := at + 30 + ReadU16(buf, at + 26) + ReadU16(buf, at + 28);
        if data + size > |buf| || Checksum(buf[data..data + size]) != ReadU32(buf, off + 16) then None
        else Some((File(buf[off + 46..off + 46 + nameLen], buf[data..data + size]), next))
  }

  function EntriesFromDirectory(buf: seq<Byte>, off: nat, count: nat): Option<seq<File>>
    decreases count
  {
    if count == 0 then Some([])
    else
      match EntryFromDirectory(buf, off)
      case None => None
      case Some((f, next)) =>
        match EntriesFromDirectory(buf, next, count - 1)
        case None => None
        case Some(rest) => Some([f] + rest)
  }

  function ReadByDirectory(buf: seq<Byte>): Option<seq<File>> {
    if |buf| < 22 || ReadU32(buf, |buf| - 22) != END_OF_CENTRAL_DIR then None
    else EntriesFromDirectory(buf, ReadU32(buf, |buf| - 6), ReadU16(buf, |buf| - 12))
  }

  lemma DirectoryEntry(files: seq<File>, i: nat)
    requires i < |files| && AllFitFields(files) && |Zip(files)| < 0x1_0000_0000
    ensures EntryFromDirectory(Zip(files), LocalsSize(files) + CentralsSize(files[..i])) ==
            Some((files[i], LocalsSize(files) + CentralsSize(files[..i + 1])))
  {
    hide HasAt, Encoded, LocalFields, CentralFields, ReadU16, ReadU32, Zip, LocalsSize, CentralsSize, Checksum;
    var buf, off, at := Zip(files), LocalsSize(files) + CentralsSize(files[..i]), LocalsSize(files[..i]);
    ZipSize(files);
    SizesGrow(files, i);
    SizesGrow(files, i + 1);
    LocalsSnoc(files, i);
    LocalHeaderAt(files, i);
    CentralHeaderAt(files, i);
    ReadCentral(buf, off, files[i], at);
    ReadLocal(buf, at, files[i]);
  }

  lemma {:induction false} DirectoryRest(files: seq<File>, i: nat)
    requires i <= |files| && AllFitFields(files) && |Zip(files)| < 0x1_0000_0000
    ensures EntriesFromDirectory(Zip(files), LocalsSize(files) + CentralsSize(files[..i]), |files| - i) ==
            Some(files[i..])
    decreases |files| - i
  {
    hide Zip, LocalsSize, CentralsSize, EntryFromDirectory;
    if i < |files| {
      DirectoryEntry(files, i);
      DirectoryRest(files, i + 1);
      assert files[i..] == [files[i]] + files[i + 1..];
    } else {
      assert files[i..] == [];
    }
  }

  /** Every entry of the directory leads to its file, with the checksum of the standard. */
  lemma DirectoryRoundTrip(files: seq<File>)
    requires AllFitFields(files) && |files| < 0x1_0000 && |Zip(files)| < 0x1_0000_0000
    ensures ReadByDirectory(Zip(files)) == Some(files)
  {
    hide HasAt, Encoded, EndFields, Zip, LocalsSize, CentralsSize, ReadU16, ReadU32, EntriesFromDirectory;
    var buf := Zip(files);
    ZipSize(files);
    EndRecordAt(files);
    ReadEnd(buf, |buf| - 22, |files|, CentralsSize(files), LocalsSize(files));
    NoCentrals();
    assert files[..0] == [] && files[0..] == files;
    DirectoryRest(files, 0);
  }
}
