/**
 `createZip` of ts-apps/vscode/src/sidebar-provider.ts, which fills a buffer at a moving offset, and `parseStoreZip` of
 ts-apps/vscode/src/deployment-install.ts, which walks one.
 */
module ZipArchives {
  import opened Wrappers
  import opened Checksums
  import opened ZipFormat

  // ----- Writing -----

  /** The buffer holds `fields` up to the offset. */
  ghost predicate Written(buf: array<Byte>, offset: nat, fields: seq<Field>)
    reads buf
  {
    offset == SizeOf(fields) <= buf.Length && buf[..offset] == Encoded(fields)
  }

  /** `view.setUint16(offset, v, true)` */
  method SetUint16(buf: array<Byte>, offset: nat, v: nat)
    requires offset + 2 <= buf.Length
    modifies buf
    ensures buf[..offset] == old(buf[..offset]) && buf[offset..offset + 2] == Encode(U16(v))
  {
    hide ByteOf;
    buf[offset], buf[offset + 1] := ByteOf(v), ByteOf(v / 0x100);
  }

  /** `view.setUint32(offset, v, true)` */
  method SetUint32(buf: array<Byte>, offset: nat, v: nat)
    requires offset + 4 <= buf.Length
    modifies buf
    ensures buf[..offset] == old(buf[..offset]) && buf[offset..offset + 4] == Encode(U32(v))
  {
    hide ByteOf;
    buf[offset], buf[offset + 1] := ByteOf(v), ByteOf(v / 0x100);
    buf[offset + 2], buf[offset + 3] := ByteOf(v / 0x1_0000), ByteOf(v / 0x100_0000);
  }

  /** `bytes.set(data, offset)` */
  method SetBytes(buf: array<Byte>, offset: nat, data: seq<Byte>)
    requires offset + |data| <= buf.Length
    modifies buf
    ensures buf[..offset] == old(buf[..offset]) && buf[offset..offset + |data|] == data
  {
    forall i | 0 <= i < |data| {
      buf[offset + i] := data[i];
    }
  }

  /** One field, and the move of the offset behind it. */
  method Set(buf: array<Byte>, offset: nat, ghost fields: seq<Field>, f: Field) returns (next: nat)
    requires Written(buf, offset, fields) && offset + Size(f) <= buf.Length
    modifies buf
    ensures next == offset + Size(f) && Written(buf, next, fields + [f])
  {
    hide Encode;
    next := offset + Size(f);
    match f {
      case U16(v) => SetUint16(buf, offset, v);
      case U32(v) => SetUint32(buf, offset, v);
      case Raw(bytes) =>
        SetBytes(buf, offset, bytes);
        assert Encode(f) == bytes by {
          RawIsItself(bytes);
        }
    }
    EncodedSnoc(fields, f);
    assert buf[..next] == buf[..offset] + buf[offset..next];
  }

  lemma RawIsItself(bytes: seq<Byte>)
    ensures Encode(Raw(bytes)) == bytes
  {
  }

  datatype Entry = Entry(file: File, crc: nat, localOffset: nat)

  /** What the first loop records for each file. */
  ghost predicate EntriesOf(files: seq<File>, entries: seq<Entry>) {
    && |entries| == |files|
    && forall i | 0 <= i < |files| ::
         entries[i] == Entry(files[i], Checksum(files[i].content), LocalsSize(files[..i]))
  }

  method Entries(files: seq<File>) returns (entries: seq<Entry>, localSize: nat)
    ensures EntriesOf(files, entries) && localSize == LocalsSize(files)
  {
    hide Crc, IsTable, LocalsSize, CentralsSize, Locals, Centrals;
    var table := CrcTable();
    entries, localSize := [], 0;
    NothingSized();
    for i := 0 to |files|
      invariant IsTable(table[..])
      invariant |entries| == i && localSize == LocalsSize(files[..i])
      invariant forall k | 0 <= k < i ::
                  entries[k] == Entry(files[k], Checksum(files[k].content), LocalsSize(files[..k]))
    {
      var crc := Crc32(table, files[i].content);
      entries := entries + [Entry(files[i], crc as nat, localSize)];
      localSize := localSize + 30 + |files[i].name| + |files[i].content|;
      LocalsSnoc(files, i);
    }
    assert files[..|files|] == files;
  }

  /** Checksum, both sizes, the length of the name, and no extra field: the same in both headers. */
  function SizeFields(f: File): seq<Field> {
    [U32(Checksum(f.content)), U32(|f.content|), U32(|f.content|), U16(|f.name|), U16(0)]
  }

  method SetSizes(buf: array<Byte>, offset: nat, ghost fields: seq<Field>, e: Entry) returns (next: nat)
    requires Written(buf, offset, fields) && e.crc == Checksum(e.file.content) && offset + 16 <= buf.Length
    modifies buf
    ensures next == offset + 16 && Written(buf, next, fields + SizeFields(e.file))
  {
    hide Written, Checksum;
    ghost var g := fields;
    var size, length := |e.file.content|, |e.file.name|;
    next := Set(buf, offset, g, U32(e.crc));
    g := g + [U32(e.crc)];
    next := Set(buf, next, g, U32(size));
    g := g + [U32(size)];
    next := Set(buf, next, g, U32(size));
    g := g + [U32(size)];
    next := Set(buf, next, g, U16(length));
    g := g + [U16(length)];
    next := Set(buf, next, g, U16(0));
    g := g + [U16(0)];
    assert g == fields + SizeFields(e.file);
  }

  method SetLocal(buf: array<Byte>, offset: nat, ghost fields: seq<Field>, e: Entry) returns (next: nat)
    requires Written(buf, offset, fields) && e.crc == Checksum(e.file.content)
    requires offset + 30 + |e.file.name| + |e.file.content| <= buf.Length
    modifies buf
    ensures next == offset + 30 + |e.file.name| + |e.file.content|
    ensures Written(buf, next, fields + LocalFields(e.file))
  {
    hide Written, Checksum;
    ghost var g := fields;
    next := Set(buf, offset, g, U32(LOCAL_FILE_HEADER));
    g := g + [U32(LOCAL_FILE_HEADER)];
    next := Set(buf, next, g, U16(20));
    g := g + [U16(20)];
    next := Set(buf, next, g, U16(0));
    g := g + [U16(0)];
    next := Set(buf, next, g, U16(0));
    g := g + [U16(0)];
    next := Set(buf, next, g, U16(0));
    g := g + [U16(0)];
    next := Set(buf, next, g, U16(0));
    g := g + [U16(0)];
    next := SetSizes(buf, next, g, e);
    g := g + SizeFields(e.file);
    next := Set(buf, next, g, Raw(e.file.name));
    g := g + [Raw(e.file.name)];
    next := Set(buf, next, g, Raw(e.file.content));
    g := g + [Raw(e.file.content)];
    assert g == fields + LocalFields(e.file);
  }

  method SetCentral(buf: array<Byte>, offset: nat, ghost fields: seq<Field>, e: Entry) returns (next: nat)
    requires Written(buf, offset, fields) && e.crc == Checksum(e.file.content)
    requires offset + 46 + |e.file.name| <= buf.Length
    modifies buf
    ensures next == offset + 46 + |e.file.name|
    ensures Written(buf, next, fields + CentralFields(e.file, e.localOffset))
  {
    hide Written, Checksum;
    ghost var g := fields;
    next := Set(buf, offset, g, U32(CENTRAL_DIR_HEADER));
    g := g + [U32(CENTRAL_DIR_HEADER)];
    next := Set(buf, next, g, U16(20));
    g := g + [U16(20)];
    next := Set(buf, next, g, U16(20));
    g := g + [U16(20)];
    next := Set(buf, next, g, U16(0));
    g := g + [U16(0)];
    next := Set(buf, next, g, U16(0));
    g := g + [U16(0)];
    next := Set(buf, next, g, U16(0));
    g := g + [U16(0)];
    next := Set(buf, next, g, U16(0));
    g := g + [U16(0)];
    next := SetSizes(buf, next, g, e);
    g := g + SizeFields(e.file);
    next := SetPlace(buf, next, g, e);
    g := g + PlaceFields(e.file, e.localOffset);
    assert g == fields + CentralFields(e.file, e.localOffset);
  }

  /** The end of a central header. */
  function PlaceFields(f: File, localOffset: nat): seq<Field> {
    [U16(0), U16(0), U16(0), U32(0), U32(localOffset), Raw(f.name)]
  }

  method SetPlace(buf: array<Byte>, offset: nat, ghost fields: seq<Field>, e: Entry) returns (next: nat)
    requires Written(buf, offset, fields) && offset + 14 + |e.file.name| <= buf.Length
    modifies buf
    ensures next == offset + 14 + |e.file.name| && Written(buf, next, fields + PlaceFields(e.file, e.localOffset))
  {
    hide Written;
    ghost var g := fields;
    next := Set(buf, offset, g, U16(0));
    g := g + [U16(0)];
    next := Set(buf, next, g, U16(0));
    g := g + [U16(0)];
    next := Set(buf, next, g, U16(0));
    g := g + [U16(0)];
    next := Set(buf, next, g, U32(0));
    g := g + [U32(0)];
    next := Set(buf, next, g, U32(e.localOffset));
    g := g + [U32(e.localOffset)];
    next := Set(buf, next, g, Raw(e.file.name));
    g := g + [Raw(e.file.name)];
    assert g == fields + PlaceFields(e.file, e.localOffset);
  }

  method SetEnd(buf: array<Byte>, offset: nat, ghost fields: seq<Field>, count: nat, centralSize: nat,
                centralOffset: nat)
    returns (next: nat)
    requires Written(buf, offset, fields) && offset + 22 <= buf.Length
    modifies buf
    ensures next == offset + 22
    ensures Written(buf, next, fields + EndFields(count, centralSize, centralOffset))
  {
    hide Written;
    ghost var g := fields;
    next := Set(buf, offset, g, U32(END_OF_CENTRAL_DIR));
    g := g + [U32(END_OF_CENTRAL_DIR)];
    next := Set(buf, next, g, U16(0));
    g := g + [U16(0)];
    next := Set(buf, next, g, U16(0));
    g := g + [U16(0)];
    next := Set(buf, next, g, U16(count));
    g := g + [U16(count)];
    next := Set(buf, next, g, U16(count));
    g := g + [U16(count)];
    next := Set(buf, next, g, U32(centralSize));
    g := g + [U32(centralSize)];
    next := Set(buf, next, g, U32(centralOffset));
    g := g + [U32(centralOffset)];
    next := Set(buf, next, g, U16(0));
    g := g + [U16(0)];
    assert g == fields + EndFields(count, centralSize, centralOffset);
  }

  lemma {:induction false} SizesGrow(files: seq<File>, i: nat)
    requires i <= |files|
    ensures LocalsSize(files[..i]) <= LocalsSize(files) && CentralsSize(files[..i]) <= CentralsSize(files)
    decreases |files| - i
  {
    if i < |files| {
      LocalsSnoc(files, i);
      SizesGrow(files, i + 1);
    } else {
      assert files[..i] == files;
    }
  }

  method SetLocals(buf: array<Byte>, ghost files: seq<File>, entries: seq<Entry>) returns (offset: nat)
    requires EntriesOf(files, entries) && LocalsSize(files) <= buf.Length
    modifies buf
    ensures offset == LocalsSize(files) && Written(buf, offset, Locals(files))
  {
    hide Written, LocalFields, Checksum, Locals, LocalsSize;
    offset := 0;
    NothingWritten(buf);
    for i := 0 to |entries|
      invariant offset == LocalsSize(files[..i]) && Written(buf, offset, Locals(files[..i]))
    {
      LocalsSnoc(files, i);
      SizesGrow(files, i + 1);
      offset := SetLocal(buf, offset, Locals(files[..i]), entries[i]);
    }
    assert files[..|files|] == files;
  }

  lemma NothingWritten(buf: array<Byte>)
    ensures Locals([]) == [] == Centrals([]) && LocalsSize([]) == 0 == CentralsSize([]) && Written(buf, 0, [])
  {
  }

  method SetCentrals(buf: array<Byte>, start: nat, ghost files: seq<File>, entries: seq<Entry>) returns (offset: nat)
    requires EntriesOf(files, entries) && Written(buf, start, Locals(files))
    requires start + CentralsSize(files) <= buf.Length
    modifies buf
    ensures offset == start + CentralsSize(files) && Written(buf, offset, Locals(files) + Centrals(files))
  {
    hide Written, LocalFields, CentralFields, Checksum, Locals, LocalsSize, Centrals, CentralsSize;
    offset := start;
    NothingWritten(buf);
    assert Locals(files) + [] == Locals(files);
    for i := 0 to |entries|
      invariant offset == start + CentralsSize(files[..i])
      invariant Written(buf, offset, Locals(files) + Centrals(files[..i]))
    {
      LocalsSnoc(files, i);
      SizesGrow(files, i + 1);
      offset := SetCentral(buf, offset, Locals(files) + Centrals(files[..i]), entries[i]);
      assert (Locals(files) + Centrals(files[..i])) + CentralFields(files[i], LocalsSize(files[..i])) ==
             Locals(files) + Centrals(files[..i + 1]);
    }
    assert files[..|files|] == files;
  }

  lemma NoCentrals()
    ensures CentralsSize([]) == 0
  {
  }

  /** The buffer is filled exactly. */
  method CreateZip(files: seq<File>) returns (bytes: seq<Byte>)
    ensures bytes == Zip(files)
  {
    hide Written, EntriesOf, LocalFields, CentralFields, Locals, LocalsSize, Centrals, CentralsSize, EndFields;
    var entries, localSize := Entries(files);
    var centralSize := 0;
    NoCentrals();
    for i := 0 to |files|
      invariant centralSize == CentralsSize(files[..i])
    {
      LocalsSnoc(files, i);
      centralSize := centralSize + 46 + |files[i].name|;
    }
    assert files[..|files|] == files;
    var buf := new Byte[localSize + centralSize + 22];
    var centralOffset := SetLocals(buf, files, entries);
    var endOffset := SetCentrals(buf, centralOffset, files, entries);
    var filled := SetEnd(buf, endOffset, Locals(files) + Centrals(files), |files|, centralSize, centralOffset);
    WholeBuffer(buf, filled, ZipFields(files));
    return buf[..];
  }

  lemma WholeBuffer(buf: array<Byte>, offset: nat, fields: seq<Field>)
    requires Written(buf, offset, fields) && offset == buf.Length
    ensures buf[..] == Encoded(fields)
  {
    assert buf[..] == buf[..offset];
  }

  // ----- Reading -----

  datatype ParseError = UnexpectedSignature(signature: nat, offset: nat) | UnsupportedMethod(number: nat)

  /** `buf.slice`, which stops at the end of the buffer. */
  function Slice(buf: seq<Byte>, from: nat, to: nat): seq<Byte>
    requires from <= to
  {
    var last := |buf|;
    buf[if from < last then from else last..if to < last then to else last]
  }

  /** One entry and where the next one starts. */
  function EntryAt(buf: seq<Byte>, off: nat): (r: (File, nat))
    requires off + 30 <= |buf|
    ensures r.1 >= off + 30
  {
    var compressed := ReadU32(buf, off + 18);
    var nameStart := off + 30;
    var nameEnd := nameStart + ReadU16(buf, off + 26);
    var dataStart := nameEnd + ReadU16(buf, off + 28);
    (File(Slice(buf, nameStart, nameEnd), Slice(buf, dataStart, dataStart + compressed)), dataStart + compressed)
  }

  /** The entries from `off` on. */
  function ParseFrom(buf: seq<Byte>, off: nat): Result<seq<File>, ParseError>
    decreases if off < |buf| then |buf| - off else 0
  {
    if off + 30 > |buf| then Success([])
    else
      var sig := ReadU32(buf, off);
      if sig == CENTRAL_DIR_HEADER then Success([])
      else if sig != LOCAL_FILE_HEADER then Failure(UnexpectedSignature(sig, off))
      else if ReadU16(buf, off + 8) != 0 then Failure(UnsupportedMethod(ReadU16(buf, off + 8)))
      else
        var entry := EntryAt(buf, off);
        match ParseFrom(buf, entry.1)
        case Failure(e) => Failure(e)
        case Success(rest) => Success([entry.0] + rest)
  }

  function Prepend(files: seq<File>, r: Result<seq<File>, ParseError>): Result<seq<File>, ParseError> {
    match r
    case Failure(e) => Failure(e)
    case Success(rest) => Success(files + rest)
  }

  method ParseStoreZip(buf: seq<Byte>) returns (r: Result<seq<File>, ParseError>)
    ensures r == ParseFrom(buf, 0)
  {
    hide ReadU16, ReadU32, Slice;
    var entries: seq<File> := [];
    var off := 0;
    PrependNothing(ParseFrom(buf, 0));
    while off + 30 <= |buf|
      invariant Prepend(entries, ParseFrom(buf, off)) == ParseFrom(buf, 0)
      decreases |buf| - off
    {
      var sig := ReadU32(buf, off);
      if sig == CENTRAL_DIR_HEADER {
        break;
      }
      if sig != LOCAL_FILE_HEADER {
        return Failure(UnexpectedSignature(sig, off));
      }
      var compression := ReadU16(buf, off + 8);
      if compression != 0 {
        return Failure(UnsupportedMethod(compression));
      }
      var compressed := ReadU32(buf, off + 18);
      var nameLen := ReadU16(buf, off + 26);
      var extraLen := ReadU16(buf, off + 28);
      var nameStart := off + 30;
      var dataStart := nameStart + nameLen + extraLen;
      var file := File(Slice(buf, nameStart, nameStart + nameLen), Slice(buf, dataStart, dataStart + compressed));
      var next := dataStart + compressed;
      assert (file, next) == EntryAt(buf, off);
      PrependOne(entries, file, ParseFrom(buf, next));
      entries := entries + [file];
      off := next;
    }
    assert entries + [] == entries;
    return Success(entries);
  }

  lemma PrependNothing(r: Result<seq<File>, ParseError>)
    ensures Prepend([], r) == r
  {
    assert r.Success? ==> [] + r.value == r.value;
  }

  lemma PrependOne(files: seq<File>, f: File, r: Result<seq<File>, ParseError>)
    ensures Prepend(files + [f], r) == Prepend(files, Prepend([f], r))
  {
    if r.Success? {
      assert (files + [f]) + r.value == files + ([f] + r.value);
    }
  }
}
