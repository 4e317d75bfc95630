/**
 The archive that `createZip` of ts-apps/vscode/src/sidebar-provider.ts lays out: stored entries, a central directory
 and its end record, as sections 4.3.7, 4.3.12 and 4.3.16 of the PKWARE APPNOTE describe them.
 */
module ZipFormat {
  import opened Checksums

  // ----- Little-endian fields -----

  datatype Field = U16(value: nat) | U32(value: nat) | Raw(bytes: seq<Byte>)

  function ByteOf(n: nat): Byte {
    (n % 0x100) as Byte
  }

  /** A value too large for its field keeps its low bytes, as `setUint16` and `setUint32` do. */
  function Encode(f: Field): (bytes: seq<Byte>)
    ensures |bytes| == Size(f)
  {
    match f
    case U16(v) => [ByteOf(v), ByteOf(v / 0x100)]
    case U32(v) => [ByteOf(v), ByteOf(v / 0x100), ByteOf(v / 0x1_0000), ByteOf(v / 0x100_0000)]
    case Raw(bytes) => bytes
  }

  function Size(f: Field): nat {
    match f
    case U16(_) => 2
    case U32(_) => 4
    case Raw(bytes) => |bytes|
  }

  function Encoded(fields: seq<Field>): seq<Byte> {
    if fields == [] then [] else Encoded(fields[..|fields| - 1]) + Encode(fields[|fields| - 1])
  }

  function SizeOf(fields: seq<Field>): nat {
    if fields == [] then 0 else SizeOf(fields[..|fields| - 1]) + Size(fields[|fields| - 1])
  }

  lemma EncodedSnoc(fields: seq<Field>, f: Field)
    ensures Encoded(fields + [f]) == Encoded(fields) + Encode(f)
    ensures SizeOf(fields + [f]) == SizeOf(fields) + Size(f)
  {
    assert (fields + [f])[..|fields|] == fields;
  }

  lemma {:induction false} EncodedLength(fields: seq<Field>)
    ensures |Encoded(fields)| == SizeOf(fields)
  {
    if fields != [] {
      EncodedLength(fields[..|fields| - 1]);
    }
  }

  lemma {:induction false} EncodedAppend(a: seq<Field>, b: seq<Field>)
    ensures Encoded(a + b) == Encoded(a) + Encoded(b)
    ensures SizeOf(a + b) == SizeOf(a) + SizeOf(b)
  {
    hide Encode, Size;
    if b == [] {
      assert a + b == a;
    } else {
      var init, last := b[..|b| - 1], b[|b| - 1];
      assert b == init + [last] && a + b == (a + init) + [last];
      assert (Encoded(a) + Encoded(init)) + Encode(last) == Encoded(a) + (Encoded(init) + Encode(last));
      EncodedAppend(a, init);
      EncodedSnoc(a + init, last);
      EncodedSnoc(init, last);
    }
  }

  // ----- Reading -----

  function ReadU16(buf: seq<Byte>, off: nat): (v: nat)
    requires off + 2 <= |buf|
    ensures v < 0x1_0000
  {
    buf[off] as nat + 0x100 * buf[off + 1] as nat
  }

  function ReadU32(buf: seq<Byte>, off: nat): (v: nat)
    requires off + 4 <= |buf|
    ensures v < 0x1_0000_0000
  {
    buf[off] as nat + 0x100 * buf[off + 1] as nat + 0x1_0000 * buf[off + 2] as nat + 0x100_0000 * buf[off + 3] as nat
  }

  /** `bytes` stand at `off`. */
  ghost predicate HasAt(buf: seq<Byte>, off: nat, bytes: seq<Byte>) {
    off + |bytes| <= |buf| && buf[off..off + |bytes|] == bytes
  }

  lemma Bytes16(v: nat)
    requires v < 0x1_0000
    ensures ByteOf(v) as nat + 0x100 * ByteOf(v / 0x100) as nat == v
  {
  }

  lemma Bytes32(v: nat)
    requires v < 0x1_0000_0000
    ensures ByteOf(v) as nat + 0x100 * ByteOf(v / 0x100) as nat + 0x1_0000 * ByteOf(v / 0x1_0000) as nat +
            0x100_0000 * ByteOf(v / 0x100_0000) as nat == v
  {
    Halves(v);
    Bytes16(v % 0x1_0000);
    Bytes16(v / 0x1_0000);
  }

  lemma Halves(v: nat)
    requires v < 0x1_0000_0000
    ensures v == v % 0x1_0000 + 0x1_0000 * (v / 0x1_0000) && v / 0x1_0000 < 0x1_0000
    ensures ByteOf(v % 0x1_0000) == ByteOf(v) && ByteOf(v % 0x1_0000 / 0x100) == ByteOf(v / 0x100)
    ensures ByteOf(v / 0x1_0000 / 0x100) == ByteOf(v / 0x100_0000)
  {
  }

  lemma ReadBack16(buf: seq<Byte>, off: nat, v: nat)
    requires HasAt(buf, off, Encode(U16(v))) && v < 0x1_0000
    ensures ReadU16(buf, off) == v
  {
    var part := buf[off..off + 2];
    assert part[0] == buf[off] && part[1] == buf[off + 1];
    Bytes16(v);
  }

  lemma ReadBack32(buf: seq<Byte>, off: nat, v: nat)
    requires HasAt(buf, off, Encode(U32(v))) && v < 0x1_0000_0000
    ensures ReadU32(buf, off) == v
  {
    var part := buf[off..off + 4];
    assert part[0] == buf[off] && part[1] == buf[off + 1] && part[2] == buf[off + 2] && part[3] == buf[off + 3];
    hide ByteOf;
    Bytes32(v);
  }

  /** Where the k-th field of a record stands. */
  function OffsetOf(fields: seq<Field>, k: nat): nat
    requires k <= |fields|
  {
    if k == 0 then 0 else OffsetOf(fields, k - 1) + Size(fields[k - 1])
  }

  lemma {:induction false} OffsetIsSize(fields: seq<Field>, k: nat)
    requires k <= |fields|
    ensures OffsetOf(fields, k) == SizeOf(fields[..k])
  {
    if k > 0 {
      OffsetIsSize(fields, k - 1);
      assert fields[..k] == fields[..k - 1] + [fields[k - 1]];
      EncodedSnoc(fields[..k - 1], fields[k - 1]);
    }
  }

  lemma AllOffsetIsSize(fields: seq<Field>)
    ensures OffsetOf(fields, |fields|) == SizeOf(fields)
  {
    OffsetIsSize(fields, |fields|);
    assert fields[..|fields|] == fields;
  }

  /** A field stands behind the ones before it. */
  lemma FieldAt(buf: seq<Byte>, off: nat, fields: seq<Field>, k: nat)
    requires k < |fields| && HasAt(buf, off, Encoded(fields))
    ensures HasAt(buf, off + OffsetOf(fields, k), Encode(fields[k]))
  {
    hide HasAt, Encoded, Encode, OffsetOf;
    var before, after := fields[..k], fields[k + 1..];
    assert fields == (before + [fields[k]]) + after;
    EncodedAppend(before + [fields[k]], after);
    EncodedSnoc(before, fields[k]);
    EncodedLength(before);
    OffsetIsSize(fields, k);
    PartAt(buf, off, Encoded(before), Encode(fields[k]), Encoded(after));
  }

  lemma MiddleOf<T>(a: seq<T>, b: seq<T>, c: seq<T>)
    ensures (a + b + c)[|a|..|a| + |b|] == b
  {
  }

  lemma SliceOfSlice<T>(s: seq<T>, lo: nat, hi: nat, from: nat, to: nat)
    requires lo <= hi <= |s| && from <= to <= hi - lo
    ensures s[lo..hi][from..to] == s[lo + from..lo + to]
  {
    var part, direct := s[lo..hi][from..to], s[lo + from..lo + to];
    forall i | 0 <= i < to - from ensures part[i] == direct[i] {
      assert part[i] == s[lo..hi][from + i] == s[lo + (from + i)];
    }
  }

  lemma PartAt(buf: seq<Byte>, off: nat, a: seq<Byte>, b: seq<Byte>, c: seq<Byte>)
    requires HasAt(buf, off, a + b + c)
    ensures HasAt(buf, off + |a|, b)
  {
    var all, from, to := a + b + c, |a|, |a| + |b|;
    MiddleOf(a, b, c);
    assert all[from..to] == b;
    SliceOfSlice(buf, off, off + |all|, from, to);
    assert buf[off..off + |all|] == all;
    assert buf[off + from..off + to] == b;
  }

  // ----- The records -----

  datatype File = File(name: seq<Byte>, content: seq<Byte>)

  const LOCAL_FILE_HEADER: nat := 0x0403_4b50
  const CENTRAL_DIR_HEADER: nat := 0x0201_4b50
  const END_OF_CENTRAL_DIR: nat := 0x0605_4b50

  function Checksum(content: seq<Byte>): (n: nat)
    ensures n < 0x1_0000_0000
  {
    Crc(content) as nat
  }

  function LocalFields(f: File): seq<Field> {
    [U32(LOCAL_FILE_HEADER), U16(20), U16(0), U16(0), U16(0), U16(0), U32(Checksum(f.content)), U32(|f.content|),
     U32(|f.content|), U16(|f.name|), U16(0), Raw(f.name), Raw(f.content)]
  }

  function CentralFields(f: File, localOffset: nat): seq<Field> {
    [U32(CENTRAL_DIR_HEADER), U16(20), U16(20), U16(0), U16(0), U16(0), U16(0), U32(Checksum(f.content)),
     U32(|f.content|), U32(|f.content|), U16(|f.name|), U16(0), U16(0), U16(0), U16(0), U32(0), U32(localOffset),
     Raw(f.name)]
  }

  function EndFields(count: nat, centralSize: nat, centralOffset: nat): seq<Field> {
    [U32(END_OF_CENTRAL_DIR), U16(0), U16(0), U16(count), U16(count), U32(centralSize), U32(centralOffset), U16(0)]
  }

  function Locals(files: seq<File>): seq<Field> {
    if files == [] then [] else Locals(files[..|files| - 1]) + LocalFields(files[|files| - 1])
  }

  function LocalsSize(files: seq<File>): nat {
    if files == [] then 0
    else LocalsSize(files[..|files| - 1]) + 30 + |files[|files| - 1].name| + |files[|files| - 1].content|
  }

  /** Each central entry holds the offset where the local header of its file starts. */
  function Centrals(files: seq<File>): seq<Field> {
    if files == [] then []
    else
      var before := files[..|files| - 1];
      Centrals(before) + CentralFields(files[|files| - 1], LocalsSize(before))
  }

  function CentralsSize(files: seq<File>): nat {
    if files == [] then 0 else CentralsSize(files[..|files| - 1]) + 46 + |files[|files| - 1].name|
  }

  function ZipFields(files: seq<File>): seq<Field> {
    Locals(files) + Centrals(files) + EndFields(|files|, CentralsSize(files), LocalsSize(files))
  }

  /** The archive. */
  function Zip(files: seq<File>): seq<Byte> {
    Encoded(ZipFields(files))
  }

  // ----- Where the fields of a record stand -----

  lemma LocalOffsets(f: File)
    ensures var r := LocalFields(f);
            && OffsetOf(r, 0) == 0 && OffsetOf(r, 3) == 8 && OffsetOf(r, 7) == 18 && OffsetOf(r, 9) == 26
            && OffsetOf(r, 10) == 28 && OffsetOf(r, 11) == 30 && OffsetOf(r, 12) == 30 + |f.name|
    ensures SizeOf(LocalFields(f)) == 30 + |f.name| + |f.content|
  {
    hide SizeOf, Checksum;
    var r := LocalFields(f);
    assert OffsetOf(r, 1) == 4;
    assert OffsetOf(r, 2) == 6;
    assert OffsetOf(r, 3) == 8;
    assert OffsetOf(r, 5) == 12;
    assert OffsetOf(r, 7) == 18;
    assert OffsetOf(r, 9) == 26;
    assert OffsetOf(r, 10) == 28;
    assert OffsetOf(r, 12) == 30 + |f.name|;
    assert OffsetOf(r, 13) == 30 + |f.name| + |f.content|;
    AllOffsetIsSize(r);
  }

  lemma CentralOffsets(f: File, at: nat)
    ensures var r := CentralFields(f, at);
            && OffsetOf(r, 0) == 0 && OffsetOf(r, 7) == 16 && OffsetOf(r, 8) == 20 && OffsetOf(r, 10) == 28
            && OffsetOf(r, 11) == 30 && OffsetOf(r, 12) == 32 && OffsetOf(r, 16) == 42 && OffsetOf(r, 17) == 46
    ensures SizeOf(CentralFields(f, at)) == 46 + |f.name|
  {
    hide SizeOf, Checksum;
    var r := CentralFields(f, at);
    assert OffsetOf(r, 1) == 4;
    assert OffsetOf(r, 2) == 6;
    assert OffsetOf(r, 3) == 8;
    assert OffsetOf(r, 5) == 12;
    assert OffsetOf(r, 7) == 16;
    assert OffsetOf(r, 9) == 24;
    assert OffsetOf(r, 11) == 30;
    assert OffsetOf(r, 13) == 34;
    assert OffsetOf(r, 15) == 38;
    assert OffsetOf(r, 17) == 46;
    assert OffsetOf(r, 18) == 46 + |f.name|;
    AllOffsetIsSize(r);
  }

  lemma EndOffsets(count: nat, size: nat, at: nat)
    ensures var r := EndFields(count, size, at);
            OffsetOf(r, 0) == 0 && OffsetOf(r, 4) == 10 && OffsetOf(r, 6) == 16
    ensures SizeOf(EndFields(count, size, at)) == 22
  {
    hide SizeOf, Checksum;
    var r := EndFields(count, size, at);
    assert OffsetOf(r, 1) == 4;
    assert OffsetOf(r, 2) == 6;
    assert OffsetOf(r, 4) == 10;
    assert OffsetOf(r, 6) == 16;
    assert OffsetOf(r, 8) == 22;
    AllOffsetIsSize(r);
  }

  lemma {:induction false} LocalsSizeIs(files: seq<File>)
    ensures SizeOf(Locals(files)) == LocalsSize(files)
  {
    hide SizeOf, LocalFields;
    if files == [] {
      NothingIsEmpty();
    } else {
      var init, last := files[..|files| - 1], files[|files| - 1];
      LocalsSizeIs(init);
      LocalOffsets(last);
      EncodedAppend(Locals(init), LocalFields(last));
    }
  }

  lemma NothingIsEmpty()
    ensures SizeOf([]) == 0
  {
  }

  lemma {:induction false} CentralsSizeIs(files: seq<File>)
    ensures SizeOf(Centrals(files)) == CentralsSize(files)
  {
    hide SizeOf, CentralFields, LocalsSize;
    if files == [] {
      NothingIsEmpty();
    } else {
      var init, last := files[..|files| - 1], files[|files| - 1];
      CentralsSizeIs(init);
      CentralOffsets(last, LocalsSize(init));
      EncodedAppend(Centrals(init), CentralFields(last, LocalsSize(init)));
    }
  }

  /** The two directories and the end record fill the archive. */
  lemma ZipSize(files: seq<File>)
    ensures SizeOf(ZipFields(files)) == LocalsSize(files) + CentralsSize(files) + 22
    ensures |Zip(files)| == LocalsSize(files) + CentralsSize(files) + 22
  {
    hide SizeOf, Locals, Centrals, EndFields;
    var end := EndFields(|files|, CentralsSize(files), LocalsSize(files));
    EncodedAppend(Locals(files) + Centrals(files), end);
    EncodedAppend(Locals(files), Centrals(files));
    LocalsSizeIs(files);
    CentralsSizeIs(files);
    EndOffsets(|files|, CentralsSize(files), LocalsSize(files));
    EncodedLength(ZipFields(files));
  }

  lemma LocalsSnoc(files: seq<File>, i: nat)
    requires i < |files|
    ensures Locals(files[..i + 1]) == Locals(files[..i]) + LocalFields(files[i])
    ensures LocalsSize(files[..i + 1]) == LocalsSize(files[..i]) + 30 + |files[i].name| + |files[i].content|
    ensures Centrals(files[..i + 1]) == Centrals(files[..i]) + CentralFields(files[i], LocalsSize(files[..i]))
    ensures CentralsSize(files[..i + 1]) == CentralsSize(files[..i]) + 46 + |files[i].name|
  {
    hide LocalFields, CentralFields;
    assert files[..i + 1][..i] == files[..i];
  }

  lemma NothingSized()
    ensures LocalsSize([]) == 0
  {
  }
}
