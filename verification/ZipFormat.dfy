/** The record layouts of a stored ZIP archive (PKWARE APPNOTE 6.3, sections 4.3.7, 4.3.12 and
    4.3.16) and a reader of such archives that works back from the end record. */
module ZipFormat {
  import opened Wrappers
  import opened Crc
  import opened LittleEndian

  // ---------------------------------------------------------------- little-endian fields

  datatype Width = W16 | W32

  /** An integer field; a value outside the width is truncated to its low bits when written. */
  datatype Field = Field(width: Width, value: int)

  function Bytes(w: Width): nat { if w.W16? then 2 else 4 }

  function EncodeField(f: Field): (s: seq<Byte>)
    ensures |s| == Bytes(f.width)
  {
    match f.width
    case W16 => [ByteOf(f.value), ByteOf(Div(f.value, 256))]
    case W32 => [ByteOf(f.value), ByteOf(Div(f.value, 256)), ByteOf(Div(f.value, 65536)), ByteOf(Div(f.value, 16777216))]
  }

  function DecodeField(w: Width, s: seq<Byte>): nat
    requires |s| >= Bytes(w)
  {
    match w
    case W16 => s[0] as nat + 256 * (s[1] as nat)
    case W32 => s[0] as nat + 256 * (s[1] as nat) + 65536 * (s[2] as nat) + 16777216 * (s[3] as nat)
  }

  /** What is left of a field's value once written. */
  function Kept(f: Field): nat { Mod(f.value, if f.width.W16? then 0x1_0000 else 0x1_0000_0000) }

  /** Reading a field back gives its value, up to the truncation of the write. */
  lemma FieldRoundTrip(f: Field, rest: seq<Byte>)
    ensures DecodeField(f.width, EncodeField(f) + rest) == Kept(f)
  {
    hide ByteOf, Div, Mod;
    var v, e := f.value, EncodeField(f);
    var s := e + rest;
    assert s[0] == e[0] == ByteOf(v) && s[1] == e[1] == ByteOf(Div(v, 256));
    ByteCounts(v);
    ByteCounts(Div(v, 256));
    if f.width.W16? {
      Digits16(v);
    } else {
      assert s[2] == e[2] == ByteOf(Div(v, 65536)) && s[3] == e[3] == ByteOf(Div(v, 16777216));
      ByteCounts(Div(v, 65536));
      ByteCounts(Div(v, 16777216));
      Digits32(v);
    }
  }

  // ---------------------------------------------------------------- records

  /** A record's integer fields, one after the other. */
  ghost function Encode(fields: seq<Field>): seq<Byte> {
    if fields == [] then []
    else Encode(fields[..|fields| - 1]) + EncodeField(fields[|fields| - 1])
  }

  /** Two bytes a field, and two more for a wide one. */
  function Size(shape: seq<Width>): nat { 2 * |shape| + 2 * multiset(shape)[W32] }

  lemma SizeSnoc(shape: seq<Width>)
    requires shape != []
    ensures Size(shape) == Size(shape[..|shape| - 1]) + Bytes(shape[|shape| - 1])
  {
    assert shape == shape[..|shape| - 1] + [shape[|shape| - 1]];
  }

  lemma SizeNone()
    ensures Size([]) == 0
  {}

  /** The values of a record of this shape at the start of `s`. */
  function Decode(shape: seq<Width>, s: seq<Byte>): seq<nat>
    requires |s| >= Size(shape)
  {
    if shape == [] then []
    else
      var init, w := shape[..|shape| - 1], shape[|shape| - 1];
      SizeSnoc(shape);
      Decode(init, s) + [DecodeField(w, s[Size(init)..])]
  }

  function Shape(fields: seq<Field>): seq<Width> {
    seq(|fields|, i requires 0 <= i < |fields| => fields[i].width)
  }

  function Values(fields: seq<Field>): seq<nat> {
    seq(|fields|, i requires 0 <= i < |fields| => Kept(fields[i]))
  }

  predicate Fits(f: Field) { 0 <= f.value < if f.width.W16? then 0x1_0000 else 0x1_0000_0000 }

  lemma KeptWhole(f: Field)
    requires Fits(f)
    ensures Kept(f) == f.value
  {}

  lemma {:induction false} RecordRoundTrip(fields: seq<Field>, rest: seq<Byte>)
    ensures |Encode(fields)| == Size(Shape(fields))
    ensures Decode(Shape(fields), Encode(fields) + rest) == Values(fields)
  {
    hide EncodeField, DecodeField, Size, Kept;
    SizeNone();
    if fields != [] {
      var init, f := fields[..|fields| - 1], fields[|fields| - 1];
      var more := EncodeField(f) + rest;
      assert Encode(fields) + rest == Encode(init) + more;
      RecordRoundTrip(init, more);
      FieldRoundTrip(f, rest);
      assert Shape(fields)[..|fields| - 1] == Shape(init);
      SizeSnoc(Shape(fields));
      assert (Encode(init) + more)[|Encode(init)|..] == more;
      assert Values(fields) == Values(init) + [Kept(f)];
    }
  }

  // ---------------------------------------------------------------- the archive

  datatype File = File(name: seq<Byte>, data: seq<Byte>)

  /** The DOS time and date written into every entry. */
  datatype Stamp = Stamp(time: int, date: int)

  const LOCAL_SHAPE := [W32, W16, W16, W16, W16, W16, W32, W32, W32, W16, W16]
  const CENTRAL_SHAPE := [W32, W16, W16, W16, W16, W16, W16, W32, W32, W32, W16, W16, W16, W16, W16, W32, W32]
  const END_SHAPE := [W32, W16, W16, W16, W16, W32, W32, W16]

  const LOCAL_SIZE: nat := 30
  const CENTRAL_SIZE: nat := 46
  const END_SIZE: nat := 22

  const LOCAL_SIGNATURE := 0x0403_4b50
  const CENTRAL_SIGNATURE := 0x0201_4b50
  const END_SIGNATURE := 0x0605_4b50

  /** Signature, version needed, flags (UTF-8 names), method (stored), time, date, CRC, compressed
      and uncompressed size, name length, extra length. */
  ghost function LocalFields(f: File, stamp: Stamp): (fields: seq<Field>)
    ensures Shape(fields) == LOCAL_SHAPE
  {
    [Field(W32, LOCAL_SIGNATURE), Field(W16, 20), Field(W16, 0x0800), Field(W16, 0), Field(W16, stamp.time),
     Field(W16, stamp.date), Field(W32, CrcOf(f.data) as int), Field(W32, |f.data|), Field(W32, |f.data|),
     Field(W16, |f.name|), Field(W16, 0)]
  }

  /** Signature, versions made by and needed, flags, method, time, date, CRC, sizes, name, extra and
      comment length, disk, internal and external attributes, offset of the local header. */
  ghost function CentralFields(f: File, stamp: Stamp, offset: int): (fields: seq<Field>)
    ensures Shape(fields) == CENTRAL_SHAPE
  {
    [Field(W32, CENTRAL_SIGNATURE), Field(W16, 20), Field(W16, 20), Field(W16, 0x0800), Field(W16, 0),
     Field(W16, stamp.time), Field(W16, stamp.date), Field(W32, CrcOf(f.data) as int), Field(W32, |f.data|),
     Field(W32, |f.data|), Field(W16, |f.name|), Field(W16, 0), Field(W16, 0), Field(W16, 0), Field(W16, 0),
     Field(W32, 0), Field(W32, offset)]
  }

  /** Signature, disk numbers, entries on this disk and in all, size and offset of the central
      directory, comment length. */
  ghost function EndFields(count: int, centralSize: int, offset: int): (fields: seq<Field>)
    ensures Shape(fields) == END_SHAPE
  {
    [Field(W32, END_SIGNATURE), Field(W16, 0), Field(W16, 0), Field(W16, count), Field(W16, count),
     Field(W32, centralSize), Field(W32, offset), Field(W16, 0)]
  }

  lemma ShapeSizes()
    ensures Size(LOCAL_SHAPE) == LOCAL_SIZE && Size(CENTRAL_SHAPE) == CENTRAL_SIZE && Size(END_SHAPE) == END_SIZE
  {}

  ghost function Local(f: File, stamp: Stamp): seq<Byte> {
    Encode(LocalFields(f, stamp)) + f.name + f.data
  }

  ghost function Central(f: File, stamp: Stamp, offset: int): seq<Byte> {
    Encode(CentralFields(f, stamp, offset)) + f.name
  }

  ghost function Locals(files: seq<File>, stamp: Stamp): seq<Byte> {
    if files == [] then [] else Locals(files[..|files| - 1], stamp) + Local(files[|files| - 1], stamp)
  }

  ghost function Centrals(files: seq<File>, stamp: Stamp): seq<Byte> {
    if files == [] then []
    else
      var init := files[..|files| - 1];
      Centrals(init, stamp) + Central(files[|files| - 1], stamp, |Locals(init, stamp)|)
  }

  lemma RecordsSnoc(files: seq<File>, stamp: Stamp, i: nat)
    requires i < |files|
    ensures Locals(files[..i + 1], stamp) == Locals(files[..i], stamp) + Local(files[i], stamp)
    ensures Centrals(files[..i + 1], stamp)
         == Centrals(files[..i], stamp) + Central(files[i], stamp, |Locals(files[..i], stamp)|)
  {
    hide Central, Local;
    assert files[..i + 1][..i] == files[..i];
  }

  lemma NoRecords(files: seq<File>, stamp: Stamp)
    ensures Locals(files[..0], stamp) == [] && Centrals(files[..0], stamp) == []
  {}

  ghost function Archive(files: seq<File>, stamp: Stamp): seq<Byte> {
    var locals, centrals := Locals(files, stamp), Centrals(files, stamp);
    locals + centrals + Encode(EndFields(|files|, |centrals|, |locals|))
  }

  // ---------------------------------------------------------------- the reader

  datatype Extracted = Extracted(name: seq<Byte>, data: seq<Byte>, crc: nat, time: nat, date: nat)

  /** The values of a record of this shape at `at`, if the text is long enough. */
  ghost function FieldsAt(shape: seq<Width>, z: seq<Byte>, at: nat): (v: Option<seq<nat>>)
    ensures v.Some? ==> at + Size(shape) <= |z| && |v.value| == |shape|
  {
    if at + Size(shape) > |z| then None
    else
      ShapeValues(shape, z[at..]);
      Some(Decode(shape, z[at..]))
  }

  /** Can this be a stored entry: version 2.0 of the format, names in UTF-8 and no other flag, no compression? */
  ghost predicate IsStored(version: nat, flags: nat, packing: nat) { version == 20 && flags == 0x0800 && packing == 0 }

  /** The stored bytes of the entry whose local header is at `at`, which must repeat what the central record
      says, and whose CRC must be that of the bytes. */
  ghost function ReadLocal(z: seq<Byte>, e: DirEntry): Option<seq<Byte>> {
    match FieldsAt(LOCAL_SHAPE, z, e.offset)
    case None => None
    case Some(v) =>
      var start := e.offset + LOCAL_SIZE;
      var body := start + v[9] + v[10];
      if v[0] != LOCAL_SIGNATURE || !IsStored(v[1], v[2], v[3]) then None
      else if v[4] != e.time || v[5] != e.date || v[6] != e.crc || v[7] != e.size || v[8] != e.size then None
      else if body + e.size > |z| || z[start..start + v[9]] != e.name then None
      else
        var data := z[body..body + e.size];
        if CrcOf(data) as int != e.crc then None else Some(data)
  }

  /** What a central directory record says, and where the next one starts. */
  datatype DirEntry = DirEntry(name: seq<Byte>, size: nat, crc: nat, time: nat, date: nat, offset: nat, next: nat)

  /** A record of this kind: a stored entry, of one size, on the only disk, with nothing extra. */
  ghost predicate IsEntry(v: seq<nat>)
    requires |v| == 17
  {
    && v[0] == CENTRAL_SIGNATURE && v[1] == 20 && IsStored(v[2], v[3], v[4]) && v[8] == v[9]
    && v[11] == v[12] == v[13] == v[14] == v[15] == 0
  }

  ghost function ReadEntry(z: seq<Byte>, at: nat): Option<DirEntry> {
    match FieldsAt(CENTRAL_SHAPE, z, at)
    case None => None
    case Some(v) =>
      var start := at + CENTRAL_SIZE;
      if !IsEntry(v) || start + v[10] > |z| then None
      else Some(DirEntry(z[start..start + v[10]], v[9], v[7], v[5], v[6], v[16], start + v[10]))
  }

  /** The next `n` entries of the central directory, which starts at `at`. */
  ghost function ReadCentral(z: seq<Byte>, at: nat, n: nat): Option<seq<Extracted>>
    decreases n
  {
    if n == 0 then Some([])
    else match ReadEntry(z, at)
      case None => None
      case Some(e) =>
        match ReadLocal(z, e)
        case None => None
        case Some(data) =>
          match ReadCentral(z, e.next, n - 1)
          case None => None
          case Some(rest) => Some([Extracted(e.name, data, e.crc, e.time, e.date)] + rest)
  }

  /** The archive's entries: the end record is its last 22 bytes (no comment). */
  ghost function ReadArchive(z: seq<Byte>): Option<seq<Extracted>> {
    if |z| < END_SIZE then None
    else
      var end := |z| - END_SIZE;
      match FieldsAt(END_SHAPE, z, end)
      case None => None
      case Some(v) =>
        if v[0] != END_SIGNATURE || v[1] != 0 || v[2] != 0 || v[3] != v[4] || v[6] + v[5] != end || v[7] != 0 then None
        else ReadCentral(z, v[6], v[4])
  }

  lemma {:induction false} ShapeValues(shape: seq<Width>, s: seq<Byte>)
    requires |s| >= Size(shape)
    ensures |Decode(shape, s)| == |shape|
  {
    if shape != [] {
      SizeSnoc(shape);
      ShapeValues(shape[..|shape| - 1], s);
    }
  }
}
