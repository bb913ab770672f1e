/** The archive writer: zero-filled header buffers filled field by field, then every part copied
    into one buffer. */
module ZipWriter {
  import opened Crc
  import opened LittleEndian
  import opened ZipFormat

  /** The first `k` fields are in place up to `at`, and the rest of the buffer is still zero. */
  ghost predicate Written(buf: array<Byte>, at: nat, done: seq<Byte>)
    reads buf
  {
    && at == |done| <= buf.Length
    && buf[..at] == done
    && forall j :: at <= j < buf.Length ==> buf[j] == 0
  }

  ghost function Prefix(fields: seq<Field>, k: nat): seq<Byte>
    requires k <= |fields|
  {
    Encode(fields[..k])
  }

  lemma PrefixStep(fields: seq<Field>, k: nat)
    requires k < |fields|
    ensures Prefix(fields, k + 1) == Prefix(fields, k) + EncodeField(fields[k])
    ensures Prefix(fields, 0) == [] && Prefix(fields, |fields|) == Encode(fields)
  {
    hide EncodeField;
    assert fields[..k + 1][..k] == fields[..k] && fields[..|fields|] == fields;
  }

  /** `out.set(part, at)` at the end of what is written. */
  method SetBytes(buf: array<Byte>, at: nat, part: seq<Byte>, ghost done: seq<Byte>)
    requires Written(buf, at, done) && at + |part| <= buf.Length
    modifies buf
    ensures Written(buf, at + |part|, done + part)
  {
    for i := 0 to |part|
      invariant Written(buf, at + i, done + part[..i])
    {
      buf[at + i] := part[i];
      assert buf[..at + i + 1] == buf[..at + i] + [part[i]];
      assert part[..i + 1] == part[..i] + [part[i]];
    }
    assert part[..|part|] == part;
  }

  /** `setUint16` or `setUint32`, little-endian, of the record's field `k`. */
  method SetField(buf: array<Byte>, at: nat, f: Field, ghost fields: seq<Field>, ghost k: nat)
    requires k < |fields| && fields[k] == f
    requires Written(buf, at, Prefix(fields, k)) && at + Bytes(f.width) <= buf.Length
    modifies buf
    ensures Written(buf, at + Bytes(f.width), Prefix(fields, k + 1))
  {
    hide Written, Prefix, EncodeField;
    PrefixStep(fields, k);
    SetBytes(buf, at, EncodeField(f), Prefix(fields, k));
  }

  /** A field left at zero needs no write. */
  lemma ZeroField(buf: array<Byte>, at: nat, fields: seq<Field>, k: nat)
    requires k < |fields| && fields[k].value == 0
    requires Written(buf, at, Prefix(fields, k)) && at + Bytes(fields[k].width) <= buf.Length
    ensures Written(buf, at + Bytes(fields[k].width), Prefix(fields, k + 1))
  {
    hide Prefix;
    PrefixStep(fields, k);
    ZeroBytes(fields[k].width);
    var n := Bytes(fields[k].width);
    assert buf[..at + n] == buf[..at] + buf[at..at + n];
    assert buf[at..at + n] == seq(n, _ => 0 as Byte);
  }

  lemma ZeroBytes(w: Width)
    ensures EncodeField(Field(w, 0)) == seq(Bytes(w), _ => 0 as Byte)
  {
    hide ByteOf;
    ByteOfZero();
    assert Div(0, 256) == Div(0, 65536) == Div(0, 16777216) == 0;
  }

  method WriteLocal(f: File, crc: bv32, stamp: Stamp) returns (local: array<Byte>)
    requires crc == CrcOf(f.data)
    ensures fresh(local) && local[..] == Local(f, stamp)
  {
    hide Written, Prefix, Encode, EncodeField, CrcOf, Local;
    ghost var fields := LocalFields(f, stamp);
    local := new Byte[30 + |f.name| + |f.data|](_ => 0);
    StartRecord(local, fields);
    SetField(local, 0, Field(W32, LOCAL_SIGNATURE), fields, 0);
    SetField(local, 4, Field(W16, 20), fields, 1);
    SetField(local, 6, Field(W16, 0x0800), fields, 2);
    SetField(local, 8, Field(W16, 0), fields, 3);
    SetField(local, 10, Field(W16, stamp.time), fields, 4);
    SetField(local, 12, Field(W16, stamp.date), fields, 5);
    SetField(local, 14, Field(W32, crc as int), fields, 6);
    SetField(local, 18, Field(W32, |f.data|), fields, 7);
    SetField(local, 22, Field(W32, |f.data|), fields, 8);
    SetField(local, 26, Field(W16, |f.name|), fields, 9);
    ZeroField(local, 28, fields, 10);
    EndRecord(fields);
    SetBytes(local, 30, f.name, Encode(fields));
    SetBytes(local, 30 + |f.name|, f.data, Encode(fields) + f.name);
    WholeBuffer(local, Encode(fields) + f.name + f.data);
    LocalIs(f, stamp);
  }

  lemma StartRecord(buf: array<Byte>, fields: seq<Field>)
    requires forall j :: 0 <= j < buf.Length ==> buf[j] == 0
    ensures Written(buf, 0, Prefix(fields, 0))
  {}

  lemma EndRecord(fields: seq<Field>)
    ensures Prefix(fields, |fields|) == Encode(fields)
  {
    assert fields[..|fields|] == fields;
  }

  lemma WholeBuffer(buf: array<Byte>, done: seq<Byte>)
    requires Written(buf, buf.Length, done)
    ensures buf[..] == done
  {}

  lemma LocalIs(f: File, stamp: Stamp)
    ensures Local(f, stamp) == Encode(LocalFields(f, stamp)) + f.name + f.data
  {
    hide Encode, LocalFields;
  }

  method WriteCentral(f: File, crc: bv32, stamp: Stamp, offset: nat) returns (central: array<Byte>)
    requires crc == CrcOf(f.data)
    ensures fresh(central) && central[..] == Central(f, stamp, offset)
  {
    hide Written, Prefix, Encode, EncodeField, CrcOf, Central;
    ghost var fields := CentralFields(f, stamp, offset);
    central := new Byte[46 + |f.name|](_ => 0);
    StartRecord(central, fields);
    SetField(central, 0, Field(W32, CENTRAL_SIGNATURE), fields, 0);
    SetField(central, 4, Field(W16, 20), fields, 1);
    SetField(central, 6, Field(W16, 20), fields, 2);
    SetField(central, 8, Field(W16, 0x0800), fields, 3);
    SetField(central, 10, Field(W16, 0), fields, 4);
    SetField(central, 12, Field(W16, stamp.time), fields, 5);
    SetField(central, 14, Field(W16, stamp.date), fields, 6);
    SetField(central, 16, Field(W32, crc as int), fields, 7);
    SetField(central, 20, Field(W32, |f.data|), fields, 8);
    SetField(central, 24, Field(W32, |f.data|), fields, 9);
    SetField(central, 28, Field(W16, |f.name|), fields, 10);
    ZeroField(central, 30, fields, 11);
    ZeroField(central, 32, fields, 12);
    ZeroField(central, 34, fields, 13);
    ZeroField(central, 36, fields, 14);
    ZeroField(central, 38, fields, 15);
    SetField(central, 42, Field(W32, offset), fields, 16);
    EndRecord(fields);
    SetBytes(central, 46, f.name, Encode(fields));
    WholeBuffer(central, Encode(fields) + f.name);
    CentralIs(f, stamp, offset);
  }

  lemma CentralIs(f: File, stamp: Stamp, offset: int)
    ensures Central(f, stamp, offset) == Encode(CentralFields(f, stamp, offset)) + f.name
  {
    hide Encode, CentralFields;
  }

  method WriteEnd(count: nat, centralSize: nat, offset: nat) returns (end: array<Byte>)
    ensures fresh(end) && end.Length == 22
    ensures end[..] == Encode(EndFields(count, centralSize, offset))
  {
    hide Written, Prefix, Encode, EncodeField;
    ghost var fields := EndFields(count, centralSize, offset);
    end := new Byte[22](_ => 0);
    StartRecord(end, fields);
    SetField(end, 0, Field(W32, END_SIGNATURE), fields, 0);
    ZeroField(end, 4, fields, 1);
    ZeroField(end, 6, fields, 2);
    SetField(end, 8, Field(W16, count), fields, 3);
    SetField(end, 10, Field(W16, count), fields, 4);
    SetField(end, 12, Field(W32, centralSize), fields, 5);
    SetField(end, 16, Field(W32, offset), fields, 6);
    ZeroField(end, 20, fields, 7);
    EndRecord(fields);
    WholeBuffer(end, Encode(fields));
  }

  // ---------------------------------------------------------------- all parts in one buffer

  ghost function Flatten(parts: seq<seq<Byte>>): seq<Byte> {
    if parts == [] then [] else Flatten(parts[..|parts| - 1]) + parts[|parts| - 1]
  }

  lemma FlattenSnoc(parts: seq<seq<Byte>>, part: seq<Byte>)
    ensures Flatten(parts + [part]) == Flatten(parts) + part
    ensures Flatten([]) == []
  {
    assert (parts + [part])[..|parts|] == parts;
  }

  lemma NoParts()
    ensures Flatten([]) == []
  {}

  lemma {:induction false} FlattenConcat(p: seq<seq<Byte>>, q: seq<seq<Byte>>)
    ensures Flatten(p + q) == Flatten(p) + Flatten(q)
  {
    if q == [] {
      assert p + q == p;
    } else {
      var init, last := q[..|q| - 1], q[|q| - 1];
      assert p + q == (p + init) + [last] && q == init + [last];
      FlattenSnoc(p + init, last);
      FlattenSnoc(init, last);
      FlattenConcat(p, init);
    }
  }

  /** The bytes of every file's records, in two lists, and the running offset. */
  method WriteRecords(files: seq<File>, stamp: Stamp)
    returns (locals: seq<seq<Byte>>, centrals: seq<seq<Byte>>, offset: nat)
    ensures Flatten(locals) == Locals(files, stamp) && Flatten(centrals) == Centrals(files, stamp)
    ensures offset == |Locals(files, stamp)|
  {
    hide TableReady, CrcOf, Local, Central, Flatten, Locals, Centrals;
    var table := MakeTable();
    locals, centrals, offset := [], [], 0;
    NoParts();
    NoRecords(files, stamp);
    for i := 0 to |files|
      invariant TableReady(table)
      invariant Flatten(locals) == Locals(files[..i], stamp) && Flatten(centrals) == Centrals(files[..i], stamp)
      invariant offset == |Locals(files[..i], stamp)|
    {
      var crc := Crc32(table, files[i].data);
      var local := WriteLocal(files[i], crc, stamp);
      var central := WriteCentral(files[i], crc, stamp, offset);
      FlattenSnoc(locals, local[..]);
      FlattenSnoc(centrals, central[..]);
      RecordsSnoc(files, stamp, i);
      locals := locals + [local[..]];
      centrals := centrals + [central[..]];
      offset := offset + local.Length;
    }
    assert files[..|files|] == files;
  }

  /** The sum of the parts' lengths. */
  method TotalLength(parts: seq<seq<Byte>>) returns (n: nat)
    ensures n == |Flatten(parts)|
  {
    n := 0;
    for i := 0 to |parts|
      invariant n == |Flatten(parts[..i])|
    {
      assert parts[..i + 1] == parts[..i] + [parts[i]];
      FlattenSnoc(parts[..i], parts[i]);
      n := n + |parts[i]|;
    }
    assert parts[..|parts|] == parts;
  }

  /** The archive of the files: local records, central directory, end record. */
  method ZipFiles(files: seq<File>, stamp: Stamp) returns (out: array<Byte>)
    ensures fresh(out) && out[..] == Archive(files, stamp)
  {
    hide Written, Flatten, Encode, Locals, Centrals;
    var locals, centrals, offset := WriteRecords(files, stamp);
    var centralSize := TotalLength(centrals);
    var end := WriteEnd(|files|, centralSize, offset);
    FlattenConcat(locals, centrals);
    FlattenSnoc(locals + centrals, end[..]);
    var parts := locals + centrals + [end[..]];
    assert end[..] == Encode(EndFields(|files|, |Centrals(files, stamp)|, |Locals(files, stamp)|));
    out := CopyParts(parts, offset + centralSize + 22);
  }

  method CopyParts(parts: seq<seq<Byte>>, size: nat) returns (out: array<Byte>)
    requires size == |Flatten(parts)|
    ensures fresh(out) && out[..] == Flatten(parts)
  {
    out := new Byte[size](_ => 0);
    var at: nat := 0;
    for i := 0 to |parts|
      invariant Written(out, at, Flatten(parts[..i]))
    {
      assert parts[..i + 1] == parts[..i] + [parts[i]];
      FlattenSnoc(parts[..i], parts[i]);
      FlattenConcat(parts[..i + 1], parts[i + 1..]);
      assert parts[..i + 1] + parts[i + 1..] == parts;
      SetBytes(out, at, parts[i], Flatten(parts[..i]));
      at := at + |parts[i]|;
    }
    assert parts[..|parts|] == parts;
  }
}
