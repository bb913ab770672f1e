/** Reading an archive back returns its files. */
module ZipRoundTrip {
  import opened Wrappers
  import opened Crc
  import opened ZipFormat

  ghost predicate NamesFit(files: seq<File>) { forall f :: f in files ==> |f.name| < 0x1_0000 }

  ghost predicate RegionsFit(files: seq<File>, stamp: Stamp) {
    |Locals(files, stamp)| < 0x1_0000_0000 && |Centrals(files, stamp)| < 0x1_0000_0000
  }

  /** Every name and region of the archive, and so every file, can be described by its fixed-width field. */
  ghost predicate FitsFields(files: seq<File>, stamp: Stamp) { NamesFit(files) && RegionsFit(files, stamp) }

  /** What 16 bits keep of a count. */
  function Counted(n: nat): (k: nat)
    ensures k <= n && k < 0x1_0000 && (n < 0x1_0000 ==> k == n)
  {
    n % 0x1_0000
  }

  /** What a file comes back as: its name, its bytes, their CRC, and the time and date in 16 bits each. */
  ghost function Extract(f: File, stamp: Stamp): Extracted {
    Extracted(f.name, f.data, CrcOf(f.data) as int, Kept(Field(W16, stamp.time)), Kept(Field(W16, stamp.date)))
  }

  ghost function Extracts(files: seq<File>, stamp: Stamp): seq<Extracted> {
    seq(|files|, i requires 0 <= i < |files| => Extract(files[i], stamp))
  }

  lemma ExtractName(f: File, stamp: Stamp)
    ensures Extract(f, stamp).name == f.name
  {}

  /** The directory entry of a file. */
  ghost function EntryOf(f: File, stamp: Stamp, offset: nat, next: nat): DirEntry {
    DirEntry(f.name, |f.data|, CrcOf(f.data) as int, Kept(Field(W16, stamp.time)), Kept(Field(W16, stamp.date)), offset, next)
  }

  lemma CrcFits(c: bv32)
    ensures 0 <= c as int < 0x1_0000_0000
  {}

  /** `part` stands at `at` in `z`. */
  ghost predicate Holds(z: seq<Byte>, at: nat, part: seq<Byte>) {
    at + |part| <= |z| && forall j :: 0 <= j < |part| ==> z[at + j] == part[j]
  }

  lemma HoldsSlice(z: seq<Byte>, at: nat, part: seq<Byte>)
    requires Holds(z, at, part)
    ensures at + |part| <= |z| && z[at..at + |part|] == part
    ensures z[at..] == part + z[at + |part|..]
  {}

  lemma HoldsParts(z: seq<Byte>, at: nat, p: seq<Byte>, q: seq<Byte>)
    requires Holds(z, at, p + q)
    ensures Holds(z, at, p) && Holds(z, at + |p|, q)
  {
    var r := p + q;
    assert forall j :: 0 <= j < |p| ==> p[j] == r[j];
    assert forall j :: 0 <= j < |q| ==> q[j] == r[|p| + j];
  }

  lemma HoldsAppend(p: seq<Byte>, q: seq<Byte>)
    ensures Holds(p + q, |p|, q) && Holds(p + q, 0, p)
  {}

  lemma HoldsWithin(z: seq<Byte>, at: nat, part: seq<Byte>, k: nat, p: seq<Byte>)
    requires Holds(z, at, part) && Holds(part, k, p)
    ensures Holds(z, at + k, p)
  {
    forall j | 0 <= j < |p| ensures z[at + k + j] == p[j] {
      assert z[at + (k + j)] == part[k + j];
    }
  }

  /** A record found at `at` in `z` is read back whatever follows it. */
  lemma ReadRecord(z: seq<Byte>, at: nat, fields: seq<Field>)
    requires Holds(z, at, Encode(fields))
    ensures at + |Encode(fields)| <= |z| && |Encode(fields)| == Size(Shape(fields))
    ensures FieldsAt(Shape(fields), z, at) == Some(Values(fields))
  {
    hide Encode, Decode, Holds, Size;
    HoldsSlice(z, at, Encode(fields));
    RecordRoundTrip(fields, z[at + |Encode(fields)|..]);
  }

  lemma ValueAt(fields: seq<Field>, i: nat)
    requires i < |fields|
    ensures |Values(fields)| == |fields| && Values(fields)[i] == Kept(fields[i])
    ensures Fits(fields[i]) ==> Values(fields)[i] == fields[i].value
  {
    hide Kept, Fits;
    if Fits(fields[i]) {
      KeptWhole(fields[i]);
    }
  }

  lemma LocalFieldsAre(f: File, stamp: Stamp)
    ensures var s := LocalFields(f, stamp);
      && |s| == 11 && s[0] == Field(W32, LOCAL_SIGNATURE) && s[1] == Field(W16, 20) && s[2] == Field(W16, 0x0800)
      && s[3] == Field(W16, 0) && s[4] == Field(W16, stamp.time) && s[5] == Field(W16, stamp.date)
      && s[6] == Field(W32, CrcOf(f.data) as int) && s[7] == s[8] == Field(W32, |f.data|)
      && s[9] == Field(W16, |f.name|) && s[10] == Field(W16, 0)
  {
    hide CrcOf;
  }

  lemma LocalValues(f: File, stamp: Stamp)
    requires |f.name| < 0x1_0000 && |f.data| < 0x1_0000_0000
    ensures var v := Values(LocalFields(f, stamp));
      && |v| == 11 && v[0] == LOCAL_SIGNATURE && IsStored(v[1], v[2], v[3])
      && v[4] == Kept(Field(W16, stamp.time)) && v[5] == Kept(Field(W16, stamp.date)) && v[6] == CrcOf(f.data) as int
      && v[7] == v[8] == |f.data| && v[9] == |f.name| && v[10] == 0
  {
    hide CrcOf, Values, Kept, LocalFields;
    CrcFits(CrcOf(f.data));
    var fields := LocalFields(f, stamp);
    LocalFieldsAre(f, stamp);
    ValueAt(fields, 0);
    ValueAt(fields, 1);
    ValueAt(fields, 2);
    ValueAt(fields, 3);
    ValueAt(fields, 4);
    ValueAt(fields, 5);
    ValueAt(fields, 6);
    ValueAt(fields, 7);
    ValueAt(fields, 8);
    ValueAt(fields, 9);
    ValueAt(fields, 10);
  }

  lemma CentralFieldsAre(f: File, stamp: Stamp, offset: nat)
    ensures var s := CentralFields(f, stamp, offset);
      && |s| == 17 && s[0] == Field(W32, CENTRAL_SIGNATURE) && s[1] == s[2] == Field(W16, 20)
      && s[3] == Field(W16, 0x0800) && s[4] == Field(W16, 0)
      && s[5] == Field(W16, stamp.time) && s[6] == Field(W16, stamp.date)
      && s[7] == Field(W32, CrcOf(f.data) as int) && s[8] == s[9] == Field(W32, |f.data|)
      && s[10] == Field(W16, |f.name|) && s[11] == s[12] == s[13] == s[14] == Field(W16, 0) && s[15] == Field(W32, 0)
      && s[16] == Field(W32, offset)
  {
    hide CrcOf;
  }

  /** What a central record says, each length as its field keeps it. */
  lemma CentralValues(f: File, stamp: Stamp, offset: nat)
    ensures var v := Values(CentralFields(f, stamp, offset));
      && |v| == 17 && IsEntry(v) && v[5] == Kept(Field(W16, stamp.time)) && v[6] == Kept(Field(W16, stamp.date))
      && v[7] == CrcOf(f.data) as int
      && v[9] == Kept(Field(W32, |f.data|)) && v[10] == Kept(Field(W16, |f.name|)) && v[16] == Kept(Field(W32, offset))
  {
    hide CrcOf, Values, Kept, CentralFields;
    CrcFits(CrcOf(f.data));
    var fields := CentralFields(f, stamp, offset);
    CentralFieldsAre(f, stamp, offset);
    ValueAt(fields, 0);
    ValueAt(fields, 1);
    ValueAt(fields, 2);
    ValueAt(fields, 3);
    ValueAt(fields, 4);
    ValueAt(fields, 5);
    ValueAt(fields, 6);
    ValueAt(fields, 7);
    ValueAt(fields, 8);
    ValueAt(fields, 9);
    ValueAt(fields, 10);
    ValueAt(fields, 11);
    ValueAt(fields, 12);
    ValueAt(fields, 13);
    ValueAt(fields, 14);
    ValueAt(fields, 15);
    ValueAt(fields, 16);
  }

  lemma LocalAccepts(z: seq<Byte>, e: DirEntry, data: seq<Byte>)
    requires e.crc == CrcOf(data) as int && e.size == |data|
    requires var start := e.offset + LOCAL_SIZE;
      && start + |e.name| + |data| <= |z|
      && z[start..start + |e.name|] == e.name && z[start + |e.name|..start + |e.name| + |data|] == data
      && FieldsAt(LOCAL_SHAPE, z, e.offset).Some?
      && var v := FieldsAt(LOCAL_SHAPE, z, e.offset).value;
      && v[0] == LOCAL_SIGNATURE && IsStored(v[1], v[2], v[3]) && v[4] == e.time && v[5] == e.date && v[6] == e.crc
      && v[7] == v[8] == |data| && v[9] == |e.name| && v[10] == 0
    ensures ReadLocal(z, e) == Some(data)
  {
    hide CrcOf, FieldsAt, Size, IsStored;
  }

  /** Where the fields, the name, and the bytes of a local record stand. */
  lemma LocalPlaces(z: seq<Byte>, at: nat, f: File, stamp: Stamp)
    requires Holds(z, at, Local(f, stamp))
    ensures FieldsAt(LOCAL_SHAPE, z, at) == Some(Values(LocalFields(f, stamp)))
    ensures var start := at + LOCAL_SIZE;
      && start + |f.name| + |f.data| <= |z|
      && z[start..start + |f.name|] == f.name && z[start + |f.name|..start + |f.name| + |f.data|] == f.data
  {
    hide CrcOf, Encode, FieldsAt, Holds, Values, LocalFields, Size;
    var fields := LocalFields(f, stamp);
    HoldsParts(z, at, Encode(fields) + f.name, f.data);
    HoldsParts(z, at, Encode(fields), f.name);
    ReadRecord(z, at, fields);
    ShapeSizes();
    HoldsSlice(z, at + |Encode(fields)|, f.name);
    HoldsSlice(z, at + |Encode(fields)| + |f.name|, f.data);
  }

  lemma ReadsLocal(z: seq<Byte>, f: File, stamp: Stamp, offset: nat, next: nat)
    requires |f.name| < 0x1_0000 && |f.data| < 0x1_0000_0000
    requires Holds(z, offset, Local(f, stamp))
    ensures ReadLocal(z, EntryOf(f, stamp, offset, next)) == Some(f.data)
  {
    hide *;
    EntryOfIs(f, stamp, offset, next);
    LocalValues(f, stamp);
    LocalPlaces(z, offset, f, stamp);
    LocalAccepts(z, EntryOf(f, stamp, offset, next), f.data);
  }

  lemma KeptSize(n: nat)
    ensures Kept(Field(W16, n)) == Counted(n) && Kept(Field(W32, n)) == n % 0x1_0000_0000
  {}

  lemma KeptFits(n: nat)
    ensures Kept(Field(W16, n)) < 0x1_0000
    ensures n < 0x1_0000 ==> Kept(Field(W16, n)) == n
    ensures n < 0x1_0000_0000 ==> Kept(Field(W32, n)) == n
  {
    hide Counted;
    KeptSize(n);
  }

  /** Where the fields and the name of a central record stand. */
  lemma EntryFields(z: seq<Byte>, at: nat, f: File, stamp: Stamp, offset: nat)
    requires Holds(z, at, Central(f, stamp, offset))
    ensures FieldsAt(CENTRAL_SHAPE, z, at) == Some(Values(CentralFields(f, stamp, offset)))
    ensures |Central(f, stamp, offset)| == CENTRAL_SIZE + |f.name|
    ensures at + CENTRAL_SIZE + |f.name| <= |z| && z[at + CENTRAL_SIZE..at + CENTRAL_SIZE + |f.name|] == f.name
  {
    hide CrcOf, Encode, FieldsAt, Holds, Values, CentralFields, Size;
    var fields := CentralFields(f, stamp, offset);
    HoldsParts(z, at, Encode(fields), f.name);
    ReadRecord(z, at, fields);
    ShapeSizes();
    HoldsSlice(z, at + |Encode(fields)|, f.name);
  }

  lemma EntryIs(z: seq<Byte>, at: nat, v: seq<nat>)
    requires FieldsAt(CENTRAL_SHAPE, z, at) == Some(v) && |v| == 17 && IsEntry(v)
    requires at + CENTRAL_SIZE + v[10] <= |z|
    ensures var start := at + CENTRAL_SIZE;
      ReadEntry(z, at) == Some(DirEntry(z[start..start + v[10]], v[9], v[7], v[5], v[6], v[16], start + v[10]))
  {
    hide FieldsAt, IsEntry, Size, CENTRAL_SHAPE;
  }

  /** What is kept of a length is never more. */
  lemma NameFits(z: seq<Byte>, at: nat, n: nat, kept: nat)
    requires at + CENTRAL_SIZE + n <= |z| && (n < 0x1_0000 ==> kept == n) && kept < 0x1_0000
    ensures at + CENTRAL_SIZE + kept <= |z|
    ensures |z[at + CENTRAL_SIZE..at + CENTRAL_SIZE + kept]| == kept
  {}

  lemma EntryOfIs(f: File, stamp: Stamp, offset: nat, next: nat)
    ensures EntryOf(f, stamp, offset, next)
         == DirEntry(f.name, |f.data|, CrcOf(f.data) as int, Kept(Field(W16, stamp.time)), Kept(Field(W16, stamp.date)), offset, next)
  {}

  /** An entry whose name is too long reads back with another name; any other comes back whole. */
  lemma ReadsEntry(z: seq<Byte>, at: nat, f: File, stamp: Stamp, offset: nat)
    requires |f.data| < 0x1_0000_0000 && offset < 0x1_0000_0000
    requires Holds(z, at, Central(f, stamp, offset))
    ensures ReadEntry(z, at).Some? && |ReadEntry(z, at).value.name| < 0x1_0000
    ensures |f.name| < 0x1_0000 ==>
      ReadEntry(z, at) == Some(EntryOf(f, stamp, offset, at + |Central(f, stamp, offset)|))
  {
    hide *;
    EntryOfIs(f, stamp, offset, at + |Central(f, stamp, offset)|);
    EntryFields(z, at, f, stamp, offset);
    CentralValues(f, stamp, offset);
    KeptFits(|f.name|);
    KeptFits(|f.data|);
    KeptFits(offset);
    NameFits(z, at, |f.name|, Kept(Field(W16, |f.name|)));
    EntryIs(z, at, Values(CentralFields(f, stamp, offset)));
  }

  lemma ReadsCentral(z: seq<Byte>, at: nat, f: File, stamp: Stamp, offset: nat, n: nat)
    requires |f.name| < 0x1_0000 && |f.data| < 0x1_0000_0000 && offset < 0x1_0000_0000
    requires Holds(z, at, Central(f, stamp, offset)) && Holds(z, offset, Local(f, stamp))
    ensures var rest := ReadCentral(z, at + |Central(f, stamp, offset)|, n);
      ReadCentral(z, at, n + 1) == if rest.None? then None
        else Some([Extract(f, stamp)] + rest.value)
  {
    hide CrcOf, ReadEntry, ReadLocal, Holds, Local, Central, Kept;
    ReadsEntry(z, at, f, stamp, offset);
    ReadsLocal(z, f, stamp, offset, at + |Central(f, stamp, offset)|);
  }

  /** Each file's local record stands where the sizes of the earlier ones say. */
  lemma {:induction false} LocalAt(files: seq<File>, stamp: Stamp, i: nat)
    requires i < |files|
    ensures Holds(Locals(files, stamp), |Locals(files[..i], stamp)|, Local(files[i], stamp))
  {
    hide Local, Holds;
    var init := files[..|files| - 1];
    HoldsAppend(Locals(init, stamp), Local(files[|files| - 1], stamp));
    if i == |files| - 1 {
      assert files[..i] == init;
    } else {
      LocalAt(init, stamp, i);
      assert init[..i] == files[..i];
      HoldsWithin(Locals(files, stamp), 0, Locals(init, stamp), |Locals(files[..i], stamp)|, Local(files[i], stamp));
    }
  }

  ghost function FirstCentrals(files: seq<File>, stamp: Stamp, n: nat): seq<Byte>
    requires n <= |files|
  {
    Centrals(files[..n], stamp)
  }

  ghost function CentralOf(files: seq<File>, stamp: Stamp, i: nat): seq<Byte>
    requires i < |files|
  {
    Central(files[i], stamp, |Locals(files[..i], stamp)|)
  }

  lemma OneMoreCentral(files: seq<File>, stamp: Stamp, i: nat)
    requires i < |files|
    ensures FirstCentrals(files, stamp, i + 1) == FirstCentrals(files, stamp, i) + CentralOf(files, stamp, i)
  {
    hide Central, Locals, Centrals;
    RecordsSnoc(files, stamp, i);
  }

  lemma {:induction false} CentralAt(files: seq<File>, stamp: Stamp, i: nat, n: nat)
    requires i < n <= |files|
    ensures Holds(FirstCentrals(files, stamp, n), |FirstCentrals(files, stamp, i)|, CentralOf(files, stamp, i))
    decreases n
  {
    hide FirstCentrals, CentralOf, Holds;
    OneMoreCentral(files, stamp, n - 1);
    HoldsAppend(FirstCentrals(files, stamp, n - 1), CentralOf(files, stamp, n - 1));
    if i < n - 1 {
      CentralAt(files, stamp, i, n - 1);
      HoldsWithin(FirstCentrals(files, stamp, n), 0, FirstCentrals(files, stamp, n - 1),
                  |FirstCentrals(files, stamp, i)|, CentralOf(files, stamp, i));
    }
  }

  /** The records of file `i` stand in the archive where the reader looks for them. */
  lemma RecordsAt(z: seq<Byte>, files: seq<File>, stamp: Stamp, i: nat)
    requires i < |files| && RegionsFit(files, stamp)
    requires Holds(z, 0, Locals(files, stamp)) && Holds(z, |Locals(files, stamp)|, Centrals(files, stamp))
    ensures var offset := |Locals(files[..i], stamp)|;
      var at := |Locals(files, stamp)| + |Centrals(files[..i], stamp)|;
      && Holds(z, offset, Local(files[i], stamp)) && Holds(z, at, Central(files[i], stamp, offset))
      && |Locals(files, stamp)| + |Centrals(files[..i + 1], stamp)| == at + |Central(files[i], stamp, offset)|
      && offset < 0x1_0000_0000 && |files[i].data| < 0x1_0000_0000
  {
    hide CrcOf, Local, Central, Locals, Centrals, Holds;
    var offset, central := |Locals(files[..i], stamp)|, |Centrals(files[..i], stamp)|;
    LocalAt(files, stamp, i);
    CentralAt(files, stamp, i, |files|);
    RecordsSnoc(files, stamp, i);
    assert files[..|files|] == files;
    HoldsWithin(z, 0, Locals(files, stamp), offset, Local(files[i], stamp));
    HoldsWithin(z, |Locals(files, stamp)|, Centrals(files, stamp), central, Central(files[i], stamp, offset));
    HoldsFits(Locals(files, stamp), offset, Local(files[i], stamp));
    LocalIsLonger(files[i], stamp);
  }

  lemma HoldsFits(z: seq<Byte>, at: nat, part: seq<Byte>)
    requires Holds(z, at, part)
    ensures at + |part| <= |z|
  {}

  lemma LocalIsLonger(f: File, stamp: Stamp)
    ensures |Local(f, stamp)| >= |f.data|
  {
    hide Encode, LocalFields;
  }

  /** From entry `i` on, the directory yields the next `n` files if their names fit, and not otherwise. */
  lemma {:induction false} ReadsFrom(z: seq<Byte>, files: seq<File>, stamp: Stamp, i: nat, n: nat)
    requires i + n <= |files| && RegionsFit(files, stamp)
    requires Holds(z, 0, Locals(files, stamp)) && Holds(z, |Locals(files, stamp)|, Centrals(files, stamp))
    ensures ReadCentral(z, |Locals(files, stamp)| + |Centrals(files[..i], stamp)|, n) == Some(Extracts(files[i..i + n], stamp))
      <==> NamesFit(files[i..i + n])
    decreases n
  {
    hide CrcOf, Local, Central, Locals, Centrals, Holds, ReadCentral, Extract, Extracts, NamesFit, RegionsFit;
    ExtractsFrom(files, stamp, i, n);
    if n > 0 {
      ExtractName(files[i], stamp);
    }
    NamesFitFrom(files, i, n);
    var at := |Locals(files, stamp)| + |Centrals(files[..i], stamp)|;
    ReadsNothing(z, at);
    if n > 0 {
      RecordsAt(z, files, stamp, i);
      var offset := |Locals(files[..i], stamp)|;
      if |files[i].name| < 0x1_0000 {
        ReadsFrom(z, files, stamp, i + 1, n - 1);
        ReadsCentral(z, at, files[i], stamp, offset, n - 1);
        SameRest(ReadCentral(z, at + |Central(files[i], stamp, offset)|, n - 1), Extracts(files[i + 1..i + n], stamp),
                 Extract(files[i], stamp));
      } else {
        LongNameIsLost(z, at, files[i], stamp, offset, n);
      }
    }
  }

  lemma SameRest<T>(rest: Option<seq<T>>, more: seq<T>, first: T)
    ensures (if rest.None? then None else Some([first] + rest.value)) == Some([first] + more) <==> rest == Some(more)
  {
    if rest.Some? && [first] + rest.value == [first] + more {
      assert rest.value == ([first] + rest.value)[1..] == ([first] + more)[1..] == more;
    }
  }

  lemma LongNameIsLost(z: seq<Byte>, at: nat, f: File, stamp: Stamp, offset: nat, n: nat)
    requires |f.data| < 0x1_0000_0000 && offset < 0x1_0000_0000 && |f.name| >= 0x1_0000 && n > 0
    requires Holds(z, at, Central(f, stamp, offset))
    ensures var read := ReadCentral(z, at, n);
      read.None? || (read.value != [] && read.value[0].name != f.name)
  {
    hide CrcOf, ReadEntry, ReadLocal, Holds, Central;
    ReadsEntry(z, at, f, stamp, offset);
  }

  lemma NamesFitFrom(files: seq<File>, i: nat, n: nat)
    requires i + n <= |files|
    ensures NamesFit(files[i..i + n]) <==> n == 0 || (|files[i].name| < 0x1_0000 && NamesFit(files[i + 1..i + n]))
  {
    if n > 0 {
      assert files[i..i + n] == [files[i]] + files[i + 1..i + n];
    }
  }

  lemma ReadsNothing(z: seq<Byte>, at: nat)
    ensures ReadCentral(z, at, 0) == Some([])
  {}

  lemma ExtractsFrom(files: seq<File>, stamp: Stamp, i: nat, n: nat)
    requires i + n <= |files|
    ensures Extracts(files[i..i + n], stamp) == if n == 0 then []
      else [Extract(files[i], stamp)] + Extracts(files[i + 1..i + n], stamp)
  {
    hide Extract;
  }

  lemma EndFieldsAre(count: nat, centralSize: nat, offset: nat)
    ensures EndFields(count, centralSize, offset)
         == [Field(W32, END_SIGNATURE), Field(W16, 0), Field(W16, 0), Field(W16, count), Field(W16, count),
             Field(W32, centralSize), Field(W32, offset), Field(W16, 0)]
  {}

  lemma EndValues(count: nat, centralSize: nat, offset: nat)
    ensures var v := Values(EndFields(count, centralSize, offset));
      && |v| == 8 && v[0] == END_SIGNATURE && v[1] == v[2] == v[7] == 0 && v[3] == v[4] == Counted(count)
      && v[5] == centralSize % 0x1_0000_0000 && v[6] == offset % 0x1_0000_0000
  {
    hide Values, Kept, EndFields, Counted;
    var fields := EndFields(count, centralSize, offset);
    EndFieldsAre(count, centralSize, offset);
    ValueAt(fields, 0);
    ValueAt(fields, 1);
    ValueAt(fields, 2);
    ValueAt(fields, 3);
    ValueAt(fields, 4);
    ValueAt(fields, 5);
    ValueAt(fields, 6);
    ValueAt(fields, 7);
    KeptSize(count);
    KeptSize(centralSize);
    KeptSize(offset);
  }

  /** Two remainders add up to their numbers only when nothing was cut off. */
  lemma NothingCut(a: nat, b: nat)
    ensures a % 0x1_0000_0000 + b % 0x1_0000_0000 == a + b <==> a < 0x1_0000_0000 && b < 0x1_0000_0000
  {}

  /** The end record leads the reader to the directory, unless a region is too long for its field. */
  lemma EndIsRead(files: seq<File>, stamp: Stamp)
    ensures ReadArchive(Archive(files, stamp)) ==
      if RegionsFit(files, stamp)
      then ReadCentral(Archive(files, stamp), |Locals(files, stamp)|, Counted(|files|)) else None
  {
    hide CrcOf, Local, Central, Locals, Centrals, ReadCentral, Encode, FieldsAt, Holds, Values, EndFields, Size, Counted;
    var z, locals, centrals := Archive(files, stamp), Locals(files, stamp), Centrals(files, stamp);
    var end := EndFields(|files|, |centrals|, |locals|);
    HoldsAppend(locals + centrals, Encode(end));
    EndValues(|files|, |centrals|, |locals|);
    ReadRecord(z, |locals| + |centrals|, end);
    ShapeSizes();
    NothingCut(|locals|, |centrals|);
  }

  lemma RegionsStand(files: seq<File>, stamp: Stamp)
    ensures var z := Archive(files, stamp);
      Holds(z, 0, Locals(files, stamp)) && Holds(z, |Locals(files, stamp)|, Centrals(files, stamp))
  {
    hide Locals, Centrals, Encode, EndFields, Holds;
    var z, locals, centrals := Archive(files, stamp), Locals(files, stamp), Centrals(files, stamp);
    HoldsAppend(locals + centrals, Encode(EndFields(|files|, |centrals|, |locals|)));
    HoldsAppend(locals, centrals);
    HoldsWithin(z, 0, locals + centrals, 0, locals);
    HoldsWithin(z, 0, locals + centrals, |locals|, centrals);
  }

  /** The entry counter has 16 bits, so a reader can only see the first `|files| % 65536` entries. It sees
      exactly those if and only if the regions and the names of those entries fit their fields. */
  lemma ArchiveReads(files: seq<File>, stamp: Stamp)
    ensures var first := files[..Counted(|files|)];
      ReadArchive(Archive(files, stamp)) == Some(Extracts(first, stamp)) <==> RegionsFit(files, stamp) && NamesFit(first)
  {
    hide Archive, ReadArchive, Locals, Centrals, ReadCentral, Holds, Extracts, RegionsFit, NamesFit, Counted;
    EndIsRead(files, stamp);
    if RegionsFit(files, stamp) {
      RegionsStand(files, stamp);
      NoRecords(files, stamp);
      ReadsFrom(Archive(files, stamp), files, stamp, 0, Counted(|files|));
      assert files[0..0 + Counted(|files|)] == files[..Counted(|files|)];
    }
  }

  lemma ExtractsCount(files: seq<File>, stamp: Stamp)
    ensures |Extracts(files, stamp)| == |files|
  {
    hide CrcOf;
  }

  lemma {:induction false} ReadCount(z: seq<Byte>, at: nat, n: nat)
    ensures ReadCentral(z, at, n).Some? ==> |ReadCentral(z, at, n).value| == n
    decreases n
  {
    hide ReadEntry, ReadLocal;
    if n > 0 && ReadEntry(z, at).Some? {
      ReadCount(z, ReadEntry(z, at).value.next, n - 1);
    }
  }

  /** An archive reads back as exactly its files, in order, if and only if everything fits its field:
      the names, the two regions, and the count. */
  lemma ArchiveRoundTrip(files: seq<File>, stamp: Stamp)
    ensures ReadArchive(Archive(files, stamp)) == Some(Extracts(files, stamp)) <==> FitsFields(files, stamp) && |files| < 0x1_0000
  {
    hide ReadArchive, Archive, RegionsFit, NamesFit, Extracts, ReadCentral;
    ArchiveReads(files, stamp);
    EndIsRead(files, stamp);
    ReadCount(Archive(files, stamp), |Locals(files, stamp)|, Counted(|files|));
    ExtractsCount(files, stamp);
    assert files[..|files|] == files;
  }

  ghost function EmptyFiles(n: nat): seq<File> { seq(n, _ => File([], [])) }

  lemma {:induction false} EmptyFilesSize(n: nat, stamp: Stamp)
    ensures |Locals(EmptyFiles(n), stamp)| == LOCAL_SIZE * n && |Centrals(EmptyFiles(n), stamp)| == CENTRAL_SIZE * n
  {
    hide Local, Central;
    if n > 0 {
      EmptyFilesSize(n - 1, stamp);
      assert EmptyFiles(n)[..n - 1] == EmptyFiles(n - 1);
      EmptyRecords(stamp, |Locals(EmptyFiles(n - 1), stamp)|);
    }
  }

  lemma EmptyRecords(stamp: Stamp, offset: nat)
    ensures |Local(File([], []), stamp)| == LOCAL_SIZE && |Central(File([], []), stamp, offset)| == CENTRAL_SIZE
  {
    hide Encode, LocalFields, CentralFields, Size;
    ShapeSizes();
    EncodedSize(LocalFields(File([], []), stamp));
    EncodedSize(CentralFields(File([], []), stamp, offset));
  }

  lemma EncodedSize(fields: seq<Field>)
    ensures |Encode(fields)| == Size(Shape(fields))
  {
    hide Encode, Size, Decode;
    RecordRoundTrip(fields, []);
  }

  /** An archive of 65536 files, each within its fields, reads back as an empty one. */
  lemma TooManyFiles(stamp: Stamp)
    ensures FitsFields(EmptyFiles(0x1_0000), stamp) && ReadArchive(Archive(EmptyFiles(0x1_0000), stamp)) == Some([])
  {
    hide Archive, ReadArchive, Locals, Centrals;
    EmptyFilesSize(0x1_0000, stamp);
    ArchiveReads(EmptyFiles(0x1_0000), stamp);
    ExtractsCount([], stamp);
    assert EmptyFiles(0x1_0000)[..0] == [];
  }
}
