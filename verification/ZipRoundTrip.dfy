/** Reading inverts writing. */
module ZipRoundTrip {
  import opened Outcomes
  import opened Struct
  import opened ZipReader
  import opened ZipWriter

  // ---- Slices of concatenations ----

  lemma SliceMiddle<T>(a: seq<T>, b: seq<T>, c: seq<T>)
    ensures Slice(a + b + c, |a|, |b|) == b
    ensures From(a + b + c, |a| + |b|) == c
  {
    var s := a + b + c;
    if |a| < |s| {
      assert s[|a|..] == b + c;
      assert s[|a|..][..|b|] == b;
    }
  }

  // ---- Extra fields ----

  lemma FieldHeader(f: ExtraField, rest: seq<byte>)
    requires f.id < 0x1_0000 && |f.payload| < 0x1_0000
    ensures var s := FieldBytes(f) + rest;
      && |s| >= 4 && Size(FIELD) == 4
      && Unpack(FIELD, s) == [f.id, |f.payload|]
      && Slice(s, 4, |f.payload|) == f.payload
      && From(s, 4 + |f.payload|) == rest
  {
    hide Unpack, Pack;
    FormatSizes();
    PowersOf256();
    var header := Pack(FIELD, [f.id, |f.payload|]);
    assert FieldBytes(f) + rest == header + (f.payload + rest);
    UnpackPack(FIELD, [f.id, |f.payload|], f.payload + rest);
    assert FieldBytes(f) + rest == header + f.payload + rest;
    SliceMiddle(header, f.payload, rest);
  }

  lemma {:induction false} OtherFieldsAreSkipped(fs: seq<ExtraField>, rest: seq<byte>)
    requires WritableFields(fs)
    ensures Zip64Words(FieldsBytes(fs) + rest) == Zip64Words(rest)
  {
    hide FieldBytes, Zip64Words;
    if fs == [] {
      assert FieldsBytes(fs) + rest == rest;
    } else {
      var head, more := FieldBytes(fs[0]), FieldsBytes(fs[1..]);
      assert (head + more) + rest == head + (more + rest);
      OtherFieldIsSkipped(fs[0], more + rest);
      OtherFieldsAreSkipped(fs[1..], rest);
    }
  }

  lemma OtherFieldIsSkipped(f: ExtraField, rest: seq<byte>)
    requires f.id < 0x1_0000 && f.id != 1 && |f.payload| < 0x1_0000
    ensures Zip64Words(FieldBytes(f) + rest) == Zip64Words(rest)
  {
    hide FieldBytes, Unpack, Slice, From;
    FieldHeader(f, rest);
  }

  lemma WordsStartWith(moved: bool, v: nat, rest: seq<byte>)
    requires v < Pow256(8)
    ensures Words(Word(moved, v) + rest) == (if moved then [v] else []) + Words(rest)
  {
    if moved {
      DecodeEncode(8, v);
      var s := Encode(8, v) + rest;
      assert s[..8] == Encode(8, v) && s[8..] == rest;
    } else {
      assert [] + rest == rest;
    }
  }

  function MovedValues(m: Member, offset: nat): seq<nat> {
    (if m.widened.uncompressed then [m.plainSize] else []) + (if m.widened.compressed then [|m.stored|] else [])
      + (if m.widened.offset then [offset] else [])
  }

  lemma InPlaceFits(moved: bool, v: nat)
    requires InPlace(moved, v)
    ensures v < Pow256(8)
  {
    PowersOf256();
  }

  /** The ZIP64 field lists exactly the moved sizes, in the reader's order. */
  lemma Zip64WordsOfMember(m: Member, offset: nat)
    requires WritableMember(m, offset) && m.widened.Any()
    ensures Zip64Words(CentralExtra(m, offset)) == Some(MovedValues(m, offset) + Words(m.zip64Tail))
  {
    hide Words, Pack, Word, MovedValues, CentralValues, WritableFields, Encode;
    var field := ExtraField(1, Zip64Payload(m, offset));
    var rest := FieldBytes(field) + m.extraAfter;
    assert CentralExtra(m, offset) == FieldsBytes(m.fieldsBefore) + rest;
    OtherFieldsAreSkipped(m.fieldsBefore, rest);
    FieldHeader(field, m.extraAfter);
    PayloadWords(m, offset);
  }

  lemma PayloadWords(m: Member, offset: nat)
    requires WritableMember(m, offset)
    ensures Words(Zip64Payload(m, offset)) == MovedValues(m, offset) + Words(m.zip64Tail)
  {
    hide Words, Fits, Word, CentralValues, WritableFields;
    InPlaceFits(m.widened.uncompressed, m.plainSize);
    InPlaceFits(m.widened.compressed, |m.stored|);
    InPlaceFits(m.widened.offset, offset);
    var w1, w2, w3 := Word(m.widened.uncompressed, m.plainSize), Word(m.widened.compressed, |m.stored|),
      Word(m.widened.offset, offset);
    assert Zip64Payload(m, offset) == w1 + (w2 + (w3 + m.zip64Tail));
    WordsStartWith(m.widened.uncompressed, m.plainSize, w2 + (w3 + m.zip64Tail));
    WordsStartWith(m.widened.compressed, |m.stored|, w3 + m.zip64Tail);
    WordsStartWith(m.widened.offset, offset, m.zip64Tail);
    var tail := Words(m.zip64Tail);
    var v1 := if m.widened.uncompressed then [m.plainSize] else [];
    var v2 := if m.widened.compressed then [|m.stored|] else [];
    var v3 := if m.widened.offset then [offset] else [];
    assert MovedValues(m, offset) + tail == v1 + (v2 + (v3 + tail));
  }

  lemma SizesReadBack(m: Member, offset: nat)
    requires WritableMember(m, offset)
    ensures Zip64Values(CentralExtra(m, offset), Narrow(m.widened.uncompressed, m.plainSize),
                        Narrow(m.widened.compressed, |m.stored|), Narrow(m.widened.offset, offset))
         == Success((m.plainSize, |m.stored|, offset))
  {
    hide Words, Zip64Words, CentralExtra, Fits;
    if m.widened.Any() {
      Zip64WordsOfMember(m, offset);
    }
  }

  // ---- Central headers ----

  lemma CentralPartReadsBack(m: Member, offset: nat, rest: seq<byte>)
    requires WritableMember(m, offset)
    ensures var c := CentralPart(m, offset) + rest;
      && |c| >= 46 && Header(c) == CentralValues(m, offset)
      && Slice(c, 46, |m.name|) == m.name
      && Slice(c, 46 + |m.name|, |CentralExtra(m, offset)|) == CentralExtra(m, offset)
      && From(c, EntryLength(CentralValues(m, offset))) == rest
  {
    hide Pack, Unpack, CentralExtra, CentralValues, Zip64Payload, Slice, From;
    FormatSizes();
    var header, extra := Pack(CENTRAL, CentralValues(m, offset)), CentralExtra(m, offset);
    UnpackPack(CENTRAL, CentralValues(m, offset), m.name + extra + m.comment + rest);
    assert CentralPart(m, offset) + rest == header + (m.name + extra + m.comment + rest);
    FiveParts(header, m.name, extra, m.comment, rest);
    CentralLengths(m, offset);
  }

  lemma CentralLengths(m: Member, offset: nat)
    requires |m.central| == 8
    ensures var v := CentralValues(m, offset);
      v[10] == |m.name| && v[11] == |CentralExtra(m, offset)| && v[12] == |m.comment|
  {
    hide CentralExtra;
  }

  lemma FiveParts<T>(a: seq<T>, b: seq<T>, c: seq<T>, d: seq<T>, e: seq<T>)
    ensures var s := a + b + c + d + e;
      && Slice(s, |a|, |b|) == b
      && Slice(s, |a| + |b|, |c|) == c
      && From(s, |a| + |b| + |c| + |d|) == e
  {
    hide Slice, From;
    var s := a + b + c + d + e;
    assert s == a + b + (c + d + e);
    SliceMiddle(a, b, c + d + e);
    assert s == (a + b) + c + (d + e);
    SliceMiddle(a + b, c, d + e);
    SliceMiddle(a + b + c, d, e);
  }

  lemma EntryReadsBack(m: Member, offset: nat, rest: seq<byte>)
    requires WritableMember(m, offset)
    ensures var c := CentralPart(m, offset) + rest;
      && |c| >= 46 && EntryAt(c) == Success(EntryOf(m, offset))
  {
    hide Pack, Unpack, CentralExtra, Fits, Header, Zip64Values, Slice, From;
    CentralPartReadsBack(m, offset, rest);
    SizesReadBack(m, offset);
  }

  lemma {:induction false} DirectoryReadsBack(ms: seq<Member>, offset: nat)
    requires Shaped(ms) && WritableMembers(ms, offset)
    ensures ParseDirectory(Directory(ms, offset)) == Success(Files(ms, offset))
    decreases |ms|
  {
    hide CentralPart, LocalPart, ParseDirectory, WritableMember;
    if ms == [] {
      EmptyDirectory();
    } else {
      var next := offset + |LocalPart(ms[0])|;
      DirectoryStep(ms[0], offset, Directory(ms[1..], next));
      DirectoryReadsBack(ms[1..], next);
    }
  }

  lemma EmptyDirectory()
    ensures ParseDirectory([]) == Success([])
  {
  }

  lemma DirectoryStep(m: Member, offset: nat, rest: seq<byte>)
    requires WritableMember(m, offset)
    ensures ParseDirectory(CentralPart(m, offset) + rest) == Prepended(Kept(EntryOf(m, offset)), ParseDirectory(rest))
  {
    hide Pack, Unpack, CentralExtra, Fits, Header, EntryAt, Slice, From, CentralPart;
    CentralPartReadsBack(m, offset, rest);
    EntryReadsBack(m, offset, rest);
  }

  // ---- Finding the central directory ----

  /** Searching the tail finds what searching the whole archive would. */
  lemma FoundInTail(s: seq<byte>, t: nat, end: nat, pattern: seq<byte>, p: nat)
    requires t <= p && p + |pattern| <= end <= |s| && Occurs(s, pattern, p)
    requires forall q: nat :: p < q && q + |pattern| <= end ==> !Occurs(s, pattern, q)
    ensures RFind(s[t..], pattern, end - t) == p - t
  {
    var tail := s[t..];
    forall q: nat | q + |pattern| <= end - t ensures Occurs(tail, pattern, q) <==> Occurs(s, pattern, t + q) {
      assert tail[q..q + |pattern|] == s[t + q..t + q + |pattern|];
    }
    assert Occurs(tail, pattern, p - t);
    assert forall q: nat :: p - t < q && q + |pattern| <= end - t ==> !Occurs(tail, pattern, q);
  }

  lemma PackStartsWithSignature(fmt: Format, vals: seq<nat>, rest: seq<byte>)
    requires |fmt| == |vals| && |fmt| > 0 && fmt[0] == 4
    ensures var s := Pack(fmt, vals) + rest;
      |s| >= 4 && s[..4] == Encode(4, vals[0])
  {
  }

  lemma PackedOccurs(before: seq<byte>, fmt: Format, vals: seq<nat>, rest: seq<byte>)
    requires |fmt| == |vals| && |fmt| > 0 && fmt[0] == 4
    ensures Occurs(before + (Pack(fmt, vals) + rest), Encode(4, vals[0]), |before|)
  {
    PackStartsWithSignature(fmt, vals, rest);
    var s := before + (Pack(fmt, vals) + rest);
    assert s[|before|..|before| + 4] == (Pack(fmt, vals) + rest)[..4];
  }

  lemma UnpackPacked(before: seq<byte>, t: nat, fmt: Format, vals: seq<nat>, rest: seq<byte>)
    requires Fits(fmt, vals) && t <= |before|
    ensures UnpackFrom(fmt, (before + (Pack(fmt, vals) + rest))[t..], |before| - t) == Success(vals)
  {
    var s := before + (Pack(fmt, vals) + rest);
    assert s[t..][|before| - t..] == Pack(fmt, vals) + rest;
    UnpackPack(fmt, vals, rest);
  }

  ghost function TailStart(s: seq<byte>): nat {
    if |s| < TAIL then 0 else |s| - TAIL
  }

  ghost function TailOf(s: seq<byte>): seq<byte> {
    s[TailStart(s)..]
  }

  lemma EndInTail(s: seq<byte>, body: seq<byte>, vals: seq<nat>, comment: seq<byte>)
    requires |vals| == |EOCD| == 8 && vals[0] == EOCD_SIGNATURE && vals[7] == |comment| && Fits(EOCD, vals)
    requires s == body + (Pack(EOCD, vals) + comment)
    requires forall p: nat :: p > |body| ==> !Occurs(s, Encode(4, EOCD_SIGNATURE), p)
    ensures TailStart(s) <= |body| <= |s| && |s| - |body| <= 22 + 0xFFFF
    ensures RFind(TailOf(s), Encode(4, EOCD_SIGNATURE), |TailOf(s)|) == |body| - TailStart(s)
    ensures UnpackFrom(EOCD, TailOf(s), |body| - TailStart(s)) == Success(vals)
  {
    hide Pack, Unpack, UnpackFrom, RFind, Occurs;
    FormatSizes();
    CommentFits(vals);
    PackedOccurs(body, EOCD, vals, comment);
    FoundInTail(s, TailStart(s), |s|, Encode(4, EOCD_SIGNATURE), |body|);
    UnpackPacked(body, TailStart(s), EOCD, vals, comment);
  }

  lemma CommentFits(vals: seq<nat>)
    requires Fits(EOCD, vals)
    ensures vals[7] < 0x1_0000
  {
    PowersOf256();
    assert vals[7] < Pow256(EOCD[7]);
  }

  /** The end record is found and read back. */
  lemma EndRecordReadsBack(a: Archive)
    requires Writable(a)
    ensures var s := Serialise(a);
      && TailStart(s) <= |Body(a)| <= |s| && |s| - |Body(a)| <= 22 + 0xFFFF
      && RFind(TailOf(s), Encode(4, EOCD_SIGNATURE), |TailOf(s)|) == |Body(a)| - TailStart(s)
      && UnpackFrom(EOCD, TailOf(s), |Body(a)| - TailStart(s)) == Success(EndValues(a))
  {
    hide Pack, Unpack, Body, UnpackFrom, RFind, TailOf, TailStart, Occurs;
    assert Serialise(a) == Body(a) + (Pack(EOCD, EndValues(a)) + a.comment);
    EndInTail(Serialise(a), Body(a), EndValues(a), a.comment);
  }

  /** The bytes around the ZIP64 records. */
  lemma Zip64Layout(a: Archive)
    requires Shaped(a.members) && |a.zip64| == 7 && |a.disks| == 4 && a.zip64Records
    ensures var s := Serialise(a);
      var front := a.prefix + Locals(a.members) + a.beforeDirectory + DirectoryOf(a);
      var end := Pack(EOCD, EndValues(a)) + a.comment;
      && |front| == DirectoryOffset(a) + |DirectoryOf(a)|
      && Body(a) == front + Zip64EndRecord(a) + Locator(a)
      && s == (front + Zip64EndRecord(a)) + (Pack(LOCATOR, LocatorValues(a)) + end)
      && s == front + (Pack(ZIP64_EOCD, Zip64RecordValues(a)) + (a.zip64Extension + Locator(a) + end))
  {
    hide Pack, Locals, DirectoryOf, EndValues;
  }

  lemma LocatorReadsBack(a: Archive)
    requires Writable(a) && a.Widens()
    ensures var s := Serialise(a);
      var tail, end := TailOf(s), |Body(a)| - TailStart(s);
      && end >= 20 && end <= |tail|
      && RFind(tail, Encode(4, ZIP64_LOCATOR_SIGNATURE), end) == end - 20
      && UnpackFrom(LOCATOR, tail, end - 20) == Success(LocatorValues(a))
  {
    hide Pack, Unpack, UnpackFrom, RFind, Locals, DirectoryOf, EndValues, Occurs;
    FormatSizes();
    EndRecordReadsBack(a);
    Zip64Layout(a);
    var s := Serialise(a);
    var before := a.prefix + Locals(a.members) + a.beforeDirectory + DirectoryOf(a) + Zip64EndRecord(a);
    var rest := Pack(EOCD, EndValues(a)) + a.comment;
    assert |Locator(a)| == 20;
    assert |before| == |Body(a)| - 20;
    PackedOccurs(before, LOCATOR, LocatorValues(a), rest);
    FoundInTail(s, TailStart(s), |Body(a)|, Encode(4, ZIP64_LOCATOR_SIGNATURE), |before|);
    UnpackPacked(before, TailStart(s), LOCATOR, LocatorValues(a), rest);
  }

  lemma Zip64RecordReadsBack(a: Archive)
    requires Writable(a) && a.zip64Records
    ensures var offset: int := DirectoryOffset(a) + |DirectoryOf(a)|;
      var zip64 := Range(Serialise(a), offset, offset + 55);
      zip64.Success? && UnpackFrom(ZIP64_EOCD, zip64.value, 0) == Success(Zip64RecordValues(a))
  {
    hide Pack, Unpack, Locals, DirectoryOf, EndValues;
    FormatSizes();
    Zip64Layout(a);
    var front := a.prefix + Locals(a.members) + a.beforeDirectory + DirectoryOf(a);
    var record := Pack(ZIP64_EOCD, Zip64RecordValues(a));
    var rest := a.zip64Extension + Locator(a) + (Pack(EOCD, EndValues(a)) + a.comment);
    assert Serialise(a) == front + (record + rest);
    assert |rest| > 0;
    var zip64 := Range(Serialise(a), |front|, |front| + 55);
    assert zip64.value == record;
    UnpackPack(ZIP64_EOCD, Zip64RecordValues(a), []);
    assert record + [] == record && record[0..] == record;
  }

  lemma TailIsRead(a: Archive)
    requires Shaped(a.members) && |a.zip64| == 7 && |a.disks| == 4 && Writable(a)
    ensures var s := Serialise(a);
      var size := if |s| < TAIL then |s| else TAIL;
      Range(s, |s| - size, |s| - 1) == Success(TailOf(s))
  {
    hide Serialise, Writable;
    var s := Serialise(a);
    SerialisedNotEmpty(a);
    assert s[TailStart(s)..|s|] == s[TailStart(s)..];
  }

  lemma OrdinaryLocation(a: Archive)
    requires Shaped(a.members) && |a.zip64| == 7 && |a.disks| == 4 && Writable(a) && !a.Widens()
    ensures CentralLocation(Serialise(a)) == Success((DirectoryOffset(a), |DirectoryOf(a)|))
  {
    hide UnpackFrom, RFind, Body, DirectoryOf, DirectoryOffset, Serialise, Writable, Range, TailStart, TailOf;
    EndRecordReadsBack(a);
    TailIsRead(a);
    EndRecordSizes(a);
  }

  /** The reader's stages, one after the other. */
  lemma Zip64Stages(archive: seq<byte>, tail: seq<byte>, at: nat, eocd: seq<nat>, locator: seq<nat>, zip64: seq<byte>,
                    record: seq<nat>)
    requires Range(archive, |archive| - (if |archive| < TAIL then |archive| else TAIL), |archive| - 1) == Success(tail)
    requires RFind(tail, Encode(4, EOCD_SIGNATURE), |tail|) == at && UnpackFrom(EOCD, tail, at) == Success(eocd)
    requires |eocd| == |EOCD| && (eocd[5] == PLACEHOLDER || eocd[6] == PLACEHOLDER)
    requires 20 <= at && RFind(tail, Encode(4, ZIP64_LOCATOR_SIGNATURE), at) == at - 20
    requires UnpackFrom(LOCATOR, tail, at - 20) == Success(locator) && |locator| == |LOCATOR|
    requires Range(archive, locator[2], locator[2] + 55) == Success(zip64)
    requires UnpackFrom(ZIP64_EOCD, zip64, 0) == Success(record) && |record| == |ZIP64_EOCD|
    requires record[0] == ZIP64_EOCD_SIGNATURE
    ensures CentralLocation(archive) == Success((record[9], record[8]))
  {
    hide UnpackFrom, RFind, Range, Encode;
  }

  lemma Zip64Location(a: Archive)
    requires Shaped(a.members) && |a.zip64| == 7 && |a.disks| == 4 && Writable(a) && a.Widens()
    ensures CentralLocation(Serialise(a)) == Success((DirectoryOffset(a), |DirectoryOf(a)|))
  {
    hide UnpackFrom, RFind, Body, DirectoryOf, DirectoryOffset, Serialise, Writable, Range, TailStart, TailOf;
    hide EndValues;
    hide LocatorValues, Zip64RecordValues, CentralLocation, Encode;
    EndRecordReadsBack(a);
    TailIsRead(a);
    LocatorReadsBack(a);
    Zip64Markers(a);
    WidenedHasRecords(a);
    Zip64RecordReadsBack(a);
    var s := Serialise(a);
    var tail, offset := TailOf(s), DirectoryOffset(a) + |DirectoryOf(a)|;
    Zip64Stages(s, tail, |Body(a)| - TailStart(s), EndValues(a), LocatorValues(a),
                Range(s, offset, offset + 55).value, Zip64RecordValues(a));
  }

  lemma WidenedHasRecords(a: Archive)
    requires Writable(a) && a.Widens()
    ensures a.zip64Records
  {
  }

  lemma Zip64Markers(a: Archive)
    requires Shaped(a.members) && |a.zip64| == 7 && |a.disks| == 4 && a.Widens()
    ensures EndValues(a)[5] == PLACEHOLDER || EndValues(a)[6] == PLACEHOLDER
    ensures LocatorValues(a)[2] == DirectoryOffset(a) + |DirectoryOf(a)|
    ensures var v := Zip64RecordValues(a);
      v[0] == ZIP64_EOCD_SIGNATURE && v[8] == |DirectoryOf(a)| && v[9] == DirectoryOffset(a)
  {
  }

  lemma EndRecordSizes(a: Archive)
    requires Writable(a) && !a.Widens()
    ensures EndValues(a)[5] == |DirectoryOf(a)| != PLACEHOLDER && EndValues(a)[6] == DirectoryOffset(a) != PLACEHOLDER
  {
  }

  /** The reader locates the central directory, whichever record holds its place. */
  lemma CentralLocationReadsBack(a: Archive)
    requires Shaped(a.members) && |a.zip64| == 7 && |a.disks| == 4 && Writable(a)
    ensures CentralLocation(Serialise(a)) == Success((DirectoryOffset(a), |DirectoryOf(a)|))
  {
    hide CentralLocation, DirectoryOf, DirectoryOffset, Serialise, Writable;
    if a.Widens() { Zip64Location(a); } else { OrdinaryLocation(a); }
  }

  lemma SerialisedNotEmpty(a: Archive)
    requires Shaped(a.members) && |a.zip64| == 7 && |a.disks| == 4
    ensures |Serialise(a)| >= 22
  {
    hide Body;
    FormatSizes();
  }

  /** Asking for the range a part of the archive occupies gives that part, unless it is empty. */
  lemma RangeMiddle(front: seq<byte>, mid: seq<byte>, rest: seq<byte>)
    ensures Range(front + mid + rest, |front|, |front| + |mid| - 1)
         == if mid == [] then Failure("invalid HTTP range") else Success(mid)
  {
    var s := front + mid + rest;
    assert s[|front|..|front| + |mid|] == mid;
  }

  lemma DirectoryNotEmpty(ms: seq<Member>, offset: nat)
    requires Shaped(ms) && ms != []
    ensures Directory(ms, offset) != []
  {
    hide Pack, CentralExtra, CentralValues;
    FormatSizes();
    assert |CentralPart(ms[0], offset)| >= 46;
  }

  lemma DirectoryInPlace(a: Archive)
    requires Writable(a) && a.members != []
    ensures var offset: int, size: int := DirectoryOffset(a), |DirectoryOf(a)|;
      Range(Serialise(a), offset, offset + size - 1) == Success(DirectoryOf(a))
  {
    hide Pack, Locals, Directory, Locator, Zip64EndRecord, WritableMembers, Fits;
    DirectoryNotEmpty(a.members, |a.prefix|);
    var front := a.prefix + Locals(a.members) + a.beforeDirectory;
    var records := if a.zip64Records then Zip64EndRecord(a) + Locator(a) else [];
    var end := Pack(EOCD, EndValues(a)) + a.comment;
    assert Serialise(a) == front + DirectoryOf(a) + (records + end);
    RangeMiddle(front, DirectoryOf(a), records + end);
  }

  /** Listing a written archive yields exactly its files, in order, with true sizes and
      offsets; it fails exactly when the archive holds no file. */
  lemma EntriesInvertWriting(a: Archive)
    requires Writable(a) && Shaped(a.members) && |a.zip64| == 7 && |a.disks| == 4
    ensures var files := Files(a.members, |a.prefix|);
      && (files != [] ==> Entries(Serialise(a)) == Success(files))
      && (files == [] ==> Entries(Serialise(a)).Failure?)
  {
    hide CentralLocation, ParseDirectory, DirectoryOf, DirectoryOffset, Serialise, Writable, Files;
    CentralLocationReadsBack(a);
    if a.members != [] {
      DirectoryInPlace(a);
      WrittenDirectoryParses(a);
    } else {
      NoMembersNoDirectory(a);
    }
  }

  lemma WrittenDirectoryParses(a: Archive)
    requires Writable(a)
    ensures ParseDirectory(DirectoryOf(a)) == Success(Files(a.members, |a.prefix|))
  {
    DirectoryReadsBack(a.members, |a.prefix|);
  }

  lemma NoMembersNoDirectory(a: Archive)
    requires Shaped(a.members) && a.members == []
    ensures DirectoryOf(a) == [] && Files(a.members, |a.prefix|) == []
  {
  }

  // ---- Reading members ----

  /** Where a member's local header starts. */
  function MemberOffset(ms: seq<Member>, offset: nat, i: nat): nat
    requires Shaped(ms) && i <= |ms|
  {
    offset + |Locals(ms[..i])|
  }

  lemma {:induction false} LocalsAppend(ms: seq<Member>, more: seq<Member>)
    requires Shaped(ms) && Shaped(more)
    ensures Locals(ms + more) == Locals(ms) + Locals(more)
  {
    hide LocalPart;
    if ms == [] {
      assert ms + more == more && [] + Locals(more) == Locals(more);
    } else {
      LocalsAppend(ms[1..], more);
      assert (ms + more)[1..] == ms[1..] + more && (ms + more)[0] == ms[0];
      var first, middle, last := LocalPart(ms[0]), Locals(ms[1..]), Locals(more);
      assert first + (middle + last) == (first + middle) + last;
    }
  }

  lemma LocalsSplit(ms: seq<Member>, i: nat)
    requires Shaped(ms) && i < |ms|
    ensures Locals(ms) == Locals(ms[..i]) + LocalPart(ms[i]) + Locals(ms[i + 1..])
  {
    hide LocalPart, Locals;
    assert ms == ms[..i + 1] + ms[i + 1..] && ms[..i + 1] == ms[..i] + [ms[i]];
    LocalsAppend(ms[..i + 1], ms[i + 1..]);
    LocalsAppend(ms[..i], [ms[i]]);
    LocalsOfOne(ms[i]);
  }

  lemma LocalsOfOne(m: Member)
    requires |m.local| == 7 && |m.central| == 8
    ensures Locals([m]) == LocalPart(m)
  {
    hide LocalPart;
    assert [m][1..] == [] && LocalPart(m) + [] == LocalPart(m);
  }

  /** The name ends in a slash, byte 47. */
  ghost predicate EndsInSlash(name: seq<byte>) {
    name != [] && name[|name| - 1] == 47
  }

  /** `e` is the entry of member `i`, which is not a directory. */
  ghost predicate ListsMember(ms: seq<Member>, offset: nat, e: Entry, i: nat)
    requires Shaped(ms)
  {
    i < |ms| && !EndsInSlash(ms[i].name) && e == EntryOf(ms[i], MemberOffset(ms, offset, i))
  }

  lemma ListsMemberShifts(ms: seq<Member>, offset: nat, e: Entry, i: nat)
    requires Shaped(ms) && ms != []
    ensures ListsMember(ms[1..], offset + |LocalPart(ms[0])|, e, i) <==> ListsMember(ms, offset, e, i + 1)
  {
    hide LocalPart, EntryOf, EndsInSlash;
    if i < |ms| - 1 { assert ms[..i + 1][1..] == ms[1..][..i]; }
  }

  /** The listed entries are the non-directory members at their true offsets. */
  lemma {:induction false} FilesAreMembers(ms: seq<Member>, offset: nat, e: Entry)
    requires Shaped(ms)
    ensures e in Files(ms, offset) <==> exists i: nat :: ListsMember(ms, offset, e, i)
  {
    hide LocalPart, EntryOf, EndsInSlash, ListsMember;
    if ms == [] {
      NothingListed(offset, e);
    } else {
      var next := offset + |LocalPart(ms[0])|;
      FilesAreMembers(ms[1..], next, e);
      FirstListed(ms, offset, e);
      ListedLater(ms, offset, next, e);
    }
  }

  lemma ListedLater(ms: seq<Member>, offset: nat, next: nat, e: Entry)
    requires Shaped(ms) && ms != [] && next == offset + |LocalPart(ms[0])|
    ensures (exists i: nat :: ListsMember(ms, offset, e, i)) <==>
      ListsMember(ms, offset, e, 0) || exists i: nat :: ListsMember(ms[1..], next, e, i)
  {
    hide LocalPart, EntryOf, EndsInSlash, ListsMember;
    if i: nat :| ListsMember(ms[1..], next, e, i) { ListsMemberShifts(ms, offset, e, i); }
    if i: nat :| ListsMember(ms, offset, e, i) {
      if i > 0 { ListsMemberShifts(ms, offset, e, i - 1); }
    }
  }

  lemma NothingListed(offset: nat, e: Entry)
    ensures forall i: nat :: !ListsMember([], offset, e, i)
  {
  }

  lemma FirstListed(ms: seq<Member>, offset: nat, e: Entry)
    requires Shaped(ms) && ms != []
    ensures e in Kept(EntryOf(ms[0], offset)) <==> ListsMember(ms, offset, e, 0)
  {
    assert MemberOffset(ms, offset, 0) == offset;
  }

  /** The local part of member `i` lies at its offset. */
  lemma MemberInPlace(a: Archive, i: nat) returns (front: seq<byte>, rest: seq<byte>)
    requires Writable(a) && i < |a.members|
    ensures Serialise(a) == front + LocalPart(a.members[i]) + rest
    ensures |front| == MemberOffset(a.members, |a.prefix|, i)
  {
    hide Pack, Locals, Directory, Locator, Zip64EndRecord, WritableMembers, Fits, LocalPart;
    LocalsSplit(a.members, i);
    front := a.prefix + Locals(a.members[..i]);
    var records := if a.zip64Records then Zip64EndRecord(a) + Locator(a) else [];
    var end := Pack(EOCD, EndValues(a)) + a.comment;
    var here, back := LocalPart(a.members[i]), Locals(a.members[i + 1..]);
    rest := back + a.beforeDirectory + DirectoryOf(a) + records + end;
    assert Serialise(a) == a.prefix + (Locals(a.members[..i]) + here + back) + a.beforeDirectory + DirectoryOf(a)
      + records + end;
  }

  lemma {:induction false} MemberIsWritable(ms: seq<Member>, offset: nat, i: nat)
    requires Shaped(ms) && WritableMembers(ms, offset) && i < |ms|
    ensures Fits(LOCAL, LocalValues(ms[i]))
    decreases i
  {
    hide LocalPart, Fits, LocalValues, CentralValues;
    if i > 0 { MemberIsWritable(ms[1..], offset + |LocalPart(ms[0])|, i - 1); }
  }

  lemma LocalHeaderReadsBack(front: seq<byte>, m: Member, rest: seq<byte>)
    requires |m.local| == 7 && Fits(LOCAL, LocalValues(m))
    ensures var header := Range(front + LocalPart(m) + rest, |front|, |front| + 29);
      header.Success? && |header.value| == 30 && Size(LOCAL) == 30 && Unpack(LOCAL, header.value) == LocalValues(m)
  {
    hide Pack, Unpack;
    FormatSizes();
    var header := LocalHeader(m);
    var after := m.name + m.localExtra + m.stored + m.descriptor + rest;
    assert front + LocalPart(m) + rest == front + header + after;
    RangeMiddle(front, header, after);
    UnpackPack(LOCAL, LocalValues(m), []);
    assert header + [] == header;
  }

  lemma DataInPlace(front: seq<byte>, m: Member, rest: seq<byte>)
    requires |m.local| == 7
    ensures var start := |front| + 30 + |m.name| + |m.localExtra|;
      Range(front + LocalPart(m) + rest, start, start + |m.stored| - 1)
        == if m.stored == [] then Failure("invalid HTTP range") else Success(m.stored)
  {
    hide Pack;
    FormatSizes();
    var before := front + LocalHeader(m) + m.name + m.localExtra;
    assert front + LocalPart(m) + rest == before + m.stored + (m.descriptor + rest);
    RangeMiddle(before, m.stored, m.descriptor + rest);
  }

  /** What decompressing the member must give. */
  ghost predicate Holds(m: Member, plain: seq<byte>, inflate: seq<byte> -> Result<seq<byte>>,
                        checksum: seq<byte> -> nat) {
    && ((m.compression == 0 && m.stored == plain) || (m.compression == 8 && inflate(m.stored) == Success(plain)))
    && |plain| == m.plainSize && checksum(plain) == m.crc
  }

  /** Reading a member gives its contents exactly when it occupies at least one byte; an
      empty stored member cannot be read, because the empty byte range is refused. */
  lemma ReadInvertsWriting(a: Archive, i: nat, plain: seq<byte>,
                           inflate: seq<byte> -> Result<seq<byte>>, checksum: seq<byte> -> nat)
    requires Writable(a) && i < |a.members| && Holds(a.members[i], plain, inflate, checksum)
    ensures var m := a.members[i];
      Read(Serialise(a), EntryOf(m, MemberOffset(a.members, |a.prefix|, i)), inflate, checksum)
        == if m.stored == [] then Failure("invalid HTTP range") else Success(plain)
  {
    hide Serialise, LocalPart, Unpack, Fits, WritableMembers, Locals, Directory, DirectoryOf;
    var m := a.members[i];
    var front, rest := MemberInPlace(a, i);
    MemberIsWritable(a.members, |a.prefix|, i);
    LocalHeaderReadsBack(front, m, rest);
    DataInPlace(front, m, rest);
  }
}
