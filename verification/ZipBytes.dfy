/** The bytes a written archive consists of, at the positions APPNOTE.TXT gives its fields. */
module ZipBytes {
  import opened Outcomes
  import opened Struct
  import opened ZipReader
  import opened ZipWriter
  import opened ZipRoundTrip

  /** The little-endian numbers of two, four and eight bytes at a position. */
  function Le2(s: seq<byte>, at: nat): nat
    requires at + 2 <= |s|
  {
    s[at] as nat + 0x100 * s[at + 1] as nat
  }

  function Le4(s: seq<byte>, at: nat): nat
    requires at + 4 <= |s|
  {
    s[at] as nat + 0x100 * s[at + 1] as nat + 0x1_0000 * s[at + 2] as nat + 0x100_0000 * s[at + 3] as nat
  }

  function Le8(s: seq<byte>, at: nat): nat
    requires at + 8 <= |s|
  {
    Le4(s, at) + 0x1_0000_0000 * Le4(s, at + 4)
  }

  // ---- Fields of a packed record ----

  function Offset(fmt: Format, k: nat): nat
    requires k <= |fmt|
  {
    Size(fmt[..k])
  }

  lemma OffsetNext(fmt: Format, k: nat)
    requires k < |fmt|
    ensures Offset(fmt, k + 1) == Offset(fmt, k) + fmt[k]
  {
    assert fmt[..k + 1] == fmt[..k] + [fmt[k]];
    SizeOfAppend(fmt[..k], [fmt[k]]);
  }

  lemma {:induction false} FieldWithin(fmt: Format, k: nat)
    requires k < |fmt|
    ensures Offset(fmt, k) + fmt[k] <= Size(fmt)
  {
    OffsetNext(fmt, k);
    assert fmt == fmt[..k + 1] + fmt[k + 1..];
    SizeOfAppend(fmt[..k + 1], fmt[k + 1..]);
  }

  lemma SliceOfRest(head: seq<byte>, rest: seq<byte>, at: nat, n: nat)
    requires at + n <= |rest|
    ensures (head + rest)[|head| + at..|head| + at + n] == rest[at..at + n]
  {
  }

  /** Field `k` of a packed record stands at its offset, whatever follows the record. */
  lemma {:induction false} PackedField(fmt: Format, vals: seq<nat>, rest: seq<byte>, k: nat)
    requires |fmt| == |vals| && k < |fmt|
    ensures var at := Offset(fmt, k);
      at + fmt[k] <= Size(fmt) && (Pack(fmt, vals) + rest)[at..at + fmt[k]] == Encode(fmt[k], vals[k])
  {
    FieldWithin(fmt, k);
    hide Encode;
    var head, more := Encode(fmt[0], vals[0]), Pack(fmt[1..], vals[1..]);
    assert Pack(fmt, vals) + rest == head + (more + rest);
    if k > 0 {
      PackedField(fmt[1..], vals[1..], rest, k - 1);
      assert fmt[..k][1..] == fmt[1..][..k - 1];
      SliceOfRest(head, more + rest, Offset(fmt[1..], k - 1), fmt[k]);
    }
  }

  lemma FieldReads(fmt: Format, vals: seq<nat>, rest: seq<byte>, k: nat)
    requires Fits(fmt, vals) && k < |fmt|
    ensures var at, s := Offset(fmt, k), Pack(fmt, vals) + rest;
      && at + fmt[k] <= Size(fmt)
      && (fmt[k] == 2 ==> Le2(s, at) == vals[k])
      && (fmt[k] == 4 ==> Le4(s, at) == vals[k])
      && (fmt[k] == 8 ==> Le8(s, at) == vals[k])
  {
    PackedField(fmt, vals, rest, k);
    var at, s := Offset(fmt, k), Pack(fmt, vals) + rest;
    DecodeEncode(fmt[k], vals[k]);
    hide Pack, Size, Offset, Encode, Decode;
    if fmt[k] == 2 { DecodeTwo(s, at); }
    if fmt[k] == 4 { DecodeFour(s, at); }
    if fmt[k] == 8 { DecodeEight(s, at); }
  }

  lemma DecodeTwo(s: seq<byte>, at: nat)
    requires at + 2 <= |s|
    ensures Decode(s[at..at + 2]) == Le2(s, at)
  {
    var t := s[at..at + 2];
    assert Decode(t) == t[0] as nat + 256 * Decode(t[1..]);
    assert Decode(t[1..]) == t[1] as nat + 256 * Decode(t[1..][1..]) && t[1..][1..] == [];
  }

  lemma DecodeSplits(a: seq<byte>, b: seq<byte>)
    requires |a| == 2
    ensures Decode(a + b) == Decode(a) + 0x1_0000 * Decode(b)
  {
    var s := a + b;
    assert s[1..][1..] == b && s[1..][0] == a[1] && a[1..][1..] == [] && a[1..][0] == a[1];
    assert Decode(s) == a[0] + 256 * Decode(s[1..]) && Decode(s[1..]) == a[1] + 256 * Decode(b);
    assert Decode(a) == a[0] + 256 * Decode(a[1..]) && Decode(a[1..]) == a[1];
  }

  lemma DecodeFour(s: seq<byte>, at: nat)
    requires at + 4 <= |s|
    ensures Decode(s[at..at + 4]) == Le4(s, at)
  {
    assert s[at..at + 4] == s[at..at + 2] + s[at + 2..at + 4];
    DecodeSplits(s[at..at + 2], s[at + 2..at + 4]);
    DecodeTwo(s, at);
    DecodeTwo(s, at + 2);
  }

  lemma DecodeEight(s: seq<byte>, at: nat)
    requires at + 8 <= |s|
    ensures Decode(s[at..at + 8]) == Le8(s, at)
  {
    hide Decode;
    assert s[at..at + 8] == s[at..at + 2] + s[at + 2..at + 8];
    assert s[at + 2..at + 8] == s[at + 2..at + 4] + s[at + 4..at + 8];
    DecodeSplits(s[at..at + 2], s[at + 2..at + 8]);
    DecodeSplits(s[at + 2..at + 4], s[at + 4..at + 8]);
    DecodeTwo(s, at);
    DecodeTwo(s, at + 2);
    DecodeFour(s, at + 4);
  }

  // ---- Where the fields of each record stand ----

  lemma {:induction false} OffsetAfterRun(fmt: Format, k: nat, n: nat, width: nat)
    requires k + n <= |fmt| && forall i :: k <= i < k + n ==> fmt[i] == width
    ensures Offset(fmt, k + n) == Offset(fmt, k) + n * width
  {
    if n > 0 {
      OffsetAfterRun(fmt, k, n - 1, width);
      OffsetNext(fmt, k + n - 1);
    }
  }

  lemma CentralFields()
    ensures CENTRAL == [4, 2, 2, 2, 2, 2, 2, 4, 4, 4, 2, 2, 2, 2, 2, 4, 4]
  {
  }

  lemma CentralOffsets()
    ensures |CENTRAL| == 17 && Size(CENTRAL) == 46
    ensures Offset(CENTRAL, 0) == 0 && Offset(CENTRAL, 4) == 10 && Offset(CENTRAL, 7) == 16
    ensures Offset(CENTRAL, 8) == 20 && Offset(CENTRAL, 9) == 24 && Offset(CENTRAL, 10) == 28
    ensures Offset(CENTRAL, 11) == 30 && Offset(CENTRAL, 12) == 32 && Offset(CENTRAL, 16) == 42
    ensures CENTRAL[4] == CENTRAL[10] == CENTRAL[11] == CENTRAL[12] == 2
    ensures CENTRAL[0] == CENTRAL[7] == CENTRAL[8] == CENTRAL[9] == CENTRAL[16] == 4
  {
    FormatSizes();
    CentralFields();
    OffsetsAlong(CENTRAL);
  }

  lemma OffsetsAlong(fmt: Format)
    requires fmt == [4, 2, 2, 2, 2, 2, 2, 4, 4, 4, 2, 2, 2, 2, 2, 4, 4]
    ensures Offset(fmt, 0) == 0 && Offset(fmt, 4) == 10 && Offset(fmt, 7) == 16
    ensures Offset(fmt, 8) == 20 && Offset(fmt, 9) == 24 && Offset(fmt, 10) == 28
    ensures Offset(fmt, 11) == 30 && Offset(fmt, 12) == 32 && Offset(fmt, 16) == 42
  {
    hide Offset;
    OffsetsInFront(fmt);
    OffsetAfterRun(fmt, 7, 1, 4);
    OffsetAfterRun(fmt, 8, 1, 4);
    OffsetAfterRun(fmt, 9, 1, 4);
    OffsetAfterRun(fmt, 10, 1, 2);
    OffsetAfterRun(fmt, 11, 1, 2);
    OffsetAfterRun(fmt, 12, 3, 2);
    OffsetAfterRun(fmt, 15, 1, 4);
  }

  lemma OffsetsInFront(fmt: Format)
    requires |fmt| >= 7 && fmt[..7] == [4, 2, 2, 2, 2, 2, 2]
    ensures Offset(fmt, 0) == 0 && Offset(fmt, 4) == 10 && Offset(fmt, 7) == 16
  {
    assert Offset(fmt, 0) == 0;
    hide Offset;
    assert forall i :: 0 <= i < 7 ==> fmt[i] == fmt[..7][i];
    OffsetAfterRun(fmt, 0, 1, 4);
    OffsetAfterRun(fmt, 1, 3, 2);
    OffsetAfterRun(fmt, 4, 3, 2);
  }

  lemma LocalOffsets()
    ensures |LOCAL| == 11 && Size(LOCAL) == 30
    ensures Offset(LOCAL, 0) == 0 && Offset(LOCAL, 3) == 8 && Offset(LOCAL, 9) == 26 && Offset(LOCAL, 10) == 28
    ensures LOCAL[0] == 4 && LOCAL[3] == LOCAL[9] == LOCAL[10] == 2
  {
    assert Offset(LOCAL, 0) == 0;
    hide Offset, Run, Size;
    FormatSizes();
    OffsetAfterRun(LOCAL, 0, 1, 4);
    OffsetAfterRun(LOCAL, 1, 2, 2);
    OffsetAfterRun(LOCAL, 3, 3, 2);
    OffsetAfterRun(LOCAL, 6, 3, 4);
    OffsetAfterRun(LOCAL, 9, 1, 2);
  }

  lemma EndOffsets()
    ensures |EOCD| == 8 && Size(EOCD) == 22
    ensures Offset(EOCD, 0) == 0 && Offset(EOCD, 5) == 12 && Offset(EOCD, 6) == 16 && Offset(EOCD, 7) == 20
    ensures EOCD[0] == EOCD[5] == EOCD[6] == 4 && EOCD[7] == 2
  {
    assert Offset(EOCD, 0) == 0;
    hide Offset, Run, Size;
    FormatSizes();
    OffsetAfterRun(EOCD, 0, 1, 4);
    OffsetAfterRun(EOCD, 1, 4, 2);
    OffsetAfterRun(EOCD, 5, 1, 4);
    OffsetAfterRun(EOCD, 6, 1, 4);
  }

  lemma Zip64Offsets()
    ensures |ZIP64_EOCD| == 10 && Size(ZIP64_EOCD) == 56 && |LOCATOR| == 4 && Size(LOCATOR) == 20
    ensures Offset(ZIP64_EOCD, 0) == 0 && Offset(ZIP64_EOCD, 8) == 40 && Offset(ZIP64_EOCD, 9) == 48
    ensures ZIP64_EOCD[0] == 4 && ZIP64_EOCD[8] == ZIP64_EOCD[9] == 8
    ensures Offset(LOCATOR, 0) == 0 && Offset(LOCATOR, 2) == 8 && LOCATOR[0] == 4 && LOCATOR[2] == 8
  {
    assert Offset(ZIP64_EOCD, 0) == 0 && Offset(LOCATOR, 0) == 0;
    hide Offset, Run, Size;
    FormatSizes();
    OffsetAfterRun(ZIP64_EOCD, 0, 1, 4);
    OffsetAfterRun(ZIP64_EOCD, 1, 1, 8);
    OffsetAfterRun(ZIP64_EOCD, 2, 2, 2);
    OffsetAfterRun(ZIP64_EOCD, 4, 2, 4);
    OffsetAfterRun(ZIP64_EOCD, 6, 2, 8);
    OffsetAfterRun(ZIP64_EOCD, 8, 1, 8);
    OffsetAfterRun(LOCATOR, 0, 2, 4);
  }

  // ---- The records ----

  /** At a position the four bytes 0xFF stand in for a moved number, or the number itself does. */
  ghost predicate Moved(s: seq<byte>, at: nat, moved: bool, v: nat) {
    at + 4 <= |s| && if moved then s[at..at + 4] == [0xFF, 0xFF, 0xFF, 0xFF] else Le4(s, at) == v
  }

  lemma FourBytes(v: nat, a: byte, b: byte, c: byte, d: byte)
    requires v == a as nat + 0x100 * b as nat + 0x1_0000 * c as nat + 0x100_0000 * d as nat
    ensures Encode(4, v) == [a, b, c, d]
  {
    var v1 := v / 256;
    var v2 := v1 / 256;
    assert v % 256 == a && v1 == b as nat + 0x100 * c as nat + 0x1_0000 * d as nat;
    assert v1 % 256 == b && v2 == c as nat + 0x100 * d as nat;
    assert v2 % 256 == c && v2 / 256 == d as nat;
    assert Encode(1, d as nat) == [d] + Encode(0, 0);
    assert Encode(2, v2) == [c] + Encode(1, d as nat);
    assert Encode(3, v1) == [b] + Encode(2, v2);
  }

  lemma NarrowField(fmt: Format, vals: seq<nat>, rest: seq<byte>, k: nat, moved: bool, v: nat)
    requires Fits(fmt, vals) && k < |fmt| && fmt[k] == 4 && vals[k] == Narrow(moved, v)
    ensures Moved(Pack(fmt, vals) + rest, Offset(fmt, k), moved, v)
  {
    PackedField(fmt, vals, rest, k);
    if moved { FourBytes(PLACEHOLDER, 0xFF, 0xFF, 0xFF, 0xFF); } else { FieldReads(fmt, vals, rest, k); }
  }

  /** A central header, for any member and offset. */
  lemma CentralHeaderBytes(m: Member, offset: nat)
    requires WritableMember(m, offset)
    ensures var c := CentralPart(m, offset);
      && |c| >= 46 && c[..4] == [0x50, 0x4b, 1, 2]
      && Le2(c, 10) == m.compression && Le4(c, 16) == m.crc
      && Moved(c, 20, m.widened.compressed, |m.stored|)
      && Moved(c, 24, m.widened.uncompressed, m.plainSize)
      && Le2(c, 28) == |m.name| && Le2(c, 30) == |CentralExtra(m, offset)| && Le2(c, 32) == |m.comment|
      && Moved(c, 42, m.widened.offset, offset)
      && c[46..] == m.name + CentralExtra(m, offset) + m.comment
  {
    hide Fits, Pack, Narrow, CentralExtra, Zip64Payload, Moved, InPlace, WritableFields, Offset, Run, Encode;
    var vals, rest := CentralValues(m, offset), m.name + CentralExtra(m, offset) + m.comment;
    CentralOffsets();
    assert CentralPart(m, offset) == Pack(CENTRAL, vals) + rest;
    PackedField(CENTRAL, vals, rest, 0);
    FourBytes(CENTRAL_SIGNATURE, 0x50, 0x4b, 1, 2);
    FieldReads(CENTRAL, vals, rest, 4);
    FieldReads(CENTRAL, vals, rest, 7);
    NarrowField(CENTRAL, vals, rest, 8, m.widened.compressed, |m.stored|);
    NarrowField(CENTRAL, vals, rest, 9, m.widened.uncompressed, m.plainSize);
    FieldReads(CENTRAL, vals, rest, 10);
    FieldReads(CENTRAL, vals, rest, 11);
    FieldReads(CENTRAL, vals, rest, 12);
    NarrowField(CENTRAL, vals, rest, 16, m.widened.offset, offset);
  }

  /** A local header. */
  lemma LocalHeaderBytes(m: Member)
    requires |m.local| == 7 && Fits(LOCAL, LocalValues(m))
    ensures var l := LocalPart(m);
      && |l| >= 30 && l[..4] == [0x50, 0x4b, 3, 4]
      && Le2(l, 8) == m.compression && Le2(l, 26) == |m.name| && Le2(l, 28) == |m.localExtra|
      && l[30..] == m.name + m.localExtra + m.stored + m.descriptor
  {
    hide Fits, Pack, Offset, Run, Encode;
    var vals, rest := LocalValues(m), m.name + m.localExtra + m.stored + m.descriptor;
    LocalOffsets();
    assert LocalPart(m) == Pack(LOCAL, vals) + rest;
    PackedField(LOCAL, vals, rest, 0);
    FourBytes(LOCAL_SIGNATURE, 0x50, 0x4b, 3, 4);
    FieldReads(LOCAL, vals, rest, 3);
    FieldReads(LOCAL, vals, rest, 9);
    FieldReads(LOCAL, vals, rest, 10);
  }

  /** The end record closes the archive. */
  lemma EndRecordBytes(a: Archive)
    requires Writable(a)
    ensures |Body(a)| + 22 + |a.comment| == |Serialise(a)|
    ensures var e := Serialise(a)[|Body(a)|..];
      && e[..4] == [0x50, 0x4b, 5, 6]
      && Moved(e, 12, a.widenSize, |DirectoryOf(a)|) && Moved(e, 16, a.widenOffset, DirectoryOffset(a))
      && Le2(e, 20) == |a.comment| && e[22..] == a.comment
  {
    hide Fits, Pack, Narrow, Moved, InPlace, Offset, Run, Encode, Body, DirectoryOf, DirectoryOffset, Occurs;
    hide WritableMembers, NoLaterLocator;
    var vals := EndValues(a);
    EndOffsets();
    assert Serialise(a)[|Body(a)|..] == Pack(EOCD, vals) + a.comment;
    PackedField(EOCD, vals, a.comment, 0);
    FourBytes(EOCD_SIGNATURE, 0x50, 0x4b, 5, 6);
    NarrowField(EOCD, vals, a.comment, 5, a.widenSize, |DirectoryOf(a)|);
    NarrowField(EOCD, vals, a.comment, 6, a.widenOffset, DirectoryOffset(a));
    FieldReads(EOCD, vals, a.comment, 7);
  }

  /** The ZIP64 end record holds the directory's true size and offset, its locator the record's. */
  lemma Zip64RecordBytes(a: Archive)
    requires Writable(a) && a.zip64Records
    ensures var z, l := Zip64EndRecord(a), Locator(a);
      && |z| >= 56 && z[..4] == [0x50, 0x4b, 6, 6]
      && Le8(z, 40) == |DirectoryOf(a)| && Le8(z, 48) == DirectoryOffset(a) && z[56..] == a.zip64Extension
      && |l| == 20 && l[..4] == [0x50, 0x4b, 6, 7] && Le8(l, 8) == DirectoryOffset(a) + |DirectoryOf(a)|
  {
    hide Fits, Pack, InPlace, Offset, Run, Encode, Body, DirectoryOf, DirectoryOffset, Occurs, Serialise;
    hide WritableMembers, NoLaterLocator, Le8;
    Zip64Offsets();
    var vals, places := Zip64RecordValues(a), LocatorValues(a);
    PackedField(ZIP64_EOCD, vals, a.zip64Extension, 0);
    FourBytes(ZIP64_EOCD_SIGNATURE, 0x50, 0x4b, 6, 6);
    FieldReads(ZIP64_EOCD, vals, a.zip64Extension, 8);
    FieldReads(ZIP64_EOCD, vals, a.zip64Extension, 9);
    assert Pack(LOCATOR, places) + [] == Locator(a);
    PackedField(LOCATOR, places, [], 0);
    FourBytes(ZIP64_LOCATOR_SIGNATURE, 0x50, 0x4b, 6, 7);
    FieldReads(LOCATOR, places, [], 2);
  }

  /** The ZIP64 field a header with moved numbers carries: id 1, the length of its data, and the
      moved numbers, eight bytes each. */
  lemma Zip64FieldBytes(m: Member, offset: nat)
    requires WritableMember(m, offset) && m.widened.Any()
    ensures var f := FieldBytes(ExtraField(1, Zip64Payload(m, offset)));
      && CentralExtra(m, offset) == FieldsBytes(m.fieldsBefore) + f + m.extraAfter
      && |f| >= 4 && Le2(f, 0) == 1 && Le2(f, 2) == |f| - 4 && HoldsWords(f[4..], m, offset)
  {
    hide Le2, Le8, FieldsBytes, Pack, Zip64Payload, HoldsWords;
    var payload := Zip64Payload(m, offset);
    FieldHeaderBytes(payload);
    PayloadHoldsWords(m, offset);
    assert (Pack(FIELD, [1, |payload|]) + payload)[4..] == payload;
  }

  ghost predicate HoldsWords(s: seq<byte>, m: Member, offset: nat) {
    var c := if m.widened.uncompressed then 8 else 0;
    var o := c + if m.widened.compressed then 8 else 0;
    && (m.widened.uncompressed ==> |s| >= 8 && Le8(s, 0) == m.plainSize)
    && (m.widened.compressed ==> |s| >= c + 8 && Le8(s, c) == |m.stored|)
    && (m.widened.offset ==> |s| >= o + 8 && Le8(s, o) == offset)
  }

  lemma PayloadHoldsWords(m: Member, offset: nat)
    requires WritableMember(m, offset)
    ensures HoldsWords(Zip64Payload(m, offset), m, offset)
  {
    hide Le8, Encode, Fits, WritableFields, CentralValues, LocalValues;
    InPlaceFits(m.widened.uncompressed, m.plainSize);
    InPlaceFits(m.widened.compressed, |m.stored|);
    InPlaceFits(m.widened.offset, offset);
    var u, c, o := Word(m.widened.uncompressed, m.plainSize), Word(m.widened.compressed, |m.stored|),
      Word(m.widened.offset, offset);
    var s := Zip64Payload(m, offset);
    WordReads([], m.plainSize, c + o + m.zip64Tail);
    WordReads(u, |m.stored|, o + m.zip64Tail);
    WordReads(u + c, offset, m.zip64Tail);
    assert m.widened.uncompressed ==> s == [] + u + (c + o + m.zip64Tail);
    assert m.widened.compressed ==> s == u + c + (o + m.zip64Tail);
    assert m.widened.offset ==> s == u + c + o + m.zip64Tail;
  }

  lemma FieldHeaderBytes(payload: seq<byte>)
    requires |payload| < 0x1_0000
    ensures var f := Pack(FIELD, [1, |payload|]) + payload;
      |f| == 4 + |payload| && Le2(f, 0) == 1 && Le2(f, 2) == |payload|
  {
    assert Offset(FIELD, 0) == 0;
    hide Pack, Size, Offset, Run;
    FormatSizes();
    PowersOf256();
    OffsetAfterRun(FIELD, 0, 1, 2);
    FieldReads(FIELD, [1, |payload|], payload, 0);
    FieldReads(FIELD, [1, |payload|], payload, 1);
  }

  lemma WordReads(before: seq<byte>, v: nat, rest: seq<byte>)
    requires v < Pow256(8)
    ensures Le8(before + Word(true, v) + rest, |before|) == v
  {
    var s := before + Word(true, v) + rest;
    assert s[|before|..|before| + 8] == Encode(8, v);
    DecodeEncode(8, v);
    DecodeEight(s, |before|);
  }

  // ---- What is looked for, in bytes ----

  /** The archive is refused for want of an end record exactly when the signature occurs nowhere in
      its last mebibyte. */
  lemma EndRecordIsMissingExactlyWhen(archive: seq<byte>)
    requires archive != []
    ensures CentralLocation(archive) == Failure("remote ZIP end-of-central-directory record not found") <==>
      forall p: nat :: p + 1048576 >= |archive| ==> !Occurs(archive, [0x50, 0x4b, 5, 6], p)
  {
    FourBytes(EOCD_SIGNATURE, 0x50, 0x4b, 5, 6);
    FailsWithoutSignature(archive);
    SearchedFrom(archive, TailStart(archive), [0x50, 0x4b, 5, 6]);
    hide CentralLocation, RFind, Occurs;
  }

  lemma SearchedFrom(s: seq<byte>, start: nat, pattern: seq<byte>)
    requires start <= |s| && pattern != []
    ensures RFind(s[start..], pattern, |s| - start) < 0 <==> forall p: nat :: p >= start ==> !Occurs(s, pattern, p)
  {
    var tail, n := s[start..], |pattern|;
    hide RFind;
    var found := RFind(tail, pattern, |tail|);
    forall q: nat ensures Occurs(tail, pattern, q) <==> Occurs(s, pattern, start + q) {
      if start + q + n <= |s| { assert tail[q..q + n] == s[start + q..start + q + n]; }
    }
    forall p: nat | p >= start && Occurs(s, pattern, p) ensures found >= 0 {
      assert Occurs(tail, pattern, p - start);
    }
  }

  lemma FailsWithoutSignature(archive: seq<byte>)
    requires archive != []
    ensures CentralLocation(archive) == Failure("remote ZIP end-of-central-directory record not found") <==>
      RFind(TailOf(archive), Encode(4, EOCD_SIGNATURE), |TailOf(archive)|) < 0
  {
    hide RFind, Encode, Unpack, Size;
    assert archive[TailStart(archive)..|archive|] == TailOf(archive);
    assert |"remote ZIP end-of-central-directory record not found"| == 52;
    assert |"remote ZIP64 locator not found"| == 30 && |"invalid remote ZIP64 record"| == 27;
    assert |"struct.error"| == 12 && |"invalid HTTP range"| == 18;
  }

  // ---- When a member can be read ----

  lemma {:induction false} UnpackedField(fmt: Format, s: seq<byte>, k: nat)
    requires |s| >= Size(fmt) && k < |fmt|
    ensures var at := Offset(fmt, k);
      at + fmt[k] <= Size(fmt) && Unpack(fmt, s)[k] == Decode(s[at..at + fmt[k]])
  {
    hide Decode;
    FieldWithin(fmt, k);
    if k > 0 {
      UnpackedField(fmt[1..], s[fmt[0]..], k - 1);
      assert fmt[..k][1..] == fmt[1..][..k - 1];
      RestOfSlice(s, fmt[0], Offset(fmt[1..], k - 1), fmt[k]);
    }
  }

  lemma RestOfSlice(s: seq<byte>, from: nat, at: nat, n: nat)
    requires from + at + n <= |s|
    ensures s[from..][at..at + n] == s[from + at..from + at + n]
  {
  }

  lemma {:induction false} SameBytes(s: seq<byte>, t: seq<byte>)
    requires |s| == |t|
    ensures Decode(s) == Decode(t) <==> s == t
  {
    if s != [] {
      SameBytes(s[1..], t[1..]);
      LowByte(s[0], Decode(s[1..]), t[0], Decode(t[1..]));
      hide Decode;
      assert s == [s[0]] + s[1..] && t == [t[0]] + t[1..];
    }
  }

  lemma LowByte(a: byte, b: nat, c: byte, d: nat)
    ensures a as nat + 256 * b == c as nat + 256 * d <==> a == c && b == d
  {
  }

  /** The fields of a local header that reading uses. */
  lemma LocalHeaderFields(header: seq<byte>)
    requires |header| == 30
    ensures Size(LOCAL) == 30
    ensures var v := Unpack(LOCAL, header);
      && |v| == 11 && (v[0] == LOCAL_SIGNATURE <==> header[..4] == [0x50, 0x4b, 3, 4])
      && v[9] == Le2(header, 26) && v[10] == Le2(header, 28)
  {
    hide Unpack, Offset, Run, Encode, Decode, Size;
    LocalOffsets();
    UnpackedField(LOCAL, header, 0);
    UnpackedField(LOCAL, header, 9);
    UnpackedField(LOCAL, header, 10);
    DecodeTwo(header, 26);
    DecodeTwo(header, 28);
    LocalSignatureBytes();
    SameBytes(header[..4], [0x50, 0x4b, 3, 4]);
  }

  lemma LocalSignatureBytes()
    ensures Decode([0x50, 0x4b, 3, 4]) == LOCAL_SIGNATURE
  {
    FourBytes(LOCAL_SIGNATURE, 0x50, 0x4b, 3, 4);
    PowersOf256();
    DecodeEncode(4, LOCAL_SIGNATURE);
  }

  /** Decompressing the stored bytes gives `p`. */
  ghost predicate Unpacks(stored: seq<byte>, compression: nat, inflate: seq<byte> -> Result<seq<byte>>, p: seq<byte>) {
    (compression == 0 && p == stored) || (compression == 8 && inflate(stored) == Success(p))
  }

  /** Reading gives `p` exactly when a local header stands at the entry's offset, the entry's stored
      bytes follow its name and extra field, they are not none and lie in the archive, and they unpack to
      `p`, of the entry's size and checksum. */
  lemma ReadSucceedsExactlyWhen(archive: seq<byte>, entry: Entry, inflate: seq<byte> -> Result<seq<byte>>,
                                checksum: seq<byte> -> nat, p: seq<byte>)
    ensures Read(archive, entry, inflate, checksum) == Success(p) <==>
      var at, size := entry.localHeaderOffset, entry.compressedSize;
      && at + 30 <= |archive| && archive[at..at + 4] == [0x50, 0x4b, 3, 4]
      && var start := at + 30 + Le2(archive, at + 26) + Le2(archive, at + 28);
        && 0 < size && start + size <= |archive|
        && Unpacks(archive[start..start + size], entry.compressionMethod, inflate, p)
        && |p| == entry.uncompressedSize && checksum(p) == entry.crc32
  {
    hide Unpack, Size;
    FormatSizes();
    var at := entry.localHeaderOffset;
    if at + 30 <= |archive| {
      var header := archive[at..at + 30];
      LocalHeaderFields(header);
      assert header[..4] == archive[at..at + 4];
      assert Le2(header, 26) == Le2(archive, at + 26) && Le2(header, 28) == Le2(archive, at + 28);
      hide Le2;
      assert Range(archive, at, at + 29) == Success(header);
    }
  }
}
