/** Archives as PKWARE's APPNOTE.TXT lays them out: sections 4.3.7 (local header), 4.3.12
    (central directory), 4.3.14 (ZIP64 end record), 4.3.15 (its locator), 4.3.16 (end
    record) and 4.5.3 (ZIP64 extra field).  This is what the reader has to invert. */
module ZipWriter {
  import opened Struct
  import opened ZipReader

  /** Which of the three sizes of a central header are moved to the ZIP64 field. */
  datatype Widened = Widened(uncompressed: bool, compressed: bool, offset: bool) {
    predicate Any() {
      uncompressed || compressed || offset
    }
  }

  datatype ExtraField = ExtraField(id: nat, payload: seq<byte>)

  datatype Member = Member(
    name: seq<byte>,
    stored: seq<byte>,          // the bytes in the archive, compressed or not
    plainSize: nat,
    compression: nat,
    crc: nat,
    local: seq<nat>,            // version, flags, time, date, CRC and sizes of the local header
    localExtra: seq<byte>,
    descriptor: seq<byte>,      // whatever follows the data
    central: seq<nat>,          // versions, flags, time, date, disk and attributes of the central header
    widened: Widened,
    fieldsBefore: seq<ExtraField>,
    zip64Tail: seq<byte>,
    extraAfter: seq<byte>,
    comment: seq<byte>)

  datatype Archive = Archive(
    prefix: seq<byte>,
    members: seq<Member>,
    beforeDirectory: seq<byte>,
    disks: seq<nat>,            // the disk and entry-count fields of the end record
    widenSize: bool,
    widenOffset: bool,
    zip64Records: bool,         // whether the ZIP64 end record and its locator are written
    zip64: seq<nat>,            // the other fields of the ZIP64 end record
    zip64Extension: seq<byte>,
    locatorDisks: (nat, nat),
    comment: seq<byte>)
  {
    /** The end record alone does not say where the directory is. */
    predicate Widens() {
      widenSize || widenOffset
    }
  }

  // ---- Serialisation ----

  function LocalValues(m: Member): seq<nat>
    requires |m.local| == 7
  {
    [LOCAL_SIGNATURE, m.local[0], m.local[1], m.compression, m.local[2], m.local[3],
     m.local[4], m.local[5], m.local[6], |m.name|, |m.localExtra|]
  }

  function LocalHeader(m: Member): seq<byte>
    requires |m.local| == 7
  {
    Pack(LOCAL, LocalValues(m))
  }

  function LocalPart(m: Member): seq<byte>
    requires |m.local| == 7
  {
    LocalHeader(m) + m.name + m.localExtra + m.stored + m.descriptor
  }

  function FieldBytes(f: ExtraField): seq<byte> {
    Pack(FIELD, [f.id, |f.payload|]) + f.payload
  }

  function FieldsBytes(fs: seq<ExtraField>): seq<byte> {
    if fs == [] then [] else FieldBytes(fs[0]) + FieldsBytes(fs[1..])
  }

  function Word(moved: bool, v: nat): seq<byte> {
    if moved then Encode(8, v) else []
  }

  function Zip64Payload(m: Member, offset: nat): seq<byte> {
    Word(m.widened.uncompressed, m.plainSize) + Word(m.widened.compressed, |m.stored|)
      + Word(m.widened.offset, offset) + m.zip64Tail
  }

  function CentralExtra(m: Member, offset: nat): seq<byte> {
    FieldsBytes(m.fieldsBefore)
      + (if m.widened.Any() then FieldBytes(ExtraField(1, Zip64Payload(m, offset))) else [])
      + m.extraAfter
  }

  function Narrow(moved: bool, v: nat): nat {
    if moved then PLACEHOLDER else v
  }

  function CentralValues(m: Member, offset: nat): seq<nat>
    requires |m.central| == 8
  {
    [CENTRAL_SIGNATURE, m.central[0], m.central[1], m.central[2], m.compression, m.central[3], m.central[4], m.crc,
     Narrow(m.widened.compressed, |m.stored|), Narrow(m.widened.uncompressed, m.plainSize),
     |m.name|, |CentralExtra(m, offset)|, |m.comment|, m.central[5], m.central[6], m.central[7],
     Narrow(m.widened.offset, offset)]
  }

  function CentralPart(m: Member, offset: nat): seq<byte>
    requires |m.central| == 8
  {
    Pack(CENTRAL, CentralValues(m, offset)) + m.name + CentralExtra(m, offset) + m.comment
  }

  predicate Shaped(ms: seq<Member>) {
    forall i :: 0 <= i < |ms| ==> |ms[i].local| == 7 && |ms[i].central| == 8
  }

  function Locals(ms: seq<Member>): seq<byte>
    requires Shaped(ms)
  {
    if ms == [] then [] else LocalPart(ms[0]) + Locals(ms[1..])
  }

  /** The central directory of members whose local parts start at `offset`. */
  function Directory(ms: seq<Member>, offset: nat): seq<byte>
    requires Shaped(ms)
  {
    if ms == [] then [] else CentralPart(ms[0], offset) + Directory(ms[1..], offset + |LocalPart(ms[0])|)
  }

  function DirectoryOffset(a: Archive): nat
    requires Shaped(a.members)
  {
    |a.prefix| + |Locals(a.members)| + |a.beforeDirectory|
  }

  function DirectoryOf(a: Archive): seq<byte>
    requires Shaped(a.members)
  {
    Directory(a.members, |a.prefix|)
  }

  function Zip64RecordValues(a: Archive): seq<nat>
    requires Shaped(a.members) && |a.zip64| == 7
  {
    [ZIP64_EOCD_SIGNATURE, a.zip64[0], a.zip64[1], a.zip64[2], a.zip64[3], a.zip64[4],
     a.zip64[5], a.zip64[6], |DirectoryOf(a)|, DirectoryOffset(a)]
  }

  function Zip64EndRecord(a: Archive): seq<byte>
    requires Shaped(a.members) && |a.zip64| == 7
  {
    Pack(ZIP64_EOCD, Zip64RecordValues(a)) + a.zip64Extension
  }

  function LocatorValues(a: Archive): seq<nat>
    requires Shaped(a.members)
  {
    [ZIP64_LOCATOR_SIGNATURE, a.locatorDisks.0, DirectoryOffset(a) + |DirectoryOf(a)|, a.locatorDisks.1]
  }

  function Locator(a: Archive): seq<byte>
    requires Shaped(a.members)
  {
    Pack(LOCATOR, LocatorValues(a))
  }

  function EndValues(a: Archive): seq<nat>
    requires Shaped(a.members) && |a.disks| == 4
  {
    [EOCD_SIGNATURE, a.disks[0], a.disks[1], a.disks[2], a.disks[3],
     Narrow(a.widenSize, |DirectoryOf(a)|), Narrow(a.widenOffset, DirectoryOffset(a)), |a.comment|]
  }

  /** Everything before the end record. */
  function Body(a: Archive): seq<byte>
    requires Shaped(a.members) && |a.zip64| == 7
  {
    a.prefix + Locals(a.members) + a.beforeDirectory + DirectoryOf(a)
      + (if a.zip64Records then Zip64EndRecord(a) + Locator(a) else [])
  }

  function Serialise(a: Archive): seq<byte>
    requires Shaped(a.members) && |a.zip64| == 7 && |a.disks| == 4
  {
    Body(a) + Pack(EOCD, EndValues(a)) + a.comment
  }

  // ---- Which archives can be written ----

  /** A size is stored in place only if it is not the placeholder and fits 32 bits. */
  ghost predicate InPlace(moved: bool, v: nat) {
    if moved then v < Pow256(8) else v < PLACEHOLDER
  }

  ghost predicate WritableFields(fs: seq<ExtraField>) {
    forall i :: 0 <= i < |fs| ==> fs[i].id < 0x1_0000 && fs[i].id != 1 && |fs[i].payload| < 0x1_0000
  }

  ghost predicate WritableMember(m: Member, offset: nat) {
    && |m.local| == 7 && |m.central| == 8
    && Fits(CENTRAL, CentralValues(m, offset))
    && Fits(LOCAL, LocalValues(m))
    && InPlace(m.widened.uncompressed, m.plainSize)
    && InPlace(m.widened.compressed, |m.stored|)
    && InPlace(m.widened.offset, offset)
    && WritableFields(m.fieldsBefore)
    && |Zip64Payload(m, offset)| < 0x1_0000
  }

  ghost predicate WritableMembers(ms: seq<Member>, offset: nat)
    requires Shaped(ms)
  {
    ms == [] || (WritableMember(ms[0], offset) && WritableMembers(ms[1..], offset + |LocalPart(ms[0])|))
  }

  /** Every field fits, and no later signature shadows the end record, nor its locator if that
      is needed. The ZIP64 records may be there without need, as when only the number of
      entries is too large for the end record. */
  ghost predicate Writable(a: Archive) {
    && Shaped(a.members) && |a.zip64| == 7 && |a.disks| == 4
    && WritableMembers(a.members, |a.prefix|)
    && InPlace(a.widenSize, |DirectoryOf(a)|) && InPlace(a.widenOffset, DirectoryOffset(a))
    && Fits(EOCD, EndValues(a))
    && (a.Widens() ==> a.zip64Records)
    && (a.zip64Records ==>
        && Fits(ZIP64_EOCD, Zip64RecordValues(a))
        && Fits(LOCATOR, LocatorValues(a)))
    && (forall p: nat :: p > |Body(a)| ==> !Occurs(Serialise(a), Encode(4, EOCD_SIGNATURE), p))
    && (a.Widens() ==> NoLaterLocator(a))
  }

  ghost predicate NoLaterLocator(a: Archive)
    requires Shaped(a.members) && |a.zip64| == 7 && |a.disks| == 4
  {
    forall p: nat :: |Body(a)| - 20 < p && p + 4 <= |Body(a)| ==>
      !Occurs(Serialise(a), Encode(4, ZIP64_LOCATOR_SIGNATURE), p)
  }

  // ---- What a reader should see ----

  function EntryOf(m: Member, offset: nat): Entry {
    Entry(m.name, |m.stored|, m.plainSize, m.compression, m.crc, offset)
  }

  /** The non-directory members in order, with true sizes and offsets. */
  function Files(ms: seq<Member>, offset: nat): seq<Entry>
    requires Shaped(ms)
  {
    if ms == [] then [] else
      Kept(EntryOf(ms[0], offset)) + Files(ms[1..], offset + |LocalPart(ms[0])|)
  }
}
