/** The remote ZIP reader, over an archive given as its bytes: `_range` is a slice. */
module ZipReader {
  import opened Outcomes
  import opened Struct

  const EOCD_SIGNATURE := 0x06054b50
  const ZIP64_EOCD_SIGNATURE := 0x06064b50
  const ZIP64_LOCATOR_SIGNATURE := 0x07064b50
  const CENTRAL_SIGNATURE := 0x02014b50
  const LOCAL_SIGNATURE := 0x04034b50
  const PLACEHOLDER := 0xFFFFFFFF
  const TAIL := 1048576

  /** `<4s4H2LH` */
  const EOCD: Format := Run(1, 4) + Run(4, 2) + Run(2, 4) + Run(1, 2)
  /** `<4sLQL` */
  const LOCATOR: Format := Run(1, 4) + Run(1, 4) + Run(1, 8) + Run(1, 4)
  /** `<4sQ2H2L4Q` */
  const ZIP64_EOCD: Format := Run(1, 4) + Run(1, 8) + Run(2, 2) + Run(2, 4) + Run(4, 8)
  /** `<4s6H3L5H2L` */
  const CENTRAL: Format := Run(1, 4) + Run(6, 2) + Run(3, 4) + Run(5, 2) + Run(2, 4)
  /** `<4s5H3L2H` */
  const LOCAL: Format := Run(1, 4) + Run(5, 2) + Run(3, 4) + Run(2, 2)
  /** `<HH` */
  const FIELD: Format := Run(2, 2)

  datatype Entry = Entry(
    name: seq<byte>,
    compressedSize: nat,
    uncompressedSize: nat,
    compressionMethod: nat,
    crc32: nat,
    localHeaderOffset: nat)

  lemma SizeOfTwo(a: nat, wa: nat, b: nat, wb: nat)
    ensures Size(Run(a, wa) + Run(b, wb)) == a * wa + b * wb
  {
    SizeOfAppend(Run(a, wa), Run(b, wb));
    SizeOfRun(a, wa);
    SizeOfRun(b, wb);
  }

  lemma FormatSizes()
    ensures Size(EOCD) == 22 && Size(LOCATOR) == 20 && Size(ZIP64_EOCD) == 56
    ensures Size(CENTRAL) == 46 && Size(LOCAL) == 30 && Size(FIELD) == 4
  {
    hide Size, Run;
    SizeOfTwo(1, 4, 4, 2);
    SizeOfTwo(2, 4, 1, 2);
    SizeOfAppend(Run(1, 4) + Run(4, 2), Run(2, 4) + Run(1, 2));
    assert EOCD == (Run(1, 4) + Run(4, 2)) + (Run(2, 4) + Run(1, 2));
    SizeOfTwo(1, 4, 1, 4);
    SizeOfTwo(1, 8, 1, 4);
    SizeOfAppend(Run(1, 4) + Run(1, 4), Run(1, 8) + Run(1, 4));
    assert LOCATOR == (Run(1, 4) + Run(1, 4)) + (Run(1, 8) + Run(1, 4));
    WideFormatSizes();
    SizeOfRun(2, 2);
  }

  lemma WideFormatSizes()
    ensures Size(ZIP64_EOCD) == 56 && Size(CENTRAL) == 46 && Size(LOCAL) == 30
  {
    hide Size, Run;
    SizeOfTwo(1, 4, 1, 8);
    SizeOfTwo(2, 2, 2, 4);
    SizeOfRun(4, 8);
    SizeOfAppend(Run(1, 4) + Run(1, 8), Run(2, 2) + Run(2, 4));
    SizeOfAppend((Run(1, 4) + Run(1, 8)) + (Run(2, 2) + Run(2, 4)), Run(4, 8));
    assert ZIP64_EOCD == ((Run(1, 4) + Run(1, 8)) + (Run(2, 2) + Run(2, 4))) + Run(4, 8);
    SizeOfTwo(1, 4, 6, 2);
    SizeOfTwo(3, 4, 5, 2);
    SizeOfRun(2, 4);
    SizeOfAppend(Run(1, 4) + Run(6, 2), Run(3, 4) + Run(5, 2));
    SizeOfAppend((Run(1, 4) + Run(6, 2)) + (Run(3, 4) + Run(5, 2)), Run(2, 4));
    assert CENTRAL == ((Run(1, 4) + Run(6, 2)) + (Run(3, 4) + Run(5, 2))) + Run(2, 4);
    SizeOfTwo(1, 4, 5, 2);
    SizeOfTwo(3, 4, 2, 2);
    SizeOfAppend(Run(1, 4) + Run(5, 2), Run(3, 4) + Run(2, 2));
    assert LOCAL == (Run(1, 4) + Run(5, 2)) + (Run(3, 4) + Run(2, 2));
  }

  function Range(archive: seq<byte>, start: int, end: int): (r: Result<seq<byte>>)
    ensures r.Success? <==> 0 <= start <= end < |archive|
    ensures r.Success? ==> r.value == archive[start..end + 1]
  {
    if start < 0 || end < start || end >= |archive| then Failure("invalid HTTP range")
    else Success(archive[start..end + 1])
  }

  /** `struct.unpack_from`, which raises when the buffer is too short. */
  function UnpackFrom(fmt: Format, s: seq<byte>, position: nat): (r: Result<seq<nat>>)
    ensures r.Success? <==> position + Size(fmt) <= |s|
    ensures r.Success? ==> r.value == Unpack(fmt, s[position..]) && |r.value| == |fmt|
  {
    if position + Size(fmt) > |s| then Failure("struct.error") else Success(Unpack(fmt, s[position..]))
  }

  /** `_central_location`: the offset and size of the central directory. */
  function CentralLocation(archive: seq<byte>): Result<(nat, nat)> {
    var tailSize := if |archive| < TAIL then |archive| else TAIL;
    var tail :- Range(archive, |archive| - tailSize, |archive| - 1);
    var eocdPosition := RFind(tail, Encode(4, EOCD_SIGNATURE), |tail|);
    if eocdPosition < 0 then Failure("remote ZIP end-of-central-directory record not found")
    else
      var eocd :- UnpackFrom(EOCD, tail, eocdPosition);
      if eocd[6] != PLACEHOLDER && eocd[5] != PLACEHOLDER then Success((eocd[6], eocd[5]))
      else
        var locatorPosition := RFind(tail, Encode(4, ZIP64_LOCATOR_SIGNATURE), eocdPosition);
        if locatorPosition < 0 then Failure("remote ZIP64 locator not found")
        else
          var locator :- UnpackFrom(LOCATOR, tail, locatorPosition);
          var zip64 :- Range(archive, locator[2], locator[2] + 55);
          var record :- UnpackFrom(ZIP64_EOCD, zip64, 0);
          if record[0] != ZIP64_EOCD_SIGNATURE then Failure("invalid remote ZIP64 record")
          else Success((record[9], record[8]))
  }

  /** The eight-byte words of a field; trailing bytes are ignored. */
  function Words(field: seq<byte>): seq<nat> {
    if |field| < 8 then [] else [Decode(field[..8])] + Words(field[8..])
  }

  /** The words of the first ZIP64 field among the extra fields. */
  function Zip64Words(extra: seq<byte>): Option<seq<nat>>
    decreases |extra|
  {
    if |extra| < 4 then None
    else
      FormatSizes();
      var header := Unpack(FIELD, extra);
      if header[0] == 1 then Some(Words(Slice(extra, 4, header[1])))
      else Zip64Words(From(extra, 4 + header[1]))
  }

  /** Takes the next word if `value` is the placeholder. */
  function Resolve(value: nat, words: seq<nat>): (nat, seq<nat>)
    requires value == PLACEHOLDER ==> words != []
  {
    if value == PLACEHOLDER then (words[0], words[1..]) else (value, words)
  }

  function Placeholders(u: nat, c: nat, o: nat): nat {
    (if u == PLACEHOLDER then 1 else 0) + (if c == PLACEHOLDER then 1 else 0) + (if o == PLACEHOLDER then 1 else 0)
  }

  /** `_zip64_values` */
  function Zip64Values(extra: seq<byte>, u: nat, c: nat, o: nat): Result<(nat, nat, nat)> {
    var words := Zip64Words(extra);
    var required := Placeholders(u, c, o);
    if required > 0 && (words.None? || |words.value| < required) then Failure("incomplete ZIP64 extended information")
    else
      var (u1, rest1) := Resolve(u, if words.Some? then words.value else []);
      var (c1, rest2) := Resolve(c, rest1);
      var (o1, _) := Resolve(o, rest2);
      Success((u1, c1, o1))
  }

  predicate IsDirectory(name: seq<byte>) {
    name != [] && name[|name| - 1] == '/' as nat
  }

  /** The header fields of the entry that starts `central`. */
  function Header(central: seq<byte>): (v: seq<nat>)
    requires |central| >= 46
    ensures |v| == 17
  {
    FormatSizes();
    Unpack(CENTRAL, central)
  }

  function EntryLength(v: seq<nat>): nat
    requires |v| == 17
  {
    46 + v[10] + v[11] + v[12]
  }

  function EntryAt(central: seq<byte>): Result<Entry>
    requires |central| >= 46
  {
    var v := Header(central);
    var name := Slice(central, 46, v[10]);
    var extra := Slice(central, 46 + v[10], v[11]);
    var sizes :- Zip64Values(extra, v[9], v[8], v[16]);
    Success(Entry(name, sizes.1, sizes.0, v[4], v[7], sizes.2))
  }

  function ParseDirectory(central: seq<byte>): Result<seq<Entry>>
    decreases |central|
  {
    if |central| < 46 || Header(central)[0] != CENTRAL_SIGNATURE then Success([])
    else
      var entry :- EntryAt(central);
      var rest :- ParseDirectory(From(central, EntryLength(Header(central))));
      Success(Kept(entry) + rest)
  }

  function Entries(archive: seq<byte>): Result<seq<Entry>> {
    var location :- CentralLocation(archive);
    var central :- Range(archive, location.0, location.0 + location.1 - 1);
    var entries :- ParseDirectory(central);
    if entries == [] then Failure("remote ZIP central directory has no files") else Success(entries)
  }

  /** `read`, over an uninterpreted inflate and checksum. */
  function Read(archive: seq<byte>, entry: Entry,
                inflate: seq<byte> -> Result<seq<byte>>, checksum: seq<byte> -> nat): Result<seq<byte>> {
    FormatSizes();
    var header :- Range(archive, entry.localHeaderOffset, entry.localHeaderOffset + 29);
    var v := Unpack(LOCAL, header);
    if v[0] != LOCAL_SIGNATURE then Failure("invalid local ZIP header")
    else
      var dataStart := entry.localHeaderOffset + 30 + v[9] + v[10];
      var compressed :- Range(archive, dataStart, dataStart + entry.compressedSize - 1);
      var payload :-
        if entry.compressionMethod == 0 then Success(compressed)
        else if entry.compressionMethod == 8 then inflate(compressed)
        else Failure("unsupported ZIP compression method");
      if |payload| != entry.uncompressedSize then Failure("remote ZIP member size mismatch")
      else if checksum(payload) != entry.crc32 then Failure("remote ZIP member CRC mismatch")
      else Success(payload)
  }

  // ---- The loops ----

  /** The loop of `_zip64_values` over the extra fields. */
  method ScanExtraFields(extra: seq<byte>) returns (values: Option<seq<nat>>)
    ensures values == Zip64Words(extra)
  {
    hide Unpack, Run, Words, Zip64Words, Slice;
    FormatSizes();
    values := None;
    var position := 0;
    assert From(extra, 0) == extra;
    while position + 4 <= |extra|
      invariant Zip64Words(extra) == Zip64Words(From(extra, position))
      decreases |extra| - position
    {
      ScanStep(extra, position);
      var header := Unpack(FIELD, extra[position..]);
      position := position + 4;
      var field := Slice(extra, position, header[1]);
      position := position + header[1];
      if header[0] == 1 {
        return Some(Words(field));
      }
    }
    ScanStops(extra, position);
  }

  lemma ScanStops(extra: seq<byte>, position: nat)
    requires position + 4 > |extra|
    ensures Zip64Words(From(extra, position)) == None
  {
  }

  lemma ScanStep(extra: seq<byte>, position: nat)
    requires position + 4 <= |extra|
    ensures Size(FIELD) == 4
    ensures var header := Unpack(FIELD, extra[position..]);
      Zip64Words(From(extra, position)) ==
        if header[0] == 1 then Some(Words(Slice(extra, position + 4, header[1])))
        else Zip64Words(From(extra, position + 4 + header[1]))
  {
    hide Unpack, Run, Words;
    FormatSizes();
    var rest := extra[position..];
    var header := Unpack(FIELD, rest);
    assert From(extra, position) == rest;
    assert Slice(rest, 4, header[1]) == Slice(extra, position + 4, header[1]);
    assert From(rest, 4 + header[1]) == From(extra, position + 4 + header[1]);
  }

  method ReadEntries(archive: seq<byte>) returns (r: Result<seq<Entry>>)
    ensures r == Entries(archive)
  {
    hide CentralLocation, ParseDirectory;
    var location := CentralLocation(archive);
    if location.Failure? {
      return Failure(location.message);
    }
    var start: int, size: int := location.value.0, location.value.1;
    var ranged := Range(archive, start, start + size - 1);
    if ranged.Failure? {
      return Failure(ranged.message);
    }
    r := ReadDirectory(ranged.value);
    if r.Success? && r.value == [] {
      r := Failure("remote ZIP central directory has no files");
    }
  }

  /** The loop of `entries` over the central directory. */
  method ReadDirectory(central: seq<byte>) returns (r: Result<seq<Entry>>)
    ensures r == ParseDirectory(central)
  {
    hide Unpack, EntryAt, ParseDirectory, CENTRAL;
    var entries: seq<Entry> := [];
    var position := 0;
    PrependedNothing(ParseDirectory(central));
    assert From(central, 0) == central;
    while position + 46 <= |central|
      invariant ParseDirectory(central) == Prepended(entries, ParseDirectory(From(central, position)))
      decreases |central| - position
    {
      var values := Header(central[position..]);
      if values[0] != CENTRAL_SIGNATURE {
        break;
      }
      var entry := EntryAt(central[position..]);
      ParseUnfolds(central, position);
      if entry.Failure? {
        return Failure(entry.message);
      }
      PrependedTwice(entries, Kept(entry.value), ParseDirectory(From(central, position + EntryLength(values))));
      assert entries + [] == entries;
      if !IsDirectory(entry.value.name) {
        entries := entries + [entry.value];
      }
      position := position + EntryLength(values);
    }
    ParseStops(central, position);
    assert entries + [] == entries;
    return Success(entries);
  }

  lemma ParseStops(central: seq<byte>, position: nat)
    requires position + 46 > |central| || Header(central[position..])[0] != CENTRAL_SIGNATURE
    ensures ParseDirectory(From(central, position)) == Success([])
  {
    hide Unpack, EntryAt, CENTRAL;
    if position < |central| { assert From(central, position) == central[position..]; }
  }

  function Kept(entry: Entry): seq<Entry> {
    if IsDirectory(entry.name) then [] else [entry]
  }

  lemma ParseUnfolds(central: seq<byte>, position: nat)
    requires position + 46 <= |central| && Header(central[position..])[0] == CENTRAL_SIGNATURE
    ensures var here := central[position..];
      var next := From(central, position + EntryLength(Header(here)));
      ParseDirectory(From(central, position)) ==
        match EntryAt(here)
        case Failure(message) => Failure(message)
        case Success(entry) => Prepended(Kept(entry), ParseDirectory(next))
  {
    hide Unpack, EntryAt, CENTRAL;
    var here := central[position..];
    assert From(central, position) == here;
    assert From(here, EntryLength(Header(here))) == From(central, position + EntryLength(Header(here)));
  }

  lemma PrependedTwice(a: seq<Entry>, b: seq<Entry>, r: Result<seq<Entry>>)
    ensures Prepended(a, Prepended(b, r)) == Prepended(a + b, r)
  {
    if r.Success? { assert a + (b + r.value) == (a + b) + r.value; }
  }

  lemma PrependedNothing(r: Result<seq<Entry>>)
    ensures Prepended([], r) == r
  {
    if r.Success? { assert [] + r.value == r.value; }
  }

  function Prepended(entries: seq<Entry>, r: Result<seq<Entry>>): Result<seq<Entry>> {
    var rest :- r;
    Success(entries + rest)
  }
}
