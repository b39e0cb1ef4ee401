/**
 The zip reader of the workbook parser (`core/features/documents/xlsx.ts`) and the
 writer its tests feed it with (`core/features/documents/test-workbook.ts`).
 */
module Zip {
  import opened Wrappers
  import opened Bytes

  const EOCD_SIGNATURE := 0x0605_4b50
  const CENTRAL_SIGNATURE := 0x0201_4b50
  const LOCAL_SIGNATURE := 0x0403_4b50

  /** Foreign code: UTF-8 and raw deflate. */
  datatype Codec = Codec(
    encode: string -> seq<byte>,
    decode: seq<byte> -> string,
    deflate: seq<byte> -> seq<byte>,
    inflate: seq<byte> -> Option<seq<byte>>)

  /** Each decoder undoes its encoder. */
  ghost predicate Faithful(codec: Codec) {
    && (forall s :: codec.decode(codec.encode(s)) == s)
    && (forall b :: codec.inflate(codec.deflate(b)) == Some(b))
  }

  datatype ZipEntry = ZipEntry(name: string, compression: nat, compressedSize: nat, localHeaderOffset: nat)

  datatype ZipError = NotAZip | CorruptDirectory | CorruptEntry | OutOfRange | Unsupported(compression: nat) | BadData

  // ---- the reader -----------------------------------------------------------

  /** The last position from `low` to `i` where the end record's signature stands; -1 when nowhere. */
  function FindEnd(zip: seq<byte>, i: int, low: nat): (e: int)
    requires i + 4 <= |zip|
    ensures e == -1 || (low <= e <= i && U32(zip, e) == EOCD_SIGNATURE)
    ensures forall k: nat :: low <= k <= i && k > e ==> U32(zip, k) != EOCD_SIGNATURE
    decreases i
  {
    if i < low then -1
    else if U32(zip, i) == EOCD_SIGNATURE then i
    else FindEnd(zip, i - 1, low)
  }

  function EndOf(zip: seq<byte>): int {
    FindEnd(zip, |zip| - 22, Clip(|zip| - 22 - 0xffff, |zip|))
  }

  /** The entry of the central record at `at`. */
  function EntryAt(zip: seq<byte>, at: nat, codec: Codec): ZipEntry
    requires at + 46 <= |zip|
  {
    var name := codec.decode(Subarray(zip, at + 46, at + 46 + U16(zip, at + 28)));
    ZipEntry(name, U16(zip, at + 10), U32(zip, at + 20), U32(zip, at + 42))
  }

  /** Where the record after it starts. */
  function NextAt(zip: seq<byte>, at: nat): nat
    requires at + 46 <= |zip|
  {
    at + 46 + U16(zip, at + 28) + U16(zip, at + 30) + U16(zip, at + 32)
  }

  function Prepend(entries: seq<ZipEntry>, r: Result<seq<ZipEntry>, ZipError>): Result<seq<ZipEntry>, ZipError> {
    match r
    case Failure(error) => Failure(error)
    case Success(rest) => Success(entries + rest)
  }

  lemma PrependTwice(a: seq<ZipEntry>, b: seq<ZipEntry>, r: Result<seq<ZipEntry>, ZipError>)
    ensures Prepend(a, Prepend(b, r)) == Prepend(a + b, r)
    ensures Prepend([], r) == r
  {
    if r.Success? {
      assert a + (b + r.value) == a + b + r.value;
      assert [] + r.value == r.value;
    }
  }

  /** The entries of `count` central records from `at` on. */
  function EntriesFrom(zip: seq<byte>, at: nat, count: nat, codec: Codec): Result<seq<ZipEntry>, ZipError>
    decreases count
  {
    if count == 0 then Success([])
    else if at + 4 > |zip| then Failure(OutOfRange)
    else if U32(zip, at) != CENTRAL_SIGNATURE then Failure(CorruptDirectory)
    else if at + 46 > |zip| then Failure(OutOfRange)
    else Prepend([EntryAt(zip, at, codec)], EntriesFrom(zip, NextAt(zip, at), count - 1, codec))
  }

  /** What `readCentralDirectory` computes. */
  function Directory(zip: seq<byte>, codec: Codec): Result<seq<ZipEntry>, ZipError> {
    var eocd := EndOf(zip);
    if eocd < 0 then Failure(NotAZip) else EntriesFrom(zip, U32(zip, eocd + 16), U16(zip, eocd + 10), codec)
  }

  method ScanForEnd(zip: seq<byte>) returns (eocd: int)
    ensures eocd == EndOf(zip)
  {
    hide U32;
    eocd := -1;
    var i := |zip| - 22;
    var low := Clip(|zip| - 22 - 0xffff, |zip|);
    while i >= low
      invariant i <= |zip| - 22 && eocd == -1
      invariant EndOf(zip) == FindEnd(zip, i, low)
      decreases i
    {
      if U32(zip, i) == EOCD_SIGNATURE {
        return i;
      }
      i := i - 1;
    }
  }

  method ReadCentralDirectory(zip: seq<byte>, codec: Codec) returns (r: Result<seq<ZipEntry>, ZipError>)
    ensures r == Directory(zip, codec)
  {
    hide U16, U32, Subarray, EndOf;
    var eocd := ScanForEnd(zip);
    if eocd < 0 {
      return Failure(NotAZip);
    }
    EndInside(zip);
    var count := U16(zip, eocd + 10);
    var offset: nat := U32(zip, eocd + 16);
    var entries: seq<ZipEntry> := [];
    PrependTwice([], [], EntriesFrom(zip, offset, count, codec));
    for n := 0 to count
      invariant Directory(zip, codec) == Prepend(entries, EntriesFrom(zip, offset, count - n, codec))
    {
      if offset + 4 > |zip| {
        return Failure(OutOfRange);
      }
      if U32(zip, offset) != CENTRAL_SIGNATURE {
        return Failure(CorruptDirectory);
      }
      if offset + 46 > |zip| {
        return Failure(OutOfRange);
      }
      var compression := U16(zip, offset + 10);
      var compressedSize := U32(zip, offset + 20);
      var nameLength := U16(zip, offset + 28);
      var extraLength := U16(zip, offset + 30);
      var commentLength := U16(zip, offset + 32);
      var localHeaderOffset := U32(zip, offset + 42);
      var name := codec.decode(Subarray(zip, offset + 46, offset + 46 + nameLength));
      var entry := ZipEntry(name, compression, compressedSize, localHeaderOffset);
      var next: nat := offset + 46 + nameLength + extraLength + commentLength;
      assert entry == EntryAt(zip, offset, codec) && next == NextAt(zip, offset);
      PrependTwice(entries, [entry], EntriesFrom(zip, next, count - n - 1, codec));
      entries := entries + [entry];
      offset := next;
    }
    assert entries + [] == entries;
    r := Success(entries);
  }

  lemma EndInside(zip: seq<byte>)
    ensures EndOf(zip) >= 0 ==> EndOf(zip) + 22 <= |zip|
  {
    hide U32;
  }

  /** `readEntry` */
  function ReadEntry(zip: seq<byte>, entry: ZipEntry, codec: Codec): Result<seq<byte>, ZipError> {
    var at := entry.localHeaderOffset;
    if at + 4 > |zip| then Failure(OutOfRange)
    else if U32(zip, at) != LOCAL_SIGNATURE then Failure(CorruptEntry)
    else if at + 30 > |zip| then Failure(OutOfRange)
    else
      var start := at + 30 + U16(zip, at + 26) + U16(zip, at + 28);
      var data := Subarray(zip, start, start + entry.compressedSize);
      if entry.compression == 0 then Success(data)
      else if entry.compression == 8 then
        match codec.inflate(data)
        case Some(raw) => Success(raw)
        case None => Failure(BadData)
      else Failure(Unsupported(entry.compression))
  }

  // ---- the format -----------------------------------------------------------

  /**
   A member of an archive: its name, how its data is stored, where its local record
   starts and how much its central record carries beside the name.
   */
  datatype Member = Member(
    name: seq<byte>, compression: nat, data: seq<byte>, offset: nat, extraLength: nat, commentLength: nat)

  /** A central record (section 4.3.12 of the PKWARE APPNOTE) of the member at `at`. */
  predicate HasCentral(zip: seq<byte>, at: nat, m: Member) {
    && at + CentralSize(m) <= |zip|
    && U32(zip, at) == CENTRAL_SIGNATURE
    && U16(zip, at + 10) == m.compression
    && U32(zip, at + 20) == |m.data|
    && U16(zip, at + 28) == |m.name|
    && U16(zip, at + 30) == m.extraLength
    && U16(zip, at + 32) == m.commentLength
    && U32(zip, at + 42) == m.offset
    && zip[at + 46..at + 46 + |m.name|] == m.name
  }

  function CentralSize(m: Member): nat {
    46 + |m.name| + m.extraLength + m.commentLength
  }

  /** The member's local record (section 4.3.7): header, name, any extra field, data. */
  predicate HasLocal(zip: seq<byte>, m: Member) {
    && m.offset + 30 <= |zip|
    && U32(zip, m.offset) == LOCAL_SIGNATURE
    && U16(zip, m.offset + 26) == |m.name|
    && var start := m.offset + 30 + |m.name| + U16(zip, m.offset + 28);
       && start + |m.data| <= |zip|
       && zip[m.offset + 30..m.offset + 30 + |m.name|] == m.name
       && zip[start..start + |m.data|] == m.data
  }

  predicate CentralsAt(zip: seq<byte>, at: nat, members: seq<Member>)
    decreases |members|
  {
    members == [] || (HasCentral(zip, at, members[0]) && CentralsAt(zip, at + CentralSize(members[0]), members[1..]))
  }

  function CentralsSize(members: seq<Member>): nat {
    if members == [] then 0 else CentralSize(members[0]) + CentralsSize(members[1..])
  }

  /** The end record (section 4.3.16) at `e`, with at most a comment after it that holds no later signature. */
  predicate HasEnd(zip: seq<byte>, e: nat, start: nat, count: nat) {
    && e + 22 <= |zip| <= e + 22 + 0xffff
    && U32(zip, e) == EOCD_SIGNATURE
    && U16(zip, e + 10) == count
    && U32(zip, e + 16) == start
    && forall i :: e < i <= |zip| - 22 ==> U32(zip, i) != EOCD_SIGNATURE
  }

  /** An archive of the members, whatever its records carry besides, and whatever stands between them. */
  predicate IsArchive(zip: seq<byte>, members: seq<Member>, e: nat, start: nat) {
    && HasEnd(zip, e, start, |members|)
    && CentralsAt(zip, start, members)
    && forall i :: 0 <= i < |members| ==> HasLocal(zip, members[i])
  }

  function EntryOf(m: Member, codec: Codec): ZipEntry {
    ZipEntry(codec.decode(m.name), m.compression, |m.data|, m.offset)
  }

  function EntriesOf(members: seq<Member>, codec: Codec): seq<ZipEntry> {
    seq(|members|, i requires 0 <= i < |members| => EntryOf(members[i], codec))
  }

  lemma {:induction false} EntriesRead(zip: seq<byte>, at: nat, members: seq<Member>, codec: Codec)
    requires CentralsAt(zip, at, members)
    ensures EntriesFrom(zip, at, |members|, codec) == Success(EntriesOf(members, codec))
    decreases |members|
  {
    if members != [] {
      var m := members[0];
      EntriesRead(zip, at + CentralSize(m), members[1..], codec);
      assert EntriesOf(members, codec) == [EntryOf(m, codec)] + EntriesOf(members[1..], codec);
      assert EntryAt(zip, at, codec) == EntryOf(m, codec);
    } else {
      assert EntriesOf(members, codec) == [];
    }
  }

  /** The reader finds exactly the members of any archive, in directory order. */
  lemma DirectoryOfArchive(zip: seq<byte>, members: seq<Member>, e: nat, start: nat, codec: Codec)
    requires IsArchive(zip, members, e, start)
    ensures Directory(zip, codec) == Success(EntriesOf(members, codec))
  {
    hide EntriesFrom, CentralsAt, HasLocal, EntriesOf;
    assert EndOf(zip) == e by {
      var found := EndOf(zip);
      assert U32(zip, e) == EOCD_SIGNATURE;
    }
    EntriesRead(zip, start, members, codec);
  }

  /** And reads each member's data, as stored or inflated. */
  lemma EntryOfArchive(zip: seq<byte>, m: Member, codec: Codec)
    requires HasLocal(zip, m)
    ensures
      var r := ReadEntry(zip, EntryOf(m, codec), codec);
      && (m.compression == 0 ==> r == Success(m.data))
      && (m.compression == 8 ==> r == match codec.inflate(m.data) case Some(raw) => Success(raw) case None => Failure(BadData))
      && (m.compression != 0 && m.compression != 8 ==> r == Failure(Unsupported(m.compression)))
  {
  }

  // ---- archives that are none -----------------------------------------------

  /** Records that follow each other from `at` on: the places of central records and where the last one ends. */
  predicate Walks(zip: seq<byte>, at: nat, walk: seq<nat>) {
    && walk != [] && walk[0] == at
    && forall k :: 0 <= k < |walk| - 1 ==>
         && walk[k] + 46 <= |zip| && U32(zip, walk[k]) == 0x02014b50
         && walk[k + 1] == walk[k] + 46 + U16(zip, walk[k] + 28) + U16(zip, walk[k] + 30) + U16(zip, walk[k] + 32)
  }

  /**
   The reader goes from record to record as far as they go: it has as many entries as
   asked for, or fails at the first that is none.
   */
  lemma {:induction false} EntriesExactly(zip: seq<byte>, at: nat, count: nat, walk: seq<nat>, codec: Codec)
    requires Walks(zip, at, walk) && |walk| <= count + 1
    ensures
      var r, stop := EntriesFrom(zip, at, count, codec), walk[|walk| - 1];
      if |walk| == count + 1 then
        && r.Success? && |r.value| == count
        && forall k :: 0 <= k < count ==>
             && r.value[k].name == codec.decode(Subarray(zip, walk[k] + 46, walk[k] + 46 + U16(zip, walk[k] + 28)))
             && r.value[k].compression == U16(zip, walk[k] + 10)
             && r.value[k].compressedSize == U32(zip, walk[k] + 20)
             && r.value[k].localHeaderOffset == U32(zip, walk[k] + 42)
      else
        && (stop + 4 > |zip| || (U32(zip, stop) == 0x02014b50 && stop + 46 > |zip|) ==> r == Failure(OutOfRange))
        && (stop + 4 <= |zip| && U32(zip, stop) != 0x02014b50 ==> r == Failure(CorruptDirectory))
    decreases |walk|
  {
    hide U16, U32, Subarray;
    if |walk| > 1 {
      assert NextAt(zip, at) == walk[1];
      EntriesExactly(zip, walk[1], count - 1, walk[1..], codec);
    }
  }

  /** Bytes without an end signature among the last 65557 are no archive; otherwise the last one counts. */
  lemma EndExactly(zip: seq<byte>, e: nat, codec: Codec)
    ensures Directory(zip, codec) == Failure(NotAZip)
            <==> forall k: nat :: |zip| - 65557 <= k <= |zip| - 22 ==> U32(zip, k) != 0x06054b50
    ensures |zip| - 65557 <= e <= |zip| - 22 && U32(zip, e) == 0x06054b50
            && (forall k: nat :: e < k <= |zip| - 22 ==> U32(zip, k) != 0x06054b50) ==>
              Directory(zip, codec) == EntriesFrom(zip, U32(zip, e + 16), U16(zip, e + 10), codec)
  {
    hide U16, U32;
    NoOtherFailure(zip, if EndOf(zip) < 0 then 0 else U32(zip, EndOf(zip) + 16),
      if EndOf(zip) < 0 then 0 else U16(zip, EndOf(zip) + 10), codec);
  }

  lemma {:induction false} NoOtherFailure(zip: seq<byte>, at: nat, count: nat, codec: Codec)
    ensures EntriesFrom(zip, at, count, codec) != Failure(NotAZip)
    decreases count
  {
    hide U16, U32, Subarray;
    if count > 0 && at + 46 <= |zip| {
      NoOtherFailure(zip, NextAt(zip, at), count - 1, codec);
    }
  }

  /** A member is read only behind a local header that is there. */
  lemma EntryFails(zip: seq<byte>, entry: ZipEntry, codec: Codec)
    ensures
      var r, at := ReadEntry(zip, entry, codec), entry.localHeaderOffset;
      && (r == Failure(CorruptEntry) <==> at + 4 <= |zip| && U32(zip, at) != 0x04034b50)
      && (r == Failure(OutOfRange) <==> at + 4 > |zip| || (U32(zip, at) == 0x04034b50 && at + 30 > |zip|))
  {
    hide U16, U32, Subarray;
  }

  // ---- the writer -----------------------------------------------------------

  datatype Source = Source(name: string, data: string, deflate: Option<bool>)

  predicate Stored(s: Source) {
    s.deflate == Some(false)
  }

  function DataOf(s: Source, codec: Codec): seq<byte> {
    var raw := codec.encode(s.data);
    if Stored(s) then raw else codec.deflate(raw)
  }

  function MemberOf(s: Source, offset: nat, codec: Codec): Member {
    Member(codec.encode(s.name), if Stored(s) then 0 else 8, DataOf(s, codec), offset, 0, 0)
  }

  function LocalSize(s: Source, codec: Codec): nat {
    30 + |codec.encode(s.name)| + |DataOf(s, codec)|
  }

  /** Where the local record after the first `n` starts. */
  function OffsetOf(sources: seq<Source>, n: nat, codec: Codec): nat
    requires n <= |sources|
  {
    if n == 0 then 0 else OffsetOf(sources, n - 1, codec) + LocalSize(sources[n - 1], codec)
  }

  function MembersOf(sources: seq<Source>, n: nat, codec: Codec): (members: seq<Member>)
    requires n <= |sources|
    ensures |members| == n
  {
    if n == 0 then []
    else MembersOf(sources, n - 1, codec) + [MemberOf(sources[n - 1], OffsetOf(sources, n - 1, codec), codec)]
  }

  /** The record fields have room for the entry. */
  predicate EntryFits(s: Source, offset: nat, codec: Codec) {
    && |codec.encode(s.name)| <= MAX16
    && |DataOf(s, codec)| <= MAX32
    && |codec.encode(s.data)| <= MAX32
    && offset <= MAX32
  }

  predicate EntriesFit(sources: seq<Source>, n: nat, codec: Codec)
    requires n <= |sources|
  {
    forall i :: 0 <= i < n ==> EntryFits(sources[i], OffsetOf(sources, i, codec), codec)
  }

  predicate ArchiveFits(sources: seq<Source>, codec: Codec) {
    && EntriesFit(sources, |sources|, codec)
    && |sources| <= MAX16
    && CentralsSize(MembersOf(sources, |sources|, codec)) <= MAX32
    && OffsetOf(sources, |sources|, codec) <= MAX32
  }

  method LocalHeader(compression: nat, dataLength: nat, rawLength: nat, nameLength: nat) returns (r: Option<seq<byte>>)
    requires compression <= MAX16
    ensures r.Some? <==> dataLength <= MAX32 && rawLength <= MAX32 && nameLength <= MAX16
    ensures r.Some? ==>
              && |r.value| == 30
              && U32(r.value, 0) == LOCAL_SIGNATURE && U16(r.value, 8) == compression
              && U32(r.value, 18) == dataLength && U32(r.value, 22) == rawLength
              && U16(r.value, 26) == nameLength && U16(r.value, 28) == 0
  {
    var buffer := new byte[30](_ => 0);
    var ok := Write32(buffer, LOCAL_SIGNATURE, 0);
    ok := Write16(buffer, compression, 8);
    ok := Write32(buffer, dataLength, 18);
    if !ok {
      return None;
    }
    ok := Write32(buffer, rawLength, 22);
    if !ok {
      return None;
    }
    ok := Write16(buffer, nameLength, 26);
    if !ok {
      return None;
    }
    r := Some(buffer[..]);
  }

  method CentralHeader(compression: nat, dataLength: nat, rawLength: nat, nameLength: nat, offset: nat)
    returns (r: Option<seq<byte>>)
    requires compression <= MAX16
    ensures r.Some? <==> dataLength <= MAX32 && rawLength <= MAX32 && nameLength <= MAX16 && offset <= MAX32
    ensures r.Some? ==>
              && |r.value| == 46
              && U32(r.value, 0) == CENTRAL_SIGNATURE && U16(r.value, 10) == compression
              && U32(r.value, 20) == dataLength && U32(r.value, 24) == rawLength
              && U16(r.value, 28) == nameLength && U16(r.value, 30) == 0 && U16(r.value, 32) == 0
              && U32(r.value, 42) == offset
  {
    var buffer := new byte[46](_ => 0);
    var ok := Write32(buffer, CENTRAL_SIGNATURE, 0);
    ok := Write16(buffer, compression, 10);
    ok := Write32(buffer, dataLength, 20);
    if !ok {
      return None;
    }
    ok := Write32(buffer, rawLength, 24);
    if !ok {
      return None;
    }
    ok := Write16(buffer, nameLength, 28);
    if !ok {
      return None;
    }
    ok := Write32(buffer, offset, 42);
    if !ok {
      return None;
    }
    r := Some(buffer[..]);
  }

  method EndRecord(count: nat, centralSize: nat, centralStart: nat) returns (r: Option<seq<byte>>)
    ensures r.Some? <==> count <= MAX16 && centralSize <= MAX32 && centralStart <= MAX32
    ensures r.Some? ==>
              && |r.value| == 22
              && U32(r.value, 0) == EOCD_SIGNATURE && U16(r.value, 8) == U16(r.value, 10) == count
              && U32(r.value, 12) == centralSize && U32(r.value, 16) == centralStart && U16(r.value, 20) == 0
  {
    var buffer := new byte[22](_ => 0);
    var ok := Write32(buffer, EOCD_SIGNATURE, 0);
    ok := Write16(buffer, count, 8);
    if !ok {
      return None;
    }
    ok := Write16(buffer, count, 10);
    ok := Write32(buffer, centralSize, 12);
    if !ok {
      return None;
    }
    ok := Write32(buffer, centralStart, 16);
    if !ok {
      return None;
    }
    r := Some(buffer[..]);
  }

  // ---- records keep their place ---------------------------------------------

  lemma LocalStays(zip: seq<byte>, more: seq<byte>, m: Member)
    requires HasLocal(zip, m)
    ensures HasLocal(zip + more, m)
  {
    hide U16, U32;
    assert [] + zip + more == zip + more;
    Shifted32([], zip, more, m.offset);
    Shifted16([], zip, more, m.offset + 26);
    Shifted16([], zip, more, m.offset + 28);
    var start := m.offset + 30 + |m.name| + U16(zip, m.offset + 28);
    assert (zip + more)[m.offset + 30..m.offset + 30 + |m.name|] == zip[m.offset + 30..m.offset + 30 + |m.name|];
    assert (zip + more)[start..start + |m.data|] == zip[start..start + |m.data|];
  }

  lemma CentralShifts(pre: seq<byte>, zip: seq<byte>, post: seq<byte>, at: nat, m: Member)
    requires HasCentral(zip, at, m)
    ensures HasCentral(pre + zip + post, |pre| + at, m)
  {
    hide U16, U32;
    Shifted32(pre, zip, post, at);
    Shifted16(pre, zip, post, at + 10);
    Shifted32(pre, zip, post, at + 20);
    Shifted16(pre, zip, post, at + 28);
    Shifted16(pre, zip, post, at + 30);
    Shifted16(pre, zip, post, at + 32);
    Shifted32(pre, zip, post, at + 42);
    var all := pre + zip + post;
    assert all[|pre| + at + 46..|pre| + at + 46 + |m.name|] == zip[at + 46..at + 46 + |m.name|];
  }

  lemma {:induction false} CentralsShift(pre: seq<byte>, zip: seq<byte>, post: seq<byte>, at: nat, members: seq<Member>)
    requires CentralsAt(zip, at, members)
    ensures CentralsAt(pre + zip + post, |pre| + at, members)
    decreases |members|
  {
    hide HasCentral;
    if members != [] {
      CentralShifts(pre, zip, post, at, members[0]);
      CentralsShift(pre, zip, post, at + CentralSize(members[0]), members[1..]);
    }
  }

  lemma {:induction false} CentralsAppend(zip: seq<byte>, at: nat, members: seq<Member>, m: Member)
    requires CentralsAt(zip, at, members) && HasCentral(zip, at + CentralsSize(members), m)
    ensures CentralsAt(zip, at, members + [m])
    ensures CentralsSize(members + [m]) == CentralsSize(members) + CentralSize(m)
    decreases |members|
  {
    hide HasCentral, CentralSize;
    if members == [] {
      assert members + [m] == [m] && [m][1..] == [];
    } else {
      assert (members + [m])[1..] == members[1..] + [m];
      CentralsAppend(zip, at + CentralSize(members[0]), members[1..], m);
    }
  }

  lemma LocalWritten(locals: seq<byte>, header: seq<byte>, m: Member)
    requires |header| == 30 && m.offset == |locals|
    requires U32(header, 0) == LOCAL_SIGNATURE && U16(header, 26) == |m.name| && U16(header, 28) == 0
    ensures HasLocal(locals + header + m.name + m.data, m)
  {
    hide U16, U32;
    var rest := m.name + m.data;
    var all := locals + header + rest;
    assert locals + header + m.name + m.data == all;
    Shifted32(locals, header, rest, 0);
    Shifted16(locals, header, rest, 26);
    Shifted16(locals, header, rest, 28);
    var start := m.offset + 30 + |m.name|;
    assert all[m.offset + 30..start] == m.name;
    assert all[start..start + |m.data|] == m.data;
  }

  lemma CentralWritten(centrals: seq<byte>, header: seq<byte>, m: Member)
    requires |header| == 46 && m.extraLength == 0 && m.commentLength == 0
    requires U32(header, 0) == CENTRAL_SIGNATURE && U16(header, 10) == m.compression && U32(header, 20) == |m.data|
    requires U16(header, 28) == |m.name| && U16(header, 30) == 0 && U16(header, 32) == 0 && U32(header, 42) == m.offset
    ensures HasCentral(centrals + header + m.name, |centrals|, m)
  {
    hide U16, U32;
    Shifted32(centrals, header, m.name, 0);
    Shifted16(centrals, header, m.name, 10);
    Shifted32(centrals, header, m.name, 20);
    Shifted16(centrals, header, m.name, 28);
    Shifted16(centrals, header, m.name, 30);
    Shifted16(centrals, header, m.name, 32);
    Shifted32(centrals, header, m.name, 42);
    var all := centrals + header + m.name;
    assert all[|centrals| + 46..|centrals| + 46 + |m.name|] == m.name;
  }

  /** The records of the first `n` entries, as the writer has laid them out. */
  ghost predicate Written(locals: seq<byte>, centrals: seq<byte>, sources: seq<Source>, n: nat, codec: Codec)
    requires n <= |sources|
  {
    var members := MembersOf(sources, n, codec);
    && |locals| == OffsetOf(sources, n, codec) && |centrals| == CentralsSize(members)
    && CentralsAt(centrals, 0, members)
    && forall i :: 0 <= i < n ==> HasLocal(locals, members[i])
  }

  /** The two record headers of a member without extra fields or comment. */
  predicate HeadersOf(local: seq<byte>, central: seq<byte>, m: Member) {
    && |local| == 30 && |central| == 46 && m.extraLength == 0 && m.commentLength == 0
    && U32(local, 0) == LOCAL_SIGNATURE && U16(local, 26) == |m.name| && U16(local, 28) == 0
    && U32(central, 0) == CENTRAL_SIGNATURE && U16(central, 10) == m.compression && U32(central, 20) == |m.data|
    && U16(central, 28) == |m.name| && U16(central, 30) == 0 && U16(central, 32) == 0 && U32(central, 42) == m.offset
  }

  lemma WriteOne(
      locals: seq<byte>, centrals: seq<byte>, local: seq<byte>, central: seq<byte>,
      sources: seq<Source>, n: nat, codec: Codec)
    requires n < |sources| && Written(locals, centrals, sources, n, codec)
    requires HeadersOf(local, central, MemberOf(sources[n], |locals|, codec))
    ensures
      var m := MemberOf(sources[n], |locals|, codec);
      Written(locals + local + m.name + m.data, centrals + central + m.name, sources, n + 1, codec)
  {
    hide HasLocal, HasCentral, U16, U32, CentralsAt;
    var members := MembersOf(sources, n, codec);
    var m := MemberOf(sources[n], |locals|, codec);
    var more := local + m.name + m.data;
    assert locals + local + m.name + m.data == locals + more;
    forall i | 0 <= i < n ensures HasLocal(locals + more, members[i]) {
      LocalStays(locals, more, members[i]);
    }
    LocalWritten(locals, local, m);
    var after := central + m.name;
    assert centrals + central + m.name == centrals + after && [] + centrals + after == centrals + after;
    CentralsShift([], centrals, after, 0, members);
    CentralWritten(centrals, central, m);
    CentralsAppend(centrals + after, 0, members, m);
  }

  lemma EndWritten(front: seq<byte>, eocd: seq<byte>, start: nat, count: nat)
    requires |eocd| == 22 && U32(eocd, 0) == EOCD_SIGNATURE && U16(eocd, 10) == count && U32(eocd, 16) == start
    ensures HasEnd(front + eocd, |front|, start, count)
  {
    hide U16, U32;
    assert front + eocd == front + eocd + [];
    Shifted32(front, eocd, [], 0);
    Shifted16(front, eocd, [], 10);
    Shifted32(front, eocd, [], 16);
  }

  lemma Finished(locals: seq<byte>, centrals: seq<byte>, eocd: seq<byte>, members: seq<Member>)
    requires |eocd| == 22 && U32(eocd, 0) == EOCD_SIGNATURE && U16(eocd, 10) == |members| && U32(eocd, 16) == |locals|
    requires CentralsAt(centrals, 0, members)
    requires forall i :: 0 <= i < |members| ==> HasLocal(locals, members[i])
    ensures
      var zip := locals + centrals + eocd;
      IsArchive(zip, members, |locals| + |centrals|, |locals|)
  {
    hide HasLocal, CentralsAt, HasEnd, U16, U32;
    var zip := locals + centrals + eocd;
    EndWritten(locals + centrals, eocd, |locals|, |members|);
    CentralsShift(locals, centrals, eocd, 0, members);
    forall i | 0 <= i < |members| ensures HasLocal(zip, members[i]) {
      LocalStays(locals, centrals + eocd, members[i]);
      assert locals + (centrals + eocd) == zip;
    }
  }

  /** What the writer returns: an archive of the sources, the end record last. */
  predicate IsBuilt(zip: seq<byte>, sources: seq<Source>, codec: Codec) {
    && |zip| >= 22
    && IsArchive(
         zip, MembersOf(sources, |sources|, codec), |zip| - 22, OffsetOf(sources, |sources|, codec))
  }

  method WriteHeaders(source: Source, offset: nat, codec: Codec) returns (r: Option<(seq<byte>, seq<byte>)>)
    ensures r.Some? <==> EntryFits(source, offset, codec)
    ensures r.Some? ==> HeadersOf(r.value.0, r.value.1, MemberOf(source, offset, codec))
  {
    hide U16, U32;
    var name := codec.encode(source.name);
    var raw := codec.encode(source.data);
    var data := if Stored(source) then raw else codec.deflate(raw);
    var compression := if Stored(source) then 0 else 8;
    var local := LocalHeader(compression, |data|, |raw|, |name|);
    if local.None? {
      return None;
    }
    var central := CentralHeader(compression, |data|, |raw|, |name|, offset);
    if central.None? {
      return None;
    }
    r := Some((local.value, central.value));
  }

  /** `buildZip`; it fails exactly when a field cannot hold its number. */
  method BuildZip(sources: seq<Source>, codec: Codec) returns (r: Option<seq<byte>>)
    ensures r.Some? <==> ArchiveFits(sources, codec)
    ensures r.Some? ==> IsBuilt(r.value, sources, codec)
  {
    hide HasLocal, HasCentral, U16, U32, CentralsAt, IsArchive, HeadersOf, EntryFits, CentralsSize, OffsetOf, MembersOf;
    var locals: seq<byte>, centrals: seq<byte>, offset := [], [], 0;
    NothingWritten(sources, codec);
    for n := 0 to |sources|
      invariant Written(locals, centrals, sources, n, codec)
      invariant offset == |locals|
      invariant EntriesFit(sources, n, codec)
    {
      var source := sources[n];
      var headers := WriteHeaders(source, offset, codec);
      if headers.None? {
        return None;
      }
      var (local, central) := headers.value;
      var name := codec.encode(source.name);
      var data := if Stored(source) then codec.encode(source.data) else codec.deflate(codec.encode(source.data));
      WriteOne(locals, centrals, local, central, sources, n, codec);
      HeaderSizes(local, central, MemberOf(source, offset, codec));
      locals := locals + local + name + data;
      centrals := centrals + central + name;
      offset := offset + |local| + |name| + |data|;
    }
    var centralStart := offset;
    var eocd := EndRecord(|sources|, |centrals|, centralStart);
    if eocd.None? {
      return None;
    }
    Finished(locals, centrals, eocd.value, MembersOf(sources, |sources|, codec));
    r := Some(locals + centrals + eocd.value);
  }

  lemma HeaderSizes(local: seq<byte>, central: seq<byte>, m: Member)
    requires HeadersOf(local, central, m)
    ensures |local| == 30 && |central| == 46
  {
  }

  lemma NothingWritten(sources: seq<Source>, codec: Codec)
    ensures Written([], [], sources, 0, codec) && EntriesFit(sources, 0, codec)
  {
  }

  // ---- the round trip -------------------------------------------------------

  lemma {:induction false} MemberAt(sources: seq<Source>, n: nat, i: nat, codec: Codec)
    requires i < n <= |sources|
    ensures MembersOf(sources, n, codec)[i] == MemberOf(sources[i], OffsetOf(sources, i, codec), codec)
    decreases n
  {
    hide MemberOf;
    if i < n - 1 {
      MemberAt(sources, n - 1, i, codec);
    }
  }

  /**
   Reading what the writer wrote gives every entry back, in order: its name, how it
   was stored, its size and place, and through them its own bytes.
   */
  lemma BuildReadsBack(sources: seq<Source>, zip: seq<byte>, codec: Codec)
    requires Faithful(codec) && IsBuilt(zip, sources, codec)
    ensures Directory(zip, codec).Success? && |Directory(zip, codec).value| == |sources|
    ensures forall i :: 0 <= i < |sources| ==>
              var entry := Directory(zip, codec).value[i];
              && entry.name == sources[i].name
              && entry.compression == (if Stored(sources[i]) then 0 else 8)
              && entry.compressedSize == |DataOf(sources[i], codec)|
              && entry.localHeaderOffset == OffsetOf(sources, i, codec)
              && ReadEntry(zip, entry, codec) == Success(codec.encode(sources[i].data))
  {
    hide CentralsAt, HasLocal, HasEnd, ReadEntry, Directory, OffsetOf;
    var members := MembersOf(sources, |sources|, codec);
    DirectoryOfArchive(zip, members, |zip| - 22, OffsetOf(sources, |sources|, codec), codec);
    forall i | 0 <= i < |sources|
      ensures EntriesOf(members, codec)[i] == EntryOf(MemberOf(sources[i], OffsetOf(sources, i, codec), codec), codec)
      ensures ReadEntry(zip, EntriesOf(members, codec)[i], codec) == Success(codec.encode(sources[i].data))
    {
      MemberAt(sources, |sources|, i, codec);
      EntryOfArchive(zip, members[i], codec);
    }
  }

  /**
   A trailing comment changes nothing, so long as the end signature does not occur
   again in it or across its start.
   */
  lemma CommentIgnored(zip: seq<byte>, comment: seq<byte>, members: seq<Member>, e: nat, start: nat, codec: Codec)
    requires IsArchive(zip, members, e, start) && |zip| + |comment| <= e + 22 + 0xffff
    requires forall i :: |zip| - 22 < i <= |zip| + |comment| - 22 ==> U32(zip + comment, i) != EOCD_SIGNATURE
    ensures IsArchive(zip + comment, members, e, start)
    ensures Directory(zip + comment, codec) == Directory(zip, codec)
    ensures forall i :: 0 <= i < |members| ==>
              ReadEntry(zip + comment, EntryOf(members[i], codec), codec) == ReadEntry(zip, EntryOf(members[i], codec), codec)
  {
    hide CentralsAt, HasLocal, ReadEntry, Directory, U16, U32, EntryOf;
    var all := zip + comment;
    assert all == [] + zip + comment;
    Shifted32([], zip, comment, e);
    Shifted16([], zip, comment, e + 10);
    Shifted32([], zip, comment, e + 16);
    forall i | e < i <= |all| - 22 ensures U32(all, i) != EOCD_SIGNATURE {
      if i <= |zip| - 22 {
        Shifted32([], zip, comment, i);
      }
    }
    CentralsShift([], zip, comment, start, members);
    forall i | 0 <= i < |members|
      ensures HasLocal(all, members[i])
      ensures ReadEntry(all, EntryOf(members[i], codec), codec) == ReadEntry(zip, EntryOf(members[i], codec), codec)
    {
      LocalStays(zip, comment, members[i]);
      EntryOfArchive(zip, members[i], codec);
      EntryOfArchive(all, members[i], codec);
    }
    DirectoryOfArchive(zip, members, e, start, codec);
    DirectoryOfArchive(all, members, e, start, codec);
  }

  // ---- the bytes of the format ------------------------------------------------

  /** Numbers stand lowest byte first, and the signatures read "PK" and two small numbers. */
  lemma SignatureBytes()
    ensures U16([0x34, 0x12], 0) == 0x1234 && U32([0x78, 0x56, 0x34, 0x12], 0) == 0x1234_5678
    ensures U32([0x50, 0x4b, 1, 2], 0) == CENTRAL_SIGNATURE
    ensures U32([0x50, 0x4b, 3, 4], 0) == LOCAL_SIGNATURE
    ensures U32([0x50, 0x4b, 5, 6], 0) == EOCD_SIGNATURE
  {
  }
}
