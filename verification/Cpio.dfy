/**
 * The newc archive systemd-stub appends to the initrd (crates/tdx-measure/src/rtmr.rs), checked
 * against an independent newc reader.
 */
module Cpio {
  import opened ByteLayout
  import opened Wrappers

  const HEADER: nat := 110

  function Ascii(s: string): (bs: Bytes)
    requires forall i :: 0 <= i < |s| ==> s[i] < 128 as char
    ensures |bs| == |s|
    ensures forall i :: 0 <= i < |s| ==> bs[i] == s[i] as int
  {
    seq(|s|, i requires 0 <= i < |s| => s[i] as int)
  }

  // ---------------------------------------------------------------------------------------------
  // Eight-digit hexadecimal fields
  // ---------------------------------------------------------------------------------------------

  function Digit(d: nat): byte
    requires d < 16
  {
    if d < 10 then 48 + d else 87 + d
  }

  function DigitValue(c: byte): Option<nat> {
    if 48 <= c <= 57 then Some(c - 48)
    else if 97 <= c <= 102 then Some(c - 87)
    else if 65 <= c <= 70 then Some(c - 55)
    else None
  }

  /** The `{:08x}` form: at least eight digits, more when the number needs them. */
  function Hex(n: nat): (bs: Bytes)
    ensures |bs| >= 8
  {
    if n < U32_LIMIT then Digits(n, 8) else Hex(n / 16) + [Digit(n % 16)]
  }

  function Digits(n: nat, k: nat): (bs: Bytes)
    ensures |bs| == k
  {
    if k == 0 then [] else Digits(n / 16, k - 1) + [Digit(n % 16)]
  }

  function FromHex(bs: Bytes): Option<nat> {
    if bs == [] then Some(0)
    else
      match (FromHex(bs[..|bs| - 1]), DigitValue(bs[|bs| - 1]))
      case (Some(high), Some(low)) => Some(16 * high + low)
      case _ => None
  }

  function Pow16(k: nat): nat {
    if k == 0 then 1 else 16 * Pow16(k - 1)
  }

  lemma {:induction false} DigitsRoundTrip(n: nat, k: nat)
    requires n < Pow16(k)
    ensures FromHex(Digits(n, k)) == Some(n)
  {
    if k > 0 {
      DigitsRoundTrip(n / 16, k - 1);
      var bs := Digits(n, k);
      assert bs[..|bs| - 1] == Digits(n / 16, k - 1);
      assert DigitValue(Digit(n % 16)) == Some(n % 16);
    }
  }

  lemma {:induction false} HexRoundTrip(n: nat)
    requires n < U32_LIMIT
    ensures |Hex(n)| == 8 && FromHex(Hex(n)) == Some(n)
  {
    assert Pow16(4) == 0x1_0000;
    assert Pow16(8) == 16 * 16 * 16 * 16 * Pow16(4);
    DigitsRoundTrip(n, 8);
  }

  // ---------------------------------------------------------------------------------------------
  // The writer
  // ---------------------------------------------------------------------------------------------

  datatype Entry = Entry(name: Bytes, data: Bytes, ino: nat, mode: nat)

  const MAGIC: Bytes := [48, 55, 48, 55, 48, 49]
  const TRAILER_NAME: Bytes := [84, 82, 65, 73, 76, 69, 82, 33, 33, 33]

  function Concat(fields: seq<Bytes>): Bytes {
    if fields == [] then [] else fields[0] + Concat(fields[1..])
  }

  function HeaderFields(ino: nat, mode: nat, filesize: nat, namesize: Bytes): seq<Bytes> {
    [Hex(ino), Hex(mode), Hex(0), Hex(0), Hex(1), Hex(0), Hex(filesize),
     Hex(0), Hex(0), Hex(0), Hex(0), namesize, Hex(0)]
  }

  function Header(ino: nat, mode: nat, filesize: nat, namesize: Bytes): Bytes {
    MAGIC + Concat(HeaderFields(ino, mode, filesize, namesize))
  }

  function NameBlock(header: Bytes, name: Bytes): Bytes {
    header + name + [0] + Zeros(Pad4(|header| + |name| + 1))
  }

  function EntryBytes(e: Entry): Bytes {
    NameBlock(Header(e.ino, e.mode, |e.data|, Hex(|e.name| + 1)), e.name)
    + e.data + Zeros(Pad4(|e.data|))
  }

  function TrailerBytes(): Bytes {
    NameBlock(Header(0, 0, 0, [48, 48, 48, 48, 48, 48, 48, 66]), TRAILER_NAME)
  }

  /** `append_cpio_entry`: header, name, NUL and padding, then data and padding if there is any. */
  method AppendCpioEntry(buf: Bytes, e: Entry) returns (out: Bytes)
    ensures out == buf + EntryBytes(e)
  {
    hide Header, Hex;
    var hdr := Header(e.ino, e.mode, |e.data|, Hex(|e.name| + 1));
    out := buf + hdr + e.name + [0];
    var hdrLen := |out| - |buf|;
    out := out + Zeros((4 - hdrLen % 4) % 4);
    assert out == buf + NameBlock(hdr, e.name);
    if e.data != [] {
      out := out + e.data;
      out := out + Zeros((4 - |e.data| % 4) % 4);
    }
    assert out == buf + NameBlock(hdr, e.name) + e.data + Zeros(Pad4(|e.data|));
  }

  const EXTRA_DIR: Bytes := Ascii(".extra")
  const OS_RELEASE: Bytes := Ascii(".extra/os-release")

  function OsrelEntries(osrel: Bytes): seq<Entry> {
    [Entry(EXTRA_DIR, [], 1, 0x416D), Entry(OS_RELEASE, osrel, 2, 0x8124)]
  }

  function OsrelArchive(osrel: Bytes): Bytes {
    EntryBytes(OsrelEntries(osrel)[0]) + EntryBytes(OsrelEntries(osrel)[1]) + TrailerBytes()
  }

  method BuildOsrelCpio(osrel: Bytes) returns (cpio: Bytes)
    ensures cpio == OsrelArchive(osrel)
  {
    hide EntryBytes, TrailerBytes;
    cpio := [];
    cpio := AppendCpioEntry(cpio, Entry(EXTRA_DIR, [], 1, 0x416D));
    cpio := AppendCpioEntry(cpio, Entry(OS_RELEASE, osrel, 2, 0x8124));
    cpio := cpio + TrailerBytes();
  }

  function AssembledInitrd(initrd: Bytes, osrel: Bytes): Bytes {
    var cpio := OsrelArchive(osrel);
    initrd + Zeros(Pad4(|initrd|)) + cpio + Zeros(Pad4(|cpio|))
  }

  method BuildAssembledInitrd(initrd: Bytes, osrel: Bytes) returns (combined: Bytes)
    ensures combined == AssembledInitrd(initrd, osrel)
  {
    hide OsrelArchive;
    var cpio := BuildOsrelCpio(osrel);
    combined := initrd;
    combined := combined + Zeros((4 - |initrd| % 4) % 4);
    combined := combined + cpio;
    combined := combined + Zeros((4 - |cpio| % 4) % 4);
  }

  // ---------------------------------------------------------------------------------------------
  // A newc reader
  // ---------------------------------------------------------------------------------------------

  function Field(bs: Bytes, i: nat): Option<nat>
    requires i < 13 && |bs| >= HEADER
  {
    FromHex(bs[6 + 8 * i..14 + 8 * i])
  }

  datatype Read = Read(entry: Entry, rest: Bytes)

  function ReadEntry(bs: Bytes): (r: Option<Read>)
    ensures r.Some? ==> |r.value.rest| < |bs|
  {
    if |bs| < HEADER || bs[..6] != MAGIC then None
    else
      match (Field(bs, 0), Field(bs, 1), Field(bs, 6), Field(bs, 11))
      case (Some(ino), Some(mode), Some(filesize), Some(namesize)) =>
        var start := HEADER + namesize + Pad4(HEADER + namesize);
        var end := start + filesize;
        if namesize == 0 || |bs| < end + Pad4(filesize) || bs[HEADER + namesize - 1] != 0 then None
        else
          Some(Read(Entry(bs[HEADER..HEADER + namesize - 1], bs[start..end], ino, mode),
                    bs[end + Pad4(filesize)..]))
      case _ => None
  }

  /** Entries up to the trailer; bytes after the trailer are ignored. */
  function ReadArchive(bs: Bytes): Option<seq<Entry>>
    decreases |bs|
  {
    match ReadEntry(bs)
    case None => None
    case Some(Read(entry, rest)) =>
      if entry.name == TRAILER_NAME then Some([])
      else
        match ReadArchive(rest)
        case None => None
        case Some(es) => Some([entry] + es)
  }

  // ---------------------------------------------------------------------------------------------
  // The reader undoes the writer
  // ---------------------------------------------------------------------------------------------

  lemma {:induction false} FieldOfConcat(fields: seq<Bytes>, i: nat)
    requires forall j :: 0 <= j < |fields| ==> |fields[j]| == 8
    requires i < |fields|
    ensures |Concat(fields)| == 8 * |fields|
    ensures Concat(fields)[8 * i..8 * i + 8] == fields[i]
  {
    var rest := fields[1..];
    if i > 0 {
      FieldOfConcat(rest, i - 1);
      assert Concat(fields)[8 * i..8 * i + 8] == Concat(rest)[8 * (i - 1)..8 * (i - 1) + 8];
    } else if rest != [] {
      FieldOfConcat(rest, 0);
    }
  }

  lemma HeaderLength(ino: nat, mode: nat, filesize: nat, namesize: Bytes)
    requires ino < U32_LIMIT && mode < U32_LIMIT && filesize < U32_LIMIT && |namesize| == 8
    ensures |Header(ino, mode, filesize, namesize)| == HEADER
    ensures forall j :: 0 <= j < 13 ==> |HeaderFields(ino, mode, filesize, namesize)[j]| == 8
  {
    hide Hex, FromHex, Concat;
    HexRoundTrip(ino);
    HexRoundTrip(mode);
    HexRoundTrip(filesize);
    HexRoundTrip(0);
    HexRoundTrip(1);
    FieldOfConcat(HeaderFields(ino, mode, filesize, namesize), 0);
  }

  lemma HeaderReads(ino: nat, mode: nat, filesize: nat, namesize: Bytes, bs: Bytes)
    requires ino < U32_LIMIT && mode < U32_LIMIT && filesize < U32_LIMIT && |namesize| == 8
    requires |bs| >= HEADER && bs[..HEADER] == Header(ino, mode, filesize, namesize)
    ensures bs[..6] == MAGIC
    ensures Field(bs, 0) == Some(ino) && Field(bs, 1) == Some(mode)
    ensures Field(bs, 6) == Some(filesize) && Field(bs, 11) == FromHex(namesize)
  {
    hide Hex, FromHex, Concat;
    HexRoundTrip(ino);
    HexRoundTrip(mode);
    HexRoundTrip(filesize);
    HeaderLength(ino, mode, filesize, namesize);
    var fields := HeaderFields(ino, mode, filesize, namesize);
    assert bs[..HEADER][6..] == Concat(fields);
    FieldReads(fields, bs, 0);
    FieldReads(fields, bs, 1);
    FieldReads(fields, bs, 6);
    FieldReads(fields, bs, 11);
    assert bs[..6] == bs[..HEADER][..6];
  }

  lemma FieldReads(fields: seq<Bytes>, bs: Bytes, i: nat)
    requires |fields| == 13 && forall j :: 0 <= j < 13 ==> |fields[j]| == 8
    requires i < 13 && |bs| >= HEADER && bs[..HEADER][6..] == Concat(fields)
    ensures Field(bs, i) == FromHex(fields[i])
  {
    hide FromHex, Concat;
    FieldOfConcat(fields, i);
    assert bs[..HEADER][6..] == bs[6..HEADER];
    SliceInside(bs, 6, HEADER, 8 * i, 8 * i + 8);
  }

  /** Reading one name block followed by data returns exactly the name and the data. */
  lemma {:induction false} NameBlockReads(e: Entry, namesize: Bytes, tail: Bytes)
    requires e.ino < U32_LIMIT && e.mode < U32_LIMIT && |e.data| < U32_LIMIT && |namesize| == 8
    requires FromHex(namesize) == Some(|e.name| + 1)
    ensures var header := Header(e.ino, e.mode, |e.data|, namesize);
            ReadEntry(NameBlock(header, e.name) + e.data + Zeros(Pad4(|e.data|)) + tail) == Some(Read(e, tail))
  {
    hide Header, FromHex, Field;
    var header := Header(e.ino, e.mode, |e.data|, namesize);
    HeaderLength(e.ino, e.mode, |e.data|, namesize);
    SlicesOf(header, e.name, Zeros(Pad4(|header| + |e.name| + 1)), e.data, Zeros(Pad4(|e.data|)), tail);
    HeaderReads(e.ino, e.mode, |e.data|, namesize,
                NameBlock(header, e.name) + e.data + Zeros(Pad4(|e.data|)) + tail);
  }

  lemma SlicesOf(header: Bytes, name: Bytes, pad: Bytes, data: Bytes, pad2: Bytes, tail: Bytes)
    ensures var bs := header + name + [0] + pad + data + pad2 + tail;
            var start := |header| + |name| + 1 + |pad|;
            var end := start + |data|;
            && |bs| == end + |pad2| + |tail| && bs[..|header|] == header
            && bs[|header|..|header| + |name|] == name && bs[|header| + |name|] == 0
            && bs[start..end] == data && bs[end + |pad2|..] == tail
  {
  }

  predicate Storable(e: Entry) {
    && e.ino < U32_LIMIT && e.mode < U32_LIMIT
    && |e.data| < U32_LIMIT && |e.name| + 1 < U32_LIMIT
    && e.name != TRAILER_NAME
  }

  lemma BlockIsAligned(header: Bytes, name: Bytes, data: Bytes)
    ensures |NameBlock(header, name) + data + Zeros(Pad4(|data|))| % 4 == 0
  {
  }

  lemma EntryIsAligned(e: Entry)
    ensures |EntryBytes(e)| % 4 == 0
  {
    hide Header, FromHex, Hex, NameBlock, Pad4;
    BlockIsAligned(Header(e.ino, e.mode, |e.data|, Hex(|e.name| + 1)), e.name, e.data);
  }

  lemma {:induction false} EntryReads(e: Entry, tail: Bytes)
    requires Storable(e)
    ensures ReadEntry(EntryBytes(e) + tail) == Some(Read(e, tail))
    ensures |EntryBytes(e)| % 4 == 0
  {
    hide Header, FromHex, Hex, ReadEntry, NameBlock, Pad4;
    HexRoundTrip(|e.name| + 1);
    EntryIsAligned(e);
    NameBlockReads(e, Hex(|e.name| + 1), tail);
  }

  lemma UpperCaseB()
    ensures FromHex([48, 48, 48, 48, 48, 48, 48, 66]) == Some(11)
  {
    assert [48, 48, 48, 48, 48, 48, 48, 66][..7] == [48, 48, 48, 48, 48, 48, 48];
    assert [48, 48, 48, 48, 48, 48, 48] == Digits(0, 7);
    DigitsRoundTrip(0, 7);
  }

  lemma {:induction false} TrailerReads(tail: Bytes)
    ensures ReadArchive(TrailerBytes() + tail) == Some([])
    ensures |TrailerBytes()| == 124 && TrailerBytes()[120..] == [0, 0, 0, 0]
  {
    hide Header, FromHex, ReadEntry;
    var namesize: Bytes := [48, 48, 48, 48, 48, 48, 48, 66];
    UpperCaseB();
    HeaderLength(0, 0, 0, namesize);
    NameBlockReads(Entry(TRAILER_NAME, [], 0, 0), namesize, tail);
    assert TrailerBytes() + [] + Zeros(0) == TrailerBytes();
  }

  function Entries(es: seq<Entry>): Bytes {
    if es == [] then [] else EntryBytes(es[0]) + Entries(es[1..])
  }

  /** The reader recovers every storable entry list from what the writer emits, whatever follows. */
  lemma {:induction false} ArchiveReads(es: seq<Entry>, tail: Bytes)
    requires forall i :: 0 <= i < |es| ==> Storable(es[i])
    ensures ReadArchive(Entries(es) + TrailerBytes() + tail) == Some(es)
    ensures |Entries(es)| % 4 == 0
  {
    hide EntryBytes, TrailerBytes, ReadEntry;
    if es == [] {
      TrailerReads(tail);
      assert Entries(es) + TrailerBytes() + tail == TrailerBytes() + tail;
    } else {
      var rest := Entries(es[1..]) + TrailerBytes() + tail;
      Assoc(EntryBytes(es[0]), Entries(es[1..]), TrailerBytes());
      Assoc(EntryBytes(es[0]), Entries(es[1..]) + TrailerBytes(), tail);
      EntryReads(es[0], rest);
      ArchiveReads(es[1..], tail);
      assert [es[0]] + es[1..] == es;
    }
  }

  /**
   * For every os-release below 2^32 bytes, a newc reader placed at the aligned end of the initrd
   * finds `.extra`, then `.extra/os-release` with exactly the os-release bytes, then the trailer.
   */
  lemma {:induction false} AssembledInitrdReads(initrd: Bytes, osrel: Bytes)
    requires |osrel| < U32_LIMIT
    ensures var combined := AssembledInitrd(initrd, osrel);
            var start := |initrd| + Pad4(|initrd|);
            && start % 4 == 0 && start <= |combined| && combined[..|initrd|] == initrd
            && ReadArchive(combined[start..]) == Some(OsrelEntries(osrel))
  {
    hide EntryBytes, TrailerBytes, ReadArchive;
    var combined := AssembledInitrd(initrd, osrel);
    var start := |initrd| + Pad4(|initrd|);
    var es := OsrelEntries(osrel);
    assert EXTRA_DIR[0] != TRAILER_NAME[0] && OS_RELEASE[0] != TRAILER_NAME[0];
    ArchiveReads(es, Zeros(Pad4(|OsrelArchive(osrel)|)));
    assert es[1..] == [es[1]] && [es[1]][1..] == [];
    assert Entries(es[1..]) == EntryBytes(es[1]) + [] == EntryBytes(es[1]);
    assert Entries(es) == EntryBytes(es[0]) + EntryBytes(es[1]);
    assert combined[start..] == OsrelArchive(osrel) + Zeros(Pad4(|OsrelArchive(osrel)|));
  }

  /** The measured initrd ends in zero bytes, so it is never a NUL-terminated section name. */
  lemma {:induction false} AssembledInitrdEndsInZeros(initrd: Bytes, osrel: Bytes)
    ensures var bs := AssembledInitrd(initrd, osrel);
            |bs| >= 2 && bs[|bs| - 1] == 0 && bs[|bs| - 2] == 0
  {
    hide EntryBytes, TrailerBytes, ReadArchive;
    TrailerReads([]);
    var bs := AssembledInitrd(initrd, osrel);
    var cpio := OsrelArchive(osrel);
    assert cpio[|cpio| - 4..] == TrailerBytes()[120..];
    assert bs[|bs| - Pad4(|cpio|) - 4..] == cpio[|cpio| - 4..] + Zeros(Pad4(|cpio|));
  }
}
