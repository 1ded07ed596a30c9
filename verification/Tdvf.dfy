/**
 * TDVF metadata (crates/tdx-measure/src/tdvf.rs): the descriptor and section table that
 * `Tdvf::parse` accepts.
 */
module Tdvf {
  import opened ByteLayout
  import opened Wrappers
  import Footer

  datatype Section = Section(
    dataOffset: nat, rawSize: nat, address: nat, size: nat, secType: nat, attributes: nat)

  datatype Error =
    | NoMetadata | ShortEntry | OffsetOutside | DescriptorOutside | NotTdvf | Version | TableOutside | BadSection

  /** ATTRIBUTE_MR_EXTEND, bit 0. */
  predicate MrExtend(s: Section) { s.attributes % 2 == 1 }

  /** ATTRIBUTE_PAGE_AUG, bit 1. */
  predicate PageAug(s: Section) { s.attributes / 2 % 2 == 1 }

  /** The checks made on each section of a firmware of `length` bytes. */
  predicate Accepted(length: nat, s: Section) {
    && s.address % PAGE == 0
    && s.size >= s.rawSize
    && s.size % PAGE == 0
    && s.dataOffset + s.rawSize <= length
    && (MrExtend(s) ==> s.dataOffset + s.size <= length)
  }

  predicate AllAccepted(length: nat, sections: seq<Section>) {
    forall i :: 0 <= i < |sections| ==> Accepted(length, sections[i])
  }

  const TDVF: Bytes := [0x54, 0x44, 0x56, 0x46]

  function ReadSection(bs: Bytes): Section
    requires |bs| == 32
  {
    Section(FromLe(bs[0..4]), FromLe(bs[4..8]), FromLe(bs[8..16]), FromLe(bs[16..24]), FromLe(bs[24..28]),
            FromLe(bs[28..32]))
  }

  /** Sections `i..n` of the table at the start of `table`, up to the first one refused. */
  function ReadSections(length: nat, table: Bytes, i: nat, n: nat): Option<seq<Section>>
    requires 32 * n <= |table|
    decreases n - i
  {
    if i >= n then Some([])
    else
      var s := ReadSection(table[32 * i..32 * i + 32]);
      if !Accepted(length, s) then None
      else
        match ReadSections(length, table, i + 1, n)
        case None => None
        case Some(rest) => Some([s] + rest)
  }

  function Descriptor(fw: Bytes, entry: Bytes): Result<Bytes, Error> {
    if |entry| < 4 then Err(ShortEntry)
    else
      var back := FromLe(entry[|entry| - 4..]);
      if back > |fw| then Err(OffsetOutside)
      else if back < 16 then Err(DescriptorOutside)
      else
        var meta := fw[|fw| - back..];
        if meta[..4] != TDVF then Err(NotTdvf)
        else if FromLe(meta[8..12]) != 1 then Err(Version)
        else if 16 + 32 * FromLe(meta[12..16]) > |meta| then Err(TableOutside)
        else Ok(meta)
  }

  function Parsed(fw: Bytes): Result<seq<Section>, Error> {
    match Footer.TdxTables(fw)
    case None => Err(NoMetadata)
    case Some(tables) =>
      match Footer.TdxWalk(tables, |tables|)
      case Found(entry) =>
        (match Descriptor(fw, entry)
         case Err(e) => Err(e)
         case Ok(meta) =>
           match ReadSections(|fw|, meta[16..], 0, FromLe(meta[12..16]))
           case None => Err(BadSection)
           case Some(sections) => Ok(sections))
      case _ => Err(NoMetadata)
  }

  /** The table walk ends: no zero-length entry is reached (see Footer.ParseLoopsExactlyWhenStuck). */
  predicate Terminates(fw: Bytes) {
    Footer.TdxTables(fw).Some? ==> !Footer.TdxWalk(Footer.TdxTables(fw).value, |Footer.TdxTables(fw).value|).Stuck?
  }

  method ParseTdvf(fw: Bytes) returns (r: Result<seq<Section>, Error>)
    requires Terminates(fw)
    ensures r == Parsed(fw)
  {
    hide FromLe, Footer.TdxWalk, Accepted, ReadSection;
    var tables := Footer.TdxTables(fw);
    if tables.None? {
      return Err(NoMetadata);
    }
    var found := Footer.FindTdxEntry(tables.value);
    if !found.Found? {
      return Err(NoMetadata);
    }
    var meta := Descriptor(fw, found.data);
    if meta.Err? {
      return Err(meta.error);
    }
    var table := meta.value[16..];
    var n := FromLe(meta.value[12..16]);
    var sections: seq<Section> := [];
    ghost var all := ReadSections(|fw|, table, 0, n);
    assert all.Some? ==> [] + all.value == all.value;
    for i := 0 to n
      invariant ReadSections(|fw|, table, i, n).None? ==> all.None?
      invariant ReadSections(|fw|, table, i, n).Some? ==>
                  all == Some(sections + ReadSections(|fw|, table, i, n).value)
    {
      var s := ReadSection(table[32 * i..32 * i + 32]);
      if !Accepted(|fw|, s) {
        return Err(BadSection);
      }
      ghost var rest := ReadSections(|fw|, table, i + 1, n);
      if rest.Some? {
        Assoc(sections, [s], rest.value);
      }
      sections := sections + [s];
    }
    assert sections + [] == sections;
    return Ok(sections);
  }

  // ---------------------------------------------------------------------------------------------
  // The accepted images, exactly
  // ---------------------------------------------------------------------------------------------

  predicate Encodable(s: Section) {
    && s.dataOffset < U32_LIMIT && s.rawSize < U32_LIMIT && s.address < U64_LIMIT && s.size < U64_LIMIT
    && s.secType < U32_LIMIT && s.attributes < U32_LIMIT
  }

  function SectionBytes(s: Section): (bs: Bytes)
    ensures |bs| == 32
  {
    ToLe(s.dataOffset, 4) + ToLe(s.rawSize, 4) + ToLe(s.address, 8) + ToLe(s.size, 8)
    + ToLe(s.secType, 4) + ToLe(s.attributes, 4)
  }

  function SectionTable(sections: seq<Section>): (bs: Bytes)
    ensures |bs| == 32 * |sections|
  {
    if sections == [] then [] else SectionBytes(sections[0]) + SectionTable(sections[1..])
  }

  /** A TDVF descriptor, version 1; bytes 4..8 hold a length nobody checks. */
  function DescriptorBytes(length: Bytes, sections: seq<Section>): Bytes {
    TDVF + length + ToLe(1, 4) + ToLe(|sections|, 4) + SectionTable(sections)
  }

  lemma SectionRoundTrip(s: Section)
    requires Encodable(s)
    ensures ReadSection(SectionBytes(s)) == s
  {
    hide ToLe, FromLe, Pow256;
    PowValues();
    LeRoundTrip(s.dataOffset, 4);
    LeRoundTrip(s.rawSize, 4);
    LeRoundTrip(s.address, 8);
    LeRoundTrip(s.size, 8);
    LeRoundTrip(s.secType, 4);
    LeRoundTrip(s.attributes, 4);
    var bs := SectionBytes(s);
    assert bs[0..4] == ToLe(s.dataOffset, 4) && bs[4..8] == ToLe(s.rawSize, 4);
    assert bs[8..16] == ToLe(s.address, 8) && bs[16..24] == ToLe(s.size, 8);
    assert bs[24..28] == ToLe(s.secType, 4) && bs[28..32] == ToLe(s.attributes, 4);
  }

  lemma SectionBytesRoundTrip(bs: Bytes)
    requires |bs| == 32
    ensures Encodable(ReadSection(bs)) && SectionBytes(ReadSection(bs)) == bs
  {
    hide ToLe, FromLe, Pow256;
    PowValues();
    FieldRoundTrip(bs[0..4]);
    FieldRoundTrip(bs[4..8]);
    FieldRoundTrip(bs[8..16]);
    FieldRoundTrip(bs[16..24]);
    FieldRoundTrip(bs[24..28]);
    FieldRoundTrip(bs[28..32]);
    assert bs == bs[0..4] + bs[4..8] + bs[8..16] + bs[16..24] + bs[24..28] + bs[28..32];
  }

  lemma {:induction false} FieldRoundTrip(bs: Bytes)
    ensures FromLe(bs) < Pow256(|bs|) && ToLe(FromLe(bs), |bs|) == bs
  {
    FromLeBound(bs);
    LeBytesRoundTrip(bs);
  }

  ghost predicate AllEncodable(sections: seq<Section>) {
    forall i :: 0 <= i < |sections| ==> Encodable(sections[i])
  }

  lemma {:induction false} TableIsRead(length: nat, table: Bytes, i: nat, n: nat, sections: seq<Section>)
    requires i <= n && n - i == |sections| && 32 * n <= |table|
    ensures ReadSections(length, table, i, n) == Some(sections) <==>
            && AllEncodable(sections) && AllAccepted(length, sections)
            && table[32 * i..32 * n] == SectionTable(sections)
    decreases n - i
  {
    hide Accepted, ReadSection, SectionBytes, Encodable;
    if i == n {
      assert table[32 * i..32 * n] == [];
    } else {
      var bs := table[32 * i..32 * i + 32];
      var s := ReadSection(bs);
      var rest := table[32 * (i + 1)..32 * n];
      assert table[32 * i..32 * n] == bs + rest;
      SectionBytesRoundTrip(bs);
      TableIsRead(length, table, i + 1, n, sections[1..]);
      assert sections == [sections[0]] + sections[1..];
      assert (bs + rest)[..32] == bs;
      assert SectionTable(sections)[..32] == SectionBytes(sections[0]);
      if sections[0] == s {
        assert SectionTable(sections) == bs + SectionTable(sections[1..]);
        FrontCancels(bs, rest, SectionTable(sections[1..]));
        HeadAndTail(length, sections);
      } else if Encodable(sections[0]) {
        SectionRoundTrip(sections[0]);
      }
    }
  }

  lemma HeadAndTail(length: nat, sections: seq<Section>)
    requires sections != []
    ensures AllEncodable(sections) <==> Encodable(sections[0]) && AllEncodable(sections[1..])
    ensures AllAccepted(length, sections) <==> Accepted(length, sections[0]) && AllAccepted(length, sections[1..])
  {
    assert sections == [sections[0]] + sections[1..];
  }

  lemma FrontCancels(front: Bytes, x: Bytes, y: Bytes)
    ensures front + x == front + y <==> x == y
  {
    assert (front + x)[|front|..] == x && (front + y)[|front|..] == y;
  }

  lemma {:induction false} ReadCount(length: nat, table: Bytes, i: nat, n: nat)
    requires i <= n && 32 * n <= |table|
    ensures ReadSections(length, table, i, n).Some? ==> |ReadSections(length, table, i, n).value| == n - i
    decreases n - i
  {
    hide Accepted, ReadSection;
    if i < n {
      ReadCount(length, table, i + 1, n);
    }
  }

  lemma PartsOf(length: Bytes, version: Bytes, count: Bytes, table: Bytes, meta: Bytes)
    requires |length| == |version| == |count| == 4
    ensures TDVF + length + version + count + table <= meta <==>
            && |meta| >= 16 + |table| && meta[..4] == TDVF && meta[4..8] == length && meta[8..12] == version
            && meta[12..16] == count && meta[16..][..|table|] == table
  {
    var all := TDVF + length + version + count + table;
    assert all[..4] == TDVF && all[4..8] == length && all[8..12] == version && all[12..16] == count;
    assert all[16..] == table;
    if all <= meta {
      assert meta[..|all|] == all;
      assert meta[4..8] == all[4..8] && meta[8..12] == all[8..12] && meta[12..16] == all[12..16];
      assert meta[16..][..|table|] == all[16..];
    }
    if |meta| >= 16 + |table| && meta[..4] == TDVF && meta[4..8] == length && meta[8..12] == version
       && meta[12..16] == count && meta[16..][..|table|] == table {
      assert meta == meta[..4] + meta[4..8] + meta[8..12] + meta[12..16] + meta[16..];
      assert meta[16..] == table + meta[16..][|table|..];
      assert meta == all + meta[16..][|table|..];
    }
  }

  /** Where the descriptor of a firmware starts, when a TDX entry points inside the image. */
  function Located(fw: Bytes): (r: Option<Bytes>)
    ensures r.Some? ==> |r.value| <= |fw| && |r.value| >= 16
  {
    match Footer.TdxTables(fw)
    case None => None
    case Some(tables) =>
      match Footer.TdxWalk(tables, |tables|)
      case Found(entry) =>
        if |entry| < 4 then None
        else
          var back := FromLe(entry[|entry| - 4..]);
          if 16 <= back <= |fw| then Some(fw[|fw| - back..]) else None
      case _ => None
  }

  /**
   * Parse returns a section list if and only if the located metadata starts with exactly that
   * list's version-1 descriptor and every section passes the checks.
   */
  lemma ParsesExactlyDescriptors(fw: Bytes, sections: seq<Section>)
    ensures Parsed(fw) == Ok(sections) <==>
            && Located(fw).Some? && |sections| < U32_LIMIT
            && AllEncodable(sections) && AllAccepted(|fw|, sections)
            && DescriptorBytes(Located(fw).value[4..8], sections) <= Located(fw).value
  {
    hide FromLe, ToLe, Footer.TdxWalk, Footer.TdxTables, Accepted, Encodable, ReadSections, SectionTable, Pow256;
    if Located(fw).Some? {
      var meta := Located(fw).value;
      MetaIsRead(fw, meta, sections);
    }
  }

  function SectionsOf(length: nat, meta: Bytes): Option<seq<Section>>
    requires |meta| >= 16
  {
    if meta[..4] != TDVF || FromLe(meta[8..12]) != 1 || 16 + 32 * FromLe(meta[12..16]) > |meta| then None
    else ReadSections(length, meta[16..], 0, FromLe(meta[12..16]))
  }

  lemma MetaIsRead(fw: Bytes, meta: Bytes, sections: seq<Section>)
    requires |meta| >= 16
    ensures SectionsOf(|fw|, meta) == Some(sections) <==>
            && |sections| < U32_LIMIT && AllEncodable(sections) && AllAccepted(|fw|, sections)
            && DescriptorBytes(meta[4..8], sections) <= meta
  {
    hide FromLe, ToLe, Accepted, Encodable, ReadSections, SectionTable, Pow256;
    var n := FromLe(meta[12..16]);
    var table := SectionTable(sections);
    PowValues();
    FieldRoundTrip(meta[8..12]);
    FieldRoundTrip(meta[12..16]);
    LeRoundTrip(1, 4);
    PartsOf(meta[4..8], ToLe(1, 4), ToLe(|sections|, 4), table, meta);
    if |sections| < U32_LIMIT {
      LeRoundTrip(|sections|, 4);
    }
    if 16 + 32 * n <= |meta| {
      ReadCount(|fw|, meta[16..], 0, n);
      if |sections| == n {
        TableIsRead(|fw|, meta[16..], 0, n, sections);
        assert meta[16..][32 * 0..32 * n] == meta[16..][..|table|];
      }
    }
  }
}
