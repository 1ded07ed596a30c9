/**
 * The Authenticode byte stream of a PE image (crates/tdx-measure/src/pe.rs) and why signing an
 * image leaves its hash alone.
 */
module Authenticode {
  import opened ByteLayout
  import opened Hashing
  import opened Sorting
  import opened Wrappers

  datatype Error =
    | OutOfBounds | BadSignature | CertDirOutside | HeadersOutside | HeadersTooShort
    | SectionOutside | SlicePanic

  /** `read_le`: the `size`-byte integer at `offset`, if it lies inside the data. */
  function ReadLe(data: Bytes, offset: nat, size: nat): Option<nat> {
    if offset + size > |data| then None else Some(FromLe(data[offset..offset + size]))
  }

  datatype Layout = Layout(checksum: nat, certDir: nat, sizeOfHeaders: nat, table: nat, sections: nat)

  /** Offsets of the fields the hash depends on, in the order the header is validated. */
  function ReadLayout(data: Bytes): (r: Result<Layout, Error>)
    ensures r.Ok? ==> 88 <= r.value.checksum && r.value.checksum + 4 <= r.value.certDir
    ensures r.Ok? ==> r.value.certDir + 8 <= r.value.sizeOfHeaders <= |data|
  {
    match ReadLe(data, 0x3C, 4)
    case None => Err(OutOfBounds)
    case Some(pe) =>
      match ReadLe(data, pe, 4)
      case None => Err(OutOfBounds)
      case Some(signature) =>
        if signature != 0x4550 then Err(BadSignature)
        else
          var opt := pe + 24;
          match (ReadLe(data, pe + 20, 2), ReadLe(data, opt, 2), ReadLe(data, opt + 60, 4))
          case (Some(optSize), Some(magic), Some(sizeOfHeaders)) =>
            var certDir := opt + (if magic == 0x20b then 112 else 96) + 32;
            if certDir + 8 > |data| then Err(CertDirOutside)
            else if sizeOfHeaders > |data| then Err(HeadersOutside)
            else if sizeOfHeaders < certDir + 8 then Err(HeadersTooShort)
            else
              (match ReadLe(data, pe + 6, 2)
               case None => Err(OutOfBounds)
               case Some(sections) => Ok(Layout(opt + 64, certDir, sizeOfHeaders, opt + optSize, sections)))
          case _ => Err(OutOfBounds)
  }

  datatype Raw = Raw(offset: nat, size: nat)

  /** Section table entries `i..n` that have raw data. */
  function ListSections(data: Bytes, table: nat, i: nat, n: nat): (r: Option<seq<Raw>>)
    decreases n - i
  {
    if i >= n then Some([])
    else
      match (ReadLe(data, table + 40 * i + 20, 4), ReadLe(data, table + 40 * i + 16, 4))
      case (Some(offset), Some(size)) =>
        (match ListSections(data, table, i + 1, n)
         case None => None
         case Some(rest) => Some((if size > 0 then [Raw(offset, size)] else []) + rest))
      case _ => None
  }

  function RawOffset(r: Raw): int { r.offset }

  function SectionData(data: Bytes, sections: seq<Raw>): Option<Bytes> {
    if sections == [] then Some([])
    else
      var end := sections[0].offset + sections[0].size;
      if end > |data| then None
      else
        match SectionData(data, sections[1..])
        case None => None
        case Some(rest) => Some(data[sections[0].offset..end] + rest)
  }

  function TotalSize(sections: seq<Raw>): nat {
    if sections == [] then 0 else sections[0].size + TotalSize(sections[1..])
  }

  /** What is hashed past the sections, given how many bytes were hashed before it. */
  function Trailer(data: Bytes, hashed: nat, certAddr: nat, certSize: nat): Result<Bytes, Error> {
    if |data| <= hashed then Ok([])
    else if certAddr > 0 && certSize > 0 then
      if certAddr > hashed && certAddr > |data| then Err(SlicePanic)
      else
        Ok((if certAddr > hashed then data[hashed..certAddr] else [])
           + (if certAddr + certSize < |data| then data[certAddr + certSize..] else []))
    else Ok(data[hashed..])
  }

  function AlignPad(len: nat): (p: nat)
    ensures p < 8 && (len + p) % 8 == 0
  {
    if len % 8 == 0 then 0 else 8 - len % 8
  }

  function HeaderBytes(data: Bytes, l: Layout): Bytes
    requires l.checksum + 4 <= l.certDir && l.certDir + 8 <= l.sizeOfHeaders <= |data|
  {
    data[..l.checksum] + data[l.checksum + 4..l.certDir] + data[l.certDir + 8..l.sizeOfHeaders]
  }

  function U32(data: Bytes, offset: nat): nat
    requires offset + 4 <= |data|
  {
    FromLe(data[offset..offset + 4])
  }

  function Stream(data: Bytes): Result<Bytes, Error> {
    match ReadLayout(data)
    case Err(e) => Err(e)
    case Ok(l) =>
      match ListSections(data, l.table, 0, l.sections)
      case None => Err(OutOfBounds)
      case Some(listed) =>
        var sections := SortBy(RawOffset, listed);
        match SectionData(data, sections)
        case None => Err(SectionOutside)
        case Some(body) =>
          match Trailer(data, l.sizeOfHeaders + TotalSize(sections), U32(data, l.certDir), U32(data, l.certDir + 4))
          case Err(e) => Err(e)
          case Ok(trailer) => Ok(HeaderBytes(data, l) + body + trailer + Zeros(AlignPad(|data|)))
  }

  // ---------------------------------------------------------------------------------------------
  // The computation
  // ---------------------------------------------------------------------------------------------

  method CollectSections(data: Bytes, table: nat, n: nat) returns (r: Option<seq<Raw>>)
    ensures r == ListSections(data, table, 0, n)
  {
    hide FromLe;
    var sections: seq<Raw> := [];
    ghost var all := ListSections(data, table, 0, n);
    assert all.Some? ==> [] + all.value == all.value;
    for i := 0 to n
      invariant ListSections(data, table, i, n).None? ==> all.None?
      invariant ListSections(data, table, i, n).Some? ==>
                  all == Some(sections + ListSections(data, table, i, n).value)
    {
      var offset := ReadLe(data, table + 40 * i + 20, 4);
      if offset.None? {
        return None;
      }
      var size := ReadLe(data, table + 40 * i + 16, 4);
      if size.None? {
        return None;
      }
      ghost var rest := ListSections(data, table, i + 1, n);
      ghost var one := if size.value > 0 then [Raw(offset.value, size.value)] else [];
      if rest.Some? {
        Assoc(sections, one, rest.value);
      }
      assert sections + [] == sections;
      if size.value > 0 {
        sections := sections + [Raw(offset.value, size.value)];
      }
    }
    assert sections + [] == sections;
    return Some(sections);
  }

  method HashSections(data: Bytes, sections: seq<Raw>) returns (r: Option<Bytes>, total: nat)
    ensures r == SectionData(data, sections)
    ensures r.Some? ==> total == TotalSize(sections)
  {
    hide RawOffset;
    var body: Bytes := [];
    total := 0;
    ghost var all := SectionData(data, sections);
    assert all.Some? ==> [] + all.value == all.value;
    assert sections[0..] == sections;
    for i := 0 to |sections|
      invariant total + TotalSize(sections[i..]) == TotalSize(sections)
      invariant SectionData(data, sections[i..]).None? ==> all.None?
      invariant SectionData(data, sections[i..]).Some? ==>
                  all == Some(body + SectionData(data, sections[i..]).value)
    {
      assert sections[i..][1..] == sections[i + 1..];
      var end := sections[i].offset + sections[i].size;
      if end > |data| {
        return None, total;
      }
      var piece := data[sections[i].offset..end];
      ghost var rest := SectionData(data, sections[i + 1..]);
      if rest.Some? {
        Assoc(body, piece, rest.value);
      }
      body := body + piece;
      total := total + sections[i].size;
    }
    assert body + [] == body;
    return Some(body), total;
  }

  /** `authenticode_sha384`; the running hasher is the string it has been fed. */
  method AuthenticodeSha384(h: Hash, data: Bytes) returns (r: Result<Digest, Error>)
    ensures r == match Stream(data) case Err(e) => Err(e) case Ok(stream) => Ok(h(stream))
  {
    hide SectionData, TotalSize, ListSections, FromLe, SortBy;
    var layout := ReadLayout(data);
    if layout.Err? {
      return Err(layout.error);
    }
    var l := layout.value;
    var stream := data[..l.checksum];
    stream := stream + data[l.checksum + 4..l.certDir];
    stream := stream + data[l.certDir + 8..l.sizeOfHeaders];
    var listed := CollectSections(data, l.table, l.sections);
    if listed.None? {
      return Err(OutOfBounds);
    }
    var sections := SortBy(RawOffset, listed.value);
    var body, total := HashSections(data, sections);
    if body.None? {
      return Err(SectionOutside);
    }
    stream := stream + body.value;
    var hashed := l.sizeOfHeaders + total;
    var trailer := Trailer(data, hashed, U32(data, l.certDir), U32(data, l.certDir + 4));
    if trailer.Err? {
      return Err(trailer.error);
    }
    stream := stream + trailer.value;
    stream := stream + Zeros(AlignPad(|data|));
    return Ok(h(stream));
  }

  // ---------------------------------------------------------------------------------------------
  // Signing
  // ---------------------------------------------------------------------------------------------

  function Patch(data: Bytes, at: nat, field: Bytes): (r: Bytes)
    requires at + |field| <= |data|
    ensures |r| == |data| && r[at..at + |field|] == field
    ensures r[..at] == data[..at] && r[at + |field|..] == data[at + |field|..]
  {
    data[..at] + field + data[at + |field|..]
  }

  /**
   * What a signer does: pad the image to eight bytes, write the checksum and the certificate
   * directory entry, and append the certificate table.
   */
  function Signed(data: Bytes, l: Layout, checksum: Bytes, cert: Bytes): (r: Bytes)
    requires l.checksum + 4 <= l.certDir && l.certDir + 8 <= |data| && |checksum| == 4
    ensures |r| == |data| + AlignPad(|data|) + |cert|
  {
    var padded := data + Zeros(AlignPad(|data|));
    var entry := ToLe(|padded|, 4) + ToLe(|cert|, 4);
    Patch(Patch(padded, l.checksum, checksum), l.certDir, entry) + cert
  }

  /** A well-formed unsigned image: nothing it hashes from the table or the sections is rewritten. */
  ghost predicate WellFormedUnsigned(data: Bytes) {
    && Stream(data).Ok?
    && var l := ReadLayout(data).value;
       && (U32(data, l.certDir) == 0 || U32(data, l.certDir + 4) == 0)
       && l.table >= l.certDir + 8
       && forall i :: 0 <= i < |Listed(data)| ==> Listed(data)[i].offset >= l.sizeOfHeaders
  }

  function Listed(data: Bytes): seq<Raw>
    requires Stream(data).Ok?
  {
    var l := ReadLayout(data).value;
    ListSections(data, l.table, 0, l.sections).value
  }

  /** Bytes hashed before the trailing data. */
  function SumHashed(data: Bytes): nat
    requires Stream(data).Ok?
  {
    ReadLayout(data).value.sizeOfHeaders + TotalSize(SortBy(RawOffset, Listed(data)))
  }

  /** `b` agrees with `a` on everything but the checksum and certificate directory fields. */
  ghost predicate AgreesOutside(a: Bytes, b: Bytes, l: Layout) {
    && |a| <= |b|
    && forall i :: 0 <= i < |a| && !(l.checksum <= i < l.checksum + 4) && !(l.certDir <= i < l.certDir + 8)
         ==> b[i] == a[i]
  }

  lemma {:induction false} SignedDirectory(data: Bytes, l: Layout, checksum: Bytes, cert: Bytes)
    requires l.checksum + 4 <= l.certDir && l.certDir + 8 <= |data| && |checksum| == 4
    ensures var signed := Signed(data, l, checksum, cert);
            signed[l.certDir..l.certDir + 4] == ToLe(|data| + AlignPad(|data|), 4)
            && signed[l.certDir + 4..l.certDir + 8] == ToLe(|cert|, 4)
  {
    hide ToLe, Patch, AlignPad, Zeros;
    var padded := data + Zeros(AlignPad(|data|));
    var once := Patch(padded, l.checksum, checksum);
    PatchedDirectory(once, l.certDir, ToLe(|padded|, 4), ToLe(|cert|, 4), cert);
  }

  lemma PatchedDirectory(once: Bytes, at: nat, x: Bytes, y: Bytes, cert: Bytes)
    requires at + 8 <= |once| && |x| == |y| == 4
    ensures var signed := Patch(once, at, x + y) + cert;
            signed[at..at + 4] == x && signed[at + 4..at + 8] == y
  {
    hide Patch;
    TwoFields(Patch(once, at, x + y), cert, at, x, y);
  }

  lemma TwoFields(bs: Bytes, more: Bytes, at: nat, x: Bytes, y: Bytes)
    requires at + 8 <= |bs| && |x| == |y| == 4 && bs[at..at + 8] == x + y
    ensures (bs + more)[at..at + 4] == x && (bs + more)[at + 4..at + 8] == y
  {
    forall i | 0 <= i < 4
      ensures (bs + more)[at + i] == x[i] && (bs + more)[at + 4 + i] == y[i]
    {
      assert bs[at..at + 8][i] == x[i] && bs[at..at + 8][4 + i] == y[i];
    }
  }

  lemma SignedAgrees(data: Bytes, l: Layout, checksum: Bytes, cert: Bytes)
    requires l.checksum + 4 <= l.certDir && l.certDir + 8 <= |data| && |checksum| == 4
    ensures AgreesOutside(data, Signed(data, l, checksum, cert), l)
    ensures forall i :: |data| <= i < |data| + AlignPad(|data|) ==> Signed(data, l, checksum, cert)[i] == 0
  {
    hide ToLe, Patch;
    var padded := data + Zeros(AlignPad(|data|));
    var entry := ToLe(|padded|, 4) + ToLe(|cert|, 4);
    var once := Patch(padded, l.checksum, checksum);
    var twice := Patch(once, l.certDir, entry);
    forall i | 0 <= i < |padded| && !(l.checksum <= i < l.checksum + 4) && !(l.certDir <= i < l.certDir + 8)
      ensures (twice + cert)[i] == padded[i]
    {
      PatchElsewhere(padded, l.checksum, checksum, i);
      PatchElsewhere(once, l.certDir, entry, i);
    }
  }

  lemma PatchElsewhere(data: Bytes, at: nat, field: Bytes, i: nat)
    requires at + |field| <= |data| && i < |data| && !(at <= i < at + |field|)
    ensures Patch(data, at, field)[i] == data[i]
  {
  }

  lemma SliceAgrees(a: Bytes, b: Bytes, l: Layout, lo: nat, hi: nat)
    requires AgreesOutside(a, b, l) && lo <= hi <= |a|
    requires hi <= l.checksum || lo >= l.checksum + 4
    requires hi <= l.certDir || lo >= l.certDir + 8
    ensures b[lo..hi] == a[lo..hi]
  {
  }

  lemma ReadAgrees(a: Bytes, b: Bytes, l: Layout, offset: nat, size: nat)
    requires AgreesOutside(a, b, l) && offset + size <= |a| && l.checksum + 4 <= l.certDir
    requires offset + size <= l.checksum || offset >= l.certDir + 8
    ensures ReadLe(b, offset, size) == ReadLe(a, offset, size)
  {
    hide FromLe;
    SliceAgrees(a, b, l, offset, offset + size);
  }

  lemma LayoutAgrees(a: Bytes, b: Bytes)
    requires ReadLayout(a).Ok? && AgreesOutside(a, b, ReadLayout(a).value)
    ensures ReadLayout(b) == ReadLayout(a)
  {
    hide FromLe, ReadLe;
    var l := ReadLayout(a).value;
    var pe := ReadLe(a, 0x3C, 4).value;
    ReadInside(a, 0x3C, 4);
    ReadAgrees(a, b, l, 0x3C, 4);
    ReadAgrees(a, b, l, pe, 4);
    ReadAgrees(a, b, l, pe + 20, 2);
    ReadAgrees(a, b, l, pe + 24, 2);
    ReadAgrees(a, b, l, pe + 84, 4);
    ReadAgrees(a, b, l, pe + 6, 2);
  }

  lemma ReadInside(a: Bytes, offset: nat, size: nat)
    ensures ReadLe(a, offset, size).Some? ==> offset + size <= |a|
  {
  }

  lemma {:induction false} ListAgrees(a: Bytes, b: Bytes, l: Layout, i: nat)
    requires AgreesOutside(a, b, l) && l.checksum + 4 <= l.certDir && l.table >= l.certDir + 8
    requires ListSections(a, l.table, i, l.sections).Some?
    ensures ListSections(b, l.table, i, l.sections) == ListSections(a, l.table, i, l.sections)
    decreases l.sections - i
  {
    hide ReadLe;
    if i < l.sections {
      ReadInside(a, l.table + 40 * i + 20, 4);
      ReadInside(a, l.table + 40 * i + 16, 4);
      ReadAgrees(a, b, l, l.table + 40 * i + 20, 4);
      ReadAgrees(a, b, l, l.table + 40 * i + 16, 4);
      ListAgrees(a, b, l, i + 1);
    }
  }

  lemma {:induction false} DataAgrees(a: Bytes, b: Bytes, l: Layout, sections: seq<Raw>)
    requires AgreesOutside(a, b, l) && l.checksum + 4 <= l.certDir
    requires forall i :: 0 <= i < |sections| ==> sections[i].offset >= l.certDir + 8
    requires SectionData(a, sections).Some?
    ensures SectionData(b, sections) == SectionData(a, sections)
  {
    if sections != [] {
      SliceAgrees(a, b, l, sections[0].offset, sections[0].offset + sections[0].size);
      DataAgrees(a, b, l, sections[1..]);
    }
  }

  lemma HeaderAgrees(a: Bytes, b: Bytes, l: Layout)
    requires AgreesOutside(a, b, l)
    requires l.checksum + 4 <= l.certDir && l.certDir + 8 <= l.sizeOfHeaders <= |a|
    ensures HeaderBytes(b, l) == HeaderBytes(a, l)
  {
    SliceAgrees(a, b, l, 0, l.checksum);
    SliceAgrees(a, b, l, l.checksum + 4, l.certDir);
    SliceAgrees(a, b, l, l.certDir + 8, l.sizeOfHeaders);
    assert b[..l.checksum] == b[0..l.checksum] && a[..l.checksum] == a[0..l.checksum];
  }

  /** The bytes of the signed image past the sections, certificate excluded. */
  lemma SignedTrailer(data: Bytes, signed: Bytes, hashed: nat, cert: nat)
    requires var padded := |data| + AlignPad(|data|);
             && 0 < padded && 0 < cert && |signed| == padded + cert
             && (forall i :: |data| <= i < padded ==> signed[i] == 0)
             && (hashed <= |data| ==> signed[hashed..|data|] == data[hashed..])
    ensures var padded := |data| + AlignPad(|data|);
            var trailer := Trailer(signed, hashed, padded, cert);
            && trailer.Ok?
            && (trailer.value == (if |data| > hashed then data[hashed..] else []) + Zeros(AlignPad(|data|))
                <==> hashed <= |data| || |data| % 8 == 0)
  {
    var padded := |data| + AlignPad(|data|);
    if hashed <= |data| {
      assert signed[hashed..padded] == signed[hashed..|data|] + signed[|data|..padded];
      assert signed[|data|..padded] == Zeros(AlignPad(|data|));
    }
  }

  /**
   * Signing is invisible: padding, checksum, certificate directory and certificate table leave the
   * hashed stream unchanged, and do so exactly when the sections do not claim more bytes than the
   * file has (or the file needed no padding).
   */
  lemma {:induction false} SigningIsInvisible(data: Bytes, checksum: Bytes, cert: Bytes)
    requires WellFormedUnsigned(data)
    requires |checksum| == 4 && 0 < |cert| < U32_LIMIT && |cert| % 8 == 0
    requires |data| + AlignPad(|data|) < U32_LIMIT
    ensures var signed := Signed(data, ReadLayout(data).value, checksum, cert);
            && Stream(signed).Ok?
            && (Stream(signed) == Stream(data) <==> SumHashed(data) <= |data| || |data| % 8 == 0)
  {
    hide ReadLayout, ListSections, SectionData, TotalSize, HeaderBytes, SortBy, FromLe, ToLe, Trailer, Signed, Pow256;
    var l := ReadLayout(data).value;
    var signed := Signed(data, l, checksum, cert);
    var padded := |data| + AlignPad(|data|);
    SignedAgrees(data, l, checksum, cert);
    SignedDirectory(data, l, checksum, cert);
    LayoutAgrees(data, signed);
    ListAgrees(data, signed, l, 0);
    var sections := SortBy(RawOffset, Listed(data));
    SortedOffsets(Listed(data), l.sizeOfHeaders);
    DataAgrees(data, signed, l, sections);
    HeaderAgrees(data, signed, l);
    PowValues();
    LeRoundTrip(padded, 4);
    LeRoundTrip(|cert|, 4);
    assert U32(signed, l.certDir) == padded && U32(signed, l.certDir + 4) == |cert|;
    var hashed := SumHashed(data);
    if hashed <= |data| {
      SliceAgrees(data, signed, l, hashed, |data|);
      assert data[hashed..|data|] == data[hashed..];
    }
    SignedTrailer(data, signed, hashed, |cert|);
    var front := HeaderBytes(data, l) + SectionData(data, sections).value;
    var tail := if |data| > hashed then data[hashed..] else [];
    UnsignedTrailer(data, hashed, U32(data, l.certDir), U32(data, l.certDir + 4));
    Assoc(front, tail, Zeros(AlignPad(|data|)));
    CommonFront(front, tail + Zeros(AlignPad(|data|)), Trailer(signed, hashed, padded, |cert|).value);
    assert Zeros(AlignPad(|signed|)) == [];
  }

  /**
   * An unsigned image of 305 bytes: a PE32 header of 304 bytes with two sections, both of which
   * claim the one byte behind it.
   */
  function DoublyClaimed(): (data: Bytes)
    ensures IsDoublyClaimed(data)
  {
    seq(305, i requires 0 <= i < 305 => DoublyClaimedByte(i))
  }

  predicate IsDoublyClaimed(data: Bytes) {
    |data| == 305 && forall i :: 0 <= i < 305 ==> data[i] == DoublyClaimedByte(i)
  }

  function DoublyClaimedByte(i: nat): byte {
    if i == 0x3C then 64                                          // the PE header's offset
    else if i == 64 then 0x50 else if i == 65 then 0x45           // its signature
    else if i == 70 then 2                                        // number of sections
    else if i == 84 then 136                                      // optional header size
    else if i == 88 then 0x0b else if i == 89 then 0x01           // PE32
    else if i == 148 || i == 244 || i == 284 then 0x30            // size of headers, section offsets
    else if i == 149 || i == 245 || i == 285 then 0x01
    else if i == 240 || i == 280 then 1                           // section sizes
    else 0
  }

  function LowTwo(data: Bytes, at: nat): nat
    requires at + 2 <= |data|
  {
    data[at] as int + 256 * data[at + 1] as int
  }

  lemma SmallField(data: Bytes, at: nat)
    requires at + 4 <= |data| && data[at + 2] == data[at + 3] == 0
    ensures ReadLe(data, at, 4) == Some(LowTwo(data, at))
    ensures U32(data, at) == LowTwo(data, at)
    ensures ReadLe(data, at, 2) == Some(LowTwo(data, at))
  {
    var four, two := data[at..at + 4], data[at..at + 2];
    assert FromLe(four) == four[0] + 256 * FromLe(four[1..]);
    assert FromLe(four[1..]) == four[1] + 256 * FromLe(four[1..][1..]);
    assert four[1..][1..] == [0, 0] && [0, 0][1..] == [0] && [0][1..] == [];
    assert FromLe([0]) == 0 && FromLe([0, 0]) == 0;
    assert two[1..][1..] == [] && FromLe(two[1..]) == two[1];
  }

  lemma DoublyClaimedField(data: Bytes, at: nat)
    requires IsDoublyClaimed(data)
    requires at + 4 <= 305 && DoublyClaimedByte(at + 2) == DoublyClaimedByte(at + 3) == 0
    ensures ReadLe(data, at, 4) == Some(DoublyClaimedByte(at) + 256 * DoublyClaimedByte(at + 1))
    ensures U32(data, at) == DoublyClaimedByte(at) + 256 * DoublyClaimedByte(at + 1)
    ensures ReadLe(data, at, 2) == Some(DoublyClaimedByte(at) + 256 * DoublyClaimedByte(at + 1))
  {
    hide DoublyClaimedByte, FromLe;
    SmallField(data, at);
  }

  lemma DoublyClaimedLayout(data: Bytes)
    requires IsDoublyClaimed(data)
    ensures ReadLayout(data) == Ok(Layout(152, 216, 304, 224, 2))
  {
    assert |data| == 305;
    hide FromLe, IsDoublyClaimed;
    DoublyClaimedField(data, 0x3C);
    DoublyClaimedField(data, 64);
    DoublyClaimedField(data, 70);
    DoublyClaimedField(data, 84);
    DoublyClaimedField(data, 88);
    DoublyClaimedField(data, 148);
  }

  lemma DoublyClaimedSections(data: Bytes)
    requires IsDoublyClaimed(data)
    ensures ListSections(data, 224, 0, 2) == Some([Raw(304, 1), Raw(304, 1)])
  {
    hide FromLe, IsDoublyClaimed;
    DoublyClaimedField(data, 240);
    DoublyClaimedField(data, 244);
    DoublyClaimedField(data, 280);
    DoublyClaimedField(data, 284);
    assert ListSections(data, 224, 2, 2) == Some([]);
    assert [Raw(304, 1)] + [] == [Raw(304, 1)];
    assert ListSections(data, 224, 1, 2) == Some([Raw(304, 1)]);
    assert [Raw(304, 1)] + [Raw(304, 1)] == [Raw(304, 1), Raw(304, 1)];
  }

  lemma OneByteTwice(data: Bytes)
    requires |data| == 305
    ensures var sections := [Raw(304, 1), Raw(304, 1)];
            SortBy(RawOffset, sections) == sections && TotalSize(sections) == 2 && SectionData(data, sections).Some?
  {
    var sections := [Raw(304, 1), Raw(304, 1)];
    assert sections[1..] == [Raw(304, 1)] && [Raw(304, 1)][1..] == [];
    assert SortBy(RawOffset, [Raw(304, 1)]) == [Raw(304, 1)];
    assert SectionData(data, [Raw(304, 1)]).Some?;
    assert TotalSize([Raw(304, 1)]) == 1;
  }

  lemma DoublyClaimedIsWellFormed(data: Bytes)
    requires IsDoublyClaimed(data)
    ensures WellFormedUnsigned(data) && SumHashed(data) == 306
  {
    assert |data| == 305;
    hide FromLe, ReadLayout, ListSections, IsDoublyClaimed, SortBy, SectionData, TotalSize, HeaderBytes;
    DoublyClaimedLayout(data);
    DoublyClaimedSections(data);
    DoublyClaimedField(data, 216);
    OneByteTwice(data);
    assert U32(data, 216) == 0;
  }

  /** The failing case occurs: this image is well-formed, and signing it changes its digest's input. */
  lemma {:induction false} SigningShowsOnDoubleClaim(data: Bytes, checksum: Bytes, cert: Bytes)
    requires IsDoublyClaimed(data)
    requires |checksum| == 4 && 0 < |cert| < U32_LIMIT && |cert| % 8 == 0
    ensures WellFormedUnsigned(data) && SumHashed(data) == 306
    ensures Stream(Signed(data, ReadLayout(data).value, checksum, cert)) != Stream(data)
  {
    assert |data| == 305;
    hide Stream, ReadLayout, Signed, SumHashed, WellFormedUnsigned, IsDoublyClaimed;
    DoublyClaimedIsWellFormed(data);
    SigningIsInvisible(data, checksum, cert);
  }

  /** Sections can be read and lie in the file, and what is hashed of it up to them is not all of it. */
  predicate LeavesTrailer(data: Bytes, l: Layout) {
    match ListSections(data, l.table, 0, l.sections)
    case None => false
    case Some(listed) =>
      var sorted := SortBy(RawOffset, listed);
      SectionData(data, sorted).Some? && l.sizeOfHeaders + TotalSize(sorted) < |data|
  }

  /**
   * Exactly when the trailing slice panics: the header is accepted, bytes are left behind the
   * sections, and the certificate directory names a non-empty table that starts past the end.
   */
  lemma PanicsExactly(data: Bytes)
    ensures Stream(data) == Err(SlicePanic) <==>
            && ReadLayout(data).Ok?
            && var l := ReadLayout(data).value;
               LeavesTrailer(data, l) && U32(data, l.certDir) > |data| && U32(data, l.certDir + 4) > 0
  {
    hide ListSections, SectionData, TotalSize, SortBy, FromLe;
    LayoutNeverPanics(data);
  }

  lemma LayoutNeverPanics(data: Bytes)
    ensures ReadLayout(data) != Err(SlicePanic)
  {
  }

  /** The same 305 bytes without sections, but with a certificate directory entry (0x1000, 1). */
  predicate IsCertPastEnd(data: Bytes) {
    |data| == 305 && forall i :: 0 <= i < 305 ==> data[i] == CertPastEndByte(i)
  }

  function CertPastEndByte(i: nat): byte {
    if i == 70 then 0 else if i == 217 then 0x10 else if i == 220 then 1 else DoublyClaimedByte(i)
  }

  function CertPastEnd(): (data: Bytes)
    ensures IsCertPastEnd(data)
  {
    seq(305, i requires 0 <= i < 305 => CertPastEndByte(i))
  }

  lemma CertPastEndLayout(data: Bytes)
    requires IsCertPastEnd(data)
    ensures ReadLayout(data) == Ok(Layout(152, 216, 304, 224, 0))
    ensures U32(data, 216) == 0x1000 && U32(data, 220) == 1
  {
    assert |data| == 305;
    hide FromLe;
    SmallField(data, 0x3C);
    SmallField(data, 64);
    SmallField(data, 70);
    SmallField(data, 84);
    SmallField(data, 88);
    SmallField(data, 148);
    SmallField(data, 216);
    SmallField(data, 220);
  }

  /** It happens. */
  lemma {:induction false} CertPastEndPanics(data: Bytes)
    requires IsCertPastEnd(data)
    ensures Stream(data) == Err(SlicePanic)
  {
    assert |data| == 305;
    hide FromLe, ReadLayout, IsCertPastEnd, Stream;
    CertPastEndLayout(data);
    assert ListSections(data, 224, 0, 0) == Some([]) && SortBy(RawOffset, []) == [];
    assert SectionData(data, []) == Some([]) && TotalSize([]) == 0;
    PanicsExactly(data);
  }

  lemma UnsignedTrailer(data: Bytes, hashed: nat, addr: nat, size: nat)
    requires addr == 0 || size == 0
    ensures Trailer(data, hashed, addr, size) == Ok(if |data| > hashed then data[hashed..] else [])
  {
  }

  lemma CommonFront(front: Bytes, x: Bytes, y: Bytes)
    ensures front + y + [] == front + y
    ensures front + x == front + y <==> x == y
  {
    assert (front + x)[|front|..] == x && (front + y)[|front|..] == y;
  }

  lemma SortedOffsets(listed: seq<Raw>, bound: nat)
    requires forall i :: 0 <= i < |listed| ==> listed[i].offset >= bound
    ensures forall i :: 0 <= i < |SortBy(RawOffset, listed)| ==> SortBy(RawOffset, listed)[i].offset >= bound
  {
    hide SortBy;
    var sorted := SortBy(RawOffset, listed);
    forall i | 0 <= i < |sorted|
      ensures sorted[i].offset >= bound
    {
      assert sorted[i] in multiset(sorted);
      assert sorted[i] in listed;
    }
  }

  // ---------------------------------------------------------------------------------------------
  // What is hashed
  // ---------------------------------------------------------------------------------------------

  /** Raw data that starts at `from` and leaves no gap and no overlap. */
  ghost predicate Tiles(sections: seq<Raw>, from: nat) {
    sections != [] ==> sections[0].offset == from && Tiles(sections[1..], from + sections[0].size)
  }

  lemma {:induction false} TiledSections(data: Bytes, sections: seq<Raw>, from: nat)
    requires Tiles(sections, from) && SectionData(data, sections).Some? && from <= |data|
    ensures from + TotalSize(sections) <= |data|
    ensures SectionData(data, sections).value == data[from..from + TotalSize(sections)]
  {
    if sections == [] {
      assert data[from..from] == [];
    } else {
      var mid := from + sections[0].size;
      TiledSections(data, sections[1..], mid);
      var end := mid + TotalSize(sections[1..]);
      assert data[from..end] == data[from..mid] + data[mid..end];
    }
  }

  /**
   * An unsigned image whose sections, in file order, tile the file from the end of its headers is
   * hashed whole: every byte once, in order, except the checksum and the certificate directory
   * entry, then zeros up to a multiple of eight.
   */
  lemma TiledImageIsHashedWhole(data: Bytes)
    requires WellFormedUnsigned(data)
    requires Tiles(SortBy(RawOffset, Listed(data)), ReadLayout(data).value.sizeOfHeaders)
    ensures var l := ReadLayout(data).value;
            Stream(data) == Ok(data[..l.checksum] + data[l.checksum + 4..l.certDir] + data[l.certDir + 8..]
                               + Zeros(AlignPad(|data|)))
  {
    hide ReadLayout, ListSections, SectionData, TotalSize, SortBy, FromLe, Trailer, Tiles;
    var l := ReadLayout(data).value;
    var sections := SortBy(RawOffset, Listed(data));
    TiledSections(data, sections, l.sizeOfHeaders);
    var hashed := SumHashed(data);
    UnsignedTrailer(data, hashed, U32(data, l.certDir), U32(data, l.certDir + 4));
    var tail := if |data| > hashed then data[hashed..] else [];
    JoinSlices(data, l.certDir + 8, l.sizeOfHeaders, hashed);
    Rejoin(data[..l.checksum] + data[l.checksum + 4..l.certDir], data[l.certDir + 8..l.sizeOfHeaders],
           data[l.sizeOfHeaders..hashed], tail);
    assert tail == data[hashed..];
  }

  lemma JoinSlices(data: Bytes, i: nat, j: nat, k: nat)
    requires i <= j <= k <= |data|
    ensures data[i..j] + data[j..k] + data[k..] == data[i..]
  {
  }

  lemma Rejoin(a: Bytes, b: Bytes, c: Bytes, d: Bytes)
    ensures a + b + c + d == a + (b + c + d)
  {
  }
}
