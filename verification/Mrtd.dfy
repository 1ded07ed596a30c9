/**
 * MRTD (crates/tdx-measure/src/tdvf.rs): the stream of TDH.MEM.PAGE.ADD and TDH.MR.EXTEND records
 * hashed for a parsed firmware, and what that stream says.
 */
module Mrtd {
  import opened ByteLayout
  import opened Hashing
  import opened Wrappers
  import opened Tdvf

  const GRANULE: nat := 0x100
  const RECORD: nat := 128

  datatype Record = PageAdd(gpa: nat) | Extend(gpa: nat, chunk: Bytes)

  /** Guest addresses are 64-bit: an address past the top wraps (or panics, in a checked build). */
  function Gpa(n: nat): (g: nat)
    ensures g < U64_LIMIT && (n < U64_LIMIT ==> g == n)
  {
    n % U64_LIMIT
  }

  function PageAddTag(): (t: Bytes)
    ensures |t| == 16
  {
    [0x4d, 0x45, 0x4d, 0x2e, 0x50, 0x41, 0x47, 0x45, 0x2e, 0x41, 0x44, 0x44, 0, 0, 0, 0]
  }

  function ExtendTag(): (t: Bytes)
    ensures |t| == 16
  {
    [0x4d, 0x52, 0x2e, 0x45, 0x58, 0x54, 0x45, 0x4e, 0x44, 0, 0, 0, 0, 0, 0, 0]
  }

  lemma TagsDiffer()
    ensures PageAddTag() != ExtendTag()
  {
    assert PageAddTag()[1] != ExtendTag()[1];
  }

  function Head(tag: Bytes, gpa: nat): (bs: Bytes)
    requires |tag| == 16
    ensures |bs| == RECORD
  {
    tag + ToLe(gpa, 8) + Zeros(104)
  }

  function RecordBytes(r: Record): Bytes {
    match r
    case PageAdd(gpa) => Head(PageAddTag(), gpa)
    case Extend(gpa, chunk) => Head(ExtendTag(), gpa) + chunk
  }

  function Stream(rs: seq<Record>): Bytes {
    if rs == [] then [] else Stream(rs[..|rs| - 1]) + RecordBytes(rs[|rs| - 1])
  }

  // ---------------------------------------------------------------------------------------------
  // The records of a section
  // ---------------------------------------------------------------------------------------------

  function ExtendAt(fw: Bytes, s: Section, page: nat, i: nat): Record
    requires s.dataOffset + page * PAGE + (i + 1) * GRANULE <= |fw|
  {
    var at := s.dataOffset + page * PAGE + i * GRANULE;
    Extend(Gpa(s.address + page * PAGE + i * GRANULE), fw[at..at + GRANULE])
  }

  /** The first `n` extends of a page. */
  function Extends(fw: Bytes, s: Section, page: nat, n: nat): seq<Record>
    requires s.dataOffset + page * PAGE + n * GRANULE <= |fw|
  {
    if n == 0 then [] else Extends(fw, s, page, n - 1) + [ExtendAt(fw, s, page, n - 1)]
  }

  function PageRecords(fw: Bytes, s: Section, page: nat): seq<Record>
    requires Accepted(|fw|, s) && page < s.size / PAGE
  {
    (if PageAug(s) then [] else [PageAdd(Gpa(s.address + page * PAGE))])
    + if MrExtend(s) then Extends(fw, s, page, 16) else []
  }

  /** The records of a section's first `n` pages. */
  function SectionRecords(fw: Bytes, s: Section, n: nat): seq<Record>
    requires Accepted(|fw|, s) && n <= s.size / PAGE
  {
    if n == 0 then [] else SectionRecords(fw, s, n - 1) + PageRecords(fw, s, n - 1)
  }

  function Records(fw: Bytes, sections: seq<Section>): seq<Record>
    requires AllAccepted(|fw|, sections)
  {
    if sections == [] then []
    else
      var s := sections[|sections| - 1];
      Records(fw, sections[..|sections| - 1]) + SectionRecords(fw, s, s.size / PAGE)
  }

  // ---------------------------------------------------------------------------------------------
  // The computation
  // ---------------------------------------------------------------------------------------------

  lemma StreamSnoc(rs: seq<Record>, r: Record)
    ensures Stream(rs + [r]) == Stream(rs) + RecordBytes(r)
  {
    assert (rs + [r])[..|rs|] == rs;
  }

  /** One page: an add record unless the page is augmented later, then sixteen extends. */
  method HashPage(fw: Bytes, s: Section, page: nat, ghost before: seq<Record>, stream: Bytes) returns (out: Bytes)
    requires Accepted(|fw|, s) && page < s.size / PAGE
    requires stream == Stream(before)
    ensures out == Stream(before + PageRecords(fw, s, page))
  {
    hide RecordBytes, Stream, Gpa, PageAddTag, ExtendTag;
    out := stream;
    ghost var rs := before;
    if !PageAug(s) {
      var r := PageAdd(Gpa(s.address + page * PAGE));
      StreamSnoc(rs, r);
      rs := rs + [r];
      out := out + RecordBytes(r);
    }
    if MrExtend(s) {
      ghost var added := rs;
      for i := 0 to 16
        invariant rs == added + Extends(fw, s, page, i)
        invariant out == Stream(rs)
      {
        var r := ExtendAt(fw, s, page, i);
        StreamSnoc(rs, r);
        rs := rs + [r];
        out := out + RecordBytes(r);
      }
    }
    assert rs == before + PageRecords(fw, s, page);
  }

  /** `Tdvf::mrtd`; the running hasher is the string it has been fed. */
  method ComputeMrtd(h: Hash, fw: Bytes, sections: seq<Section>) returns (mrtd: Digest)
    requires AllAccepted(|fw|, sections)
    ensures mrtd == h(Stream(Records(fw, sections)))
  {
    hide Stream, PageRecords, Accepted;
    var stream: Bytes := [];
    ghost var rs: seq<Record> := [];
    assert stream == Stream(rs) by { EmptyStream(); }
    for k := 0 to |sections|
      invariant rs == Records(fw, sections[..k]) && stream == Stream(rs)
    {
      var s := sections[k];
      assert sections[..k + 1][..k] == sections[..k];
      ghost var before := rs;
      assert before + [] == before;
      for page := 0 to s.size / PAGE
        invariant rs == before + SectionRecords(fw, s, page) && stream == Stream(rs)
      {
        Assoc(before, SectionRecords(fw, s, page), PageRecords(fw, s, page));
        stream := HashPage(fw, s, page, rs, stream);
        rs := rs + PageRecords(fw, s, page);
      }
    }
    assert sections[..|sections|] == sections;
    return h(stream);
  }

  lemma EmptyStream()
    ensures Stream([]) == []
  {
  }

  /** Parsing then measuring never reads outside the firmware, for any image the parser accepts. */
  method MeasureFirmware(h: Hash, fw: Bytes) returns (r: Result<Digest, Error>)
    requires Terminates(fw)
    ensures Parsed(fw).Err? ==> r == Err(Parsed(fw).error)
    ensures Parsed(fw).Ok? ==> AllAccepted(|fw|, Parsed(fw).value) && r == Ok(h(Stream(Records(fw, Parsed(fw).value))))
  {
    hide Parsed, Records, Terminates, DescriptorBytes;
    var parsed := ParseTdvf(fw);
    if parsed.Err? {
      return Err(parsed.error);
    }
    ParsesExactlyDescriptors(fw, parsed.value);
    var mrtd := ComputeMrtd(h, fw, parsed.value);
    return Ok(mrtd);
  }

  // ---------------------------------------------------------------------------------------------
  // What the records cover
  // ---------------------------------------------------------------------------------------------

  /** The firmware bytes carried by extend records, in order. */
  function Measured(rs: seq<Record>): Bytes {
    if rs == [] then []
    else
      var last := rs[|rs| - 1];
      Measured(rs[..|rs| - 1]) + if last.Extend? then last.chunk else []
  }

  /** The guest addresses of added pages, in order. */
  function Added(rs: seq<Record>): seq<nat> {
    if rs == [] then []
    else
      var last := rs[|rs| - 1];
      Added(rs[..|rs| - 1]) + if last.PageAdd? then [last.gpa] else []
  }

  lemma {:induction false} CoverageConcat(a: seq<Record>, b: seq<Record>)
    ensures Measured(a + b) == Measured(a) + Measured(b)
    ensures Added(a + b) == Added(a) + Added(b)
  {
    if b == [] {
      assert a + b == a;
    } else {
      var last := b[|b| - 1];
      CoverageConcat(a, b[..|b| - 1]);
      assert (a + b)[..|a + b| - 1] == a + b[..|b| - 1] && (a + b)[|a + b| - 1] == last;
      Assoc(Measured(a), Measured(b[..|b| - 1]), if last.Extend? then last.chunk else []);
      Assoc(Added(a), Added(b[..|b| - 1]), if last.PageAdd? then [last.gpa] else []);
    }
  }

  lemma CoverageOne(r: Record)
    ensures Measured([r]) == if r.Extend? then r.chunk else []
    ensures Added([r]) == if r.PageAdd? then [r.gpa] else []
  {
    assert [r][..0] == [];
  }

  lemma {:induction false} ExtendsCover(fw: Bytes, s: Section, page: nat, n: nat)
    requires s.dataOffset + page * PAGE + n * GRANULE <= |fw|
    ensures var at := s.dataOffset + page * PAGE;
            Measured(Extends(fw, s, page, n)) == fw[at..at + n * GRANULE]
    ensures Added(Extends(fw, s, page, n)) == []
  {
    hide Measured, Added;
    var at := s.dataOffset + page * PAGE;
    if n == 0 {
      EmptyCoverage();
    } else {
      ExtendsCover(fw, s, page, n - 1);
      CoverageConcat(Extends(fw, s, page, n - 1), [ExtendAt(fw, s, page, n - 1)]);
      CoverageOne(ExtendAt(fw, s, page, n - 1));
      var mid := at + (n - 1) * GRANULE;
      assert fw[at..mid + GRANULE] == fw[at..mid] + fw[mid..mid + GRANULE];
    }
  }

  lemma EmptyCoverage()
    ensures Measured([]) == [] && Added([]) == []
  {
  }

  lemma PageCovers(fw: Bytes, s: Section, page: nat)
    requires Accepted(|fw|, s) && page < s.size / PAGE
    ensures Measured(PageRecords(fw, s, page)) ==
            if MrExtend(s) then fw[s.dataOffset + page * PAGE..s.dataOffset + (page + 1) * PAGE] else []
    ensures Added(PageRecords(fw, s, page)) == if PageAug(s) then [] else [Gpa(s.address + page * PAGE)]
  {
    hide Measured, Added, Gpa;
    var add := if PageAug(s) then [] else [PageAdd(Gpa(s.address + page * PAGE))];
    var chunks := if MrExtend(s) then Extends(fw, s, page, 16) else [];
    CoverageConcat(add, chunks);
    EmptyCoverage();
    CoverageOne(PageAdd(Gpa(s.address + page * PAGE)));
    if MrExtend(s) {
      ExtendsCover(fw, s, page, 16);
    }
  }

  /** The guest addresses of a section's first `n` pages. */
  function PageAddresses(address: nat, n: nat): (r: seq<nat>)
    ensures |r| == n && forall i :: 0 <= i < n ==> r[i] == Gpa(address + i * PAGE)
  {
    seq(n, i requires 0 <= i < n => Gpa(address + i * PAGE))
  }

  lemma JoinSlices(bs: Bytes, lo: nat, mid: nat, hi: nat)
    requires lo <= mid <= hi <= |bs|
    ensures bs[lo..mid] + bs[mid..hi] == bs[lo..hi]
  {
  }

  /**
   * An MR_EXTEND section contributes exactly its bytes fw[dataOffset..dataOffset + size], once and
   * in order, any other section none; and each page is added once unless the section is augmented.
   */
  lemma {:induction false} SectionCovers(fw: Bytes, s: Section, n: nat)
    requires Accepted(|fw|, s) && n <= s.size / PAGE
    ensures Measured(SectionRecords(fw, s, n)) ==
            if MrExtend(s) then fw[s.dataOffset..s.dataOffset + n * PAGE] else []
    ensures Added(SectionRecords(fw, s, n)) == if PageAug(s) then [] else PageAddresses(s.address, n)
  {
    SectionMeasures(fw, s, n);
    SectionAdds(fw, s, n);
  }

  /** The bytes of the section's pages from `lo` up to `hi`, if it is measured. */
  function PageBytes(fw: Bytes, s: Section, lo: nat, hi: nat): Bytes
    requires Accepted(|fw|, s) && lo <= hi <= s.size / PAGE
  {
    if MrExtend(s) then fw[s.dataOffset + lo * PAGE..s.dataOffset + hi * PAGE] else []
  }

  lemma PageBytesNext(fw: Bytes, s: Section, n: nat)
    requires Accepted(|fw|, s) && n < s.size / PAGE
    ensures PageBytes(fw, s, 0, n) + PageBytes(fw, s, n, n + 1) == PageBytes(fw, s, 0, n + 1)
  {
    if MrExtend(s) {
      JoinSlices(fw, s.dataOffset, s.dataOffset + n * PAGE, s.dataOffset + (n + 1) * PAGE);
    }
  }

  lemma {:induction false} SectionMeasures(fw: Bytes, s: Section, n: nat)
    requires Accepted(|fw|, s) && n <= s.size / PAGE
    ensures Measured(SectionRecords(fw, s, n)) == PageBytes(fw, s, 0, n)
  {
    hide Measured, Added, PageRecords, Gpa, SectionRecords, PageAddresses, PageAug, PageBytes, Accepted;
    SectionStep(fw, s, n);
    if n == 0 {
      EmptyCoverage();
      NoPageBytes(fw, s);
    } else {
      SectionMeasures(fw, s, n - 1);
      CoverageConcat(SectionRecords(fw, s, n - 1), PageRecords(fw, s, n - 1));
      PageIsMeasured(fw, s, n - 1);
      PageBytesNext(fw, s, n - 1);
    }
  }

  lemma NoPageBytes(fw: Bytes, s: Section)
    requires Accepted(|fw|, s)
    ensures PageBytes(fw, s, 0, 0) == []
  {
  }

  lemma PageIsMeasured(fw: Bytes, s: Section, page: nat)
    requires Accepted(|fw|, s) && page < s.size / PAGE
    ensures Measured(PageRecords(fw, s, page)) == PageBytes(fw, s, page, page + 1)
  {
    hide Measured, PageRecords, MrExtend;
    PageCovers(fw, s, page);
  }

  lemma {:induction false} SectionAdds(fw: Bytes, s: Section, n: nat)
    requires Accepted(|fw|, s) && n <= s.size / PAGE
    ensures Added(SectionRecords(fw, s, n)) == if PageAug(s) then [] else PageAddresses(s.address, n)
  {
    hide Measured, Added, PageRecords, Gpa, SectionRecords, PageAddresses, MrExtend, PageAug, Accepted;
    SectionStep(fw, s, n);
    if n == 0 {
      EmptyCoverage();
    } else {
      SectionAdds(fw, s, n - 1);
      CoverageConcat(SectionRecords(fw, s, n - 1), PageRecords(fw, s, n - 1));
      PageCovers(fw, s, n - 1);
    }
  }

  lemma SectionStep(fw: Bytes, s: Section, n: nat)
    requires Accepted(|fw|, s) && n <= s.size / PAGE
    ensures n == 0 ==> SectionRecords(fw, s, n) == [] && PageAddresses(s.address, n) == []
    ensures n > 0 ==>
              && SectionRecords(fw, s, n) == SectionRecords(fw, s, n - 1) + PageRecords(fw, s, n - 1)
              && PageAddresses(s.address, n) == PageAddresses(s.address, n - 1) + [Gpa(s.address + (n - 1) * PAGE)]
  {
    hide PageRecords, Gpa;
  }

  /** The firmware bytes MRTD commits to, section by section. */
  function ExtendedBytes(fw: Bytes, sections: seq<Section>): Bytes
    requires AllAccepted(|fw|, sections)
  {
    if sections == [] then []
    else
      var s := sections[|sections| - 1];
      ExtendedBytes(fw, sections[..|sections| - 1])
      + if MrExtend(s) then fw[s.dataOffset..s.dataOffset + s.size] else []
  }

  /** The guest addresses of the pages added for all sections, one per page, in order. */
  function AddedAddresses(sections: seq<Section>): seq<nat> {
    if sections == [] then []
    else
      var s := sections[|sections| - 1];
      AddedAddresses(sections[..|sections| - 1]) + if PageAug(s) then [] else PageAddresses(s.address, s.size / PAGE)
  }

  lemma {:induction false} RecordsCover(fw: Bytes, sections: seq<Section>)
    requires AllAccepted(|fw|, sections)
    ensures Measured(Records(fw, sections)) == ExtendedBytes(fw, sections)
    ensures Added(Records(fw, sections)) == AddedAddresses(sections)
  {
    hide Measured, Added, SectionRecords;
    if sections == [] {
      EmptyCoverage();
    } else {
      var init, s := sections[..|sections| - 1], sections[|sections| - 1];
      RecordsCover(fw, init);
      SectionCovers(fw, s, s.size / PAGE);
      CoverageConcat(Records(fw, init), SectionRecords(fw, s, s.size / PAGE));
    }
  }

  // ---------------------------------------------------------------------------------------------
  // The stream is uniquely decodable
  // ---------------------------------------------------------------------------------------------

  predicate Wide(r: Record) {
    r.gpa < U64_LIMIT && (r.Extend? ==> |r.chunk| == GRANULE)
  }

  ghost predicate AllWide(rs: seq<Record>) {
    forall i :: 0 <= i < |rs| ==> Wide(rs[i])
  }

  lemma {:induction false} RecordsAreWide(fw: Bytes, sections: seq<Section>)
    requires AllAccepted(|fw|, sections)
    ensures AllWide(Records(fw, sections))
  {
    hide SectionRecords, Accepted;
    if sections != [] {
      RecordsAreWide(fw, sections[..|sections| - 1]);
      var s := sections[|sections| - 1];
      SectionIsWide(fw, s, s.size / PAGE);
    }
  }

  lemma {:induction false} SectionIsWide(fw: Bytes, s: Section, n: nat)
    requires Accepted(|fw|, s) && n <= s.size / PAGE
    ensures AllWide(SectionRecords(fw, s, n))
  {
    hide Gpa;
    if n > 0 {
      SectionIsWide(fw, s, n - 1);
      if MrExtend(s) {
        ExtendsAreWide(fw, s, n - 1, 16);
      }
    }
  }

  lemma {:induction false} ExtendsAreWide(fw: Bytes, s: Section, page: nat, n: nat)
    requires s.dataOffset + page * PAGE + n * GRANULE <= |fw|
    ensures AllWide(Extends(fw, s, page, n))
  {
    if n > 0 {
      ExtendsAreWide(fw, s, page, n - 1);
    }
  }

  /** A reader that goes forward through the stream. */
  function Decode(bs: Bytes): Option<seq<Record>> {
    if bs == [] then Some([])
    else if |bs| < RECORD then None
    else
      var gpa := FromLe(bs[16..24]);
      if bs[..16] == PageAddTag() then
        match Decode(bs[RECORD..])
        case None => None
        case Some(rs) => Some([PageAdd(gpa)] + rs)
      else if bs[..16] == ExtendTag() && |bs| >= RECORD + GRANULE then
        match Decode(bs[RECORD + GRANULE..])
        case None => None
        case Some(rs) => Some([Extend(gpa, bs[RECORD..RECORD + GRANULE])] + rs)
      else None
  }

  lemma DecodeOne(r: Record, tail: Bytes)
    requires Wide(r)
    ensures Decode(RecordBytes(r) + tail) ==
            match Decode(tail) case None => None case Some(rs) => Some([r] + rs)
  {
    hide ToLe, FromLe, PageAddTag, ExtendTag, Pow256;
    TagsDiffer();
    PowValues();
    LeRoundTrip(r.gpa, 8);
    var tag := if r.PageAdd? then PageAddTag() else ExtendTag();
    var bs := RecordBytes(r) + tail;
    assert Head(tag, r.gpa)[..16] == tag && Head(tag, r.gpa)[16..24] == ToLe(r.gpa, 8);
    assert bs[..16] == Head(tag, r.gpa)[..16] && bs[16..24] == Head(tag, r.gpa)[16..24];
    match r
    case PageAdd(_) =>
      assert bs[RECORD..] == tail;
    case Extend(_, chunk) =>
      assert bs[RECORD..RECORD + GRANULE] == chunk && bs[RECORD + GRANULE..] == tail;
  }

  lemma {:induction false} StreamCons(rs: seq<Record>)
    requires rs != []
    ensures Stream(rs) == RecordBytes(rs[0]) + Stream(rs[1..])
  {
    hide RecordBytes;
    var init, last := rs[..|rs| - 1], rs[|rs| - 1];
    if init == [] {
      assert rs[1..] == [];
    } else {
      StreamCons(init);
      assert rs[1..][..|rs[1..]| - 1] == init[1..];
      Assoc(RecordBytes(rs[0]), Stream(init[1..]), RecordBytes(last));
    }
  }

  /** Decoding undoes the stream, so equal streams come from equal record sequences. */
  lemma {:induction false} DecodeStream(rs: seq<Record>)
    requires AllWide(rs)
    ensures Decode(Stream(rs)) == Some(rs)
  {
    hide RecordBytes, Stream, Wide, Decode;
    if rs == [] {
      EmptyStream();
      DecodeNothing();
    } else {
      StreamCons(rs);
      DecodeOne(rs[0], Stream(rs[1..]));
      DecodeStream(rs[1..]);
      assert [rs[0]] + rs[1..] == rs;
    }
  }

  lemma DecodeNothing()
    ensures Decode([]) == Some([])
  {
  }

  /**
   * MRTD commits to the firmware: two parsed images with one MRTD have the same page-add and
   * extend sequence, hence the same measured bytes, or their two streams collide.
   */
  lemma {:induction false} MrtdCommitsToRecords(h: Hash, fw: Bytes, sections: seq<Section>,
                                                   fw': Bytes, sections': seq<Section>)
    requires AllAccepted(|fw|, sections) && AllAccepted(|fw'|, sections')
    requires h(Stream(Records(fw, sections))) == h(Stream(Records(fw', sections')))
    ensures var rs, rs' := Records(fw, sections), Records(fw', sections');
            || CollisionAmong(h, [Stream(rs)], [Stream(rs')])
            || (rs == rs' && ExtendedBytes(fw, sections) == ExtendedBytes(fw', sections'))
  {
    hide Records, Stream, ExtendedBytes;
    RecordsAreWide(fw, sections);
    RecordsAreWide(fw', sections');
    DecodeStream(Records(fw, sections));
    DecodeStream(Records(fw', sections'));
    RecordsCover(fw, sections);
    RecordsCover(fw', sections');
    var x, y := Stream(Records(fw, sections)), Stream(Records(fw', sections'));
    assert x in [x] && y in [y];
  }
}
