/** The TD-HOB measured first into RTMR[0] (`measure_td_hob` in crates/tdx-measure/src/tdvf.rs). */
module TdHob {
  import opened ByteLayout
  import opened Hashing
  import opened Wrappers
  import opened Acceptor
  import Sorting
  import Tdvf

  const TD_HOB: nat := 2
  const TEMP_MEM: nat := 3
  const DEFAULT_BASE: nat := 0x80_9000
  const SPLIT_AT: nat := 0x8000_0000
  const SPLIT_SIZE: nat := 0xB000_0000
  const ACCEPTED: nat := 0x00
  const UNACCEPTED: nat := 0x07

  datatype Resource = Resource(kind: nat, start: nat, length: nat)
  datatype Error = MemoryOverflow | RangeOverflow | LastStartsHigh | LastEndsLow

  /** The accept calls the sections ask for, unless one ends past 64 bits. */
  function CallsOf(sections: seq<Tdvf.Section>): Option<seq<Call>> {
    if sections == [] then Some([])
    else
      var s := sections[|sections| - 1];
      match CallsOf(sections[..|sections| - 1])
      case None => None
      case Some(calls) =>
        if s.secType != TD_HOB && s.secType != TEMP_MEM then Some(calls)
        else if s.address + s.size >= U64_LIMIT then None
        else Some(calls + [Call(s.address, s.address + s.size)])
  }

  /** The HOB list goes to the last TD_HOB section. */
  function BaseOf(sections: seq<Tdvf.Section>): nat {
    if sections == [] then DEFAULT_BASE
    else
      var s := sections[|sections| - 1];
      if s.secType == TD_HOB then s.address else BaseOf(sections[..|sections| - 1])
  }

  ghost predicate Proper(rs: seq<Range>) {
    forall i :: 0 <= i < |rs| ==> rs[i].start <= rs[i].end
  }

  function RangeHob(r: Range): Resource
    requires r.start <= r.end
  {
    Resource(if r.accepted then ACCEPTED else UNACCEPTED, r.start, r.end - r.start)
  }

  function RangeHobs(rs: seq<Range>): (hobs: seq<Resource>)
    requires Proper(rs)
    ensures |hobs| == |rs|
  {
    if rs == [] then [] else [RangeHob(rs[0])] + RangeHobs(rs[1..])
  }

  /** The hobs of the final range, which is reported unaccepted and moved around the 32-bit hole. */
  function LastHobs(last: Range, memorySize: nat): Result<seq<Resource>, Error>
    requires last.start <= last.end
  {
    if memorySize < SPLIT_SIZE then Ok([Resource(UNACCEPTED, last.start, last.end - last.start)])
    else if last.start >= SPLIT_AT then Err(LastStartsHigh)
    else if last.end < SPLIT_AT then Err(LastEndsLow)
    else
      Ok([Resource(UNACCEPTED, last.start, SPLIT_AT - last.start),
          Resource(UNACCEPTED, U32_LIMIT, last.end - SPLIT_AT)])
  }

  function Hobs(rs: seq<Range>, memorySize: nat): Result<seq<Resource>, Error>
    requires Proper(rs) && rs != []
  {
    match LastHobs(rs[|rs| - 1], memorySize)
    case Err(e) => Err(e)
    case Ok(last) => Ok(RangeHobs(rs[..|rs| - 1]) + last)
  }

  function Phit(end: Bytes): (bs: Bytes)
    requires |end| == 8
    ensures |bs| == 56 && bs[48..56] == end
  {
    [0x01, 0x00] + [56, 0] + Zeros(4) + [9, 0, 0, 0] + Zeros(4) + Zeros(8) + Zeros(8) + Zeros(8) + Zeros(8) + end
  }

  function ResourceBytes(r: Resource): (bs: Bytes)
    requires r.kind < 256
    ensures |bs| == 48
  {
    [0x03, 0x00] + [48, 0] + Zeros(4) + Zeros(16) + [r.kind] + Zeros(3) + [7, 0, 0, 0]
    + ToLe(r.start, 8) + ToLe(r.length, 8)
  }

  predicate Kinds(hobs: seq<Resource>) {
    forall i :: 0 <= i < |hobs| ==> hobs[i].kind == ACCEPTED || hobs[i].kind == UNACCEPTED
  }

  function ResourceList(hobs: seq<Resource>): (bs: Bytes)
    requires Kinds(hobs)
    ensures |bs| == 48 * |hobs|
  {
    if hobs == [] then []
    else ResourceList(hobs[..|hobs| - 1]) + ResourceBytes(hobs[|hobs| - 1])
  }

  /** The whole list: the hand-off table points eight bytes past the last hob. */
  function ListBytes(base: nat, hobs: seq<Resource>): (bs: Bytes)
    requires Kinds(hobs)
    ensures |bs| == 56 + 48 * |hobs|
    ensures bs[48..56] == ToLe(base + 56 + 48 * |hobs| + 8, 8)
  {
    Phit(ToLe(base + 56 + 48 * |hobs| + 8, 8)) + ResourceList(hobs)
  }

  lemma {:induction false} RangeHobKinds(rs: seq<Range>)
    requires Proper(rs)
    ensures Kinds(RangeHobs(rs))
  {
    if rs != [] {
      RangeHobKinds(rs[1..]);
    }
  }

  lemma HobKinds(rs: seq<Range>, memorySize: nat)
    requires Proper(rs) && rs != [] && Hobs(rs, memorySize).Ok?
    ensures Kinds(Hobs(rs, memorySize).value)
  {
    RangeHobKinds(rs[..|rs| - 1]);
  }

  /** The ranges a section list leads to. */
  function RangesOf(calls: seq<Call>, memorySize: nat): seq<Range> {
    AfterAll([Range(false, 0, memorySize)], calls)
  }

  lemma {:induction false} RangesAreProper(calls: seq<Call>, memorySize: nat)
    ensures RangesOf(calls, memorySize) != [] && Proper(RangesOf(calls, memorySize))
  {
    if calls != [] {
      var c := calls[|calls| - 1];
      RangesAreProper(calls[..|calls| - 1], memorySize);
      var rs := RangesOf(calls[..|calls| - 1], memorySize);
      if c.start < c.end {
        RemnantsAreProper(rs, c.start, c.end);
        SortedIsProper(Remnants(rs, c.start, c.end) + [Range(true, c.start, c.end)]);
      }
    }
  }

  lemma {:induction false} RemnantsAreProper(rs: seq<Range>, start: nat, end: nat)
    requires Proper(rs)
    ensures Proper(Remnants(rs, start, end))
  {
    if rs != [] {
      RemnantsAreProper(rs[1..], start, end);
    }
  }

  lemma SortedIsProper(rs: seq<Range>)
    requires Proper(rs)
    ensures Proper(Sorting.SortBy(RangeStart, rs))
  {
    hide Sorting.SortBy;
    var sorted := Sorting.SortBy(RangeStart, rs);
    forall i | 0 <= i < |sorted|
      ensures sorted[i].start <= sorted[i].end
    {
      assert sorted[i] in multiset(sorted);
      assert sorted[i] in rs;
    }
  }

  function TdHobBytes(sections: seq<Tdvf.Section>, memorySize: nat): Result<Bytes, Error> {
    if memorySize >= U64_LIMIT then Err(MemoryOverflow)
    else
      match CallsOf(sections)
      case None => Err(RangeOverflow)
      case Some(calls) =>
        RangesAreProper(calls, memorySize);
        match Hobs(RangesOf(calls, memorySize), memorySize)
        case Err(e) => Err(e)
        case Ok(hobs) =>
          HobKinds(RangesOf(calls, memorySize), memorySize);
          Ok(ListBytes(BaseOf(sections), hobs))
  }

  // ---------------------------------------------------------------------------------------------
  // The computation
  // ---------------------------------------------------------------------------------------------

  lemma {:induction false} OverflowStays(sections: seq<Tdvf.Section>, n: nat)
    requires n <= |sections| && CallsOf(sections[..n]).None?
    ensures CallsOf(sections).None?
    decreases |sections| - n
  {
    if n == |sections| {
      assert sections[..n] == sections;
    } else {
      assert sections[..n + 1][..n] == sections[..n];
      OverflowStays(sections, n + 1);
    }
  }

  method AcceptSections(sections: seq<Tdvf.Section>, memorySize: nat)
    returns (ranges: seq<Range>, base: nat, error: Option<Error>)
    ensures error == if memorySize >= U64_LIMIT then Some(MemoryOverflow)
                     else if CallsOf(sections).None? then Some(RangeOverflow) else None
    ensures error.None? ==> ranges == RangesOf(CallsOf(sections).value, memorySize)
    ensures error.None? ==> base == BaseOf(sections)
  {
    hide AfterAccept;
    ranges, base, error := [], DEFAULT_BASE, None;
    var created := MemoryAcceptor.New(0, memorySize);
    if created.None? {
      return ranges, base, Some(MemoryOverflow);
    }
    var acceptor := created.value;
    for i := 0 to |sections|
      invariant fresh(acceptor) && acceptor.Valid() && acceptor.first == Range(false, 0, memorySize)
      invariant CallsOf(sections[..i]) == Some(acceptor.calls)
      invariant base == BaseOf(sections[..i])
    {
      var s := sections[i];
      assert sections[..i + 1][..i] == sections[..i];
      if s.secType == TD_HOB || s.secType == TEMP_MEM {
        if s.address + s.size >= U64_LIMIT {
          OverflowStays(sections, i + 1);
          return ranges, base, Some(RangeOverflow);
        }
        acceptor.Accept(s.address, s.address + s.size);
      }
      if s.secType == TD_HOB {
        base := s.address;
      }
    }
    ranges := acceptor.ranges;
    assert sections[..|sections|] == sections;
  }

  lemma ResourceListNext(hobs: seq<Resource>, hob: Resource)
    requires Kinds(hobs) && (hob.kind == ACCEPTED || hob.kind == UNACCEPTED)
    ensures Kinds(hobs + [hob]) && ResourceList(hobs + [hob]) == ResourceList(hobs) + ResourceBytes(hob)
  {
    assert (hobs + [hob])[..|hobs|] == hobs;
  }

  lemma {:induction false} ResourceListConcat(a: seq<Resource>, b: seq<Resource>)
    requires Kinds(a) && Kinds(b)
    ensures Kinds(a + b) && ResourceList(a + b) == ResourceList(a) + ResourceList(b)
  {
    hide ResourceBytes;
    if b == [] {
      assert a + b == a;
    } else {
      var n := |b| - 1;
      ResourceListConcat(a, b[..n]);
      assert a + b == (a + b[..n]) + [b[n]];
      ResourceListNext(a + b[..n], b[n]);
      Assoc(ResourceList(a), ResourceList(b[..n]), ResourceBytes(b[n]));
    }
  }

  /** One hob for every range but the last. */
  method AddRangeHobs(low: seq<Range>) returns (hobs: Bytes)
    requires Proper(low)
    ensures Kinds(RangeHobs(low)) && hobs == ResourceList(RangeHobs(low))
  {
    hide ResourceBytes, ResourceList;
    hobs := [];
    ghost var done: seq<Resource> := [];
    NoResources();
    assert low[0..] == low;
    for i := 0 to |low|
      invariant Kinds(done) && done + RangeHobs(low[i..]) == RangeHobs(low)
      invariant hobs == ResourceList(done)
    {
      var hob := RangeHob(low[i]);
      assert low[i..][1..] == low[i + 1..];
      Assoc(done, [hob], RangeHobs(low[i + 1..]));
      ResourceListNext(done, hob);
      hobs, done := hobs + ResourceBytes(hob), done + [hob];
    }
    assert done + [] == done;
  }

  lemma NoResources()
    ensures ResourceList([]) == []
  {
  }

  /** The hobs of the last range, or the reason it cannot be described. */
  method AddLastHobs(last: Range, memorySize: nat) returns (r: Result<Bytes, Error>)
    requires last.start <= last.end
    ensures match LastHobs(last, memorySize)
            case Err(e) => r == Err(e)
            case Ok(more) => Kinds(more) && r == Ok(ResourceList(more))
  {
    hide ResourceBytes, ResourceList;
    NoResources();
    if memorySize >= SPLIT_SIZE {
      if last.start >= SPLIT_AT {
        return Err(LastStartsHigh);
      }
      if last.end < SPLIT_AT {
        return Err(LastEndsLow);
      }
      var low := Resource(UNACCEPTED, last.start, SPLIT_AT - last.start);
      var high := Resource(UNACCEPTED, U32_LIMIT, last.end - SPLIT_AT);
      ResourceListNext([], low);
      ResourceListNext([low], high);
      assert [] + [low] == [low] && [low] + [high] == [low, high] && [] + ResourceBytes(low) == ResourceBytes(low);
      return Ok(ResourceBytes(low) + ResourceBytes(high));
    }
    var whole := Resource(UNACCEPTED, last.start, last.end - last.start);
    ResourceListNext([], whole);
    assert [] + [whole] == [whole] && [] + ResourceBytes(whole) == ResourceBytes(whole);
    return Ok(ResourceBytes(whole));
  }

  /** `measure_td_hob`: the end-of-list field is patched into the finished list. */
  method MeasureTdHob(h: Hash, sections: seq<Tdvf.Section>, memorySize: nat) returns (r: Result<Digest, Error>)
    ensures r == match TdHobBytes(sections, memorySize) case Err(e) => Err(e) case Ok(bs) => Ok(h(bs))
  {
    hide ResourceList, RangesOf, CallsOf, BaseOf, Phit, ToLe, LastHobs, RangeHobs;
    var ranges, base, refused := AcceptSections(sections, memorySize);
    if refused.Some? {
      return Err(refused.value);
    }
    RangesAreProper(CallsOf(sections).value, memorySize);
    var n := |ranges| - 1;
    var lowHobs := AddRangeHobs(ranges[..n]);
    var lastHobs := AddLastHobs(ranges[n], memorySize);
    if lastHobs.Err? {
      return Err(lastHobs.error);
    }
    var tdHob := Phit(Zeros(8)) + lowHobs + lastHobs.value;
    ghost var low, last := RangeHobs(ranges[..n]), LastHobs(ranges[n], memorySize).value;
    ResourceListConcat(low, last);
    Assoc(Phit(Zeros(8)), lowHobs, lastHobs.value);
    var end := base + |tdHob| + 8;
    PhitPatched(ToLe(end, 8), ResourceList(low + last));
    tdHob := tdHob[..48] + ToLe(end, 8) + tdHob[56..];
    return Ok(h(tdHob));
  }

  lemma PhitPatched(end: Bytes, rest: Bytes)
    requires |end| == 8
    ensures var bs := Phit(Zeros(8)) + rest;
            bs[..48] + end + bs[56..] == Phit(end) + rest
  {
    var bs := Phit(Zeros(8)) + rest;
    assert bs[..48] == Phit(end)[..48];
    assert Phit(end) == Phit(end)[..48] + end;
    assert bs[56..] == rest;
  }

  // ---------------------------------------------------------------------------------------------
  // What the hobs describe
  // ---------------------------------------------------------------------------------------------

  /** The type of the hob that covers guest address `y`, if one does. */
  function TypeAt(hobs: seq<Resource>, y: nat): Option<nat> {
    if hobs == [] then None
    else if hobs[0].start <= y < hobs[0].start + hobs[0].length then Some(hobs[0].kind)
    else TypeAt(hobs[1..], y)
  }

  function TotalLength(hobs: seq<Resource>): nat {
    if hobs == [] then 0 else hobs[0].length + TotalLength(hobs[1..])
  }

  ghost predicate DisjointInOrder(hobs: seq<Resource>) {
    forall i, j :: 0 <= i < j < |hobs| ==> hobs[i].start + hobs[i].length <= hobs[j].start
  }

  /** Where memory byte `x` appears: from 0xB0000000 bytes up, 2^31 and above move past 4 GiB. */
  function Relocated(x: nat, memorySize: nat): nat {
    if memorySize >= SPLIT_SIZE && x >= SPLIT_AT then x + SPLIT_AT else x
  }

  lemma {:induction false} TypeAtConcat(a: seq<Resource>, b: seq<Resource>, y: nat)
    ensures TypeAt(a + b, y) == if TypeAt(a, y).Some? then TypeAt(a, y) else TypeAt(b, y)
    ensures TotalLength(a + b) == TotalLength(a) + TotalLength(b)
  {
    if a == [] {
      assert a + b == b;
    } else {
      TypeAtConcat(a[1..], b, y);
      assert (a + b)[1..] == a[1..] + b && (a + b)[0] == a[0];
    }
  }

  lemma {:induction false} ChainHobs(rs: seq<Range>, lo: nat, hi: nat, y: nat)
    requires Chain(rs, lo, hi) && Proper(rs)
    ensures TypeAt(RangeHobs(rs), y) ==
            if lo <= y < hi then Some(if Flag(rs, y) then ACCEPTED else UNACCEPTED) else None
    ensures TotalLength(RangeHobs(rs)) == hi - lo
  {
    if rs != [] {
      ChainBounds(rs[1..], rs[0].end, hi);
      ChainHobs(rs[1..], rs[0].end, hi, y);
    } else {
      assert lo == hi;
    }
  }

  lemma {:induction false} ChainHobsDisjoint(rs: seq<Range>, lo: nat, hi: nat)
    requires Chain(rs, lo, hi) && Proper(rs)
    ensures DisjointInOrder(RangeHobs(rs))
    ensures forall i :: 0 <= i < |rs| ==> var hob := RangeHobs(rs)[i]; lo <= hob.start && hob.start + hob.length <= hi
  {
    if rs != [] {
      ChainBounds(rs[1..], rs[0].end, hi);
      ChainHobsDisjoint(rs[1..], rs[0].end, hi);
    }
  }

  lemma {:induction false} ChainSplitLast(rs: seq<Range>, lo: nat, hi: nat, x: nat)
    requires Chain(rs, lo, hi) && rs != []
    ensures var init, last := rs[..|rs| - 1], rs[|rs| - 1];
            && Chain(init, lo, last.start) && last.start < last.end == hi && lo <= last.start
            && Flag(rs, x) == if x < last.start then Flag(init, x) else x < hi && last.accepted
  {
    var init := rs[..|rs| - 1];
    if |rs| == 1 {
      assert rs[1..] == [];
      assert Chain(rs[1..], rs[0].end, hi);
      NoFlagBelow(rs, lo, hi);
    } else {
      ChainSplitLast(rs[1..], rs[0].end, hi, x);
      assert rs[1..][..|rs[1..]| - 1] == init[1..];
    }
  }

  /** Type 0x00 or 0x07 as the ranges say, except that the last range always counts as open. */
  function Described(rs: seq<Range>, x: nat): nat
    requires rs != []
  {
    if Flag(rs, x) && x < rs[|rs| - 1].start then ACCEPTED else UNACCEPTED
  }

  lemma HobsDescribeRanges(rs: seq<Range>, memorySize: nat, y: nat)
    requires Tiles(rs, memorySize) && rs != [] && Proper(rs) && Hobs(rs, memorySize).Ok?
    ensures var hobs := Hobs(rs, memorySize).value;
            && DisjointInOrder(hobs) && TotalLength(hobs) == memorySize
            && (forall x: nat :: x < memorySize && y == Relocated(x, memorySize) ==>
                                 TypeAt(hobs, y) == Some(Described(rs, x)))
            && (TypeAt(hobs, y).Some? ==> exists x: nat :: x < memorySize && y == Relocated(x, memorySize))
  {
    hide RangeHobs, Chain, Flag, TypeAt, TotalLength, DisjointInOrder;
    var n := |rs| - 1;
    var low, last := rs[..n], rs[n];
    var tail := LastHobs(last, memorySize).value;
    TypeAtConcat(RangeHobs(low), tail, y);
    LastType(last, memorySize, y);
    if memorySize > 0 {
      ChainSplitLast(rs, 0, memorySize, y);
      ChainHobs(low, 0, last.start, y);
      ChainHobsDisjoint(low, 0, last.start);
      LastDisjoint(RangeHobs(low), last, memorySize);
      LowRangesUnmoved(rs, memorySize, y);
      RelocatedBack(memorySize, y);
    } else {
      NoHobs(low, y);
      LastDisjoint([], last, memorySize);
    }
  }

  lemma LastDisjoint(low: seq<Resource>, last: Range, memorySize: nat)
    requires last.start <= last.end && LastHobs(last, memorySize).Ok? && DisjointInOrder(low)
    requires forall i :: 0 <= i < |low| ==> low[i].start + low[i].length <= last.start
    ensures DisjointInOrder(low + LastHobs(last, memorySize).value)
  {
  }

  lemma RelocatedBack(memorySize: nat, y: nat)
    ensures (exists x: nat :: x < memorySize && y == Relocated(x, memorySize)) <==>
            if memorySize < SPLIT_SIZE then y < memorySize
            else y < SPLIT_AT || U32_LIMIT <= y < memorySize + SPLIT_AT
  {
    if memorySize >= SPLIT_SIZE && U32_LIMIT <= y < memorySize + SPLIT_AT {
      assert y == Relocated(y - SPLIT_AT, memorySize);
    } else if y < memorySize && (memorySize < SPLIT_SIZE || y < SPLIT_AT) {
      assert y == Relocated(y, memorySize);
    }
  }

  lemma NoHobs(low: seq<Range>, y: nat)
    requires low == []
    ensures Proper(low) && RangeHobs(low) == [] && TypeAt([], y) == None && TotalLength([]) == 0
  {
  }

  lemma LowRangesUnmoved(rs: seq<Range>, memorySize: nat, y: nat)
    requires Chain(rs, 0, memorySize) && rs != []
    ensures forall x: nat :: x < memorySize && y == Relocated(x, memorySize) && x < SPLIT_AT ==> x == y
    ensures forall x: nat :: x < memorySize ==>
              Flag(rs, x) == if x < rs[|rs| - 1].start then Flag(rs[..|rs| - 1], x) else rs[|rs| - 1].accepted
  {
    forall x: nat | x < memorySize
      ensures Flag(rs, x) == if x < rs[|rs| - 1].start then Flag(rs[..|rs| - 1], x) else rs[|rs| - 1].accepted
    {
      ChainSplitLast(rs, 0, memorySize, x);
    }
  }

  lemma LastType(last: Range, memorySize: nat, y: nat)
    requires last.start <= last.end && LastHobs(last, memorySize).Ok?
    ensures var tail := LastHobs(last, memorySize).value;
            && TotalLength(tail) == last.end - last.start
            && TypeAt(tail, y) ==
               (if memorySize < SPLIT_SIZE
                then if last.start <= y < last.end then Some(UNACCEPTED) else None
                else if last.start <= y < SPLIT_AT || U32_LIMIT <= y < last.end + SPLIT_AT then Some(UNACCEPTED)
                else None)
  {
    var tail := LastHobs(last, memorySize).value;
    TypeAtOne(tail[0], y);
    if memorySize < SPLIT_SIZE {
      assert tail == [tail[0]];
    } else {
      TypeAtOne(tail[1], y);
      TypeAtConcat([tail[0]], [tail[1]], y);
      assert tail == [tail[0]] + [tail[1]];
    }
  }

  lemma TypeAtOne(r: Resource, y: nat)
    ensures TypeAt([r], y) == if r.start <= y < r.start + r.length then Some(r.kind) else None
    ensures TotalLength([r]) == r.length
  {
    assert [r][1..] == [];
  }

  /**
   * For disjoint in-range sections, every build that succeeds emits resource hobs that are disjoint
   * and together as long as memory; every byte of memory is described once, at its relocated
   * address, and nothing else is. The types say exactly what was accepted if and only if the top
   * byte of memory was left open: the code reports the last range unaccepted whatever it is.
   */
  lemma TdHobDescribesMemory(calls: seq<Call>, memorySize: nat)
    requires PairwiseDisjoint(calls) && Inside(calls, memorySize) && memorySize > 0
    requires RangesOf(calls, memorySize) != [] && Proper(RangesOf(calls, memorySize))
    requires Hobs(RangesOf(calls, memorySize), memorySize).Ok?
    ensures var hobs := Hobs(RangesOf(calls, memorySize), memorySize).value;
            && DisjointInOrder(hobs) && TotalLength(hobs) == memorySize
            && (forall x: nat :: x < memorySize ==> TypeAt(hobs, Relocated(x, memorySize)).Some?)
            && (forall y: nat :: TypeAt(hobs, y).Some? ==>
                                 exists x: nat :: x < memorySize && y == Relocated(x, memorySize))
            && (!Covered(calls, memorySize - 1) <==> TypesAreExact(hobs, calls, memorySize))
  {
    hide Hobs, Flag, AfterAll;
    var rs := RangesOf(calls, memorySize);
    RunTiles(calls, memorySize);
    var hobs := Hobs(rs, memorySize).value;
    HobsDescribeRanges(rs, memorySize, 0);
    forall y: nat
      ensures forall x: nat :: x < memorySize && y == Relocated(x, memorySize) ==>
                               TypeAt(hobs, y) == Some(Described(rs, x))
      ensures TypeAt(hobs, y).Some? ==> exists x: nat :: x < memorySize && y == Relocated(x, memorySize)
    {
      HobsDescribeRanges(rs, memorySize, y);
    }
    forall x: nat | x < memorySize
      ensures TypeAt(hobs, Relocated(x, memorySize)) == Some(Described(rs, x))
      ensures Flag(rs, x) == if x < rs[|rs| - 1].start then Flag(rs, x) else rs[|rs| - 1].accepted
    {
      ChainSplitLast(rs, 0, memorySize, x);
    }
    ChainSplitLast(rs, 0, memorySize, memorySize - 1);
    var top: nat := memorySize - 1;
    assert Described(rs, top) == UNACCEPTED;
    assert Flag(rs, top) <==> rs[|rs| - 1].accepted;
  }

  ghost predicate TypesAreExact(hobs: seq<Resource>, calls: seq<Call>, memorySize: nat) {
    forall x: nat :: x < memorySize ==>
      TypeAt(hobs, Relocated(x, memorySize)) == Some(if Covered(calls, x) then ACCEPTED else UNACCEPTED)
  }

  // ---------------------------------------------------------------------------------------------
  // Reading the list back
  // ---------------------------------------------------------------------------------------------

  /** A resource descriptor HOB: type 3, length 48, attributes 7. */
  function ReadResource(bs: Bytes): Option<Resource>
    requires |bs| == 48
  {
    if bs[..4] != [3, 0, 48, 0] || bs[28..32] != [7, 0, 0, 0] then None
    else Some(Resource(bs[24], FromLe(bs[32..40]), FromLe(bs[40..48])))
  }

  function ReadResources(bs: Bytes): Option<seq<Resource>> {
    if bs == [] then Some([])
    else if |bs| < 48 then None
    else
      match (ReadResources(bs[..|bs| - 48]), ReadResource(bs[|bs| - 48..]))
      case (Some(init), Some(last)) => Some(init + [last])
      case _ => None
  }

  lemma ResourceReads(r: Resource)
    requires r.kind < 256 && r.start < U64_LIMIT && r.length < U64_LIMIT
    ensures ReadResource(ResourceBytes(r)) == Some(r)
  {
    hide ToLe, FromLe, Pow256;
    PowValues();
    LeRoundTrip(r.start, 8);
    LeRoundTrip(r.length, 8);
    var bs := ResourceBytes(r);
    assert bs[32..40] == ToLe(r.start, 8) && bs[40..48] == ToLe(r.length, 8);
    assert bs[..4] == [3, 0, 48, 0] && bs[28..32] == [7, 0, 0, 0] && bs[24] == r.kind;
  }

  lemma ReadOneMore(front: Bytes, one: Bytes)
    requires |one| == 48
    ensures ReadResources(front + one) ==
            match (ReadResources(front), ReadResource(one))
            case (Some(init), Some(last)) => Some(init + [last])
            case _ => None
  {
    hide ReadResource;
    var bs := front + one;
    assert bs[..|bs| - 48] == front && bs[|bs| - 48..] == one;
  }

  lemma NothingRead()
    ensures ReadResources([]) == Some([])
  {
  }

  /** The firmware finds the descriptors that were listed, between the hand-off table and the end. */
  lemma {:induction false} ResourcesRead(hobs: seq<Resource>)
    requires Kinds(hobs)
    requires forall i :: 0 <= i < |hobs| ==> hobs[i].start < U64_LIMIT && hobs[i].length < U64_LIMIT
    ensures ReadResources(ResourceList(hobs)) == Some(hobs)
  {
    hide ResourceBytes, ReadResource, ReadResources, ResourceList;
    if hobs == [] {
      NoResources();
      NothingRead();
    } else {
      var init, last := hobs[..|hobs| - 1], hobs[|hobs| - 1];
      ResourcesRead(init);
      ResourceReads(last);
      ResourceListNext(init, last);
      ReadOneMore(ResourceList(init), ResourceBytes(last));
      assert hobs == init + [last];
    }
  }

  lemma ListReads(base: nat, hobs: seq<Resource>)
    requires Kinds(hobs) && base + 56 + 48 * |hobs| + 8 < U64_LIMIT
    requires forall i :: 0 <= i < |hobs| ==> hobs[i].start < U64_LIMIT && hobs[i].length < U64_LIMIT
    ensures var bs := ListBytes(base, hobs);
            && FromLe(bs[48..56]) == base + |bs| + 8
            && ReadResources(bs[56..]) == Some(hobs)
  {
    hide ToLe, FromLe, Pow256, Phit, ReadResources, ResourceList;
    PowValues();
    LeRoundTrip(base + 56 + 48 * |hobs| + 8, 8);
    ResourcesRead(hobs);
    assert ListBytes(base, hobs)[56..] == ResourceList(hobs);
  }

  /** A hob lies below the end of memory, or of the part moved behind 4 GiB. */
  lemma HobsAreAddressable(rs: seq<Range>, memorySize: nat)
    requires Tiles(rs, memorySize) && rs != [] && Proper(rs) && Hobs(rs, memorySize).Ok?
    requires memorySize < U64_LIMIT
    ensures forall hob :: hob in Hobs(rs, memorySize).value ==> hob.start < U64_LIMIT && hob.length < U64_LIMIT
  {
    hide RangeHobs, Chain, Flag;
    var n := |rs| - 1;
    var low, last := rs[..n], rs[n];
    if memorySize > 0 {
      ChainSplitLast(rs, 0, memorySize, 0);
      ChainHobsDisjoint(low, 0, last.start);
    } else {
      NoHobs(low, 0);
    }
    forall hob | hob in RangeHobs(low) + LastHobs(last, memorySize).value
      ensures hob.start < U64_LIMIT && hob.length < U64_LIMIT
    {
      if i :| 0 <= i < |RangeHobs(low)| && RangeHobs(low)[i] == hob {
        assert hob.start + hob.length <= last.start;
      }
    }
  }

  /**
   * From the sections to the firmware's reading of the list: for disjoint sections inside memory,
   * the list of every build that succeeds decodes to descriptors that describe each byte of memory
   * once, and its end field is the guest address past the list.
   */
  lemma SectionsAreDescribed(sections: seq<Tdvf.Section>, memorySize: nat) returns (hobs: seq<Resource>)
    requires TdHobBytes(sections, memorySize).Ok? && memorySize > 0
    requires PairwiseDisjoint(CallsOf(sections).value) && Inside(CallsOf(sections).value, memorySize)
    requires BaseOf(sections) + |TdHobBytes(sections, memorySize).value| + 8 < U64_LIMIT
    ensures var bs, calls := TdHobBytes(sections, memorySize).value, CallsOf(sections).value;
            && ReadResources(bs[56..]) == Some(hobs)
            && FromLe(bs[48..56]) == BaseOf(sections) + |bs| + 8
            && DisjointInOrder(hobs) && TotalLength(hobs) == memorySize
            && (forall x: nat :: x < memorySize ==> TypeAt(hobs, Relocated(x, memorySize)).Some?)
            && (forall y: nat :: TypeAt(hobs, y).Some? ==>
                                 exists x: nat :: x < memorySize && y == Relocated(x, memorySize))
            && (!Covered(calls, memorySize - 1) <==> TypesAreExact(hobs, calls, memorySize))
  {
    hide Hobs, AfterAll, TypeAt, TypesAreExact, ReadResources, Covered, CallsOf, BaseOf, FromLe, Tiles, Flag;
    var calls := CallsOf(sections).value;
    var rs := RangesOf(calls, memorySize);
    RangesAreProper(calls, memorySize);
    hobs := Hobs(rs, memorySize).value;
    HobKinds(rs, memorySize);
    RunTiles(calls, memorySize);
    HobsAreAddressable(rs, memorySize);
    ListReads(BaseOf(sections), hobs);
    TdHobDescribesMemory(calls, memorySize);
  }

  lemma TopCall(s: Tdvf.Section)
    requires s.secType == TEMP_MEM && s.address == 0x1000 && s.size == 0x1000
    ensures CallsOf([s]) == Some([Call(0x1000, 0x2000)]) && BaseOf([s]) == DEFAULT_BASE
  {
    assert [s][..0] == [] && CallsOf([]) == Some([]) && BaseOf([]) == DEFAULT_BASE;
    assert [] + [Call(0x1000, 0x2000)] == [Call(0x1000, 0x2000)];
  }

  lemma TopRanges()
    ensures RangesOf([Call(0x1000, 0x2000)], 0x2000) == [Range(false, 0, 0x1000), Range(true, 0x1000, 0x2000)]
  {
    var all, low, high := Range(false, 0, 0x2000), Range(false, 0, 0x1000), Range(true, 0x1000, 0x2000);
    var c := Call(0x1000, 0x2000);
    assert [all][1..] == [] && Remnants([], 0x1000, 0x2000) == [];
    assert [low] + [] == [low] && Remnant(all, 0x1000, 0x2000) == [low];
    assert Remnants([all], 0x1000, 0x2000) == [low] && [low] + [high] == [low, high];
    assert [low, high][1..] == [high] && [high][1..] == [];
    assert Sorting.SortBy(RangeStart, [high]) == [high];
    assert Sorting.SortBy(RangeStart, [low, high]) == [low, high];
    assert [c][..0] == [] && AfterAll([all], []) == [all];
    assert AfterAll([all], [c]) == AfterAccept([all], c);
  }

  /** The misreport occurs: one temporary-memory section at the top of 0x2000 bytes of memory. */
  lemma AcceptedTopIsReportedOpen(s: Tdvf.Section)
    requires s.secType == TEMP_MEM && s.address == 0x1000 && s.size == 0x1000
    ensures CallsOf([s]) == Some([Call(0x1000, 0x2000)]) && Covered([Call(0x1000, 0x2000)], 0x1FFF)
    ensures TdHobBytes([s], 0x2000) ==
            Ok(ListBytes(DEFAULT_BASE, [Resource(UNACCEPTED, 0, 0x1000), Resource(UNACCEPTED, 0x1000, 0x1000)]))
  {
    hide ListBytes, CallsOf, BaseOf, RangesOf;
    TopCall(s);
    TopRanges();
    var c, low, high := Call(0x1000, 0x2000), Range(false, 0, 0x1000), Range(true, 0x1000, 0x2000);
    assert [c][0].start <= 0x1FFF < [c][0].end;
    assert [low, high][..1] == [low] && [low][1..] == [] && RangeHobs([low]) == [RangeHob(low)];
    var hobs := [Resource(UNACCEPTED, 0, 0x1000), Resource(UNACCEPTED, 0x1000, 0x1000)];
    assert [RangeHob(low)] + [Resource(UNACCEPTED, 0x1000, 0x1000)] == hobs;
    assert Hobs([low, high], 0x2000) == Ok(hobs);
  }
}
