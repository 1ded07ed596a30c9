/** The SNP launch digest (crates/igvm-tools/src/measure.rs): the batched loop and what it measures. */
module Measure {
  import opened ByteLayout
  import opened Hashing
  import opened Wrappers
  import opened Directives

  const TYPE_NORMAL: byte := 0x01
  const TYPE_VMSA: byte := 0x02
  const TYPE_UNMEASURED: byte := 0x04
  const TYPE_SECRETS: byte := 0x05
  const TYPE_CPUID: byte := 0x06
  const VMSA_GPA: nat := 0xFFFF_FFFF_F000

  datatype Error = NoSnpPlatform | UnknownArea
  datatype MeasureResult = MeasureResult(digest: Digest, pageCount: nat, vmsaCount: nat)

  /** One measured page, as PAGE_INFO sees it. */
  datatype Page = Page(gpa: nat, pageType: byte, contents: Digest)

  /** The 0x70-byte PAGE_INFO structure. */
  function PageInfo(digest: Digest, p: Page): (bs: Bytes)
    ensures |bs| == 0x70
  {
    digest + p.contents + [0x70, 0] + [p.pageType] + Zeros(5) + ToLe(p.gpa, 8)
  }

  function UpdatePageInfo(h: Hash, digest: Digest, p: Page): Digest {
    h(PageInfo(digest, p))
  }

  function MeasurePages(h: Hash, digest: Digest, pages: seq<Page>): Digest {
    if pages == [] then digest
    else UpdatePageInfo(h, MeasurePages(h, digest, pages[..|pages| - 1]), pages[|pages| - 1])
  }

  /** Page type and whether the page counts as carrying data; secrets and CPUID never do. */
  function Classify(d: Directive): (byte, bool)
    requires d.PageData?
  {
    match d.kind
    case Secrets => (TYPE_SECRETS, false)
    case CpuidData => (TYPE_CPUID, false)
    case CpuidXf => (TYPE_CPUID, false)
    case Normal => if d.unmeasured then (TYPE_UNMEASURED, false) else (TYPE_NORMAL, d.data != [])
  }

  /** Page data cut or zero-padded to one page. */
  function Padded(data: Bytes): (bs: Bytes)
    ensures |bs| == PAGE
  {
    if |data| >= PAGE then data[..PAGE] else data + Zeros(PAGE - |data|)
  }

  function PageOf(h: Hash, d: Directive): Page
    requires d.PageData?
  {
    var pageType := Classify(d).0;
    Page(d.gpa, pageType, if pageType == TYPE_NORMAL then h(Padded(d.data)) else ZERO_DIGEST)
  }

  function AreaSizes(ds: seq<Directive>): map<nat, nat> {
    if ds == [] then map[]
    else
      var last := ds[|ds| - 1];
      var areas := AreaSizes(ds[..|ds| - 1]);
      if last.ParameterArea? then areas[last.index := last.size] else areas
  }

  // ---------------------------------------------------------------------------------------------
  // The order in which pages are measured, apart from any hashing
  // ---------------------------------------------------------------------------------------------

  /** Page `page` of directive `directive`. */
  datatype Slot = Slot(directive: nat, page: nat)
  datatype Previous = Previous(gpa: nat, pageType: byte, hasData: bool, directive: nat)
  datatype Batch = Batch(done: seq<Slot>, pending: seq<Slot>, previous: Option<Previous>)

  function Slots(directive: nat, n: nat): (s: seq<Slot>)
    ensures |s| == n && forall i :: 0 <= i < n ==> s[i] == Slot(directive, i)
  {
    seq(n, i requires 0 <= i < n => Slot(directive, i))
  }

  /** Pages a compatible directive contributes: one per PageData, the rounded-up area per insert. */
  function PageTotal(d: Directive, areas: map<nat, nat>, compat: bv32): nat {
    if IsPage(d, compat) then 1
    else if IsInsert(d, compat) && d.index in areas then DivCeil(areas[d.index], PAGE)
    else 0
  }

  predicate BreaksBatch(previous: Option<Previous>, d: Directive, i: nat)
    requires d.PageData?
  {
    previous.Some?
    && var p := previous.value;
       || Classify(d).0 != p.pageType
       || Classify(d).1 != p.hasData
       || d.gpa != (p.gpa + PAGE) % U64_LIMIT
       || i != p.directive + 1
  }

  function BatchStep(b: Batch, d: Directive, i: nat, areas: map<nat, nat>, compat: bv32): Batch {
    if IsPage(d, compat) then
      var flushed := if BreaksBatch(b.previous, d, i) then Batch(b.done + b.pending, [], b.previous) else b;
      Batch(flushed.done, flushed.pending + [Slot(i, 0)],
            Some(Previous(d.gpa, Classify(d).0, Classify(d).1, i)))
    else b.(done := b.done + Slots(i, PageTotal(d, areas, compat)))
  }

  function BatchRun(ds: seq<Directive>, areas: map<nat, nat>, compat: bv32): Batch {
    if ds == [] then Batch([], [], None)
    else BatchStep(BatchRun(ds[..|ds| - 1], areas, compat), ds[|ds| - 1], |ds| - 1, areas, compat)
  }

  /** The order of the batched loop: inserted parameter pages overtake the pending batch. */
  function BatchedOrder(ds: seq<Directive>, areas: map<nat, nat>, compat: bv32): seq<Slot> {
    var b := BatchRun(ds, areas, compat);
    b.done + b.pending
  }

  /** The order of a loop without batches. */
  function PlainOrder(ds: seq<Directive>, areas: map<nat, nat>, compat: bv32): seq<Slot> {
    if ds == [] then []
    else
      PlainOrder(ds[..|ds| - 1], areas, compat) + Slots(|ds| - 1, PageTotal(ds[|ds| - 1], areas, compat))
  }

  function SlotPage(h: Hash, ds: seq<Directive>, s: Slot): Page
    requires s.directive < |ds|
  {
    var d := ds[s.directive];
    if d.PageData? then PageOf(h, d)
    else if d.ParameterInsert? then Page(d.gpa + s.page * PAGE, TYPE_UNMEASURED, ZERO_DIGEST)
    else Page(0, 0, ZERO_DIGEST)
  }

  ghost predicate Within(order: seq<Slot>, n: nat) {
    forall i :: 0 <= i < |order| ==> order[i].directive < n
  }

  function SlotPages(h: Hash, ds: seq<Directive>, order: seq<Slot>): (pages: seq<Page>)
    requires Within(order, |ds|)
    ensures |pages| == |order|
    ensures forall i :: 0 <= i < |order| ==> pages[i] == SlotPage(h, ds, order[i])
  {
    seq(|order|, i requires 0 <= i < |order| => SlotPage(h, ds, order[i]))
  }

  lemma {:induction false} RunIsWithin(ds: seq<Directive>, areas: map<nat, nat>, compat: bv32)
    ensures var b := BatchRun(ds, areas, compat);
            Within(b.done, |ds|) && Within(b.pending, |ds|)
  {
    hide PageTotal, BreaksBatch, IsPage;
    if ds != [] {
      RunIsWithin(ds[..|ds| - 1], areas, compat);
    }
  }

  function Vmsas(ds: seq<Directive>, compat: bv32): seq<Bytes> {
    if ds == [] then []
    else
      var last := ds[|ds| - 1];
      Vmsas(ds[..|ds| - 1], compat)
      + if last.SnpVpContext? && Compatible(last.mask, compat) then [last.vmsa] else []
  }

  function VmsaPages(h: Hash, vmsas: seq<Bytes>): (pages: seq<Page>)
    ensures |pages| == |vmsas|
    ensures forall i :: 0 <= i < |vmsas| ==> pages[i] == Page(VMSA_GPA, TYPE_VMSA, h(vmsas[i]))
  {
    seq(|vmsas|, i requires 0 <= i < |vmsas| => Page(VMSA_GPA, TYPE_VMSA, h(vmsas[i])))
  }

  /** Every compatible insert names an area some directive declares. */
  predicate AreasKnown(ds: seq<Directive>, areas: map<nat, nat>, compat: bv32) {
    forall i :: 0 <= i < |ds| && IsInsert(ds[i], compat) ==> ds[i].index in areas
  }

  function FindCompat(platforms: seq<Platform>): Option<bv32> {
    if platforms == [] then None
    else if platforms[0].isSnp then Some(platforms[0].mask)
    else FindCompat(platforms[1..])
  }

  /** All pages of a launch, in the order the batched loop measures them. */
  function LaunchPages(h: Hash, ds: seq<Directive>, compat: bv32): seq<Page> {
    var areas := AreaSizes(ds);
    RunIsWithin(ds, areas, compat);
    SlotPages(h, ds, BatchedOrder(ds, areas, compat)) + VmsaPages(h, Vmsas(ds, compat))
  }

  function Launch(h: Hash, igvm: IgvmFile): Result<MeasureResult, Error> {
    match FindCompat(igvm.platforms)
    case None => Err(NoSnpPlatform)
    case Some(compat) =>
      if !AreasKnown(igvm.directives, AreaSizes(igvm.directives), compat) then Err(UnknownArea)
      else
        var pages := LaunchPages(h, igvm.directives, compat);
        Ok(MeasureResult(MeasurePages(h, ZERO_DIGEST, pages), |pages|,
                         |Vmsas(igvm.directives, compat)| % U32_LIMIT))
  }

  // ---------------------------------------------------------------------------------------------
  // The computation
  // ---------------------------------------------------------------------------------------------

  lemma MeasureSnoc(h: Hash, digest: Digest, pages: seq<Page>, p: Page)
    ensures MeasurePages(h, digest, pages + [p]) == UpdatePageInfo(h, MeasurePages(h, digest, pages), p)
  {
    assert (pages + [p])[..|pages|] == pages;
  }

  method CollectParamAreas(ds: seq<Directive>) returns (areas: map<nat, nat>)
    ensures areas == AreaSizes(ds)
  {
    areas := map[];
    for i := 0 to |ds|
      invariant areas == AreaSizes(ds[..i])
    {
      assert ds[..i + 1][..i] == ds[..i];
      if ds[i].ParameterArea? {
        areas := areas[ds[i].index := ds[i].size];
      }
    }
    assert ds[..|ds|] == ds;
  }

  /** `flush_batch`, and `measure_vmsa_pages` once the VMSA hashes are known. */
  method MeasureEach(h: Hash, digest: Digest, pages: seq<Page>, ghost before: seq<Page>) returns (out: Digest)
    requires digest == MeasurePages(h, ZERO_DIGEST, before)
    ensures out == MeasurePages(h, ZERO_DIGEST, before + pages)
  {
    hide UpdatePageInfo, MeasurePages;
    out := digest;
    assert before + [] == before;
    for i := 0 to |pages|
      invariant out == MeasurePages(h, ZERO_DIGEST, before + pages[..i])
    {
      assert before + pages[..i + 1] == before + pages[..i] + [pages[i]];
      MeasureSnoc(h, ZERO_DIGEST, before + pages[..i], pages[i]);
      out := UpdatePageInfo(h, out, pages[i]);
    }
    assert pages[..|pages|] == pages;
  }

  lemma SlotPagesConcat(h: Hash, ds: seq<Directive>, a: seq<Slot>, b: seq<Slot>)
    requires Within(a, |ds|) && Within(b, |ds|)
    ensures Within(a + b, |ds|)
    ensures SlotPages(h, ds, a + b) == SlotPages(h, ds, a) + SlotPages(h, ds, b)
  {
  }

  /** The pages a parameter insert measures at once, without flushing the batch. */
  method InsertPages(h: Hash, ds: seq<Directive>, i: nat, areas: map<nat, nat>, compat: bv32)
    returns (pages: seq<Page>)
    requires i < |ds| && IsInsert(ds[i], compat) && ds[i].index in areas
    ensures pages == SlotPages(h, ds, Slots(i, PageTotal(ds[i], areas, compat)))
  {
    hide Classify;
    var n := DivCeil(areas[ds[i].index], PAGE);
    pages := [];
    for pg := 0 to n
      invariant |pages| == pg
      invariant forall k :: 0 <= k < pg ==> pages[k] == SlotPage(h, ds, Slot(i, k))
    {
      pages := pages + [Page(ds[i].gpa + pg * PAGE, TYPE_UNMEASURED, ZERO_DIGEST)];
    }
  }

  /** State of the loop in `measure_snp` after `n` directives. */
  ghost predicate LoopState(h: Hash, ds: seq<Directive>, n: nat, areas: map<nat, nat>, compat: bv32,
                            ld: Digest, count: nat, batch: seq<Page>, previous: Option<Previous>, vmsas: seq<Bytes>)
  {
    && n <= |ds|
    && var b := BatchRun(ds[..n], areas, compat);
       && Within(b.done, |ds|) && Within(b.pending, |ds|)
       && ld == MeasurePages(h, ZERO_DIGEST, SlotPages(h, ds, b.done)) && count == |b.done|
       && batch == SlotPages(h, ds, b.pending) && previous == b.previous
       && vmsas == Vmsas(ds[..n], compat)
  }

  /** One PageData directive of the loop. */
  method LoopPage(h: Hash, ds: seq<Directive>, i: nat, ghost areas: map<nat, nat>, compat: bv32,
                  ld: Digest, count: nat, batch: seq<Page>, previous: Option<Previous>, ghost vmsas: seq<Bytes>)
    returns (ld': Digest, count': nat, batch': seq<Page>, previous': Option<Previous>)
    requires i < |ds| && IsPage(ds[i], compat)
    requires LoopState(h, ds, i, areas, compat, ld, count, batch, previous, vmsas)
    ensures LoopState(h, ds, i + 1, areas, compat, ld', count', batch', previous', vmsas)
  {
    hide PageOf, Classify, MeasurePages, Compatible, BreaksBatch;
    ghost var b := BatchRun(ds[..i], areas, compat);
    assert ds[..i + 1][..i] == ds[..i];
    var d := ds[i];
    ld', count', batch' := ld, count, batch;
    SlotPagesConcat(h, ds, b.done, b.pending);
    if BreaksBatch(previous, d, i) && batch != [] {
      ld' := MeasureEach(h, ld, batch, SlotPages(h, ds, b.done));
      count' := count + |batch|;
      batch' := [];
    }
    ghost var pending := if BreaksBatch(previous, d, i) then [] else b.pending;
    assert batch' == SlotPages(h, ds, pending);
    assert b.done + [] == b.done;
    assert SlotPages(h, ds, [Slot(i, 0)]) == [PageOf(h, d)];
    SlotPagesConcat(h, ds, pending, [Slot(i, 0)]);
    batch' := batch' + [PageOf(h, d)];
    previous' := Some(Previous(d.gpa, Classify(d).0, Classify(d).1, i));
    assert Vmsas(ds[..i], compat) + [] == Vmsas(ds[..i], compat);
  }

  /** One compatible insert of the loop, whose area is known. */
  method LoopInsert(h: Hash, ds: seq<Directive>, i: nat, areas: map<nat, nat>, compat: bv32,
                    ld: Digest, count: nat, ghost batch: seq<Page>, ghost previous: Option<Previous>,
                    ghost vmsas: seq<Bytes>)
    returns (ld': Digest, count': nat)
    requires i < |ds| && IsInsert(ds[i], compat) && ds[i].index in areas
    requires LoopState(h, ds, i, areas, compat, ld, count, batch, previous, vmsas)
    ensures LoopState(h, ds, i + 1, areas, compat, ld', count', batch, previous, vmsas)
  {
    hide SlotPage, MeasurePages, Compatible, BreaksBatch, PageTotal;
    ghost var b := BatchRun(ds[..i], areas, compat);
    assert ds[..i + 1][..i] == ds[..i];
    var pages := InsertPages(h, ds, i, areas, compat);
    SlotPagesConcat(h, ds, b.done, Slots(i, PageTotal(ds[i], areas, compat)));
    ld' := MeasureEach(h, ld, pages, SlotPages(h, ds, b.done));
    count' := count + |pages|;
    assert Vmsas(ds[..i], compat) + [] == Vmsas(ds[..i], compat);
  }

  lemma SkippedDirective(h: Hash, ds: seq<Directive>, i: nat, areas: map<nat, nat>, compat: bv32, ld: Digest,
                         count: nat, batch: seq<Page>, previous: Option<Previous>, vmsas: seq<Bytes>)
    requires i < |ds| && !IsPage(ds[i], compat) && !IsInsert(ds[i], compat)
    requires LoopState(h, ds, i, areas, compat, ld, count, batch, previous, vmsas)
    ensures LoopState(h, ds, i + 1, areas, compat, ld, count, batch, previous,
                      vmsas + if ds[i].SnpVpContext? && Compatible(ds[i].mask, compat) then [ds[i].vmsa] else [])
  {
    hide SlotPage, MeasurePages, Compatible, BreaksBatch;
    var b := BatchRun(ds[..i], areas, compat);
    assert ds[..i + 1][..i] == ds[..i];
    assert b.done + Slots(i, 0) == b.done;
  }

  method MeasureSnp(h: Hash, igvm: IgvmFile) returns (r: Result<MeasureResult, Error>)
    ensures r == Launch(h, igvm)
  {
    hide BatchRun, Vmsas, MeasurePages, SlotPage, AreaSizes, FindCompat, Compatible;
    var found := FindCompat(igvm.platforms);
    if found.None? {
      return Err(NoSnpPlatform);
    }
    var compat := found.value;
    var ds := igvm.directives;
    var areas := CollectParamAreas(ds);
    var count: nat := 0;
    var ld, batch, previous, vmsas := ZERO_DIGEST, [], None, [];
    StartState(h, ds, areas, compat);
    for i := 0 to |ds|
      invariant LoopState(h, ds, i, areas, compat, ld, count, batch, previous, vmsas)
      invariant forall k :: 0 <= k < i && IsInsert(ds[k], compat) ==> ds[k].index in areas
    {
      if IsPage(ds[i], compat) {
        ld, count, batch, previous := LoopPage(h, ds, i, areas, compat, ld, count, batch, previous, vmsas);
      } else if IsInsert(ds[i], compat) {
        if ds[i].index !in areas {
          return Err(UnknownArea);
        }
        ld, count := LoopInsert(h, ds, i, areas, compat, ld, count, batch, previous, vmsas);
      } else {
        SkippedDirective(h, ds, i, areas, compat, ld, count, batch, previous, vmsas);
        assert vmsas + [] == vmsas;
        if ds[i].SnpVpContext? && Compatible(ds[i].mask, compat) {
          vmsas := vmsas + [ds[i].vmsa];
        }
      }
    }
    assert ds[..|ds|] == ds;
    ghost var b := BatchRun(ds, areas, compat);
    SlotPagesConcat(h, ds, b.done, b.pending);
    ld := MeasureEach(h, ld, batch, SlotPages(h, ds, b.done));
    count := count + |batch|;
    ld := MeasureEach(h, ld, VmsaPages(h, vmsas), SlotPages(h, ds, b.done + b.pending));
    count := count + |vmsas|;
    return Ok(MeasureResult(ld, count, |vmsas| % U32_LIMIT));
  }

  lemma StartState(h: Hash, ds: seq<Directive>, areas: map<nat, nat>, compat: bv32)
    ensures LoopState(h, ds, 0, areas, compat, ZERO_DIGEST, 0, [], None, [])
  {
  }

  // ---------------------------------------------------------------------------------------------
  // Every page once
  // ---------------------------------------------------------------------------------------------

  /** One more directive appends its page, or slips its parameter pages in before the batch. */
  lemma OrderStep(ds: seq<Directive>, areas: map<nat, nat>, compat: bv32)
    requires ds != []
    ensures var b := BatchRun(ds[..|ds| - 1], areas, compat);
            var i, d := |ds| - 1, ds[|ds| - 1];
            BatchedOrder(ds, areas, compat) ==
            if IsPage(d, compat) then b.done + b.pending + [Slot(i, 0)]
            else b.done + Slots(i, PageTotal(d, areas, compat)) + b.pending
  {
    hide PageTotal, BreaksBatch, Classify, Compatible;
    var b := BatchRun(ds[..|ds| - 1], areas, compat);
    Assoc(b.done, b.pending, [Slot(|ds| - 1, 0)]);
    assert b.done + b.pending + [] + [Slot(|ds| - 1, 0)] == b.done + b.pending + [Slot(|ds| - 1, 0)];
  }

  /**
   * Batching loses and repeats nothing: for every directive list the batched loop measures the
   * same pages as a plain loop, each as often, though perhaps in another order.
   */
  lemma {:induction false} SamePages(ds: seq<Directive>, areas: map<nat, nat>, compat: bv32)
    ensures multiset(BatchedOrder(ds, areas, compat)) == multiset(PlainOrder(ds, areas, compat))
  {
    hide PageTotal, IsPage, BatchRun, Slots;
    if ds == [] {
      NothingToOrder(areas, compat);
    } else {
      var d, i := ds[|ds| - 1], |ds| - 1;
      SamePages(ds[..i], areas, compat);
      OrderStep(ds, areas, compat);
      if IsPage(d, compat) {
        OnePage(d, i, areas, compat);
      }
    }
  }

  lemma OnePage(d: Directive, i: nat, areas: map<nat, nat>, compat: bv32)
    requires IsPage(d, compat)
    ensures Slots(i, PageTotal(d, areas, compat)) == [Slot(i, 0)]
  {
  }

  /** Slots in a plain order are distinct: each compatible page is listed exactly once. */
  lemma {:induction false} PlainIsStrict(ds: seq<Directive>, areas: map<nat, nat>, compat: bv32)
    ensures var order := PlainOrder(ds, areas, compat);
            && Within(order, |ds|)
            && (forall i, j :: 0 <= i < j < |order| ==> order[i] != order[j])
            && (forall s :: s in order <==> s.directive < |ds| && s.page < PageTotal(ds[s.directive], areas, compat))
  {
    hide PageTotal;
    if ds != [] {
      var init := ds[..|ds| - 1];
      PlainIsStrict(init, areas, compat);
      var order := PlainOrder(ds, areas, compat);
      var front, back := PlainOrder(init, areas, compat), Slots(|ds| - 1, PageTotal(ds[|ds| - 1], areas, compat));
      assert order == front + back;
      forall s
        ensures s in order <==> s.directive < |ds| && s.page < PageTotal(ds[s.directive], areas, compat)
      {
        if s.directive == |ds| - 1 && s.page < |back| {
          assert back[s.page] == s;
        }
        if s.directive < |ds| - 1 {
          assert ds[s.directive] == init[s.directive];
        }
      }
    }
  }

  function PageSum(ds: seq<Directive>, areas: map<nat, nat>, compat: bv32): nat {
    if ds == [] then 0
    else PageSum(ds[..|ds| - 1], areas, compat) + PageTotal(ds[|ds| - 1], areas, compat)
  }

  lemma {:induction false} PlainLength(ds: seq<Directive>, areas: map<nat, nat>, compat: bv32)
    ensures |PlainOrder(ds, areas, compat)| == PageSum(ds, areas, compat)
  {
    hide PageTotal;
    if ds != [] {
      PlainLength(ds[..|ds| - 1], areas, compat);
    }
  }

  /** The reported count: compatible PageData, rounded-up parameter pages, and VMSAs. */
  lemma CountIsPages(h: Hash, igvm: IgvmFile)
    requires Launch(h, igvm).Ok?
    ensures var ds, compat := igvm.directives, FindCompat(igvm.platforms).value;
            Launch(h, igvm).value.pageCount == PageSum(ds, AreaSizes(ds), compat) + |Vmsas(ds, compat)|
  {
    hide BatchRun, PlainOrder, SlotPage, MeasurePages, PageTotal, FindCompat, AreaSizes;
    var ds, compat := igvm.directives, FindCompat(igvm.platforms).value;
    SamePages(ds, AreaSizes(ds), compat);
    PlainLength(ds, AreaSizes(ds), compat);
    RunIsWithin(ds, AreaSizes(ds), compat);
    SameLength(BatchedOrder(ds, AreaSizes(ds), compat), PlainOrder(ds, AreaSizes(ds), compat));
  }

  lemma SameLength<T>(a: seq<T>, b: seq<T>)
    requires multiset(a) == multiset(b)
    ensures |a| == |b|
  {
    assert |multiset(a)| == |a| && |multiset(b)| == |b|;
  }

  // ---------------------------------------------------------------------------------------------
  // When batching is invisible
  // ---------------------------------------------------------------------------------------------

  /** A compatible insert that contributes pages comes after a compatible PageData. */
  ghost predicate Overtakes(ds: seq<Directive>, areas: map<nat, nat>, compat: bv32) {
    exists i, j :: 0 <= i < j < |ds| && IsPage(ds[i], compat) && OvertakingInsert(ds[j], areas, compat)
  }

  predicate OvertakingInsert(d: Directive, areas: map<nat, nat>, compat: bv32) {
    !IsPage(d, compat) && PageTotal(d, areas, compat) > 0
  }

  lemma {:induction false} PendingAfterPage(ds: seq<Directive>, areas: map<nat, nat>, compat: bv32)
    ensures var b := BatchRun(ds, areas, compat);
            b.pending == [] <==> forall i :: 0 <= i < |ds| ==> !IsPage(ds[i], compat)
  {
    hide PageTotal, BreaksBatch, Classify, Compatible;
    if ds != [] {
      PendingAfterPage(ds[..|ds| - 1], areas, compat);
      var init := ds[..|ds| - 1];
      assert forall i :: 0 <= i < |init| ==> init[i] == ds[i];
    }
  }

  lemma OvertakesSnoc(ds: seq<Directive>, areas: map<nat, nat>, compat: bv32)
    requires ds != []
    ensures var init, d := ds[..|ds| - 1], ds[|ds| - 1];
            Overtakes(ds, areas, compat) <==>
            || Overtakes(init, areas, compat)
            || (OvertakingInsert(d, areas, compat) && exists i :: 0 <= i < |init| && IsPage(init[i], compat))
  {
    hide PageTotal, Compatible, IsPage, OvertakingInsert;
    var init, d := ds[..|ds| - 1], ds[|ds| - 1];
    if Overtakes(init, areas, compat) {
      var i, j :| 0 <= i < j < |init| && IsPage(init[i], compat) && OvertakingInsert(init[j], areas, compat);
      assert IsPage(ds[i], compat) && OvertakingInsert(ds[j], areas, compat);
    }
    if OvertakingInsert(d, areas, compat) && exists i :: 0 <= i < |init| && IsPage(init[i], compat) {
      var i :| 0 <= i < |init| && IsPage(init[i], compat);
      assert IsPage(ds[i], compat) && OvertakingInsert(ds[|ds| - 1], areas, compat);
    }
    if Overtakes(ds, areas, compat) {
      var i, j :| 0 <= i < j < |ds| && IsPage(ds[i], compat) && OvertakingInsert(ds[j], areas, compat);
      assert IsPage(init[i], compat);
      if j < |init| {
        assert OvertakingInsert(init[j], areas, compat);
      }
    }
  }

  /** Parameter pages sit before a pending page of an earlier directive. */
  ghost predicate Inverted(order: seq<Slot>) {
    exists a, b :: 0 <= a < b < |order| && order[a].directive > order[b].directive
  }

  lemma InvertedStays(order: seq<Slot>, more: seq<Slot>, tail: seq<Slot>)
    requires Inverted(order + tail)
    ensures Inverted(order + more + tail)
  {
    var all, wide := order + tail, order + more + tail;
    var a, b :| 0 <= a < b < |all| && all[a].directive > all[b].directive;
    var a' := if a < |order| then a else a + |more|;
    var b' := if b < |order| then b else b + |more|;
    assert wide[a'] == all[a] && wide[b'] == all[b];
  }

  lemma InvertedExtends(order: seq<Slot>, tail: seq<Slot>)
    requires Inverted(order)
    ensures Inverted(order + tail)
  {
    assert order + tail + [] == order + tail;
    var a, b :| 0 <= a < b < |order| && order[a].directive > order[b].directive;
    assert (order + tail)[a] == order[a] && (order + tail)[b] == order[b];
  }

  lemma {:induction false} OrderOrInverted(ds: seq<Directive>, areas: map<nat, nat>, compat: bv32)
    ensures !Overtakes(ds, areas, compat) ==> BatchedOrder(ds, areas, compat) == PlainOrder(ds, areas, compat)
    ensures Overtakes(ds, areas, compat) ==> Inverted(BatchedOrder(ds, areas, compat))
  {
    hide PageTotal, IsPage, BatchRun, Overtakes, Inverted, Within;
    if ds == [] {
      NothingToOrder(areas, compat);
    } else {
      var init, d, i := ds[..|ds| - 1], ds[|ds| - 1], |ds| - 1;
      OrderOrInverted(init, areas, compat);
      OvertakesSnoc(ds, areas, compat);
      PendingAfterPage(init, areas, compat);
      RunIsWithin(init, areas, compat);
      OrderStep(ds, areas, compat);
      var b := BatchRun(init, areas, compat);
      if IsPage(d, compat) {
        OnePage(d, i, areas, compat);
        if Overtakes(init, areas, compat) {
          InvertedExtends(b.done + b.pending, [Slot(i, 0)]);
        }
      } else {
        InsertedOrder(b.done, b.pending, i, PageTotal(d, areas, compat));
        if Overtakes(init, areas, compat) {
          InvertedStays(b.done, Slots(i, PageTotal(d, areas, compat)), b.pending);
        }
      }
    }
  }

  lemma NothingToOrder(areas: map<nat, nat>, compat: bv32)
    ensures BatchedOrder([], areas, compat) == PlainOrder([], areas, compat) && !Overtakes([], areas, compat)
  {
  }

  lemma InsertedOrder(done: seq<Slot>, pending: seq<Slot>, i: nat, n: nat)
    requires Within(pending, i)
    ensures n == 0 ==> done + Slots(i, n) + pending == done + pending + Slots(i, n)
    ensures pending == [] ==> done + Slots(i, n) + pending == done + pending + Slots(i, n)
    ensures n > 0 && pending != [] ==> Inverted(done + Slots(i, n) + pending)
  {
    var all := done + Slots(i, n) + pending;
    if n > 0 && pending != [] {
      assert all[|done|] == Slot(i, 0) && all[|done| + n] == pending[0];
    }
  }

  lemma {:induction false} PlainIsNotInverted(ds: seq<Directive>, areas: map<nat, nat>, compat: bv32)
    ensures !Inverted(PlainOrder(ds, areas, compat))
  {
    hide PageTotal;
    if ds != [] {
      PlainIsNotInverted(ds[..|ds| - 1], areas, compat);
      PlainIsStrict(ds[..|ds| - 1], areas, compat);
      var front := PlainOrder(ds[..|ds| - 1], areas, compat);
      var order := PlainOrder(ds, areas, compat);
      forall a, b | 0 <= a < b < |order|
        ensures order[a].directive <= order[b].directive
      {
        if b < |front| {
          assert order[a] == front[a] && order[b] == front[b];
        }
      }
    }
  }

  /**
   * Batch breaks are invisible exactly when no compatible insert that contributes pages follows a
   * compatible PageData: then, and only then, pages are measured in directive order.
   */
  lemma BatchingIsInvisible(ds: seq<Directive>, areas: map<nat, nat>, compat: bv32)
    ensures BatchedOrder(ds, areas, compat) == PlainOrder(ds, areas, compat) <==> !Overtakes(ds, areas, compat)
  {
    hide BatchedOrder, PlainOrder, Overtakes;
    OrderOrInverted(ds, areas, compat);
    PlainIsNotInverted(ds, areas, compat);
  }

  /** The digest of a plain in-order fold followed by the VMSAs. */
  function PlainDigest(h: Hash, ds: seq<Directive>, compat: bv32): Digest {
    PlainIsStrict(ds, AreaSizes(ds), compat);
    MeasurePages(h, ZERO_DIGEST,
                 SlotPages(h, ds, PlainOrder(ds, AreaSizes(ds), compat)) + VmsaPages(h, Vmsas(ds, compat)))
  }

  lemma {:induction false} PlainLaunch(h: Hash, igvm: IgvmFile)
    requires Launch(h, igvm).Ok?
    requires !Overtakes(igvm.directives, AreaSizes(igvm.directives), FindCompat(igvm.platforms).value)
    ensures Launch(h, igvm).value.digest == PlainDigest(h, igvm.directives, FindCompat(igvm.platforms).value)
  {
    hide BatchedOrder, PlainOrder, Overtakes, MeasurePages, SlotPage, FindCompat, AreaSizes;
    var ds, compat := igvm.directives, FindCompat(igvm.platforms).value;
    BatchingIsInvisible(ds, AreaSizes(ds), compat);
    PlainIsStrict(ds, AreaSizes(ds), compat);
    RunIsWithin(ds, AreaSizes(ds), compat);
  }

  lemma RunStep(ds: seq<Directive>, n: nat, areas: map<nat, nat>, compat: bv32)
    requires 0 < n <= |ds|
    ensures BatchRun(ds[..n], areas, compat) ==
            BatchStep(BatchRun(ds[..n - 1], areas, compat), ds[n - 1], n - 1, areas, compat)
  {
    assert ds[..n][..n - 1] == ds[..n - 1];
  }

  /** A page, the area of an insert, and the insert. */
  function PageThenInsert(gpa: nat, insertGpa: nat, mask: bv32): seq<Directive> {
    [PageData(gpa, mask, false, Normal, []), ParameterArea(0, PAGE), ParameterInsert(0, insertGpa, mask)]
  }

  lemma OneArea(gpa: nat, insertGpa: nat, mask: bv32)
    ensures AreaSizes(PageThenInsert(gpa, insertGpa, mask)) == map[0 := PAGE]
  {
    var ds := PageThenInsert(gpa, insertGpa, mask);
    assert ds[..2][..1] == ds[..1] && ds[..1][..0] == [];
    assert AreaSizes(ds[..1]) == map[] && AreaSizes(ds[..2]) == map[0 := PAGE];
  }

  lemma TheirTotals(gpa: nat, insertGpa: nat, mask: bv32, compat: bv32)
    requires Compatible(mask, compat)
    ensures var ds, areas: map<nat, nat> := PageThenInsert(gpa, insertGpa, mask), map[0 := PAGE];
            && IsPage(ds[0], compat) && !IsPage(ds[1], compat) && !IsPage(ds[2], compat)
            && PageTotal(ds[0], areas, compat) == 1 && PageTotal(ds[1], areas, compat) == 0
            && PageTotal(ds[2], areas, compat) == 1
  {
    hide Compatible;
    assert DivCeil(PAGE, PAGE) == 1;
  }

  lemma PlainStep(ds: seq<Directive>, n: nat, areas: map<nat, nat>, compat: bv32)
    requires 0 < n <= |ds|
    ensures PlainOrder(ds[..n], areas, compat) ==
            PlainOrder(ds[..n - 1], areas, compat) + Slots(n - 1, PageTotal(ds[n - 1], areas, compat))
  {
    assert ds[..n][..n - 1] == ds[..n - 1];
  }

  lemma NothingMeasured(ds: seq<Directive>, areas: map<nat, nat>, compat: bv32)
    ensures BatchRun(ds[..0], areas, compat) == Batch([], [], None) && PlainOrder(ds[..0], areas, compat) == []
  {
  }

  /** It happens: the insert is measured first. */
  lemma InsertOvertakesPage(gpa: nat, insertGpa: nat, mask: bv32, compat: bv32)
    requires Compatible(mask, compat)
    ensures var ds := PageThenInsert(gpa, insertGpa, mask);
            && BatchedOrder(ds, AreaSizes(ds), compat) == [Slot(2, 0), Slot(0, 0)]
            && PlainOrder(ds, AreaSizes(ds), compat) == [Slot(0, 0), Slot(2, 0)]
  {
    hide Compatible, Classify, PageTotal, IsPage, AreaSizes, BatchRun, PlainOrder;
    var ds := PageThenInsert(gpa, insertGpa, mask);
    var areas: map<nat, nat> := map[0 := PAGE];
    OneArea(gpa, insertGpa, mask);
    TheirTotals(gpa, insertGpa, mask, compat);
    NothingMeasured(ds, areas, compat);
    forall n | 0 < n <= 3
      ensures BatchRun(ds[..n], areas, compat) ==
              BatchStep(BatchRun(ds[..n - 1], areas, compat), ds[n - 1], n - 1, areas, compat)
      ensures PlainOrder(ds[..n], areas, compat) ==
              PlainOrder(ds[..n - 1], areas, compat) + Slots(n - 1, PageTotal(ds[n - 1], areas, compat))
    {
      RunStep(ds, n, areas, compat);
      PlainStep(ds, n, areas, compat);
    }
    assert ds[..3] == ds;
    assert Slots(0, 1) == [Slot(0, 0)] && Slots(1, 0) == [] && Slots(2, 1) == [Slot(2, 0)];
    assert BatchRun(ds[..1], areas, compat).pending == [Slot(0, 0)] && BatchRun(ds[..1], areas, compat).done == [];
    assert BatchRun(ds[..2], areas, compat).pending == [Slot(0, 0)] && BatchRun(ds[..2], areas, compat).done == [];
  }

  // ---------------------------------------------------------------------------------------------
  // Lists in which at most one page is overtaken
  // ---------------------------------------------------------------------------------------------

  /** The parameter pages of a list, in order. */
  function InsertedPages(h: Hash, ds: seq<Directive>, areas: map<nat, nat>, compat: bv32): seq<Page> {
    if ds == [] then []
    else
      var d := ds[|ds| - 1];
      InsertedPages(h, ds[..|ds| - 1], areas, compat)
      + if IsInsert(d, compat) && d.index in areas then AreaPages(d, DivCeil(areas[d.index], PAGE)) else []
  }

  function AreaPages(d: Directive, n: nat): (pages: seq<Page>)
    requires d.ParameterInsert?
    ensures |pages| == n
    ensures forall i :: 0 <= i < n ==> pages[i] == Page(d.gpa + i * PAGE, TYPE_UNMEASURED, ZERO_DIGEST)
  {
    seq(n, i requires 0 <= i < n => Page(d.gpa + i * PAGE, TYPE_UNMEASURED, ZERO_DIGEST))
  }

  /** The data pages of a list, in order. */
  function PlacedPages(h: Hash, ds: seq<Directive>, compat: bv32): seq<Page> {
    if ds == [] then []
    else
      var d := ds[|ds| - 1];
      PlacedPages(h, ds[..|ds| - 1], compat) + if IsPage(d, compat) then [PageOf(h, d)] else []
  }

  /** Once another directive follows a page, there is no other page before it. */
  ghost predicate OneOvertaken(ds: seq<Directive>) {
    forall i, j, k ::
      (0 <= i < j < |ds| && 0 <= k < j && ds[i].PageData? && !ds[j].PageData? && ds[k].PageData?) ==> k == i
  }

  ghost predicate OnePageAtMost(ds: seq<Directive>) {
    forall i, k :: 0 <= i < |ds| && 0 <= k < |ds| && ds[i].PageData? && ds[k].PageData? ==> k == i
  }

  lemma SlotContent(h: Hash, ds: seq<Directive>, i: nat, areas: map<nat, nat>, compat: bv32)
    requires i < |ds|
    ensures var d := ds[i];
            SlotPages(h, ds, Slots(i, PageTotal(d, areas, compat))) ==
            if IsPage(d, compat) then [PageOf(h, d)]
            else if IsInsert(d, compat) && d.index in areas then AreaPages(d, DivCeil(areas[d.index], PAGE))
            else []
  {
    hide PageOf;
  }

  /** After `n` directives everything is in the order inserts, then pages. */
  ghost predicate InsertsFirst(h: Hash, ds: seq<Directive>, n: nat, areas: map<nat, nat>, compat: bv32)
    requires n <= |ds|
  {
    && Within(BatchedOrder(ds[..n], areas, compat), |ds|)
    && SlotPages(h, ds, BatchedOrder(ds[..n], areas, compat)) ==
       InsertedPages(h, ds[..n], areas, compat) + PlacedPages(h, ds[..n], compat)
  }

  /** And the pages are all still pending. */
  ghost predicate PagesPending(h: Hash, ds: seq<Directive>, n: nat, areas: map<nat, nat>, compat: bv32)
    requires n <= |ds|
  {
    var b := BatchRun(ds[..n], areas, compat);
    && Within(b.done, |ds|) && Within(b.pending, |ds|)
    && SlotPages(h, ds, b.done) == InsertedPages(h, ds[..n], areas, compat)
    && SlotPages(h, ds, b.pending) == PlacedPages(h, ds[..n], compat)
  }

  lemma ContentStep(h: Hash, ds: seq<Directive>, n: nat, areas: map<nat, nat>, compat: bv32)
    requires 0 < n <= |ds|
    ensures var d := ds[n - 1];
            && InsertedPages(h, ds[..n], areas, compat) == InsertedPages(h, ds[..n - 1], areas, compat)
               + (if IsInsert(d, compat) && d.index in areas then AreaPages(d, DivCeil(areas[d.index], PAGE)) else [])
            && PlacedPages(h, ds[..n], compat) == PlacedPages(h, ds[..n - 1], compat)
               + (if IsPage(d, compat) then [PageOf(h, d)] else [])
  {
    assert ds[..n][..n - 1] == ds[..n - 1];
  }

  lemma SkippedPage(b: Batch, d: Directive, i: nat, areas: map<nat, nat>, compat: bv32)
    requires d.PageData? && !IsPage(d, compat)
    ensures BatchStep(b, d, i, areas, compat) == b
  {
    assert b.done + Slots(i, 0) == b.done;
  }

  lemma PageKeepsOrder(h: Hash, ds: seq<Directive>, n: nat, areas: map<nat, nat>, compat: bv32)
    requires 0 < n <= |ds| && ds[n - 1].PageData? && InsertsFirst(h, ds, n - 1, areas, compat)
    ensures InsertsFirst(h, ds, n, areas, compat)
  {
    hide BatchRun, InsertedPages, PlacedPages, PageOf, Compatible, BreaksBatch, SlotPage, AreaPages, Classify;
    hide PageTotal;
    var d, order := ds[n - 1], BatchedOrder(ds[..n - 1], areas, compat);
    var inserted, placed := InsertedPages(h, ds[..n - 1], areas, compat), PlacedPages(h, ds[..n - 1], compat);
    ContentStep(h, ds, n, areas, compat);
    RunStep(ds, n, areas, compat);
    assert inserted + [] == inserted && placed + [] == placed;
    if IsPage(d, compat) {
      OrderStep(ds[..n], areas, compat);
      assert ds[..n][..n - 1] == ds[..n - 1];
      SlotContent(h, ds, n - 1, areas, compat);
      OnePage(d, n - 1, areas, compat);
      SlotPagesConcat(h, ds, order, [Slot(n - 1, 0)]);
      Assoc(inserted, placed, [PageOf(h, d)]);
    } else {
      SkippedPage(BatchRun(ds[..n - 1], areas, compat), d, n - 1, areas, compat);
    }
  }

  lemma PageBecomesPending(b: Batch, d: Directive, i: nat, areas: map<nat, nat>, compat: bv32)
    requires IsPage(d, compat) && b.pending == []
    ensures BatchStep(b, d, i, areas, compat).done == b.done
    ensures BatchStep(b, d, i, areas, compat).pending == [Slot(i, 0)]
  {
    hide BreaksBatch, Compatible, Classify;
    assert b.done + [] == b.done && [] + [Slot(i, 0)] == [Slot(i, 0)];
  }

  lemma FirstPageIsPending(h: Hash, ds: seq<Directive>, n: nat, areas: map<nat, nat>, compat: bv32)
    requires 0 < n <= |ds| && ds[n - 1].PageData? && PagesPending(h, ds, n - 1, areas, compat)
    requires forall i :: 0 <= i < n - 1 ==> !ds[i].PageData?
    ensures PagesPending(h, ds, n, areas, compat)
  {
    hide BatchRun, InsertedPages, PlacedPages, PageOf, Compatible, BreaksBatch, SlotPage, AreaPages, Classify;
    hide PageTotal, BatchStep, SlotPages, Slots;
    var d, b := ds[n - 1], BatchRun(ds[..n - 1], areas, compat);
    ContentStep(h, ds, n, areas, compat);
    RunStep(ds, n, areas, compat);
    PendingAfterPage(ds[..n - 1], areas, compat);
    var inserted, placed := InsertedPages(h, ds[..n - 1], areas, compat), PlacedPages(h, ds[..n - 1], compat);
    assert inserted + [] == inserted && placed + [] == placed && [] + [PageOf(h, d)] == [PageOf(h, d)];
    if IsPage(d, compat) {
      PageBecomesPending(b, d, n - 1, areas, compat);
      SlotContent(h, ds, n - 1, areas, compat);
      OnePage(d, n - 1, areas, compat);
    } else {
      SkippedPage(b, d, n - 1, areas, compat);
    }
  }

  lemma OtherKeepsPending(h: Hash, ds: seq<Directive>, n: nat, areas: map<nat, nat>, compat: bv32)
    requires 0 < n <= |ds| && !ds[n - 1].PageData? && PagesPending(h, ds, n - 1, areas, compat)
    ensures PagesPending(h, ds, n, areas, compat)
  {
    hide BatchRun, InsertedPages, PlacedPages, PageOf, Compatible, BreaksBatch, SlotPage, AreaPages, Classify;
    hide PageTotal;
    var d, b := ds[n - 1], BatchRun(ds[..n - 1], areas, compat);
    ContentStep(h, ds, n, areas, compat);
    RunStep(ds, n, areas, compat);
    SlotContent(h, ds, n - 1, areas, compat);
    SlotPagesConcat(h, ds, b.done, Slots(n - 1, PageTotal(d, areas, compat)));
    var placed := PlacedPages(h, ds[..n - 1], compat);
    assert placed + [] == placed;
  }

  /** Then parameter pages are measured first, in order, and data pages after them, in order. */
  lemma {:induction false} OvertakenOrder(h: Hash, ds: seq<Directive>, n: nat, areas: map<nat, nat>, compat: bv32)
    requires OneOvertaken(ds) && n <= |ds|
    ensures InsertsFirst(h, ds, n, areas, compat)
    ensures OnePageAtMost(ds[..n]) ==> PagesPending(h, ds, n, areas, compat)
  {
    hide InsertsFirst, PagesPending;
    if n == 0 {
      NothingOvertaken(h, ds, areas, compat);
    } else {
      OvertakenOrder(h, ds, n - 1, areas, compat);
      if ds[n - 1].PageData? {
        PageKeepsOrder(h, ds, n, areas, compat);
        if OnePageAtMost(ds[..n]) {
          NoneBefore(ds, n);
          FirstPageIsPending(h, ds, n, areas, compat);
        }
      } else {
        assert OnePageAtMost(ds[..n - 1]);
        OtherKeepsPending(h, ds, n, areas, compat);
        PendingIsFirst(h, ds, n, areas, compat);
      }
    }
  }

  lemma NothingOvertaken(h: Hash, ds: seq<Directive>, areas: map<nat, nat>, compat: bv32)
    ensures InsertsFirst(h, ds, 0, areas, compat) && PagesPending(h, ds, 0, areas, compat)
  {
  }

  lemma NoneBefore(ds: seq<Directive>, n: nat)
    requires 0 < n <= |ds| && ds[n - 1].PageData? && OnePageAtMost(ds[..n])
    ensures OnePageAtMost(ds[..n - 1]) && forall i :: 0 <= i < n - 1 ==> !ds[i].PageData?
  {
    forall i | 0 <= i < n - 1
      ensures !ds[i].PageData?
    {
      assert ds[..n][i] == ds[i] && ds[..n][n - 1] == ds[n - 1];
    }
  }

  lemma PendingIsFirst(h: Hash, ds: seq<Directive>, n: nat, areas: map<nat, nat>, compat: bv32)
    requires n <= |ds| && PagesPending(h, ds, n, areas, compat)
    ensures InsertsFirst(h, ds, n, areas, compat)
  {
    hide BatchRun, InsertedPages, PlacedPages, SlotPage;
    var b := BatchRun(ds[..n], areas, compat);
    SlotPagesConcat(h, ds, b.done, b.pending);
  }

  // ---------------------------------------------------------------------------------------------
  // What the digest commits to
  // ---------------------------------------------------------------------------------------------

  /** Every string hashed while folding `pages`. */
  function PageInputs(h: Hash, pages: seq<Page>): seq<Bytes> {
    if pages == [] then []
    else
      var init := pages[..|pages| - 1];
      PageInputs(h, init) + [PageInfo(MeasurePages(h, ZERO_DIGEST, init), pages[|pages| - 1])]
  }

  ghost predicate Addressable(pages: seq<Page>) {
    forall i :: 0 <= i < |pages| ==> pages[i].gpa < U64_LIMIT
  }

  lemma PageInfoFields(digest: Digest, p: Page)
    requires p.gpa < U64_LIMIT
    ensures var bs := PageInfo(digest, p);
            bs[..48] == digest && bs[48..96] == p.contents && bs[98] == p.pageType && FromLe(bs[104..112]) == p.gpa
  {
    hide ToLe, FromLe, Pow256;
    PowValues();
    LeRoundTrip(p.gpa, 8);
    assert PageInfo(digest, p)[104..112] == ToLe(p.gpa, 8);
  }

  /**
   * The digest commits to the page sequence: two launches with one digest measured the same pages
   * in the same order, or exhibit a collision or a preimage of the zero digest.
   */
  lemma {:induction false} DigestCommitsToPages(h: Hash, a: seq<Page>, b: seq<Page>)
    requires Addressable(a) && Addressable(b)
    requires MeasurePages(h, ZERO_DIGEST, a) == MeasurePages(h, ZERO_DIGEST, b)
    ensures a == b || BreakAmong(h, PageInputs(h, a), PageInputs(h, b))
    decreases |a|
  {
    hide PageInfo, FromLe;
    if a == [] && b == [] {
    } else if a == [] {
      assert PageInputs(h, b)[|PageInputs(h, b)| - 1] in PageInputs(h, b);
    } else if b == [] {
      assert PageInputs(h, a)[|PageInputs(h, a)| - 1] in PageInputs(h, a);
    } else {
      var a', x := a[..|a| - 1], a[|a| - 1];
      var b', y := b[..|b| - 1], b[|b| - 1];
      var p := PageInfo(MeasurePages(h, ZERO_DIGEST, a'), x);
      var q := PageInfo(MeasurePages(h, ZERO_DIGEST, b'), y);
      assert p in PageInputs(h, a) && q in PageInputs(h, b);
      if p == q {
        PageInfoFields(MeasurePages(h, ZERO_DIGEST, a'), x);
        PageInfoFields(MeasurePages(h, ZERO_DIGEST, b'), y);
        DigestCommitsToPages(h, a', b');
        if a' == b' {
          assert a == a' + [x] && b == b' + [y];
        } else {
          BreakAmongWidens(h, PageInputs(h, a'), PageInputs(h, b'), PageInputs(h, a), PageInputs(h, b));
        }
      } else {
        assert CollisionAmong(h, PageInputs(h, a), PageInputs(h, b));
      }
    }
  }

  /** One measured page down to its bytes: padded page data, or a VMSA. */
  datatype RawPage = RawPage(gpa: nat, pageType: byte, bytes: Bytes)

  predicate CarriesBytes(pageType: byte) {
    pageType == TYPE_NORMAL || pageType == TYPE_VMSA
  }

  function Imprint(h: Hash, r: RawPage): Page {
    Page(r.gpa, r.pageType, if CarriesBytes(r.pageType) then h(r.bytes) else ZERO_DIGEST)
  }

  function Imprints(h: Hash, rs: seq<RawPage>): (pages: seq<Page>)
    ensures |pages| == |rs| && forall i :: 0 <= i < |rs| ==> pages[i] == Imprint(h, rs[i])
  {
    seq(|rs|, i requires 0 <= i < |rs| => Imprint(h, rs[i]))
  }

  function SlotRaw(ds: seq<Directive>, s: Slot): RawPage
    requires s.directive < |ds|
  {
    var d := ds[s.directive];
    if d.PageData? then
      RawPage(d.gpa, Classify(d).0, if Classify(d).0 == TYPE_NORMAL then Padded(d.data) else [])
    else if d.ParameterInsert? then RawPage(d.gpa + s.page * PAGE, TYPE_UNMEASURED, [])
    else RawPage(0, 0, [])
  }

  /** All pages of a launch in measuring order, with their bytes. */
  function LaunchRaw(ds: seq<Directive>, compat: bv32): (rs: seq<RawPage>)
    ensures forall i :: 0 <= i < |rs| && !CarriesBytes(rs[i].pageType) ==> rs[i].bytes == []
  {
    var areas, vmsas := AreaSizes(ds), Vmsas(ds, compat);
    RunIsWithin(ds, areas, compat);
    var order := BatchedOrder(ds, areas, compat);
    seq(|order|, i requires 0 <= i < |order| => SlotRaw(ds, order[i]))
    + seq(|vmsas|, i requires 0 <= i < |vmsas| => RawPage(VMSA_GPA, TYPE_VMSA, vmsas[i]))
  }

  lemma LaunchIsImprint(h: Hash, ds: seq<Directive>, compat: bv32)
    ensures LaunchPages(h, ds, compat) == Imprints(h, LaunchRaw(ds, compat))
  {
    hide BatchRun, AreaSizes, Vmsas, Padded, Classify;
    RunIsWithin(ds, AreaSizes(ds), compat);
    var order := BatchedOrder(ds, AreaSizes(ds), compat);
    forall i | 0 <= i < |order|
      ensures SlotPage(h, ds, order[i]) == Imprint(h, SlotRaw(ds, order[i]))
    {
      SlotIsImprint(h, ds, order[i]);
    }
  }

  lemma SlotIsImprint(h: Hash, ds: seq<Directive>, s: Slot)
    requires s.directive < |ds|
    ensures SlotPage(h, ds, s) == Imprint(h, SlotRaw(ds, s))
  {
    hide Padded;
  }

  /** The page contents hashed before the fold. */
  function ContentInputs(rs: seq<RawPage>): (xs: seq<Bytes>)
    ensures forall r :: r in rs && CarriesBytes(r.pageType) ==> r.bytes in xs
  {
    if rs == [] then []
    else
      var last := rs[|rs| - 1];
      assert rs == rs[..|rs| - 1] + [last];
      ContentInputs(rs[..|rs| - 1]) + if CarriesBytes(last.pageType) then [last.bytes] else []
  }

  lemma ImprintsBindBytes(h: Hash, a: seq<RawPage>, b: seq<RawPage>)
    requires Imprints(h, a) == Imprints(h, b)
    requires forall i :: 0 <= i < |a| && !CarriesBytes(a[i].pageType) ==> a[i].bytes == []
    requires forall i :: 0 <= i < |b| && !CarriesBytes(b[i].pageType) ==> b[i].bytes == []
    ensures a == b || CollisionAmong(h, ContentInputs(a), ContentInputs(b))
  {
    hide ContentInputs;
    if i :| 0 <= i < |a| && a[i] != b[i] {
      assert Imprint(h, a[i]) == Imprints(h, a)[i] == Imprints(h, b)[i] == Imprint(h, b[i]);
      assert a[i] in a && b[i] in b;
      assert a[i].bytes in ContentInputs(a) && b[i].bytes in ContentInputs(b);
    }
  }

  /** Every string a launch hashes. */
  function LaunchInputs(h: Hash, ds: seq<Directive>, compat: bv32): seq<Bytes> {
    PageInputs(h, LaunchPages(h, ds, compat)) + ContentInputs(LaunchRaw(ds, compat))
  }

  /**
   * The launch digest commits to the bytes: two launches with one digest measured pages of the same
   * addresses, types and padded contents in the same order, and the same VMSAs, or the strings they
   * hash contain a collision or a preimage of the zero digest.
   */
  lemma {:induction false} LaunchCommitsToBytes(h: Hash, x: IgvmFile, y: IgvmFile)
    requires Launch(h, x).Ok? && Launch(h, y).Ok?
    requires Launch(h, x).value.digest == Launch(h, y).value.digest
    requires Addressable(LaunchPages(h, x.directives, FindCompat(x.platforms).value))
    requires Addressable(LaunchPages(h, y.directives, FindCompat(y.platforms).value))
    ensures var c, e := FindCompat(x.platforms).value, FindCompat(y.platforms).value;
            || LaunchRaw(x.directives, c) == LaunchRaw(y.directives, e)
            || BreakAmong(h, LaunchInputs(h, x.directives, c), LaunchInputs(h, y.directives, e))
  {
    hide LaunchPages, LaunchRaw, FindCompat, MeasurePages, PageInputs, ContentInputs, AreaSizes, Vmsas, Addressable;
    hide BreakAmong, CollisionAmong;
    var c, e := FindCompat(x.platforms).value, FindCompat(y.platforms).value;
    var p, q := LaunchPages(h, x.directives, c), LaunchPages(h, y.directives, e);
    var a, b := LaunchRaw(x.directives, c), LaunchRaw(y.directives, e);
    DigestCommitsToPages(h, p, q);
    if p == q {
      LaunchIsImprint(h, x.directives, c);
      LaunchIsImprint(h, y.directives, e);
      ImprintsBindBytes(h, a, b);
      if a != b {
        CollisionIsEnough(h, ContentInputs(a), ContentInputs(b));
        BreakAmongWidens(h, ContentInputs(a), ContentInputs(b),
                         LaunchInputs(h, x.directives, c), LaunchInputs(h, y.directives, e));
      }
    } else {
      BreakAmongWidens(h, PageInputs(h, p), PageInputs(h, q),
                       LaunchInputs(h, x.directives, c), LaunchInputs(h, y.directives, e));
    }
  }

  lemma CollisionIsEnough(h: Hash, xs: seq<Bytes>, ys: seq<Bytes>)
    requires CollisionAmong(h, xs, ys)
    ensures BreakAmong(h, xs, ys)
  {
  }
}
