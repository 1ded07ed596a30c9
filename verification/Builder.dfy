/** The IGVM builder (crates/igvm-tools/src/builder.rs): a directive list, sorted on completion. */
module Builder {
  import opened ByteLayout
  import opened Wrappers
  import opened Sorting
  import opened Directives
  import Hashing
  import Measure

  const NATIVE_COMPAT: bv32 := 1
  const SEV_SNP_COMPAT: bv32 := 2

  /** Page `pg` of `data` placed at `base`, cut at the end of the data. */
  function DataPage(base: nat, data: Bytes, mask: bv32, unmeasured: bool, pg: nat): Directive
    requires pg * PAGE < |data|
  {
    var start := pg * PAGE;
    var end := if start + PAGE < |data| then start + PAGE else |data|;
    PageData(base + start, mask, unmeasured, Normal, data[start..end])
  }

  /** The first `n` pages of `data`. */
  function DataPages(base: nat, data: Bytes, mask: bv32, unmeasured: bool, n: nat): seq<Directive>
    requires n <= DivCeil(|data|, PAGE)
  {
    if n == 0 then []
    else DataPages(base, data, mask, unmeasured, n - 1) + [DataPage(base, data, mask, unmeasured, n - 1)]
  }

  function EmptyPages(base: nat, mask: bv32, kind: PageKind, n: nat): seq<Directive> {
    if n == 0 then []
    else EmptyPages(base, mask, kind, n - 1) + [PageData(base + (n - 1) * PAGE, mask, false, kind, [])]
  }

  predicate InRange(d: Directive, base: nat, size: nat) {
    d.PageData? && base <= d.gpa < base + if size < PAGE then PAGE else size
  }

  function WithoutRange(ds: seq<Directive>, base: nat, size: nat): seq<Directive> {
    if ds == [] then []
    else
      (if InRange(ds[0], base, size) then [] else [ds[0]]) + WithoutRange(ds[1..], base, size)
  }

  /** The sort key: the guest address of a page, zero for everything else. */
  function SortKey(d: Directive): int {
    if d.PageData? then d.gpa else 0
  }

  class Builder {
    var platforms: seq<Platform>
    var directives: seq<Directive>
    var maskAll: bv32

    constructor ()
      ensures platforms == [] && directives == [] && maskAll == 0
    {
      platforms, directives, maskAll := [], [], 0;
    }

    method AddNativePlatform()
      modifies this
      ensures platforms == old(platforms) + [Platform(false, NATIVE_COMPAT)]
      ensures maskAll == old(maskAll) | NATIVE_COMPAT && directives == old(directives)
    {
      maskAll := maskAll | NATIVE_COMPAT;
      platforms := platforms + [Platform(false, NATIVE_COMPAT)];
    }

    method AddSnpPlatform()
      modifies this
      ensures platforms == old(platforms) + [Platform(true, SEV_SNP_COMPAT)]
      ensures maskAll == old(maskAll) | SEV_SNP_COMPAT && directives == old(directives)
    {
      maskAll := maskAll | SEV_SNP_COMPAT;
      platforms := platforms + [Platform(true, SEV_SNP_COMPAT)];
    }

    method AddSnpVmsaContext(vmsa: Bytes)
      modifies `directives
      ensures directives == old(directives) + [SnpVpContext(SEV_SNP_COMPAT, vmsa)]
    {
      directives := directives + [SnpVpContext(SEV_SNP_COMPAT, vmsa)];
    }

    method AddIgvmParamArea(index: nat, size: nat)
      modifies `directives
      ensures directives == old(directives) + [ParameterArea(index, size)]
    {
      directives := directives + [ParameterArea(index, size)];
    }

    method AddIgvmParamInsert(index: nat, gpa: nat)
      modifies `directives
      ensures directives == old(directives) + [ParameterInsert(index, gpa, maskAll)]
    {
      directives := directives + [ParameterInsert(index, gpa, maskAll)];
    }

    method AddEmptyPages(base: nat, size: nat, mask: bv32, kind: PageKind)
      modifies `directives
      ensures directives == old(directives) + EmptyPages(base, mask, kind, DivCeil(size, PAGE))
    {
      assert directives + [] == directives;
      for pg := 0 to DivCeil(size, PAGE)
        invariant directives == old(directives) + EmptyPages(base, mask, kind, pg)
      {
        directives := directives + [PageData(base + pg * PAGE, mask, false, kind, [])];
      }
    }

    method AddDataPages(base: nat, data: Bytes, unmeasured: bool)
      modifies `directives
      ensures directives == old(directives) + DataPages(base, data, maskAll, unmeasured, DivCeil(|data|, PAGE))
    {
      assert directives + [] == directives;
      for pg := 0 to DivCeil(|data|, PAGE)
        invariant directives == old(directives) + DataPages(base, data, maskAll, unmeasured, pg)
      {
        var start := pg * PAGE;
        var end := if start + PAGE < |data| then start + PAGE else |data|;
        directives := directives + [PageData(base + start, maskAll, unmeasured, Normal, data[start..end])];
      }
    }

    method RemovePageDataInRange(base: nat, size: nat)
      modifies `directives
      ensures directives == WithoutRange(old(directives), base, size)
    {
      var kept: seq<Directive> := [];
      assert directives[0..] == directives;
      for i := 0 to |directives|
        invariant directives == old(directives)
        invariant kept + WithoutRange(directives[i..], base, size) == WithoutRange(directives, base, size)
      {
        assert directives[i..][1..] == directives[i + 1..];
        ghost var before := kept;
        if !InRange(directives[i], base, size) {
          kept := kept + [directives[i]];
        }
        Assoc(before, if InRange(directives[i], base, size) then [] else [directives[i]],
              WithoutRange(directives[i + 1..], base, size));
        assert kept == before + if InRange(directives[i], base, size) then [] else [directives[i]];
      }
      assert kept + [] == kept;
      directives := kept;
    }

    /** Firmware ends exactly at 4 GiB. */
    method AddFirmware4g(firmware: Bytes)
      requires |firmware| <= U32_LIMIT
      modifies `directives
      ensures directives == old(directives)
                            + DataPages(U32_LIMIT - |firmware|, firmware, maskAll, false, DivCeil(|firmware|, PAGE))
      ensures firmware != [] ==>
                var last := directives[|directives| - 1];
                |directives| > |old(directives)| && last.PageData? && last.gpa + |last.data| == U32_LIMIT
    {
      AddDataPages(U32_LIMIT - |firmware|, firmware, false);
    }

    /** The directives, in the order of their keys and otherwise as they were added. */
    method Finalize() returns (igvm: IgvmFile)
      ensures igvm.platforms == platforms
      ensures SortedBy(SortKey, igvm.directives) && multiset(igvm.directives) == multiset(directives)
      ensures forall k :: WithKey(SortKey, k, igvm.directives) == WithKey(SortKey, k, directives)
      ensures igvm.directives == SortBy(SortKey, directives)
    {
      hide SortBy, WithKey;
      igvm := IgvmFile(platforms, SortBy(SortKey, directives));
      SortSorted(SortKey, directives);
      forall k
        ensures WithKey(SortKey, k, igvm.directives) == WithKey(SortKey, k, directives)
      {
        SortStable(SortKey, k, directives);
      }
    }
  }

  // ---------------------------------------------------------------------------------------------
  // Finalized files are canonical
  // ---------------------------------------------------------------------------------------------

  function NonPages(ds: seq<Directive>): seq<Directive> {
    if ds == [] then []
    else (if ds[0].PageData? then [] else [ds[0]]) + NonPages(ds[1..])
  }

  function Pages(ds: seq<Directive>): seq<Directive> {
    if ds == [] then []
    else (if ds[0].PageData? then [ds[0]] else []) + Pages(ds[1..])
  }

  /** PageData at distinct guest addresses. */
  ghost predicate DistinctPages(ds: seq<Directive>) {
    forall i, j :: 0 <= i < j < |ds| && ds[i].PageData? && ds[j].PageData? ==> ds[i].gpa != ds[j].gpa
  }

  ghost predicate NoPageAtZero(ds: seq<Directive>) {
    forall i :: 0 <= i < |ds| && ds[i].PageData? ==> ds[i].gpa != 0
  }

  ghost predicate SamePageSet(a: seq<Directive>, b: seq<Directive>) {
    forall d: Directive :: d.PageData? ==> (d in a <==> d in b)
  }

  lemma {:induction false} KeyZero(ds: seq<Directive>)
    requires NoPageAtZero(ds)
    ensures WithKey(SortKey, 0, ds) == NonPages(ds)
  {
    if ds != [] {
      KeyZero(ds[1..]);
    }
  }

  lemma SomeElement(ds: seq<Directive>)
    requires ds != []
    ensures exists d :: d in ds
  {
    assert ds[0] in ds;
  }

  lemma FirstIsOnly(ds: seq<Directive>)
    requires DistinctPages(ds) && ds != [] && ds[0].PageData?
    ensures forall d :: d in ds[1..] && d.PageData? ==> d.gpa != ds[0].gpa
  {
    forall i | 0 <= i < |ds[1..]| && ds[1..][i].PageData?
      ensures ds[1..][i].gpa != ds[0].gpa
    {
      assert ds[1..][i] == ds[i + 1];
    }
  }

  /** The page at a non-zero address is the only directive of its key. */
  lemma {:induction false} KeyOfPage(ds: seq<Directive>, k: int)
    requires DistinctPages(ds) && k != 0
    ensures |WithKey(SortKey, k, ds)| <= 1
    ensures forall d :: d in WithKey(SortKey, k, ds) <==> d in ds && d.PageData? && d.gpa == k
  {
    if ds != [] {
      KeyOfPage(ds[1..], k);
      if SortKey(ds[0]) == k {
        FirstIsOnly(ds);
        var later := WithKey(SortKey, k, ds[1..]);
        if later != [] {
          SomeElement(later);
        }
      }
      forall d
        ensures d in WithKey(SortKey, k, ds) <==> d in ds && d.PageData? && d.gpa == k
      {
        assert d in ds <==> d == ds[0] || d in ds[1..];
      }
    }
  }

  lemma SameSingletons(x: seq<Directive>, y: seq<Directive>)
    requires |x| <= 1 && |y| <= 1
    requires forall d :: d in x <==> d in y
    ensures x == y
  {
    assert x != [] ==> x[0] in y;
    assert y != [] ==> y[0] in x;
  }

  /**
   * Exactly when the order of adding is invisible in the file: two builders with the same set of
   * pages, at distinct addresses, finalize to the same list if and only if their directives of key
   * zero, the parameters and a page at address zero, were added in the same order.
   */
  lemma {:induction false} FinalizesAlikeExactly(a: seq<Directive>, b: seq<Directive>)
    requires DistinctPages(a) && DistinctPages(b) && SamePageSet(a, b)
    ensures SortBy(SortKey, a) == SortBy(SortKey, b) <==> WithKey(SortKey, 0, a) == WithKey(SortKey, 0, b)
  {
    hide SortBy, WithKey, SortKey;
    SortsAlikeExactly(SortKey, a, b);
    forall k | k != 0
      ensures WithKey(SortKey, k, a) == WithKey(SortKey, k, b)
    {
      KeyOfPage(a, k);
      KeyOfPage(b, k);
      SameSingletons(WithKey(SortKey, k, a), WithKey(SortKey, k, b));
    }
  }

  /** So without a page at zero, only the order of the non-page directives shows. */
  lemma {:induction false} FinalizeIsCanonical(a: seq<Directive>, b: seq<Directive>)
    requires DistinctPages(a) && DistinctPages(b) && SamePageSet(a, b)
    requires NoPageAtZero(a) && NoPageAtZero(b)
    ensures SortBy(SortKey, a) == SortBy(SortKey, b) <==> NonPages(a) == NonPages(b)
  {
    hide SortBy, WithKey, SortKey;
    FinalizesAlikeExactly(a, b);
    KeyZero(a);
    KeyZero(b);
  }

  /** In a finalized list of pages at non-zero addresses, nothing but pages follows a page. */
  lemma {:induction false} PagesComeLast(ds: seq<Directive>, i: nat, j: nat)
    requires NoPageAtZero(ds)
    requires i < j < |ds| && SortBy(SortKey, ds)[i].PageData?
    ensures SortBy(SortKey, ds)[j].PageData?
  {
    hide SortBy;
    var s := SortBy(SortKey, ds);
    SortSorted(SortKey, ds);
    assert s[i] in multiset(s) && s[i] in ds;
    assert SortKey(s[i]) <= SortKey(s[j]);
  }

  /** A page at zero keeps its place among the parameters, as in this pair of lists. */
  lemma PageAtZeroIsNotCanonical()
    ensures var p, q := PageData(0, 1, false, Normal, []), Other(0);
            SortBy(SortKey, [p, q]) == [p, q] && SortBy(SortKey, [q, p]) == [q, p]
  {
    var p, q := PageData(0, 1, false, Normal, []), Other(0);
    assert [p, q][1..] == [q] && [q][1..] == [] && [q, p][1..] == [p] && [p][1..] == [];
    assert SortBy(SortKey, [q]) == [q] && SortBy(SortKey, [p]) == [p];
  }

  // ---------------------------------------------------------------------------------------------
  // What a finalized file measures to
  // ---------------------------------------------------------------------------------------------

  lemma {:induction false} PagesOfKey(ds: seq<Directive>, k: int)
    ensures WithKey(SortKey, k, Pages(ds)) == Pages(WithKey(SortKey, k, ds))
  {
    if ds != [] {
      PagesOfKey(ds[1..], k);
      if ds[0].PageData? {
        assert ([ds[0]] + Pages(ds[1..]))[1..] == Pages(ds[1..]);
      } else {
        assert [] + Pages(ds[1..]) == Pages(ds[1..]);
      }
      if SortKey(ds[0]) == k {
        assert ([ds[0]] + WithKey(SortKey, k, ds[1..]))[1..] == WithKey(SortKey, k, ds[1..]);
        assert [] + Pages(WithKey(SortKey, k, ds[1..])) == Pages(WithKey(SortKey, k, ds[1..]));
      }
    }
  }

  lemma {:induction false} NonPagesOfKeyZero(ds: seq<Directive>)
    ensures NonPages(WithKey(SortKey, 0, ds)) == NonPages(ds)
  {
    if ds != [] {
      NonPagesOfKeyZero(ds[1..]);
      if SortKey(ds[0]) == 0 {
        assert ([ds[0]] + WithKey(SortKey, 0, ds[1..]))[1..] == WithKey(SortKey, 0, ds[1..]);
      } else {
        assert [] + NonPages(ds[1..]) == NonPages(ds[1..]);
      }
    }
  }

  lemma {:induction false} PagesMembers(ds: seq<Directive>, d: Directive)
    ensures d in Pages(ds) <==> d in ds && d.PageData?
  {
    if ds != [] {
      PagesMembers(ds[1..], d);
      assert d in ds <==> d == ds[0] || d in ds[1..];
    }
  }

  lemma {:induction false} PagesAreSorted(ds: seq<Directive>)
    requires SortedBy(SortKey, ds)
    ensures SortedBy(SortKey, Pages(ds))
  {
    hide SortKey;
    if ds != [] {
      PagesAreSorted(ds[1..]);
      var rest := Pages(ds[1..]);
      forall j | 0 <= j < |rest|
        ensures SortKey(ds[0]) <= SortKey(rest[j])
      {
        PagesMembers(ds[1..], rest[j]);
        var i :| 0 <= i < |ds[1..]| && ds[1..][i] == rest[j];
        assert ds[i + 1] == rest[j];
      }
      if ds[0].PageData? {
        assert Pages(ds) == [ds[0]] + rest;
      } else {
        assert Pages(ds) == rest;
      }
    }
  }

  /** Sorting and picking the pages may be exchanged, and the other directives keep their order. */
  lemma {:induction false} PartsOfSorted(ds: seq<Directive>)
    ensures NonPages(SortBy(SortKey, ds)) == NonPages(ds)
    ensures Pages(SortBy(SortKey, ds)) == SortBy(SortKey, Pages(ds))
  {
    hide SortBy, WithKey, SortKey, NonPages, Pages;
    var s := SortBy(SortKey, ds);
    SortSorted(SortKey, ds);
    SortStable(SortKey, 0, ds);
    NonPagesOfKeyZero(s);
    NonPagesOfKeyZero(ds);
    PagesAreSorted(s);
    SortSorted(SortKey, Pages(ds));
    forall k
      ensures WithKey(SortKey, k, Pages(s)) == WithKey(SortKey, k, SortBy(SortKey, Pages(ds)))
    {
      PagesOfKey(s, k);
      SortStable(SortKey, k, ds);
      PagesOfKey(ds, k);
      SortStable(SortKey, k, Pages(ds));
    }
    SortedStableUnique(SortKey, Pages(s), SortBy(SortKey, Pages(ds)));
  }

  lemma {:induction false} OneOfEach(ds: seq<Directive>, d: Directive)
    requires DistinctPages(ds) && d.PageData?
    ensures multiset(ds)[d] <= 1
  {
    if ds != [] {
      assert ds == [ds[0]] + ds[1..];
      OneOfEach(ds[1..], d);
      if ds[0] == d {
        FirstIsOnly(ds);
        assert d !in multiset(ds[1..]);
      }
    }
  }

  lemma TwiceIn(ds: seq<Directive>, i: nat, k: nat)
    requires i < k < |ds| && ds[i] == ds[k]
    ensures multiset(ds)[ds[i]] >= 2
  {
    assert ds == ds[..k] + ds[k..];
    assert ds[i] in ds[..k] && ds[k] in ds[k..];
    assert multiset(ds) == multiset(ds[..k]) + multiset(ds[k..]);
  }

  lemma SamePlace(ds: seq<Directive>, d: Directive, e: Directive)
    requires DistinctPages(ds) && d in ds && e in ds && d.PageData? && e.PageData? && d.gpa == e.gpa
    ensures d == e
  {
    var i :| 0 <= i < |ds| && ds[i] == d;
    var j :| 0 <= j < |ds| && ds[j] == e;
    assert i == j;
  }

  /** Only the page at zero, if there is one, is followed by anything but pages. */
  lemma {:induction false} SortedOvertakesOnce(ds: seq<Directive>)
    requires DistinctPages(ds)
    ensures Measure.OneOvertaken(SortBy(SortKey, ds))
  {
    hide SortBy;
    var s := SortBy(SortKey, ds);
    SortSorted(SortKey, ds);
    forall i, j, k | 0 <= i < j < |s| && 0 <= k < j && s[i].PageData? && !s[j].PageData? && s[k].PageData?
      ensures k == i
    {
      assert SortKey(s[i]) <= SortKey(s[j]) && SortKey(s[k]) <= SortKey(s[j]);
      assert s[i] in multiset(s) && s[k] in multiset(s);
      SamePlace(ds, s[i], s[k]);
      OneOfEach(ds, s[i]);
      if i < k {
        TwiceIn(s, i, k);
      } else if k < i {
        TwiceIn(s, k, i);
      }
    }
  }

  lemma {:induction false} OnePartMore(ds: seq<Directive>, d: Directive)
    ensures NonPages(ds + [d]) == NonPages(ds) + if d.PageData? then [] else [d]
    ensures Pages(ds + [d]) == Pages(ds) + if d.PageData? then [d] else []
  {
    if ds == [] {
      assert (ds + [d])[1..] == [];
    } else {
      OnePartMore(ds[1..], d);
      assert (ds + [d])[1..] == ds[1..] + [d];
      Assoc(if ds[0].PageData? then [] else [ds[0]], NonPages(ds[1..]), if d.PageData? then [] else [d]);
      Assoc(if ds[0].PageData? then [ds[0]] else [], Pages(ds[1..]), if d.PageData? then [d] else []);
    }
  }

  /** What the measurement takes from each part of a list. */
  lemma {:induction false} PartsMeasured(h: Hashing.Hash, ds: seq<Directive>, areas: map<nat, nat>, compat: bv32)
    ensures Measure.AreaSizes(NonPages(ds)) == Measure.AreaSizes(ds)
    ensures Measure.Vmsas(NonPages(ds), compat) == Measure.Vmsas(ds, compat)
    ensures Measure.InsertedPages(h, NonPages(ds), areas, compat) == Measure.InsertedPages(h, ds, areas, compat)
    ensures Measure.PlacedPages(h, Pages(ds), compat) == Measure.PlacedPages(h, ds, compat)
    ensures Measure.AreasKnown(NonPages(ds), areas, compat) <==> Measure.AreasKnown(ds, areas, compat)
  {
    hide NonPages, Pages, Compatible, Measure.AreaSizes, Measure.Vmsas, Measure.InsertedPages, Measure.PlacedPages;
    hide Measure.AreasKnown, Measure.AreaPages, Measure.PageOf;
    if ds == [] {
      PartsOfNothing();
    } else {
      var init, d := ds[..|ds| - 1], ds[|ds| - 1];
      assert ds == init + [d];
      PartsMeasured(h, init, areas, compat);
      OnePartMore(init, d);
      MeasuredOneMore(h, init, d, areas, compat);
      if d.PageData? {
        MeasuredOneMore(h, Pages(init), d, areas, compat);
        assert NonPages(init) + [] == NonPages(init);
        assert Measure.Vmsas(init, compat) + [] == Measure.Vmsas(init, compat);
        var inserted := Measure.InsertedPages(h, init, areas, compat);
        assert inserted + [] == inserted;
      } else {
        MeasuredOneMore(h, NonPages(init), d, areas, compat);
        assert Pages(init) + [] == Pages(init);
        var placed := Measure.PlacedPages(h, init, compat);
        assert placed + [] == placed;
      }
    }
  }

  lemma PartsOfNothing()
    ensures NonPages([]) == [] && Pages([]) == []
  {
  }

  lemma MeasuredOneMore(h: Hashing.Hash, ds: seq<Directive>, d: Directive, areas: map<nat, nat>, compat: bv32)
    ensures Measure.AreaSizes(ds + [d]) ==
            if d.ParameterArea? then Measure.AreaSizes(ds)[d.index := d.size] else Measure.AreaSizes(ds)
    ensures Measure.Vmsas(ds + [d], compat) ==
            Measure.Vmsas(ds, compat) + if d.SnpVpContext? && Compatible(d.mask, compat) then [d.vmsa] else []
    ensures Measure.InsertedPages(h, ds + [d], areas, compat) ==
            Measure.InsertedPages(h, ds, areas, compat)
            + if IsInsert(d, compat) && d.index in areas
              then Measure.AreaPages(d, DivCeil(areas[d.index], PAGE)) else []
    ensures Measure.PlacedPages(h, ds + [d], compat) ==
            Measure.PlacedPages(h, ds, compat) + if IsPage(d, compat) then [Measure.PageOf(h, d)] else []
    ensures Measure.AreasKnown(ds + [d], areas, compat) <==>
            Measure.AreasKnown(ds, areas, compat) && (IsInsert(d, compat) ==> d.index in areas)
  {
    hide Compatible, Measure.AreaPages, Measure.PageOf;
    var all := ds + [d];
    assert all[..|all| - 1] == ds && all[|all| - 1] == d;
    assert forall i :: 0 <= i < |ds| ==> all[i] == ds[i];
  }

  /**
   * The launch a set of parameters and a list of pages stand for: parameter pages in the order of
   * their inserts, then the pages as listed, then the VMSAs.
   */
  function CanonicalLaunch(h: Hashing.Hash, platforms: seq<Platform>, parameters: seq<Directive>, pages: seq<Directive>)
    : Result<Measure.MeasureResult, Measure.Error>
  {
    match Measure.FindCompat(platforms)
    case None => Err(Measure.NoSnpPlatform)
    case Some(compat) =>
      var areas := Measure.AreaSizes(parameters);
      if !Measure.AreasKnown(parameters, areas, compat) then Err(Measure.UnknownArea)
      else
        var vmsas := Measure.Vmsas(parameters, compat);
        var all := Measure.InsertedPages(h, parameters, areas, compat) + Measure.PlacedPages(h, pages, compat)
                   + Measure.VmsaPages(h, vmsas);
        Ok(Measure.MeasureResult(Measure.MeasurePages(h, Hashing.ZERO_DIGEST, all), |all|, |vmsas| % U32_LIMIT))
  }

  /**
   * What a finalized file measures to, whatever was added in which order: its parameter pages, then
   * its pages by address, then its VMSAs. A page at address zero changes nothing, since it is
   * pending while the inserts behind it are measured.
   */
  lemma {:induction false} LaunchIsCanonical(h: Hashing.Hash, platforms: seq<Platform>, ds: seq<Directive>)
    requires DistinctPages(ds)
    ensures Measure.Launch(h, IgvmFile(platforms, SortBy(SortKey, ds))) ==
            CanonicalLaunch(h, platforms, NonPages(ds), SortBy(SortKey, Pages(ds)))
  {
    hide SortBy, SortKey, NonPages, Pages, Measure.FindCompat, Measure.AreaSizes, Measure.AreasKnown, Measure.Vmsas;
    hide Measure.InsertedPages, Measure.PlacedPages, Measure.MeasurePages, Measure.BatchRun, Measure.SlotPage;
    var s := SortBy(SortKey, ds);
    PartsOfSorted(ds);
    if Measure.FindCompat(platforms).Some? {
      var compat := Measure.FindCompat(platforms).value;
      var areas := Measure.AreaSizes(s);
      PartsMeasured(h, s, areas, compat);
      SortedOvertakesOnce(ds);
      Measure.OvertakenOrder(h, s, |s|, areas, compat);
      assert s[..|s|] == s;
    }
  }

  /** So the digest, the count and the refusals do not depend on the order in which pages were added. */
  lemma {:induction false} LaunchIgnoresPageOrder(h: Hashing.Hash, platforms: seq<Platform>,
                                                  a: seq<Directive>, b: seq<Directive>)
    requires DistinctPages(a) && DistinctPages(b) && SamePageSet(a, b) && NonPages(a) == NonPages(b)
    ensures Measure.Launch(h, IgvmFile(platforms, SortBy(SortKey, a))) ==
            Measure.Launch(h, IgvmFile(platforms, SortBy(SortKey, b)))
  {
    hide SortBy, SortKey, NonPages, Pages, Measure.Launch, CanonicalLaunch, DistinctPages;
    LaunchIsCanonical(h, platforms, a);
    LaunchIsCanonical(h, platforms, b);
    PagesSortAlike(a, b);
  }

  lemma {:induction false} PagesSortAlike(a: seq<Directive>, b: seq<Directive>)
    requires DistinctPages(a) && DistinctPages(b) && SamePageSet(a, b)
    ensures SortBy(SortKey, Pages(a)) == SortBy(SortKey, Pages(b))
  {
    hide SortBy, WithKey, Pages;
    SortsAlikeExactly(SortKey, Pages(a), Pages(b));
    forall k
      ensures WithKey(SortKey, k, Pages(a)) == WithKey(SortKey, k, Pages(b))
    {
      PagesOfKey(a, k);
      PagesOfKey(b, k);
      PageOfKey(a, k);
      PageOfKey(b, k);
      SameSingletons(Pages(WithKey(SortKey, k, a)), Pages(WithKey(SortKey, k, b)));
    }
  }

  /** There is at most one page at each address, zero included. */
  lemma {:induction false} PageOfKey(ds: seq<Directive>, k: int)
    requires DistinctPages(ds)
    ensures |Pages(WithKey(SortKey, k, ds))| <= 1
    ensures forall d :: d in Pages(WithKey(SortKey, k, ds)) <==> d in ds && d.PageData? && d.gpa == k
  {
    if ds != [] {
      PageOfKey(ds[1..], k);
      var later := WithKey(SortKey, k, ds[1..]);
      if SortKey(ds[0]) == k {
        assert ([ds[0]] + later)[1..] == later;
        if ds[0].PageData? {
          FirstIsOnly(ds);
          if Pages(later) != [] {
            SomeElement(Pages(later));
          }
        } else {
          assert [] + Pages(later) == Pages(later);
        }
      }
      forall d
        ensures d in Pages(WithKey(SortKey, k, ds)) <==> d in ds && d.PageData? && d.gpa == k
      {
        assert d in ds <==> d == ds[0] || d in ds[1..];
      }
    }
  }

  /** Without a page at zero that is also the order of the directives themselves. */
  lemma {:induction false} LaunchIsPlain(h: Hashing.Hash, platforms: seq<Platform>, ds: seq<Directive>)
    requires NoPageAtZero(ds)
    requires Measure.Launch(h, IgvmFile(platforms, SortBy(SortKey, ds))).Ok?
    ensures Measure.Launch(h, IgvmFile(platforms, SortBy(SortKey, ds))).value.digest ==
            Measure.PlainDigest(h, SortBy(SortKey, ds), Measure.FindCompat(platforms).value)
  {
    hide SortBy, Measure.Launch, Measure.PlainDigest, Measure.FindCompat, SortKey, Measure.AreaSizes;
    var x := IgvmFile(platforms, SortBy(SortKey, ds));
    var compat := CompatOf(h, x);
    var areas := Measure.AreaSizes(x.directives);
    if Measure.Overtakes(x.directives, areas, compat) {
      var i, j :| 0 <= i < j < |x.directives| && IsPage(x.directives[i], compat)
                  && Measure.OvertakingInsert(x.directives[j], areas, compat);
      PagesComeLast(ds, i, j);
      PageDoesNotOvertake(x.directives[j], areas, compat);
      assert false;
    }
    Measure.PlainLaunch(h, x);
  }

  lemma CompatOf(h: Hashing.Hash, igvm: IgvmFile) returns (compat: bv32)
    requires Measure.Launch(h, igvm).Ok?
    ensures Measure.FindCompat(igvm.platforms) == Some(compat)
  {
    hide Measure.FindCompat, Measure.LaunchPages;
    compat := Measure.FindCompat(igvm.platforms).value;
  }

  lemma PageDoesNotOvertake(d: Directive, areas: map<nat, nat>, compat: bv32)
    requires d.PageData?
    ensures !Measure.OvertakingInsert(d, areas, compat)
  {
  }
}
