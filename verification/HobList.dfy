/**
 * Kernel, shim and certificate injection: the blob list of crates/igvm-tools/src/hob.rs and the
 * order in which `add_hob_data` (crates/igvm-tools/src/build.rs) writes it into the page list.
 */
module HobList {
  import opened ByteLayout
  import opened Wrappers
  import opened Directives
  import opened Builder
  import Measure

  const BLOB_BASE: nat := 0x2000_0000
  const GUID_EXTENSION: nat := 4
  const END_OF_LIST: nat := 0xFFFF

  datatype DataType = Pk | Kek | Db | Dbx | Shim | Kernel

  function Code(t: DataType): nat {
    match t
    case Pk => 0x100
    case Kek => 0x101
    case Db => 0x102
    case Dbx => 0x103
    case Shim => 0x200
    case Kernel => 0x201
  }

  datatype Input = Input(kind: DataType, data: Bytes, measured: bool)
  datatype Blob = Blob(addr: nat, data: Bytes, kind: DataType, measured: bool)

  function RoundUp(n: nat): (r: nat)
    ensures r % PAGE == 0 && n <= r < n + PAGE
  {
    DivCeil(n, PAGE) * PAGE
  }

  /** Blobs one after the other from `base`, each starting on a page. */
  function LayOut(inputs: seq<Input>, base: nat): (blobs: seq<Blob>)
    ensures |blobs| == |inputs|
  {
    if inputs == [] then []
    else
      [Blob(base, inputs[0].data, inputs[0].kind, inputs[0].measured)]
      + LayOut(inputs[1..], base + RoundUp(|inputs[0].data|))
  }

  function Extent(inputs: seq<Input>): nat {
    if inputs == [] then 0 else RoundUp(|inputs[0].data|) + Extent(inputs[1..])
  }

  /** 3dd177ff-b632-4e25-bef3-065063d55fc4, in EFI byte order. */
  function DataHobGuid(): (g: Bytes)
    ensures |g| == 16
  {
    [0xff, 0x77, 0xd1, 0x3d, 0x32, 0xb6, 0x25, 0x4e, 0xbe, 0xf3, 0x06, 0x50, 0x63, 0xd5, 0x5f, 0xc4]
  }

  function HobHeader(hobType: nat, length: nat): (bs: Bytes)
    ensures |bs| == 8
  {
    ToLe(hobType, 2) + ToLe(length, 2) + Zeros(4)
  }

  /** The 48-byte EfiIgvmDataHob. */
  function DataHob(b: Blob): (bs: Bytes)
    ensures |bs| == 48
  {
    HobHeader(GUID_EXTENSION, 48) + DataHobGuid() + ToLe(b.addr, 8) + ToLe(|b.data|, 8) + ToLe(Code(b.kind), 4)
    + Zeros(4)
  }

  function DataHobs(blobs: seq<Blob>): Bytes {
    if blobs == [] then [] else DataHobs(blobs[..|blobs| - 1]) + DataHob(blobs[|blobs| - 1])
  }

  function HobBytes(blobs: seq<Blob>): Bytes {
    DataHobs(blobs) + HobHeader(END_OF_LIST, 8)
  }

  function Chosen(blobs: seq<Blob>, measured: bool): seq<Blob> {
    if blobs == [] then []
    else (if blobs[0].measured == measured then [blobs[0]] else []) + Chosen(blobs[1..], measured)
  }

  class IgvmDataList {
    var base: nat
    var data: seq<Blob>
    ghost var inputs: seq<Input>
    ghost const start: nat

    constructor (base: nat)
      ensures Valid() && inputs == [] && start == base
    {
      this.base, data, inputs, start := base, [], [], base;
    }

    ghost predicate Valid()
      reads this
    {
      data == LayOut(inputs, start) && base == start + Extent(inputs)
    }

    method Add(blob: Bytes, kind: DataType, measured: bool)
      requires Valid()
      modifies this
      ensures Valid() && inputs == old(inputs) + [Input(kind, blob, measured)]
    {
      LayOutConcat(inputs, [Input(kind, blob, measured)], start);
      inputs := inputs + [Input(kind, blob, measured)];
      data := data + [Blob(base, blob, kind, measured)];
      base := base + RoundUp(|blob|);
    }

    method Hobs() returns (blob: Bytes)
      requires Valid()
      ensures blob == HobBytes(data)
    {
      blob := [];
      for i := 0 to |data|
        invariant blob == DataHobs(data[..i])
      {
        assert data[..i + 1][..i] == data[..i];
        blob := blob + DataHob(data[i]);
      }
      assert data[..|data|] == data;
      blob := blob + HobHeader(END_OF_LIST, 8);
    }

    function Blobs(measured: bool): seq<Blob>
      reads this
    {
      Chosen(data, measured)
    }
  }

  lemma LayOutOne(b: seq<Input>, base: nat)
    ensures |b| == 1 ==>
              && LayOut(b, base) == [Blob(base, b[0].data, b[0].kind, b[0].measured)]
              && Extent(b) == RoundUp(|b[0].data|)
  {
    hide RoundUp;
    if |b| == 1 {
      assert b[1..] == [];
    }
  }

  lemma {:induction false} LayOutConcat(a: seq<Input>, b: seq<Input>, base: nat)
    ensures LayOut(a + b, base) == LayOut(a, base) + LayOut(b, base + Extent(a))
    ensures Extent(a + b) == Extent(a) + Extent(b)
    ensures |b| == 1 ==>
              && LayOut(b, base + Extent(a)) == [Blob(base + Extent(a), b[0].data, b[0].kind, b[0].measured)]
              && Extent(b) == RoundUp(|b[0].data|)
  {
    hide RoundUp;
    LayOutOne(b, base + Extent(a));
    if a == [] {
      assert a + b == b;
    } else {
      var next := base + RoundUp(|a[0].data|);
      LayOutConcat(a[1..], b, next);
      assert (a + b)[1..] == a[1..] + b && (a + b)[0] == a[0];
      assert next + Extent(a[1..]) == base + Extent(a);
      Assoc([Blob(base, a[0].data, a[0].kind, a[0].measured)], LayOut(a[1..], next), LayOut(b, base + Extent(a)));
    }
  }

  // ---------------------------------------------------------------------------------------------
  // add_hob_data
  // ---------------------------------------------------------------------------------------------

  datatype HobInputs = HobInputs(
    pk: Option<Bytes>, kek: Option<Bytes>, db: Option<Bytes>, dbx: Option<Bytes>,
    shim: Option<Bytes>, kernel: Option<Bytes>)

  datatype Area = Area(base: nat, size: nat)

  function Optional(data: Option<Bytes>, kind: DataType, measured: bool): seq<Input> {
    match data case None => [] case Some(bs) => [Input(kind, bs, measured)]
  }

  function Certificates(i: HobInputs): seq<Input> {
    Optional(i.pk, Pk, true) + Optional(i.kek, Kek, true) + Optional(i.db, Db, true) + Optional(i.dbx, Dbx, true)
  }

  /** The order of `add` calls; only the shim is unmeasured. */
  function AddOrder(i: HobInputs): seq<Input> {
    Certificates(i) + Optional(i.shim, Shim, false) + Optional(i.kernel, Kernel, true)
  }

  function PlaceBlob(ds: seq<Directive>, b: Blob, mask: bv32): seq<Directive> {
    WithoutRange(ds, b.addr, |b.data|) + DataPages(b.addr, b.data, mask, !b.measured, DivCeil(|b.data|, PAGE))
  }

  function PlaceAll(ds: seq<Directive>, bs: seq<Blob>, mask: bv32): seq<Directive> {
    if bs == [] then ds
    else PlaceBlob(PlaceAll(ds, bs[..|bs| - 1], mask), bs[|bs| - 1], mask)
  }

  function WithHobArea(ds: seq<Directive>, area: Area, hobs: Bytes, mask: bv32): seq<Directive> {
    WithoutRange(ds, area.base, area.size) + DataPages(area.base, hobs, mask, false, DivCeil(|hobs|, PAGE))
  }

  /** The hob page, then the measured blobs, then the unmeasured one. */
  function WithHobData(ds: seq<Directive>, area: Area, blobs: seq<Blob>, mask: bv32): seq<Directive> {
    PlaceAll(WithHobArea(ds, area, HobBytes(blobs), mask), Chosen(blobs, true) + Chosen(blobs, false), mask)
  }

  method PlaceEach(builder: Builder, bs: seq<Blob>, unmeasured: bool, ghost ds: seq<Directive>, ghost before: seq<Blob>)
    requires builder.directives == PlaceAll(ds, before, builder.maskAll)
    requires forall i :: 0 <= i < |bs| ==> bs[i].measured == !unmeasured
    modifies builder`directives
    ensures builder.directives == PlaceAll(ds, before + bs, builder.maskAll)
  {
    hide PlaceAll, WithoutRange, DataPages;
    assert before + [] == before;
    for i := 0 to |bs|
      invariant builder.directives == PlaceAll(ds, before + bs[..i], builder.maskAll)
    {
      assert before + bs[..i + 1] == before + bs[..i] + [bs[i]];
      PlaceOneMore(ds, before + bs[..i], bs[i], builder.maskAll);
      builder.RemovePageDataInRange(bs[i].addr, |bs[i].data|);
      builder.AddDataPages(bs[i].addr, bs[i].data, unmeasured);
    }
    assert bs[..|bs|] == bs;
  }

  lemma PlaceOneMore(ds: seq<Directive>, bs: seq<Blob>, b: Blob, mask: bv32)
    ensures PlaceAll(ds, bs + [b], mask) == PlaceBlob(PlaceAll(ds, bs, mask), b, mask)
  {
    assert (bs + [b])[..|bs|] == bs;
  }

  method AddOptional(list: IgvmDataList, data: Option<Bytes>, kind: DataType, measured: bool)
    requires list.Valid()
    modifies list
    ensures list.Valid() && list.inputs == old(list.inputs) + Optional(data, kind, measured)
  {
    assert list.inputs + [] == list.inputs;
    match data {
      case None =>
      case Some(blob) => list.Add(blob, kind, measured);
    }
  }

  lemma {:induction false} ChosenHave(blobs: seq<Blob>, measured: bool)
    ensures forall i :: 0 <= i < |Chosen(blobs, measured)| ==> Chosen(blobs, measured)[i].measured == measured
  {
    if blobs != [] {
      ChosenHave(blobs[1..], measured);
    }
  }

  /** False when a blob was given but the firmware has no hob area. */
  method AddHobData(builder: Builder, area: Option<Area>, inputs: HobInputs) returns (ok: bool)
    modifies builder`directives
    ensures AddOrder(inputs) == [] ==> ok && builder.directives == old(builder.directives)
    ensures AddOrder(inputs) != [] ==> ok == area.Some?
    ensures !ok ==> builder.directives == old(builder.directives)
    ensures AddOrder(inputs) != [] && area.Some? ==>
              builder.directives == WithHobData(old(builder.directives), area.value,
                                                LayOut(AddOrder(inputs), BLOB_BASE), builder.maskAll)
  {
    hide LayOut, HobBytes, Chosen, PlaceAll, DataPages, WithoutRange, Extent;
    if inputs.pk.None? && inputs.kek.None? && inputs.db.None? && inputs.dbx.None? && inputs.shim.None?
       && inputs.kernel.None? {
      return true;
    }
    assert AddOrder(inputs) != [];
    if area.None? {
      return false;
    }
    var list := new IgvmDataList(BLOB_BASE);
    AddOptional(list, inputs.pk, Pk, true);
    AddOptional(list, inputs.kek, Kek, true);
    AddOptional(list, inputs.db, Db, true);
    AddOptional(list, inputs.dbx, Dbx, true);
    AddOptional(list, inputs.shim, Shim, false);
    AddOptional(list, inputs.kernel, Kernel, true);
    assert list.inputs == AddOrder(inputs);
    var hobs := list.Hobs();
    builder.RemovePageDataInRange(area.value.base, area.value.size);
    builder.AddDataPages(area.value.base, hobs, false);
    PlaceInOrder(builder, list);
    return true;
  }

  /** The loops over the measured and then over the other blobs. */
  method PlaceInOrder(builder: Builder, list: IgvmDataList)
    modifies builder`directives
    ensures builder.directives ==
            PlaceAll(old(builder.directives), Chosen(list.data, true) + Chosen(list.data, false), builder.maskAll)
  {
    hide Chosen, PlaceAll, DataPages, WithoutRange;
    ghost var ds := builder.directives;
    ChosenHave(list.data, true);
    ChosenHave(list.data, false);
    NothingPlaced(ds, builder.maskAll);
    PlaceEach(builder, list.Blobs(true), false, ds, []);
    assert [] + list.Blobs(true) == list.Blobs(true);
    PlaceEach(builder, list.Blobs(false), true, ds, list.Blobs(true));
  }

  lemma NothingPlaced(ds: seq<Directive>, mask: bv32)
    ensures PlaceAll(ds, [], mask) == ds
  {
  }

  // ---------------------------------------------------------------------------------------------
  // Guest memory
  // ---------------------------------------------------------------------------------------------

  /** The PageData directives that cover guest address `x`. */
  function Covering(ds: seq<Directive>, x: nat): (c: seq<Directive>)
    ensures forall d :: d in c ==> d.PageData? && d.gpa <= x < d.gpa + PAGE
  {
    if ds == [] then []
    else
      (if ds[0].PageData? && ds[0].gpa <= x < ds[0].gpa + PAGE then [ds[0]] else []) + Covering(ds[1..], x)
  }

  ghost predicate Aligned(ds: seq<Directive>) {
    forall i :: 0 <= i < |ds| && ds[i].PageData? ==> ds[i].gpa % PAGE == 0
  }

  lemma {:induction false} CoveringConcat(a: seq<Directive>, b: seq<Directive>, x: nat)
    ensures Covering(a + b, x) == Covering(a, x) + Covering(b, x)
  {
    if a == [] {
      assert a + b == b;
    } else {
      var own := if a[0].PageData? && a[0].gpa <= x < a[0].gpa + PAGE then [a[0]] else [];
      CoveringConcat(a[1..], b, x);
      assert (a + b)[1..] == a[1..] + b && (a + b)[0] == a[0];
      assert Covering(a + b, x) == own + Covering(a[1..] + b, x);
      Assoc(own, Covering(a[1..], x), Covering(b, x));
    }
  }

  /** How far a removal reaches: at least one page. */
  function Reach(size: nat): (r: nat)
    ensures r % PAGE == 0 && r >= PAGE && r >= RoundUp(size)
    ensures size > 0 ==> r == RoundUp(size)
  {
    if size == 0 then PAGE else RoundUp(size)
  }

  lemma AlignedInRange(d: Directive, base: nat, size: nat, x: nat)
    requires d.PageData? && d.gpa % PAGE == 0 && base % PAGE == 0 && d.gpa <= x < d.gpa + PAGE
    ensures InRange(d, base, size) <==> base <= x < base + Reach(size)
  {
  }

  lemma CoveringCons(d: Directive, ds: seq<Directive>, x: nat)
    ensures Covering([d] + ds, x) ==
            if d.PageData? && d.gpa <= x < d.gpa + PAGE then [d] + Covering(ds, x) else Covering(ds, x)
  {
    assert ([d] + ds)[0] == d && ([d] + ds)[1..] == ds;
    assert [] + Covering(ds, x) == Covering(ds, x);
  }

  lemma WithoutNone(base: nat, size: nat)
    ensures WithoutRange([], base, size) == []
  {
  }

  lemma WithoutCons(ds: seq<Directive>, base: nat, size: nat)
    requires ds != []
    ensures var rest := WithoutRange(ds[1..], base, size);
            WithoutRange(ds, base, size) == if InRange(ds[0], base, size) then rest else [ds[0]] + rest
  {
    hide InRange;
    var rest := WithoutRange(ds[1..], base, size);
    assert [] + rest == rest;
  }

  lemma AlignedTail(ds: seq<Directive>)
    requires ds != [] && Aligned(ds)
    ensures Aligned(ds[1..]) && (ds[0].PageData? ==> ds[0].gpa % PAGE == 0)
  {
  }

  lemma AlignedCons(d: Directive, ds: seq<Directive>)
    requires Aligned(ds) && (d.PageData? ==> d.gpa % PAGE == 0)
    ensures Aligned([d] + ds)
  {
  }

  lemma {:induction false} CoveringWithout(ds: seq<Directive>, base: nat, size: nat, x: nat)
    requires Aligned(ds) && base % PAGE == 0
    ensures Aligned(WithoutRange(ds, base, size))
    ensures Covering(WithoutRange(ds, base, size), x) == if base <= x < base + Reach(size) then [] else Covering(ds, x)
  {
    hide Reach, InRange, Covering, Aligned, WithoutRange;
    if ds == [] {
      CoveringNone(x);
      WithoutNone(base, size);
    } else {
      var d := ds[0];
      var rest := WithoutRange(ds[1..], base, size);
      AlignedTail(ds);
      CoveringWithout(ds[1..], base, size, x);
      CoveringCons(d, ds[1..], x);
      assert ds == [d] + ds[1..];
      WithoutCons(ds, base, size);
      if d.PageData? && d.gpa <= x < d.gpa + PAGE {
        AlignedInRange(d, base, size, x);
      }
      if !InRange(d, base, size) {
        CoveringCons(d, rest, x);
        AlignedCons(d, rest);
      }
    }
  }

  lemma {:induction false} CoveringData(base: nat, data: Bytes, mask: bv32, unmeasured: bool, n: nat, x: nat)
    requires n <= DivCeil(|data|, PAGE) && base % PAGE == 0
    ensures Aligned(DataPages(base, data, mask, unmeasured, n))
    ensures Covering(DataPages(base, data, mask, unmeasured, n), x) ==
            if base <= x < base + n * PAGE then [DataPage(base, data, mask, unmeasured, (x - base) / PAGE)] else []
  {
    hide DataPage, DivCeil, Covering;
    if n == 0 {
      CoveringNone(x);
    } else {
      var init := DataPages(base, data, mask, unmeasured, n - 1);
      LastPage(|data|, n);
      var page := DataPage(base, data, mask, unmeasured, n - 1);
      DataPageAddress(base, data, mask, unmeasured, n - 1);
      CoveringData(base, data, mask, unmeasured, n - 1, x);
      CoveringConcat(init, [page], x);
      CoveringOne(page, x);
      if base + (n - 1) * PAGE <= x < base + n * PAGE {
        PageIndex(x - base, n - 1);
      }
    }
  }

  lemma CoveringNone(x: nat)
    ensures Covering([], x) == []
  {
  }

  lemma LastPage(length: nat, n: nat)
    requires 0 < n <= DivCeil(length, PAGE)
    ensures (n - 1) * PAGE < length
  {
  }

  lemma PageIndex(offset: nat, n: nat)
    requires n * PAGE <= offset < (n + 1) * PAGE
    ensures offset / PAGE == n
  {
  }

  lemma DataPageAddress(base: nat, data: Bytes, mask: bv32, unmeasured: bool, pg: nat)
    requires pg * PAGE < |data| && base % PAGE == 0
    ensures var d := DataPage(base, data, mask, unmeasured, pg);
            d.PageData? && d.gpa == base + pg * PAGE && d.gpa % PAGE == 0
  {
  }

  lemma CoveringOne(d: Directive, x: nat)
    ensures Covering([d], x) == if d.PageData? && d.gpa <= x < d.gpa + PAGE then [d] else []
  {
    assert [d][1..] == [];
  }

  /** The page that should hold address `x` of a blob. */
  function BlobPage(b: Blob, mask: bv32, x: nat): Directive
    requires b.addr <= x < b.addr + RoundUp(|b.data|)
  {
    DataPage(b.addr, b.data, mask, !b.measured, (x - b.addr) / PAGE)
  }

  /** That page carries the blob's own byte at `x`, or zero padding past its end. */
  lemma PageHoldsBlob(b: Blob, mask: bv32, x: nat)
    requires b.addr <= x < b.addr + RoundUp(|b.data|) && b.addr % PAGE == 0
    ensures var d := BlobPage(b, mask, x);
            && d.PageData? && d.gpa <= x < d.gpa + PAGE && d.gpa % PAGE == 0
            && d.unmeasured == !b.measured && d.mask == mask && d.kind == Normal
            && Measure.Padded(d.data)[x - d.gpa] == if x - b.addr < |b.data| then b.data[x - b.addr] else 0
  {
    DataPageAddress(b.addr, b.data, mask, !b.measured, (x - b.addr) / PAGE);
  }

  predicate Touches(b: Blob, x: nat) {
    b.addr <= x < b.addr + Reach(|b.data|)
  }

  /** Placing a blob replaces what covered its pages, and changes nothing else. */
  lemma PlaceCovers(ds: seq<Directive>, b: Blob, mask: bv32, x: nat)
    requires Aligned(ds) && b.addr % PAGE == 0
    ensures Aligned(PlaceBlob(ds, b, mask))
    ensures Covering(PlaceBlob(ds, b, mask), x) ==
            if b.addr <= x < b.addr + RoundUp(|b.data|) then [BlobPage(b, mask, x)]
            else if Touches(b, x) then [] else Covering(ds, x)
  {
    hide DataPages, WithoutRange, Covering;
    var n := DivCeil(|b.data|, PAGE);
    CoveringWithout(ds, b.addr, |b.data|, x);
    CoveringData(b.addr, b.data, mask, !b.measured, n, x);
    CoveringConcat(WithoutRange(ds, b.addr, |b.data|), DataPages(b.addr, b.data, mask, !b.measured, n), x);
    assert Covering(ds, x) + [] == Covering(ds, x);
  }

  ghost predicate AllAligned(bs: seq<Blob>) {
    forall i :: 0 <= i < |bs| ==> bs[i].addr % PAGE == 0
  }

  lemma {:induction false} PlacedIsAligned(ds: seq<Directive>, bs: seq<Blob>, mask: bv32)
    requires Aligned(ds) && AllAligned(bs)
    ensures Aligned(PlaceAll(ds, bs, mask))
  {
    hide PlaceBlob;
    if bs != [] {
      PlacedIsAligned(ds, bs[..|bs| - 1], mask);
      PlaceCovers(PlaceAll(ds, bs[..|bs| - 1], mask), bs[|bs| - 1], mask, 0);
    }
  }

  /** The last placement that touches an address decides what is there. */
  lemma {:induction false} LastPlacementWins(ds: seq<Directive>, bs: seq<Blob>, mask: bv32, k: nat, x: nat)
    requires Aligned(ds) && AllAligned(bs) && k < |bs| && Touches(bs[k], x)
    requires forall j :: k < j < |bs| ==> !Touches(bs[j], x)
    ensures Covering(PlaceAll(ds, bs, mask), x) ==
            if x < bs[k].addr + RoundUp(|bs[k].data|) then [BlobPage(bs[k], mask, x)] else []
  {
    hide PlaceBlob, Touches, Covering;
    var init, last := bs[..|bs| - 1], bs[|bs| - 1];
    PlacedIsAligned(ds, init, mask);
    PlaceCovers(PlaceAll(ds, init, mask), last, mask, x);
    TouchesFrom(bs[k], x);
    if k < |bs| - 1 {
      LastPlacementWins(ds, init, mask, k, x);
      TouchesFrom(last, x);
    }
  }

  lemma TouchesFrom(b: Blob, x: nat)
    ensures Touches(b, x) ==> b.addr <= x
    ensures b.addr <= x < b.addr + RoundUp(|b.data|) ==> Touches(b, x)
    ensures b.data != [] && Touches(b, x) ==> x < b.addr + RoundUp(|b.data|)
    ensures b.data == [] ==> RoundUp(|b.data|) == 0 && (Touches(b, x) <==> b.addr <= x < b.addr + PAGE)
  {
  }

  lemma {:induction false} UntouchedStays(ds: seq<Directive>, bs: seq<Blob>, mask: bv32, x: nat)
    requires Aligned(ds) && AllAligned(bs)
    requires forall j :: 0 <= j < |bs| ==> !Touches(bs[j], x)
    ensures Covering(PlaceAll(ds, bs, mask), x) == Covering(ds, x)
  {
    hide PlaceBlob, Touches, Covering;
    if bs != [] {
      var init, last := bs[..|bs| - 1], bs[|bs| - 1];
      PlacedIsAligned(ds, init, mask);
      PlaceCovers(PlaceAll(ds, init, mask), last, mask, x);
      TouchesFrom(last, x);
      UntouchedStays(ds, init, mask, x);
    }
  }

  // ---------------------------------------------------------------------------------------------
  // Where the blobs are
  // ---------------------------------------------------------------------------------------------

  /** Page-aligned blobs above `lo`, none reaching past the next or past `hi`. */
  ghost predicate Stacked(blobs: seq<Blob>, lo: nat, hi: nat) {
    && AllAligned(blobs)
    && (forall i :: 0 <= i < |blobs| ==> lo <= blobs[i].addr && blobs[i].addr + RoundUp(|blobs[i].data|) <= hi)
    && forall i, j :: 0 <= i < j < |blobs| ==> blobs[i].addr + RoundUp(|blobs[i].data|) <= blobs[j].addr
  }

  lemma {:induction false} LayOutIsStacked(inputs: seq<Input>, base: nat)
    requires base % PAGE == 0
    ensures Stacked(LayOut(inputs, base), base, base + Extent(inputs))
    ensures Extent(inputs) % PAGE == 0
  {
    hide RoundUp;
    if inputs != [] {
      RoundUpAligned(base, |inputs[0].data|);
      LayOutIsStacked(inputs[1..], base + RoundUp(|inputs[0].data|));
      RoundUpAligned(Extent(inputs[1..]), |inputs[0].data|);
    }
  }

  lemma RoundUpAligned(a: nat, n: nat)
    requires a % PAGE == 0
    ensures (a + RoundUp(n)) % PAGE == 0 && RoundUp(n) >= 0
  {
  }

  lemma {:induction false} ChosenAll(blobs: seq<Blob>, measured: bool)
    requires forall i :: 0 <= i < |blobs| ==> blobs[i].measured == measured
    ensures Chosen(blobs, measured) == blobs && Chosen(blobs, !measured) == []
  {
    if blobs != [] {
      ChosenAll(blobs[1..], measured);
      assert [blobs[0]] + blobs[1..] == blobs;
    }
  }

  lemma {:induction false} ChosenConcat(a: seq<Blob>, b: seq<Blob>, measured: bool)
    ensures Chosen(a + b, measured) == Chosen(a, measured) + Chosen(b, measured)
  {
    if a == [] {
      assert a + b == b;
    } else {
      ChosenConcat(a[1..], b, measured);
      assert (a + b)[1..] == a[1..] + b && (a + b)[0] == a[0];
      Assoc(if a[0].measured == measured then [a[0]] else [], Chosen(a[1..], measured), Chosen(b, measured));
    }
  }

  lemma {:induction false} LayOutKeepsFlags(inputs: seq<Input>, base: nat)
    ensures forall i :: 0 <= i < |inputs| ==> LayOut(inputs, base)[i].measured == inputs[i].measured
    ensures forall i :: 0 <= i < |inputs| ==> LayOut(inputs, base)[i].data == inputs[i].data
    ensures forall i :: 0 <= i < |inputs| ==> LayOut(inputs, base)[i].kind == inputs[i].kind
  {
    if inputs != [] {
      LayOutKeepsFlags(inputs[1..], base + RoundUp(|inputs[0].data|));
    }
  }

  /** Certificates, shim and kernel as laid out. */
  function Front(i: HobInputs): seq<Blob> { LayOut(Certificates(i), BLOB_BASE) }

  function ShimBlob(i: HobInputs): seq<Blob> {
    LayOut(Optional(i.shim, Shim, false), BLOB_BASE + Extent(Certificates(i)))
  }

  function KernelBlob(i: HobInputs): seq<Blob> {
    LayOut(Optional(i.kernel, Kernel, true),
           BLOB_BASE + Extent(Certificates(i)) + Extent(Optional(i.shim, Shim, false)))
  }

  lemma PlacementOrder(i: HobInputs)
    ensures var blobs := LayOut(AddOrder(i), BLOB_BASE);
            && blobs == Front(i) + ShimBlob(i) + KernelBlob(i)
            && Chosen(blobs, true) + Chosen(blobs, false) == Front(i) + KernelBlob(i) + ShimBlob(i)
  {
    hide LayOut, Extent, Chosen, RoundUp;
    var c, s, k := Certificates(i), Optional(i.shim, Shim, false), Optional(i.kernel, Kernel, true);
    LayOutConcat(c, s, BLOB_BASE);
    LayOutConcat(c + s, k, BLOB_BASE);
    LayOutKeepsFlags(c, BLOB_BASE);
    LayOutKeepsFlags(s, BLOB_BASE + Extent(c));
    LayOutKeepsFlags(k, BLOB_BASE + Extent(c) + Extent(s));
    ChosenAll(Front(i), true);
    ChosenAll(ShimBlob(i), false);
    ChosenAll(KernelBlob(i), true);
    ChosenConcat(Front(i), ShimBlob(i), true);
    ChosenConcat(Front(i) + ShimBlob(i), KernelBlob(i), true);
    ChosenConcat(Front(i), ShimBlob(i), false);
    ChosenConcat(Front(i) + ShimBlob(i), KernelBlob(i), false);
  }

  /** The one input that loses a page: an empty shim wipes the first page of a kernel. */
  predicate EmptyShimBeforeKernel(i: HobInputs) {
    i.shim == Some([]) && i.kernel.Some? && i.kernel.value != []
  }

  /** Blob `k` of the placement order is never touched again, unless the shim is empty. */
  lemma LaterDoNotTouch(i: HobInputs, k: nat, x: nat)
    requires var bs := Front(i) + KernelBlob(i) + ShimBlob(i);
             && k < |bs| && bs[k].addr <= x < bs[k].addr + RoundUp(|bs[k].data|)
    requires !EmptyShimBeforeKernel(i)
    ensures var bs := Front(i) + KernelBlob(i) + ShimBlob(i);
            && AllAligned(bs) && Touches(bs[k], x) && forall j :: k < j < |bs| ==> !Touches(bs[j], x)
  {
    hide LayOut, Extent, RoundUp, Certificates;
    var bs := Front(i) + KernelBlob(i) + ShimBlob(i);
    StackedParts(i);
    TouchesFrom(bs[k], x);
    forall j | k < j < |bs|
      ensures !Touches(bs[j], x)
    {
      TouchesFrom(bs[j], x);
    }
  }

  lemma StackedParts(i: HobInputs)
    ensures var shimAt := BLOB_BASE + Extent(Certificates(i));
            var kernelAt := shimAt + Extent(Optional(i.shim, Shim, false));
            && shimAt % PAGE == 0 && kernelAt % PAGE == 0
            && Stacked(Front(i), BLOB_BASE, shimAt)
            && ShimBlob(i) == (if i.shim.None? then [] else [Blob(shimAt, i.shim.value, Shim, false)])
            && KernelBlob(i) == (if i.kernel.None? then [] else [Blob(kernelAt, i.kernel.value, Kernel, true)])
            && kernelAt == shimAt + if i.shim.None? then 0 else RoundUp(|i.shim.value|)
  {
    hide RoundUp, Certificates;
    LayOutIsStacked(Certificates(i), BLOB_BASE);
    LayOutIsStacked(Optional(i.shim, Shim, false), BLOB_BASE + Extent(Certificates(i)));
    var s, k := Optional(i.shim, Shim, false), Optional(i.kernel, Kernel, true);
    if i.shim.Some? {
      assert s[1..] == [];
    }
    if i.kernel.Some? {
      assert k[1..] == [];
    }
    RoundUpSum(BLOB_BASE + Extent(Certificates(i)), Extent(s));
  }

  lemma RoundUpSum(a: nat, b: nat)
    requires a % PAGE == 0 && b % PAGE == 0
    ensures (a + b) % PAGE == 0
  {
  }

  /** Every byte of every blob is covered by exactly one page, the right one. */
  ghost predicate BlobsPlaced(final: seq<Directive>, blobs: seq<Blob>, mask: bv32) {
    forall k, x: nat ::
      0 <= k < |blobs| && blobs[k].addr <= x < blobs[k].addr + RoundUp(|blobs[k].data|) ==>
        Covering(final, x) == [BlobPage(blobs[k], mask, x)]
  }

  lemma HobAreaIsAligned(ds: seq<Directive>, area: Area, hobs: Bytes, mask: bv32)
    requires Aligned(ds) && area.base % PAGE == 0
    ensures Aligned(WithHobArea(ds, area, hobs, mask))
  {
    hide DataPages, WithoutRange, Covering;
    CoveringWithout(ds, area.base, area.size, 0);
    CoveringData(area.base, hobs, mask, false, DivCeil(|hobs|, PAGE), 0);
  }

  /**
   * After `add_hob_data` every blob sits, zero-padding aside, at exactly its address, one page
   * directive per page, with the requested measured flag - if and only if the shim is not an empty
   * file in front of a kernel. An empty shim shares its address with the kernel, is placed last,
   * and clears at least one page.
   */
  lemma HobDataIsPlaced(ds: seq<Directive>, area: Area, i: HobInputs, mask: bv32)
    requires Aligned(ds) && area.base % PAGE == 0
    ensures var blobs := LayOut(AddOrder(i), BLOB_BASE);
            BlobsPlaced(WithHobData(ds, area, blobs, mask), blobs, mask) <==> !EmptyShimBeforeKernel(i)
  {
    hide LayOut, Covering, PlaceAll, Certificates, Chosen, WithHobArea, HobBytes, RoundUp, DataPage, Touches;
    var blobs := LayOut(AddOrder(i), BLOB_BASE);
    var order := Front(i) + KernelBlob(i) + ShimBlob(i);
    var start := WithHobArea(ds, area, HobBytes(blobs), mask);
    var final := WithHobData(ds, area, blobs, mask);
    PlacementOrder(i);
    HobAreaIsAligned(ds, area, HobBytes(blobs), mask);
    assert final == PlaceAll(start, order, mask);
    if EmptyShimBeforeKernel(i) {
      ShimWipesKernel(start, i, mask);
      var k := |Front(i)| + 1;
      var x := blobs[k].addr;
      StackedParts(i);
      TouchesFrom(blobs[k], x);
      assert Covering(final, x) == [];
      assert !BlobsPlaced(final, blobs, mask);
    } else {
      forall k, x: nat | 0 <= k < |blobs| && blobs[k].addr <= x < blobs[k].addr + RoundUp(|blobs[k].data|)
        ensures Covering(final, x) == [BlobPage(blobs[k], mask, x)]
      {
        var k' := InPlacementOrder(i, k);
        LaterDoNotTouch(i, k', x);
        LastPlacementWins(start, order, mask, k', x);
      }
    }
  }

  lemma InPlacementOrder(i: HobInputs, k: nat) returns (k': nat)
    requires k < |Front(i) + ShimBlob(i) + KernelBlob(i)|
    ensures var order := Front(i) + KernelBlob(i) + ShimBlob(i);
            k' < |order| && order[k'] == (Front(i) + ShimBlob(i) + KernelBlob(i))[k]
  {
    hide LayOut, Certificates;
    var f, s, n := |Front(i)|, |ShimBlob(i)|, |KernelBlob(i)|;
    k' := if k < f then k else if k < f + s then k + n else k - s;
  }

  lemma ShimWipesKernel(start: seq<Directive>, i: HobInputs, mask: bv32)
    requires Aligned(start) && EmptyShimBeforeKernel(i)
    ensures var order := Front(i) + KernelBlob(i) + ShimBlob(i);
            && |ShimBlob(i)| == |KernelBlob(i)| == 1
            && KernelBlob(i)[0].data != [] && RoundUp(|KernelBlob(i)[0].data|) > 0
            && Covering(PlaceAll(start, order, mask), KernelBlob(i)[0].addr) == []
  {
    hide LayOut, Covering, PlaceAll, Certificates, RoundUp, Touches;
    var order := Front(i) + KernelBlob(i) + ShimBlob(i);
    StackedParts(i);
    var shim := ShimBlob(i)[0];
    assert order[|order| - 1] == shim;
    TouchesFrom(shim, shim.addr);
    LastPlacementWins(start, order, mask, |order| - 1, shim.addr);
    TouchesFrom(KernelBlob(i)[0], shim.addr);
  }

  /** Outside the blobs, the first page of the hob area is one directive that holds the hob list. */
  lemma HobAreaIsPlaced(ds: seq<Directive>, area: Area, i: HobInputs, mask: bv32, x: nat)
    requires Aligned(ds) && area.base % PAGE == 0 && area.base <= x < area.base + PAGE
    requires forall b :: b in LayOut(AddOrder(i), BLOB_BASE) ==> !Touches(b, x)
    ensures var blobs := LayOut(AddOrder(i), BLOB_BASE);
            Covering(WithHobData(ds, area, blobs, mask), x) ==
            [PageData(area.base, mask, false, Normal, HobBytes(blobs))]
  {
    hide LayOut, PlaceAll, Chosen, HobBytes, Touches, WithHobArea, Covering, Front, KernelBlob, ShimBlob, AddOrder;
    var blobs := LayOut(AddOrder(i), BLOB_BASE);
    var order := Front(i) + KernelBlob(i) + ShimBlob(i);
    PlacementOrder(i);
    HobAreaIsAligned(ds, area, HobBytes(blobs), mask);
    OrderIsAligned(i);
    forall j | 0 <= j < |order|
      ensures !Touches(order[j], x)
    {
      OrderIsFromBlobs(i, j);
    }
    UntouchedStays(WithHobArea(ds, area, HobBytes(blobs), mask), order, mask, x);
    HobsFitOnePage(i);
    HobAreaCovers(ds, area, HobBytes(blobs), mask, x);
  }

  lemma HobAreaCovers(ds: seq<Directive>, area: Area, hobs: Bytes, mask: bv32, x: nat)
    requires Aligned(ds) && area.base % PAGE == 0 && area.base <= x < area.base + PAGE
    requires 0 < |hobs| < PAGE
    ensures Covering(WithHobArea(ds, area, hobs, mask), x) == [PageData(area.base, mask, false, Normal, hobs)]
  {
    hide DataPages, WithoutRange, Covering;
    var pages := DataPages(area.base, hobs, mask, false, 1);
    CoveringWithout(ds, area.base, area.size, x);
    CoveringData(area.base, hobs, mask, false, 1, x);
    CoveringConcat(WithoutRange(ds, area.base, area.size), pages, x);
    PageIndex(x - area.base, 0);
    assert hobs[0..|hobs|] == hobs;
    assert [] + Covering(pages, x) == Covering(pages, x);
  }

  lemma {:induction false} DataHobsLength(blobs: seq<Blob>)
    ensures |DataHobs(blobs)| == 48 * |blobs|
  {
    hide DataHob;
    if blobs != [] {
      DataHobsLength(blobs[..|blobs| - 1]);
    }
  }

  /** Six data hobs and the end marker are 296 bytes, so removing one page makes room for them. */
  lemma HobsFitOnePage(i: HobInputs)
    ensures 0 < |HobBytes(LayOut(AddOrder(i), BLOB_BASE))| < PAGE
  {
    hide LayOut, DataHobs;
    DataHobsLength(LayOut(AddOrder(i), BLOB_BASE));
    assert |AddOrder(i)| <= 6;
  }

  lemma OrderIsAligned(i: HobInputs)
    ensures AllAligned(Front(i) + KernelBlob(i) + ShimBlob(i))
  {
    hide LayOut, Certificates, Extent, RoundUp;
    StackedParts(i);
  }

  lemma OrderIsFromBlobs(i: HobInputs, j: nat)
    requires j < |Front(i) + KernelBlob(i) + ShimBlob(i)|
    ensures (Front(i) + KernelBlob(i) + ShimBlob(i))[j] in Front(i) + ShimBlob(i) + KernelBlob(i)
  {
    hide LayOut, Certificates;
    var f, s, n := |Front(i)|, |ShimBlob(i)|, |KernelBlob(i)|;
    var all := Front(i) + ShimBlob(i) + KernelBlob(i);
    var k := if j < f then j else if j < f + n then j + s else j - n;
    assert all[k] == (Front(i) + KernelBlob(i) + ShimBlob(i))[j];
  }

  // ---------------------------------------------------------------------------------------------
  // The hob list reads back
  // ---------------------------------------------------------------------------------------------

  datatype HobEntry = HobEntry(addr: nat, length: nat, code: nat)

  /** How the firmware walks the list: data hobs until the end marker. */
  function ReadHobs(bs: Bytes): Option<seq<HobEntry>> {
    if |bs| < 8 then None
    else if FromLe(bs[..2]) == END_OF_LIST && FromLe(bs[2..4]) == 8 then Some([])
    else if |bs| < 48 || FromLe(bs[..2]) != GUID_EXTENSION || FromLe(bs[2..4]) != 48 || bs[8..24] != DataHobGuid()
    then None
    else
      match ReadHobs(bs[48..])
      case None => None
      case Some(rest) => Some([HobEntry(FromLe(bs[24..32]), FromLe(bs[32..40]), FromLe(bs[40..44]))] + rest)
  }

  function EntryOf(b: Blob): HobEntry {
    HobEntry(b.addr, |b.data|, Code(b.kind))
  }

  function EntriesOf(blobs: seq<Blob>): seq<HobEntry> {
    if blobs == [] then [] else [EntryOf(blobs[0])] + EntriesOf(blobs[1..])
  }

  lemma HeaderFields(hobType: nat, length: nat, tail: Bytes)
    requires hobType < U16_LIMIT && length < U16_LIMIT
    ensures var bs := HobHeader(hobType, length) + tail;
            FromLe(bs[..2]) == hobType && FromLe(bs[2..4]) == length
  {
    hide ToLe, FromLe, Pow256;
    PowValues();
    LeRoundTrip(hobType, 2);
    LeRoundTrip(length, 2);
    var bs := HobHeader(hobType, length) + tail;
    assert bs[..2] == ToLe(hobType, 2) && bs[2..4] == ToLe(length, 2);
  }

  lemma DataHobReads(b: Blob, tail: Bytes)
    requires b.addr < U64_LIMIT && |b.data| < U64_LIMIT
    ensures ReadHobs(DataHob(b) + tail) ==
            match ReadHobs(tail) case None => None case Some(rest) => Some([EntryOf(b)] + rest)
  {
    hide ToLe, FromLe, Pow256, HobHeader, DataHobGuid;
    PowValues();
    LeRoundTrip(b.addr, 8);
    LeRoundTrip(|b.data|, 8);
    LeRoundTrip(Code(b.kind), 4);
    var bs := DataHob(b) + tail;
    var header, guid := HobHeader(GUID_EXTENSION, 48), DataHobGuid();
    HeaderFields(GUID_EXTENSION, 48, bs[8..]);
    assert bs == header + bs[8..] by { assert bs[..8] == header; }
    assert bs[8..24] == guid && bs[24..32] == ToLe(b.addr, 8);
    assert bs[32..40] == ToLe(|b.data|, 8) && bs[40..44] == ToLe(Code(b.kind), 4);
    assert bs[48..] == tail;
  }

  lemma {:induction false} DataHobsCons(blobs: seq<Blob>)
    requires blobs != []
    ensures DataHobs(blobs) == DataHob(blobs[0]) + DataHobs(blobs[1..])
  {
    hide DataHob;
    var init := blobs[..|blobs| - 1];
    if init == [] {
      assert blobs[1..] == [];
    } else {
      DataHobsCons(init);
      assert blobs[1..][..|blobs[1..]| - 1] == init[1..];
      Assoc(DataHob(blobs[0]), DataHobs(init[1..]), DataHob(blobs[|blobs| - 1]));
    }
  }

  /** The serialised list decodes to the entries in the order they were added. */
  lemma {:induction false} HobsReadBack(blobs: seq<Blob>, tail: Bytes)
    requires forall k :: 0 <= k < |blobs| ==> blobs[k].addr < U64_LIMIT && |blobs[k].data| < U64_LIMIT
    ensures ReadHobs(HobBytes(blobs) + tail) == Some(EntriesOf(blobs))
  {
    hide DataHob, DataHobs, HobHeader, FromLe;
    var end := HobHeader(END_OF_LIST, 8);
    if blobs == [] {
      NoHobs();
      assert HobBytes(blobs) + tail == end + tail;
      HeaderFields(END_OF_LIST, 8, tail);
    } else {
      DataHobsCons(blobs);
      HobsReadBack(blobs[1..], tail);
      DataHobReads(blobs[0], HobBytes(blobs[1..]) + tail);
      Assoc(DataHob(blobs[0]), DataHobs(blobs[1..]), end);
      Assoc(DataHob(blobs[0]), HobBytes(blobs[1..]), tail);
    }
  }

  lemma NoHobs()
    ensures DataHobs([]) == []
  {
  }

  // ---------------------------------------------------------------------------------------------
  // What the guest finds
  // ---------------------------------------------------------------------------------------------

  /** One page directive puts `value` at guest address `x`, measured or not. */
  predicate HoldsAt(ds: seq<Directive>, x: nat, value: byte, unmeasured: bool) {
    && |Covering(ds, x)| == 1
    && var d := Covering(ds, x)[0];
       d in Covering(ds, x) && d.unmeasured == unmeasured && Measure.Padded(d.data)[x - d.gpa] == value
  }

  ghost predicate Holds(ds: seq<Directive>, addr: nat, bytes: Bytes, unmeasured: bool) {
    forall k: nat :: k < |bytes| ==> HoldsAt(ds, addr + k, bytes[k], unmeasured)
  }

  lemma {:induction false} EntriesMatch(blobs: seq<Blob>)
    ensures |EntriesOf(blobs)| == |blobs|
    ensures forall k :: 0 <= k < |blobs| ==> EntriesOf(blobs)[k] == EntryOf(blobs[k])
  {
    if blobs != [] {
      EntriesMatch(blobs[1..]);
    }
  }

  lemma BlobIsHeld(final: seq<Directive>, blobs: seq<Blob>, mask: bv32, k: nat)
    requires BlobsPlaced(final, blobs, mask) && k < |blobs| && blobs[k].addr % PAGE == 0
    ensures Holds(final, blobs[k].addr, blobs[k].data, !blobs[k].measured)
  {
    hide Covering, BlobPage;
    var b := blobs[k];
    forall n: nat | n < |b.data|
      ensures HoldsAt(final, b.addr + n, b.data[n], !b.measured)
    {
      PageHoldsBlob(b, mask, b.addr + n);
      assert Covering(final, b.addr + n) == [BlobPage(b, mask, b.addr + n)];
    }
  }

  lemma KernelIsNotHeld(ds: seq<Directive>, area: Area, i: HobInputs, mask: bv32)
    requires Aligned(ds) && area.base % PAGE == 0 && EmptyShimBeforeKernel(i)
    ensures var blobs := LayOut(AddOrder(i), BLOB_BASE);
            && blobs != []
            && var kernel := blobs[|blobs| - 1];
               !Holds(WithHobData(ds, area, blobs, mask), kernel.addr, kernel.data, !kernel.measured)
  {
    hide LayOut, Covering, PlaceAll, Certificates, Chosen, WithHobArea, HobBytes, RoundUp, Touches;
    var blobs := LayOut(AddOrder(i), BLOB_BASE);
    var start := WithHobArea(ds, area, HobBytes(blobs), mask);
    PlacementOrder(i);
    HobAreaIsAligned(ds, area, HobBytes(blobs), mask);
    ShimWipesKernel(start, i, mask);
    var kernel := KernelBlob(i)[0];
    assert blobs[|blobs| - 1] == kernel;
    assert !HoldsAt(WithHobData(ds, area, blobs, mask), kernel.addr + 0, kernel.data[0], !kernel.measured);
  }

  lemma HobPageIsHeld(ds: seq<Directive>, area: Area, i: HobInputs, mask: bv32)
    requires Aligned(ds) && area.base % PAGE == 0
    requires forall b, x: nat :: b in LayOut(AddOrder(i), BLOB_BASE) ==>
               area.base <= x < area.base + PAGE ==> !Touches(b, x)
    ensures var blobs := LayOut(AddOrder(i), BLOB_BASE);
            Holds(WithHobData(ds, area, blobs, mask), area.base, Measure.Padded(HobBytes(blobs)), false)
  {
    hide LayOut, Covering, HobBytes, Touches, WithHobData, Measure.Padded, AddOrder;
    var blobs := LayOut(AddOrder(i), BLOB_BASE);
    forall n: nat | n < PAGE
      ensures HoldsAt(WithHobData(ds, area, blobs, mask), area.base + n, Measure.Padded(HobBytes(blobs))[n], false)
    {
      HobAreaIsPlaced(ds, area, i, mask, area.base + n);
    }
  }

  /**
   * End to end, for blobs below 2^64 and a hob page outside their range: the page at the hob area
   * decodes to one entry per blob, in add order, with its length and type, at page-aligned
   * addresses that do not overlap; and the final pages hold every blob at its entry's address, each
   * byte in one directive with the requested measured flag, if and only if the shim is not an empty
   * file in front of a kernel.
   */
  lemma GuestFindsBlobs(ds: seq<Directive>, area: Area, i: HobInputs, mask: bv32)
    returns (hobPage: Bytes, entries: seq<HobEntry>)
    requires Aligned(ds) && area.base % PAGE == 0
    requires forall b, x: nat :: b in LayOut(AddOrder(i), BLOB_BASE) ==>
               area.base <= x < area.base + PAGE ==> !Touches(b, x)
    requires BLOB_BASE + Extent(AddOrder(i)) < U64_LIMIT
    ensures var inputs := AddOrder(i);
            var final := WithHobData(ds, area, LayOut(inputs, BLOB_BASE), mask);
            && |hobPage| == PAGE && Holds(final, area.base, hobPage, false)
            && ReadHobs(hobPage) == Some(entries) && |entries| == |inputs|
            && (forall k :: 0 <= k < |inputs| ==>
                  && entries[k].length == |inputs[k].data| && entries[k].code == Code(inputs[k].kind)
                  && entries[k].addr % PAGE == 0)
            && (forall j, k :: 0 <= j < k < |inputs| ==>
                  entries[j].addr + RoundUp(entries[j].length) <= entries[k].addr)
            && ((forall k :: 0 <= k < |inputs| ==>
                   Holds(final, entries[k].addr, inputs[k].data, !inputs[k].measured))
                <==> !EmptyShimBeforeKernel(i))
  {
    hide LayOut, Extent, Covering, HobBytes, Touches, WithHobData, AddOrder, ReadHobs, Holds, BlobsPlaced, RoundUp;
    hide EmptyShimBeforeKernel, EntriesOf;
    var inputs := AddOrder(i);
    var blobs := LayOut(inputs, BLOB_BASE);
    var hobs := HobBytes(blobs);
    HobPageIsHeld(ds, area, i, mask);
    HobsFitOnePage(i);
    hobPage, entries := Measure.Padded(hobs), EntriesOf(blobs);
    LayOutIsStacked(inputs, BLOB_BASE);
    LayOutKeepsFlags(inputs, BLOB_BASE);
    EntriesMatch(blobs);
    HobsReadBack(blobs, Zeros(PAGE - |hobs|));
    HobDataIsPlaced(ds, area, i, mask);
    if EmptyShimBeforeKernel(i) {
      KernelIsNotHeld(ds, area, i, mask);
    } else {
      forall k | 0 <= k < |blobs|
        ensures Holds(WithHobData(ds, area, blobs, mask), blobs[k].addr, blobs[k].data, !blobs[k].measured)
      {
        BlobIsHeld(WithHobData(ds, area, blobs, mask), blobs, mask, k);
      }
    }
  }
}
