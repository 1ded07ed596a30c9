/**
 * The GUID table at the tail of an OVMF image, walked backwards by two independent readers:
 * `OvmfMeta::new` (crates/igvm-tools/src/ovmfmeta.rs) and `Tdvf::parse`
 * (crates/tdx-measure/src/tdvf.rs).
 */
module Footer {
  import opened ByteLayout
  import opened Wrappers

  const HEADER: nat := 18
  const AFTER_TABLE: nat := 32

  /** 96b582de-1fb2-45f7-baea-a366c55a082d, in EFI byte order. */
  function FooterGuid(): (g: Bytes)
    ensures |g| == 16
  {
    [0xde, 0x82, 0xb5, 0x96, 0xb2, 0x1f, 0xf7, 0x45, 0xba, 0xea, 0xa3, 0x66, 0xc5, 0x5a, 0x08, 0x2d]
  }

  /** e47a6535-984a-4798-865e-4685a7bf8ec2, in EFI byte order. */
  function TdxGuid(): (g: Bytes)
    ensures |g| == 16
  {
    [0x35, 0x65, 0x7a, 0xe4, 0x4a, 0x98, 0x98, 0x47, 0x86, 0x5e, 0x46, 0x85, 0xa7, 0xbf, 0x8e, 0xc2]
  }

  datatype Entry = Entry(guid: Bytes, payload: Bytes)

  // ---------------------------------------------------------------------------------------------
  // The slice-shrinking walk of OvmfMeta
  // ---------------------------------------------------------------------------------------------

  datatype Block = Block(entry: Entry, before: Bytes)

  /** `meta_blk`: the entry whose header ends `blob`; its length counts the header. */
  function MetaBlock(blob: Bytes): (r: Option<Block>)
    ensures r.Some? ==> |r.value.before| + |r.value.entry.payload| + HEADER == |blob|
  {
    if |blob| < HEADER then None
    else
      var data := blob[..|blob| - HEADER];
      var size := FromLe(blob[|blob| - 18..|blob| - 16]);
      if size < HEADER || size - HEADER > |data| then None
      else
        var start := |data| - (size - HEADER);
        Some(Block(Entry(blob[|blob| - 16..], data[start..]), data[..start]))
  }

  function MetaWalk(blob: Bytes): seq<Entry>
    decreases |blob|
  {
    match MetaBlock(blob)
    case None => []
    case Some(Block(entry, before)) => [entry] + MetaWalk(before)
  }

  /** Where the headers `MetaWalk` reads end, in the order it reads them. */
  function MetaEnds(blob: Bytes): seq<nat>
    decreases |blob|
  {
    match MetaBlock(blob)
    case None => []
    case Some(Block(_, before)) => [|blob|] + MetaEnds(before)
  }

  /** The entries `OvmfMeta::new` hands to `parse_blk`, in order, or nothing for a short image. */
  function OvmfEntries(firmware: Bytes): Option<seq<Entry>> {
    if |firmware| < AFTER_TABLE then None
    else
      match MetaBlock(firmware[..|firmware| - AFTER_TABLE])
      case None => None
      case Some(Block(table, _)) => Some(if table.guid == FooterGuid() then MetaWalk(table.payload) else [])
  }

  /** The loop; it ends on every input because each turn drops a header from the slice. */
  method CollectOvmfEntries(firmware: Bytes) returns (r: Option<seq<Entry>>)
    ensures r == OvmfEntries(firmware)
  {
    hide FooterGuid, MetaBlock;
    if |firmware| < AFTER_TABLE {
      return None;
    }
    var list := MetaBlock(firmware[..|firmware| - AFTER_TABLE]);
    if list.None? {
      return None;
    }
    var entries: seq<Entry> := [];
    if list.value.entry.guid == FooterGuid() {
      var m := list.value.entry.payload;
      assert [] + MetaWalk(m) == MetaWalk(m);
      while true
        invariant entries + MetaWalk(m) == MetaWalk(list.value.entry.payload)
        decreases |m|
      {
        var block := MetaBlock(m);
        if block.None? {
          break;
        }
        assert entries + ([block.value.entry] + MetaWalk(block.value.before))
            == entries + [block.value.entry] + MetaWalk(block.value.before);
        entries := entries + [block.value.entry];
        m := block.value.before;
      }
      assert entries + [] == entries;
    }
    return Some(entries);
  }

  // ---------------------------------------------------------------------------------------------
  // The offset-decreasing walk of Tdvf::parse
  // ---------------------------------------------------------------------------------------------

  datatype Outcome =
    | Found(data: Bytes)   // the TDX entry, as the bytes before its header
    | Missing              // fewer than 18 bytes left
    | BadLength            // an entry longer than what precedes it
    | Stuck                // a zero-length entry: the offset never moves again

  function LengthAt(tables: Bytes, at: nat): nat
    requires HEADER <= at <= |tables|
  {
    FromLe(tables[at - 18..at - 16])
  }

  function GuidAt(tables: Bytes, at: nat): Bytes
    requires HEADER <= at <= |tables|
  {
    tables[at - 16..at]
  }

  function TdxWalk(tables: Bytes, at: nat): Outcome
    requires at <= |tables|
  {
    if at < HEADER then Missing
    else if LengthAt(tables, at) > at - HEADER then BadLength
    else if GuidAt(tables, at) == TdxGuid() then Found(tables[at - HEADER - LengthAt(tables, at)..at - HEADER])
    else if LengthAt(tables, at) == 0 then Stuck
    else TdxWalk(tables, at - LengthAt(tables, at))
  }

  /** The headers the walk reads, as end offsets, latest first. */
  function TdxVisits(tables: Bytes, at: nat): seq<nat>
    requires at <= |tables|
  {
    if at < HEADER then []
    else if LengthAt(tables, at) > at - HEADER || GuidAt(tables, at) == TdxGuid() || LengthAt(tables, at) == 0
    then [at]
    else [at] + TdxVisits(tables, at - LengthAt(tables, at))
  }

  method FindTdxEntry(tables: Bytes) returns (r: Outcome)
    requires !TdxWalk(tables, |tables|).Stuck?
    ensures r == TdxWalk(tables, |tables|)
  {
    hide TdxGuid, FromLe;
    var at: nat := |tables|;
    while true
      invariant at <= |tables| && TdxWalk(tables, at) == TdxWalk(tables, |tables|)
      decreases at
    {
      if at < HEADER {
        return Missing;
      }
      var guid := tables[at - 16..at];
      var length := FromLe(tables[at - 18..at - 16]);
      if length > at - HEADER {
        return BadLength;
      }
      if guid == TdxGuid() {
        return Found(tables[at - HEADER - length..at - HEADER]);
      }
      at := at - length;
    }
  }

  // The loop as a machine, to say what it does when nothing bounds it.

  datatype Loop = Running(at: nat) | Halted

  function LoopStep(tables: Bytes, l: Loop): Loop {
    match l
    case Halted => Halted
    case Running(at) =>
      if at > |tables| || at < HEADER || LengthAt(tables, at) > at - HEADER || GuidAt(tables, at) == TdxGuid()
      then Halted
      else Running(at - LengthAt(tables, at))
  }

  function LoopAfter(tables: Bytes, l: Loop, turns: nat): Loop
    decreases turns
  {
    if turns == 0 then l else LoopAfter(tables, LoopStep(tables, l), turns - 1)
  }

  lemma {:induction false} StaysHalted(tables: Bytes, turns: nat)
    ensures LoopAfter(tables, Halted, turns) == Halted
  {
    if turns > 0 {
      StaysHalted(tables, turns - 1);
    }
  }

  lemma {:induction false} StaysStuck(tables: Bytes, at: nat, turns: nat)
    requires LoopStep(tables, Running(at)) == Running(at)
    ensures LoopAfter(tables, Running(at), turns) == Running(at)
  {
    if turns > 0 {
      StaysStuck(tables, at, turns - 1);
    }
  }

  lemma {:induction false} HaltsUnlessStuck(tables: Bytes, at: nat) returns (turns: nat)
    requires at <= |tables|
    ensures TdxWalk(tables, at).Stuck? ==> forall n: nat :: LoopAfter(tables, Running(at), n).Running?
    ensures !TdxWalk(tables, at).Stuck? ==> LoopAfter(tables, Running(at), turns) == Halted
  {
    hide TdxGuid, FromLe;
    turns := 1;
    if at < HEADER || LengthAt(tables, at) > at - HEADER || GuidAt(tables, at) == TdxGuid() {
      assert LoopAfter(tables, Running(at), 1) == LoopAfter(tables, Halted, 0);
    } else if LengthAt(tables, at) == 0 {
      forall n: nat
        ensures LoopAfter(tables, Running(at), n).Running?
      {
        StaysStuck(tables, at, n);
      }
    } else {
      var next := at - LengthAt(tables, at);
      turns := HaltsUnlessStuck(tables, next);
      turns := turns + 1;
      forall n: nat | TdxWalk(tables, at).Stuck?
        ensures LoopAfter(tables, Running(at), n).Running?
      {
        if n > 0 {
          assert LoopAfter(tables, Running(next), n - 1).Running?;
        }
      }
    }
  }

  /** A header of length zero under another name than the TDX entry's. */
  predicate EmptyHeader(tables: Bytes, at: nat) {
    HEADER <= at <= |tables| && LengthAt(tables, at) == 0 && GuidAt(tables, at) != TdxGuid()
  }

  /** The header ends the walk: its length runs too far or is zero, or it is the TDX entry's. */
  predicate EndsWalk(tables: Bytes, at: nat)
    requires HEADER <= at <= |tables|
  {
    LengthAt(tables, at) > at - HEADER || GuidAt(tables, at) == TdxGuid() || LengthAt(tables, at) == 0
  }

  lemma NoHeaderLeft(tables: Bytes, at: nat)
    requires at <= |tables| && at < HEADER
    ensures TdxWalk(tables, at) == Missing && TdxVisits(tables, at) == []
  {
  }

  lemma LastHeaderRead(tables: Bytes, at: nat)
    requires HEADER <= at <= |tables| && EndsWalk(tables, at)
    ensures TdxVisits(tables, at) == [at]
    ensures TdxWalk(tables, at).Stuck? <==> EmptyHeader(tables, at)
  {
    hide LengthAt, GuidAt, TdxGuid;
  }

  lemma HeaderPassed(tables: Bytes, at: nat)
    requires HEADER <= at <= |tables| && !EndsWalk(tables, at)
    ensures var next := at - LengthAt(tables, at);
            && HEADER <= next < at && !EmptyHeader(tables, at)
            && TdxWalk(tables, at) == TdxWalk(tables, next)
            && TdxVisits(tables, at) == [at] + TdxVisits(tables, next)
  {
    hide LengthAt, GuidAt, TdxGuid;
  }

  lemma {:induction false} StuckAtEmptyHeader(tables: Bytes, at: nat)
    requires at <= |tables|
    ensures TdxWalk(tables, at).Stuck? <==> exists v :: v in TdxVisits(tables, at) && EmptyHeader(tables, v)
  {
    hide TdxWalk, TdxVisits, EmptyHeader, EndsWalk, LengthAt;
    if at < HEADER {
      NoHeaderLeft(tables, at);
    } else if EndsWalk(tables, at) {
      LastHeaderRead(tables, at);
      assert at in TdxVisits(tables, at);
    } else {
      HeaderPassed(tables, at);
      StuckAtEmptyHeader(tables, at - LengthAt(tables, at));
    }
  }

  /**
   * `Tdvf::parse` runs forever on exactly the tables in which, going back from header to header by
   * their lengths, it meets one of length zero that is not the TDX entry's.
   */
  lemma ParseLoopsExactlyWhenStuck(tables: Bytes)
    ensures (exists at :: at in TdxVisits(tables, |tables|) && EmptyHeader(tables, at)) <==>
            forall n: nat :: LoopAfter(tables, Running(|tables|), n).Running?
  {
    StuckAtEmptyHeader(tables, |tables|);
    var turns := HaltsUnlessStuck(tables, |tables|);
  }

  // ---------------------------------------------------------------------------------------------
  // Well-laid-out tables
  // ---------------------------------------------------------------------------------------------

  predicate Placeable(e: Entry) {
    |e.guid| == 16 && |e.payload| + HEADER < U16_LIMIT
  }

  function EntryBytes(e: Entry): Bytes {
    e.payload + ToLe(|e.payload| + HEADER, 2) + e.guid
  }

  /** Entries in address order; each header follows its payload and counts itself. */
  function Table(es: seq<Entry>): Bytes {
    if es == [] then [] else Table(es[..|es| - 1]) + EntryBytes(es[|es| - 1])
  }

  function Reversed(es: seq<Entry>): seq<Entry> {
    if es == [] then [] else [es[|es| - 1]] + Reversed(es[..|es| - 1])
  }

  ghost predicate AllPlaceable(es: seq<Entry>) {
    forall i :: 0 <= i < |es| ==> Placeable(es[i])
  }

  lemma LastHeader(front: Bytes, e: Entry)
    requires Placeable(e)
    ensures var bs := front + EntryBytes(e);
            && |bs| == |front| + |e.payload| + HEADER
            && FromLe(bs[|bs| - 18..|bs| - 16]) == |e.payload| + HEADER
            && bs[|bs| - 16..] == e.guid
            && bs[..|front|] == front && bs[|front|..|bs| - 18] == e.payload
  {
    hide ToLe, FromLe;
    PowValues();
    LeRoundTrip(|e.payload| + HEADER, 2);
    var bs := front + EntryBytes(e);
    assert bs[|bs| - 18..|bs| - 16] == ToLe(|e.payload| + HEADER, 2);
  }

  lemma MetaBlockReads(front: Bytes, e: Entry)
    requires Placeable(e)
    ensures MetaBlock(front + EntryBytes(e)) == Some(Block(e, front))
  {
    hide FromLe, EntryBytes;
    var bs := front + EntryBytes(e);
    LastHeader(front, e);
    var data := bs[..|bs| - HEADER];
    assert data[|front|..] == bs[|front|..|bs| - 18];
    assert data[..|front|] == bs[..|front|];
  }

  /** Walking a laid-out table yields its entries, last first. */
  lemma {:induction false} MetaWalkReads(es: seq<Entry>)
    requires AllPlaceable(es)
    ensures MetaWalk(Table(es)) == Reversed(es)
  {
    hide MetaBlock, EntryBytes;
    if es == [] {
      EmptyBlock();
    } else {
      MetaBlockReads(Table(es[..|es| - 1]), es[|es| - 1]);
      MetaWalkReads(es[..|es| - 1]);
    }
  }

  lemma EmptyBlock()
    ensures MetaBlock([]) == None
  {
  }

  /** A firmware image: anything, the table, the footer header, and 32 closing bytes. */
  function Image(front: Bytes, es: seq<Entry>, back: Bytes): Bytes {
    front + EntryBytes(Entry(FooterGuid(), Table(es))) + back
  }

  ghost predicate ValidImage(front: Bytes, es: seq<Entry>, back: Bytes) {
    && AllPlaceable(es) && |Table(es)| + HEADER < U16_LIMIT
    && |back| == AFTER_TABLE
  }

  /** `OvmfMeta::new` sees every entry of every well-laid-out image, last first. */
  lemma OvmfReadsImage(front: Bytes, es: seq<Entry>, back: Bytes)
    requires ValidImage(front, es, back)
    ensures OvmfEntries(Image(front, es, back)) == Some(Reversed(es))
  {
    hide MetaBlock, EntryBytes, FooterGuid;
    var fw := Image(front, es, back);
    var table := Entry(FooterGuid(), Table(es));
    assert fw[..|fw| - AFTER_TABLE] == front + EntryBytes(table);
    MetaBlockReads(front, table);
    MetaWalkReads(es);
  }

  // ---------------------------------------------------------------------------------------------
  // The two walks agree
  // ---------------------------------------------------------------------------------------------

  /** Index of the last TDX entry, the first one a backward walk meets. */
  function LastTdx(es: seq<Entry>): (r: Option<nat>)
    ensures r.Some? ==> r.value < |es| && es[r.value].guid == TdxGuid()
    ensures r.Some? ==> forall i :: r.value < i < |es| ==> es[i].guid != TdxGuid()
    ensures r.None? ==> forall i :: 0 <= i < |es| ==> es[i].guid != TdxGuid()
  {
    if es == [] then None
    else if es[|es| - 1].guid == TdxGuid() then Some(|es| - 1)
    else LastTdx(es[..|es| - 1])
  }

  /** How many entries, from the end, the TDX walk reads as entries. */
  function EntriesVisited(es: seq<Entry>): (n: nat)
    ensures n <= |es|
  {
    match LastTdx(es) case Some(i) => |es| - i case None => |es|
  }

  /** What the walk finds once the well-formed entries are used up: it misreads the slack. */
  function SlackOutcome(slack: Bytes): Outcome
    requires |slack| == HEADER
  {
    if FromLe(slack[..2]) > 0 then BadLength
    else if slack[2..] == TdxGuid() then Found([])
    else Stuck
  }

  lemma SlackIsRead(slack: Bytes, tables: Bytes)
    requires |slack| == HEADER && slack <= tables
    ensures TdxWalk(tables, HEADER) == SlackOutcome(slack)
    ensures TdxVisits(tables, HEADER) == [HEADER]
  {
    hide FromLe, TdxGuid;
    assert tables[0..2] == slack[..2] && tables[2..18] == slack[2..];
  }

  lemma TdxEntryReads(slack: Bytes, es: seq<Entry>, tables: Bytes)
    requires |slack| == HEADER && AllPlaceable(es) && es != []
    requires slack + Table(es) <= tables
    ensures var at := HEADER + |Table(es)|;
            var e := es[|es| - 1];
            && LengthAt(tables, at) == |e.payload| + HEADER && GuidAt(tables, at) == e.guid
            && at - LengthAt(tables, at) == HEADER + |Table(es[..|es| - 1])|
            && tables[at - HEADER - |e.payload|..at - HEADER] == e.payload
  {
    hide FromLe, ToLe, EntryBytes;
    var at := HEADER + |Table(es)|;
    var e := es[|es| - 1];
    var front := slack + Table(es[..|es| - 1]);
    Assoc(slack, Table(es[..|es| - 1]), EntryBytes(e));
    LastHeader(front, e);
    var bs := front + EntryBytes(e);
    assert bs == tables[..at];
    assert bs[at - 18..at - 16] == tables[at - 18..at - 16];
    assert bs[at - 16..] == tables[at - 16..at];
    assert bs[|front|..at - 18] == tables[|front|..at - 18];
  }

  /** The same places, seen past the 18 extra bytes in front. */
  function PastSlack(ends: seq<nat>): (r: seq<nat>)
    ensures |r| == |ends|
    ensures forall i :: 0 <= i < |r| ==> r[i] == HEADER + ends[i]
  {
    seq(|ends|, i requires 0 <= i < |ends| => HEADER + ends[i])
  }

  lemma MetaEndsOfTable(es: seq<Entry>)
    requires AllPlaceable(es) && es != []
    ensures MetaEnds(Table(es)) == [|Table(es)|] + MetaEnds(Table(es[..|es| - 1]))
  {
    hide MetaBlock, EntryBytes;
    MetaBlockReads(Table(es[..|es| - 1]), es[|es| - 1]);
  }

  lemma {:induction false} MetaEndsCount(es: seq<Entry>)
    requires AllPlaceable(es)
    ensures |MetaEnds(Table(es))| == |es|
  {
    hide MetaBlock, EntryBytes;
    if es == [] {
      EmptyBlock();
    } else {
      MetaEndsOfTable(es);
      MetaEndsCount(es[..|es| - 1]);
    }
  }

  /**
   * On a laid-out table the TDX walk ends at the last TDX entry, and the bytes it takes end with
   * that entry's payload. Without a TDX entry it runs past the table into the 18 bytes before it.
   */
  lemma {:induction false} TdxWalkReads(slack: Bytes, es: seq<Entry>, tables: Bytes)
    requires |slack| == HEADER && AllPlaceable(es)
    requires slack + Table(es) <= tables
    ensures var r := TdxWalk(tables, HEADER + |Table(es)|);
            match LastTdx(es)
            case None => r == SlackOutcome(slack)
            case Some(i) => r.Found? && |r.data| == HEADER + |es[i].payload| && r.data[HEADER..] == es[i].payload
  {
    hide FromLe, ToLe, EntryBytes, TdxGuid;
    if es == [] {
      assert slack + Table(es) == slack;
      SlackIsRead(slack, tables);
    } else {
      var at := HEADER + |Table(es)|;
      var e, init := es[|es| - 1], es[..|es| - 1];
      TdxEntryReads(slack, es, tables);
      if e.guid == TdxGuid() {
        var data := TdxWalk(tables, at).data;
        assert data[HEADER..] == tables[at - HEADER - |e.payload|..at - HEADER];
      } else {
        assert slack + Table(es) == slack + Table(init) + EntryBytes(e);
        TdxWalkReads(slack, init, tables);
      }
    }
  }

  /** The headers the TDX walk reads are a prefix of those `MetaWalk` reads, then perhaps the slack. */
  lemma {:induction false} TdxVisitsPrefix(slack: Bytes, es: seq<Entry>, tables: Bytes)
    requires |slack| == HEADER && AllPlaceable(es)
    requires slack + Table(es) <= tables
    ensures |MetaEnds(Table(es))| == |es|
    ensures TdxVisits(tables, HEADER + |Table(es)|) ==
            PastSlack(MetaEnds(Table(es))[..EntriesVisited(es)]) + if LastTdx(es).None? then [HEADER] else []
  {
    hide FromLe, ToLe, EntryBytes, TdxGuid, MetaEnds, PastSlack, LengthAt, GuidAt;
    MetaEndsCount(es);
    if es == [] {
      assert slack + Table(es) == slack;
      SlackIsRead(slack, tables);
      PastSlackNone(MetaEnds(Table(es)));
    } else {
      var init := es[..|es| - 1];
      TdxEntryReads(slack, es, tables);
      MetaEndsOfTable(es);
      if es[|es| - 1].guid == TdxGuid() {
        PastSlackCons(|Table(es)|, MetaEnds(Table(init)), 0);
        PastSlackNone(MetaEnds(Table(init)));
      } else {
        assert slack + Table(es) == slack + Table(init) + EntryBytes(es[|es| - 1]);
        TdxVisitsPrefix(slack, init, tables);
        PastSlackCons(|Table(es)|, MetaEnds(Table(init)), EntriesVisited(init));
        Assoc([HEADER + |Table(es)|], PastSlack(MetaEnds(Table(init))[..EntriesVisited(init)]),
              if LastTdx(init).None? then [HEADER] else []);
      }
    }
  }

  lemma PastSlackNone(ends: seq<nat>)
    ensures PastSlack(ends[..0]) == []
    ensures forall more: seq<nat> :: PastSlack(ends[..0]) + more == more
  {
  }

  lemma PastSlackCons(x: nat, ends: seq<nat>, n: nat)
    requires n <= |ends|
    ensures PastSlack(([x] + ends)[..n + 1]) == [HEADER + x] + PastSlack(ends[..n])
  {
  }

  /** The slice of the firmware `Tdvf::parse` searches, once the footer checks pass. */
  function TdxTables(fw: Bytes): Option<Bytes> {
    if |fw| < 50 then None
    else
      var end := |fw| - AFTER_TABLE - HEADER;
      var length := FromLe(fw[end..end + 2]);
      if fw[end + 2..end + HEADER] != FooterGuid() || length == 0 || length > end then None
      else Some(fw[end - length..end])
  }

  /**
   * The two readers agree on every well-laid-out image with at least 18 bytes before the table:
   * the TDX reader searches the table plus those 18 bytes, reads the headers the other reader
   * reads, in the same order, up to and including the last TDX entry, and stops there.
   */
  lemma {:induction false} WalksAgree(front: Bytes, es: seq<Entry>, back: Bytes)
    requires ValidImage(front, es, back) && |front| >= HEADER
    ensures var fw := Image(front, es, back);
            && TdxTables(fw) == Some(front[|front| - HEADER..] + Table(es))
            && OvmfEntries(fw) == Some(Reversed(es))
            && |MetaEnds(Table(es))| == |es|
            && var tables := TdxTables(fw).value;
               && TdxVisits(tables, |tables|) ==
                  PastSlack(MetaEnds(Table(es))[..EntriesVisited(es)]) + (if LastTdx(es).None? then [HEADER] else [])
               && match LastTdx(es)
                  case None => TdxWalk(tables, |tables|) == SlackOutcome(front[|front| - HEADER..])
                  case Some(i) =>
                    var r := TdxWalk(tables, |tables|);
                    r.Found? && |r.data| == HEADER + |es[i].payload| && r.data[HEADER..] == es[i].payload
  {
    hide MetaBlock, MetaWalk, EntryBytes, FooterGuid, Reversed, TdxGuid, TdxWalk, TdxVisits;
    hide MetaEnds, FromLe, PastSlack;
    OvmfReadsImage(front, es, back);
    ImageTables(front, es, back);
    var slack := front[|front| - HEADER..];
    TdxWalkReads(slack, es, slack + Table(es));
    TdxVisitsPrefix(slack, es, slack + Table(es));
  }

  lemma ImageTables(front: Bytes, es: seq<Entry>, back: Bytes)
    requires ValidImage(front, es, back) && |front| >= HEADER
    ensures TdxTables(Image(front, es, back)) == Some(front[|front| - HEADER..] + Table(es))
  {
    hide MetaBlock, EntryBytes, FooterGuid, FromLe, Table;
    var fw := Image(front, es, back);
    var e := Entry(FooterGuid(), Table(es));
    var bs := front + EntryBytes(e);
    LastHeader(front, e);
    var end := |fw| - AFTER_TABLE - HEADER;
    assert fw[end..end + 2] == bs[|bs| - 18..|bs| - 16];
    assert fw[end + 2..end + HEADER] == bs[|bs| - 16..];
    var length := |Table(es)| + HEADER;
    assert fw[end - length..end] == bs[|front| - HEADER..end];
    assert bs[|front| - HEADER..end] == bs[..|front|][|front| - HEADER..] + bs[|front|..end];
  }

  /**
   * On a well-laid-out image the parser runs forever if and only if the table has no TDX entry and
   * the 18 bytes before it start with two zero bytes and do not end in the TDX name.
   */
  lemma {:induction false} ParseLoopsExactlyOnZeroSlack(front: Bytes, es: seq<Entry>, back: Bytes)
    requires ValidImage(front, es, back) && |front| >= HEADER
    ensures TdxTables(Image(front, es, back)).Some?
    ensures var tables, slack := TdxTables(Image(front, es, back)).value, front[|front| - HEADER..];
            (forall n: nat :: LoopAfter(tables, Running(|tables|), n).Running?) <==>
            LastTdx(es).None? && FromLe(slack[..2]) == 0 && slack[2..] != TdxGuid()
  {
    hide Image, ValidImage, MetaEnds, Table, PastSlack, LastTdx, FromLe, TdxGuid, TdxTables, LoopAfter, OvmfEntries;
    WalksAgree(front, es, back);
    var tables := TdxTables(Image(front, es, back)).value;
    ParseLoopsExactlyWhenStuck(tables);
    StuckAtEmptyHeader(tables, |tables|);
  }

  /** It happens: an empty table behind 18 zero bytes. */
  lemma EmptyTableLoops(back: Bytes)
    requires |back| == AFTER_TABLE
    ensures var fw := Image(Zeros(HEADER), [], back);
            TdxTables(fw) == Some(Zeros(HEADER))
            && forall n: nat :: LoopAfter(Zeros(HEADER), Running(HEADER), n).Running?
  {
    hide Image, LoopAfter, TdxTables, OvmfEntries;
    var front := Zeros(HEADER);
    assert front[|front| - HEADER..] == front && front + Table([]) == front;
    assert front[..2] == [0, 0] && [0, 0][1..] == [0] && [0][1..] == [];
    assert FromLe([0]) == 0 && FromLe([0, 0]) == 0;
    assert front[2..][0] != TdxGuid()[0];
    WalksAgree(front, [], back);
    ParseLoopsExactlyOnZeroSlack(front, [], back);
  }
}
