/** `MemoryAcceptor` (crates/tdx-measure/src/tdvf.rs): memory as a list of accepted and open ranges. */
module Acceptor {
  import opened ByteLayout
  import opened Sorting
  import opened Wrappers

  datatype Range = Range(accepted: bool, start: nat, end: nat)
  datatype Call = Call(start: nat, end: nat)

  function RangeStart(r: Range): int { r.start }

  predicate Overlaps(r: Range, start: nat, end: nat) {
    start < r.end && r.start < end
  }

  /** What is left of one range: an open range loses the part inside [start, end). */
  function Remnant(r: Range, start: nat, end: nat): seq<Range> {
    if r.accepted || !Overlaps(r, start, end) then [r]
    else
      (if r.start < start then [Range(false, r.start, start)] else [])
      + (if r.end > end then [Range(false, end, r.end)] else [])
  }

  function Remnants(rs: seq<Range>, start: nat, end: nat): seq<Range> {
    if rs == [] then [] else Remnant(rs[0], start, end) + Remnants(rs[1..], start, end)
  }

  function AfterAccept(rs: seq<Range>, c: Call): seq<Range> {
    if c.start >= c.end then rs
    else SortBy(RangeStart, Remnants(rs, c.start, c.end) + [Range(true, c.start, c.end)])
  }

  function AfterAll(rs: seq<Range>, calls: seq<Call>): seq<Range> {
    if calls == [] then rs
    else AfterAccept(AfterAll(rs, calls[..|calls| - 1]), calls[|calls| - 1])
  }

  lemma AfterOneMore(rs: seq<Range>, calls: seq<Call>, c: Call)
    ensures AfterAll(rs, calls + [c]) == AfterAccept(AfterAll(rs, calls), c)
  {
    assert (calls + [c])[..|calls|] == calls;
  }

  /** The loop of `accept`: every range, or what is left of it. */
  method CutRanges(ranges: seq<Range>, start: nat, end: nat) returns (rs: seq<Range>)
    requires start < end
    ensures rs == Remnants(ranges, start, end)
  {
    rs := [];
    assert ranges[0..] == ranges;
    for i := 0 to |ranges|
      invariant rs + Remnants(ranges[i..], start, end) == Remnants(ranges, start, end)
    {
      var r := ranges[i];
      assert ranges[i..][1..] == ranges[i + 1..];
      Assoc(rs, Remnant(r, start, end), Remnants(ranges[i + 1..], start, end));
      ghost var before := rs;
      if r.accepted || r.end <= start || r.start >= end {
        rs := rs + [r];
      } else {
        if r.start < start {
          rs := rs + [Range(false, r.start, start)];
        }
        if r.end > end {
          rs := rs + [Range(false, end, r.end)];
        }
      }
      assert rs == before + Remnant(r, start, end);
    }
    assert rs + [] == rs;
  }

  class MemoryAcceptor {
    var ranges: seq<Range>
    const first: Range
    ghost var calls: seq<Call>

    constructor (start: nat, end: nat)
      ensures first == Range(false, start, end) && ranges == [first] && calls == []
      ensures Valid()
    {
      first := Range(false, start, end);
      ranges := [Range(false, start, end)];
      calls := [];
    }

    /** `MemoryAcceptor::new`: refused when the memory ends past 64 bits. */
    static method New(start: nat, size: nat) returns (r: Option<MemoryAcceptor>)
      ensures r.None? <==> start + size >= U64_LIMIT
      ensures r.Some? ==> fresh(r.value) && r.value.Valid() && r.value.calls == []
      ensures r.Some? ==> r.value.first == Range(false, start, start + size)
    {
      if start + size >= U64_LIMIT {
        return None;
      }
      var acceptor := new MemoryAcceptor(start, start + size);
      return Some(acceptor);
    }

    /** The ranges are what the calls so far made of one open range. */
    ghost predicate Valid()
      reads this
    {
      ranges == AfterAll([first], calls)
    }

    method Accept(start: nat, end: nat)
      requires Valid()
      modifies this
      ensures Valid() && calls == old(calls) + [Call(start, end)]
      ensures ranges == AfterAccept(old(ranges), Call(start, end))
    {
      hide SortBy, AfterAll;
      AfterOneMore([first], calls, Call(start, end));
      calls := calls + [Call(start, end)];
      if start >= end {
        return;
      }
      var rs := CutRanges(ranges, start, end);
      rs := rs + [Range(true, start, end)];
      ranges := SortBy(RangeStart, rs);
    }
  }

  // ---------------------------------------------------------------------------------------------
  // The interval invariant
  // ---------------------------------------------------------------------------------------------

  /** Non-empty ranges that follow each other from `lo` to `hi`: sorted, disjoint, no gap. */
  ghost predicate Chain(rs: seq<Range>, lo: nat, hi: nat) {
    if rs == [] then lo == hi
    else rs[0].start == lo < rs[0].end && Chain(rs[1..], rs[0].end, hi)
  }

  /** The ranges cover exactly [0, size); an empty memory is the one empty open range. */
  ghost predicate Tiles(rs: seq<Range>, size: nat) {
    if size == 0 then rs == [Range(false, 0, 0)] else Chain(rs, 0, size)
  }

  /** Whether the range that holds `x` is accepted. */
  function Flag(rs: seq<Range>, x: nat): bool {
    if rs == [] then false
    else if rs[0].start <= x < rs[0].end then rs[0].accepted
    else Flag(rs[1..], x)
  }

  ghost predicate Free(rs: seq<Range>, start: nat, end: nat) {
    forall i :: 0 <= i < |rs| && rs[i].accepted ==> !Overlaps(rs[i], start, end)
  }

  lemma {:induction false} ChainBounds(rs: seq<Range>, lo: nat, hi: nat)
    requires Chain(rs, lo, hi)
    ensures lo <= hi
    ensures forall i :: 0 <= i < |rs| ==> lo <= rs[i].start < rs[i].end <= hi
    ensures forall i, j :: 0 <= i < j < |rs| ==> rs[i].end <= rs[j].start
    ensures SortedBy(RangeStart, rs)
  {
    if rs != [] {
      ChainBounds(rs[1..], rs[0].end, hi);
    }
  }

  /** Ranges past the accepted interval are left alone. */
  lemma {:induction false} RemnantsPast(rs: seq<Range>, lo: nat, hi: nat, start: nat, end: nat)
    requires Chain(rs, lo, hi) && end <= lo
    ensures Remnants(rs, start, end) == rs
  {
    if rs != [] {
      RemnantsPast(rs[1..], rs[0].end, hi, start, end);
      assert [rs[0]] + rs[1..] == rs;
    }
  }

  /** Cutting from before the chain leaves a chain from the end of the cut. */
  lemma {:induction false} RemnantsFrom(rs: seq<Range>, lo: nat, hi: nat, start: nat, end: nat)
    requires Chain(rs, lo, hi) && start <= lo <= end <= hi && start < end && Free(rs, start, end)
    ensures Chain(Remnants(rs, start, end), end, hi)
    ensures forall x: nat :: end <= x ==> Flag(Remnants(rs, start, end), x) == Flag(rs, x)
    ensures forall x: nat :: lo <= x < end ==> !Flag(rs, x)
  {
    if rs != [] {
      var r := rs[0];
      if end <= lo {
        RemnantsPast(rs, lo, hi, start, end);
        ChainBounds(rs, lo, hi);
      } else {
        assert !r.accepted;
        assert Free(rs[1..], start, end);
        if end <= r.end {
          RemnantsPast(rs[1..], r.end, hi, start, end);
          var more := Remnants(rs, start, end);
          if end < r.end {
            assert more == [Range(false, end, r.end)] + rs[1..];
            assert more[1..] == rs[1..];
          } else {
            assert more == rs[1..];
          }
        } else {
          RemnantsFrom(rs[1..], r.end, hi, start, end);
          assert Remnants(rs, start, end) == [] + Remnants(rs[1..], start, end) == Remnants(rs[1..], start, end);
        }
      }
    }
  }

  /** What an accept must achieve: a chain over the same memory with the interval flagged. */
  ghost predicate Carves(placed: seq<Range>, rs: seq<Range>, lo: nat, hi: nat, start: nat, end: nat) {
    && Chain(placed, lo, hi)
    && forall x: nat :: Flag(placed, x) == (start <= x < end || Flag(rs, x))
  }

  lemma ChainCons(r: Range, rest: seq<Range>, hi: nat)
    requires r.start < r.end && Chain(rest, r.end, hi)
    ensures Chain([r] + rest, r.start, hi)
    ensures forall x: nat :: Flag([r] + rest, x) == if r.start <= x < r.end then r.accepted else Flag(rest, x)
  {
    assert ([r] + rest)[1..] == rest;
  }

  /** The interval starts inside the first range: it goes between what precedes and follows it. */
  lemma AcceptHere(rs: seq<Range>, lo: nat, hi: nat, start: nat, end: nat)
    requires Chain(rs, lo, hi) && lo <= start < end <= hi && Free(rs, start, end)
    requires rs != [] && start < rs[0].end
    ensures SortedBy(RangeStart, Remnants(rs, start, end))
    ensures Carves(Place(RangeStart, Remnants(rs, start, end), Range(true, start, end)), rs, lo, hi, start, end)
  {
    hide Remnants, Free, Chain, Flag, Place, SortedBy;
    var c := Range(true, start, end);
    var back := Back(rs, lo, hi, start, end);
    ChainBounds(back, end, hi);
    NoFlagBelow(rs, lo, hi);
    PlaceFirst(back, c);
    ChainCons(c, back, hi);
    if lo < start {
      var r := Range(false, lo, start);
      ChainCons(r, [c] + back, hi);
      PlaceSecond(r, back, c);
    } else {
      assert [] + back == back;
    }
  }

  lemma PlaceFirst(back: seq<Range>, c: Range)
    requires forall i :: 0 <= i < |back| ==> c.start < back[i].start
    ensures Place(RangeStart, back, c) == [c] + back
  {
  }

  lemma PlaceSecond(r: Range, back: seq<Range>, c: Range)
    requires r.start < c.start && SortedBy(RangeStart, back)
    requires forall i :: 0 <= i < |back| ==> c.start < back[i].start
    ensures SortedBy(RangeStart, [r] + back)
    ensures Place(RangeStart, [r] + back, c) == [r] + ([c] + back)
  {
    assert ([r] + back)[1..] == back;
    PlaceFirst(back, c);
  }

  /** The interval starts past the first range, which is kept. */
  lemma AcceptLater(r: Range, rest: seq<Range>, hi: nat, start: nat, end: nat)
    requires r.start < r.end <= start < end && Chain(rest, r.end, hi)
    requires SortedBy(RangeStart, Remnants(rest, start, end))
    requires Carves(Place(RangeStart, Remnants(rest, start, end), Range(true, start, end)), rest, r.end, hi, start, end)
    ensures SortedBy(RangeStart, [r] + Remnants(rest, start, end))
    ensures Carves(Place(RangeStart, [r] + Remnants(rest, start, end), Range(true, start, end)), [r] + rest,
                   r.start, hi, start, end)
  {
    hide Remnants, Chain, Flag;
    var c, more := Range(true, start, end), Remnants(rest, start, end);
    var placed := Place(RangeStart, more, c);
    assert ([r] + more)[1..] == more;
    assert Place(RangeStart, [r] + more, c) == [r] + placed;
    ChainCons(r, placed, hi);
    ChainCons(r, rest, hi);
    ChainBounds(placed, r.end, hi);
    PlaceKeeps(more, c);
    AllStartAfter(more, placed, r.end);
  }

  /**
   * One accept of a free interval: the result is again a chain over the same memory, and exactly
   * the addresses of the interval become accepted.
   */
  lemma {:induction false} AcceptChain(rs: seq<Range>, lo: nat, hi: nat, start: nat, end: nat)
    requires Chain(rs, lo, hi) && lo <= start < end <= hi && Free(rs, start, end)
    ensures SortedBy(RangeStart, Remnants(rs, start, end))
    ensures Carves(Place(RangeStart, Remnants(rs, start, end), Range(true, start, end)), rs, lo, hi, start, end)
  {
    hide Carves, Place;
    if rs[0].end <= start {
      assert Free(rs[1..], start, end);
      AcceptChain(rs[1..], rs[0].end, hi, start, end);
      AcceptLater(rs[0], rs[1..], hi, start, end);
      assert [rs[0]] + rs[1..] == rs;
    } else {
      AcceptHere(rs, lo, hi, start, end);
    }
  }

  lemma {:induction false} PlaceKeeps(s: seq<Range>, x: Range)
    ensures forall i :: 0 <= i < |s| ==> s[i] in Place(RangeStart, s, x)
  {
    if s != [] && !(x.start < s[0].start) {
      PlaceKeeps(s[1..], x);
      forall i | 0 <= i < |s|
        ensures s[i] in Place(RangeStart, s, x)
      {
        if i > 0 {
          assert s[i] == s[1..][i - 1];
        }
      }
    }
  }

  lemma AllStartAfter(more: seq<Range>, placed: seq<Range>, bound: nat)
    requires forall i :: 0 <= i < |more| ==> more[i] in placed
    requires forall i :: 0 <= i < |placed| ==> bound <= placed[i].start
    ensures forall i :: 0 <= i < |more| ==> bound <= more[i].start
  {
  }

  /** The remnants to the right of a cut that begins inside the first range. */
  lemma Back(rs: seq<Range>, lo: nat, hi: nat, start: nat, end: nat) returns (back: seq<Range>)
    requires Chain(rs, lo, hi) && lo <= start < end <= hi && Free(rs, start, end)
    requires rs != [] && start < rs[0].end
    ensures rs[0].start == lo && Chain(back, end, hi)
    ensures Remnants(rs, start, end) ==
            (if rs[0].start < start then [Range(false, rs[0].start, start)] else []) + back
    ensures forall x: nat :: end <= x ==> Flag(back, x) == Flag(rs, x)
    ensures forall x: nat :: lo <= x < end ==> !Flag(rs, x)
    ensures forall x: nat :: x < lo ==> !Flag(rs, x) && !Flag(back, x)
    ensures forall x: nat :: x < end ==> !Flag(back, x)
  {
    var r := rs[0];
    assert !r.accepted;
    assert Free(rs[1..], start, end);
    var front := if r.start < start then [Range(false, r.start, start)] else [];
    if end <= r.end {
      RemnantsPast(rs[1..], r.end, hi, start, end);
      var piece := if end < r.end then [Range(false, end, r.end)] else [];
      back := piece + rs[1..];
      Assoc(front, piece, rs[1..]);
      if piece != [] {
        assert back[1..] == rs[1..];
      } else {
        assert back == rs[1..];
      }
    } else {
      RemnantsFrom(rs[1..], r.end, hi, start, end);
      back := Remnants(rs[1..], start, end);
      assert front + [] == front;
    }
    NoFlagBelow(back, end, hi);
    NoFlagBelow(rs, lo, hi);
  }

  lemma {:induction false} NoFlagBelow(rs: seq<Range>, lo: nat, hi: nat)
    requires Chain(rs, lo, hi)
    ensures forall x: nat :: x < lo || hi <= x ==> !Flag(rs, x)
  {
    if rs != [] {
      NoFlagBelow(rs[1..], rs[0].end, hi);
      ChainBounds(rs, lo, hi);
    }
  }

  ghost predicate Disjoint(a: Call, b: Call) {
    a.end <= b.start || b.end <= a.start || a.start >= a.end || b.start >= b.end
  }

  ghost predicate PairwiseDisjoint(calls: seq<Call>) {
    forall i, j :: 0 <= i < j < |calls| ==> Disjoint(calls[i], calls[j])
  }

  ghost predicate Inside(calls: seq<Call>, size: nat) {
    forall i :: 0 <= i < |calls| ==> calls[i].end <= size
  }

  ghost predicate Covered(calls: seq<Call>, x: nat) {
    exists i :: 0 <= i < |calls| && calls[i].start <= x < calls[i].end
  }

  /** Accepted ranges hold only flagged addresses, so a disjoint call finds its interval free. */
  lemma {:induction false} FreeFromFlags(rs: seq<Range>, lo: nat, hi: nat, start: nat, end: nat)
    requires Chain(rs, lo, hi) && start < end
    requires forall x: nat :: start <= x < end ==> !Flag(rs, x)
    ensures Free(rs, start, end)
  {
    if rs != [] {
      var r := rs[0];
      if r.accepted && Overlaps(r, start, end) {
        var x := if r.start < start then start else r.start;
        assert Flag(rs, x);
      }
      ChainBounds(rs, lo, hi);
      NoFlagBelow(rs[1..], r.end, hi);
      forall x: nat | start <= x < end
        ensures !Flag(rs[1..], x)
      {
        assert !Flag(rs, x);
      }
      FreeFromFlags(rs[1..], r.end, hi, start, end);
      forall i | 0 <= i < |rs| && rs[i].accepted
        ensures !Overlaps(rs[i], start, end)
      {
        if i > 0 {
          assert rs[i] == rs[1..][i - 1];
        }
      }
    }
  }

  /**
   * Every run: after any sequence of pairwise disjoint accepts inside memory the ranges are sorted,
   * do not overlap, cover exactly [0, size), and flag exactly the addresses some call contained.
   */
  lemma {:induction false} RunTiles(calls: seq<Call>, size: nat)
    requires PairwiseDisjoint(calls) && Inside(calls, size)
    ensures Tiles(AfterAll([Range(false, 0, size)], calls), size)
    ensures forall x: nat :: Flag(AfterAll([Range(false, 0, size)], calls), x) <==> Covered(calls, x)
  {
    hide AfterAll, AfterAccept, Chain, Flag, Covered;
    var start := [Range(false, 0, size)];
    if calls == [] {
      OneOpenRange(size);
    } else {
      var init, c := calls[..|calls| - 1], calls[|calls| - 1];
      assert PairwiseDisjoint(init) && Inside(init, size);
      RunTiles(init, size);
      assert calls == init + [c];
      AfterOneMore(start, init, c);
      CoveredSnoc(calls);
      if c.start < c.end {
        forall x: nat | c.start <= x < c.end
          ensures !Covered(init, x)
        {
          NotCoveredTwice(calls, x);
        }
        AcceptOne(AfterAll(start, init), size, c);
      } else {
        EmptyAccept(AfterAll(start, init), c);
      }
    }
  }

  lemma OneOpenRange(size: nat)
    ensures var start := [Range(false, 0, size)];
            && AfterAll(start, []) == start && Tiles(start, size)
            && forall x: nat :: !Flag(start, x) && !Covered([], x)
  {
    var start := [Range(false, 0, size)];
    assert start[1..] == [] && Chain(start[1..], size, size);
    forall x: nat
      ensures !Flag(start, x)
    {
      assert !Flag(start[1..], x);
    }
  }

  lemma EmptyAccept(rs: seq<Range>, c: Call)
    requires c.start >= c.end
    ensures AfterAccept(rs, c) == rs
  {
  }

  lemma NotCoveredTwice(calls: seq<Call>, x: nat)
    requires PairwiseDisjoint(calls) && calls != []
    requires calls[|calls| - 1].start <= x < calls[|calls| - 1].end
    ensures !Covered(calls[..|calls| - 1], x)
  {
    var init, c := calls[..|calls| - 1], calls[|calls| - 1];
    assert forall i :: 0 <= i < |init| ==> init[i] == calls[i] && Disjoint(calls[i], c);
  }

  lemma AcceptOne(rs: seq<Range>, size: nat, c: Call)
    requires size > 0 && Chain(rs, 0, size) && c.start < c.end <= size
    requires forall x: nat :: c.start <= x < c.end ==> !Flag(rs, x)
    ensures Chain(AfterAccept(rs, c), 0, size)
    ensures forall x: nat :: Flag(AfterAccept(rs, c), x) == (c.start <= x < c.end || Flag(rs, x))
  {
    hide SortBy, Place, Remnants, Chain, Flag;
    FreeFromFlags(rs, 0, size, c.start, c.end);
    AcceptChain(rs, 0, size, c.start, c.end);
    SortAppended(RangeStart, Remnants(rs, c.start, c.end), Range(true, c.start, c.end));
  }

  lemma CoveredSnoc(calls: seq<Call>)
    requires calls != []
    ensures var init, c := calls[..|calls| - 1], calls[|calls| - 1];
            forall x: nat :: Covered(calls, x) <==> Covered(init, x) || c.start <= x < c.end
  {
    var init, c := calls[..|calls| - 1], calls[|calls| - 1];
    forall x: nat
      ensures Covered(calls, x) <==> Covered(init, x) || c.start <= x < c.end
    {
      if Covered(init, x) {
        var i :| 0 <= i < |init| && init[i].start <= x < init[i].end;
        assert calls[i].start <= x < calls[i].end;
      }
      if Covered(calls, x) {
        var i :| 0 <= i < |calls| && calls[i].start <= x < calls[i].end;
        if i < |init| {
          assert init[i].start <= x < init[i].end;
        }
      }
    }
  }
}
