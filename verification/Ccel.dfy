/**
 * The CC event log (crates/tdx-measure/src/ccel.rs): the parser loop, the TCG_PCR_EVENT2 wire
 * format it reads, and the exact set of byte strings it accepts.
 */
module Ccel {
  import opened ByteLayout
  import opened Wrappers

  const MAX_DIGESTS: nat := 16
  const MAX_EVENTS: nat := 10_000
  const SHA384_ID: nat := 0x000C
  const PADDING_INDEX: nat := 0xFFFF_FFFF

  datatype Event = Event(mrIndex: nat, eventType: nat, digest: Bytes, data: Bytes)

  datatype Error =
    | TooShort | NotSpecId | SpecIdTooLong
    | DigestCount | UnknownAlgorithm | TooManyEvents | Truncated

  function DigestSize(algo: nat): Option<nat> {
    if algo == SHA384_ID then Some(48)
    else if algo == 0x000B then Some(32)
    else if algo == 0x0004 then Some(20)
    else None
  }

  function U32At(bs: Bytes, at: nat): nat
    requires at + 4 <= |bs|
  {
    FromLe(bs[at..at + 4])
  }

  // ---------------------------------------------------------------------------------------------
  // What one pass over the remaining bytes does
  // ---------------------------------------------------------------------------------------------

  datatype DigestScan = Digests(rest: Bytes, sha384: Bytes) | DigestsCut | DigestsUnknown

  function ScanDigests(bs: Bytes, count: nat, found: Bytes): (r: DigestScan)
    ensures r.Digests? ==> |r.rest| <= |bs|
    decreases count
  {
    if count == 0 then Digests(bs, found)
    else if |bs| < 2 then DigestsCut
    else
      var algo := FromLe(bs[..2]);
      match DigestSize(algo)
      case None => DigestsUnknown
      case Some(size) =>
        if |bs| < 2 + size then DigestsCut
        else ScanDigests(bs[2 + size..], count - 1, if algo == SHA384_ID then bs[2..2 + size] else found)
  }

  datatype Step = Next(event: Event, rest: Bytes) | Stop | Fail(error: Error)

  function ReadEvent(bs: Bytes): (r: Step)
    ensures r.Next? ==> |r.rest| < |bs|
  {
    if |bs| < 8 then Fail(Truncated)
    else if U32At(bs, 0) == PADDING_INDEX then Stop
    else if |bs| < 12 then Fail(Truncated)
    else if U32At(bs, 8) > MAX_DIGESTS then Fail(DigestCount)
    else
      match ScanDigests(bs[12..], U32At(bs, 8), [])
      case DigestsCut => Fail(Truncated)
      case DigestsUnknown => Fail(UnknownAlgorithm)
      case Digests(rest, sha384) =>
        if |rest| < 4 || |rest| < 4 + U32At(rest, 0) then Fail(Truncated)
        else
          var size := U32At(rest, 0);
          if U32At(bs, 4) == 0 && U32At(bs, 0) == 0 && size == 0 then Stop
          else Next(Event(U32At(bs, 0), U32At(bs, 4), sha384, rest[4..4 + size]), rest[4 + size..])
  }

  function Prepend(events: seq<Event>, r: Result<seq<Event>, Error>): Result<seq<Event>, Error> {
    if r.Ok? then Ok(events + r.value) else r
  }

  lemma PrependNothing(r: Result<seq<Event>, Error>)
    ensures Prepend([], r) == r
  {
    if r.Ok? {
      assert [] + r.value == r.value;
    }
  }

  lemma PrependTwice(events: seq<Event>, event: Event, r: Result<seq<Event>, Error>)
    ensures Prepend(events, Prepend([event], r)) == Prepend(events + [event], r)
  {
    if r.Ok? {
      assert events + ([event] + r.value) == events + [event] + r.value;
    }
  }

  /** The events in `bs`, given that `n` events were kept before it. */
  function ReadEvents(bs: Bytes, n: nat): Result<seq<Event>, Error>
    decreases |bs|
  {
    if bs == [] then Ok([])
    else
      match ReadEvent(bs)
      case Stop => Ok([])
      case Fail(e) => Err(e)
      case Next(event, rest) =>
        if event.digest == [] then ReadEvents(rest, n)
        else if n >= MAX_EVENTS then Err(TooManyEvents)
        else Prepend([event], ReadEvents(rest, n + 1))
  }

  /** Length of the leading Spec ID event, when `data` starts with one. */
  function SpecIdLength(data: Bytes): (r: Result<nat, Error>)
    ensures r.Ok? ==> 32 <= r.value <= |data|
  {
    if |data| < 32 then Err(TooShort)
    else if U32At(data, 4) != 3 then Err(NotSpecId)
    else if 32 + U32At(data, 28) > |data| then Err(SpecIdTooLong)
    else Ok(32 + U32At(data, 28))
  }

  function Parsed(data: Bytes): Result<seq<Event>, Error> {
    match SpecIdLength(data)
    case Err(e) => Err(e)
    case Ok(start) => ReadEvents(data[start..], 0)
  }

  // ---------------------------------------------------------------------------------------------
  // The parser loop
  // ---------------------------------------------------------------------------------------------

  /** The digest loop of one event, from `start`; `cut` is the source's `!digest_parse_ok`. */
  method ParseDigests(data: Bytes, start: nat, count: nat)
    returns (pos: nat, sha384: Bytes, cut: bool, unknown: bool)
    requires start <= |data|
    ensures pos <= |data|
    ensures ScanDigests(data[start..], count, []) ==
            if unknown then DigestsUnknown else if cut then DigestsCut else Digests(data[pos..], sha384)
  {
    hide FromLe, DigestSize;
    pos, sha384, cut, unknown := start, [], false, false;
    for i := 0 to count
      invariant pos <= |data| && !cut && !unknown
      invariant ScanDigests(data[start..], count, []) == ScanDigests(data[pos..], count - i, sha384)
    {
      if pos + 2 > |data| {
        cut := true;
        return;
      }
      assert data[pos..][..2] == data[pos..pos + 2];
      var algo := FromLe(data[pos..pos + 2]);
      match DigestSize(algo) {
        case None =>
          unknown := true;
          return;
        case Some(size) =>
          if pos + 2 + size > |data| {
            cut := true;
            return;
          }
          assert data[pos..][2..2 + size] == data[pos + 2..pos + 2 + size];
          assert data[pos..][2 + size..] == data[pos + 2 + size..];
          if algo == SHA384_ID {
            sha384 := data[pos + 2..pos + 2 + size];
          }
          pos := pos + 2 + size;
      }
    }
  }

  /** One turn of the loop; `next` is where the following event starts. */
  method ParseEvent(data: Bytes, offset: nat) returns (step: Step, next: nat)
    requires offset < |data|
    ensures step == ReadEvent(data[offset..])
    ensures step.Next? ==> offset < next <= |data| && step.rest == data[next..]
  {
    hide ScanDigests, FromLe;
    ghost var bs := data[offset..];
    next := offset;
    if offset + 8 > |data| {
      return Fail(Truncated), next;
    }
    assert bs[0..4] == data[offset..offset + 4] && bs[4..8] == data[offset + 4..offset + 8];
    var mrIndex := FromLe(data[offset..offset + 4]);
    if mrIndex == PADDING_INDEX {
      return Stop, next;
    }
    var eventType := FromLe(data[offset + 4..offset + 8]);
    if offset + 12 > |data| {
      return Fail(Truncated), next;
    }
    assert bs[8..12] == data[offset + 8..offset + 12] && bs[12..] == data[offset + 12..];
    var digestCount := FromLe(data[offset + 8..offset + 12]);
    if digestCount > MAX_DIGESTS {
      return Fail(DigestCount), next;
    }
    var pos, sha384, cut, unknown := ParseDigests(data, offset + 12, digestCount);
    if unknown {
      return Fail(UnknownAlgorithm), next;
    }
    if cut || pos + 4 > |data| {
      return Fail(Truncated), next;
    }
    SliceOfRest(data, pos, 0, 4);
    var size := FromLe(data[pos..pos + 4]);
    if pos + 4 + size > |data| {
      return Fail(Truncated), next;
    }
    if eventType == 0 && mrIndex == 0 && size == 0 {
      return Stop, next;
    }
    next := pos + 4 + size;
    SliceOfRest(data, pos, 4, 4 + size);
    return Next(Event(mrIndex, eventType, sha384, data[pos + 4..next]), data[next..]), next;
  }

  method ParseCcel(data: Bytes) returns (r: Result<seq<Event>, Error>)
    ensures r == Parsed(data)
  {
    hide ReadEvent, FromLe;
    if |data| < 32 {
      return Err(TooShort);
    }
    if FromLe(data[4..8]) != 3 {
      return Err(NotSpecId);
    }
    var offset := 32 + FromLe(data[28..32]);
    if offset > |data| {
      return Err(SpecIdTooLong);
    }
    ghost var start := offset;
    var events: seq<Event> := [];
    PrependNothing(ReadEvents(data[start..], 0));
    while offset < |data|
      invariant start <= offset <= |data|
      invariant ReadEvents(data[start..], 0) == Prepend(events, ReadEvents(data[offset..], |events|))
      decreases |data| - offset
    {
      assert events + [] == events;
      var step, next := ParseEvent(data, offset);
      match step {
        case Fail(e) =>
          return Err(e);
        case Stop =>
          return Ok(events);
        case Next(event, _) =>
          if event.digest != [] {
            if |events| >= MAX_EVENTS {
              return Err(TooManyEvents);
            }
            PrependTwice(events, event, ReadEvents(data[next..], |events| + 1));
            events := events + [event];
          }
          offset := next;
      }
    }
    assert data[offset..] == [] && events + [] == events;
    return Ok(events);
  }

  // ---------------------------------------------------------------------------------------------
  // The wire format, defined without the parser
  // ---------------------------------------------------------------------------------------------

  datatype WireDigest = WireDigest(algo: nat, bytes: Bytes)
  datatype WireEvent = WireEvent(mrIndex: nat, eventType: nat, digests: seq<WireDigest>, data: Bytes)

  predicate KnownDigest(d: WireDigest) {
    DigestSize(d.algo) == Some(|d.bytes|)
  }

  predicate KnownDigests(ds: seq<WireDigest>) {
    |ds| <= MAX_DIGESTS && forall i :: 0 <= i < |ds| ==> KnownDigest(ds[i])
  }

  predicate WellFormed(w: WireEvent) {
    && w.mrIndex < U32_LIMIT && w.eventType < U32_LIMIT && |w.data| < U32_LIMIT
    && w.mrIndex != PADDING_INDEX
    && KnownDigests(w.digests)
  }

  predicate TerminatorShaped(w: WireEvent) {
    w.mrIndex == 0 && w.eventType == 0 && w.data == []
  }

  ghost predicate Loggable(ws: seq<WireEvent>) {
    forall i :: 0 <= i < |ws| ==> WellFormed(ws[i]) && !TerminatorShaped(ws[i])
  }

  function WriteDigests(ds: seq<WireDigest>): Bytes {
    if ds == [] then []
    else ToLe(ds[0].algo, 2) + ds[0].bytes + WriteDigests(ds[1..])
  }

  function WriteEvent(w: WireEvent): Bytes {
    ToLe(w.mrIndex, 4) + ToLe(w.eventType, 4) + ToLe(|w.digests|, 4)
    + WriteDigests(w.digests) + ToLe(|w.data|, 4) + w.data
  }

  function WriteEvents(ws: seq<WireEvent>): Bytes {
    if ws == [] then [] else WriteEvent(ws[0]) + WriteEvents(ws[1..])
  }

  /** The SHA-384 digest an event carries: the last one listed, or none. */
  function Sha384Of(ds: seq<WireDigest>, found: Bytes): Bytes {
    if ds == [] then found
    else Sha384Of(ds[1..], if ds[0].algo == SHA384_ID then ds[0].bytes else found)
  }

  /** What a reader keeps of a log: events that carry a SHA-384 digest, in order. */
  function Kept(ws: seq<WireEvent>): seq<Event> {
    if ws == [] then []
    else
      var w := ws[0];
      var sha384 := Sha384Of(w.digests, []);
      (if sha384 == [] then [] else [Event(w.mrIndex, w.eventType, sha384, w.data)]) + Kept(ws[1..])
  }

  /** The ways a log may end: at the last byte, at 0xFF padding, or at a terminator event. */
  ghost predicate Ending(tail: Bytes) {
    || tail == []
    || (|tail| >= 8 && U32At(tail, 0) == PADDING_INDEX)
    || exists w, junk :: TerminatorTail(tail, w, junk)
  }

  ghost predicate TerminatorTail(tail: Bytes, w: WireEvent, junk: Bytes) {
    WellFormed(w) && TerminatorShaped(w) && tail == WriteEvent(w) + junk
  }

  ghost predicate Splits(bs: Bytes, ws: seq<WireEvent>, tail: Bytes) {
    Loggable(ws) && Ending(tail) && bs == WriteEvents(ws) + tail
  }

  // ---------------------------------------------------------------------------------------------
  // Reading what was written
  // ---------------------------------------------------------------------------------------------

  lemma ScanOne(d: WireDigest, more: Bytes, count: nat, found: Bytes)
    requires KnownDigest(d)
    ensures ScanDigests(ToLe(d.algo, 2) + d.bytes + more, count + 1, found) ==
            ScanDigests(more, count, if d.algo == SHA384_ID then d.bytes else found)
  {
    var bs := ToLe(d.algo, 2) + d.bytes + more;
    PowValues();
    LeRoundTrip(d.algo, 2);
    assert bs[..2] == ToLe(d.algo, 2);
    assert bs[2..2 + |d.bytes|] == d.bytes;
    assert bs[2 + |d.bytes|..] == more;
  }

  lemma {:induction false} ScanWritten(ds: seq<WireDigest>, tail: Bytes, found: Bytes)
    requires forall i :: 0 <= i < |ds| ==> KnownDigest(ds[i])
    ensures ScanDigests(WriteDigests(ds) + tail, |ds|, found) == Digests(tail, Sha384Of(ds, found))
  {
    if ds == [] {
      assert WriteDigests(ds) + tail == tail;
    } else {
      var found' := if ds[0].algo == SHA384_ID then ds[0].bytes else found;
      var more := WriteDigests(ds[1..]);
      Assoc(ToLe(ds[0].algo, 2) + ds[0].bytes, more, tail);
      ScanOne(ds[0], more + tail, |ds| - 1, found);
      ScanWritten(ds[1..], tail, found');
    }
  }

  lemma HeaderFields(w: WireEvent, rest: Bytes)
    requires WellFormed(w)
    ensures var bs := ToLe(w.mrIndex, 4) + ToLe(w.eventType, 4) + ToLe(|w.digests|, 4) + rest;
            && U32At(bs, 0) == w.mrIndex && U32At(bs, 4) == w.eventType && U32At(bs, 8) == |w.digests|
            && bs[12..] == rest
  {
    PowValues();
    var a, b, c := ToLe(w.mrIndex, 4), ToLe(w.eventType, 4), ToLe(|w.digests|, 4);
    var bs := a + b + c + rest;
    assert bs[0..4] == a && bs[4..8] == b && bs[8..12] == c;
    LeRoundTrip(w.mrIndex, 4);
    LeRoundTrip(w.eventType, 4);
    LeRoundTrip(|w.digests|, 4);
  }

  lemma ReadWritten(w: WireEvent, tail: Bytes)
    requires WellFormed(w)
    ensures ReadEvent(WriteEvent(w) + tail) ==
            if TerminatorShaped(w) then Stop
            else Next(Event(w.mrIndex, w.eventType, Sha384Of(w.digests, []), w.data), tail)
  {
    var afterDigests := ToLe(|w.data|, 4) + w.data + tail;
    var afterHeader := WriteDigests(w.digests) + afterDigests;
    var header := ToLe(w.mrIndex, 4) + ToLe(w.eventType, 4) + ToLe(|w.digests|, 4);
    Regroup(header, WriteDigests(w.digests), ToLe(|w.data|, 4), w.data, tail);
    HeaderFields(w, afterHeader);
    ScanWritten(w.digests, afterDigests, []);
    DataFields(w.data, tail);
  }

  lemma DataFields(data: Bytes, tail: Bytes)
    requires |data| < U32_LIMIT
    ensures var bs := ToLe(|data|, 4) + data + tail;
            && U32At(bs, 0) == |data|
            && bs[4..4 + |data|] == data && bs[4 + |data|..] == tail
  {
    PowValues();
    LeRoundTrip(|data|, 4);
    assert (ToLe(|data|, 4) + data + tail)[0..4] == ToLe(|data|, 4);
  }

  lemma EndingIsRead(tail: Bytes, n: nat)
    requires Ending(tail)
    ensures ReadEvents(tail, n) == Ok([])
  {
    if tail != [] && !(|tail| >= 8 && U32At(tail, 0) == PADDING_INDEX) {
      var w, junk :| TerminatorTail(tail, w, junk);
      ReadWritten(w, junk);
    }
  }

  /** How one complete event in front changes the outcome. */
  function AfterEvent(w: WireEvent, rest: Bytes, n: nat): Result<seq<Event>, Error> {
    var sha384 := Sha384Of(w.digests, []);
    if sha384 == [] then ReadEvents(rest, n)
    else if n >= MAX_EVENTS then Err(TooManyEvents)
    else Prepend([Event(w.mrIndex, w.eventType, sha384, w.data)], ReadEvents(rest, n + 1))
  }

  lemma ReadOneMore(w: WireEvent, rest: Bytes, n: nat)
    requires WellFormed(w) && !TerminatorShaped(w)
    ensures ReadEvents(WriteEvent(w) + rest, n) == AfterEvent(w, rest, n)
  {
    ReadWritten(w, rest);
    assert WriteEvent(w) + rest != [];
  }

  /** Completeness: every loggable event list, followed by any legal ending, reads back as itself. */
  lemma {:induction false} WrittenLogIsRead(ws: seq<WireEvent>, tail: Bytes, n: nat)
    requires Loggable(ws) && Ending(tail)
    requires Kept(ws) == [] || n + |Kept(ws)| <= MAX_EVENTS
    ensures ReadEvents(WriteEvents(ws) + tail, n) == Ok(Kept(ws))
  {
    if ws == [] {
      assert WriteEvents(ws) + tail == tail;
      EndingIsRead(tail, n);
    } else {
      var rest := WriteEvents(ws[1..]) + tail;
      Assoc(WriteEvent(ws[0]), WriteEvents(ws[1..]), tail);
      ReadOneMore(ws[0], rest, n);
      var sha384 := Sha384Of(ws[0].digests, []);
      WrittenLogIsRead(ws[1..], tail, if sha384 != [] then n + 1 else n);
      assert [] + Kept(ws[1..]) == Kept(ws[1..]);
    }
  }

  // ---------------------------------------------------------------------------------------------
  // Writing what was read
  // ---------------------------------------------------------------------------------------------

  lemma {:induction false} ScannedIsWritten(bs: Bytes, count: nat, found: Bytes) returns (ds: seq<WireDigest>)
    requires ScanDigests(bs, count, found).Digests?
    ensures |ds| == count
    ensures forall i :: 0 <= i < |ds| ==> KnownDigest(ds[i])
    ensures var r := ScanDigests(bs, count, found);
            bs == WriteDigests(ds) + r.rest && r.sha384 == Sha384Of(ds, found)
  {
    hide FromLe, ToLe, DigestSize;
    if count == 0 {
      ds := [];
      assert bs == WriteDigests(ds) + bs;
    } else {
      var algo := FromLe(bs[..2]);
      var size := DigestSize(algo).value;
      var d := WireDigest(algo, bs[2..2 + size]);
      var found' := if algo == SHA384_ID then d.bytes else found;
      var ds' := ScannedIsWritten(bs[2 + size..], count - 1, found');
      ds := [d] + ds';
      assert ds[1..] == ds' && ds[0] == d;
      LeBytesRoundTrip(bs[..2]);
      Assoc(ToLe(algo, 2) + d.bytes, WriteDigests(ds'), ScanDigests(bs[2 + size..], count - 1, found').rest);
      SplitAt(bs, 2, 2 + size);
    }
  }

  lemma SplitAt(bs: Bytes, i: nat, j: nat)
    requires i <= j <= |bs|
    ensures bs == bs[..i] + bs[i..j] + bs[j..]
  {
  }

  lemma HeaderIsWritten(bs: Bytes)
    requires |bs| >= 12
    ensures bs == ToLe(U32At(bs, 0), 4) + ToLe(U32At(bs, 4), 4) + ToLe(U32At(bs, 8), 4) + bs[12..]
    ensures U32At(bs, 0) < U32_LIMIT && U32At(bs, 4) < U32_LIMIT
  {
    PowValues();
    FromLeBound(bs[0..4]);
    FromLeBound(bs[4..8]);
    LeBytesRoundTrip(bs[0..4]);
    LeBytesRoundTrip(bs[4..8]);
    LeBytesRoundTrip(bs[8..12]);
    assert bs == bs[0..4] + bs[4..8] + bs[8..12] + bs[12..];
  }

  lemma DataIsWritten(bs: Bytes)
    requires |bs| >= 4 && |bs| >= 4 + U32At(bs, 0)
    ensures var size := U32At(bs, 0);
            size < U32_LIMIT && bs == ToLe(size, 4) + bs[4..4 + size] + bs[4 + size..]
  {
    var size := U32At(bs, 0);
    PowValues();
    FromLeBound(bs[0..4]);
    LeBytesRoundTrip(bs[0..4]);
    assert bs == bs[0..4] + bs[4..4 + size] + bs[4 + size..];
  }

  lemma Regroup(a: Bytes, b: Bytes, c: Bytes, d: Bytes, e: Bytes)
    ensures a + (b + (c + d + e)) == a + b + c + d + e
  {
  }

  lemma CompleteIsWritten(bs: Bytes) returns (w: WireEvent, rest: Bytes)
    requires |bs| >= 12 && U32At(bs, 0) != PADDING_INDEX && U32At(bs, 8) <= MAX_DIGESTS
    requires ScanDigests(bs[12..], U32At(bs, 8), []).Digests?
    requires var after := ScanDigests(bs[12..], U32At(bs, 8), []).rest;
             |after| >= 4 && |after| >= 4 + U32At(after, 0)
    ensures WellFormed(w) && bs == WriteEvent(w) + rest
  {
    var after := ScanDigests(bs[12..], U32At(bs, 8), []).rest;
    var ds := ScannedIsWritten(bs[12..], U32At(bs, 8), []);
    var size := U32At(after, 0);
    w := WireEvent(U32At(bs, 0), U32At(bs, 4), ds, after[4..4 + size]);
    rest := after[4 + size..];
    HeaderIsWritten(bs);
    DataIsWritten(after);
    var header := ToLe(w.mrIndex, 4) + ToLe(w.eventType, 4) + ToLe(|w.digests|, 4);
    Regroup(header, WriteDigests(ds), ToLe(size, 4), w.data, rest);
  }

  lemma ReadIsWritten(bs: Bytes) returns (w: WireEvent, rest: Bytes)
    requires
      || ReadEvent(bs).Next?
      || (ReadEvent(bs).Stop? && U32At(bs, 0) != PADDING_INDEX)
    ensures WellFormed(w) && bs == WriteEvent(w) + rest
    ensures ReadEvent(bs) ==
            if TerminatorShaped(w) then Stop
            else Next(Event(w.mrIndex, w.eventType, Sha384Of(w.digests, []), w.data), rest)
  {
    w, rest := CompleteIsWritten(bs);
    ReadWritten(w, rest);
  }

  lemma StopIsEnding(bs: Bytes)
    requires bs == [] || ReadEvent(bs).Stop?
    ensures Ending(bs)
  {
    if bs != [] && U32At(bs, 0) != PADDING_INDEX {
      var w, junk := ReadIsWritten(bs);
      assert TerminatorTail(bs, w, junk);
    }
  }

  /** Soundness: whatever is read is a concatenation of complete events and a legal ending. */
  lemma {:induction false} ReadLogIsWritten(bs: Bytes, n: nat) returns (ws: seq<WireEvent>, tail: Bytes)
    requires ReadEvents(bs, n).Ok?
    ensures Splits(bs, ws, tail)
    ensures ReadEvents(bs, n).value == Kept(ws)
    ensures Kept(ws) == [] || n + |Kept(ws)| <= MAX_EVENTS
    decreases |bs|
  {
    hide ReadEvent, WriteEvent, Ending, TerminatorShaped;
    if bs == [] || ReadEvent(bs).Stop? {
      ws, tail := [], bs;
      assert WriteEvents(ws) + tail == bs;
      StopIsEnding(bs);
    } else {
      var w, rest := ReadIsWritten(bs);
      ReadOneMore(w, rest, n);
      ws, tail := ReadLogIsWritten(rest, if Sha384Of(w.digests, []) == [] then n else n + 1);
      Assoc(WriteEvent(w), WriteEvents(ws), tail);
      assert [] + Kept(ws) == Kept(ws);
      ws := Consed(w, ws);
    }
  }

  lemma Consed(w: WireEvent, ws: seq<WireEvent>) returns (all: seq<WireEvent>)
    ensures all == [w] + ws && all[0] == w && all[1..] == ws
    ensures WriteEvents(all) == WriteEvent(w) + WriteEvents(ws)
  {
    all := [w] + ws;
    assert all[1..] == ws;
  }

  /**
   * The accepted logs, exactly: `events` is returned if and only if the bytes after the Spec ID
   * event are complete events followed by a legal ending, `events` are those that carry SHA-384,
   * and there are at most 10,000 of them. So nothing is silently dropped at a truncation.
   */
  lemma AcceptsExactlyCompleteLogs(data: Bytes, events: seq<Event>)
    ensures Parsed(data) == Ok(events) <==>
            && SpecIdLength(data).Ok?
            && |events| <= MAX_EVENTS
            && exists ws, tail :: Splits(data[SpecIdLength(data).value..], ws, tail) && Kept(ws) == events
  {
    if SpecIdLength(data).Ok? {
      var bs := data[SpecIdLength(data).value..];
      if Parsed(data) == Ok(events) {
        var ws, tail := ReadLogIsWritten(bs, 0);
        assert Splits(bs, ws, tail);
      }
      if |events| <= MAX_EVENTS && exists ws, tail :: Splits(bs, ws, tail) && Kept(ws) == events {
        var ws, tail :| Splits(bs, ws, tail) && Kept(ws) == events;
        WrittenLogIsRead(ws, tail, 0);
      }
    }
  }
}
