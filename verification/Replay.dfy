/** Replaying an event log into the four runtime registers (`replay_rtmrs` in ccel.rs). */
module Replay {
  import opened ByteLayout
  import opened Hashing
  import opened Wrappers
  import Ccel

  /** The digests an event log sends to one measurement register, in order. */
  function RegisterLog(events: seq<Ccel.Event>, mrIndex: nat): seq<Bytes> {
    if events == [] then []
    else
      (if events[0].mrIndex == mrIndex then [events[0].digest] else [])
      + RegisterLog(events[1..], mrIndex)
  }

  lemma {:induction false} RegisterLogConcat(a: seq<Ccel.Event>, b: seq<Ccel.Event>, mrIndex: nat)
    ensures RegisterLog(a + b, mrIndex) == RegisterLog(a, mrIndex) + RegisterLog(b, mrIndex)
  {
    if a == [] {
      assert a + b == b;
    } else {
      RegisterLogConcat(a[1..], b, mrIndex);
      assert (a + b)[1..] == a[1..] + b && (a + b)[0] == a[0];
      var head := if a[0].mrIndex == mrIndex then [a[0].digest] else [];
      Assoc(head, RegisterLog(a[1..], mrIndex), RegisterLog(b, mrIndex));
    }
  }

  lemma RegisterLogSnoc(events: seq<Ccel.Event>, e: Ccel.Event, mrIndex: nat)
    ensures RegisterLog(events + [e], mrIndex) ==
            RegisterLog(events, mrIndex) + if e.mrIndex == mrIndex then [e.digest] else []
  {
    RegisterLogConcat(events, [e], mrIndex);
    assert [e][1..] == [];
  }

  /** Each register is the fold over its own digests. */
  ghost predicate Replayed(h: Hash, events: seq<Ccel.Event>, registers: seq<Digest>) {
    && |registers| == 4
    && forall r :: 0 <= r < 4 ==> registers[r] == MeasureLog(h, RegisterLog(events, r + 1))
  }

  /** Each register is the plain fold over its own events; events of no register change nothing. */
  method ReplayRtmrs(h: Hash, events: seq<Ccel.Event>) returns (rtmrs: seq<Digest>)
    ensures Replayed(h, events, rtmrs)
  {
    var registers := new Digest[4](_ => ZERO_DIGEST);
    for i := 0 to |events|
      invariant Replayed(h, events[..i], registers[..])
    {
      var e := events[i];
      ghost var before := registers[..];
      if 1 <= e.mrIndex <= 4 {
        registers[e.mrIndex - 1] := Extend(h, registers[e.mrIndex - 1], e.digest);
        assert registers[..] == before[e.mrIndex - 1 := Extend(h, before[e.mrIndex - 1], e.digest)];
      }
      ReplayedOne(h, events[..i], e, before);
      assert events[..i + 1] == events[..i] + [e];
    }
    assert events[..|events|] == events;
    return registers[..];
  }

  lemma ReplayedOne(h: Hash, events: seq<Ccel.Event>, e: Ccel.Event, registers: seq<Digest>)
    requires Replayed(h, events, registers)
    ensures Replayed(h, events + [e],
                     if 1 <= e.mrIndex <= 4
                     then registers[e.mrIndex - 1 := Extend(h, registers[e.mrIndex - 1], e.digest)]
                     else registers)
  {
    hide MeasureLog, RegisterLog, Extend;
    ghost var next := if 1 <= e.mrIndex <= 4
                      then registers[e.mrIndex - 1 := Extend(h, registers[e.mrIndex - 1], e.digest)]
                      else registers;
    forall r | 0 <= r < 4
      ensures next[r] == MeasureLog(h, RegisterLog(events + [e], r + 1))
    {
      ReplayStep(h, events, e, r + 1);
      assert registers[r] == MeasureLog(h, RegisterLog(events, r + 1));
    }
  }

  lemma ReplayStep(h: Hash, events: seq<Ccel.Event>, e: Ccel.Event, mrIndex: nat)
    ensures var before := MeasureLog(h, RegisterLog(events, mrIndex));
            MeasureLog(h, RegisterLog(events + [e], mrIndex)) ==
            if e.mrIndex == mrIndex then Extend(h, before, e.digest) else before
  {
    var log := RegisterLog(events, mrIndex);
    RegisterLogSnoc(events, e, mrIndex);
    assert (log + [e.digest])[..|log|] == log && log + [] == log;
  }

  /** Two neighbouring events of different registers may be logged in either order. */
  lemma SwapIsInvisible(a: seq<Ccel.Event>, x: Ccel.Event, y: Ccel.Event, b: seq<Ccel.Event>, mrIndex: nat)
    requires x.mrIndex != y.mrIndex
    ensures RegisterLog(a + [x, y] + b, mrIndex) == RegisterLog(a + [y, x] + b, mrIndex)
  {
    RegisterLogConcat(a + [x, y], b, mrIndex);
    RegisterLogConcat(a + [y, x], b, mrIndex);
    assert a + [x, y] == a + [x] + [y] && a + [y, x] == a + [y] + [x];
    RegisterLogSnoc(a + [x], y, mrIndex);
    RegisterLogSnoc(a, x, mrIndex);
    RegisterLogSnoc(a + [y], x, mrIndex);
    RegisterLogSnoc(a, y, mrIndex);
  }

  /** The events sent to one register, in order. */
  function EventsOf(events: seq<Ccel.Event>, mrIndex: nat): seq<Ccel.Event> {
    if events == [] then []
    else (if events[0].mrIndex == mrIndex then [events[0]] else []) + EventsOf(events[1..], mrIndex)
  }

  lemma {:induction false} LogIsOwnEvents(events: seq<Ccel.Event>, mrIndex: nat)
    ensures RegisterLog(events, mrIndex) == RegisterLog(EventsOf(events, mrIndex), mrIndex)
  {
    if events != [] {
      LogIsOwnEvents(events[1..], mrIndex);
      var own := EventsOf(events[1..], mrIndex);
      assert ([events[0]] + own)[1..] == own && [] + own == own;
    }
  }

  /** Any two logs in which each register sees the same events in the same order replay alike. */
  lemma ReorderingIsInvisible(h: Hash, a: seq<Ccel.Event>, b: seq<Ccel.Event>, x: seq<Digest>, y: seq<Digest>)
    requires forall r :: 1 <= r <= 4 ==> EventsOf(a, r) == EventsOf(b, r)
    requires Replayed(h, a, x) && Replayed(h, b, y)
    ensures x == y
  {
    forall r | 0 <= r < 4
      ensures x[r] == y[r]
    {
      LogIsOwnEvents(a, r + 1);
      LogIsOwnEvents(b, r + 1);
      assert EventsOf(a, r + 1) == EventsOf(b, r + 1);
    }
  }

  lemma {:induction false} KeptDigestsAre48(ws: seq<Ccel.WireEvent>, mrIndex: nat)
    requires Ccel.Loggable(ws)
    ensures AllDigests(RegisterLog(Ccel.Kept(ws), mrIndex))
  {
    if ws != [] {
      KeptDigestsAre48(ws[1..], mrIndex);
      ListedDigestIs48(ws[0].digests, []);
      var tail := Ccel.Kept(ws[1..]);
      var head := Ccel.Kept(ws)[..|Ccel.Kept(ws)| - |tail|];
      assert Ccel.Kept(ws) == head + tail;
      RegisterLogConcat(head, tail, mrIndex);
      assert |head| <= 1;
    }
  }

  lemma {:induction false} ListedDigestIs48(ds: seq<Ccel.WireDigest>, found: Bytes)
    requires forall i :: 0 <= i < |ds| ==> Ccel.KnownDigest(ds[i])
    requires |found| == 0 || |found| == 48
    ensures var d := Ccel.Sha384Of(ds, found); |d| == 0 || |d| == 48
  {
    if ds != [] {
      ListedDigestIs48(ds[1..], if ds[0].algo == Ccel.SHA384_ID then ds[0].bytes else found);
    }
  }

  /**
   * End to end: two event logs that both parse and replay to the same register carry the same
   * digests for it in the same order, or the two replays exhibit a collision or a preimage of the
   * zero register. So the four registers determine the log up to interleaving.
   */
  lemma {:induction false} RegistersBindLogs(h: Hash, p: Bytes, q: Bytes,
                                                a: seq<Ccel.Event>, b: seq<Ccel.Event>, mrIndex: nat)
    requires Ccel.Parsed(p) == Ok(a) && Ccel.Parsed(q) == Ok(b)
    requires MeasureLog(h, RegisterLog(a, mrIndex)) == MeasureLog(h, RegisterLog(b, mrIndex))
    ensures var la, lb := RegisterLog(a, mrIndex), RegisterLog(b, mrIndex);
            la == lb || BreakAmong(h, ChainInputs(h, la), ChainInputs(h, lb))
  {
    var wa, ta := Ccel.ReadLogIsWritten(p[Ccel.SpecIdLength(p).value..], 0);
    var wb, tb := Ccel.ReadLogIsWritten(q[Ccel.SpecIdLength(q).value..], 0);
    KeptDigestsAre48(wa, mrIndex);
    KeptDigestsAre48(wb, mrIndex);
    RegisterBindsLog(h, RegisterLog(a, mrIndex), RegisterLog(b, mrIndex));
  }
}
