/**
 * SHA-384 is a parameter: every result holds for every function from byte strings to 48-byte
 * digests, so nothing is assumed injective. Collisions always exist, so binding results name one
 * among the finitely many strings that the two computations in question really hash.
 */
module Hashing {
  import opened ByteLayout

  type Digest = d: Bytes | |d| == 48 witness Zeros(48)
  type Hash = Bytes -> Digest

  const ZERO_DIGEST: Digest := Zeros(48)

  /** One register extension: the digest of the old register followed by the event digest. */
  function Extend(h: Hash, register: Bytes, digest: Bytes): Digest {
    h(register + digest)
  }

  /** A register is a fold of extensions over its log, starting from 48 zero bytes. */
  function MeasureLog(h: Hash, log: seq<Bytes>): Digest {
    if log == [] then ZERO_DIGEST
    else Extend(h, MeasureLog(h, log[..|log| - 1]), log[|log| - 1])
  }

  method ComputeMeasureLog(h: Hash, log: seq<Bytes>) returns (register: Digest)
    ensures register == MeasureLog(h, log)
  {
    register := ZERO_DIGEST;
    for i := 0 to |log|
      invariant register == MeasureLog(h, log[..i])
    {
      assert log[..i + 1][..i] == log[..i];
      register := Extend(h, register, log[i]);
    }
    assert log[..|log|] == log;
  }

  /** Every string hashed while folding `log`. */
  function ChainInputs(h: Hash, log: seq<Bytes>): seq<Bytes> {
    if log == [] then []
    else
      var init := log[..|log| - 1];
      ChainInputs(h, init) + [MeasureLog(h, init) + log[|log| - 1]]
  }

  /** Two different hashed strings with one digest, one from each computation. */
  ghost predicate CollisionAmong(h: Hash, xs: seq<Bytes>, ys: seq<Bytes>) {
    exists x, y :: x in xs && y in ys && x != y && h(x) == h(y)
  }

  /** A collision between the two computations, or a string either of them hashes to 48 zero bytes. */
  ghost predicate BreakAmong(h: Hash, xs: seq<Bytes>, ys: seq<Bytes>) {
    || CollisionAmong(h, xs, ys)
    || exists x :: (x in xs || x in ys) && h(x) == ZERO_DIGEST
  }

  lemma BreakAmongWidens(h: Hash, xs: seq<Bytes>, ys: seq<Bytes>, xs': seq<Bytes>, ys': seq<Bytes>)
    requires BreakAmong(h, xs, ys)
    requires forall x :: x in xs ==> x in xs'
    requires forall y :: y in ys ==> y in ys'
    ensures BreakAmong(h, xs', ys')
  {
    if CollisionAmong(h, xs, ys) {
      var x, y :| x in xs && y in ys && x != y && h(x) == h(y);
      assert CollisionAmong(h, xs', ys');
    }
  }

  lemma CollisionIsBreak(h: Hash, xs: seq<Bytes>, ys: seq<Bytes>, x: Bytes, y: Bytes)
    requires x in xs && y in ys && x != y && h(x) == h(y)
    ensures BreakAmong(h, xs, ys)
  {
    assert CollisionAmong(h, xs, ys);
  }

  lemma ZeroAmong(h: Hash, xs: seq<Bytes>, ys: seq<Bytes>, x: Bytes)
    requires (x in xs || x in ys) && h(x) == ZERO_DIGEST
    ensures BreakAmong(h, xs, ys)
  {
  }

  lemma SameParts(d: Digest, x: Bytes, e: Digest, y: Bytes)
    requires d + x == e + y
    ensures d == e && x == y
  {
    assert (d + x)[..48] == d && (e + y)[..48] == e;
    assert (d + x)[48..] == x && (e + y)[48..] == y;
  }

  ghost predicate AllDigests(log: seq<Bytes>) {
    forall i :: 0 <= i < |log| ==> |log[i]| == 48
  }

  /** The last string hashed is the previous register and the last digest. */
  lemma LastInput(h: Hash, log: seq<Bytes>)
    ensures log == [] ==> MeasureLog(h, log) == ZERO_DIGEST
    ensures log != [] ==>
              var init, last := log[..|log| - 1], log[|log| - 1];
              && MeasureLog(h, log) == h(MeasureLog(h, init) + last)
              && MeasureLog(h, init) + last in ChainInputs(h, log)
              && forall x :: x in ChainInputs(h, init) ==> x in ChainInputs(h, log)
  {
  }

  /**
   * A register binds its log: two logs of 48-byte digests that fold to one register are the same
   * log, or the two folds exhibit a collision or a preimage of the initial zero register.
   */
  lemma {:induction false} RegisterBindsLog(h: Hash, a: seq<Bytes>, b: seq<Bytes>)
    requires AllDigests(a) && AllDigests(b)
    requires MeasureLog(h, a) == MeasureLog(h, b)
    ensures a == b || BreakAmong(h, ChainInputs(h, a), ChainInputs(h, b))
    decreases |a|
  {
    hide CollisionAmong, BreakAmong, MeasureLog, ChainInputs;
    LastInput(h, a);
    LastInput(h, b);
    if a == [] && b == [] {
    } else if a == [] {
      ZeroAmong(h, ChainInputs(h, a), ChainInputs(h, b), MeasureLog(h, b[..|b| - 1]) + b[|b| - 1]);
    } else if b == [] {
      ZeroAmong(h, ChainInputs(h, a), ChainInputs(h, b), MeasureLog(h, a[..|a| - 1]) + a[|a| - 1]);
    } else {
      var a', x := a[..|a| - 1], a[|a| - 1];
      var b', y := b[..|b| - 1], b[|b| - 1];
      var p, q := MeasureLog(h, a') + x, MeasureLog(h, b') + y;
      if p == q {
        SameParts(MeasureLog(h, a'), x, MeasureLog(h, b'), y);
        RegisterBindsLog(h, a', b');
        if a' == b' {
          assert a == a' + [x] && b == b' + [y];
        } else {
          BreakAmongWidens(h, ChainInputs(h, a'), ChainInputs(h, b'), ChainInputs(h, a), ChainInputs(h, b));
        }
      } else {
        CollisionIsBreak(h, ChainInputs(h, a), ChainInputs(h, b), p, q);
      }
    }
  }
}
