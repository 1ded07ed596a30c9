/**
 * RTMR[2] of a UKI boot and of a direct kernel boot (crates/tdx-measure/src/rtmr.rs): which strings
 * are measured, in which order, and what the register therefore commits to.
 */
module Uki {
  import opened ByteLayout
  import opened Hashing
  import opened Wrappers
  import Cpio
  import Unicode

  datatype Section = Section(name: string, data: Bytes)
  type SectionMap = map<string, Bytes>

  type SectionName = s: string | |s| > 0 && forall i :: 0 <= i < |s| ==> '\0' < s[i] < 128 as char
    witness "."

  /** The sections the UEFI stub measures, in canonical order. */
  const ORDER: seq<SectionName> :=
    [".linux", ".osrel", ".cmdline", ".initrd", ".uname", ".splash", ".dtb", ".sbat", ".pcrpkey"]

  /** Collecting name/data pairs into a hash map keeps the last data of a repeated name. */
  function LastWins(sections: seq<Section>): SectionMap {
    if sections == [] then map[]
    else
      var last := sections[|sections| - 1];
      LastWins(sections[..|sections| - 1])[last.name := last.data]
  }

  /** Index `i` is the last one that carries `name`. */
  ghost predicate LastNamed(sections: seq<Section>, name: string, i: nat) {
    i < |sections| && sections[i].name == name && forall j :: i < j < |sections| ==> sections[j].name != name
  }

  lemma {:induction false} LastWinsMeaning(sections: seq<Section>, name: string, i: nat)
    ensures LastNamed(sections, name, i) ==>
              name in LastWins(sections) && LastWins(sections)[name] == sections[i].data
    ensures name in LastWins(sections) ==> exists j: nat :: LastNamed(sections, name, j)
  {
    if sections != [] {
      var n := |sections| - 1;
      var init := sections[..n];
      LastWinsMeaning(init, name, i);
      if LastNamed(sections, name, i) && i < n {
        assert sections[n].name != name && LastNamed(init, name, i);
      }
      if sections[n].name == name {
        assert LastNamed(sections, name, n);
      } else if name in LastWins(init) {
        var j: nat :| LastNamed(init, name, j);
        assert sections[j] == init[j] && LastNamed(sections, name, j);
      }
    }
  }

  function NameBytes(name: SectionName): Bytes {
    Cpio.Ascii(name) + [0]
  }

  /** Name and data of every present section. */
  function SectionPreimages(order: seq<SectionName>, m: SectionMap): seq<Bytes> {
    if order == [] then []
    else
      (if order[0] in m then [NameBytes(order[0]), m[order[0]]] else [])
      + SectionPreimages(order[1..], m)
  }

  predicate Trimmed(c: Unicode.Scalar) {
    c == 0x0A || c == 0x0D || c == 0 || c == 0x20
  }

  function TrimEnd(s: seq<Unicode.Scalar>): seq<Unicode.Scalar> {
    if s != [] && Trimmed(s[|s| - 1]) then TrimEnd(s[..|s| - 1]) else s
  }

  function LoadOptions(cmdline: seq<Unicode.Scalar>): Bytes {
    Unicode.Utf16(cmdline) + [0, 0]
  }

  /** The load-options event, when there is a `.cmdline`; nothing at all when it is not UTF-8. */
  function LoadOptionsPreimage(m: SectionMap): Option<seq<Bytes>> {
    if ".cmdline" !in m then Some([])
    else
      match Unicode.DecodeUtf8(m[".cmdline"])
      case None => None
      case Some(text) => Some([LoadOptions(TrimEnd(text))])
  }

  /** The initrd event, when there are an initrd and an os-release to assemble. */
  function InitrdPreimage(m: SectionMap): seq<Bytes> {
    if ".initrd" in m && ".osrel" in m
    then [Cpio.AssembledInitrd(m[".initrd"], m[".osrel"])]
    else []
  }

  function TailPreimages(m: SectionMap): Option<seq<Bytes>> {
    match LoadOptionsPreimage(m)
    case None => None
    case Some(options) => Some(options + InitrdPreimage(m))
  }

  function Preimages(m: SectionMap): Option<seq<Bytes>> {
    match TailPreimages(m)
    case None => None
    case Some(tail) => Some(SectionPreimages(ORDER, m) + tail)
  }

  function Digests(h: Hash, preimages: seq<Bytes>): (log: seq<Bytes>)
    ensures |log| == |preimages| && AllDigests(log)
    ensures forall i :: 0 <= i < |log| ==> log[i] == h(preimages[i])
  {
    seq(|preimages|, i requires 0 <= i < |preimages| => h(preimages[i]))
  }

  function Rtmr2Log(h: Hash, sections: seq<Section>): Option<seq<Bytes>> {
    match Preimages(LastWins(sections))
    case None => None
    case Some(preimages) => Some(Digests(h, preimages))
  }

  // ---------------------------------------------------------------------------------------------
  // The computation
  // ---------------------------------------------------------------------------------------------

  method TrimCmdline(s: seq<Unicode.Scalar>) returns (t: seq<Unicode.Scalar>)
    ensures t == TrimEnd(s)
    ensures t <= s && (t == [] || !Trimmed(t[|t| - 1]))
    ensures forall i :: |t| <= i < |s| ==> Trimmed(s[i])
  {
    var n: nat := |s|;
    assert s[..n] == s;
    while n > 0 && Trimmed(s[n - 1])
      invariant n <= |s| && TrimEnd(s) == TrimEnd(s[..n])
      invariant forall i :: n <= i < |s| ==> Trimmed(s[i])
    {
      assert s[..n][..n - 1] == s[..n - 1];
      n := n - 1;
    }
    return s[..n];
  }

  method CollectSections(sections: seq<Section>) returns (m: SectionMap)
    ensures m == LastWins(sections)
  {
    m := map[];
    for i := 0 to |sections|
      invariant m == LastWins(sections[..i])
    {
      assert sections[..i + 1][..i] == sections[..i];
      m := m[sections[i].name := sections[i].data];
    }
    assert sections[..|sections|] == sections;
  }

  lemma {:induction false} SectionPreimagesSnoc(order: seq<SectionName>, name: SectionName, m: SectionMap)
    ensures SectionPreimages(order + [name], m) ==
            SectionPreimages(order, m) + if name in m then [NameBytes(name), m[name]] else []
  {
    if order == [] {
      assert [name][1..] == [];
    } else {
      SectionPreimagesSnoc(order[1..], name, m);
      assert (order + [name])[1..] == order[1..] + [name] && (order + [name])[0] == order[0];
      Assoc(if order[0] in m then [NameBytes(order[0]), m[order[0]]] else [],
            SectionPreimages(order[1..], m),
            if name in m then [NameBytes(name), m[name]] else []);
    }
  }

  lemma DigestsConcat(h: Hash, a: seq<Bytes>, b: seq<Bytes>)
    ensures Digests(h, a + b) == Digests(h, a) + Digests(h, b)
  {
  }

  /** The name and data digests of the present sections. */
  method SectionDigests(h: Hash, m: SectionMap) returns (digests: seq<Bytes>)
    ensures digests == Digests(h, SectionPreimages(ORDER, m))
  {
    hide NameBytes;
    digests := [];
    for i := 0 to |ORDER|
      invariant digests == Digests(h, SectionPreimages(ORDER[..i], m))
    {
      var name := ORDER[i];
      assert ORDER[..i + 1] == ORDER[..i] + [name];
      SectionPreimagesSnoc(ORDER[..i], name, m);
      DigestsConcat(h, SectionPreimages(ORDER[..i], m), if name in m then [NameBytes(name), m[name]] else []);
      if name in m {
        digests := digests + [h(NameBytes(name))];
        digests := digests + [h(m[name])];
      }
    }
    assert ORDER[..|ORDER|] == ORDER;
  }

  /** `precompute_rtmr2_digests`, without the labels it prints beside each digest. */
  method PrecomputeRtmr2Digests(h: Hash, sections: seq<Section>) returns (r: Option<seq<Bytes>>)
    ensures r == Rtmr2Log(h, sections)
  {
    hide SectionPreimages, LoadOptions, Cpio.AssembledInitrd, Unicode.DecodeUtf8, TrimEnd;
    var m := CollectSections(sections);
    var digests := SectionDigests(h, m);
    ghost var named, options, initrd := SectionPreimages(ORDER, m), [], [];
    if ".cmdline" in m {
      match Unicode.DecodeUtf8(m[".cmdline"]) {
        case None =>
          return None;
        case Some(text) =>
          var cmdline := TrimCmdline(text);
          options := [LoadOptions(cmdline)];
          digests := digests + [h(LoadOptions(cmdline))];
      }
    }
    if ".initrd" in m && ".osrel" in m {
      var combined := Cpio.BuildAssembledInitrd(m[".initrd"], m[".osrel"]);
      initrd := [combined];
      digests := digests + [h(combined)];
    }
    assert digests == Digests(h, named) + Digests(h, options) + Digests(h, initrd);
    DigestsConcat(h, named, options);
    DigestsConcat(h, named + options, initrd);
    Assoc(named, options, initrd);
    return Some(digests);
  }

  method ComputeRtmr2(h: Hash, sections: seq<Section>) returns (r: Option<(Digest, nat)>)
    ensures r == match Rtmr2Log(h, sections)
                 case None => None
                 case Some(log) => Some((MeasureLog(h, log), |log|))
  {
    hide Rtmr2Log, MeasureLog;
    var digests := PrecomputeRtmr2Digests(h, sections);
    match digests {
      case None =>
        return None;
      case Some(log) =>
        var register := ComputeMeasureLog(h, log);
        return Some((register, |log|));
    }
  }

  // ---------------------------------------------------------------------------------------------
  // What the register commits to
  // ---------------------------------------------------------------------------------------------

  ghost predicate EndsInTwoZeros(bs: Bytes) {
    |bs| >= 2 && bs[|bs| - 1] == 0 && bs[|bs| - 2] == 0
  }

  lemma NameIsNotTail(name: SectionName)
    ensures !EndsInTwoZeros(NameBytes(name))
  {
    assert NameBytes(name)[|name| - 1] == name[|name| - 1] as int;
  }

  lemma NamesDiffer(a: SectionName, b: SectionName)
    requires NameBytes(a) == NameBytes(b)
    ensures a == b
  {
    assert NameBytes(a)[..|a|] == Cpio.Ascii(a) && NameBytes(b)[..|b|] == Cpio.Ascii(b);
    forall i | 0 <= i < |a|
      ensures a[i] == b[i]
    {
      assert Cpio.Ascii(a)[i] == Cpio.Ascii(b)[i];
    }
  }

  ghost predicate Distinct(order: seq<SectionName>) {
    forall i, j :: 0 <= i < j < |order| ==> order[i] != order[j]
  }

  ghost predicate SameSections(order: seq<SectionName>, m: SectionMap, m': SectionMap) {
    forall name :: name in order ==>
      (name in m <==> name in m') && (name in m ==> m[name] == m'[name])
  }

  /** Every tail begins with a string that no section name can be. */
  ghost predicate TailLike(tail: seq<Bytes>) {
    tail != [] ==> EndsInTwoZeros(tail[0])
  }

  lemma {:induction false} FirstPreimage(order: seq<SectionName>, m: SectionMap, tail: seq<Bytes>)
    requires TailLike(tail)
    requires SectionPreimages(order, m) + tail != []
    ensures var first := (SectionPreimages(order, m) + tail)[0];
            EndsInTwoZeros(first) || exists name :: name in order && first == NameBytes(name)
  {
    hide NameBytes;
    if order != [] {
      if order[0] in m {
        assert (SectionPreimages(order, m) + tail)[0] == NameBytes(order[0]) && order[0] in order;
      } else {
        assert SectionPreimages(order, m) == SectionPreimages(order[1..], m);
        FirstPreimage(order[1..], m, tail);
      }
    }
  }

  lemma NameCannotMatch(name: SectionName, order: seq<SectionName>, m: SectionMap, tail: seq<Bytes>, more: seq<Bytes>)
    requires name !in order && TailLike(tail)
    ensures SectionPreimages(order, m) + tail != [NameBytes(name)] + more
  {
    hide NameBytes;
    var all := SectionPreimages(order, m) + tail;
    if all == [NameBytes(name)] + more {
      FirstPreimage(order, m, tail);
      assert all[0] == NameBytes(name);
      NameIsNotTail(name);
      var other :| other in order && all[0] == NameBytes(other);
      NamesDiffer(name, other);
      assert false;
    }
  }

  /** The measured strings decode: equal lists come from the same present sections and bytes. */
  lemma {:induction false} PreimagesDecode(order: seq<SectionName>, m: SectionMap, m': SectionMap,
                                           tail: seq<Bytes>, tail': seq<Bytes>)
    requires Distinct(order) && TailLike(tail) && TailLike(tail')
    requires SectionPreimages(order, m) + tail == SectionPreimages(order, m') + tail'
    ensures SameSections(order, m, m')
  {
    hide NameBytes;
    if order != [] {
      var name, rest := order[0], order[1..];
      var a, b := SectionPreimages(rest, m), SectionPreimages(rest, m');
      assert name !in rest;
      if name in m && name in m' {
        var all := SectionPreimages(order, m) + tail;
        Assoc([NameBytes(name), m[name]], a, tail);
        Assoc([NameBytes(name), m'[name]], b, tail');
        assert all[1] == m[name] == m'[name] && all[2..] == a + tail == b + tail';
        PreimagesDecode(rest, m, m', tail, tail');
      } else if name in m {
        Assoc([NameBytes(name), m[name]], a, tail);
        assert SectionPreimages(order, m) + tail == [NameBytes(name)] + ([m[name]] + (a + tail));
        assert SectionPreimages(order, m') == [] + b == b;
        NameCannotMatch(name, rest, m', tail', [m[name]] + (a + tail));
        assert false;
      } else if name in m' {
        Assoc([NameBytes(name), m'[name]], b, tail');
        assert SectionPreimages(order, m') + tail' == [NameBytes(name)] + ([m'[name]] + (b + tail'));
        assert SectionPreimages(order, m) == [] + a == a;
        NameCannotMatch(name, rest, m, tail, [m'[name]] + (b + tail'));
        assert false;
      } else {
        assert [] + a == a && [] + b == b;
        PreimagesDecode(rest, m, m', tail, tail');
      }
    }
  }

  lemma {:induction false} TailIsTailLike(m: SectionMap)
    requires TailPreimages(m).Some?
    ensures TailLike(TailPreimages(m).value)
  {
    hide Cpio.AssembledInitrd, Unicode.Utf16, Unicode.DecodeUtf8;
    assert [] + InitrdPreimage(m) == InitrdPreimage(m);
    if ".cmdline" !in m && ".initrd" in m && ".osrel" in m {
      Cpio.AssembledInitrdEndsInZeros(m[".initrd"], m[".osrel"]);
    }
  }

  lemma DigestsBindPreimages(h: Hash, a: seq<Bytes>, b: seq<Bytes>)
    requires Digests(h, a) == Digests(h, b)
    ensures a == b || CollisionAmong(h, a, b)
  {
    if a != b {
      assert |a| == |Digests(h, a)| == |b|;
      var i :| 0 <= i < |a| && a[i] != b[i];
      assert Digests(h, a)[i] == h(a[i]) && Digests(h, b)[i] == h(b[i]);
      assert a[i] in a && b[i] in b;
    }
  }

  /** Every string hashed on the way to RTMR[2]. */
  function Hashed(h: Hash, preimages: seq<Bytes>): seq<Bytes> {
    preimages + ChainInputs(h, Digests(h, preimages))
  }

  /**
   * RTMR[2] commits to the UKI: two section lists with the same register have the same measured
   * sections present with the same bytes, or the two computations exhibit a SHA-384 collision or a
   * preimage of 48 zero bytes among the strings they hash.
   */
  lemma {:induction false} Rtmr2CommitsToUki(h: Hash, a: seq<Section>, b: seq<Section>)
    requires Rtmr2Log(h, a).Some? && Rtmr2Log(h, b).Some?
    requires MeasureLog(h, Rtmr2Log(h, a).value) == MeasureLog(h, Rtmr2Log(h, b).value)
    ensures || SameSections(ORDER, LastWins(a), LastWins(b))
            || BreakAmong(h, Hashed(h, Preimages(LastWins(a)).value), Hashed(h, Preimages(LastWins(b)).value))
  {
    var m, m' := LastWins(a), LastWins(b);
    BindPreimages(h, Preimages(m).value, Preimages(m').value);
    if Preimages(m) == Preimages(m') {
      TailIsTailLike(m);
      TailIsTailLike(m');
      OrderIsDistinct();
      PreimagesDecode(ORDER, m, m', TailPreimages(m).value, TailPreimages(m').value);
    }
  }

  lemma OrderIsDistinct()
    ensures Distinct(ORDER)
  {
    // Lengths and second characters tell the nine names apart.
    forall i, j | 0 <= i < j < |ORDER|
      ensures ORDER[i] != ORDER[j]
    {
      assert |ORDER[i]| != |ORDER[j]| || ORDER[i][1] != ORDER[j][1];
    }
  }

  lemma BindPreimages(h: Hash, a: seq<Bytes>, b: seq<Bytes>)
    requires MeasureLog(h, Digests(h, a)) == MeasureLog(h, Digests(h, b))
    ensures a == b || BreakAmong(h, Hashed(h, a), Hashed(h, b))
  {
    var la, lb := Digests(h, a), Digests(h, b);
    RegisterBindsLog(h, la, lb);
    if la == lb {
      DigestsBindPreimages(h, a, b);
      if a != b {
        BreakAmongWidens(h, a, b, Hashed(h, a), Hashed(h, b));
      }
    } else {
      BreakAmongWidens(h, ChainInputs(h, la), ChainInputs(h, lb), Hashed(h, a), Hashed(h, b));
    }
  }

  /** `compute_rtmr2_direct_kernel`: one event, the NUL-terminated UTF-16LE command line. */
  method ComputeRtmr2DirectKernel(h: Hash, cmdline: seq<Unicode.Scalar>) returns (register: Digest)
    ensures register == MeasureLog(h, Digests(h, [LoadOptions(cmdline)]))
  {
    assert Digests(h, [LoadOptions(cmdline)]) == [h(LoadOptions(cmdline))];
    register := ComputeMeasureLog(h, [h(LoadOptions(cmdline))]);
  }

  /** The direct-boot register commits to the whole command line. */
  lemma DirectRtmr2CommitsToCmdline(h: Hash, a: seq<Unicode.Scalar>, b: seq<Unicode.Scalar>)
    requires MeasureLog(h, Digests(h, [LoadOptions(a)])) == MeasureLog(h, Digests(h, [LoadOptions(b)]))
    ensures a == b || BreakAmong(h, Hashed(h, [LoadOptions(a)]), Hashed(h, [LoadOptions(b)]))
  {
    hide Unicode.Utf16;
    BindPreimages(h, [LoadOptions(a)], [LoadOptions(b)]);
    var la, lb := LoadOptions(a), LoadOptions(b);
    if [la] == [lb] {
      assert la in [lb];
      assert la[..|la| - 2] == Unicode.Utf16(a) && lb[..|lb| - 2] == Unicode.Utf16(b);
      Unicode.Utf16Injective(a, b);
    }
  }
}
