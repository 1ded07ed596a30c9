/** The kernel fragment verifier (`check_fragment_options` in src/kernel/config.rs). */
module Fragments {
  import opened Wrappers
  import opened Text

  const PREFIX := "CONFIG_"

  predicate NameChar(c: char) {
    'a' <= c <= 'z' || 'A' <= c <= 'Z' || '0' <= c <= '9' || c == '_'
  }

  predicate ValidSymbol(s: string) {
    PREFIX <= s && |s| > 7 && forall i :: 7 <= i < |s| ==> NameChar(s[i])
  }

  // ---------------------------------------------------------------------------------------------
  // What one line asks for
  // ---------------------------------------------------------------------------------------------

  datatype Request = On | Off | Scalar
  datatype Line = Ignored | Submit(symbol: string, request: Request) | Forced(symbol: string) | Malformed

  predicate BooleanLike(value: string) {
    var v := TrimStart(value);
    v != "" && v[0] in {'y', 'm', 'n', 'Y', 'M', 'N'}
  }

  function ClassifyAssignment(line: string): Line {
    var k := IndexOf(line, '=');
    if k == |line| || !ValidSymbol(line[..k]) then Malformed
    else
      var value := line[k + 1..];
      if value == "y" || value == "m" then Submit(line[..k], On)
      else if value == "n" then Submit(line[..k], Off)
      else if BooleanLike(value) then Malformed
      else Submit(line[..k], Scalar)
  }

  function ClassifyComment(line: string, words: seq<string>): Line {
    if |words| < 4 || !(PREFIX <= words[0]) then Ignored
    else if words[1..4] == ["is", "not", "set"] then
      if ValidSymbol(words[0]) && line == "# " + words[0] + " is not set" then Submit(words[0], Off) else Malformed
    else if words[1..4] == ["is", "forced", "on"] then
      if ValidSymbol(words[0]) && line == "# " + words[0] + " is forced on" then Forced(words[0]) else Malformed
    else Ignored
  }

  function Classify(line: string): Line {
    var trimmed := Trim(line);
    if PREFIX <= trimmed then if line != trimmed then Malformed else ClassifyAssignment(line)
    else if trimmed == "" || trimmed[0] != '#' then Ignored
    else ClassifyComment(line, Words(trimmed[1..]))
  }

  function ClassifyAll(lines: seq<string>): (ls: seq<Line>)
    ensures |ls| == |lines|
    ensures forall i :: 0 <= i < |ls| ==> ls[i] == Classify(lines[i])
  {
    seq(|lines|, i requires 0 <= i < |lines| => Classify(lines[i]))
  }

  function AllLines(bodies: seq<string>): seq<string> {
    if bodies == [] then [] else AllLines(bodies[..|bodies| - 1]) + Lines(bodies[|bodies| - 1])
  }

  /** A `CONFIG_` line split at its first equals sign. */
  function Assigned(line: string): Option<(string, string)> {
    var k := IndexOf(line, '=');
    if PREFIX <= line && k < |line| then Some((line[..k], line[k + 1..])) else None
  }

  /** `values`: symbol to value, the last assignment of a symbol winning. */
  function ValuesOf(lines: seq<string>): map<string, string> {
    if lines == [] then map[]
    else
      var before := ValuesOf(lines[..|lines| - 1]);
      match Assigned(lines[|lines| - 1])
      case None => before
      case Some((symbol, value)) => before[symbol := value]
  }

  function Values(config: string): map<string, string> { ValuesOf(Lines(config)) }

  ghost predicate LastAssignedAt(lines: seq<string>, symbol: string, value: string, i: int) {
    && 0 <= i < |lines| && Assigned(lines[i]) == Some((symbol, value))
    && forall j :: i < j < |lines| && Assigned(lines[j]).Some? ==> Assigned(lines[j]).value.0 != symbol
  }

  /** `values` reports the value of the last line that assigns a symbol. */
  lemma {:induction false} ValuesMeaning(lines: seq<string>, symbol: string, value: string)
    ensures symbol in ValuesOf(lines) && ValuesOf(lines)[symbol] == value <==>
            exists i :: LastAssignedAt(lines, symbol, value, i)
  {
    hide Assigned;
    if lines != [] {
      var n := |lines| - 1;
      var init, last := lines[..n], Assigned(lines[n]);
      ValuesMeaning(init, symbol, value);
      if last.Some? && last.value.0 == symbol {
        if last.value.1 == value {
          assert LastAssignedAt(lines, symbol, value, n);
        }
      } else {
        if i :| LastAssignedAt(init, symbol, value, i) {
          assert LastAssignedAt(lines, symbol, value, i);
        }
        if i :| LastAssignedAt(lines, symbol, value, i) {
          assert LastAssignedAt(init, symbol, value, i);
        }
      }
    }
  }

  // ---------------------------------------------------------------------------------------------
  // The rule
  // ---------------------------------------------------------------------------------------------

  ghost predicate LastSubmittedIs(ls: seq<Line>, symbol: string, r: Request) {
    exists i :: LastSubmittedAt(ls, symbol, r, i)
  }

  ghost predicate LastSubmittedAt(ls: seq<Line>, symbol: string, r: Request, i: int) {
    && 0 <= i < |ls| && ls[i] == Submit(symbol, r)
    && forall j :: i < j < |ls| && ls[j].Submit? ==> ls[j].symbol != symbol
  }

  /** The last on or off request; scalar assignments in between do not count. */
  ghost predicate LastBooleanIs(ls: seq<Line>, symbol: string, r: Request) {
    exists i :: LastBooleanAt(ls, symbol, r, i)
  }

  ghost predicate LastBooleanAt(ls: seq<Line>, symbol: string, r: Request, i: int) {
    && r != Scalar && 0 <= i < |ls| && ls[i] == Submit(symbol, r)
    && forall j :: i < j < |ls| && ls[j].Submit? && ls[j].symbol == symbol ==> ls[j].request == Scalar
  }

  ghost predicate Canonical(ls: seq<Line>) {
    Malformed !in ls
  }

  ghost predicate NoForcedPins(ls: seq<Line>) {
    forall symbol :: Forced(symbol) in ls ==> Submit(symbol, On) !in ls
  }

  ghost predicate ForcedAreOff(ls: seq<Line>) {
    forall symbol :: Forced(symbol) in ls ==> LastSubmittedIs(ls, symbol, Off)
  }

  predicate IsOn(values: map<string, string>, symbol: string) {
    symbol in values && values[symbol] == "y"
  }

  ghost predicate Resolved(ls: seq<Line>, values: map<string, string>) {
    && (forall symbol :: Forced(symbol) in ls ==> IsOn(values, symbol))
    && (forall symbol :: Forced(symbol) !in ls && LastBooleanIs(ls, symbol, On) ==> IsOn(values, symbol))
    && (forall symbol :: Forced(symbol) !in ls && LastBooleanIs(ls, symbol, Off) ==> symbol !in values)
  }

  // ---------------------------------------------------------------------------------------------
  // The four maps
  // ---------------------------------------------------------------------------------------------

  function Submitted(ls: seq<Line>): map<string, Request> {
    if ls == [] then map[]
    else
      var before, l := Submitted(ls[..|ls| - 1]), ls[|ls| - 1];
      if l.Submit? then before[l.symbol := l.request] else before
  }

  function Requested(ls: seq<Line>): map<string, Request> {
    if ls == [] then map[]
    else
      var before, l := Requested(ls[..|ls| - 1]), ls[|ls| - 1];
      if l.Submit? && l.request != Scalar then before[l.symbol := l.request] else before
  }

  function OnPins(ls: seq<Line>): set<string> {
    if ls == [] then {}
    else
      var before, l := OnPins(ls[..|ls| - 1]), ls[|ls| - 1];
      if l.Submit? && l.request == On then before + {l.symbol} else before
  }

  function ForcedSymbols(ls: seq<Line>): set<string> {
    if ls == [] then {}
    else
      var before, l := ForcedSymbols(ls[..|ls| - 1]), ls[|ls| - 1];
      if l.Forced? then before + {l.symbol} else before
  }

  lemma {:induction false} SubmittedMeaning(ls: seq<Line>, symbol: string, r: Request)
    ensures symbol in Submitted(ls) && Submitted(ls)[symbol] == r <==> LastSubmittedIs(ls, symbol, r)
  {
    if ls != [] {
      var n := |ls| - 1;
      var init, l := ls[..n], ls[n];
      SubmittedMeaning(init, symbol, r);
      if l.Submit? && l.symbol == symbol {
        if l.request == r {
          assert LastSubmittedAt(ls, symbol, r, n);
        }
      } else {
        if i :| LastSubmittedAt(init, symbol, r, i) {
          assert LastSubmittedAt(ls, symbol, r, i);
        }
        if i :| LastSubmittedAt(ls, symbol, r, i) {
          assert LastSubmittedAt(init, symbol, r, i);
        }
      }
    }
  }

  lemma {:induction false} RequestedMeaning(ls: seq<Line>, symbol: string, r: Request)
    ensures symbol in Requested(ls) && Requested(ls)[symbol] == r <==> LastBooleanIs(ls, symbol, r)
  {
    if ls != [] {
      var n := |ls| - 1;
      var init, l := ls[..n], ls[n];
      RequestedMeaning(init, symbol, r);
      if l.Submit? && l.symbol == symbol && l.request != Scalar {
        if l.request == r {
          assert LastBooleanAt(ls, symbol, r, n);
        }
      } else {
        if i :| LastBooleanAt(init, symbol, r, i) {
          assert LastBooleanAt(ls, symbol, r, i);
        }
        if i :| LastBooleanAt(ls, symbol, r, i) {
          assert LastBooleanAt(init, symbol, r, i);
        }
      }
    }
  }

  lemma {:induction false} SetsMeaning(ls: seq<Line>, symbol: string)
    ensures symbol in OnPins(ls) <==> Submit(symbol, On) in ls
    ensures symbol in ForcedSymbols(ls) <==> Forced(symbol) in ls
  {
    if ls != [] {
      var init, l := ls[..|ls| - 1], ls[|ls| - 1];
      SetsMeaning(init, symbol);
      assert ls == init + [l];
    }
  }

  // ---------------------------------------------------------------------------------------------
  // The check
  // ---------------------------------------------------------------------------------------------

  /** The stages of the check, in the order they can refuse. */
  datatype Verdict = Accepted | BadLine | PinConflict | MissingOff | Mismatch

  /** The verdict as a rule over the classified lines and the resolved configuration. */
  ghost function Rule(ls: seq<Line>, values: map<string, string>): Verdict {
    if !Canonical(ls) then BadLine
    else if !NoForcedPins(ls) then PinConflict
    else if !ForcedAreOff(ls) then MissingOff
    else if !Resolved(ls, values) then Mismatch
    else Accepted
  }

  lemma AcceptedMeans(ls: seq<Line>, values: map<string, string>)
    ensures Rule(ls, values) == Accepted <==>
            Canonical(ls) && NoForcedPins(ls) && ForcedAreOff(ls) && Resolved(ls, values)
  {
  }

  method Record(line: Line, submitted: map<string, Request>, requested: map<string, Request>, onPins: set<string>,
                forced: set<string>, ghost before: seq<Line>)
    returns (submitted': map<string, Request>, requested': map<string, Request>, onPins': set<string>,
             forced': set<string>)
    requires submitted == Submitted(before) && requested == Requested(before)
    requires onPins == OnPins(before) && forced == ForcedSymbols(before)
    ensures var after := before + [line];
            && submitted' == Submitted(after) && requested' == Requested(after)
            && onPins' == OnPins(after) && forced' == ForcedSymbols(after)
  {
    submitted', requested', onPins', forced' := submitted, requested, onPins, forced;
    assert (before + [line])[..|before|] == before;
    match line {
      case Submit(symbol, request) =>
        submitted' := submitted'[symbol := request];
        if request == On {
          onPins' := onPins' + {symbol};
        }
        if request != Scalar {
          requested' := requested'[symbol := request];
        }
      case Forced(symbol) =>
        forced' := forced' + {symbol};
      case Ignored =>
      case Malformed =>
    }
  }

  method CheckFragmentOptions(bodies: seq<string>, config: string) returns (v: Verdict)
    ensures v == Rule(ClassifyAll(AllLines(bodies)), Values(config))
    ensures v == Accepted <==>
            var ls := ClassifyAll(AllLines(bodies));
            Canonical(ls) && NoForcedPins(ls) && ForcedAreOff(ls) && Resolved(ls, Values(config))
  {
    AcceptedMeans(ClassifyAll(AllLines(bodies)), Values(config));
    hide Classify, Lines, Values, Submitted, Requested, OnPins, ForcedSymbols, Rule;
    ghost var all := ClassifyAll(AllLines(bodies));
    var submitted: map<string, Request>, requested: map<string, Request> := map[], map[];
    var onPins: set<string>, forced: set<string> := {}, {};
    ghost var seen: seq<Line> := [];
    NothingRecorded();
    for i := 0 to |bodies|
      invariant seen == ClassifyAll(AllLines(bodies[..i])) && Canonical(seen)
      invariant submitted == Submitted(seen) && requested == Requested(seen)
      invariant onPins == OnPins(seen) && forced == ForcedSymbols(seen)
    {
      var lines := Lines(bodies[i]);
      ghost var start := seen;
      assert bodies[..i + 1][..i] == bodies[..i];
      assert start + ClassifyAll(lines[..0]) == start;
      for j := 0 to |lines|
        invariant seen == start + ClassifyAll(lines[..j]) && Canonical(seen)
        invariant submitted == Submitted(seen) && requested == Requested(seen)
        invariant onPins == OnPins(seen) && forced == ForcedSymbols(seen)
      {
        var line := Classify(lines[j]);
        if line == Malformed {
          MalformedStays(bodies, i, j, config);
          return BadLine;
        }
        submitted, requested, onPins, forced := Record(line, submitted, requested, onPins, forced, seen);
        seen := seen + [line];
        assert ClassifyAll(lines[..j + 1]) == ClassifyAll(lines[..j]) + [line];
      }
      assert lines[..|lines|] == lines;
      assert seen == ClassifyAll(AllLines(bodies[..i + 1]));
    }
    assert bodies[..|bodies|] == bodies;
    v := Decide(all, submitted, requested, onPins, forced, Values(config));
  }

  lemma NothingRecorded()
    ensures Submitted([]) == map[] && Requested([]) == map[] && OnPins([]) == {} && ForcedSymbols([]) == {}
  {
  }

  lemma {:induction false} LineOf(bodies: seq<string>, i: nat, j: nat)
    requires i < |bodies| && j < |Lines(bodies[i])|
    ensures Lines(bodies[i])[j] in AllLines(bodies)
  {
    hide Lines;
    if i < |bodies| - 1 {
      LineOf(bodies[..|bodies| - 1], i, j);
    }
  }

  lemma MalformedStays(bodies: seq<string>, i: nat, j: nat, config: string)
    requires i < |bodies| && j < |Lines(bodies[i])| && Classify(Lines(bodies[i])[j]) == Malformed
    ensures Rule(ClassifyAll(AllLines(bodies)), Values(config)) == BadLine
  {
    hide Lines, Classify, AllLines, Values;
    LineOf(bodies, i, j);
    var lines := AllLines(bodies);
    var k :| 0 <= k < |lines| && lines[k] == Lines(bodies[i])[j];
    assert ClassifyAll(lines)[k] == Malformed;
  }

  /** A symbol's final request, once forced assertions have replaced theirs. */
  datatype Wanted = WantOn | WantOff | WantForced

  predicate Met(wanted: Wanted, values: map<string, string>, symbol: string) {
    match wanted
    case WantOn => IsOn(values, symbol)
    case WantOff => symbol !in values
    case WantForced => IsOn(values, symbol)
  }

  /** The checks after the loop, over the recorded maps. */
  method Decide(ghost ls: seq<Line>, submitted: map<string, Request>, requested: map<string, Request>,
                onPins: set<string>, forced: set<string>, values: map<string, string>) returns (v: Verdict)
    requires submitted == Submitted(ls) && requested == Requested(ls)
    requires onPins == OnPins(ls) && forced == ForcedSymbols(ls) && Canonical(ls)
    ensures v == Rule(ls, values)
  {
    hide Submitted, Requested, OnPins, ForcedSymbols, LastSubmittedIs, LastBooleanIs;
    MapsMeanLines(ls);
    if exists symbol | symbol in forced :: symbol in onPins {
      return PinConflict;
    }
    if exists symbol | symbol in forced :: !(symbol in submitted && submitted[symbol] == Off) {
      return MissingOff;
    }
    var final := (map symbol | symbol in requested :: if requested[symbol] == On then WantOn else WantOff)
                 + map symbol | symbol in forced :: WantForced;
    if exists symbol | symbol in final :: !Met(final[symbol], values, symbol) {
      ghost var symbol :| symbol in final && !Met(final[symbol], values, symbol);
      if symbol in forced {
        assert Forced(symbol) in ls;
      } else {
        assert LastBooleanIs(ls, symbol, requested[symbol]);
      }
      return Mismatch;
    }
    assert Resolved(ls, values) by {
      forall symbol | Forced(symbol) in ls
        ensures IsOn(values, symbol)
      {
        assert symbol in final;
      }
      forall symbol, r | Forced(symbol) !in ls && LastBooleanIs(ls, symbol, r)
        ensures r == On ==> IsOn(values, symbol)
        ensures r == Off ==> symbol !in values
      {
        assert symbol in final;
      }
    }
    return Accepted;
  }

  lemma MapsMeanLines(ls: seq<Line>)
    ensures forall symbol :: symbol in OnPins(ls) <==> Submit(symbol, On) in ls
    ensures forall symbol :: symbol in ForcedSymbols(ls) <==> Forced(symbol) in ls
    ensures forall symbol, r ::
              LastSubmittedIs(ls, symbol, r) <==> symbol in Submitted(ls) && Submitted(ls)[symbol] == r
    ensures forall symbol, r ::
              LastBooleanIs(ls, symbol, r) <==> symbol in Requested(ls) && Requested(ls)[symbol] == r
    ensures forall symbol :: symbol in Requested(ls) ==> Requested(ls)[symbol] != Scalar
  {
    hide Submitted, Requested, OnPins, ForcedSymbols, LastSubmittedIs;
    forall symbol
      ensures symbol in OnPins(ls) <==> Submit(symbol, On) in ls
      ensures symbol in ForcedSymbols(ls) <==> Forced(symbol) in ls
    {
      SetsMeaning(ls, symbol);
    }
    forall symbol | symbol in Requested(ls)
      ensures Requested(ls)[symbol] != Scalar
    {
      RequestedMeaning(ls, symbol, Scalar);
    }
    forall symbol, r
      ensures LastSubmittedIs(ls, symbol, r) <==> symbol in Submitted(ls) && Submitted(ls)[symbol] == r
      ensures LastBooleanIs(ls, symbol, r) <==> symbol in Requested(ls) && Requested(ls)[symbol] == r
    {
      SubmittedMeaning(ls, symbol, r);
      RequestedMeaning(ls, symbol, r);
    }
  }

  // ---------------------------------------------------------------------------------------------
  // What the verdict does not depend on
  // ---------------------------------------------------------------------------------------------

  /** The lines that take part in merging. */
  function WithoutForced(ls: seq<Line>): seq<Line> {
    if ls == [] then []
    else
      var l := ls[|ls| - 1];
      WithoutForced(ls[..|ls| - 1]) + if l.Forced? then [] else [l]
  }

  lemma OneMoreLine(ls: seq<Line>, l: Line)
    ensures Submitted(ls + [l]) == if l.Submit? then Submitted(ls)[l.symbol := l.request] else Submitted(ls)
    ensures Requested(ls + [l]) ==
            if l.Submit? && l.request != Scalar then Requested(ls)[l.symbol := l.request] else Requested(ls)
    ensures OnPins(ls + [l]) == if l.Submit? && l.request == On then OnPins(ls) + {l.symbol} else OnPins(ls)
    ensures Malformed in ls + [l] <==> Malformed in ls || l == Malformed
    ensures WithoutForced(ls + [l]) == WithoutForced(ls) + if l.Forced? then [] else [l]
  {
    assert (ls + [l])[..|ls|] == ls;
  }

  lemma {:induction false} MapsIgnoreForced(ls: seq<Line>)
    ensures Submitted(ls) == Submitted(WithoutForced(ls))
    ensures Requested(ls) == Requested(WithoutForced(ls))
    ensures OnPins(ls) == OnPins(WithoutForced(ls))
    ensures Malformed in ls <==> Malformed in WithoutForced(ls)
  {
    hide Submitted, Requested, OnPins, WithoutForced;
    if ls == [] {
      NoLinesAtAll();
    } else {
      var init, l := ls[..|ls| - 1], ls[|ls| - 1];
      MapsIgnoreForced(init);
      assert ls == init + [l];
      OneMoreLine(init, l);
      if l.Forced? {
        assert WithoutForced(init) + [] == WithoutForced(init);
      } else {
        OneMoreLine(WithoutForced(init), l);
      }
    }
  }

  lemma NoLinesAtAll()
    ensures WithoutForced([]) == []
  {
  }

  /**
   * A forced marker is metadata: moving markers anywhere, within or across fragments, repeating
   * them or dropping a repetition leaves the verdict unchanged.
   */
  lemma MarkersMayMove(ls: seq<Line>, ls': seq<Line>, values: map<string, string>)
    requires WithoutForced(ls) == WithoutForced(ls')
    requires forall symbol :: Forced(symbol) in ls <==> Forced(symbol) in ls'
    ensures Rule(ls, values) == Rule(ls', values)
  {
    hide Submitted, Requested, OnPins, ForcedSymbols, LastSubmittedIs, LastBooleanIs, WithoutForced;
    MapsIgnoreForced(ls);
    MapsIgnoreForced(ls');
    MapsMeanLines(ls);
    MapsMeanLines(ls');
  }

  function Joined(bodies: seq<string>): string {
    if bodies == [] then "" else Joined(bodies[..|bodies| - 1]) + bodies[|bodies| - 1]
  }

  lemma {:induction false} JoinedIsTerminated(bodies: seq<string>)
    requires forall i :: 0 <= i < |bodies| ==> LineTerminated(bodies[i])
    ensures LineTerminated(Joined(bodies))
    ensures AllLines(bodies) == Lines(Joined(bodies))
  {
    hide Lines;
    if bodies == [] {
      NoLines();
    } else {
      JoinedIsTerminated(bodies[..|bodies| - 1]);
      LinesConcat(Joined(bodies[..|bodies| - 1]), bodies[|bodies| - 1]);
    }
  }

  /** Every fragment but the last ends its last line. */
  ghost predicate CutAtLines(bodies: seq<string>) {
    forall i :: 0 <= i < |bodies| - 1 ==> LineTerminated(bodies[i])
  }

  lemma LinesOfJoined(bodies: seq<string>)
    requires CutAtLines(bodies)
    ensures AllLines(bodies) == Lines(Joined(bodies))
  {
    hide Lines;
    if bodies == [] {
      NoLines();
    } else {
      JoinedIsTerminated(bodies[..|bodies| - 1]);
      LinesConcat(Joined(bodies[..|bodies| - 1]), bodies[|bodies| - 1]);
    }
  }

  /** Splitting the same text into fragments at other line boundaries leaves the verdict unchanged. */
  lemma {:induction false} ResplittingIsInvisible(bodies: seq<string>, bodies': seq<string>, config: string)
    requires CutAtLines(bodies) && CutAtLines(bodies')
    requires Joined(bodies) == Joined(bodies')
    ensures Rule(ClassifyAll(AllLines(bodies)), Values(config)) ==
            Rule(ClassifyAll(AllLines(bodies')), Values(config))
  {
    hide Lines, Rule, Values, ClassifyAll, Joined, CutAtLines;
    LinesOfJoined(bodies);
    LinesOfJoined(bodies');
  }
}
