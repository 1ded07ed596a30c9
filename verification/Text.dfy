/** Text, as Rust's `str` methods see it. */
module Text {
  import opened ByteLayout

  /** Unicode White_Space. */
  predicate White(c: char) {
    var n := c as int;
    || 0x09 <= n <= 0x0D || n == 0x20 || n == 0x85 || n == 0xA0 || n == 0x1680
    || 0x2000 <= n <= 0x200A || n == 0x2028 || n == 0x2029 || n == 0x202F || n == 0x205F || n == 0x3000
  }

  function IndexOf(s: string, c: char): (k: nat)
    ensures k <= |s| && (k < |s| ==> s[k] == c)
    ensures forall i :: 0 <= i < k ==> s[i] != c
  {
    if s == "" || s[0] == c then 0 else 1 + IndexOf(s[1..], c)
  }

  function StripCr(s: string): string {
    if s != "" && s[|s| - 1] == '\r' then s[..|s| - 1] else s
  }

  /** `str::lines`: a carriage return goes with its line feed; the last line may lack one. */
  function Lines(s: string): seq<string>
    decreases |s|
  {
    if s == "" then []
    else
      var k := IndexOf(s, '\n');
      if k == |s| then [s] else [StripCr(s[..k])] + Lines(s[k + 1..])
  }

  function TrimStart(s: string): string {
    if s != "" && White(s[0]) then TrimStart(s[1..]) else s
  }

  function TrimEnd(s: string): string {
    if s != "" && White(s[|s| - 1]) then TrimEnd(s[..|s| - 1]) else s
  }

  function Trim(s: string): string { TrimEnd(TrimStart(s)) }

  function WordLength(s: string): (k: nat)
    ensures k <= |s|
  {
    if s == "" || White(s[0]) then 0 else 1 + WordLength(s[1..])
  }

  function Words(s: string): seq<string>
    decreases |s|
  {
    if s == "" then []
    else if White(s[0]) then Words(s[1..])
    else [s[..WordLength(s)]] + Words(s[WordLength(s)..])
  }

  predicate LineTerminated(s: string) {
    s == "" || s[|s| - 1] == '\n'
  }

  lemma {:induction false} LinesConcat(x: string, y: string)
    requires LineTerminated(x)
    ensures Lines(x + y) == Lines(x) + Lines(y)
    decreases |x|
  {
    if x == "" {
      assert x + y == y;
    } else {
      var k := IndexOf(x, '\n');
      var rest := x[k + 1..];
      IndexOfConcat(x, y, '\n');
      assert (x + y)[..k] == x[..k] && (x + y)[k + 1..] == rest + y;
      LinesConcat(rest, y);
      Assoc([StripCr(x[..k])], Lines(rest), Lines(y));
    }
  }

  lemma {:induction false} IndexOfConcat(x: string, y: string, c: char)
    requires c in x
    ensures IndexOf(x, c) < |x| && IndexOf(x + y, c) == IndexOf(x, c)
  {
    if x[0] != c {
      IndexOfConcat(x[1..], y, c);
      assert (x + y)[1..] == x[1..] + y;
    }
  }

  lemma NoLines()
    ensures Lines("") == []
  {
  }
}
