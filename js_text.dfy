/**
 * The pieces of ECMAScript string and regular-expression semantics that the
 * quiz extractor relies on: the `\s`, `\d` and `[^\n]` character classes,
 * runs of characters of one class, and String.prototype.trim.
 */
module JsText {

  /** ECMAScript WhiteSpace or LineTerminator: exactly the characters `\s`
      matches and the characters `trim()` removes from either end. */
  predicate IsSpace(c: char) {
    var n := c as int;
    n == 0x09 || n == 0x0A || n == 0x0B || n == 0x0C || n == 0x0D || n == 0x20 ||
    n == 0xA0 || n == 0x1680 || (0x2000 <= n <= 0x200A) || n == 0x2028 || n == 0x2029 ||
    n == 0x202F || n == 0x205F || n == 0x3000 || n == 0xFEFF
  }

  /** The class `\d`: ASCII decimal digits only. */
  predicate IsDigit(c: char) {
    '0' <= c <= '9'
  }

  /** The three character classes the quiz pattern repeats. */
  datatype CharClass = Space | Digit | NotNewline

  predicate InClass(c: char, k: CharClass) {
    match k
    case Space => IsSpace(c)
    case Digit => IsDigit(c)
    case NotNewline => c != '\n'
  }

  predicate All(s: string, k: CharClass) {
    forall i :: 0 <= i < |s| ==> InClass(s[i], k)
  }

  predicate AllSpace(s: string) {
    forall i :: 0 <= i < |s| ==> IsSpace(s[i])
  }

  /** The end of the longest run of class-`k` characters starting at `i`:
      what a greedy `\s*`, `\d+` or `[^\n]+` consumes before backtracking. */
  function RunEnd(s: string, i: nat, k: CharClass): (e: nat)
    requires i <= |s|
    ensures i <= e <= |s|
    ensures All(s[i..e], k)
    ensures e == |s| || !InClass(s[e], k)
    decreases |s| - i
  {
    if i < |s| && InClass(s[i], k) then RunEnd(s, i + 1, k) else i
  }

  /** A run of class characters from `i` can reach `j` only up to the run's end. */
  lemma {:induction false} RunEndIsMaximal(s: string, i: nat, j: nat, k: CharClass)
    requires i <= j <= |s|
    requires All(s[i..j], k)
    ensures j <= RunEnd(s, i, k)
  {
  }

  /** A run stops at the first character outside its class. */
  lemma {:induction false} RunEndStops(s: string, i: nat, x: nat, k: CharClass)
    requires i <= x < |s| && !InClass(s[x], k)
    ensures RunEnd(s, i, k) <= x
    decreases x - i
  {
    if i < x && InClass(s[i], k) {
      RunEndStops(s, i + 1, x, k);
    }
  }

  /** A shorter stretch of a run is still a run. */
  lemma {:induction false} AllShorter(s: string, i: nat, j: nat, j': nat, k: CharClass)
    requires i <= j' <= j <= |s| && All(s[i..j], k)
    ensures All(s[i..j'], k)
  {
    assert forall x :: 0 <= x < j' - i ==> s[i..j'][x] == s[i..j][x];
  }

  /** The position of the first line feed at or after `i`, or the end of `s`. */
  function LineEnd(s: string, i: nat): (n: nat)
    requires i <= |s|
    ensures i <= n <= |s|
    ensures '\n' !in s[i..n]
    ensures n == |s| || s[n] == '\n'
  {
    var n := RunEnd(s, i, NotNewline);
    assert forall c :: c in s[i..n] ==> c != '\n';
    n
  }

  /** Any position that closes a line-feed-free stretch starting at `i` is the line end. */
  lemma {:induction false} LineEndUnique(s: string, i: nat, n: nat)
    requires i <= n <= |s|
    requires '\n' !in s[i..n]
    requires n == |s| || s[n] == '\n'
    ensures n == LineEnd(s, i)
  {
  }

  /** The string with its leading whitespace removed (String.prototype.trimStart). */
  function TrimStart(s: string): string
    decreases |s|
  {
    if s != [] && IsSpace(s[0]) then TrimStart(s[1..]) else s
  }

  /** trimStart drops a whitespace prefix and stops at the first other character. */
  lemma {:induction false} TrimStartSpec(s: string)
    ensures var r := TrimStart(s);
      && |r| <= |s| && r == s[|s| - |r|..]
      && AllSpace(s[..|s| - |r|])
      && (r == [] || !IsSpace(r[0]))
    decreases |s|
  {
    if s != [] && IsSpace(s[0]) {
      TrimStartSpec(s[1..]);
      var r := TrimStart(s[1..]);
      assert s[..|s| - |r|] == [s[0]] + s[1..][..|s| - 1 - |r|];
    }
  }

  /** The string with its trailing whitespace removed (String.prototype.trimEnd). */
  function TrimEnd(s: string): string
    decreases |s|
  {
    if s != [] && IsSpace(s[|s| - 1]) then TrimEnd(s[..|s| - 1]) else s
  }

  /** trimEnd drops a whitespace suffix and stops at the last other character. */
  lemma {:induction false} TrimEndSpec(s: string)
    ensures var r := TrimEnd(s);
      && |r| <= |s| && r == s[..|r|]
      && AllSpace(s[|r|..])
      && (r == [] || !IsSpace(r[|r| - 1]))
    decreases |s|
  {
    if s != [] && IsSpace(s[|s| - 1]) {
      TrimEndSpec(s[..|s| - 1]);
      var r := TrimEnd(s[..|s| - 1]);
      assert s[|r|..] == s[..|s| - 1][|r|..] + [s[|s| - 1]];
    }
  }

  /** A string with no whitespace at either end. */
  predicate IsTrimmed(s: string) {
    s == [] || (!IsSpace(s[0]) && !IsSpace(s[|s| - 1]))
  }

  /** How much leading whitespace `trim()` removes. */
  function TrimLead(s: string): (i: nat)
    ensures i <= |s|
  {
    TrimStartSpec(s);
    |s| - |TrimStart(s)|
  }

  /** String.prototype.trim. */
  function Trim(s: string): string {
    TrimEnd(TrimStart(s))
  }

  /** `trim()` splits its argument into whitespace, the result, then whitespace,
      and the result is empty exactly when the argument is all whitespace. */
  lemma {:induction false} TrimSplits(s: string)
    ensures var r := Trim(s); var i := TrimLead(s);
      && IsTrimmed(r)
      && i + |r| <= |s| && r == s[i..i + |r|]
      && AllSpace(s[..i]) && AllSpace(s[i + |r|..])
      && (r == [] <==> AllSpace(s))
  {
    var t := TrimStart(s);
    var r := TrimEnd(t);
    var i := TrimLead(s);
    TrimStartSpec(s);
    TrimEndSpec(t);
    assert s[i..i + |r|] == t[..|r|];
    assert s[i + |r|..] == t[|r|..];
    if r == [] {
      assert t == [] by { assert AllSpace(t[|r|..]); }
      assert s[..i] == s;
    } else {
      assert s[i] == r[0];
    }
  }

  /** Trimming keeps only characters of its argument, so a line-feed-free string stays so. */
  lemma {:induction false} TrimKeepsNoNewline(s: string)
    requires '\n' !in s
    ensures '\n' !in Trim(s)
  {
    TrimSplits(s);
    var r := Trim(s);
    var i := TrimLead(s);
    assert forall c :: c in r ==> c in s[i..i + |r|];
  }

  /** A string that starts with a non-space character keeps it first after trimming. */
  lemma {:induction false} TrimKeepsFirst(s: string)
    requires s != [] && !IsSpace(s[0])
    ensures Trim(s) != [] && Trim(s)[0] == s[0]
  {
    TrimSplits(s);
    assert !AllSpace(s);
  }

  /** Trimming whitespace followed by a non-empty trimmed string gives back that string. */
  lemma {:induction false} TrimPadded(w: string, v: string)
    requires AllSpace(w) && v != [] && IsTrimmed(v)
    ensures Trim(w + v) == v
  {
    var s := w + v;
    TrimSplits(s);
    var r := Trim(s);
    var i := TrimLead(s);
    assert s[|w|] == v[0] && s[|s| - 1] == v[|v| - 1];
    assert forall x :: 0 <= x < |w| ==> IsSpace(s[x]) by {
      forall x | 0 <= x < |w| ensures IsSpace(s[x]) { assert s[x] == w[x]; }
    }
    assert forall x :: 0 <= x < i ==> IsSpace(s[x]) by {
      forall x | 0 <= x < i ensures IsSpace(s[x]) { assert s[..i][x] == s[x]; }
    }
    assert r != [] by { assert !IsSpace(s[|w|]); }
    assert r[0] == s[i];
    assert i == |w|;
    assert i + |r| == |s|;
    assert s[|w|..] == v;
  }
}
