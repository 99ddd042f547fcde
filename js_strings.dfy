/**
 * The two JavaScript string built-ins the flashcard parser relies on:
 * `String.prototype.trim` and `String.prototype.split` with a one-character
 * separator. `Join` is the inverse of `Split` and serves as its specification.
 */
module JsStrings {

  /** The code points ECMAScript calls WhiteSpace or LineTerminator: exactly what `trim` strips. */
  predicate IsJsWhitespace(c: char) {
    var n := c as int;
    n == 0x09 || n == 0x0A || n == 0x0B || n == 0x0C || n == 0x0D || n == 0x20
    || n == 0xA0 || n == 0x1680 || (0x2000 <= n <= 0x200A) || n == 0x2028 || n == 0x2029
    || n == 0x202F || n == 0x205F || n == 0x3000 || n == 0xFEFF
  }

  predicate AllWhitespace(s: string) {
    forall k :: 0 <= k < |s| ==> IsJsWhitespace(s[k])
  }

  /** Neither end of `s` is whitespace. */
  predicate IsTrimmed(s: string) {
    s == [] || (!IsJsWhitespace(s[0]) && !IsJsWhitespace(s[|s| - 1]))
  }

  /** How many whitespace characters `s` starts with. */
  function LeadingWhitespace(s: string): (n: nat)
    ensures n <= |s| && AllWhitespace(s[..n])
    ensures n < |s| ==> !IsJsWhitespace(s[n])
  {
    if s == [] || !IsJsWhitespace(s[0]) then 0
    else
      var n := LeadingWhitespace(s[1..]);
      assert s[..n + 1] == [s[0]] + s[1..][..n];
      n + 1
  }

  /** How many whitespace characters `s` ends with. */
  function TrailingWhitespace(s: string): (n: nat)
    ensures n <= |s| && AllWhitespace(s[|s| - n..])
    ensures n < |s| ==> !IsJsWhitespace(s[|s| - n - 1])
  {
    if s == [] || !IsJsWhitespace(s[|s| - 1]) then 0
    else
      var t := s[..|s| - 1];
      var n := TrailingWhitespace(t);
      assert s[|s| - (n + 1)..] == t[|t| - n..] + [s[|s| - 1]];
      n + 1
  }

  /** The leading whitespace count is the only `n` with a whitespace prefix of that length followed by a non-whitespace character or the end. */
  lemma {:induction false} LeadingWhitespaceUnique(s: string, n: nat)
    requires n <= |s| && AllWhitespace(s[..n])
    requires n < |s| ==> !IsJsWhitespace(s[n])
    ensures LeadingWhitespace(s) == n
  {
    if n > 0 {
      assert s[..n][0] == s[0];
      assert s[1..][..n - 1] == s[..n][1..];
      LeadingWhitespaceUnique(s[1..], n - 1);
    }
  }

  lemma {:induction false} TrailingWhitespaceUnique(s: string, n: nat)
    requires n <= |s| && AllWhitespace(s[|s| - n..])
    requires n < |s| ==> !IsJsWhitespace(s[|s| - n - 1])
    ensures TrailingWhitespace(s) == n
  {
    if n > 0 {
      var t := s[..|s| - 1];
      assert s[|s| - n..][n - 1] == s[|s| - 1];
      var u := t[|t| - (n - 1)..];
      forall k | 0 <= k < |u|
        ensures IsJsWhitespace(u[k])
      {
        assert u[k] == s[|s| - n..][k];
      }
      assert n - 1 < |t| ==> t[|t| - (n - 1) - 1] == s[|s| - n - 1];
      TrailingWhitespaceUnique(t, n - 1);
    }
  }

  /**
   * `s.trim()`: the part of `s` left between a whitespace prefix and a
   * whitespace suffix, with no whitespace at either end; it is empty exactly
   * when `s` is all whitespace (a blank line).
   */
  function Trim(s: string): (r: string)
    ensures IsTrimmed(r) && |r| <= |s|
    ensures r == [] <==> AllWhitespace(s)
  {
    var i := LeadingWhitespace(s);
    var t := s[i..];
    var j := TrailingWhitespace(t);
    TrimSlice(s, i, t, j);
    TrimEnds(s, i, t, j);
    TrimBlank(s, i, t, j);
    t[..|t| - j]
  }

  /** `Trim` cuts a whitespace prefix and a whitespace suffix off its argument and keeps what lies between. */
  lemma TrimIsInfix(s: string)
    ensures exists i :: 0 <= i <= |s| - |Trim(s)| && Trim(s) == s[i..i + |Trim(s)|]
                        && AllWhitespace(s[..i]) && AllWhitespace(s[i + |Trim(s)|..])
  {
    var i := LeadingWhitespace(s);
    var t := s[i..];
    TrimSlice(s, i, t, TrailingWhitespace(t));
    assert Trim(s) == s[i..i + |Trim(s)|];
  }

  /** Trimming only removes characters. */
  lemma TrimKeepsOut(s: string, c: char)
    requires c !in s
    ensures c !in Trim(s)
  {
    var i := LeadingWhitespace(s);
    var t := s[i..];
    TrimSlice(s, i, t, TrailingWhitespace(t));
    var r := Trim(s);
    assert r == s[i..i + |r|];
    assert forall k :: 0 <= k < |r| ==> r[k] == s[i + k];
  }

  lemma TrimSlice(s: string, i: nat, t: string, j: nat)
    requires i <= |s| && AllWhitespace(s[..i]) && (i < |s| ==> !IsJsWhitespace(s[i]))
    requires t == s[i..] && j <= |t| && AllWhitespace(t[|t| - j..]) && (j < |t| ==> !IsJsWhitespace(t[|t| - j - 1]))
    ensures var r := t[..|t| - j]; i + |r| <= |s| && r == s[i..i + |r|] && AllWhitespace(s[i + |r|..])
  {
    assert s[i + |t| - j..] == t[|t| - j..];
  }

  lemma TrimEnds(s: string, i: nat, t: string, j: nat)
    requires i <= |s| && AllWhitespace(s[..i]) && (i < |s| ==> !IsJsWhitespace(s[i]))
    requires t == s[i..] && j <= |t| && AllWhitespace(t[|t| - j..]) && (j < |t| ==> !IsJsWhitespace(t[|t| - j - 1]))
    ensures IsTrimmed(t[..|t| - j])
  {
    var r := t[..|t| - j];
    if r != [] {
      assert r[0] == s[i];
      assert r[|r| - 1] == t[|t| - j - 1];
    }
  }

  lemma TrimBlank(s: string, i: nat, t: string, j: nat)
    requires i <= |s| && AllWhitespace(s[..i]) && (i < |s| ==> !IsJsWhitespace(s[i]))
    requires t == s[i..] && j <= |t| && AllWhitespace(t[|t| - j..]) && (j < |t| ==> !IsJsWhitespace(t[|t| - j - 1]))
    ensures t[..|t| - j] == [] <==> AllWhitespace(s)
  {
    if |t| == j {
      assert s == s[..i] + t[|t| - j..];
      AllWhitespaceConcat(s[..i], t[|t| - j..]);
    }
    if i < |s| {
      assert !IsJsWhitespace(s[i]);
    }
  }

  lemma AllWhitespaceConcat(a: string, b: string)
    requires AllWhitespace(a) && AllWhitespace(b)
    ensures AllWhitespace(a + b)
  {
    forall k | 0 <= k < |a + b| ensures IsJsWhitespace((a + b)[k]) {
      if k >= |a| { assert (a + b)[k] == b[k - |a|]; }
    }
  }

  /** Reference characterisation of `trim`: padding a trimmed string with whitespace on both sides and trimming gives it back. */
  lemma TrimOfPadded(p: string, m: string, q: string)
    requires AllWhitespace(p) && AllWhitespace(q) && IsTrimmed(m)
    ensures Trim(p + m + q) == m
  {
    var s := p + m + q;
    if m == [] {
      assert s == p + q;
      AllWhitespaceConcat(p, q);
    } else {
      assert s[..|p|] == p && s[|p|] == m[0];
      LeadingWhitespaceUnique(s, |p|);
      var t := s[|p|..];
      assert t == m + q;
      assert t[|t| - |q|..] == q && t[|t| - |q| - 1] == m[|m| - 1];
      TrailingWhitespaceUnique(t, |q|);
    }
  }

  /** Trimming twice is trimming once. */
  lemma TrimIdempotent(s: string)
    ensures Trim(Trim(s)) == Trim(s)
  {
    var m := Trim(s);
    assert [] + m + [] == m;
    TrimOfPadded([], m, []);
  }

  /** The position of the first `c` in `s`. */
  function FirstIndexOf(s: string, c: char): (i: nat)
    requires c in s
    ensures i < |s| && s[i] == c && c !in s[..i]
  {
    if s[0] == c then 0
    else
      var j := FirstIndexOf(s[1..], c);
      assert s[..j + 1] == [s[0]] + s[1..][..j];
      j + 1
  }

  /** Pieces glued back together with `sep` between neighbours: the inverse of `Split`. */
  function Join(parts: seq<string>, sep: char): string
  {
    if parts == [] then []
    else if |parts| == 1 then parts[0]
    else parts[0] + [sep] + Join(parts[1..], sep)
  }

  /**
   * `s.split(sep)`: the pieces of `s` between occurrences of `sep`. There is
   * always at least one piece (`"".split(",")` is `[""]`), no piece contains
   * the separator, and joining the pieces with it gives `s` back.
   */
  function Split(s: string, sep: char): (parts: seq<string>)
    ensures |parts| >= 1
    ensures forall k :: 0 <= k < |parts| ==> sep !in parts[k]
    ensures Join(parts, sep) == s
    decreases |s|
  {
    if sep !in s then [s]
    else
      var i := FirstIndexOf(s, sep);
      var rest := Split(s[i + 1..], sep);
      var parts := [s[..i]] + rest;
      assert parts[1..] == rest;
      assert s == s[..i] + [sep] + s[i + 1..];
      parts
  }

  /** Splitting a separator-free head followed by the separator peels that head off. */
  lemma SplitAfterHead(a: string, sep: char, t: string)
    requires sep !in a
    ensures Split(a + [sep] + t, sep) == [a] + Split(t, sep)
  {
    var s := a + [sep] + t;
    assert s[|a|] == sep;
    var i := FirstIndexOf(s, sep);
    assert s[..i] == a;
    assert s[i + 1..] == t;
  }

  /** The other round trip: splitting the join of separator-free pieces gives the pieces back. */
  lemma {:induction false} SplitJoin(parts: seq<string>, sep: char)
    requires |parts| >= 1
    requires forall k :: 0 <= k < |parts| ==> sep !in parts[k]
    ensures Split(Join(parts, sep), sep) == parts
  {
    if |parts| > 1 {
      SplitAfterHead(parts[0], sep, Join(parts[1..], sep));
      SplitJoin(parts[1..], sep);
      assert parts == [parts[0]] + parts[1..];
    }
  }
}
