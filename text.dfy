/**
 * String helpers with the JavaScript semantics the source relies on:
 * `toLowerCase` (ASCII letters only), `trim` (the ECMAScript white-space and
 * line-terminator set), `includes`, `slice(0, n)`, `join` and the decimal
 * rendering of integers.
 */
module Text {

  /** ECMAScript WhiteSpace and LineTerminator code points: what `trim` strips and `\s` matches. */
  predicate IsSpace(c: char) {
    c == ' ' || c == '\t' || c == '\n' || c == '\r' || c == '\U{000B}' || c == '\U{000C}' ||
    c == '\U{00A0}' || c == '\U{1680}' || ('\U{2000}' <= c <= '\U{200A}') || c == '\U{2028}' ||
    c == '\U{2029}' || c == '\U{202F}' || c == '\U{205F}' || c == '\U{3000}' || c == '\U{FEFF}'
  }

  predicate IsAsciiUpper(c: char) { 'A' <= c <= 'Z' }
  predicate IsAsciiLower(c: char) { 'a' <= c <= 'z' }
  predicate IsDigit(c: char) { '0' <= c <= '9' }

  /** Regular-expression `\w`: `[A-Za-z0-9_]`. */
  predicate IsWordChar(c: char) { IsAsciiUpper(c) || IsAsciiLower(c) || IsDigit(c) || c == '_' }

  function LowerChar(c: char): char {
    if IsAsciiUpper(c) then (c as int + 32) as char else c
  }

  /** `s.toLowerCase()` restricted to ASCII letters. */
  function Lower(s: string): string {
    seq(|s|, i requires 0 <= i < |s| => LowerChar(s[i]))
  }

  /** Every upper-case ASCII letter is gone after lower-casing. */
  predicate IsLowered(s: string) {
    forall i :: 0 <= i < |s| ==> !IsAsciiUpper(s[i])
  }

  lemma LowerFacts(s: string)
    ensures |Lower(s)| == |s| && IsLowered(Lower(s)) && Lower(Lower(s)) == Lower(s)
  {
  }

  lemma LowerOfLowered(s: string)
    requires IsLowered(s)
    ensures Lower(s) == s
  {
  }

  lemma LowerConcat(a: string, b: string)
    ensures Lower(a + b) == Lower(a) + Lower(b)
  {
    assert forall i :: 0 <= i < |a + b| ==> Lower(a + b)[i] == (Lower(a) + Lower(b))[i];
  }

  lemma LowerSuffix(s: string, k: nat)
    requires k <= |s|
    ensures Lower(s)[k..] == Lower(s[k..])
  {
  }

  lemma LowerPrefix(p: string, s: string)
    requires p <= s
    ensures Lower(p) <= Lower(s)
  {
  }

  function TrimStart(s: string): (r: string)
    ensures |r| <= |s|
  {
    if |s| > 0 && IsSpace(s[0]) then TrimStart(s[1..]) else s
  }

  function TrimEnd(s: string): (r: string)
    ensures |r| <= |s|
  {
    if |s| > 0 && IsSpace(s[|s| - 1]) then TrimEnd(s[..|s| - 1]) else s
  }

  /** `s.trim()`. */
  function Trim(s: string): string {
    TrimEnd(TrimStart(s))
  }

  /** `s.slice(0, n)` for a non-negative `n`. */
  function Take<T>(s: seq<T>, n: nat): (r: seq<T>)
    ensures r <= s && |r| == if |s| <= n then |s| else n
  {
    if |s| <= n then s else s[..n]
  }

  /** `hay.includes(needle)`: needle occurs at some offset of hay. */
  predicate Contains(hay: string, needle: string)
    decreases |hay|
  {
    needle <= hay || (|hay| > 0 && Contains(hay[1..], needle))
  }

  lemma {:induction false} ContainsAt(hay: string, needle: string, i: nat)
    requires i <= |hay| && needle <= hay[i..]
    ensures Contains(hay, needle)
    decreases i
  {
    if i == 0 {
      assert hay[0..] == hay;
    } else {
      assert hay[1..][i - 1..] == hay[i..];
      ContainsAt(hay[1..], needle, i - 1);
    }
  }

  lemma {:induction false} ContainsWitness(hay: string, needle: string) returns (i: nat)
    requires Contains(hay, needle)
    ensures i <= |hay| && needle <= hay[i..]
    decreases |hay|
  {
    if needle <= hay {
      i := 0;
      assert hay[0..] == hay;
    } else {
      var j := ContainsWitness(hay[1..], needle);
      assert hay[1..][j..] == hay[j + 1..];
      i := j + 1;
    }
  }

  /** A string shorter than the needle cannot contain it. */
  lemma {:induction false} TooShortToContain(hay: string, needle: string)
    requires |hay| < |needle|
    ensures !Contains(hay, needle)
    decreases |hay|
  {
    if |hay| > 0 {
      TooShortToContain(hay[1..], needle);
    }
  }

  /** Appending on either side keeps an occurrence. */
  lemma ContainsExtend(x: string, y: string, needle: string)
    ensures Contains(x, needle) ==> Contains(x + y, needle)
    ensures Contains(y, needle) ==> Contains(x + y, needle)
  {
    if Contains(x, needle) {
      var i := ContainsWitness(x, needle);
      assert (x + y)[i..] == x[i..] + y;
      ContainsAt(x + y, needle, i);
    }
    if Contains(y, needle) {
      var i := ContainsWitness(y, needle);
      assert (x + y)[|x| + i..] == y[i..];
      ContainsAt(x + y, needle, |x| + i);
    }
  }

  /** The contrapositive of `ContainsAt`: a string without the needle has it at no offset. */
  lemma {:induction false} NotContainsAt(hay: string, needle: string, i: nat)
    requires !Contains(hay, needle) && i <= |hay|
    ensures !(needle <= hay[i..])
    decreases i
  {
    if i == 0 {
      assert hay[0..] == hay;
    } else {
      assert hay[1..][i - 1..] == hay[i..];
      NotContainsAt(hay[1..], needle, i - 1);
    }
  }

  /** A needle found at no offset is not contained. */
  lemma {:induction false} NotContainsFromOffsets(hay: string, needle: string)
    requires forall i :: 0 <= i <= |hay| ==> !(needle <= hay[i..])
    ensures !Contains(hay, needle)
    decreases |hay|
  {
    assert hay[0..] == hay;
    if |hay| > 0 {
      forall i | 0 <= i <= |hay[1..]|
        ensures !(needle <= hay[1..][i..])
      {
        assert hay[1..][i..] == hay[i + 1..];
      }
      NotContainsFromOffsets(hay[1..], needle);
    }
  }

  /** A needle avoiding the character `c` lies wholly on one side of any occurrence of `c`. */
  lemma NotAcross(a: string, c: char, b: string, needle: string)
    requires c !in needle && !Contains(a, needle) && !Contains(b, needle)
    ensures !Contains(a + [c] + b, needle)
  {
    var s := a + [c] + b;
    forall i | 0 <= i <= |s|
      ensures !(needle <= s[i..])
    {
      if i + |needle| <= |a| {
        NotContainsAt(a, needle, i);
        assert s[i..i + |needle|] == a[i..i + |needle|];
      } else if i <= |a| {
        assert s[i..][|a| - i] == c;
        assert needle[|a| - i] != c;
      } else {
        assert s[i..] == b[i - |a| - 1..];
        NotContainsAt(b, needle, i - |a| - 1);
      }
    }
    NotContainsFromOffsets(s, needle);
  }

  /** The needle is never longer than a string that contains it. */
  lemma ContainsLength(hay: string, needle: string)
    requires Contains(hay, needle)
    ensures |needle| <= |hay|
  {
    var i := ContainsWitness(hay, needle);
  }

  lemma ContainsMiddle(a: string, x: string, b: string)
    ensures Contains(a + x + b, x)
  {
    assert (a + x + b)[|a|..] == x + b;
    ContainsAt(a + x + b, x, |a|);
  }

  lemma ContainsPrefix(s: string, p: string)
    requires p <= s
    ensures Contains(s, p)
  {
    assert s[0..] == s;
    ContainsAt(s, p, 0);
  }

  lemma ContainsTransitive(a: string, b: string, c: string)
    requires Contains(a, b) && Contains(b, c)
    ensures Contains(a, c)
  {
    var i := ContainsWitness(a, b);
    var j := ContainsWitness(b, c);
    assert c == b[j..j + |c|];
    assert b == a[i..i + |b|];
    assert c == a[i + j..i + j + |c|];
    ContainsAt(a, c, i + j);
  }

  lemma ContainsLower(hay: string, needle: string)
    requires Contains(hay, needle)
    ensures Contains(Lower(hay), Lower(needle))
  {
    var i := ContainsWitness(hay, needle);
    LowerPrefix(needle, hay[i..]);
    LowerSuffix(hay, i);
    ContainsAt(Lower(hay), Lower(needle), i);
  }

  lemma {:induction false} TrimStartIsSuffix(s: string) returns (k: nat)
    ensures k <= |s| && TrimStart(s) == s[k..]
    decreases |s|
  {
    if |s| > 0 && IsSpace(s[0]) {
      var j := TrimStartIsSuffix(s[1..]);
      assert s[1..][j..] == s[j + 1..];
      k := j + 1;
    } else {
      k := 0;
    }
  }

  lemma {:induction false} TrimEndIsPrefix(s: string)
    ensures TrimEnd(s) <= s
    decreases |s|
  {
    if |s| > 0 && IsSpace(s[|s| - 1]) {
      TrimEndIsPrefix(s[..|s| - 1]);
    }
  }

  /** The trimmed string is a slice of the original, so the original contains it. */
  lemma TrimContained(s: string)
    ensures Contains(s, Trim(s))
  {
    var k := TrimStartIsSuffix(s);
    TrimEndIsPrefix(s[k..]);
    ContainsAt(s, Trim(s), k);
  }

  /** `parts.join(sep)`. */
  function Join(parts: seq<string>, sep: string): string {
    if |parts| == 0 then ""
    else if |parts| == 1 then parts[0]
    else parts[0] + sep + Join(parts[1..], sep)
  }

  /** Each part of a join occurs in the joined string. */
  lemma {:induction false} JoinContainsPart(parts: seq<string>, sep: string, i: nat)
    requires i < |parts|
    ensures Contains(Join(parts, sep), parts[i])
  {
    if |parts| == 1 {
      ContainsPrefix(parts[0], parts[0]);
    } else if i == 0 {
      ContainsPrefix(parts[0] + sep + Join(parts[1..], sep), parts[0]);
    } else {
      JoinContainsPart(parts[1..], sep, i - 1);
      var rest := Join(parts[1..], sep);
      ContainsMiddle(parts[0] + sep, rest, "");
      assert parts[0] + sep + rest + "" == parts[0] + sep + rest;
      ContainsTransitive(parts[0] + sep + rest, rest, parts[i]);
    }
  }

  function DigitChar(d: nat): char
    requires d < 10
  {
    ('0' as int + d) as char
  }

  /** Decimal rendering of a natural number, as `String(n)` gives it. */
  function NatToString(n: nat): (r: string)
    ensures |r| > 0 && forall i :: 0 <= i < |r| ==> IsDigit(r[i])
  {
    if n < 10 then [DigitChar(n)] else NatToString(n / 10) + [DigitChar(n % 10)]
  }

  /** Decimal rendering of an integer, with a leading `-` when negative. */
  function IntToString(n: int): string {
    if n < 0 then "-" + NatToString(-n) else NatToString(n)
  }

  /** `s.replace(/[{}]/g, '')`: every brace removed, everything else kept in order. */
  function StripBraces(s: string): (r: string)
    ensures |r| <= |s| && forall i :: 0 <= i < |r| ==> r[i] != '{' && r[i] != '}'
  {
    if s == [] then []
    else if s[0] == '{' || s[0] == '}' then StripBraces(s[1..])
    else [s[0]] + StripBraces(s[1..])
  }

  /** `s.replace(pat, rep)` with a string pattern: only the first occurrence is replaced. */
  function ReplaceFirst(s: string, pat: string, rep: string): (r: string)
    requires |pat| > 0
    decreases |s|
  {
    if pat <= s then rep + s[|pat|..]
    else if s == [] then []
    else [s[0]] + ReplaceFirst(s[1..], pat, rep)
  }

  /** A string without the pattern is left alone, and one occurrence is taken away. */
  lemma {:induction false} ReplaceFirstEffect(s: string, pat: string)
    requires |pat| > 0
    ensures !Contains(s, pat) ==> ReplaceFirst(s, pat, "") == s
    ensures Contains(s, pat) ==> |ReplaceFirst(s, pat, "")| == |s| - |pat|
    decreases |s|
  {
    if pat <= s {
      ContainsPrefix(s, pat);
    } else if s != [] {
      ReplaceFirstEffect(s[1..], pat);
    }
  }
}
