/** Python `str` behaviour used by the splitter and the media helpers, over `seq<char>`. */
module Strings {

  /** The characters Python's `str.split()` and `str.strip()` treat as whitespace. */
  predicate IsSpace(c: char) {
    || ('\t' <= c <= '\r')
    || ('\U{1C}' <= c <= '\U{1F}')
    || c == ' '
    || c == '\U{85}'
    || c == '\U{A0}'
    || c == '\U{1680}'
    || ('\U{2000}' <= c <= '\U{200A}')
    || c == '\U{2028}'
    || c == '\U{2029}'
    || c == '\U{202F}'
    || c == '\U{205F}'
    || c == '\U{3000}'
  }

  /** The argument of `strip`: an explicit set of characters, or none (all whitespace). */
  datatype CharClass = Chars(set<char>) | Whitespace

  predicate Drops(cs: CharClass, c: char) {
    match cs
    case Chars(set_) => c in set_
    case Whitespace => IsSpace(c)
  }

  /** `"".join(parts)` */
  function Concat(parts: seq<string>): string
  {
    if parts == [] then "" else parts[0] + Concat(parts[1..])
  }

  /** Joining one part gives that part. */
  lemma ConcatSingle(parts: seq<string>)
    requires |parts| == 1
    ensures Concat(parts) == parts[0]
  {
    assert parts[1..] == [];
  }

  lemma {:induction false} ConcatAppend(a: seq<string>, b: seq<string>)
    ensures Concat(a + b) == Concat(a) + Concat(b)
  {
    if a == [] {
      assert a + b == b;
    } else {
      assert (a + b)[1..] == a[1..] + b;
      ConcatAppend(a[1..], b);
    }
  }

  /** `s.lstrip(chars)`, the stripped characters given by `drop`. */
  function TrimStart(s: string, drop: CharClass): string
  {
    if s != [] && Drops(drop, s[0]) then TrimStart(s[1..], drop) else s
  }

  /** `s.rstrip(chars)`, the stripped characters given by `drop`. */
  function TrimEnd(s: string, drop: CharClass): string
  {
    if s != [] && Drops(drop, s[|s| - 1]) then TrimEnd(s[..|s| - 1], drop) else s
  }

  /** `lstrip` keeps a suffix that does not start with a stripped character. */
  lemma {:induction false} TrimStartShape(s: string, drop: CharClass)
    ensures var r := TrimStart(s, drop);
      |r| <= |s| && r == s[|s| - |r|..] && (r == [] || !Drops(drop, r[0]))
    decreases |s|
  {
    if s != [] && Drops(drop, s[0]) {
      TrimStartShape(s[1..], drop);
      var r := TrimStart(s[1..], drop);
      assert s[1..][|s[1..]| - |r|..] == s[|s| - |r|..];
    }
  }

  /** `rstrip` keeps a prefix that does not end with a stripped character. */
  lemma {:induction false} TrimEndShape(s: string, drop: CharClass)
    ensures var r := TrimEnd(s, drop);
      |r| <= |s| && r == s[..|r|] && (r == [] || !Drops(drop, r[|r| - 1]))
    decreases |s|
  {
    if s != [] && Drops(drop, s[|s| - 1]) {
      TrimEndShape(s[..|s| - 1], drop);
      var r := TrimEnd(s[..|s| - 1], drop);
      assert s[..|s| - 1][..|r|] == s[..|r|];
    }
  }

  /** Everything `lstrip` removes is a stripped character. */
  lemma {:induction false} TrimStartDropped(s: string, drop: CharClass)
    ensures forall i :: 0 <= i < |s| - |TrimStart(s, drop)| ==> Drops(drop, s[i])
    decreases |s|
  {
    if s != [] && Drops(drop, s[0]) {
      TrimStartDropped(s[1..], drop);
      forall i | 1 <= i < |s| - |TrimStart(s, drop)|
        ensures Drops(drop, s[i])
      {
        assert s[i] == s[1..][i - 1];
      }
    }
  }

  /** Everything `rstrip` removes is a stripped character. */
  lemma {:induction false} TrimEndDropped(s: string, drop: CharClass)
    ensures forall i :: |TrimEnd(s, drop)| <= i < |s| ==> Drops(drop, s[i])
    decreases |s|
  {
    if s != [] && Drops(drop, s[|s| - 1]) {
      TrimEndDropped(s[..|s| - 1], drop);
      forall i | |TrimEnd(s, drop)| <= i < |s| - 1
        ensures Drops(drop, s[i])
      {
        assert s[i] == s[..|s| - 1][i];
      }
    }
  }

  /** `s.strip(chars)`: both ends, the stripped characters given by `drop`. */
  function Strip(s: string, drop: CharClass): string
  {
    TrimEnd(TrimStart(s, drop), drop)
  }

  /** The result of `strip` neither starts nor ends with a stripped character. */
  lemma StripEnds(s: string, drop: CharClass)
    ensures var r := Strip(s, drop); r == [] || (!Drops(drop, r[0]) && !Drops(drop, r[|r| - 1]))
  {
    var t := TrimStart(s, drop);
    var r := TrimEnd(t, drop);
    TrimStartShape(s, drop);
    TrimEndShape(t, drop);
    if r != [] {
      assert r[0] == t[0];
    }
  }

  /** `strip` keeps one contiguous run of its input and removes only stripped characters around it. */
  lemma StripIsSlice(s: string, drop: CharClass) returns (a: nat)
    ensures var r := Strip(s, drop); a + |r| <= |s| && r == s[a..a + |r|]
    ensures forall i :: 0 <= i < a ==> Drops(drop, s[i])
    ensures forall i :: a + |Strip(s, drop)| <= i < |s| ==> Drops(drop, s[i])
  {
    var t := TrimStart(s, drop);
    var r := TrimEnd(t, drop);
    TrimStartShape(s, drop);
    TrimEndShape(t, drop);
    TrimStartDropped(s, drop);
    TrimEndDropped(t, drop);
    a := |s| - |t|;
    assert r == t[..|r|] && t == s[a..];
    forall i | a + |r| <= i < |s|
      ensures Drops(drop, s[i])
    {
      assert s[i] == t[i - a];
    }
  }

  lemma TrimStartStops(s: string, drop: CharClass)
    requires s != [] && !Drops(drop, s[0])
    ensures TrimStart(s, drop) == s
  {
  }

  lemma TrimEndStops(s: string, drop: CharClass)
    requires s != [] && !Drops(drop, s[|s| - 1])
    ensures TrimEnd(s, drop) == s
  {
  }

  /** A prefix made only of dropped characters disappears; a non-dropped first character stops the trim. */
  lemma TrimStartConcat(a: string, b: string, drop: CharClass)
    requires forall i :: 0 <= i < |a| ==> Drops(drop, a[i])
    ensures TrimStart(a + b, drop) == TrimStart(b, drop)
    decreases |a|
  {
    if a != [] {
      assert (a + b)[1..] == a[1..] + b;
      TrimStartConcat(a[1..], b, drop);
    } else {
      assert a + b == b;
    }
  }

  lemma TrimEndConcat(a: string, b: string, drop: CharClass)
    requires forall i :: 0 <= i < |b| ==> Drops(drop, b[i])
    ensures TrimEnd(a + b, drop) == TrimEnd(a, drop)
    decreases |b|
  {
    if b != [] {
      assert (a + b)[..|a + b| - 1] == a + b[..|b| - 1];
      TrimEndConcat(a, b[..|b| - 1], drop);
    } else {
      assert a + b == a;
    }
  }

  lemma TrimStartWrapped(open: char, body: string, close: char, drop: CharClass)
    requires Drops(drop, open) && body != [] && !Drops(drop, body[0])
    ensures TrimStart([open] + body + [close], drop) == body + [close]
  {
    assert [open] + body + [close] == [open] + (body + [close]);
    TrimStartConcat([open], body + [close], drop);
    TrimStartStops(body + [close], drop);
  }

  lemma TrimEndWrapped(body: string, close: char, drop: CharClass)
    requires Drops(drop, close) && body != [] && !Drops(drop, body[|body| - 1])
    ensures TrimEnd(body + [close], drop) == body
  {
    TrimEndConcat(body, [close], drop);
    TrimEndStops(body, drop);
  }

  /** A text wrapped in one stripped character on each side strips back to itself when its own
      ends are not stripped. */
  lemma StripWrapped(open: char, body: string, close: char, drop: CharClass)
    requires Drops(drop, open) && Drops(drop, close)
    requires body != [] && !Drops(drop, body[0]) && !Drops(drop, body[|body| - 1])
    ensures Strip([open] + body + [close], drop) == body
  {
    TrimStartWrapped(open, body, close, drop);
    TrimEndWrapped(body, close, drop);
  }

  /** Number of leading whitespace characters. */
  function LeadingSpaces(s: string): (n: nat)
    ensures n <= |s|
    ensures forall i :: 0 <= i < n ==> IsSpace(s[i])
    ensures n < |s| ==> !IsSpace(s[n])
  {
    if s != [] && IsSpace(s[0]) then 1 + LeadingSpaces(s[1..]) else 0
  }

  /** Length of the leading run of non-whitespace characters. */
  function WordLength(s: string): (n: nat)
    ensures n <= |s|
    ensures forall i :: 0 <= i < n ==> !IsSpace(s[i])
    ensures n < |s| ==> IsSpace(s[n])
  {
    if s != [] && !IsSpace(s[0]) then 1 + WordLength(s[1..]) else 0
  }

  predicate HasNonSpace(s: string) {
    exists i :: 0 <= i < |s| && !IsSpace(s[i])
  }

  /** `s.split()[0]`: the first maximal run of non-whitespace characters. */
  function FirstWord(s: string): (w: string)
    requires HasNonSpace(s)
    ensures w != []
    ensures forall i :: 0 <= i < |w| ==> !IsSpace(w[i])
    ensures var k := LeadingSpaces(s);
      k + |w| <= |s| && w == s[k..k + |w|] && (k + |w| == |s| || IsSpace(s[k + |w|]))
  {
    var k := LeadingSpaces(s);
    s[k..k + WordLength(s[k..])]
  }

  /** A word followed by nothing or by whitespace is the first word. */
  lemma FirstWordOf(w: string, rest: string)
    requires w != [] && forall i :: 0 <= i < |w| ==> !IsSpace(w[i])
    requires rest == [] || IsSpace(rest[0])
    ensures HasNonSpace(w + rest) && FirstWord(w + rest) == w
  {
    var s := w + rest;
    assert !IsSpace(s[0]);
    assert LeadingSpaces(s) == 0;
    WordLengthOf(w, rest);
  }

  lemma {:induction false} WordLengthOf(w: string, rest: string)
    requires forall i :: 0 <= i < |w| ==> !IsSpace(w[i])
    requires rest == [] || IsSpace(rest[0])
    ensures WordLength(w + rest) == |w|
    decreases |w|
  {
    if w == [] {
      assert w + rest == rest;
    } else {
      assert (w + rest)[1..] == w[1..] + rest;
      WordLengthOf(w[1..], rest);
    }
  }

  /** The Kelvin sign, the one character outside ASCII whose lower case is an ASCII letter (`k`). */
  const Kelvin: char := '\U{212A}'

  /** `str.lower` on one character, for every character whose lower case is an ASCII letter:
      `A`-`Z` and the Kelvin sign. Other characters are kept as they are. */
  function LowerChar(c: char): (d: char)
    ensures 'A' <= c <= 'Z' ==> d as int == c as int + 32
    ensures c == Kelvin ==> d == 'k'
    ensures !('A' <= c <= 'Z') && c != Kelvin ==> d == c
  {
    if 'A' <= c <= 'Z' then (c as int + 32) as char
    else if c == Kelvin then 'k'
    else c
  }

  /** `s.lower()` */
  function Lower(s: string): (r: string)
    ensures |r| == |s|
    ensures forall i :: 0 <= i < |s| ==> r[i] == LowerChar(s[i])
  {
    seq(|s|, i requires 0 <= i < |s| => LowerChar(s[i]))
  }

  /** `s.rfind(c)`: the last position holding `c`, or -1. */
  function RFind(s: string, c: char): (r: int)
    ensures -1 <= r < |s|
    ensures r == -1 <==> c !in s
    ensures r >= 0 ==> s[r] == c && forall j :: r < j < |s| ==> s[j] != c
  {
    if s == [] then -1
    else if s[|s| - 1] == c then |s| - 1
    else RFind(s[..|s| - 1], c)
  }

  /** `s.find(c, start)`: the first position at or after `start` holding `c`, or -1. */
  function FindFrom(s: string, c: char, start: nat): (r: int)
    ensures r == -1 || start <= r < |s|
    ensures r == -1 <==> forall j :: start <= j < |s| ==> s[j] != c
    ensures r >= 0 ==> s[r] == c && forall j :: start <= j < r ==> s[j] != c
    decreases |s| - start
  {
    if start >= |s| then -1
    else if s[start] == c then start
    else FindFrom(s, c, start + 1)
  }

  /** `s[:n]` with Python's slice semantics: the bound is clamped to the length, and a negative
      bound counts from the end. */
  function PrefixSlice(s: string, n: int): (r: string)
    ensures 0 <= n ==> r == s[..if n <= |s| then n else |s|]
    ensures n < 0 ==> r == s[..if |s| + n >= 0 then |s| + n else 0]
  {
    if n >= 0 then (if n <= |s| then s[..n] else s)
    else if |s| + n >= 0 then s[..|s| + n] else []
  }

  /** What `s[:n]` is: a prefix of `s`, namely its first `n` characters, or all of `s` when it is
      shorter; for a negative `n`, all but the last `-n` characters, or nothing when `s` is shorter. */
  lemma PrefixSliceLength(s: string, n: int)
    ensures var r := PrefixSlice(s, n);
      && |r| <= |s| && r == s[..|r|]
      && (0 <= n ==> |r| == n || (r == s && |s| < n))
      && (n < 0 ==> |s| - |r| == -n || (r == [] && |s| < -n))
  {
  }

  /** `needle` occurs in `hay` starting at position `i`. */
  predicate OccursAt(needle: string, hay: string, i: int) {
    0 <= i <= |hay| - |needle| && hay[i..i + |needle|] == needle
  }

  /** `needle in hay` for strings. */
  ghost predicate IsSubstring(needle: string, hay: string) {
    exists i :: OccursAt(needle, hay, i)
  }

  /** `needle in hay`, computed by trying each start position. */
  function ContainsFrom(hay: string, needle: string, start: nat): (b: bool)
    requires start <= |hay|
    ensures b <==> exists i :: start <= i && OccursAt(needle, hay, i)
    decreases |hay| - start
  {
    if start + |needle| > |hay| then false
    else if hay[start..start + |needle|] == needle then assert OccursAt(needle, hay, start); true
    else ContainsFrom(hay, needle, start + 1)
  }

  function Contains(hay: string, needle: string): (b: bool)
    ensures b <==> IsSubstring(needle, hay)
  {
    ContainsFrom(hay, needle, 0)
  }
}
