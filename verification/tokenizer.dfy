/** The tokenizer `re.split(r"(<[^>]+>)", html)`: a hand-written scanner for the leftmost,
    non-overlapping matches of `<`, one or more non-`>` characters, then `>`. */
module Tokenizer {
  import opened Strings

  /** A match of `<[^>]+>` starts at `i`: a `<` whose first following `>` is not adjacent. */
  predicate MatchAt(s: string, i: int) {
    0 <= i < |s| && s[i] == '<' && FindFrom(s, '>', i + 1) >= i + 2
  }

  /** The shape of every text the pattern `<[^>]+>` matches. */
  predicate IsTagShape(t: string) {
    && |t| >= 3
    && t[0] == '<'
    && t[|t| - 1] == '>'
    && forall m :: 0 < m < |t| - 1 ==> t[m] != '>'
  }

  /** The leftmost match start at or after `from`, or -1 when there is none. */
  function FindTag(s: string, from: nat): (r: int)
    ensures r >= -1
    ensures r == -1 ==> forall i :: from <= i < |s| ==> !MatchAt(s, i)
    ensures r >= 0 ==> from <= r < |s| && MatchAt(s, r) && forall i :: from <= i < r ==> !MatchAt(s, i)
    decreases |s| - from
  {
    if from >= |s| then -1
    else if MatchAt(s, from) then from
    else FindTag(s, from + 1)
  }

  /** `re.split` with one capturing group: text, tag, text, ..., tag, text, where text runs may be
      empty. `TokenizeSound` states what the tokens are. */
  function Tokenize(s: string): seq<string>
    decreases |s|
  {
    var m := FindTag(s, 0);
    if m == -1 then [s]
    else
      var j := FindFrom(s, '>', m + 1);
      [s[..m], s[m..j + 1]] + Tokenize(s[j + 1..])
  }

  /** Every character of the input lands in exactly one token, in order; text and tags
      alternate, starting and ending with text; every tag is a whole match; and no match starts
      inside a text token. */
  lemma {:induction false} TokenizeSound(s: string)
    ensures var r := Tokenize(s);
      && Concat(r) == s
      && |r| % 2 == 1
      && TagsAtOdd(r)
      && TextsClean(r)
      && forall p :: 0 <= p < |r[0]| ==> !MatchAt(s, p)
    decreases |s|
  {
    var m := FindTag(s, 0);
    if m == -1 {
      TokenizeSoundNone(s);
    } else {
      MatchShape(s, m);
      var j := FindFrom(s, '>', m + 1);
      TokenizeSound(s[j + 1..]);
      TokenizeSoundFirst(s, m, j);
    }
  }

  /** Without a match the whole input is the one text token. */
  lemma TokenizeSoundNone(s: string)
    requires FindTag(s, 0) == -1
    ensures var r := Tokenize(s);
      && Concat(r) == s
      && |r| % 2 == 1
      && TagsAtOdd(r)
      && TextsClean(r)
      && forall p :: 0 <= p < |r[0]| ==> !MatchAt(s, p)
  {
    assert Tokenize(s) == [s];
    ConcatSingle([s]);
    assert s + Concat([s][1..]) == s;
  }

  /** With a leftmost match, the text before it, the match, and a sound split of the rest form a
      sound split of the whole. */
  lemma TokenizeSoundFirst(s: string, m: int, j: int)
    requires 0 <= m && FindTag(s, 0) == m && j == FindFrom(s, '>', m + 1)
    requires m + 2 <= j < |s| && IsTagShape(s[m..j + 1])
    requires var rest := Tokenize(s[j + 1..]);
      && Concat(rest) == s[j + 1..] && |rest| % 2 == 1 && TagsAtOdd(rest) && TextsClean(rest)
    ensures var r := Tokenize(s);
      && Concat(r) == s
      && |r| % 2 == 1
      && TagsAtOdd(r)
      && TextsClean(r)
      && forall p :: 0 <= p < |r[0]| ==> !MatchAt(s, p)
  {
    TokenizeStep(s, m, j, Tokenize(s[j + 1..]));
    TokenizeUnfold(s, m, j);
  }

  /** The text before the leftmost match, the match, and the tokens of what follows it form the
      token list of the whole string. */
  lemma TokenizeStep(s: string, m: int, j: int, rest: seq<string>)
    requires 0 <= m < j < |s| && IsTagShape(s[m..j + 1])
    requires forall i :: 0 <= i < m ==> !MatchAt(s, i)
    requires Concat(rest) == s[j + 1..] && |rest| % 2 == 1 && TagsAtOdd(rest) && TextsClean(rest)
    ensures var r := [s[..m], s[m..j + 1]] + rest;
      && Concat(r) == s && |r| % 2 == 1 && TagsAtOdd(r) && TextsClean(r)
      && forall p :: 0 <= p < |r[0]| ==> !MatchAt(s, p)
  {
    ConcatPair(s[..m], s[m..j + 1], rest);
    assert s == s[..m] + s[m..j + 1] + s[j + 1..];
    assert s == s[..m] + (s[m..j + 1] + Concat(rest));
    PairShapes(s[..m], s[m..j + 1], rest);
    TextsCleanCons(s[..m], s[m..j + 1], rest);
  }

  /** Tags sit at the odd positions of a token list. */
  predicate TagsAtOdd(r: seq<string>) {
    forall k :: 0 <= k < |r| && k % 2 == 1 ==> IsTagShape(r[k])
  }

  /** No match of the pattern starts inside `t` when `after` follows it. */
  predicate NoMatchIn(t: string, after: string) {
    forall p :: 0 <= p < |t| ==> !MatchAt(t + after, p)
  }

  /** No match starts inside any text token, reading on into the tokens after it: `re.split`
      leaves no tag inside its text runs. */
  predicate TextsClean(r: seq<string>) {
    forall k {:trigger NoMatchIn(r[k], Concat(r[k + 1..]))} ::
      0 <= k < |r| && k % 2 == 0 ==> NoMatchIn(r[k], Concat(r[k + 1..]))
  }

  /** The four properties pin the split down: any token list that joins back to `s`, alternates
      text and tags, and leaves no match inside a text token is the tokenizer's result. */
  lemma {:induction false} TokenizeUnique(s: string, r: seq<string>)
    requires Concat(r) == s && |r| % 2 == 1 && TagsAtOdd(r) && TextsClean(r)
    ensures r == Tokenize(s)
    decreases |r|
  {
    if |r| == 1 {
      assert NoMatchIn(r[0], Concat(r[1..]));
      assert r[1..] == [];
      ConcatSingle(r);
      TokenizeNoMatch(s);
    } else {
      var rest := r[2..];
      TailFacts(r);
      TokenizeUnique(Concat(rest), rest);
      TokenizeTagFirst(s, r[0], r[1], Concat(rest));
      assert r == [r[0], r[1]] + rest;
    }
  }

  /** A string with no match is one text token. */
  lemma TokenizeNoMatch(s: string)
    requires NoMatchIn(s, "")
    ensures Tokenize(s) == [s]
  {
    assert s + "" == s;
    assert FindTag(s, 0) == -1;
  }

  /** Text without a match, then a tag, then anything: the tokenizer splits off the text and the
      tag and goes on with the rest. */
  lemma TokenizeTagFirst(s: string, a: string, t: string, after: string)
    requires s == a + t + after && NoMatchIn(a, t + after) && IsTagShape(t)
    ensures Tokenize(s) == [a, t] + Tokenize(after)
  {
    var m := |a|;
    var j := m + |t| - 1;
    FirstMatchAt(s, a, t, after);
    TokenizeUnfold(s, m, j);
    assert s == a + (t + after);
    assert s[..m] == a;
    assert s[m..j + 1] == t;
    assert s[j + 1..] == after;
  }

  /** Where the leftmost match of `a + t + after` lies, and where it ends. */
  lemma FirstMatchAt(s: string, a: string, t: string, after: string)
    requires s == a + t + after && NoMatchIn(a, t + after) && IsTagShape(t)
    ensures FindTag(s, 0) == |a| && FindFrom(s, '>', |a| + 1) == |a| + |t| - 1
  {
    var m := |a|;
    assert s == a + (t + after);
    assert s[m..m + |t|] == t;
    TagAt(s, m, t);
    forall p | 0 <= p < m
      ensures !MatchAt(s, p)
    {
      assert !MatchAt(a + (t + after), p);
    }
  }

  /** One step of the tokenizer: the text before the leftmost match, the match, and the rest. */
  lemma TokenizeUnfold(s: string, m: nat, j: nat)
    requires FindTag(s, 0) == m && FindFrom(s, '>', m + 1) == j
    ensures Tokenize(s) == [s[..m], s[m..j + 1]] + Tokenize(s[j + 1..])
  {
  }

  /** What a token list says about the list after its first text and tag. */
  lemma TailFacts(r: seq<string>)
    requires |r| >= 3 && |r| % 2 == 1 && TagsAtOdd(r) && TextsClean(r)
    ensures var rest := r[2..];
      && |rest| % 2 == 1 && TagsAtOdd(rest) && TextsClean(rest) && IsTagShape(r[1])
      && Concat(r) == r[0] + r[1] + Concat(rest)
      && NoMatchIn(r[0], r[1] + Concat(rest))
  {
    var rest := r[2..];
    assert r == [r[0], r[1]] + rest;
    ConcatPair(r[0], r[1], rest);
    TailTags(r);
    TailClean(r);
    HeadClean(r);
  }

  lemma TailTags(r: seq<string>)
    requires |r| >= 2 && TagsAtOdd(r)
    ensures TagsAtOdd(r[2..]) && IsTagShape(r[1])
  {
    var rest := r[2..];
    forall k | 0 <= k < |rest| && k % 2 == 1
      ensures IsTagShape(rest[k])
    {
      assert rest[k] == r[k + 2];
    }
  }

  lemma TailClean(r: seq<string>)
    requires |r| >= 2 && TextsClean(r)
    ensures TextsClean(r[2..])
  {
    var rest := r[2..];
    forall k | 0 <= k < |rest| && k % 2 == 0
      ensures NoMatchIn(rest[k], Concat(rest[k + 1..]))
    {
      TextsCleanAt(r, k + 2);
      assert rest[k] == r[k + 2];
      assert rest[k + 1..] == r[k + 3..];
    }
  }

  lemma HeadClean(r: seq<string>)
    requires |r| >= 2 && TextsClean(r)
    ensures NoMatchIn(r[0], r[1] + Concat(r[2..]))
  {
    TextsCleanAt(r, 0);
    assert r[1..] == [r[1]] + r[2..];
    ConcatOne(r[1], r[2..]);
  }

  /** A tag-shaped token at position `m` is a match there, ending at the first `>` after `m`. */
  lemma TagAt(s: string, m: nat, t: string)
    requires IsTagShape(t) && m + |t| <= |s| && s[m..m + |t|] == t
    ensures MatchAt(s, m) && FindFrom(s, '>', m + 1) == m + |t| - 1
  {
    var j := FindFrom(s, '>', m + 1);
    assert s[m + |t| - 1] == t[|t| - 1];
    forall i | m + 1 <= i < m + |t| - 1
      ensures s[i] != '>'
    {
      assert s[i] == t[i - m];
    }
  }

  lemma TextsCleanCons(a: string, t: string, rest: seq<string>)
    requires NoMatchIn(a, t + Concat(rest)) && TextsClean(rest)
    ensures TextsClean([a, t] + rest)
  {
    var r := [a, t] + rest;
    forall k | 0 <= k < |r| && k % 2 == 0
      ensures NoMatchIn(r[k], Concat(r[k + 1..]))
    {
      CleanCons(a, t, rest, k);
    }
  }

  /** One text token of `[a, t] + rest`: the first by the hypothesis on `a`, the others as in
      `rest`. */
  lemma CleanCons(a: string, t: string, rest: seq<string>, k: nat)
    requires NoMatchIn(a, t + Concat(rest)) && TextsClean(rest)
    requires k < |rest| + 2 && k % 2 == 0
    ensures NoMatchIn(([a, t] + rest)[k], Concat(([a, t] + rest)[k + 1..]))
  {
    if k == 0 {
      CleanHead(a, t, rest);
    } else {
      CleanTail(a, t, rest, k);
    }
  }

  lemma CleanHead(a: string, t: string, rest: seq<string>)
    requires NoMatchIn(a, t + Concat(rest))
    ensures NoMatchIn(([a, t] + rest)[0], Concat(([a, t] + rest)[1..]))
  {
    var r := [a, t] + rest;
    assert r[1..] == [t] + rest;
    ConcatOne(t, rest);
    var c := Concat(r[1..]);
    assert c == t + Concat(rest);
    assert r[0] == a;
  }

  lemma CleanTail(a: string, t: string, rest: seq<string>, k: nat)
    requires TextsClean(rest) && 0 < k < |rest| + 2 && k % 2 == 0
    ensures NoMatchIn(([a, t] + rest)[k], Concat(([a, t] + rest)[k + 1..]))
  {
    var r := [a, t] + rest;
    EvenStep(k);
    TextsCleanAt(rest, k - 2);
    assert r[k] == rest[k - 2];
    assert r[k + 1..] == rest[k - 1..];
  }


  /** A positive even number is at least two, and two less is even. */
  lemma EvenStep(k: int)
    requires 0 < k && k % 2 == 0
    ensures 2 <= k && (k - 2) % 2 == 0
  {
  }

  lemma TextsCleanAt(r: seq<string>, k: nat)
    requires TextsClean(r) && k < |r| && k % 2 == 0
    ensures NoMatchIn(r[k], Concat(r[k + 1..]))
  {
  }

  lemma ConcatOne(t: string, rest: seq<string>)
    ensures Concat([t] + rest) == t + Concat(rest)
  {
    assert ([t] + rest)[1..] == rest;
  }


  lemma PairShapes(a: string, t: string, rest: seq<string>)
    requires IsTagShape(t) && TagsAtOdd(rest) && |rest| % 2 == 1
    ensures TagsAtOdd([a, t] + rest) && |[a, t] + rest| % 2 == 1
  {
    var r := [a, t] + rest;
    forall k | 0 <= k < |r| && k % 2 == 1
      ensures IsTagShape(r[k])
    {
      if k >= 2 {
        assert r[k] == rest[k - 2];
      }
    }
  }

  lemma MatchShape(s: string, m: int)
    requires MatchAt(s, m)
    ensures var j := FindFrom(s, '>', m + 1); m + 2 <= j < |s| && IsTagShape(s[m..j + 1])
  {
    var j := FindFrom(s, '>', m + 1);
    var t := s[m..j + 1];
    assert forall k :: 0 < k < |t| - 1 ==> t[k] == s[m + k];
  }

  lemma ConcatPair(a: string, b: string, rest: seq<string>)
    ensures Concat([a, b] + rest) == a + b + Concat(rest)
  {
    var r := [a, b] + rest;
    assert r[1..] == [b] + rest;
    assert r[1..][1..] == rest;
  }

  /** Starts with `<` and holds a `>`: every text the pattern matches, and every join of tokens
      that starts with one. */
  predicate OpensTag(x: string) {
    |x| > 0 && x[0] == '<' && FindFrom(x, '>', 0) >= 0
  }

  /** Whether a match starts inside `t` does not depend on what follows, as long as it opens a
      tag: the match needs a `<` in `t` not directly followed by `>`. */
  lemma MatchBeforeTag(t: string, a: string, p: nat)
    requires OpensTag(a) && p < |t|
    ensures MatchAt(t + a, p) <==> t[p] == '<' && FindFrom(t, '>', p + 1) != p + 1
  {
    var s := t + a;
    var f := FindFrom(t, '>', p + 1);
    var g := FindFrom(s, '>', p + 1);
    assert forall j :: 0 <= j < |t| ==> s[j] == t[j];
    if f >= 0 {
      assert s[f] == '>';
      assert g == f;
    } else {
      var e := FindFrom(a, '>', 0);
      assert s[|t| + e] == '>';
      assert s[|t|] == '<';
      assert g >= |t| + 1;
    }
  }

  /** A text free of matches before one tag stays free of them before any other. */
  lemma NoMatchBeforeTag(t: string, a: string, b: string)
    requires NoMatchIn(t, a) && OpensTag(a) && OpensTag(b)
    ensures NoMatchIn(t, b)
  {
    forall p | 0 <= p < |t|
      ensures !MatchAt(t + b, p)
    {
      MatchBeforeTag(t, a, p);
      MatchBeforeTag(t, b, p);
    }
  }

  /** Tokens that start with a tag join to a text that opens a tag. */
  lemma ConcatOpensTag(r: seq<string>)
    requires |r| > 0 && IsTagShape(r[0])
    ensures OpensTag(Concat(r))
  {
    var x := Concat(r);
    assert x == r[0] + Concat(r[1..]);
    assert x[|r[0]| - 1] == '>';
  }

  /** Replacing every tag of a split by some other tag, and keeping the texts, gives a list that
      splitting the joined result returns again. */
  lemma RetokenizeSwapTags(r: seq<string>, out: seq<string>)
    requires |r| % 2 == 1 && TagsAtOdd(r) && TextsClean(r)
    requires |out| == |r| && TagsAtOdd(out)
    requires forall k :: 0 <= k < |r| && k % 2 == 0 ==> out[k] == r[k]
    ensures Tokenize(Concat(out)) == out
  {
    forall k | 0 <= k < |out| && k % 2 == 0
      ensures NoMatchIn(out[k], Concat(out[k + 1..]))
    {
      SwapCleanAt(r, out, k);
    }
    TokenizeUnique(Concat(out), out);
  }

  /** One text token of the swapped list: the tag after it opens a tag, in both lists. */
  lemma SwapCleanAt(r: seq<string>, out: seq<string>, k: nat)
    requires TagsAtOdd(r) && TextsClean(r)
    requires |out| == |r| && TagsAtOdd(out)
    requires k < |r| && k % 2 == 0 && out[k] == r[k]
    ensures NoMatchIn(out[k], Concat(out[k + 1..]))
  {
    TextsCleanAt(r, k);
    if k + 1 < |out| {
      OddAfterEven(k);
      ConcatOpensTag(r[k + 1..]);
      ConcatOpensTag(out[k + 1..]);
      NoMatchBeforeTag(r[k], Concat(r[k + 1..]), Concat(out[k + 1..]));
    } else {
      assert r[k + 1..] == out[k + 1..];
    }
  }

  /** The number after an even one is odd. */
  lemma OddAfterEven(k: int)
    requires k % 2 == 0
    ensures (k + 1) % 2 == 1
  {
  }
}
