/** Properties of tag normalization: aliases become Telegram names, attributes survive, the
    extracted tag information is unchanged, and normalizing twice is normalizing once. */
module TagProofs {
  import opened Strings
  import opened Tokenizer
  import opened Tags

  lemma LowerPlain(w: string)
    requires PlainName(w)
    ensures Lower(w) == w
  {
  }

  lemma PlainNotDelim(c: string)
    requires PlainName(c)
    ensures forall i :: 0 <= i < |c| ==> !Drops(TagDelims, c[i]) && c[i] != '/' && !IsSpace(c[i])
  {
    forall i | 0 <= i < |c|
      ensures !Drops(TagDelims, c[i]) && c[i] != '/' && !IsSpace(c[i])
    {
      assert 'a' <= c[i] <= 'z' || c[i] == '-';
    }
  }

  /** `strip("<> ")` of `<c rest>` gives back `c rest`. */
  lemma StripOpener(c: string, rest: string)
    requires PlainName(c)
    requires rest == [] || !Drops(TagDelims, rest[|rest| - 1])
    ensures Strip("<" + c + rest + ">", TagDelims) == c + rest
  {
    PlainNotDelim(c);
    var body := c + rest;
    assert "<" + c + rest + ">" == ['<'] + body + ['>'];
    assert body[0] == c[0];
    assert body[|body| - 1] == if rest == [] then c[|c| - 1] else rest[|rest| - 1];
    StripWrapped('<', body, '>', TagDelims);
  }

  /** `strip("<> ")` of `</c>` gives back `/c`. */
  lemma StripCloser(c: string)
    requires PlainName(c)
    ensures Strip("</" + c + ">", TagDelims) == "/" + c
  {
    PlainNotDelim(c);
    var body := "/" + c;
    assert "</" + c + ">" == ['<'] + body + ['>'];
    assert body[|body| - 1] == c[|c| - 1];
    StripWrapped('<', body, '>', TagDelims);
  }

  /** How the source reads back an opening tag it has just produced. */
  lemma CanonicalOpener(c: string, rest: string)
    requires PlainName(c)
    requires rest == [] || IsSpace(rest[0])
    requires rest == [] || !Drops(TagDelims, rest[|rest| - 1])
    ensures var t := "<" + c + rest + ">";
      && CleanTag(t) == Cleaned(false, c + rest)
      && HasName(t) && RawName(t) == c && Attributes(t) == rest
  {
    StripOpener(c, rest);
    PlainNotDelim(c);
    var t := "<" + c + rest + ">";
    assert (c + rest)[0] == c[0];
    assert CleanTag(t) == Cleaned(false, c + rest);
    FirstWordOf(c, rest);
    LowerPlain(c);
    assert LeadingSpaces(c + rest) == 0;
    assert (c + rest)[|c|..] == rest;
  }

  /** How the source reads back a closing tag `</c>`. */
  lemma CanonicalCloser(c: string)
    requires PlainName(c)
    ensures var t := "</" + c + ">";
      && CleanTag(t) == Cleaned(true, c)
      && HasName(t) && RawName(t) == c
      && ExtractTagInfo(t).closing
  {
    StripCloser(c);
    PlainNotDelim(c);
    var t := "</" + c + ">";
    assert ("/" + c)[1..] == c;
    assert CleanTag(t) == Cleaned(true, c);
    FirstWordOf(c, "");
    assert c + "" == c;
    LowerPlain(c);
  }

  /** The attribute text starts with whitespace (or is empty) and, for an opening tag, does not
      end with a character `strip("<> ")` would remove. */
  lemma AttributesShape(t: string)
    requires HasName(t) && !CleanTag(t).closing
    ensures var rest := Attributes(t);
      && (rest == [] || IsSpace(rest[0]))
      && (rest == [] || !Drops(TagDelims, rest[|rest| - 1]))
  {
    var clean := CleanTag(t).clean;
    StripEnds(t, TagDelims);
    assert clean == Strip(t, TagDelims);
  }

  /** normalize_tag is idempotent: its output is never rewritten again. */
  lemma NormalizeTagIdempotent(t: string)
    requires HasName(t)
    ensures HasName(NormalizeTag(t)) && NormalizeTag(NormalizeTag(t)) == NormalizeTag(t)
  {
    var name := RawName(t);
    if name in Aliases {
      AliasFacts(name);
      var canon := Aliases[name];
      if CleanTag(t).closing {
        CanonicalCloser(canon);
      } else {
        AttributesShape(t);
        CanonicalOpener(canon, Attributes(t));
      }
    }
  }

  /** Replacing a plain word `w` (ending `clean`'s prefix) by another plain word does not change
      whether the text ends in `/`. */
  lemma SlashKept(clean: string, k: nat, w: string, canon: string)
    requires k + |w| <= |clean| && w == clean[k..k + |w|] && w != []
    requires PlainName(Lower(w)) && PlainName(canon)
    ensures EndsWithSlash(canon + clean[k + |w|..]) == EndsWithSlash(clean)
  {
    var rest := clean[k + |w|..];
    var name := Lower(w);
    if rest == [] {
      assert clean[|clean| - 1] == w[|w| - 1];
      assert name[|name| - 1] == LowerChar(w[|w| - 1]);
      assert (canon + rest)[|canon + rest| - 1] == canon[|canon| - 1];
    } else {
      assert (canon + rest)[|canon + rest| - 1] == rest[|rest| - 1] == clean[|clean| - 1];
    }
  }

  /** The cleaned token is leading whitespace, the first word, and the attribute text. */
  lemma NameSplit(t: string)
    requires HasName(t)
    ensures var clean := CleanTag(t).clean; var k := LeadingSpaces(clean); var w := FirstWord(clean);
      && k + |w| <= |clean| && w == clean[k..k + |w|] && w != []
      && Lower(w) == RawName(t) && Attributes(t) == clean[k + |w|..]
  {
    WordAt(t);
    NameParts(t);
  }

  lemma WordAt(t: string)
    requires HasName(t)
    ensures var clean := CleanTag(t).clean; var k := LeadingSpaces(clean); var w := FirstWord(clean);
      k + |w| <= |clean| && w == clean[k..k + |w|] && w != []
  {
  }

  lemma NameParts(t: string)
    requires HasName(t)
    ensures var clean := CleanTag(t).clean;
      && Lower(FirstWord(clean)) == RawName(t)
      && Attributes(t) == clean[LeadingSpaces(clean) + |FirstWord(clean)|..]
  {
  }

  /** For an opening alias, the cleaned text ends in `/` exactly when its attribute text does. */
  lemma AliasOpenerSlash(t: string)
    requires HasName(t) && !CleanTag(t).closing && RawName(t) in Aliases
    ensures EndsWithSlash(Aliases[RawName(t)] + Attributes(t)) == EndsWithSlash(CleanTag(t).clean)
  {
    AliasFacts(RawName(t));
    OpenerSlash(t, Aliases[RawName(t)]);
  }

  /** Putting a plain word in place of a plain tag name keeps whether the cleaned text ends in `/`. */
  lemma OpenerSlash(t: string, canon: string)
    requires HasName(t) && PlainName(RawName(t)) && PlainName(canon)
    ensures EndsWithSlash(canon + Attributes(t)) == EndsWithSlash(CleanTag(t).clean)
  {
    var clean := CleanTag(t).clean;
    var k := LeadingSpaces(clean);
    var w := FirstWord(clean);
    NameSplit(t);
    SlashKept(clean, k, w, canon);
    assert canon + Attributes(t) == canon + clean[k + |w|..];
  }

  /** An opening alias keeps everything extract_tag_info reports, and its attribute text. */
  lemma AliasOpenerKeepsInfo(t: string)
    requires HasName(t) && !CleanTag(t).closing && RawName(t) in Aliases
    ensures var r := NormalizeTag(t);
      HasName(r) && ExtractTagInfo(r) == ExtractTagInfo(t) && Attributes(r) == Attributes(t)
  {
    AliasFacts(RawName(t));
    var canon := Aliases[RawName(t)];
    var rest := Attributes(t);
    AttributesShape(t);
    CanonicalOpener(canon, rest);
    AliasOpenerSlash(t);
    var r := "<" + canon + rest + ">";
    assert NormalizeTag(t) == r;
    assert ExtractTagInfo(r).name == canon;
  }

  /** Normalizing first does not change what extract_tag_info reports: the same resolved name,
      the same closing flag, and for an opening tag the same void flag; an opening tag also
      keeps its attribute text verbatim, and a closing alias becomes the bare `</name>`. */
  lemma NormalizeTagKeepsTagInfo(t: string)
    requires HasName(t)
    ensures var r := NormalizeTag(t);
      && HasName(r)
      && ExtractTagInfo(r).name == ExtractTagInfo(t).name
      && ExtractTagInfo(r).closing == ExtractTagInfo(t).closing
      && (!ExtractTagInfo(t).closing ==> ExtractTagInfo(r).isVoid == ExtractTagInfo(t).isVoid)
      && (!ExtractTagInfo(t).closing ==> Attributes(r) == Attributes(t))
      && (RawName(t) in Aliases && ExtractTagInfo(t).closing ==> r == "</" + ExtractTagInfo(t).name + ">")
  {
    var name := RawName(t);
    if name in Aliases {
      AliasFacts(name);
      if CleanTag(t).closing {
        CanonicalCloser(Aliases[name]);
      } else {
        AliasOpenerKeepsInfo(t);
      }
    }
  }

  /** A tag whose name is not an alias is returned unchanged. */
  lemma NormalizeTagOnlyAliases(t: string)
    requires HasName(t) && RawName(t) !in Aliases
    ensures NormalizeTag(t) == t
  {
  }

  /** normalize_html copies every token that does not start with `<` and normalizes each one
      that does, in order. */
  lemma NormalizeHtmlByToken(html: string)
    requires NamesOk(Tokenize(html))
    ensures var toks := Tokenize(html); var out := NormalizeAll(toks);
      && NormalizeHtml(html) == Concat(out)
      && |out| == |toks|
      && (forall k :: 0 <= k < |toks| && !IsTagLike(toks[k]) ==> out[k] == toks[k])
      && (forall k :: 0 <= k < |toks| && IsTagLike(toks[k]) ==> out[k] == NormalizeTag(toks[k]))
  {
  }

  /** Markup that holds no alias comes back unchanged. */
  lemma NormalizeHtmlWithoutAliases(html: string)
    requires NamesOk(Tokenize(html))
    requires forall k :: 0 <= k < |Tokenize(html)| && IsTagLike(Tokenize(html)[k]) ==> RawName(Tokenize(html)[k]) !in Aliases
    ensures NormalizeHtml(html) == html
  {
    var toks := Tokenize(html);
    var out := NormalizeAll(toks);
    TokenizeSound(html);
    assert out == toks;
  }

  /** Inside a tag, the cleaned text holds no `>`: strip removes the closing `>` and the tag has
      no other. */
  lemma CleanHasNoClose(t: string)
    requires IsTagShape(t) && HasName(t)
    ensures forall i :: 0 <= i < |CleanTag(t).clean| ==> CleanTag(t).clean[i] != '>'
  {
    var s := Strip(t, TagDelims);
    var a := StripIsSlice(t, TagDelims);
    StripEnds(t, TagDelims);
    assert s != [];
    assert s[|s| - 1] == t[a + |s| - 1];
    assert forall i :: 0 <= i < |s| ==> s[i] == t[a + i];
  }

  /** `<`, a non-empty text without `>`, then `>`: the shape of a tag. */
  lemma WrappedTag(x: string)
    requires x != [] && forall i :: 0 <= i < |x| ==> x[i] != '>'
    ensures IsTagShape("<" + x + ">")
  {
    var t := "<" + x + ">";
    assert forall m :: 0 < m < |t| - 1 ==> t[m] == x[m - 1];
  }

  /** A Telegram name followed by text without `>` does not hold `>`. */
  lemma NamedTagShape(target: string, x: string)
    requires PlainName(target) && forall i :: 0 <= i < |x| ==> x[i] != '>'
    ensures IsTagShape("<" + target + x + ">") && IsTagShape("</" + target + ">")
  {
    WrappedTag(target + x);
    assert "<" + (target + x) + ">" == "<" + target + x + ">";
    WrappedTag("/" + target);
    assert "<" + ("/" + target) + ">" == "</" + target + ">";
  }

  /** Both normalizers turn a tag into a tag. */
  lemma NormalizeTagShape(t: string)
    requires IsTagShape(t) && HasName(t)
    ensures IsTagShape(NormalizeTag(t)) && IsTagShape(NormalizeTagAsWritten(t))
  {
    var name := RawName(t);
    if name in Aliases {
      var c := CleanTag(t).clean;
      TablesArePlain();
      CleanHasNoClose(t);
      NamedTagShape(Aliases[name], Attributes(t));
      NamedTagShape(Aliases[name], c[|name|..]);
    }
  }

  /** Splitting the normalized markup again gives back the normalized tokens, as the second
      `re.split` in split_html_message relies on, provided normalization leaves every text token
      as it was. */
  lemma RetokenizeNormalized(html: string)
    requires NamesOk(Tokenize(html))
    requires forall k :: 0 <= k < |Tokenize(html)| && k % 2 == 0 ==>
      NormalizeToken(Tokenize(html)[k]) == Tokenize(html)[k]
    ensures Tokenize(NormalizeHtml(html)) == NormalizeAll(Tokenize(html))
  {
    var toks := Tokenize(html);
    var out := NormalizeAll(toks);
    TokenizeSound(html);
    forall k | 0 <= k < |out| && k % 2 == 1
      ensures IsTagShape(out[k])
    {
      NormalizeTagShape(toks[k]);
    }
    RetokenizeSwapTags(toks, out);
  }

  /** The same for the source's normalize_html. */
  lemma RetokenizeNormalizedAsWritten(html: string)
    requires NamesOk(Tokenize(html))
    requires forall k :: 0 <= k < |Tokenize(html)| && k % 2 == 0 ==>
      NormalizeTokenAsWritten(Tokenize(html)[k]) == Tokenize(html)[k]
    ensures Tokenize(NormalizeHtmlAsWritten(html)) == NormalizeAllAsWritten(Tokenize(html))
  {
    var toks := Tokenize(html);
    var out := NormalizeAllAsWritten(toks);
    TokenizeSound(html);
    forall k | 0 <= k < |out| && k % 2 == 1
      ensures IsTagShape(out[k])
    {
      NormalizeTagShape(toks[k]);
    }
    RetokenizeSwapTags(toks, out);
  }

  /** The proviso is needed: the text `<strong` holds no tag, yet both normalizers rewrite it to
      `<b>`, and splitting again reads that as a tag. */
  lemma RetokenizeTagLikeText()
    ensures Tokenize("<strong") == ["<strong"]
    ensures NamesOk(["<strong"])
    ensures NormalizeHtml("<strong") == "<b>" && NormalizeHtmlAsWritten("<strong") == "<b>"
    ensures Tokenize("<b>") == ["", "<b>", ""]
  {
    StrongIsText();
    StrongNormalizes();
    var toks := ["<strong"];
    assert NormalizeAll(toks) == ["<b>"];
    assert NormalizeAllAsWritten(toks) == ["<b>"];
    ConcatSingle(["<b>"]);
    BoldIsTag();
  }

  /** `<b>` splits into an empty text, the tag, and an empty text. */
  lemma BoldIsTag()
    ensures Tokenize("<b>") == ["", "<b>", ""]
  {
    var t := "<b>";
    assert IsTagShape(t);
    assert t == "" + t + "";
    assert NoMatchIn("", t + "");
    TokenizeNoMatch("");
    TokenizeTagFirst(t, "", t, "");
  }

  /** `<strong` without a `>` is one text token. */
  lemma StrongIsText()
    ensures Tokenize("<strong") == ["<strong"]
  {
    var s := "<strong";
    assert FindFrom(s, '>', 1) == -1;
    assert s + "" == s;
    TokenizeNoMatch(s);
  }

  /** Both normalizers read `<strong` as an opening `strong` and write `<b>`. */
  lemma StrongNormalizes()
    ensures HasName("<strong") && NormalizeTag("<strong") == "<b>" && NormalizeTagAsWritten("<strong") == "<b>"
  {
    TablesArePlain();
    UnclosedAlias("strong");
    assert "<" + "strong" == "<strong";
    assert "<" + Aliases["strong"] + ">" == "<b>";
  }

  /** How the source reads text that opens like a tag but never closes: `<c` is an opening `c`
      without attributes. */
  lemma UnclosedOpener(c: string)
    requires PlainName(c)
    ensures var t := "<" + c;
      && CleanTag(t) == Cleaned(false, c)
      && HasName(t) && RawName(t) == c && Attributes(t) == ""
  {
    PlainNotDelim(c);
    var t := "<" + c;
    TrimStartConcat("<", c, TagDelims);
    TrimStartStops(c, TagDelims);
    TrimEndStops(c, TagDelims);
    assert CleanTag(t) == Cleaned(false, c);
    FirstWordOf(c, "");
    assert c + "" == c;
    LowerPlain(c);
    assert LeadingSpaces(c) == 0;
  }

  /** Both normalizers turn an unclosed alias `<w` into the closed Telegram tag. */
  lemma UnclosedAlias(w: string)
    requires w in Aliases && PlainName(w)
    ensures HasName("<" + w)
    ensures NormalizeTag("<" + w) == "<" + Aliases[w] + ">"
    ensures NormalizeTagAsWritten("<" + w) == "<" + Aliases[w] + ">"
  {
    UnclosedOpener(w);
    CorrectedOpener("<" + w, w);
    AsWrittenOpener("<" + w, w, w);
    assert w[|w|..] == "";
  }

  /** A name spelled with the Kelvin sign lower-cases to an alias: `<stri` U+212A `e>` is read
      as `strike`, so it becomes `<s>` and is pushed as `s`. */
  lemma KelvinAlias()
    ensures var t := "<stri" + [Kelvin] + "e>";
      && HasName(t) && RawName(t) == "strike"
      && NormalizeTag(t) == "<s>" && NormalizeTagAsWritten(t) == "<s>"
      && ExtractTagInfo(t) == TagInfo("s", false, false)
  {
    var t := "<stri" + [Kelvin] + "e>";
    var w := "stri" + [Kelvin] + "e";
    KelvinClean();
    KelvinWord();
    assert CleanTag(t).clean == w;
    assert RawName(t) == Lower(FirstWord(w));
    assert NameEnd(t) == |w|;
    assert Attributes(t) == "";
    assert w[|"strike"|..] == "";
  }

  /** Cleaning `<stri` U+212A `e>` leaves the name, as an opening tag. */
  lemma KelvinClean()
    ensures CleanTag("<stri" + [Kelvin] + "e>") == Cleaned(false, "stri" + [Kelvin] + "e")
  {
    var w := "stri" + [Kelvin] + "e";
    forall i | 0 <= i < |w|
      ensures !Drops(TagDelims, w[i])
    {
    }
    StripWrapped('<', w, '>', TagDelims);
    assert ['<'] + w + ['>'] == "<stri" + [Kelvin] + "e>";
  }

  /** `stri` U+212A `e` is one word, and it lower-cases to `strike`. */
  lemma KelvinWord()
    ensures var w := "stri" + [Kelvin] + "e";
      HasNonSpace(w) && FirstWord(w) == w && Lower(w) == "strike"
  {
    var w := "stri" + [Kelvin] + "e";
    forall i | 0 <= i < |w|
      ensures !IsSpace(w[i])
    {
    }
    FirstWordOf(w, "");
    assert w + "" == w;
    assert Lower(w) == "strike";
  }


  /** The source's normalize_html copies every token that does not start with `<` and applies the
      source's normalize_tag to each one that does, in order. */
  lemma NormalizeHtmlAsWrittenByToken(html: string)
    requires NamesOk(Tokenize(html))
    ensures var toks := Tokenize(html); var out := NormalizeAllAsWritten(toks);
      && NormalizeHtmlAsWritten(html) == Concat(out)
      && |out| == |toks|
      && (forall k :: 0 <= k < |toks| && !IsTagLike(toks[k]) ==> out[k] == toks[k])
      && (forall k :: 0 <= k < |toks| && IsTagLike(toks[k]) ==> out[k] == NormalizeTagAsWritten(toks[k]))
  {
  }

  /** On an opening alias the source's normalize_tag and the corrected one agree exactly when no
      whitespace precedes the name in the cleaned token. */
  lemma AsWrittenAgreesIff(t: string)
    requires HasName(t) && !CleanTag(t).closing && RawName(t) in Aliases
    ensures NormalizeTagAsWritten(t) == NormalizeTag(t) <==> LeadingSpaces(CleanTag(t).clean) == 0
  {
    var c := CleanTag(t).clean;
    var w := FirstWord(c);
    AsWrittenShape(t);
    if LeadingSpaces(c) != 0 {
      assert |c[|w|..]| != |c[LeadingSpaces(c) + |w|..]|;
    }
  }

  /** Both normalizers rename an opening alias; they differ only in where the attribute text
      starts. */
  lemma AsWrittenShape(t: string)
    requires HasName(t) && !CleanTag(t).closing && RawName(t) in Aliases
    ensures var c := CleanTag(t).clean; var w := FirstWord(c); var x := Aliases[RawName(t)];
      && LeadingSpaces(c) + |w| <= |c|
      && NormalizeTagAsWritten(t) == "<" + x + c[|w|..] + ">"
      && NormalizeTag(t) == "<" + x + c[LeadingSpaces(c) + |w|..] + ">"
  {
    AsWrittenRenames(t);
    CorrectedRenames(t);
  }

  lemma AsWrittenRenames(t: string)
    requires HasName(t) && !CleanTag(t).closing && RawName(t) in Aliases
    ensures var c := CleanTag(t).clean;
      NormalizeTagAsWritten(t) == "<" + Aliases[RawName(t)] + c[|FirstWord(c)|..] + ">"
  {
    var c := CleanTag(t).clean;
    assert |RawName(t)| == |FirstWord(c)|;
  }

  lemma CorrectedRenames(t: string)
    requires HasName(t) && !CleanTag(t).closing && RawName(t) in Aliases
    ensures var c := CleanTag(t).clean;
      && LeadingSpaces(c) + |FirstWord(c)| <= |c|
      && NormalizeTag(t) == "<" + Aliases[RawName(t)] + c[LeadingSpaces(c) + |FirstWord(c)|..] + ">"
  {
    var c := CleanTag(t).clean;
    CorrectedOpener(t, RawName(t));
    assert NameEnd(t) == LeadingSpaces(c) + |FirstWord(c)|;
  }

  /** Without whitespace before the name, the source's normalize_tag is the corrected one. */
  lemma AsWrittenAgrees(t: string)
    requires HasName(t) && LeadingSpaces(CleanTag(t).clean) == 0
    ensures NormalizeTagAsWritten(t) == NormalizeTag(t)
  {
    if !CleanTag(t).closing && RawName(t) in Aliases {
      AsWrittenAgreesIff(t);
    }
  }

  /** A closing tag or a tag that is no alias is treated alike by both normalizers, whatever
      whitespace precedes its name. */
  lemma AsWrittenAgreesOffAlias(t: string)
    requires HasName(t) && (CleanTag(t).closing || RawName(t) !in Aliases)
    ensures NormalizeTagAsWritten(t) == NormalizeTag(t)
  {
  }

  /** A tag token the normalizers rename to an opening tag. */
  predicate OpensAlias(t: string) {
    IsTagLike(t) && HasName(t) && !CleanTag(t).closing && RawName(t) in Aliases
  }

  /** When no opening alias tag has whitespace before its name, the source's normalize_html and
      the corrected one produce the same markup. */
  lemma NormalizeHtmlAgrees(html: string)
    requires NamesOk(Tokenize(html))
    requires forall k :: 0 <= k < |Tokenize(html)| && OpensAlias(Tokenize(html)[k]) ==>
               LeadingSpaces(CleanTag(Tokenize(html)[k]).clean) == 0
    ensures NormalizeHtmlAsWritten(html) == NormalizeHtml(html)
  {
    var toks := Tokenize(html);
    var a := NormalizeAllAsWritten(toks);
    var b := NormalizeAll(toks);
    forall k | 0 <= k < |toks|
      ensures a[k] == b[k]
    {
      if IsTagLike(toks[k]) {
        if !CleanTag(toks[k]).closing && RawName(toks[k]) in Aliases {
          AsWrittenAgrees(toks[k]);
        } else {
          AsWrittenAgreesOffAlias(toks[k]);
        }
      }
    }
    assert a == b;
  }
  // The leading-whitespace defect of the source's normalize_tag: the attribute text is cut at
  // len(tag_name) from the start of the cleaned token, not from the end of the name.

  function Tabs(n: nat): (ws: string)
    ensures |ws| == n && forall i :: 0 <= i < n ==> ws[i] == '\t'
  {
    seq(n, _ => '\t')
  }

  lemma LeadingTabs(n: nat, w: string)
    requires PlainName(w)
    ensures LeadingSpaces(Tabs(n) + w) == n
    decreases n
  {
    PlainNotDelim(w);
    if n > 0 {
      assert (Tabs(n) + w)[1..] == Tabs(n - 1) + w;
      LeadingTabs(n - 1, w);
    } else {
      assert Tabs(n) + w == w;
    }
  }

  lemma StripTabbed(n: nat, w: string)
    requires n > 0 && PlainName(w)
    ensures Strip("<" + Tabs(n) + w + ">", TagDelims) == Tabs(n) + w
  {
    PlainNotDelim(w);
    var body := Tabs(n) + w;
    assert "<" + Tabs(n) + w + ">" == ['<'] + body + ['>'];
    assert body[0] == '\t';
    assert body[|body| - 1] == w[|w| - 1];
    StripWrapped('<', body, '>', TagDelims);
  }

  lemma FirstWordTabbed(n: nat, w: string)
    requires PlainName(w)
    ensures HasNonSpace(Tabs(n) + w) && FirstWord(Tabs(n) + w) == w && LeadingSpaces(Tabs(n) + w) == n
  {
    PlainNotDelim(w);
    var clean := Tabs(n) + w;
    LeadingTabs(n, w);
    assert !IsSpace(clean[n]);
    assert clean[n..] == w + "";
    WordLengthOf(w, "");
  }

  lemma TabbedOpener(n: nat, w: string)
    requires n > 0 && PlainName(w)
    ensures var t := "<" + Tabs(n) + w + ">";
      && CleanTag(t) == Cleaned(false, Tabs(n) + w)
      && HasName(t) && RawName(t) == w && Attributes(t) == ""
  {
    StripTabbed(n, w);
    FirstWordTabbed(n, w);
    LowerPlain(w);
  }

  /** With `n` tabs before an alias name, the source keeps the name's tail as "attributes",
      while the corrected normalizer produces the bare Telegram tag. */
  lemma TabbedAlias(n: nat, w: string)
    requires n > 0 && w in Aliases
    ensures var t := "<" + Tabs(n) + w + ">";
      && HasName(t)
      && NormalizeTagAsWritten(t) == "<" + Aliases[w] + (Tabs(n) + w)[|w|..] + ">"
      && NormalizeTag(t) == "<" + Aliases[w] + ">"
  {
    TabbedAsWritten(n, w);
    TabbedCorrected(n, w);
  }

  lemma TabbedAsWritten(n: nat, w: string)
    requires n > 0 && w in Aliases
    ensures var t := "<" + Tabs(n) + w + ">";
      HasName(t) && NormalizeTagAsWritten(t) == "<" + Aliases[w] + (Tabs(n) + w)[|w|..] + ">"
  {
    AliasFacts(w);
    TabbedOpener(n, w);
    AsWrittenOpener("<" + Tabs(n) + w + ">", Tabs(n) + w, w);
  }

  lemma TabbedCorrected(n: nat, w: string)
    requires n > 0 && w in Aliases
    ensures var t := "<" + Tabs(n) + w + ">"; HasName(t) && NormalizeTag(t) == "<" + Aliases[w] + ">"
  {
    var t := "<" + Tabs(n) + w + ">";
    AliasFacts(w);
    TabbedOpener(n, w);
    CorrectedOpener(t, w);
    var a := Attributes(t);
    assert a == "";
    assert "<" + Aliases[w] + a + ">" == "<" + Aliases[w] + ">";
  }

  /** What the corrected normalize_tag does to an opening alias, in terms of its attribute text. */
  lemma CorrectedOpener(t: string, w: string)
    requires HasName(t) && !CleanTag(t).closing && RawName(t) == w && w in Aliases
    ensures NormalizeTag(t) == "<" + Aliases[w] + Attributes(t) + ">"
  {
  }

  /** What the source's normalize_tag does to an opening alias, in terms of its cleaned text. */
  lemma AsWrittenOpener(t: string, c: string, w: string)
    requires HasName(t) && CleanTag(t) == Cleaned(false, c) && RawName(t) == w && w in Aliases
    ensures NormalizeTagAsWritten(t) == "<" + Aliases[w] + c[|w|..] + ">"
  {
  }

  /** How the source reads back a bare opening tag `<w>`. */
  lemma BareOpener(w: string)
    requires PlainName(w)
    ensures var t := "<" + w + ">"; HasName(t) && CleanTag(t) == Cleaned(false, w) && RawName(t) == w
  {
    CanonicalOpener(w, "");
    assert "<" + w + "" + ">" == "<" + w + ">";
    assert w + "" == w;
  }

  /** Without leading whitespace the source's normalize_tag renames a bare alias correctly. */
  lemma AsWrittenBareAlias(w: string)
    requires w in Aliases && PlainName(w)
    ensures HasName("<" + w + ">") && NormalizeTagAsWritten("<" + w + ">") == "<" + Aliases[w] + ">"
  {
    BareOpener(w);
    AsWrittenOpener("<" + w + ">", w, w);
    assert w[|w|..] == "";
  }

  lemma AsWrittenTabbedTail(w: string)
    requires w in Aliases && |w| >= 2
    ensures var t := "<" + Tabs(|w| - 1) + w + ">";
      HasName(t) && NormalizeTagAsWritten(t) == "<" + Aliases[w] + w[1..] + ">"
  {
    var n := |w| - 1;
    TabbedAsWritten(n, w);
    var tail := (Tabs(n) + w)[|w|..];
    TabsTail(n, w);
    assert "<" + Aliases[w] + tail + ">" == "<" + Aliases[w] + w[1..] + ">";
  }

  /** Cutting `|w|` characters off `n` tabs and `w`, with `n + 1 == |w|`, leaves `w[1..]`. */
  lemma TabsTail(n: nat, w: string)
    requires n + 1 == |w|
    ensures (Tabs(n) + w)[|w|..] == w[1..]
  {
    var s := Tabs(n) + w;
    forall i | 0 <= i < |w| - 1
      ensures s[|w|..][i] == w[1..][i]
    {
      assert s[|w| + i] == w[i + 1];
    }
  }

  /** With `|w| - 1` tabs before an alias `w`, the source keeps the tail `w[1..]` of the name as
      if it were attribute text, so its output differs from the corrected one. With `w == "em"`
      the source writes `<im>`, a tag Telegram does not know. */
  lemma AsWrittenKeepsNameTail(w: string)
    requires w in Aliases && |w| >= 2
    ensures var t := "<" + Tabs(|w| - 1) + w + ">";
      && HasName(t)
      && NormalizeTagAsWritten(t) == "<" + Aliases[w] + w[1..] + ">"
      && NormalizeTag(t) == "<" + Aliases[w] + ">"
      && NormalizeTagAsWritten(t) != NormalizeTag(t)
  {
    var t := "<" + Tabs(|w| - 1) + w + ">";
    var asWritten := "<" + Aliases[w] + w[1..] + ">";
    var corrected := "<" + Aliases[w] + ">";
    assert HasName(t) && NormalizeTagAsWritten(t) == asWritten by {
      AsWrittenTabbedTail(w);
    }
    assert NormalizeTag(t) == corrected by {
      TabbedAlias(|w| - 1, w);
    }
    assert |asWritten| > |corrected|;
  }

  lemma FirstLetterSplit(w: string, c: string)
    requires |w| >= 1 && c == [w[0]]
    ensures "<" + c + w[1..] + ">" == "<" + w + ">"
  {
    assert c + w[1..] == w;
    assert "<" + c + w[1..] + ">" == "<" + (c + w[1..]) + ">";
  }

  /** When the alias's Telegram name followed by the alias's own tail spells the alias again
      (`"s" + "trike" == "strike"`: the Telegram name is the alias's first letter), the source's
      output is itself an alias and a second normalization rewrites it: the source's normalize_tag is not idempotent. */
  lemma AsWrittenNotIdempotent(w: string)
    requires w in Aliases && PlainName(w) && |w| >= 2 && Aliases[w] == [w[0]]
    ensures var t := "<" + Tabs(|w| - 1) + w + ">";
      && HasName(t) && NormalizeTagAsWritten(t) == "<" + w + ">"
      && HasName("<" + w + ">") && NormalizeTagAsWritten("<" + w + ">") == "<" + Aliases[w] + ">"
      && NormalizeTagAsWritten(NormalizeTagAsWritten(t)) != NormalizeTagAsWritten(t)
  {
    var t := "<" + Tabs(|w| - 1) + w + ">";
    var once := "<" + w + ">";
    assert HasName(t) && NormalizeTagAsWritten(t) == once by {
      AsWrittenTabbedTail(w);
      FirstLetterSplit(w, Aliases[w]);
    }
    var twice := "<" + Aliases[w] + ">";
    assert HasName(once) && NormalizeTagAsWritten(once) == twice by {
      AsWrittenBareAlias(w);
    }
    assert |twice| < |once|;
  }

  /** The concrete inputs: `<\tem>` becomes `<im>`, and `<\t\t\t\t\tstrike>` becomes `<strike>` and
      then `<s>`. */
  lemma CounterexampleWords()
    ensures "em" in Aliases && |"em"| == 2 && Aliases["em"] + "em"[1..] !in AllowedTags
    ensures "strike" in Aliases && PlainName("strike") && |"strike"| == 6
    ensures Aliases["strike"] == ["strike"[0]]
    ensures HasName("<\tem>") && NormalizeTagAsWritten("<\tem>") == "<im>"
  {
    EmTail();
    StrikeFirstLetter();
    TabbedEm();
  }

  /** `em` keeps its second letter after a tab, and `im` is no Telegram tag. */
  lemma EmTail()
    ensures "em" in Aliases && |"em"| == 2 && Aliases["em"] + "em"[1..] !in AllowedTags
  {
    assert Aliases["em"] + "em"[1..] == "im";
  }

  /** `strike` is a plain alias whose target is its own first letter. */
  lemma StrikeFirstLetter()
    ensures "strike" in Aliases && PlainName("strike") && |"strike"| == 6
    ensures Aliases["strike"] == ["strike"[0]]
  {
  }

  /** `<\tem>` is the one-tab case of AsWrittenKeepsNameTail. */
  lemma TabbedEm()
    ensures HasName("<\tem>") && NormalizeTagAsWritten("<\tem>") == "<im>"
  {
    AsWrittenKeepsNameTail("em");
    assert "<" + Tabs(|"em"| - 1) + "em" + ">" == "<\tem>";
    assert "<" + Aliases["em"] + "em"[1..] + ">" == "<im>";
  }
}
