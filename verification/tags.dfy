/** Tag tables, `extract_tag_info`, `normalize_tag` and `normalize_html` of the HTML splitter. */
module Tags {
  import opened Strings
  import opened Tokenizer

  /** Tags Telegram accepts; only these take part in nesting. */
  const AllowedTags: set<string> := {"b", "i", "u", "s", "a", "code", "pre", "tg-spoiler"}

  /** Aliases rewritten to the Telegram names. */
  const Aliases: map<string, string> := map["strong" := "b", "em" := "i", "ins" := "u", "del" := "s", "strike" := "s"]

  /** Tags that never open a nesting level. */
  const VoidTags: set<string> := {"br"}

  /** The characters `token.strip("<> ")` removes. */
  const TagDelims := Chars({'<', '>', ' '})

  /** A lower-case name made of ASCII letters and `-`, as every table entry is. */
  predicate PlainName(w: string) {
    w != [] && forall i :: 0 <= i < |w| ==> ('a' <= w[i] <= 'z' || w[i] == '-')
  }

  lemma TablesArePlain()
    ensures forall n :: n in Aliases ==> PlainName(n) && PlainName(Aliases[n])
    ensures forall n :: n in Aliases ==> Aliases[n] !in Aliases && Aliases[n] in AllowedTags && Aliases[n] !in VoidTags
    ensures forall n :: n in AllowedTags ==> PlainName(n) && n !in Aliases && n !in VoidTags
  {
    forall n | n in Aliases
      ensures PlainName(n) && PlainName(Aliases[n])
      ensures Aliases[n] !in Aliases && Aliases[n] in AllowedTags && Aliases[n] !in VoidTags
    {
      AliasFacts(n);
    }
    forall n | n in AllowedTags
      ensures PlainName(n) && n !in Aliases && n !in VoidTags
    {
      AllowedFacts(n);
    }
  }

  /** An alias and its target are plain names, and the target is an allowed, non-void tag. */
  lemma AliasFacts(n: string)
    requires n in Aliases
    ensures PlainName(n) && PlainName(Aliases[n])
    ensures Aliases[n] !in Aliases && Aliases[n] in AllowedTags && Aliases[n] !in VoidTags
  {
  }

  /** An allowed tag is a plain name, not an alias and not void. */
  lemma AllowedFacts(n: string)
    requires n in AllowedTags
    ensures PlainName(n) && n !in Aliases && n !in VoidTags
  {
  }

  /** The token with `<`, `>` and spaces stripped from both ends, and one leading `/` removed;
      `closing` records whether that `/` was there. */
  datatype Cleaned = Cleaned(closing: bool, clean: string)

  function CleanTag(token: string): Cleaned
  {
    var s := Strip(token, TagDelims);
    if |s| > 0 && s[0] == '/' then Cleaned(true, s[1..]) else Cleaned(false, s)
  }

  /** `clean.split()[0]` exists: without it the source raises IndexError. */
  predicate HasName(token: string) {
    HasNonSpace(CleanTag(token).clean)
  }

  /** `clean.split()[0].lower()` */
  function RawName(token: string): string
    requires HasName(token)
  {
    Lower(FirstWord(CleanTag(token).clean))
  }

  /** Where the first word of the cleaned token ends. */
  function NameEnd(token: string): (k: nat)
    requires HasName(token)
    ensures k <= |CleanTag(token).clean|
  {
    var c := CleanTag(token).clean;
    LeadingSpaces(c) + |FirstWord(c)|
  }

  /** The attribute text: what follows the tag name inside the cleaned token. */
  function Attributes(token: string): string
    requires HasName(token)
  {
    CleanTag(token).clean[NameEnd(token)..]
  }

  /** `s.endswith("/")` */
  predicate EndsWithSlash(s: string) {
    |s| > 0 && s[|s| - 1] == '/'
  }

  /** What `extract_tag_info` returns. */
  datatype TagInfo = TagInfo(name: string, closing: bool, isVoid: bool)

  /** `extract_tag_info`: the alias-resolved lower-case name, whether the token closes, and whether
      it is void (a void name, or a cleaned text ending in `/`). */
  function ExtractTagInfo(token: string): (r: TagInfo)
    requires HasName(token)
    ensures r.name !in Aliases
    ensures r.closing <==> (var s := Strip(token, TagDelims); |s| > 0 && s[0] == '/')
    ensures RawName(token) in Aliases ==> r.name == Aliases[RawName(token)]
    ensures RawName(token) !in Aliases ==> r.name == RawName(token)
    ensures r.isVoid <==> r.name in VoidTags || EndsWithSlash(CleanTag(token).clean)
  {
    var c := CleanTag(token);
    var raw := RawName(token);
    var name := if raw in Aliases then (AliasFacts(raw); Aliases[raw]) else raw;
    TagInfo(name, c.closing, name in VoidTags || EndsWithSlash(c.clean))
  }

  /** `normalize_tag` exactly as the source writes it: the attribute text is taken as
      `clean[len(tag_name):]`, which assumes the name starts at the first character of `clean`. */
  function NormalizeTagAsWritten(token: string): string
    requires HasName(token)
  {
    var c := CleanTag(token);
    var name := RawName(token);
    if name in Aliases then
      if c.closing then "</" + Aliases[name] + ">"
      else "<" + Aliases[name] + c.clean[|name|..] + ">"
    else token
  }

  /** `normalize_tag` with the attribute text taken after the first word, wherever it starts. */
  function NormalizeTag(token: string): string
    requires HasName(token)
  {
    var c := CleanTag(token);
    var name := RawName(token);
    if name in Aliases then
      if c.closing then "</" + Aliases[name] + ">"
      else "<" + Aliases[name] + Attributes(token) + ">"
    else token
  }

  /** A token `startswith("<")`: the source treats it as a tag, whichever way it was split off. */
  predicate IsTagLike(t: string) {
    |t| > 0 && t[0] == '<'
  }

  /** No tag-like token would make the source raise. */
  predicate NamesOk(toks: seq<string>) {
    forall k :: 0 <= k < |toks| && IsTagLike(toks[k]) ==> HasName(toks[k])
  }

  /** One step of `normalize_html`: tag-like tokens are normalized, the rest kept. */
  function NormalizeToken(t: string): string
    requires IsTagLike(t) ==> HasName(t)
  {
    if IsTagLike(t) then NormalizeTag(t) else t
  }

  /** One step of `normalize_html` as the source writes it, with the source's `normalize_tag`. */
  function NormalizeTokenAsWritten(t: string): string
    requires IsTagLike(t) ==> HasName(t)
  {
    if IsTagLike(t) then NormalizeTagAsWritten(t) else t
  }

  function NormalizeAll(toks: seq<string>): (r: seq<string>)
    requires NamesOk(toks)
    ensures |r| == |toks|
    ensures forall k :: 0 <= k < |toks| ==> r[k] == NormalizeToken(toks[k])
  {
    seq(|toks|, k requires 0 <= k < |toks| && NamesOk(toks) => NormalizeToken(toks[k]))
  }

  /** A token with a tag name is not empty. */
  lemma HasNameNonEmpty(t: string)
    requires HasName(t)
    ensures t != []
  {
    EmptyHasNoName();
  }

  lemma EmptyHasNoName()
    ensures !HasName([])
  {
    assert Strip([], TagDelims) == [];
  }

  /** `normalize_html` with the corrected `normalize_tag`; the splitter is built on this one. */
  function NormalizeHtml(html: string): string
    requires NamesOk(Tokenize(html))
  {
    Concat(NormalizeAll(Tokenize(html)))
  }

  function NormalizeAllAsWritten(toks: seq<string>): (r: seq<string>)
    requires NamesOk(toks)
    ensures |r| == |toks|
    ensures forall k :: 0 <= k < |toks| ==> r[k] == NormalizeTokenAsWritten(toks[k])
  {
    seq(|toks|, k requires 0 <= k < |toks| && NamesOk(toks) => NormalizeTokenAsWritten(toks[k]))
  }

  /** `normalize_html` exactly as the source writes it, with the source's `normalize_tag`. */
  function NormalizeHtmlAsWritten(html: string): string
    requires NamesOk(Tokenize(html))
  {
    Concat(NormalizeAllAsWritten(Tokenize(html)))
  }
}
