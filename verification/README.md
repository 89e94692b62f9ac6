# Telegram HTML splitter and media naming, in Dafny

This project models the part of a Telegram bot that prepares its replies and names the files it
saves:

- `html_splitter.py` rewrites HTML tags into the ones Telegram accepts (`strong`→`b`, `em`→`i`,
  `ins`→`u`, `del`/`strike`→`s`). It then cuts a message longer than `max_chars` (4096 by default)
  into chunks. Each chunk closes the tags still open at its end. The next chunk reopens them with
  their original attribute text.
- From `bot.py`, only the two media helpers are modelled. `get_extension_from_mime` picks a file
  extension from a MIME type. `get_media_path` builds the path a download is saved under.

Module layout, in the order of the source:

- `Strings` models the Python string operations the code relies on: `strip(chars)`,
  `split()[0]`, `lower()`, `rfind`, `in`, and slicing with a possibly negative bound, plus
  `find`, which the scanner standing in for `re.split` uses.
- `Tokenizer` models `re.split(r"(<[^>]+>)", s)` as a scanner. It yields text and tag tokens
  alternately.
- `Tags` holds the tag tables and `extract_tag_info`. It defines `normalize_tag` and
  `normalize_html` twice: as the source writes them, and corrected (see Findings). The splitter
  is built on the corrected pair.
- `TagStack` models the open-tag stack. It covers `get_opening_str`, `get_closing_str`, the
  "close the nearest matching tag" loop, and a replay of tag pieces used to state balance.
- `Splitter` models `split_html_message` as a fold over the tokens. It has one function per loop
  of the source.
- `SplitterProofs` holds the splitter's invariant and what follows from it.
- `TagProofs` holds the facts about `normalize_tag`, including the defect reported below.
- `Media` models `get_extension_from_mime` and `get_media_path`.

A call of `split_html_message` can end in one of three ways, modelled by `Outcome`:

- `Returns`: it returns normally.
- `Raises`: `IndexError`, from a tag token such as `< >` whose cleaned text has no first word.
- `Hangs`: the `while text:` loop never ends. This happens when a fresh chunk has no room left
  and the text cannot be cut.

## Model

| member | source | states |
|---|---|---|
| Strings.StripEnds | html_splitter.py:73 | the result of `strip(chars)` neither starts nor ends with a stripped character |
| Strings.StripIsSlice | html_splitter.py:73 | `strip` keeps one contiguous run of its input, and everything it removes before and after that run is a stripped character |
| Strings.FirstWord | html_splitter.py:80 | `split()[0]` is the maximal run of non-whitespace that follows the leading whitespace |
| Strings.FirstWordOf | html_splitter.py:80 | a word followed by nothing or by whitespace is the first word of the text |
| Strings.RFind | html_splitter.py:228-232 | `rfind` is -1 exactly when the character is absent; otherwise it is its last position |
| Strings.PrefixSliceLength | html_splitter.py:225 | `text[:n]` is a prefix of `text`: its first `n` characters, or all of it when shorter; for a negative `n`, all but the last `-n` characters, or nothing |
| Strings.Contains | bot.py:259 | the substring test holds exactly when the needle occurs at some position |
| Tokenizer.FindTag | html_splitter.py:125 | the scanner finds the leftmost match of `<[^>]+>` at or after a position, or reports there is none |
| Tokenizer.TokenizeSound | html_splitter.py:125 | the tokens join back to the input; there is an odd number of them; every odd token is a whole `<…>` match; no match starts inside any text token |
| Tokenizer.TokenizeUnique | html_splitter.py:125 | any token list with those four properties is the tokenizer's result, so they determine the split completely |
| Tags.TablesArePlain | html_splitter.py:25-47 | aliases map to allowed, non-void tags that are not aliases themselves; allowed names are not aliases and not void |
| Tags.ExtractTagInfo | html_splitter.py:96-111 | the reported name is never an alias; it is the alias target or the lower-cased first word; the closing flag holds exactly when the cleaned text starts with `/`; the void flag holds exactly when the name is void or the cleaned text ends in `/` |
| TagProofs.CanonicalOpener | html_splitter.py:73-80 | the tag `<name attrs>` the normalizer builds is read back with that name and those attributes |
| TagProofs.CanonicalCloser | html_splitter.py:73-80 | `</name>` is read back as a closing tag with that name |
| TagProofs.NormalizeTagIdempotent | html_splitter.py:60-93 | normalizing a tag twice gives the same result as once |
| TagProofs.AliasOpenerKeepsInfo | html_splitter.py:83-91 | renaming an opening alias keeps what `extract_tag_info` reports and keeps the attribute text |
| TagProofs.NormalizeTagKeepsTagInfo | html_splitter.py:60-111 | normalization keeps the resolved name and the closing flag; an opening tag also keeps its void flag and attributes; a closing alias becomes `</name>` |
| TagProofs.NormalizeTagOnlyAliases | html_splitter.py:83-93 | a tag whose name is not an alias is returned unchanged |
| TagProofs.NormalizeHtmlByToken | html_splitter.py:114-134 | `normalize_html` copies text tokens, normalizes tag tokens, in order, and joins them |
| TagProofs.NormalizeHtmlWithoutAliases | html_splitter.py:114-134 | markup with no alias tag comes back unchanged |
| TagProofs.NormalizeHtmlAsWrittenByToken | html_splitter.py:114-134 | the source's `normalize_html` copies text tokens and applies the source's `normalize_tag` to tag tokens, in order, and joins them |
| TagProofs.NormalizeTagShape | html_splitter.py:73-93 | both `normalize_tag` versions turn a whole `<…>` match into a whole `<…>` match |
| Tokenizer.RetokenizeSwapTags | html_splitter.py:125 | replacing every tag of a split by some other tag, and keeping the text tokens, gives a list that splitting the joined result returns again |
| TagProofs.RetokenizeNormalized | html_splitter.py:158-164 | when normalization leaves every text token as it was, splitting the normalized markup again gives exactly the normalized tokens |
| TagProofs.RetokenizeNormalizedAsWritten | html_splitter.py:158-164 | the same for the source's `normalize_html` |
| TagProofs.RetokenizeTagLikeText | html_splitter.py:124-134 | the proviso is needed: the text `<strong` holds no tag, yet both versions of `normalize_html` rewrite it to `<b>`, which splitting again reads as a tag |
| TagProofs.AsWrittenAgreesIff | html_splitter.py:83-91 | on an opening alias, the source's `normalize_tag` agrees with the corrected one exactly when no whitespace precedes the name |
| TagProofs.AsWrittenAgrees | html_splitter.py:60-93 | on any tag without whitespace before its name, the source's `normalize_tag` is the corrected one |
| TagProofs.AsWrittenAgreesOffAlias | html_splitter.py:73-93 | a closing tag or a tag that is no alias is treated alike by the source's `normalize_tag` and the corrected one, whatever whitespace precedes its name |
| TagProofs.NormalizeHtmlAgrees | html_splitter.py:114-134 | when no opening alias tag has whitespace before its name, the source's `normalize_html` gives the same markup as the corrected one |
| TagProofs.KelvinAlias | html_splitter.py:80-91 | `lower()` maps the Kelvin sign to `k`, so `<stri` U+212A `e>` is read as `strike`, becomes `<s>` and is pushed as `s` |
| TagProofs.AsWrittenBareAlias | html_splitter.py:86-91 | without leading whitespace the source's slice renames a bare alias correctly |
| TagProofs.TabbedAlias | html_splitter.py:73-91 | with tabs before an alias name, the source keeps part of the tabs and name as attributes; the corrected normalizer gives the bare Telegram tag |
| TagProofs.AsWrittenKeepsNameTail | html_splitter.py:86 | for `\|w\|-1` tabs before alias `w`, the source produces `<` + target + `w[1..]` + `>`, which differs from the corrected result |
| TagProofs.AsWrittenNotIdempotent | html_splitter.py:86 | for an alias whose target is its first letter, the source's output is itself an alias, so normalizing it again changes it |
| TagProofs.CounterexampleWords | html_splitter.py:38-44 | `em` and `strike` meet the conditions of the two lemmas above; `<\tem>` gives `<im>`, a tag Telegram does not know |
| TagStack.OpeningPush | html_splitter.py:55-57 | pushing an entry appends its opening tag after the others |
| TagStack.ClosingPush | html_splitter.py:50-52 | pushing an entry puts its closing tag before the others |
| TagStack.RemoveNearest | html_splitter.py:196-203 | the innermost entry with the name is removed and the others are kept in order; with no such entry the stack is unchanged |
| TagStack.PopNearest | html_splitter.py:200-203 | the source's scan from the top pops exactly the innermost matching entry, or nothing, which is the stack update `RemoveNearest` |
| TagStack.ApplyTagAllowed | html_splitter.py:196-206 | the stack only ever holds allowed tags |
| TagStack.ReplayOpeners | html_splitter.py:204-206 | every stack entry keeps the opening tag that pushed it, which `extract_tag_info` reads as an opening, non-void tag of the entry's name |
| TagStack.RawOpenPieces | html_splitter.py:55-57 | the reopening pieces spell `get_opening_str` |
| TagStack.RawClosePieces | html_splitter.py:50-52 | the closing pieces spell `get_closing_str` |
| TagStack.Balanced | html_splitter.py:187-206 | reopened tags, then a chunk's body, then the closing tags leave no tag open |
| TagStack.BalancedFaithful | html_splitter.py:179-206 | every tag of a whole chunk carries what `extract_tag_info` reports for it |
| Splitter.CutIndex | html_splitter.py:225-249 | a positive cut point lies inside the text |
| Splitter.CutIndexPolicy | html_splitter.py:225-249 | the cut follows the last newline of `text[:avail]`, else its last space; with neither, it is -1 when under ten characters remain in a chunk holding more than its reopened tags, else `avail` |
| Splitter.TextStep | html_splitter.py:212-260 | a pass keeps the stack; what is left of the text is a suffix of it; a closed chunk restarts from its reopened tags; a stuck pass faces a chunk holding only its reopened tags, and a pass that consumes nothing closes a chunk holding more |
| Splitter.EmitText | html_splitter.py:212-260 | the text loop never raises and never changes the stack |
| Splitter.Kept | html_splitter.py:267 | the filter keeps only non-empty chunks, and no more chunks than it was given |
| Splitter.KeptOne | html_splitter.py:267 | a single chunk survives the filter exactly when it renders to a non-empty string |
| Splitter.KeptAppend | html_splitter.py:267 | the filter works chunk by chunk and keeps the order of the chunks it keeps |
| SplitterProofs.KeptSkeleton | html_splitter.py:267 | a chunk that closes a tag survives, even with nothing between its reopened and closing tags |
| Splitter.SplitParts | html_splitter.py:164-267 | every chunk of the slow path is non-empty |
| SplitterProofs.EmitTagKeeps | html_splitter.py:177-208 | a tag token keeps the invariant, applies the stack update and consumes exactly the token |
| SplitterProofs.TextStepKeeps | html_splitter.py:212-260 | one pass of the text loop keeps the invariant and consumes from the front of the text exactly what it adds |
| SplitterProofs.EmitTextKeeps | html_splitter.py:211-260 | the text loop keeps the invariant and the stack and consumes exactly the text |
| SplitterProofs.ProcessTokensKeeps | html_splitter.py:172-260 | the token loop keeps the invariant and consumes exactly the tokens |
| SplitterProofs.FinishKeeps | html_splitter.py:262-264 | adding the last chunk keeps the chain of chunks and the content |
| SplitterProofs.KeptKeeps | html_splitter.py:267 | dropping empty chunks keeps the chain of chunks and the content |
| SplitterProofs.PartBalanced | html_splitter.py:185-264 | each chunk is balanced, and its pieces spell the chunk string |
| SplitterProofs.SplitPartsSound | html_splitter.py:164-267 | the chunk bodies join back to the normalized markup; the first chunk reopens nothing; each chunk reopens what the previous one closed; every chunk is non-empty and balanced |
| SplitterProofs.SplitHtmlMessageCases | html_splitter.py:137-267 | a nameless tag raises; markup within the limit comes back as one chunk; otherwise the chunks are the rendered slow-path chunks, none empty |
| SplitterProofs.TextStepFits | html_splitter.py:215-257 | a chunk closed with room left fits in `max_chars`, whether it took part of the text or gave up on the cut; so does a chunk completed by the whole text |
| SplitterProofs.TagPushOvershoot | html_splitter.py:182-206 | the tag check measures the closing tags before the push, so a pushed tag takes the chunk one closing tag past what was checked |
| SplitterProofs.TextStepMoves | html_splitter.py:212-260 | while the open tags leave room for one character, a pass of the text loop always makes progress |
| SplitterProofs.EmitTextReturns | html_splitter.py:212-260 | while the open tags leave room for one character, the text loop ends |
| SplitterProofs.EmitTextHangs | html_splitter.py:212-260 | a fresh chunk whose tags fill the limit, facing text with no newline or space, makes the loop spin forever |
| SplitterProofs.ProcessTokensReturns | html_splitter.py:172-260 | with room for text at every text token, the token loop returns |
| Media.FirstKeyFrom | bot.py:258-260 | the first table entry, in the dict's order, whose key occurs in the text; or none |
| Media.AfterLastSlash | bot.py:261 | `split("/")[-1]` holds no `/`; it is the whole text when there is no `/`, otherwise what follows a `/` |
| Media.ExtensionFromMime | bot.py:235-261 | a missing or empty MIME type gives `bin`; otherwise the value of the first key, in the dict's order, that occurs in the lower-cased type; with no such key, the part after the last `/` in the original case |
| Media.ExtensionHasNoSlash | bot.py:235-261 | the extension never holds a `/` |
| Media.ExtensionIgnoresCase | bot.py:258-260 | two MIME types that lower-case alike and hit the table give the same extension |
| Media.ExtensionFallback | bot.py:261 | a MIME type matching no key gives its subtype |
| Media.ExtensionJpeg | bot.py:248 | any MIME type containing `jpeg`, in any case, gives `jpg` |
| Media.ExtensionMpeg | bot.py:253 | a MIME type containing `mpeg` and none of the earlier keys gives `mp3` |
| Media.ExtensionUpperJpeg | bot.py:247-260 | `IMAGE/JPEG` gives `jpg` |
| Media.ExtensionAudioMpeg | bot.py:247-260 | `audio/mpeg` gives `mp3` |
| Media.KeepSafe | bot.py:279-281 | the filter keeps exactly the alphanumerics and ` ._-` of the name |
| Media.KeepSafeOne | bot.py:279-281 | one character is kept exactly when it is alphanumeric or one of ` ._-` |
| Media.KeepSafeAppend | bot.py:279-281 | the filter works character by character and keeps the order of what it keeps |
| Media.IdFileInDirectory | bot.py:278-285 | without a usable name, a given file id is saved in the media directory as `id.ext`, and the extension adds no directory level |
| Media.NoPathWithoutNames | bot.py:278-286 | nothing is saved exactly when the name and the file id are both missing or empty |
| Media.SanitizeShape | bot.py:279-281 | the cleaned name holds only allowed characters taken from the name and has no whitespace at either end |
| Media.SanitizeIdempotent | bot.py:279-281 | cleaning an already cleaned name changes nothing |
| Media.NamedFileInDirectory | bot.py:279-282 | the cleaned name holds no `/`, so the path is the media directory, `/`, and that name |

## Left out

- Strings.Lower: folds `A`-`Z` and the Kelvin sign (U+212A, lower case `k`), the only characters
  whose lower case is an ASCII letter. Every other character is kept. Python also folds other
  scripts, and `'İ'` becomes two characters, `i` and a combining dot. None of those results is a
  character of a tag name or a MIME key. So every lookup in the tag and MIME tables gives the same
  answer as the source's.
- Strings.IsSpace: uses the fixed list of whitespace characters of Python's `str.split()` and
  `str.strip()`, not the Unicode database.
- Tokenizer.Tokenize: models the one regular expression as a scanner, not the `re` engine.
- Tags.NormalizeHtml: uses the corrected `normalize_tag`, not the one the source writes. It
  differs from the source only on an opening alias tag with whitespace before its name, such as
  `<\tem>` (`TagProofs.AsWrittenAgreesIff`). The source's version is
  `Tags.NormalizeHtmlAsWritten`, and `TagProofs.NormalizeHtmlAgrees` proves the two equal on markup
  without such tags.
- TagProofs.NormalizeHtmlByToken: describes the corrected `normalize_html`.
  `TagProofs.NormalizeHtmlAsWrittenByToken` describes the source's.
- SplitterProofs.SplitHtmlMessageCases: describes `split_html_message` built on the corrected
  normalization. On markup holding an opening alias with whitespace before its name, the
  source's chunks differ. For example, the source turns `<\tem>` into `<im>` and pushes nothing,
  where the model turns it into `<i>` and pushes `i`.
- TagStack.Balanced: balance is stated over the pieces the splitter itself appended, not over
  the chunk string tokenized again. A text run holding a `<` with no `>` after it can merge with an
  appended closing tag once the chunk is tokenized again. For example, `<b>aaaa <yy` with
  `max_chars` 10 ends in the chunk `<b><yy</b>`.
- Splitter.EmitText: `Hangs` stands for the endless `while text:` loop. The model does not model
  memory running out as the chunk list grows.
- Media.KeepSafe: `str.isalnum` is a parameter, because it depends on the Unicode database.
- Media.Join: models `os.path.join` with POSIX rules. The Windows rules (drives, `\`) are left out.
- Media.MediaPath: `MEDIA_DIR` comes from the configuration file, so it is a parameter.
- `markdown_converter.py` and every other part of `bot.py` are not part of this model. That
  covers the handlers, the database, the downloads, the model calls and the configuration. It
  is I/O or calls into libraries.
- The `__main__` demonstration of `html_splitter.py` prints and is not modelled.
- Telegram counts message length in UTF-16 code units. The source, and the model, count
  characters.

Where the project's own description of the splitter and its code differ, the model follows the
code:

- Entities such as `&amp;` are not protected, so a cut can fall inside one.
- The "short word" threshold is the constant 10.
- A chunk is not bounded by `max_chars` in general. A pushed tag can overshoot
  (`SplitterProofs.TagPushOvershoot`). So can the oversized tag or word that the source adds
  anyway.
- A chunk can consist of reopened and closing tags only.
- The final filter drops only the empty string, because `get_opening_str([])` is `""`.
- The fast path returns the normalized markup unchanged, even when it is empty or unbalanced.

## Findings

| source | as written | input that shows it | evidently intended | confidence | as-written member | corrected member |
|---|---|---|---|---|---|---|
| html_splitter.py:86 | `rest_of_tag = clean[len(tag_name):]` assumes the name starts at the first character of `clean`, but `strip("<> ")` leaves leading tabs and newlines in place | `<\tem>` becomes `<im>`; `<\t\t\t\t\tstrike>` becomes `<strike>`, which a second pass turns into `<s>` | the attribute text is what follows the first word, wherever the word starts, so `<\tem>` becomes `<i>` and normalization is idempotent | not executed | Tags.NormalizeTagAsWritten, TagProofs.AsWrittenKeepsNameTail, TagProofs.AsWrittenNotIdempotent, TagProofs.AsWrittenAgreesIff | Tags.NormalizeTag, TagProofs.NormalizeTagIdempotent, TagProofs.NormalizeHtmlAgrees |
