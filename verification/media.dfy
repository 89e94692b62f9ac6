/** The media-naming helpers of the bot: `get_extension_from_mime` and `get_media_path`. */
module Media {
  import opened Strings

  datatype Option<T> = None | Some(value: T)

  /** A Python value that is truthy: present and not the empty string. */
  predicate Given(s: Option<string>) {
    s.Some? && s.value != []
  }

  /** `mime_map`, in the order the source's dict iterates it. */
  const MimeTable: seq<(string, string)> := [
    ("jpeg", "jpg"), ("png", "png"), ("gif", "gif"), ("webp", "webp"), ("ogg", "ogg"),
    ("mp4", "mp4"), ("mpeg", "mp3"), ("pdf", "pdf"), ("webm", "webm")
  ]

  /** The first table position at or after `from` whose key occurs in `hay`, or -1. */
  function FirstKeyFrom(table: seq<(string, string)>, hay: string, from: nat): (j: int)
    requires from <= |table|
    ensures j == -1 || from <= j < |table|
    ensures j == -1 ==> forall i :: from <= i < |table| ==> !IsSubstring(table[i].0, hay)
    ensures j >= 0 ==> IsSubstring(table[j].0, hay) && forall i :: from <= i < j ==> !IsSubstring(table[i].0, hay)
    decreases |table| - from
  {
    if from == |table| then -1
    else if Contains(hay, table[from].0) then from
    else FirstKeyFrom(table, hay, from + 1)
  }

  /** `s.split("/")[-1]`: what follows the last `/`, or all of `s`. */
  function AfterLastSlash(s: string): (r: string)
    ensures '/' !in r
    ensures '/' !in s ==> r == s
    ensures '/' in s ==> exists k :: 0 <= k < |s| && s[k] == '/' && r == s[k + 1..]
  {
    var k := RFind(s, '/');
    if k >= 0 then
      s[k + 1..]
    else s
  }

  /** `get_extension_from_mime`: `bin` without a MIME type; otherwise the value of the first key,
      in the table's order, that occurs in the lower-cased type; otherwise the type's last
      `/`-separated part, in its original case. */
  function ExtensionFromMime(mime: Option<string>): (ext: string)
    ensures !Given(mime) ==> ext == "bin"
    ensures Given(mime) ==> forall j ::
      (&& 0 <= j < |MimeTable|
       && IsSubstring(MimeTable[j].0, Lower(mime.value))
       && forall i :: 0 <= i < j ==> !IsSubstring(MimeTable[i].0, Lower(mime.value)))
      ==> ext == MimeTable[j].1
    ensures Given(mime) && (forall j :: 0 <= j < |MimeTable| ==> !IsSubstring(MimeTable[j].0, Lower(mime.value)))
      ==> ext == AfterLastSlash(mime.value)
  {
    if !Given(mime) then "bin"
    else
      var j := FirstKeyFrom(MimeTable, Lower(mime.value), 0);
      if j >= 0 then MimeTable[j].1 else AfterLastSlash(mime.value)
  }

  /** `os.path.join(a, b)` on POSIX: an absolute `b` replaces `a`; otherwise one `/` separates
      them unless `a` is empty or already ends in `/`. */
  function Join(a: string, b: string): (r: string)
    ensures |b| > 0 && b[0] == '/' ==> r == b
    ensures !(|b| > 0 && b[0] == '/') && (a == [] || a[|a| - 1] == '/') ==> r == a + b
    ensures !(|b| > 0 && b[0] == '/') && !(a == [] || a[|a| - 1] == '/') ==> r == a + "/" + b
  {
    if |b| > 0 && b[0] == '/' then b
    else if a == [] || a[|a| - 1] == '/' then a + b
    else a + "/" + b
  }

  /** The characters the sanitizer keeps besides alphanumerics. */
  predicate NameExtra(c: char) {
    c == ' ' || c == '.' || c == '_' || c == '-'
  }

  /** The filter step of the sanitizer: keep alphanumerics (as `isAlnum` decides) and ` ._-`. */
  function KeepSafe(s: string, isAlnum: char -> bool): (r: string)
    ensures |r| <= |s|
    ensures forall i :: 0 <= i < |r| ==> isAlnum(r[i]) || NameExtra(r[i])
    ensures forall c :: c in s && (isAlnum(c) || NameExtra(c)) ==> c in r
    ensures forall c :: c in r ==> c in s
  {
    if s == [] then []
    else
      var rest := KeepSafe(s[1..], isAlnum);
      assert forall c :: c in s ==> c == s[0] || c in s[1..];
      if isAlnum(s[0]) || NameExtra(s[0]) then [s[0]] + rest else rest
  }

  /** The filter looks at one character at a time: it keeps exactly the allowed ones. */
  lemma KeepSafeOne(c: char, isAlnum: char -> bool)
    ensures KeepSafe([c], isAlnum) == if isAlnum(c) || NameExtra(c) then [c] else []
  {
    assert [c][1..] == [];
  }

  /** The filter keeps the order of the characters it keeps. */
  lemma {:induction false} KeepSafeAppend(a: string, b: string, isAlnum: char -> bool)
    ensures KeepSafe(a + b, isAlnum) == KeepSafe(a, isAlnum) + KeepSafe(b, isAlnum)
    decreases |a|
  {
    if a == [] {
      assert a + b == b;
    } else {
      assert (a + b)[0] == a[0];
      assert (a + b)[1..] == a[1..] + b;
      KeepSafeAppend(a[1..], b, isAlnum);
    }
  }

  /** `"".join(c for c in name if c.isalnum() or c in " ._-").strip()` */
  function Sanitize(name: string, isAlnum: char -> bool): string {
    Strip(KeepSafe(name, isAlnum), Whitespace)
  }

  /** `get_media_path`: the original name wins when given; otherwise the file id with the
      extension its MIME type suggests; otherwise there is nothing to save. */
  function MediaPath(fileId: Option<string>, mime: Option<string>, originalName: Option<string>,
                     mediaDir: string, isAlnum: char -> bool): (r: Option<string>)
    ensures Given(originalName) ==> r == Some(Join(mediaDir, Sanitize(originalName.value, isAlnum)))
    ensures !Given(originalName) && Given(fileId)
      ==> r == Some(Join(mediaDir, fileId.value + "." + ExtensionFromMime(mime)))
    ensures r == None <==> !Given(originalName) && !Given(fileId)
  {
    if Given(originalName) then Some(Join(mediaDir, Sanitize(originalName.value, isAlnum)))
    else if Given(fileId) then Some(Join(mediaDir, fileId.value + "." + ExtensionFromMime(mime)))
    else None
  }

  /** No extension the helper produces holds a `/`: it stays one path component. */
  lemma ExtensionHasNoSlash(mime: Option<string>)
    ensures '/' !in ExtensionFromMime(mime)
  {
    if Given(mime) {
      var j := FirstKeyFrom(MimeTable, Lower(mime.value), 0);
      if j >= 0 {
        TableHasNoSlash(j);
      }
    }
  }

  lemma TableHasNoSlash(j: int)
    requires 0 <= j < |MimeTable|
    ensures '/' !in MimeTable[j].1
  {
    assert j == 0 || j == 1 || j == 2 || j == 3 || j == 4 || j == 5 || j == 6 || j == 7 || j == 8;
  }

  /** The table lookup ignores case: two MIME strings with the same lower-case form that
      name a known type get the same extension. */
  lemma ExtensionIgnoresCase(a: string, b: string)
    requires a != [] && Lower(a) == Lower(b)
    requires FirstKeyFrom(MimeTable, Lower(a), 0) >= 0
    ensures ExtensionFromMime(Some(a)) == ExtensionFromMime(Some(b))
  {
    assert |b| == |a|;
  }

  /** An unknown type keeps the original spelling of its subtype. */
  lemma ExtensionFallback(major: string, sub: string)
    requires '/' !in sub && sub != []
    requires FirstKeyFrom(MimeTable, Lower(major + "/" + sub), 0) == -1
    ensures ExtensionFromMime(Some(major + "/" + sub)) == sub
  {
    var s := major + "/" + sub;
    assert s[|major|] == '/';
    forall j | |major| < j < |s|
      ensures s[j] != '/'
    {
      assert s[j] == sub[j - |major| - 1];
    }
    var k := RFind(s, '/');
    assert k == |major|;
    assert s[k + 1..] == sub;
    assert AfterLastSlash(s) == sub;
  }

  /** A MIME string holding "jpeg" in any case maps to "jpg", the first entry of the table. */
  lemma ExtensionJpeg(mime: string)
    requires IsSubstring("jpeg", Lower(mime))
    ensures ExtensionFromMime(Some(mime)) == "jpg"
  {
    assert |Lower(mime)| > 0 by {
      var i :| OccursAt("jpeg", Lower(mime), i);
    }
  }

  /** A needle with a character the haystack lacks does not occur in it. */
  lemma CharMissing(needle: string, hay: string, k: nat)
    requires k < |needle| && needle[k] !in hay
    ensures !IsSubstring(needle, hay)
  {
    forall i
      ensures !OccursAt(needle, hay, i)
    {
      if 0 <= i <= |hay| - |needle| {
        assert hay[i..i + |needle|][k] == hay[i + k];
      }
    }
  }

  /** A MIME string holding "mpeg" but none of the six keys before it maps to "mp3". */
  lemma ExtensionMpeg(mime: string)
    requires IsSubstring("mpeg", Lower(mime))
    requires forall i :: 0 <= i < 6 ==> !IsSubstring(MimeTable[i].0, Lower(mime))
    ensures ExtensionFromMime(Some(mime)) == "mp3"
  {
    assert |Lower(mime)| > 0 by {
      var i :| OccursAt("mpeg", Lower(mime), i);
    }
    assert MimeTable[6] == ("mpeg", "mp3");
  }

  lemma ExtensionUpperJpeg()
    ensures ExtensionFromMime(Some("IMAGE/JPEG")) == "jpg"
  {
    assert Lower("IMAGE/JPEG") == "image/jpeg";
    assert OccursAt("jpeg", "image/jpeg", 6);
    ExtensionJpeg("IMAGE/JPEG");
  }

  lemma ExtensionAudioMpeg()
    ensures ExtensionFromMime(Some("audio/mpeg")) == "mp3"
  {
    var h := "audio/mpeg";
    assert Lower(h) == h;
    assert OccursAt("mpeg", h, 6);
    AudioMpegMisses();
    ExtensionMpeg(h);
  }

  /** None of the six keys before "mpeg" occurs in "audio/mpeg". */
  lemma AudioMpegMisses()
    ensures forall i :: 0 <= i < 6 ==> !IsSubstring(MimeTable[i].0, "audio/mpeg")
  {
    var h := "audio/mpeg";
    CharMissing("jpeg", h, 0);
    CharMissing("png", h, 1);
    CharMissing("gif", h, 2);
    CharMissing("webp", h, 0);
    CharMissing("mp4", h, 2);
    NoOgg();
  }

  lemma NoOgg()
    ensures !IsSubstring("ogg", "audio/mpeg")
  {
    var h := "audio/mpeg";
    forall i
      ensures !OccursAt("ogg", h, i)
    {
      if 0 <= i <= |h| - 3 {
        assert h[i..i + 3][0] == h[i] && h[i..i + 3][1] == h[i + 1];
        assert i == 0 || i == 1 || i == 2 || i == 3 || i == 4 || i == 5 || i == 6 || i == 7;
      }
    }
  }

  lemma {:induction false} KeepSafeFixed(s: string, isAlnum: char -> bool)
    requires forall i :: 0 <= i < |s| ==> isAlnum(s[i]) || NameExtra(s[i])
    ensures KeepSafe(s, isAlnum) == s
  {
    if s != [] {
      KeepSafeFixed(s[1..], isAlnum);
    }
  }

  /** The sanitized name holds only alphanumerics and ` ._-`, does not begin or end with
      whitespace, and is a run of the characters the filter kept from the name. */
  lemma SanitizeShape(name: string, isAlnum: char -> bool)
    ensures var r := Sanitize(name, isAlnum);
      && (forall i :: 0 <= i < |r| ==> isAlnum(r[i]) || NameExtra(r[i]))
      && (r == [] || (!IsSpace(r[0]) && !IsSpace(r[|r| - 1])))
      && (forall c :: c in r ==> c in name)
  {
    var s := KeepSafe(name, isAlnum);
    var r := Strip(s, Whitespace);
    var a := StripIsSlice(s, Whitespace);
    forall i | 0 <= i < |r|
      ensures (isAlnum(r[i]) || NameExtra(r[i])) && r[i] in s
    {
      assert r[i] == s[a + i];
    }
    StripEnds(s, Whitespace);
  }

  /** Sanitizing a sanitized name changes nothing. */
  lemma SanitizeIdempotent(name: string, isAlnum: char -> bool)
    ensures Sanitize(Sanitize(name, isAlnum), isAlnum) == Sanitize(name, isAlnum)
  {
    var r := Sanitize(name, isAlnum);
    SanitizeShape(name, isAlnum);
    KeepSafeFixed(r, isAlnum);
    if r != [] {
      TrimStartStops(r, Whitespace);
      TrimEndStops(r, Whitespace);
    }
  }

  /** With an `isalnum` that rejects `/` (as Python's does), a named file lands directly in the
      media directory: the path is the directory, one `/`, and a name with no `/` in it. */
  lemma NamedFileInDirectory(fileId: Option<string>, mime: Option<string>, name: string,
                             mediaDir: string, isAlnum: char -> bool)
    requires name != [] && !isAlnum('/')
    requires mediaDir != [] && mediaDir[|mediaDir| - 1] != '/'
    ensures var r := Sanitize(name, isAlnum);
      && '/' !in r
      && MediaPath(fileId, mime, Some(name), mediaDir, isAlnum) == Some(mediaDir + "/" + r)
  {
    SanitizeShape(name, isAlnum);
  }

  /** Without a usable original name (missing or empty), a given file id is saved in the media
      directory as `id.ext`, the extension adding no directory level. */
  lemma IdFileInDirectory(fileId: string, mime: Option<string>, originalName: Option<string>,
                          mediaDir: string, isAlnum: char -> bool)
    requires !Given(originalName) && fileId != [] && fileId[0] != '/'
    requires mediaDir != [] && mediaDir[|mediaDir| - 1] != '/'
    ensures var ext := ExtensionFromMime(mime);
      && '/' !in ext
      && MediaPath(Some(fileId), mime, originalName, mediaDir, isAlnum) == Some(mediaDir + "/" + fileId + "." + ext)
  {
    ExtensionHasNoSlash(mime);
    var b := fileId + "." + ExtensionFromMime(mime);
    assert b[0] == fileId[0];
    assert Join(mediaDir, b) == mediaDir + "/" + b;
    assert mediaDir + "/" + b == mediaDir + "/" + fileId + "." + ExtensionFromMime(mime);
  }

  /** Nothing is saved exactly when neither a name nor a file id is given. */
  lemma NoPathWithoutNames(fileId: Option<string>, mime: Option<string>, originalName: Option<string>,
                           mediaDir: string, isAlnum: char -> bool)
    ensures MediaPath(fileId, mime, originalName, mediaDir, isAlnum).None?
      <==> (fileId.None? || fileId.value == []) && (originalName.None? || originalName.value == [])
  {
  }
}
