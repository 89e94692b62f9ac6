/** The splitter's stack of open tags: `get_opening_str`, `get_closing_str`, the stack update
    after each tag, and the replay of a chunk's tags that shows every chunk is balanced. */
module TagStack {
  import opened Strings
  import opened Tags
  import opened TagProofs

  /** One open tag: its resolved name and the full opening tag as it appeared, attributes and all. */
  datatype Entry = Entry(name: string, tag: string)

  /** Innermost tag last. */
  type Stack = seq<Entry>

  function CloseTag(name: string): string {
    "</" + name + ">"
  }

  /** `get_opening_str`: the opening tags, outermost first, joined. */
  function Opening(s: Stack): string {
    Concat(seq(|s|, i requires 0 <= i < |s| => s[i].tag))
  }

  /** `get_closing_str`: a closing tag for each entry, innermost first, joined. */
  function Closing(s: Stack): string {
    Concat(Closers(s))
  }

  /** The closing tags of a stack, innermost first. */
  function Closers(s: Stack): (r: seq<string>)
    ensures |r| == |s| && forall i :: 0 <= i < |s| ==> r[i] == CloseTag(s[|s| - 1 - i].name)
  {
    seq(|s|, i requires 0 <= i < |s| => CloseTag(s[|s| - 1 - i].name))
  }

  /** Pushing an entry appends its opening tag after the others. */
  lemma OpeningPush(s: Stack, e: Entry)
    ensures Opening(s + [e]) == Opening(s) + e.tag
  {
    var a := seq(|s|, i requires 0 <= i < |s| => s[i].tag);
    var b := seq(|s + [e]|, i requires 0 <= i < |s + [e]| => (s + [e])[i].tag);
    assert b == a + [e.tag];
    ConcatAppend(a, [e.tag]);
  }

  /** Pushing an entry puts its closing tag before the others. */
  lemma ClosingPush(s: Stack, e: Entry)
    ensures Closing(s + [e]) == CloseTag(e.name) + Closing(s)
  {
    var t := s + [e];
    var a := Closers(s);
    var b := Closers(t);
    var c := [CloseTag(e.name)] + a;
    forall i | 0 <= i < |t|
      ensures b[i] == c[i]
    {
      if i > 0 {
        assert t[|t| - 1 - i] == s[|s| - 1 - (i - 1)];
      }
    }
    assert b == c;
    ConcatAppend([CloseTag(e.name)], a);
  }

  /** The position of the innermost entry named `name`, or -1. */
  function LastWith(s: Stack, name: string): (j: int)
    ensures -1 <= j < |s|
    ensures j == -1 <==> forall i :: 0 <= i < |s| ==> s[i].name != name
    ensures j >= 0 ==> s[j].name == name && forall i :: j < i < |s| ==> s[i].name != name
  {
    if s == [] then -1
    else if s[|s| - 1].name == name then |s| - 1
    else LastWith(s[..|s| - 1], name)
  }

  /** The stack with its innermost `name` entry removed, every other entry kept in order; the
      stack itself when no entry has that name. */
  function RemoveNearest(s: Stack, name: string): (r: Stack)
    ensures LastWith(s, name) == -1 ==> r == s
    ensures var j := LastWith(s, name); j >= 0 ==> r == s[..j] + s[j + 1..]
  {
    if s == [] then []
    else if s[|s| - 1].name == name then s[..|s| - 1]
    else
      var ri := RemoveNearest(s[..|s| - 1], name);
      RemoveStep(s, name, ri);
      ri + [s[|s| - 1]]
  }

  /** Removing below a top entry with another name: remove from the rest, keep the top. */
  lemma RemoveStep(s: Stack, name: string, ri: Stack)
    requires s != [] && s[|s| - 1].name != name
    requires var init := s[..|s| - 1]; var j := LastWith(init, name);
      && (j == -1 ==> ri == init)
      && (j >= 0 ==> ri == init[..j] + init[j + 1..])
    ensures var r := ri + [s[|s| - 1]]; var j := LastWith(s, name);
      && (j == -1 ==> r == s)
      && (j >= 0 ==> r == s[..j] + s[j + 1..])
  {
    var init := s[..|s| - 1];
    var j := LastWith(init, name);
    assert LastWith(s, name) == j;
    if j == -1 {
      assert ri + [s[|s| - 1]] == s by {
        assert init + [s[|s| - 1]] == s;
      }
    } else {
      assert ri + [s[|s| - 1]] == s[..j] + s[j + 1..] by {
        DropBeforeLast(s, j);
      }
    }
  }

  lemma DropBeforeLast(s: Stack, j: int)
    requires 0 <= j < |s| - 1
    ensures s[..j] + s[j + 1..] == s[..|s| - 1][..j] + s[..|s| - 1][j + 1..] + [s[|s| - 1]]
  {
    var init := s[..|s| - 1];
    assert s[j + 1..] == init[j + 1..] + [s[|s| - 1]];
  }

  /** The source's loop: scan from the top of the stack, pop the first entry with that name, stop. */
  method PopNearest(s: Stack, name: string) returns (r: Stack)
    ensures (forall i :: 0 <= i < |s| ==> s[i].name != name) ==> r == s
    ensures forall j :: (0 <= j < |s| && s[j].name == name && (forall i :: j < i < |s| ==> s[i].name != name))
                        ==> r == s[..j] + s[j + 1..]
    ensures r == RemoveNearest(s, name)
  {
    r := s;
    var tg := |s| - 1;
    while tg >= 0
      invariant -1 <= tg < |s|
      invariant r == s
      invariant forall i :: tg < i < |s| ==> s[i].name != name
      decreases tg
    {
      if s[tg].name == name {
        r := s[..tg] + s[tg + 1..];
        assert LastWith(s, name) == tg;
        return;
      }
      tg := tg - 1;
    }
  }

  /** The stack update after a tag token, given what extract_tag_info reported for it: allowed
      closing tags pop their nearest opener, allowed non-void opening tags push, everything else
      leaves the stack alone. */
  function ApplyTag(s: Stack, info: TagInfo, token: string): Stack {
    if info.name in AllowedTags then
      if info.closing then RemoveNearest(s, info.name)
      else if !info.isVoid then s + [Entry(info.name, token)]
      else s
    else s
  }

  /** Every entry names an allowed tag. */
  predicate AllowedStack(s: Stack) {
    forall i :: 0 <= i < |s| ==> s[i].name in AllowedTags
  }

  /** An entry pushed by its own opening tag: extract_tag_info reads that tag as an opening,
      non-void tag of the entry's name. */
  predicate OwnOpener(e: Entry) {
    HasName(e.tag) && ExtractTagInfo(e.tag) == TagInfo(e.name, false, false)
  }

  predicate OpenersOk(s: Stack) {
    forall i {:trigger OwnOpener(s[i])} :: 0 <= i < |s| ==> OwnOpener(s[i])
  }

  /** The stack update keeps every entry an allowed tag. */
  lemma ApplyTagAllowed(s: Stack, info: TagInfo, token: string)
    requires AllowedStack(s)
    ensures AllowedStack(ApplyTag(s, info, token))
  {
    if info.name in AllowedTags && info.closing {
      var j := LastWith(s, info.name);
      if j >= 0 {
        var r := s[..j] + s[j + 1..];
        forall i | 0 <= i < |r|
          ensures r[i].name in AllowedTags
        {
          var e := if i < j then s[i] else s[i + 1];
          assert r[i] == e;
        }
      }
    } else if info.name in AllowedTags && !info.isVoid {
      var r := s + [Entry(info.name, token)];
      forall i | 0 <= i < |r|
        ensures r[i].name in AllowedTags
      {
        if i < |s| {
          assert r[i] == s[i];
        }
      }
    }
  }

  lemma OpenersPush(s: Stack, e: Entry)
    requires OpenersOk(s) && OwnOpener(e)
    ensures OpenersOk(s + [e])
  {
    var t := s + [e];
    forall i | 0 <= i < |t|
      ensures OwnOpener(t[i])
    {
      if i < |s| {
        assert t[i] == s[i];
        assert OwnOpener(s[i]);
      }
    }
  }

  lemma OpenersInit(s: Stack)
    requires OpenersOk(s) && s != []
    ensures OpenersOk(s[..|s| - 1]) && OwnOpener(s[|s| - 1])
  {
    var t := s[..|s| - 1];
    forall i | 0 <= i < |t|
      ensures OwnOpener(t[i])
    {
      assert t[i] == s[i];
      assert OwnOpener(s[i]);
    }
    assert OwnOpener(s[|s| - 1]);
  }

  /** The innermost entry of a stack of openers has a non-empty tag. */
  lemma TopTagNonEmpty(s: Stack)
    requires OpenersOk(s) && s != []
    ensures s[|s| - 1].tag != []
  {
    assert OwnOpener(s[|s| - 1]);
    HasNameNonEmpty(s[|s| - 1].tag);
  }

  lemma OpenersRemove(s: Stack, name: string)
    requires OpenersOk(s)
    ensures OpenersOk(RemoveNearest(s, name))
  {
    var j := LastWith(s, name);
    if j >= 0 {
      var r := s[..j] + s[j + 1..];
      forall i | 0 <= i < |r|
        ensures OwnOpener(r[i])
      {
        var e := if i < j then s[i] else s[i + 1];
        assert r[i] == e;
        assert OwnOpener(e);
      }
    }
  }

  /** A chunk's content: tag tokens with what extract_tag_info reported for them, and text runs. */
  datatype Piece = Tag(raw: string, info: TagInfo) | Text(raw: string)

  function Raw(body: seq<Piece>): string {
    Concat(seq(|body|, i requires 0 <= i < |body| => body[i].raw))
  }

  lemma RawAppend(a: seq<Piece>, b: seq<Piece>)
    ensures Raw(a + b) == Raw(a) + Raw(b)
  {
    var ra := seq(|a|, i requires 0 <= i < |a| => a[i].raw);
    var rb := seq(|b|, i requires 0 <= i < |b| => b[i].raw);
    var rab := seq(|a + b|, i requires 0 <= i < |a + b| => (a + b)[i].raw);
    assert rab == ra + rb;
    ConcatAppend(ra, rb);
  }

  /** A tag piece carries exactly what extract_tag_info reports for its text. */
  predicate TrueInfo(p: Piece) {
    p.Tag? ==> HasName(p.raw) && ExtractTagInfo(p.raw) == p.info
  }

  predicate Faithful(body: seq<Piece>) {
    forall i {:trigger TrueInfo(body[i])} :: 0 <= i < |body| ==> TrueInfo(body[i])
  }

  /** A tag piece built from what extract_tag_info reports is faithful. */
  lemma FaithfulTag(token: string)
    requires HasName(token)
    ensures Faithful([Tag(token, ExtractTagInfo(token))])
  {
    assert TrueInfo([Tag(token, ExtractTagInfo(token))][0]);
  }

  lemma FaithfulAppend(a: seq<Piece>, b: seq<Piece>)
    requires Faithful(a) && Faithful(b)
    ensures Faithful(a + b)
  {
    var ab := a + b;
    forall i | 0 <= i < |ab|
      ensures TrueInfo(ab[i])
    {
      if i < |a| {
        assert ab[i] == a[i];
        assert TrueInfo(a[i]);
      } else {
        assert ab[i] == b[i - |a|];
        assert TrueInfo(b[i - |a|]);
      }
    }
  }

  /** The stack after the splitter has seen `body` starting from `s`: only tags change it. */
  function Replay(s: Stack, body: seq<Piece>): Stack {
    if body == [] then s
    else
      var prev := Replay(s, body[..|body| - 1]);
      match body[|body| - 1]
      case Tag(t, info) => ApplyTag(prev, info, t)
      case Text(_) => prev
  }

  lemma {:induction false} ReplayAppend(s: Stack, a: seq<Piece>, b: seq<Piece>)
    ensures Replay(s, a + b) == Replay(Replay(s, a), b)
    decreases |b|
  {
    if b == [] {
      assert a + b == a;
    } else {
      var b' := b[..|b| - 1];
      assert (a + b)[..|a + b| - 1] == a + b';
      ReplayAppend(s, a, b');
    }
  }

  /** Replaying from a stack of allowed tags keeps every entry an allowed tag. */
  lemma {:induction false} ReplayAllowed(s: Stack, body: seq<Piece>)
    requires AllowedStack(s)
    ensures AllowedStack(Replay(s, body))
    decreases |body|
  {
    if body != [] {
      ReplayAllowed(s, body[..|body| - 1]);
      var prev := Replay(s, body[..|body| - 1]);
      match body[|body| - 1]
      case Tag(t, info) => ApplyTagAllowed(prev, info, t);
      case Text(_) =>
    }
  }

  /** Replaying faithful pieces keeps every entry pushed by its own opening tag. */
  lemma {:induction false} ReplayOpeners(s: Stack, body: seq<Piece>)
    requires OpenersOk(s) && Faithful(body)
    ensures OpenersOk(Replay(s, body))
    decreases |body|
  {
    if body != [] {
      var init := body[..|body| - 1];
      assert Faithful(init) by {
        forall i | 0 <= i < |init|
          ensures TrueInfo(init[i])
        {
          assert init[i] == body[i];
          assert TrueInfo(body[i]);
        }
      }
      ReplayOpeners(s, init);
      var prev := Replay(s, init);
      var last := body[|body| - 1];
      assert TrueInfo(last);
      match last
      case Tag(t, info) =>
        if info.name in AllowedTags {
          if info.closing {
            OpenersRemove(prev, info.name);
          } else if !info.isVoid {
            assert OwnOpener(Entry(info.name, t));
            OpenersPush(prev, Entry(info.name, t));
          }
        }
      case Text(_) =>
    }
  }

  /** The opening tags of a stack, as pieces. */
  function OpenPieces(s: Stack): (r: seq<Piece>)
    ensures |r| == |s| && forall i :: 0 <= i < |s| ==> r[i] == Tag(s[i].tag, TagInfo(s[i].name, false, false))
  {
    seq(|s|, i requires 0 <= i < |s| => Tag(s[i].tag, TagInfo(s[i].name, false, false)))
  }

  /** The closing tags of a stack, innermost first, as pieces. */
  function ClosePieces(s: Stack): (r: seq<Piece>)
    ensures |r| == |s|
    ensures forall i :: 0 <= i < |s| ==> r[i] == Tag(CloseTag(s[|s| - 1 - i].name), TagInfo(s[|s| - 1 - i].name, true, false))
  {
    seq(|s|, i requires 0 <= i < |s| => Tag(CloseTag(s[|s| - 1 - i].name), TagInfo(s[|s| - 1 - i].name, true, false)))
  }

  /** The opening pieces spell `get_opening_str`. */
  lemma RawOpenPieces(s: Stack)
    ensures Raw(OpenPieces(s)) == Opening(s)
  {
    var p := OpenPieces(s);
    assert seq(|p|, i requires 0 <= i < |p| => p[i].raw) == seq(|s|, i requires 0 <= i < |s| => s[i].tag);
  }

  /** The closing pieces spell `get_closing_str`. */
  lemma RawClosePieces(s: Stack)
    ensures Raw(ClosePieces(s)) == Closing(s)
  {
    var p := ClosePieces(s);
    assert seq(|p|, i requires 0 <= i < |p| => p[i].raw) == Closers(s);
  }

  /** The opening pieces of a stack of own openers carry what extract_tag_info reports. */
  lemma OpenPiecesFaithful(s: Stack)
    requires OpenersOk(s)
    ensures Faithful(OpenPieces(s))
  {
    var p := OpenPieces(s);
    forall i | 0 <= i < |p|
      ensures TrueInfo(p[i])
    {
      assert OwnOpener(s[i]);
    }
  }

  /** How extract_tag_info reads a closing tag the splitter generated itself. */
  lemma CloseTagInfo(name: string)
    requires name in AllowedTags
    ensures HasName(CloseTag(name)) && ExtractTagInfo(CloseTag(name)) == TagInfo(name, true, false)
  {
    AllowedFacts(name);
    CanonicalCloser(name);
    assert !EndsWithSlash(name);
  }

  /** The closing pieces of a stack of allowed tags carry what extract_tag_info reports. */
  lemma ClosePiecesFaithful(s: Stack)
    requires AllowedStack(s)
    ensures Faithful(ClosePieces(s))
  {
    var p := ClosePieces(s);
    forall i | 0 <= i < |p|
      ensures TrueInfo(p[i])
    {
      CloseTagInfo(s[|s| - 1 - i].name);
    }
  }

  /** Replaying the opening tags of a stack of allowed tags from empty rebuilds the stack. */
  lemma {:induction false} ReplayOpens(s: Stack)
    requires AllowedStack(s)
    ensures Replay([], OpenPieces(s)) == s
    decreases |s|
  {
    if s != [] {
      var init := s[..|s| - 1];
      assert OpenPieces(s)[..|s| - 1] == OpenPieces(init);
      ReplayOpens(init);
      assert init + [s[|s| - 1]] == s;
    }
  }

  /** Replaying the closing tags of a stack of allowed tags from that stack empties it. */
  lemma {:induction false} ReplayCloses(s: Stack)
    requires AllowedStack(s)
    ensures Replay(s, ClosePieces(s)) == []
    decreases |s|
  {
    if s != [] {
      var init := s[..|s| - 1];
      var last := s[|s| - 1];
      var first := [Tag(CloseTag(last.name), TagInfo(last.name, true, false))];
      assert ClosePieces(s) == first + ClosePieces(init);
      assert LastWith(s, last.name) == |s| - 1;
      assert Replay(s, first) == init;
      ReplayAppend(s, first, ClosePieces(init));
      ReplayCloses(init);
    }
  }

  /** A chunk that starts by reopening `start`, holds `body` and ends by closing whatever `body`
      left open, is balanced: the splitter's own tag logic, started from no open tags, ends with
      none open. */
  lemma Balanced(start: Stack, body: seq<Piece>)
    requires AllowedStack(start)
    ensures Replay([], OpenPieces(start) + body + ClosePieces(Replay(start, body))) == []
  {
    var end := Replay(start, body);
    ReplayAllowed(start, body);
    ReplayOpens(start);
    ReplayCloses(end);
    ReplayAppend([], OpenPieces(start), body);
    ReplayAppend([], OpenPieces(start) + body, ClosePieces(end));
  }

  /** The whole chunk carries what extract_tag_info reports for each of its tags. */
  lemma BalancedFaithful(start: Stack, body: seq<Piece>)
    requires AllowedStack(start) && OpenersOk(start) && Faithful(body)
    ensures Faithful(OpenPieces(start) + body + ClosePieces(Replay(start, body)))
  {
    ReplayAllowed(start, body);
    OpenPiecesFaithful(start);
    ClosePiecesFaithful(Replay(start, body));
    FaithfulAppend(OpenPieces(start), body);
    FaithfulAppend(OpenPieces(start) + body, ClosePieces(Replay(start, body)));
  }
}
