/** What `split_html_message` guarantees: every character of the normalized markup lands in
    exactly one chunk, in order; each chunk is balanced; each chunk reopens exactly the tags the
    previous one closed; no chunk is empty; and the text loop cannot spin while the open tags
    leave room for text. */
module SplitterProofs {
  import opened Strings
  import opened Tokenizer
  import opened Tags
  import opened TagProofs
  import opened TagStack
  import opened Splitter

  /** Every piece of a chunk holds at least one character. */
  predicate NonEmptyPieces(body: seq<Piece>) {
    forall i :: 0 <= i < |body| ==> body[i].raw != []
  }

  /** A chunk whose body, replayed from the stack it reopened, leaves the stack it closes. */
  predicate GoodPart(p: Part) {
    && AllowedStack(p.start)
    && OpenersOk(p.start)
    && Faithful(p.body)
    && NonEmptyPieces(p.body)
    && Replay(p.start, p.body) == p.end
  }

  /** The chunks form a chain from `s`: each reopens the stack the previous one closed. */
  predicate ChainedFrom(s: Stack, ps: seq<Part>)
    decreases |ps|
  {
    ps == [] || (ps[0].start == s && GoodPart(ps[0]) && ChainedFrom(ps[0].end, ps[1..]))
  }

  /** The stack the last chunk closed (or `s` when there is none). */
  function LastEnd(s: Stack, ps: seq<Part>): Stack {
    if ps == [] then s else ps[|ps| - 1].end
  }

  /** The content of the chunks, without the reopened and closing tags. */
  function Bodies(ps: seq<Part>): string
    decreases |ps|
  {
    if ps == [] then [] else Raw(ps[0].body) + Bodies(ps[1..])
  }

  /** The splitter's invariant: the finished chunks chain from no open tags, the chunk under
      construction reopened what the last one closed, and its stack is what its tags left. */
  predicate Inv(e: Emitter) {
    && ChainedFrom([], e.done)
    && e.start == LastEnd([], e.done)
    && GoodPart(Pending(e))
  }

  /** Everything the splitter has consumed so far. */
  function Content(e: Emitter): string {
    Bodies(e.done) + Raw(e.body)
  }

  lemma {:induction false} ChainedSnoc(s: Stack, ps: seq<Part>, p: Part)
    requires ChainedFrom(s, ps) && p.start == LastEnd(s, ps) && GoodPart(p)
    ensures ChainedFrom(s, ps + [p]) && LastEnd(s, ps + [p]) == p.end
    decreases |ps|
  {
    if ps != [] {
      assert (ps + [p])[1..] == ps[1..] + [p];
      ChainedSnoc(ps[0].end, ps[1..], p);
    } else {
      assert ([p])[1..] == [];
    }
  }

  lemma {:induction false} BodiesSnoc(ps: seq<Part>, p: Part)
    ensures Bodies(ps + [p]) == Bodies(ps) + Raw(p.body)
    decreases |ps|
  {
    if ps == [] {
      assert ([p])[1..] == [];
    } else {
      assert (ps + [p])[1..] == ps[1..] + [p];
      BodiesSnoc(ps[1..], p);
    }
  }

  lemma ContentAdd(e: Emitter, p: Piece)
    ensures Content(Add(e, p)) == Content(e) + p.raw
  {
    RawAppend(e.body, [p]);
    RawOne(p);
  }

  lemma ContentFlush(e: Emitter)
    ensures Content(Flush(e)) == Content(e)
  {
    BodiesSnoc(e.done, Pending(e));
    assert Raw([]) == [];
  }

  lemma SnocPiece(body: seq<Piece>, p: Piece)
    requires Faithful(body) && NonEmptyPieces(body) && p.raw != [] && Faithful([p])
    ensures Faithful(body + [p]) && NonEmptyPieces(body + [p]) && (body + [p])[..|body|] == body
  {
    FaithfulAppend(body, [p]);
    var b := body + [p];
    forall i | 0 <= i < |b|
      ensures b[i].raw != []
    {
      if i < |body| {
        assert b[i] == body[i];
      }
    }
    assert b[..|body|] == body;
  }

  /** Adding text keeps the invariant and the stack. */
  lemma AddTextKeeps(e: Emitter, t: string)
    requires Inv(e) && t != []
    ensures Inv(Add(e, Text(t)))
  {
    assert TrueInfo([Text(t)][0]);
    SnocPiece(e.body, Text(t));
  }

  /** Closing the chunk keeps the invariant. */
  lemma FlushKeeps(e: Emitter)
    requires Inv(e)
    ensures Inv(Flush(e))
  {
    ReplayAllowed(e.start, e.body);
    ReplayOpeners(e.start, e.body);
    ChainedSnoc([], e.done, Pending(e));
    assert GoodPart(Part(e.stack, [], e.stack));
  }

  /** A tag token keeps the invariant; the stack afterwards is the stack update applied to it. */
  lemma EmitTagKeeps(e: Emitter, token: string, max: int)
    requires Inv(e) && HasName(token)
    ensures Inv(EmitTag(e, token, max))
    ensures EmitTag(e, token, max).stack == ApplyTag(e.stack, ExtractTagInfo(token), token)
    ensures Content(EmitTag(e, token, max)) == Content(e) + token
  {
    var info := ExtractTagInfo(token);
    var e1 := if |Current(e)| + |token| + |Closing(e.stack)| > max then Flush(e) else e;
    if e1 != e {
      FlushKeeps(e);
      ContentFlush(e);
    }
    assert Inv(e1) && e1.stack == e.stack && Content(e1) == Content(e);
    HasNameNonEmpty(token);
    FaithfulTag(token);
    SnocPiece(e1.body, Tag(token, info));
    ContentAdd(e1, Tag(token, info));
  }

  lemma AppendSplit(c: string, text: string, k: nat)
    requires k <= |text|
    ensures c + text[..k] + text[k..] == c + text
  {
    assert text[..k] + text[k..] == text;
  }

  /** One pass of the text loop keeps the invariant and consumes, from the front of the text,
      exactly what it adds to the chunks. */
  lemma TextStepKeeps(e: Emitter, text: string, max: int)
    requires Inv(e) && text != []
    ensures var r := TextStep(e, text, max);
      && (r.Done? ==> Inv(r.next) && Content(r.next) == Content(e) + text)
      && (r.Next? ==> Inv(r.next) && Content(r.next) + r.rest == Content(e) + text)
  {
    var avail := max - |Current(e)| - |Closing(e.stack)|;
    if |text| <= avail {
      StepPlaces(e, text, max);
      PlaceKeeps(e, text);
    } else {
      var k := CutIndex(text, avail, |Current(e)|, |Opening(e.stack)|);
      if k > 0 {
        StepCuts(e, text, max, k);
        CutKeeps(e, text, k);
      } else {
        StepCloses(e, text, max, k);
        FlushKeeps(e);
        ContentFlush(e);
      }
    }
  }

  lemma StepPlaces(e: Emitter, text: string, max: int)
    requires text != [] && |text| <= max - |Current(e)| - |Closing(e.stack)|
    ensures TextStep(e, text, max) == Done(Add(e, Text(text)))
  {
  }

  lemma StepCuts(e: Emitter, text: string, max: int, k: int)
    requires var avail := max - |Current(e)| - |Closing(e.stack)|;
      text != [] && |text| > avail && k == CutIndex(text, avail, |Current(e)|, |Opening(e.stack)|) && k > 0
    ensures k <= |text| && TextStep(e, text, max) == Next(Flush(Add(e, Text(text[..k]))), text[k..])
  {
    var avail := max - |Current(e)| - |Closing(e.stack)|;
    assert 0 < k < |text|;
    assert !(|text| <= avail);
    var cut := text[..k];
    var n := Flush(Add(e, Text(cut)));
    assert TextStep(e, text, max) == Next(n, text[k..]);
  }

  lemma StepCloses(e: Emitter, text: string, max: int, k: int)
    requires var avail := max - |Current(e)| - |Closing(e.stack)|;
      text != [] && |text| > avail && k == CutIndex(text, avail, |Current(e)|, |Opening(e.stack)|) && k <= 0
    ensures TextStep(e, text, max).Stuck? || TextStep(e, text, max) == Next(Flush(e), text)
  {
  }

  /** Placing the whole text in the chunk. */
  lemma PlaceKeeps(e: Emitter, text: string)
    requires Inv(e) && text != []
    ensures Inv(Add(e, Text(text))) && Content(Add(e, Text(text))) == Content(e) + text
  {
    AddTextKeeps(e, text);
    ContentAdd(e, Text(text));
  }

  /** Placing the first `k` characters of the text and closing the chunk. */
  lemma CutKeeps(e: Emitter, text: string, k: int)
    requires Inv(e) && 0 < k <= |text|
    ensures var n := Flush(Add(e, Text(text[..k])));
      Inv(n) && Content(n) + text[k..] == Content(e) + text
  {
    var a := Add(e, Text(text[..k]));
    AddTextKeeps(e, text[..k]);
    ContentAdd(e, Text(text[..k]));
    FlushKeeps(a);
    ContentFlush(a);
    AppendSplit(Content(e), text, k);
  }

  /** The text loop keeps the invariant and the stack, and consumes exactly the text. */
  lemma {:induction false} EmitTextKeeps(e: Emitter, text: string, max: int)
    requires Inv(e)
    requires EmitText(e, text, max).Returns?
    ensures var e' := EmitText(e, text, max).value;
      Inv(e') && e'.stack == e.stack && Content(e') == Content(e) + text
    decreases |text|, if Current(e) == Opening(e.stack) then 0 else 1
  {
    if text == [] {
      assert Content(e) + text == Content(e);
    } else {
      TextStepKeeps(e, text, max);
      var r := TextStep(e, text, max);
      if r.Next? {
        EmitTextKeeps(r.next, r.rest, max);
      }
    }
  }

  lemma ConcatCons(c: string, toks: seq<string>)
    requires toks != []
    ensures c + toks[0] + Concat(toks[1..]) == c + Concat(toks)
  {
  }

  /** The state after one token, when the token loop goes on. */
  function AfterToken(e: Emitter, t: string, max: int): Emitter
    requires t != [] && t[0] == '<' ==> HasName(t)
    requires t != [] && t[0] != '<' ==> EmitText(e, t, max).Returns?
  {
    if t == [] then e
    else if t[0] == '<' then EmitTag(e, t, max)
    else EmitText(e, t, max).value
  }

  lemma AfterTokenKeeps(e: Emitter, t: string, max: int)
    requires Inv(e)
    requires t != [] && t[0] == '<' ==> HasName(t)
    requires t != [] && t[0] != '<' ==> EmitText(e, t, max).Returns?
    ensures Inv(AfterToken(e, t, max)) && Content(AfterToken(e, t, max)) == Content(e) + t
  {
    if t == [] {
      assert Content(e) + t == Content(e);
    } else if t[0] == '<' {
      EmitTagKeeps(e, t, max);
    } else {
      EmitTextKeeps(e, t, max);
    }
  }

  /** The token loop keeps the invariant and consumes exactly the tokens. */
  lemma {:induction false} ProcessTokensKeeps(e: Emitter, toks: seq<string>, max: int)
    requires Inv(e)
    requires ProcessTokens(e, toks, max).Returns?
    ensures var e' := ProcessTokens(e, toks, max).value;
      Inv(e') && Content(e') == Content(e) + Concat(toks)
    decreases |toks|
  {
    if toks == [] {
      assert Content(e) + Concat(toks) == Content(e);
    } else {
      var t := toks[0];
      var e1 := AfterToken(e, t, max);
      assert ProcessTokens(e, toks, max) == ProcessTokens(e1, toks[1..], max);
      AfterTokenKeeps(e, t, max);
      ProcessTokensKeeps(e1, toks[1..], max);
      ConcatCons(Content(e), toks);
    }
  }

  lemma FreshInv()
    ensures Inv(Fresh) && Content(Fresh) == []
  {
    assert Raw([]) == [];
  }

  lemma RawEmpty(body: seq<Piece>)
    requires NonEmptyPieces(body)
    ensures Raw(body) == [] ==> body == []
  {
  }

  lemma OpeningEmpty(s: Stack)
    requires OpenersOk(s)
    ensures Opening(s) == [] ==> s == []
  {
    if s != [] {
      var init := s[..|s| - 1];
      var last := s[|s| - 1];
      TopTagNonEmpty(s);
      assert init + [last] == s;
      OpeningPush(init, last);
    }
  }

  lemma ClosingEmpty(s: Stack)
    ensures Closing(s) == [] ==> s == []
  {
    if s != [] {
      var init := s[..|s| - 1];
      var last := s[|s| - 1];
      assert init + [last] == s;
      ClosingPush(init, last);
    }
  }

  /** A chunk that still closes a tag survives the filter, even with nothing between its
      reopened and closing tags. */
  lemma KeptSkeleton(p: Part)
    requires p.end != []
    ensures Kept([p]) == [p]
  {
    ClosingEmpty(p.end);
    KeptOne(p);
  }

  /** A well-formed chunk that renders to nothing reopens nothing, holds nothing, closes nothing. */
  lemma EmptyRender(p: Part)
    requires GoodPart(p) && Render(p) == []
    ensures p.start == [] && p.body == [] && p.end == []
  {
    OpeningEmpty(p.start);
    RawEmpty(p.body);
    ClosingEmpty(p.end);
  }

  /** The final filter keeps the chain and the content. */
  lemma {:induction false} KeptKeeps(s: Stack, ps: seq<Part>)
    requires ChainedFrom(s, ps)
    ensures ChainedFrom(s, Kept(ps)) && Bodies(Kept(ps)) == Bodies(ps)
    decreases |ps|
  {
    if ps != [] {
      KeptKeeps(ps[0].end, ps[1..]);
      if Render(ps[0]) == [] {
        EmptyRender(ps[0]);
        assert Raw(ps[0].body) == [];
      } else {
        assert ([ps[0]] + Kept(ps[1..]))[1..] == Kept(ps[1..]);
      }
    }
  }

  /** The last chunk is added only when it is not empty; either way the chain and the content
      are kept. */
  lemma FinishKeeps(e: Emitter)
    requires Inv(e)
    ensures ChainedFrom([], Finish(e)) && Bodies(Finish(e)) == Content(e)
  {
    if Current(e) != [] {
      ChainedSnoc([], e.done, Pending(e));
      BodiesSnoc(e.done, Pending(e));
    } else {
      assert Raw(e.body) == [];
    }
  }

  /** A chain from `s` starts at `s`, links each chunk's closed stack to the next one's reopened
      stack, and holds only well-formed chunks. */
  lemma {:induction false} ChainedLinks(s: Stack, ps: seq<Part>)
    requires ChainedFrom(s, ps)
    ensures ps != [] ==> ps[0].start == s
    ensures forall i :: 0 <= i < |ps| ==> GoodPart(ps[i])
    ensures forall i :: 0 <= i < |ps| - 1 ==> ps[i].end == ps[i + 1].start
    decreases |ps|
  {
    if ps != [] {
      ChainedLinks(ps[0].end, ps[1..]);
      assert forall i :: 1 <= i < |ps| ==> ps[i] == ps[1..][i - 1];
    }
  }

  /** The pieces a chunk string is made of: reopened tags, content, closing tags. */
  function PartPieces(p: Part): seq<Piece> {
    OpenPieces(p.start) + p.body + ClosePieces(p.end)
  }

  /** Each chunk is balanced: replaying its tags from no open tags ends with none open, and its
      pieces spell the chunk string. */
  lemma PartBalanced(p: Part)
    requires GoodPart(p)
    ensures Faithful(PartPieces(p)) && Replay([], PartPieces(p)) == [] && Raw(PartPieces(p)) == Render(p)
  {
    Balanced(p.start, p.body);
    BalancedFaithful(p.start, p.body);
    RawAppend(OpenPieces(p.start), p.body);
    RawAppend(OpenPieces(p.start) + p.body, ClosePieces(p.end));
    RawOpenPieces(p.start);
    RawClosePieces(p.end);
  }

  lemma ConcatTokens(h: string)
    ensures Concat(Tokenize(h)) == h
  {
    TokenizeSound(h);
  }

  /** The slow path: the chunks hold the normalized markup in order, chain from no open tags,
      are each balanced and are never empty. */
  lemma SplitPartsSound(h: string, max: int)
    requires SplitParts(h, max).Returns?
    ensures var ps := SplitParts(h, max).value;
      && Bodies(ps) == h
      && (ps != [] ==> ps[0].start == [])
      && (forall i :: 0 <= i < |ps| - 1 ==> ps[i].end == ps[i + 1].start)
      && (forall i :: 0 <= i < |ps| ==> Render(ps[i]) != [])
      && (forall i :: 0 <= i < |ps| ==> Replay([], PartPieces(ps[i])) == [] && Raw(PartPieces(ps[i])) == Render(ps[i]))
  {
    var e := ProcessTokens(Fresh, Tokenize(h), max).value;
    FreshInv();
    ProcessTokensKeeps(Fresh, Tokenize(h), max);
    ConcatTokens(h);
    FinishKeeps(e);
    KeptKeeps([], Finish(e));
    var ps := Kept(Finish(e));
    ChainedLinks([], ps);
    forall i | 0 <= i < |ps|
      ensures Replay([], PartPieces(ps[i])) == [] && Raw(PartPieces(ps[i])) == Render(ps[i])
    {
      PartBalanced(ps[i]);
    }
  }

  /** `split_html_message` as a whole: a tag without a name raises; markup that fits after
      normalization comes back as the single chunk; otherwise the chunks are the rendered
      parts of the slow path. */
  lemma SplitHtmlMessageCases(html: string, max: int)
    ensures !NamesOk(Tokenize(html)) ==> SplitHtmlMessage(html, max) == Raises
    ensures NamesOk(Tokenize(html)) && |NormalizeHtml(html)| <= max
      ==> SplitHtmlMessage(html, max) == Returns([NormalizeHtml(html)])
    ensures NamesOk(Tokenize(html)) && |NormalizeHtml(html)| > max && SplitHtmlMessage(html, max).Returns?
      ==> var chunks := SplitHtmlMessage(html, max).value;
          && SplitParts(NormalizeHtml(html), max).Returns?
          && chunks == Renders(SplitParts(NormalizeHtml(html), max).value)
          && (forall i :: 0 <= i < |chunks| ==> chunks[i] != [])
  {
    if NamesOk(Tokenize(html)) {
      var h := NormalizeHtml(html);
      if |h| > max {
        var sp := SplitParts(h, max);
        if sp.Returns? {
          var ps := sp.value;
          assert SplitHtmlMessage(html, max) == Returns(Renders(ps));
          assert forall i :: 0 <= i < |ps| ==> Render(ps[i]) != [];
        }
      }
    }
  }

  /** A pass of the text loop cannot come back to its own state while the open tags leave room
      for at least one character. */
  lemma TextStepMoves(e: Emitter, text: string, max: int)
    requires text != [] && |Opening(e.stack)| + |Closing(e.stack)| < max
    ensures !TextStep(e, text, max).Stuck?
  {
    var avail := max - |Current(e)| - |Closing(e.stack)|;
    if |text| > avail && Current(e) == Opening(e.stack) {
      CutIndexPolicy(text, avail, |Current(e)|, |Opening(e.stack)|);
    }
  }

  /** The text loop cannot spin while the open tags leave room for at least one character. */
  lemma {:induction false} EmitTextReturns(e: Emitter, text: string, max: int)
    requires |Opening(e.stack)| + |Closing(e.stack)| < max
    ensures EmitText(e, text, max).Returns?
    decreases |text|, if Current(e) == Opening(e.stack) then 0 else 1
  {
    if text != [] {
      TextStepMoves(e, text, max);
      var r := TextStep(e, text, max);
      if r.Next? {
        EmitTextReturns(r.next, r.rest, max);
      }
    }
  }

  /** A fresh chunk whose reopened and closing tags already fill the limit, facing text with no
      newline or space, makes the text loop spin forever. */
  lemma EmitTextHangs(e: Emitter, text: string, max: int)
    requires Current(e) == Opening(e.stack) && text != []
    requires |Opening(e.stack)| + |Closing(e.stack)| >= max
    requires '\n' !in text && ' ' !in text
    ensures TextStep(e, text, max) == Stuck && EmitText(e, text, max) == Hangs
  {
    var avail := max - |Current(e)| - |Closing(e.stack)|;
    var cand := PrefixSlice(text, avail);
    CutIndexPolicy(text, avail, |Current(e)|, |Opening(e.stack)|);
    assert cand == text[..|cand|];
    assert '\n' !in cand && ' ' !in cand;
  }

  /** The stack after each token: only tags change it. */
  function StackAfter(s: Stack, t: string): Stack
    requires t != [] && t[0] == '<' ==> HasName(t)
  {
    if t != [] && t[0] == '<' then ApplyTag(s, ExtractTagInfo(t), t) else s
  }

  /** Every tag token has a name, and at every non-empty text token the open tags leave room for
      at least one character. */
  predicate RoomFor(s: Stack, toks: seq<string>, max: int)
    decreases |toks|
  {
    toks == [] ||
      var t := toks[0];
      && (t != [] && t[0] == '<' ==> HasName(t))
      && (t != [] && t[0] != '<' ==> |Opening(s)| + |Closing(s)| < max)
      && RoomFor(StackAfter(s, t), toks[1..], max)
  }

  /** With room for text at every text token, the token loop returns. */
  lemma {:induction false} ProcessTokensReturns(e: Emitter, toks: seq<string>, max: int)
    requires RoomFor(e.stack, toks, max)
    ensures ProcessTokens(e, toks, max).Returns?
    decreases |toks|
  {
    if toks != [] {
      var t := toks[0];
      if t == [] {
        ProcessTokensReturns(e, toks[1..], max);
      } else if t[0] == '<' {
        var e1 := if |Current(e)| + |t| + |Closing(e.stack)| > max then Flush(e) else e;
        assert EmitTag(e, t, max).stack == ApplyTag(e.stack, ExtractTagInfo(t), t);
        ProcessTokensReturns(EmitTag(e, t, max), toks[1..], max);
      } else {
        EmitTextReturns(e, t, max);
        ProcessTokensReturns(EmitText(e, t, max).value, toks[1..], max);
      }
    }
  }

  /** When the text loop closes a chunk with room left (`available_space >= 0`), the closed chunk
      fits in `max_chars`, whether it took part of the text or gave up on the cut; so does the
      chunk when the whole text fits. */
  lemma TextStepFits(e: Emitter, text: string, max: int)
    requires text != []
    requires max - |Current(e)| - |Closing(e.stack)| >= 0
    ensures var avail := max - |Current(e)| - |Closing(e.stack)|;
      && (|text| <= avail ==> |Render(Pending(Add(e, Text(text))))| <= max)
      && (|text| > avail ==> var k := CutIndex(text, avail, |Current(e)|, |Opening(e.stack)|);
            && (k > 0 ==> k <= avail && |Render(Pending(Add(e, Text(text[..k]))))| <= max)
            && (k <= 0 ==> |Render(Pending(e))| <= max))
  {
    var avail := max - |Current(e)| - |Closing(e.stack)|;
    if |text| <= avail {
      PendingLength(e, text);
    } else {
      var k := CutIndex(text, avail, |Current(e)|, |Opening(e.stack)|);
      CutWithin(text, avail, |Current(e)|, |Opening(e.stack)|);
      if k > 0 {
        PendingLength(e, text[..k]);
      } else {
        assert Render(Pending(e)) == Current(e) + Closing(e.stack);
      }
    }
  }

  /** With room left, a cut falls within the room. */
  lemma CutWithin(text: string, avail: int, chunkLen: int, openLen: int)
    requires 0 <= avail < |text|
    ensures var k := CutIndex(text, avail, chunkLen, openLen); k > 0 ==> k <= avail
  {
    var cand := PrefixSlice(text, avail);
    assert |cand| == avail;
  }

  /** The chunk after adding a text run, closed with the current stack. */
  lemma PendingLength(e: Emitter, t: string)
    ensures |Render(Pending(Add(e, Text(t))))| == |Current(e)| + |t| + |Closing(e.stack)|
  {
    var a := Add(e, Text(t));
    CurrentAdd(e, Text(t));
    assert Render(Pending(a)) == Current(a) + Closing(a.stack);
  }

  /** The tag check measures the closing tags before the tag is pushed, so a pushed tag can take
      the chunk past `max_chars` without a flush: the chunk then closes one more tag. */
  lemma TagPushOvershoot(e: Emitter, token: string, max: int)
    requires HasName(token)
    requires |Current(e)| + |token| + |Closing(e.stack)| <= max
    requires var info := ExtractTagInfo(token); info.name in AllowedTags && !info.closing && !info.isVoid
    ensures |Render(Pending(EmitTag(e, token, max)))|
      == |Current(e)| + |token| + |Closing(e.stack)| + |CloseTag(ExtractTagInfo(token).name)|
  {
    var info := ExtractTagInfo(token);
    CurrentAdd(e, Tag(token, info));
    ClosingPush(e.stack, Entry(info.name, token));
  }
}
