/** `split_html_message`: normalize the markup, and when it is longer than the limit, cut it into
    chunks that each close the tags left open and let the next chunk reopen them. */
module Splitter {
  import opened Strings
  import opened Tokenizer
  import opened Tags
  import opened TagStack

  /** What a call of the source can do: return a value, raise (IndexError on a tag without a
      name), or run forever (the text loop can come back to the same state). */
  datatype Outcome<T> = Returns(value: T) | Raises | Hangs

  /** Telegram's message length limit, the default of `max_chars`. */
  const DefaultMaxChars: int := 4096

  /** A finished chunk: the stack it reopened, what it holds, and the stack it closed. */
  datatype Part = Part(start: Stack, body: seq<Piece>, end: Stack)

  /** The chunk string the source appends: reopened tags, content, closing tags. */
  function Render(p: Part): string {
    Opening(p.start) + Raw(p.body) + Closing(p.end)
  }

  /** The splitter's state. `current_chunk` is `Opening(start) + Raw(body)`; `stack` is `tag_stack`. */
  datatype Emitter = Emitter(done: seq<Part>, start: Stack, body: seq<Piece>, stack: Stack)

  const Fresh: Emitter := Emitter([], [], [], [])

  /** `current_chunk` */
  function Current(e: Emitter): string {
    Opening(e.start) + Raw(e.body)
  }

  /** The chunk under construction, closed with the current stack. */
  function Pending(e: Emitter): Part {
    Part(e.start, e.body, e.stack)
  }

  /** `chunks.append(current_chunk + closing_markup)` then `current_chunk = get_opening_str(tag_stack)`. */
  function Flush(e: Emitter): (r: Emitter)
    ensures r.stack == e.stack && r.start == e.stack && r.body == []
    ensures r.done == e.done + [Pending(e)]
  {
    Emitter(e.done + [Pending(e)], e.stack, [], e.stack)
  }

  /** `current_chunk += piece` */
  function Add(e: Emitter, p: Piece): Emitter {
    e.(body := e.body + [p])
  }

  lemma RawOne(p: Piece)
    ensures Raw([p]) == p.raw
  {
    assert seq(1, i requires 0 <= i < 1 => [p][i].raw) == [p.raw];
    ConcatSingle([p.raw]);
  }

  lemma CurrentAdd(e: Emitter, p: Piece)
    ensures Current(Add(e, p)) == Current(e) + p.raw
  {
    RawAppend(e.body, [p]);
    RawOne(p);
  }

  lemma CurrentFlush(e: Emitter)
    ensures Current(Flush(e)) == Opening(e.stack)
  {
    assert Raw([]) == "";
  }

  /** `text[:avail]` followed by the search for a place to cut it. */
  function CutIndex(text: string, avail: int, chunkLen: int, openLen: int): (k: int)
    requires text != [] && |text| > avail
    ensures k > 0 ==> k < |text|
  {
    var cand := PrefixSlice(text, avail);
    var nl := RFind(cand, '\n');
    var at := if nl == -1 then RFind(cand, ' ') else nl;
    if at == -1 then
      if avail < 10 && chunkLen > openLen then -1 else avail
    else
      at + 1
  }

  /** Where the text loop cuts a run of text that does not fit in `avail` characters: one past
      the last newline of `text[:avail]`, else one past its last space, else `avail` itself —
      except that a chunk holding more than its reopened tags gives up on the cut (-1) when
      fewer than ten characters are left. */
  lemma CutIndexPolicy(text: string, avail: int, chunkLen: int, openLen: int)
    requires text != [] && |text| > avail
    ensures var cand := PrefixSlice(text, avail); var k := CutIndex(text, avail, chunkLen, openLen);
      && |cand| < |text|
      && (k > 0 ==> k <= |cand|)
      && ('\n' in cand ==> k > 0 && cand[k - 1] == '\n' && '\n' !in cand[k..])
      && ('\n' !in cand && ' ' in cand ==> k > 0 && cand[k - 1] == ' ' && ' ' !in cand[k..])
      && ('\n' !in cand && ' ' !in cand && avail < 10 && chunkLen > openLen ==> k == -1)
      && ('\n' !in cand && ' ' !in cand && !(avail < 10 && chunkLen > openLen) ==> k == avail)
  {
  }

  /** What one pass of the text loop leaves: the text all placed, the loop going on with the
      rest, or the loop back in the state it started from (it then runs forever). */
  datatype Step = Done(next: Emitter) | Next(next: Emitter, rest: string) | Stuck

  /** One pass of `while text:`. A pass that does not place text still closes the chunk; when
      the chunk was already only its reopened tags, that changes nothing and the loop spins. */
  function TextStep(e: Emitter, text: string, max: int): (r: Step)
    requires text != []
    ensures r.Done? || r.Next? ==> r.next.stack == e.stack
    ensures r.Next? ==> |r.rest| <= |text| && r.rest == text[|text| - |r.rest|..]
    ensures r.Next? ==> Current(r.next) == Opening(e.stack)
    ensures r.Next? && r.rest == text ==> Current(e) != Opening(e.stack)
    ensures r.Stuck? ==> Current(e) == Opening(e.stack)
  {
    var avail := max - |Current(e)| - |Closing(e.stack)|;
    if |text| <= avail then Done(Add(e, Text(text)))
    else
      var k := CutIndex(text, avail, |Current(e)|, |Opening(e.stack)|);
      if k > 0 then
        CurrentFlush(Add(e, Text(text[..k])));
        Next(Flush(Add(e, Text(text[..k]))), text[k..])
      else if Current(e) == Opening(e.stack) then Stuck
      else
        CurrentFlush(e);
        Next(Flush(e), text)
  }

  /** The `while text:` loop for one text token. */
  function EmitText(e: Emitter, text: string, max: int): (r: Outcome<Emitter>)
    ensures !r.Raises?
    ensures r.Returns? ==> r.value.stack == e.stack
    decreases |text|, if Current(e) == Opening(e.stack) then 0 else 1
  {
    if text == [] then Returns(e)
    else
      match TextStep(e, text, max)
      case Done(e') => Returns(e')
      case Stuck => Hangs
      case Next(e', rest) => EmitText(e', rest, max)
  }

  /** One tag token: close the chunk first when the tag and the current closing tags would not
      fit, then add the tag and update the stack. */
  function EmitTag(e: Emitter, token: string, max: int): Emitter
    requires HasName(token)
  {
    var info := ExtractTagInfo(token);
    var e1 := if |Current(e)| + |token| + |Closing(e.stack)| > max then Flush(e) else e;
    Add(e1, Tag(token, info)).(stack := ApplyTag(e1.stack, info, token))
  }

  /** The `for token in tokens` loop: empty tokens are skipped, tokens starting with `<` are
      tags, the rest text. */
  function ProcessTokens(e: Emitter, toks: seq<string>, max: int): Outcome<Emitter>
    decreases |toks|
  {
    if toks == [] then Returns(e)
    else
      var t := toks[0];
      if t == [] then ProcessTokens(e, toks[1..], max)
      else if t[0] == '<' then
        if HasName(t) then ProcessTokens(EmitTag(e, t, max), toks[1..], max) else Raises
      else
        match EmitText(e, t, max)
        case Returns(e') => ProcessTokens(e', toks[1..], max)
        case Raises => Raises
        case Hangs => Hangs
  }

  /** The chunks after the loop: the last chunk is added when `current_chunk` is not empty. */
  function Finish(e: Emitter): seq<Part> {
    if Current(e) != [] then e.done + [Pending(e)] else e.done
  }

  /** The final filter: chunks that render to the empty string are dropped. */
  function Kept(ps: seq<Part>): (r: seq<Part>)
    ensures forall i :: 0 <= i < |r| ==> Render(r[i]) != []
    ensures |r| <= |ps|
  {
    if ps == [] then []
    else if Render(ps[0]) == [] then Kept(ps[1..])
    else [ps[0]] + Kept(ps[1..])
  }

  /** The filter treats each chunk on its own: a chunk survives exactly when it renders to a
      non-empty string. */
  lemma KeptOne(p: Part)
    ensures Kept([p]) == if Render(p) == [] then [] else [p]
  {
    assert [p][1..] == [];
  }

  /** The filter keeps the order of the chunks it keeps. */
  lemma {:induction false} KeptAppend(a: seq<Part>, b: seq<Part>)
    ensures Kept(a + b) == Kept(a) + Kept(b)
    decreases |a|
  {
    if a == [] {
      assert a + b == b;
    } else {
      assert (a + b)[0] == a[0];
      assert (a + b)[1..] == a[1..] + b;
      KeptAppend(a[1..], b);
    }
  }

  function Renders(ps: seq<Part>): (r: seq<string>)
    ensures |r| == |ps| && forall i :: 0 <= i < |ps| ==> r[i] == Render(ps[i])
  {
    seq(|ps|, i requires 0 <= i < |ps| => Render(ps[i]))
  }

  /** The slow path on normalized markup `h`, keeping the chunks' structure. */
  function SplitParts(h: string, max: int): (r: Outcome<seq<Part>>)
    ensures r.Returns? ==> forall i :: 0 <= i < |r.value| ==> Render(r.value[i]) != []
  {
    match ProcessTokens(Fresh, Tokenize(h), max)
    case Returns(e) => Returns(Kept(Finish(e)))
    case Raises => Raises
    case Hangs => Hangs
  }

  /** `split_html_message(html, max_chars)` */
  function SplitHtmlMessage(html: string, max: int): Outcome<seq<string>> {
    if !NamesOk(Tokenize(html)) then Raises
    else
      var h := NormalizeHtml(html);
      if |h| <= max then Returns([h])
      else
        match SplitParts(h, max)
        case Returns(ps) => Returns(Renders(ps))
        case Raises => Raises
        case Hangs => Hangs
  }
}
