/** The first server, main.go: comments wrapped as `§` items, packed into
    buffers, translated concurrently, read back with `(?m)^§\n([^§]+)` and
    written back by position. It sets status 200 before it fetches
    anything, but `net/http` holds that status until the body is written,
    so a panic of the handler still closes the connection with no answer.
    The comment fetch and the translations run on goroutines of their own,
    so their panics end the whole server. */
module LegacyMain {
  import opened Common
  import opened Markers
  import opened Packing
  import opened Http
  import opened LegacyJson
  import InternalTranslator

  const CommentServer: string := "nmsg.nicovideo.jp:443"
  const CommentServerIP: string := "133.152.39.27:443"
  const TranslatorPapago: string := "papago"

  /** The buffers `chunkize` builds from the comments. */
  function Chunks(comments: seq<Comment>): seq<bytes>
  {
    Render(Pack([Chunk([], [])], SectionItems(Texts(comments)), MaxChunkLength))
  }

  /** The text read back: every translated piece followed by `\n`. */
  function Translation(sequences: seq<InternalTranslator.TranslatedSequence>): bytes
  {
    Concat(seq(|sequences|, k requires 0 <= k < |sequences| => sequences[k].translated + [NL]))
  }

  /** `handleDialContext`: the address actually dialled for `addr`. Only
      the comment server's address is redirected, and never to itself. */
  function DialTarget(addr: string): (r: string)
    ensures addr == CommentServer ==> r == CommentServerIP
    ensures r != addr <==> addr == CommentServer
    ensures r != CommentServer
  {
    if addr == CommentServer then CommentServerIP else addr
  }

  /** `chunkize`: every comment wrapped as `§\n<content>\n` and packed
      greedily into buffers of at most `MaxChunkLength` bytes. */
  method Chunkize(comments: seq<Comment>) returns (chunks: seq<bytes>)
    ensures chunks == Chunks(comments)
  {
    ghost var items := SectionItems(Texts(comments));
    ghost var start := [Chunk([], [])];
    chunks := [[]];
    assert Concat<bytes>([]) == [];
    assert Render(start) == chunks;
    for i := 0 to |comments|
      invariant chunks == Render(Pack(start, items[..i], MaxChunkLength))
    {
      var idx := |chunks| - 1;
      var item := SectionItem(comments[i].content);
      var nextChunkLength := |chunks[idx]| + |item|;
      if nextChunkLength > MaxChunkLength {
        idx := idx + 1;
      }
      if |chunks| <= idx {
        chunks := chunks + [[]];
      }
      ghost var grown := chunks;
      chunks := chunks[idx := chunks[idx] + item];
      assert Texts(comments)[i] == comments[i].content;
      assert item == items[i];
      PackLoopStep(start, items, i, MaxChunkLength, idx, grown, chunks);
    }
    assert items[..|comments|] == items;
  }

  /** `handle`. The comment server's answer is `upstream`; the translator
      named by `translatorType` is `papago`, which returns the translated
      pieces in chunk order (or the error its goroutine panics with); the
      JSON encoder is `encode`. */
  method Handle(request: Request, upstream: Result<seq<Json>, Error>, translatorType: string,
                papago: seq<bytes> -> Result<seq<InternalTranslator.TranslatedSequence>, Error>,
                encode: seq<Json> -> Result<bytes, Error>)
    returns (response: Response)
    ensures request.verb != MethodPost ==> response == Reply(StatusBadRequest, None, [])
    ensures request.verb == MethodPost && upstream.Failure? ==> response == Crashed(Raised(upstream.error))
    ensures request.verb == MethodPost && upstream.Success? && Extract(upstream.value).Panicked? ==>
              response == Crashed(Extract(upstream.value).panic)
    ensures request.verb == MethodPost && upstream.Success? && Extract(upstream.value).Returned?
            && translatorType == TranslatorPapago && papago(Chunks(Extract(upstream.value).value)).Failure? ==>
              response == Crashed(Raised(papago(Chunks(Extract(upstream.value).value)).error))
    ensures request.verb == MethodPost && upstream.Success? && Extract(upstream.value).Returned?
            && (translatorType != TranslatorPapago || papago(Chunks(Extract(upstream.value).value)) == Success([])) ==>
              response == Encoded(upstream.value, encode)
    ensures request.verb == MethodPost && upstream.Success? && Extract(upstream.value).Returned?
            && translatorType == TranslatorPapago && papago(Chunks(Extract(upstream.value).value)).Success?
            && papago(Chunks(Extract(upstream.value).value)).value != [] ==>
              var comments := Extract(upstream.value).value;
              var matches := SectionMatches(Translation(papago(Chunks(comments)).value));
              match Rewrite(upstream.value, comments, matches)
              case Panicked(p) => response == Aborted(p)
              case Returned(items) => response == Encoded(items, encode)
  {
    if request.verb != MethodPost {
      return Reply(StatusBadRequest, None, []);
    }
    if upstream.Failure? {
      return Crashed(Raised(upstream.error));
    }
    var extracted := ExtractComments(upstream.value);
    if extracted.Panicked? {
      return Crashed(extracted.panic);
    }
    var comments := extracted.value;
    var chunks := Chunkize(comments);

    var sequences: seq<InternalTranslator.TranslatedSequence> := [];
    if translatorType == TranslatorPapago {
      var translation := papago(chunks);
      if translation.Failure? {
        return Crashed(Raised(translation.error));
      }
      sequences := translation.value;
    }

    var payload := upstream.value;
    if |sequences| > 0 {
      var translated: bytes := [];
      ghost var pieces := seq(|sequences|, k requires 0 <= k < |sequences| => sequences[k].translated + [NL]);
      for i := 0 to |sequences|
        invariant translated == Concat(pieces[..i])
      {
        assert pieces[..i + 1] == pieces[..i] + [pieces[i]];
        ConcatSnoc(pieces[..i], pieces[i]);
        translated := translated + sequences[i].translated;
        translated := translated + [NL];
      }
      assert pieces[..|sequences|] == pieces;
      var rewritten := ApplyMatches(upstream.value, comments, SectionMatches(translated));
      if rewritten.Panicked? {
        return Aborted(rewritten.panic);
      }
      payload := rewritten.value;
    }

    var encoded := encode(payload);
    if encoded.Failure? {
      return Aborted(Raised(encoded.error));
    }
    return Reply(StatusOK, Some("*"), encoded.value);
  }

  // ---------------------------------------------------------------- properties

  /** The buffers hold every wrapped comment, in order, and nothing else;
      a buffer longer than `MaxChunkLength` holds a single comment that is
      longer than that by itself. */
  lemma ChunksSpec(comments: seq<Comment>)
    ensures Concat(Chunks(comments)) == Concat(SectionItems(Texts(comments)))
    ensures forall j :: 0 <= j < |Chunks(comments)| && |Chunks(comments)[j]| > MaxChunkLength ==>
              exists k :: 0 <= k < |comments| && Chunks(comments)[j] == SectionItem(comments[k].content)
  {
    var items := SectionItems(Texts(comments));
    var start := [Chunk([], [])];
    PackBytes(start, items, MaxChunkLength);
    assert Concat(Render(start)) == [] by {
      assert Render(start) == [[]];
      ConcatSingle<byte>([]);
    }
    forall j | 0 <= j < |Chunks(comments)| && |Chunks(comments)[j]| > MaxChunkLength
      ensures exists k :: 0 <= k < |comments| && Chunks(comments)[j] == SectionItem(comments[k].content)
    {
      OversizedChunk(comments, j);
    }
  }

  /** A buffer longer than `MaxChunkLength` is a single wrapped comment. */
  lemma OversizedChunk(comments: seq<Comment>, j: nat)
    requires j < |Chunks(comments)| && |Chunks(comments)[j]| > MaxChunkLength
    ensures exists k :: 0 <= k < |comments| && Chunks(comments)[j] == SectionItem(comments[k].content)
  {
    var items := SectionItems(Texts(comments));
    var start := [Chunk([], [])];
    var r := Pack(start, items, MaxChunkLength);
    assert Chunks(comments)[j] == Bytes(r[j]);
    PackWithinSize(start, items, MaxChunkLength);
    assert WithinSize(r[j], MaxChunkLength);
    if r[j].items == [] {
      assert Bytes(r[j]) == r[j].head;
      if j == 0 {
        PackKeepsStart(start, items, MaxChunkLength);
      } else {
        PackNewChunks(start, items, MaxChunkLength);
      }
      assert false;
    }
    PackItems(start, items, MaxChunkLength);
    assert AllItems(start) == [] by {
      assert seq(1, k requires 0 <= k < 1 => start[k].items) == [[]];
      ConcatSingle<bytes>([]);
    }
    assert r[j].head == [] && |r[j].items| == 1;
    assert r[j].items == [r[j].items[0]];
    ConcatSingle(r[j].items[0]);
    assert Bytes(r[j]) == r[j].items[0];
    ItemOfPack(r, j, items);
    var k :| 0 <= k < |items| && r[j].items[0] == items[k];
    assert items[k] == SectionItem(comments[k].content);
  }

  /** An item of one of the buffers is one of the items packed. */
  lemma ItemOfPack(r: seq<Chunk>, j: nat, items: seq<bytes>)
    requires j < |r| && |r[j].items| > 0
    requires AllItems(r) == items
    ensures exists k :: 0 <= k < |items| && r[j].items[0] == items[k]
  {
    var parts := seq(|r|, k requires 0 <= k < |r| => r[k].items);
    assert parts == parts[..j] + [parts[j]] + parts[j + 1..];
    ConcatAppend(parts[..j] + [parts[j]], parts[j + 1..]);
    ConcatAppend(parts[..j], [parts[j]]);
    ConcatSingle(parts[j]);
    var at := |Concat(parts[..j])|;
    assert AllItems(r)[at] == r[j].items[0];
  }

  /** Round trip of the first server when all comments fit into one
      buffer: with a translator that returns its input, and no `§` in any
      comment, every comment is read back with `\n` appended, the last one
      with `\n\n` (the reader's own `\n` follows the buffer's). */
  lemma IdentityOneChunk(comments: seq<Comment>)
    requires comments != []
    requires |Concat(SectionItems(Texts(comments)))| <= MaxChunkLength
    requires forall k :: 0 <= k < |comments| ==> !HasSection(comments[k].content)
    ensures Chunks(comments) == [Concat(SectionItems(Texts(comments)))]
    ensures var c := Chunks(comments)[0];
            SectionMatches(Translation([InternalTranslator.TranslatedSequence(0, c, c)]))
            == seq(|comments|, k requires 0 <= k < |comments| =>
                     if k == |comments| - 1 then comments[k].content + [NL, NL] else comments[k].content + [NL])
  {
    var texts := Texts(comments);
    var items := SectionItems(texts);
    PackSingle(items, MaxChunkLength);
    assert Bytes(Chunk([], items)) == [] + Concat(items) == Concat(items);
    assert Render([Chunk([], items)]) == [Concat(items)];
    var c := Concat(items);
    var pieces := seq(1, k requires 0 <= k < 1 => [InternalTranslator.TranslatedSequence(0, c, c)][k].translated + [NL]);
    assert pieces == [c + [NL]];
    ConcatSingle(c + [NL]);
    forall k | 0 <= k < |texts| ensures !HasSection(texts[k]) {
      assert texts[k] == comments[k].content;
    }
    SectionRoundTripNewline(texts);
  }
}
