/** The second server, nicotrans.go: comments wrapped as `$` items, packed
    into buffers, translated one buffer after another, read back with
    `(?m)^\$\n(.+)` and written back by position. Everything runs on the
    handler's goroutine, so a panic only drops the connection. */
module LegacyNicotrans {
  import opened Common
  import opened Markers
  import opened Packing
  import opened Http
  import opened LegacyJson

  /** The buffers `repliesToChunks` appends to, through a pointer to the
      caller's slice. */
  class ChunkList {
    var buffers: seq<bytes>

    /** `[]bytes.Buffer{bytes.Buffer{}}`: one empty buffer. */
    constructor ()
      ensures buffers == [[]]
    {
      buffers := [[]];
    }

    /** `repliesToChunks`: every reply wrapped as `$\n<content>\n` and
        packed greedily after the existing buffers, at most
        `MaxChunkLength` bytes to a buffer. With no buffer to start from,
        the first reply indexes past the end of the slice. */
    method RepliesToChunks(replies: seq<Comment>) returns (panic: Option<Panic>)
      modifies this
      ensures old(buffers) == [] ==> buffers == old(buffers)
                                     && panic == if replies == [] then None else Some(IndexOutOfRange)
      ensures old(buffers) != [] ==>
                panic == None && buffers == Render(Pack(Existing(old(buffers)), DollarItems(Texts(replies)), MaxChunkLength))
    {
      if buffers == [] {
        if replies != [] {
          return Some(IndexOutOfRange);
        }
        return None;
      }
      buffers := Packed(buffers, replies);
      return None;
    }
  }

  /** The loop of `repliesToChunks` on the slice's contents. */
  method Packed(chunks: seq<bytes>, replies: seq<Comment>) returns (result: seq<bytes>)
    requires chunks != []
    ensures result == Render(Pack(Existing(chunks), DollarItems(Texts(replies)), MaxChunkLength))
  {
    ghost var items := DollarItems(Texts(replies));
    ghost var start := Existing(chunks);
    result := chunks;
    assert Render(start) == result by {
      forall k | 0 <= k < |chunks| ensures Render(start)[k] == chunks[k] {
        assert Concat<bytes>([]) == [];
      }
    }
    for i := 0 to |replies|
      invariant result == Render(Pack(start, items[..i], MaxChunkLength))
    {
      var idx := |result| - 1;
      var message := DollarItem(replies[i].content);
      var nextChunkLength := |result[idx]| + |message|;
      if nextChunkLength > MaxChunkLength {
        idx := idx + 1;
      }
      if |result| <= idx {
        result := result + [[]];
      }
      ghost var grown := result;
      result := result[idx := result[idx] + message];
      assert Texts(replies)[i] == replies[i].content;
      assert message == items[i];
      PackLoopStep(start, items, i, MaxChunkLength, idx, grown, result);
    }
    assert items[..|replies|] == items;
  }

  /** The buffers the handler builds from the replies. */
  function Chunks(replies: seq<Comment>): seq<bytes>
  {
    Render(Pack(Existing([[]]), DollarItems(Texts(replies)), MaxChunkLength))
  }

  /** The buffers translated one after another by `fetchTranslate`, whose
      first error is raised as a panic; the translations joined. */
  function TranslateAll(chunks: seq<bytes>, fetchTranslate: bytes -> Result<bytes, Error>): Result<bytes, Error>
  {
    if chunks == [] then Success([])
    else
      var n := |chunks| - 1;
      match TranslateAll(chunks[..n], fetchTranslate)
      case Failure(e) => Failure(e)
      case Success(t) =>
        match fetchTranslate(chunks[n])
        case Failure(e) => Failure(e)
        case Success(u) => Success(t + u)
  }

  /** The `/api.json/` handler. The comment server's answer is `upstream`,
      the translator is `fetchTranslate` and the JSON encoder is `encode`. */
  method Handle(request: Request, upstream: Result<seq<Json>, Error>,
                fetchTranslate: bytes -> Result<bytes, Error>,
                encode: seq<Json> -> Result<bytes, Error>)
    returns (response: Response)
    ensures !response.Crashed?
    ensures request.verb != MethodPost ==> response == Reply(StatusBadRequest, None, [])
    ensures request.verb == MethodPost && upstream.Failure? ==> response == Aborted(Raised(upstream.error))
    ensures request.verb == MethodPost && upstream.Success? && Extract(upstream.value).Panicked? ==>
              response == Aborted(Extract(upstream.value).panic)
    ensures request.verb == MethodPost && upstream.Success? && Extract(upstream.value).Returned?
            && TranslateAll(Chunks(Extract(upstream.value).value), fetchTranslate).Failure? ==>
              response == Aborted(Raised(TranslateAll(Chunks(Extract(upstream.value).value), fetchTranslate).error))
    ensures request.verb == MethodPost && upstream.Success? && Extract(upstream.value).Returned?
            && TranslateAll(Chunks(Extract(upstream.value).value), fetchTranslate).Success? ==>
              var replies := Extract(upstream.value).value;
              var matches := DollarMatches(TranslateAll(Chunks(replies), fetchTranslate).value);
              match Rewrite(upstream.value, replies, matches)
              case Panicked(p) => response == Aborted(p)
              case Returned(items) => response == Encoded(items, encode)
  {
    if request.verb != MethodPost {
      return Reply(StatusBadRequest, None, []);
    }
    if upstream.Failure? {
      return Aborted(Raised(upstream.error));
    }
    var extracted := ExtractComments(upstream.value);
    if extracted.Panicked? {
      return Aborted(extracted.panic);
    }
    var replies := extracted.value;

    var chunks := new ChunkList();
    var panic := chunks.RepliesToChunks(replies);
    assert Existing([[]]) == [Chunk([], [])];
    var buffers := chunks.buffers;

    var translated: bytes := [];
    for i := 0 to |buffers|
      invariant TranslateAll(buffers[..i], fetchTranslate) == Success(translated)
    {
      assert buffers[..i + 1][..i] == buffers[..i];
      var translatedString := fetchTranslate(buffers[i]);
      if translatedString.Failure? {
        TranslateAllStops(buffers, fetchTranslate, i + 1);
        return Aborted(Raised(translatedString.error));
      }
      translated := translated + translatedString.value;
    }
    assert buffers[..|buffers|] == buffers;

    var rewritten := ApplyMatches(upstream.value, replies, DollarMatches(translated));
    if rewritten.Panicked? {
      return Aborted(rewritten.panic);
    }
    var payload := encode(rewritten.value);
    if payload.Failure? {
      return Aborted(Raised(payload.error));
    }
    return Reply(StatusOK, Some("*"), payload.value);
  }

  // ---------------------------------------------------------------- properties

  /** Once a translation has failed, later buffers change nothing. */
  lemma {:induction false} TranslateAllStops(chunks: seq<bytes>, fetchTranslate: bytes -> Result<bytes, Error>, k: nat)
    requires k <= |chunks|
    requires TranslateAll(chunks[..k], fetchTranslate).Failure?
    ensures TranslateAll(chunks, fetchTranslate) == TranslateAll(chunks[..k], fetchTranslate)
    decreases |chunks|
  {
    if k < |chunks| {
      var n := |chunks| - 1;
      assert chunks[..n][..k] == chunks[..k];
      TranslateAllStops(chunks[..n], fetchTranslate, k);
    } else {
      assert chunks[..k] == chunks;
    }
  }

  /** A translator that returns its input gives back the buffers joined. */
  lemma {:induction false} TranslateAllIdentity(chunks: seq<bytes>, fetchTranslate: bytes -> Result<bytes, Error>)
    requires forall t :: fetchTranslate(t) == Success(t)
    ensures TranslateAll(chunks, fetchTranslate) == Success(Concat(chunks))
  {
    if chunks != [] {
      var n := |chunks| - 1;
      TranslateAllIdentity(chunks[..n], fetchTranslate);
      assert chunks == chunks[..n] + [chunks[n]];
      ConcatSnoc(chunks[..n], chunks[n]);
    }
  }

  /** The buffers joined are the wrapped replies joined. */
  lemma ChunksJoined(replies: seq<Comment>)
    ensures Concat(Chunks(replies)) == Concat(DollarItems(Texts(replies)))
  {
    var start := Existing([[]]);
    PackBytes(start, DollarItems(Texts(replies)), MaxChunkLength);
    assert Concat(Render(start)) == [] by {
      assert Render(start) == [[]];
      ConcatSingle<byte>([]);
    }
  }

  /** With a translator that returns its input, the `$` bodies read back
      are the comment texts, when every comment is a single line. */
  lemma IdentityTranslation(replies: seq<Comment>, fetchTranslate: bytes -> Result<bytes, Error>)
    requires forall t :: fetchTranslate(t) == Success(t)
    requires forall k :: 0 <= k < |replies| ==> |replies[k].content| > 0 && NL !in replies[k].content
    ensures TranslateAll(Chunks(replies), fetchTranslate) == Success(Concat(DollarItems(Texts(replies))))
    ensures DollarMatches(Concat(DollarItems(Texts(replies)))) == Texts(replies)
  {
    var texts := Texts(replies);
    TranslateAllIdentity(Chunks(replies), fetchTranslate);
    ChunksJoined(replies);
    forall k | 0 <= k < |texts| ensures |texts[k]| > 0 && NL !in texts[k] {
      assert texts[k] == replies[k].content;
    }
    DollarRoundTripSingleLine(texts);
  }

  /** Writing every comment's own text back leaves the records as they
      were. */
  lemma RewriteOwnTexts(items: seq<Json>, replies: seq<Comment>)
    requires Extract(items) == Returned(replies)
    ensures Rewrite(items, replies, Texts(replies)) == Returned(items)
  {
    var texts := Texts(replies);
    ExtractSpec(items);
    RewriteSpec(items, replies, texts);
    assert |texts| == |replies|;
    var r := Rewrite(items, replies, texts).value;
    forall i | 0 <= i < |items| ensures r[i] == items[i] {
      if k :| 0 <= k < |texts| && replies[k].index == i {
        SetContentSpec(items[i], replies[k].content, texts[k]);
      }
    }
    assert r == items;
  }

  /** Round trip of the whole handler: with a translator that returns its
      input, and comments that are single lines, every record comes back
      as it was. */
  lemma IdentityHandle(items: seq<Json>, fetchTranslate: bytes -> Result<bytes, Error>)
    requires forall t :: fetchTranslate(t) == Success(t)
    requires Extract(items).Returned?
    requires forall k :: 0 <= k < |Extract(items).value| ==> NL !in Extract(items).value[k].content
    ensures TranslateAll(Chunks(Extract(items).value), fetchTranslate).Success?
    ensures Rewrite(items, Extract(items).value,
                    DollarMatches(TranslateAll(Chunks(Extract(items).value), fetchTranslate).value)) == Returned(items)
  {
    ExtractSpec(items);
    IdentityTranslation(Extract(items).value, fetchTranslate);
    RewriteOwnTexts(items, Extract(items).value);
  }

  /** A comment whose text starts with `\n` produces no match, so the
      translation of the next comment lands on it: for the texts "\nx" and
      "y" a single body, "y", is read back and written onto the first
      comment. */
  lemma LeadingNewlineShifts()
    ensures DollarMatches(Concat(DollarItems([[NL, 0x78], [0x79]]))) == [[0x79]]
  {
    var cs: seq<bytes> := [[NL, 0x78], [0x79]];
    var items := DollarItems(cs);
    assert items[0] == DollarItem(cs[0]) == [DOLLAR, NL, NL, 0x78, NL];
    assert items[1] == DollarItem(cs[1]) == [DOLLAR, NL, 0x79, NL];
    assert items == [items[0]] + [items[1]];
    ConcatCons(items[0], [items[1]]);
    ConcatSingle(items[1]);
    var t := Concat(items);
    assert t == [DOLLAR, NL, NL, 0x78, NL, DOLLAR, NL, 0x79, NL];
    var u: bytes := [DOLLAR, NL, 0x79, NL];
    assert t[5..] == u;
    assert u[2..] == [0x79, NL];
    assert LineRun([0x79, NL]) == 1;
    assert DollarBodyLen(u) == 1;
    assert u[3..] == [NL];
    assert DollarScan([NL], false) == [];
    assert DollarScan(u, true) == [[0x79]];
    assert DollarScan(t[4..], false) == DollarScan(t[5..], true);
    assert DollarScan(t[3..], true) == DollarScan(t[4..], false);
    assert DollarScan(t[2..], true) == DollarScan(t[3..], true);
    assert DollarScan(t[1..], false) == DollarScan(t[2..], true);
    assert DollarBodyLen(t) == 0 by { assert t[2..][0] == NL; }
  }
}
