/** The request handler of cmd/nicotrans/main.go. Each chat is sent to the
    translator wrapped with its own position (`§<i>\n` + content + `\n`);
    the translated text is searched for `§<i>\n` bodies and each body goes
    back onto the chat the marker names. */
module CmdNicotrans {
  import opened Common
  import opened Decimal
  import opened Markers
  import opened NicoMessage
  import opened Http

  /** The queries sent to the translator: one per chat, in chat order,
      each wrapped with the chat's position. */
  function Queries(chats: seq<MessageChat>): seq<bytes>
  {
    IndexedItems(Contents(chats))
  }

  /** The writes the parsed matches perform, in order. */
  function QueryWrites(matches: seq<Query>): seq<Write<bytes>>
  {
    seq(|matches|, k requires 0 <= k < |matches| => Write(matches[k].index, matches[k].body))
  }

  /** Every match names a chat that exists. */
  predicate InRange(chats: seq<MessageChat>, matches: seq<Query>)
  {
    forall k :: 0 <= k < |matches| ==> 0 <= matches[k].index < |chats|
  }

  /** The chats after every match has been written into the chat it
      names: the last body written into a chat wins. */
  function Applied(chats: seq<MessageChat>, matches: seq<Query>): seq<MessageChat>
  {
    seq(|chats|, j requires 0 <= j < |chats| =>
      match LastWrite(QueryWrites(matches), j)
      case None => chats[j]
      case Some(b) => chats[j].(content := b))
  }

  /** The apply-by-index loop: a match naming a chat that does not exist
      panics. */
  function ApplyQueries(chats: seq<MessageChat>, matches: seq<Query>): Outcome<seq<MessageChat>>
  {
    if InRange(chats, matches) then Returned(Applied(chats, matches)) else Panicked(IndexOutOfRange)
  }

  predicate Admitted(request: Request)
  {
    request.path == ApiPath && request.verb == MethodPost
  }

  /** `handle`. `dial` is how the transport's dial for the POST to the
      comment server ended (`NicoNet.Dial`): it runs on a goroutine of
      `net/http`'s own, so its panic is not recovered and ends the process.
      The comment server's answer is `upstream`, the translator is
      `translate` (the texts it returns, in order, or its error) and the
      JSON encoder is `encode`. */
  method Handle(request: Request, dial: Outcome<string>, upstream: Answer,
                translate: seq<bytes> -> Result<seq<bytes>, Error>,
                encode: seq<Payload> -> Result<bytes, Error>)
    returns (response: Response)
    ensures response.Reply? ==> response.allowOrigin == Some("*")
    ensures response.Crashed? <==> Admitted(request) && dial.Panicked?
    ensures request.path != ApiPath ==> response == Reply(StatusNotFound, Some("*"), [])
    ensures request.path == ApiPath && request.verb != MethodPost ==> response == Reply(StatusBadRequest, Some("*"), [])
    ensures Admitted(request) && dial.Panicked? ==> response == Crashed(dial.panic)
    ensures Admitted(request) && dial.Returned? && upstream.error.Some? ==>
              response == Reply(StatusInternalServerError, Some("*"), [])
    ensures Admitted(request) && dial.Returned? && upstream.error.None?
            && translate(Queries(ChatsOf(upstream.records))).Failure? ==>
              response == Reply(StatusInternalServerError, Some("*"), [])
    ensures Admitted(request) && dial.Returned? && upstream.error.None?
            && translate(Queries(ChatsOf(upstream.records))).Success? ==>
              var chats := ChatsOf(upstream.records);
              var matches := IndexedMatches(Concat(translate(Queries(chats)).value));
              match ApplyQueries(chats, matches)
              case Panicked(p) => response == Aborted(p)
              case Returned(applied) =>
                var encoded := encode(WriteBack(upstream.records, applied).0);
                response == if encoded.Success? then Reply(StatusOK, Some("*"), encoded.value)
                            else Reply(StatusInternalServerError, Some("*"), [])
  {
    if request.path != ApiPath {
      return Reply(StatusNotFound, Some("*"), []);
    }
    if request.verb != MethodPost {
      return Reply(StatusBadRequest, Some("*"), []);
    }
    if dial.Panicked? {
      return Crashed(dial.panic);
    }

    var message := Fetch(upstream);
    if message.error.Some? {
      return Reply(StatusInternalServerError, Some("*"), []);
    }
    var chats := message.chats;

    var queries := new bytes[|message.chats|];
    for index := 0 to |message.chats|
      invariant message.chats == chats && message.payload == upstream.records
      invariant forall k :: 0 <= k < index ==> queries[k] == IndexedItem(k, chats[k].content)
    {
      queries[index] := IndexedItem(index, message.chats[index].content);
    }
    assert queries[..] == Queries(chats);

    var translated := translate(queries[..]);
    if translated.Failure? {
      return Reply(StatusInternalServerError, Some("*"), []);
    }
    var texts := translated.value;

    var translatedBytes: bytes := [];
    for i := 0 to |texts|
      invariant message.chats == chats && message.payload == upstream.records
      invariant translatedBytes == Concat(texts[..i])
    {
      assert texts[..i + 1] == texts[..i] + [texts[i]];
      ConcatSnoc(texts[..i], texts[i]);
      translatedBytes := translatedBytes + texts[i];
    }
    assert texts[..|texts|] == texts;

    response := WriteTranslation(message, translatedBytes, encode);
  }

  /** The rest of `handle` once the translated texts are joined: every
      match is written into the chat it names, the chats go back onto the
      records, and the records are encoded. */
  method WriteTranslation(message: Message, translated: bytes, encode: seq<Payload> -> Result<bytes, Error>)
    returns (response: Response)
    requires message.chats == ChatsOf(message.payload)
    modifies message
    ensures match ApplyQueries(old(message.chats), IndexedMatches(translated))
            case Panicked(p) => response == Aborted(p)
            case Returned(applied) =>
              var encoded := encode(WriteBack(old(message.payload), applied).0);
              response == if encoded.Success? then Reply(StatusOK, Some("*"), encoded.value)
                          else Reply(StatusInternalServerError, Some("*"), [])
  {
    var chats := message.chats;
    var records := message.payload;
    var matches := IndexedMatches(translated);
    for i := 0 to |matches|
      invariant message.payload == records && |message.chats| == |chats|
      invariant InRange(chats, matches[..i])
      invariant message.chats == Applied(chats, matches[..i])
    {
      var index := matches[i].index;
      if !(0 <= index < |message.chats|) {
        assert !InRange(chats, matches) by {
          assert matches[i] == matches[i];
        }
        return Aborted(IndexOutOfRange);
      }
      AppliedStep(chats, matches, i);
      InRangeStep(chats, matches, i);
      message.chats := message.chats[index := message.chats[index].(content := matches[i].body)];
    }
    assert matches[..|matches|] == matches;

    assert forall k :: 0 <= k < |chats| ==> message.chats[k].index == chats[k].index;
    WriteBackSamePositions(records, message.chats);
    var out := MessageToPayload(message, encode);
    if out.Panicked? {
      assert false;
    }
    var payload := out.value;
    if payload.Failure? {
      return Reply(StatusInternalServerError, Some("*"), []);
    }
    return Reply(StatusOK, Some("*"), payload.value);
  }

  // ---------------------------------------------------------------- properties

  /** One more match naming an existing chat keeps every match in range. */
  lemma InRangeStep(chats: seq<MessageChat>, matches: seq<Query>, i: nat)
    requires i < |matches| && InRange(chats, matches[..i]) && 0 <= matches[i].index < |chats|
    ensures InRange(chats, matches[..i + 1])
  {
    var grown := matches[..i + 1];
    forall k | 0 <= k < |grown| ensures 0 <= grown[k].index < |chats| {
      if k < i {
        assert grown[k] == matches[..i][k];
      }
    }
  }

  /** One more match writes its body into the chat it names. */
  lemma AppliedStep(chats: seq<MessageChat>, matches: seq<Query>, i: nat)
    requires i < |matches| && 0 <= matches[i].index < |chats|
    ensures Applied(chats, matches[..i + 1])
            == Applied(chats, matches[..i])[matches[i].index := Applied(chats, matches[..i])[matches[i].index].(content := matches[i].body)]
  {
    var ws := QueryWrites(matches[..i + 1]);
    assert ws[..i] == QueryWrites(matches[..i]);
  }

  /** The apply-by-index loop keeps every chat's position; a chat no match
      names keeps its content; a chat takes the body of the last match
      that names it. */
  lemma ApplyQueriesSpec(chats: seq<MessageChat>, matches: seq<Query>)
    requires InRange(chats, matches)
    ensures |Applied(chats, matches)| == |chats|
    ensures forall j :: 0 <= j < |chats| ==> Applied(chats, matches)[j].index == chats[j].index
    ensures forall j :: 0 <= j < |chats| && (forall k :: 0 <= k < |matches| ==> matches[k].index != j) ==>
              Applied(chats, matches)[j] == chats[j]
    ensures forall k :: 0 <= k < |matches| && (forall l :: k < l < |matches| ==> matches[l].index != matches[k].index) ==>
              Applied(chats, matches)[matches[k].index].content == matches[k].body
  {
    var ws := QueryWrites(matches);
    var r := Applied(chats, matches);
    forall j | 0 <= j < |chats| && (forall k :: 0 <= k < |matches| ==> matches[k].index != j)
      ensures r[j] == chats[j]
    {
      LastWriteSpec(ws, j);
    }
    forall k | 0 <= k < |matches| && (forall l :: k < l < |matches| ==> matches[l].index != matches[k].index)
      ensures r[matches[k].index].content == matches[k].body
    {
      var j := matches[k].index;
      LastWriteSpec(ws, j);
      assert ws[k].at == j;
      var k' :| 0 <= k' < |ws| && ws[k'].at == j && ws[k'].value == LastWrite(ws, j).value
                && forall l :: k' < l < |ws| ==> ws[l].at != j;
      assert ws[k'].at == matches[k'].index;
      if k' != k {
        assert false;
      }
    }
  }

  /** Round trip of the indexed queries: with a translator that returns
      its input, and no `§` in any content, every chat gets its own content
      back followed by `\n`. */
  lemma IdentityQueries(chats: seq<MessageChat>)
    requires |chats| <= MaxInt + 1
    requires forall k :: 0 <= k < |chats| ==> !HasSection(chats[k].content)
    ensures ApplyQueries(chats, IndexedMatches(Concat(Queries(chats)))) == Returned(WithNewline(chats))
  {
    var cs := Contents(chats);
    IndexedRoundTrip(cs);
    var matches := IndexedMatches(Concat(Queries(chats)));
    assert |matches| == |chats|;
    assert forall k :: 0 <= k < |matches| ==> matches[k] == Query(k, chats[k].content + [NL]);
    assert InRange(chats, matches);
    var ws := QueryWrites(matches);
    var r := Applied(chats, matches);
    forall j | 0 <= j < |chats| ensures r[j] == WithNewline(chats)[j] {
      assert ws[j] == Write(j, chats[j].content + [NL]);
      LastWriteDistinct(ws, j);
    }
    assert r == WithNewline(chats);
  }

  /** The handler with a translator that returns its input: every record
      with a chat comes back with its content followed by `\n`, every other
      record as it was. */
  lemma IdentityHandle(payload: seq<Payload>)
    requires |ChatsOf(payload)| <= MaxInt + 1
    requires forall i :: 0 <= i < |payload| && payload[i].chat.Some? ==> !HasSection(payload[i].chat.value.content)
    ensures var chats := ChatsOf(payload);
            ApplyQueries(chats, IndexedMatches(Concat(Queries(chats)))) == Returned(WithNewline(chats))
            && WriteBack(payload, WithNewline(chats)) == (PayloadWithNewline(payload), None)
  {
    var chats := ChatsOf(payload);
    ChatsOfSpec(payload);
    IdentityQueries(chats);
    WriteBackWithNewline(payload);
  }
}
