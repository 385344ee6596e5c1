/** The comment pipeline of pkg/nico/message.go: the records the comment
    server returns, the chats picked out of them, the `§` chunks sent to
    the translator, the translated bodies written back onto the chats, and
    the chats written back onto the records. */
module NicoMessage {
  import opened Common
  import opened Markers
  import opened Packing

  // ---------------------------------------------------------------- records

  datatype PayloadPing = PayloadPing(content: string)

  datatype PayloadGlobalNumRes = PayloadGlobalNumRes(thread: string, numRes: int)

  datatype PayloadThread = PayloadThread(
    resultCode: int, thread: string, serverTime: int, ticket: string, revision: int,
    fork: int, lastRes: int, clickRevision: int)

  /** `leaf` is kept as the raw JSON text it was received as. */
  datatype PayloadLeaf = PayloadLeaf(thread: string, count: int, leaf: bytes)

  /** One comment. Only `content` takes part in translation. */
  datatype PayloadChat = PayloadChat(
    thread: string, no: int, vpos: int, leaf: int, date: int, score: int, anonymity: int,
    userId: string, mail: string, content: bytes, premium: int, deleted: int, dateUsec: int,
    nicoru: int, lastNicoruDate: string)

  /** One record of the comment server's answer: each part may be absent
      (a nil pointer in Go). */
  datatype Payload = Payload(
    ping: Option<PayloadPing>, globalNumRes: Option<PayloadGlobalNumRes>,
    thread: Option<PayloadThread>, leaf: Option<PayloadLeaf>, chat: Option<PayloadChat>)

  /** A chat picked out of the records: its record's position and text. */
  datatype MessageChat = MessageChat(index: int, content: bytes)

  /** The records, the chats picked out of them, and the error that ended
      the fetch, if any. */
  class Message {
    var payload: seq<Payload>
    var chats: seq<MessageChat>
    var error: Option<Error>

    /** The zero `Message`. */
    constructor ()
      ensures payload == [] && chats == [] && error == None
    {
      payload := [];
      chats := [];
      error := None;
    }
  }

  // ---------------------------------------------------------------- specification functions

  /** The chats of the records, in record order: one per record that has a
      chat, whatever its content. */
  function ChatsOf(payload: seq<Payload>): seq<MessageChat>
  {
    if payload == [] then []
    else
      var n := |payload| - 1;
      ChatsOf(payload[..n]) + if payload[n].chat.Some? then [MessageChat(n, payload[n].chat.value.content)] else []
  }

  /** The contents of the chats, in order. */
  function Contents(chats: seq<MessageChat>): seq<bytes>
  {
    seq(|chats|, k requires 0 <= k < |chats| => chats[k].content)
  }

  /** The items sent for translation: `§\n` + content + `\n` per chat. */
  function ChatItems(chats: seq<MessageChat>): seq<bytes>
  {
    SectionItems(Contents(chats))
  }

  /** Chat `k` takes body `k`, as far as there are bodies; the positions of
      the chats stay. */
  function Overwrite(chats: seq<MessageChat>, bodies: seq<bytes>): seq<MessageChat>
  {
    seq(|chats|, k requires 0 <= k < |chats| => if k < |bodies| then chats[k].(content := bodies[k]) else chats[k])
  }

  /** The record with its chat's content replaced. */
  function WithContent(p: Payload, content: bytes): Payload
    requires p.chat.Some?
  {
    p.(chat := Some(p.chat.value.(content := content)))
  }

  /** A chat whose record exists and has a chat to write into. */
  predicate Targets(payload: seq<Payload>, c: MessageChat)
  {
    0 <= c.index < |payload| && payload[c.index].chat.Some?
  }

  /** The writes the write-back loop performs, in order. */
  function Writes(chats: seq<MessageChat>): seq<Write<bytes>>
  {
    seq(|chats|, k requires 0 <= k < |chats| => Write(chats[k].index, chats[k].content))
  }

  /** A record after the write-back: the last content written into it, if
      any. */
  function Written(p: Payload, w: Option<bytes>): Payload
  {
    if w.Some? && p.chat.Some? then WithContent(p, w.value) else p
  }

  /** The write-back loop of `MessageToPayload`: chat by chat, the content
      goes into the chat of the record at the chat's index. An index outside
      the records panics, and so does a record without a chat; the records
      keep the writes done before the panic. */
  function WriteBack(payload: seq<Payload>, chats: seq<MessageChat>): (seq<Payload>, Option<Panic>)
  {
    if chats == [] then (payload, None)
    else
      var n := |chats| - 1;
      var (p, e) := WriteBack(payload, chats[..n]);
      var i := chats[n].index;
      if e.Some? then (p, e)
      else if !(0 <= i < |p|) then (p, Some(IndexOutOfRange))
      else if p[i].chat.None? then (p, Some(NilDereference))
      else (p[i := WithContent(p[i], chats[n].content)], None)
  }

  // ---------------------------------------------------------------- the operations

  /** What `result.Payload` holds once the comment server has answered,
      and the error that ended the POST, the read or the JSON decoding, if
      any. A failed POST or read leaves no records; `json.Unmarshal` goes on
      decoding past a value of the wrong type and reports it at the end, so
      records may come with an error. */
  datatype Answer = Answer(records: seq<Payload>, error: Option<Error>)

  /** `Fetch` after the comment server answered: the records are kept as
      decoded, and the chats are picked out of them only when nothing
      failed. */
  method Fetch(upstream: Answer) returns (result: Message)
    ensures fresh(result)
    ensures result.payload == upstream.records && result.error == upstream.error
    ensures upstream.error.Some? ==> result.chats == []
    ensures upstream.error.None? ==> result.chats == ChatsOf(upstream.records)
  {
    result := new Message();
    result.payload := upstream.records;
    if upstream.error.Some? {
      result.error := upstream.error;
      return;
    }
    for i := 0 to |result.payload|
      invariant result.payload == upstream.records && result.error == None
      invariant result.chats == ChatsOf(result.payload[..i])
    {
      assert result.payload[..i + 1][..i] == result.payload[..i];
      if result.payload[i].chat.Some? {
        result.chats := result.chats + [MessageChat(i, result.payload[i].chat.value.content)];
      }
    }
    assert result.payload[..|result.payload|] == result.payload;
  }

  /** The chats wrapped as `§` items and packed greedily into buffers of at
      most `size` bytes (a single item longer than that gets a buffer of its
      own). */
  method MessageToChunks(message: Message, size: int) returns (chunks: seq<bytes>)
    ensures chunks == Render(Pack([Chunk([], [])], ChatItems(message.chats), size))
    ensures |chunks| >= 1 && (message.chats == [] ==> chunks == [[]])
  {
    ghost var items := ChatItems(message.chats);
    ghost var start := [Chunk([], [])];
    chunks := [[]];
    assert Concat<bytes>([]) == [];
    assert Render(start) == chunks;
    for i := 0 to |message.chats|
      invariant chunks == Render(Pack(start, items[..i], size))
    {
      var idx := |chunks| - 1;
      var item := SectionItem(message.chats[i].content);
      var nextChunkLength := |chunks[idx]| + |item|;
      if nextChunkLength > size {
        idx := idx + 1;
      }
      if |chunks| <= idx {
        chunks := chunks + [[]];
      }
      ghost var grown := chunks;
      chunks := chunks[idx := chunks[idx] + item];
      assert item == items[i];
      PackLoopStep(start, items, i, size, idx, grown, chunks);
    }
    assert items[..|message.chats|] == items;
  }

  /** The buffers are joined, every `§\n` body is read back, and the k-th
      body becomes the content of the k-th chat. More bodies than chats
      panics once every chat has been written. */
  method ChunksToMessage(message: Message, chunks: seq<bytes>) returns (panic: Option<Panic>)
    modifies message
    ensures message.payload == old(message.payload) && message.error == old(message.error)
    ensures message.chats == Overwrite(old(message.chats), SectionMatches(Concat(chunks)))
    ensures panic == if |SectionMatches(Concat(chunks))| <= |old(message.chats)| then None else Some(IndexOutOfRange)
  {
    var b: bytes := [];
    for i := 0 to |chunks|
      invariant b == Concat(chunks[..i])
      invariant message.chats == old(message.chats)
      invariant message.payload == old(message.payload) && message.error == old(message.error)
    {
      assert chunks[..i + 1] == chunks[..i] + [chunks[i]];
      ConcatSnoc(chunks[..i], chunks[i]);
      b := b + chunks[i];
    }
    assert chunks[..|chunks|] == chunks;
    var matches := SectionMatches(b);
    ghost var was := message.chats;
    for line := 0 to |matches|
      invariant |message.chats| == |was| && line <= |was|
      invariant message.chats == Overwrite(was, matches[..line])
      invariant message.payload == old(message.payload) && message.error == old(message.error)
    {
      if line >= |message.chats| {
        assert Overwrite(was, matches[..line]) == Overwrite(was, matches);
        return Some(IndexOutOfRange);
      }
      message.chats := message.chats[line := message.chats[line].(content := matches[line])];
      assert message.chats == Overwrite(was, matches[..line + 1]);
    }
    assert matches[..|matches|] == matches;
    return None;
  }

  /** The write-back of `MessageToPayload`, then the encoding of the
      records (`encode`, JSON outside the model). The records are changed
      in place: the caller's `Message` shares them. */
  method MessageToPayload(message: Message, encode: seq<Payload> -> Result<bytes, Error>)
    returns (out: Outcome<Result<bytes, Error>>)
    modifies message
    ensures message.chats == old(message.chats) && message.error == old(message.error)
    ensures message.payload == WriteBack(old(message.payload), message.chats).0
    ensures out == match WriteBack(old(message.payload), message.chats).1
                   case Some(p) => Panicked(p)
                   case None => Returned(encode(message.payload))
  {
    ghost var was := message.payload;
    var chats := message.chats;
    for k := 0 to |chats|
      invariant message.chats == chats && message.error == old(message.error)
      invariant WriteBack(was, chats[..k]) == (message.payload, None)
    {
      var chat := chats[k];
      assert chats[..k + 1][..k] == chats[..k];
      if !(0 <= chat.index < |message.payload|) {
        WriteBackStops(was, chats, k + 1);
        return Panicked(IndexOutOfRange);
      }
      if message.payload[chat.index].chat.None? {
        WriteBackStops(was, chats, k + 1);
        return Panicked(NilDereference);
      }
      message.payload := message.payload[chat.index := WithContent(message.payload[chat.index], chat.content)];
    }
    assert chats[..|chats|] == chats;
    out := Returned(encode(message.payload));
  }

  // ---------------------------------------------------------------- properties

  /** Once the write-back has panicked, later chats change nothing. */
  lemma {:induction false} WriteBackStops(payload: seq<Payload>, chats: seq<MessageChat>, k: nat)
    requires k <= |chats|
    requires WriteBack(payload, chats[..k]).1.Some?
    ensures WriteBack(payload, chats) == WriteBack(payload, chats[..k])
    decreases |chats|
  {
    if k < |chats| {
      var n := |chats| - 1;
      assert chats[..n][..k] == chats[..k];
      WriteBackStops(payload, chats[..n], k);
    } else {
      assert chats[..k] == chats;
    }
  }

  /** Extraction lists exactly the records that have a chat, in increasing
      record order, each with its record's content; empty contents are
      kept. */
  lemma {:induction false} ChatsOfSpec(payload: seq<Payload>)
    ensures forall k :: 0 <= k < |ChatsOf(payload)| ==>
              Targets(payload, ChatsOf(payload)[k])
              && ChatsOf(payload)[k].content == payload[ChatsOf(payload)[k].index].chat.value.content
    ensures forall k1, k2 :: 0 <= k1 < k2 < |ChatsOf(payload)| ==> ChatsOf(payload)[k1].index < ChatsOf(payload)[k2].index
    ensures forall i :: 0 <= i < |payload| && payload[i].chat.Some? ==>
              exists k :: 0 <= k < |ChatsOf(payload)| && ChatsOf(payload)[k].index == i
  {
    if payload != [] {
      var n := |payload| - 1;
      var prev := payload[..n];
      ChatsOfSpec(prev);
      var cs := ChatsOf(payload);
      var ps := ChatsOf(prev);
      assert forall i :: 0 <= i < n ==> prev[i] == payload[i];
      assert cs[..|ps|] == ps;
      forall k | 0 <= k < |cs|
        ensures Targets(payload, cs[k]) && cs[k].content == payload[cs[k].index].chat.value.content
      {
        if k < |ps| { assert cs[k] == ps[k]; }
      }
      forall k1, k2 | 0 <= k1 < k2 < |cs| ensures cs[k1].index < cs[k2].index {
        assert cs[k1] == ps[k1];
        if k2 < |ps| { assert cs[k2] == ps[k2]; }
      }
      forall i | 0 <= i < |payload| && payload[i].chat.Some?
        ensures exists k :: 0 <= k < |cs| && cs[k].index == i
      {
        if i < n {
          assert prev[i].chat.Some?;
          var k :| 0 <= k < |ps| && ps[k].index == i;
          assert cs[k] == ps[k];
        } else {
          assert cs == ps + [MessageChat(n, payload[n].chat.value.content)];
          assert cs[|ps|].index == i;
        }
      }
    }
  }

  /** The write-back never changes which records have a chat; it panics
      exactly when some chat points outside the records or at a record
      without a chat; otherwise every record ends up with the last content
      written into it, and a record nobody points at is left as it was. */
  lemma {:induction false} WriteBackSpec(payload: seq<Payload>, chats: seq<MessageChat>)
    ensures |WriteBack(payload, chats).0| == |payload|
    ensures forall j :: 0 <= j < |payload| ==> WriteBack(payload, chats).0[j].chat.Some? == payload[j].chat.Some?
    ensures WriteBack(payload, chats).1.None? <==> forall k :: 0 <= k < |chats| ==> Targets(payload, chats[k])
    ensures WriteBack(payload, chats).1.None? ==>
              forall j :: 0 <= j < |payload| ==> WriteBack(payload, chats).0[j] == Written(payload[j], LastWrite(Writes(chats), j))
  {
    if chats != [] {
      var n := |chats| - 1;
      var prefix := chats[..n];
      WriteBackSpec(payload, prefix);
      var (p, e) := WriteBack(payload, prefix);
      assert forall k :: 0 <= k < n ==> prefix[k] == chats[k];
      var ws := Writes(chats);
      assert ws[..n] == Writes(prefix);
      if e.None? {
        var c := chats[n];
        if Targets(payload, c) {
          var r := WriteBack(payload, chats).0;
          assert r == p[c.index := WithContent(p[c.index], c.content)];
          forall j | 0 <= j < |payload| ensures r[j] == Written(payload[j], LastWrite(ws, j)) {
            if j == c.index {
              assert LastWrite(ws, j) == Some(c.content);
            } else {
              assert LastWrite(ws, j) == LastWrite(ws[..n], j);
            }
          }
        }
      }
    }
  }

  /** Writing back what extraction picked out, unchanged, leaves the
      records as they were. */
  lemma WriteBackOfChatsOf(payload: seq<Payload>)
    ensures WriteBack(payload, ChatsOf(payload)) == (payload, None)
  {
    var cs := ChatsOf(payload);
    ChatsOfSpec(payload);
    WriteBackSpec(payload, cs);
    var r := WriteBack(payload, cs).0;
    forall j | 0 <= j < |payload| ensures r[j] == payload[j] {
      DistinctWrite(payload, cs, j);
      if payload[j].chat.Some? {
        var k :| 0 <= k < |cs| && cs[k].index == j && LastWrite(Writes(cs), j) == Some(cs[k].content);
        assert WithContent(payload[j], cs[k].content) == payload[j];
      }
    }
    assert r == payload;
  }

  /** Chats at the positions extraction found (whatever their contents)
      never make the write-back panic. */
  lemma WriteBackSamePositions(payload: seq<Payload>, chats: seq<MessageChat>)
    requires |chats| == |ChatsOf(payload)|
    requires forall k :: 0 <= k < |chats| ==> chats[k].index == ChatsOf(payload)[k].index
    ensures WriteBack(payload, chats).1 == None
  {
    ChatsOfSpec(payload);
    assert forall k :: 0 <= k < |chats| ==> Targets(payload, chats[k]);
    WriteBackSpec(payload, chats);
  }

  /** With the chats of `ChatsOf` (or chats at the same positions), the
      last write into a record is the write of its own chat. */
  lemma DistinctWrite(payload: seq<Payload>, cs: seq<MessageChat>, j: int)
    requires 0 <= j < |payload|
    requires forall k :: 0 <= k < |cs| ==> Targets(payload, cs[k])
    requires forall k1, k2 :: 0 <= k1 < k2 < |cs| ==> cs[k1].index < cs[k2].index
    requires forall i :: 0 <= i < |payload| && payload[i].chat.Some? ==> exists k :: 0 <= k < |cs| && cs[k].index == i
    ensures payload[j].chat.None? ==> LastWrite(Writes(cs), j) == None
    ensures payload[j].chat.Some? ==>
              exists k :: 0 <= k < |cs| && cs[k].index == j && LastWrite(Writes(cs), j) == Some(cs[k].content)
  {
    var ws := Writes(cs);
    LastWriteSpec(ws, j);
    if payload[j].chat.Some? {
      var k :| 0 <= k < |cs| && cs[k].index == j;
      assert ws[k] == Write(j, cs[k].content);
      LastWriteDistinct(ws, k);
    }
  }

  /** Every chat with `\n` appended to its content. */
  function WithNewline(chats: seq<MessageChat>): seq<MessageChat>
  {
    seq(|chats|, k requires 0 <= k < |chats| => chats[k].(content := chats[k].content + [NL]))
  }

  /** Every record that has a chat, with `\n` appended to its content. */
  function PayloadWithNewline(payload: seq<Payload>): seq<Payload>
  {
    seq(|payload|, j requires 0 <= j < |payload| =>
      if payload[j].chat.Some? then WithContent(payload[j], payload[j].chat.value.content + [NL]) else payload[j])
  }

  /** Reading back the chunks of a message: when no content holds a `§`,
      every chat gets its own content back followed by `\n`, whatever the
      chunk size, and no chat is left over. */
  lemma ChunksRoundTrip(chats: seq<MessageChat>, size: int)
    requires forall k :: 0 <= k < |chats| ==> !HasSection(chats[k].content)
    ensures var bodies := SectionMatches(Concat(Render(Pack([Chunk([], [])], ChatItems(chats), size))));
            |bodies| == |chats| && Overwrite(chats, bodies) == WithNewline(chats)
  {
    var start := [Chunk([], [])];
    var cs := Contents(chats);
    var text := Concat(Render(Pack(start, ChatItems(chats), size)));
    PackBytes(start, ChatItems(chats), size);
    assert Concat(Render(start)) == [] by {
      assert Render(start) == [[]];
      ConcatSingle<byte>([]);
    }
    assert text == Concat(SectionItems(cs));
    SectionRoundTrip(cs);
    var bodies := SectionMatches(text);
    assert |bodies| == |chats|;
    var got := Overwrite(chats, bodies);
    var want := WithNewline(chats);
    forall k | 0 <= k < |chats| ensures got[k] == want[k] {
      assert bodies[k] == cs[k] + [NL];
    }
    assert got == want;
  }

  /** Writing back the extracted chats with `\n` appended appends `\n` to
      the content of every record that has a chat, and to nothing else. */
  lemma WriteBackWithNewline(payload: seq<Payload>)
    ensures WriteBack(payload, WithNewline(ChatsOf(payload))) == (PayloadWithNewline(payload), None)
  {
    var translated := WithNewline(ChatsOf(payload));
    NewlinePositions(payload);
    WriteBackSpec(payload, translated);
    var r := WriteBack(payload, translated).0;
    var want := PayloadWithNewline(payload);
    forall j | 0 <= j < |payload| ensures r[j] == want[j] {
      NewlineRecord(payload, j);
    }
    assert r == want;
  }

  /** The newline-suffixed chats sit where extraction found the chats. */
  lemma NewlinePositions(payload: seq<Payload>)
    ensures forall k1, k2 :: 0 <= k1 < k2 < |WithNewline(ChatsOf(payload))| ==>
              WithNewline(ChatsOf(payload))[k1].index < WithNewline(ChatsOf(payload))[k2].index
    ensures forall i :: 0 <= i < |payload| && payload[i].chat.Some? ==>
              exists k :: 0 <= k < |WithNewline(ChatsOf(payload))| && WithNewline(ChatsOf(payload))[k].index == i
    ensures forall k :: 0 <= k < |WithNewline(ChatsOf(payload))| ==>
              Targets(payload, WithNewline(ChatsOf(payload))[k])
              && WithNewline(ChatsOf(payload))[k].content
                 == payload[WithNewline(ChatsOf(payload))[k].index].chat.value.content + [NL]
  {
    var chats := ChatsOf(payload);
    var translated := WithNewline(chats);
    ChatsOfSpec(payload);
    assert forall k :: 0 <= k < |chats| ==> translated[k].index == chats[k].index;
    forall i | 0 <= i < |payload| && payload[i].chat.Some?
      ensures exists k :: 0 <= k < |translated| && translated[k].index == i
    {
      var k :| 0 <= k < |chats| && chats[k].index == i;
      assert translated[k].index == i;
    }
  }

  /** Record `j` after writing back the newline-suffixed chats. */
  lemma NewlineRecord(payload: seq<Payload>, j: int)
    requires 0 <= j < |payload|
    ensures Written(payload[j], LastWrite(Writes(WithNewline(ChatsOf(payload))), j)) == PayloadWithNewline(payload)[j]
  {
    var translated := WithNewline(ChatsOf(payload));
    NewlinePositions(payload);
    DistinctWrite(payload, translated, j);
  }

  /** The whole library pipeline with a translator that returns its input:
      after extraction, chunking, reading back and writing back, every
      record with a chat has its content followed by `\n`, and every other
      record is unchanged. */
  lemma IdentityPipeline(payload: seq<Payload>, size: int)
    requires forall i :: 0 <= i < |payload| && payload[i].chat.Some? ==> !HasSection(payload[i].chat.value.content)
    ensures var chats := ChatsOf(payload);
            var bodies := SectionMatches(Concat(Render(Pack([Chunk([], [])], ChatItems(chats), size))));
            |bodies| == |chats| && WriteBack(payload, Overwrite(chats, bodies)) == (PayloadWithNewline(payload), None)
  {
    var chats := ChatsOf(payload);
    ChatsOfSpec(payload);
    ChunksRoundTrip(chats, size);
    WriteBackWithNewline(payload);
  }
}
