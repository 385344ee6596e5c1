# nicotrans-go, modelled in Dafny

nicotrans is a local HTTPS proxy for the Niconico comment server
(`nmsg.nicovideo.jp`). A player posts its comment request to the proxy. The
proxy forwards it upstream, sends the comment texts to a machine translator,
writes the translated texts back into the JSON records and answers with the
rewritten records. The repository holds three generations of this
pipeline, and this project models all of them:

- `pkg/nico/message.go` with the handler of `cmd/nicotrans/main.go`. Records
  are typed. Chats are picked out with their record position. The
  handler wraps each chat as `§<i>\n<content>\n` and puts every body back
  by the index written in its marker.
- `main.go`. Records are untyped JSON. Comments are wrapped as
  `§\n<content>\n`, packed into chunks of at most 5000 bytes and put back by
  match position.
- `nicotrans.go`. The same, with `$\n<content>\n` markers and a pattern that
  captures one line.

Every generation does the same four steps, and each is modelled on its own:

1. **Extraction** walks the records in order and lists the ones carrying
   a comment, with their positions (`NicoMessage.ChatsOf`,
   `LegacyJson.Extract`).
2. **Wrapping** puts each text inside a marker line (`Markers`).
3. **Packing** fills byte-bounded buffers greedily (`Packing.Pack`).
   - An item opens a new buffer only when it would push the last buffer
     past the limit.
   - So only a buffer holding a single item can exceed the limit.
   - When the first item alone exceeds it, buffer 0 stays empty.
4. **Reassembly** scans the translated text for the marker pattern and
   writes each captured body back.
   - The scans are byte-level line scanners. `(?m)^` means the start of
     the input or just after `\n`.
   - With `[^§]+` the body keeps the item's trailing newline. With `.+` it
     stops at the end of the line.

Two smaller pieces sit beside the pipeline:

- **The resolver cache** of `pkg/nico/net.go` (`NicoNet`). It maps a host
  to the time and address of its last lookup. An entry younger than 60
  seconds is used as it is; an older one is looked up again.
- **The sort helpers** of the two `util.go` files (`Sorting`,
  `InternalTranslator`, `PkgTranslator`). They restore chunk order after
  the translator's fan-in.

Representation choices:

- Texts are byte sequences (`Common.bytes`), so `§` is the two bytes
  `C2 A7` and every length is a Go byte length.
- A Go runtime panic is a value, `Common.Outcome`. Each handler's answer is
  a `Http.Response`:
  - `Reply`: a status, the `Access-Control-Allow-Origin` header if set, and
    a body;
  - `Aborted`: a handler panic that `net/http` recovers;
  - `Crashed`: a panic in a background goroutine, which ends the process.
- `main.go` sets status 200 before it fetches anything, but `net/http` holds
  a status until the body is first written or the handler returns. A panic
  of the handler before then closes the connection with no status sent, so
  it is `Aborted` like any other handler panic.
- The comment server, the translator, the JSON encoder and the DNS server
  are function parameters of the handlers and of the dialer.

Files:

- `common.dfy`: bytes, `Option`/`Result`, panics, `Concat`, last-write-wins.
- `decimal.dfy`: `%d` and `strconv.Atoi` on digit strings.
- `http.dfy`: requests, responses, status codes.
- `markers.dfy`: the three marker formats and their pattern scanners.
- `packing.dfy`: greedy chunk packing.
- `nico_message.dfy`: `pkg/nico/message.go`.
- `cmd_nicotrans.dfy`: `handle` of `cmd/nicotrans/main.go`.
- `legacy_json.dfy`: untyped JSON records, and the extraction and write-back
  shared by `main.go` and `nicotrans.go`.
- `legacy_main.dfy`: `main.go`.
- `legacy_nicotrans.dfy`: `nicotrans.go`.
- `nico_net.dfy`: `pkg/nico/net.go`.
- `sorting.dfy`, `internal_translator.dfy`, `pkg_translator.dfy`: the sort
  helpers.

## Model

| member | source | states |
|---|---|---|
| Decimal.Format | cmd/nicotrans/main.go:184 | `%d` of a position is a non-empty run of ASCII digits with no leading zero |
| Decimal.FormatValue | cmd/nicotrans/main.go:184 | reading back the decimal text of n gives n |
| Decimal.Atoi | cmd/nicotrans/main.go:202 | `strconv.Atoi` of a digit run is its value when that fits in an `int`, and always lies in 0..MaxInt64 |
| Markers.SectionScan | pkg/nico/message.go:86 | every body captured by `(?m)^§\n([^§]+)` is non-empty and holds no `§` |
| Markers.SectionRoundTrip | pkg/nico/message.go:138 | scanning the concatenated `§\n<c>\n` items of §-free contents gives back each content followed by `\n`, one per item, in order |
| Markers.SectionRoundTripNewline | main.go:166-172 | with the `\n` appended after a translated sequence, the same scan gives each content plus `\n`, and the last one plus `\n\n` |
| Markers.IndexedScan | cmd/nicotrans/main.go:58 | every match of `(?m)^§(\d+)\n([^§]+)` has an index in 0..MaxInt64 and a non-empty §-free body |
| Markers.IndexedRoundTrip | cmd/nicotrans/main.go:182-185 | scanning the concatenated `§<i>\n<c>\n` queries gives, for each position i, the query (i, content + `\n`), in order |
| Markers.DollarScan | nicotrans.go:129 | every body captured by `(?m)^\$\n(.+)` is non-empty and holds no newline |
| Markers.DollarRoundTrip | nicotrans.go:109-129 | for contents that start with a non-newline and have no line beginning with `$`, the scan gives back exactly the first line of each content, in order |
| Markers.DollarRoundTripSingleLine | nicotrans.go:112 | non-empty one-line contents come back exactly |
| Packing.Pack | pkg/nico/message.go:136-151 | each item adds at most one buffer and never removes one |
| Packing.PackBytes | pkg/nico/message.go:136-151 | the buffers, concatenated in order, are the starting bytes followed by all items in order |
| Packing.PackItems | pkg/nico/message.go:136-151 | every item lands in exactly one buffer, in item order |
| Packing.PackKeepsStart | nicotrans.go:109-125 | the caller's buffers are kept; only the last one grows, and only at its end |
| Packing.PackNewChunks | pkg/nico/message.go:142-149 | every buffer opened by packing starts empty and receives at least one item |
| Packing.PackWithinSize | pkg/nico/message.go:134-151 | a buffer holding two or more items is within the limit; only a single-item buffer can exceed it |
| Packing.PackGreedy | pkg/nico/message.go:139-144 | a new buffer is opened only when its first item would have pushed the previous buffer past the limit |
| Packing.PackFirstEmpty | pkg/nico/message.go:134-144 | buffer 0 receives no item exactly when there are no items or the first item alone exceeds the limit |
| Packing.PackSingle | main.go:102-124 | items whose total fits in the limit all go into the single first buffer |
| Common.LastWriteSpec | cmd/nicotrans/main.go:201-206 | a slot nobody writes keeps its value; a written slot holds the value of a write into it that no later write to that slot follows |
| Common.LastWriteDistinct | pkg/nico/message.go:173-175 | when no two writes share a slot, each slot holds its own write's value |
| NicoMessage.Message.constructor | pkg/nico/message.go:93 | the zero `Message` has no records, no chats and no error |
| NicoMessage.Fetch | pkg/nico/message.go:99-126 | the message keeps the records as decoded (those before a JSON type error included) and the error, if any; the chats are exactly those of the records when nothing failed, and there are none otherwise |
| NicoMessage.ChatsOfSpec | pkg/nico/message.go:117-126 | the chats list exactly the records with a chat, in increasing position order, copying each content, the empty content included |
| NicoMessage.MessageToChunks | pkg/nico/message.go:133-155 | the buffers are the greedy packing of the chats' `§\n<c>\n` items within `size`; there is always at least one, and a single empty one when there are no chats |
| NicoMessage.ChunksToMessage | pkg/nico/message.go:158-169 | the k-th match of the concatenated buffers becomes the content of chat k; indices and later chats are unchanged; more matches than chats is an index-out-of-range panic |
| NicoMessage.MessageToPayload | pkg/nico/message.go:172-188 | each chat's content is written onto the record at its index, then the records are encoded; an index with no chat record panics |
| NicoMessage.WriteBackSpec | pkg/nico/message.go:173-175 | the write-back keeps the length and the chat-ness of every record; it panics iff some chat does not point at a chat record; the record of the last chat naming a position gets that chat's content, and records nobody names are unchanged |
| NicoMessage.WriteBackOfChatsOf | pkg/nico/message.go:117-126 | writing back the chats just extracted leaves the records unchanged |
| NicoMessage.WriteBackSamePositions | pkg/nico/message.go:173-175 | chats at the extracted positions never make the write-back panic |
| NicoMessage.ChunksRoundTrip | pkg/nico/message.go:161-167 | for §-free contents, reading the unchanged chunks back sets every chat to its content plus `\n`, for every `size` |
| NicoMessage.WriteBackWithNewline | pkg/nico/message.go:173-175 | writing back the newline-suffixed chats appends `\n` to the content of exactly the chat records |
| NicoMessage.IdentityPipeline | pkg/nico/message.go:133-175 | under an identity translator the whole pipeline appends `\n` to every chat record's content and changes nothing else |
| CmdNicotrans.Handle | cmd/nicotrans/main.go:146-215 | a wrong path is 404 before the method check, a non-POST is 400; a panic of the transport's dial for the comment server ends the process, and nothing else does; an upstream, translator or encoder error is 500; every reply carries `Access-Control-Allow-Origin: *`; otherwise the body is the encoding of the records rewritten through the index-keyed matches, and a match index past the chats aborts |
| CmdNicotrans.WriteTranslation | cmd/nicotrans/main.go:201-214 | a match naming no chat aborts; otherwise the chats take the last body written into them, go back onto the records at their positions, and the records' encoding is the 200 body, or the reply is 500 when encoding fails |
| CmdNicotrans.ApplyQueriesSpec | cmd/nicotrans/main.go:201-206 | applying the matches keeps every chat's index; chats no match names keep their content; a chat named by a match gets the body of the last match naming it |
| CmdNicotrans.IdentityQueries | cmd/nicotrans/main.go:182-206 | for §-free contents, the queries scanned back unchanged set every chat i to its content plus `\n`, with no panic |
| CmdNicotrans.IdentityHandle | cmd/nicotrans/main.go:176-214 | under an identity translator the handler writes every chat record's content plus `\n` back onto the records, with no panic |
| LegacyJson.ExtractComments | main.go:76-91 | the extraction loop computes `Extract` |
| LegacyJson.ExtractSpec | nicotrans.go:87-104 | extraction panics (a type assertion) iff some record is not an object or has a non-object `chat` or non-string content; otherwise it lists, in increasing position order, exactly the records with a non-empty string content |
| LegacyJson.PickSpec | main.go:77-90 | one record panics iff it is malformed; it yields its position and content iff it carries a non-empty string content |
| LegacyJson.SetContentSpec | main.go:176 | setting a carried content never panics, keeps every other key, and leaves a record unchanged when given its own content |
| LegacyJson.ApplyMatches | main.go:172-177 | the reassembly loop computes `Rewrite` |
| LegacyJson.RewriteSpec | nicotrans.go:158-162 | after extraction, the write-back panics iff there are more matches than comments; otherwise match k is set as the content of the record of comment k and every other record is unchanged |
| LegacyMain.DialTarget | main.go:126-132 | `nmsg.nicovideo.jp:443` becomes `133.152.39.27:443`; every other address passes through, and the comment server's name is never dialled |
| LegacyMain.Chunkize | main.go:102-124 | the buffers are the greedy packing of the `§\n<c>\n` items within 5000 bytes |
| LegacyMain.ChunksSpec | main.go:102-124 | the buffers concatenate to the items in order, and a buffer over 5000 bytes is a single comment's item |
| LegacyMain.Handle | main.go:134-186 | a non-POST is 400 without the CORS header; an upstream, extraction or translator failure crashes the process; a non-papago translator or an empty translation re-encodes the records unchanged; otherwise the k-th match is written into the record of comment k, and extra matches abort |
| LegacyMain.IdentityOneChunk | main.go:162-177 | comments that fit in one chunk, echoed back as one sequence, are matched back in order, each with one `\n` added and the last with two |
| LegacyNicotrans.ChunkList.constructor | nicotrans.go:148 | the handler starts from one empty buffer |
| LegacyNicotrans.ChunkList.RepliesToChunks | nicotrans.go:109-126 | the caller's buffers are extended in place by greedy packing of the `$\n<c>\n` items, the last buffer's existing bytes counting toward 5000; with no buffer at all, any reply panics |
| LegacyNicotrans.Packed | nicotrans.go:110-125 | the packing loop over a non-empty buffer list computes the greedy packing |
| LegacyNicotrans.Handle | nicotrans.go:137-172 | a non-POST is 400; an upstream, extraction or translator failure aborts the request; otherwise the translated chunks are concatenated, the k-th `$` match is written into the record of reply k, and extra matches abort |
| LegacyNicotrans.TranslateAllStops | nicotrans.go:153-156 | the first failing translation ends the loop |
| LegacyNicotrans.TranslateAllIdentity | nicotrans.go:153-156 | with an identity translator the translations concatenate to the chunks concatenated in order |
| LegacyNicotrans.ChunksJoined | nicotrans.go:148-151 | the buffers concatenate to the `$` items in reply order |
| LegacyNicotrans.IdentityTranslation | nicotrans.go:151-158 | for one-line replies an identity translator gives back every reply text, in order |
| LegacyNicotrans.RewriteOwnTexts | nicotrans.go:158-162 | writing the extracted texts back leaves the records unchanged |
| LegacyNicotrans.IdentityHandle | nicotrans.go:146-162 | for one-line replies under an identity translator the records come back unchanged |
| LegacyNicotrans.LeadingNewlineShifts | nicotrans.go:129 | a reply whose content starts with a newline produces no match, so match 0 is the next reply's text, which the positional write-back then puts on the first reply's record |
| NicoNet.Split | pkg/nico/net.go:31 | `strings.Split` gives at least one piece, none holding the separator |
| NicoNet.JoinSplit | pkg/nico/net.go:31 | joining the pieces gives back the address |
| NicoNet.SplitJoin | pkg/nico/net.go:31 | splitting joined separator-free pieces gives back the pieces |
| NicoNet.HostPort | pkg/nico/net.go:31-34 | `host:port` splits into exactly the host and the port |
| NicoNet.Transport.constructor | pkg/nico/net.go:18-20 | the cache starts with one never-filled entry, for the comment server |
| NicoNet.Transport.DialContext | pkg/nico/net.go:30-61 | a dial computes `Dial` on the cache: the dialled address and the new cache |
| NicoNet.DialFrame | pkg/nico/net.go:34-53 | a dial adds no host, changes at most its own host's entry, and dials a host outside the cache as given |
| NicoNet.FirstDialLooksUp | pkg/nico/net.go:18-36 | from the initial cache the first dial of the comment server queries DNS and caches the A record with the request's port |
| NicoNet.StaleRefreshes | pkg/nico/net.go:34-53 | a cached entry 60 s old or older is looked up again: the first A record with the request's port is dialled and stored with the time after the lookup |
| NicoNet.FailedLookupKeepsCache | pkg/nico/net.go:42-49 | for an entry due for a lookup, the dial panics exactly when the exchange fails, answers nothing, answers a non-A record first, or the address has no port; the exchange error is the panic value, and a panicking dial leaves the cache unchanged |
| NicoNet.CachedWithinRefresh | pkg/nico/net.go:36-57 | after a refresh, dials of the same host less than 60 s later reuse the cached address verbatim, whatever DNS would answer, and leave the cache alone |
| Sorting.SortByKey | internal/translator/util.go:13-17 | the array ends ascending by key and holds the same elements |
| Sorting.Sink | internal/translator/util.go:14-16 | one insertion step: with the first i elements ascending, the first i+1 end ascending, holding the same elements |
| Sorting.SortedUnique | internal/translator/util.go:14 | with distinct keys, two ascending arrangements of the same elements are equal, so the unstable sort has a single answer |
| InternalTranslator.SortTranslatedSequence | internal/translator/util.go:13-17 | the sequences end ascending by `index`, a permutation of the input with each text still paired with its index |
| InternalTranslator.RequestOrder | internal/translator/util.go:12-17 | sorted sequences with distinct indices 0..n-1 sit at their own index, which is the order they were requested in |
| PkgTranslator.SortTranslatedSequence | pkg/translator/util.go:10-14 | the sequences end ascending by `index`, a permutation of the input with each text still paired with its index |

## Left out

- Network I/O is not modelled. This covers the POSTs to the comment server, the translator calls, the DNS exchange and the dial itself. Their results are parameters: the upstream answer, a translator function, an `exchange` function. In `cmd/nicotrans/main.go` the way the transport's dial ended is a parameter too, because a panic there (see `NicoNet.Dial`) ends the process.
- JSON decoding and encoding are not modelled. The decoded records are an input, and encoding is an `encode` parameter that may fail. For `nico.Fetch` the input is `NicoMessage.Answer`: the records decoded, which `json.Unmarshal` keeps after a type mismatch, and the error, if any.
- `WithPapago` and `WithPapagoAsChunks` are not modelled: their goroutines, their WaitGroup, and the unsynchronised `append` to `sequences`, which is a data race. The sort they call is modelled. `main.go`'s translator is a parameter returning the sequences in chunk order.
- `translator.Translate` of `cmd/nicotrans/main.go` is a parameter from the queries to the translated texts. The package it names is not part of this model.
- `hostCaches` is shared by concurrent dials without a lock. The model runs dials one after another.
- Time is an integer count of nanoseconds. `now` is read before the lookup, and `later` is the `time.Now()` stored after it. `time.Since` saturating at its bounds is not modelled; it cannot change the comparison with 60 s for the clock values involved.
- An A record's address is given in dotted text, as `A.String()` prints it.
- A Go regexp steps over UTF-8 runes where the scanners step over bytes. The difference does not matter here, because every marker byte and `\n` is ASCII and the `§` test reads two bytes.
- `nicotrans.go` has a `/` status page and `ServeMux` routing. These are not modelled; its handler is entered for `/api.json/` only.
- Certificates, the hosts-file editing, the privilege probes, flags, logging, the `main` functions, the TLS listener and `internal/translator/papago_test.go` are not modelled.
- Sorting.SortByKey: `sort.Slice` is modelled by an insertion sort. Its contract states only what `sort.Slice` promises: ascending and a permutation. It says nothing of the order of equal keys, which `sort.Slice` leaves open.
- Decimal.Atoi: an overflow is clamped to the largest `int`, as `strconv.Atoi` returns it with a range error. The handler discards that error, so the model has no error for it.
