# Stra2us: a verified model

Stra2us is a small IoT service: devices publish MessagePack messages to broadcast queues and read key-value
settings, a server keeps everything in Redis, and command-line tools and web pages manage it. This project models the
parts where a mistake would be silent, and proves what each of them promises.

* **MessagePack codec** (`Bytes`, `CmpFormat`, `CmpReader`, `CmpWriter`, `Forest`, `CmpSkip`, `CmpSkippers`). Headers
  as values with `Encode` and `Decode`; the reader as a class over bytes and a position, the writer as a class over the
  bounded memory buffer of the firmware; and the four skippers, which walk a nested value with one flat counter,
  against the grammar of values as trees. `Forest` has the loop argument for any pass that takes a framed header.
* **Broadcast queues** (`Queue`, `QueueServer`, `Paging`). One topic and its consumers as a state machine with one step
  for each Redis command, so publishes, other consumers, clock changes and the lapse of the key fall anywhere inside a
  consume call. The handlers are methods that are runs of this machine. `Paging` has the paged scans of the admin
  routes.
* **Encrypted values** (`Kvenc`, `KvencNonce`). The three implementations of the keystream cipher, the ext frame the
  server builds and the firmware opens in place, and the nonce allocator. HMAC-SHA256 is a parameter: any function from
  secret and message to 32 bytes.
* **Backup and restore** (`Base64`, `BackupFormat`, `BackupDocument`, `BackupStore`, `BackupTwice`, `BackupCollect`,
  `BackupRoundTrip`, `BackupRecords`, `BackupIo`, and `Acl` for the rules of who owns what). An envelope is applied as
  a run over its entries, which may raise on the way. What such a run leaves is stated for any list of entries;
  `ApplyEffect` gives report and store of a run that does not raise from the store before it and the entries alone. A
  report is one list of lines, each with section, name and verdict; the lists of the HTTP response are its lines by
  section and verdict. `BackupDocument` and `BackupRecords` say in plain terms which documents are accepted and what
  keys, verdicts and streams are.
* **Catalog publish** (`Publish`, `PublishPlan`, `PublishClient`). The operations of a publish in order, cut off after
  any of them, repeated for any apps and bundles.
* **Device form** (`Form`, `FormRules`, `FormPage`). Controls with their dirty flags, the three-layer value resolution,
  and the save handler as a load-edit-save round over a store.
* **SVG sanitizer** (`Svg`). The rewriting walk over parsed trees.

Code that updates state is modelled by classes and loops whose contracts name a specification function; the main
results are about those functions. `Option.None` stands for an exception or a missing answer where a function returns
one.

## Where the code and its documentation part

* `cmp_skip_object_limit` bounds how many containers a value has, not how deep they nest, and a limit of 0xFFFFFFFF
  bounds nothing. A sized ext whose length field is 0 or 0xFFFFFFFF is skipped short of its type byte.
* Where size_t has 32 bits, as on the devices this codec is built for, a skipper's counter can wrap and pass over what
  is no value (`CmpSkip.CounterWraps`); `CmpSkip.SkipIff` says exactly when to believe it.
* The server's keystream refuses more than 8160 bytes, the command-line tool more than 8192.
* The key of a queue can lapse between the XADD and the EXPIRE of a publish, and takes the new entry with it. If the
  clock is set back, the next EXPIRE moves the end of the key back as well, and a lapse takes entries with time left
  whose publish was finished (`Queue.ClockBackLosesLive`; `Queue.ExpireCoversIff` has the exact condition).
* A lapse in the middle of a consume call can make the batch size show in the answer (`Queue.LapseShowsBatch`).
* A stream that starts again after its key lapsed may take ids below a consumer's cursor, if the clock was set back.
  That consumer never reads such an entry (`Queue.LowIdIsLost`; `Queue.ReadLaterIff` has the exact condition).
* A later publish does not delete the files that a publish left behind when it died among its deletions, or just before
  them: the index was rewritten before (`Publish.OrphanArises`, `Publish.OrphanStays`).
* Saving a form turns an untouched variable without any value into the empty text, and loses an untouched text that
  happens to be JSON for something else, `null` for one (`Form.UnsetBecomesEmpty`, `Form.NullTextIsLost`).
* An app's own permission lets it publish to topics under `_catalog/` and the app's name, but a dump of the app leaves
  them out and a restore of the app refuses them (`Acl.TopicBelongsIffMayWrite`); for keys the two rules agree.
* Check boxes and radio groups send write-only and default values untouched; only text controls keep to the rule that
  such values stay out of the form (`Form.LeftOutIff`).
* A restore without force can still set an existing value's encryption flag, exactly if the envelope has an entry whose
  key is the value's with `:enc` (`BackupStore.FlagAppearsIff`); no envelope this server dumps has one. With such an
  entry a second restore can also undo what the first did (`BackupTwice.TwiceDiffers`, `BackupTwice.RestoreTwiceIff`).
* A restore without force that raised inside a stream takes that stream for an existing one the next time, and leaves
  it broken (`BackupTwice.RetryGoesOn`).

## Model

| member | source | states |
|---|---|---|
| `Bytes.BERoundTrip` | client/src/cmp.c:134-168 | the big-endian image of a number of any width is read back as that number |
| `Bytes.FromBERoundTrip` | client/src/cmp.c:134-168 | reading any bytes of a width as big-endian and writing the number gives the same bytes |
| `Bytes.SwapStoresBigEndian` | client/src/cmp.c:134-168 | on hosts of either byte order, storing a swapped integer leaves its big-endian image in memory |
| `Bytes.SwapLoadsBigEndian` | client/src/cmp.c:134-168 | on hosts of either byte order, loading bytes and swapping gives the number they are the big-endian image of |
| `CmpFormat.TypeLeads` | client/src/cmp.c:271-394 | the marker table of the reader announces a type exactly for the leading bytes the writer uses for it, for all 256 bytes and 35 types |
| `CmpFormat.FixFormats` | client/src/cmp.c:271-394 | the single-byte headers in literal bytes: fixnums, small maps, arrays and strings, nil and the booleans |
| `CmpFormat.ByteFormats` | client/src/cmp.c:271-394 | the headers with a field of one byte |
| `CmpFormat.WordFormats` | client/src/cmp.c:271-394 | the headers with a size of two bytes |
| `CmpFormat.LongFormats` | client/src/cmp.c:271-394 | the headers with a size of four bytes |
| `CmpFormat.IntegerFormats` | client/src/cmp.c:271-394 | integers of two and four bytes |
| `CmpFormat.WideFormats` | client/src/cmp.c:271-394 | integers of eight bytes, floats and doubles |
| `CmpFormat.FixExtFormats` | client/src/cmp.c:271-394 | the exts of fixed size, the type byte signed |
| `CmpFormat.SizedExtFormats` | client/src/cmp.c:271-394 | the exts with a size field, the size before the type byte |
| `CmpFormat.DecodeEncode` | client/src/cmp.c:1553-1645 | writing any object whose value fits its type, then reading, gives the object back and stops at its end, whatever follows |
| `CmpFormat.EncodeDecode` | client/src/cmp.c:567-763 | reading any valid header and writing what was read reproduces the same bytes, non-minimal forms included |
| `CmpFormat.CutHeaders` | client/src/cmp.c:396-763 | a header cut short fails with the code of its missing part: marker, length, ext type or data |
| `CmpFormat.EncodeInjective` | client/src/cmp.c:1553-1645 | two objects whose headers start the same stream are the same object, so framing is never ambiguous |
| `CmpFormat.IntegerRoundTrip` | client/src/cmp.c:850-863 | for every int64 the header written is read back as the same integer, and exactly its bytes are consumed |
| `CmpFormat.UIntegerRoundTrip` | client/src/cmp.c:903-915 | the same for every uint64 with the unsigned pair |
| `CmpFormat.IntegerShortest` | client/src/cmp.c:850-863 | no header from which the reader takes the same integer is shorter than the one written |
| `CmpFormat.UIntegerShortest` | client/src/cmp.c:903-915 | the same for the unsigned pair |
| `CmpFormat.ExtShortest` | client/src/cmp.c:1515-1532 | no header from which the reader takes the same ext type and size is shorter than the one written |
| `CmpFormat.SignedIffNegative` | client/src/cmp.c:850-863 | the header chosen for an int64 holds that number, in a signed form exactly if it is negative |
| `CmpFormat.IntegersRead` | client/src/cmp.c:1934-1980 | of any header the readers take exactly the integers of any form within their range, nil excepted |
| `CmpReader.ReadContext.ReadInt` | client/src/cmp.c:134-168 | a raw load and a byte swap together read the big-endian number at the position, on either host |
| `CmpReader.ReadContext.SkipBytes` | client/src/cmp.c:228-244 | with and without a skip callback, the position moves past the bytes exactly if all of them are there |
| `CmpReader.ReadContext.ReadTypeSize` | client/src/cmp.c:396-565 | the size field of any type is the one the layout places after the marker; the error is the type's own |
| `CmpReader.ReadContext.ReadObjData` | client/src/cmp.c:567-763 | after the marker, the value read is the one `Decode` finds, with the error code of the missing part otherwise |
| `CmpReader.ReadContext.ReadObject` | client/src/cmp.c:2677-2689 | reading an object is `Decode` at the position, and moves exactly past the header |
| `CmpReader.ReadContext.ReadLong` | client/src/cmp.c:1934-1980 | takes an integer of any form whose value is an int64, consuming its header; else INVALID_TYPE or the read error |
| `CmpReader.ReadContext.ReadULong` | client/src/cmp.c:2151-2206 | takes an integer of any form whose value is not negative, consuming its header; else INVALID_TYPE or the read error |
| `CmpReader.ReadContext.ReadExt` | client/src/cmp.c:2666-2675 | an ext of any form is read with exactly its data; short data is DATA_READING, another type INVALID_TYPE |
| `CmpWriter.RoundTripIffFits` | client/src/cmp.c:1553-1645 | with the casts of the writer, an object comes back from write and read exactly if its value fits its type |
| `CmpWriter.WriteContext.Write` | client/src/IoTClient.cpp:20-28 | the bounded buffer takes all the bytes exactly if they fit, and none otherwise |
| `CmpWriter.WriteContext.WriteObject` | client/src/cmp.c:1553-1645 | a successful write of any of the 35 types appends exactly the encoding of the cast object; a write that stops leaves a proper prefix of it, with the error code of the part that did not fit, and it stops exactly if the capacity is too small |
| `CmpWriter.WriteContext.WriteUInteger` | client/src/cmp.c:903-915 | appends exactly the header of the number's chosen form, succeeding exactly if it fits the capacity |
| `CmpWriter.WriteContext.WriteInteger` | client/src/cmp.c:850-863 | the same for every int64 |
| `CmpWriter.WriteContext.WriteExtMarker` | client/src/cmp.c:1515-1532 | appends exactly the ext header chosen by size |
| `CmpWriter.WriteContext.WriteExt` | client/src/cmp.c:1534-1551 | appends exactly header and data, succeeding exactly if both fit; data that does not is DATA_WRITING |
| `Forest.PassKeepsForest` | client/src/cmp.c:2845-2918 | one turn turns n trees and a rest into n - 1 + children trees and the same rest; the counter never exceeds the bytes left, and the bytes left shrink |
| `Forest.LoopComplete` | client/src/cmp.c:2845-2918 | a flat-counter loop walks every forest exactly to its end, counting its containers, and its counter does not wrap |
| `Forest.LoopSound` | client/src/cmp.c:2845-2918 | what such a loop passed over is a forest with that many trees and containers, whenever its counter did not wrap, at any width |
| `Forest.ForestNoWrap` | client/src/cmp.c:2845-2918 | over a forest of fewer bytes than a counter has values, that counter does not wrap, whatever follows the forest |
| `Forest.SameRun` | client/src/cmp.c:2845-2918 | a run in which the counter does not wrap is the same run with any wider counter |
| `CmpSkip.SkipComplete` | client/src/cmp.c:2844-2921 | on any stream that starts with an arbitrarily nested value without a quirky ext, the loop ends exactly at the end of that value with its container count |
| `CmpSkip.SkipSound` | client/src/cmp.c:2844-2921 | whatever the loop passed over when it succeeds without wrapping its counter is one value of the skippers' grammar, on hosts of any width |
| `CmpSkip.SkipIff` | client/src/cmp.c:2844-2921 | on any host whose size_t can count the stream's bytes, 32-bit ones included, the stream starts with such a value exactly if the loop succeeds and its counter did not wrap; then rest and container count are that value's |
| `CmpSkip.NarrowIff` | client/src/cmp.c:2896-2918 | a narrow counter gives the answer of a wide one exactly as long as it does not wrap; where it wraps, a wide one refuses the stream |
| `CmpSkip.WideSkipIff` | client/src/cmp.c:2844-2921 | where the counter has room for any stream of that length, the loop succeeds on exactly the streams that start with a value |
| `CmpSkip.LeafSkipIff` | client/src/cmp.c:2869-2894 | a MessagePack leaf is skipped to its end exactly if it is not a sized ext of length 0 or 0xFFFFFFFF |
| `CmpSkip.QuirkByCoincidence` | client/src/cmp.c:2869-2894 | inside a container a quirky ext can still come out at the right place, its left-over bytes read as other headers |
| `CmpSkip.CounterWraps` | client/src/cmp.c:2896-2918 | on a 32-bit size_t a map header alone wraps the counter and counts as a whole value; on 64 bits it is refused |
| `CmpSkippers.SkipObjectNoLimit` | client/src/cmp.c:2844-2921 | succeeds exactly if the loop's function does, and ends where it says; otherwise some header that the loop comes to cannot be passed over, and the error is that header's |
| `CmpSkippers.SkipObjectLimit` | client/src/cmp.c:2923-3015 | succeeds exactly if the loop's function passes over the stream with at most `limit` containers in all, or any number if `limit` is 0xFFFFFFFF, ending where the unlimited skipper would; a container too many, met after exactly `limit` others, is handed back with the header `Decode` finds at its place and the reader behind it; any other failure has the error of the header the loop came to |
| `CmpSkippers.LimitedMeansValues` | client/src/cmp.c:2923-3015 | on any host whose size_t can count the stream's bytes, a limited skipper succeeds without wrapping its counter exactly on the streams that start with a value of at most that many containers, and ends behind it |
| `CmpSkippers.SkipObjectFlat` | client/src/cmp.c:2751-2842 | succeeds exactly if the loop's function passes over the stream with at most one container; the second is handed back with its own header and the reader behind it, with the same outcome otherwise |
| `CmpSkippers.SkipObject` | client/src/cmp.c:2691-2749 | a leaf is passed over exactly if one turn of the loop passes over it; a container is handed back as `Decode` reads it, with the reader behind its header and SKIP_DEPTH_LIMIT_EXCEEDED, whether or not its children are there |
| `Queue.StepKeeps` | backend/src/api/routes_device.py:209-320 | every single Redis command, of any party and with any id, keeps the invariant of every consumer, in the middle of calls too: what it read ascends, was in the stream and was judged right, and its cursor is the last id it handled |
| `Queue.RunKeeps` | backend/src/api/routes_device.py:251-320 | so does every run, for any batch size and interleaving |
| `Queue.LogIsPublished` | backend/src/api/routes_device.py:237-247 | in every run each entry of the stream is that of one publish of its own, in the order of the publishes: its id, its payload, and an expiry of the clock reading then plus the ttl, or plus 604800 if that is less |
| `Queue.HandledIsPublished` | backend/src/api/routes_device.py:282-300 | in every run whatever a consumer was answered with or passed over is such an entry |
| `Queue.CallReadsClock` | backend/src/api/routes_device.py:265-278 | in every run, whatever the clock does, a call that goes on judges by the clock reading of its own start |
| `Queue.HandledInCall` | backend/src/api/routes_device.py:282-320 | what a command adds to a consumer's history carries the clock reading of the call it belongs to |
| `Queue.EveryEntryOnce` | backend/src/api/routes_device.py:265-320 | in every run a consumer's ids strictly increase, so none comes twice; deliveries were live and passed entries expired at the reading used; if ids rise over lapses of the key too, every entry up to the cursor still in Redis was handled |
| `Queue.ReadLaterIff` | backend/src/api/routes_device.py:265-320 | without that: from any reachable state, an entry still in Redis has been handled since its XADD exactly if the consumer had not read as far as its id by then and its cursor has reached it since |
| `Queue.LowIdIsLost` | backend/src/api/routes_device.py:241-281 | a run in which the key lapses and the clock is set back, so that a new stream starts below a cursor: its live entry is never read |
| `Queue.EmptyIff` | backend/src/api/routes_device.py:277-281 | a read answers that nothing is there exactly if no entry lies beyond the cursor |
| `Queue.BatchDoesNotShow` | backend/src/api/routes_device.py:277-320 | in every run, with publishes, clock changes and other consumers between the commands of a call: for every batch size the finished call has come to the same cursor, history and answer as going entry by entry through the stream as it is at the end, unless a lapse took something from the stream meanwhile |
| `Queue.LapseShowsBatch` | backend/src/api/routes_device.py:277-320 | the exception: two runs with a lapse inside the call, alike but for the batch size, of which one finds nothing and the other delivers a live entry |
| `Queue.AloneSweeps` | backend/src/api/routes_device.py:277-320 | a call with nothing in between ends, for every batch size, as going entry by entry does |
| `Queue.ExpiryKept` | backend/src/api/routes_device.py:212-247 | in every run that never sets the clock back, the key outlives every entry present at the last EXPIRE, because the ttl is clamped |
| `Queue.LapseLosesNothingLive` | backend/src/api/routes_device.py:212-247 | in every run, if a lapse takes an entry before its own expiry though its publish was finished, the clock was set back |
| `Queue.LapseLosesLiveIff` | backend/src/api/routes_device.py:212-247 | in every run, a lapse takes an entry before its own expiry exactly if the key is due and holds such an entry whose publish read a later clock than the last EXPIRE |
| `Queue.LapseTakesLateOnly` | backend/src/api/routes_device.py:212-247 | in every run, whatever the clock does, every single entry that a lapse takes before its own expiry was published at a later clock reading than that of the last EXPIRE |
| `Queue.ExpireCoversIff` | backend/src/api/routes_device.py:241-247 | at an EXPIRE, for every entry of the stream: some lapse before the next EXPIRE can take it before its own expiry exactly if that expiry is more than seven days beyond the clock reading of the EXPIRE |
| `Queue.ClockBackLosesLive` | backend/src/api/routes_device.py:212-247 | a run in which the clock is set back between two publishes, and the key lapses with the first entry 1000 seconds before its expiry, though its publish was finished |
| `Queue.LapseInsidePublish` | backend/src/api/routes_device.py:241-247 | a run in which the key lapses between XADD and EXPIRE and takes an entry with 100 seconds left |
| `Queue.OthersDoNotShow` | backend/src/api/routes_device.py:265-320 | a consumer's commands change neither the stream nor another consumer |
| `QueueServer.Server.PublishMessage` | backend/src/api/routes_device.py:208-249 | a publish is exactly its XADD and its EXPIRE, as a run of the machine, whatever else happened; the new entry is the id, the payload and the clamped expiry given |
| `QueueServer.Server.ConsumeMessage` | backend/src/api/routes_device.py:251-320 | a consume call is the run of the machine in which reads and writes take turns after the start, with the given events of all other parties before each; it answers with the one entry it adds as delivered, which is live at the clock reading of the start and has the payload and the expiry of a publish of the run; an empty answer means nothing beyond the cursor; unless a lapse took something meanwhile it comes to what going entry by entry comes to; the call terminates |
| `QueueServer.Server.Round` | backend/src/api/routes_device.py:276-320 | one turn of the loop is one read, and unless that found nothing one write of the cursor; alone, it moves the cursor on |
| `QueueServer.Server.ReadBatch` | backend/src/api/routes_device.py:277-281 | one read of the loop, after whatever others did: the batch after the cursor at the time of the read, and what it puts into the consumer's hand |
| `Paging.XrevrangeFiltered` | backend/src/api/routes_admin.py:1226-1262 | the backward scan gives the first `limit` matches among the newest 1000 entries, at least one |
| `Paging.DumpHeartbeats` | backend/src/api/routes_admin.py:1358-1381 | the forward scan, reversed, gives every entry of the client, newest first |
| `Paging.PageOfNewest` | backend/src/api/routes_admin.py:1242-1258 | a page read at an exclusive bound is the next stretch of the reversed stream: nothing twice, nothing missed |
| `Paging.LastOfPage` | backend/src/api/routes_admin.py:1253-1258 | the last id of a page bounds exactly what comes after the page |
| `Paging.FilterReversed` | backend/src/api/routes_admin.py:1358-1381 | filtering and reversing commute |
| `Paging.FilterIff` | backend/src/api/routes_admin.py:1226-1262 | filtering keeps the entries of the wanted clients and no others |
| `Paging.FilterAscends` | backend/src/api/routes_admin.py:1226-1262 | it keeps them in the order of the stream, each once |
| `Kvenc.XorTwice` | backend/src/core/security.py:73-76 | combining a byte with the same key byte twice gives the byte back |
| `Kvenc.XorIsExclusive` | backend/src/core/security.py:73-76 | a bit of the combination is set exactly if the two bytes differ in it, for all eight bits |
| `Kvenc.BlockInputInjective` | backend/src/core/security.py:59-65 | no two pairs of nonce and counter have the same HMAC input |
| `Kvenc.BlockInputIs` | backend/src/core/security.py:48-65 | that input is the ASCII label, the nonce as four big-endian bytes and the counter byte |
| `Kvenc.KeystreamIsBlocks` | backend/src/core/security.py:59-70 | the keystream of a length is the start of the blocks 0, 1, 2 and so on |
| `Kvenc.CipheredTwice` | backend/src/core/security.py:73-76 | ciphering twice gives the data back, at any length |
| `Kvenc.CipheredFlips` | backend/src/core/security.py:73-76 | every byte of the ciphertext differs from the plaintext in exactly the bits of its keystream byte |
| `Kvenc.ZerosGiveKeystream` | backend/src/core/security.py:73-76 | zeros are ciphered to the keystream itself |
| `Kvenc.KvencKeystream` | backend/src/core/security.py:52-70 | the server's loop gives the specified keystream for up to 8160 bytes and raises for more |
| `Kvenc.ServerXor` | backend/src/core/security.py:73-76 | the server's cipher is the specified one, for exactly the nonces and lengths it accepts |
| `Kvenc.CliXor` | tools/stra2us_cli/client.py:36-49 | the command-line tool's cipher is the same function, up to 8192 bytes |
| `Kvenc.FirmwareXor` | client/src/IoTClient.cpp:265-318 | the in-place loop with its one-byte counter is the same function on its stretch of the buffer and leaves the rest alone |
| `Kvenc.SignedEncryptedBody` | backend/src/api/routes_device.py:187-206 | the body is the ext 0x21 of the ciphered text, for exactly the nonces and lengths the cipher accepts |
| `Kvenc.BodyIsFramed` | backend/src/api/routes_device.py:187-206 | the body is one complete ext 0x21 whose data is the ciphertext |
| `Kvenc.ParseHeader` | client/src/IoTClient.cpp:323-378 | the hand-written parse finds exactly the complete ext 0x21 frames that the codec's reader finds, with the same lengths |
| `Kvenc.DecryptIfEncrypted` | client/src/IoTClient.cpp:323-389 | a buffer that starts with a complete ext 0x21 is opened in place and shortened to the data length; any other buffer and its length stay unchanged |
| `Kvenc.FirmwareRecovers` | client/src/IoTClient.cpp:320-389 | for every plaintext of up to 8160 bytes the firmware recovers exactly it from the server's body, whatever follows in memory |
| `Kvenc.CliRecovers` | tools/stra2us_cli/client.py:209-221 | the command-line tool recovers the same plaintext |
| `KvencNonce.NonceStore.NextKvencNonce` | backend/src/api/routes_device.py:168-184 | one allocation stores and gives the greater of the reading and the last nonce plus one, and touches no other client |
| `KvencNonce.NonceStore.Serve` | backend/src/api/routes_device.py:177-184 | in a run of calls of any clients in any order, each client's nonces are those of the recurrence over its own calls, for any readings |
| `KvencNonce.ClosedForm` | backend/src/api/routes_device.py:168-175 | the n-th nonce is max(last0 + n, max over i of now_i + (n - i)), for any readings, backward jumps included |
| `KvencNonce.Increasing` | backend/src/api/routes_device.py:168-175 | later nonces of a run are greater |
| `KvencNonce.NoInputReused` | backend/src/core/security.py:52-70 | in a whole run no HMAC input serves two responses or two blocks |
| `KvencNonce.DriftPassesIff` | tools/stra2us_cli/client.py:81-85 | the client's drift check passes exactly if no burst of calls ran more than 300 ahead of the clock |
| `Acl.CheckAcl` | backend/src/api/dependencies.py:166-187 | the loop allows exactly what the first covering permission allows |
| `Acl.FirstCoverDecides` | backend/src/api/dependencies.py:166-187 | access is granted exactly if some permission covers the path and the first that does grants the mode |
| `Acl.StripTypeIs` | backend/src/api/dependencies.py:166-176 | exactly one `q/` or `kv/` in front of a resource is dropped before it is matched |
| `Acl.CoversIff` | backend/src/api/dependencies.py:145-164 | what one permission covers, with the catalog alias, in terms of the backup's predicate |
| `Acl.MatchesIff` | backend/src/services/backup_format.py:289-300 | for every app but `*`, a list of permissions matches it exactly if one of them, other than `*`, covers keys of the app's own tree only |
| `Acl.BelongsIffMayWrite` | backend/src/services/backup_format.py:303-312 | a key belongs to an app exactly if the permission `app:rw` alone may write it; the two exceptions, `*` and one key of the empty app, are named |
| `Acl.TopicBelongsIffMayWrite` | backend/src/services/backup_format.py:315-319 | a topic belongs to an app exactly if the permission `app:rw` alone may publish to it, except for the app's topics under `_catalog/`, which it may publish to and which do not belong to it; the exceptions `*` and one topic of the empty app are named |
| `Acl.AppsDisjointIff` | backend/src/services/backup_format.py:303-312 | two different slash-free apps share a key exactly if one of them is `_catalog` |
| `Base64.RoundTrip` | backend/src/services/backup_format.py:332-349 | every byte string comes back from base64 through the lenient decoder |
| `Base64.AlphabetIs` | backend/src/services/backup_format.py:332-340 | the letters are the capital and the small letters and the digits in order, then plus and slash |
| `Base64.GroupIs` | backend/src/services/backup_format.py:332-340 | a group of one to three bytes is its number, missing bytes zero, in four letters of base 64, with padding for those without a bit of it |
| `Base64.GroupsInTurn` | backend/src/services/backup_format.py:332-340 | a text is written group by group |
| `Base64.JunkIsPassed` | backend/src/services/backup_format.py:343-349 | the lenient decoder reads any text as if only letters and padding stood in it, and refuses it if it holds more than ASCII |
| `Base64.PaddingIs` | backend/src/services/backup_format.py:343-349 | padding that fills up a group ends the reading, whatever follows; a text that ends inside a group, or is padded short, is refused |
| `BackupFormat.FromJsonToJsonIff` | backend/src/services/backup_format.py:170-279 | an envelope comes back from its JSON form exactly if it is valid; null and empty activity log stay apart |
| `BackupFormat.AcceptedIsValid` | backend/src/services/backup_format.py:203-279 | whatever document is accepted gives a valid envelope, which comes back unchanged from writing and reading it again |
| `BackupDocument.AcceptedIff` | backend/src/services/backup_format.py:203-279 | a document is accepted exactly if its head is right and every record of every section it has is well formed, to the last field |
| `BackupDocument.FirstBadSection` | backend/src/services/backup_format.py:236-277 | of the sections that are no good the first, in the order of the parse, decides which error it is |
| `BackupDocument.FirstFailureIff` | backend/src/services/backup_format.py:236-277 | a section fails with an error exactly if its first record that does not read fails with it |
| `BackupDocument.RecordErrors` | backend/src/services/backup_format.py:236-277 | the error of a record, by what it lacks |
| `BackupDocument.HeadErrors` | backend/src/services/backup_format.py:209-229 | literal documents with the error of their head, from top to bottom |
| `BackupDocument.Leniencies` | backend/src/services/backup_format.py:236-277 | literal records with a field left out or of another type, and what they are read as |
| `BackupDocument.FalsyIff` | backend/src/services/backup_format.py:232-277 | which values count as absent where the parse asks for a truth value |
| `BackupDocument.DocumentExample` | backend/src/services/backup_format.py:170-201 | the document of a literal envelope with one record of each kind, in full |
| `BackupFormat.LogBack` | backend/src/services/backup_format.py:268-274 | the activity log comes back, null as null and empty as empty |
| `BackupFormat.ReadDictIff` | backend/src/services/backup_format.py:236-277 | a section comes back exactly if each of its entries does |
| `BackupFormat.Load` | backend/src/services/backup_format.py:203-279 | the checks and loops in their order compute the specified parse, errors included |
| `BackupFormat.LoadDict` | backend/src/services/backup_format.py:236-277 | the loop over a section gives all entries, or the error of the first that does not read |
| `BackupStore.EntriesMeetIff` | backend/src/services/backup_io.py:253-337 | two entries of an envelope write a common key exactly if they have section and name in common, or one is a value whose key is the other's with `:enc` |
| `BackupRecords.KeysAre` | backend/src/services/backup_format.py:113-122 | the Redis keys of every kind of entry, in full |
| `BackupRecords.StepMeans` | backend/src/services/backup_io.py:264-350 | one entry, in any store: rejected if it does not belong to the app, skipped if it is there and nothing is forced, else stored as it stands, with no other key changed, and reported as overwritten exactly if it was there; a stream XADD refuses raises unreported |
| `BackupRecords.FlagIs` | backend/src/services/backup_io.py:299-307 | an encrypted value is flagged with the byte `1` under its key with `:enc`; any other leaves no flag there |
| `BackupRecords.AddedIs` | backend/src/services/backup_io.py:319-324 | a stream gets its entries in order up to the first without fields or with an id not above the one before it |
| `BackupStore.ApplyEffect` | backend/src/services/backup_io.py:253-352 | in either mode and under any filter, a restore of any envelope whose streams can be written reports every entry exactly once, in order, with a verdict given by the store before it and the entries alone, and leaves under every key what the last entry written there says, or what was there if none was |
| `BackupStore.ReportInOrder` | backend/src/services/backup_io.py:253-352 | for any entries, a restore that does not raise reports each once, in order, with the verdict of the store as it stands at the entry's turn |
| `BackupStore.VerdictIs` | backend/src/services/backup_io.py:264-337 | that verdict is the one of the store at the start, or, for an entry that poses as the flag of one written before, the one that flag implies |
| `BackupStore.LastWriter` | backend/src/services/backup_io.py:253-352 | for any entries, raising or not, a key is left as the last written entry that touches it leaves it |
| `BackupStore.NoneLanded` | backend/src/services/backup_io.py:253-352 | for any entries, raising or not, a key that no written entry touches is as it was |
| `BackupStore.FailsIff` | backend/src/services/backup_io.py:310-350 | a restore of any envelope raises exactly if a stream it is to write has an entry XADD does not take |
| `BackupStore.ExistingStays` | backend/src/services/backup_io.py:264-337 | without force, for any entries, raising or not, neither key of an existing record changes, but for the flags that an entry posing as one, or a value with one, sets |
| `BackupStore.FlagAppearsIff` | backend/src/services/backup_io.py:291-307 | the exact effect of a restore without force on an existing value: its key stays; its encryption flag stays if it had one; otherwise it gets one exactly if an entry that is not refused has its key with `:enc` |
| `BackupStore.SidecarFlips` | backend/src/services/backup_io.py:291-307 | a literal restore without force that flags an existing value as encrypted |
| `BackupTwice.ForcedTwice` | backend/src/services/backup_io.py:253-352 | with force, restoring any entries twice is restoring them once, under any filter, raising or not |
| `BackupTwice.RestoreTwiceIff` | backend/src/services/backup_io.py:253-352 | without force, after a restore that did not raise a second one does not either, and changes nothing more exactly if no entry poses as the flag of a value that comes later, is written and has no flag |
| `BackupTwice.TwiceDiffers` | backend/src/services/backup_io.py:291-307 | two literal values, the first posing as the flag of the second, for which the second restore changes the store |
| `BackupTwice.RetryGoesOn` | backend/src/services/backup_io.py:310-350 | after a restore without force that raised at a stream, a second raises there again and changes nothing if the stream got no entry; else it takes the broken stream for an existing one and goes on with the rest |
| `BackupStore.OnlyTheAppChanges` | backend/src/services/backup_io.py:264-350 | with a filter, for any entries, raising or not, every changed key but the activity log's is a key of an entry that belongs to the app |
| `BackupStore.GrantedIff` | backend/src/services/backup_format.py:289-300 | a client or an admin belongs to an app exactly if some entry of the permissions list of its ACL document has the app, or a path below it, for a prefix |
| `BackupStore.BelongsIff` | backend/src/services/backup_format.py:289-319 | what belongs to an app, section by section, in literal prefixes |
| `BackupCollect.ItemsDistinct` | backend/src/services/backup_format.py:203-279 | no envelope whose sections are dictionaries has an entry twice |
| `BackupRecords.ItemsInOrder` | backend/src/services/backup_io.py:264-350 | the entries of an envelope are its sections in the order of the restore, each in its own order, and the log last |
| `BackupCollect.LogOfIff` | backend/src/services/backup_io.py:140-150 | the log of a per-app dump has exactly the entries whose client is in the dump |
| `BackupRecords.LogInOrder` | backend/src/services/backup_io.py:140-150 | that log keeps the order of the entries |
| `BackupRecords.DumpHead` | backend/src/services/backup_io.py:97-150 | kind, app and time of a dump, and its log, present exactly if asked for |
| `BackupCollect.PerAppIsSlice` | backend/src/services/backup_io.py:97-221 | the entries of a per-app dump are those of the whole dump that belong to the app, in the same order |
| `BackupCollect.ApplyOwned` | backend/src/services/backup_io.py:253-337 | restoring entries through a filter is restoring the app's own entries, up to the lines of the refused ones |
| `BackupCollect.WholeThroughFilter` | backend/src/services/backup_io.py:253-337 | for any destination and either mode, restoring the whole dump through the filter of an app gives the same store, lists and failure as the app's own dump, and nothing of the latter is rejected |
| `BackupRoundTrip.DumpedIff` | backend/src/services/backup_io.py:97-221 | a whole dump has exactly the entries of the store: key slicing, sidecar pairing and streams included |
| `BackupRoundTrip.PerAppHasIff` | backend/src/services/backup_io.py:121-221 | a per-app dump has exactly those of them whose key, topic, device or ACL document names the app or a path below it |
| `BackupRoundTrip.DumpIsClean` | backend/src/services/backup_io.py:182-203 | a dump has no entry twice and no value whose key ends in `:enc` |
| `BackupRoundTrip.RestoredHasIff` | backend/src/services/backup_io.py:253-352 | restored into an empty store, a dump makes a store with exactly the same entries, but for empty queues |
| `BackupRoundTrip.DumpAgain` | backend/src/services/backup_io.py:97-118 | dump, restore, dump again: an entry is in the second dump exactly if it is in the first and no empty queue, however KEYS orders its answers |
| `BackupRoundTrip.SameDumpIff` | backend/src/services/backup_io.py:205-235 | the two dumps have the same entries exactly if no queue is empty |
| `BackupRoundTrip.DumpThroughJson` | backend/src/services/backup_format.py:170-279 | a whole dump of a store whose ACLs are JSON objects comes back from JSON |
| `BackupIo.Redis.CollectClients` | backend/src/services/backup_io.py:153-163 | the loop gives the clients the specification picks, and raises exactly if some ACL is not JSON |
| `BackupIo.Redis.CollectKv` | backend/src/services/backup_io.py:182-203 | the two passes give each value with its own sidecar |
| `BackupIo.Redis.Collect` | backend/src/services/backup_io.py:97-150 | both collect functions give the specified envelope, log filter included |
| `BackupIo.Redis.PutEntries` | backend/src/services/backup_io.py:319-324 | a stream is replaced by its entries up to the first one XADD refuses |
| `BackupIo.Redis.ApplyEnvelope` | backend/src/services/backup_io.py:253-352 | the six loops do what the run over the envelope's entries does, and stop where it fails |
| `BackupIo.Redis.RestorePerApp` | backend/src/api/routes_admin.py:1059-1101 | the route refuses a bad app name, a malformed envelope or another app's before any write, and else applies the envelope through the filter |
| `BackupIo.Redis.RestoreWhole` | backend/src/api/routes_admin.py:1023-1056 | the route refuses malformed and per-app envelopes before any write, and else applies the envelope |
| `Publish.KeysApart` | tools/stra2us_cli/catalog_publish.py:64-73 | for lint-clean names the keys of each file are its own: no bytes key is a metadata key, the catalog or the index |
| `PublishPlan.LintRules` | tools/stra2us_cli/catalog_lint.py:71-71 | what lint refuses in a file name: no name, one over 64 characters, a leading dot, capitals, slashes, blanks |
| `Publish.SortedListing` | tools/stra2us_cli/catalog_publish.py:224-224 | a listing is the bundle's names in order, each as often as it occurs |
| `PublishPlan.BeforeIff` | tools/stra2us_cli/catalog_publish.py:224-224 | that order is the one of code points: a text comes before another if it is its start, or smaller where they part |
| `PublishPlan.DroppedInOrder` | tools/stra2us_cli/catalog_publish.py:250-250 | the names to delete are those of the old listing the new one lacks, each once, in order |
| `PublishPlan.PlanIs` | tools/stra2us_cli/catalog_publish.py:227-254 | every operation of a publish, by its place: bytes and metadata of each asset, the catalog, the index, the deletions, with keys and values in full |
| `Publish.UploadsKeep` | tools/stra2us_cli/catalog_publish.py:227-241 | after any number of uploads the old catalog and index are live and complete |
| `Publish.CommitKeeps` | tools/stra2us_cli/catalog_publish.py:243-247 | the commit names stored assets only, and the index after it as well |
| `Publish.DeletesKeep` | tools/stra2us_cli/catalog_publish.py:249-254 | after any number of deletions everything catalog and index name is still there |
| `Publish.PublishKeeps` | tools/stra2us_cli/catalog_publish.py:204-268 | a publish of a lint-clean bundle that dies after any PUT or DELETE leaves a store in which every asset the live catalog or the index names has bytes and metadata |
| `Publish.EveryPublishKeeps` | tools/stra2us_cli/catalog_publish.py:204-268 | the same at the end of every sequence of publishes, of any apps, each of which may die anywhere |
| `Publish.FromTheEmptyStore` | tools/stra2us_cli/catalog_publish.py:204-268 | the same from the store in which nothing was published |
| `Publish.PublishedHolds` | tools/stra2us_cli/catalog_publish.py:243-268 | after an uninterrupted publish a file is stored exactly if it is in the bundle, or was stored without being in the old listing |
| `Publish.BundleHeld` | tools/stra2us_cli/catalog_publish.py:227-254 | from the end of the uploads on, every asset of the bundle is stored with its own bytes and metadata, whatever is deleted after |
| `Publish.ReconciledIff` | tools/stra2us_cli/catalog_publish.py:217-219 | index, bundle and stored files agree after it exactly if every stored file was in the old listing as read or is in the bundle |
| `Publish.OrphanArises` | tools/stra2us_cli/catalog_publish.py:243-254 | a publish that dies anywhere after the index leaves, stored and unlisted, exactly those files outside its bundle that were stored and whose two deletions it had not both done |
| `Publish.OrphanStays` | tools/stra2us_cli/catalog_publish.py:21-25 | such a file stays through any later publishes whose bundles lack it |
| `PublishClient.KvClient.PutAndVerify` | tools/stra2us_cli/catalog_publish.py:182-201 | a value is stored, and the read-back agrees, exactly if the store answers |
| `PublishClient.KvClient.PublishAssets` | tools/stra2us_cli/catalog_publish.py:204-268 | the staged loops perform the plan's operations in order as far as the store answers, and report the dropped names exactly if all were performed |
| `Form.DecimalRoundTrip` | backend/src/services/value_resolver.py:108-112 | every integer printed into a control is read back by the JSON reader as the same integer |
| `FormRules.DigitsSnoc` | backend/src/services/value_resolver.py:108-112 | integers are printed in base ten |
| `FormRules.WordsAre` | backend/src/api/routes_app_form.py:58-69 | the words of JSON, numbers and what only looks like one, as the form prints and reads them |
| `FormRules.ResolveIs` | backend/src/services/value_resolver.py:68-97 | what the page shows for any store: the device's own record if it has a value, else the public one, else the default; the text of each, and the flag beside the record that won |
| `Form.SteadyIff` | backend/src/api/routes_app_form.py:58-69 | which values survive their own text exactly |
| `Form.KeysMeetIff` | backend/src/api/routes_app_form.py:117-119 | records, or sidecars, coincide exactly for the same device and name, and a record is another one's sidecar exactly if device and name agree up to `:enc`, for any variable names |
| `Form.SentNames` | backend/src/static/app/forms/touched_state.js:104-172 | no form, with radio groups or without, sends a name twice |
| `Form.SentExactly` | backend/src/static/app/forms/touched_state.js:104-172 | each control of a form without radio groups sends exactly its outcome |
| `Form.LeftOutIff` | backend/src/static/app/forms/touched_state.js:113-158 | in any form, of the untouched write-only or default controls that decide for their name exactly the text ones are left out; a check box sends its original, and a radio group what its first checked button says, its original unless touched |
| `Form.FirstDecides` | backend/src/static/app/forms/touched_state.js:104-172 | in any form the first named control that decides for a name settles what is sent under it |
| `FormRules.SentIs` | backend/src/static/app/forms/touched_state.js:104-172 | in any form, what the first control that speaks for a name sends under it, by its kind, its touch and its attributes alone; for radio buttons, of whichever kind, what the first checked one of the group says |
| `FormRules.OnlySpoken` | backend/src/static/app/forms/touched_state.js:104-172 | nothing else is sent: every name in the payload is that of such a control |
| `FormRules.SentInOrder` | backend/src/static/app/forms/touched_state.js:104-172 | the payload is in the order of the controls |
| `Form.SavedItem` | backend/src/api/routes_app_form.py:105-145 | a posted field ends up stored decoded, unless a later field of the form is stored over it; colons allowed |
| `Form.SavedFlag` | backend/src/api/routes_app_form.py:120-145 | a posted field ends up flagged encrypted exactly if the catalog says so, or, for a name it lacks, if it was before its turn |
| `Form.SavedOther` | backend/src/api/routes_app_form.py:105-145 | a save of any names leaves every record alone that no posted name is stored under |
| `Form.RoundWrites` | backend/src/static/app/forms/touched_state.js:104-172 | in a load-edit-save round an edit is stored, an untouched write-only or default control writes nothing, any other untouched control writes the text it was loaded with |
| `Form.RoundFlags` | backend/src/api/routes_app_form.py:120-145 | whatever a round writes for a variable is flagged exactly as the catalog says |
| `Form.RoundLeaves` | backend/src/api/routes_app_form.py:105-145 | a round touches records of this device and of the page's variables only |
| `Form.LeftOutKeeps` | backend/src/static/app/forms/touched_state.js:141-158 | an untouched write-only or default variable resolves as before |
| `Form.RoundKeepsIff` | backend/src/services/value_resolver.py:50-114 | an untouched stored value resolves to itself afterwards exactly if it survives its text, or its text is null and the public layer has the same value |
| `Form.VisitsKeep` | backend/src/services/widget_renderer.py:185-202 | through any number of rounds, an integer, a boolean or text that is no JSON stays while nobody edits it, from either layer and whatever its control displayed |
| `Form.UnsetBecomesEmpty` | backend/src/static/app/forms/touched_state.js:65-68 | an untouched variable without a value or default is saved as the empty text |
| `Form.NullTextIsLost` | backend/src/api/routes_app_form.py:58-69 | the stored text `null` resolves to nothing after a save that does not touch it |
| `Form.RadioIgnoresRules` | backend/src/static/app/forms/touched_state.js:113-158 | on a page of one untouched write-only or default control, a check box and a checked radio button are sent with their original; text is not |
| `FormPage.Page.Init` | backend/src/static/app/forms/touched_state.js:80-95 | every managed control is bound once, clean, with its baseline, and the number newly bound is returned |
| `FormRules.UnboundIs` | backend/src/static/app/forms/touched_state.js:80-95 | that number is how many managed controls were not bound; after it none is left |
| `FormRules.BoundIs` | backend/src/static/app/forms/touched_state.js:66-95 | binding leaves a control clean, with the text it displays for a baseline if it came without one, and a bound one as it is |
| `FormPage.Page.Serialize` | backend/src/static/app/forms/touched_state.js:104-172 | the loop gives the specified payload |
| `FormPage.Server.Submit` | backend/src/api/routes_app_form.py:105-145 | the write loop makes the specified store, sidecars by the catalog |
| `FormPage.LoadEditAndSave` | backend/src/static/app/forms/touched_state.js:80-172 | rendering, binding, editing, serialising and saving together are the round of the model |
| `Svg.WalkNode` | tools/stra2us_cli/sanitizers/svg.py:137-170 | the recursive method with its loops computes the specified walk |
| `Svg.WalkIsClean` | tools/stra2us_cli/sanitizers/svg.py:137-170 | what comes out has only allowlisted tags, allowlisted attributes and same-document references, at every depth |
| `Svg.AttrsSurvive` | tools/stra2us_cli/sanitizers/svg.py:137-170 | an attribute comes through exactly if its local name is allowlisted, or href in any case, with the value of the last attribute of that name, in the order in which the names first occur |
| `Svg.LocalnameIff` | tools/stra2us_cli/sanitizers/svg.py:86-92 | the local name is what follows the namespace in braces, or the whole name |
| `Svg.CleanIsFixed` | tools/stra2us_cli/sanitizers/svg.py:137-170 | a clean tree walks to itself |
| `Svg.WalkIdempotent` | tools/stra2us_cli/sanitizers/svg.py:137-170 | sanitizing twice is sanitizing once |
| `Svg.RefusedIff` | tools/stra2us_cli/sanitizers/svg.py:106-170 | a tree is refused exactly if it, or something below it through allowlisted elements, is a script, a foreign object, or has an attribute whose local name starts with `on` or is an href that is no clean `#` reference |
| `Svg.SurvivorsInOrder` | tools/stra2us_cli/sanitizers/svg.py:137-170 | surviving children are exactly the allowlisted ones, cleaned, in document order |
| `Svg.ListedIffClean` | tools/stra2us_cli/sanitizers/svg.py:137-170 | an element that is not refused survives exactly if its tag is allowlisted, with its text |

## Left out

- cmp.c: floats and doubles are their big-endian images; the payload writers of str and bin, and the `cmp_object_as_*`
  accessors, are easy members.
- cmp.c: the read and skip callbacks read a byte string, all or nothing; the firmware's own are stubs that fail.
- cmp.c: the skippers' counter is taken modulo a parameter, the number of values of the host's size_t.
- IoTClient.cpp: the header check adds two sizes that could wrap on a 32-bit host only for data longer than memory.
- HMAC-SHA256, hex decoding, UTF-8 and msgpack-python are parameters or left out; so are HTTP, authentication, signing.
- Queues: the envelope form of an answer, which wraps the same payload with the publisher's id and the time.
- Queues: concurrent consume calls of one consumer, deletion of a queue followed by its re-creation, and permissions.
- Queues: stream ids are numbers in their order. Redis assigns them, above the last id of the stream it has; after a
  lapse it has none. A publish reads the clock when it adds, a consume call when it reads its cursor.
- Paging: the stream is fixed during a scan; the decoding of entries is left out.
- Backup: stream ids are texts with a rank, and XADD takes an id of higher rank; the canonical spelling of ids is left
  out.
- Backup: `json.loads` undoes `json.dumps`; an ACL whose permissions are no list of objects grants nothing here, where
  the code raises; a key of the wrong Redis type is not modelled.
- Backup: KEYS gives each key once, in any order; nothing else writes during a dump or restore.
- Backup: an empty stored text counts as absent for clients, ACLs and devices, as in the code.
- `BackupCollect.WholeThroughFilter`: without logs, because the filter does not apply to the activity log.
- Publish: concurrent publishes, and the publish without an assets directory, which skips the lint the invariant needs.
- Publish: a failed verification counts as the publish dying at that point; content types follow from the suffixes.
- Form: HTML text, its escaping and its line ends; what a control displays is any text, so clamping and masking are
  covered.
- Form: how radio groups are rendered; `json.loads` beyond literals and integers is a parameter, floats are texts.
- Svg: parsing and serialising XML; case folding is that of ASCII.
- OAuth, sessions, themes, dashboards, logging, config lookup: input, output or easy members.
