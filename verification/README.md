# Libravatar SRV discovery over DNS-over-HTTPS: a Dafny model

This project models the DNS core of the Thunderbird Libravatar add-on. The core finds
a domain's `_avatars-sec._tcp` SRV record through DNS-over-HTTPS. It covers:

- **Query encoder.** It builds the one-question SRV query for `_avatars-sec._tcp.<domain>`
  in DNS wire format. It then base64-encodes the query with `btoa` and strips the trailing `=`.
- **Response decoder.** It reads the header (section 4.1.1 of RFC 1035) and the first
  question (section 4.1.2). When the header announces answers, it also reads the first
  resource record (section 4.1.3) and the SRV port and target (RFC 2782).
- **Name parser.** It reads one name: either a literal run of length-prefixed labels, or a
  single compression pointer (section 4.1.4 of RFC 1035). Pointers resolve through a
  per-decode memo of the names read so far.
- **TTL cache.** Decoded responses are cached per domain, as `[timestamp, message]`.
- **Helpers from `utils.js`.** `buildSecureUrl`, and the byte comparisons of
  `doSignaturesMatch`, which checks an avatar image's magic numbers.

Modules:

- `wrappers.dfy`: `Option` and `Result`.
- `bytes.dfy`: big-endian numbers and `parseBytesToNumber`.
- `labels.dfy`: `split('.')`, `join('.')` and the wire form of labels.
- `names.dfy`: `parseName` and its memo.
- `message.dfy`: `decode`.
- `base64.dfy`: `btoa`.
- `query.dfy`: the query encoder and the `=` stripping.
- `cache.dfy`: the cache and `queryAvatarService`.
- `samples.dfy`: the buffers of the unit tests.
- `urls.dfy`: `buildSecureUrl`.
- `signatures.dfy`: `doSignaturesMatch`.

Each imperative piece of the source is a method proved against a function:

- `parseBytesToNumber`'s loop.
- `parseName`'s walk, which updates a memo object.
- `decode`'s steps.
- The encoder's pushes and its trimming loop.
- The cache's map.
- `doSignaturesMatch`'s comparison loops.

Lemmas relate each function to a partner: an inverse, a round trip, or an invariant it keeps.

The model follows the code where it departs from the RFCs it cites:

- The query is encoded with `btoa`'s standard alphabet (section 4 of RFC 4648), not the
  base64url alphabet that section 4.1 of RFC 8484 calls for.
- A first name byte with either of its top two bits set is read as a pointer (`& 192`),
  not only one with both bits set (section 4.1.4 of RFC 1035).

A memo entry holding the empty name is rejected like an absent one (src/background/dns.js:175).
`String.fromCharCode` keeps only the low 16 bits of each value it is given (src/background/dns.js:61), so a
label length of 65536 or more is cut down before `btoa` sees it; the model does the same.

Responses are cached when `record` is present; `Message.DecodeShape` proves a decoded message
has `data` exactly when it has `record`.

## Model

| member | source | states |
|---|---|---|
| Bytes.ParseBytesToNumber | src/background/dns.js:152-161 | the loop's result is the big-endian value of `bytes[start..start+length)` and is below 256^length |
| Bytes.BigEndianBound | src/background/dns.js:152-161 | a value read from n bytes is below 256^n |
| Bytes.BigEndianOfToBigEndian | src/background/dns.js:152-161 | a number below 256^width, written in `width` bytes, reads back as itself |
| Bytes.ToBigEndianOfBigEndian | src/background/dns.js:152-161 | writing a read value back in as many bytes gives the same bytes, so the reading loses nothing |
| Bytes.BigEndianInjective | src/background/dns.js:152-161 | two byte strings of the same width that read as the same number are equal |
| Bytes.BigEndianSamples | test/background/dns.test.js:6-19 | [0,33] reads as 33, [128,1] as 32769 and [0,1] as 1 |
| Labels.Split | src/background/dns.js:53 | `split('.')` never returns an empty list |
| Labels.JoinSplit | src/background/dns.js:53 | joining the parts of a domain with dots gives the domain back, and no part contains a dot |
| Labels.SplitJoin | src/background/dns.js:53 | dot-free parts joined with dots split back into the same parts |
| Labels.SplitLength | src/background/dns.js:53-58 | the number of parts plus their total length is one more than the domain's length |
| Labels.WireSnoc | src/background/dns.js:53-58 | one more label appends its length byte and its codes to the wire form: one step of the encoder's loop |
| Labels.WireLength | src/background/dns.js:53-58 | the wire form is one byte longer per label than the labels together |
| Labels.WireRange | src/background/dns.js:53-58 | labels shorter than 256 with values below 256 give a wire form of bytes only |
| Labels.CodesJoin | src/background/dns.js:53-56 | taking character codes commutes with joining at dots |
| Names.NameMemo.constructor | src/background/dns.js:103 | each decode starts with an empty memo |
| Names.ParseName | src/background/dns.js:169-196 | the result and the new memo are those of `NameAt`. A pointer (`bytes[i] & 192`) looks up offset `(b0 & 63)*256 + b1`; it fails `Malformed` when the entry is absent or empty, keeps the memo and ends at `i + 2`. A literal name joins its labels with dots, ends past the zero byte and stores the name at its start offset. Running off the buffer fails `Truncated` and keeps the memo |
| Names.PointerByte | src/background/dns.js:170-171 | `b & 192` is non-zero exactly for b ≥ 64 (so 0x40 and 0x80 start pointers too), and `b & 63` is b mod 64 |
| Names.LabelsAtSound | src/background/dns.js:182-191 | a successful walk covers exactly the wire form of its labels and a zero byte, and every label has 1 to 255 bytes |
| Names.LabelsAtComplete | src/background/dns.js:182-191 | the wire form of valid labels followed by a zero byte walks back to exactly those labels, ending just past the zero byte |
| Names.LiteralName | src/background/dns.js:182-195 | a literal name at i is the dot-join of its labels and ends past its zero byte; the memo gains the name at i and keeps every other entry |
| Names.LiteralNameSound | src/background/dns.js:182-195 | every successful literal read has that shape: wire-form labels and a zero byte from i to `loc`, and the memo gains the name at i |
| Names.PointerName | src/background/dns.js:170-179 | a pointer at i gives the memo entry at `(b0 % 64)*256 + b1` and ends at i + 2 with the memo unchanged; an absent or empty entry is `Malformed` |
| Message.Decode | src/background/dns.js:93-144 | the result is `MessageOf`: the header, the question at 12 and, only when `answerCount != 0`, the first record and its SRV port and target, all through one fresh memo |
| Message.ReadHeader | src/background/dns.js:94-101 | the six 16-bit big-endian fields at offsets 0, 2, 4, 6, 8 and 10; a buffer shorter than 12 bytes is `Truncated` |
| Message.ReadQuestion | src/background/dns.js:103-112 | the name at 12, then the type at `qLoc` and the class at `qLoc+2`; decoding continues at `qLoc+4`. The memo is what `parseName` left, on success and on failure alike: it gains a literal name even when the type and class then run off the buffer |
| Message.ReadRecord | src/background/dns.js:122-131 | the name at i, then the type, class, 4-byte ttl and data length; decoding continues 10 bytes past the name. The memo is what `parseName` left, on success and on failure |
| Message.ReadSrv | src/background/dns.js:133-136 | priority and weight are skipped, the port is read at i+4 and the target name at i+6 with the same memo. A literal target is added to the memo; when the buffer ends before i+6 the memo is unchanged |
| Message.DecodeShape | src/background/dns.js:114-143 | a decoded message has a record exactly when `answerCount != 0`, and data exactly when it has a record; every field fits its width on the wire |
| Message.HeaderAt | src/background/dns.js:94-101 | a header laid out in wire form reads back unchanged |
| Message.QuestionAt | src/background/dns.js:103-112 | a question laid out at offset 12 reads back with its name memoised at 12, and decoding continues just past it |
| Message.RecordAt | src/background/dns.js:122-131 | an answer named by the pointer C0 0C reads back as a record named after the memo entry at 12 |
| Message.SrvAt | src/background/dns.js:133-136 | the SRV data after the record reads back as its port and its target name |
| Message.DecodeWithoutAnswer | src/background/dns.js:114-120 | with `answerCount == 0` the message has no record and no data, whatever bytes follow the question |
| Message.DecodeWithAnswer | src/background/dns.js:122-143 | a response whose SRV answer points back at the question decodes to the header, the question, a record with the question's name, and the port and target |
| Query.BuildQueryBytes | src/background/dns.js:49-59 | the pushes build `QueryBytes(domain)`: the header bytes, the SRV labels, a length byte and character codes per label, then 0, 0, 33, 0, 1 |
| Query.QueryLength | src/background/dns.js:49-59 | the query is `|domain| + 36` long (30 fixed bytes, one per label and character, then 5) |
| Query.DnsHeaderWire | src/background/dns.js:8 | the header bytes encode id 0, flags 0x0100 (recursion desired) and one question |
| Query.SrvSubdomainWire | src/background/dns.js:11 | the pre-encoded bytes are the wire form of the labels `_avatars-sec` and `_tcp` |
| Query.QueryLayout | src/background/dns.js:49-59 | the query is a header followed by one question of type SRV (33) and class IN (1) |
| Query.QueryInRange | src/background/dns.js:49-59 | with labels of 1 to 255 characters below 256, every value pushed is a byte |
| Query.QueryName | src/background/dns.js:49-58 | the question labels joined with dots are `_avatars-sec._tcp.` followed by the domain |
| Query.QueryDecodes | src/background/dns.js:49-59 | the decoder reads the encoder's query back: the query header, and the question `_avatars-sec._tcp.<domain>` with type 33 and class 1, with no record |
| Query.EncodeQuery | src/background/dns.js:61-65 | succeeds exactly when `btoa` accepts the values cut to 16 bits by `fromCharCode` (`Latin1`); the result is exactly `btoa`'s output for those bytes without its `=` padding, decodes back to them, and is (4n+2)/3 characters long |
| Query.Latin1Accepts | src/background/dns.js:61 | `btoa(String.fromCharCode(...))` accepts exactly the values whose low 16 bits are below 256, and encodes those low bits |
| Query.Latin1OfBytes | src/background/dns.js:61 | values that are already bytes are encoded unchanged |
| Query.WrappedLabelLength | src/background/dns.js:53-61 | a dot-free domain of 65536 characters below 256 pushes the length 65536, which `fromCharCode` cuts to 0, so `btoa` accepts the query and the length byte sent is 0 |
| Query.TrimPadding | src/background/dns.js:63-65 | the result is the input with its trailing `=` characters removed, and no others |
| Query.TrimmedEncode | src/background/dns.js:62-65 | trimming `btoa`'s padded output leaves exactly the unpadded encoding |
| Base64.Digit | src/background/dns.js:62 | each six-bit value has an alphabet character, never `=`, that maps back to it |
| Base64.DecodeUnpadded | src/background/dns.js:62-65 | decoding the unpadded encoding gives the bytes back |
| Base64.UnpaddedLength | src/background/dns.js:62-65 | the unpadded encoding of n bytes has (4n+2)/3 characters |
| Base64.EncodeLength | src/background/dns.js:62 | `btoa` output of n bytes has 4·⌈n/3⌉ characters |
| Base64.UnpaddedAlphabet | src/background/dns.js:62-65 | the unpadded encoding has alphabet characters only |
| Cache.DnsCache.constructor | src/background/dns.js:27 | the cache starts empty |
| Cache.DnsCache.Get | src/background/dns.js:39-47 | a hit returns the stored message only when the domain is present and `timestamp + ttl*1000 > now` |
| Cache.DnsCache.Put | src/background/dns.js:80-82 | the entry is written only when the message has a record; the cache keeps holding only entries with records |
| Cache.DnsCache.QueryAvatarService | src/background/dns.js:38-85 | a fresh cached message is returned with no request. Otherwise a query `btoa` cannot encode fails with no request; this includes any character beyond U+FFFF, which reaches `btoa` as two surrogates. Otherwise the request URL is `https://<server>/dns-query?dns=` followed by exactly `btoa`'s output for the query without its padding. A decode error leaves the cache unchanged; a decoded message is returned and stored at the later clock reading |
| Cache.StoreThenLookup | src/background/dns.js:39-47 | a message with a record, looked up before its ttl runs out, is the stored message |
| Cache.StoreThenExpire | src/background/dns.js:44 | once `timestamp + ttl*1000 <= now`, the stored message is no longer served |
| Cache.StoreWithoutRecord | src/background/dns.js:80-82 | a message without a record leaves the cache unchanged |
| Cache.StoreOtherDomain | src/background/dns.js:81 | storing one domain changes no lookup for another |
| Cache.MissStaysMissed | src/background/dns.js:44 | a miss at one time is still a miss at any later time |
| Cache.FittingDomainEncodable | src/background/dns.js:61-62 | a domain whose labels have 1 to 255 characters below 256 never makes `btoa` throw, and its query bytes are encoded unchanged |
| Samples.LiteralSample | test/background/dns.test.js:24-34 | the literal name at 12 of the sample is `_avatars-sec._tcp.libravatar.org`, ending at 46 and memoised at 12 |
| Samples.PointerSample | test/background/dns.test.js:36-46 | the pointer at 50, with that name memoised at 12, gives the same name and ends at 52 |
| Samples.PointerSampleUnknown | src/background/dns.js:173-177 | the same pointer with an empty memo is `Malformed` |
| Samples.AnsweredSample | test/background/dns.test.js:48-80 | the answered response decodes to flags 33152, question type 33 class 1, ttl 3600, data length 29, port 443 and target `seccdn.libravatar.org` |
| Samples.UnansweredSample | test/background/dns.test.js:82-104 | the response with no answer and one authority record decodes to flags 33155 with no record and no data |
| Urls.BuildSecureUrl | src/background/utils.js:22-25 | the URL starts with `https://`, the domain follows unchanged, and nothing follows it exactly when the port is 443 |
| Urls.Decimal | src/background/utils.js:23 | the port is written as decimal digits with no leading zero |
| Urls.DecimalRoundTrip | src/background/utils.js:23 | reading the decimal form back gives the port |
| Urls.SecureUrlRoundTrip | src/background/utils.js:22-25 | parsing the URL built for a colon-free domain gives the domain and port back (443 when none is written) |
| Urls.BuildSecureUrlInjective | src/background/utils.js:22-25 | different colon-free domains or ports build different URLs |
| Signatures.BlobSlice | src/background/utils.js:39 | `blob.slice` within range is the ordinary slice, and never longer than the blob |
| Signatures.DoSignaturesMatch | src/background/utils.js:37-73 | the loops answer `Matches`: each check that is given needs a non-empty slice whose bytes equal the pattern's bytes at the same index |
| Signatures.NothingToCheck | src/background/utils.js:38-72 | with neither a signature nor a tail the answer is true |
| Signatures.EmptyPatternFails | src/background/utils.js:44-46 | an empty signature or tail reads an empty slice, so the answer is false |
| Signatures.EmptyBlobFails | src/background/utils.js:61-63 | an empty blob fails every check that is given |
| Signatures.HeadIsPrefix | src/background/utils.js:39-52 | for a blob at least as long as the signature, the head check passes exactly when the blob starts with the non-empty signature |
| Signatures.TailIsSuffix | src/background/utils.js:56-69 | for a blob at least as long as the tail, the tail check passes exactly when the blob ends with the non-empty tail |
| Signatures.ShortHeadRead | src/background/utils.js:39-52 | a blob shorter than the signature is compared on its own bytes only, and passes exactly when it is a non-empty prefix of the signature |
| Signatures.ShortTailRead | src/background/utils.js:56-59 | against a longer tail the blob is read from `max(2·size − tail.length, 0)` to its end |
| Signatures.PngPrefixPasses | src/background/utils.js:39-52 | the single byte 137 passes the PNG signature check |
| Signatures.JpegBytePasses | src/background/utils.js:37-73 | the single byte 255 passes both the JPEG signature and the JPEG tail check |
| Signatures.LongBlobAgrees | src/background/utils.js:27-30 | on blobs at least as long as the signature and the tail, the answer is "starts with the signature and ends with the tail" |
| Signatures.DoSignaturesMatchChecked | src/background/utils.js:27-30 | with a length check first, the answer is exactly "starts with the whole signature and ends with the whole tail" |
| Signatures.CheckedRejectsShortBlobs | src/background/utils.js:27-30 | the corrected check turns away the one-byte PNG and JPEG files |

## Left out

- Network: `fetch`, `resp.blob()`, `arrayBuffer()`, the `Accept` header and the `async` plumbing are not modelled. `QueryAvatarService` hands out the request URL and is given the response bytes.
- Clock: `Date.now()` is the `now` parameter (before the lookup) and the `later` parameter (when storing).
- Concurrency: overlapping `queryAvatarService` calls, which can each miss the cache and each send a request, are not modelled.
- Text decoding: the `TextDecoder` (UTF-8) call in `parseName` is left out. A name is its label bytes joined with the byte 46, and the memo's empty-name test is on bytes. With its default options `TextDecoder` strips a leading byte order mark, so the source's test differs from the model's for one name: a single label holding exactly EF BB BF (see the `Names.ParseName` line below).
- Character codes: JavaScript's `charCodeAt` gives UTF-16 code units, while a Dafny `char` is a Unicode scalar value. A character outside the Basic Multilingual Plane is one code here but two surrogates in the source, and its label's length differs too. The surrogates are both above 255, so `btoa` throws; `QueryAvatarService` rejects such a domain outright with the same error.
- Bytes.ParseBytesToNumber: requires the range to lie inside the buffer. Past the end the source folds `undefined` into `NaN`; every decoder step checks the bound first instead.
- Message.Decode: returns `Truncated` wherever the source reads past the end of the buffer. There the source gives `NaN` fields, or loops forever when a literal name has no reachable zero byte. The model's results agree with the source only on buffers that hold every field read.
- Names.ParseName: a pointer in the last byte of the buffer reads its missing second byte as 0, as `new Uint8Array([x, undefined])` does. No other out-of-range read is modelled, as above.
- Names.ParseName: a literal name that is the single label EF BB BF decodes to `""` in the source, because `TextDecoder` strips the byte order mark. The source memoises `""` and a later pointer to it throws at line 175. The model memoises the three bytes, and the pointer resolves to them.
- Urls.BuildSecureUrl: the port is a natural number. JavaScript's rendering of negative, fractional or `NaN` ports is not modelled. Neither is its exponent form for numbers of 10^21 and above (`1e+21`), which `Decimal` writes out digit by digit.
- Signatures.DoSignaturesMatch: the blob is its byte sequence. One `read()` of the slice's stream is assumed to deliver the whole slice, and an empty slice to deliver no value. Partial chunks from a real stream are not modelled.
- Outside this model: `sha256sum` (WebCrypto), `src/background/libravatar.js` (`getAvatar`: storage, fetches with timeouts, `File` construction), `src/background/index.js` (Thunderbird event handlers and address books), `src/options/index.js` (user interface) and `src/constants.js` (two string constants).

## Findings

| source | as written | input that shows it | evidently intended | confidence | as-written member | corrected member |
|---|---|---|---|---|---|---|
| src/background/utils.js:39-52 | only the bytes the slice delivered are compared, so a blob shorter than the signature passes whenever it is a prefix of the signature | the one-byte blob [137] with the PNG signature [137, 80, 78, 71, 13, 10, 26, 10] | the blob starts with the whole signature (utils.js:27-30), so a blob shorter than the signature fails | not executed | Signatures.PngPrefixPasses | Signatures.DoSignaturesMatchChecked |
| src/background/utils.js:56-69 | for a tail longer than the blob, `blob.size - tail.length` is negative, so the slice counts back from the end and the blob's last bytes are compared with the tail's first bytes | the one-byte blob [255] with the JPEG signature [255, 216] and tail [255, 217] | the blob ends with the whole tail, so a blob shorter than the tail fails | not executed | Signatures.JpegBytePasses | Signatures.DoSignaturesMatchChecked |
