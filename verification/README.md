# A model of the GSUP-MAP proxy

The proxy sits between SGSNs, which speak GSUP over IPA, and an HLR, which speaks MAP over TCAP, SCCP and
M3UA. This project models it as a single-threaded step machine on top of the codecs of both sides.

- **Codecs.** Each encoder and decoder is written as the source writes it, with cursors, writers and loops,
  and equated with a function on octet strings. The theorems are about those functions: every round trip is
  stated for all messages, where possible as an equivalence with the exact condition under which it holds.
  `Buffer`, `Bcd`, `Ber`, `MapCodec`, `MapRoundTrip`, `MapSizes`, `GsupCodec`, `GsupRoundTrip`, `M3uaCodec`,
  `M3uaStream`, `SccpCodec`, `SccpRoundTrip`, `IpaCodec`. `WireLayout` lays the encoded octets out by the numbers
  of the protocols, and `Leniency` says what decoders accept and refuse beyond that.
- **Streams.** `Stream` proves for any framing rule that how a stream is split makes no difference; the IPA
  and M3UA decoders are two instances. `Layering` stacks M3UA, SCCP and MAP.
- **Transaction core.** `ProxyModel` gives each handler as a function on states, `Proxy` is the class whose
  methods change the three tables in place and are proved equal to those functions. `ProxySafety` keeps a
  ledger of requests beside the proxy and proves conservation and single, correctly addressed answers over
  whole runs; `Conservation` and `Allocation` say exactly when reissued ids spoil that and the agreement of the
  tables; `Discards` says exactly which requests go
  unanswered; `Meaning` writes out, by code numbers and fields, what each message becomes on the other side;
  `Pipeline` proves what the SGSN reads; `HlrCorrelation` does the other direction; `TimeBound`
  adds a clock and discharges the hypothesis that no live id is reissued; `HlrTimeBound` is its counterpart for
  the HLR's Invokes.
- **Sessions.** `IpaSession`, `SessionRuns`, `SessionControl`, `IpaServer`, `RegistryRuns` and `Routing` model the connections: a FIFO channel
  out, a handshake gate in, and end-to-end routing composed with the ledger of the proxy; `RoutingTime` adds the
  clock; `Addressing` proves that no reply is broadcast. `ReturnPath` composes
  all layers from the octets of an HLR answer to the frame an SGSN reads.

The reading of clocks is a parameter `now`; the iteration order of hash tables is a parameter `order` that
enumerates the keys; the transports are logs of sends, in which each entry also notes what it answers.
Exceptions are the failure case of `Result` or `Status`; their texts are not kept.

Where the code and its documentation differ, the code is followed: transaction ids are sequential
(src/proxy/TransactionManager.cpp:8-12) and not random (the repository's README.md:451-452); a `DeleteDataRequest` of an SGSN is
rejected (src/proxy/Converter.cpp:51-52) although line 347 of that file lists it; a live id is kept, not overwritten,
when it is reissued (src/proxy/TransactionManager.cpp:27). The promise that the two tables are always in sync
(lines 474-476 there) is false of the code when a live id is reissued to a request that does not convert
(src/proxy/Proxy.cpp:92-95 completes the transaction and leaves its pending operation). `Allocation` proves that
the tables agree in every state of a run if and only if this never happens in it, and gives a run on which it
does; `TimeBound` derives from regular ticks and a bounded rate of requests that no live id is reissued at all.
A live id given to a request that does convert keeps the tables in agreement, but leaves two requests under one
record; `Conservation` proves that single, correctly addressed answers hold over a run if and only if no live id
is reissued in it, and gives a run on which they fail.

## Model

| member | source | states |
|---|---|---|
| `Buffer.BufferReader.Read8` | src/common/Buffer.hpp:29-32 | a read takes the next octet off the unread rest, and past the end it fails without moving the cursor |
| `Buffer.BufferReader.ReadBE16` | src/common/Buffer.hpp:34-39 | two octets, most significant first, or a failure that moves nothing |
| `Buffer.BufferReader.ReadBE32` | src/common/Buffer.hpp:41-49 | four octets, most significant first, or a failure that moves nothing |
| `Buffer.BufferReader.ReadBytes` | src/common/Buffer.hpp:51-56 | the next n octets leave exactly the rest, or a failure that moves nothing |
| `Buffer.BufferWriter.WriteBE32` | src/common/Buffer.hpp:86-91 | a 32-bit number is appended most significant octet first and nothing else changes |
| `Buffer.BufferWriter.ReserveLen8` | src/common/Buffer.hpp:97-101 | a length slot is appended and its offset returned |
| `Buffer.BufferWriter.Patch8` | src/common/Buffer.hpp:103 | back-patching changes that one octet only |
| `Bcd.Pack` | src/map/MapCodec.cpp:47-57 | the packing loop computes the packing the round-trip lemmas are about |
| `Bcd.BcdToImsi` | src/map/MapCodec.cpp:59-72 | the unpacking loop, with its failures on nibbles that are no digits |
| `Bcd.ImsiRoundTrip` | src/gsup/GsupCodec.cpp:9-42 | unpacking a packed decimal string of any length gives the string back |
| `Bcd.UnpackedAreDigits` | src/gsup/GsupCodec.cpp:28-42 | an accepted IMSI is decimal, with at most two digits per octet and no limit of 15 |
| `Ber.WriteLength` | src/map/BerCodec.cpp:9-22 | writes the definite length, and fails exactly above 65535 |
| `Ber.ReadLength` | src/map/BerCodec.cpp:24-39 | reads short and long lengths and fails on what the source rejects |
| `Ber.WriteTlv` | src/map/BerCodec.cpp:41-45 | appends tag, length and value, or fails exactly for values over 65535 octets |
| `Ber.ReadTlv` | src/map/BerCodec.cpp:57-62 | takes one TLV off the reader and leaves what follows it |
| `Ber.TlvRoundTrip` | src/map/BerCodec.cpp:9-62 | a written TLV followed by any octets is read back with exactly those octets left; it can be written if and only if the value has at most 65535 octets |
| `Ber.LengthRoundTrip` | src/map/BerCodec.cpp:9-39 | a written length followed by any octets is read back with exactly those octets left |
| `Ber.EncodeInt` | src/map/BerCodec.cpp:72-108 | the shift-and-push loops compute the two's-complement octets of the number |
| `Ber.DecodeInt` | src/map/BerCodec.cpp:110-127 | the accumulator loop computes the value of the octets in 64-bit arithmetic |
| `Ber.IntRoundTrip` | src/map/BerCodec.cpp:72-127 | every 64-bit integer is written in one to eight octets whose first nine bits are not all equal (section 8.3.2 of X.690) and read back as itself |
| `MapCodec.EncodeArgFields` | src/map/MapCodec.cpp:76-173 | the per-operation argument encoders, field by field, with every length failure |
| `MapCodec.EncodeComponent` | src/map/MapCodec.cpp:177-212 | Invoke, ReturnResult and ReturnError components; Reject cannot be encoded |
| `MapCodec.Encode` | src/map/MapCodec.cpp:214-288 | the writer-based encoder equals the specification that the round-trip theorem is about |
| `MapCodec.DecodeVectors` | src/map/MapCodec.cpp:310-344 | vectors are told apart by the number of octet strings and kept in order |
| `MapCodec.DecodeDelete` | src/map/MapCodec.cpp:409-421 | the DeleteSubscriberData argument decoder |
| `MapCodec.DecodeArgs` | src/map/MapCodec.cpp:346-451 | the positional argument decoders, as loops over a moving reader |
| `MapCodec.DecodeComponent` | src/map/MapCodec.cpp:455-537 | one TCAP component, with the operation it does or does not name |
| `MapCodec.Decode` | src/map/MapCodec.cpp:455-541 | the TCAP loop equals the specification that the round-trip theorem is about |
| `MapRoundTrip.RoundTripExact` | src/map/MapCodec.cpp:76-288 | whatever encodes decodes to exactly the fields its operation and component carry (with the defaults 1 and 34) if and only if the IMSI, where one is carried, is decimal and an SGSN address comes with an SGSN number |
| `MapRoundTrip.DecodeEncoded` | src/map/MapCodec.cpp:292-537 | what a receiver sees of any encodable message at all, including those on which something is lost |
| `MapRoundTrip.AddressWithoutNumberIsMisread` | src/map/MapCodec.cpp:346-362 | an SGSN address without an SGSN number is read as the number |
| `MapSizes.MisreadAddressExists` | src/map/MapCodec.cpp:110-118 | a concrete message on which that happens |
| `MapSizes.DecodableRequestsEncode` | src/map/MapCodec.cpp:214-288 | no GSUP request that decodes and converts can exceed the 65535 limit of the MAP encoder |
| `MapSizes.RequestFitsUdt` | src/proxy/Converter.cpp:11-55 | with an IMSI of at most 15 digits and an MSISDN of at most 218 octets the Invoke has at most 255 octets |
| `MapSizes.RequestFitsUdtTight` | src/transport/ScccpCodec.cpp:150 | with 15 digits, the Invoke fits if and only if the MSISDN has at most 218 octets |
| `MapSizes.ResponseEncodes` | src/map/MapCodec.cpp:187-212 | the answer of an SGSN to an Invoke of the HLR can always be encoded |
| `WireLayout.MapOctets` | src/map/MapCodec.cpp:76-288 | every encoded MAP message octet by octet, by tag and code numbers: dialogue, transaction id, component, operation and arguments |
| `WireLayout.BigEndian` | src/common/Buffer.hpp:34-91 | numbers are written and read most significant octet first |
| `WireLayout.DigitPairs` | src/map/MapCodec.cpp:47-57 | two digits to an octet, the first in the low nibble, and 0xF beside a last one |
| `Leniency.UnknownFieldSkipped` | src/map/MapCodec.cpp:455-537 | TCAP fields and components with any other tag are skipped |
| `Leniency.EveryComponentRead` | src/map/MapCodec.cpp:455-537 | every component and every dialogue field is read, each on top of the one before |
| `Leniency.CutOffComponents` | src/map/MapCodec.cpp:480-530 | a component without an invoke id, or with nothing after it, is refused |
| `Leniency.UnknownArgumentSkipped` | src/map/MapCodec.cpp:292-451 | arguments with a tag other than INTEGER, OCTET STRING and NULL are skipped |
| `Leniency.RepeatedArguments` | src/map/MapCodec.cpp:346-451 | how second and further octet strings and integers are read, layout by layout |
| `Leniency.VectorsToldApart` | src/map/MapCodec.cpp:324-342 | three or four octet strings make a triplet, five or more a quintuplet, fewer nothing |
| `Leniency.OnlySequencesAndStrings` | src/map/MapCodec.cpp:310-323 | among vectors only SEQUENCEs count, and within one only OCTET STRINGs |
| `Leniency.OuterArguments` | src/map/MapCodec.cpp:292-451 | missing arguments are accepted; only SendAuthenticationInfo looks at their outer tag; DeleteSubscriberData reads at most a first IMSI |
| `Leniency.OutermostTlv` | src/map/MapCodec.cpp:455-470 | the outermost tag is not looked at, and what follows that TLV is ignored |
| `Leniency.EitherTid` | src/map/MapCodec.cpp:470-490 | either transaction id tag is taken, of any length, modulo 2^32 |
| `Leniency.IntegersRead` | src/map/BerCodec.cpp:110-127 | an integer of one to eight octets is read as two's complement, minimal or not |
| `Leniency.LengthForms` | src/map/BerCodec.cpp:24-39 | lengths of one to four octets are read, minimal or not; the indefinite form is refused |
| `Leniency.BadLengths` | src/map/BerCodec.cpp:24-62 | longer or cut-off lengths and values are refused |
| `Leniency.ImsiOctets` | src/map/MapCodec.cpp:59-72 | which nibbles an IMSI accepts, octet by octet, with 0xF skipped wherever it is |
| `GsupCodec.DecodeAuthTuple` | src/gsup/GsupCodec.cpp:75-93 | the nested tuple decoder, with truncated elements failing |
| `GsupCodec.DecodePdpInfo` | src/gsup/GsupCodec.cpp:95-122 | the nested PDP decoder |
| `GsupCodec.DecodeIe` | src/gsup/GsupCodec.cpp:126-195 | one element of the main loop, including the Cause element that reads an octet even when its length is zero |
| `GsupCodec.Decode` | src/gsup/GsupCodec.cpp:126-199 | the decoding loop equals the specification that the round-trip theorem is about |
| `GsupCodec.ImsiToBcd` | src/gsup/GsupCodec.cpp:9-26 | packs 1 to 15 decimal digits and fails on anything else |
| `GsupCodec.EncodeAuthTuple` | src/gsup/GsupCodec.cpp:219-233 | the tuple body under a back-patched length cut to eight bits |
| `GsupCodec.EncodePdpInfo` | src/gsup/GsupCodec.cpp:235-256 | the PDP body under a back-patched length cut to eight bits |
| `GsupCodec.Encode` | src/gsup/GsupCodec.cpp:258-294 | the writer-based encoder equals the specification that the round-trip theorem is about |
| `GsupRoundTrip.RoundTripExact` | src/gsup/GsupCodec.cpp:126-294 | a message encodes and decodes to itself if and only if its IMSI is empty or 1 to 15 digits, its elements and each tuple and PDP body have at most 255 octets, and the freeze-P-TMSI result is not set |
| `GsupRoundTrip.EncodesExactly` | src/gsup/GsupCodec.cpp:205-294 | a message encodes if and only if its IMSI is empty or 1 to 15 digits and each of its elements, nested ones included, has at most 255 octets |
| `GsupRoundTrip.DecodedIsBounded` | src/gsup/GsupCodec.cpp:126-195 | whatever decodes has a decimal IMSI of at most 510 digits and elements of at most 255 octets |
| `WireLayout.GsupOctets` | src/gsup/GsupCodec.cpp:205-294 | every encoded GSUP message octet by octet, by tag numbers, nested elements included |
| `Leniency.UnknownElementSkipped` | src/gsup/GsupCodec.cpp:126-195 | an element with any other tag is skipped, wherever it stands |
| `Leniency.UnknownInTupleSkipped` | src/gsup/GsupCodec.cpp:75-93 | so is one in a tuple |
| `Leniency.UnknownInPdpSkipped` | src/gsup/GsupCodec.cpp:95-122 | and one in a PDP context |
| `Leniency.CauseReadsOneOctet` | src/gsup/GsupCodec.cpp:147-150 | a cause takes its first octet, or the octet after it if its length is zero, and fails if there is none |
| `Leniency.OneOctetElements` | src/gsup/GsupCodec.cpp:126-195 | the plain elements by tag number; an empty one-octet element changes nothing |
| `Converter.CollectTuples` | src/proxy/Converter.cpp:95-112 | the push loops give all triplets and then all quintuplets, in order, XRES in `res` |
| `Converter.ConvertMapToGsup` | src/proxy/Converter.cpp:59-141 | the conversion of an HLR answer, loops included, equals its specification |
| `Converter.AnswersAreExpected` | src/proxy/Converter.cpp:251-271 | an answer under the operation a request was converted to comes out as the result or error type expected for that request, with its IMSI |
| `Converter.ConvertibleRequests` | src/proxy/Converter.cpp:11-55 | the convertible types are exactly those with an expected result and error; DeleteDataRequest is not one |
| `Meaning.ExpectedTypes` | src/proxy/Converter.cpp:232-271 | by code numbers: the error of a forwarded request is its code plus 1 and its result its code plus 2, the five requests have the operations 23, 56, 67, 7 and 3, and exactly eight errors and results are answers to the HLR |
| `Meaning.RequestMeaning` | src/proxy/Converter.cpp:11-55 | a payload with a request of the five types makes the proxy send the HLR one message, which decodes to the Invoke about that subscriber, under the issued ids, with the operation and exactly the arguments of its type; other requests send nothing |
| `Meaning.InvokeMeaning` | src/proxy/Converter.cpp:145-181 | an Invoke of operation 7, 3, 8 or 67 is filed under its subscriber and broadcast once, in octets that decode to the request for that operation with exactly its MSISDN or cancel type, or drops an older one if its values do not fit; any other Invoke changes nothing |
| `Meaning.EncodedInvokeMeaning` | src/proxy/Proxy.cpp:179-208 | the same from the message that the HLR encodes |
| `Meaning.LedgerRequest` | src/proxy/Converter.cpp:153-176 | the request whose broadcast the run theorems of `HlrCorrelation` are about is the one for the operation of the Invoke, by code number, with exactly its values |
| `Meaning.SgsnAnswerMeaning` | src/proxy/Converter.cpp:185-247 | an error or result of the eight types for a subscriber on file takes its entry off and sends the HLR one message, which decodes, under the entry's ids, to the result of its operation or to the error with its cause or 34; no other type touches the file or answers the HLR |
| `Meaning.HlrAnswerMeaning` | src/proxy/Converter.cpp:59-141 | an answer to a pending request makes the reply with the code of its error or result, the IMSI of the request, the error code or 34, and of a named result exactly the vectors, HLR number or freeze flag it carries, field by field |
| `Meaning.AnyAnswerMeaning` | src/proxy/Proxy.cpp:134-158 | any answer, also one that names another operation than was asked for: under an unknown id nothing changes; otherwise the reply has the code of the error or result of the operation in context, and for an operation outside the five there is none |
| `Transactions.TransactionManager.Allocate` | src/proxy/TransactionManager.cpp:8-29 | takes the next ids and files a record unless the id is live, in which case the old record stays |
| `Transactions.TransactionManager.ExpireStale` | src/proxy/TransactionManager.cpp:41-53 | the erasing loop returns the stale records in walking order and keeps exactly the others |
| `Transactions.NthTid` | src/proxy/TransactionManager.cpp:8-12 | the n-th transaction id, from 0, is 1 + n mod (2^32 - 1) |
| `Transactions.NthInvokeId` | src/proxy/TransactionManager.cpp:14-17 | the n-th invoke id, from 0, is 1 + n mod 127 |
| `Transactions.TidsDistinct` | src/proxy/TransactionManager.cpp:8-12 | any 2^32 - 1 consecutive transaction ids are distinct and nonzero |
| `Proxies.Proxy.constructor` | src/proxy/Proxy.hpp:34-36 | the proxy starts with empty tables |
| `Proxies.Proxy.HandleGsupPayload` | src/proxy/Proxy.cpp:67-82 | the state after any GSUP payload is that of the step function the safety theorems are about |
| `Proxies.Proxy.HandleRequest` | src/proxy/Proxy.cpp:84-114 | allocation, conversion, filing, encoding and forwarding, with every error branch |
| `Proxies.Proxy.HandleMapPayload` | src/proxy/Proxy.cpp:117-132 | the state after any MAP payload is that of the step function |
| `Proxies.Proxy.HandleAnswer` | src/proxy/Proxy.cpp:134-175 | looking up, completing from context, converting, erasing from both tables and replying, with every error branch |
| `Proxies.Proxy.HandleHlrInitiated` | src/proxy/Proxy.cpp:179-208 | filing an Invoke of the HLR and broadcasting it, or taking it off the file if it cannot be encoded |
| `Proxies.Proxy.HandleGsupHlrResponse` | src/proxy/Proxy.cpp:210-238 | matching the answer of an SGSN by IMSI, erasing the entry and answering under its ids |
| `Proxies.Proxy.ExpireHlrTransactions` | src/proxy/Proxy.cpp:240-250 | the erasing loop drops exactly the entries older than the timeout |
| `Proxies.Proxy.NackAllPendingTransactions` | src/proxy/Proxy.cpp:252-273 | the state after the loop is that of the step function the bulk theorems are about |
| `Proxies.Proxy.ExpireSgsnTransactions` | src/proxy/Proxy.cpp:275-298 | the state after the loop is that of the step function the bulk theorems are about |
| `ProxySafety.StepSafe` | src/proxy/Proxy.cpp:67-298 | every callback that does not reissue a live id keeps the two tables in agreement and the ledger of requests right |
| `ProxySafety.RunsAreSafe` | src/proxy/Proxy.cpp:85-174 | in every state of every run in which no live id is reissued: `pendingOps_` and `transactions_` hold the same ids, each with the operation of its own request; every request that got an id is pending, answered or discarded; its answer is one reply, to its own client; every reply is the answer to a request |
| `Conservation.StepSafeExactly` | src/proxy/TransactionManager.cpp:19-29 | a callback keeps a safe proxy safe if and only if it does not reissue a live id |
| `Conservation.RunsSafeExactly` | src/proxy/Proxy.cpp:85-174 | over every run, ids reissued or not: all of that holds in every state if and only if no event of the run reissues a live id |
| `Conservation.ReissueShares` | src/proxy/TransactionManager.cpp:27 | a converting request that is given a live id is pending together with the request that has it, under one record |
| `Conservation.SafetyCanBeLost` | src/proxy/Proxy.cpp:84-111 | a run on which conservation fails though the tables agree: the last request is pending under the record of another client, to whom its answer would go |
| `ProxySafety.RunsAreFinal` | src/proxy/Proxy.cpp:134-175 | over such a run an answered or discarded request stays so, so late, duplicate or unknown HLR messages answer nothing twice |
| `ProxySafety.RunsAreNumbered` | src/proxy/TransactionManager.cpp:19-29 | over such a run the n-th request has the n-th id |
| `ProxySafety.YoungPendingMeansFresh` | src/proxy/TransactionManager.cpp:8-29 | no live id is reissued while no request stays pending during the 2^32 - 1 requests after it |
| `ProxySafety.DisconnectIs` | src/proxy/Proxy.cpp:252-273 | disconnect in closed form: both tables empty, the replies of the pending records, nothing else changed |
| `ProxySafety.ExpiryIs` | src/proxy/Proxy.cpp:275-298 | expiry in closed form: exactly the stale records go, from both tables, with their replies |
| `Allocation.ReissuedIdExact` | src/proxy/TransactionManager.cpp:19-29 | after any decodable request, live id or not, the record under the issued id is there if and only if the request converts; it is the request's own if the id was not live, and otherwise the whole older record, with its IMSI, invoke id, client and age |
| `Allocation.RequestAgreesExactly` | src/proxy/Proxy.cpp:84-111 | if the two tables agree before a request, they agree after it if and only if its id was not live or its type is one that converts |
| `Allocation.StepAgreesExactly` | src/proxy/Proxy.cpp:67-298 | over every callback: only a live id given to a request that does not convert breaks the agreement |
| `Allocation.RunsAgreeExactly` | src/proxy/Proxy.cpp:85-101 | the tables are in sync in every state of a run, ids reissued or not, if and only if no event of the run is such a clash |
| `Allocation.AgreementCanBeLost` | src/proxy/Proxy.cpp:92-95 | a run on which the sync is lost: one request is pending while the next 2^32 - 2 requests fail to convert, and the one after them is given its id |
| `Allocation.RunsKeepInvokeIds` | src/proxy/TransactionManager.cpp:14-17 | in every state of every run, recorded invoke ids lie between 1 and 127 |
| `Discards.PendingBecomesExactly` | src/proxy/Proxy.cpp:134-298 | at each step a pending request stays pending unless the event ends it; it is then discarded exactly if the completed answer is outside the five operations, bears an IMSI that is neither empty nor 1 to 15 digits, or a value over 255 octets (for a synthesised error: if the IMSI exceeds 15 digits), and answered otherwise |
| `Discards.NewRequestExactly` | src/proxy/Proxy.cpp:84-115 | a request, its id live before or not, is entered as pending, with one message to the HLR, if and only if its type has an expected result; otherwise as discarded, silently |
| `Pipeline.OperationRecovered` | src/proxy/Proxy.cpp:141-152 | in every safe state an answer to a pending request converts to the type expected for that request if and only if the wire names no operation or the right one, with the IMSI of the wire or else of the request |
| `Pipeline.StoredOperations` | src/proxy/Proxy.cpp:99-101 | in a safe state every stored operation is the one a pending request was converted to, never Unknown or DeleteSubscriberData |
| `Pipeline.AnswerableExactly` | src/proxy/Converter.cpp:59-141 | an answer converts and encodes if and only if its operation is one of the five, its IMSI is empty or 1 to 15 digits, and the HLR number or vector components of a result have at most 255 octets |
| `Pipeline.AnswerIs` | src/proxy/Proxy.cpp:134-175 | what the proxy does with an answer, in closed form: one reply to the client on record, or nothing but the removal |
| `Pipeline.ReplyIsReadable` | src/proxy/Proxy.cpp:160-174 | if the converted answer fits the wire, the one reply goes to the client on record and decodes to exactly that answer |
| `Pipeline.ErrorEndToEnd` | src/map/MapCodec.cpp:203-210 | a ReturnError for a pending request, from its octets to the GSUP error at the right client, with the error code or 34 as cause; with an IMSI over 15 digits, nothing is sent |
| `Pipeline.VectorsEndToEnd` | src/proxy/Converter.cpp:91-113 | an encoded vector result makes the proxy send all triplets and then all quintuplets, under the pending IMSI, if and only if IMSI and components fit; the octets decode to exactly that if and only if, besides, each tuple totals at most 255 octets |
| `Pipeline.DisconnectExact` | src/proxy/Proxy.cpp:252-273 | each pending request whose IMSI has at most 15 digits is told exactly once, at its own client, with the expected error type and its IMSI; nothing else is sent; both tables end empty |
| `Pipeline.ExpiryExact` | src/proxy/Proxy.cpp:275-298 | exactly the stale requests go, from both tables; of these the ones whose IMSI has at most 15 digits are told, each once; the others are left as they are |
| `HlrCorrelation.StepCorrelated` | src/proxy/Proxy.cpp:179-250 | every callback keeps Invokes, file and answers correlated, with no hypothesis on ids |
| `HlrCorrelation.RunsAreCorrelated` | src/proxy/Proxy.cpp:179-250 | in every state of every run each answer sent to the HLR decodes to the transaction id and invoke id of exactly one Invoke, which had been broadcast in a form that an SGSN decodes to exactly the converted Invoke, was not expired or replaced, and was the latest for its subscriber; the file holds exactly the waiting Invokes |
| `HlrCorrelation.RunsKeepFates` | src/proxy/Proxy.cpp:210-238 | an Invoke that was answered, replaced, unsent or expired stays so: no second answer |
| `HlrCorrelation.ExpiredExactly` | src/proxy/Proxy.cpp:240-250 | a waiting Invoke expires if and only if a sweep finds it older than the timeout |
| `HlrTimeBound.NoInvokeOutlives` | src/main.cpp:77-85 | if every event comes at most d after the latest sweep before it, no waiting Invoke has, at any event of a run, grown older than the timeout plus d |
| `HlrCorrelation.ResponseAnswers` | src/proxy/Converter.cpp:185-228 | the answer of an SGSN always converts and encodes, and decodes to an answer under the recorded ids |
| `HlrCorrelation.AnswerOperationExact` | src/proxy/Converter.cpp:203-226 | the recorded operation is not consulted: the answer names it if and only if the SGSN answered with the result type of that operation |
| `TimeBound.TickRemovesExactlyStale` | src/proxy/TransactionManager.cpp:41-53 | a tick removes exactly the transactions older than the timeout, none at an age up to it |
| `TimeBound.TicksAreRegular` | src/main.cpp:81-85 | that hypothesis bounds the gap between consecutive ticks by d |
| `TimeBound.NoTransactionOutlives` | src/main.cpp:77-85 | if every event comes at most d after the latest tick before it, then at every event of a run, ticks included, no transaction on record has grown older than the timeout plus d |
| `TimeBound.RegularTicksMakeRunsSafe` | src/proxy/Proxy.cpp:275-298 | if, besides, fewer than 2^32 - 1 requests come in any span of that length, no live id is ever reissued, so every state is safe with no hypothesis on ids |
| `TimeBound.OldRequestsAreSettled` | src/proxy/Proxy.cpp:275-298 | a request that outlives that age before the next event is not pending: it was answered or discarded |
| `Stream.ChunkingIrrelevant` | src/transport/IpaSession.cpp:80-82 | for any stable framing rule, feeding and draining chunk by chunk gives the frames, the leftover and the failure that the octets alone determine |
| `Stream.FramesBack` | src/transport/MapTransport.cpp:286-293 | any chunking of recognised frames gives exactly those frames, in order |
| `IpaCodec.IpaDecoder.Feed` | src/ipa/IpaCodec.cpp:22-24 | appends to the buffer |
| `IpaCodec.IpaDecoder.Next` | src/ipa/IpaCodec.cpp:26-53 | waits, throws or takes off one frame exactly as the framing rule says, and what is left of the buffer |
| `IpaCodec.EncodedIsFrame` | src/ipa/IpaCodec.cpp:6-20 | the decoder recognises an encoded frame, as itself, if and only if its payload has at most 4095 octets; any longer one that encodes makes it throw |
| `WireLayout.IpaOctets` | src/ipa/IpaCodec.cpp:6-20 | an IPA frame octet by octet; its length counts the stream octet |
| `IpaCodec.FramesSurviveChunking` | src/ipa/IpaCodec.cpp:6-53 | any chunking of encoded frames with payloads of at most 4095 octets gives exactly those frames and leaves nothing over |
| `M3uaCodec.WriteTlv` | src/transport/M3uaCodec.cpp:10-18 | tag, length cut to 16 bits, value and padding to four octets |
| `M3uaCodec.Encode` | src/transport/M3uaCodec.cpp:31-69 | the writer-based encoder equals the specification that the round-trip theorem is about |
| `M3uaCodec.ReadParam` | src/transport/M3uaCodec.cpp:96-110 | one parameter, with padding skipped only if all of it is inside the message |
| `M3uaCodec.DecodeParam` | src/transport/M3uaCodec.cpp:112-143 | the effect of one parameter on the message, unknown tags ignored |
| `M3uaCodec.Decode` | src/transport/M3uaCodec.cpp:73-147 | the parameter loop equals the specification that the round-trip theorem is about |
| `M3uaStream.M3uaDecoder.Feed` | src/transport/M3uaCodec.cpp:151-153 | appends to the buffer |
| `M3uaStream.M3uaDecoder.Next` | src/transport/M3uaCodec.cpp:155-172 | waits, throws or takes off one message exactly as the framing rule says, and what is left of the buffer |
| `M3uaStream.RoundTrip` | src/transport/M3uaCodec.cpp:31-147 | every message whose parameters fit their 16-bit lengths decodes to itself |
| `WireLayout.M3uaOctets` | src/transport/M3uaCodec.cpp:10-69 | every encoded M3UA message octet by octet, by tag numbers, with its padding |
| `Leniency.UnknownParameterSkipped` | src/transport/M3uaCodec.cpp:96-143 | a parameter with any other tag is skipped, wherever it stands |
| `Leniency.BadParameters` | src/transport/M3uaCodec.cpp:96-103 | parameter lengths below four or past the message are refused; up to three octets at the end are ignored |
| `Leniency.ParameterSizes` | src/transport/M3uaCodec.cpp:112-139 | protocol data needs twelve octets; a routing context with fewer than four changes nothing |
| `Leniency.Refusals` | src/transport/M3uaCodec.cpp:73-88 | what each decoder refuses outright: empty GSUP and BER input, unitdata of another type, another M3UA version or a length below eight; and when an M3UA message is incomplete |
| `Leniency.StreamLimits` | src/ipa/IpaCodec.cpp:26-45 | the limits by number: 64 KiB for M3UA, length fields of 1 to 4096 for IPA, and how much each decoder waits for |
| `M3uaStream.EncodedIsFrame` | src/transport/M3uaCodec.cpp:151-172 | the reassembler accepts an encoded message, as itself, if and only if it has at most 64 KiB |
| `M3uaStream.PaddingCountedOrNot` | src/transport/M3uaCodec.cpp:94-110 | the same message is read whether or not the length counts the last parameter's padding, and whether or not that padding is sent (sections 3.1.4 and 3.2 of RFC 4666) |
| `M3uaStream.MessagesSurviveChunking` | src/transport/M3uaCodec.cpp:151-172 | any chunking of messages of at most 64 KiB each gives exactly those messages |
| `SccpCodec.UnpackBcd` | src/transport/ScccpCodec.cpp:23-32 | the digit loop, which turns any nibble into a character |
| `SccpCodec.EncodeAddress` | src/transport/ScccpCodec.cpp:34-69 | both address forms, written in order |
| `SccpCodec.DecodeAddress` | src/transport/ScccpCodec.cpp:71-103 | the address decoder; the point code is not read back |
| `SccpCodec.EncodeUdt` | src/transport/ScccpCodec.cpp:116-154 | pointers and lengths are cut to eight bits |
| `SccpCodec.DecodeUdt` | src/transport/ScccpCodec.cpp:158-213 | parts found through self-relative pointers, with the range failures of the source |
| `SccpRoundTrip.AddressRoundTripExact` | src/transport/ScccpCodec.cpp:34-103 | a global title address always decodes, and to itself if and only if its characters stand for nibbles, its plan is a high nibble, its nature has seven bits and it has no point code; a plus sign is lost |
| `SccpRoundTrip.AddressDecodes` | src/transport/ScccpCodec.cpp:56-67 | an encoded address decodes unless it has neither title nor subsystem nor point code |
| `WireLayout.UdtOctets` | src/transport/ScccpCodec.cpp:116-154 | every unitdata message that fits its lengths, octet by octet, with its three pointers |
| `Leniency.TitleOctets` | src/transport/ScccpCodec.cpp:45-55 | encoding scheme 1 and the top bit of the nature of address for an odd number of digits, 2 and none for an even one |
| `Leniency.IndicatorOctets` | src/transport/ScccpCodec.cpp:37-43 | the indicator octet is 0x48 with a subsystem number and 0x40 without |
| `Leniency.IndicatorRead` | src/transport/ScccpCodec.cpp:71-103 | how any indicator octet is read; only a title of format 4 is |
| `SccpRoundTrip.UdtExact` | src/transport/ScccpCodec.cpp:116-213 | if the pointers fit one octet, a UDT decodes exactly if its addresses do, to those and to the user data cut to its length modulo 256: unchanged if and only if it has at most 255 octets |
| `Layering.Send` | src/transport/MapTransport.cpp:206-233 | while the link is active, one frame is sent; it decodes to a DATA message with the configured routing context and point codes, SCCP and international, holding a unitdata message of class 0 from the own title and subsystem to the HLR's, with the payload; in any other state nothing is sent |
| `Layering.Unpacked` | src/transport/MapTransport.cpp:185-202 | what a received message hands to the proxy |
| `Layering.UnwrapsExactly` | src/transport/MapTransport.cpp:185-202 | exactly DATA messages of class 1, type 1 and service indicator 3 with a readable unitdata message hand a payload to the proxy |
| `Layering.ReadChunk` | src/transport/MapTransport.cpp:286-293 | the read loop hands on the payloads of exactly the messages completed by the chunk |
| `Layering.PayloadExact` | src/transport/MapTransport.cpp:214-231 | whatever characters the titles hold, a wrapped payload is unwrapped unchanged if and only if it has at most 255 octets |
| `Layering.DeliveredExactly` | src/transport/MapTransport.cpp:185-196 | a stream of DATA and management messages, split anyhow, hands on exactly the payloads of its DATA messages, in order |
| `Layering.LayersAreTransparent` | src/transport/MapTransport.cpp:206-233 | payloads of at most 255 octets, wrapped, split arbitrarily, reassembled and unwrapped, arrive unchanged and in order |
| `Layering.RequestReachesHlr` | src/proxy/Proxy.cpp:84-114 | a request of the five types reaches the HLR side, over any chunking, as the Invoke about that subscriber with the operation and arguments of its type, if its IMSI has at most 15 digits and its MSISDN at most 218 octets |
| `Sessions.IpaSession.Enqueue` | src/transport/IpaSession.cpp:44-47 | queues a frame and starts a write only if none is running |
| `Sessions.IpaSession.DoWrite` | src/transport/IpaSession.cpp:49-56 | starts the write of the first queued frame, or marks the session idle |
| `Sessions.IpaSession.OnWritten` | src/transport/IpaSession.cpp:56-65 | a completed write moves the first frame to the socket and starts the next; a failed one stops the session |
| `Sessions.IpaSession.SendGsup` | src/transport/IpaSession.cpp:36-42 | queues the framed payload, or throws before anything is queued |
| `Sessions.IpaSession.HandleCcm` | src/transport/IpaSession.cpp:97-115 | identity responses make the session ready, and the state after any control frame is that of the function whose answers `SessionControl` gives by octets |
| `Sessions.IpaSession.ProcessFrame` | src/transport/IpaSession.cpp:88-95 | GSUP payloads are handed on only when the session is ready |
| `Sessions.IpaSession.OnRead` | src/transport/IpaSession.cpp:80-82 | the read loop handles exactly the frames completed by the chunk, and throws exactly if the decoder does |
| `Sessions.IpaSession.OnReadError` | src/transport/IpaSession.cpp:73-79 | stops the session and reports the disconnect at most once |
| `SessionRuns.RunsAreInOrder` | src/transport/IpaSession.cpp:44-66 | over every run, what was enqueued is what was written followed by what waits, in order, with at most one write in flight |
| `SessionControl.RunsAnswerControl` | src/transport/IpaSession.cpp:97-130 | over every run, what is sent on the control stream is the identity request [4, 1, 7] and then [6] for each received identity response and [1] for each ping, in order, and nothing else; on the GSUP stream, exactly what was asked for, in order; and ready is reported once for each identity response |
| `SessionControl.EndsExactly` | src/transport/IpaSession.cpp:56-79 | a failed write or read stops the session and is reported, unless it had stopped; nothing else is reported |
| `SessionRuns.ChannelIsFifo` | src/transport/IpaSession.cpp:44-66 | over every run, a peer that reads what was written, split in any way, sees exactly the frames enqueued, except those still waiting, in order |
| `SessionRuns.RunsReceiveAll` | src/transport/IpaSession.cpp:70-86 | over every run, the frames received are those of the octets fed, however split, whatever is sent meanwhile |
| `SessionRuns.RunsAreGated` | src/transport/IpaSession.cpp:88-115 | over every run, only GSUP payloads received after an identity response are handed on, in order; all of them unless something fails or stops |
| `SessionRuns.FramesReachServer` | src/transport/IpaSession.cpp:70-115 | the frames an SGSN sends, in any chunks, give the server exactly their GSUP payloads after the handshake |
| `Servers.OperationsKeepSubMap` | src/transport/IpaServer.cpp:61-85 | accepting under a new id, ready and disconnect callbacks keep `sessions_` a sub-map of `allSessions_` |
| `RegistryRuns.RunsRegisterLive` | src/transport/IpaServer.cpp:19-26 | over every run only connections that never reported a disconnect are registered, and only those of them that reported to be ready are active; as long as the server was not stopped, all of them are |
| `Servers.IpaServer.OnAccept` | src/transport/IpaServer.cpp:61-68 | registers a fresh session under the next id and starts its handshake |
| `Servers.IpaServer.OnSessionReady` | src/transport/IpaServer.cpp:74-79 | activates the registered session of that id, if there is one |
| `Servers.IpaServer.OnSessionDisconnect` | src/transport/IpaServer.cpp:81-85 | removes the id from both tables |
| `Servers.IpaServer.Stop` | src/transport/IpaServer.cpp:19-26 | every registered session is stopped and otherwise left as it is, and both tables are emptied |
| `Servers.IpaServer.Send` | src/transport/IpaServer.cpp:28-46 | id 0 reaches every active ready session; another id that session alone, if it is active and ready; all others are untouched; it throws exactly if a session addressed is ready and the payload cannot be framed |
| `Servers.IpaServer.Broadcast` | src/transport/IpaServer.cpp:31-35 | each active ready session gets the frame once; it throws exactly if one of them does |
| `Routing.RunsAreSound` | src/transport/IpaServer.cpp:28-85 | over every run of proxy, server and sessions, ids reissued or not: registry, ids, origins of requests and sessions stay right, each delivered frame stands at its place in what the addressed connection was sent, and no reply is addressed to all |
| `Routing.NetRunsSafeExactly` | src/proxy/TransactionManager.cpp:19-29 | over such runs the proxy is safe in every state if and only if no live id is ever reissued |
| `Addressing.StepAddressed` | src/proxy/Proxy.cpp:67-298 | every callback keeps all records and replies addressed to a nonzero id, so that no reply is ever broadcast |
| `Routing.AnswersReachTheirConnection` | src/proxy/Proxy.cpp:160-174 | with fewer than 2^64 accepts, ids are nonzero and never reused, and a reply, if delivered, is delivered to the connection whose id it bears, never broadcast; as long as no live id was reissued, that is the connection the answered request came from, and no answer is delivered twice |
| `RoutingTime.RegularTicksKeepNetsSafe` | src/main.cpp:77-85 | with ticks at most d apart and fewer than 2^32 - 1 requests in any span of the timeout plus d, no event of a combined run reissues a live id |
| `RoutingTime.RegularTicksRouteAnswers` | src/proxy/Proxy.cpp:160-174 | so that, with no hypothesis on ids, an answer, if delivered, is delivered once, to the connection its request came from |
| `ReturnPath.DispatchTo` | src/transport/IpaServer.cpp:36-44 | executing a send to one connection puts its frame at the end of what that connection was sent, if it is registered as active and its session ready, and otherwise does nothing; no other connection is touched |
| `ReturnPath.DispatchToAll` | src/transport/IpaServer.cpp:31-35 | executing a broadcast enqueues its frame on exactly the active and ready connections |
| `ReturnPath.DeliveredIsRead` | src/transport/IpaSession.cpp:44-66 | in every state, a delivered frame that has been written is what the SGSN's decoder reads at its place, however the octets are split |
| `ReturnPath.ReplyFitsFrame` | src/ipa/IpaCodec.cpp:37-40 | the reply to an answer that fits one SCCP unit fits one IPA frame |
| `ReturnPath.AnswerSettles` | src/proxy/Proxy.cpp:117-175 | the octets of a deliverable answer make one reply, which decodes to the converted answer, and settle the request with it |
| `ReturnPath.AnswerReachesSgsn` | src/proxy/Proxy.cpp:160-174 | from the chunked M3UA octets of an answer to the frame read by the decoder of the SGSN, when no live id was reissued before: the payload reaches the proxy, settles the request, its frame goes to the end of what the connection the request came from was sent, if that is open when the send is executed, and is read there, in any chunks and in every later state in which it has been written, as the converted answer |

## Left out

- Sockets, DNS, TCP and SCTP, reconnect and heartbeat timers: library behaviour; callbacks are atomic steps here.
- The ASP handshake of the M3UA side and its write queue, a copy of the IPA one: acknowledgements are accepted in any state, so what holds depends on the peer. The state of the link is a parameter of `Layering.Send`.
- Logging, names for log lines, the command line and signals: no properties.
- `makeSsnAddress` and global title formats other than 4: the decoder drops their data by design.
- `isdnToBcd` and `bcdToIsdn`: not on the message paths of the proxy.
- What decoders do after a malformed frame: a run ends at the first failure. In M3UA a message that is cut off but does not decode counts as one.
- Lifetimes of C++ objects and `shared_from_this`.
- SccpCodec.DecodeUdt: an address whose length overruns the message fails here; the source reads past the end without a check.
- The MAP flag `isLastComponent`, which is always true, is not a field of the model.
- Sessions.IpaSession.SendGsup: the post to the executor is taken to be immediate; the order of posts is the order of calls.
- Sessions.IpaSession.OnRead: after a write error the source may still process a chunk that was already being read; the model allows a chunk in every state, which covers that.
- Routing.AnswersReachTheirConnection: a payload handed on by a session may wait there before the proxy handles it, where the source handles it at once; this only adds runs. A payload that cannot be framed throws in the source; in these runs nothing is sent then and the run goes on.
- SessionRuns.ChannelIsFifo: frames with payloads over 4095 octets are outside it, because the decoder throws on each of them (`IpaCodec.EncodedIsFrame`).
- Durations are integers of one unit; the truncation of clock ticks is not modelled.
