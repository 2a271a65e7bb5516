# Verified model of the KNX IoT stack

This project models the self-contained algorithms of the KNX IoT stack (`KNX-IOT-STACK/api`) and proves
what they are for. `dafny verify dfyconfig.toml` checks all of it.

| Area | Modules |
|---|---|
| OSCORE replay window and client table, section 7.4 of RFC 8613 | ReplayWindow, ReplayTable, ReplayRuns |
| Size-tracking JSON writer | JsonText, JsonLookup, JsonWriter, JsonReference |
| Its text against the grammar of RFC 8259, and read again | JsonGrammar, JsonValidity, JsonReader, JsonMeaning |
| IPv6 endpoint text, section 2.2 of RFC 4291 | Ipv6Text, Ipv6Printer, Ipv6Parser, Ipv6RoundTrip, Ipv6Denotation, Ipv6Canonical |
| Block-wise transfer, sections 2.2 to 2.5 of RFC 7959, and the life of its buffers | BlockTransfer, BlockRuns, BlockBuffers, BufferLaws |
| Base64, section 4 of RFC 4648 | Base64, Base64Text |
| Group object table, load states, storage as CBOR | GroupObjects, GroupTable, GroupRequests, GroupRecords |
| S-mode messages and multicast groups | GroupDispatch, GroupSending, GroupMulticast, GroupMessages, GroupAddresses |
| Link format, RFC 6690 | LinkFormat, LinkReading, LinkText |
| Handshake throttle; numbers and bytes as text | HandshakeThrottle, NumberText |
| Shared by several of them | CStrings, Octets, Options |

Code that changes things in place is imperative: classes over arrays and fields, and methods with
loops, each shown equal to a function of the state before. The properties are lemmas about those
functions and about runs of them. What an operation does is also stated in plain terms, apart from the
functions that the methods use: the JSON text through a reader of its own, addresses and base64 by the
place of a digit in its alphabet, records through a CBOR decoder, and group messages by their text and
flag bits (JsonMeaning, Ipv6Denotation, Ipv6Canonical, Base64Text, BufferLaws, GroupRequests, GroupRecords,
GroupMessages, GroupAddresses, LinkText).

Some promises turn out to hold only under a condition, which is then stated exactly:

- No number is accepted twice if and only if the platform makes an odd number of `(uint32_t)1 << 32`,
  which C leaves undefined. Line 186 of `oc_replay.c` lets the distance 32 through to that shift. The
  intent, "too old", is what an odd value gives (`ReplayFreeIffOddShift`). Whatever the value, runs that
  never ask at that distance are free of replays (`AvoidingRunIsReplayFree`).
- The IPv6 parser ends if and only if none of the first eight segments between colons has more than four
  characters; a longer one is never consumed (`LoopEndsIff`, `UriEndsIff`).
- A URI with a colon in its path is refused unless a closing bracket stands right before the colon, which is
  otherwise taken for that of a port (`PathColonIsRefused`).
- The JSON writer prints JSON if and only if members have keys in objects and none in arrays, and a value
  each. A payload that is a single array, and one whose first member is an object with a number for its
  key, get the wrong brackets (`DocumentIsJson`).
- The JSON writer prints the tree it was given unless a byte string or an array has a NUL in its name,
  under which another member may be found (`FindsItself`, `PlainlyNamedIsFound`).
- The base64 encoder stays in its room if and only if there is an input or some room.
- An IPv6 address survives printing and parsing if and only if its zero groups form at most one run.
- The group object table survives a restart if and only if every record fits the 1024 bytes it is read
  into; records are written from a buffer of 7168 bytes.
- A received value reaches every entry that is to take it if and only if no earlier entry on the same
  address has an href that names no resource; the check made on storing lets such hrefs through.
- A list of flag codes means its flags if and only if no code is given twice, since the codes are added up.
- A base64 text is the encoding of its decoding if and only if its unused bits are zero.
- What is read of a link-format line is a part of it if and only if no `<` is left open, and no semicolon
  comes too early for an attribute (`UriWithinIff`, `ParamWithinIff`).
- A blocked device unblocks after as many ticks as the count if no handshake is open, and otherwise up to
  as many later as handshakes are open (`UnblocksBetween`).
- An attribute at the very end of a link-format line is read with the semicolon after it.
- The short-payload branch of dispatch is right if and only if the offset is 0 or the payload is at
  least a block long, which aligned offsets guarantee.

## Model

| member | source | states |
|---|---|---|
| ReplayWindow.DifferenceIsExact | KNX-IOT-STACK/api/oc_replay.c:181-184 | subtracting two sender sequence numbers and reading the result as signed never wraps, because numbers stay below 2^40 |
| ReplayWindow.SynchronisedRepresents | KNX-IOT-STACK/api/oc_replay.c:230-247 | after a synchronisation exactly the synchronised number counts as seen |
| ReplayWindow.CheckRefinesSet | KNX-IOT-STACK/api/oc_replay.c:181-227 | bit k stands for "newest minus k was accepted" before and after every call; a number is accepted exactly if it is unseen and either less than 32 behind or at most the replay window setting ahead; the newest number is the maximum and never falls |
| ReplayWindow.DistanceThirtyTwo | KNX-IOT-STACK/api/oc_replay.c:186-193 | at distance exactly 32 the verdict rests on what the platform makes of the undefined shift; an odd value turns the number away and changes nothing |
| ReplayWindow.WindowAnswersAsIdealSet | KNX-IOT-STACK/api/oc_replay.c:181-227 | 32 bits answer every run of arrivals exactly as the unbounded set of accepted numbers would, whatever the replay window is at each of them, if the undefined shift comes out odd or the run never meets it |
| ReplayWindow.RunAcceptsOnlyNew | KNX-IOT-STACK/api/oc_replay.c:181-227 | over every such run, whatever is accepted was not seen before, and no number is accepted twice |
| ReplayWindow.EvenShiftReplays | KNX-IOT-STACK/api/oc_replay.c:186-193 | a run of two arrivals that accepts the synchronised number again when the undefined shift comes out even |
| ReplayWindow.ReplayFreeIffOddShift | KNX-IOT-STACK/api/oc_replay.c:175-227 | freedom from replay on every run holds if and only if the undefined shift comes out odd |
| ReplayWindow.AvoidingRunIsReplayFree | KNX-IOT-STACK/api/oc_replay.c:175-227 | whatever the platform makes of the shift, a run in which no arrival is exactly 32 behind the newest number is free of replays |
| ReplayTable.Table.GetRecord | KNX-IOT-STACK/api/oc_replay.c:91-112 | the search finds the first record in use for that key identifier and context; an empty identifier is never found |
| ReplayTable.Table.GetEmptyRecord | KNX-IOT-STACK/api/oc_replay.c:72-89 | a free record if there is one, else the oldest, which is emptied |
| ReplayTable.Table.AddClient | KNX-IOT-STACK/api/oc_replay.c:230-247 | the whole array afterwards, in terms of the array before |
| ReplayTable.Table.CheckClient | KNX-IOT-STACK/api/oc_replay.c:118-227 | verdict and whole array afterwards, with the trust in first multicasts and the window test |
| ReplayTable.Table.FreeClient | KNX-IOT-STACK/api/oc_replay.c:249-259 | every record of that key identifier is freed, no other is touched |
| ReplayRuns.EvictionIsOldest | KNX-IOT-STACK/api/oc_replay.c:72-89 | a client makes way only when every record is in use, and then no record is older than the one given up, and none before it as old |
| ReplayRuns.NobodyForgottenEarly | KNX-IOT-STACK/api/oc_replay.c:72-89 | over every run from an empty table: releases aside, a known client stays known until as many operations as there are records could have taken one |
| ReplayRuns.AddRefinesMap | KNX-IOT-STACK/api/oc_replay.c:230-247 | the array is a map from client to window: adding sets one key and forgets at most one other |
| ReplayRuns.CheckRefinesMap | KNX-IOT-STACK/api/oc_replay.c:118-227 | a check changes only the client it is about, by the window test, besides at most one eviction |
| ReplayRuns.ReleaseRefinesMap | KNX-IOT-STACK/api/oc_replay.c:249-259 | releasing forgets exactly the contexts of one key identifier |
| ReplayRuns.StepRefinesMap | KNX-IOT-STACK/api/oc_replay.c:118-259 | any operation leaves at most one record in use per client and every other client as it was, but for one eviction |
| ReplayRuns.ReachableTable | KNX-IOT-STACK/api/oc_replay.c:118-259 | in every reachable state keys are unique, and the window of each known client stands for exactly the numbers accepted from it since its last synchronisation, if the undefined shift comes out odd or no check of that client has met it |
| ReplayRuns.SeenPersists | KNX-IOT-STACK/api/oc_replay.c:181-227 | an accepted number stays seen until the client is synchronised again |
| ReplayRuns.NoReplayOnAnyRun | KNX-IOT-STACK/api/oc_replay.c:118-259 | over every interleaving of clients, operations and evictions, a number accepted twice from one client has a synchronisation in between, under the same condition on that client alone |
| Base64.ValueOfSymbol | KNX-IOT-STACK/api/oc_base64.c:27-145 | the decoder reads every alphabet character back as its value |
| Base64.EncoderSteps | KNX-IOT-STACK/api/oc_base64.c:61-103 | the carried state makes exactly the four sextets of a 24-bit group; the mask 0x3D loses nothing |
| Base64.DecoderSteps | KNX-IOT-STACK/api/oc_base64.c:167-193 | the carried state makes exactly the three octets of a 24-bit group; the masks 0xFD and 0xD0 lose nothing |
| Base64.LoopsEncode | KNX-IOT-STACK/api/oc_base64.c:61-114 | main loop, left-over symbol and padding together are the encoding of section 4 of RFC 4648 |
| Base64.Encode | KNX-IOT-STACK/api/oc_base64.c:23-116 | writes the reference encoding into its window of the buffer, or refuses for want of room; besides the encoding it stores only a NUL for an empty input, even into a room of zero |
| Base64.RoomIsKept | KNX-IOT-STACK/api/oc_base64.c:49-56 | all stores are within the room if and only if there is an input or some room |
| Base64.Decode | KNX-IOT-STACK/api/oc_base64.c:119-200 | in place: succeeds exactly on alphabet text of length divisible by 4 with at most two trailing padding characters, and leaves the decoding of the original text followed by zeros |
| Base64.DecodeChars | KNX-IOT-STACK/api/oc_base64.c:131-193 | a stored byte never lands on a character that is still to be read |
| Base64.DecodedSoFarIsRight | KNX-IOT-STACK/api/oc_base64.c:131-193 | the bytes stored so far are the reference decoding of the characters read so far |
| Base64.EncodedIsWellFormed | KNX-IOT-STACK/api/oc_base64.c:61-114 | an encoding is text that the decoder accepts, with as much padding as it has spare characters |
| Base64.DecodeEncode | KNX-IOT-STACK/api/oc_base64.c:23-200 | decoding an encoding gives back every byte string, with its length |
| Base64.EncodeDecode | KNX-IOT-STACK/api/oc_base64.c:23-200 | encoding a decoded text gives the text back if and only if its unused bits are zero; the decoder accepts the others too |
| Base64.UnusedBitsAreLost | KNX-IOT-STACK/api/oc_base64.c:119-200 | the text "Zh==", which is accepted and does not come back |
| Base64Text.EncodedText | KNX-IOT-STACK/api/oc_base64.c:23-116 | each character of an encoding by its place: the letter at the value of the next six bits in the alphabet of RFC 4648, or an equals sign where no bits are left |
| Base64Text.AcceptedTexts | KNX-IOT-STACK/api/oc_base64.c:119-200 | exactly the texts of a multiple of four characters are accepted that are letters of the alphabet with at most two equals signs behind |
| Base64Text.DecodedText | KNX-IOT-STACK/api/oc_base64.c:119-200 | each byte of a decoding by its place: the next eight bits of what the letters stand for |
| Base64Text.DecodedLength | KNX-IOT-STACK/api/oc_base64.c:119-200 | three quarters as many bytes as letters |
| JsonText.TextOfBoth | KNX-IOT-STACK/api/oc_rep.c:1057-1074 | texts of pieces in a row join |
| JsonLookup.FindsItself | KNX-IOT-STACK/api/oc_rep.c:591-662 | the search for a value that is about to be printed finds the member it is for if and only if its name has no NUL |
| JsonLookup.PlainlyNamedIsFound | KNX-IOT-STACK/api/oc_rep.c:1195-1400 | if no value that is looked up has a NUL in its name, what is printed is the tree itself |
| JsonLookup.NulFindsAnother | KNX-IOT-STACK/api/oc_rep.c:1236-1251 | a member "a" with a NUL behind it is printed with the value of a later member "a" |
| JsonLookup.FindsFirst | KNX-IOT-STACK/api/oc_rep.c:591-662 | the search finds the first member with the name and the kind, and nothing if there is none |
| JsonWriter.PutBoth | KNX-IOT-STACK/api/oc_rep.c:1057-1074 | writing two runs of pieces one after the other is writing them together: every nesting level may thread the shrinking buffer separately |
| JsonWriter.KeptBounds | KNX-IOT-STACK/api/oc_rep.c:1057-1125 | how much of a text a buffer keeps: never more than fits with its NUL, and all of it exactly if it fits |
| JsonWriter.PutShowsPrefix | KNX-IOT-STACK/api/oc_rep.c:1057-1125 | whatever the buffer size, what it holds is a terminated prefix of the whole text, and memory outside is untouched |
| JsonWriter.PrintedMore | KNX-IOT-STACK/api/oc_rep.c:1057-1074 | the update after a callee keeps position, room and total in step with the text printed so far, even past the end of the buffer |
| JsonWriter.Snprintf | KNX-IOT-STACK/api/oc_rep.c:1077-1090 | the C library function as used here: returns the whole length, writes what fits and a NUL |
| JsonWriter.Tab | KNX-IOT-STACK/api/oc_rep.c:1076-1090 | indentation: returned total and buffer agree with the text |
| JsonWriter.QuotedFits | KNX-IOT-STACK/api/oc_rep.c:1096-1125 | quote, base64 text and quote over one another's NULs are the quoted text, if there is room for all |
| JsonWriter.Base64Text | KNX-IOT-STACK/api/oc_rep.c:1096-1125 | the base64 leaf: full length returned, and all of it or only the opening quote left |
| JsonWriter.Base64WholeOrNone | KNX-IOT-STACK/api/oc_rep.c:1096-1125 | in the text a buffer is left with, a base64 value is either there to its closing quote or cut right after its opening quote |
| JsonWriter.PrintKey | KNX-IOT-STACK/api/oc_rep.c:1150-1164 | the name or number before a value |
| JsonWriter.LookUp | KNX-IOT-STACK/api/oc_rep.c:591-662 | the search by name, cut at its first NUL, and by kind; an array that is not found is printed empty |
| JsonWriter.PrintRow | KNX-IOT-STACK/api/oc_rep.c:1236-1340 | number and boolean arrays |
| JsonWriter.PrintColumn | KNX-IOT-STACK/api/oc_rep.c:1342-1428 | string and byte string arrays, one element a line |
| JsonWriter.PrintValue | KNX-IOT-STACK/api/oc_rep.c:1166-1488 | every kind of value, looked up again first where the source does so, nested ones through the other writers |
| JsonWriter.PrintObject | KNX-IOT-STACK/api/oc_rep.c:1221-1235 | a nested object, threaded through the outer buffer |
| JsonWriter.PrintObjectArray | KNX-IOT-STACK/api/oc_rep.c:1429-1467 | an array of objects |
| JsonWriter.PrintMixedArray | KNX-IOT-STACK/api/oc_rep.c:1468-1486 | a mixed array |
| JsonWriter.Format | KNX-IOT-STACK/api/oc_rep.c:1136-1502 | for every tree, with its values as they are looked up, and every buffer, none included: returns the length of the full text and leaves the buffer as if that text had been printed piece by piece |
| JsonWriter.ToJson | KNX-IOT-STACK/api/oc_rep.c:1504-1527 | the same for the whole document with its outer brackets |
| JsonWriter.PrintRepAsJson | KNX-IOT-STACK/api/oc_rep.c:1612-1625 | measuring with no buffer and then writing leaves exactly the whole text, terminated |
| JsonWriter.DocumentShown | KNX-IOT-STACK/api/oc_rep.c:1504-1527 | the buffer holds a terminated prefix of the document, the whole of it exactly if the size exceeds its length |
| JsonReference.CompactReads | KNX-IOT-STACK/api/oc_rep.c:1136-1527 | for every tree the compact text is what it reads as from the outside in: keys and values of the members between brackets, one comma between each two |
| JsonReference.DocumentReads | KNX-IOT-STACK/api/oc_rep.c:1136-1527 | both styles read alike: the writer, which decides about commas and blanks as it goes, frames the same members and items between the same brackets |
| JsonReference.StripText | KNX-IOT-STACK/api/oc_rep.c:1136-1502 | blanks outside of strings can be taken out of a text piece by piece, as long as quotes are paired in every piece |
| JsonReference.PrettyAddsOnlyBlanks | KNX-IOT-STACK/include/oc_rep.h:2516-2518 | for every tree without quotes in its names and strings, pretty printing adds white space and new lines and nothing else: without the blanks outside of strings the pretty text is the compact one |
| JsonMeaning.WordsMean | KNX-IOT-STACK/api/oc_rep.c:1167-1199 | the three words, byte by byte as a reader knows them, say null, true and false |
| JsonMeaning.IntegerMeans | KNX-IOT-STACK/api/oc_rep.c:1172-1182 | the text of an integer is read as that integer, by sign and digits, whatever ends it |
| JsonMeaning.FractionMeans | KNX-IOT-STACK/api/oc_rep.c:1183-1192 | the text of a number with a fraction is read as a whole |
| JsonMeaning.DocumentReadsBack | KNX-IOT-STACK/api/oc_rep.c:1504-1527 | for every tree whose text is JSON and needs no escape, compact or pretty without its blanks outside of strings: a reader of RFC 8259 that shares nothing with the writer gets the keys and values back, in order |
| JsonMeaning.NotFoundIsEmpty | KNX-IOT-STACK/api/oc_rep.c:1236-1428 | an array that is looked up in vain reads as the empty array |
| JsonValidity.RepGo | KNX-IOT-STACK/api/oc_rep.c:1136-1502 | where the automaton is after the members of an object or an array: after a value if they are well formed, else where no comma and no closing bracket may follow |
| JsonValidity.DocumentIsJson | KNX-IOT-STACK/api/oc_rep.c:1504-1527 | for every tree whose names and strings need no escape, in both styles: the text is JSON if and only if members have keys in objects and none in arrays, all have values, and nothing has control characters; the outermost brackets are taken for an array if the first member is an object without a name |
| JsonValidity.TopArrayIsNoJson | KNX-IOT-STACK/api/oc_rep.c:1510-1523 | the payload `[1,2]`, printed as `{[1,2]}`, is not JSON |
| JsonValidity.NumberedObjectIsNoJson | KNX-IOT-STACK/api/oc_rep.c:1510-1523 | the payload `{3: {1: 2}}`, whose outermost brackets come out square, is not JSON |
| JsonValidity.BareQuoteMisleads | KNX-IOT-STACK/api/oc_rep.c:1150-1155 | why escapes are set apart: one member with quotes in its name is printed like two other members, and that is JSON |
| Ipv6Text.CountersAreRight | KNX-IOT-STACK/api/oc_endpoint.c:133-169 | after every group the counters describe the current and the longest ended run of zero groups |
| Ipv6Text.ChosenIsFirstLongest | KNX-IOT-STACK/api/oc_endpoint.c:133-169 | the place of the insertion belongs to the first of the longest zero runs, for every address |
| Ipv6Text.InsertionMakesDoubleColon | KNX-IOT-STACK/api/oc_endpoint.c:170-182 | inserting one colon after the fact leaves the groups before the run, a double colon and the groups after it |
| Ipv6Printer.PrintGroups | KNX-IOT-STACK/api/oc_endpoint.c:133-166 | the loop over the groups: text and counters, within 41 characters |
| Ipv6Printer.MakeRoom | KNX-IOT-STACK/api/oc_endpoint.c:173-177 | moving the tail up doubles one character in place |
| Ipv6Printer.ToText | KNX-IOT-STACK/api/oc_endpoint.c:122-197 | prints scheme, address and port of every endpoint without leaving its 54-byte buffer |
| Ipv6Parser.LoopEndsIff | KNX-IOT-STACK/api/oc_endpoint.c:316-357 | for every text, from every state: the loop ends if and only if none of the segments between colons that it still gets to, two octets of the address for each, has more than four characters |
| Ipv6Parser.UriEndsIff | KNX-IOT-STACK/api/oc_endpoint.c:372-511 | for every URI: the parser runs for ever exactly if there is an address between brackets and one of its first eight segments has more than four characters, and refuses exactly if there is none |
| Ipv6Parser.FiveCharactersAreEndless | KNX-IOT-STACK/api/oc_endpoint.c:356-357 | "coap://[12345]", on which it runs for ever |
| Ipv6Parser.ParseIpv6 | KNX-IOT-STACK/api/oc_endpoint.c:310-370 | on every text whose first eight segments have at most four characters, the octets read before and after the double colon stand at the two ends, zeros between |
| Ipv6Parser.ReadSegment | KNX-IOT-STACK/api/oc_endpoint.c:316-357 | one round of the loop makes progress and keeps the final result |
| Ipv6Parser.ShiftRight | KNX-IOT-STACK/api/oc_endpoint.c:359-369 | the in-place shift from the right is the expansion of the double colon |
| Ipv6Parser.ParseEndpointString | KNX-IOT-STACK/api/oc_endpoint.c:372-511 | scheme, brackets and port of the whole text, and the errors, on every text on which `UriEndsIff` lets the parser end |
| Ipv6RoundTrip.GroupRead | KNX-IOT-STACK/api/oc_endpoint.c:238-308 | a group printed without leading zeros reads back as its two octets |
| Ipv6RoundTrip.ParseCompressed | KNX-IOT-STACK/api/oc_endpoint.c:310-357 | the parser ends on every printed address, having read every group that is not zero, split at the chosen run |
| Ipv6RoundTrip.ParsePrinted | KNX-IOT-STACK/api/oc_endpoint.c:122-370 | for every address, parsing the printed text gives the address with its other zero groups squeezed out |
| Ipv6RoundTrip.OneRunKept | KNX-IOT-STACK/api/oc_endpoint.c:122-370 | with one run at most nothing is squeezed out |
| Ipv6RoundTrip.SqueezedHasOneRun | KNX-IOT-STACK/api/oc_endpoint.c:122-370 | what comes back has one run at most, so an address with more is lost |
| Ipv6RoundTrip.AddressRoundTrip | KNX-IOT-STACK/api/oc_endpoint.c:122-370 | the sixteen bytes come back if and only if the zero groups form at most one run |
| Ipv6RoundTrip.EndpointRoundTrip | KNX-IOT-STACK/api/oc_endpoint.c:122-511 | for whole URIs: port and SECURED flag always come back, the address if and only if its zero groups form at most one run |
| Ipv6RoundTrip.TwoRunsAreLost | KNX-IOT-STACK/api/oc_endpoint.c:122-511 | an address with two zero runs, which does not come back |
| Ipv6Denotation.GroupIsNumber | KNX-IOT-STACK/api/oc_endpoint.c:238-308 | one to four hexadecimal digits of either case are read as the number that they denote by position |
| Ipv6Denotation.AddressIsRead | KNX-IOT-STACK/api/oc_endpoint.c:310-370 | every text of eight groups, or of fewer around one double colon, is read as the address that it denotes |
| Ipv6Denotation.UriIsRead | KNX-IOT-STACK/api/oc_endpoint.c:372-511 | for every URI with such an address: the address, the flag of the scheme, and the port as written modulo 2^16, or 5683 and 5684 where none is written |
| Ipv6Denotation.NoAddressIsUnspecified | KNX-IOT-STACK/api/oc_endpoint.c:372-511 | nothing between the brackets is read as the unspecified address |
| Ipv6Denotation.PathColonIsRefused | KNX-IOT-STACK/api/oc_endpoint.c:420-470 | a URI with a colon in its path, before the last character, is refused if and only if no closing bracket stands right before the first such colon |
| Ipv6Canonical.PrintedTextDenotes | KNX-IOT-STACK/api/oc_endpoint.c:122-197 | for every address: what is printed stands for it if and only if its zero groups form at most one run, and then in lower case and without leading zeros |
| BlockTransfer.BlockSizeFor | KNX-IOT-STACK/api/oc_main.c:168-190 | refused below the header size plus 16; otherwise the largest power of two in 16..1024 that fits after the header |
| BlockTransfer.Buffer.DispatchBlock | KNX-IOT-STACK/api/oc_blockwise.c:359-375 | size and next offset of an outgoing block |
| BlockTransfer.Buffer.HandleBlock | KNX-IOT-STACK/api/oc_blockwise.c:377-397 | a block is refused exactly if it cannot fit or leaves a gap, stored only at the offset waited for, and otherwise leaves the buffer alone |
| BlockTransfer.DispatchIsRemainder | KNX-IOT-STACK/api/oc_blockwise.c:364-371 | what is dispatched is the smaller of what was asked for and what is left if and only if the offset is 0 or the payload is at least one block long, and the whole size otherwise |
| BlockTransfer.UnalignedDispatchOverruns | KNX-IOT-STACK/api/oc_blockwise.c:365-366 | an offset and size at which the short-payload branch runs past the payload |
| BlockTransfer.AlignedDispatch | KNX-IOT-STACK/api/oc_blockwise.c:364-371 | a whole number of blocks into the payload never meets that branch wrongly |
| BlockRuns.SmallerDivides | KNX-IOT-STACK/api/oc_main.c:184-188 | block sizes divide each other, so offsets stay aligned when the size is lowered |
| BlockRuns.StepKeepsConsistent | KNX-IOT-STACK/api/oc_blockwise.c:359-397 | each request or delivery keeps the received bytes a prefix of the payload and every block in flight a true part of it; the awaited block strictly extends the prefix |
| BlockRuns.TransferIsSafe | KNX-IOT-STACK/api/oc_blockwise.c:359-397 | over every run of a channel that loses, repeats and reorders, with sizes in non-increasing order, what was received is the sender's prefix |
| BlockRuns.ReceivedOnlyGrows | KNX-IOT-STACK/api/oc_blockwise.c:388-394 | the next offset never falls and nothing received is changed |
| BlockRuns.HitsAdvance | KNX-IOT-STACK/api/oc_blockwise.c:388-394 | every awaited block that arrives completes the payload or adds at least sixteen bytes |
| BlockRuns.TransferCompletes | KNX-IOT-STACK/api/oc_blockwise.c:359-397 | enough awaited deliveries leave exactly the payload |
| BlockRuns.NextBlockAvailable | KNX-IOT-STACK/api/oc_blockwise.c:359-375 | while something is missing, the sender can cut the block that starts at the receiver's offset, so a receiver-driven transfer never gets stuck |
| BlockRuns.TooLargeNeverCompletes | KNX-IOT-STACK/api/oc_blockwise.c:383-387 | a payload larger than the receiver's buffer never arrives whole |
| BlockRuns.GapsAreRefused | KNX-IOT-STACK/api/oc_blockwise.c:383-394 | in every reachable state, for every block that may arrive: it is taken if and only if it fits and everything before it has been received; one beyond that changes nothing |
| BlockBuffers.UsageIsLength | KNX-IOT-STACK/api/oc_blockwise.c:86-113 | as many blocks are out of a pool as its list is long |
| BlockBuffers.AddKeepsSound | KNX-IOT-STACK/api/oc_blockwise.c:131-171 | allocating keeps all invariants, with or without memory for the timer |
| BlockBuffers.FreeKeepsSound | KNX-IOT-STACK/api/oc_blockwise.c:173-185 | a freed buffer is in no list and out of its pool, and no timeout for it is left |
| BlockBuffers.TimeoutIsFree | KNX-IOT-STACK/api/oc_blockwise.c:115-129 | a timeout that fires inside the poll, with its own timer still listed, ends in exactly the state that freeing by hand gives |
| BlockBuffers.ScrubLeavesSurvivors | KNX-IOT-STACK/api/oc_blockwise.c:187-231 | a scrub leaves exactly the buffers it does not drop, in order, and exactly the timers that are not timeouts of dropped buffers |
| BlockBuffers.PollFreesExpired | KNX-IOT-STACK/api/oc_ri.c:902-928 | a poll ends exactly the expired timers that are not restarted and frees exactly the buffers whose timeout expired |
| BlockBuffers.StepKeepsSound | KNX-IOT-STACK/api/oc_ri.c:864-928 | every event keeps: one list per buffer, pool equal to list, at most one pending timeout per buffer, none for a freed one |
| BlockBuffers.EveryRunIsSound | KNX-IOT-STACK/api/oc_blockwise.c:115-231 | those properties in every reachable state of allocation, use, free, timeout, scrub and client scrub |
| BlockBuffers.Store.Alloc | KNX-IOT-STACK/api/oc_blockwise.c:131-171 | the new state of lists, pools and timers |
| BlockBuffers.Store.RemoveTimer | KNX-IOT-STACK/api/oc_ri.c:864-881 | the search and removal of the first matching timer |
| BlockBuffers.Store.FreeBuffer | KNX-IOT-STACK/api/oc_blockwise.c:173-185 | timer first, then the buffer |
| BlockBuffers.Store.ScrubAll | KNX-IOT-STACK/api/oc_blockwise.c:187-231 | the two loops, which fetch the next buffer before the current one may go |
| BlockBuffers.Store.PollTimers | KNX-IOT-STACK/api/oc_ri.c:902-928 | the loop that starts at the head again after each timer that fires |
| BufferLaws.UnusedAreFreed | KNX-IOT-STACK/api/oc_blockwise.c:209-231 | after a scrub exactly the buffers with references remain in both lists, or none, in order and as they were, with exactly their timeouts |
| BufferLaws.ClientBuffersAreFreed | KNX-IOT-STACK/api/oc_blockwise.c:187-207 | after a scrub for a client callback exactly the buffers of other callbacks remain, likewise |
| BufferLaws.OneIsFreed | KNX-IOT-STACK/api/oc_blockwise.c:173-185 | after a free exactly that buffer and its timeout are gone, from lists that keep their order |
| BufferLaws.OneIsAdded | KNX-IOT-STACK/api/oc_blockwise.c:131-171 | a new buffer is last in its list with one reference and no callback; without memory or an href nothing happens |
| BufferLaws.ExpiredAreFreed | KNX-IOT-STACK/api/oc_ri.c:902-928 | a poll ends exactly the expired timers that do not ask to be restarted, and frees exactly the buffers that one of them was the timeout of |
| BufferLaws.LifeOfOne | KNX-IOT-STACK/api/oc_blockwise.c:131-231 | a new buffer outlasts a scrub of the unused ones, and goes in one exactly if its user has let go of it |
| GroupObjects.FilledId | KNX-IOT-STACK/api/oc_knx_fp.c:102-124 | with distinct keys the id a slot ends up with is the id it was chosen by |
| GroupObjects.FilledIsDescribed | KNX-IOT-STACK/api/oc_knx_fp.c:572-647 | each field of the slot is what its pair says, and stays as it was without one |
| GroupObjects.FourAreAll | KNX-IOT-STACK/api/oc_knx_fp.c:569-657 | counting four mandatory pairs means id, href, groups and flags are all there |
| GroupObjects.PostRefinesMap | KNX-IOT-STACK/api/oc_knx_fp.c:511-675 | a request makes the map from ids to entries hold exactly the entry it describes, or drops the id when it gives nothing else, when something is missing or when a check fails; other ids stay; the status says which |
| GroupObjects.PostWithoutId | KNX-IOT-STACK/api/oc_knx_fp.c:546-567 | without an id, or with a negative one, nothing changes |
| GroupObjects.DeleteRefinesMap | KNX-IOT-STACK/api/oc_knx_fp.c:740-778 | deleting forgets one id and nothing else |
| GroupObjects.SlotsChangeOnlyWhenLoading | KNX-IOT-STACK/api/oc_knx_fp.c:525-529 | slots and records change only by requests in the LOADING state or by UNLOAD, which leaves every slot empty in memory and in storage |
| GroupObjects.StepKeepsSound | KNX-IOT-STACK/api/oc_knx_fp.c:471-675 | every request, load event and restart keeps each slot and its record in step |
| GroupObjects.EveryTableIsSound | KNX-IOT-STACK/api/oc_knx_fp.c:511-778 | in every reachable state used ids are non-negative and pairwise distinct, and every used slot has a group address and a flag |
| GroupObjects.SlotReloads | KNX-IOT-STACK/api/oc_knx_fp.c:1834-1944 | a slot loads back as it is exactly if its record can be read whole and its href has no NUL |
| GroupObjects.ReloadRebuildsTable | KNX-IOT-STACK/api/oc_knx_fp.c:1834-1955 | in every reachable state, loading rebuilds the table that was in memory if and only if every slot fits the 1024 bytes its record is read into (it is written from a larger buffer) |
| GroupObjects.LargeEntryIsLost | KNX-IOT-STACK/api/oc_knx_fp.c:1874-1890 | one accepted request with 250 group addresses whose entry is gone after a restart |
| GroupRequests.PostedText | KNX-IOT-STACK/api/oc_knx_fp.c:511-675 | what a request with an id does while loading, read off its pairs: which slot it is about, what the slot would hold, and that it is stored exactly if more than the id is given, nothing is missing of a new entry, and there are a group, a flag and an href of at most thirty characters that belongs to a resource; status and record likewise |
| GroupRequests.RefusedText | KNX-IOT-STACK/api/oc_knx_fp.c:525-567 | outside of loading, and without a non-negative id, a request changes nothing |
| GroupRequests.DeletedText | KNX-IOT-STACK/api/oc_knx_fp.c:740-778 | deleting frees the slot of the id and writes the free slot as its record, and touches no other |
| GroupRequests.UnloadedText | KNX-IOT-STACK/api/oc_knx_fp.c:1980-1988 | "unload" frees every slot and erases the records of the slots, and no others |
| GroupRequests.RestartedText | KNX-IOT-STACK/api/oc_knx_fp.c:1870-1955 | after a restart a slot holds its record if that has at most 1024 bytes, and is free otherwise |
| GroupRequests.LoadStateIs | KNX-IOT-STACK/api/oc_knx.c:390-413 | over every run: the load state is what the last "start loading", "load complete" or "unload" made it |
| GroupRequests.LoadedOnlyByCompletion | KNX-IOT-STACK/api/oc_knx.c:390-413 | a fresh table is loaded after exactly the runs with a "load complete" and no "start loading" or "unload" since |
| GroupRequests.EveryHrefIsGood | KNX-IOT-STACK/api/oc_knx_fp.c:471-509 | over every run: each used slot has an href of at most thirty characters that a check found to name a resource, or all before the first NUL of one |
| GroupRequests.BelongsMeans | KNX-IOT-STACK/api/oc_knx_fp.c:353-372 | an href belongs if it is the beginning of the uri of a discoverable resource, as far as a NUL and leading slashes aside |
| GroupRequests.EveryHrefBeginsResource | KNX-IOT-STACK/api/oc_knx_fp.c:491-496 | over every run that is checked against the same resources, each used slot has such an href |
| GroupRecords.RecordReadsBack | KNX-IOT-STACK/api/oc_knx_fp.c:1843-1861 | a record, written as the CBOR map it is, reads back as its entry |
| GroupRecords.RecordSizeIsLength | KNX-IOT-STACK/api/oc_knx_fp.c:1861-1865 | the size that decides about writing and reading is the length of that record |
| GroupRecords.CutRecordIsNone | KNX-IOT-STACK/api/oc_knx_fp.c:1886-1892 | no proper beginning of a record is a record |
| GroupRecords.LoadedIsDecoded | KNX-IOT-STACK/api/oc_knx_fp.c:1872-1944 | what a slot is loaded with is what its record says, read through 1024 bytes |
| GroupRecords.SurvivesIfShort | KNX-IOT-STACK/api/oc_knx_fp.c:1834-1944 | a slot outlives a restart if and only if its record, written out, has at most 1024 bytes and its href has no NUL |
| GroupTable.Table.FindIndex | KNX-IOT-STACK/api/oc_knx_fp.c:195-204 | the first slot with the id |
| GroupTable.Table.Fill | KNX-IOT-STACK/api/oc_knx_fp.c:572-647 | the walk over the pairs, field by field in the slot |
| GroupTable.Table.CheckAndSave | KNX-IOT-STACK/api/oc_knx_fp.c:471-509 | saved exactly if there are a group, a flag and an href of at most thirty characters that belongs to a resource; else erased and the empty slot saved |
| GroupTable.Table.Post | KNX-IOT-STACK/api/oc_knx_fp.c:511-675 | status, slots and records of the whole handler |
| GroupTable.Table.Delete | KNX-IOT-STACK/api/oc_knx_fp.c:740-778 | status, slots and records |
| GroupTable.Table.EraseAll | KNX-IOT-STACK/api/oc_knx_fp.c:1980-1988 | every slot and its record |
| GroupTable.Table.HandleEvent | KNX-IOT-STACK/api/oc_knx.c:390-413 | load state, slots and records, and which events are known |
| GroupTable.Table.LoadAll | KNX-IOT-STACK/api/oc_knx_fp.c:2507-2508 | slots from records at start |
| GroupDispatch.SumIsUnion | KNX-IOT-STACK/api/oc_knx_fp.c:598-620 | the codes of a flag list are added up, so the list means the union of its flags if and only if no code is given twice |
| GroupDispatch.FlagsMean | KNX-IOT-STACK/api/oc_knx_fp.c:598-620 | then each flag is set exactly if its code occurs: 1 read, 2 write, 3 transmission, 4 update, 5 init |
| GroupDispatch.TwiceReadIsWrite | KNX-IOT-STACK/api/oc_knx_fp.c:598-620 | a list whose repeated read code comes out as the write flag |
| GroupDispatch.SearchVisitsHolders | KNX-IOT-STACK/api/oc_knx_fp.c:206-243 | first and next searches visit exactly the used entries that hold the address, ascending, once each, and end |
| GroupDispatch.FindIndex | KNX-IOT-STACK/api/oc_knx_fp.c:206-221 | the first holder of an address |
| GroupDispatch.FindNextIndex | KNX-IOT-STACK/api/oc_knx_fp.c:223-243 | the next one |
| GroupDispatch.Receive | KNX-IOT-STACK/api/oc_knx.c:792-943 | the loop over the holders of the address, with its early end |
| GroupDispatch.ReceivedPuts | KNX-IOT-STACK/api/oc_knx.c:792-943 | put handlers are called only in runtime state, of each entry at most once, in table order, and of exactly the entries that have the write (or update) flag and come before the first holder whose href names no resource |
| GroupDispatch.ReceivedDoes | KNX-IOT-STACK/api/oc_knx.c:848-943 | all effects of a message and their causes: values taken are sent on exactly by transmitting entries; a read request fetches and sends the value of exactly the entries with the read flag |
| GroupDispatch.AllTakersServed | KNX-IOT-STACK/api/oc_knx.c:848-857 | all entries that are to take a value get it if and only if none of them comes after a holder whose href names no resource |
| GroupDispatch.AcceptedHrefStopsDispatch | KNX-IOT-STACK/api/oc_knx_fp.c:491-496 | every href that is a proper beginning of a resource's uri is accepted when stored, because the check compares only its own length, and later starves the entry of that resource |
| GroupSending.Issue | KNX-IOT-STACK/api/oc_knx_client.c:696-873 | messages and own updates of a change, in order |
| GroupSending.IssuedIs | KNX-IOT-STACK/api/oc_knx_client.c:763-872 | exactly one message per transmitting entry of the resource, to the group of its first address, and for reports an update of exactly the other entries that hold one of its addresses and take writes |
| GroupSending.MessagesAreSenders | KNX-IOT-STACK/api/oc_knx_client.c:763-872 | as many messages as entries that may transmit and have an address |
| GroupMessages.ReceivedText | KNX-IOT-STACK/api/oc_knx.c:792-943 | everything a received message does, by its text and the flag bits: "w" stores into the entries with bit 16, "a" and "rp" into those with bit 128, and on from those with bit 64; "r" is answered by those with bit 8; any other text, and a device out of runtime, do nothing |
| GroupMessages.ReceivedOrder | KNX-IOT-STACK/api/oc_knx.c:848-943 | put handlers are called in table order, once for each entry at most |
| GroupMessages.ReceivedSequence | KNX-IOT-STACK/api/oc_knx.c:848-943 | the searches by address do what a walk over all slots would, effect by effect and in that order, up to a holder whose href names no resource |
| GroupMessages.IssuedText | KNX-IOT-STACK/api/oc_knx_client.c:696-873 | everything a change sends and updates, by the text, the flag bits, the href and the first group with an address |
| GroupMessages.IssuedCount | KNX-IOT-STACK/api/oc_knx_client.c:763-872 | one message for each entry with the href that transmits and has an address |
| GroupMessages.IssuedSequence | KNX-IOT-STACK/api/oc_knx_client.c:763-872 | messages and updates one by one, in the order of slots and addresses |
| GroupMessages.OnlyLoadedReceives | KNX-IOT-STACK/api/oc_knx.c:1740-1755 | over every run of requests, load events and restarts: a message has effects only with an address, an installation and a completed loading that was not started again or undone |
| GroupMulticast.AddressIsInjective | KNX-IOT-STACK/api/oc_knx_fp.c:2577-2629 | two groups share an endpoint if and only if number, low 40 bits of the installation, scope and port agree |
| GroupMulticast.Register | KNX-IOT-STACK/api/oc_knx_fp.c:2731-2810 | the endpoints subscribed to are exactly those of the receiving entries the registration reaches |
| GroupMulticast.SenderMeetsReceiver | KNX-IOT-STACK/api/oc_knx_client.c:837-847 | a message in scope 2 or 5 reaches a device if and only if it is of the same installation, uses the CoAP port and listens for the number the sender resolves the address to |
| GroupMulticast.WriteArrives | KNX-IOT-STACK/api/oc_knx_client.c:837-847 | end to end: a write sent for a resource is heard by a device that resolves the address alike, and calls the put handler of its entry |
| GroupAddresses.AddressLayout | KNX-IOT-STACK/api/oc_knx_fp.c:2577-2629 | the sixteen octets of a group address: ff3x:30:fd, the low forty bits of the installation, two zeros and the number |
| GroupAddresses.SubscribedText | KNX-IOT-STACK/api/oc_knx_fp.c:2731-2810 | the endpoints subscribed to, by flag bits, tables and address |
| GroupAddresses.HeardText | KNX-IOT-STACK/api/oc_knx_client.c:837-847 | who hears a message for a group address, by tables, forty bits of the installation and port 5683 |
| LinkFormat.Response.AddResource | KNX-IOT-STACK/api/oc_discovery.c:44-152 | one framed link, after a comma and a newline if it is not the first |
| LinkFormat.Respond | KNX-IOT-STACK/api/oc_discovery.c:44-152 | the framed links of all resources with a uri, joined |
| LinkFormat.NumberOfEntries | KNX-IOT-STACK/api/oc_client_api.c:749-780 | the count, on every text |
| LinkFormat.GetLine | KNX-IOT-STACK/api/oc_client_api.c:782-835 | where a line begins and how long it is, on every text |
| LinkReading.LineWithin | KNX-IOT-STACK/api/oc_client_api.c:782-835 | a line is always a part of the payload, even on malformed text |
| LinkReading.NumberIsRight | KNX-IOT-STACK/api/oc_client_api.c:749-780 | joined lines are counted right if and only if there are none or the payload has at least five characters |
| LinkReading.LineIsRight | KNX-IOT-STACK/api/oc_client_api.c:782-835 | every line comes back as it was framed |
| LinkReading.EntryUri | KNX-IOT-STACK/api/oc_client_api.c:837-863 | the slice that is returned, on every text |
| LinkReading.UriIsRight | KNX-IOT-STACK/api/oc_client_api.c:837-863 | the uri of a framed line comes back |
| LinkReading.UriWithinIff | KNX-IOT-STACK/api/oc_client_api.c:837-863 | on every line, malformed or not: the uri is a part of it if and only if no `<` is left without a `>` |
| LinkReading.NoClosingBracket | KNX-IOT-STACK/api/oc_client_api.c:847-859 | a line whose uri has the length -1 |
| LinkReading.EntryParam | KNX-IOT-STACK/api/oc_client_api.c:865-910 | the slice that is returned, on every text |
| LinkReading.ValueIsRight | KNX-IOT-STACK/api/oc_client_api.c:865-910 | the value of the first attribute with the name comes back, with the semicolon after it if that is the last character of the line |
| LinkReading.ParamWithinIff | KNX-IOT-STACK/api/oc_client_api.c:865-910 | on every line and for every name: the value is a part of the line if and only if no semicolon but the last character stands within the name or at the equals sign |
| LinkReading.NoEqualsSign | KNX-IOT-STACK/api/oc_client_api.c:889-902 | a line whose value has the length -1 |
| LinkReading.TypesAreSpaced | KNX-IOT-STACK/api/oc_discovery.c:97-131 | resource types are framed whole or without their urn, with one space between each two |
| LinkReading.LinkReadsBack | KNX-IOT-STACK/api/oc_client_api.c:837-910 | a framed link gives back uri and content type always, resource types and interfaces if and only if something follows them |
| LinkReading.ResponseReadsBack | KNX-IOT-STACK/api/oc_discovery.c:44-152 | a whole response gives back as many entries as links and each line as framed; only a lone bare link with a one-character uri does not |
| LinkText.FramedIsText | KNX-IOT-STACK/api/oc_discovery.c:44-152 | the text of every framed link whose types are not empty, written out |
| LinkText.BeyondIsWhole | KNX-IOT-STACK/api/oc_client_api.c:782-835 | for an entry that the payload does not have, all of it is read |
| HandshakeThrottle.FailuresAreThrottled | KNX-IOT-STACK/api/oc_knx.c:1263-1303 | with at most m handshakes open at a time the count never exceeds 10 + m (11 for one), blocking means a positive count and fewer than m open handshakes, and failures in any stretch exceed its ticks by at most 10 + m |
| HandshakeThrottle.BoundIsReached | KNX-IOT-STACK/api/oc_knx.c:1282-1296 | that bound is reached |
| HandshakeThrottle.UnblocksAfterCountTicks | KNX-IOT-STACK/api/oc_knx.c:1263-1303 | while blocked with no handshake open nobody is admitted, and the device unblocks after exactly as many ticks as the count |
| HandshakeThrottle.BlockedAccounts | KNX-IOT-STACK/api/oc_knx.c:1263-1303 | while blocked the count is what it was, less the ticks, plus the failures, and every outcome is of a handshake that was open before |
| HandshakeThrottle.UnblocksBetween | KNX-IOT-STACK/api/oc_knx.c:1263-1303 | from any blocked state the device is blocked for at least as many ticks as the count, and at most as many more as handshakes are open |
| HandshakeThrottle.BoundsAreMet | KNX-IOT-STACK/api/oc_knx.c:1263-1303 | both bounds are met |
| HandshakeThrottle.BlockedForCountTicks | KNX-IOT-STACK/api/oc_knx.c:1263-1303 | one handshake at a time: in every state reached from the start, a blocking device has none open and stays blocked for exactly as many ticks as the count |
| HandshakeThrottle.Throttle.IsBlocked | KNX-IOT-STACK/api/oc_knx.c:1282-1296 | the verdict, and the blocking it may start |
| HandshakeThrottle.Throttle.Increment | KNX-IOT-STACK/api/oc_knx.c:1276-1280 | one failed handshake |
| HandshakeThrottle.Throttle.Decrement | KNX-IOT-STACK/api/oc_knx.c:1263-1274 | one tick |
| HandshakeThrottle.Throttle.SecondsUntilUnblocked | KNX-IOT-STACK/api/oc_knx.c:1299-1303 | of a blocking device, with ten seconds a tick: it is blocked for as long as the reported seconds, and at most ten more for each open handshake |
| NumberText.TextIsOnly | KNX-IOT-STACK/api/oc_helpers.c:294-364 | digits without leading zero are the only text that denotes a number |
| NumberText.TextDenotes | KNX-IOT-STACK/api/oc_helpers.c:294-364 | that text has digits of the base only, the number as its value and no leading zero |
| NumberText.DigitsAre | KNX-IOT-STACK/api/oc_helpers.c:294-431 | digits by their place in the alphabet: printed in lower case, read in either |
| NumberText.ToDecimal | KNX-IOT-STACK/api/oc_helpers.c:294-320 | prints every 64-bit number so, within 21 characters |
| NumberText.ToHex | KNX-IOT-STACK/api/oc_helpers.c:338-364 | prints every 64-bit number so in base 16, within 17 characters |
| NumberText.ToHexString | KNX-IOT-STACK/api/oc_helpers.c:366-386 | two digits a byte and a NUL, or a refusal that changes nothing |
| NumberText.ScannedIsWhole | KNX-IOT-STACK/api/oc_helpers.c:408-428 | a text is read to its end if and only if every pair, and the single character of an odd text, begins with a digit |
| NumberText.ScannedIsBytes | KNX-IOT-STACK/api/oc_helpers.c:408-428 | hexadecimal text is read two digits a byte, an odd text as if a zero came first |
| NumberText.ToBytes | KNX-IOT-STACK/api/oc_helpers.c:388-431 | refuses empty text and too little room; otherwise stores what is read up to the first pair that does not begin with a digit, and says whether that was all |
| NumberText.HexRoundTrip | KNX-IOT-STACK/api/oc_helpers.c:366-431 | bytes survive the way into text and back |
| NumberText.BytesRoundTrip | KNX-IOT-STACK/api/oc_helpers.c:366-431 | even text in lower-case digits survives the way into bytes and back |

## Left out

- Platform parameters: the value of `1 << 32`, the clock, the replay window setting, allocator results, the `%f` text and which hrefs name a resource are parameters, so every claim holds for all of them.
- The message cache in `oc_replay.c` lines 261 to 337, the message pool, OSCORE and SPAKE2+ arithmetic, the CoAP engine, and tinycbor but for the records of the group object table.
- `ReplayRuns`: memory for KID and context strings is taken as always available.
- JSON: arrays of strings with a NUL inside (the source copies by string length out of memory it did not initialise), empty object arrays (the source dereferences a null pointer), `py_oc_rep_to_json`, and 64-bit logging variants. Names and strings are printed unescaped; those with a quote or a backslash are set apart in `DocumentIsJson`. Whether bytes above 127 are UTF-8, and the texts of infinite and undefined floating point numbers, are not part of this model.
- JsonWriter.Format: requires every byte string that is looked up to be found, because the source leaves its size unset otherwise; so do the writers around it.
- Base64.Encode: requires a byte of memory for an empty input, because the source writes a NUL there without looking at the room.
- Ipv6Parser.ParseIpv6: requires the condition of `LoopEndsIff`, without which the source's loop does not end and there is no result to speak of.
- IPv6 text: white space, signs and overflow in the port number as `strtoul` takes them, the separate uri result, and TCP, IPv4 and DNS variants.
- Block-wise transfer: wrap-around of 32-bit offset sums beyond the buffer sizes in use, and which requests the CoAP engine sends.
- BlockBuffers: callbacks of timers other than the two timeouts are taken not to touch block-wise buffers; a restarted timer does not expire again within the same poll; lists of observe callbacks.
- GroupObjects: request maps have no integer key twice, and a request has at most one object; later objects of a longer request skip validation in the source. The accept header, the fingerprint, memory exhaustion and the factory resets, which erase the table as UNLOAD does, are not part of this model.
- GroupObjects: the erase, write and read calls of the storage port are taken to succeed, and tinycbor to write and read maps as RFC 8949 has them.
- Recipient and publisher tables: only group number and addresses; their handlers, and requests to brokers, whose table search has a loop bound that is not the intended one.
- GroupDispatch.Receive: starts from the notification already read out of the payload; handlers it calls are taken to leave the table alone; the gateway callback, observers and the response are not part of this model.
- GroupMulticast.Register: requires a publisher table with a group number in it to be no longer than the group object table, since the source then indexes the latter with the size of the former.
- Link format: the texts of interface masks and content types are taken as given, and uris and attribute values have no comma, semicolon or angle bracket.
- NumberText.ToBytes: takes text without white space, signs and x, which `sscanf` skips or reads in ways of its own.
- HandshakeThrottle: outcomes belong to admitted handshakes; the time within a tick is not modelled, so seconds are exact up to one tick of ten.
- Other resource handlers (`/auth/at`, `/swu`, `/dev`, `/fp/gm`), logging and printing.
- GroupRecords.RecordReadsBack: for entries whose numbers fit 64 bits and whose href has octets for characters, as all have that come out of the parser.
