# Verification of Veilgate's engines

Veilgate is an intercepting egress proxy: it lets clients use placeholders instead of secrets, puts the
real values in on the way out and takes them out again on the way back. This project models the parts of it
in which a subtle mistake would go unnoticed for longest, and proves what they are for.

- **Secret matching** (`NeedleTrie`, `MaskedValue`, `MatchReference`, `MatcherRefinement`, `Scrubber`,
  `ScrubCoverage`, `ScrubText`, `StreamScrub`, `SecretBroker`). The mutable byte trie, the scan over it and the
  detector of masked values compute what the naive oracle of the repository's own tests describes, for every
  input; no occurrence of a value in scope is copied, and nothing is reported where none starts; text stays text;
  scrubbing record by record is scrubbing the whole stream; and the broker's construction checks what all of this
  rests on.
- **WebSocket** (`WsFrames`, `WsRoundTrip`, `WsRelay`, `WsConversation`, `WsMediation`, `WsLegality`), after RFC 6455.
  Frame writer and frame reader are inverse to each other in both directions. The relay forwards a conversation, however it is
  cut into fragments, and what it accepts is always a conversation; each frame it sends is what mediation lets
  this very message pass as, so no secret reaches the client in a binary one and no placeholder leaves outside
  text; what it sends is legal for the receiver exactly where mediation keeps payloads what they are, and always
  with a broker of text secrets.
- **OAuth tokens** (`OAuthTokens`, `OAuthFile`, `OAuthOrder`, `OAuthBroker`, `OAuthScope`, `OAuthPersistence`). The two maps
  mirror each other over every run of token responses and across save and load, and the live placeholders stand for
  exactly what the responses granted. A token goes only where the definition's own hosts allow, compared label by
  label. Under any interleaving of concurrent rotations the auth file never goes back to an older version.
- **Handler lifecycle** (`FlowRecorder`, `TransportPool`, `TransportTraffic`). The flow queue and its shutdown are a
  transition system over all interleavings, and shutdown ends; the transport cache is a heap object whose every
  critical section keeps counts, bounds and the draining list exact, and over any run of its users every
  acquisition is given back by its owner, at most once, and by the time everyone is done exactly once.
- **Bounded stores** (`FlowLog`, `FlowStore`, `FlowPages`, `LeafCache`). The ring buffer, the batch-trimmed table,
  keyset pages while flows keep arriving, and the leaf certificate cache under an arbitrary clock.
- **Two transformations** (`RuleExpansion` with `HostPattern`, `PrettyJson`, `PrettyLayout`). Expanding rules keeps
  their meaning, which is told in labels of hosts and segments of paths; the JSON formatter changes layout only, and
  its output is the only text with that content that follows the layout rules, also where text is cut anywhere.

Code that changes things in place is modelled with classes, arrays and loops, each proved against a
specification function; lemmas about those functions say what they are for. Byte strings are `seq<byte>`.
Random material, clocks, map iteration order, the process environment and library calls (compression, Unicode
tables, encoders, glob matching) are parameters, so every statement holds for all their values.
`dafny verify dfyconfig.toml` checks the whole project.

## What turned out differently

- A cached leaf certificate can be returned with slightly less than five minutes left: the cache compares times with
  fractions of a second, but the certificate's own end is encoded in whole seconds. `LeafCache.MarginCanFallShort`
  gives an input and `LeafCache.MarginHolds` the exact condition; a leaf just issued is never short
  (`LeafCache.NewLeafHasMargin`).
- The scan for the oldest cached certificate uses the empty name for "none yet". `LeafCache.OutgrowsExactly` says
  exactly when the cache could outgrow its bound because of that: only if it held a certificate for the empty host.
  The proxy never asks for one: it requires a valid host name first (internal/config/config.go:239), and a valid
  host name is not empty (`HostPattern.ValidHostChars`). The bound therefore holds for every host that gets there.
- A record of an event stream does not always end at a blank line, because only the last slice of a line is looked at.
  A line ends the record exactly if nothing, or just a carriage return, is left of it after taking away full read
  buffers (`StreamScrub.EventEndsExactly`). The result of scrubbing is not affected.
- An OAuth credential that is exactly a placeholder, and may be carried where it goes, does not always become its
  token. `OAuthBroker.TokenCanHoldPlaceholder` gives a state and a request; `OAuthBroker.ExactlyTheToken` says that
  it becomes the token exactly unless that contains a shorter live placeholder or looks like one.

## Model

| member | source | states |
|---|---|---|
| Bytes.XorBitsAre | internal/proxy/websocket.go:432-436 | Each bit of the exclusive or of two numbers is set exactly if it is set in one of them and not in the other. |
| Bytes.XorIs | internal/proxy/websocket.go:432-436 | The same for every bit of two bytes. |
| Bytes.XorTwice | internal/proxy/websocket.go:432-436 | Combining a byte with the same key byte twice gives the byte back. |
| Utf8.DecodeEncoded | internal/secret/transform.go:364-371 | A rune encoded at the start of any text is decoded from it again, with the width it was encoded in. |
| Utf8.EncodedIsValid | internal/secret/broker.go:146-149 | Encoded text is well-formed UTF-8. |
| Utf8.EncodedLineBreaks | internal/secret/broker.go:106-108 | The bytes of a text contain a line break exactly if the text does. |
| Utf8.ValidConcat | internal/proxy/websocket.go:350-352 | Text in front of bytes makes text exactly if the bytes are text. |
| Utf8.ValidFrom | internal/proxy/websocket.go:350-352 | Text is text from every byte on that starts a rune. |
| Utf8.DecodedIsEncoded | internal/secret/transform.go:364-371 | What is decoded without error is the encoding of a scalar value: no surrogate, none beyond the range, none in a longer form than needed. |
| Utf8.ValidIsEncoded | internal/proxy/websocket.go:350-352 | Bytes are text exactly if they are what some string encodes to. |
| HostPattern.ValidHostChars | internal/hostpattern/hostpattern.go:24-44 | A valid host is not empty, has only lower-case letters, digits, hyphens and dots, and no dot at its end. |
| HostPattern.ValidIs | internal/hostpattern/hostpattern.go:23-44 | A host is valid exactly if it has at most 253 lower-case letters, digits, hyphens and dots, no dot or hyphen at either end or next to a dot, and a dot among any 64 characters in a row. |
| HostPattern.SplitJoins | internal/hostpattern/hostpattern.go:33-33 | The labels of a host, joined with dots, are the host, and none holds a dot. |
| HostPattern.JoinSplits | internal/hostpattern/hostpattern.go:33-33 | Labels without dots are what their join splits into. |
| HostPattern.NormalizeIs | internal/hostpattern/hostpattern.go:9-21 | A pattern normalizes to a text exactly if that is a valid host, bare or behind a leftmost wildcard, which the pattern spells in any case, white space around it and one dot at its end aside. |
| HostPattern.MatchesOneIs | internal/hostpattern/hostpattern.go:46-59 | A bare pattern matches exactly the hosts with the same labels; a wildcard exactly those whose labels end in its own and are more in number; both up to case and one dot at the end. |
| HostPattern.MatchesIs | internal/hostpattern/hostpattern.go:46-59 | Patterns match a host exactly if its labels fit one of them. |
| HostPattern.MatchesLowered | internal/config/rules.go:152-172 | Where a caller drops a dot and lowers before matching, as rules and token hosts do, exactly the hosts fit whose labels do up to two dots at the end. |
| HostPattern.ToLowerIs | internal/proxy/transport.go:64-71 | Two texts have the same lower case exactly if they agree letter by letter up to case. |
| HostPattern.CanonicalStays | internal/hostpattern/hostpattern.go:10-21 | A valid host, bare or behind a leftmost wildcard, is its own canonical form. |
| HostPattern.NormalizeIdempotent | internal/hostpattern/hostpattern.go:10-21 | Normalizing a normalized pattern changes nothing. |
| SecretPolicy.ScopeFor | internal/secret/transform.go:166-172 | The scope says for each secret whether this client may use it at this host. |
| SecretPolicy.InScopeIs | internal/secret/transform.go:166-172 | A secret is in scope exactly for its own clients, at hosts whose labels fit one of its allowed patterns. |
| SecretPolicy.NeedlesBelong | internal/secret/matcher.go:61-76 | Every needle given to the trie is a representation of the value or the placeholder of the secret it names. |
| MaskedValue.MaskRunFrom | internal/secret/transform.go:363-371 | The loop finds the end and the number of runes of the maximal mask run from an offset. |
| MaskedValue.SuffixAt | internal/secret/transform.go:375-379 | The loop finds the value's longest suffix of allowed length that the rest starts with. |
| MaskedValue.MaskedSecretLength | internal/secret/transform.go:354-382 | The nested loops compute the length of the preferred masked rendering, or zero. |
| MaskedValue.MaskedLengthMeaning | internal/secret/transform.go:354-382 | The length is positive exactly if data starts with a masked rendering: 4 to 16 bytes of the value's start, a maximal run of at least 3 masks, 4 to 8 bytes of its end, not overlapping; and it is that of the longest such prefix and then the longest suffix. |
| MaskedValue.RenderingIs | internal/secret/transform.go:354-382 | A rendering is, byte by byte: 4 to 16 bytes of the value's start, at least three mask characters, 4 to 8 bytes of its end that do not overlap the start, and no further mask character right behind the masks. |
| MaskedValue.MaskRunIs | internal/secret/transform.go:363-371 | The run from an offset is that many asterisks, hashes, letters x or bullets, and none follows it. |
| MaskedValue.PrefilterLosesNothing | internal/secret/matcher.go:71-73 | Whatever has a rendering at the start of data shares its first four bytes with it and is at least eight bytes long, so the trie's prefilter drops no match. |
| MaskedValue.MaskRuneBytes | internal/secret/transform.go:364-371 | A mask rune is one of four ASCII bytes or the three bytes of the bullet, whatever surrounds it. |
| MaskedValue.MaskRunStops | internal/secret/transform.go:363-371 | A run of masks ends at or before the next line feed. |
| MaskedValue.MaskRunExtends | internal/secret/transform.go:363-371 | Data after a line feed does not change the run before it. |
| MatchReference.InsertKeeps | internal/secret/matcher_reference_test.go:28-29 | Inserting a needle keeps the list in descending order of length and adds just that needle. |
| MatchReference.StableSortSorts | internal/secret/matcher_reference_test.go:28-29 | The oracle's sort is a permutation of the needles in descending order of length. |
| MatchReference.FirstPrefix | internal/secret/matcher_reference_test.go:35-43 | The needle chosen starts data and is not empty; if none is chosen, none does. |
| NeedleTrie.TrieNode.Child | internal/secret/matcher.go:37-44 | Finds the node the edge with this symbol leads to, if there is one. |
| NeedleTrie.TrieNode.FirstRef | internal/secret/matcher.go:124-132 | Finds the first reference of the node that the kinds and the scope accept. |
| NeedleTrie.Trie.constructor | internal/secret/matcher.go:61-62 | A new trie is a valid tree without needles. |
| NeedleTrie.Trie.Grow | internal/secret/matcher.go:84-90 | Hanging a new leaf under a node keeps the graph a tree with distinct sibling symbols, each node at its own path. |
| NeedleTrie.Trie.Plant | internal/secret/matcher.go:79-83 | Putting a new node into the root table keeps it too. |
| NeedleTrie.Trie.WalkTo | internal/secret/matcher.go:78-93 | Returns the node whose path is the needle; exactly the missing beginnings of the needle get a node, and no node moves. |
| NeedleTrie.Trie.Add | internal/secret/matcher.go:95-101 | Every node's references stay exactly the needles equal to its path in insertion order, now with this one. |
| NeedleTrie.Trie.AddMaskedPrefix | internal/secret/matcher.go:106-109 | Every node's candidates stay exactly the secrets whose four-byte prefix is its path, now with this one. |
| NeedleTrie.EdgeAdded | internal/secret/matcher.go:84-90 | One more edge leads to the new node, all others lead where they led, and siblings stay distinct. |
| NeedleTrie.Grown | internal/secret/matcher.go:84-90 | A new leaf keeps the tree closed, rooted and complete, and nothing is recorded at its path yet. |
| NeedleTrie.Planted | internal/secret/matcher.go:79-83 | The same for a new node of depth one. |
| NeedleTrie.Trie.NothingBelow | internal/secret/matcher.go:133-140 | Where the walk finds no node, no longer path has one. |
| NeedleTrie.Trie.WalkEnds | internal/secret/matcher.go:133-140 | Stopping there misses no needle and no masked candidate. |
| NeedleTrie.Trie.MaskedDepth | internal/secret/matcher.go:103-109 | Masked candidates sit only at depth four. |
| NeedleTrie.Trie.NodesAreBeginnings | internal/secret/matcher.go:61-101 | A trie built by adding has a node for exactly the beginnings of needles and masked prefixes. |
| NeedleTrie.Trie.Longest | internal/secret/matcher.go:115-142 | One walk returns the longest acceptable needle that data starts with, the first inserted among equal ones, and the candidates at the four-byte prefix. |
| MatcherRefinement.LongestIsWinner | internal/secret/matcher.go:115-142 | The walk finds what scanning every needle in insertion order finds. |
| MatcherRefinement.SortedFirstIsWinner | internal/secret/matcher_reference_test.go:28-46 | The first match of the sorted list is the first longest match of the unsorted one. |
| MatcherRefinement.SameWinner | internal/secret/matcher.go:61-76 | Over the secrets in order the trie's needles and the oracle's list have the same winner, for the same secret. |
| MatcherRefinement.LongestAgrees | internal/secret/matcher_reference_test.go:168-197 | At every offset, for every scope and both uses, trie and oracle pick the same needle. |
| MatcherRefinement.CandidatesIncrease | internal/secret/matcher.go:103-109 | The masked candidates of a node are in strictly increasing order of secret. |
| MatcherRefinement.MaskedAgrees | internal/secret/transform.go:178-188 | Asking only the candidates passed on the walk gives the first secret in scope with a masked rendering, as asking all of them does. |
| MatcherRefinement.NothingMaskedInShort | internal/secret/transform.go:354-382 | Fewer than four bytes start no masked rendering. |
| Scrubber.NewNeedleTrie | internal/secret/matcher.go:61-76 | The trie built holds every representation of every value and placeholder and every masked prefix, in order, is a valid tree and has no node in vain. |
| Scrubber.Broker.MaskedAt | internal/secret/transform.go:178-188 | The loop finds the first permitted candidate with a masked rendering. |
| Scrubber.Broker.ScrubStep | internal/secret/transform.go:143-156 | What is replaced at one offset, and for which secret, is the oracle's step. |
| Scrubber.Broker.Scrub | internal/secret/transform.go:135-161 | For all secrets, clients, hosts and inputs the single pass returns the bytes and the names the naive oracle returns. |
| Scrubber.Broker.Sanitize | internal/secret/transform.go:192-212 | For all inputs it returns what the naive oracle returns over all values and placeholders. |
| ScrubCoverage.ScrubRecovers | internal/secret/transform.go:143-160 | The input is cut into copied and replaced stretches; putting each replaced one back gives the input, putting its placeholder there the output. |
| ScrubCoverage.OccurrencesAreCovered | internal/secret/transform.go:143-160 | Every occurrence in the input of a representation of a secret in scope, or of a masked rendering of it, starts in a replaced stretch. |
| ScrubCoverage.ReplacementsAreJustified | internal/secret/transform.go:143-160 | Only representations and masked renderings of secrets in scope are replaced, by that secret's own placeholder. |
| ScrubCoverage.NoNamesIsFree | internal/secret/transform.go:135-161 | Scrubbing finds no name exactly if no representation and no masked rendering of a value in scope starts anywhere in the data; then the data is unchanged. |
| ScrubCoverage.SortedScrubNeedlesAre | internal/secret/matcher_reference_test.go:64-79 | The oracle's needles are exactly the representations of the secrets in scope. |
| ScrubCoverage.SanitizeRecovers | internal/secret/transform.go:192-212 | Sanitizing cuts its input in the same way; putting each replaced stretch back gives the input, putting its marker there the output. |
| ScrubCoverage.SanitizeCovers | internal/secret/transform.go:192-212 | Every occurrence in the input of a representation of any secret's value or placeholder starts in a replaced stretch. |
| ScrubCoverage.SanitizeIsJustified | internal/secret/transform.go:192-212 | Only such representations are replaced, each by the marker of its own secret. |
| ScrubText.MaskedEndsText | internal/secret/transform.go:354-382 | In text, a masked rendering of a value that is text ends where a rune ends, although it may show only parts of runes. |
| ScrubText.ScrubKeepsText | internal/secret/transform.go:135-161 | Where the values in scope and their placeholders are text, the scrub of text is text. |
| ScrubText.SanitizeKeepsText | internal/secret/transform.go:192-212 | The same for sanitizing. |
| ScrubText.ScrubBehindTwo | internal/secret/transform.go:135-161 | Text behind two other bytes, as in a close payload, stays text behind two bytes, if what is looked for is not too short. |
| StreamScrub.RewriteConcat | internal/proxy/streaming.go:202-228 | No needle without a line feed and no masked rendering crosses a line break, so rewriting distributes over it. |
| StreamScrub.ScrubConcat | internal/proxy/streaming.go:202-228 | Scrubbing a stream cut after a line break is scrubbing both parts, in bytes and in names. |
| StreamScrub.LineReader.ReadSlice | internal/proxy/streaming.go:120-124 | A read returns the next bytes up to a line feed, a full buffer, or what is left. |
| StreamScrub.ReadStreamingRecord | internal/proxy/streaming.go:120-142 | The loop returns the next record if it fits the limit, or the reason there is none, and has then consumed exactly that record. |
| StreamScrub.ReadableIsAll | internal/proxy/streaming.go:202-228 | A stream that does not break off can be read to its end exactly if every record fits. |
| StreamScrub.StreamResponseBody | internal/proxy/streaming.go:180-234 | What is written is the scrub of everything readable in whole records, in bytes and names, or its beginning if a write, a flush or closing the encoder fails, which is reported exactly when it happens; otherwise the reason reading stopped is; it succeeds exactly if nothing fails, the stream does not break off and every record fits, and then the result is the scrub of the whole stream. |
| StreamScrub.PlainRecordIsOneLine | internal/proxy/streaming.go:120-142 | Outside event streams a record is one line, however the buffer cuts it. |
| StreamScrub.LineOfEvent | internal/proxy/streaming.go:120-142 | In an event stream a line ends the record if its last slice is blank, and otherwise the record goes on with what follows the line. |
| StreamScrub.EventEndsExactly | internal/proxy/streaming.go:137-140 | A line ends the record if and only if nothing, or just a carriage return, is left of it after taking away full buffers. |
| StreamScrub.FullBufferEndsEvent | internal/proxy/streaming.go:137-140 | So a line that is not blank but fills the buffer one or more times exactly ends the record, with or without a carriage return. |
| SecretBroker.RepresentationsAre | internal/secret/transform.go:327-352 | The representations are exactly the encodings that are not empty, each once. |
| SecretBroker.SecretRepresentations | internal/secret/transform.go:338-351 | The loop keeps the first occurrence of each encoding that is not empty. |
| SecretBroker.NormalizeHosts | internal/secret/broker.go:116-122 | Every allowed host is normalized, or the first invalid one is named. |
| SecretBroker.ResolveOne | internal/secret/broker.go:82-150 | A definition resolves exactly if it is in order and clashes with none before it; a complaint names something that is really wrong. |
| SecretBroker.Resolve | internal/secret/broker.go:75-151 | Resolution succeeds exactly if there are definitions and each fits after those before it; otherwise the fault is at the first that does not. |
| SecretBroker.New | internal/secret/broker.go:75-154 | The broker's trie holds exactly the resolved secrets. |
| SecretBroker.EachFitsIs | internal/secret/broker.go:88-141 | Checking each definition against the earlier ones rules out every clash of names, placeholders and values between any two, in either order. |
| SecretBroker.ResolvedSecretIs | internal/secret/broker.go:103-150 | A resolved value has 8 to 16384 bytes; values, placeholders and all representations are free of line breaks and not empty; allowed hosts are canonical. |
| SecretBroker.BrokerIsClean | internal/secret/broker.go:127-138 | A broker that was built meets the streaming proof's assumption, no value equals any placeholder, and names, values and placeholders are distinct. |
| SecretBroker.ResolvedIsText | internal/secret/broker.go:103-150 | Placeholders and markers are text; if a value is, so is all that is looked for, none of it short, provided encoders keep text. |
| SecretBroker.ValueEnvIs | internal/secret/broker.go:91-102 | A value is only ever read from a variable with the program's prefix: the one named, with the prefix put in front if it lacks it, or one named after the secret. |
| SecretBroker.PlaceholderSpellings | internal/secret/broker.go:82-90 | A placeholder written without a prefix, with the old one or with the new one is the same placeholder, under the new one. |
| WsFrames.MaskedTwice | internal/proxy/websocket.go:432-436 | Masking twice with the same key is the identity. |
| WsFrames.MaskedIs | internal/proxy/websocket.go:489-492 | Bit by bit, masking is the exclusive or of byte i with byte i mod 4 of the key; section 5.3 of RFC 6455. |
| WsFrames.ApplyMask | internal/proxy/websocket.go:489-492 | The in-place loop combines byte i with byte i mod 4 of the key. |
| WsFrames.BigEndianRead | internal/proxy/websocket.go:395-415 | A number that fits its width is read back from its big-endian bytes. |
| WsFrames.BigEndianWrite | internal/proxy/websocket.go:467-480 | Big-endian bytes are those of the number they spell, which fits their width. |
| WsFrames.BigEndianDigits | internal/proxy/websocket.go:467-480 | The last byte counts ones, and each byte before it counts 256 times as much. |
| WsFrames.PutLength | internal/proxy/websocket.go:467-480 | The header buffer holds the shortest form of the length. |
| WsFrames.PutHeader | internal/proxy/websocket.go:448-488 | The header buffer holds flags, opcode, mask bit, length and key as section 5.2 of RFC 6455 lays them out. |
| WsFrames.MaskedCopy | internal/proxy/websocket.go:481-493 | The payload is masked in a copy. |
| WsFrames.WriteFrame | internal/proxy/websocket.go:445-499 | The bytes sent are the encoding of the frame, deflated first if it is marked compressed, or its beginning if a write fails, which is reported exactly when it happens; a frame that may not be compressed sends nothing. |
| WsFrames.ReadLength | internal/proxy/websocket.go:395-415 | Reads the length in any of its three forms, refusing the ones that are not the shortest. |
| WsFrames.ReadPayload | internal/proxy/websocket.go:422-442 | Reads key and payload, unmasks it and checks a close payload. |
| WsFrames.ClosePayloadIs | internal/proxy/websocket.go:437-441 | A close payload is empty, or two bytes and the encoding of some text; section 5.5.1 of RFC 6455. |
| WsFrames.ReadFrame | internal/proxy/websocket.go:379-443 | Reading agrees with decoding the bytes left, in result, error and bytes consumed. |
| WsRoundTrip.FlagsBack | internal/proxy/websocket.go:384-390 | The first byte of a frame is read back to its flags, and refused if the frame may not be compressed. |
| WsRoundTrip.FirstByteBits | internal/proxy/websocket.go:448-466 | Bit by bit, the first byte is the final flag, the compression flag, two clear bits and the opcode. |
| WsRoundTrip.LengthBack | internal/proxy/websocket.go:395-415 | The length field written is read back in all three forms. |
| WsRoundTrip.LengthForward | internal/proxy/websocket.go:395-415 | Only the shortest form of a length is accepted. |
| WsRoundTrip.WriteThenRead | internal/proxy/websocket.go:379-499 | Reading what was written, whatever follows, returns frame and key and consumes exactly the frame's bytes, if and only if the frame is legal. |
| WsRoundTrip.ReadThenWrite | internal/proxy/websocket.go:379-499 | Every accepted frame is legal and re-encodes, with the same key, to the bytes read. |
| WsRoundTrip.CutFrameIsTruncated | internal/proxy/websocket.go:379-443 | A frame cut short anywhere is reported as incomplete, never misread or refused for another reason. |
| WsRoundTrip.SampleFrames | internal/proxy/websocket.go:379-499 | The sample frames of section 5.7 of RFC 6455 with this text, masked and not, are encoded to just the bytes printed there. |
| WsRelay.MediateControl | internal/proxy/websocket.go:292-314 | What a control frame is forwarded with still fits a control frame. |
| WsRelay.MediateMessage | internal/proxy/websocket.go:319-372 | What a message within the limit is forwarded with is within the limit. |
| WsMediation.StepPasses | internal/proxy/websocket.go:292-375 | Every frame written for a frame read is what something that arrived may be passed on as: upstream, text with placeholders as its substitution and anything else only without placeholders; to the client, text and control payloads scrubbed and binary ones only if scrubbing finds nothing. |
| WsMediation.RunPasses | internal/proxy/websocket.go:250-377 | The same for everything written over a run. |
| WsMediation.NoPlaceholderUpstream | internal/proxy/websocket.go:292-335 | No placeholder leaves in a control or binary frame, over any run. |
| WsMediation.ScrubbedToClient | internal/proxy/websocket.go:300-372 | Over any run scrubbing finds nothing in a binary frame sent to the client, and every text or control payload sent to it is the scrub of one. |
| WsMediation.NoSecretInBinary | internal/proxy/websocket.go:336-340 | With the static broker, no representation and no masked rendering of a value in scope starts anywhere in a binary frame sent to the client. |
| WsRelay.Assembler.Accept | internal/proxy/websocket.go:265-376 | One frame changes the reused buffer, writes at most one frame and ends the relay exactly as the state machine says. |
| WsRelay.RelayWebSocket | internal/proxy/websocket.go:250-377 | Over any byte stream the loop writes the encodings of the frames the state machine emits for the frames read, and ends as it does, unless the cancellation is seen in some turn or a write fails; either is reported exactly when it happens, and then the frames of the earlier turns have been relayed, and of one more at most the beginning. |
| WsRelay.StepBounded | internal/proxy/websocket.go:268-317 | The buffer never exceeds the mediation limit, and no frame written exceeds it or a control frame's size. |
| WsRelay.RunBounded | internal/proxy/websocket.go:250-377 | Over a whole run the buffer is within the limit after every frame, and so is everything written. |
| WsRelay.RunConcat | internal/proxy/websocket.go:250-377 | Running over two stretches of frames is running over one and then, if it goes on, over the other. |
| WsLegality.StepProper | internal/proxy/websocket.go:292-375 | A frame written, as it is before deflation, is legal for the receiver, and its text is text, exactly if mediation kept its payload a close payload or text; always so where mediation leaves payloads alone. |
| WsLegality.RunProper | internal/proxy/websocket.go:250-377 | The same for everything written over a run. |
| WsLegality.ScrubbedRunProper | internal/proxy/websocket.go:300-372 | With secrets in scope that are text and not short, scrubbing keeps close payloads and text: the client is sent legal frames only. |
| WsLegality.BuiltBrokerRelaysProperly | internal/proxy/websocket.go:250-377 | So it is with every broker that was built, if its values in scope are text. |
| WsConversation.ItemRun | internal/proxy/websocket.go:250-377 | One message, however it is cut and interleaved with control frames, yields those and then its transform once. |
| WsConversation.RelayForwardsConversation | internal/proxy/websocket.go:250-377 | However valid messages are cut into fragments, each message's transform is written once, as one final frame, in completion order, with control frames in arrival order, up to the first close or failure; section 5.4 of RFC 6455. |
| WsMediation.RelayDelivers | internal/proxy/websocket.go:250-377 | However it is cut, for every control frame and every message of a conversation, in order, one frame is written, which is what that very payload, inflated if need be, may be passed on as; up to the first close, or the first for which there is no such frame, at which the relay fails. |
| WsConversation.AcceptedRunsAreConversations | internal/proxy/websocket.go:250-377 | Conversely, frames accepted so far are those of an allowed conversation with at most one message unfinished. |
| WsConversation.FramesBack | internal/proxy/websocket.go:379-499 | Any number of legal frames written one after the other, each with its own key, are read back one after the other. |
| WsConversation.BytesForwarded | internal/proxy/websocket.go:250-377 | Relaying the bytes of a conversation emits exactly what is to be forwarded and ends as the conversation does, or for want of more. |
| WsConversation.RelayConversation | internal/proxy/websocket.go:250-377 | Fed with those bytes the relay sends the encodings of exactly those frames and ends as the conversation does, unless it is cancelled or a write fails, reported exactly when it happens; then it has sent the beginning of that, with all that the earlier turns emit. |
| OAuthTokens.KeyDetermines | internal/oauth/broker.go:261-264 | The key of a record determines its broker and client. |
| OAuthTokens.ObserveMirrors | internal/oauth/broker.go:261-305 | After a token response the live placeholders are again exactly those of the records, each leading back to its own. |
| OAuthTokens.ObservedFaithful | internal/oauth/broker.go:261-305 | After a response every live placeholder resolves to the token, kind, client and expiry it was issued for; dropped placeholders stay dropped. |
| OAuthTokens.OmittedStays | internal/oauth/broker.go:276-282 | A refresh token the response does not mention keeps its placeholder, which resolves as before. |
| OAuthTokens.LiveAfter | internal/oauth/broker.go:285-305 | Live after a response are exactly the placeholders it hands out, those of other brokers and clients, and that of a refresh token it does not mention. |
| OAuthTokens.ResponseGrants | internal/oauth/broker.go:261-305 | What the live placeholders stand for after a response, with client, kind and expiry, is exactly what they stood for before, less its own broker's and client's, but for an omitted refresh token, plus what the response says. |
| OAuthTokens.RunsAreFaithful | internal/oauth/broker.go:237-323 | The same over every run of responses with fresh placeholders. |
| OAuthTokens.RunsGrant | internal/oauth/broker.go:237-323 | Over every run, which placeholders are live and what they stand for is exactly what the responses granted, one after the other. |
| OAuthFile.LoadState | internal/oauth/broker.go:669-718 | The loop builds the maps from the saved records or reports the first record that cannot be used. |
| OAuthFile.LoadsExactly | internal/oauth/broker.go:669-718 | A file is accepted exactly if each of its records can be used by itself and no two of them are for the same client of a broker or have a placeholder in common. |
| OAuthFile.LoadedMirrors | internal/oauth/broker.go:699-716 | Maps built from any accepted file mirror each other, are within the policy and hold exactly its records. |
| OAuthFile.LoadIsSound | internal/oauth/broker.go:669-718 | A broker started from any accepted file satisfies the invariant of the runs. |
| OAuthFile.Snapshot | internal/oauth/broker.go:727-738 | The snapshot lists every record once, sorted by broker and client. |
| OAuthFile.OneSortedListing | internal/oauth/broker.go:733-738 | The same records always make the same list. |
| OAuthFile.SaveThenLoad | internal/oauth/broker.go:669-772 | Saving and loading under the same policy rebuilds the same records and the same live placeholders, in whatever order they were written. |
| OAuthBroker.Broker.constructor | internal/oauth/broker.go:83-105 | A broker starts with the loaded maps, mirrored and within the policy. |
| OAuthBroker.Broker.MatchDefinition | internal/oauth/broker.go:495-502 | Finds the first definition whose token endpoint this is for this client, if any. |
| OAuthBroker.Broker.ObserveTokenResponse | internal/oauth/broker.go:237-323 | A response without a usable token changes nothing; after a usable one the live placeholders stand for exactly what the response grants, even if saving fails, and only a saved change returns placeholders. |
| OAuthBroker.Broker.Install | internal/oauth/broker.go:285-305 | Exactly the replaced record's placeholders stop being live and exactly the new ones become live. |
| OAuthBroker.Broker.ReplaceRequestValue | internal/oauth/broker.go:390-445 | The loops compute the specified substitution or refusal, with the live placeholders in their one order, and change nothing. |
| OAuthBroker.Broker.ReplaceEach | internal/oauth/broker.go:410-439 | Placeholders are replaced longest first until one may not be carried. |
| OAuthOrder.InsertArranges | internal/oauth/broker.go:635-646 | Inserting a placeholder keeps the order: longer ones first, then by name. |
| OAuthOrder.SortPlaceholders | internal/oauth/broker.go:629-647 | The placeholders, visited in any order, are sorted into their one order. |
| OAuthOrder.OneArrangement | internal/oauth/broker.go:635-646 | There is one such order, so map iteration makes no difference. |
| OAuthScope.AtIssuerIs | internal/oauth/broker.go:774-779 | A host is the issuer's exactly if it has the issuer's labels, up to case and one dot at the end. |
| OAuthScope.MayGoIs | internal/oauth/broker.go:774-779 | A refresh token may go exactly to its issuer, an access token exactly where the labels fit one of the API hosts. |
| OAuthScope.EndpointIs | internal/oauth/broker.go:495-502 | A definition's token endpoint is its own path at its issuer, for the clients it serves. |
| OAuthScope.AuthorizeIs | internal/oauth/broker.go:416-436 | A live placeholder yields a token exactly to requests of the client it was issued to, at a host it may go to, not after its expiry; and then it is the token it was issued for. |
| OAuthScope.RefusalIs | internal/oauth/broker.go:416-436 | Otherwise the refusal names what is wrong: the client, or else the host, or else the expiry. |
| OAuthScope.OnlyEntitledTokens | internal/oauth/broker.go:390-445 | Every token put into a request was one the request is entitled to, in those terms, over a secure connection. |
| OAuthBroker.SubstitutionIsAuthorized | internal/oauth/broker.go:390-445 | A value changes only over a secure connection, and its result is exactly what replacing some live placeholders, longer before shorter, by the very tokens they stand for makes of it, each an unexpired token of this client meant for this host; the names reported are exactly theirs. |
| OAuthScope.LongestDecides | internal/oauth/broker.go:410-439 | Where live placeholders are mentioned, the longest decides first: the request is entitled to its token, which is among those named, or refused for what is wrong with it. |
| OAuthScope.OutcomeIs | internal/oauth/broker.go:390-445 | A value is left alone exactly in the cases stated: content without a live placeholder or not on its way to an issuer, and credentials that neither mention a live placeholder nor look like one. Otherwise an incomplete credential, an insecure connection and what still looks like a placeholder are refused, in this order, and nothing else beyond what replacing itself refuses. |
| OAuthScope.CredentialIsComplete | internal/oauth/broker.go:404-407 | A credential in which a token was put is one live placeholder, a scheme and white space around it aside, and what goes out looks like a placeholder no more. |
| OAuthScope.BodiesChangeAtIssuers | internal/oauth/broker.go:393-396 | Content changes only on its way to an issuer. |
| OAuthScope.ReplaceAllIs | internal/oauth/broker.go:437-437 | Replacing cuts a text at the occurrences met from left to right and joins the parts with the replacement; no part holds an occurrence. |
| OAuthBroker.ExactCredential | internal/oauth/broker.go:410-439 | A credential that is exactly a live placeholder gives way to its own token, in which shorter placeholders are then looked for, or is refused for the reason its check gives. |
| OAuthBroker.ExactlyTheToken | internal/oauth/broker.go:404-444 | It becomes exactly that token under its one name if and only if the connection is secure, the request may carry the token, and the token neither contains a shorter live placeholder nor looks like one. |
| OAuthBroker.TokenCanHoldPlaceholder | internal/oauth/broker.go:408-444 | A loaded state in which a credential that is exactly a placeholder, allowed where it goes, does not become its token, because the token ends in a shorter placeholder. |
| OAuthPersistence.StepKeeps | internal/oauth/broker.go:274-308 | Every step of every thread keeps the invariant; the file's version never decreases. |
| OAuthPersistence.RunKeeps | internal/oauth/broker.go:720-772 | The same over every interleaving. |
| OAuthPersistence.FileNeverGoesBack | internal/oauth/broker.go:720-772 | At any time the file loads to the maps as they stood after some change; an observer that returned without error left a file at least as new as its own change; versions never go back. |
| OAuthPersistence.ObserverIsSaved | internal/oauth/broker.go:274-308 | Whatever runs around it, an observer's change is a version of its own, made from the one before it, and once it has returned without error the file has that version or a later one. |
| FlowRecorder.SafeStep | internal/proxy/proxy.go:423-477 | No step sends on a closed queue or closes it twice, and every step keeps the shutdown protocol's invariant. |
| FlowRecorder.ConservedStep | internal/proxy/proxy.go:495-520 | Enqueued flows are taken in order; what was taken is in a worker's hands or handled, with the right multiplicity. |
| FlowRecorder.AccountedStep | internal/proxy/proxy.go:423-477 | The enqueued flows are those of distinct calls. |
| FlowRecorder.CountedStep | internal/proxy/proxy.go:423-477 | Calls are enqueued, dropped, refused after close, or still submitting. |
| FlowRecorder.BoundedStep | internal/proxy/proxy.go:423-477 | No step fills the queue beyond its capacity, and a flow is dropped only if it is a denied one or the queue is full. |
| FlowRecorder.QueueIsBounded | internal/proxy/proxy.go:423-477 | Over any run the queue keeps to its capacity. |
| FlowRecorder.DroppedWhenFull | internal/proxy/proxy.go:423-477 | On any run from the start, a step drops at most one flow, that of a submitting call, and then it is a denied one or the queue is full. |
| FlowRecorder.RecorderIsSafe | internal/proxy/transport.go:208-241 | Over every interleaving all of this holds, and when a close returns without error every enqueued flow was handled exactly once and nobody is submitting. |
| FlowRecorder.CloseMakesProgress | internal/proxy/transport.go:208-241 | A close that has not returned is never stuck: some submission, worker or closer can move. |
| FlowRecorder.StepProgresses | internal/proxy/transport.go:208-241 | Every step but a new call or a new close leaves less to be done. |
| FlowRecorder.CloseFinishes | internal/proxy/transport.go:208-241 | From any reachable state, without new calls and closes only so many steps follow, and when none is left but giving up, every close has returned. |
| TransportPool.SameKey | internal/proxy/transport.go:64-71 | Two destinations share a transport exactly if address and port are equal and scheme and host are, up to case and one dot behind the host. |
| TransportPool.LeaseTaken | internal/proxy/transport.go:53-62 | Taking an acquisition adds one holder to that transport and to no other. |
| TransportPool.LeaseReturned | internal/proxy/transport.go:152-169 | Giving one back removes one holder of that transport and of no other. |
| TransportPool.Pool.constructor | internal/proxy/transport.go:32-41 | An empty pool meets the invariant. |
| TransportPool.Pool.Oldest | internal/proxy/transport.go:133-143 | The scan finds an entry unused for at least as long as every other. |
| TransportPool.Pool.Evict | internal/proxy/transport.go:143-150 | The entry leaves the map and drains; it is listed as draining exactly if it is in use. |
| TransportPool.Pool.EvictOldest | internal/proxy/transport.go:133-150 | A least recently used entry leaves the map, no other does, and it drains. |
| TransportPool.Pool.Lookup | internal/proxy/transport.go:73-91 | The key's own transport is used if it has one; otherwise a new one joins the map, and only if 64 entries were there does one leave, a least recently used one; no other transport counts as used; a closed handler gives none. |
| TransportPool.Pool.Insert | internal/proxy/transport.go:85-90 | A new transport nobody uses is cached under its key. |
| TransportPool.Pool.Acquire | internal/proxy/transport.go:53-71 | The transport is the one cached for the destination asked for, and the acquisition is a new outstanding one. |
| TransportPool.Pool.Hold | internal/proxy/transport.go:58-60 | The count of each transport stays the number of its outstanding acquisitions. |
| TransportPool.Pool.Release | internal/proxy/transport.go:152-169 | Ends exactly one acquisition; a transport stops draining with its last user, and the caller is told to close idle connections exactly if it is out of the cache for good. |
| TransportPool.Pool.GiveBack | internal/proxy/transport.go:156-165 | Counts one user less, and only a draining transport that lost its last user leaves the list. |
| TransportPool.Pool.KeepIdle | internal/proxy/proxy.go:1027-1042 | A transport in use may leave a connection idle at any time, also while it drains or after the handler closed. |
| TransportPool.Pool.CloseIdle | internal/proxy/transport.go:166-168 | Closing idle connections outside the lock keeps the invariant whatever happened in between. |
| TransportPool.Pool.UnusedPool | internal/proxy/transport.go:152-169 | With no acquisition outstanding nothing is in use or draining, and nothing out of the cache is idle that is not about to be closed. |
| TransportPool.Pool.RemoveDraining | internal/proxy/transport.go:171-181 | Removes just the target and keeps the list free of duplicates. |
| TransportPool.Pool.Close | internal/proxy/transport.go:257-272 | Empties map and list; every transport not in use that has idle connections is handed out to have them closed, or already was. |
| TransportPool.Pool.Collect | internal/proxy/transport.go:259-265 | Finds exactly the transports cached or draining. |
| TransportPool.TrackedBody.ReleaseOnce | internal/proxy/transport.go:186-204 | The acquisition is ended the first time and never again. |
| TransportPool.TrackedBody.Read | internal/proxy/transport.go:192-198 | A read ends the acquisition exactly if it reports an error or the end and nothing did before. |
| TransportPool.TrackedBody.Close | internal/proxy/transport.go:200-204 | Closing ends the acquisition unless a read already did. |
| TransportPool.FinishRoundTrip | internal/proxy/proxy.go:1023-1043 | After a round trip the acquisition is ended, or handed to exactly one body. |
| TransportTraffic.TakenBalances | internal/proxy/proxy.go:1023-1026 | A new acquisition has one owner, and everyone else keeps theirs. |
| TransportTraffic.LandedBalances | internal/proxy/proxy.go:1027-1038 | A round trip that ends without a body gives its acquisition back and nobody else's. |
| TransportTraffic.PassedBalances | internal/proxy/proxy.go:1039-1043 | One that ends with a body passes its acquisition on, and no two bodies ever have the same one. |
| TransportTraffic.DroppedBalances | internal/proxy/transport.go:186-204 | A body's release gives back its own acquisition and nobody else's, the second time none. |
| TransportTraffic.NothingOwed | internal/proxy/transport.go:152-204 | When nobody is in flight and every body has released, no acquisition is outstanding. |
| TransportTraffic.StepBalances | internal/proxy/transport.go:53-204 | One step adds at most one acquisition, under the next number, and gives back at most one, on behalf of its owner; none comes back. |
| TransportTraffic.OutstandingOnce | internal/proxy/transport.go:53-204 | Over any run each acquisition is outstanding from the step that made it to the one by which its owner gives it back, and never again. |
| TransportTraffic.Traffic.Begin | internal/proxy/transport.go:53-71 | On an open handler the thread holds the transport cached for its destination under a new acquisition; on a closed one nothing happens. |
| TransportTraffic.Traffic.End | internal/proxy/proxy.go:1023-1043 | Without a body exactly the thread's acquisition is given back; with one there is one more body and the same acquisitions. |
| TransportTraffic.Traffic.Read | internal/proxy/transport.go:192-198 | A read error or end gives back exactly that body's acquisition; any other read changes none. |
| TransportTraffic.Traffic.CloseBody | internal/proxy/transport.go:200-204 | Closing a body gives back exactly its acquisition, if it still had it. |
| TransportTraffic.Traffic.CloseHandler | internal/proxy/transport.go:257-272 | Exactly the transports cached or draining are left to be closed, and no acquisition changes. |
| TransportTraffic.Traffic.Step | internal/proxy/transport.go:53-204 | Every step of every thread, body and shutdown changes the books as specified for it, or nothing if it is not possible, and keeps the outstanding acquisitions exactly those of threads in flight and of bodies not yet released, all distinct. |
| TransportTraffic.Traffic.Run | internal/proxy/transport.go:53-273 | So it is over any run, step by step; and when everyone is done, no acquisition is outstanding, every count is zero, nothing drains, and no connection is idle on a transport out of the cache. |
| FlowLog.MatchHostPatternIs | internal/flow/store.go:408-425 | A host filter asks for one host, for a domain behind a wildcard whose labels the host's end in, or leaves it to the glob. |
| FlowLog.MatchesIs | internal/flow/store.go:398-407 | A flow matches exactly if it is what every part of the filter that is set asks for. |
| FlowLog.ListingIs | internal/flow/store.go:326-343 | A listing is in strictly descending order, holds matching flows only, and leaves out none newer than its last, or none at all if it is short. |
| FlowStore.SummaryShows | internal/flow/store.go:382-396 | A summary matches every filter its flow matches and keeps what pages look at. |
| FlowStore.RingGrows | internal/flow/store.go:299-316 | Writing behind the last element appends to the ring. |
| FlowStore.RingTurns | internal/flow/store.go:299-316 | Writing over the first element of a full ring drops it and appends the new one. |
| FlowStore.MemoryBackend.Put | internal/flow/store.go:307-314 | The in-place write appends to the ring's contents, dropping the oldest if it is full. |
| FlowStore.MemoryBackend.Add | internal/flow/store.go:299-316 | The flow gets the next consecutive id and the buffer holds exactly the latest flows, as many as fit. |
| FlowStore.MemoryBackend.List | internal/flow/store.go:326-343 | The loop over the ring returns the newest-first listing of what is retained. |
| FlowStore.SqliteBackend.constructor | internal/flow/store.go:427-437 | An empty table meets the invariant. |
| FlowStore.SqliteBackend.Add | internal/flow/store.go:618-675 | The rows are the latest flows; the counter equals their number, at least the capacity once reached and below capacity plus min(100, capacity); a failed transaction changes nothing. |
| FlowStore.UnfilteredTail | internal/flow/store.go:299-343 | An unfiltered listing of any sufficiently long tail of the log is the same. |
| FlowStore.StoresAgree | internal/flow/store.go:661-675 | After the same additions both stores give the same unfiltered listing for every limit up to the capacity. |
| FlowPages.ScanPage | internal/flow/store.go:230-242 | The loop finds the smallest id and the sessions whose CONNECT flow is on the page. |
| FlowPages.CollectMissing | internal/flow/store.go:243-249 | The loop lists each session without its CONNECT flow once. |
| FlowPages.ListPage | internal/flow/store.go:214-264 | The page holds the listing of one moment, its cursor, whether it is full, and the older CONNECT flows asked for as of a later moment, with flows added in between. |
| FlowPages.CursorIsLast | internal/flow/store.go:230-242 | The cursor is the id of the page's last flow. |
| FlowPages.PageParentsAre | internal/flow/store.go:243-262 | The parents, in full or as summaries, are CONNECT flows older than the page, admitted by the filter's client, host and decision, of sessions on it whose CONNECT flow is not; where sessions have one each, none of those still retained is left out. |
| FlowPages.WalkDescends | internal/flow/store.go:214-264 | Following cursors while flows are added returns matching flows in strictly decreasing order of id, none twice. |
| FlowPages.WalkMissesNothing | internal/flow/store.go:214-264 | Every matching flow is on the page that covers its id unless it was no longer retained when that page was read. |
| FlowPages.WalkFinishes | internal/flow/store.go:214-264 | Following cursors ends after at most as many pages as there are ids below the first. |
| NameOrder.NameLessIs | internal/intercept/authority.go:228-236 | One name is less than another exactly if, at the first place where they differ, it has the lesser character or has ended. |
| LeafCache.PickFinds | internal/intercept/authority.go:228-236 | Without an empty name the scan finds the least recently used entry, the smallest name among equals. |
| LeafCache.PickIgnoresOrder | internal/intercept/authority.go:228-236 | Which entry is evicted does not depend on map iteration order. |
| LeafCache.BoundKept | internal/intercept/authority.go:221-240 | For one order of visiting the entries: adding one keeps the cache within 1024 exactly if the host is still in it, there is room, or the scan finds a named entry. |
| LeafCache.BoundKeptForNamedHosts | internal/intercept/authority.go:221-240 | Without an entry for the empty host the bound is always kept. |
| LeafCache.EmptyHostIsNeverEvicted | internal/intercept/authority.go:228-239 | The scan finds no named entry exactly if the entry for the empty host is the least recently used one and is visited last. |
| LeafCache.OutgrowsExactly | internal/intercept/authority.go:221-241 | Some order of visiting lets the cache outgrow 1024 entries exactly if, after expired ones are dropped, it is full, does not hold the host, and its least recently used entry is for the empty host. |
| LeafCache.FreshEntryServes | internal/intercept/authority.go:174-193 | Any fresh entry's leaf is for its host, inside the authority's validity, valid now exactly if the authority has started, and ends more than five minutes from now less a second, whatever the clock did. |
| LeafCache.MarginCanFallShort | internal/intercept/authority.go:174-178 | A leaf can be returned with less than five minutes left as encoded. |
| LeafCache.MarginHolds | internal/intercept/authority.go:173-190 | A fresh leaf as encoded lasts for more than five minutes exactly if the authority ends no later than a day after issue, or more than the margin is left of the day counted from the whole second of issue. |
| LeafCache.NewLeafHasMargin | internal/intercept/authority.go:182-194 | A leaf just issued always lasts for more than five minutes as encoded. |
| LeafCache.Authority.constructor | internal/intercept/authority.go:57-65 | A new authority has an empty cache and meets the invariant. |
| LeafCache.Authority.CertificateFor | internal/intercept/authority.go:163-243 | A leaf returned serves the host now; a new one always, a cached one exactly under the stated condition has more than five minutes left as encoded; it fails exactly if nothing fresh is cached and the authority ends too soon; the new cache is given for each case; asked for named hosts only, the cache never exceeds 1024 entries. |
| LeafCache.Authority.MakeRoom | internal/intercept/authority.go:221-240 | A full cache loses what has expired and then, if still full, its oldest entry. |
| LeafCache.Authority.PurgeExpired | internal/intercept/authority.go:221-227 | Exactly the unexpired entries are left. |
| LeafCache.Authority.EvictOldest | internal/intercept/authority.go:228-240 | At most the entry the scan picks is removed. |
| RuleExpansion.CanonicalMethodStays | internal/config/rules.go:38-47 | A valid method is its own canonical form. |
| RuleExpansion.CanonicalMethodIs | internal/config/rules.go:38-47 | A method is canonicalized to the one it spells in either case, white space around it aside. |
| RuleExpansion.WrittenMethodIs | internal/config/rules.go:99-109 | What is written is a method exactly if, white space around it aside, it is a word of letters that does not spell CONNECT. |
| RuleExpansion.ValidPathPrefixIs | internal/config/rules.go:112-133 | A path prefix is valid exactly if it is a slash, or segments with a slash before each and perhaps one at the end, none empty, a dot or two dots, without blanks, control characters and the four characters forbidden. |
| RuleExpansion.AppliesMeans | internal/config/rules.go:151-168 | A rule applies exactly to the hosts whose labels fit its pattern, up to two dots at the end. |
| RuleExpansion.PathMatchesIs | internal/config/rules.go:142-147 | A prefix matches exactly the paths whose segments begin with its own, with at least one more behind a final slash. |
| RuleExpansion.PermitsIs | internal/config/rules.go:135-148 | A rule permits exactly its methods, or any if it lists none, under its prefixes, or anywhere if it lists none. |
| RuleExpansion.Normalize | internal/config/rules.go:38-58 | The loops canonicalize a rule or report its first fault. |
| RuleExpansion.ExpandRule | internal/config/rules.go:65-95 | One rule becomes one single-host rule per distinct canonical host, in order, or its fault. |
| RuleExpansion.ExpandRules | internal/config/rules.go:62-97 | The expansions are concatenated in order, or the first rule at fault is reported. |
| RuleExpansion.MatchRule | internal/config/rules.go:161-175 | Returns the first rule that applies to the host and permits the request; allowed exactly if there is one or no rule applies. |
| RuleExpansion.FirstPermittingIs | internal/config/rules.go:161-175 | The rule found is the first whose pattern fits the host's labels and which permits the request, segment by segment; a host is restricted exactly if some pattern fits it. |
| RuleExpansion.DistinctHostsAre | internal/config/rules.go:77-86 | The hosts are exactly the canonical forms of the patterns, and exist exactly if all patterns are valid. |
| RuleExpansion.ExpansionSucceeds | internal/config/rules.go:62-97 | Expansion succeeds exactly if every rule is acceptable by itself. |
| RuleExpansion.RuleKeepsMeaning | internal/config/rules.go:135-148 | The single-host rules of a rule together apply and permit as the rule as written does, with its limits. |
| RuleExpansion.ExpansionKeepsMeaning | internal/config/rules.go:62-175 | For every host, method and path the first permitting expanded rule and the first permitting rule as written exist together and have the same limits, and the host is restricted by both or neither. |
| RuleExpansion.ExpansionIsIdempotent | internal/config/rules.go:62-97 | Expanding the expanded rules changes nothing. |
| PrettyJson.NextNonSpace | internal/console/static/formatters.js:239-244 | The lookahead finds the first position without white space. |
| PrettyJson.FormatOne | internal/console/static/formatters.js:254-276 | One turn outside strings emits a piece of the result and moves past what it stands for. |
| PrettyJson.PrettyJson | internal/console/static/formatters.js:233-279 | The loop computes the specified layout for every text, cut or not. |
| PrettyJson.ContentKept | internal/console/static/formatters.js:229-279 | Dropping white space outside strings gives the same text before and after formatting, from any point inside or outside a string. |
| PrettyJson.LayoutIgnored | internal/console/static/formatters.js:229-279 | Layout in the input makes no difference to the output. |
| PrettyJson.PrettyIsIdempotent | internal/console/static/formatters.js:233-279 | Formatting twice is formatting once. |
| PrettyJson.ShownAlike | internal/console/static/formatters.js:233-279 | Two texts are shown alike exactly if they differ in layout only. |
| PrettyLayout.LinesAreIndented | internal/console/static/formatters.js:233-279 | Behind every line break put in there are exactly two spaces for each bracket open on that line, for every text, cut or not. |
| PrettyLayout.SymbolsAreFollowed | internal/console/static/formatters.js:254-276 | Outside strings an opening bracket is followed by its own closing one or a line break, a comma by a line break, a colon by one space, and anything else by no layout, but that a closing bracket gets a line of its own. |
| PrettyLayout.OnlyLayout | internal/console/static/formatters.js:229-279 | The output is the only text with the same lexical content that is laid out by these rules. |

## Left out

- Sockets, TLS handshakes, DNS, HTTP parsing, hijacking, deadlines and what cancels a relay; a write that can fail and a wait that can time out are nondeterministic choices.
- gzip, deflate, brotli, zstd and permessage-deflate: compression is an arbitrary function where it appears, and streams are taken as decoded.
- The JSON, URL and base64 encoders behind a secret's representations: an arbitrary function from a text to its encodings, assumed not to break lines only where that is needed.
- Header, query and body substitution of the static broker, virtual JWTs and the OAuth broker's own scrubbing, which is a series of replacements and not a single pass.
- The address in a transport's key is taken in its unmapped form.
- Any claim that output contains no secret bytes: copied bytes next to a placeholder can spell new text; what is proved concerns occurrences in the input.
- SQL text, schema migration, the table's own filters and payload captures; only insertion, trimming and unfiltered listing are compared.
- Case mapping outside ASCII beyond the letters that map into ASCII; letter and digit classes of names are a parameter.
- Sorted order of name lists in results; they are sets here.
- Keys, hashes, signatures and serial numbers of certificates; a failure to draw or sign one is not modelled.
- The console's other formatters and views, configuration parsing, the command line and the audit log.
- Aliasing of slices: validation overwrites the caller's method and host lists with their canonical forms; here it returns new lists.
- The byte counters of streams and relays, and the second attempt to close an encoder after a failure, whose result is ignored.
- Drawing a mask key and deflating a message cannot fail here.
- The capture of streamed and relayed messages kept for the flow log, and the secret names collected with it by the relay.
- Encoding the auth file as JSON and the checks on the file itself; how the fields of a token response, its expiry among them, are read from its JSON.
- OAuthPersistence.FileNeverGoesBack: the two locks are a transition system on values; replacing the file is one atomic step, and a crash of the process is not a step.
- FlowRecorder.RecorderIsSafe: the recorder is a transition system on values, one step for each critical section, channel operation and wait; what handling a flow does, and its recovery from panics, is not modelled.
- LeafCache.Authority.CertificateFor: both scans visit the entries in the same order; any order is allowed and the result is shown not to depend on it for named hosts.
