# truefix, modelled and proved in Dafny

This project models the parts of truefix, a FIX engine in Rust, that carry state, recursion or a protocol, and
proves what they promise. Functions give the meaning of each piece of code; methods and classes follow the loops and
the in-place updates of the source and are proved to compute those functions; lemmas state the laws.

`dafny verify dfyconfig.toml` checks everything.

| area | modules |
|---|---|
| framing a byte stream, printing frames | `Decimal`, `Framing`, `FrameReader`, `FramePrinter`, `FrameShape` |
| repeating groups: structuring, the two validators | `FieldMaps`, `Dictionary`, `Grouping`, `GroupingRoundTrip`, `FlatGroups`, `GroupConformance`, `StructuredGroups`, `StructuredConformance`, `GroupAgreement`, `TreeAgreement`, `GroupDelimiters`, `GroupFindings`, `GroupFaults` |
| validating whole messages | `Validation`, `MessageValidity` |
| dictionaries: components, closures, reading, merging | `Graphs`, `Components`, `GroupClosure`, `DictionaryLines`, `DictionaryWords`, `RuntimeTrack`, `RuntimeDictionary`, `CodegenTrack`, `DualTrack`, `DocumentTables`, `DocumentReading`, `Merging` |
| converters and binary schemas | `Pruning`, `VendorXml`, `VendorGroups`, `VendorOutcomes`, `VendorReading`, `FastTemplates`, `FastDocuments`, `SbeOffsets` |
| settings files | `Settings`, `SettingsFile` |
| request correlation and replay | `RequestActor`, `RequestRuns`, `RequestOutcomes`, `RequestConnection`, `Replay` |

Conventions. Strings are sequences of characters, wire values sequences of bytes. Ordered maps are maps; a loop over
one visits its keys in any order. Foreign readings are arguments: `Formats` says which raw values are well formed or
enumerated and which version a text names, `Environment` looks up environment variables, a socket write succeeds or
not by an argument of the event. Integer limits are written out: `u32` tags and serials, `i64` counts, `usize`
additions, saturating and wrapping arithmetic.

## Where code and documentation differ

The model follows the code. These are the places where a promise of the documentation, or a natural reading of it,
fails; each has a concrete case and, for all inputs, the exact condition.

- `restructure_groups` is documented as a no-op on an already structured map. It is one exactly when every group count
  in the map was readable (`GroupingRoundTrip.RestructureIdempotent`; a case where one is not:
  `GroupFindings.RestructureChanges`).
- The flat and the structured group validator are meant to agree. Each makes demands of its own
  (`GroupAgreement.MessageVerdictsAgree`, for every dictionary and message): only the flat one rejects a count that is
  not a number, looks at a second top-level group with the same count tag, and checks the value of a delimiter that is
  no member of its group; only the structured one rejects a required nested group without entries or in the
  delimiter's place, and counts the delimiter into the order check. The verdicts differ exactly where one accepts what
  fails the other's demands. The last demand of each comes from the group definitions: it is idle for all field lists
  and options exactly when every delimiter is its group's first member, which the runtime reader does not enforce
  (`GroupDelimiters.DelimitersExactly`). The cases are in `GroupFindings` and
  `GroupDelimiters.ForeignDelimiterDiffers`.
- `DataDictionary::extend` is documented as safe to repeat. A second merge of the same extension is refused exactly
  when the first one changed the member tags of a message of the extension (`Merging.ExtendTwice`,
  `Merging.ExtendTwiceCanFail`).
- Resolved default settings are interpolated again in each session, so a default can fail or change there
  (`SettingsFile.ResolvedDefaultCanFail`, at a document). It is inherited unchanged by every session that does not
  override it exactly when its resolved value contains no `${` (`SettingsFile.InheritedExactly`;
  documents: `SettingsFile.DisturbedDocument`).
- Settings pairs before the first section header are dropped silently; pairs after one are kept
  (`SettingsFile.PairsKeptAfterHeader`; a document: `SettingsFile.FirstPairLost`).
- Serial numbers: overflow in the client's allocator fails the one request, not the connection
  (`RequestRuns.OverflowFailsOne`, `RequestRuns.OverflowIsReached`). It happens exactly at the run's allocation
  2^32 - 1 (`RequestRuns.RunCounts`); from then on serials repeat, two allocations giving the same one exactly when
  they are whole wraps apart (`RequestRuns.SerialsRepeatByWrap`, a run: `RequestRuns.FirstSerialRepeats`).
- A vendor group whose first member leads to an empty component gets its own count tag as delimiter
  (`VendorGroups.EmptyComponentMisleads`, `VendorGroups.DelimiterExactly`). The runtime reader refuses every such
  document (`VendorReading.EmptyComponentRefused`); in those it accepts every delimiter is its group's first member
  (`VendorReading.RenderedDelimiters`).
- A FAST template nested in another of the same id is reported under the greatest id read so far
  (`FastDocuments.LateDuplicateNamesAnotherId`). Over every stream, the id named is the repeated one exactly when the
  duplicate shows at a start tag or the repeated id is the greatest (`FastDocuments.DuplicateReported`), and always
  when no template starts inside another (`FastDocuments.UnnestedNamesRepeated`).
- The SBE layout check never looks at byte `u32::MAX` (`SbeOffsets.SideBySideExactly`, `SbeOffsets.LastByteIsNotSeen`).

## Model

| member | source | states |
|---|---|---|
| Framing.FrameLength | crates/truefix-core/src/framing.rs:19-105 | a complete verdict gives a positive length within the buffer; which verdict each buffer gets is stated by FrameShape.Verdict |
| FrameShape.Verdict | crates/truefix-core/src/framing.rs:19-105 | the verdict on every buffer by the shape of its bytes: without a first or second SOH more is needed; a bad BeginString, a field that gives no length, the length zero, one beyond the cap and a missing trailer each get their own error; otherwise the length of the frame |
| FrameShape.CompleteExactly | crates/truefix-core/src/framing.rs:19-105 | a buffer is complete to length n if and only if its first n bytes are a frame byte for byte: BeginString of the FIX or FIXT shape, the length as a number, a body of that length, the trailer |
| FrameShape.BeginLooks | crates/truefix-core/src/framing.rs:117-126 | the accepted BeginStrings are FIX. or FIXT., digit, dot, digit and any further text |
| FrameShape.Utf8Exactly | crates/truefix-core/src/framing.rs:117-120 | the byte strings taken as text are exactly the UTF-8 encodings of sequences of code points |
| Decimal.ParseUnsignedExactly | crates/truefix-core/src/framing.rs:44-47 | a number parses from its decimal text, with leading zeros or a plus sign or without, and from nothing else |
| Decimal.ParseI64Exactly | crates/truefix-core/src/field.rs:111-117 | the same for signed numbers |
| Framing.FrameLengthStable | crates/truefix-core/src/framing.rs:19-105 | once a buffer is judged complete or malformed, no further bytes change the verdict, its length or its error |
| Framing.NoAdditionOverflow | crates/truefix-core/src/framing.rs:43-105 | for buffers of at most isize::MAX bytes the checked additions never overflow: too large is reported only for a declared length beyond the cap |
| FrameReader.Reader.ReadMessage | crates/truefix-at/src/runner.rs:554-579 | one call cuts off the next frame, or says why there is none, leaving the buffer and the unread events that the reading function gives |
| FrameReader.Reader.ReceiveMessage | crates/truefix-at/src/runner.rs:554-579 | the same with the frame decoded by any decoder: the frame is gone from the buffer whether it decodes or not, and decoding decides nothing else |
| FrameReader.ReadStops | crates/truefix-at/src/runner.rs:554-579 | one call gathers data up to the first complete frame, the end of the events or an event that is no data, returns which of them it was, and keeps the bytes not returned |
| FrameReader.DrainLossless | crates/truefix-at/src/runner.rs:554-579 | frames cut off plus bytes left over concatenate to the buffer, nothing lost, added or moved |
| FrameReader.DrainedAreFrames | crates/truefix-core/src/framing.rs:19-105 | every piece cut off is exactly one complete frame and what stays does not begin with one |
| FrameReader.ReadAllIsDrain | crates/truefix-at/src/runner.rs:554-579 | for every stable framer, buffer and sequence of chunks, timeouts and failures, all frames returned and the residue are those of draining the whole stream at once |
| FrameReader.ChunkingIrrelevant | crates/truefix-at/src/runner.rs:554-579 | two event sequences with the same bytes give the same frames and residue, which concatenate to the stream |
| FrameReader.MalformedIsFinal | crates/truefix-core/src/framing.rs:19-105 | after a malformed front no frame is ever returned again and every byte is kept |
| FrameReader.DrainFrames | crates/truefix-at/src/runner.rs:554-579 | frames sent back to back are drained as they were sent, with nothing left |
| FramePrinter.FrameLengthOfEnvelope | crates/truefix-core/src/codec/encode.rs:23-69 | for every begin string, body and trailing bytes, the framer's verdict on a printed envelope: exactly its length, or exactly which error |
| FramePrinter.FrameLengthOfRaw | crates/truefix-at/src/scenarios.rs:2077-2083 | a raw frame with a body of 1 to MAX_BODY_LEN bytes is framed to its own length whatever follows it |
| FramePrinter.RawSumFitsU32 | crates/truefix-at/src/scenarios.rs:2077-2083 | the byte sum of such a frame fits a u32 |
| FramePrinter.SumBytes | crates/truefix-at/src/scenarios.rs:1513-1534 | the loop sums the first n bytes of the buffer |
| FramePrinter.GarbleChecksum | crates/truefix-at/src/scenarios.rs:1513-1534 | in place, the buffer becomes its corrupted form |
| FramePrinter.GarbledDigitsAreWrong | crates/truefix-at/src/scenarios.rs:1513-1534 | a corrupted buffer differs in its three digits only, and these never equal the checksum of what precedes the trailer |
| FramePrinter.GarbledStillFrames | crates/truefix-at/src/scenarios.rs:1513-1534 | corrupting a frame's checksum does not change how it is framed |
| FramePrinter.StreamOfEnvelopes | crates/truefix-core/src/codec/encode.rs:23-69 | printed envelopes sent back to back come out of the receive loop one by one, in whatever chunks they arrive |
| FramePrinter.EnvelopeSumsUp | crates/truefix-core/src/codec/encode.rs:23-69 | an envelope gives the length of its middle part and a checksum that is the sum of all bytes before the trailer modulo 256; a corrupted one does not sum up |
| FramePrinter.FieldsReadBack | crates/truefix-at/src/scenarios.rs:2077-2083 | rendered fields are told apart again by reading tag, value and SOH |
| Grouping.BuildGroup | crates/truefix-core/src/codec/decode.rs:186-237 | the loop reads the group the greedy reading function gives, or reports nesting beyond the depth limit |
| Grouping.BuildMembers | crates/truefix-core/src/codec/decode.rs:186-237 | the inner loop reads the members of one entry up to a delimiter or a foreign tag |
| Grouping.DecodeSection | crates/truefix-core/src/codec/decode.rs:164-184 | a section's fields are structured group by group from left to right |
| Grouping.GroupAtBuilt | crates/truefix-core/src/codec/decode.rs:186-237 | reading a group fails only for lack of nesting budget: with as much as there are fields it always succeeds, circular group definitions included |
| GroupingRoundTrip.SectionAtSpells | crates/truefix-core/src/codec/decode.rs:136-184 | structuring drops, adds and moves nothing: flattening gives back every field in place, counts in canonical digits |
| GroupingRoundTrip.ReadSectionBack | crates/truefix-core/src/codec/decode.rs:123-184 | flattening a tree that fits its dictionary and structuring the result gives the tree back with every count recorded |
| GroupingRoundTrip.RestructureStructured | crates/truefix-core/src/codec/decode.rs:123-130 | restructuring a structured section only records counts that could not be read before |
| GroupingRoundTrip.RestructureIdempotent | crates/truefix-core/src/codec/decode.rs:115-130 | restructuring a structured section is a no-op if and only if all its counts were readable |
| FlatGroups.ValidateGroup | crates/truefix-dict/src/validate.rs:502-621 | the position scan computes the recursive scan and always advances |
| FlatGroups.ValidateEntry | crates/truefix-dict/src/validate.rs:551-610 | one entry, from its delimiter on: order, values, nested groups and required members as the recursive scan gives them |
| GroupConformance.AscendingIsInOrder | crates/truefix-dict/src/validate.rs:565-586 | tracking the last index in the loop is requiring non-decreasing declared indices of the whole entry |
| GroupConformance.ValueCheckIsValidity | crates/truefix-dict/src/validate.rs:627-672 | a group field passes exactly when it has a value where one is asked for and, where types are checked, that value is well formed and enumerated for the child's or else the enclosing definition; otherwise the first of these faults is named |
| GroupConformance.ScanGroupIsConformance | crates/truefix-dict/src/validate.rs:502-621 | the flat validator accepts a group if and only if the tree read there conforms (integer count equal to the number of delimiter-led entries, members only, in order, required ones present, nested groups likewise), and stops exactly at its end |
| GroupConformance.ScanSectionIsConformance | crates/truefix-dict/src/validate.rs:322-365 | the flat validator accepts a section if and only if every group read in it conforms |
| StructuredGroups.FirstAbsent | crates/truefix-dict/src/validate.rs:370-376 | nothing is reported missing if and only if every required tag is present, a nested group counting only when it has entries |
| StructuredGroups.FirstGroup | crates/truefix-dict/src/validate.rs:26-43 | finds the first group with the count tag, if there is one |
| StructuredGroups.ValidateStructuredGroup | crates/truefix-dict/src/validate.rs:392-500 | the tree walk computes the recursive check of a group |
| StructuredGroups.ValidateStructuredEntry | crates/truefix-dict/src/validate.rs:437-500 | one entry of the tree walk |
| StructuredGroups.ValidateSection | crates/truefix-dict/src/validate.rs:322-365 | the loop over a flat section computes the recursive scan of it |
| StructuredGroups.ValidateGroups | crates/truefix-dict/src/validate.rs:322-365 | the whole group check of a message, flat sections and structured groups together |
| StructuredConformance.CheckGroupAccepts | crates/truefix-dict/src/validate.rs:392-500 | on every tree: the structured validator accepts exactly the groups whose declared count is right and whose entries have acceptable members in declared order and the required ones supplied, at every depth |
| StructuredConformance.PresentIsSupplied | crates/truefix-dict/src/validate.rs:370-376 | a plain tag is present through any field with it, a count tag through its first group, if that has entries |
| GroupAgreement.CheckGroupIsConformance | crates/truefix-dict/src/validate.rs:392-500 | over every dictionary, the structured validator accepts a fit tree that meets the flat one's own demands if and only if the tree conforms and meets the structured one's own demands |
| GroupAgreement.CheckGroupDemands | crates/truefix-dict/src/validate.rs:392-500 | what the structured validator accepts, unreadable counts or not, meets its own demands at every depth |
| GroupAgreement.ConformsMeets | crates/truefix-dict/src/validate.rs:502-621 | what conforms, and so what the flat validator accepts, meets the flat one's own demands |
| GroupAgreement.GroupVerdictsAgree | crates/truefix-dict/src/validate.rs:392-621 | at every count field of every field list and over every dictionary, the two verdicts differ if and only if one validator accepts what fails the other's own demands |
| GroupAgreement.SectionVerdictsAgree | crates/truefix-dict/src/validate.rs:322-621 | the same for whole sections |
| GroupAgreement.CheckGroupsFlat | crates/truefix-dict/src/validate.rs:322-365 | the group check of a flat message accepts if and only if the flat validator accepts header and body |
| GroupAgreement.CheckGroupsStructured | crates/truefix-dict/src/validate.rs:322-365 | the group check of a structured message is the structured check of the first group of each count tag |
| GroupAgreement.FirstsAreFirst | crates/truefix-dict/src/validate.rs:26-43 | looking each count tag up checks exactly the groups with no earlier one of their tag |
| GroupAgreement.FirstsVerdictsAgree | crates/truefix-dict/src/validate.rs:322-365 | within a section: the structured check of the first groups against the flat check of all, each meeting its own demands; that later groups conform is a demand of the flat one |
| GroupAgreement.MessageVerdictsAgree | crates/truefix-dict/src/validate.rs:322-621 | for every dictionary, message and options, the message validated flat and the same message structured get different verdicts if and only if one is accepted and fails the other validator's own demands, repeated groups included |
| TreeAgreement.TreeVerdictsAgree | crates/truefix-dict/src/validate.rs:370-621 | a fit tree and its flattening, whatever follows it: the verdicts differ if and only if one validator accepts what fails the other's own demands, and the flat one consumes exactly the flattening |
| TreeAgreement.RankDescends | crates/truefix-dict/src/model.rs:398-407 | where no group contains itself, a group brings along more tags than any group in it, so groups can be ranked |
| TreeAgreement.ShapedIsFit | crates/truefix-dict/src/validate.rs:370-621 | if each tag is a member of at most one group and no group contains itself, every well-shaped tree fits |
| TreeAgreement.ShapedVerdictsAgree | crates/truefix-dict/src/validate.rs:370-621 | so over such dictionaries the two validators agree, up to the structured one's own demands, on every well-shaped group followed by no group's member |
| GroupDelimiters.LeadingAgree | crates/truefix-dict/src/validate.rs:392-621 | where every delimiter is its group's first member the verdicts differ if and only if one validator accepts and a count is unreadable (structured) or a required group is empty or in the delimiter's place (flat) |
| GroupDelimiters.LeadingMessagesAgree | crates/truefix-dict/src/validate.rs:322-621 | the same for messages that repeat no count tag at the top level |
| GroupDelimiters.ForeignDelimiterDiffers | crates/truefix-dict/src/validate.rs:551-553 | for every group whose delimiter is no member, an empty delimiter value is refused flat and accepted structured |
| GroupDelimiters.LateDelimiterDiffers | crates/truefix-dict/src/validate.rs:445-453 | for every group with a member declared before its delimiter, an entry holding both is accepted flat and refused structured when order is checked |
| GroupDelimiters.DelimitersExactly | crates/truefix-dict/src/validate.rs:392-621 | the validators agree on all field lists and options, up to unreadable counts and required groups that are empty or in the delimiter's place, if and only if every delimiter is its group's first member |
| GroupFindings.UnreadableCountDiffers | crates/truefix-dict/src/validate.rs:392-527 | a count that is not a number is rejected flat and accepted structured |
| GroupFindings.EmptyRequiredGroupDiffers | crates/truefix-dict/src/validate.rs:370-376 | a required nested group without entries is accepted flat and rejected structured |
| GroupFindings.RepeatedGroupDiffers | crates/truefix-dict/src/validate.rs:26-43 | a wrong count in a second group of the same tag is rejected flat and accepted structured |
| GroupFindings.LateDelimiterRejected | crates/truefix-dict/src/validate.rs:437-453 | an entry whose delimiter is declared second is accepted flat and rejected structured, with counts readable, required groups filled and no tag repeated |
| GroupFindings.CountTagDelimiterRejected | crates/truefix-dict/src/validate.rs:370-376 | a required count tag that serves as delimiter is present for the flat validator and absent for the structured one |
| GroupFindings.RestructureChanges | crates/truefix-core/src/codec/decode.rs:115-130 | restructuring a section with an unreadable count records the number of entries |
| GroupFaults.CheckGroupFaulty | crates/truefix-dict/src/validate.rs:392-500 | every rejection by the structured validator names the first fault of the tree: the count, then entry by entry and member by member place before value, then the first required tag not supplied |
| GroupFaults.ScanGroupFaulty | crates/truefix-dict/src/validate.rs:502-621 | the same for the flat validator and the tree read where it scans, the count coming last unless it is no number |
| GroupFaults.CountMismatch | crates/truefix-dict/src/validate.rs:392-621 | which of two reasons each validator gives for a group whose only fault is its count, by what follows it |
| Validation.HeaderTagsAreHeader | crates/truefix-dict/src/model.rs:390-407 | the header tags collected from a dictionary are exactly those is_header admits, wherever that recursion ends |
| Validation.ValidateMessage | crates/truefix-dict/src/validate.rs:63-300 | the message check with its loops, header tags collected from the dictionary, computes the rule-by-rule check |
| MessageValidity.ValidateIsValidity | crates/truefix-dict/src/validate.rs:64-308 | a message is accepted if and only if it is valid, said on message and dictionary alone: version, wire order, PossDup rules, a defined type, every top-level field, every group and every required tag |
| MessageValidity.EnvelopeChecked | crates/truefix-dict/src/validate.rs:68-133 | which rejection the envelope checks give, in their order |
| MessageValidity.TypeNamed | crates/truefix-dict/src/validate.rs:135-146 | a message without a type is a session rejection, one of an undefined type a business rejection |
| MessageValidity.FieldsChecked | crates/truefix-dict/src/validate.rs:148-250 | the first top-level field with a fault is reported, with the first of its faults: repeated, empty, unknown, malformed, not enumerated, not of this message |
| MessageValidity.GroupsChecked | crates/truefix-dict/src/validate.rs:322-365 | the group check accepts exactly when the first structured group of each count tag is acceptable and the groups spelled out in plain fields conform |
| MessageValidity.GroupsRejected | crates/truefix-dict/src/validate.rs:322-365 | which group's first fault a failed group check names |
| MessageValidity.RejectedFor | crates/truefix-dict/src/validate.rs:148-308 | the rejection of a message whose envelope and type pass: first faulty field, then groups, then the first missing required tag, then the first missing envelope tag |
| Validation.ScanRelaxed | crates/truefix-dict/src/validate.rs:502-621 | under relaxed options the flat validator accepts what it accepted and stops at the same place |
| Validation.RelaxingKeepsAcceptance | crates/truefix-dict/src/model.rs:679-748 | relaxing any set of options never turns an accepted message into a rejected one |
| Validation.DelimiterFlagKeepsVerdict | crates/truefix-dict/src/validate.rs:392-621 | the option that entries begin with their delimiter changes the reject reason at most, never the verdict |
| Components.Resolver.Resolve | crates/truefix-dict/src/parser.rs:390-426 | one memoised resolution keeps the memo right, restores the set being resolved, and fails only with a justified error |
| Components.ResolveAll | crates/truefix-dict/src/parser.rs:377-388 | in any visiting order, succeeds if and only if references are closed and acyclic, each result being the plain recursive expansion; a cycle error names a component that reaches itself, an unknown error a reference defined nowhere |
| Components.ExpandsUnique | crates/truefix-dict/src/parser.rs:390-426 | a component has at most one expansion |
| Components.ResolutionUnique | crates/truefix-dict/src/codegen.rs:121-148 | any two resolutions of the same definitions are equal, so neither order nor track matters |
| Components.Expand | crates/truefix-dict/src/parser.rs:490-507 | the loop splices resolved components into a member list or names the first unknown one |
| Components.ExpandMembersIsNaive | crates/truefix-dict/src/parser.rs:490-507 | splicing resolved components is plain recursive expansion and fails only on an undefined name |
| Components.ExpandedList | crates/truefix-dict/src/codegen.rs:150-168 | splicing succeeds if and only if every reference of the list is defined |
| GroupClosure.CollectGroupMembers | crates/truefix-dict/src/parser.rs:510-522 | ends on circular groups and adds only reachable members, each with its own members |
| GroupClosure.CollectAll | crates/truefix-dict/src/parser.rs:345-359 | with a shared visited set, collects exactly the tags reached from the seeds by one or more member steps |
| GroupClosure.ContainsIsReaches | crates/truefix-dict/src/model.rs:398-407 | on acyclic groups the unguarded recursion is reachability |
| GroupClosure.IsHeaderIsClosure | crates/truefix-dict/src/model.rs:390-407 | on acyclic groups is_header admits the header tags and exactly what the visited-set collection gathers from them |
| DictionaryLines.ScanModifiers | crates/truefix-dict/src/codegen.rs:290-301 | the words after a message's name: later lists replace earlier ones, the first bad one decides |
| DictionaryWords.ParseTagExactly | crates/truefix-dict/src/parser.rs:539-547 | a word is a tag exactly if it is the decimal text of one |
| DictionaryWords.MemberListExactly | crates/truefix-dict/src/parser.rs:549-566 | a member list reads as exactly what its comma-separated pieces spell, empty ones left out; else it is refused |
| DictionaryWords.ReadPiecesRefuses | crates/truefix-dict/src/codegen.rs:104-116 | a bad list is refused for its first piece that spells no member |
| DictionaryWords.ReadModifiersExactly | crates/truefix-dict/src/parser.rs:208-240 | modifiers are read exactly when all lists are spelled, and then the last list of each kind counts and the word ordered anywhere |
| DictionaryWords.SplitOnceExactly | crates/truefix-dict/src/parser.rs:160-170 | a value is cut at its first equals sign |
| RuntimeTrack.ScanValues | crates/truefix-dict/src/parser.rs:160-170 | the enumerated values in order and the last label of each |
| RuntimeTrack.ScanTags | crates/truefix-dict/src/parser.rs:198-207 | header and trailer tags, or a refusal if one is not a number |
| RuntimeTrack.ReadLine | crates/truefix-dict/src/parser.rs:85-296 | one line: every directive, its errors and what it adds to the tables |
| RuntimeTrack.ReadLines | crates/truefix-dict/src/parser.rs:85-296 | all lines in order, stopping at the first error |
| RuntimeDictionary.BuildChild | crates/truefix-dict/src/parser.rs:433-486 | a group's child dictionary, nested groups down to the depth cap |
| RuntimeDictionary.ChildFields | crates/truefix-dict/src/parser.rs:433-486 | a child holds exactly the known members, as the enclosing dictionary defines them, and is absent if and only if no member is known |
| RuntimeDictionary.ChildGroupsAre | crates/truefix-dict/src/parser.rs:433-486 | a child dictionary's names are its fields', its groups those among the members, each with its own child one level down, none below the cap |
| RuntimeDictionary.LinesInverse | crates/truefix-dict/src/parser.rs:171-196 | over any accepted lines fields and names stay each other's inverse |
| RuntimeDictionary.Compile | crates/truefix-dict/src/parser.rs:300-372 | succeeds if and only if there is a version, components are closed and acyclic and every list refers to defined ones; gives the expanded dictionary or a justified error |
| RuntimeDictionary.CompiledWellFormed | crates/truefix-dict/src/parser.rs:316-359 | what is compiled has inverse names, collected member tags equal to the closure, and children inside the dictionary |
| RuntimeDictionary.ParseDictionary | crates/truefix-dict/src/parser.rs:69-373 | the whole reader: exactly which documents are accepted, what is read from them, and that it is a well-formed dictionary in the sense the merge laws need |
| CodegenTrack.ReadGenLine | crates/truefix-dict/src/codegen.rs:181-336 | one line as the build-time reader takes it |
| CodegenTrack.GenCompile | crates/truefix-dict/src/codegen.rs:338-382 | succeeds if and only if components are closed and acyclic and every list refers to defined ones, and gives the expanded tables |
| CodegenTrack.ParseForCodegen | crates/truefix-dict/src/codegen.rs:175-382 | the whole build-time reader: exactly which documents are accepted and what is read from them |
| DualTrack.LineStep | crates/truefix-dict/src/codegen.rs:181-336 | from matching tables, the runtime reader takes a line if and only if the build-time one does and its own further demands are met, and the tables match again |
| DualTrack.LinesAgree | crates/truefix-dict/src/parser.rs:85-296 | over whole documents, with what every table owes to the lines |
| DualTrack.AcceptanceExactly | crates/truefix-dict/src/parser.rs:69-373 | the runtime reader accepts a document if and only if the build-time reader does and the document has a version, complete version metadata, known field types, no tag, name or message type twice, and sound required lists |
| DualTrack.TracksAgree | crates/truefix-dict/src/codegen.rs:175-382 | where both accept they read the same: names, types, values and labels of fields; delimiters and expanded members of groups; required, optional and ordered lists of messages, each message once |
| DualTrack.ReadBoth | crates/truefix-dict/src/parser.rs:69-373 | both readers on one document: the runtime's success implies the other's, with the same content |
| DocumentReading.RuntimeTakes | crates/truefix-dict/src/parser.rs:85-296 | the lines the runtime reader takes: each well written and fit, no tag, name or message type defined twice |
| DocumentReading.RuntimeTables | crates/truefix-dict/src/parser.rs:85-296 | what it has then collected, table by table, as relations on the lines: fields with values and labels, messages, groups with required lists, components, header and trailer tags, version |
| DocumentReading.RefusedLine | crates/truefix-dict/src/parser.rs:85-296 | a document is refused for its first bad line, with its number and the reason that holds of it |
| DocumentReading.GenTakes | crates/truefix-dict/src/codegen.rs:181-336 | the lines the build-time reader takes, each by itself |
| DocumentReading.GenTables | crates/truefix-dict/src/codegen.rs:181-336 | what it has then collected, duplicates included, and every message line in order |
| DocumentReading.GenRefusedLine | crates/truefix-dict/src/codegen.rs:181-336 | the build-time reader refuses a document for its first bad line, by its number, or by the first piece of a list that spells no member |
| Merging.FindClash | crates/truefix-dict/src/model.rs:456-509 | finds an entry two tables disagree on, if and only if there is one |
| Merging.DataDictionary.FindConflict | crates/truefix-dict/src/model.rs:456-509 | the dry run reports a genuine conflict, if and only if there is one |
| Merging.DataDictionary.Recollect | crates/truefix-dict/src/model.rs:536-548 | every message's member tags become its closure under the merged groups |
| Merging.DataDictionary.Extend | crates/truefix-dict/src/model.rs:456-551 | succeeds if and only if the two are compatible; a failure changes nothing and names a genuine conflict; a success is the merge |
| Merging.MergedIsUnion | crates/truefix-dict/src/model.rs:512-550 | after a merge every table, header and trailer included, is the union of both, the version is kept, and each message is as it was with its tags collected under the merged groups |
| Merging.MergedWellFormed | crates/truefix-dict/src/model.rs:456-551 | a merge of well-formed dictionaries is well formed and keeps both parts' fields and groups |
| Merging.ExtendRunKeeps | crates/truefix-dict/src/model.rs:456-551 | over any sequence of merges, refused ones included, the result is well formed and no field or group in force changes |
| Merging.ChildLookupIsDirect | crates/truefix-dict/src/validate.rs:644-651 | in a well-formed dictionary asking a group's child first and the dictionary second is asking the dictionary |
| Merging.OnlyMessagesCanConflict | crates/truefix-dict/src/model.rs:447-489 | after a merge only the extension's messages can still conflict with it |
| Merging.ExtendTwice | crates/truefix-dict/src/model.rs:447-551 | a second merge of the same extension is refused if and only if the first changed the member tags of one of its messages, and otherwise changes nothing |
| Merging.ExtendTwiceCanFail | crates/truefix-dict/src/model.rs:447-489 | the refusal happens for well-formed, compatible dictionaries |
| Pruning.FlattenMembers | crates/truefix-dict/src/fix_repository.rs:566-588 | the loop inlines components as the recursive definition does, and fails exactly beyond the depth limit |
| Pruning.Prune | crates/truefix-dict/src/fix_repository.rs:742-765 | ends with no empty component, having dropped exactly a set of components that stood for no tags and the references to them |
| Pruning.FlattenDropped | crates/truefix-dict/src/fix_repository.rs:566-588 | a list that flattens within some number of levels still does after pruning, to the same tags |
| Pruning.FlatteningKept | crates/truefix-dict/src/fix_repository.rs:742-765 | exactly the same lists have a flattening before and after, and it is the same |
| Pruning.PrunedIsClosed | crates/truefix-dict/src/fix_repository.rs:742-765 | no reference dangles afterwards if none did before |
| Pruning.PrunedExactly | crates/truefix-dict/src/fix_repository.rs:742-765 | with distinct names, a component is dropped if and only if it stands for no tags |
| Pruning.PrunedTable | crates/truefix-dict/src/fix_repository.rs:742-765 | the pruned document's component table is the table of the survivors |
| Pruning.FlatteningIsExpansion | crates/truefix-dict/src/fix_repository.rs:566-588 | where every reference is defined, flattening gives the tags the components expand to |
| Pruning.UndefinedFlattensToNothing | crates/truefix-dict/src/fix_repository.rs:566-588 | an undefined reference stands for no tags |
| VendorXml.Converter.ResolveMembers | crates/truefix-dict/src/vendor_xml.rs:610-703 | the loop over entries gives the tokens, writes the group lines and marks the count tags as the recursive definition does |
| VendorXml.Converter.ResolveEntry | crates/truefix-dict/src/vendor_xml.rs:618-701 | one entry: a tag, a component reference, or a group whose line is written once |
| VendorGroups.ResolveEmits | crates/truefix-dict/src/vendor_xml.rs:610-703 | new group lines have distinct count tags that had no turn before, each line is as its group says, and every group referred to is covered |
| VendorGroups.FirstTagIsHead | crates/truefix-dict/src/vendor_xml.rs:711-744 | on components that expand, following first members ends, and a tag found is the head of the expansion |
| VendorGroups.DelimiterExactly | crates/truefix-dict/src/vendor_xml.rs:673-684 | a line's delimiter is the head of its expanded members if and only if following first members ends at a tag, or the count tag happens to come first |
| VendorGroups.DelimiterIsHead | crates/truefix-dict/src/vendor_xml.rs:673-684 | with components that expand and are not empty the delimiter is the head of the expanded members |
| VendorGroups.EmptyComponentMisleads | crates/truefix-dict/src/vendor_xml.rs:673-684 | a group opening with an empty component and then a field gets its count tag as delimiter |
| VendorGroups.Render | crates/truefix-dict/src/vendor_xml.rs:487-546 | every component and message is written with known references; every group referred to from them or from a group line has exactly one line |
| VendorOutcomes.Convert | crates/truefix-dict/src/vendor_xml.rs:487-546 | a document in which every name is known and every group finds its first tag is converted, a refused one has the fault named, and what is written is the document's |
| VendorOutcomes.ResolveFails | crates/truefix-dict/src/vendor_xml.rs:610-703 | a list is refused only for an unknown name in it or in a group inside it, or for a group that finds no first tag |
| VendorOutcomes.FirstTagFails | crates/truefix-dict/src/vendor_xml.rs:711-744 | no first tag is found only for an unknown name at the head of a list or a cycle of heads |
| VendorOutcomes.RequiredAreMembers | crates/truefix-dict/src/vendor_xml.rs:652-672 | the required and the optional list hold exactly the members so flagged |
| VendorOutcomes.ByNameIsLast | crates/truefix-dict/src/vendor_xml.rs:487-546 | of several components of one name the last counts |
| VendorReading.ListReads | crates/truefix-dict/src/parser.rs:549-566 | a member list written with commas is read back as it was |
| VendorReading.GroupLineReads | crates/truefix-dict/src/parser.rs:241-263 | a written group line is refused without members and else read as it was written |
| VendorReading.WrittenReads | crates/truefix-dict/src/parser.rs:85-296 | if the runtime reader takes a converted document line by line, no component or group in it is empty and the tables read are those written |
| VendorReading.EmptyComponentRefused | crates/truefix-dict/src/vendor_xml.rs:490-500 | the conversion of a document with an empty component is refused on reading |
| VendorReading.RenderedDelimiters | crates/truefix-dict/src/vendor_xml.rs:487-546 | in the dictionary the runtime reader makes of an accepted converted document, every delimiter is its group's first member |
| FastTemplates.Parser.HandleStart | crates/truefix-dict/src/fast_template.rs:221-271 | a start or empty element takes the machine one step |
| FastTemplates.Parser.HandleEnd | crates/truefix-dict/src/fast_template.rs:273-288 | an end element takes the machine one step |
| FastTemplates.Parser.Push | crates/truefix-dict/src/fast_template.rs:290-296 | a field goes to the innermost open group, else the open template, else nowhere |
| FastTemplates.Parser.CloseGroup | crates/truefix-dict/src/fast_template.rs:298-311 | the innermost group becomes a field of what encloses it |
| FastTemplates.Parser.Insert | crates/truefix-dict/src/fast_template.rs:313-325 | the template is stored; a repeated id is an error that names the greatest id |
| FastTemplates.ParseTemplates | crates/truefix-dict/src/fast_template.rs:187-210 | the loop over events gives the machine's templates or its first error |
| FastDocuments.NodesRun | crates/truefix-dict/src/fast_template.rs:220-311 | from any enclosing stack the events of nested elements push exactly the fields they mean and restore the stack |
| FastDocuments.DocsRun | crates/truefix-dict/src/fast_template.rs:220-326 | over any well-nested document the machine adds the document's templates in order and fails at the first repeated id with that id |
| FastDocuments.ParsesForest | crates/truefix-dict/src/fast_template.rs:187-326 | parsing succeeds if and only if the template ids are distinct, and then rebuilds exactly the forest |
| FastDocuments.RunFormed | crates/truefix-dict/src/fast_template.rs:220-326 | over every event stream, well nested or not, all fields built are well formed and templates stand under their own ids |
| FastDocuments.ParsedTemplatesRoundTrip | crates/truefix-dict/src/fast_template.rs:187-326 | whatever stream was accepted, its templates written out in any order parse back to themselves |
| FastDocuments.LateDuplicateNamesAnotherId | crates/truefix-dict/src/fast_template.rs:313-325 | a stream on which a duplicate noticed at the end of a template is reported under another id |
| FastDocuments.DuplicateReported | crates/truefix-dict/src/fast_template.rs:221-325 | over every stream a duplicate is reported only where an id is repeated, and the id named is the repeated one if and only if that shows at a start or the repeated one is the greatest |
| FastDocuments.UnnestedNamesRepeated | crates/truefix-dict/src/fast_template.rs:273-325 | on every stream in which no template starts inside another the id named is the repeated one |
| FastDocuments.StepFails | crates/truefix-dict/src/fast_template.rs:220-326 | on every stream, an event is refused exactly if it is malformed or starts or ends a template of a recorded id |
| FastDocuments.TemplateStepTouches | crates/truefix-dict/src/fast_template.rs:220-326 | template elements touch no open group, and recorded templates stay |
| FastDocuments.OtherStepTouches | crates/truefix-dict/src/fast_template.rs:220-326 | fields and groups touch no recorded template and only the innermost open group or else the open template |
| SbeOffsets.ValidateOffsets | crates/truefix-dict/src/sbe_schema.rs:369-383 | accepts if and only if no two fields share a byte below u32::MAX; otherwise names the first field, and its first byte, to meet an earlier one |
| SbeOffsets.WidthHoldsRange | crates/truefix-dict/src/sbe_schema.rs:115-122 | a type's width in bytes is what its range of values takes |
| SbeOffsets.SideBySideExactly | crates/truefix-dict/src/sbe_schema.rs:369-383 | the fields lie side by side if and only if they are accepted and at most one reaches byte u32::MAX |
| SbeOffsets.LastByteIsNotSeen | crates/truefix-dict/src/sbe_schema.rs:369-383 | two fields at the greatest offset are accepted |
| Settings.Interpolator.InterpolateValue | crates/truefix-config/src/lib.rs:334-378 | ends on every settings map, computes interpolation, and restores the stack of names being resolved, failing or not |
| Settings.NextRefCuts | crates/truefix-config/src/lib.rs:334-378 | a text is cut at its first ${ and the first } after it, nothing added and nothing lost |
| Settings.CutIntoPieces | crates/truefix-config/src/lib.rs:334-378 | every text is literal pieces and references, and perhaps a reference never closed |
| Settings.PiecesUnique | crates/truefix-config/src/lib.rs:334-378 | in one way only |
| Settings.InterpolatePieces | crates/truefix-config/src/lib.rs:334-378 | interpolation keeps the literal pieces, puts each reference's replacement in its place, and reports the first reference that fails or the text of one never closed |
| Settings.FailureBlames | crates/truefix-config/src/lib.rs:334-378 | an unresolved name is mentioned and stands for nothing or is left open, a circular one is mentioned and leads back to itself |
| Settings.InterpolateIsSubstitution | crates/truefix-config/src/lib.rs:334-378 | what interpolation gives is what plain recursive substitution gives |
| Settings.InterpolateSucceedsWhen | crates/truefix-config/src/lib.rs:334-378 | interpolation succeeds if and only if all texts reached are closed and resolvable and no key reached refers back to itself |
| SettingsFile.InterpolateMap | crates/truefix-config/src/lib.rs:316-332 | resolves every value of a section or reports one that cannot be resolved |
| SettingsFile.HasDuplicate | crates/truefix-config/src/lib.rs:238-265 | finds two sessions with one identity, if and only if there are any |
| SettingsFile.IdentityExactly | crates/truefix-config/src/lib.rs:238-255 | two sessions have one identity exactly when all eight parts agree, absent ones being empty |
| SettingsFile.Parse | crates/truefix-config/src/lib.rs:162-214 | exactly when a document parses, and what it then holds |
| SettingsFile.GatherFails | crates/truefix-config/src/lib.rs:175-192 | lines are refused exactly if one is neither header nor pair, and the first such is reported |
| SettingsFile.PairsKeptAfterHeader | crates/truefix-config/src/lib.rs:267-285 | pairs before the first header leave no trace whatever follows, pairs after one are added to its section |
| SettingsFile.DocumentGathers | crates/truefix-config/src/lib.rs:162-192 | what a document of stray pairs, a default section and a session gathers to |
| SettingsFile.FirstPairLost | crates/truefix-config/src/lib.rs:162-192 | a document whose first pair is lost |
| SettingsFile.Inherited | crates/truefix-config/src/lib.rs:195-204 | in a parsed document a resolved default without a reference reaches every session that does not override it, and own pairs are resolved with own pairs in scope |
| SettingsFile.InheritedExactly | crates/truefix-config/src/lib.rs:195-204 | a resolved default is left unchanged over every session that does not override it if and only if it contains no reference; sessions range over all non-empty maps, also those whose keys no line can spell |
| SettingsFile.DisturbedDocument | crates/truefix-config/src/lib.rs:162-204 | where it contains one, the document with a session of one line, setting the first name referred to, does not resolve or changes the default |
| SettingsFile.ResolvedDefaultCanFail | crates/truefix-config/src/lib.rs:195-204 | a document whose defaults resolve and whose session, adding nothing to them, does not |
| RequestActor.ApplyAccounted | crates/truefix-futu-client/src/actor.rs:38-146 | every step keeps each waiting request in exactly one place and never touches a settled one |
| RequestActor.ApplyCorrelated | crates/truefix-futu-client/src/actor.rs:38-146 | every step before overflow keeps serials distinct and each pending entry under its owner's serial |
| RequestActor.RunInv | crates/truefix-futu-client/src/actor.rs:38-146 | the invariant holds after every sequence of events |
| RequestConnection.Connection.NextSerial | crates/truefix-futu-client/src/client.rs:160-163 | the counter is bumped, wrapping, and the one value that cannot be incremented is refused |
| RequestConnection.Connection.OnCommand | crates/truefix-futu-client/src/actor.rs:85-104 | taking a request: its serial, its table entry, a failed write |
| RequestConnection.Connection.OnResponse | crates/truefix-futu-client/src/actor.rs:106-119 | a response answers the request pending under its serial, if any |
| RequestConnection.Connection.OnKeepAlive | crates/truefix-futu-client/src/actor.rs:121-133 | a keepalive spends a serial and ends the connection on failure |
| RequestConnection.Connection.FailPending | crates/truefix-futu-client/src/actor.rs:135-141 | the loop empties the table and fails exactly the requests in it |
| RequestConnection.Connection.Finish | crates/truefix-futu-client/src/actor.rs:79-83 | ending the connection settles all that is pending or queued |
| RequestConnection.RunConnection | crates/truefix-futu-client/src/actor.rs:38-83 | a connection fed any events ends in the state machine's state, so all laws hold of the object |
| RequestRuns.CompletesAtMostOnce | crates/truefix-futu-client/src/handle.rs:17-39 | a request's first outcome is its last, whatever happens afterwards |
| RequestRuns.NeverDisplaced | crates/truefix-futu-client/src/actor.rs:85-104 | before overflow the table entry a request takes is free |
| RequestRuns.CompletedByOwnResponse | crates/truefix-futu-client/src/actor.rs:106-119 | a completed request was completed by a response among the events that carried its own serial |
| RequestRuns.ResponseReachesOwner | crates/truefix-futu-client/src/actor.rs:106-119 | a response reaches no request but its serial's owner, and none at all once that one is settled |
| RequestOutcomes.ResponseCompletes | crates/truefix-futu-client/src/actor.rs:106-119 | in every run a response completes the waiting request its serial is pending for with its body, takes the entry out and changes nothing else |
| RequestOutcomes.OutcomeOfStep | crates/truefix-futu-client/src/actor.rs:38-146 | in every run before overflow, what each step makes of a waiting request: timed out, done with its own response, failed with its write, failed with the connection, or waiting on |
| RequestOutcomes.EndsExactly | crates/truefix-futu-client/src/actor.rs:38-83 | which steps end the connection |
| RequestOutcomes.Served | crates/truefix-futu-client/src/actor.rs:85-119 | a request that is next, sent with a good write and left undisturbed on a live connection is completed by the response to its serial |
| RequestOutcomes.SubmitWaits | crates/truefix-futu-client/src/handle.rs:17-39 | a new request submitted to a live connection waits at the end of the queue, with the serial reserved for it if any |
| RequestOutcomes.FirstInFirstOut | crates/truefix-futu-client/src/actor.rs:38-56 | commands are taken in the order they were sent |
| RequestOutcomes.RunHeldOnce | crates/truefix-futu-client/src/actor.rs:85-119 | no request is pending under two serials or both pending and queued |
| RequestRuns.SerialsAreFresh | crates/truefix-futu-client/src/actor.rs:143-146 | before overflow a new serial is larger than all before |
| RequestRuns.NothingLeftBehind | crates/truefix-futu-client/src/actor.rs:38-83 | a waiting request is queued or pending on a live connection; none waits after it has ended |
| RequestRuns.SubmitAfterEndFails | crates/truefix-futu-client/src/handle.rs:17-39 | a request sent to an ended connection fails at once and for good |
| RequestRuns.RunCounts | crates/truefix-futu-client/src/client.rs:160-163 | over every run the counter is one more than the allocations made, modulo the wrap, and a serial has been refused if and only if at least 2^32 - 1 allocations were made |
| RequestRuns.ReserveGivesNth | crates/truefix-futu-client/src/client.rs:160-163 | in every run a caller's allocation gives it the serial of that number, or fails its request where there is none |
| RequestRuns.SerialsRepeatByWrap | crates/truefix-futu-client/src/client.rs:160-163 | two allocations give the same serial if and only if they are whole counter wraps apart |
| RequestRuns.FirstSerialRepeats | crates/truefix-futu-client/src/client.rs:160-163 | a run in which two requests hold the same serial, the first one handed out again after one wrap |
| RequestRuns.OverflowFailsOne | crates/truefix-futu-client/src/client.rs:160-163 | an overflowing allocation ends the connection when the actor makes it and fails only the one request when the client does |
| RequestRuns.OverflowIsReached | crates/truefix-futu-client/src/client.rs:160-163 | a run reaches the state in which the next allocation overflows |
| Replay.ReplayState.RememberSubscription | crates/truefix-futu-client/src/client.rs:247-265 | one remembered request: clear all, drop the key, or drop it and append |
| Replay.RetainOthers | crates/truefix-futu-client/src/client.rs:255-263 | keeps exactly the entries of other keys, in order |
| Replay.RememberAll | crates/truefix-futu-client/src/client.rs:247-265 | after any history the log is the normalised contents of the live events (subscribes with no later event about their key or about all), each once, in order |
| Replay.LogIsLive | crates/truefix-futu-client/src/client.rs:247-265 | the same of the log as a function of the history |
| Replay.LiveListUnique | crates/truefix-futu-client/src/client.rs:247-265 | the list of live events is determined by the history |
| Replay.OneEntryPerKey | crates/truefix-futu-client/src/client.rs:408-416 | no two entries of a log have the same key |
| Replay.WhatStays | crates/truefix-futu-client/src/client.rs:247-265 | two requests that differ in one of the seven key fields both stay, with all they asked for; of two alike the later one stands; unsubscribing takes out exactly the entries alike |
| Replay.UnsubscribeAllClears | crates/truefix-futu-client/src/client.rs:247-253 | unsubscribing from all empties the log |
| Replay.ReplayReproducesLog | crates/truefix-futu-client/src/client.rs:317-341 | the requests sent on reconnection, remembered afresh, give the log they were sent from |

## Left out

- Decoding bytes into fields (`tokenize`, checksum and length errors in decode.rs): only structuring and flattening of decoded fields are modelled.
- Field order on encoding (`render_members_ordered`): only the envelope around an arbitrary body is modelled.
- FieldMap editing (`set`, `remove_group`, `replace_group`): one-branch facts; the tree the validators walk is modelled as a value.
- Text, date, decimal and character formats of field values and the BeginString version syntax: arguments (`Formats`), since they rest on foreign libraries.
- Groups in a message's trailer: neither validator looks at them.
- Cutting comments and splitting lines into words, in dictionaries and in settings: both dictionary readers do it by the same rule, so documents are lists of words.
- XML tokenising and attribute syntax, file and environment access: events and arguments.
- Vendor field, header and trailer lines: one lookup each; only members and groups are modelled.
- Converted dictionaries as text: lines are lists of words, so a name with a blank is not captured, and one with a comma is excluded where a document is read back.
- Cyclic vendor components whose opening members lead round the cycle overflow the stack in the source; the model reports `StackOverflow`.
- Independent readings of member lists and message modifiers, component resolution and member expansion by the two dictionary readers: the source writes the same code twice (codegen.rs:104-168 repeats the runtime parser) and the model shares one definition (`DictionaryLines`, `Components.ResolveAll`, `Components.Expand`), so the readers' agreement on these holds by sharing.
- FrameReader.Reader.ReadMessage: cuts the frame off without decoding it; the decoding verdict of the same source function is in `FrameReader.Reader.ReceiveMessage`, which calls it.
- The reason texts of errors: an error carries its kind, line, tag or name only.
- The overflow branch of the framer's additions: it is modelled, and no buffer a program can hold reaches it (`Framing.NoAdditionOverflow`), so the laws about verdicts speak of buffers of at most isize::MAX bytes.
- `hash`, `version_meta` comparison and generated code: constants and string layout.
- Group stack of the SBE parser: the same machine as the FAST one, without its operators.
- Offsets of fields inside SBE groups: the source does not check them.
- Network clients, transport, encryption, push decoding and the command-line tools.
- Uniqueness of serials across the counter reset of a reconnection, and shutdown racing reconnection: the code does not provide them. A model run is one counter epoch, from one reset to the next; the old connection may outlive the reset in the source and is not followed beyond it.
- The replay of unlocked trading and account pushes: simpler forms of the subscription log.
- Settings keys and the session builder: long tables of one-branch lookups.
- Children of child dictionaries deeper than the cap of 16: absent, as in the source; laws about children speak of the first level, the only one validation consults.
