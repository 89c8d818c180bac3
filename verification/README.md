# Verified models of Chatterino's message core

These Dafny modules model the parts of Chatterino that keep state or compute something a reader cannot
check at a glance, and prove what the code promises about them:

- the bounded message history and the fill with historical messages (`LimitedQueue.dfy`, `History.dfy`,
  `Channel.dfy`),
- the observable vector and the table model over it (`SignalVector.dfy`, `ModelRows.dfy`),
- the link recogniser (`LinkParser.dfy`, `LinkTheorems.dfy`, `LinkPorts.dfy`,
  `LinkAcceptance.dfy`, `Ipv4.dfy`),
- the message builder's walk over words and emotes, and the bits that cheermotes take (`WordCursor.dfy`,
  `MessageWords.dfy`, `Cheermotes.dfy`, `CheermoteLaw.dfy`),
- message similarity, the clock of animated images, the wrapping of long words, the window layout, and the
  argument string of the crash handler (`Similarity.dfy`, `GifClock.dfy`, `Wrapping.dfy`,
  `WindowLayout.dfy`, `ArgumentEncoding.dfy`).

`Collections.dfy`, `CodeUnits.dfy` and `Arithmetic.dfy` hold facts that several of them share.
`dafny verify dfyconfig.toml` checks everything.

## How the parts fit

**History.** `LimitedQueue` is a class whose `buffer` is the contents of the circular buffer. Every modifier
is specified as the same call on a list without a limit (`Apply`), followed by keeping the last `limit`
elements. `StepRefines` says exactly when the bounded call agrees with the unbounded one: always, unless the
needle was evicted while an equal element is still in the window and the call is not a no-op there. Over a run
with pairwise distinct identities this never happens (`FreshRunRefines`). `FillInMissingMessages` takes, as
`appends`, what other threads append before each of its insertions, so that its contract holds for every
interleaving; `Weave` is where the fill puts the messages, `WeavePlaces` says in received times which messages of the
snapshot each one goes in front of, and `FillIsSortedMerge` shows that for an ascending fill list this is the stable
merge.

**Vector and model.** Signals are calls of the connected model. `InSync` says that the ordinary rows, decoded
with the model's own `getItemFromRow`, are the items of the vector. `RunStaysInSync` covers every sequence of edits
with arguments in range, on sorted and unsorted vectors: it runs through and stays in step if and only if every item
that `setData` rewrites keeps its place in the order, which on an unsorted vector it always does; `ApplyEdits` runs
such a sequence on a vector and its model.

**Links.** Views are index ranges over a text of UTF-16 code units. `ParseLink` is the scanner; `Parse` is what
it finds, stated with longest runs, sections and nesting depth instead of loops. Tiling, the place of the end,
stability under parsing again and indifference to surrounding punctuation are proved about `Parse`.
`RecognisedExactly` says for which texts there is a link, in protocols, domains and rests, and `LinkPortKeepsPromise` when
a port is followed by a path.

**Words and bits.** `Walk` is the way of the cursor and the iterator through the words; `AddWords` follows it for
every list and emits a group of elements for every word. `StartsAreTrue` says for which lists the cursor is at the
true start of every word. A group *shows* its word: it spells it, holds its occurrences in order, and every emote
stands where it occurs (`ShownOneWay`: only one list does). An occurrence that no word lets in stops the emotes of the
whole message; `Fitting` says which beginning of the list is emitted. `Try` is what one token does to the bits left,
`Spend` what a message does. `ReadAlongTakes` is the law of one token for any sets, and `LawHoldsExactly` names the
sets for which it always applies.

## Model

| member | source | states |
|---|---|---|
| `LimitedQueues.LimitedQueue.constructor` | src/messages/LimitedQueue.hpp:22-26 | a new queue is empty and has the given limit, zero included |
| `LimitedQueues.LimitedQueue.PushBackItem` | src/messages/LimitedQueue.hpp:139-150 | the contents are the last `limit` of the old contents and the item; the deleted element is handed back exactly when the queue was full |
| `LimitedQueues.LimitedQueue.PushBackPlain` | src/messages/LimitedQueue.hpp:158-165 | the same without the deleted element; a queue without room drops the item |
| `LimitedQueues.LimitedQueue.PushFrontItems` | src/messages/LimitedQueue.hpp:177-194 | only the last items that fit are put in front, in order, none is evicted, and they are returned |
| `LimitedQueues.LimitedQueue.ReplaceItem` | src/messages/LimitedQueue.hpp:205-219 | the first equal element is replaced and its index returned; -1 and no change without one |
| `LimitedQueues.LimitedQueue.ReplaceItemAt` | src/messages/LimitedQueue.hpp:229-247 | replaces exactly an element in range and returns the previous one |
| `LimitedQueues.LimitedQueue.ReplaceItemHinted` | src/messages/LimitedQueue.hpp:257-276 | the element at the hint is replaced if it is the needle, else the first equal one |
| `LimitedQueues.LimitedQueue.InsertBeforeItem` | src/messages/LimitedQueue.hpp:286-302 | unbounded insertion before the first needle, then the last `limit` elements; true means that the needle was found |
| `LimitedQueues.LimitedQueue.InsertAfterItem` | src/messages/LimitedQueue.hpp:312-329 | unbounded insertion after the first needle, then the last `limit` elements |
| `LimitedQueues.LimitedQueue.ClearAll` | src/messages/LimitedQueue.hpp:125-130 | empties the queue |
| `LimitedQueues.LimitedQueue.GetSnapshot` | src/messages/LimitedQueue.hpp:331-335 | all elements in order |
| `LimitedQueues.LimitedQueue.GetLastN` | src/messages/LimitedQueue.hpp:337-344 | the last `n` elements, or all of them |
| `LimitedQueues.LimitedQueue.RFind` | src/messages/LimitedQueue.hpp:433-447 | the match closest to the end; none exactly if nothing matches |
| `LimitedQueues.CircularInsertIsLastN` | src/messages/LimitedQueue.hpp:296-296 | inserting into a full circular buffer, also before its first element, is inserting without a limit and keeping the last elements |
| `LimitedQueues.StepRefines` | src/messages/LimitedQueue.hpp:139-329 | one call on the window of an unbounded list gives the window of the result if and only if the needle is not shadowed or the call is harmless |
| `LimitedQueues.RunRefines` | src/messages/LimitedQueue.hpp:139-329 | over every run of such calls, after each of them the queue is the last `limit` elements of the unbounded list, if and only if every call is resolved |
| `LimitedQueues.UniqueNeedleIsResolved` | src/messages/LimitedQueue.hpp:286-329 | with pairwise distinct elements no needle is both evicted and in the window |
| `LimitedQueues.FreshRunRefines` | src/messages/LimitedQueue.hpp:139-329 | runs that only introduce new elements always refine, evicted needles and full buffers included |
| `LimitedQueues.FreshKeepsDistinct` | src/messages/LimitedQueue.hpp:139-329 | such calls keep the history pairwise distinct |
| `LimitedQueues.DuplicateNeedleDiverges` | src/messages/LimitedQueue.hpp:204-219 | a concrete run with equal elements in which the queue does not refine the unbounded list |
| `LimitedQueues.FoundButDropped` | src/messages/LimitedQueue.hpp:292-299 | a found needle with the item not inserted happens exactly when the buffer is full and starts with the needle |
| `Channels.Channel.constructor` | src/common/Channel.cpp:20-31 | a new channel has the given limit, zero included, no messages, and has emitted nothing |
| `Channels.Channel.AddMessage` | src/common/Channel.cpp:109-139 | appends to the bounded history; the removal of the first message is signalled exactly when the queue was full, with that message and in front of the append |
| `Channels.Channel.AddMessagesAtStart` | src/common/Channel.cpp:186-200 | the messages that fit go to the front and are signalled, if any |
| `Channels.Channel.AppendConcurrently` | src/common/Channel.cpp:239-243 | appends between two critical sections keep the last `limit` elements; they are signalled in order and nothing else is, and what is signalled as removed and what is left are the old messages and the new ones |
| `Channels.Channel.CollectIds` | src/common/Channel.cpp:223-235 | the ids of the messages that are neither system messages nor without an id |
| `Channels.Channel.FillInMissingMessages` | src/common/Channel.cpp:202-291 | under every interleaving of appends the queue is the last `limit` of the woven snapshot and then the appends; the signals are those of the appends, and one final fill signal if and only if something was missing |
| `Channels.Channel.FillOne` | src/common/Channel.cpp:244-283 | one iteration: known ids are skipped, others inserted before their anchor or after the end |
| `Channels.Channel.Place` | src/common/Channel.cpp:255-282 | before the first later user message of the snapshot, else after the last one placed, which the message becomes |
| `Channels.Channel.FillEmpty` | src/common/Channel.cpp:213-221 | an empty channel takes the list to the front of what is appended meanwhile |
| `Channels.Channel.ReplaceMessage` | src/common/Channel.cpp:293-303 | replaces the message and signals its index, or does nothing |
| `Channels.Channel.ReplaceMessageHinted` | src/common/Channel.cpp:316-326 | replaces the message; the signal carries the hint |
| `Channels.Channel.ClearMessages` | src/common/Channel.cpp:337-341 | empties the history and signals it |
| `Channels.Channel.FindMessageByID` | src/common/Channel.cpp:343-356 | the newest message with the id; none exactly if there is none |
| `History.AnchorIsFirst` | src/common/Channel.cpp:256-273 | the anchor is the first user message that is strictly later |
| `History.WeavePlaces` | src/common/Channel.cpp:255-282 | for any snapshot and any list, a message goes in front of a snapshot message if and only if that one or one before it is a user message with a strictly later received time |
| `History.TiesStayBehind` | src/common/Channel.cpp:263-263 | in an ascending snapshot a message goes in front of a user message if and only if it is strictly earlier |
| `History.WeaveConserves` | src/common/Channel.cpp:244-283 | placing messages loses, invents and repeats none |
| `History.FillApplies` | src/common/Channel.cpp:244-283 | an insertion call on the woven list followed by appends weaves one more message in, and the tracked last message stays the end of the woven part |
| `History.FillStep` | src/common/Channel.cpp:239-283 | the same on the bounded queue, whatever has been evicted |
| `History.WeaveIsMerge` | src/common/Channel.cpp:263-282 | for an ascending fill list the result is the stable merge by received time, snapshot first on ties |
| `History.MergeAscends` | src/common/Channel.cpp:263-282 | merging ascending lists is ascending but for system messages |
| `History.MergeKeepsOrder` | src/common/Channel.cpp:244-283 | both lists keep their own order |
| `Channels.FillIteration` | src/common/Channel.cpp:244-283 | the loop invariant of the fill: one iteration with concurrent appends leads from one filled state to the next |
| `Channels.FillIsSortedMerge` | src/common/Channel.cpp:202-291 | the filled queue is the end of the merge and the appends; the merge has every message once, keeps both orders, is sorted but for system messages, and has a message in front of a snapshot message exactly if that one or one before it is a strictly later user message |
| `Channels.FillInsertsMissing` | src/common/Channel.cpp:223-250 | a message is in the result exactly if it was in the snapshot or is in the list under an id that no user message of the snapshot has; under such an id no copy is added |
| `Channels.SecondFill` | src/common/Channel.cpp:223-250 | with room for all, a second fill inserts nothing if and only if every inserted message left a findable id |
| `Channels.FillTwice` | src/common/Channel.cpp:223-283 | for user messages with ids a second fill with the same list only lets the appends through |
| `Channels.HintedSignalAccuracy` | src/common/Channel.cpp:316-326 | the signalled index is the written one if and only if the hint was right |
| `SignalVectors.LowerBound` | src/common/SignalVector.hpp:81-84 | the first position whose element is not less than the item |
| `SignalVectors.InsertKeepsSorted` | src/common/SignalVector.hpp:79-85 | inserting at the lower bound keeps a vector sorted under a strict weak order; part of the invariant of the class |
| `SignalVectors.RemoveKeepsSorted` | src/common/SignalVector.hpp:121-133 | removing keeps it sorted; part of the invariant of the class |
| `SignalVectors.SignalVector.constructor` | src/common/SignalVector.hpp:32-46 | a new vector and its read-only copy are empty |
| `SignalVectors.SignalVector.Insert` | src/common/SignalVector.hpp:75-106 | a sorted vector takes the item behind all that are less and stays sorted, an unsorted one at the proposed index, and -1 appends; the copy is updated, the connected model gets a row unless it is the caller, and stays in step |
| `SignalVectors.SignalVector.PlaceAt` | src/common/SignalVector.hpp:98-103 | an item put in its place reaches the copy and the connected model |
| `SignalVectors.SignalVector.RemoveAtIndex` | src/common/SignalVector.hpp:121-133 | removes one item, its row unless the model is the caller, and keeps order and step |
| `SignalVectors.SignalVector.RemoveFirstMatching` | src/common/SignalVector.hpp:135-154 | removes the first match and nothing else; true exactly if there is a match |
| `SignalVectors.SignalVectorModel.constructor` | src/common/SignalVectorModel.hpp:30-38 | a new model has no rows |
| `SignalVectors.SignalVectorModel.GetVectorIndexFromModelIndex` | src/common/SignalVectorModel.hpp:477-497 | the number of ordinary rows before an ordinary row; their total for any other index |
| `SignalVectors.SignalVectorModel.GetModelIndexFromVectorIndex` | src/common/SignalVectorModel.hpp:501-521 | the ordinary row with that many ordinary rows before it, or the end |
| `ModelRows.IndexMapsInvert` | src/common/SignalVectorModel.hpp:477-521 | the index maps are inverse between vector indices and ordinary rows for any custom rows; the vector length maps to the end, custom rows to the vector length |
| `SignalVectors.SignalVectorModel.OnItemInserted` | src/common/SignalVectorModel.hpp:44-64 | a foreign insertion adds an ordinary row at the mapped index, an own one nothing |
| `SignalVectors.SignalVectorModel.OnItemRemoved` | src/common/SignalVectorModel.hpp:76-98 | a foreign removal drops the mapped row, an own one nothing |
| `SignalVectors.SignalVectorModel.Initialize` | src/common/SignalVectorModel.hpp:40-101 | connects to a vector and is in step with it |
| `SignalVectors.SignalVectorModel.SetData` | src/common/SignalVectorModel.hpp:148-194 | out of range nothing happens; else exactly the cell at that row and column is written and the decoded item put back; in step the guard on the vector size never fires, and an unsorted vector stays in step |
| `SignalVectors.SignalVectorModel.DeleteRow` | src/common/SignalVectorModel.hpp:263-267 | removes the row and its item |
| `SignalVectors.SignalVectorModel.RemoveRows` | src/common/SignalVectorModel.hpp:297-312 | removes one row and its item; refuses other counts |
| `SignalVectors.SignalVectorModel.MoveRow` | src/common/SignalVectorModel.hpp:281-290 | rows and items become those of the stated move, sorted or not; the vector keeps its multiset and the model its step |
| `SignalVectors.SignalVectorModel.MoveRows` | src/common/SignalVectorModel.hpp:269-295 | moves one row; refuses other counts |
| `SignalVectors.SignalVectorModel.InsertCustomRow` | src/common/SignalVectorModel.hpp:414-422 | adds a custom row and changes no decoded item |
| `SignalVectors.SignalVectorModel.RemoveCustomRow` | src/common/SignalVectorModel.hpp:424-432 | removes a custom row and changes no decoded item |
| `ModelRows.InsertRowDecodes` | src/common/SignalVectorModel.hpp:44-64 | an inserted ordinary row is an inserted item at the matching index |
| `ModelRows.RemoveRowDecodes` | src/common/SignalVectorModel.hpp:76-98 | a removed ordinary row is a removed item |
| `ModelRows.UpdateRowDecodes` | src/common/SignalVectorModel.hpp:160-186 | new cells of an ordinary row change exactly its item |
| `ModelRows.MovedRowEndsAt` | src/common/SignalVectorModel.hpp:269-295 | the moved row ends at the destination if the row there after the removal is ordinary, else at the end; the other rows keep their order |
| `ModelRows.MoveIsPermutation` | src/common/SignalVectorModel.hpp:281-290 | a move keeps the multiset of items and the order of the others, and rows and items agree afterwards |
| `SignalVectors.InsertStaysInSync` | src/common/SignalVectorModel.hpp:44-64 | rows and items agree after an insertion |
| `SignalVectors.RemoveStaysInSync` | src/common/SignalVectorModel.hpp:76-98 | rows and items agree after a removal |
| `SignalVectors.MoveEnds` | src/common/SignalVectorModel.hpp:281-290 | removal and insertion together are the move, for sorted vectors still a permutation |
| `SignalVectors.WrittenStays` | src/common/SignalVectorModel.hpp:160-186 | in step, a written row has an index in range and its decoded item takes that place |
| `SignalVectors.SortedRewriteStays` | src/common/SignalVectorModel.hpp:181-186 | in a sorted vector the rewritten item stays where the model shows it if and only if only equal items lie between |
| `SignalVectors.SortedRewriteMoves` | src/common/SignalVectorModel.hpp:181-186 | a concrete sorted vector in which it moves |
| `SignalVectors.EditRunsThrough` | src/common/SignalVectorModel.hpp:148-194 | in step, the guard on the read-only copy does not fire, and an edit reaches no missing row, cell, item or original exactly if its arguments are in range |
| `SignalVectors.StaysWide` | src/common/SignalVectorModel.hpp:148-194 | rows keep their number of cells under every edit, so that writing a cell is in range whenever its row and column are |
| `SignalVectors.EditStaysInSync` | src/common/SignalVectorModel.hpp:40-186 | an edit of a sorted or unsorted vector or its model with arguments in range keeps rows, items and read-only copy in step if and only if the item it rewrites, if any, keeps its place |
| `SignalVectors.MoveStaysInSync` | src/common/SignalVectorModel.hpp:281-290 | a moved row keeps them in step also where a sorted vector puts the item elsewhere |
| `SignalVectors.RunStaysInSync` | src/common/SignalVectorModel.hpp:40-312 | a run of edits with arguments in range runs through and is in step after each of them if and only if every rewritten item keeps its place in the order |
| `SignalVectors.UnsortedRunStaysInSync` | src/common/SignalVectorModel.hpp:40-312 | on an unsorted vector, from arguments in range alone, every run does, and never meets the guard of `setData` |
| `SignalVectors.ApplyEdit` | src/common/SignalVectorModel.hpp:148-312 | one edit on a vector and its model comes to the stated rows, items and copy |
| `SignalVectors.ApplyEdits` | src/common/SignalVectorModel.hpp:40-312 | so does every run |
| `Ipv4.IsValidIpv4` | src/common/LinkParser.cpp:59-100 | accepts exactly the texts of four nonempty sections of at most three digits and value 255; the 8 and 16 bit counters do not overflow |
| `Ipv4.SectionsSplit` | src/common/LinkParser.cpp:69-83 | the sections joined with dots are the text, and hold no dot |
| `Ipv4.DotsAreSections` | src/common/LinkParser.cpp:273-273 | there is one section more than dots |
| `LinkParser.StripView` | src/common/LinkParser.cpp:137-161 | the text without all leading prefix and trailing suffix characters |
| `LinkParser.StripStrips` | src/common/LinkParser.cpp:137-161 | what is stripped has only such characters, and what is left neither starts nor ends with one |
| `LinkParser.StrippedIsUnique` | src/common/LinkParser.cpp:137-161 | there is only one such range |
| `LinkParser.StartsWithPort` | src/common/LinkParser.cpp:108-124 | one to five digits up to a path character, or digits up to the fifth or the end |
| `LinkParser.ScanProtocol` | src/common/LinkParser.cpp:190-208 | the length of http:// or https:// in any case, if at least eight units are there |
| `LinkParser.ScanHost` | src/common/LinkParser.cpp:212-270 | succeeds on the longest run of domain characters without empty labels that a path or port follows; a failure means that there is no host or no rest |
| `LinkParser.ScanParentheses` | src/common/LinkParser.cpp:279-309 | the position after the last closing parenthesis that brings the nesting back to zero |
| `LinkParser.DepthIsLargest` | src/common/LinkParser.cpp:279-309 | the nesting level is the largest surplus of opening parentheses in any end of the text |
| `LinkParser.LastCloseIsLast` | src/common/LinkParser.cpp:293-309 | that position closes the outermost parenthesis and none behind it does |
| `LinkParser.Extend` | src/common/LinkParser.cpp:276-312 | link and rest end at the later of the stripped end and that position, if there is a rest |
| `LinkParser.Assemble` | src/common/LinkParser.cpp:205-318 | the four views are the segments of the source |
| `LinkParser.ParseLink` | src/common/LinkParser.cpp:177-322 | the scanner returns exactly what the declarative parse does, and nothing exactly when it does |
| `LinkTheorems.ParseTiles` | src/common/LinkParser.hpp:84-130 | prefix, protocol, host, rest and suffix make up the source; protocol, host and rest the link; prefix and suffix are strippable |
| `LinkTheorems.ParseSegments` | src/common/LinkParser.cpp:190-275 | the protocol is empty, http:// or https://; the host is a nonempty domain without adjacent dots that is a dotted quad or ends in a top level domain |
| `LinkTheorems.ParseEnd` | src/common/LinkParser.cpp:276-312 | the link ends at the later of the stripped end and the last outermost closing parenthesis, and takes back only suffix characters |
| `LinkTheorems.LinkEndIsStable` | src/common/LinkParser.cpp:276-312 | cutting the source at the end of the link does not move that end |
| `LinkTheorems.ParseIsStable` | src/common/LinkParser.cpp:177-322 | parsing a parsed link succeeds with all of it and the same segments, also after an extension |
| `LinkTheorems.ClosingTail` | src/common/LinkParser.cpp:293-309 | what suffix characters behind a text do to its nesting and its last outermost close |
| `LinkTheorems.PunctuationIsIgnored` | src/common/LinkParser.cpp:126-161 | prefix characters before and suffix characters after a text neither make nor break a link |
| `LinkTheorems.PunctuationStaysOutside` | src/common/LinkParser.cpp:126-312 | they leave the views where they were, and the end too if and only if they do not close a parenthesis that is open at the end |
| `LinkPorts.PortIsAccepted` | src/common/LinkParser.cpp:108-124 | what is accepted behind the colon: digits only, at least five digits, or digits and then a path |
| `LinkPorts.PortKeepsPromise` | src/common/LinkParser.hpp:31-32 | an accepted port is digits and then a path if and only if a path starts right behind its run of digits; else nothing is behind them or they are at least five |
| `LinkPorts.LinkPortKeepsPromise` | src/common/LinkParser.cpp:239-251 | the same for the rest of every parsed link, whose port has a digit |
| `LinkPorts.PortWithoutPath` | src/common/LinkParser.cpp:108-124 | a concrete link `a.b:12345x` whose port no path follows |
| `LinkAcceptance.PartsAreRecognised` | src/common/LinkParser.cpp:177-322 | a protocol or none, a domain with a dot, and nothing, a path or an accepted port, with nothing strippable at the ends, are recognised with exactly these segments |
| `LinkAcceptance.RecognisedExactly` | src/common/LinkParser.cpp:177-322 | a source holds a link if and only if it is such a text in prefix and suffix characters |
| `LinkAcceptance.QuadExactly` | src/common/LinkParser.cpp:59-100 | the IPv4 check accepts exactly four octets, of one to three digits that say at most 255, with dots between them |
| `LinkAcceptance.QuadIsRecognised` | src/common/LinkParser.cpp:273-275 | such a quad is a host whatever the top level domains are |
| `LinkAcceptance.CharacterClasses` | src/common/LinkParser.cpp:126-175 | the characters that are stripped and those of a domain, as the comments list them |
| `LinkAcceptance.ProtocolSays` | src/common/LinkParser.cpp:190-208 | a protocol is nothing, http:// or https:// in any case |
| `WordCursor.WordsInContent` | src/messages/MessageBuilder.cpp:3715-3727 | every word is in the content at its start, and the starts count separators |
| `WordCursor.GroupIsInside` | src/messages/MessageBuilder.cpp:427-450 | the occurrences between the iterators of a word are its own, and the next one starts behind the separator |
| `WordCursor.GroupFits` | src/messages/MessageBuilder.cpp:427-450 | the same for a beginning of the list; a word that does not let the next occurrence in is left with its own ones |
| `WordCursor.WalkIsTrue` | src/messages/MessageBuilder.cpp:3711-3806 | up to a word, if no earlier one lets the first unplaced occurrence in, the cursor is at the true start and the iterator behind the occurrences in front |
| `WordCursor.OverhangShifts` | src/messages/MessageBuilder.cpp:438-447 | an occurrence that covers the separator behind its word is let in and leaves the cursor one too far, and only behind that word |
| `WordCursor.ShiftStays` | src/messages/MessageBuilder.cpp:3711-3806 | once it is too far, the cursor is too far at every later word |
| `WordCursor.StartsAreTrue` | src/messages/MessageBuilder.cpp:3711-3806 | the cursor is at the start of every word if and only if the first unplaced occurrence does not exist, is never let in, or covers the place behind the last word |
| `WordCursor.OneUnplaced` | src/messages/MessageBuilder.cpp:427-450 | every list has exactly one first unplaced position, and what is before it fits if and only if the occurrence there covers no separator |
| `WordCursor.OneBeginningFits` | src/messages/MessageBuilder.cpp:427-450 | if no occurrence ends at a separator, exactly one beginning of the list fits |
| `WordCursor.KappaFoo` | src/providers/twitch/TwitchIrc.cpp:49-79 | a concrete message, the range 0-5 of `Kappa foo`, in which the cursor goes astray and a later emote is lost |
| `MessageWords.EmoteStep` | src/messages/MessageBuilder.cpp:3734-3760 | an emote at the cursor is emitted, and what is added and left still spells the word |
| `MessageWords.TextStep` | src/messages/MessageBuilder.cpp:3762-3782 | so is a nonempty text in front of an emote |
| `MessageWords.AddWord` | src/messages/MessageBuilder.cpp:3729-3805 | ends for occurrences that start before they end, and emits the next ones of the list; cursor and iterator go the stated way for every list; for placed occurrences the elements show the word and both stand behind it |
| `MessageWords.AddWords` | src/messages/MessageBuilder.cpp:3711-3806 | for every list the cursor at every word is that of `Walk`, and the beginning of the list up to its iterator is emitted, once and in order; every word in front of the one that lets the first unplaced occurrence in is shown by its own elements; if no word does, exactly the placed occurrences are emitted, and the cursor is the true offset at every word |
| `MessageWords.GroupsGiveBackContent` | src/messages/MessageBuilder.cpp:3711-3806 | the source texts of the words joined with separators are the content |
| `MessageWords.ShownOneWay` | src/messages/MessageBuilder.cpp:3729-3805 | a word is shown by one element list only |
| `MessageWords.ShownMeans` | src/messages/MessageBuilder.cpp:3734-3800 | in a shown word every emote stands where the text in front of it ends and has a trailing space exactly at the end of the word; no text is empty or follows another one |
| `MessageWords.StuckExactlyBehindWord` | src/messages/MessageBuilder.cpp:3729-3787 | taking text reaches the occurrence if and only if it starts in or right behind the word; else the loop makes no progress, which needs an end before the start |
| `Cheermotes.NumberIsCanonical` | src/messages/MessageBuilder.cpp:3994-3996 | a captured numeral is the decimal form of its value, so chopping that many units removes it |
| `Cheermotes.RewrittenShrinks` | src/messages/MessageBuilder.cpp:3992-3998 | the rewritten token is shorter or ends in a smaller number, whatever the sets are: the recursion ends |
| `Cheermotes.OneReading` | src/providers/twitch/TwitchChannel.cpp:1923-1925 | when no prefix is another one followed by a numeral, what stands behind a prefix is read whole or not at all |
| `Cheermotes.FindIsOffered` | src/providers/twitch/TwitchChannel.cpp:2250-2277 | then a token is recognised if and only if some set of its prefix has a tier for its amount |
| `Cheermotes.PlainIsSeparate` | src/providers/twitch/TwitchChannel.cpp:1923-1925 | prefixes that do not end in digits are such prefixes |
| `Cheermotes.TierIsDearest` | src/providers/twitch/TwitchChannel.cpp:2268-2274 | on sorted tiers the tier found is the dearest that the amount reaches |
| `Cheermotes.FoundIsDearest` | src/providers/twitch/TwitchChannel.cpp:2250-2277 | on sorted tiers, a recognised token has the dearest tier within its amount of the first set that reads it and has one |
| `Cheermotes.ShownIsDearest` | src/messages/MessageBuilder.cpp:3956-4020 | so has the cheermote that is shown, for the amount that is shown, when the token or what it was rewritten to is read |
| `Cheermotes.TextState.TryAppendCheermote` | src/messages/MessageBuilder.cpp:3931-4023 | success, bits left, stacking flag and emitted elements of one token, through all rewritings; the emotes come before the amount |
| `Cheermotes.TryConserves` | src/messages/MessageBuilder.cpp:3988-4020 | not stacked, a token takes exactly what its shown amount says, and nothing when it fails |
| `Cheermotes.SpendConserves` | src/messages/MessageBuilder.cpp:3931-4023 | over a message, bits left and shown amounts add up to the original bits, and bits are never negative |
| `Cheermotes.StackedSpending` | src/messages/MessageBuilder.cpp:3956-3986 | stacked, no bits are taken, and one cheermote for all of them is shown if and only if a token is recognised |
| `Cheermotes.ReadAlongTakes` | src/messages/MessageBuilder.cpp:3988-3999 | for any sets: if no rewritten token is read as another amount, a token of `v` bits takes the remainder of `v` by the budget when that is recognised, and else nothing |
| `Cheermotes.MisreadIsTaken` | src/messages/MessageBuilder.cpp:3992-3998 | if only the last rewriting may be misread, as an amount within the budget, that amount is taken, and the remainder is taken if and only if it is read as written |
| `Cheermotes.TakesRemainder` | src/messages/MessageBuilder.cpp:3988-3999 | when no prefix is another one followed by a numeral, a recognised token of `v` bits succeeds if and only if a tier is as cheap as its remainder, takes and shows it, and else takes nothing |
| `CheermoteLaw.LawHoldsExactly` | src/messages/MessageBuilder.cpp:3988-3999 | with tiers from one bit on, every recognised amount takes its remainder from every budget if and only if no prefix is another one followed by a numeral of less than a tenth of the largest int, or of this tenth unless a set with the longer prefix comes first |
| `CheermoteLaw.StaysMisread` | src/providers/twitch/TwitchChannel.cpp:2250-2277 | the set that misreads one amount makes every other one that it reads misread, too |
| `CheermoteLaw.SmallBreaksLaw` | src/messages/MessageBuilder.cpp:3992-3998 | for every misread amount up to a thousand million some budget takes something else than the remainder |
| `CheermoteLaw.StepBreaksLaw` | src/messages/MessageBuilder.cpp:3992-3998 | with a budget that does not divide what stands before the last digit, a misread last digit is taken in place of the remainder |
| `CheermoteLaw.MisreadBreaksLaw` | src/messages/MessageBuilder.cpp:3992-3998 | the same for every amount up to 2147483640 |
| `CheermoteLaw.ReadsAllHolds` | src/messages/MessageBuilder.cpp:3988-3999 | if all these are read as written, the law holds up to the largest int |
| `CheermoteLaw.SeparateIsApart` | src/providers/twitch/TwitchChannel.cpp:1923-1925 | prefixes of which none is another one followed by a numeral do not collide |
| `Cheermotes.RemainderIsModulo` | src/messages/MessageBuilder.cpp:3988-3999 | the remainder is `(v - 1) % b + 1` |
| `Cheermotes.RecognisedTokenTakes` | src/messages/MessageBuilder.cpp:3931-4023 | for such prefixes, what any recognised token takes, numerals beyond the int range included |
| `Cheermotes.DigitPrefixMisleads` | src/messages/MessageBuilder.cpp:3992-3998 | a prefix that ends in a digit can make a rewritten token another one, which takes something else |
| `Similarity.RelativeSimilarity` | src/messages/MessageSimilarity.cpp:19-60 | the length of the longest common substring, over the longer length |
| `Similarity.FillCell` | src/messages/MessageSimilarity.cpp:34-48 | one cell becomes the length of the longest common suffix of the two prefixes, and no other cell changes |
| `Similarity.CellIsCommon` | src/messages/MessageSimilarity.cpp:34-53 | a table cell is the length of a common suffix of the two prefixes |
| `Similarity.CommonIsInCell` | src/messages/MessageSimilarity.cpp:34-53 | and no common suffix is longer |
| `Similarity.SimilarityIsSymmetric` | src/messages/MessageSimilarity.cpp:19-60 | the similarity does not depend on the order of the texts |
| `Similarity.SimilarityRange` | src/messages/MessageSimilarity.cpp:50-59 | it lies in [0, 1], is 1 exactly for equal nonempty texts and 0 exactly for texts without a common unit |
| `GifClock.FrameDuration` | src/messages/Image.cpp:226-236 | a delay of at most 10 gives 100, one below 20 gives 20, and any other is kept |
| `GifClock.Frames.constructor` | src/messages/Image.cpp:42-86 | an animated image starts at the limited timer position, another one at its beginning |
| `GifClock.Frames.Advance` | src/messages/Image.cpp:125-129 | one tick moves the clock by one frame length |
| `GifClock.Frames.ProcessOffset` | src/messages/Image.cpp:131-152 | ends, and leaves the frame and the offset within it |
| `GifClock.ProcessKeepsPhase` | src/messages/Image.cpp:131-152 | the offset lies between 0 and the duration, and the time since the first frame is kept up to whole rounds |
| `GifClock.PhaseAfter` | src/messages/Image.cpp:125-152 | after `k` ticks that time is the initial one plus `k` frame lengths, modulo the total |
| `GifClock.SamePhaseSameFrame` | src/messages/Image.cpp:131-152 | equal phases show the same frame at the same offset, except at phase zero |
| `GifClock.InstancePhase` | src/messages/Image.cpp:68-86 | an instance follows the timer but for what the limit of 60000 took from its start |
| `GifClock.InstancesInSync` | src/messages/Image.cpp:79-83 | two instances of an image show the same after every later tick if and only if the limit took the same from both, so always when the image is not longer than it |
| `Wrapping.Wrap` | src/messages/MessageElement.cpp:796-836 | the pieces tile the word; each is as wide as its glyphs and fits its line unless it is a single glyph; each but the last could not take another glyph; only the first may be empty |
| `Wrapping.PiecesSayWord` | src/messages/MessageElement.cpp:796-836 | put together the pieces are the word, and every cut is between glyphs |
| `Wrapping.CutInsidePair` | src/messages/MessageElement.cpp:800-812 | a cut between glyphs is inside a surrogate pair if and only if its high surrogate was taken as the second unit of another one |
| `Wrapping.DoubledHighIsCut` | src/messages/MessageElement.cpp:796-836 | a concrete word of two high surrogates and a low one that is cut inside the pair |
| `Wrapping.PairsStayTogether` | src/messages/MessageElement.cpp:796-836 | well-formed UTF-16 is never cut inside a pair |
| `Wrapping.EmptyFirstPiece` | src/messages/MessageElement.cpp:810-824 | the first piece is empty if and only if the first glyph does not fit its line |
| `WindowLayouts.Load` | src/common/WindowDescriptors.cpp:162-249 | only the first main window stays one, everything else is as read |
| `WindowLayouts.LoadTabs` | src/common/WindowDescriptors.cpp:213-232 | only the first selected tab stays selected |
| `WindowLayouts.LoadedIsWellLaid` | src/common/WindowDescriptors.cpp:162-249 | a loaded layout has at most one main window and one selected tab per window, the first that was read as one, and nothing else changes; such a layout is loaded unchanged |
| `WindowLayouts.Visitor.Visit` | src/common/WindowDescriptors.cpp:302-330 | over the whole tree, the score grows by two for every split and one for every filtered split of the channel, and the channel is found if and only if a leaf has it |
| `WindowLayouts.ActivateTabs` | src/common/WindowDescriptors.cpp:286-350 | the first tab with the channel of minimal score is selected and no other, or a new tab is appended and selected when none has the channel |
| `WindowLayouts.WindowLayout.ActivateOrAddChannel` | src/common/WindowDescriptors.cpp:251-351 | a rejected name changes nothing; an accepted one changes only the first main window, or adds one |
| `WindowLayouts.ActivatedTabs` | src/common/WindowDescriptors.cpp:286-350 | exactly one tab is selected afterwards, it is the best one with the channel, and the other tabs keep title, splits and place |
| `WindowLayouts.ScoreCounts` | src/common/WindowDescriptors.cpp:306-320 | the score of a tab is two for every split and one for every split of the channel that has filters |
| `WindowLayouts.LeavesAreSplits` | src/common/WindowDescriptors.cpp:302-330 | the splits that are counted are those of the tree |
| `WindowLayouts.SelectedIsPreferred` | src/common/WindowDescriptors.hpp:115-116 | the selected tab has the channel, and no tab with it scores less or as little in front of it; a tab with a single split without filters gives way only to another one like it |
| `WindowLayouts.FewerSplitsLose` | src/common/WindowDescriptors.hpp:115-116 | a concrete layout in which a tab with fewer splits is not preferred |
| `WindowLayouts.TwitchIsSelected` | src/common/WindowDescriptors.cpp:293-350 | the selected tab has a Twitch split of the channel if and only if the best tab had one or no tab has the name |
| `WindowLayouts.TwitchIsActivated` | src/common/WindowDescriptors.hpp:111-120 | the same for the first main window of a whole layout, added windows included |
| `WindowLayouts.OtherProviderIsSelected` | src/common/WindowDescriptors.cpp:302-330 | a concrete layout in which the tab of another provider is selected and no Twitch split is added |
| `WindowLayouts.ActivatedIsUnique` | src/common/WindowDescriptors.cpp:251-351 | the promise determines the layout |
| `WindowLayouts.ActivatedTwice` | src/common/WindowDescriptors.cpp:251-351 | activating twice is activating once |
| `WindowLayouts.ActivationKeepsLayout` | src/common/WindowDescriptors.cpp:251-351 | at most one main window and selected tab stay that way, and the main window has exactly one, the best tab of the channel |
| `ArgumentEncoding.EncodeArguments` | src/singletons/CrashHandler.cpp:155-167 | the arguments escaped, with a plus before each one that is not at the start of the text |
| `ArgumentEncoding.SplitJoined` | src/singletons/CrashHandler.cpp:149-167 | reading joined arguments from left to right gives them back |
| `ArgumentEncoding.SplitIsPlain` | src/singletons/CrashHandler.cpp:149-154 | whatever is read, no argument behind the first starts with a plus, and only the last may be empty |
| `ArgumentEncoding.RoundTrip` | src/singletons/CrashHandler.cpp:149-167 | decoding the encoded list gives it back if and only if the first argument is not empty and the others neither start with a plus nor are empty, except the last |
| `ArgumentEncoding.EncodingIsInjective` | src/singletons/CrashHandler.cpp:149-167 | such lists have different encodings |

## Where the code says something else than its comments

- `insertBefore` is documented to return whether an insertion took place (src/messages/LimitedQueue.hpp:284); it
  returns whether the needle was found. `FoundButDropped` gives the exact difference.
- The hinted `replaceMessage` signals the hint instead of the index it wrote (src/common/Channel.cpp:321-324);
  `HintedSignalAccuracy`.
- The header says that a port is followed by a path character (src/common/LinkParser.hpp:31-32); after five digits
  anything is accepted, and digits may end the text. `PortKeepsPromise` gives the exact condition, `PortWithoutPath` a
  link without a path.
- Two messages with the same new id in one fill list are both inserted, because ids are collected once. System
  messages and messages without an id are inserted again by every fill; `SecondFill`.
- A cheermote that needs more bits than are left takes the remainder of its amount, not all bits that are left;
  `RecognisedTokenTakes`.
- An emote occurrence includes its last unit, but the check compares that unit with the position behind the word
  (src/messages/MessageBuilder.cpp:440-443), so it lets an occurrence in that ends at the separator; `OverhangShifts`,
  `KappaFoo`, and for the exact condition `StartsAreTrue`.
- The tab to activate is looked for by channel name alone (src/common/WindowDescriptors.cpp:302-330), although the
  header says for which provider (src/common/WindowDescriptors.hpp:111-120); `TwitchIsActivated` gives the exact
  condition, `OtherProviderIsSelected` a layout.
- Tabs with fewer splits are not always preferred (src/common/WindowDescriptors.hpp:115-116): splits of the channel with
  filters count as well. `SelectedIsPreferred` compares the scores, `FewerSplitsLose` gives a layout.
- A word whose first glyph fits no line is wrapped with an empty first piece; `EmptyFirstPiece`.

## Left out

- Locks: every call of the queue is one atomic step. Only appends run concurrently with a fill; a concurrent clear
  or replacement could remove a needle.
- Channels.Channel.FillInMissingMessages: the contents are stated for pairwise distinct messages, because a message that
  is in the history twice has no definite place; two messages are the same object exactly if they are equal.
- `boost::circular_buffer`: modelled by what it documents, as a sequence that the methods reassign; memory and
  iterators are not modelled.
- The other readers of the queue (`firstN`, `lastNBy`, `find` with a hint, `first`, `last`), chat logging, `freeze`,
  timeouts and clearchat handling, similarity flags.
- LimitedQueues.LimitedQueue.PushBackItem: a limit of zero is excluded, because the source then reads the front of an
  empty buffer.
- Channels.Channel.AddMessage: a limit of zero is excluded for the same reason, here and for appends during a fill.
- Signals of a vector reach one connected model; several listeners, the delayed change signal and drag and drop are
  left out.
- Cells are strings with an arbitrary write; roles, header data, item flags and the ownership of cells are left out.
  `beforeInsert` is the identity, and decoding a fresh row gives the item back.
- The list of top level domains and `QChar::isDigit` are parameters; the list has no empty line.
- Emoji parsing and the rendering of a run of text: a run is handed on as one element. Emote images, flags, colours
  and scales are left out.
- MessageWords.AddWords: from the word on that an occurrence overhangs, only the cursor and the emitted beginning of the
  list are stated, not which text elements stand between them.
- WordCursor.StartsAreTrue: the names of the occurrences are as long as their ranges, as `parseTwitchEmotes` makes them.
- `parseTwitchEmotes` and ignored phrases, which produce the occurrences.
- A negative count of bits; prefixes are literal text that is compared unit by unit, not regular expressions, and a
  token has no line break at its end.
- CheermoteLaw.LawHoldsExactly: tiers start at one bit; for other tiers `ReadAlongTakes` and `TakesRemainder` say what a
  token takes.
- Images of cheermotes: a tier always has a static and an animated one.
- Floating point: the similarity is a pair of numbers, widths are reals. The settings that limit which messages are
  compared are left out.
- Images longer than the range of int, the timer that pauses, loading and memory of frames.
- The wrapping with Qt's text engine, trailing spaces, font metrics and the container: a glyph has a width and a line
  a room that are given.
- Window geometry, popups, JSON, and the other fields of splits; a score has no largest value.
- Non-ASCII arguments are texts of code units; the conversion to UTF-8 changes no plus.
- crash-handler/src/CommandLine.cpp is not part of this model; decoding follows the comment on the encoder.
