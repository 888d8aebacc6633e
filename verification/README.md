# Verified models of the chat client

Dafny models of the parts of the client that compute something: the bounded message history and the
back-fill into it, the table that mirrors an observable vector, message similarity, the link parser,
durations, IRC tag values, the layout of words and emotes, cheermotes, animated images, the image
upload protocol, echo suppression in merged channels, timeout and clear stacking, and the saved window
layout.

Where the program changes things step by step the model does too: classes with the same fields, methods
with the same loops and branches. Each method is proved against a specification, and the lemmas prove
what the program is for about that specification.

| file | what it holds |
|---|---|
| `Sequences.dfy`, `Numbers.dfy` | vocabulary of sequences and small arithmetic |
| `LimitedQueue.dfy` | the overwriting ring and the queue on top of it |
| `Channel.dfy` | the message buffer of a channel and its back-fill |
| `SignalVectorModel.dfy` | the vector, the table, and both kept in step |
| `MessageSimilarity.dfy` | longest common substring and the recent window |
| `LinkParser.dfy` | links in words |
| `Durations.dfy` | reading and writing durations |
| `IrcTags.dfy` | unescaping tag values |
| `Frames.dfy` | animated images |
| `ImageUploader.dfy` | the upload lock and queue |
| `MessageBuilder.dfy` | words, emotes and emoji |
| `Cheermotes.dfy` | bits shown by cheermotes |
| `MergedChannel.dfy` | sending to several platforms and their echoes |
| `ChannelHelpers.dfy` | timeout and clear stacking |
| `WindowLayout.dfy` | saving and loading the splits of a tab |
| `WindowDescriptors.dfy` | loading windows, and opening a channel among them |

`dafny verify dfyconfig.toml` checks everything.

Tables, characters, prices, times and the direction of comparisons are stated a second time with their
values written out, apart from the definitions that methods and specifications share: the lemmas whose
names end in `Spelled` or `Exactly`, and with them `Channels.MergedPlacement`,
`ChannelHelpers.TimeoutStacks`, `ChannelHelpers.ClearStacks` and `Durations.ReadsEveryUnit`.

Where properties one would expect do not hold, the code is modelled as it is, an input shows the failure
and the exact condition is proved:

- Back-fill compares ids with the buffer only, so two historic messages with the same id both go in
  (`Channels.BackfillUniqueIds`, `Channels.SameIdTwice`); concurrent appends break the order exactly when
  they are not the latest (`Channels.BackfilledAscending`, `Channels.EarlierAppend`); and an object that
  occurs twice takes others in between (`Channels.SameObjectTwice`; for one insertion exactly when
  `LimitedQueues.BoundedInsertExactly` says).
- Editing a cell over a sorted vector leaves the row in place while the item moves
  (`SignalVectorModels.SignalVectorModel.SetData`, `SignalVectorModels.EditedPastNeighbour`).
- A lone trailing backslash of a tag value stays, and only the low byte of an escaped character is looked
  at (`IrcTags.StandardAgrees`, `IrcTags.Disagreements`).
- Copies of an image longer than a minute are out of step if loaded past its first minute
  (`AnimatedFrames.InStep`, `AnimatedFrames.OutOfStep`), and an image longer than 2^31 milliseconds can
  begin before its first round (`AnimatedFrames.PhaseInRange`, `AnimatedFrames.NegativePhase`).
- Timeouts from PubSub and from chat lose counts when mixed (`ChannelHelpers.TimeoutsConservedExactly`,
  `ChannelHelpers.MixedKindsLoseOne`).
- A cheermote worth more bits than are left is cut down around them, not to them
  (`Cheermotes.ShownAsWritten`, `Cheermotes.TenOfSeven`), and with fewer than no bits the cutting down
  never ends (`Cheermotes.SettlesExactly`, `Cheermotes.NeverSettles`).
- The documentation of `activateOrAddChannel` says that tabs with fewer splits are preferred and that only
  Twitch is supported; several filtered splits outweigh a split (`WindowDescriptors.ScoreOrder`,
  `WindowDescriptors.MoreSplitsPreferred`), and splits of any kind are taken for a Twitch channel of the
  same name (`WindowDescriptors.ActivatedTwitch`, `WindowDescriptors.KickForTwitch`).
- The documentation of links says that a port is followed by a path, query or anchor, and that of the
  port check that its range is 0 to 100000. Five digits may be followed by anything, further digits
  included, and a text may end after fewer (`LinkParser.RestAsDocumented`, `LinkParser.LongPorts`).
- A custom row can be dragged, and moving or removing it fails
  (`SignalVectorModels.SignalVectorModel.DropMimeData`).

Other behaviour that is modelled as it is: a duration that starts with a unit counts it as 0, blank text
is 0, and a number over 2^32 - 1 is 0 (`Durations.ParseDurationToSeconds`); an emote that fits no word
keeps all later ones from being laid out (`MessageBuilders.StuckEmote`), and of emotes that are not well
placed only their order and the text around them are promised.

## Model

| member | source | states |
|---|---|---|
| `CircularBuffers.CircularBuffer.PushBack` | src/messages/LimitedQueue.hpp:127-138 | appending keeps the last `capacity` elements; a full ring overwrites its oldest, across the wrap-around |
| `CircularBuffers.CircularBuffer.Insert` | src/messages/LimitedQueue.hpp:275-290 | a positional insert keeps the last `capacity` elements of the list with the element inserted, so a full ring loses its oldest and an insert at its beginning does nothing |
| `CircularBuffers.CircularBuffer.MakeRoom` | src/messages/LimitedQueue.hpp:301-317 | the in-place shift behind an insert moves every newer element up one slot and, in a full ring, leaves the older ones but the oldest where they are |
| `CircularBuffers.CircularBuffer.PushFront` | src/messages/LimitedQueue.hpp:165-182 | prepending to a ring: a full one would lose its newest element, which the queue never lets happen |
| `CircularBuffers.CircularBuffer.Put` | src/messages/LimitedQueue.hpp:217-235 | overwrites exactly one position |
| `CircularBuffers.CircularBuffer.constructor` | src/messages/LimitedQueue.hpp:38-41 | an empty ring of the given capacity |
| `LimitedQueues.LimitedQueue.Space` | src/messages/LimitedQueue.hpp:29-32 | free space and contents add up to the limit |
| `LimitedQueues.LimitedQueue.Get` | src/messages/LimitedQueue.hpp:61-71 | the element at an index, or none outside the contents |
| `LimitedQueues.LimitedQueue.First` | src/messages/LimitedQueue.hpp:78-88 | the oldest element, or none |
| `LimitedQueues.LimitedQueue.Last` | src/messages/LimitedQueue.hpp:95-105 | the newest element, or none |
| `LimitedQueues.LimitedQueue.PushBack` | src/messages/LimitedQueue.hpp:127-138 | the queue holds the last `limit` elements of its old contents with the item appended, and reports the evicted one exactly when it was full |
| `LimitedQueues.LimitedQueue.PushFront` | src/messages/LimitedQueue.hpp:165-182 | nothing is evicted: exactly the longest suffix of the items that fits is prepended, in order, and that suffix is returned |
| `LimitedQueues.LimitedQueue.ReplaceItem` | src/messages/LimitedQueue.hpp:193-208 | -1 exactly when the needle is absent; otherwise its first occurrence, and nothing else, is replaced |
| `LimitedQueues.LimitedQueue.ReplaceItemAt` | src/messages/LimitedQueue.hpp:217-235 | replaces one position and returns what was there; an index outside changes nothing |
| `LimitedQueues.LimitedQueue.ReplaceItemHinted` | src/messages/LimitedQueue.hpp:245-264 | a correct hint wins even over an earlier occurrence; a wrong hint finds the first occurrence |
| `LimitedQueues.LimitedQueue.InsertBefore` | src/messages/LimitedQueue.hpp:275-290 | true exactly when the needle is there, and then the contents are the bounded insert before its first occurrence |
| `LimitedQueues.LimitedQueue.InsertAfter` | src/messages/LimitedQueue.hpp:301-317 | the same directly after the needle |
| `LimitedQueues.LimitedQueue.CopyRange` | src/messages/LimitedQueue.hpp:325-341 | copying a range out of the ring gives that slice of its contents |
| `LimitedQueues.LimitedQueue.GetSnapshot` | src/messages/LimitedQueue.hpp:319-323 | the snapshot is the contents from oldest to newest |
| `LimitedQueues.LimitedQueue.LastN` | src/messages/LimitedQueue.hpp:325-332 | the newest `nItems`, or all |
| `LimitedQueues.LimitedQueue.FirstN` | src/messages/LimitedQueue.hpp:334-341 | the oldest `nItems`, or all |
| `LimitedQueues.LimitedQueue.Find` | src/messages/LimitedQueue.hpp:357-370 | the first matching element, or none |
| `LimitedQueues.LimitedQueue.FindHinted` | src/messages/LimitedQueue.hpp:379-395 | a hint that matches wins, else the first match; none exactly when nothing matches |
| `LimitedQueues.LimitedQueue.RFind` | src/messages/LimitedQueue.hpp:410-423 | the newest matching element; none exactly when nothing matches |
| `LimitedQueues.BoundedInsertRefines` | src/messages/LimitedQueue.hpp:275-317 | ring refinement: if the ring holds the end of an unbounded log, then inserting next to any needle of that log leaves it holding the end of the log with the item inserted, also when the needle has been evicted |
| `LimitedQueues.BoundedInsertExactly` | src/messages/LimitedQueue.hpp:275-317 | without distinct elements, while the needle is in the ring: the same holds if and only if everything between its first occurrence there and the right place equals the item |
| `Channels.Channel.AddMessage` | src/common/Channel.cpp:118-123 | appends within the limit and reports what was removed from the start |
| `Channels.Channel.AddMessagesAtStart` | src/common/Channel.cpp:171-185 | adds the newest of the historic messages that fit in front of what is there |
| `Channels.Channel.FillInMissingMessages` | src/common/Channel.cpp:187-276 | for every input the buffer ends as the queue operations say; if no message object occurs twice, that is the last `limit` elements of the unbounded merge followed by the appends, with any batches appended by other threads between any two queue operations and whatever is evicted meanwhile; listeners are told exactly when something was missing |
| `Channels.Channel.FillInAround` | src/common/Channel.cpp:208-276 | the loop over a non-empty snapshot does one round of queue operations for each message that is not there yet |
| `Channels.FilledRefines` | src/common/Channel.cpp:187-276 | back-fill refinement: for distinct message objects the queue operations leave the end of the unbounded merge followed by the appends, also when the needle or `lastMsg` has been evicted |
| `Channels.RoundRefines` | src/common/Channel.cpp:240-267 | one round of queue operations is one more message of the merge, and `lastMsg` stays the last of it |
| `Channels.SameObjectTwice` | src/common/Channel.cpp:260-267 | an input where a repeated object makes the result differ from the merge |
| `Channels.EarlierAppend` | src/common/Channel.cpp:224-228 | an append earlier than a buffered message, which breaks the order |
| `Channels.SameIdTwice` | src/common/Channel.cpp:208-235 | two historic messages with one id, which are both filled in |
| `Channels.Channel.InsertMissing` | src/common/Channel.cpp:240-267 | one round: the message goes before the first later snapshot message that is no system message, or after `lastMsg`, which it then replaces |
| `Channels.Channel.CollectIds` | src/common/Channel.cpp:208-220 | the ids of the snapshot are those of its non-system messages that have one |
| `Channels.MergedInsertBefore` | src/common/Channel.cpp:241-258 | inserting before the first later buffered message is one step of the merge |
| `Channels.MergedInsertLast` | src/common/Channel.cpp:260-267 | inserting after the last message is one step of the merge when nothing buffered is later |
| `Channels.MergedConserves` | src/common/Channel.cpp:229-268 | the merge neither loses nor invents messages |
| `Channels.MergedAscending` | src/common/Channel.cpp:250-253 | two lists that are time-ascending up to system messages merge into such a list |
| `Channels.BackfilledAscending` | src/common/Channel.cpp:224-228 | with concurrent appends the result is ascending if and only if the appends are ascending and later than everything buffered or filled in |
| `Channels.KeepLastAscending` | src/common/Channel.cpp:118-123 | what the limit keeps of an ascending log is ascending |
| `Channels.MergedPlacement` | src/common/Channel.cpp:241-258 | a filled-in message stands ahead of the i-th buffered one if and only if its time is strictly less than that of a non-system message up to the i-th |
| `Channels.TiesGoAfter` | src/common/Channel.cpp:248 | a message whose time is not less than that of any non-system message up to the i-th stands after the i-th |
| `Channels.TieAfterBuffered` | src/common/Channel.cpp:248 | an input: of a buffered and a missing message with the same time the buffered one comes first |
| `Channels.BufferedOrder` | src/common/Channel.cpp:241-268 | buffered messages keep their order |
| `Channels.HistoricOrder` | src/common/Channel.cpp:241-268 | filled-in messages keep their order, except that one strictly earlier than a buffered message goes ahead of those that are not earlier than any up to there |
| `Channels.FilledPlacement` | src/common/Channel.cpp:187-276 | the placement in the buffer after a back-fill, by times: the same if-and-only-if for what the limit keeps, and every filled-in message ahead of everything appended meanwhile |
| `Channels.MissingExactly` | src/common/Channel.cpp:208-235 | filled in is exactly what has an id no buffered message has, those of system messages and empty ones apart |
| `Channels.BackfillUniqueIds` | src/common/Channel.cpp:208-235 | ids stay unique if and only if the messages filled in have unique ids among themselves: ids within the historic list are not compared |
| `Channels.NewIdsAreNew` | src/common/Channel.cpp:208-235 | no id of a buffered non-system message comes a second time |
| `SignalVectorModels.SignalVector.LowerBound` | src/common/SignalVector.hpp:75-81 | bisection finds the first position whose item is not less; nothing from there on is less |
| `SignalVectorModels.SignalVector.Insert` | src/common/SignalVector.hpp:71-102 | the item goes to its sorted place, to the end for -1, or to the index; the readers' copy follows; the table is told unless it called |
| `SignalVectorModels.SignalVector.RemoveAt` | src/common/SignalVector.hpp:117-129 | removes exactly that position from vector, copy and table |
| `SignalVectorModels.SignalVector.RemoveFirstMatching` | src/common/SignalVector.hpp:131-151 | removes the first match only, and says whether there was one |
| `SignalVectorModels.InsertKeepsSorted` | src/common/SignalVector.hpp:75-81 | inserting at the lower bound keeps a vector sorted under any strict weak order |
| `SignalVectorModels.SignalVectorModel.constructor` | src/common/SignalVectorModel.hpp:36-97 | a table connected to a vector shows exactly its items |
| `SignalVectorModels.SignalVectorModel.OnItemInserted` | src/common/SignalVectorModel.hpp:40-60 | an insertion by the table itself is ignored; otherwise one row goes to the place of the vector index |
| `SignalVectorModels.SignalVectorModel.OnItemRemoved` | src/common/SignalVectorModel.hpp:72-94 | a removal by the table itself is ignored; otherwise the row of the vector index goes |
| `SignalVectorModels.SignalVectorModel.GetModelIndexFromVectorIndex` | src/common/SignalVectorModel.hpp:497-517 | the loop finds the row with exactly that many plain rows above it |
| `SignalVectorModels.SignalVectorModel.GetVectorIndexFromModelIndex` | src/common/SignalVectorModel.hpp:473-493 | the loop counts the plain rows above a plain row; custom rows and rows outside give the end |
| `SignalVectorModels.VectorIndexRoundTrip` | src/common/SignalVectorModel.hpp:473-517 | from vector to table and back is the identity for every index from 0 to the size |
| `SignalVectorModels.ModelIndexRoundTrip` | src/common/SignalVectorModel.hpp:473-517 | from table to vector and back is the identity if and only if the row is a plain one or the end of the table |
| `SignalVectorModels.RowOfIs` | src/common/SignalVectorModel.hpp:497-517 | what the index map finds: the plain row with exactly `v` plain rows above it, or the end |
| `SignalVectorModels.SignalVectorModel.InsertItem` | src/common/SignalVectorModel.hpp:40-60 | inserting through the vector keeps table and vector in step, for sorted and unsorted ones |
| `SignalVectorModels.SignalVectorModel.RemoveItem` | src/common/SignalVectorModel.hpp:72-94 | removing through the vector keeps them in step |
| `SignalVectorModels.SignalVectorModel.RemoveFirstMatching` | src/common/SignalVector.hpp:131-151 | so does removing the first match |
| `SignalVectorModels.SignalVectorModel.RemoveRows` | src/common/SignalVectorModel.hpp:293-308 | removing a row fails exactly on custom rows, without effect; on a plain row its item goes and nothing else; other counts are refused |
| `SignalVectorModels.SignalVectorModel.MoveRows` | src/common/SignalVectorModel.hpp:265-291 | moving a row fails exactly on custom rows, without effect; on a plain row it keeps both in step; the destination is read in the table without the row, so the row lands on a plain row there or at the end |
| `SignalVectorModels.SignalVectorModel.DropMimeData` | src/common/SignalVectorModel.hpp:336-366 | the check of the indices refuses nothing, so a dropped custom row gets as far as the move that fails |
| `SignalVectorModels.SignalVectorModel.SetData` | src/common/SignalVectorModel.hpp:144-190 | editing a cell changes one row only; a custom row leaves the vector alone; with a sorted vector the two stay in step if and only if all items between the old and the sorted place equal the edited one |
| `SignalVectorModels.SignalVectorModel.CommitRow` | src/common/SignalVectorModel.hpp:168-187 | the vector takes over the item the edited row reads back as, under the same condition |
| `SignalVectorModels.SignalVectorModel.InsertCustomRow` | src/common/SignalVectorModel.hpp:410-418 | a custom row anywhere changes no item |
| `SignalVectorModels.SignalVectorModel.RemoveCustomRow` | src/common/SignalVectorModel.hpp:420-428 | nor does removing one |
| `SignalVectorModels.InsertedDecodes` | src/common/SignalVectorModel.hpp:40-60 | a row put where the index map says decodes as the item inserted at that vector index |
| `SignalVectorModels.RemovedDecodes` | src/common/SignalVectorModel.hpp:72-94 | a row removed there decodes as the item removed |
| `SignalVectorModels.EditedDecodes` | src/common/SignalVectorModel.hpp:156-187 | an edited row decodes as that one item replaced |
| `SignalVectorModels.EditedPastNeighbour` | src/common/SignalVectorModel.hpp:168-187 | an edit of a table over a sorted vector after which the two are out of step |
| `SignalVectorModels.SignalVectorModel.Edited` | src/common/SignalVectorModel.hpp:156-162 | exactly the value of the given role in the given column changes; other roles, columns and the original item stay |
| `SignalVectorModels.PlainTable` | src/common/SignalVectorModel.hpp:473-517 | without custom rows both index maps are the identity up to the size, everything outside is the end, and a moved row lands where it is put |
| `Sequences.SameInsertion` | src/common/SignalVectorModel.hpp:177-182 | inserting at two places gives the same list if and only if everything in between equals the item |
| `MessageSimilarity.RelativeSimilarity` | src/messages/MessageSimilarity.cpp:15-56 | the table-filling loops compute the length of the longest common substring over the longer length |
| `MessageSimilarity.CommonSuffixIsLongest` | src/messages/MessageSimilarity.cpp:30-44 | a table entry is a common substring ending there and none ending there is longer |
| `MessageSimilarity.LargestIsLongest` | src/messages/MessageSimilarity.cpp:30-48 | the largest entry is the length of the longest common substring: one of that length exists and none is longer |
| `MessageSimilarity.RatioSymmetric` | src/messages/MessageSimilarity.cpp:15-56 | similarity does not depend on the order of the texts |
| `MessageSimilarity.RatioRange` | src/messages/MessageSimilarity.cpp:50-56 | it lies in [0, 1] and is 1 if and only if both texts are equal and not empty |
| `MessageSimilarity.RatioZero` | src/messages/MessageSimilarity.cpp:50-56 | it is 0 if and only if the texts share no character |
| `MessageSimilarity.RatioSpelled` | src/messages/MessageSimilarity.cpp:47-55 | the length of the longest common substring is divided by the length of the longer text, and two empty texts have similarity 0 |
| `MessageSimilarity.WindowSize` | src/messages/MessageSimilarity.cpp:63-71 | how far back is looked: up to the limit, and up to the first message that is too old |
| `MessageSimilarity.InMessages` | src/messages/MessageSimilarity.cpp:59-83 | the largest similarity to a message of that window, of the same user only if that is asked for, or 0 |
| `LinkParser.Strip` | src/common/LinkParser.cpp:133-157 | exactly the ignored characters at both ends go |
| `LinkParser.IsValidIpv4` | src/common/LinkParser.cpp:55-96 | true if and only if the host is four octets of one to three digits below 256 between dots |
| `LinkParser.PortAtStart` | src/common/LinkParser.cpp:104-120 | true if and only if the text is at most five digits, or starts with five digits and anything after them, or with one to four and a path, query or anchor |
| `LinkParser.RestAsDocumented` | src/common/LinkParser.hpp:27-28 | the rest of a link has the documented form -- a port of up to five digits, then a path, query or anchor -- if and only if it is not five digits with something else after them |
| `LinkParser.LongPorts` | src/common/LinkParser.cpp:98-120 | ports of six digits and with other characters after five, which are accepted |
| `LinkParser.ScanHost` | src/common/LinkParser.cpp:208-266 | the host loop accepts exactly the hosts of the right shape, and finds their end and last dot |
| `LinkParser.SkipProtocol` | src/common/LinkParser.cpp:183-204 | the length of an `http://` or `https://` in any case at the start of a long enough text |
| `LinkParser.Recognise` | src/common/LinkParser.cpp:183-271 | protocol and host of a stripped text are found if and only if it starts with a host that is an IPv4 address or ends in a known top-level domain |
| `LinkParser.OctetDots` | src/common/LinkParser.cpp:268-271 | an IPv4 address has three dots, so counting them first loses none |
| `LinkParser.ScanParentheses` | src/common/LinkParser.cpp:272-308 | the nesting counter finds the last parenthesis that brings the clamped depth back to 0 |
| `LinkParser.Parse` | src/common/LinkParser.cpp:173-318 | the whole parser computes its specification: strip, recognise, then the later of the stripped end and the last closing parenthesis |
| `LinkParser.ParseSplits` | src/common/LinkParser.hpp:77-118 | every link found splits its source: prefix, protocol, host, rest and suffix follow each other and make up the source |
| `LinkParser.ParseLeavesOut` | src/common/LinkParser.cpp:272-308 | only ignored characters are left out; the link ends with one only if it closes a parenthesis opened after the host, and no longer part of the source does |
| `LinkParser.ParseOf` | src/common/LinkParser.cpp:173-318 | the result depends only on the stripped core and, for its end, on what was stripped after it |
| `LinkParser.ParseFixpoint` | src/common/LinkParser.cpp:133-318 | parsing the text of a link again succeeds as a whole with the same protocol, host and rest, although stripping first takes off the parentheses |
| `LinkParser.ParseWrapped` | src/common/LinkParser.cpp:133-318 | ignored characters around a link leave it as it is if and only if its rest is empty, leaves no parenthesis open, or fewer closing ones follow than are open |
| `LinkParser.TrailCloses` | src/common/LinkParser.cpp:289-305 | a trail of ignored characters closes a text if and only if that has open parentheses and the trail at least as many closing ones |
| `LinkParser.LeavesOutSpelled` | src/common/LinkParser.cpp:133-157 | by characters: everything before a link is one of `<*_~(`, everything after it one of `>?!.,:*~)`; the link begins with none of the former and ends with one of the latter only if that closes a parenthesis |
| `LinkParser.HostSpelled` | src/common/LinkParser.cpp:208-271 | by characters: a host, and what a `:`, `/`, `?` or `#` begins after it, is accepted if and only if it has dots, none of them first, doubled or at the end of the text, the port is one, and it ends in a known domain or is an address |
| `LinkParser.ProtocolSpelled` | src/common/LinkParser.cpp:183-204 | the protocol has 7 or 8 characters, which spell `http://` or `https://` in any case, or there is none |
| `LinkParser.PortSpelled` | src/common/LinkParser.cpp:104-120 | a port is five digits and anything after them, fewer digits and the end of the text, or one to four digits and a `/`, `?` or `#` |
| `LinkParser.TldSpelled` | src/common/LinkParser.cpp:268-271 | the domain looked up is what follows the last dot |
| `LinkParser.AddressSpelled` | src/common/LinkParser.cpp:55-96 | an address is four numbers below 256 of one to three digits, with three dots between them |
| `LinkParser.RecognisedExactly` | src/common/LinkParser.cpp:183-271 | a stripped text is a link if and only if it is a protocol, a host and a rest of this form |
| `LinkParser.ParsesExactly` | src/common/LinkParser.cpp:173-318 | whatever ignored characters are around it, a text is a link if and only if it has such parts, and the parser finds these |
| `LinkParser.DocumentedExample` | src/common/LinkParser.hpp:20-21 | the documented example: in `(a.com/(foo))` the link is `a.com/(foo)` |
| `Durations.SkipSpace` | src/util/Helpers.cpp:36-43 | stops one before the first character that is no space |
| `Durations.NamedBy` | src/util/Helpers.cpp:45-57 | a unit is one of the three spellings of a name if and only if the tests on its first letters and the plural-blind comparison say so |
| `Durations.FindUnitMultiplierToSec` | src/util/Helpers.cpp:59-133 | reads the unit up to the next space or digit and leaves the position on its last character |
| `Durations.UnitOf` | src/util/Helpers.cpp:83-132 | the switch over first letters knows exactly the abbreviations, names and plurals |
| `Durations.ReadUnit` | src/util/Helpers.cpp:250-269 | the unit at a position or after the spaces there, and where it ends |
| `Durations.ParseDurationToSeconds` | src/util/Helpers.cpp:224-293 | the scanner with its running position computes the grammar of number, spaces and unit, in 64-bit arithmetic that wraps around |
| `Durations.NumberThenUnit` | src/util/Helpers.cpp:244-279 | one step of the grammar by positions in the text |
| `Durations.ParsedWithoutOverflow` | src/util/Helpers.cpp:224-293 | up to 1600 characters and a default unit of at most a month nothing wraps around: -1 if and only if the text is no duration, and else the sum of the components |
| `Durations.SecondsBound` | src/util/Helpers.cpp:224-293 | a component with a value takes two characters, so the sum is at most half the length times the largest component |
| `Durations.AppendShortDuration` | src/util/FormatTime.cpp:17-25 | appends one count with its unit, after a space unless it is the first |
| `Durations.FormatTime` | src/util/FormatTime.cpp:124-151 | writes the positive ones of days, hours, minutes and seconds |
| `Durations.ReadJoined` | src/util/FormatTime.cpp:124-151 | reading any list of counts as written gives the sum they stand for |
| `Durations.FormatParseRoundTrip` | src/util/FormatTime.cpp:124-151 | for every 32-bit integer, reading what is written gives it back if it is positive, and -1 otherwise |
| `Durations.UnitsSpelled` | src/util/Helpers.cpp:83-132 | the eighteen spellings of the units with their seconds as numbers, and no others |
| `Durations.ReadsEveryUnit` | src/util/Helpers.cpp:224-293 | for every 32-bit count, any spaces and each of the eighteen spellings, the text reads as count times the seconds of the unit |
| `Durations.WrittenReads` | src/util/Helpers.cpp:224-293 | any number of such components adds up, however spelled and spaced |
| `Durations.ReadsComponents` | src/util/Helpers.cpp:224-293 | so the whole parser gives their sum as long as that fits 64 bits |
| `Durations.RejectsOtherUnits` | src/util/Helpers.cpp:262-266 | a count with a word that is none of the eighteen is no duration |
| `Durations.ReadsBareNumber` | src/util/Helpers.cpp:283-290 | a number alone counts in the default unit, and a number over 2^32 - 1 as 0 |
| `Durations.ReadsNothing` | src/util/Helpers.cpp:224-293 | a unit without a number and blank text give 0, empty text gives -1 |
| `Durations.FormatSpelled` | src/util/FormatTime.cpp:124-151 | days, hours below 24, minutes and seconds below 60 are written with their letters, zero ones left out |
| `Durations.PartsSpelled` | src/util/FormatTime.cpp:124-151 | the division into days, hours, minutes and seconds, as a sum of 86400, 3600, 60 and 1 |
| `IrcTags.ParseTagString` | src/util/IrcHelpers.hpp:9-60 | the loop that shrinks its own text equals a one-pass decoder |
| `IrcTags.DecodeEscaped` | src/util/IrcHelpers.hpp:9-60 | decoding undoes the escaping of every value (section "Escaping values" of the IRCv3 Message Tags specification) |
| `IrcTags.Disagreements` | src/util/IrcHelpers.hpp:9-60 | a lone backslash and a character with the low byte of `n`, for which it does not |
| `IrcTags.StandardAgrees` | src/util/IrcHelpers.hpp:9-60 | it agrees with the decoder of that specification if and only if no backslash is left alone at the end and none stands before a character that looks like an escape letter in its low byte |
| `IrcTags.EscapesSpelled` | src/util/IrcHelpers.hpp:22-52 | the character each of the five escapes stands for, wherever it comes; any other is itself |
| `AnimatedFrames.ClampedDuration` | src/messages/Image.cpp:211-216 | delays up to 10 become 100, those up to 20 become 20, and longer ones stay |
| `AnimatedFrames.Frames.constructor` | src/messages/Image.cpp:38-87 | an animated image of any length starts at the phase of the timer as a 32-bit integer, cut off at a minute, in the frame a lookup gives |
| `AnimatedFrames.Frames.ProcessOffset` | src/messages/Image.cpp:127-148 | terminates if any frame has a duration, with the offset in the frame, and reaches the frame a direct lookup of the time gives |
| `AnimatedFrames.Frames.Advance` | src/messages/Image.cpp:121-125 | one tick is 20 milliseconds more |
| `AnimatedFrames.Frames.Current` | src/messages/Image.cpp:176-184 | the image shown is the looked-up one |
| `AnimatedFrames.Frames.Clear` | src/messages/Image.cpp:150-164 | nothing is left |
| `AnimatedFrames.NextFrame` | src/messages/Image.cpp:134-142 | one step of the loop keeps start plus offset the same up to whole rounds |
| `AnimatedFrames.LookupWithin` | src/messages/Image.cpp:127-148 | looking up a time within a frame gives that frame and offset |
| `AnimatedFrames.LookupPeriodic` | src/messages/Image.cpp:127-148 | a whole round changes nothing |
| `AnimatedFrames.LookupModulo` | src/messages/Image.cpp:74-79 | starting from a phase is starting from the time itself |
| `AnimatedFrames.LookupShift` | src/messages/Image.cpp:121-125 | playing on from what is shown is looking up the later time |
| `AnimatedFrames.LookupDistinct` | src/messages/Image.cpp:127-148 | times less than a round apart show different things |
| `AnimatedFrames.PhaseInRange` | src/messages/Image.cpp:77-79 | no timer position makes the phase negative if and only if a round is at most 2^31 milliseconds long |
| `AnimatedFrames.NegativePhase` | src/messages/Image.cpp:77-79 | a position that makes the phase of any longer image negative |
| `AnimatedFrames.LookupPositive` | src/messages/Image.cpp:127-148 | from the first millisecond on, the frame shown has been there for a while |
| `AnimatedFrames.RestsExactly` | src/messages/Image.cpp:134-147 | the walk through the frames comes to an end if and only if some frame has a duration or the offset is not positive |
| `AnimatedFrames.OutOfStep` | src/messages/Image.cpp:65-82 | an image of two frames and two minutes that is out of step after loading at 60001 |
| `AnimatedFrames.Run` | src/messages/Image.cpp:121-148 | after any number of ticks from any phase the frame and offset are the directly looked-up ones |
| `AnimatedFrames.InStep` | src/messages/Image.cpp:65-82 | copies loaded at different times are in step if and only if the phase was at most a minute, or was made negative by just one round and has caught up |
| `ImageUploaders.ImageUploader.Upload` | src/singletons/ImageUploader.cpp:398-418 | a paste is taken on if and only if the lock was free; its first image goes out and the rest is queued |
| `ImageUploaders.ImageUploader.SendImageUploadRequest` | src/singletons/ImageUploader.cpp:155-196 | one more request is under way, for the image at the front |
| `ImageUploaders.ImageUploader.HandleFailedUpload` | src/singletons/ImageUploader.cpp:198-232 | drops the queue and lets the lock go |
| `ImageUploaders.ImageUploader.HandleSuccessfulUpload` | src/singletons/ImageUploader.cpp:234-282 | the lock is kept if and only if the text field is alive and images are queued, and then a timer runs |
| `ImageUploaders.ImageUploader.OnTimer` | src/singletons/ImageUploader.cpp:272-279 | finds its queue non-empty and sends the next image |
| `ImageUploaders.ImageUploader.Abort` | src/singletons/ImageUploader.cpp:226-248 | gives up the rest of a paste |
| `ImageUploaders.ImageUploader.Handle` | src/singletons/ImageUploader.cpp:198-282 | every event keeps the protocol: one callback outstanding exactly while locked, images out at most once and in order |
| `ImageUploaders.ImageUploader.Run` | src/singletons/ImageUploader.cpp:198-418 | so does every run, in every order of events, and what was sent is never unsent |
| `MessageBuilders.JoinSplit` | src/messages/MessageBuilder.cpp:1683 | splitting a content at its spaces and joining it again gives it back |
| `MessageBuilders.ArrangedWellPlaced` | src/messages/MessageBuilder.cpp:1673-1680 | however sorting orders equal starts: if every emote lies in one word and none begins inside another, what sorting and removing repetitions leave is well placed, one for every start |
| `MessageBuilders.UniqueStartsAscend` | src/messages/MessageBuilder.cpp:1676-1680 | the starts left are strictly ascending |
| `MessageBuilders.CheckIsExact` | src/messages/MessageBuilder.cpp:352-375 | for well-placed emotes the check says yes only for one in this word, and no only if the next one is in a later word |
| `MessageBuilders.AddEmotes` | src/messages/MessageBuilder.cpp:2304-2358 | the inner loop terminates for all emotes and stops at one that does not fit; well-placed ones come out with the text between them |
| `MessageBuilders.AddWord` | src/messages/MessageBuilder.cpp:2296-2381 | one word: emotes in order and all text between them; while on track, the elements stand where they belong and the cursor ends at the offset of the next word |
| `MessageBuilders.AddWords` | src/messages/MessageBuilder.cpp:2288-2382 | whatever the emotes, they come out in order from the first on, each word is used up and the text between emotes is kept; well-placed ones come out all, at their places, and the elements of each word cover it from end to end; only an emote that ends its word has a space after it |
| `MessageBuilders.StuckEmote` | src/messages/MessageBuilder.cpp:352-375 | an emote over a space, which fits nowhere and keeps the next one from being looked at |
| `MessageBuilders.PiecesConsume` | src/messages/MessageBuilder.cpp:2335-2352 | the pieces of a text use it up |
| `MessageBuilders.PiecesCover` | src/messages/MessageBuilder.cpp:2362-2378 | the pieces of the emoji parser cover the text they came from |
| `MessageBuilders.CoversSpells` | src/messages/MessageBuilder.cpp:2288-2382 | elements that cover a word spell it |
| `MessageBuilders.LayoutReadsAsContent` | src/messages/MessageBuilder.cpp:2288-2382 | what was laid out, joined with spaces, is the content |
| `MessageBuilders.NoSpaces` | src/messages/MessageBuilder.cpp:1683 | no word has a space |
| `MessageBuilders.WordsSpelled` | src/messages/MessageBuilder.cpp:1683 | the first word ends at the first space, and the others are the words of what follows it |
| `MessageBuilders.EmoteSpelled` | src/messages/MessageBuilder.cpp:2308-2334 | an emote laid out in a word covers its name there, and has a space after it if and only if it ends the word |
| `Cheermotes.TextState.CheerEmote` | src/providers/twitch/TwitchChannel.cpp:2251-2279 | finds the most expensive tier the amount reaches, if any |
| `Cheermotes.TextState.TryAppendCheermote` | src/messages/MessageBuilder.cpp:2476-2561 | whenever the recursion ends: shows an amount written as its remainder by the bits left, counted from one, if that reaches a tier, and takes it off; fails without effect otherwise; stacked, shows all bits once |
| `Cheermotes.SettlesExactly` | src/messages/MessageBuilder.cpp:2529-2540 | the recursion comes to an end if and only if the bits are not negative or the amount reaches no tier |
| `Cheermotes.NeverSettles` | src/messages/MessageBuilder.cpp:2535-2540 | with fewer than no bits every round raises the amount, until an int overflows |
| `Cheermotes.TenOfSeven` | src/messages/MessageBuilder.cpp:2529-2540 | ten bits written with seven left, of which three are shown |
| `Cheermotes.CutDownSteps` | src/messages/MessageBuilder.cpp:2529-2540 | one recursion step takes the bits left off the amount, and an amount reaches every tier a smaller one does |
| `Cheermotes.ShownAsWritten` | src/messages/MessageBuilder.cpp:2529-2540 | an amount is shown as written if and only if the bits left suffice or it is no 32-bit integer |
| `Cheermotes.TierSpelled` | src/providers/twitch/TwitchChannel.cpp:2261-2275 | the tier shown is the first whose price is at most the amount, an amount of exactly the price included |
| `Cheermotes.NoTier` | src/providers/twitch/TwitchChannel.cpp:2261-2275 | a cheermote stays text if and only if every price is above its amount |
| `Cheermotes.TotalIsCounted` | src/messages/MessageBuilder.cpp:2499-2561 | what is written adds up to what is used up if and only if all amounts are 32-bit integers |
| `Cheermotes.ShowAll` | src/messages/MessageBuilder.cpp:1743-1747 | over a whole message the bits used up and the bits left add up to its bits; stacked, all bits are shown once or not at all |
| `MergedChannels.MergedChannel.CanSendMessage` | src/channels/MergedChannel.cpp:187-217 | true if and only if a selected source allows sending |
| `MergedChannels.MergedChannel.SendMessage` | src/channels/MergedChannel.cpp:52-172 | sends to the selected sources that allow it and reports the others; the send is remembered exactly when there were several |
| `MergedChannels.MergedChannel.SendToSources` | src/channels/MergedChannel.cpp:69-115 | counts those sent to and lists those that failed |
| `MergedChannels.MergedChannel.Remember` | src/channels/MergedChannel.cpp:117-138 | adds the send and purges without a change for any later decision |
| `MergedChannels.MergedChannel.Purge` | src/channels/MergedChannel.cpp:126-137 | removes exactly the sends older than ten whole seconds |
| `MergedChannels.MergedChannel.ReportFailures` | src/channels/MergedChannel.cpp:140-164 | one notice per source that failed, in order |
| `MergedChannels.MergedChannel.CountEcho` | src/channels/MergedChannel.cpp:342-354 | only the first recent send of that text counts the echo |
| `MergedChannels.MergedChannel.OnSourceMessageReceived` | src/channels/MergedChannel.cpp:338-472 | shows or suppresses as the history of all sends decides, however much was purged |
| `MergedChannels.MergedChannel.Tick` | src/channels/MergedChannel.cpp:342-350 | time passing keeps purged and unpurged lists alike |
| `MergedChannels.SentConsistent` | src/channels/MergedChannel.cpp:117-138 | a send keeps every reason for what was shown or suppressed |
| `MergedChannels.ReceivedConsistent` | src/channels/MergedChannel.cpp:338-414 | so does a received message: one combined message per send with an echo, the other echoes suppressed |
| `MergedChannels.OnlyFreshCount` | src/channels/MergedChannel.cpp:347-350 | decision and count depend on the recent sends only |
| `MergedChannels.FreshLater` | src/channels/MergedChannel.cpp:128-137 | what is too old stays too old |
| `MergedChannels.DecisionIsEchoes` | src/channels/MergedChannel.cpp:343-413 | purged and unpurged lists decide alike and stay alike |
| `MergedChannels.RememberedAlike` | src/channels/MergedChannel.cpp:120-137 | and stay alike over a send with its purge |
| `MergedChannels.PurgingChangesNothing` | src/channels/MergedChannel.cpp:117-414 | over every run in the order of the clock, purging changes no verdict |
| `MergedChannels.RunConsistent` | src/channels/MergedChannel.cpp:117-414 | every run is consistent from the start on |
| `MergedChannels.SuppressedWasShown` | src/channels/MergedChannel.cpp:343-413 | in every run, a message is suppressed only after one of the same text was shown for the same send, both at most ten whole seconds after it |
| `MergedChannels.CombinedOnce` | src/channels/MergedChannel.cpp:343-413 | in every run, a send has at most one combined message |
| `MergedChannels.PlainExactly` | src/channels/MergedChannel.cpp:343-413 | in every ordered run, a message is shown as it is if and only if none of its text was sent to several platforms less than 11 000 000 000 nanoseconds before |
| `MergedChannels.EchoOfFirst` | src/channels/MergedChannel.cpp:343-353 | otherwise it stands for the first such send |
| `MergedChannels.SuppressedExactly` | src/channels/MergedChannel.cpp:353-412 | and it is suppressed if and only if an earlier message stood for the same send, and shown for all platforms if none did |
| `MergedChannels.TwoEchoes` | src/channels/MergedChannel.cpp:343-413 | an input: echoes after two and three seconds, of which the first is shown and the second is not |
| `MergedChannels.PurgedExactly` | src/channels/MergedChannel.cpp:126-137 | purging keeps exactly the sends less than 11 000 000 000 nanoseconds old |
| `MergedChannels.SelectedExactly` | src/channels/MergedChannel.cpp:74-92 | which platforms each selection sends to |
| `ChannelHelpers.MessageLog.AddOrReplaceChannelTimeout` | src/util/ChannelHelpers.hpp:20-132 | loop, disabling and appending together do one step of the specification |
| `ChannelHelpers.MessageLog.ReplaceTimeout` | src/util/ChannelHelpers.hpp:40-108 | the backward loop decides and replaces as the specification of the last 20 messages does |
| `ChannelHelpers.MessageLog.DisableMessages` | src/util/ChannelHelpers.hpp:110-126 | exactly the messages of the user that are neither moderation actions nor whispers are disabled, but not a replacement |
| `ChannelHelpers.MessageLog.AddOrReplaceChannelClear` | src/util/ChannelHelpers.hpp:141-210 | the same for clears |
| `ChannelHelpers.TimeoutTouchesOne` | src/util/ChannelHelpers.hpp:30-131 | one call appends the new message or replaces one of the last 20, and does nothing else but disabling |
| `ChannelHelpers.ClearTouchesOne` | src/util/ChannelHelpers.hpp:149-209 | one call appends the new clear or replaces one of the last 20, and never both |
| `ChannelHelpers.ReplacesTimeout` | src/util/ChannelHelpers.hpp:73-107 | a replacement takes the place of a timeout of the same user, with its own count over one of the other PubSub kind, and a dropped one meets one |
| `ChannelHelpers.ReplacesClear` | src/util/ChannelHelpers.hpp:180-204 | a replacing clear stacks on a clear of the same PubSub kind |
| `ChannelHelpers.StepClears` | src/util/ChannelHelpers.hpp:141-210 | one event adds one to the sum of the clear counts if it is a clear and leaves it alone otherwise |
| `ChannelHelpers.StepTimeouts` | src/util/ChannelHelpers.hpp:20-132 | one event adds to the sum of a user's timeout counts what was received less what is lost |
| `ChannelHelpers.ClearsConserved` | src/util/ChannelHelpers.hpp:141-210 | over every run the counts of the clears add up to the number received |
| `ChannelHelpers.TimeoutsConserved` | src/util/ChannelHelpers.hpp:73-107 | over every run the counts of a user's timeouts and what mixing the PubSub kinds loses add up to the number received |
| `ChannelHelpers.TimeoutsConservedExactly` | src/util/ChannelHelpers.hpp:73-107 | over every run the sum is right if and only if no timeout of the user was received in a state in which it replaces, or is dropped for, one of the other PubSub kind |
| `ChannelHelpers.MixingLoses` | src/util/ChannelHelpers.hpp:73-107 | one timeout loses counts if and only if it does that |
| `ChannelHelpers.MixedKindsLoseOne` | src/util/ChannelHelpers.hpp:83-89 | a timeout from PubSub and then one from the chat, of which one is counted |
| `ChannelHelpers.RunOfKind` | src/util/ChannelHelpers.hpp:73-107 | with one PubSub kind per user the log keeps to it and nothing is lost |
| `ChannelHelpers.TimeoutsOfOneKindConserved` | src/util/ChannelHelpers.hpp:91-107 | so the counts add up to the number received |
| `ChannelHelpers.TimeoutStacks` | src/util/ChannelHelpers.hpp:73-107 | if one of the last 20 is a timeout of the user of the same sharing and PubSub kind and at most 5000 milliseconds old, with nothing after it that stops the search, it is replaced in its place by one with the new time that counts one more, and no message is added |
| `ChannelHelpers.PubSubTakesOver` | src/util/ChannelHelpers.hpp:76-82 | such a timeout from the chat is replaced by one from PubSub as it is |
| `ChannelHelpers.ChatAfterPubSub` | src/util/ChannelHelpers.hpp:83-89 | one from the chat after one from PubSub is dropped, or appended if timeouts are not to be stacked |
| `ChannelHelpers.TimeoutAppended` | src/util/ChannelHelpers.hpp:40-131 | if there is none, the new one is appended |
| `ChannelHelpers.TimeoutsBecomeOne` | src/util/ChannelHelpers.hpp:20-132 | after any run, a streak of timeouts of one user and kind, each within 5000 milliseconds of the last and with nothing in between, leaves one message that counts them all and has the time of the last |
| `ChannelHelpers.ClearStacks` | src/util/ChannelHelpers.hpp:186-204 | if one of the last 20 is a clear of the same PubSub kind and at most 5000 milliseconds old, with nothing after it that stops the search, it is replaced in its place by one that counts one more |
| `ChannelHelpers.ClearAppended` | src/util/ChannelHelpers.hpp:161-209 | if there is none, the new clear is appended |
| `ChannelHelpers.ClearsBecomeOne` | src/util/ChannelHelpers.hpp:141-210 | after any run, such a streak of clears leaves one message that counts them all |
| `WindowLayouts.EncodeNodeRecursively` | src/singletons/WindowManager.cpp:679-721 | round trip: loading what is saved of any tree gives its description back |
| `WindowLayouts.EncodeContainer` | src/singletons/WindowManager.cpp:697-713 | the same for a container with any children |
| `WindowLayouts.EncodeChildren` | src/singletons/WindowManager.cpp:704-711 | the children load in order |
| `WindowLayouts.EncodeSplit` | src/singletons/WindowManager.cpp:683-695 | the same for a split |
| `WindowLayouts.EncodeNothing` | src/singletons/WindowManager.cpp:715-720 | an empty root loads as an empty container |
| `WindowLayouts.EncodeChannel` | src/singletons/WindowManager.cpp:723-804 | kind, name and sources of a channel load again |
| `WindowLayouts.EncodeSources` | src/singletons/WindowManager.cpp:723-804 | the sources of a merged channel load as those of a known kind with a name |
| `WindowLayouts.SourcesSurvive` | src/common/WindowDescriptors.cpp:111-131 | all sources survive if and only if each is of a known platform and has a name |
| `WindowLayouts.EncodeFilters` | src/singletons/WindowManager.cpp:806-815 | filter ids load again in order |
| `WindowLayouts.LoadFiltersAppend` | src/common/WindowDescriptors.cpp:79-94 | loading one more filter id appends it |
| `WindowLayouts.LoadItemsAppend` | src/common/WindowDescriptors.cpp:49-77 | loading one more child appends it, as a split or a container by its type |
| `WindowLayouts.EncodeTab` | src/singletons/WindowManager.cpp:653-677 | a tab loads with its title, its state and its tree; an empty root loads as no tree |
| `WindowLayouts.InsertValue` | src/singletons/WindowManager.cpp:723-804 | setting a member changes that member only |
| `WindowLayouts.EncodeSource` | src/singletons/WindowManager.cpp:781-793 | a source is saved under the name of its platform |
| `WindowLayouts.KindsSpelled` | src/singletons/WindowManager.cpp:727-803 | what each kind of channel is called in the file and which of them have a name |
| `WindowLayouts.LoadsOld` | src/common/WindowDescriptors.cpp:98-110 | the name and the server of a channel as older versions saved them |
| `WindowDescriptors.Visitor.Visit` | src/common/WindowDescriptors.cpp:305-331 | adds two per split of the tree and one per split of the channel with filters, and says whether one has the channel |
| `WindowDescriptors.ScoreOrder` | src/common/WindowDescriptors.cpp:289-293 | fewer splits and then no filters are preferred if a tab has at most one split of the channel with filters, and exactly when further ones outweigh a split |
| `WindowDescriptors.MoreSplitsPreferred` | src/common/WindowDescriptors.cpp:289-293 | an input for which the tab with more splits wins |
| `WindowDescriptors.WindowLayout.constructor` | src/common/WindowDescriptors.cpp:170-257 | of the main windows and of the selected tabs of a window only the first stays so, and nothing else changes |
| `WindowDescriptors.WindowLayout.LoadTabs` | src/common/WindowDescriptors.cpp:223-241 | the same for the tabs of one window |
| `WindowDescriptors.LoadedNormal` | src/common/WindowDescriptors.cpp:188-241 | loaded windows have at most one main window and one selected tab each, and windows that did are unchanged |
| `WindowDescriptors.WindowLayout.ActivateOrAddChannel` | src/common/WindowDescriptors.cpp:259-360 | only Twitch names that are no special ones act; only the first main window changes, or one is added; at most one main window and selected tab stay at most one |
| `WindowDescriptors.WindowLayout.SelectBest` | src/common/WindowDescriptors.cpp:293-359 | the first tab with the lowest score is selected, or a new tab if none shows the channel |
| `WindowDescriptors.ActivatedSelectsOne` | src/common/WindowDescriptors.cpp:296-359 | afterwards exactly one tab is selected, and it is the best that shows the channel |
| `WindowDescriptors.ActivatedTwice` | src/common/WindowDescriptors.cpp:259-360 | doing it again changes nothing |
| `WindowDescriptors.ActivatedTwitch` | src/common/WindowDescriptors.cpp:313-325 | the selected tab shows the Twitch channel if and only if no split had the name or the best tab has the Twitch one: only names are compared |
| `WindowDescriptors.ActivatedByKind` | src/common/WindowDescriptors.cpp:313-325 | whatever the scores: if all splits of the name are of Twitch the selected tab shows the Twitch channel, and if there are some and none is it does not |
| `WindowDescriptors.KickForTwitch` | src/common/WindowDescriptors.cpp:313-325 | an input for which a Kick channel is opened instead |
| `WindowDescriptors.NewTabLoads` | src/common/WindowDescriptors.cpp:352-359 | the tab added for a channel is what loading makes of one with that Twitch channel alone |
| `WindowDescriptors.ShowsExactly` | src/common/WindowDescriptors.cpp:313-325 | a tab shows a channel if and only if one of its splits, at any depth, has the name |

## Left out

- Widgets, painting, network requests, files, keychain and settings: their results are parameters or events.
- Mutexes: every queue operation is one atomic step, and other threads append between any two of them; other operations in between (prepending, clearing, replacing) are not interleaved with a back-fill.
- A queue with limit 0, which the program never makes.
- Channels.Channel.FillInMissingMessages: the merge is promised only if no message object occurs twice in the buffer, the historic list and the appends together, because the queue finds messages by their address.
- Channels.Channel.AddMessage: the buffer and the signal for the removed message only; logging to files and the other signals do nothing to the buffer.
- The ring itself comes from a library; its overwriting rules are modelled, not its memory management.
- SignalVectorModels.SignalVectorModel.SetData: the virtual hooks (`beforeInsert`, `afterRemoved`, `customRowSetData`) have their default behaviour, one table listens to a vector, and reading back an unedited row is assumed to give its item.
- SignalVectorModels.SignalVectorModel.MoveRows: a row outside the table, on which the source asserts, is excluded; a failed move changes nothing here, where the source leaves by an exception.
- MessageSimilarity.RelativeSimilarity: the division is exact where the source rounds to a float.
- Characters: text is a sequence of 16-bit units as in the source; surrogate pairs get no meaning beyond that. `codepointSlice` is not modelled.
- LinkParser.Parse: the table of top-level domains and the Unicode digits are parameters; lowercasing within the lookup belongs to the table.
- Durations.ParseDurationToSeconds: which characters beyond ASCII are digits or spaces is a parameter; the number conversion is taken to read ASCII digits only.
- AnimatedFrames.Frames.Advance: excludes images without any duration, on which the source does not return (`AnimatedFrames.RestsExactly`); a frame within 20 milliseconds of the largest 32-bit duration would overflow the offset, which is unbounded here; connecting to the timer is the `Advance` calls of `Run`.
- ImageUploaders.ImageUploader.Run: the log, the status texts, reading images off the clipboard and the text inserted are not modelled.
- MessageBuilders.AddWords: which emotes come out at which place is promised for well-placed emotes only; the emoji parser is any splitter whose pieces make up its input; the elements that a piece of text becomes (third-party emotes, links, mentions) are not told apart.
- Cheermotes.TextState.TryAppendCheermote: excludes the calls that never end (`Cheermotes.SettlesExactly`); a word matches the pattern of one cheermote at most, and every tier has an image and a colour.
- ImageUploaders.ImageUploader.SendImageUploadRequest: the request itself is only a completion to come and a record of what was sent.
- MergedChannels.MergedChannel.SendMessage: an echo that arrives before the send returns is not modelled, nor are badges and the texts of the notices.
- `removeSourceChannel`, which keeps its subscription, and changing the set of sources during a run.
- ChannelHelpers.MessageLog.AddOrReplaceChannelTimeout: the text of the replacement message; a caller that looks at a part of the log gives where it starts; the log is append-only, so eviction by the limit is not part of a run, and a run is shorter than 2^32 - 1 events, below which a 32-bit count cannot wrap around.
- WindowLayouts.EncodeTab: duplicate keys cannot occur in the JSON values written; ids of filters are read back as they were written; numbers are exact.
- WindowDescriptors.WindowLayout.constructor: geometry, window state and the position of the emote popup pass through unchanged and are not part of this model.
- Third-party caches, regular expressions and date arithmetic (`durationBetween` and others).
