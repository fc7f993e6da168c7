# Channel service bot: verified models

The repository is an IRC channel service: a bot that links to a network as a server, follows who is
where, keeps a user list per channel in small database files, and changes modes on behalf of its users.
This project models its core in Dafny and proves what the code is relied on for. `dafny verify
dfyconfig.toml` checks everything.

| file | what it models |
|---|---|
| `casefold.dfy` | case folding, `mycasecmp`, the hash functions |
| `glob.dfy`, `xmatch.dfy` | the mask matcher with its backtrack stack, and the overlap test of two masks |
| `words.dfy`, `modestring.dfy` | word access, and the mode set kept in a string |
| `modeline.dfy`, `modequeue.dfy` | mode changes: the coalescing linked queue, the printer, the parser |
| `buffer.dfy`, `bufferpool.dfy`, `outbound.dfy` | block buffers with a shared free list, and the outbound stream built on them |
| `linereader.dfy` | cutting the inbound stream into lines of four fields |
| `dbquery.dfy`, `records.dfy` | reading a database file in pieces, and the bytes of its records |
| `userdb.dfy`, `usercommands.dfy`, `usersaver.dfy`, `userrefs.dfy`, `userlimits.dfy`, `usercache.dfy` | the write-back user database: records, cache, what the commands and the saver achieve, use counts, whole runs |
| `servers.dfy`, `network.dfy`, `netsteps.dfy`, `neteffects.dfy`, `nettables.dfy` | servers, users and channels, every step of the protocol that changes them, what it does in terms of its message, and the tables behind them |
| `events.dfy`, `windows.dfy` | the timer queue, and the sliding windows of the flood protections |
| `lists.dfy`, `wrappers.dfy` | facts about lists that several modules share, and optional values |

Code that changes things in place is a class with methods (`Channel` with its linked nodes, `Block`, `Pool`
and `Buffer`, `IrcSocket`, `Reader`, `Query`, `RegUser` and `UserList`, `Luser`, `AChannel` and `Tables`,
`Timers`, the two histories). Each method is tied to a function on values, and the laws are proved about
those functions: over single steps, over whole runs, and for all inputs.

The main results:

- `match` decides membership in the language of its mask; remembering only the newest star is enough. Quoted
  characters stand for themselves. A mask for an IPv6 block accepts exactly the strings whose rewritten form begins
  with the block's prefix.
- `xmatch` is symmetric and sound, and exact whenever each pattern that ends in `**` meets one with a star. A
  pattern is answered correctly against every partner if and only if it has a star and does not end in `**`.
- From `changemode` to the other side of the connection: whoever applies the flushed lines to a set of modes
  gets what all accepted calls in order make of it. Without operator status the bot's own changes are dropped,
  and this holds if and only if none of them is left in the queue.
- Block chains are byte sequences, for any number of buffers that share one free list: each block is in exactly
  one place, none is ever lost, the counters are exact; bytes leave in order under any partial writes, and lines
  arrive whole under any partial reads.
- The user cache: over every run of loads, repairs, saves, evictions, commands, logins and quits no record has
  two owners, no user points at a freed entry, and the logical database is what the commands made of it, less
  what the saver lost. The saver loses nothing, so that the cache is transparent, as long as no channel name is
  longer than the 49 characters a record stores. How often a record belongs to a channel is `UserDb.Times`. When the
  saver has been to a bucket, every change in it is in its file and nobody is left in memory without need.
- A query sees the slots of a file and not just bytes: it hands over exactly the records that carry the channel's name
  and what it was asked for, and repairs exactly those of other channels.
- Every protocol step keeps the two copies of each membership, the servers' lists and the channel table in
  agreement, and every link between user and channel objects stays in the tables; a netsplit removes exactly one
  subtree and its users.
- A user leaves with the server whose numeric announced him, and with the servers above it; a stale or foreign SQUIT
  leaves him.
- Timers fire exactly once, never early, in order, and what comes back never gets lost; the flood windows hold exactly
  the messages, or the victims, of the last 15 seconds.

Where the code and its comments disagree, the model follows the code:

- `Sources/buffer.c:229-248` announces a search among `max` characters; the loop inspects `max + 1`, and at
  least one.
- `Sources/events.c:56-60` announces insertion before the first event with a greater time; the loop stops at
  the first event that is not earlier, so events of equal time fire newest first.
- `Sources/match.c:67-69` announces a complete overlap test; between a pattern that ends in `**` and one
  without a star an overlap can be missed, such as that of `a` and `a**` (`Overlap.OneLetterMissed`).
- `Sources/connect.c:486-500` keeps the queue length exact except after an empty message, which sets it to -1.
- `Sources/servers.c:81-84` follows the result of a search without looking at it: a new server that names an
  uplink nobody knows ends the program (`NetSteps.UnknownUplink`).
- A record stores 49 characters of a channel name. An entry with a longer name is lost from its channel when
  it leaves the cache; `UserDb.SliceExact` says exactly what is lost, and `UserLimits.LongNameIsLost` is a run.
- `flushmode` sends the bot's changes only while it is a channel operator; otherwise it drops them
  (`Sources/modes.c:948-979`).

## Model

| member | source | states |
|---|---|---|
| `CaseFold.MyCaseCmp` | Sources/match.c:32-43 | zero exactly for strings equal up to RFC 1459 case, otherwise the difference at the first differing position |
| `CaseFold.ComputeClHash` | Sources/channels.c:29-36 | the loop computes the folded character sum modulo 1000 |
| `CaseFold.ComputeUlHash` | Sources/userlist.c:68-74 | the same for the user list, which skips the leading character |
| `CaseFold.HashesRespectFold` | Sources/channels.c:29-36 | every spelling of a channel name lands in the same bucket of both tables |
| `CaseFold.FoldPairs` | Sources/globalvar.h:107-111 | two characters count as one exactly if they are the same or two cases of one letter, those of RFC 1459 and of Latin-1 |
| `Glob.StarAt` | Sources/match.c:174-180 | a star matches exactly when what follows it matches after some run of characters |
| `Glob.NewestStarSuffices` | Sources/match.c:190-198 | forgetting all stars but the newest loses no match |
| `Glob.RetryStar` | Sources/match.c:190-198 | going back means the star takes exactly one more character |
| `Glob.TextUsedUp` | Sources/match.c:202-205 | once the string is used up, not going back to any star loses no match |
| `Glob.Mismatch` | Sources/match.c:187-199 | a mismatch pops the entry that was pushed last; with no entry left the mask does not match |
| `Glob.MatchMask` | Sources/match.c:169-205 | the stack matcher terminates and answers exactly membership in the language of the mask; with masks that fit the scratch buffer the 200-entry cut-off is never reached |
| `Glob.RewriteTail` | Sources/match.c:120-167 | the first block suffix in the order `:/112`, `:/96`, `:/80`, `:/64` that occurs anywhere, and all that follows its first occurrence, become `*`; without one the string stays as it is |
| `Glob.NormalisedMeans` | Sources/match.c:120-167 | the rewritten string is the only one that this describes |
| `Glob.Match` | Sources/match.c:110-206 | 1 exactly when the rewritten string is in the language of the rewritten mask |
| `Glob.PlainMask` | Sources/match.c:169-205 | a mask without wildcards accepts exactly its own spellings |
| `Glob.AnyOne` | Sources/match.c:185-188 | an unquoted `?` takes any one character |
| `Glob.QuotedThen` | Sources/match.c:181-188 | behind a backslash every character, `?`, `*` and the backslash too, stands for itself only |
| `Glob.QuotedMask` | Sources/match.c:110-206 | through `match`: a quoted string accepts exactly its own spellings, whatever its characters |
| `Glob.QuotedStart` | Sources/match.c:110-206 | through `match`: a quoted string and a star accept exactly what begins with a spelling of it |
| `Glob.LoneBackslash` | Sources/match.c:181-205 | a mask that ends in the middle of a quotation accepts nothing |
| `Glob.StarBehind` | Sources/match.c:174-198 | a star behind any mask accepts exactly what begins with a string of the mask |
| `Glob.CutBehind` | Sources/match.c:120-167 | where a mask built with a block suffix is cut, and which suffixes could win against it |
| `Glob.BlockMask` | Sources/match.c:123-205 | through `match`: a mask (wildcards allowed) with a block suffix accepts exactly the strings whose rewritten form has a beginning that the mask accepts |
| `Glob.PlainBlock` | Sources/match.c:123-205 | through `match`: a block without wildcards, under each of the four suffixes, accepts exactly the strings whose rewritten form begins with its prefix |
| `Overlap.XMatch` | Sources/match.c:70-96 | the loop computes the relation `XMatches`, and the mutual recursion terminates |
| `Overlap.MatchX` | Sources/match.c:98-107 | some suffix of the second pattern overlaps the first |
| `Overlap.XMatchDecidesStrict` | Sources/match.c:70-107 | for all patterns, exactly when a common string exists in the reading where a trailing `**` takes at least one character |
| `Overlap.XMatchSymmetric` | Sources/match.c:70-107 | the order of the patterns does not matter, for all patterns |
| `Overlap.XMatchSound` | Sources/match.c:67-69 | an overlap is never claimed that is not there |
| `Overlap.XMatchExact` | Sources/match.c:67-107 | the answer is right whenever each pattern that ends in `**` meets a pattern with a star |
| `Overlap.XMatchMisses` | Sources/match.c:82-89 | every pattern that ends in `**` is denied an overlap it has, with a concrete partner |
| `Overlap.XMatchMissesPlain` | Sources/match.c:82-89 | every pattern without a star is denied an overlap it has, with a concrete partner |
| `Overlap.OneLetterMissed` | Sources/match.c:82-89 | `a` and `a**` have a common string, and no overlap is seen in either order |
| `Overlap.XMatchTrustedIff` | Sources/match.c:67-107 | a pattern is answered correctly against every partner exactly if it contains a star and does not end in `**` |
| `Overlap.NoOverlapNoCommonMatch` | Sources/match.c:67-107 | when overlap is denied to such a pair, no string passes `match` under both masks |
| `Words.ScanToWord` | Sources/main.c:554-571 | the nested scans find the start of word `nb` |
| `Words.CopyWord` | Sources/main.c:573-584 | copies one word, at most 75 characters |
| `Words.ToWordInList` | Sources/main.c:554-571 | stepping over `n` words of a spaced list leaves the rest of the list |
| `Words.WordAfterHead` | Sources/main.c:573-584 | word `n + 1` of a head and a list is word `n` of the list |
| `ModeString.ModeBuffer.AddFlag` | Sources/modes.c:42-61 | map update on the flags the string encodes |
| `ModeString.ModeBuffer.RemFlag` | Sources/modes.c:63-94 | map removal; the argument of an `l` or `k` goes with it, and no other |
| `ModeString.ModeBuffer.IsSet` | Sources/modes.c:96-142 | map lookup, with the argument compared for `l` and `k` |
| `ModeString.RemoveFlag` | Sources/modes.c:69-88 | the removal loop over the two halves of the string |
| `ModeString.Decode` | Sources/modes.c:42-142 | flags and arguments can be read back from the string |
| `ModeString.AddMeansUpdate` | Sources/modes.c:42-61 | adding changes the lookup of this flag only |
| `ModeString.RemMeansRemoval` | Sources/modes.c:63-94 | removing clears the lookup of this flag only |
| `ModeLine.CoalesceKeepsUnique` | Sources/modes.c:860-884 | a call leaves at most one entry per (letter, argument) |
| `ModeLine.CoalesceIsApply` | Sources/modes.c:860-892 | one call adds exactly its own effect to what the queue means |
| `ModeLine.CoalescingPreservesMeaning` | Sources/modes.c:834-895 | from an empty queue, any calls leave unique keys and the same effect on every set of modes |
| `ModeLine.ServerFirstSameEffect` | Sources/modes.c:927-973 | sending the server's changes first gives the same set of modes |
| `ModeLine.ModeChange` | Sources/modes.c:351-485 | the sign/letter/argument loop of the parser |
| `ModeLine.ArgumentLetters` | Sources/modes.c:351-485 | bans, keys, operators and voices have an argument under both signs, the user limit only when it is set |
| `ModeLine.SameLetters` | Sources/modes.c:351-485 | the same letters can be set and taken back, and which they are |
| `ModeLine.SignsAndStrangers` | Sources/modes.c:351-485 | a sign counts for all letters behind it, an unknown letter does nothing and uses no argument |
| `ModeLine.OneLetter` | Sources/modes.c:351-485 | one turn of that loop: which argument the letter takes |
| `ModeLine.TimestampIsIgnored` | Sources/modes.c:351-485 | digits behind the last letter are no mode changes |
| `ModeLine.WalkReads` | Sources/modes.c:351-485 | from any point of a printed line the walk reads exactly the remaining changes |
| `ModeLine.LineRoundTrip` | Sources/modes.c:927-1003 | printing then parsing a line gives back its changes, also when it relies on the reader's initial `+` |
| `ModeLine.LastDecides` | Sources/modes.c:351-485 | for whoever applies the changes: a mode is set in the end exactly if the last change about it sets it, or it was set and there is none |
| `ModeLine.DecimalReads` | Sources/modes.c:979-995 | the printed number, read from the left, is the number |
| `ModeLine.BodyEnds` | Sources/modes.c:979-995 | the last word of a printed line reads as the channel's time stamp |
| `ModeQueue.Channel.Unlink` | Sources/modes.c:862-880 | taking a node out keeps the doubly linked list well formed and the others in order |
| `ModeQueue.Channel.Append` | Sources/modes.c:886-893 | a new node goes to the end of the list |
| `ModeQueue.Channel.ChangeMode` | Sources/modes.c:834-895 | the list in memory becomes the coalesced queue |
| `ModeQueue.AcceptedMeans` | Sources/modes.c:834-858 | on a channel the bot is on every call counts, elsewhere those it makes for the server |
| `ModeQueue.Channel.FlushPass` | Sources/modes.c:927-964 | one pass sends exactly the changes of one class, in order, at most six arguments to a line, and leaves the other class |
| `ModeQueue.Channel.FlushMode` | Sources/modes.c:897-1004 | the emitted lines read back as the server's queued changes, then the bot's if it is a channel operator; the server's lines come first, every line ends in the channel's time stamp, and the queue ends empty |
| `ModeQueue.Channel.ChangeAndFlush` | Sources/modes.c:834-1004 | any calls, then a flush: applying the lines to any set of modes has the effect of all accepted calls in order, if and only if the bot is a channel operator or none of its own changes is queued |
| `ModeQueue.FlushMeansTheCalls` | Sources/modes.c:834-1004 | the same for what is sent of a queue, with the exact condition |
| `ModeLine.OnlyServersIff` | Sources/modes.c:948-979 | sending only the server's changes has the effect of the whole queue exactly if the bot has none in it |
| `Buffers.Pool.GetBlock` | Sources/buffer.c:43-70 | a block comes from the free list or fresh from the heap; both counters stay exact |
| `Buffers.Pool.ReturnBlock` | Sources/buffer.c:77-83 | a block goes to the free list |
| `Buffers.Buffer.CopyTo` | Sources/buffer.c:177-207 | appends the string and returns the new length |
| `Buffers.Buffer.CopyFrom` | Sources/buffer.c:93-126 | removes and returns the prefix up to and including the first stop character, or `max` characters |
| `Buffers.Buffer.Look` | Sources/buffer.c:130-166 | returns what a read would return and leaves the contents |
| `Buffers.Buffer.Skip` | Sources/buffer.c:263-287 | removes `n` characters |
| `Buffers.Buffer.Zap` | Sources/buffer.c:214-227 | gives all blocks back: afterwards the free list has its old blocks and the buffer's |
| `Buffers.Buffer.FindChar` | Sources/buffer.c:234-257 | tells whether the character is among the first max + 1 |
| `Buffers.TakenWithoutStop` | Sources/buffer.c:94-166 | without a stop character a read takes `max` characters, or all there are |
| `Buffers.TakenToStop` | Sources/buffer.c:94-166 | a read ends behind the first stop character, unless its limit comes first |
| `Buffers.Buffer.LookThenSkip` | Sources/connect.c:683-702 | looking at some characters and then skipping as many is copying them |
| `BufferSystem.System.Perform` | Sources/buffer.c:33-287 | with any number of buffers: every call changes its own buffer only, the counters stay exact, no block is lost, and only storing takes blocks from the heap |
| `BufferSystem.System.OnePlace` | Sources/buffer.c:33-83 | each block is in exactly one place: at one position of one chain or of the free list |
| `BufferSystem.System.BooksBalance` | Sources/buffer.c:33-83 | the two counters together are the number of blocks |
| `Outbound.IrcSocket.Send` | Sources/connect.c:486-500 | appends the message; the queue length is exact, except after an empty message |
| `Outbound.IrcSocket.WriteToServer` | Sources/connect.c:677-709 | whatever the operating system accepts, bytes leave in order and the queue length follows |
| `Outbound.IrcSocket.Run` | Sources/connect.c:486-709 | over every run: bytes written followed by bytes buffered are all messages, and the counter is exact if and only if the last message was not empty |
| `LineReader.OneByte` | Sources/connect.c:560-668 | only a line feed completes a message; carriage returns vanish |
| `LineReader.SplitAppend` | Sources/connect.c:567-627 | one more character either starts a new field (first three spaces) or extends the last one |
| `LineReader.FieldsRead` | Sources/connect.c:567-664 | up to three fields and the rest of a line are read back as they are; what is not there is empty |
| `LineReader.SentArrives` | Sources/connect.c:560-668 | messages sent one after the other, each as its four fields with spaces in between and a line end, arrive as they are |
| `LineReader.Reader.InLine` | Sources/connect.c:567-627 | the static buffers show the fields of the line read so far, whatever older lines left in them |
| `LineReader.Reader.EndLine` | Sources/connect.c:628-664 | `proc` gets the fields of exactly this line; missing fields are empty |
| `LineReader.Reader.FeedAll` | Sources/connect.c:517-674 | however the stream is cut into pieces, `proc` is called once per complete line, in order, with its fields |
| `DbQuery.Query.ReadDb` | Sources/dbio.c:145-290 | whatever `read()` delivers, the query has examined the whole records delivered so far and holds the rest |
| `DbQuery.Query.NextRecord` | Sources/dbio.c:163-288 | one turn: a complete record is examined and skipped, a partial one waits |
| `DbQuery.ScanAppend` | Sources/dbio.c:162-164 | scanning in pieces is scanning the whole |
| `DbQuery.RecordIsSlice` | Sources/dbio.c:163-286 | record `k` is at byte `k` times the record size |
| `DbQuery.ScanIsFramed` | Sources/dbio.c:163-288 | whole records are examined from the front in order, less than one record stays unread while the query runs |
| `DbQuery.ActionsAreFramed` | Sources/dbio.c:163-288 | each action reports one record at its own offset, in the order of the file |
| `DbQuery.FirstHit` | Sources/dbio.c:198-243 | a first-hit query ends at the first matching record, and runs on only while none matches |
| `DbQuery.AllHits` | Sources/dbio.c:219-227 | a query for all hits reports exactly the matching records |
| `DbQuery.HostsCounted` | Sources/dbio.c:242-247 | a counting query counts the matching records and reports none |
| `DbQuery.AllRepaired` | Sources/dbio.c:180-186 | of the records examined exactly those of another channel are repaired |
| `Records.FieldsRead` | Sources/struct.h:54-66 | the strings of a record can be read back at their places in its bytes |
| `Records.ImageShows` | Sources/dbio.c:300-324 | the bytes of a slot say whether it is used, and show its strings |
| `Records.FileRecords` | Sources/dbio.c:145-290 | the records a query cuts out of a file are the slots of the file |
| `Records.FirstOfFile` | Sources/dbio.c:198-287 | a query for a nick, a host, a host with its password, or a free slot hands over exactly the first slot of the file that is wanted, and ends there |
| `Records.AllOfFile` | Sources/dbio.c:222-229 | a query for all hosts hands over exactly the records of the channel whose mask matches |
| `Records.CountOfFile` | Sources/dbio.c:242-247 | a counting query counts them |
| `Records.StraysOfFile` | Sources/dbio.c:180-186 | whatever is asked, exactly the records of other channels are repaired |
| `UserDb.OneFilePerChannel` | Sources/dbio.c:30-47 | two names share a database file exactly if they are spellings of one channel |
| `UserDb.LoadRoundTrip` | Sources/userlist.c:303-323 | loading a record and making a record of the entry gives the record back |
| `UserCommands.RecordShows` | Sources/dbio.c:300-324 | the record of an entry has as much of each of its strings as fits, and its numbers; an entry with access 0 has none |
| `UserCommands.FileAlone` | Sources/dbio.c:145-290 | while nothing of its bucket is in memory a channel has exactly the records of its file that carry its name, as often as the file has them |
| `UserDb.SaveTransparent` | Sources/dbio.c:556-610 | saving an entry changes no channel's logical records |
| `UserDb.SaveKeepsOwners` | Sources/dbio.c:578-605 | after a save every record still has at most one owner and every offset names a used record |
| `UserDb.SaveOverwritesNothing` | Sources/dbio.c:578-597 | a save writes the entry's own record, or one that is free and that no other entry claims |
| `UserSaver.SaveEffect` | Sources/dbio.c:556-610 | what a save writes, and where: a new entry takes the first free record or the end of the file, a deleted one leaves a free record; no other file or entry changes |
| `UserDb.FlushedIdle` | Sources/dbio.c:621-630 | an entry about to be dropped has nothing left to lose |
| `UserSaver.SliceSettles` | Sources/dbio.c:613-638 | behind a slice nobody unneeded is left, and no change is unsaved but the deletion of an entry that was never in a file |
| `UserSaver.NeededStays` | Sources/dbio.c:613-638 | whoever is in use, or was used in the last 4800 seconds, stays |
| `UserSaver.SliceIsDone` | Sources/dbio.c:613-638 | what a slice achieves: every live entry left is in its file, exactly the unneeded ones are gone, the other buckets are untouched |
| `UserDb.SliceExact` | Sources/dbio.c:613-638 | what a slice, evictions included, does to the logical records: it loses exactly the live entries dropped with channel names over 49 characters |
| `UserDb.SliceTransparentIff` | Sources/dbio.c:613-638 | a slice is transparent if and only if no entry it drops has a channel name over 49 characters |
| `UserLimits.LongNameIsLost` | Sources/dbio.c:308-309 | a run on an empty database: a user is added to a channel whose name has 50 characters, the saver comes by, and the record is gone |
| `UserDb.LoadTransparent` | Sources/userlist.c:272-327 | loading changes no logical record and keeps ownership |
| `UserDb.FixTransparent` | Sources/dbio.c:109-139 | marking a record of the wrong channel deleted changes no logical record and keeps ownership |
| `UserDb.AddEffect` | Sources/userlist.c:653-672 | a new entry adds its own record to its own channel |
| `UserDb.ChangeKeepsOwners` | Sources/userlist.c:1537-1543 | changes of an entry keep ownership |
| `UserDb.ChangeEffect` | Sources/userlist.c:1970-2131 | changing an entry replaces exactly its own record |
| `UserDb.CommandsRespectEntries` | Sources/userlist.c:1970-2131 | deletion, suspension and modinfo keep an entry's place, and modinfo never grants the access of the one who asks |
| `UserCommands.RemoveEffect` | Sources/userlist.c:1526-1543 | a deletion takes exactly one copy of the entry's record out of the database; a deletion that never reached a file is not saved |
| `UserCommands.SuspendEffect` | Sources/userlist.c:1292-1323 | a user of higher rank sets the date, an automatic suspension only moves it back, and exactly the entry's record changes |
| `UserCommands.MaskEffect` | Sources/userlist.c:1998-2033 | a new mask is stored exactly for a valid mask and a user of higher rank, in memory and in the record, with the note about the change |
| `UserCommands.AccessEffect` | Sources/userlist.c:2034-2053 | a new access is stored exactly if it has at most four characters, is not negative, and below the asker's, whose rank is higher; access 0 takes the record out of the database |
| `UserCommands.AutoOpEffect` | Sources/userlist.c:2054-2078 | exactly the lowest bit of the flags is set by `on` and `yes` and cleared by `off` and `no`, and the note stays |
| `UserCommands.PasswdEffect` | Sources/userlist.c:2079-2100 | a new password of 6 to 18 characters is stored for a user of higher rank or the owner of the entry |
| `UserRefs.EvictKeepsRefs` | Sources/dbio.c:625-630 | dropping an entry with use count 0 leaves no user pointing at it |
| `UserRefs.SliceKeepsRefs` | Sources/dbio.c:613-638 | the saver never frees an entry that a user points to |
| `UserRefs.AttachKeepsRefs` | Sources/userlist.c:337-344 | validation keeps use counts equal to the number of links |
| `UserRefs.DetachKeepsRefs` | Sources/userlist.c:515-525 | so does removing a link |
| `UserRefs.QuitKeepsRefs` | Sources/users.c:433-443 | so does a quit, which removes all links of the user |
| `UserRefs.StepIsSafe` | Sources/userlist.c:209-675 | every step keeps ownership and use counts and changes the logical records as the command means to, less what the saver loses |
| `UserRefs.RunIsSafe` | Sources/dbio.c:556-638 | over every run no record has two owners, no user points at a freed entry, and the logical records are what the commands made of them less what the saver lost |
| `UserRefs.RunTransparent` | Sources/dbio.c:556-638 | over every run in which channel names have at most 49 characters the logical records are what the commands alone made of them |
| `UserRefs.StartIsSafe` | Sources/userlist.c:98-136 | the invariants hold at start-up |
| `UserCache.UserList.constructor` | Sources/userlist.c:98-136 | start-up puts the master's entry, and nothing else, into the cache |
| `UserCache.UserList.FindAtOffset` | Sources/userlist.c:291-294 | the search finds the first entry with this offset and channel |
| `UserCache.UserList.LoadDbuser` | Sources/userlist.c:272-327 | performs the load step; an entry that is deleted or renamed in memory yields nothing |
| `UserCache.UserList.FixDb` | Sources/dbio.c:109-139 | performs the repair step |
| `UserCache.UserList.AdduserCallback` | Sources/userlist.c:622-675 | the new entry joins exactly if no live record of that nick was found |
| `UserCache.UserList.SeekFree` | Sources/dbio.c:582-588 | finds the first free record, or the end of the file |
| `UserCache.UserList.ColdSaveOne` | Sources/dbio.c:556-610 | performs the save step on the entry and its file |
| `UserCache.UserList.FreeUser` | Sources/userlist.c:77-97 | only an unused entry is freed |
| `UserCache.UserList.DoColdSyncSlice` | Sources/dbio.c:613-638 | performs one slice: changes are in their files and unneeded entries gone, as in `UserSaver.SliceIsDone`; the counter advances and ends at -1 after the last bucket |
| `UserCache.UserList.SuccessfulAuth` | Sources/userlist.c:337-344 | performs the validation step |
| `UserCache.UserList.TryFind` | Sources/userlist.c:209-243 | links a user who is not validated yet to the first entry whose mask fits and that has no password |
| `UserCache.UserList.DeAuth` | Sources/userlist.c:572-610 | removes the user's first link for the channel, if there is one |
| `UserCache.UserList.OnQuit` | Sources/users.c:433-443 | performs the quit step on the validations |
| `UserCache.UserList.Remove` | Sources/userlist.c:1526-1543 | deletes the entry unless its access is not below the asker's |
| `UserCache.UserList.RemoveUser` | Sources/userlist.c:1593-1631 | finds the first entry by nick or mask and deletes it under the same rule |
| `UserCache.UserList.Suspend` | Sources/userlist.c:1292-1312 | suspends unless the asker ranks too low or an automatic suspension is shorter than the present one |
| `UserCache.UserList.DoModinfo` | Sources/userlist.c:1994-2131 | performs the modinfo command on the entry |
| `ServerTree.FindFinds` | Sources/servers.c:55-79 | the search finds a server exactly if it is in the tree |
| `ServerTree.FindYYFinds` | Sources/servers.c:28-53 | the search by numeric finds a server with this numeric exactly if there is one |
| `ServerTree.PruneExact` | Sources/servers.c:223-227 | unlinking removes one subtree of names and nothing else |
| `ServerTree.PruneKeeps` | Sources/servers.c:223-227 | the servers left keep their data and what hangs below them, except the subtree that went |
| `ServerTree.HangPlaces` | Sources/servers.c:142-155 | a new server hangs directly below its uplink |
| `ServerTree.HangKeeps` | Sources/servers.c:142-155 | the other servers keep their data and what hangs below them; the new one is added below its uplink |
| `NetSteps.JoinEffect` | Sources/channels.c:1014-1034 | a join adds exactly one membership, in front of both lists |
| `NetSteps.PartEffect` | Sources/channels.c:1147-1207 | a part ends at most one membership; the channel goes with its last member unless the bot is on it |
| `NetEffects.PartListEffect` | Sources/channels.c:1092-1214 | a list of names ends one membership of the user for each time it names a channel, as long as there are any |
| `NetEffects.PartListKeeps` | Sources/channels.c:1147-1207 | whoever else is on a channel stays, with his right to give modes |
| `Network.PartCoherent` | Sources/channels.c:1092-1214 | a part keeps both copies of all memberships in agreement |
| `Network.PartInvisible` | Sources/users.c:446-455 | leaving one more channel cannot be told from never having been there |
| `Network.QuitExact` | Sources/users.c:407-503 | a quit removes exactly the user, from the user table, his server's list and every channel |
| `NetEffects.QuitKeeps` | Sources/users.c:446-455 | behind a quit the members of a channel are all the others, each with his right to give modes |
| `NetSteps.AddUserEffect` | Sources/users.c:224-301 | a new user has his nick, starts in no channel, lives on a server of the tree with the numeric of the message (on the virtual one if his nick starts with `+`), and displaces at most the old owner of his numeric |
| `NetEffects.NewUserLeaves` | Sources/users.c:224-301 | with unique numerics a new user leaves with the SQUIT of the server that announced him or of one above it, under a time stamp that applies, and with no other |
| `NetSteps.AddUserSound` | Sources/users.c:224-301 | a new user keeps all indexes in agreement |
| `NetSteps.AddServerSound` | Sources/servers.c:86-158 | so does a new server below a known one whose name is not in use |
| `NetEffects.AddServerEffect` | Sources/servers.c:86-158 | the tree has one server more, under the name, numeric and time stamp of the message, first or below the server with the uplink's numeric; all others keep their data and what hangs below them |
| `NetSteps.AddServerSoundIff` | Sources/servers.c:86-158 | a new server below a known one keeps the picture sound if and only if its name is not in use |
| `NetSteps.OnServerSoundIff` | Sources/servers.c:81-158 | after the message of a new server the program goes on with a sound picture if and only if it knows the uplink and no server of that name |
| `NetSteps.UnknownUplink` | Sources/servers.c:81-123 | a concrete message, with a fresh name and an unknown uplink, that ends the program |
| `Network.QuitBucketExact` | Sources/servers.c:215-221 | emptying a bucket removes exactly the users in it |
| `Network.QuitFromExact` | Sources/servers.c:215-221 | the loop over the buckets removes exactly the users of the server |
| `ServerTree.FirstBelow` | Sources/servers.c:210-213 | the first server below is found by name, and unlinking it leaves the parent in place |
| `NetSteps.SquitSound` | Sources/servers.c:160-228 | a netsplit keeps all indexes in agreement |
| `Network.Squit` | Sources/servers.c:160-228 | the recursion terminates and leaves the network without the subtree |
| `NetSteps.SquitExact` | Sources/servers.c:160-228 | a netsplit removes exactly one subtree and exactly the users homed on it; it happens if and only if the tree has a server of that name and it is the first one, or the message has no time stamp, or the server's own |
| `NetEffects.SplitKeeps` | Sources/servers.c:215-221 | behind a netsplit the members of a channel are those who were not homed on the servers that left, each with his right to give modes |
| `NetSteps.BurstSoundIff` | Sources/channels.c:719-913 | a burst keeps the picture sound if and only if it does not create a channel all of whose listed members are unknown |
| `NetEffects.BurstEffect` | Sources/channels.c:719-913 | a burst makes exactly its known members, with the right to give modes it lists, members of the channel, known or new, as often as it lists them |
| `NetSteps.UnknownBurst` | Sources/channels.c:883-903 | a concrete burst that leaves an empty channel the bot is not on |
| `NetSteps.JoinOneSound` | Sources/channels.c:915-990 | a join, or leaving everything with `0`, keeps all indexes in agreement |
| `NetEffects.JoinOneEffect` | Sources/channels.c:963-989 | one name of a list: the user is in front of both lists, as an operator exactly if he created the channel; nothing else changes |
| `NetEffects.JoinZeroEffect` | Sources/channels.c:944-953 | joining `0` ends all memberships of the user and no other |
| `NetEffects.JoinListEffect` | Sources/channels.c:915-990 | a list adds one membership of the user for each time it names a channel, and no other |
| `NetEffects.JoinListOps` | Sources/channels.c:915-990 | in each channel named he is an operator exactly as the message says |
| `NetEffects.JoinListKeeps` | Sources/channels.c:915-990 | who was a member stays one, with his right to give modes |
| `NetSteps.BotJoinSound` | Sources/channels.c:549-566 | so does a join of the bot |
| `NetSteps.BotPartSound` | Sources/channels.c:613-626 | so does a part of the bot |
| `NetEffects.BotJoinEffect` | Sources/channels.c:549-566 | the bot is on the channel, known or new, and that is all that changes |
| `NetEffects.BotPartEffect` | Sources/channels.c:613-626 | the bot is off the channel, which goes if and only if nobody else is on it |
| `NetSteps.NextSound` | Sources/channels.c:719-1245 | every protocol step keeps all indexes in agreement |
| `NetSteps.ReachableSound` | Sources/channels.c:992-1214 | every reachable state is coherent: memberships agree, each user is in exactly one bucket, empty channels are the bot's |
| `NetTables.Tables.ToChannel` | Sources/channels.c:204-213 | a channel is found under every spelling of its name, and only then |
| `NetTables.Tables.DelChannel` | Sources/channels.c:105-179 | removes a channel nobody is on from its bucket, and no link to it remains |
| `NetTables.Tables.NewChannel` | Sources/channels.c:38-86 | adds an empty channel in front of its bucket |
| `NetTables.Tables.JoinUser` | Sources/channels.c:1014-1034 | performs the join step: the two objects of the tables are linked to each other |
| `NetTables.Tables.OnPart` | Sources/channels.c:1092-1214 | performs the part step |
| `NetTables.Tables.OnPartList` | Sources/channels.c:1116-1213 | performs the part step for each name of the list |
| `NetTables.Tables.OnKick` | Sources/channels.c:1216-1245 | a kick is a part of the victim, or of the bot |
| `NetTables.Tables.OnJoin` | Sources/channels.c:915-990 | performs the join step for each name of the list |
| `NetTables.Tables.OnBurst` | Sources/channels.c:719-913 | performs the burst step, and the tables stay valid if and only if the channel was known or a listed member is |
| `NetTables.Tables.JoinSelf` | Sources/channels.c:549-566 | the bot joins a channel, known or new |
| `NetTables.Tables.PartSelf` | Sources/channels.c:607-626 | the bot leaves, and an empty channel goes |
| `NetTables.Tables.OnQuit` | Sources/users.c:407-503 | performs the quit step |
| `NetTables.Tables.Forget` | Sources/users.c:457-503 | when the user object goes, no channel links to it |
| `NetTables.Tables.OnNewUser` | Sources/users.c:224-301 | performs the new-user step, numeric collision and made-up users included |
| `NetTables.Tables.OnNickChange` | Sources/users.c:306-336 | changes the nick and nothing else |
| `NetEffects.ChangeNickEffect` | Sources/users.c:306-336 | the user has the new nick, and nothing else changes |
| `NetTables.Tables.OnServer` | Sources/servers.c:86-158 | performs the new-server step; the program goes on with valid tables if and only if the uplink is known and the name was not in use |
| `NetTables.Tables.OnSquit` | Sources/servers.c:160-228 | the recursive method with its loops terminates and performs the squit step |
| `Events.InsertSorted` | Sources/events.c:56-73 | insertion keeps the list sorted |
| `Events.InsertBehind` | Sources/events.c:56-60 | an event goes behind all that are earlier |
| `Events.InsertPlace` | Sources/events.c:56-73 | a new event goes behind all that are earlier and in front of all that are not, so the newest of equal times fires first |
| `Events.ScheduledMeans` | Sources/events.c:96-162 | which kinds of events come back, and after how long, behind all their handler asks for |
| `Events.TurnsInOrder` | Sources/events.c:77-193 | whatever handlers schedule goes behind everything that is still due |
| `Events.TurnOrStop` | Sources/events.c:82 | the loop goes on exactly while events that were due at its start are left |
| `Events.WaitsAfter` | Sources/events.c:77-193 | behind a check there waits what was not due yet, the next turns of what fired, what the handlers asked for, and nothing else |
| `Events.ComesBackAlways` | Sources/events.c:77-193 | an event of a kind that comes back is never missing after a check |
| `Events.CheckHistory` | Sources/events.c:77-193 | over the history, also with events due in the second of the last check: every scheduled event waits or has fired once, none early, in the order of their times; a check leaves nothing due |
| `Events.Timers.AddEvent` | Sources/events.c:47-75 | inserts in front of the first event that is not earlier |
| `Events.Timers.CheckEvent` | Sources/events.c:77-193 | terminates and fires exactly the events that were due, in order |
| `Events.Timers.Tick` | Sources/events.c:77-193 | keeps the history, leaves nothing due, and leaves waiting exactly what `Events.WaitsAfter` says |
| `Events.Timers.Schedule` | Sources/events.c:47-75 | what else schedules an event, for the present second or later, keeps the history |
| `Windows.RecentAgain` | Sources/floodpro.c:49-74 | trimming an already trimmed history is trimming the full log |
| `Windows.RecentMeans` | Sources/floodpro.c:48-74 | of a log kept under a running clock the history is the beginning, as far as messages are at most 15 seconds old |
| `Windows.MsgHistory.CheckFlood` | Sources/floodpro.c:47-89 | the history is the messages of the log of at most 15 seconds ago; the protection fires exactly when their number is the limit |
| `Windows.FiresInTime` | Sources/floodpro.c:87-89 | the test for equality fires no later than the first time the limit is reached |
| `Windows.LatestMeans` | Sources/modes.c:655-690 | the deop history stands for the last deop of each target |
| `Windows.LatestOneEach` | Sources/modes.c:655-690 | and has one entry per target |
| `Windows.WindowCountsVictims` | Sources/modes.c:655-697 | the history has as many entries as users were deopped in the last 15 seconds |
| `Windows.DeopHistory.OnDeop` | Sources/modes.c:655-697 | the history is the latest deop of each target of at most 15 seconds ago; the protection fires exactly when as many different users as the limit were deopped in that time |
| `Windows.DeopFiresInTime` | Sources/modes.c:693-697 | the test for equality fires no later than the first time the limit is reached |
## Left out

- Sockets, `select`, signals, files and clocks: reads and writes deliver any number of bytes, database input
  and output succeeds, times are parameters.
- HTTP, DCC chat, help texts, replies, configuration, the upgrade code and the client programs.
- `compare` and `MakeBanMask` (`Sources/match.c:212-285`, `Sources/bans.c:345-457`), and `regex_cmp`: address
  heuristics. The queries that use them are not among `DbQuery.Kind`.
- Fixed C array capacities: strings are as long as they are. Truncations that the code performs on purpose
  (records, words of 75 characters) are modelled, and so is the length of the mask matcher's buffers.
- ModeString.ModeBuffer.AddFlag: at most 14 flags, which is what the scratch string of `RemFlag` holds.
- ModeLine.CoalescingPreservesMeaning: a mode is a letter with its argument, so that `-l` does not undo `+l 10`;
  no caller queues `+l`.
- Buffers.Buffer.Zap: the chain of a buffer and the free list are sequences of blocks; the model does not capture
  the `next` links in memory.
- ModeQueue.Channel.ChangeMode: the freed node's successor is read before the node is freed.
- ModeQueue.Channel.FlushMode: the channel's ban list, which is updated on the way, is not part of the model.
- ModeLine.ModeChange: reports which changes the loop acts on; the handlers behind them are not part of the
  model, except `ondeop`'s history.
- LineReader.Reader.FeedAll: the reset after a read error, and handlers that reset the reader while a line is
  processed, are not part of the model; the stream has no NUL characters.
- DbQuery.Query.ReadDb: record offsets and field positions are those of the structure layout with 8-byte
  `long` and `time_t`.
- Records.FieldsRead: access, flags and times are 32 bytes of a record that the model does not look into.
- Records.FirstOfFile: the whole file has been read and no record changed meanwhile; strings end where they end for C.
- UserCache.UserList.LoadDbuser: the record a callback sees is the one the file holds; records changed between
  two pieces of one read are not part of the model. In the cache modules offsets count records, not bytes.
- UserCache.UserList.TryFind: the search for an entry by password in `validate` is not part of the model.
- UserCache.UserList.DoModinfo: finding the entry, and the check of a new mask, are parameters.
- `ChPass` changes an entry without marking it changed (`Sources/userlist.c:2249-2346`), so a clean entry may
  differ from its record; it is not one of the steps. `purge` leaves offsets into a file it removed
  (`Sources/userlist.c:1655-1741`); it is not one of the steps either.
- The unused saver `db_sync` (`Sources/dbio.c:338-544`).
- NetTables.Tables.OnSquit: the tree of servers and the servers' user lists are values the method replaces;
  the model does not capture their nodes in memory. The user table is a map; the channel list has its buckets.
- NetTables.Tables.JoinSelf: who may ask, and the limit of 45 characters for names the bot joins, are not part of
  the model.
- NetTables.Tables.OnServer: under a name that is in use the program has two servers with a user list each; the
  model keeps one list per name, and calls the outcome unsound.
- NetSteps.ReachableSound: runs consist of steps that can happen, in particular bursts as in
  `NetSteps.BurstSoundIff`, new servers as in `NetSteps.OnServerSoundIff`, and new users announced by a known
  server.
- NetSteps.AddUserSound: for a new user the search for an unknown server ends the program just like for a new
  server; this outcome is not part of the model.
- Network.QuitExact: channel names have no commas, as section 1.3 of RFC 1459 demands; the model does not capture
  that `onpart` cuts a name at a comma (`Sources/channels.c:1116-1120`), also one a quit hands to it.
- NetSteps.NextSound: what a step does besides membership (modes, bans, flood histories, greetings, the bot's
  own reactions to a join) is not part of the model.
- `onclearmode` and the mode string of a burst, which do not follow the layout of the mode strings.
- Events.Timers.CheckEvent: what handlers do besides scheduling; they schedule strictly later than now.
- Windows.MsgHistory.CheckFlood: messages that do not count (unknown sender, a service, a channel the bot is not
  on) are not steps of the model; what follows a trigger is not part of it.
- The nick-change window (`Sources/users.c:348-401`) works like the message window; the ban lists
  (`Sources/modes.c:743-808`) are plain list searches.
- Options that are off by default (`FAKE_UWORLD`, `UWORLD`, `NICKSERV`, `BACKUP`, `DOHTTP`, `CHANNEL_LOG`).
