# Verified models of libfon9

libfon9 is a C++ library for trading systems. This project models the parts of it whose correctness is
not visible in any one function, and proves what they promise:

- **AQueue**: the "as soon as possible" queue, where a caller runs its work in place under a guard of task
  kinds or leaves it to a single taking thread (`AQueue`, `AQueueRuns`,
  `AQueueAdmission`).
- **Bitv**: the tagged binary format, as functions of the format (`BitvNumber`, `BitvDecimal`, `BitvBytes`,
  `BitvValue`, `BitvTags`, `BitvArchive`) and as the loops that write it backwards and read it from a queue of memory
  blocks (`Buffers`, `BitvStreams`).
- **Order book**: exchange updates applied to the book, the delta packets made of them, the client that
  replays them, snapshots, and what the five levels mean (`Book`, `BookUpdate`, `BookReplica`, `BookDepth`,
  `BookMarkets`, `BookSnapshot`).
- **Multicast channels**: the feeder that puts packets in order (`Feeder`, `FeederRuns`, `FeederOverflow`,
  `FeederTurns`) and the gate that splices the real-time stream onto a snapshot round (`Channels`,
  `ChannelRuns`, `ChannelRounds`, `ChannelGaps`, `ChannelCycles`, `ChannelReception`).
- **Combined symbol ids** (`CombId`, `CombIdBuffers`, `CombIdLaws`), **Base64** (`Base64`, `Base64Laws`), the
  **line log** (`TmpLog`, `TmpLogRuns`) and **ByteVector** (`ByteVector`).

`Wrappers`, `Bytes` and `Memory` hold what they share.

Where the source changes things in place there is a class or a method over arrays, and its contract ties the
new state to a function; the laws are lemmas about that function and about runs of it. A step of a run is one
critical section, one packet or one operation, so a lemma over runs covers every interleaving of those.

## What the model assumes

- A task kind is the set of its bit positions. Lockers made while a task is being invoked are gone when the
  invocation returns, because they are automatic variables there; the mutex excludes.
- Shifts and masks are divisions and remainders by powers of two. Integer widths, wrap-around and unsigned
  subtraction are explicit wherever a result depends on them.
- Containers and maps of the format are sequences of their elements in the order of iteration.
- Packed decimal fields are taken nibble by nibble without a check, as the code does, so a nibble may be 15.
- The real-time and snapshot channels see what the feeder hands on: growing numbers, where number 1 starts the
  snapshot's count again and belongs to Begin only. Whether a waiting time is set is an input of the step; from
  it and the feeder's own counts follows whether a gap is counted. Reloading the basic information's log at startup is a run
  of the same steps. Both logs open without error.
- The fields of a reading Decimal have at most 18 decimals, the most that the rescaling table has.
- Memory is allocated when asked for. What others may write (files, sockets) is read back as written.

## Where the code decides

- `fon9/Bitv.h` says that the five scale bits hold the scale less 1; the code stores the scale itself. So
  scales above 31 are written modulo 32 and read back wrong, which `BitvNumber.DecRoundTrip` states exactly.
- Both fixed-scale forms mistreat negative values, and the fixed-length one also 2 bits: they are read back
  right if and only if the value is not negative (and there are 3 bits).
- The client writes Null into a level that a delete vacates, the server zero. They part exactly when such a
  level is then overlaid with price zero.
- A channel that is released while its stream is still behind the snapshot dispatches the packets that the
  snapshot already holds when they arrive; and the check for a gap passes when nothing was received at all.
- Exclusion in the queue depends on the kinds: the empty kind, and one that has Get's bit without DenyGet's,
  break it. And a kind with DenyGet's second bit but not Get's keeps getters out only together with a getter.
- Behind an overflow of the sequence number the feeder's timer expects one number too many, exactly when the
  last packet it gives up on is from behind the overflow. And packets that still wait from behind an overflow
  are passed by, exactly when later ones with larger numbers are put in front of them.
- The count byte of a delta packet has seven bits for its entries; that there are at most 128 is only asserted.
- A log record without a packet that claims size 0 is read forever; one that is cut inside its packet counts as whole.
- `ByteVector::reserve` may leave less capacity than asked for when the block has unused room.

## Model

| member | source | states |
|---|---|---|
| AQueue.Queue.CheckAndSet | fon9/AQueue.hpp:82-98 | grants a kind exactly under the code's conditions, and then adds its bits, or for a further getter only counts it; a refusal of a getter is by DenyGet in force, of any other kind by a shared bit |
| AQueue.Queue.ClearTaskKind | fon9/AQueue.hpp:99-106 | takes a holder's kind out, the last getter's only, and reports whether no in-place work is left |
| AQueue.Queue.SetToRinging | fon9/Worker.hpp:34-40 | rings only a sleeping worker |
| AQueue.Queue.AfterAddTask | fon9/AQueue.hpp:295-299 | asks for a TakeCall exactly when no in-place work goes on and the worker sleeps |
| AQueue.Queue.AddTask | fon9/AQueue.hpp:236-240 | queues at the end and then wakes as AfterAddTask does |
| AQueue.Queue.MakeLocker | fon9/AQueue.hpp:130-136 | lets the taking thread in without asking and anybody else through CheckAndSet |
| AQueue.Queue.DropLocker | fon9/AQueue.hpp:144-158 | gives up what the locker held and wakes the worker for waiting tasks, in each of the three kinds of locker |
| AQueue.Queue.TakeCall | fon9/AQueue.hpp:265-287 | takes the whole queue at once, invokes it in order, lets tasks that arrive meanwhile wait, and ends ringing if there are any; or returns at once |
| AQueueRuns.RunKeepsInv | fon9/AQueue.hpp:77-107 | over every run of any number of threads with any kinds: getters are counted exactly, every working bit belongs to a live holder, the worker's state agrees with the running TakeCall, and every task added is invoked, in the batch or queued, in order |
| AQueueRuns.NoLostWakeup | fon9/AQueue.hpp:144-158 | queued tasks with the mutex free always have an asked-for TakeCall that will be let in, a running one, or a live in-place holder |
| AQueueRuns.InOrderExactlyOnce | fon9/AQueue.hpp:265-287 | added = invoked ++ batch ++ queued at every point of every run; in-place work outside the taking thread starts only when everything added has been invoked |
| AQueueRuns.ExclusionIffSound | fon9/AQueue.hpp:34-49 | exclusion holds in every run over a set of kinds if and only if each is sound: not Empty, and with Get's bit only if it is Get or has the bit of DenyGet |
| AQueueRuns.EmptyKindBreaks | fon9/AQueue.hpp:82-98 | the run in which a holder of the empty kind overlaps a TakeCall |
| AQueueRuns.HalfGetBreaks | fon9/AQueue.hpp:82-98 | the run in which a holder with Get's bit but without DenyGet's overlaps a getter |
| AQueueRuns.DeclaredKindsExact | fon9/AQueue.hpp:34-49 | for the declared kinds WorkingTaskKind_ is exactly the union of the holders' kinds and CountGetter_ the number of getters, and holders exclude each other and a running TakeCall |
| AQueueAdmission.LetInIff | fon9/AQueue.hpp:82-98 | over every run of sound kinds: the taking thread is always let in and changes nothing; anybody else is let in if and only if nobody takes, everything added has been invoked, and no kind that is held is in the way: the bits of DenyGet for a getter, a shared bit for any other kind |
| AQueueAdmission.AdmissionIff | fon9/AQueue.hpp:34-49 | for sound kinds, whoever asks is let in exactly beside compatible kinds if and only if plain getters are not used or no kind has the second bit of DenyGet without the first |
| AQueueAdmission.DeclaredKindsAdmit | fon9/AQueue.hpp:34-49 | the declared kinds let in whatever is compatible with every kind held |
| AQueueAdmission.SplitDenyRefuses | fon9/AQueue.hpp:82-98 | a getter and, beside it, a kind with only the second bit of DenyGet keep the next getter out although it is compatible with both |
| AQueueAdmission.SecondGetterOnlyCounts | fon9/AQueue.hpp:88-93 | a getter let in beside another changes the count of getters and nothing else |
| AQueueAdmission.FollowUpsInOrder | fon9/AQueue.hpp:265-287 | the tasks that running a batch adds are those of each task in turn |
| AQueueAdmission.CallsAreRings | fon9/AQueue.hpp:277-299 | each time the worker begins to ring exactly one call is asked for, and none otherwise, whoever else calls TakeCall |
| AQueueAdmission.OneCallPerRing | fon9/AQueue.hpp:277-299 | when TakeCall is only called as asked for, a ringing worker has asked for exactly one call not yet made, and any other for none |
| AQueueRuns.EveryFinishDrains | fon9/AQueue.hpp:265-299 | when nothing new starts, every order of finishing ends within a bound, and where it ends every task has been invoked once and in order |
| Bytes.BigEndianRoundTrip | fon9/Endian.hpp:261-299 | packing a number into its fewest bytes and unpacking them gives the number |
| Bytes.BigEndianLength | fon9/Endian.hpp:288-299 | n bytes are used at most exactly for the values below 256 to the n |
| BitvNumber.DecodeTagged | fon9/BitvDecode.hpp:161-199 | a tagged integer in front of anything is taken whole, or refused whole with the buffer untouched: negative into unsigned, or more bytes than the type has |
| BitvNumber.IntRoundTrip | fon9/BitvEncode.hpp:40-73 | a written integer is read back by a type if and only if the type has its value, whatever type wrote it: -1, the minimum, and any wider or narrower reader included |
| BitvNumber.StripKeepsNumber | fon9/BitvEncode.cpp:24-48 | stripping trailing zeros ends, divides exactly, never adds scale, keeps the sign, and stops where the rest fits ten bits, and not before |
| BitvNumber.DecBytesRoundTrip | fon9/BitvEncode.cpp:55-74 | the decimal form gives back value, sign and scale modulo 32, with the two lent bits and without, in ten bytes at most |
| BitvNumber.DecRoundTrip | fon9/BitvEncode.cpp:76-95 | a written decimal is read back as the same number if and only if its stripped scale is below 32 |
| BitvDecimal.NullIsExtreme | fon9/Decimal.hpp:14-33 | Null is the lowest value of a signed type and the highest of an unsigned one, never 0 |
| BitvDecimal.RoundIsNearest | fon9/DecBase.hpp:64-74 | rounding to fewer decimals gives the nearest value, and of two equally near ones the one farther from zero, for negative numbers too |
| BitvDecimal.NearestIsOne | fon9/DecBase.hpp:64-74 | there is only one such value |
| BitvDecimal.DecimalRescaled | fon9/DecBase.hpp:142-150 | a Decimal read by a Decimal type that keeps its stripped decimals is the rescaled number if and only if that type has it |
| BitvDecimal.DecimalRounded | fon9/DecBase.hpp:64-74 | a Decimal read by a Decimal type with fewer decimals is the nearest value of the number written, a half going away from zero, if and only if that type has the value and is not unsigned facing a negative number |
| BitvDecimal.DecimalOutOfTable | fon9/DecBase.hpp:142-150 | a number more than 18 decimals away from the reader is refused as out of range, or for its sign |
| BitvDecimal.RescaledIsSameNumber | fon9/DecBase.hpp:135-150 | the rescaled integer is the same number with the other scale |
| BitvDecimal.DecimalRoundTrip | fon9/BitvEncode.hpp:92-97 | a Decimal, Null included, is read back by its own type |
| BitvDecimal.FixedUIntRoundTrip | fon9/BitvFixedInt.hpp:22-50 | a fixed-length integer is read back by a type at least as wide if and only if the type has the value |
| BitvDecimal.FixedScaleDynIffNonNegative | fon9/BitvFixedInt.hpp:57-69 | the dynamic-length fixed-scale form is read back right if and only if the integer is not negative, or is Null |
| BitvDecimal.NegativeFixedScale | fon9/BitvFixedInt.hpp:57-69 | what a negative integer v comes back as: -1 - v |
| BitvDecimal.FixedScaleIffNonNegative | fon9/BitvFixedInt.hpp:77-90 | the fixed-length fixed-scale form is read back right if and only if at least 3 bits are asked for and the value is not negative |
| BitvDecimal.FixedScaleDecodes | fon9/BitvFixedInt.hpp:77-90 | what the reader finds otherwise: the absolute value, with eight more decimals when 0x40 was a free scale bit |
| BitvBytes.PeekSeesSize | fon9/BitvDecode.cpp:19-53 | the header of any encoded byte array of up to 2^32-6 bytes is seen with the true length and its own width, and the data is asked for when it is missing |
| BitvBytes.PopSizeIncremental | fon9/BitvDecode.cpp:9-18 | on every strict prefix of an encoding the header stays, with length 0 or the true one; on the whole encoding exactly the header goes |
| BitvBytes.BytesRoundTrip | fon9/BitvEncode.hpp:107-151 | a byte array of any allowed length, empty and each boundary of the header included, is read back and exactly what follows is left |
| BitvBytes.FixedBytesRoundTrip | fon9/BitvDecode.cpp:80-92 | into a fixed array: the bytes with zeros behind them, or out of range if and only if they are too many |
| BitvBytes.CharRoundTrip | fon9/BitvDecode.cpp:96-115 | a character, 0 included, is read back |
| BitvBytes.BoolRoundTrip | fon9/BitvDecode.cpp:117-129 | a bool is read back |
| BitvValue.RoundTrip | fon9/BitvDecode.hpp:161-337 | compositional: for every value of every nested type, followed by anything, decoding with the same type or a wider one gives the value and leaves exactly what follows |
| BitvValue.RoundTripAll | fon9/BitvDecode.hpp:263-327 | the same for the elements of an array or container |
| BitvValue.RoundTripFields | fon9/Archive.hpp:139-143 | the same for the fields of a record |
| BitvValue.TruncationDetected | fon9/BitvDecode.hpp:161-337 | every strict prefix of an encoding is refused as needing more, whatever its type |
| BitvTags.FamiliesAreTold | fon9/Bitv.h:32-122 | what a bool, a number, a text or a container has written is refused by a reader of any other of these, whatever follows, and no byte is taken |
| BitvTags.IntFirstByte | fon9/BitvDecode.hpp:161-199 | which first bytes a reader of integers takes, and what zero and Null read as |
| BitvTags.NumberFirstByte | fon9/BitvDecode.cpp:151-207 | the same for decimals |
| BitvTags.CountFirstByte | fon9/BitvDecode.cpp:142-149 | the same for the count of a container, where a negative integer is refused for its sign |
| BitvTags.SizeFirstByte | fon9/BitvDecode.cpp:19-53 | the same for byte arrays |
| BitvTags.CharFirstByte | fon9/BitvDecode.cpp:96-115 | the same for characters |
| BitvTags.BoolFirstByte | fon9/BitvDecode.cpp:117-129 | the same for bools |
| BitvTags.CharSize | fon9/BitvEncode.hpp:26-33 | the character 0 takes one byte and any other two |
| BitvArchive.LoadRoundTrip | fon9/Archive.hpp:191-212 | an archive that clears missing fields also restores whole records |
| BitvArchive.LoadPrefix | fon9/Archive.hpp:205-211 | data of fewer fields restores those and clears the others, at any nesting |
| BitvArchive.NoBytesIsDefault | fon9/Archive.hpp:205-211 | a value that encodes to no bytes at all is the default value, so an empty buffer never hides one |
| BitvArchive.DefaultIsNothing | fon9/Archive.hpp:205-211 | a field that is missing is cleared to what a single byte stands for: false, zero, no bytes, no elements |
| BitvArchive.DefaultIsBlank | fon9/Archive.hpp:205-211 | however its type is nested, a missing field is cleared to a value of that type with no bit set |
| BitvTags.NothingTakesOneByte | fon9/Bitv.h:94-119 | zero, the character 0, no bytes and no elements take one byte each, of these values |
| BitvArchive.VersionedRoundTrip | fon9/Archive.hpp:161-182 | the version is restored before the layout is chosen, and with it the fields |
| BitvStreams.PackBigEndianRev | fon9/Endian.hpp:266-299 | the loop puts the fewest big-endian bytes in front of the buffer |
| BitvStreams.GetPackedBigEndian | fon9/Endian.hpp:242-258 | the shifting loop computes the number, wrapped to its type |
| BitvStreams.AdjustScale | fon9/BitvEncode.cpp:24-48 | the in-place loop computes the stripped value and scale |
| BitvStreams.IntToBitv | fon9/BitvEncode.hpp:51-68 | puts the integer in front of what is there |
| BitvStreams.DecBytesToBitv | fon9/BitvEncode.cpp:55-74 | writes head byte and bytes backwards, sharing a byte when it can |
| BitvStreams.DecToBitv | fon9/BitvEncode.cpp:76-95 | strips and then chooses integer or decimal form |
| BitvStreams.SizeToBitv | fon9/BitvEncode.hpp:107-141 | writes the length header, moving its top bit into the tag when it can, or fails and writes nothing exactly above the limit |
| BitvStreams.ByteArrayToBitv | fon9/BitvEncode.hpp:147-151 | writes bytes and then their header in front, or fails and writes nothing exactly above the limit |
| BitvStreams.ToBitv | fon9/BitvEncode.hpp:23-216 | puts a value of any type in front of the buffer |
| BitvStreams.ElementsToBitv | fon9/BitvEncode.hpp:210-216 | writes elements from the last to the first |
| BitvStreams.SerializeOut | fon9/Archive.hpp:121-125 | writes fields from the last to the first |
| BitvStreams.BitvToIntAux | fon9/BitvDecode.hpp:161-199 | reads an integer from a queue of memory blocks: value, error and what is left are those of the format, whatever the blocks |
| BitvStreams.BitvToNumber | fon9/BitvDecode.cpp:151-207 | reads a number of any form, as the format says |
| BitvStreams.BitvToDec | fon9/BitvDecode.hpp:234-254 | reads a Decimal, with rescaling and sign check |
| BitvStreams.PeekByteArraySize | fon9/BitvDecode.cpp:19-53 | sees the length without taking anything |
| BitvStreams.PopByteArraySize | fon9/BitvDecode.cpp:9-18 | takes the header only when the data is there |
| BitvStreams.BitvToStr | fon9/BitvDecode.hpp:99-130 | appends block by block exactly the bytes of the array |
| BitvStreams.BitvToByteArray | fon9/BitvDecode.cpp:80-92 | fills a fixed array and zeros its end, or fails without filling it |
| BitvStreams.BitvToChar | fon9/BitvDecode.cpp:96-115 | reads one character |
| BitvStreams.BitvToBool | fon9/BitvDecode.cpp:117-129 | reads one bool |
| BitvStreams.BitvTo | fon9/BitvDecode.hpp:119-337 | reads a value of any type from the queue |
| BitvStreams.BitvToElements | fon9/BitvDecode.hpp:274-327 | reads as many elements as were written, in their order |
| BitvStreams.SerializeIn | fon9/Archive.hpp:139-143 | reads fields from the first to the last |
| BitvStreams.SendAndReceive | fon9/Archive.hpp:121-143 | what one side writes in front of other data, cut into blocks anyhow, the other side reads back with the same or a wider type, and exactly the other data is left |
| Buffers.FlattenAppend | fon9/buffer/DcQueueList.cpp:50-64 | a list of blocks holds the bytes of its blocks in order |
| Buffers.DcQueue.Peek | fon9/buffer/DcQueue.hpp:79-86 | gives the first n bytes, across blocks, or nothing if there are fewer |
| Buffers.DcQueue.PopConsumed | fon9/buffer/DcQueueList.cpp:69-90 | takes exactly n bytes, dropping used and empty blocks |
| Buffers.DcQueue.ReadMore | fon9/buffer/DcQueueList.cpp:91-113 | the same from the blocks behind the current one, which it drops |
| Buffers.DcQueue.Read | fon9/buffer/DcQueue.hpp:132-143 | takes n bytes in order, or all there are when there are fewer |
| Book.PriceInRange | f9twf/ExgMdFmt.hpp:22-48 | every price of nine packed digits, even invalid ones, times any divisor of the tables is in range and is not Null |
| Book.DeltaFits | f9twf/ExgMdFmtBSToRts.cpp:27-33 | one delta fits sizeof(PriQty)+4 bytes, and the scratch buffer holds any quantity with the ten bytes a price may ask for |
| Book.DeltasFit | f9twf/ExgMdFmtBSToRts.cpp:31-33 | the deltas of any update of any book fit the node allocated for them |
| Book.EntryIsStored | f9twf/ExgMdFmt.hpp:42-46 | the level that a new or changed entry names holds its quantity and its price: the size sent times the divisor, or as sent when that is not known, with a minus exactly for the sign - |
| Book.FlaggedIff | f9twf/ExgMdFmtBSToRts.cpp:44-69 | a side is flagged exactly when an entry of the update is of its type |
| Book.DeltaStarts | fon9/fmkt/MdRtsTypes.hpp:43-58 | the first byte of a delta: two bits for the action and whether the price stays, two for the side, four for the level |
| BookUpdate.SymbBook.ParseI081 | f9twf/ExgMdFmtBSToRts.cpp:13-123 | for every update list of any length, skipped levels and unknown types or actions included: the book in memory is the book of the specification, the flags too, and the bytes are its packet, the count wrapping in its byte |
| BookUpdate.SymbBook.ParseEntries | f9twf/ExgMdFmtBSToRts.cpp:35-111 | the loop over the entries: book, flags, count and deltas as they add up entry by entry |
| BookUpdate.SymbBook.ApplyEntry | f9twf/ExgMdFmtBSToRts.cpp:37-110 | one entry: the levels moved and set in place, and its delta |
| BookUpdate.SymbBook.ToUpdateBS | f9twf/ExgMdSymbs.cpp:231-286 | the other update path leaves the same book and flags |
| BookUpdate.SymbBook.UpdateEntry | f9twf/ExgMdSymbs.cpp:236-285 | one entry of that path, with the fall-through from New to Change |
| BookUpdate.ApplyToLevels | f9twf/ExgMdFmtBSToRts.cpp:75-104 | the action on one side, in place, and the bytes of its delta |
| BookUpdate.MoveUp | f9twf/ExgMdSymbs.cpp:268-272 | memmove towards the front, the last level zeroed |
| BookUpdate.MoveDown | f9twf/ExgMdSymbs.cpp:273-276 | memmove towards the back, the last level dropped |
| BookUpdate.SymbBook.ToSnapshotBS | f9twf/ExgMdSymbs.cpp:195-230 | clears the book and sets the levels of a message, the flags too |
| BookUpdate.SymbBook.PutEntry | f9twf/ExgMdSymbs.cpp:199-228 | one entry of that loop; a derived entry goes to its only level whatever level it names |
| BookSnapshot.SnapshotHolds | f9twf/ExgMdSymbs.cpp:195-230 | each level holds the quantity and the signed price that the last entry naming it says, field by field, and zero when none does, whatever the book was |
| BookSnapshot.FlagsAreSides | f9twf/ExgMdSymbs.cpp:202-225 | a side is flagged exactly when an entry names one of its levels |
| BookSnapshot.SnapshotIsWindow | f9twf/ExgMdSymbs.cpp:195-230 | a message that lists the known levels of a market leaves that market's window in memory |
| BookReplica.DeltaReplays | fon9/rc/RcMdRtsDecoder.cpp:625-664 | replaying a delta takes exactly its bytes and does to any replica what the entry says |
| BookReplica.PacketReplays | fon9/rc/RcMdRtsDecoder.cpp:609-674 | a whole packet is replayed to its last byte |
| BookReplica.PacketReplaysIff | fon9/rc/RcMdRtsDecoder.cpp:620-671 | a packet is replayed to its last byte if and only if at most 128 entries took effect, the most that the count byte can say |
| BookReplica.MirrorStep | fon9/rc/RcMdRtsDecoder.hpp:91-104 | after one entry the replica mirrors the book if and only if the entry did not mislead it |
| BookReplica.MirrorsIffNotMisled | fon9/rc/RcMdRtsDecoder.cpp:609-674 | over every update: it mirrors the book after every entry if and only if no entry misleads it, that is none changes a level the replica holds as vacated to price zero and a quantity |
| BookReplica.Replication | f9twf/ExgMdFmtBSToRts.cpp:27-117 | end to end: from book to bytes to replica, which mirrors the new book with no byte left |
| BookReplica.OverlayAtZeroMisleads | fon9/rc/RcMdRtsDecoder.hpp:97-104 | the misleading update: the replica keeps Null where the book has price zero |
| BookDepth.WindowFollows | f9twf/ExgMdSymbs.cpp:267-284 | each exchange event, sent as an entry with its action, level, signed price and quantity, moves the five levels as it moves the window on the full list of levels; a level is owed exactly when a removal pulls one in from behind the window |
| BookDepth.UnseenKeepsWindow | f9twf/ExgMdSymbs.cpp:231-286 | whatever happens to the levels that are not known, of which nothing is sent, the window stays, and what is owed while the window is as full as before |
| BookDepth.WindowRefinesList | f9twf/ExgMdSymbs.cpp:231-286 | after any run of reported events and unseen changes from a window in memory the levels are the known part of the full list with zeros behind, and all of its best levels when nothing is owed |
| BookMarkets.BookMirrorsMarkets | f9twf/ExgMdSymbs.cpp:231-286 | whatever happens on the four sides in whatever order, the whole book after all entries sent, ignored ones among them, is on every side the window on its market |
| BookMarkets.CompleteSide | f9twf/ExgMdSymbs.cpp:231-286 | a side of the book that is owed nothing holds the best levels of its market, all of them |
| BookMarkets.EmptyBookMirrors | f9twf/ExgMdSymbs.cpp:195-199 | an empty book is such a window on markets of which nothing is known yet |
| Channels.ChannelMgr.constructor | f9twf/ExgMcChannel.cpp:24-53 | the three channels as StartupChannel leaves them |
| Channels.ChannelMgr.ReloadRealtime | f9twf/ExgMcChannel.cpp:84-117 | the loop hands on exactly the logged packets from a number on, in order, and the channel runs |
| Channels.ChannelMgr.ReloadSnapshot | f9twf/ExgMcChannel.cpp:118-121 | the loop hands on the whole logged round |
| Channels.ChannelMgr.OnSnapshotDone | f9twf/ExgMcChannel.cpp:122-126 | a waiting real-time channel is released behind the snapshot, a running one left alone |
| Channels.ChannelMgr.ChannelCycled | f9twf/ExgMcChannel.cpp:558-570 | the snapshot is replayed, and the real-time channel released if the round was complete |
| Channels.ChannelMgr.OnRtPacket | f9twf/ExgMcChannel.cpp:394-412 | logged always, dispatched unless waiting |
| Channels.ChannelMgr.OnRtHeartbeat | f9twf/ExgMcChannel.cpp:291-304 | logged and dispatched at once |
| Channels.ChannelMgr.OnSnapshotControl | f9twf/ExgMcChannel.cpp:431-497 | which snapshot packets are taken, and what Begin and Complete do |
| Channels.ChannelMgr.FeederCounts | fon9/PkCont.cpp:79-97 | a gap is added to the lost count exactly when a waiting time is set and the packet is not the first of all |
| Channels.ChannelMgr.OnSsPacket | f9twf/ExgMcChannel.cpp:394-412 | count, control, dispatch and log of a snapshot packet |
| Channels.ChannelMgr.OnBiPacket | fon9/PkCont.cpp:79-97 | the basic information counts gaps by the same rule |
| Channels.ChannelMgr.OnBiHeartbeat | f9twf/ExgMcChannel.cpp:305-321 | two heartbeats with nothing lost in between complete the cycle, once |
| ChannelRuns.GateOpensOnce | f9twf/ExgMcChannel.cpp:499-524 | over every run: the real-time channel is open if and only if a round was accepted and the basic information is complete, nothing ordinary of it is dispatched before, and ChannelCycled is called at most once |
| ChannelRuns.StepGoesForward | f9twf/ExgMcChannel.hpp:98-111 | no channel ever goes back |
| ChannelRuns.SpliceIsExact | f9twf/ExgMcChannel.cpp:84-127 | once open it has dispatched exactly the logged ordinary packets above the snapshot's last number and then every later one, in order and once each |
| ChannelRuns.OnlyNewerIffCaughtUp | f9twf/ExgMcChannel.cpp:394-412 | in all continuations of a splice only packets newer than the snapshot are dispatched if and only if the stream had passed the snapshot's last number at the splice: late packets are not compared with it |
| ChannelRuns.NoGapIff | f9twf/ExgMcChannel.cpp:469-484 | with a stream that lost nothing, snapshot and stream join without a gap if and only if the first packet logged is at most one above the snapshot's last number |
| ChannelCycles.CompleteIffWholeCycle | f9twf/ExgMcChannel.cpp:305-321 | over every run with a waiting time set: the basic information is complete if and only if there were two heartbeats, each with the number of the packet in front of it, and every number behind the first up to the second arrived between them |
| ChannelCycles.CompleteIffCycle | f9twf/ExgMcChannel.cpp:305-321 | without that assumption: if and only if there were two such heartbeats with different numbers and no gap between them that the feeder had waited for |
| ChannelCycles.WholeCycleIff | f9twf/ExgMcChannel.cpp:305-321 | such a cycle has every packet if and only if none of its packets was handed on behind a gap without waiting |
| ChannelRounds.AcceptedRound | f9twf/ExgMcChannel.cpp:431-497 | an accepted round runs from Begin to Complete of the same number, and is whole if and only if no gap in it went uncounted |
| ChannelRounds.WaitingAcceptsWholeRounds | f9twf/ExgMcChannel.cpp:475-484 | with a waiting time set all along, only whole rounds are ever accepted, also when the channel is joined in the middle of a round |
| ChannelGaps.WholeIffNoLeap | f9twf/ExgMcChannel.cpp:475-484 | an accepted round is whole if and only if no packet of it was handed on behind a gap while no waiting time was set |
| ChannelRounds.UncountedGapIsAccepted | fon9/PkCont.cpp:86-87 | the round with a missing packet that is accepted when the feeder does not wait |
| ChannelRounds.CheckReachesBack | f9twf/ExgMcChannel.cpp:476-479 | when the check at Complete rules a gap out |
| ChannelRounds.NothingReceivedLeavesGap | f9twf/ExgMcChannel.cpp:450-455 | the check passes when nothing was received, and a gap follows |
| ChannelRounds.HeartbeatOneLeavesGap | f9twf/ExgMcChannel.cpp:479 | the exception for number 1 passes for a heartbeat, and packet 1 is missing |
| ChannelReception.SkipsUntilJoinable | f9twf/ExgMcChannel.cpp:446-456 | snapshot packets are skipped exactly until a round begins that what was received of the real-time stream reaches back to |
| ChannelReception.NextIsExpected | f9twf/ExgMcChannel.cpp:468-491 | the snapshot channel expects the number behind its last packet, and behind a Complete that does not close it starts anew |
| ChannelReception.BeginIsNoGap | f9twf/ExgMcChannel.cpp:370-376 | the Begin of a round is never counted as behind a gap |
| ChannelReception.CountsAsFeeder | fon9/PkCont.cpp:79-97 | a channel counts a gap exactly when its feeder keeps the packet back for what is missing, and by as much as the timer then counts |
| ChannelReception.BeatsAreExact | f9twf/ExgMcChannel.cpp:291-304 | over every run exactly these heartbeats are dispatched in this order: each when it comes, the gate open or not, and at the splice those logged above the snapshot's last number again |
| ChannelRounds.SnapshotComesFirst | f9twf/ExgMcChannel.cpp:480-482 | the accepted round is dispatched before the first ordinary real-time packet, except that its Complete comes behind the replayed real-time packets when it is what releases them |
| Feeder.PkContFeeder.CallOnReceived | fon9/PkCont.hpp:100-111 | hands a packet on and moves the expected number, around the largest one too |
| Feeder.PkContFeeder.InsertPending | fon9/PkCont.cpp:90-93 | keeps the pending packets sorted, one for each number |
| Feeder.PkContFeeder.ReceiveAndDrain | fon9/PkCont.cpp:43-63 | hands on a packet and all pending ones that have become next |
| Feeder.PkContFeeder.FeedPacket | fon9/PkCont.cpp:39-98 | every branch: next, repeated, overflowed, first, too far, not waiting, pending |
| Feeder.PkContFeeder.PkContOnTimer | fon9/PkCont.cpp:29-35 | hands on everything pending and counts the gaps |
| FeederRuns.DeliversInOrderAndCounts | fon9/PkCont.cpp:29-98 | over every run without overflow: numbers grow strictly, and a feeder that waits counts as lost exactly the numbers it passed over |
| FeederRuns.OrderOfArrivalIsIrrelevant | fon9/PkCont.hpp:10-16 | while the timer does not fire, the same packets in any order and any number of repetitions are delivered alike |
| FeederOverflow.DeliversAcrossOverflow | fon9/PkCont.cpp:29-98 | over every run, through any number of overflows, in which the timer finds no packet from behind one: each packet handed on is at or ahead of the expected number by at most half the numbers, the feeder expects the number after the last one, and a feeder that waits counts as lost exactly the numbers passed over |
| FeederOverflow.TimerExpectsNextIff | fon9/PkCont.cpp:29-35 | when the timer gives up, the feeder expects the number after the last packet if and only if that one was not from behind an overflow |
| FeederOverflow.ExpectsNextIff | fon9/PkCont.cpp:29-98 | along a whole run the feeder always expects the number after the last packet if and only if the timer never finds a packet from behind an overflow |
| FeederOverflow.OverflowBehindTimerDropsNext | fon9/PkCont.cpp:29-35 | otherwise it expects one number too many, and the packet that is next is dropped |
| FeederTurns.ArrivalInTurnIff | fon9/PkCont.cpp:66-93 | an arrival keeps the pending packets in the order in which they become due if and only if it does not go in front of one from behind an overflow that is due no later |
| FeederTurns.InTurnIff | fon9/PkCont.cpp:39-98 | over every run of a feeder that waits: pending packets are always in that order, so that none is overdue, if and only if no arrival ever does that |
| FeederTurns.CrossedIsOverdue | fon9/PkCont.cpp:43-63 | the run in which a pending packet is next in line and is not handed on |
| CombIdBuffers.FutMakeCombSymbolId | f9twf/ExgTmpTypes.cpp:169-200 | fills the buffer piece by piece with the printed id, or leaves it empty and fails |
| CombIdBuffers.OptMakeCombSymbolId | f9twf/ExgTmpTypes.cpp:201-293 | the same for options, all operations and lengths |
| CombIdBuffers.ExgCombSymbId.ParseId | f9twf/ExgTmpTypes.cpp:19-166 | fills legs, operation and side from the id, or fails, by length and separator |
| CombIdBuffers.ExgCombSymbId.ParseOpAt10 | f9twf/ExgTmpTypes.cpp:76-107 | the layouts with legs of ten characters |
| CombIdBuffers.ExgCombSymbId.ParseLongId | f9twf/ExgTmpTypes.cpp:110-165 | the layouts without a separator at place 10 |
| CombIdBuffers.CharAryL.CopyFrom | fon9/CharAryL.hpp:43-46 | copies what fits |
| CombIdLaws.FutPrintParse | f9twf/ExgTmpTypes.cpp:169-200 | parsing a printed futures id gives back its legs, operation and side, always |
| CombIdLaws.OptPrintParseIff | f9twf/ExgTmpTypes.cpp:201-293 | for options if and only if no separator sits where the parser looks first |
| CombIdLaws.PrintingIsInjective | f9twf/ExgTmpTypes.cpp:169-293 | for legs of letters, digits and spaces no two combinations print the same id |
| CombIdLaws.OptParsePrintIff | f9twf/ExgTmpTypes.cpp:19-166 | printing what was parsed rebuilds the id if and only if it is canonical |
| CombIdLaws.SpreadsRebuild | f9twf/ExgTmpTypes.cpp:113-150 | every accepted price spread, straddle and strangle is rebuilt |
| CombIdLaws.FutParsePrintIff | f9twf/ExgTmpTypes.cpp:27-45 | the same for the futures printer, with its own canonical ids |
| CombIdLaws.SingleIff | f9twf/ExgTmpTypes.cpp:24-49 | an id is accepted as a single leg exactly when it is shorter than 13 without a combination's separator, or 15 long without one at place 10; then the leg is the whole id and there is no second leg and no side |
| CombIdLaws.CombinationIff | f9twf/ExgTmpTypes.cpp:24-166 | exactly the ids with a separator where their length has it are accepted as combinations |
| CombIdLaws.CombinationSpells | f9twf/ExgTmpTypes.cpp:24-166 | every accepted combination: its id is spelled out by its legs and its operation's separator, what the id leaves out is shared by the legs, and the side is that of the operation |
| CombIdLaws.OptTypeIff | f9twf/ExgTmpTypes.hpp:372-386 | a printed id is reported short exactly for short legs, but for a short strangle whose second leg has no letter or digit at its eighth place |
| CombIdLaws.TypeByLength | f9twf/ExgTmpTypes.hpp:365-386 | short or long for any text, by its length and, where that is not enough, one character |
| CombIdLaws.FutType | f9twf/ExgTmpTypes.hpp:365-371 | a printed futures id is reported short exactly for short legs |
| Base64.Base64Encode | fon9/Base64.cpp:18-60 | writes the encoding and an end of string if there is room, touches nothing else, and fails exactly when it does not fit |
| Base64.Base64Decode | fon9/Base64.cpp:97-134 | writes what the scan decodes, and nothing behind it |
| Base64.DecodeChar | fon9/Base64.cpp:104-130 | one turn of the loop |
| Base64.Base64DecodeLength | fon9/Base64.cpp:73-95 | counts characters and pads, or fails on a wrong one |
| Base64Laws.DigitsAreTable | fon9/Base64.cpp:8-72 | digits and values are those of table 1 of RFC 4648, and = pads |
| Base64Laws.DecodeIff | fon9/Base64.cpp:97-134 | succeeds if and only if, characters 9 to 13 and 32 apart, there are four characters to a group, digits and then at most two pads, and the bytes fit; and returns the bytes those characters stand for |
| Base64Laws.OldGroupsDoNotLeak | fon9/Base64.cpp:102-129 | the accumulator that is never reset makes the same bytes as the last group alone |
| Base64Laws.DecodeEncoded | fon9/Base64.cpp:18-134 | decoding what was encoded, with white space anywhere, gives the bytes back |
| Base64Laws.EncodeDecodedIff | fon9/Base64.cpp:18-134 | encoding what was decoded gives the text back if and only if its unused bits are 0 |
| Base64Laws.LengthHoldsBits | fon9/Base64.hpp:36-39 | the length computed for any number of characters is the fewest bytes that hold six bits for each |
| Base64Laws.ScannedLengthSuffices | fon9/Base64.cpp:73-95 | the scanned length of a text that decodes is the number of bytes decoded, so a buffer of that size is enough |
| TmpLog.ExgLineTmpLog.Open | f9twf/ExgLineTmpLog.cpp:17-164 | creates a header, or checks it and scans behind its checkpoint, with each of the errors |
| TmpLog.ExgLineTmpLog.ScanTail | f9twf/ExgLineTmpLog.cpp:125-162 | the loop of Open |
| TmpLog.ExgLineTmpLog.ScanRecord | f9twf/ExgLineTmpLog.cpp:126-161 | one turn of it |
| TmpLog.ExgLineTmpLog.UpdateLogHeader | f9twf/ExgLineTmpLog.cpp:165-176 | writes the checkpoint in place if it changed |
| TmpLog.ExgLineTmpLog.CheckL30 | f9twf/ExgLineTmpLog.cpp:7-16 | lowers the number received and logs that |
| TmpLog.ExgLineTmpLog.FetchTxSeqNum | f9twf/ExgLineTmpLog.hpp:74-76 | the next number to send |
| TmpLog.ExgLineTmpLog.CheckSetRxSeqNum | f9twf/ExgLineTmpLog.hpp:86-92 | accepts exactly the next number received |
| TmpLogRuns.OpenRecovers | f9twf/ExgLineTmpLog.cpp:107-163 | for every well-formed log and every checkpoint at a record boundary: the scan ends with the numbers that the records behind it leave on top of the checkpoint's |
| TmpLogRuns.CheckpointIsAsGood | f9twf/ExgLineTmpLog.cpp:107-163 | a correct checkpoint finds the same as scanning from the start |
| TmpLogRuns.BeyondEndRefused | f9twf/ExgLineTmpLog.cpp:114-118 | refused as beyond the end if and only if it is |
| TmpLogRuns.HeaderRefusedIff | f9twf/ExgLineTmpLog.cpp:63-82 | refused as too small, or for its header, if and only if it is |
| TmpLogRuns.RecordTakenIff | f9twf/ExgLineTmpLog.cpp:126-157 | a record is taken if and only if its header is whole and marked and, with a packet, it claims more than the packet's header, which is there |
| TmpLogRuns.TornTail | f9twf/ExgLineTmpLog.cpp:125-162 | a file cut inside its last record fails to open if the cut is in the headers, and otherwise counts the record as whole |
| TmpLogRuns.EndlessIff | f9twf/ExgLineTmpLog.cpp:125-162 | the loop turns forever if and only if some turn comes to a record header, with its mark and of none of the types with a packet, whose size field is 0 |
| TmpLogRuns.OpenEndsIff | f9twf/ExgLineTmpLog.cpp:107-163 | Open ends if and only if its scan never comes to such a record |
| TmpLogRuns.SizeZeroIsEndless | f9twf/ExgLineTmpLog.cpp:158-161 | such a file |
| TmpLogRuns.AnyRunRecovers | f9twf/ExgLineTmpSession.cpp:107-235 | whenever a session stops, its log opens, with the size of the file and the last number sent |
| TmpLogRuns.FindsOwnNumberIff | f9twf/ExgLineTmpSession.cpp:155-235 | when a log opened now would find the session's own number received, step by step: a packet out of sequence, packets recovered from an L41 or a correction lose it until the header is updated |
| ByteVector.Blob.Set | fon9/Blob.c:37-61 | the block holds a copy, reallocated only if too small |
| ByteVector.Blob.Append | fon9/Blob.c:16-36 | appends, or fails and changes nothing, exactly when the new size would not fit |
| ByteVector.ByteVector.CopyBytes | fon9/ByteVector.cpp:9-27 | a copy of the bytes, inside exactly when they are 23 or fewer |
| ByteVector.ByteVector.Assign | fon9/ByteVector.cpp:29-39 | a copy of the other vector, which stays |
| ByteVector.ByteVector.AssignMove | fon9/ByteVector.cpp:41-52 | the other vector's bytes, which is left empty; no memory shared |
| ByteVector.ByteVector.MoveToBlob | fon9/ByteVector.cpp:54-69 | the bytes move into a block with the room asked for |
| ByteVector.ByteVector.Erase | fon9/ByteVector.cpp:71-90 | what erasing leaves of the sequence, in every representation |
| ByteVector.ErasedKeeps | fon9/ByteVector.cpp:71-90 | what is in front of the place stays, what is behind the part erased moves up, and nothing else is left |
| ByteVector.ByteVector.Resize | fon9/ByteVector.cpp:92-102 | a prefix, or zeros behind |
| ByteVector.ByteVector.Clear | fon9/ByteVector.cpp:104-109 | nothing |
| ByteVector.ByteVector.Alloc | fon9/ByteVector.cpp:111-133 | n bytes of any contents, or failure and no change exactly when n takes more than 32 bits |
| ByteVector.ByteVector.AssignBytes | fon9/ByteVector.cpp:135-165 | the bytes, in every representation, or failure and no change when they are 2^32 or more |
| ByteVector.ByteVector.Reserve | fon9/ByteVector.cpp:167-176 | keeps the bytes; the capacity is there afterwards if and only if the stated condition on used and allocated bytes holds |
| ByteVector.ByteVector.AppendBytes | fon9/ByteVector.cpp:202-222 | the sequence with the bytes behind it, in every representation |
| ByteVector.CompareIsOrder | fon9/Blob.c:62-76 | compares as the lexicographic order, equal only for equal bytes |
| ByteVector.BeforeTotal | fon9/Blob.c:62-76 | that order is total |
| ByteVector.BeforeTransitive | fon9/Blob.c:62-76 | and transitive |

## Left out

- Devices, sockets, timers, sessions, factories, plugins, seed trees, logging and console tools.
- Packed message structs, format dispatch tables, index name lists: layout only.
- Real scheduling and fairness: that an asked-for TakeCall is made at all is outside the queue.
- InplaceOrWait of the queue: a locker and a task, with a wait outside the lock.
- Disposal and the asynchronous states of Worker: the queue never enters them.
- Sequence resets (I002), and the packet contents: a packet is its number and its kind.
- Channels other than basic information, snapshot and real-time, which have no gate of this kind.
- InfoTime, MarketSeq and ChannelSeq around a book update: plain assignments and two integers of the format.
- TimeStamp in seven bytes, and enumerations: integers of a fixed width under other names.
- RevPutB64, CalcValueBits, TmpCalcCheckSum: one call, one count of bits and one sum.
- The snapshot message's own packet to clients, and the price limits in it.
- Big5 conversion, and the packed decimal fields beyond reading their digits.
- BitvValue.RoundTrip: a null tag decodes to 0 in this model where the code keeps the variable's former value; no encoder of integers writes it.
- BitvStreams.BitvTo: the same for a null tag in front of an integer.
- FeederRuns.DeliversInOrderAndCounts: says nothing about runs that overflow, for which FeederOverflow.DeliversAcrossOverflow stands, or in which the waiting time is changed while packets wait.
- FeederOverflow.DeliversAcrossOverflow: numbers above the largest one do not arrive, and the waiting time is not changed.
- Recovery requests of a channel (ExgMrRecover) and ResetBiggerNextSeq: what is recovered comes as packets.
- Channels.ChannelMgr.OnRtPacket: the sequence number does not wrap around.
- TmpLog.ExgLineTmpLog.Open: whether the text part of the header is the expected one is the flag `accepts`.
- TmpLogRuns.AnyRunRecovers: sequence numbers stay below 2^32 and the file below 2^64 bytes; the data appended has reached the file.
- ByteVector.ByteVector.Erase: offset + count does not wrap at 2^64.
- ByteVector.ByteVector.AppendBytes: the sizes' sum stays below 2^32, the width the block adds them in, and the bytes come from outside the vector.
- ByteVector.ByteVector.AssignBytes: the bytes come from outside the vector; the branches for a part of itself are not modelled.
- ByteVector.Blob.Append: the same 32-bit sum; and appending nothing, from memory that is not null, to a block without memory does nothing here, where the code writes the end of string through the null pointer (fon9/Blob.c:30-34).
- The union of ByteVector's buffer and block is two fields, and nothing is said of the byte for the end of string, which several paths do not restore.
