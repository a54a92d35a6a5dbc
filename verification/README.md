# SyncLogs, verified

SyncLogs is a key-value store in one process. Callers post requests and wait. The request
center numbers a write and hands it to the log center. The log center appends it to a log
file behind a write buffer. When its queue runs empty it flushes, and sends the request
center a response with everything it has flushed. The request center applies the records to
the tables and signals the callers. On start, the log files are replayed in the order of
their names.

This project models that program in Dafny and proves what it promises, from single bit steps
of the checksum up to whole runs with any number of crashes and restarts. `dafny verify
dfyconfig.toml` checks all of it.

## How the model is built

**Codecs.** `CrcSpec` defines the reflected CRC-32 of section 8 of RFC 1952 one bit at a time
and proves it linear and injective; `CrcPolynomial` proves it to be the remainder on division by
the generator polynomial, given by its exponents. `CrcTables` says what table entries and matrices mean in
terms of bit steps. `Crc` has the program's loops over its two global tables, as a class.
`Base64Text` says what the base 64 text of section 4 of RFC 4648 is, character by character.
`Base64` defines the encoding group by group, and what the program's decoder makes
of any string at all, and has both overloads of both directions as methods.

**Log files.** `FileHandler` is a file (its bytes, and how many of them an fsync has made
durable) behind a buffer, as a value and as a class over a disk whose transfers may be short
or interrupted. `RecordFormat` and `Replay` are frames and the replay loop as functions on
bytes; `FileLog` is the class that writes and reads them. `Layout` says byte by byte what is in
the directory.

**The log.** `LogNames` is file names and their order. `Journal` is the directory as a value:
closed files and a current one, with writing, flushing, crashing and recovering, refined to
a plain sequence of records. `JournalOrder` adds epochs, indices and ids. `Damage` is what
recovery makes of a directory with a damaged file in the middle. `PersistLogger` is the class
over the disk; each method does to the disk what the journal's function says.

**The commit protocol.** `GroupCommit` is the two services, their queues and batches, the
store and the log as a state machine: each handler is one step, and so are a caller's post
and a crash with the restart that follows. A history records what an observer of all runs
would know: the log, who was signalled, what was promised. Any number of callers may wait, and
a request may be of any operation, known or not. `CommitInvariant`, `CommitSteps` and
`CommitLogSteps` find and keep an inductive invariant; `CommitTheorems`, `CommitConservation`,
`CommitProgress` and `CommitFairness` draw the conclusions. `CommitRestart`, `CommitPoison` and
`CommitThreshold` are the ways to fail, and `CommitConflict` a run in which live and
recovered store differ; their runs are built from the pieces in `CommitRuns`. `Services` has
the handlers as methods of classes, each proved to do what the machine's function says.
`DataStore` is the tables, `ApplyOrder` the theory of when the order of operations matters, and
`LastWriter` what the tables hold, told from the records alone; `CommitAnswers` says so of what
callers are answered.

**The plumbing.** `LogicService` is the worker with its reference-counted contexts, `Closure`
the caller's lock and condition, `TcpConnection` messages over a byte stream. `Lists` and
`Common` are shared.

## What came out

- What was promised to a caller survives every later crash (`CommitTheorems.PromisedForEver`).
  Promised means: the caller was signalled, or a get was answered from it.
- A response is a set of addresses, so a batch is applied in any order, while replay follows
  the log. The two agree on every store exactly when the operations of the batch are pairwise
  compatible: `ApplyOrder.OrderFreeIffCompatible`. `CommitConflict.LiveAndRecoveredDiffer` is
  a run in which they do not: a table is created and written to in one batch.
- What a get returns is the value of the last record applied before it that wrote the key, and what
  a write is answered follows from the records before it in the same way:
  `CommitAnswers.GetReturns`, `CommitAnswers.WriteReturns`.
- A get sees everything recovered if and only if no recovered record is left in the log
  center's line: `CommitTheorems.RecoveredSeen`, and for the answer `CommitTheorems.GetSees`.
  Nothing else holds it back, so that right after a restart it may find no table:
  `CommitTheorems.GetBeforeRecovery`. After any write of the same process has been answered,
  it sees everything recovered: `CommitTheorems.GetAfterAnswer`.
- A caller that waits is not passed over, however much others post meanwhile: a run that serves
  the request center, the log center and the request center again, each for so many turns, has
  signalled it (`CommitFairness.NobodyPassedOver`). The log center may be kept from flushing only
  as long as callers are left that do not wait yet.
- A handler of the model can fail in exactly four ways (`CommitTheorems.StepKeeps` says for every step which,
  and when):
  - A process that dies before the header of its first log file is durable leaves a name behind
    that every later process takes for its own first file: it fails on its first write, over
    every restart (`CommitRestart.StuckForEver`). The directory shows it before the start:
    `CommitRestart.StuckRestart` gives the condition, both ways, and
    `CommitRestart.TornFileReachable` a run that leads there.
  - A request of none of the known operations, such as the OP_null that the constructor leaves,
    is logged and flushed before the program asserts on it. Every later process fails on it
    again, before anything new is appended or any write answered (`CommitPoison.DoomedForEver`);
    a restart fails so if and only if recovery finds such a record (`CommitPoison.RestartFails`).
    `CommitPoison.PoisonReachable` is a run with one request. For a set of operations that callers
    keep to, some run fails so if and only if an unknown one is among them
    (`CommitPoison.UnknownNeeded`).
  - A flush of 50 records or more is counted behind the end of the array of counters. The records
    are durable by then, and their callers are not signalled. Some run comes to it if and only if
    50 callers may wait (`CommitThreshold.FlushCountTight`, with `CommitThreshold.Overrun`).
  - More records may wait for a flush than the log center allows for if and only if more than
    1000 callers may wait (`CommitThreshold.ThresholdTight`). The branch that is taken then has
    `iter == begin()` where an assignment is meant.
- A frame whose checksum is wrong ends the replay of its file without an error and without cutting
  the file (`Replay.DamagedFrame`); a stored length that reaches past the end of the file ends it
  too, and everything behind is cut off (`Replay.DamagedLength`). The files behind are replayed
  all the same, so that what is recovered is a prefix of the log if and only if none of them holds
  a record: `Damage.BodyDamaged`, `Damage.LengthDamaged`. Damage to a stored checksum is always
  noticed (`Damage.ChecksumDamaged`). With any other first eight bytes than the right ones a file
  is passed over and left as it is (`Damage.HeaderDamaged`). And damage to a stored log id or
  operation is never noticed: everything comes back, with another record in its place
  (`Damage.NumbersDamaged`).
- `EIO` stands for the end of a file, also when the system reports it: a read that fails with it
  during recovery costs the records behind, durable or not, for good, where any other error costs
  them for this process only (`Replay.FailedRead`).
- A wait for an answer is safe if and only if the constructor locks the mutex and no wakeup is
  spurious: `Closure.SafeIff`. Wait does not check what it waits for, and POSIX allows spurious
  wakeups; one makes it return without an answer, as `Closure.EarlyReturn` shows.
- A message of fewer than four bytes of data closes the connection of its receiver, and nothing
  else does: `TcpConnection.Delivered`, `TcpConnection.AllDelivered`.
- `TcpSocket::Recv` tests an unsigned number for being negative, so a receive that fails, for
  whatever reason, counts as -1. What is taken off the wire is what is delivered and under way if
  and only if no receive did: `TcpConnection.TakenRight`, with `TcpConnection.FailedReceive` for
  one message. `TcpSocket::Send` counts a send that would block as -1 as well, which takes a
  caller who makes the socket non-blocking or gives it a timeout; nothing in the repository does.
  `TcpConnection.StreamRight` is the same statement for that side.
- `src/loglayout` puts the operation type into the record body; the code writes it before the
  body. The model follows the code.

## Model

| member | source | states |
|---|---|---|
| CrcSpec.Chaining | src/Common/src/CRC.c:133-174 | The checksum of a concatenation is the checksum of the second part started from that of the first, for every starting value. |
| CrcSpec.WindowDetected | src/Common/src/CRC.c:133-174 | Two different inputs of one length that differ only inside four consecutive bytes have different checksums, whatever is before and behind them. |
| CrcPolynomial.ChecksumIsRemainder | src/Common/src/CRC.c:22-60 | A word is the checksum if and only if its complement is the remainder, over GF(2), of the message (lowest bit of each byte first, the complement of the starting value added to its first 32 bits, 32 zeros behind it) on division by the polynomial with exponents 32, 26, 23, 22, 16, 12, 11, 10, 8, 7, 5, 4, 2, 1 and 0. |
| Crc.Checksums.constructor | src/Common/src/CRC.c:269-272 | Initialisation leaves each main table entry equal to the right number of bit steps on its index, and each combine table entry to the operator for appending 2^i zero bytes. |
| Crc.Checksums.CrcGenerateMainTables | src/Common/src/CRC.c:72-131 | Table k at index b holds the bit steps of b over k + 1 bytes. |
| Crc.Checksums.MyCrc32 | src/Common/src/CRC.c:133-174 | The sliced, unrolled and aligned loop returns the bit-at-a-time checksum, which is that remainder, for every input, starting value and address alignment. |
| Crc.Square | src/Common/src/CRC.c:200-210 | Squaring the matrix of k bit steps gives the matrix of 2k bit steps. |
| CrcTables.StepMatrixActs | src/Common/src/CRC.c:200-248 | A matrix whose columns are k bit steps of the unit words acts on every word as k bit steps. |
| Crc.Checksums.CrcGenerateCombineTables | src/Common/src/CRC.c:212-248 | Each of the 32 tables is the operator for 2^i zero bytes, byte by byte of the register. |
| Crc.Checksums.MyCrc32Combine | src/Common/src/CRC.c:250-267 | From the checksums of two strings and the second's length, the checksum of their concatenation, for every length below 2^32. |
| Crc.CombineConcatenates | src/Common/src/CRC.c:250-267 | Appending zero bits to one register and adding the other checksum is the checksum of the concatenation. |
| Crc.ZeroExpandedAppendsZeros | src/Common/include/CRC.h:29-30 | The zeroexpanded macro is the checksum of the block followed by that many zero bytes. |
| Crc.XorBlocksXors | src/Common/include/CRC.h:31 | The xorblocks macro is the checksum of the bytewise sum of two blocks of one length. |
| Base64.RoundTrip | src/Common/include/Base64.hpp:12-251 | Decoding the encoding of any string gives it back, in exactly the length that the length computation announces. |
| Base64.Encode | src/Common/include/Base64.hpp:12-53 | Returns true and the text: character i is the entry of "ABC...xyz0123456789+/" at the i-th group of six bits of the input, filled up with zero bits, and the rest up to a multiple of four is '='. |
| Base64.LookupText | src/Common/include/Base64.hpp:244-251 | A character decodes to its place among those 64, and any other to 255. |
| Base64.DecodedBits | src/Common/include/Base64.hpp:97-146 | Characters of the alphabet decode to as many whole bytes as they have bits for, and the bits are those of their places, six each. |
| Base64.EncodeBuffer | src/Common/include/Base64.hpp:55-95 | The buffer overload succeeds exactly if the buffer is long enough, writes the same encoding, and leaves the rest of the buffer, or all of it on failure, as it was. |
| Base64.Decode | src/Common/include/Base64.hpp:97-146 | Returns true exactly if the characters before the first pad decode to the announced length, and then their decoding; characters outside the alphabet count as 255. |
| Base64.DecodeBuffer | src/Common/include/Base64.hpp:148-196 | The buffer overload agrees with the string overload, needs as much room as announced, and leaves the rest of the buffer as it was. |
| Base64.DecodedLength | src/Common/include/Base64.hpp:198-216 | Six bits a character rounded down to bytes, less the trailing pads. |
| Base64.LengthAnnounced | src/Common/include/Base64.hpp:207-216 | For a string that ends in so many '=' and not one more, six bits a character rounded down to bytes, less their number. |
| Base64.EncodeThenDecode | src/Common/include/Base64.hpp:12-146 | Encoding and then decoding any non-empty string that fits an int returns true and the string. |
| FileHandler.BufferingIsTransparent | src/SyncLog/FileHandler.cpp:49-89 | Over any sequence of writes and flushes, file and buffer together hold the concatenation of all that was written, the buffer stays within its capacity, durable bytes are untouched, and a final flush leaves all of it durable. |
| FileHandler.Handler.WriteToFile | src/SyncLog/FileHandler.cpp:150-176 | Whatever the pattern of short and interrupted writes, exactly the data is appended, once, and the offset stays at the end of the file. |
| FileHandler.Handler.WriteNBytes | src/SyncLog/FileHandler.cpp:127-148 | More than 262144 bytes go to the file behind what was buffered; less that does not fit behind it has it written out first; else they are buffered. |
| FileHandler.Handler.Flush | src/SyncLog/FileHandler.cpp:49-59 | The buffer is empty and the whole file durable. |
| FileHandler.Handler.Close | src/SyncLog/FileHandler.cpp:72-89 | An open file is flushed first; closing twice does nothing. |
| FileHandler.Handler.ReadNBytes | src/SyncLog/FileHandler.cpp:91-115 | Whatever the pattern of short reads, exactly the next bytes, or an end-of-file error with the offset at the end. |
| RecordFormat.BodyRoundTrip | src/SyncLog/FileLog.cpp:256-283 | The three length-prefixed strings of a body read back as they were written. |
| RecordFormat.FrameRoundTrip | src/SyncLog/FileLog.cpp:121-254 | A whole frame anywhere in a file reads back as its record, through lengths, checksum and Base64, and the next read starts right behind it. |
| RecordFormat.TornFrame | src/SyncLog/FileLog.cpp:129-159 | A file that ends anywhere inside a frame is taken to be at its end. |
| RecordFormat.DamagedBodyDetected | src/SyncLog/FileLog.cpp:161-166 | Damage to a stored body inside four consecutive bytes is always reported as a checksum failure. |
| RecordFormat.DamagedChecksumDetected | src/SyncLog/FileLog.cpp:161-166 | Any damage to a stored checksum alone is reported as a checksum failure. |
| RecordFormat.DamagedNumbersUnseen | src/SyncLog/FileLog.cpp:142-166 | A frame with another log id and operation written into it is the right frame of another record. |
| Layout.FrameLayout | src/SyncLog/FileLog.cpp:198-254 | Bytes 0 to 3 of a frame are the length of its body, 4 to 7 the body's checksum, 8 to 11 the log id, 12 to 15 the operation, each the highest byte first, and the rest is the base 64 text of the body. |
| Layout.BodyLayout | src/SyncLog/FileLog.cpp:266-283 | A body is table, key and value in this order, each behind its length in four bytes, the highest first. |
| Layout.BodyRead | src/SyncLog/FileLog.cpp:256-264 | Reading gives table, key and value if and only if the data starts with their encoding. |
| Layout.FrameRead | src/SyncLog/FileLog.cpp:121-196 | At any place of any file: the end-of-file error if and only if the file ends inside the frame, the checksum error if and only if the stored checksum is not the body's, and a record only with the stored log id and operation and the decoded body. |
| Layout.HeaderLayout | src/SyncLog/FileLog.cpp:84-104 | A file starts with "LOGS" and the number 1 in four bytes. |
| Layout.WhatFits | src/Common/include/Base64.hpp:207-216 | What the model takes for loggable: numbers of 32 bits, and a body of at most 268435455 bytes. |
| FileLog.WriteRecordAppendsFrame | src/SyncLog/FileLog.cpp:198-254 | The five writes of a record append its frame, wherever the buffer is written out in between. |
| FileLog.Log.AppendLogRecord | src/SyncLog/FileLog.cpp:198-254 | Encodes, checksums and writes a record: the buffered file gains what the value model says. |
| FileLog.Log.CreateFile | src/SyncLog/FileLog.cpp:18-37 | A new file gets the header through the buffer; an existing name is an error and leaves the disk alone. |
| Replay.HeaderErrorIs | src/SyncLog/FileLog.cpp:49-82 | A header is accepted if and only if it is the eight bytes "LOGS", 0, 0, 0, 1; a file that ends inside a right one gives the end-of-file error, and any other is invalid. |
| FileLog.Log.ValidateHeader | src/SyncLog/FileLog.cpp:49-82 | Succeeds if and only if the file starts with "LOGS", 0, 0, 0, 1; the end-of-file error is that of a file that ends inside them, and all else is invalid. |
| FileLog.Log.GetNextLogRecord | src/SyncLog/FileLog.cpp:121-196 | Returns the record of the frame at the offset and moves behind it; at the end of the file it goes back and truncates there; other failures leave the file. |
| Replay.ReplayOfCut | src/SyncLog/PersistLogger.cpp:44-75 | After any cut of a sequence of frames, replay returns exactly the records whose frames are whole, and stops where the last of them ends. |
| Replay.WholeFramesExact | src/SyncLog/FileLog.cpp:189-193 | The count of whole frames is right from both sides: these fit into the cut, one more does not. |
| Replay.RedoOfCut | src/SyncLog/PersistLogger.cpp:44-75 | A file cut anywhere behind its header is truncated to its whole frames, and a second replay returns the same records and changes nothing. |
| Replay.FailedRead | src/SyncLog/FileLog.cpp:189-193 | When the read of some frame of an intact file fails, the records before it come back; the file is cut off there if and only if the error is EIO, and otherwise a second replay returns all of it. |
| Replay.DamagedFrame | src/SyncLog/PersistLogger.cpp:57-71 | A damaged body ends the replay of its file there: the records before it come back, and the file is left uncut. |
| Replay.DamagedLength | src/SyncLog/FileLog.cpp:129-159 | A stored length that reaches past the end of the file is taken for a torn tail: the records before it come back, and all behind it, whole frames too, is cut off. |
| Replay.DamagedChecksum | src/SyncLog/PersistLogger.cpp:57-71 | A damaged checksum ends the replay of its file there, and the file is left uncut. |
| Replay.DamagedNumbers | src/SyncLog/PersistLogger.cpp:57-71 | With another log id and operation stored, another record comes back without an error, and all behind it. |
| Damage.OneDamaged | src/SyncLog/PersistLogger.cpp:29-75 | With one file of a directory giving back only some first records of its own, the files before and behind it are replayed all the same, and what comes back is a prefix of the log if and only if no later file holds a record. |
| Damage.HeaderDamaged | src/SyncLog/PersistLogger.cpp:44-75 | For any damage to a stored header: the file gives back nothing and is left byte for byte, recovery finds the epoch it would find without it, and what it returns is a prefix of the log if and only if the file held no record or no later file holds one. |
| Damage.BodyDamaged | src/SyncLog/PersistLogger.cpp:29-75 | So it is when a stored body is damaged inside four consecutive bytes. |
| Damage.LengthDamaged | src/SyncLog/PersistLogger.cpp:29-75 | So it is when a stored length reaches past the end of its file, and the file is cut off there. |
| Damage.ChecksumDamaged | src/SyncLog/PersistLogger.cpp:29-75 | So it is when a stored checksum is damaged. |
| Damage.NumbersDamaged | src/SyncLog/PersistLogger.cpp:29-75 | When a stored log id and operation are damaged, recovery returns the whole log with that one record changed. |
| LogNames.NameOrder | src/SyncLog/PersistLogger.cpp:90-107 | The order of file names is the order of (epoch, index), and names are equal only for equal numbers, below 2^32. |
| LogNames.EpochRoundTrip | src/SyncLog/PersistLogger.cpp:109-119 | Parsing a name of the program's own gives back its epoch. |
| Layout.NameLayout | src/SyncLog/PersistLogger.cpp:77-101 | A name is the directory, eight hexadecimal digits of the epoch, eight of the index, the highest first and in lower case, and ".log". |
| Journal.WriteKeeps | src/SyncLog/PersistLogger.cpp:129-149 | Writing a record, also one that closes a file and starts the next, appends it to the log, and nothing durable ceases to be. |
| Journal.FlushKeeps | src/SyncLog/PersistLogger.cpp:151-154 | A flush makes all of the log durable. |
| Journal.CrashRecovery | src/SyncLog/PersistLogger.cpp:11-42 | Whatever prefix of each file from its last fsync on survives, recovery returns a prefix of the log, in order, with all that was flushed, and leaves the disk holding exactly that. |
| JournalOrder.NewNameTaken | src/SyncLog/PersistLogger.cpp:90-107 | The name of the file for the next record is taken if and only if the process found a torn first file of its epoch. |
| JournalOrder.WriteOrder | src/SyncLog/PersistLogger.cpp:121-149 | Writing keeps ids consecutive, one quotient of ids a file, and names growing. |
| JournalOrder.RecoveryOrder | src/SyncLog/PersistLogger.cpp:44-75 | Recovery restores that order under the next epoch, with the id counter at the number of the last record. |
| JournalOrder.StuckIffTornFirst | src/SyncLog/PersistLogger.cpp:51-65 | The torn first file is there if and only if the last file of the directory has fewer than 8 bytes and the file before it is of another epoch. |
| JournalOrder.NextEpoch | src/SyncLog/PersistLogger.cpp:65-65 | Whatever a crash leaves, recovery finds no epoch beyond that of the process that crashed. |
| PersistLogger.PersistLogger.Dec2HexString | src/SyncLog/PersistLogger.cpp:77-88 | Exactly so many hexadecimal digits of the number. |
| PersistLogger.PersistLogger.OpenNewLogFile | src/SyncLog/PersistLogger.cpp:90-107 | Closes the current file and creates the next under its name; fails exactly if that name is on the disk. |
| PersistLogger.PersistLogger.WriteLog | src/SyncLog/PersistLogger.cpp:129-149 | Does to the disk what the journal's write says, or fails exactly when that does. |
| PersistLogger.PersistLogger.RedoLogFile | src/SyncLog/PersistLogger.cpp:44-75 | The records of one file, whether its header was whole, and the file truncated and durable on closing. |
| PersistLogger.PersistLogger.GetAllFileWithSuffix | src/Common/src/DirUtil.cpp:35-58 | All names of the directory with the suffix, in strictly growing order. |
| PersistLogger.OneOrder | src/SyncLog/PersistLogger.cpp:26-33 | A set of names can be gone through in one order only, so the directory's is that of epochs and indices. |
| PersistLogger.PersistLogger.RecoverFromLog | src/SyncLog/PersistLogger.cpp:11-42 | Replays the directory as the journal's recovery does: its records, its last valid epoch, its last id, and the files it leaves. |
| DataStore.DataStore.Put | src/SyncLog/DataStore.cpp:9-24 | Changes the one key of the one table, or reports that there is no table. |
| DataStore.DataStore.Add | src/SyncLog/DataStore.cpp:26-41 | Adds the key, or reports that it or the lack of the table. |
| DataStore.DataStore.Del | src/SyncLog/DataStore.cpp:43-58 | Removes the key; deleting what is not there succeeds. |
| DataStore.DataStore.Get | src/SyncLog/DataStore.cpp:60-75 | The value stored under the key, or which of table and key is missing. |
| DataStore.DataStore.CreateTable | src/SyncLog/DataStore.cpp:77-92 | A new empty table, or an error that leaves the old one. |
| DataStore.DataStore.DropTable | src/SyncLog/DataStore.cpp:94-104 | No such table any more; always succeeds. |
| DataStore.DataStore.Apply | src/SyncLog/LogCenter.cpp:50-79 | Dispatches a record to the operation it stands for; any other operation fails and changes nothing. |
| LastWriter.LastWriterWins | src/SyncLog/DataStore.cpp:9-162 | After any records: a get finds value v if and only if some record puts or newly adds it under the key in a table that stands, and no later one puts, newly adds or deletes that key or drops the table; the key is missing if the table stands and there is none, and the table if no creation of it stands undropped. |
| LastWriter.WriteAnswered | src/SyncLog/LogCenter.cpp:50-79 | The error of each of the operations 0, 1, 2, 4 and 5 after any records, by whether the table stands and the key is held. |
| ApplyOrder.CommuteIffCompatible | src/SyncLog/DataStore.cpp:9-162 | Two operations commute on every store, in the tables and in their errors, if and only if they are compatible. |
| ApplyOrder.OrderFreeIffCompatible | src/SyncLog/RequestCenter.cpp:72-84 | For a batch of distinct records, every order of application gives the same store and every request the same error, on every store, if and only if the operations are pairwise compatible. |
| CommitTheorems.StepKeeps | src/SyncLog/LogCenter.cpp:50-211 | Every step of every handler keeps the invariant, and a handler fails exactly in four cases: on the name of a new log file when the process is stuck, on a record to apply whose operation is none of the five writes, on counting a flush of 50 records or more, and on passing the threshold; the last two take at least 50 and more than 1000 callers. |
| CommitTheorems.ReachableInv | src/SyncLog/KVDB.hpp:22-46 | The invariant holds in every state of every run from an empty directory. |
| CommitTheorems.Durability | src/SyncLog/LogCenter.cpp:184-211 | In every reachable state, whatever a crash leaves, replay yields a prefix of the log with every promised record in its place, also across file rolls. |
| CommitTheorems.PromisedForEver | src/SyncLog/RequestCenter.cpp:63-93 | What was promised once is recovered after every later crash of every continuation. |
| CommitTheorems.AnsweredOwn | src/SyncLog/RequestCenter.cpp:72-84 | Each caller a response wakes is found in the table, and gets the outcome of its own operation applied in its turn. |
| CommitAnswers.WriteReturns | src/SyncLog/RequestCenter.cpp:72-84 | Each write that a response answers gets the error that all records applied before it leave for it, those of the same response included. |
| CommitTheorems.GetAnswer | src/SyncLog/RequestCenter.cpp:52-54 | A get is answered from applied records, all of them durable. |
| CommitAnswers.GetReturns | src/SyncLog/RequestCenter.cpp:52-54 | In every reachable state a get is answered by that law of the last writer, over the records applied so far. |
| CommitTheorems.RecoveredFirst | src/SyncLog/KVDB.hpp:22-46 | Everything recovered is applied, in the log's order, before anything new is appended. |
| CommitTheorems.RecoveredSeen | src/SyncLog/LogCenter.cpp:81-87 | Everything recovered is in the store, in the log's order, if and only if no recovered record is left in the log center's queue or batch. |
| CommitTheorems.GetSees | src/SyncLog/RequestCenter.cpp:52-54 | A get reads everything recovered and what was applied on top of it when no recovered record is left there, and else a shorter prefix of the log. |
| CommitTheorems.GetAfterAnswer | src/SyncLog/RequestCenter.cpp:45-61 | A get handled after any write of the same process was answered reads everything recovered. |
| CommitTheorems.EarlierAnswers | src/SyncLog/KVDB.hpp:22-46 | A write answered by an earlier process is among the records a restart recovers. |
| CommitTheorems.GetBeforeRecovery | src/SyncLog/KVDB.hpp:36-41 | The input on which that fails: a get right after a restart is answered from an empty store, whatever the log holds. |
| CommitTheorems.RecoveryAgrees | src/SyncLog/RequestCenter.cpp:72-84 | If all responses held pairwise compatible operations, the live store and every answer are what the log gives, and a recovered store is the live one with the surviving unapplied records added. |
| CommitTheorems.StoreIsSomeOrder | src/SyncLog/RequestCenter.cpp:72-84 | In any case the live store has had the same records applied to it, in some order. |
| CommitTheorems.LogFiles | src/SyncLog/PersistLogger.cpp:90-149 | Over any number of restarts the files hold the log, sorted, numbered, one quotient of ids a file. |
| Layout.FiveThousandToAFile | src/SyncLog/PersistLogger.cpp:90-127 | In every reachable state the n-th record has id n, and each file holds records of one quotient by 5000, which is the index in its name. |
| CommitTheorems.NamesGrow | src/SyncLog/PersistLogger.cpp:77-119 | In every reachable state all epochs and indices fit their eight digits, later files have greater names, and each name gives back its epoch. |
| CommitConservation.Conservation | src/SyncLog/LogCenter.cpp:158-211 | A request is in the table if and only if its record is in exactly one of the log center's queue, the records to flush, and the queued responses; its log id is its request id behind the recovered ones. |
| CommitConservation.CallersOnce | src/SyncLog/RequestCenter.cpp:45-93 | Every waiting caller has one request, queued or in the table; nobody is signalled twice or waits on; what waits for a flush is no more than the callers that wait. |
| CommitProgress.SomethingToDo | src/SyncLog/LogCenter.cpp:184-211 | While a caller waits, some internal step is possible that lowers the measure. |
| CommitProgress.WorkLowers | src/Common/src/LogicService.cpp:54-70 | Every internal step lowers the work left, except going round with nothing to flush. |
| CommitProgress.AllAnswered | src/SyncLog/RequestCenter.cpp:19-20 | From every state of a process in working order (neither failed nor stuck, fewer than 50 callers, only known operations on their way, log ids left for the queued requests) a run of its own threads, of bounded length, signals every caller that waits. |
| CommitProgress.QuietMeansAnswered | src/Common/src/LogicService.cpp:54-70 | When such a process has come to rest, nobody waits. |
| CommitProgress.EveryRunAnswers | src/Common/src/LogicService.cpp:54-70 | However its threads are scheduled: a run of theirs without new posts that has come to rest has signalled everybody who waited. |
| CommitProgress.WorkBounds | src/Common/src/LogicService.cpp:54-70 | However the threads are scheduled, the steps that are not idle rounds are no more than the work there was. |
| CommitFairness.NobodyPassedOver | src/SyncLog/LogCenter.cpp:184-211 | In any run without a failure, with any new posts: a caller that waits has been signalled when the request center has taken a turn for every caller and one more or has nothing to do, then the log center three for every caller, one for every recovered record and five, then the request center as before. |
| CommitFairness.RecordsFlushed | src/SyncLog/LogCenter.cpp:184-211 | So many turns of the log center after a record has been numbered it is flushed, whatever is posted meanwhile. |
| CommitFairness.LineLength | src/SyncLog/RequestCenter.cpp:63-93 | Every context in the request center's line pins a caller: the line is never longer than there are callers. |
| CommitFairness.CanTurn | src/Common/src/LogicService.cpp:23-73 | The log center can always take a turn, and the request center when its line is not empty. |
| CommitLogSteps.PendingBounded | src/SyncLog/LogCenter.cpp:108-110 | Records not yet applied never outnumber the waiting callers, so with at most 1000 of them the threshold is not passed. |
| CommitRestart.StuckRestart | src/SyncLog/PersistLogger.cpp:51-65 | A restarted process will fail on its first write if and only if the directory ended in a torn first file of an epoch. |
| CommitRestart.StuckForEver | src/SyncLog/PersistLogger.cpp:129-141 | Such a process, and all that are started after it, never append a record. |
| CommitRestart.TornFileReachable | src/SyncLog/PersistLogger.cpp:103-106 | A run that leads there: one write, and a crash before its flush. |
| CommitPoison.DoomedForEver | src/SyncLog/LogCenter.cpp:50-87 | A process that recovered a record of no known operation, and all that are started after it: nothing is appended, no write is answered, and its recovery is never complete. |
| CommitPoison.FailureStays | src/SyncLog/LogCenter.cpp:50-79 | Once a process has failed on such a record, every restart finds it, whatever the crash. |
| CommitPoison.RestartFails | src/SyncLog/LogCenter.cpp:81-87 | However the threads are scheduled after a restart, when they have come to rest the process has failed on a record if and only if recovery found one of no known operation. |
| CommitPoison.FailsUnasked | src/SyncLog/LogCenter.cpp:81-87 | It takes no request: the log center alone gets there in a bounded number of steps. |
| CommitPoison.PoisonReachable | src/SyncLog/KVRequest.hpp:15-29 | A run that leads there: one request as its constructor leaves it. |
| CommitPoison.UnknownNeeded | src/SyncLog/KVRequest.hpp:15-29 | For any set of operations that callers keep to, with any crashes: some run fails on a record if and only if an operation other than get and the five writes is in the set. |
| CommitThreshold.ThresholdTight | src/SyncLog/LogCenter.cpp:108-127 | The threshold is passed in some run if and only if more than 1000 callers may wait at a time. |
| CommitThreshold.FlushCountTight | src/SyncLog/LogCenter.hpp:57-57 | A flush is counted behind the end of the array in some run if and only if at least 50 callers may wait at a time. |
| CommitThreshold.IdleAnswers | src/SyncLog/LogCenter.cpp:184-211 | In every reachable state with records to flush: all become durable; 1 to 49 are answered by one response with exactly one reply for each, under the number of its request, and nothing is left to flush; 50 or more are a failure. |
| CommitThreshold.Overrun | src/SyncLog/LogCenter.cpp:184-190 | The run: with as many records as there are counters the process fails when they are durable, and their callers wait. |
| CommitConflict.LiveAndRecoveredDiffer | src/SyncLog/RequestCenter.hpp:25-28 | A run in which both callers are answered, nothing is lost in the crash, and live and recovered stores differ. |
| Services.LogCenter.ReceiveClientRequest | src/SyncLog/LogCenter.cpp:158-182 | Numbers the record, notes whose it is, and queues it, as the protocol says. |
| Services.LogCenter.HandleRecoverLog | src/SyncLog/LogCenter.cpp:81-87 | Applies a recovered record, or fails on its operation, as the protocol says. |
| Services.LogCenter.HandleWriteOper | src/SyncLog/LogCenter.cpp:89-134 | Appends the record and notes it for the next flush, as the protocol says, with the same failures. |
| Services.LogCenter.Idle | src/SyncLog/LogCenter.cpp:184-211 | Flushes, counts the flush by its size, sends the response with each record under its request's number, and forgets the records, as the protocol says; fails behind the end of the counters. |
| Services.RequestCenter.HandleNewKVRequest | src/SyncLog/RequestCenter.cpp:45-61 | Answers a get at once, and numbers and hands over a write, as the protocol says. |
| Services.RequestCenter.HandleKVResponse | src/SyncLog/RequestCenter.cpp:63-93 | Goes through the response in some order, and does what the protocol says for that order. |
| Services.OneReplyMore | src/SyncLog/RequestCenter.cpp:72-88 | One more turn of the loop is one more reply handled, until one fails. |
| Services.KVDB.Start | src/SyncLog/KVDB.hpp:22-46 | Leaves the whole as the protocol's restart over the same files does. |
| LogicService.FirstInFirstOut | src/Common/src/LogicService.cpp:23-73 | Over any interleaving of producers and worker, what is processed is a prefix of what was enqueued; each context is freed once, exactly when both sides have let go; in the end all are processed and freed. |
| LogicService.StepKeeps | src/Common/include/Context.hpp:104-121 | No step touches a context that has been freed. |
| LogicService.IdleWhenDone | src/Common/src/LogicService.cpp:54-70 | A service idles only when everything enqueued before has been processed. |
| LogicService.OperContext.DecRef | src/Common/include/Context.hpp:104-113 | Counts down, and frees at zero. |
| LogicService.LogicService.Enqueue | src/Common/src/LogicService.cpp:130-144 | A running service takes the context at the end of its line with a reference of its own; one that does not run takes nothing. |
| LogicService.LogicService.ProcessBatch | src/Common/src/LogicService.cpp:54-67 | Processes the batch in order up to the point where the service is stopped, lets go of every context in it, and keeps the line in order. |
| Closure.SyncClosure.Signal | src/Common/include/Closure.hpp:22-27 | In every state in which it gets the mutex it wakes the caller, and frees the mutex again. |
| Closure.NoLostWakeup | src/Common/include/Closure.hpp:9-32 | Over all interleavings and any number of uses without a spurious wakeup, every broadcast meets the waiter, Wait returns only after one, and the caller has the mutex again then. |
| Closure.NoDeadlock | src/Common/include/Closure.hpp:22-32 | Until the caller has its answer exactly one step is possible, apart from a spurious wakeup, and it brings the answer nearer. |
| Closure.SafeIff | src/Common/include/Closure.hpp:9-32 | No broadcast is lost and Wait returns only after one, in all runs with so many spurious wakeups at most, if and only if the constructor locks the mutex and that number is 0. |
| Closure.EarlyReturn | src/Common/include/Closure.hpp:29-32 | A run in which a spurious wakeup makes Wait return before the signal, with the mutex held that the signal needs. |
| TcpConnection.Delivered | src/Common/src/TcpConnection.cpp:26-182 | For any partial transfers none of which counts as -1, delivered messages are a prefix, in order, of those enqueued, and the receiver is closed only on a message of fewer than four bytes of data, the next one. |
| TcpConnection.AllDelivered | src/Common/src/TcpConnection.cpp:47-52 | When all has been sent, and taken if the receiver is open: it has closed if and only if some message enqueued has fewer than four bytes of data, and else all are delivered. |
| TcpConnection.StreamRight | src/Common/src/TcpConnection.cpp:127-152 | Over any run, what was put on the wire and what is left to send are the messages enqueued if and only if no send counted as -1; it is one byte too long for each that did. |
| TcpConnection.TakenRight | src/Common/include/TcpSocket.hpp:374-402 | Over any run of an open connection, what was taken off the wire is the messages delivered and the counted part of the next if and only if no receive counted as -1; it is one byte more for each that did. |
| TcpConnection.FailedReceive | src/Common/include/TcpSocket.hpp:374-402 | A receive that fails in the middle of any message makes it end in a byte from behind it. |
| TcpConnection.TcpConnection.WriteData | src/Common/src/TcpConnection.cpp:105-157 | Resumes the current message or takes the next, and moves on by what was sent, back by one byte if it would block; a failing send resets, closes the connection, gives up the queue and sends one drop notice. |
| TcpConnection.TcpConnection.ReadData | src/Common/src/TcpConnection.cpp:26-103 | Takes the length of a new message, then what has come of it, and delivers it when it is whole, going back by one byte if the receive fails; the end of the stream or of the length closes the connection and sends one drop notice, and a length below four closes it without an error or a notice. |

## Left out

- I/O errors on files: where a system call fails the program asserts or gives up the request. Writes that are interrupted are retried, and a finite list of answers says how often; reads are not interrupted.
- FileHandler.Handler.ReadNBytes: a read that is interrupted or fails, which the program returns as its errno, is modelled in Replay.RedoFailing only, and not in the classes.
- A crash keeps of every file a prefix from its last fsync on, and directory entries of files that were created; a file's bytes are not reordered.
- Shutdown (destructors, what they leak, what is still queued at a stop), reading the flush statistics, and debug output.
- Threads: each handler is one step, so the unlocked sharing of the log center's id counter and id map, and the late read of a recovered record's id, are not modelled; nor is that of the data store, which a get reads on the request center's thread while the log center's thread applies recovered records to it.
- Services.KVDB.Start: hands over everything recovered in one step, with the log center's thread standing still meanwhile; a crash in the middle of a recovery is one before it, as recovery only cuts off what it would cut off again.
- Services.LogCenter.HandleWriteOper: the body of the size-threshold branch goes through an iterator that was never set, so that entering it counts as a failure, as in GroupCommit.
- Widths: log ids and epochs stay below 2^32, and bodies small enough that six bits a character fit an int; Post, HandleRequest and CrashAndRestart are restricted to that, and reads of a connection to announced lengths at which the head still fits 32 bits.
- RecordFormat.DecodeBody: a string length that reaches past the end of the body is an error here; the program reads on behind the buffer. It takes a wrong body with a right checksum.
- FileLog.Log.GetNextLogRecord: the same, for the record it reads.
- Base64.Decode: strings of pads only, the empty string and strings with more pads than data are excluded, as the length computation reads before the string or goes below zero there; characters stored past the announced length are dropped.
- Base64.DecodeBuffer: the same.
- Base64.DecodedLength: strings with nothing but pads are excluded, as it reads before the string there.
- PersistLogger.PersistLogger.OpenNewLogFile: after a failure no current log is kept; the program keeps one that is not open, and then asserts.
- PersistLogger.PersistLogger.GetAllFileWithSuffix: all entries of the directory are regular files, and a name shorter than the suffix does not end in it, where the program reads before the name.
- PersistLogger.PersistLogger.ParseEpochFromLogName: names that do not start with eight lower-case hexadecimal digits, which the program does not make, are parsed otherwise than the program's stream does.
- LogicService.LogicService.ProcessNext: what a context carries and what processing does with it is left to the services.
- TcpConnection.TcpConnection.WriteData: a count of -1 before the first byte of a message went out, which goes back before its start, is left out, as are the growing of message buffers and the transport itself.
- TcpConnection.TcpConnection.ReadData: a count of -1 with nothing counted as received, which wraps around, is left out; the logic service runs, so that it takes every message and notice.
- The big-endian branch of the checksum, which the build never selects, and disabled code.
- Services.RequestCenter.EnqueueKVRequest: the wait is a step of its own in the protocol and in Closure, not part of the method.
- Event loop, accepting connections, sockets, directory listing through the system, command line and benchmark.
