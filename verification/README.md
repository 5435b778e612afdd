# Verified model of the systems exercises

This project models the parts of the repository that carry real algorithms or protocols and proves what they
keep, in Dafny:

- **simplefs** (`SimpleFs`): a file system as a disk, a super block cache and an inode store whose dirty buffer
  may be written back at any moment. Every physical write is recorded, so a statement about all recorded states is
  a statement about all crash points of all runs.
- **globalfifo** (`GlobalFifo`, `FifoCalls`): the character device as a state machine of tasks that execute one statement at a
  time, with mutex, two wait queues, signals, faults of user copies and a history of accepted and removed bytes, and
  what each call moves and returns.
- **The two-semaphore ring** (`SemaphoreRing`): one producer and one consumer over a ring of any positive size,
  statement by statement.
- **Quoting and splitting** (`Escape`, `EscapeLaws`, `ShellQuote`, `ExtractWord`, `QuotedWords`, `SeparatedWords`,
  `EscapedWords`, `AllocUtil`): C escapes, hex escapes with truncation, shell quoting and the word splitter, with their
  buffers and with what each escape, quote and flag means.
- **Environment blocks and files** (`EnvList`, `ReplaceEnv`, `EnvTemplate`, `Utf8`, `EnvFile`, `EnvFileRoundTrip`,
  `EnvFileSyntax`, `EnvFileGrammar`): merging, replacing, variable substitution, and writing and loading environment
  files, with a grammar of templates and one of files and their meanings.
- **btrfs quota groups** (`BtrfsKey`, `BtrfsQgroup`, `BtrfsAutoQgroup`): the batched key search, destruction and
  the automatic set-up of a subvolume's group.
- **Byte copying** (`CopyBytes`): the loop over four copy mechanisms.
- **cgroup paths** (`CgroupPath`, `CgroupNames`): slices and units as paths.

Loops and in-place updates of the source are methods and classes, proved against recursive definitions; the
properties are lemmas about those definitions. Outside effects are modelled so that a proof covers all of them: the
kernel's batches and errors, the outcomes of copy calls, the scheduler's choices and the moments of write-back and of
a crash are arbitrary.

Some promises do not hold of the code as it stands. Each has the exact condition under which it holds, and a concrete
case where that condition alone does not show one:

- Quoting an empty word yields nothing, so it is lost by splitting (`RoundTripIffNoEmptyWord`).
- `strv_env_replace` is documented to drop other occurrences of the name but drops only entries equal to the new
  one (`ReplaceDropsOthersIff`, `ReplaceKeepsStaleValue`).
- Values with backslash, backtick or dollar sign gain a backslash on their way through a file (`RoundTripIff`).
- Variable substitution counts the brace of a plain `${A}` and never discounts it, so a `${B:-text}` behind it does not
  end at its own brace (`OwnBraceIff`, `PlainBeforeChoice`, `DefaultIsLost`); with the choices first every template
  expands to its value (`TemplateExpands`).
- Readers of the FIFO sleep killably while writers wake interruptible sleepers, and FIFO_CLEAR wakes nobody
  (`ReaderWakeupIsLost`, `OnlyFatalSignalWakesReader`, `ReaderSleepsOn`, `WriterWakeupIsLost`).
- simplefs does not check for room in a directory block (`FillRoot`, `Create`), and a crash between the two writes of
  an inode leaves an empty counted slot, so that a second one makes two inodes share a block (`TwoEmptySlots`,
  `DisjointAfterAddIff`).

## Model

| member | source | states |
|---|---|---|
| `SimpleFs.Run` | io/simplefs/simple.c:450-572 | Over any sequence of creates on a formatted image, up to the first one that finds its directory block full, every state the disk was ever in (each single write is a possible last one before a crash) is consistent and no two inodes share a block; each directory answers lookups as the map from names to their first creations; without such an overrun slot k >= 2 holds number k+8 and numbers and blocks are pairwise distinct |
| `SimpleFs.RunWithCrashes` | io/simplefs/simple.c:450-737 | Over any sequence of creates, crashes after any write so far and mounts of what they leave, every disk is consistent, written slots have their numbers, and what was reported as created before the point of every later crash is still listed with its inode and found by lookup |
| `SimpleFs.DiskOKIsConsistent` | io/simplefs/simple.c:515-566 | The invariant kept by every write implies what survives a crash: each inode's block is below 3 or marked used, written inodes do not share blocks, every record a directory counts names an inode below the on-disk count |
| `SimpleFs.StrictlyDisjointIff` | io/simplefs/simple.c:69-102 | Inodes on disk have different blocks exactly when at most one counted slot was never written |
| `SimpleFs.DisjointAfterAddIff` | io/simplefs/simple.c:69-102 | From any mounted disk whose inodes have different blocks, of the disks that adding an inode may leave only the one with the new count and the old store can break that, exactly when some counted slot and the next one are both empty |
| `SimpleFs.TwoEmptySlots` | io/simplefs/simple.c:69-102 | A run with one crash and mount whose second create leaves a disk on which two counted inodes share block 0 |
| `SimpleFs.FormattedIsOK` | io/simplefs/mkfs-simplefs.c:125-137 | The image mkfs writes satisfies the invariant |
| `SimpleFs.FileSystem.constructor` | io/simplefs/simple.c:666-737 | Mounting a formatted image gives caches that agree with the disk |
| `SimpleFs.FileSystem.CrashAndMount` | io/simplefs/simple.c:666-737 | Losing power after any write so far, in the middle of an operation too, and mounting what is left gives a valid file system again |
| `SimpleFs.FileSystem.SbSync` | io/simplefs/simple.c:37-49 | Only the super block reaches the disk, as one more state in the history |
| `SimpleFs.FileSystem.MaybeWriteback` | io/simplefs/simple.c:93-99 | If the kernel chooses to, a dirty store buffer reaches the disk; otherwise nothing changes |
| `SimpleFs.FileSystem.InodeSearch` | io/simplefs/simple.c:51-67 | The first slot with the number, looking up to one slot behind the counted ones, or none |
| `SimpleFs.FileSystem.InodeAdd` | io/simplefs/simple.c:69-102 | The next slot is filled and the count raised, and whichever of store and super block reaches the disk first, every intermediate disk keeps the invariant |
| `SimpleFs.AddingIsSafe` | io/simplefs/simple.c:69-102 | A new inode may reach the disk before, after or without the count that covers it |
| `SimpleFs.FileSystem.GetFreeBlock` | io/simplefs/simple.c:112-148 | The lowest free block from 3 on is marked used on the disk, or none is free and nothing changes |
| `SimpleFs.FileSystem.GetInode` | io/simplefs/simple.c:228-266 | The first counted inode with the number, or none has it |
| `SimpleFs.FileSystem.InodeSave` | io/simplefs/simple.c:313-348 | Replaces an inode of that number and writes the store, or fails without a change if there is none |
| `SimpleFs.FileSystem.Create` | io/simplefs/simple.c:450-572 | Error exactly when the objects are used up, the mode is neither file nor directory, or no block is free; an overrun of the directory block exactly when it already holds fifteen records; else the new number, the lowest free block, one record more in that directory and no other listing changed; every disk on the way keeps the invariant, whichever write-backs the kernel makes |
| `SimpleFs.FileSystem.AddAndLink` | io/simplefs/simple.c:524-566 | The second half of a create: the inode in its slot, then the record and the parent's count, or the overrun |
| `SimpleFs.RecordIsSafe` | io/simplefs/simple.c:532-566 | The record before the parent's count, a write-back of the store between the two, then the count with the new inode: each of these disks keeps the invariant and no listing shrinks |
| `SimpleFs.FileSystem.Link` | io/simplefs/simple.c:532-566 | The listing of the parent grows by the record, the other listings stay, and the parent's count grows by one, with or without a write-back of the store in between |
| `SimpleFs.FileSystem.Lookup` | io/simplefs/simple.c:588-645 | The first record of that name decides, and its inode is always found in the store |
| `SimpleFs.FindStable` | io/simplefs/simple.c:588-645 | A name once listed is found with the same inode after any record is appended |
| `SimpleFs.FoundInode` | io/simplefs/simple.c:228-266 | The search for the number of a listed record ends at that inode's own slot |
| `SimpleFs.RoomIff` | io/simplefs/simple.h:41-44 | A record lies inside the directory block exactly for the first fifteen |
| `SimpleFs.FillRoot` | io/simplefs/simple.c:532-541 | Fourteen creates in the root directory after which the next one passes every check of the code and overruns the block |
| `GlobalFifo.NoLostWriterWakeup` | schedule/day6/globalfifo.c:164-221 | In every interleaving of any number of reads and writes, whenever the mutex is free a writer asleep on w_wait means a full buffer; with FIFO_CLEAR, a full buffer or one cleared since |
| `GlobalFifo.SleepingWriterIsReached` | schedule/day6/globalfifo.c:164-221 | A run from the start that leaves a writer asleep at a full buffer with the mutex free |
| `GlobalFifo.ClearLosesWakeup` | schedule/day6/globalfifo.c:55-75 | From any state with a sleeping writer and a free mutex FIFO_CLEAR leads to an empty buffer with that writer still asleep |
| `GlobalFifo.WriterWakeupIsLost` | schedule/day6/globalfifo.c:55-75 | A run from the start with one FIFO_CLEAR that leaves a writer asleep at an empty buffer with the mutex free |
| `GlobalFifo.BytesAreConserved` | schedule/day6/globalfifo.c:140-213 | In every interleaving with clears and faults the length stays within the buffer, and the bytes accepted are those delivered or discarded followed by those stored, in acceptance order; how many each call moves is stated by ReadDelivers and WriteStores |
| `GlobalFifo.MutualExclusion` | schedule/day6/globalfifo.c:100-221 | At most one task is between mutex_lock and mutex_unlock |
| `GlobalFifo.InvStep` | schedule/day6/globalfifo.c:100-221 | Every statement of every task, every signal and every new call keep the invariant of mutex, data, wait queues and history |
| `GlobalFifo.InvAlways` | schedule/day6/globalfifo.c:100-221 | The invariant holds after any run |
| `GlobalFifo.OnlyFatalSignalWakesReader` | schedule/day6/globalfifo.c:112-144 | A reader asleep, with no fatal signal pending, leaves its sleep by a fatal signal to itself and by no other step of any task |
| `GlobalFifo.ReaderSleepsOn` | schedule/day6/globalfifo.c:112-144 | Without a fatal signal to itself a sleeping reader sleeps through every run, however much is written |
| `GlobalFifo.ReaderWakeupIsLost` | schedule/day6/globalfifo.c:112-144 | A run from the start that leaves a reader asleep beside a stored byte with the mutex free |
| `GlobalFifo.NeverStuck` | schedule/day6/globalfifo.c:100-221 | A task that is neither asleep nor waiting for an owned mutex can execute its next statement; one with a waking signal pending is not asleep |
| `GlobalFifo.Device.TakeOut` | schedule/day6/globalfifo.c:140-155 | Delivered bytes followed by the remaining contents are the old contents; the memory is the shifted one of the step model |
| `GlobalFifo.Device.PutIn` | schedule/day6/globalfifo.c:194-213 | As many bytes as fit are appended to the contents |
| `FifoCalls.ReadDelivers` | schedule/day6/globalfifo.c:140-155 | From any point of any run where a read has found the buffer filled, its next four statements deliver the first bytes of the buffer, the least of the count it was called with and what is stored, shift the rest to the front and shorten the length by as many |
| `FifoCalls.WriteStores` | schedule/day6/globalfifo.c:194-213 | From any point of any run where a write has found room, its next three statements store the first bytes of the data it was called with, as many as fit, behind the contents |
| `FifoCalls.ResultsAreExplained` | schedule/day6/globalfifo.c:100-221 | In every run each task is in the call it last began with the count, data and flag passed; it returns EAGAIN only from a non-blocking call, ERESTARTSYS only with a signal pending, EFAULT only after a failed copy, else a number of bytes not above the one asked for |
| `FifoCalls.CallsAlwaysOK` | schedule/day6/globalfifo.c:100-221 | Every statement of every task, every signal and every new call keep each task to its call and its result |
| `FifoCalls.NonblockingNeverSleeps` | schedule/day6/globalfifo.c:112-192 | A non-blocking call never sleeps |
| `SemaphoreRing.InvAlways` | app/multi_thread/day2/semaphore.c:8-35 | For any ring size every statement of producer and consumer keeps places, semaphore counts, ring contents and histories in step |
| `SemaphoreRing.ConsumedIsPrefix` | app/multi_thread/day2/semaphore.c:8-30 | In every reachable state the values consumed, and those the producer shows, are prefixes of the values produced, and at most n are outstanding |
| `SemaphoreRing.SemaphoresBalance` | app/multi_thread/day2/semaphore.c:12-27 | Both semaphores and the slots claimed by either thread total the ring size |
| `SemaphoreRing.NothingOverwritten` | app/multi_thread/day2/semaphore.c:13-16 | No statement of the producer changes the slot of an unconsumed value |
| `SemaphoreRing.StoresIntoEmptySlot` | app/multi_thread/day2/semaphore.c:12-13 | The producer stores only into a slot that holds zero |
| `SemaphoreRing.NothingLost` | app/multi_thread/day2/semaphore.c:25-27 | The consumer clears no slot that holds an unconsumed value |
| `SemaphoreRing.NeverDeadlocked` | app/multi_thread/day2/semaphore.c:8-30 | The two threads never wait at once |
| `AllocUtil.GreedyRealloc` | app/multi_process/day1/systemd/src/basic/alloc-util.c:42-93 | Fails when the buffer is too small and the request overflows; otherwise room for the request, twice it when growing, with the old contents in front |
| `Escape.CEscapeLength` | app/multi_process/day1/systemd/src/basic/escape.c:78-97 | The buffer of four bytes per character suffices and holds the escapes in order |
| `Escape.CUnescapeOne` | app/multi_process/day1/systemd/src/basic/escape.c:105-289 | A decoded escape is never zero, lies within the input, and its encoding is no longer than what was read |
| `Escape.CUnescapeLengthWithPrefix` | app/multi_process/day1/systemd/src/basic/escape.c:291-361 | Prefix and decoded text, or an error exactly where a strict decoding fails; all writes lie in prefix plus input length plus one bytes |
| `Escape.CUnescape` | app/multi_process/day1/systemd/src/basic/escape.c:291-361 | Relaxed decoding never fails, and no decoding is longer than its input |
| `Escape.CUnescapeUndoesCEscape` | app/multi_process/day1/systemd/src/basic/escape.c:13-97 | Decoding the C escape of any NUL-free text gives the text, strictly or relaxed |
| `Escape.StrictRoundTripIffNulFree` | app/multi_process/day1/systemd/src/basic/escape.c:105-361 | Strict decoding of a C escape succeeds exactly for texts without NUL |
| `Escape.CUnescapeUndoesXEscape` | app/multi_process/day1/systemd/src/basic/escape.c:371-436 | Decoding undoes the untruncated hex escape for every set of bad characters and either eight_bits value |
| `Escape.XEscapeFull` | app/multi_process/day1/systemd/src/basic/escape.c:371-436 | The full escape exactly when it fits the width; otherwise a prefix of it and min(width, 3) dots within the width, cut at the last boundary between escapes that leaves room, or at the width itself in the one case where going back two escapes is not enough |
| `Escape.XEscapeScan` | app/multi_process/day1/systemd/src/basic/escape.c:384-417 | The scan stops at the last escape that fits and remembers the two boundaries before it; all writes lie in the allocation |
| `Escape.CutChosen` | app/multi_process/day1/systemd/src/basic/escape.c:420-435 | The place chosen for the dots from the two remembered positions is the last possible boundary |
| `Escape.PutDots` | app/multi_process/day1/systemd/src/basic/escape.c:420-435 | Dots are put at the cut, inside the allocation |
| `EscapeLaws.LetterEscapes` | app/multi_process/day1/systemd/src/basic/escape.c:13-151 | The seven control characters from 7 on are written and read as the letters a, b, t, n, v, f, r |
| `EscapeLaws.QuotedCharacters` | app/multi_process/day1/systemd/src/basic/escape.c:13-156 | Backslash and both quotes are written and read as themselves behind a backslash; s is read as a space |
| `EscapeLaws.OctalEscapes` | app/multi_process/day1/systemd/src/basic/escape.c:242-282 | Three octal digits are the byte of that value, an error for zero and above 255 |
| `EscapeLaws.HexEscapes` | app/multi_process/day1/systemd/src/basic/escape.c:158-181 | x and two hexadecimal digits of either case are that byte, an error for zero |
| `EscapeLaws.UnicodeEscapes` | app/multi_process/day1/systemd/src/basic/escape.c:183-240 | u and four or U and eight digits are the code point, an error for zero and, with eight, for an invalid one |
| `EscapeLaws.OtherEscapesAreBad` | app/multi_process/day1/systemd/src/basic/escape.c:105-289 | Nothing else may follow a backslash |
| `EscapeLaws.CEscapeIsPrintable` | app/multi_process/day1/systemd/src/basic/escape.c:13-97 | The C escape is printable ASCII and leaves a text unchanged exactly if that is printable and holds no backslash or quote |
| `EscapeLaws.XEscapeKeepsIff` | app/multi_process/day1/systemd/src/basic/escape.c:371-436 | The hex escape leaves a text unchanged exactly if it has no control character, backslash or bad character and, without eight_bits, nothing from 127 on; what it puts out has none of those either |
| `EscapeLaws.XEscapeCharMeans` | app/multi_process/day1/systemd/src/basic/escape.c:394-409 | A character is kept or becomes x and its two hexadecimal digits |
| `EscapeLaws.RelaxedAgrees` | app/multi_process/day1/systemd/src/basic/escape.c:291-361 | Where strict decoding succeeds, relaxed decoding gives the same |
| `EscapeLaws.BadEscapeKept` | app/multi_process/day1/systemd/src/basic/escape.c:291-361 | A backslash that begins no escape is kept by relaxed decoding and fails strict decoding |
| `EscapeLaws.EncodedIsDecoded` | app/multi_process/day1/systemd/src/basic/utf8.c:327-357 | Encoding a code point gives the expected length, decodes to it, and passes validation exactly if the code point is valid |
| `EscapeLaws.ValidIsEncoded` | app/multi_process/day1/systemd/src/basic/utf8.c:485-542 | Every valid character of more than one byte is the encoding of a valid code point |
| `ShellQuote.StrcpyBackslashEscaped` | app/multi_process/day1/systemd/src/basic/escape.c:473-490 | At most two bytes a character are written, the escapes in order |
| `ShellQuote.ShellMaybeQuote` | app/multi_process/day1/systemd/src/basic/escape.c:505-551 | Unchanged if nothing is special, else the escaped text between quotes, within the allocation |
| `ShellQuote.PlainPrefix` | app/multi_process/day1/systemd/src/basic/escape.c:505-551 | What lies before the first special character needs no escape, so copying it is enough |
| `EscapeLaws.UnquotedIff` | app/multi_process/day1/systemd/src/basic/escape.c:505-551 | A word stays unquoted exactly if every character is printable, no blank and none of the characters that mean something to a shell, listed one by one |
| `EscapeLaws.PosixQuotesRoundTrip` | app/multi_process/day1/systemd/src/basic/escape.c:473-551 | What stands between $' and ' decodes as C escapes to the word, and holds no bare newline, tab or quote |
| `ExtractWord.ExtractFirstWord` | app/multi_process/day1/systemd/src/basic/extract-word.c:19-181 | For every text, cursor, separators and flags the word and cursor of the recursive definition, whose meaning the rows of EscapedWords, QuotedWords and SeparatedWords state; every read is within the terminated text and every write within the allocated buffer |
| `ExtractWord.ScanWord` | app/multi_process/day1/systemd/src/basic/extract-word.c:19-181 | The loop over escapes, quoted and unquoted runs computes the recursive scan |
| `ExtractWord.AfterBackslash` | app/multi_process/day1/systemd/src/basic/extract-word.c:67-111 | One escape: up to six bytes more, or the error the flags ask for; what they are is stated by ScanOneEscape, BadEscapeInWord and TrailingBackslash |
| `ExtractWord.InsideQuotes` | app/multi_process/day1/systemd/src/basic/extract-word.c:113-131 | A quoted run up to its quote, a backslash or the end |
| `ExtractWord.OutsideQuotes` | app/multi_process/day1/systemd/src/basic/extract-word.c:133-164 | An unquoted run up to a quote, a backslash, a separator or the end |
| `ExtractWord.Extract` | app/multi_process/day1/systemd/src/basic/extract-word.c:19-181 | The cursor moves forward and never past the terminator, and a word is no longer than its text |
| `QuotedWords.SplitOfJoinedLine` | app/multi_process/day1/systemd/src/basic/escape.c:505-551 | Quoting any words, joining them with spaces and extracting with EXTRACT_UNQUOTE until 0 gives the non-empty words in order |
| `QuotedWords.RoundTripIffNoEmptyWord` | app/multi_process/day1/systemd/src/basic/extract-word.c:19-181 | The same list comes back exactly when no word is empty |
| `SeparatedWords.SplitUndoesJoin` | app/multi_process/day1/systemd/src/basic/extract-word.c:44-178 | With EXTRACT_DONT_COALESCE_SEPARATORS and EXTRACT_RETAIN_ESCAPE, and without EXTRACT_UNQUOTE, every non-empty list of words free of the separator comes back from its join, empty words included |
| `EscapedWords.CEscapedWordIsRead` | app/multi_process/day1/systemd/src/basic/extract-word.c:67-131 | With EXTRACT_CUNESCAPE and EXTRACT_UNQUOTE the C escape of any NUL-free word, in double quotes, is read back |
| `EscapedWords.XEscapedWordIsRead` | app/multi_process/day1/systemd/src/basic/extract-word.c:67-131 | So is its hex escape, if that escapes the quote |
| `EscapedWords.SplitOfCLine` | app/multi_process/day1/systemd/src/basic/extract-word.c:19-181 | Every list of NUL-free words comes back from its C-escaped, quoted and blank-separated line, empty words included |
| `EscapedWords.ScanOneEscape` | app/multi_process/day1/systemd/src/basic/extract-word.c:93-107 | An escape inside or outside quotes adds the character it stands for and moves behind it |
| `EscapedWords.BadEscapeInWord` | app/multi_process/day1/systemd/src/basic/extract-word.c:93-107 | A backslash before something that is no escape is an error there, or kept with it exactly under EXTRACT_CUNESCAPE_RELAX |
| `EscapedWords.TrailingBackslash` | app/multi_process/day1/systemd/src/basic/extract-word.c:68-91 | A backslash at the very end is kept under EXTRACT_CUNESCAPE_RELAX, dropped under EXTRACT_RELAX, else an error |
| `EscapedWords.UnterminatedQuote` | app/multi_process/day1/systemd/src/basic/extract-word.c:113-131 | A quote that is never closed is an error at the end of the text, exactly unless EXTRACT_RELAX is given |
| `EscapedWords.QuotedVerbatim` | app/multi_process/day1/systemd/src/basic/extract-word.c:113-164 | What stands between matching quotes, without backslashes or with EXTRACT_RETAIN_ESCAPE, is the word |
| `EscapedWords.BackslashMakesLiteral` | app/multi_process/day1/systemd/src/basic/extract-word.c:67-111 | Without EXTRACT_CUNESCAPE a backslash makes any character stand for itself |
| `EscapedWords.SeparatorsCoalesce` | app/multi_process/day1/systemd/src/basic/extract-word.c:44-178 | Any number of separators around a word, or alone, are passed over when they are coalesced |
| `EnvList.StrvEnvGetN` | app/multi_process/day1/systemd/src/basic/env-util.c:436-457 | The last entry of that name, then the process environment if asked |
| `EnvList.LookupIsMap` | app/multi_process/day1/systemd/src/basic/env-util.c:436-457 | Looking up backwards is looking up in the map in which later entries override |
| `EnvList.GetIsOverlay` | app/multi_process/day1/systemd/src/basic/env-util.c:436-457 | A value is looked up in the process environment, if asked for, overlaid with the block; the empty name has none |
| `EnvList.EnvAppend` | app/multi_process/day1/systemd/src/basic/env-util.c:150-190 | One list appended in place within the given room |
| `EnvList.FindMatch` | app/multi_process/day1/systemd/src/basic/env-util.c:150-190 | The first entry that agrees up to and including the equals sign |
| `EnvList.StrvEnvMerge` | app/multi_process/day1/systemd/src/basic/env-util.c:192-225 | All lists appended in order; the array sized before the loop is never exceeded |
| `EnvList.MergeIsUnion` | app/multi_process/day1/systemd/src/basic/env-util.c:150-225 | Merging keeps names unique and is the right-biased union of the maps |
| `EnvList.MergeKeepsOrder` | app/multi_process/day1/systemd/src/basic/env-util.c:150-225 | Names stand in the order of their first occurrence |
| `EnvList.MergeLookup` | app/multi_process/day1/systemd/src/basic/env-util.c:150-225 | A lookup in the merge finds the later list's value if it has one, else the earlier one's |
| `EnvList.EnvBlock.Unset` | app/multi_process/day1/systemd/src/basic/env-util.c:314-338 | Exactly the matching entries from a position on are dropped, the rest keep their order |
| `EnvList.UnsetIsMinus` | app/multi_process/day1/systemd/src/basic/env-util.c:314-338 | Unsetting a name takes it out of the map and leaves every other name its value |
| `EnvList.EnvBlock.Replace` | app/multi_process/day1/systemd/src/basic/env-util.c:376-406 | Return value and new list of strv_env_replace |
| `EnvList.ReplaceIsUpdate` | app/multi_process/day1/systemd/src/basic/env-util.c:376-406 | With unique names a replacement is a map update, in place or at the end |
| `EnvList.ReplaceAllIsUpdate` | app/multi_process/day1/systemd/src/basic/env-util.c:376-406 | Replacing entry after entry from the empty list gives unique names and the map of the entries, and the list itself if its names were unique |
| `EnvList.ReplaceDropsOthersIff` | app/multi_process/day1/systemd/src/basic/env-util.c:376-406 | The other occurrences of the name are gone, and a lookup finds the new value, exactly when no later entry of that name differs from the new one |
| `EnvList.ReplaceKeepsStaleValue` | app/multi_process/day1/systemd/src/basic/env-util.c:376-406 | Replacing A in a list with two settings of A leaves the second, which a lookup then finds |
| `ReplaceEnv.ReplaceEnvN` | app/multi_process/day1/systemd/src/basic/env-util.c:501-666 | Terminates for all texts and flags and equals the left-to-right substitution, brace counter included; what that means is stated by the rows of EnvTemplate |
| `ReplaceEnv.StepRaw` | app/multi_process/day1/systemd/src/basic/env-util.c:636-654 | The state that steps back one character keeps the meaning of the output so far |
| `ReplaceEnv.StepVariable` | app/multi_process/day1/systemd/src/basic/env-util.c:563-586 | A closing brace emits the value, a colon falls back to text or begins a choice; output so far and meaning of the rest stay the substitution |
| `ReplaceEnv.StepTest` | app/multi_process/day1/systemd/src/basic/env-util.c:588-599 | A minus begins a default, a plus an alternate, anything else is text |
| `ReplaceEnv.StepValue` | app/multi_process/day1/systemd/src/basic/env-util.c:601-634 | Only the brace that closes a default or alternate text emits anything: the value, nothing, or the text expanded by a call on a shorter input |
| `ReplaceEnv.Finish` | app/multi_process/day1/systemd/src/basic/env-util.c:657-666 | What is left at the end is emitted as the substitution demands |
| `EnvTemplate.TemplateExpands` | app/multi_process/day1/systemd/src/basic/env-util.c:501-666 | Every template of literal text, doubled dollars, ${NAME}, $NAME, ${NAME:-TEMPLATE} and ${NAME:+TEMPLATE} in which no choice follows a plain reference expands to its value: unset variables to nothing, defaults where unset, alternates where set |
| `EnvTemplate.OwnBraceIff` | app/multi_process/day1/systemd/src/basic/env-util.c:601-634 | A choice with balanced text ends at its own brace exactly if no brace is counted before it |
| `EnvTemplate.LateChoiceIsText` | app/multi_process/day1/systemd/src/basic/env-util.c:601-634 | With a brace counted before it and none to make up for it behind, a choice and all that follows come out as written |
| `EnvTemplate.PlainBeforeChoice` | app/multi_process/day1/systemd/src/basic/env-util.c:563-634 | So a plain reference takes away the choice behind it, whatever the two variables are |
| `EnvTemplate.DefaultIsLost` | app/multi_process/day1/systemd/src/basic/env-util.c:563-634 | With neither variable set ${A}${B:-x} has the value x and comes out as ${B:-x} |
| `EnvTemplate.MalformedKept` | app/multi_process/day1/systemd/src/basic/env-util.c:526-586 | An unclosed reference, a colon without the extended syntax, a dollar sign before anything else or at the end stand for themselves |
| `EnvTemplate.DoublingIsUndone` | app/multi_process/day1/systemd/src/basic/env-util.c:501-666 | Whatever the flags and the environment, a text with every dollar sign doubled comes back as it was |
| `Utf8.ValidUnicharLocal` | app/multi_process/day1/systemd/src/basic/utf8.c:502-542 | Whether a character is valid depends only on its own bytes |
| `EnvFile.StepKeepsMarks` | app/multi_process/day1/systemd/src/basic/env-file.c:49-236 | Each character keeps the remembered trailing-blank positions within the key and value |
| `EnvFile.JoinedIsAssignment` | app/multi_process/day1/systemd/src/basic/env-file.c:367-395 | Joining key and value always gives an assignment, with that key as its name if it has no equals sign |
| `EnvFile.LoadEnvFilePush` | app/multi_process/day1/systemd/src/basic/env-file.c:367-395 | One replacement in the block, or failure without a change for text that is not UTF-8 |
| `EnvFile.LoadEnvFile` | app/multi_process/day1/systemd/src/basic/env-file.c:397-409 | The parser's entries are pushed one after the other, the one cut off by the end of file included; what the entries of a file are is stated by the rows of EnvFileGrammar |
| `EnvFileRoundTrip.WriteEnvVar` | app/multi_process/day1/systemd/src/basic/env-file.c:505-534 | One line is appended: the value bare, or quoted and escaped when a character forces it |
| `EnvFileRoundTrip.WriteEnvFile` | app/multi_process/day1/systemd/src/basic/env-file.c:536-563 | The lines of all settings in order |
| `EnvFileRoundTrip.ReadsLine` | app/multi_process/day1/systemd/src/basic/env-file.c:49-236 | The parser reads a written line back as the one entry it stands for and is ready for the next |
| `EnvFileRoundTrip.GainedKeepsUtf8` | app/multi_process/day1/systemd/src/basic/env-file.c:271-294 | The backslashes gained do not make a valid value invalid |
| `EnvFileRoundTrip.WriteThenLoad` | app/multi_process/day1/systemd/src/basic/env-file.c:505-534 | Valid settings come back in order with one backslash more before each backslash, backtick and dollar sign of a value |
| `EnvFileRoundTrip.RoundTripIff` | app/multi_process/day1/systemd/src/basic/env-file.c:505-534 | Settings with distinct names come back unchanged exactly when no value holds one of those three characters |
| `EnvFileSyntax.CommentsAreIgnored` | app/multi_process/day1/systemd/src/basic/env-file.c:225-236 | A comment line, continued by backslashes or not, leaves no entry and no trace in the parser |
| `EnvFileSyntax.SingleQuotesAreLiteral` | app/multi_process/day1/systemd/src/basic/env-file.c:183-193 | Everything between single quotes stands for itself |
| `EnvFileSyntax.TrailingBlanksAreDropped` | app/multi_process/day1/systemd/src/basic/env-file.c:128-169 | Blanks behind a bare value are cut off at the remembered position |
| `EnvFileSyntax.LinesContinue` | app/multi_process/day1/systemd/src/basic/env-file.c:128-181 | A backslash and a newline join a bare value with the next line |
| `EnvFileGrammar.FileIsRead` | app/multi_process/day1/systemd/src/basic/env-file.c:49-266 | Every file of assignments, comments, blank lines and lines without an equals sign, values being quoted parts, escapes, continued lines and bare text in any mix, is read as the keys and values it means |
| `EnvFileGrammar.FileIsLoaded` | app/multi_process/day1/systemd/src/basic/env-file.c:397-409 | Loading such a file sets its assignments in order, or fails on text that is not UTF-8 |
| `EnvFileGrammar.AssignmentMeans` | app/multi_process/day1/systemd/src/basic/env-file.c:49-236 | A line that is an assignment gives exactly its entry and leaves a fresh parser |
| `EnvFileGrammar.LastAssignmentMeans` | app/multi_process/day1/systemd/src/basic/env-file.c:240-264 | So does the last line of a file that ends without a newline |
| `EnvFileGrammar.EndIsNewline` | app/multi_process/day1/systemd/src/basic/env-file.c:240-264 | Where a file ends in a value, a missing newline makes no difference |
| `EnvFileGrammar.CutOffInQuotes` | app/multi_process/day1/systemd/src/basic/env-file.c:240-264 | A file cut off inside quotes yields the key with what was read of the value |
| `EnvFileGrammar.CutOffAfterBackslash` | app/multi_process/day1/systemd/src/basic/env-file.c:240-264 | A file cut off after a backslash yields the bare value without it, trailing blanks kept |
| `EnvFileGrammar.JunkIsDropped` | app/multi_process/day1/systemd/src/basic/env-file.c:68-88 | A line without an equals sign leaves no entry, at the end of the file too |
| `EnvFileGrammar.CommentIsDropped` | app/multi_process/day1/systemd/src/basic/env-file.c:49-66 | Nor does a comment |
| `EnvFileGrammar.BareFile` | app/multi_process/day1/systemd/src/basic/env-file.c:240-264 | A valid name, an equals sign and a plain non-empty value without a newline are that one entry |
| `BtrfsKey.SearchArgs.Inc` | app/multi_process/day1/systemd/src/basic/btrfs-util.c:361-388 | Adds exactly one to the 136-bit key and fails exactly when no greater key exists |
| `BtrfsKey.SearchArgs.Set` | app/multi_process/day1/systemd/src/basic/btrfs-util.c:390-397 | The lower bound becomes the item's key |
| `BtrfsKey.SearchArgs.Compare` | app/multi_process/day1/systemd/src/basic/btrfs-util.c:399-415 | Compares the bounds as 136-bit numbers |
| `BtrfsKey.AfterBatch` | app/multi_process/day1/systemd/src/basic/btrfs-util.c:1727-1757 | Searching from the successor of a batch's last key gives exactly the items after that batch |
| `BtrfsQgroup.FindParents` | app/multi_process/day1/systemd/src/basic/btrfs-util.c:1681-1766 | For any items and any batching all parents of the group in key order; quota switched off gives none; given a good descriptor an error exactly if a search failed otherwise than with ENOENT, and then that error |
| `BtrfsQgroup.SearchOnce` | app/multi_process/day1/systemd/src/basic/btrfs-util.c:1727-1757 | One search: an error exactly if it failed otherwise than with ENOENT, and that error; else it moves the lower bound up and a batch from what is to be found to what was found |
| `BtrfsQgroup.ScanBatch` | app/multi_process/day1/systemd/src/basic/btrfs-util.c:1740-1753 | The parents of a batch are kept and the cursor ends at its last item |
| `BtrfsQgroup.ParentsMember` | app/multi_process/day1/systemd/src/basic/btrfs-util.c:1745-1753 | Parents are exactly the offsets of relation items with this object id that are not below it |
| `BtrfsQgroup.ParentsIncrease` | app/multi_process/day1/systemd/src/basic/btrfs-util.c:1681-1766 | They come in increasing order, so each exactly once |
| `BtrfsQgroup.RangeIsExact` | app/multi_process/day1/systemd/src/basic/btrfs-util.c:1683-1724 | The search bounds enclose exactly the items of one object and type |
| `BtrfsQgroup.Make` | app/multi_process/day1/systemd/src/basic/btrfs-util.c:866-877 | Fails exactly when level or id is too wide, else an id that splits into both |
| `BtrfsQgroup.SplitThenMake` | app/multi_process/day1/systemd/src/basic/btrfs-util.c:879-889 | Every id is made again from its parts |
| `BtrfsAutoQgroup.GetParent` | app/multi_process/day1/systemd/src/basic/btrfs-util.c:1926-1986 | If the search succeeds, the subvolume named by the first back reference, ENXIO exactly when there is none; else the error of the search |
| `BtrfsAutoQgroup.DestroyRecursive` | app/multi_process/day1/systemd/src/basic/btrfs-util.c:935-974 | Terminates for every relation graph; groups destroyed and relations lost all share the id part of the given group; it fails only with the error of a call that failed; after success the group is gone and belongs to none of its old parents, and if no call failed the parents that share its id part are gone too |
| `BtrfsAutoQgroup.Detach` | app/multi_process/day1/systemd/src/basic/btrfs-util.c:953-971 | One parent: it fails only with the error of a failed call; after success the relation is gone, and if no call failed and the parent shares the id part the parent is gone too |
| `BtrfsAutoQgroup.LowestLevel` | app/multi_process/day1/systemd/src/basic/btrfs-util.c:1845-1862 | The least level of the groups, 256 if none is lower |
| `BtrfsAutoQgroup.AssignAll` | app/multi_process/day1/systemd/src/basic/btrfs-util.c:1878-1911 | Success exactly if no assignment failed otherwise than with EEXIST, else the first failure; then every relation is there, only those were added, and the result says whether any was new |
| `BtrfsAutoQgroup.InsertIntermediary` | app/multi_process/day1/systemd/src/basic/btrfs-util.c:1845-1897 | Success exactly if there is a level in between and no call failed; then a group of level at least 1, strictly below every inherited group and with the subvolume's id part, the subvolume its member and itself a member of each inherited group |
| `BtrfsAutoQgroup.CreateAndJoin` | app/multi_process/day1/systemd/src/basic/btrfs-util.c:1871-1897 | The first failure is the one reported, and if the cleaning up goes well a group just created is gone again |
| `BtrfsAutoQgroup.AutoQgroup` | app/multi_process/day1/systemd/src/basic/btrfs-util.c:1768-1914 | Success exactly if neither the descriptor nor the levels stand in the way and no call failed, else that reason or the error of a failed call; after success a subvolume that had no group is a member of each group of its parent subvolume, directly or through its new group; one that had a group is left alone; the result tells whether anything changed |
| `CopyBytes.CopyBytesFull` | app/multi_process/day1/systemd/src/basic/copy.c:185-352 | Whatever mechanisms and partial transfers occur, the destination gains exactly the next source bytes in order, followed by the remains after a failed write; never more than the limit; 1 exactly at the limit, 0 exactly at an earlier end of file; an error only from a call made that is no reason to fall back, the pipe check, an interrupt or the callback, so that the copy succeeds when all calls move bytes or fall back; the mechanisms are used in their order, each until it is given up |
| `CopyBytes.Accelerated` | app/multi_process/day1/systemd/src/basic/copy.c:202-290 | copy_file_range, sendfile and splice in this order, each given up for good on its own set of errors; the first one still tried that does not pass on decides between moved bytes, end of file and an error to return |
| `CopyBytes.TryOne` | app/multi_process/day1/systemd/src/basic/copy.c:203-216 | Bytes moved, end of file, an error to return or a reason for the next mechanism |
| `CopyBytes.CheckPipes` | app/multi_process/day1/systemd/src/basic/copy.c:234-275 | Splice is used only when exactly one descriptor is a pipe or both are with the same blocking mode; it is non-blocking exactly if a pipe is; the first descriptor that cannot be examined gives the error |
| `CopyBytes.WriteAll` | app/multi_process/day1/systemd/src/basic/copy.c:303-330 | Written bytes followed by what is left are the buffer; something is left exactly on an error, which is that of a failed write |
| `CopyBytes.ByHand` | app/multi_process/day1/systemd/src/basic/copy.c:292-331 | One buffer read and written out, or the part that could not be written and the error of the call that failed |
| `CopyBytes.Round` | app/multi_process/day1/systemd/src/basic/copy.c:202-331 | The accelerated mechanisms and then the copy by hand: bytes moved, end of file, or the error of a call that failed for good or of the pipe check |
| `CgroupPath.CgEscape` | app/multi_process/day1/systemd/src/basic/cgroup-util.c:1478-1524 | An underscore in front exactly of names that are empty, begin with underscore or dot, or may be the kernel's own |
| `CgroupPath.Escaped` | app/multi_process/day1/systemd/src/basic/cgroup-util.c:1478-1524 | The escaped name is never empty or one of the kernel's fixed names, and ends in the name |
| `CgroupPath.UnescapeUndoesEscape` | app/multi_process/day1/systemd/src/basic/cgroup-util.c:1526-1536 | Unescaping undoes escaping for every name |
| `CgroupPath.CgSkipSlices` | app/multi_process/day1/systemd/src/basic/cgroup-util.c:1119-1135 | The rest of the path from the first component that is no slice |
| `CgroupPath.GetUnit` | app/multi_process/day1/systemd/src/basic/cgroup-util.c:1137-1159 | What is returned is a valid unit name and never a slice |
| `CgroupPath.CgPathGetSlice` | app/multi_process/day1/systemd/src/basic/cgroup-util.c:1402-1436 | The last of the leading slices, the root slice if there is none |
| `CgroupPath.CgSliceToPath` | app/multi_process/day1/systemd/src/basic/cgroup-util.c:1568-1642 | The chain of escaped dash prefixes, or the error of the first one that is malformed |
| `CgroupPath.SliceRoundTrip` | app/multi_process/day1/systemd/src/basic/cgroup-util.c:1402-1642 | A slice with a path comes back from it, whatever non-slice path follows |
| `CgroupPath.UnitRoundTripIff` | app/multi_process/day1/systemd/src/basic/cgroup-util.c:1072-1159 | Below any slice with a path, the escaped name of a valid plain or instance unit is read back exactly when the unit is no slice, and then the slice is read back too |
| `CgroupPath.SliceHasPathIff` | app/multi_process/day1/systemd/src/basic/cgroup-util.c:1568-1642 | Exactly the root slice and the valid plain slice names without leading, trailing or double dashes have a path |
| `CgroupPath.PlainSliceIff` | app/multi_process/day1/systemd/src/basic/unit-name.c:33-79 | A plain slice name is a non-empty run of allowed characters, short enough, before the suffix |
| `CgroupNames.TopSlice` | app/multi_process/day1/systemd/src/basic/cgroup-util.c:1568-1642 | A slice without dashes lies directly below the root |
| `CgroupNames.ChildSlice` | app/multi_process/day1/systemd/src/basic/cgroup-util.c:1568-1642 | A slice named after another and one more word has a path exactly if the other has one, which is that path and its own escaped name |
| `CgroupNames.EscapedKeepsIff` | app/multi_process/day1/systemd/src/basic/cgroup-util.c:1478-1524 | A name is kept exactly if it is not empty, begins with neither underscore nor dot, is none of the fixed names, has no cgroup. in front and is no attribute of a controller; else it gets one underscore |
| `CgroupNames.EscapedIsNoAttribute` | app/multi_process/day1/systemd/src/basic/cgroup-util.c:1478-1524 | No escaped name is the name of a controller, a dot and a word |
| `CgroupNames.PlainUnitIff` | app/multi_process/day1/systemd/src/basic/unit-name.c:33-79 | A plain unit is a non-empty run of allowed characters, a dot and a type, short enough |
| `CgroupNames.InstanceUnitIff` | app/multi_process/day1/systemd/src/basic/unit-name.c:33-79 | An instance has a non-empty prefix, an at sign and a non-empty instance before the dot |

## Left out

- SimpleFs.FileSystem.Create: says nothing about what happens after an overrun of the directory block, because the code then writes outside its buffer; failing allocations and interrupted lock waits are not modelled.
- SimpleFs.FileSystem.GetFreeBlock: free_blocks is a set of 64 block numbers; the code's shift of a plain int is taken to reach all of them.
- SimpleFs.FileSystem.CrashAndMount: a crash leaves one of the recorded disks, each the result of whole block writes; torn writes of a single block are not modelled.
- GlobalFifo.Device.TakeOut: the overlapping memcpy is taken to copy upwards.
- GlobalFifo.BytesAreConserved: poll, asynchronous notification and several devices are not modelled.
- AllocUtil.GreedyRealloc: a failing realloc is not modelled.
- ExtractWord.ExtractFirstWord: runs out of memory only on an overflowing request, not by a failing realloc.
- BtrfsQgroup.Make: the bitwise or of disjoint fields is written as a sum.
- BtrfsQgroup.FindParents: the tree does not change between two batches of one search, and the count is not narrowed to int.
- BtrfsAutoQgroup.DestroyRecursive: parents sharing the id part are stated to be gone if no call failed; after a failed inner call, which the code passes over, nothing is said of them; a failed assign, unassign, create or destroy is taken to change nothing.
- BtrfsAutoQgroup.AutoQgroup: without an intermediary, membership as find_parents sees it is stated for groups of a higher level than the subvolume's own; for others the relation itself is stated.
- BtrfsAutoQgroup.GetParent: the search loop is one turn, because its first turn always returns; a tree search is taken never to fail with ENXIO itself, which the code could not tell from a missing parent.
- CopyBytes.CopyBytesFull: the reflink attempt before the loop and a failing memdup are not modelled; calls are finitely many before failures, so a write that returns 0 for ever is not.
- EnvTemplate.TemplateExpands: templates with a choice behind a plain reference are not covered, because the code's brace counter is then wrong (OwnBraceIff); only LateChoiceIsText says what comes out of them.
- EnvFile.LoadEnvFile: the growing buffers of the parser are sequences, so allocation failure does not occur; reading the file is a parameter.
- EnvFileRoundTrip.WriteEnvFile: the temporary file and its renaming are not modelled.
- Escape.XEscapeFull: sizes are unbounded, so SIZE_MAX as a width stands for a width that is never reached.
- CgroupPath.CgSliceToPath: allocation failure is not modelled.
- `simplefs_read`, `simplefs_write`, mounting and registration: kernel plumbing.
- `octescape`, `utf16` conversion, console widths, tree copying, xattrs and ownership, subvolume snapshots and removal: not part of this model.
- The rest of systemd: the service manager, journal, network, login, resolve and boot components, sd-bus and the other files of src/basic and src/shared.
- The other exercises: process, thread and socket demos under app, page cache and FUSE demos under io, the memory and scheduling material under mm and schedule, and the ARM assembler samples.
