# Cellar core: models and proofs

This project models the self-contained algorithms at the core of the Cellar
compatibility layer and proves what callers rely on. Files are byte strings or
trees of named texts, memory is arrays and sequences, and concurrent code is a
step system whose threads interleave freely.

| file | models |
|---|---|
| `ring.dfy`, `ring_steps.dfy` | the single-producer, single-consumer byte ring: as a class that refines a bounded byte queue, and as two interleaved threads whose counter loads, byte copies and counter stores are steps of their own |
| `mutex.dfy`, `spinlock.dfy`, `semaphore.dfy` | the futex primitives for any set of threads, with spurious compare-and-swap failures and spurious wakes |
| `pe.dfy`, `imports.dfy`, `loader.dfy` | assembling the virtual image of a PE file, the two RVA translations, slice reads and the nested import-table walk |
| `shadercache.dfy` | the append-only shader cache file over any number of open / insert / close sessions |
| `archive.dfy`, `archive_reads.dfy` | the CBK1 bottle archive: backup, restore, clone, and what restore makes of any bytes |
| `settings.dfy`, `settings_window.dfy` | the in-place key=value editor of prefix.conf, on its lines and through the buffers it reads into |
| `profile.dfy`, `workspace.dfy`, `replace.dfy`, `redact.dfy` | the compatibility profile's printer and parser, the workspace record's save and load, and the redaction of support bundles |
| `tree.dfy`, `snapshot.dfy`, `effects.dfy`, `fresh.dfy`, `store.dfy` | the workspace's directory tree, snapshots and rollback among all other operations on it |
| `locale.dfy` | Windows-1252 to UTF-8 and back |
| `database.dfy`, `frametime.dfy`, `compat.dfy` | the compatibility database, the frame-time window and report, and the compatibility score |
| `words.dfy`, `text.dfy`, `decimal.dfy`, `status.dfy` | masks, powers of two and little-endian fields; C strings and lines; printf's and strtol's decimal numbers; status codes |

The main results are statements about whole runs or all inputs: a history of
the ring, a run of any number of threads, a sequence of sessions on one cache
file, any operations between a snapshot and rolling back to it. Code that
updates state in place is a class or an array method proved against a
specification function, and the laws are lemmas about that function.

Where the code does not meet a law on all inputs, the model keeps the code and
states exactly when the law holds (the members whose names end in `Iff`), with
an input that shows the failure:

- A mutex can die: `cellar_mutex_lock` throws away the result of its exchange
  with 2, so an unlock between the failed fast path and that exchange leaves the
  word at 2 with no holder, for ever (`DiesIff`, `RunDiesIff`, `DeadForever`, `DeadIsReachable`).
- A mutex can forget a sleeper: `cellar_mutex_trylock` overwrites the mark of
  contention with 1, after which the holder's unlock wakes nobody. That is the only
  way (`RunRemembersIff`, `ForgetsIff`, `TryLockForgets`).
- The semaphore's count is exact, and non-negative, until a post finds it at
  `INT_MAX` (`ExactConservationIff`, `CountNeverNegativeIff`, `PostOverflows`);
  that waits never exceed the start count plus the posts holds in every run.
- The ring's 32-bit mask selects cells correctly exactly for capacities up to
  2^32 (`MaskSelectsCellIff`, `LargeMaskMisses`), and `round_up_pow2` ends
  exactly for requests up to 2^63 (`RoundUpEndsIff`).
- The two RVA translations agree on every file of a length exactly when each
  mapped byte comes from where the raw translation points, which the layout
  alone decides (`TranslationsAgreeIff`, `OverlapDisagrees`).
- Restore undoes backup exactly when every path has 1 to 511 bytes without
  ".." and every file is below 2^32 bytes (`RestoreUndoesBackupIff`); a clone
  equals its source exactly when, in addition, the source has a prefix.conf,
  since restoring creates the default one (`CloneIsEqualIff`). Restore succeeds
  exactly on the magic, whole acceptable records and an end (`ArchiveReads.RestoresIff`);
  a cut backup passes as complete exactly when the cut is at a record's start or
  inside its first four bytes (`CutRestores`).
- Reading a setting sees the first 2047 characters of the file and changing one
  the first 4095. Get after set returns the new value exactly when what the
  caller's buffer holds of it ends inside the first window
  (`GetAfterSetIff`, `NewKeyBehindWindow`); set leaves get of another key alone
  exactly when as much of its value is inside that window before and after
  (`GetOtherAfterSetIff`, `OtherKeyPulledIn`); two sets equal the last one
  exactly when the second reads far enough into the last line
  (`SetTwiceIff`, `SecondSetTruncates`).
- Profiles are read back exactly when they are printable: no newline, no
  leading blank, and a name whenever there is a label (`PrintParseIff`).
- A saved workspace is read back exactly when no text holds a newline and every
  field comes back: its line may be shadowed by one the heading holds, since a
  workspace name may contain newlines (`SaveLoadIff`, `ForgedId`), and an empty
  setup label is printed as the setup kind (`PlainSaveLoadIff`).
- Saving and opening the database gives the same entries exactly when they are
  clean (`SaveOpenRoundTripIff`).
- A redaction loop ends on every line exactly when the pattern does not lie in
  "$HOME", and on a given line exactly when the pattern does not lie in both
  (`LoopEndsIff`, `StopsIff`); every line keeps fitting its buffer exactly for
  patterns of five characters and more (`AlwaysFitsIff`, `RootHomeGrows`).
- The redacted line never holds the home directory exactly when that holds
  "/home/USER" itself or no place of it admits the marker, that is, no line
  without it turns into it by one replacement (`HomeRemovedIff`, `ComesPlainlyIff`).
  Every absolute path without '$' meets that (`PlainHomeIsNotMade`);
  HOME="/a$HOME" does not (`HomeComesBack`).
- A code page converts there and back exactly when it is UTF-8 itself, or the
  decoder does not resolve it to UTF-8 and decodes Windows-1252 whenever the
  encoder encodes it (`AlwaysRoundTripsIff`, `EuroIsLost`): the OEM page is
  resolved by the encoder only.
- The snapshot label ".." is accepted and names the workspace itself: the copy
  truncates each file before reading it, so taking that snapshot empties the
  settings it should keep (`RestoresIff`, `UpLosesSettings`).
- The percentage's 32-bit product is harmless exactly while it does not wrap
  (`PercentExactIff`).

Where comments and code disagree the model follows the code. The timer's comment
gives the 1% low index as ceil(0.99 n) - 1; the code truncates 0.99 n, which is
floor(99 n / 100) - 1 for the window sizes 2..240, and falls back to the last
index for n = 1. The header of the locale module promises -1 for an unknown code
page; the converters treat every other page like Latin-1. Snapshot rejects labels
with '/', rollback does not.

## Model

| member | source | states |
|---|---|---|
| Ring.RoundUpEndsIff | src/shmem/shmem.c:18-24 | The doubling loop ends exactly for requests up to 2^63; above, the 64-bit shift reaches 0 and stays there. |
| Ring.RoundUpPow2 | src/shmem/shmem.c:18-24 | The loop yields the least power of two that is at least the request. |
| Ring.MaskSelectsCellIff | src/shmem/shmem.c:31-32 | Masking with the truncated 32-bit mask is the remainder by the capacity, for every counter value, if and only if the capacity is at most 2^32. |
| Ring.LargeMaskMisses | src/shmem/shmem.c:31-32 | For larger capacities a counter of 2^32 is masked to cell 0 instead of cell 2^32. |
| Ring.CellOfCounter | src/shmem/shmem.c:72 | The cell of a 64-bit counter value is the unbounded position modulo the capacity: counter overflow is harmless because the capacity divides 2^64. |
| Ring.CounterStep | src/shmem/shmem.c:72-77 | Advancing a counter by up to a capacity moves its cell by as much, with at most one wrap, also across counter overflow. |
| Ring.DistanceSteps | src/shmem/shmem.c:44-49 | Head plus the used count is tail; moving tail adds to it and moving head takes from it, through 64-bit overflow. |
| Ring.CopyInAppends | src/shmem/shmem.c:72-77 | The two-part copy in leaves the stored bytes followed by the new ones. |
| Ring.CopyOutReads | src/shmem/shmem.c:98-103 | The two-part copy out reads the oldest bytes in order. |
| Ring.AdvanceDrops | src/shmem/shmem.c:105 | Moving head past n stored bytes removes exactly the n oldest. |
| Ring.ByteRing.Create | src/shmem/shmem.c:26-37 | Error cases; otherwise an empty ring of the least sufficient power of two, valid exactly for requests up to 2^32. |
| Ring.ByteRing.Produce | src/shmem/shmem.c:58-82 | Appends exactly the first min(len, free) bytes to the queue, or nothing for a null source. |
| Ring.ByteRing.Consume | src/shmem/shmem.c:84-107 | Returns and removes exactly the first min(len, used) bytes, and leaves the rest of dst alone. |
| Ring.ByteRing.Drop | src/shmem/shmem.c:109-121 | Removes exactly the first min(len, used) bytes. |
| Ring.ByteRing.Peek | src/shmem/shmem.c:123-143 | Returns what consume would return and leaves the queue as it is. |
| RingSteps.StepKeepsInv | src/shmem/shmem.c:58-143 | Every load, byte copy and publish of either thread keeps the invariant of the shared ring. |
| RingSteps.ReachableInv | src/shmem/shmem.c:58-143 | Every interleaving reaches only states with the invariant. |
| RingSteps.Fifo | src/shmem/shmem.c:58-143 | In every interleaving the bytes taken or dropped, followed by the bytes between head and tail, are the bytes published; at most the capacity is stored. |
| RingSteps.NoOverwrite | src/shmem/shmem.c:72-77 | No cell of a producer copy in progress is a cell the consumer may still read. |
| RingSteps.Delivers | src/shmem/shmem.c:84-143 | A finishing consume, peek or drop yields the oldest bytes not yet taken, however the producer moved meanwhile. |
| RingSteps.ConsumerTakes | src/shmem/shmem.c:84-143 | However the producer moves during it, a consume, peek or drop takes min(len, stored) bytes, stored being what was published and not taken when it loaded tail, and returns at once for 0 unless it is a drop. |
| RingSteps.CallDelivers | src/shmem/shmem.c:84-143 | When it finishes, exactly those bytes are handed over, and taken unless it is a peek. |
| RingSteps.ProducerTakes | src/shmem/shmem.c:58-70 | However the consumer moves during it, a produce writes min(len, free) bytes, free being the room when it loaded head, and returns at once for 0. |
| RingSteps.CallPublishes | src/shmem/shmem.c:58-82 | When it publishes, exactly those bytes of its data are appended. |
| RingSteps.ProduceAlone | src/shmem/shmem.c:58-82 | From every reachable state an idle producer can append min(len, free) of its bytes, whatever the consumer is in the middle of. |
| RingSteps.ConsumeAlone | src/shmem/shmem.c:84-143 | From every reachable state an idle consumer can take min(len, stored) bytes, or look at them, whatever the producer is in the middle of. |
| RingSteps.NeverStuck | src/shmem/shmem.c:58-143 | In every interleaving either thread can go on, whatever the other does. |
| Mutex.StepKeepsInv | src/sync/sync.c:95-122 | Every atomic step of lock, trylock and unlock, also one that fails or wakes spuriously, keeps: at most one holder, and a non-zero word while there is one. |
| Mutex.MutualExclusion | src/sync/sync.c:93-122 | In every run of any set of threads at most one is past a successful acquire, and the word is then non-zero. |
| Mutex.DeadForever | src/sync/sync.c:95-116 | A non-zero word without a holder stays so in every run: nobody acquires the mutex again. |
| Mutex.DiesIff | src/sync/sync.c:102-110 | A step leads to such a state if and only if it is the exchange with 2 on a free mutex. |
| Mutex.RunDiesIff | src/sync/sync.c:95-122 | A run of any set of threads ends in such a state if and only if one of its steps is that exchange on a free mutex. |
| Mutex.DeadIsReachable | src/sync/sync.c:95-122 | Two threads and seven steps reach it. |
| Mutex.AcquiresIff | src/sync/sync.c:95-116 | In every run a trylock, or a compare-and-swap that does not fail spuriously, acquires the mutex if and only if nobody holds it and it is not dead. |
| Mutex.LockAloneIff | src/sync/sync.c:95-100 | In every run an idle thread that locks undisturbed has the mutex if and only if it was free. |
| Mutex.UnlockFrees | src/sync/sync.c:118-122 | Unlocking frees the mutex and goes on to wake if and only if the word was 2. |
| Mutex.WakesOne | src/sync/sync.c:58-65 | A wake call makes exactly one sleeper try again, unless nobody sleeps. |
| Mutex.HeldSleeps | src/sync/sync.c:95-106 | A lock on a held mutex that is not disturbed marks it as contended and sleeps. |
| Mutex.WokenTakes | src/sync/sync.c:104-108 | A sleeper that wakes to a free mutex takes it and marks it; so does a thread that finds it free before it sleeps. |
| Mutex.WokenSleepsAgain | src/sync/sync.c:104-110 | A sleeper that wakes to a held mutex marks it again and sleeps. |
| Mutex.NeverStuck | src/sync/sync.c:95-122 | Every thread has a step it can take in every state. |
| Mutex.ForgetsIff | src/sync/sync.c:95-122 | While a thread sleeps, the word stays 2 or another thread is about to mark, sleep, retry or wake; a step ends that if and only if it is a trylock on the word 2 when nobody is. |
| Mutex.RunRemembersIff | src/sync/sync.c:95-122 | A run of any set of threads keeps that throughout if and only if it has no such trylock. |
| Mutex.TryLockForgets | src/sync/sync.c:113-122 | Three threads reach a free mutex on which one sleeps and nobody is about to wake it. |
| SpinLock.WordIsHeld | src/sync/sync.c:69-89 | In every run the word is 1 exactly when some thread holds the lock, which then is the only one, and 0 otherwise. |
| SpinLock.ExchangeTakesIffFree | src/sync/sync.c:71-84 | An exchange acquires the lock if and only if it is free. |
| SpinLock.LockAloneIff | src/sync/sync.c:69-79 | In every run an idle thread that locks undisturbed has the lock if it was free, and spins otherwise. |
| SpinLock.SpinsWhileHeld | src/sync/sync.c:71-89 | A poll lets a spinning thread through if and only if the lock is free; unlocking frees it; a trylock never spins. |
| Semaphore.Conservation | src/sync/sync.c:152-172 | In every run the count is the start count plus posts minus completed waits, modulo 2^32. |
| Semaphore.ExactConservationIff | src/sync/sync.c:157-161 | Without the modulus this holds throughout a run if and only if no post finds the count at INT_MAX. |
| Semaphore.WaitsAreBacked | src/sync/sync.c:152-172 | In every run from a non-negative start completed waits never exceed start plus posts, also when the count wraps. |
| Semaphore.CountNeverNegativeIff | src/sync/sync.c:152-172 | From a non-negative start the count never goes negative throughout a run if and only if no post finds it at INT_MAX. |
| Semaphore.PostOverflows | src/sync/sync.c:157-161 | One post on a full semaphore makes the count INT_MIN. |
| Semaphore.CountOfRun | src/sync/sync.c:152-172 | In every run the count is the start count plus the posts minus the swaps that found the count their thread had loaded, modulo 2^32. |
| Semaphore.WaitTakes | src/sync/sync.c:163-171 | An undisturbed wait on a positive count takes one. |
| Semaphore.WaitSleeps | src/sync/sync.c:163-171 | Otherwise it sleeps. |
| Semaphore.WokenTakes | src/sync/sync.c:163-171 | A waiter that is woken, or finds another count before it sleeps, takes one of a positive count. |
| Semaphore.WokenSleeps | src/sync/sync.c:163-171 | Otherwise it sleeps again. |
| Semaphore.SleepsOnPositive | src/sync/sync.c:166-170 | A swap that fails spuriously sends its thread to sleep on a positive count. |
| Semaphore.PostWakes | src/sync/sync.c:157-161 | A post adds one and then makes one sleeper look again, unless nobody sleeps. |
| Pe.SectionFor | src/loader/pe.c:108-120 | The first section whose span, the larger of its two sizes, holds the RVA, and none if none does. |
| Pe.UntouchedKeepsBase | src/loader/loader.c:112-133 | A byte in no section's raw data is the file's header byte, or zero. |
| Pe.LastWriterWins | src/loader/loader.c:124-133 | A mapped byte comes from the last copied section that covers it. |
| Pe.MappedAgreesWithRaw | src/loader/pe.c:108-156 | For a well-formed image the mapped byte at an RVA is the file byte the raw translation finds, and zero where it finds none. |
| Pe.RawTranslationIsMapped | src/loader/pe.c:122-156 | Wherever the raw translation is defined, the mapped one is, and both stay inside their buffers. |
| Pe.TranslationsAgreeIff | src/loader/loader.c:112-133 | For any layout whose copies stay in the file, mapped image and raw translation agree on every file of that length if and only if each RVA's mapped byte comes from the offset the raw translation gives. |
| Pe.OverlapDisagrees | src/loader/loader.c:124-133 | Two overlapping spans on which they disagree. |
| Pe.RvaIff | src/loader/pe.c:108-134 | The mapped translation is defined exactly on the headers and on the RVAs within either size of a section. |
| Pe.RvaRawIs | src/loader/pe.c:136-156 | The raw translation goes through the first section that covers the RVA, as far as its raw data reaches. |
| Pe.MappedByteIs | src/loader/loader.c:112-133 | For any layout a mapped byte comes from the last section whose raw data starts in the file, fits the image and covers it; otherwise from the headers as far as the file has them; otherwise it is zero. |
| Loader.Image.MapSections | src/loader/loader.c:105-142 | Error cases; otherwise the fresh image is the headers and the sections in order over zeroes. |
| Loader.Image.SectionForRva | src/loader/pe.c:108-120 | The loop finds the first section whose span holds the RVA, or -1. |
| Loader.Image.RvaToMapped | src/loader/pe.c:122-134 | The translation into the mapped image, undefined while nothing is mapped. |
| Loader.Image.RvaToRaw | src/loader/pe.c:136-156 | The translation into the file, with the 32-bit difference. |
| Loader.Image.Read | src/loader/pe.c:158-171 | Succeeds exactly for a mapped RVA whose slice lies in the image; then dst starts with that slice, otherwise dst is unchanged. |
| Loader.Image.NextThunk | src/loader/loader.c:155-231 | One thunk's reading: end, error, or a record, told apart by the top bit for both widths. |
| Loader.Image.WalkThunks | src/loader/loader.c:208-254 | The inner loop appends exactly one record per thunk up to the first zero one. |
| Loader.Image.ParseImports | src/loader/loader.c:174-262 | The walk ends and its records are exactly those of the table, in table order. |
| Loader.Records.Push | src/loader/loader.c:233-252 | Appending keeps every earlier record when the array doubles from 16. |
| Imports.DescriptorRoundTrip | src/loader/loader.c:191-196 | A descriptor laid out in the image is read back field by field. |
| Imports.ThunksComplete | src/loader/loader.c:208-254 | Thunks laid out up to a zero one are all read, names and ordinals told apart. |
| Imports.TableComplete | src/loader/loader.c:186-256 | A well-formed import table is read completely and in order, one record per thunk. |
| Imports.DirectoryComplete | src/loader/loader.c:174-262 | The same from the data directory on. |
| Imports.TableSays | src/loader/loader.c:186-256 | For a table that lists DLLs and, by name or ordinal, their functions: the records, read through the offsets they hold, say exactly those DLLs, names and ordinals, in order; a name is found behind its two hint bytes. |
| Imports.DirectorySays | src/loader/loader.c:174-262 | The same from the data directory on. |
| Imports.BadTable | src/loader/loader.c:198-231 | A descriptor whose DLL name, or one of whose thunks behind sound ones, names nothing in the image makes the whole table an error. |
| Imports.TableRunsOut | src/loader/loader.c:174-196 | A table that runs out of the image ends there with its records; without a directory there are none. |
| ShaderCache.EnvFields | src/gfx/shadercache.c:25-49 | The identity is read back from the header as it was written. |
| ShaderCache.OpenOnLogFile | src/gfx/shadercache.c:65-84 | Opening a log keeps it if and only if gpu, driver and api are the same, and reads its record count. |
| ShaderCache.MatchesIff | src/gfx/shadercache.c:35-84 | Of all files opening keeps exactly those that start with the magic and version and whose gpu, driver and api fields agree, these being zero in a file too short for them. |
| ShaderCache.CountIs | src/gfx/shadercache.c:77-80 | The count taken from any such file: its count field, or what a short read leaves of it in front of the magic's bytes. |
| ShaderCache.PatchedBytes | src/gfx/shadercache.c:168-192 | Closing sets bytes 32 to 39 to the count and changes no other byte of any file. |
| ShaderCache.FindIsFirstUnder | src/gfx/shadercache.c:130-146 | The size-skipping scan of whole records finds the first one under the key and never mistakes blob bytes for a record. |
| ShaderCache.StoredSizeIff | src/gfx/shadercache.c:159-163 | The stored size is the blob's length if and only if that is below 2^32. |
| ShaderCache.SessionAppends | src/gfx/shadercache.c:151-192 | A session leaves the records it found followed by its own, and the count patched to their number. |
| ShaderCache.FileIsLog | src/gfx/shadercache.c:51-192 | After any sessions the file is a header and whole records: the inserts since the last change of identity, with their number as the stored count. |
| ShaderCache.OpenedIsLog | src/gfx/shadercache.c:51-116 | Reopening after any sessions leaves a log of the inserts that then survive. |
| ShaderCache.LookupAfterReopen | src/gfx/shadercache.c:51-149 | The scan of the reopened file finds the first surviving insert under the key, or none. |
| ShaderCache.OtherIdentityMisses | src/gfx/shadercache.c:65-149 | Reopened with another gpu, driver or api, whatever was inserted, every lookup misses. |
| ShaderCache.ReopenAndLookup | src/gfx/shadercache.c:51-149 | Open and lookup after any sessions return that blob's size and hand the blob over when the buffer holds it, and nothing otherwise. |
| ShaderCache.Cache.Open | src/gfx/shadercache.c:51-116 | Keeps a matching file and its count, and recreates any other. |
| ShaderCache.Cache.Insert | src/gfx/shadercache.c:151-166 | Appends key, 32-bit size and blob to what is not yet flushed. |
| ShaderCache.Cache.Close | src/gfx/shadercache.c:168-192 | Flushes, then patches the count at bytes 32 to 39. |
| ShaderCache.Cache.Lookup | src/gfx/shadercache.c:118-149 | The size found by the scan of the bytes on disk; the buffer starts with what the file holds of a blob that is not too large, and keeps every other byte. |
| ShaderCache.UseSession | src/gfx/shadercache.c:51-192 | Opening, inserting and closing leaves the session's file, however much of it was flushed early. |
| Archive.FirstRecord | src/prefix/prefix.c:363-391 | A stored file is read back as it is if it is archivable, and never if it is not. |
| Archive.RecordsOfStored | src/prefix/prefix.c:357-406 | A list of stored files is read back as it is if and only if each is archivable. |
| Archive.RestoreUndoesBackupIff | src/prefix/prefix.c:247-409 | Decoding a backup gives exactly the files written if and only if each has a path of 1..511 bytes without ".." and data below 2^32 bytes. |
| Archive.RestoreMerges | src/prefix/prefix.c:341-409 | Restoring an archivable backup over a bottle gives its files priority over the bottle's and the default prefix.conf. |
| Archive.RestoredIsReadable | src/prefix/prefix.c:357-406 | From any bytes restore makes only files with a path of 1..511 bytes without ".." and data below 2^32 bytes. |
| Archive.CloneIsEqualIff | src/prefix/prefix.c:423-441 | A clone into a fresh name has the source's files if and only if the source has a prefix.conf and each of its files can be archived. |
| Archive.Bottle.BackupTo | src/prefix/prefix.c:267-338 | Writes magic, one record per file in directory order, and the terminator. |
| Archive.Bottle.RestoreFrom | src/prefix/prefix.c:341-409 | On any bytes the reader ends, with the status and the files of its specification. |
| Archive.Bottle.NextRecord | src/prefix/prefix.c:357-391 | One record is read or refused as specified. |
| Archive.Clone | src/prefix/prefix.c:423-441 | Backup followed by restore. |
| ArchiveReads.RestoresIff | src/prefix/prefix.c:340-410 | From any bytes, restore succeeds if and only if they are the magic, whole records with a path of 1 to 511 bytes without ".." and data below 2^32 bytes, and then a zero length or less than four bytes; it reports an invalid argument otherwise, and touches nothing without the magic. |
| ArchiveReads.RestoresArchive | src/prefix/prefix.c:355-410 | From such bytes it leaves exactly the listed files, under their paths up to the first NUL. |
| ArchiveReads.CutRestores | src/prefix/prefix.c:363-394 | From a backup cut anywhere behind the magic the whole records' files come back, with success if and only if the cut is at a record's start or inside its four length bytes, or nothing is missing. |
| ArchiveReads.BadPathStops | src/prefix/prefix.c:365-377 | A path of 512 and more bytes or with ".." is an invalid argument, behind the files before it. |
| SettingsWindow.GetAfterSetIff | src/prefix/prefix.c:445-534 | For any earlier text, get after set of the same key returns what the caller's buffer holds of the new value if and only if that ends inside the first 2047 characters. |
| SettingsWindow.NewKeyBehindWindow | src/prefix/prefix.c:464-485 | A key appended behind 2100 characters is not found. |
| SettingsWindow.GetOtherAfterSetIff | src/prefix/prefix.c:445-534 | For any text, set leaves get of another key unchanged if and only if it has no line, or the 2047-character window ends at the same place of its value, or reaches all the caller's buffer holds, before and after. |
| SettingsWindow.OtherKeyPulledIn | src/prefix/prefix.c:445-534 | A shorter value in front pulls another key's value into the window. |
| SettingsWindow.SetTwiceIff | src/prefix/prefix.c:487-534 | For any text, two sets of one key leave the file of the last one if and only if the second one's 4095-character window reaches far enough into the last line. |
| SettingsWindow.SmallIsSeen | src/prefix/prefix.c:504-531 | A file of at most 4095 characters meets that condition. |
| SettingsWindow.SecondSetTruncates | src/prefix/prefix.c:504-531 | A long line behind the key, pushed past the window by the first value, is cut off by the second set. |
| Settings.LookupSetLines | src/prefix/prefix.c:512-531 | After the edit the first line for the key holds the value, also with duplicates. |
| Settings.LookupOtherKey | src/prefix/prefix.c:512-531 | The edit does not change the first line of another key. |
| SettingsWindow.SeenCut | src/prefix/prefix.c:464-466 | Reading written lines through a buffer sees them cut at its size, also when the last line had no newline. |
| SettingsWindow.LookupCut | src/prefix/prefix.c:467-485 | Looking a key up in the cut lines finds as much of its first value as the window has room for. |
| Settings.ConfFile.GetSetting | src/prefix/prefix.c:455-485 | The scan returns the first value under the key, clipped, or "". |
| Settings.ConfFile.SetSetting | src/prefix/prefix.c:494-534 | The file becomes the line-by-line rewriting of what was read. |
| Settings.Rewrite | src/prefix/prefix.c:511-531 | The loop replaces every line of the key, keeps the others, and reports whether there was one. |
| Decimal.ReadSignedDecInt | src/workspace/workspace.c:123-134 | Printing a number with %d and reading it with base 0 or 10 is the identity. |
| Decimal.AtoiDecInt | src/db/db.c:81-85 | For 32-bit numbers also through atoi. |
| Profile.ParseProfile | src/workspace/workspace.c:784-864 | The loop computes that fold on any text. |
| Profile.ModeRoundTrip | src/workspace/workspace.c:227-248 | Mode names are read back as the modes they name. |
| Profile.TrustRoundTrip | src/workspace/workspace.c:320-328 | Trust names are read back as the levels they name. |
| Profile.ParsePrintedLine | src/workspace/workspace.c:761-782 | Parsing one printed line sets that field and no other; values may contain ':'. |
| Profile.PrintableRoundTrip | src/workspace/workspace.c:761-864 | Parsing a printed printable profile gives it back, all fields. |
| Profile.PrintParseIff | src/workspace/workspace.c:761-864 | It does so if and only if the profile is printable. |
| Workspace.FindField | src/workspace/workspace.c:97-121 | The scan returns the first value under the key, clipped to the buffer, or nothing. |
| Workspace.LookupSaved | src/workspace/workspace.c:407-438 | In a saved file every field is found in the heading, if a line there is for its key, and otherwise as it was printed. |
| Workspace.SavedLines | src/workspace/workspace.c:407-438 | A saved record fits the reader's 16 KiB buffer, so the reader sees the heading, split at any newlines in it, and every field line. |
| Workspace.NumberRoundTrip | src/workspace/workspace.c:123-134 | Each number survives printing, strtol or strtoull and the reader's casts. |
| Workspace.LoadOfSave | src/workspace/workspace.c:343-441 | Loading a saved record gives it back, with an empty setup label replaced by the kind's name and fields the heading forges taken from there. |
| Workspace.LoadedIsStruct | src/workspace/workspace.c:343-389 | Whatever is in the file, the loaded record fits its arrays, holds numbers of its widths and no newline. |
| Workspace.ReloadIsStable | src/workspace/workspace.c:343-441 | Loading any file under any name, saving and loading again reaches a record that stays as it is. |
| Workspace.SaveLoadIff | src/workspace/workspace.c:343-441 | For every record, loading what was saved gives it back if and only if no text holds a newline and each field reads back, from the heading or as printed. |
| Workspace.PlainSaveLoadIff | src/workspace/workspace.c:343-441 | With a name and path without newlines: if and only if no text holds a newline and the setup label is not empty. |
| Workspace.ForgedId | src/workspace/workspace.c:407-410 | The name "a\nid=b" makes the workspace come back under the id "b". |
| Tree.MkdirFrame | src/loader/cellar_util.c:94-118 | Making directories changes no file and removes nothing. |
| Tree.CopyFrame | src/workspace/workspace.c:196-225 | A file copy touches no file but its target, and no node changes its kind. |
| Tree.CopyContent | src/workspace/workspace.c:196-225 | The target gets the source's content, except that a copy onto itself empties the file. |
| Tree.CopyAllContent | src/workspace/workspace.c:1184-1191 | Copying a list of files with distinct targets carries over every one that exists. |
| Tree.CopyAllFrameOf | src/workspace/workspace.c:1212-1219 | It touches only the targets of files that exist. |
| Tree.CopyAllOntoFiles | src/workspace/workspace.c:1212-1219 | Copying over files that exist cannot fail. |
| Tree.CopyAllOntoItself | src/workspace/workspace.c:196-225 | Copying files onto themselves empties them all. |
| Snapshots.OpFrame | src/workspace/workspace.c:391-1221 | Every operation touches only its own files. |
| Snapshots.SnapApart | src/workspace/workspace.c:1160-1166 | The files of a snapshot other than ".." are none of the files any other operation touches. |
| Snapshots.RunKeeps | src/workspace/workspace.c:1160-1221 | Any operations but taking it again leave a snapshot as it is. |
| Snapshots.SnapshotCopies | src/workspace/workspace.c:1168-1196 | A successful snapshot holds the content of every tracked file. |
| Snapshots.RollbackRestores | src/workspace/workspace.c:1168-1221 | After any operations a successful rollback gives app.conf, prefix.conf and profiles/current.profile their content at snapshot time, as far as they existed, and touches no other file. |
| Snapshots.FreshRollback | src/workspace/workspace.c:1168-1221 | With a fresh label rolling back always succeeds, and touches only the files it restores. |
| FreshLabels.NewSnapshotSucceeds | src/workspace/workspace.c:1168-1196 | Taking a snapshot under a label not used before always succeeds. |
| FreshLabels.SnapshotProtects | src/workspace/workspace.c:1168-1221 | Under such a label snapshot and, after any operations, rollback both succeed, restore what existed and touch nothing else. |
| Effects.RunAppend | src/workspace/workspace.c:391-1221 | A run is its operations one after the other. |
| Effects.LoadsIff | src/workspace/workspace.c:343-389 | There is a record to load if and only if app.conf is there; without it snapshot, rollback and applying a profile fail and do nothing. |
| Effects.SettingStored | src/prefix/prefix.c:494-534 | A setting is stored as the edited text of prefix.conf if and only if there is one and the key is not empty. |
| Effects.ProfileStored | src/workspace/workspace.c:866-902 | Saving a profile succeeds if and only if it has a label and nothing of another kind is in the way, and stores its text under the label. |
| Effects.ActiveApplied | src/workspace/workspace.c:930-982 | Applying the active profile stores the record and changes nothing else. |
| Effects.ApplyOkIff | src/workspace/workspace.c:930-982 | Applying succeeds if and only if there is a record to load and write and, unless its label is the active one, the profile can be stored. |
| Effects.AppliedIsActive | src/workspace/workspace.c:904-982 | After applying a profile whose text says its label, that label is the active one. |
| Effects.ProfileApplied | src/workspace/workspace.c:930-982 | Applying another stores the record and the profile, and makes it the active one. |
| Snapshots.RestoresIff | src/workspace/workspace.c:1168-1221 | After any operations between, a successful rollback restores the tracked files if and only if the label is not ".." or they were all empty. |
| Snapshots.UpLosesSettings | src/workspace/workspace.c:196-225 | With the label ".." both calls report success and app.conf is empty. |
| Snapshots.SavedRecordComesBack | src/workspace/workspace.c:343-1221 | After save, snapshot, any operations and rollback, load returns the saved record. |
| Store.WorkspaceFiles.MkdirP | src/loader/cellar_util.c:94-118 | The loop over path prefixes leaves the specified tree, also when it fails half way. |
| Store.WorkspaceFiles.CopyFile | src/workspace/workspace.c:196-225 | Truncating the target before reading the source leaves the specified tree. |
| Store.WorkspaceFiles.TakeSnapshot | src/workspace/workspace.c:1168-1196 | The tree after each success and each failure. |
| Store.WorkspaceFiles.RollBack | src/workspace/workspace.c:1198-1221 | The tree after each success and each failure. |
| Replace.WeightFalls | src/workspace/workspace.c:1453-1458 | Every replacement of a pattern outside "$HOME" lowers a measure of the line: its foreign characters, its pairs of two letters in the wrong order, or its places with two letters that do not follow each other in "$HOME". |
| Replace.LoopEnds | src/workspace/workspace.c:1453-1458 | For such a pattern none is left after as many rounds as that measure. |
| Replace.NeverEnds | src/workspace/workspace.c:1453-1458 | A pattern inside "$HOME" that occurs in the line still occurs after any number of rounds. |
| Replace.StopsIff | src/workspace/workspace.c:1453-1458 | On a line the loop ends if and only if the pattern is not in the line or not in "$HOME". |
| Replace.LoopEndsIff | src/workspace/workspace.c:1453-1458 | The loop ends on every line if and only if the pattern is not in "$HOME". |
| Replace.ReplaceAllIsRounds | src/workspace/workspace.c:1453-1458 | The line the loop leaves is the line after any number of rounds that leaves no occurrence. |
| Replace.AlwaysFitsIff | src/workspace/workspace.c:1453-1458 | Every line that fits its buffer still fits it after the loop if and only if the pattern has at least five characters. |
| Replace.RootHomeGrows | src/workspace/workspace.c:1448-1458 | HOME="/" makes a one-character line five characters long. |
| Redact.CreatedAt | src/workspace/workspace.c:1464-1471 | A replacement that makes the first occurrence of another text lays the marker over a part of it that agrees with "$HOME", and already the text around that part makes it. |
| Redact.CreatesNoneIff | src/workspace/workspace.c:1464-1471 | Replacing "/home/USER" throughout never makes an occurrence of a text if and only if the text holds that pattern or no place of it admits the marker so. |
| Redact.HomeRemovedIff | src/workspace/workspace.c:1446-1473 | The result never holds the home directory, on any line, if and only if that holds "/home/USER" or no place of it admits the marker so. |
| Redact.ComesPlainlyIff | src/workspace/workspace.c:1464-1471 | For a USER without '$' and a home directory that starts outside the marker's letters, a place admits the marker if and only if "$HOME" agrees there and the pattern put there is the first occurrence. |
| Redact.PlainHomeIsNotMade | src/workspace/workspace.c:1464-1471 | No place of an absolute path without '$' admits the marker. |
| Redact.HomeComesBack | src/workspace/workspace.c:1446-1473 | With HOME="/a$HOME" and USER="x" the line "/a/home/x" becomes the home directory. |
| Redact.RedactionIsComplete | src/workspace/workspace.c:1446-1473 | The result does not hold "/home/USER", for any USER, nor the home directory under that condition. |
| Redact.SanitizeLine | src/workspace/workspace.c:1446-1473 | Whenever the loops end, they leave the redacted text in place if and only if the line fits its buffer after the first; where it does not, a write runs past the buffer or takes its terminator. |
| Redact.ReplaceOnce | src/workspace/workspace.c:1454-1457 | One memmove, in either direction, and a memcpy replace one occurrence when the result fits. |
| Locale.MappedBack | src/locale/locale.c:135-151 | Each byte's code point is decoded as that byte wherever the two directions agree on the page. |
| Locale.EncodedIsWellFormed | src/locale/locale.c:115-173 | The encoder's output is well-formed by section 4 of RFC 3629 for any bytes. |
| Locale.DecodeOfEncoded | src/locale/locale.c:153-238 | Decoding what was encoded gives the bytes back wherever the two directions agree on the page. |
| Locale.RoundTripIff | src/locale/locale.c:153-238 | Through NUL-terminated text it does so, on such a page, if and only if there is no zero byte. |
| Locale.AlwaysRoundTripsIff | src/locale/locale.c:135-189 | For every code page argument and locale: all byte strings without a zero byte round-trip if and only if the argument is not the active page with UTF-8 behind it, nor reaches Windows-1252 as the OEM page. |
| Locale.EuroIsLost | src/locale/locale.c:180-189 | Where they do not agree, the byte 0x80 does not come back. |
| Locale.Utf8Spells | src/locale/locale.c:115-133 | The bytes written for a code point spell it by section 3 of RFC 3629. |
| Locale.CodePoints | src/locale/locale.c:135-151 | Every byte has its own value as code point, but for 27 bytes of Windows-1252, whose characters lie outside Latin-1. |
| Locale.LeadIs | src/locale/locale.c:190-220 | On any text the decoder takes a lead byte and the low six bits of the one or two bytes behind it, and makes '?' of any other byte from 0x80 on. |
| Locale.OutsideLatin1 | src/locale/locale.c:221-231 | A character outside Latin-1 becomes the Windows-1252 byte that has it. |
| Locale.NotOnPage | src/locale/locale.c:221-234 | A character no byte of the page has becomes '?'. |
| Locale.Utf8Put | src/locale/locale.c:115-133 | Writes the one- to three-byte form, or reports cap exactly when it and a terminator do not fit. |
| Locale.CpToUtf8 | src/locale/locale.c:153-173 | -1 exactly when the encoding and its terminator do not fit; otherwise the encoding, its length, and nothing written past the buffer. |
| Locale.Utf8ToCp | src/locale/locale.c:175-238 | Reads up to the terminator, writes at most cap bytes: the decoding, cut to the buffer, and a terminator. |
| Database.PutKeepsKeyed | src/db/db.c:107-128 | No two entries ever have names equal up to case. |
| Database.SameNameIff | src/db/db.c:107-139 | Names are compared letter by letter in either case. |
| Database.FindAfterPut | src/db/db.c:107-139 | Find returns the entry just put under a name, and is unchanged for every other name. |
| Database.FindReturnsLastPut | src/db/db.c:107-139 | After any puts find returns the last one under the name, or nothing. |
| Database.CleanRoundTrip | src/db/db.c:30-189 | Opening what save wrote rebuilds clean entries in order. |
| Database.SaveOpenRoundTripIff | src/db/db.c:30-189 | For a keyed table of entries that fit, it does so if and only if they are clean. |
| Database.LoadedIsClean | src/db/db.c:30-97 | Whatever the file, the loaded entries are clean. |
| Database.LoadedFits | src/db/db.c:30-97 | Whatever the file, the loaded strings fit their fields: the name 127 characters, the texts 15 or 31, eight issues 159 each. |
| Database.PiecesAre | src/db/db.c:46-47 | What one fgets after the other delivers is ended by its only newline, full with 511 characters, or last. |
| Database.PiecesJoin | src/db/db.c:46-47 | Together the pieces are the file. |
| Database.FgetsLinesAre | src/db/db.c:46-49 | The lines handled are those pieces up to the newline or a NUL. |
| Database.OnlyKeys | src/db/db.c:70-92 | A line with any key but the eight known ones is skipped. |
| Database.Db.Open | src/db/db.c:30-97 | The line loop loads the specified table. |
| Database.Db.PutEntry | src/db/db.c:107-128 | The array holds the table with the entry replaced in place or appended, also when it grows. |
| Database.Db.FindEntry | src/db/db.c:130-139 | The scan returns the entry of the table. |
| Database.Db.Save | src/db/db.c:153-189 | The loops write the specified text. |
| FrameTime.FrameTimes.Add | src/timer/timer.c:69-77 | The circular buffer holds the last min(k, 240) durations, oldest first. |
| FrameTime.FrameTimes.Report | src/timer/timer.c:90-135 | The sorted array is the window's ascending permutation, the maximum its true maximum, and the low value stands at the low index. |
| FrameTime.SumIs | src/timer/timer.c:98-110 | The sum over a window is additive and the duration itself for one frame. |
| FrameTime.InsertionSort | src/timer/timer.c:112-120 | The in-place sort yields an ascending permutation. |
| FrameTime.LowIndexRank | src/timer/timer.c:124-129 | The index is floor(99 n / 100) - 1 from two frames on, and 0 for one. |
| FrameTime.LowIsRecorded | src/timer/timer.c:124-130 | The 1% low is a recorded duration with at least floor(99 n / 100) of the n frames at or below it. |
| Compat.ClassifyIgnoresCase | src/compat/compat.c:68-122 | The category of an import does not depend on the case of its DLL's name. |
| Compat.FirstTableDecides | src/compat/compat.c:106-122 | The first table with a prefix of the DLL's name decides the category; kernel functions are told apart by thread names first, then file names; without a table the import is not scored. |
| Compat.HasPrefixIff | src/compat/compat.c:68-80 | A prefix is compared letter by letter in either case. |
| Compat.ContainsAnyIff | src/compat/compat.c:87-104 | A function's name is matched by each of the parts it contains. |
| Compat.TotalsAddUp | src/compat/compat.c:215-248 | The category totals add up to the classified imports. |
| Compat.ReportCounts | src/compat/compat.c:215-248 | The reported totals are, category by category in the header's numbering, the numbers of imports classified so and of those that are exported by name. |
| Compat.PercentExactIff | src/compat/compat.c:237-247 | The 32-bit percentage is the true floored one if and only if the product does not wrap. |
| Compat.CategoryLaws | src/compat/compat.c:232-241 | Below 2^32 / 100 imports each percentage is -1 for an empty category and the floored one in 0..100 otherwise. |
| Compat.ScoreLaws | src/compat/compat.c:180-248 | Totals add up, missing functions number min(64, total - supported), and the overall percentage is the floored one in 0..100. |
| Compat.OverallBetween | src/compat/compat.c:232-248 | The overall percentage lies within any bounds on the non-empty categories' percentages, despite the floored divisions. |
| Compat.Analyze | src/compat/compat.c:215-248 | The counting and percentage loops compute the specified scores in 32-bit arithmetic. |

## Left out

- Weak memory and compiler reordering around the ring: the counters are only volatile in the code, and the step model is sequentially consistent.
- Ring.ByteRing.Create: requests above 2^63, for which the doubling loop never ends, are excluded by its precondition and treated by `RoundUpEndsIff`.
- Progress of the futex primitives under contention: for the mutex it is proved when a sleeper is forgotten, for the semaphore, whose waiter can sleep on a positive count (`SleepsOnPositive`), only safety and undisturbed calls. The event, which is never reset by a wait, is not modelled.
- Loader.Image.MapSections: sections whose raw data runs past the end of the file, which the code copies all the same, are excluded by `CopiesInFile`.
- Loader.Image.ParseImports: a thunk read across the end of the image, which the code does not check, is an outcome of its own; `resolved` pointers, tracing and a failing realloc are not modelled, nor are images of 4 GiB or more.
- PE header parsing, exports, relocations and the prefault option.
- ShaderCache.Cache.Insert: write errors are not modelled; the host is little-endian, as the lookup's direct read of the key requires.
- Directory walks: the archive takes the files in some order as given, without empty directories, file modes or links, and each file opens; path buffers are large enough.
- Archive.Bottle.RestoreFrom: files are keyed by the bytes of their path, so spellings of one path ("a//b", "./a/b"), which no walk produces, stay apart; a failing malloc and a path that names a directory of the bottle are not modelled.
- Bottle names, root directories and the existence check in front of the settings operations.
- Snapshots.RollbackRestores: labels are single path components; a rollback label or profile label with '/', which the code follows as a path, is not modelled.
- Snapshots.ApplyProfile: the record with the profile's settings merged in is a parameter, so the result holds for every merge; scanning the resolution text is not modelled.
- Workspace paths: truncation of long paths to their buffers, and deriving an empty path from the root directory.
- Redact.SanitizeLine: a HOME inside "$HOME" on a line that holds it, for which the first loop never ends (`StopsIff`), is excluded by its precondition.
- Redact.HomeRemovedIff: where HOME and USER both hold '$' and "/home/USER", cut to its buffer, ends in one of the letters H, O, M and E (`PlainEnd`), only that the condition suffices is claimed (`RedactionIsComplete`).
- Locale.CpToUtf8: results are unbounded integers, so lengths of 2^31 and more, which the cast to int would wrap, are not modelled; lazy initialisation of the locale appears as the pair of default pages.
- Database.Db.PutEntry: realloc succeeds. The path checks and directory creation of save are not modelled.
- FrameTime.FrameTimes.Report: durations stay integer nanoseconds; the floating-point means, frame rates and millisecond scaling are not modelled, nor are the wait fields.
- Compat.Analyze: detected technologies, issues and recommendations, and the texts of the missing entries, are not modelled.
- I/O failures, clocks, signals, the command line, report printers, Win32 stubs, display, device, notification and service code.
