# Verified models of iSulad's algorithms

iSulad is a container engine written in C and C++. Most of it moves data between daemons, runtimes
and the kernel; this project models the parts that are algorithms of their own and proves what they
promise. Each file holds one of them, in the form the code has: classes with mutable fields where
the code has objects, loops over arrays where it works in place, and a state machine for the lock.

| file | subject |
|---|---|
| Common.dfy | options, size limits and facts about sequences that the others share |
| ReadWriteLock.dfy | the writer-preferring read-write lock, over all interleavings of any number of threads |
| Paths.dfy, CleanPath.dfy | paths as stacks of names; cleaning a path inside a fixed buffer |
| SymlinkScope.dfy | following symbolic links without leaving a root directory |
| LogCache.dfy | the line cache in front of a container's log |
| LogRotation.dfy | rotation of the log files, with failing renames |
| UrlEscape.dfy | percent-encoding and the path of a URL object |
| Wildcard.dfy | wildcards translated to extended regular expressions |
| DirSize.dfy, DirCopy.dfy | directory walks that remember files in maps with keys of type int |
| HandlerRing.dfy | the event loop's handlers, a circular doubly linked list |
| TagTemplate.dfy | the growable buffer and the expansion of log tags |

`dafny verify dfyconfig.toml` checks everything.

## How to read it

In each file the specification comes first: functions on values that say what the code is for,
without positions, buffers or counters. Lemmas then prove the promises about these functions, and
the methods, which follow the code, are proved to compute them.

Main results:

- The lock (`EveryRunIsSafe`, `NoLostWakeup`, `ReadersOnlyDrain`, `EveryoneIsServed`): on every
  run, with spurious wake-ups and whatever waiter `notify_one` picks, holders exclude each other,
  the counters are exact, a free lock with waiters has an awake waiter whose next step takes it, and no
  reader gets in while a writer waits. Once nobody arrives, every run ends, however it is scheduled,
  with every waiter served and the lock empty. Who gets in and who is woken is stated by what the other
  threads are doing (`ReaderGetsInExactly`, `WriterGetsInExactly`, `UnlockWakesExactly`, `ReadersShare`).
- Path cleaning (`UtilCleanPath`, `CleanedFixesCanonical`): the in-place algorithm is the fold of
  the pieces over a stack; it fixes exactly the canonical paths that fit, so cleaning is idempotent.
- Links (`Walk`, `FollowedStaysInScope`, `LooksOnlyBelowRoot`, `FollowedAgain`): the walk is a
  resolver over lists of names; whatever the links say it stays in the root, never looks outside it,
  leaves no link behind, and stops on cyclic links too. Its output never outgrows a buffer that is
  enlarged at most once, so the enlargement, which copies only PATH_MAX bytes, loses nothing.
- The log (`RunIsFaithful`, `ChunkingIsIrrelevant`, `ReadBoundIsExact`, `FilesAreGenerations`,
  `FailuresKeepOrder`, `WrittenAreTaken`, `SizeLimitExact`): the records sent are the records of the
  stream however it is cut into reads; the files are the last generations of a greedy packing;
  whatever renames and reopenings fail, the files hold a suffix of the records the log took.
- Encoding (`EscapeRoundTrip`, `SpellingRemembered`): decoding the encoding is the identity exactly
  where every byte survives, which is everywhere outside host and zone names.
- Translation (`TranslationPreservesMeaning`, `SizeIsExact`): the produced expression matches exactly
  what the wildcard matches if and only if the wildcard has no angle bracket, and it fills its buffer
  to the last cell.
- Trees (`DirSizeWithoutHardlink`, `SizeExact`, `OrderIsIrrelevant`, `CopyTree`): what the walks count,
  link and copy is stated for every tree, and that this is what the tree holds, and does not depend on
  the order of listing, is equivalent to conditions on the keys of its files.
- Tags (`ParseSyslogTag`, `ParsedIsExpansion`): for every allocator the in-place expansion answers
  with the expansion of the tag exactly when the buffer can hold its pieces one after the other, and
  it can wherever the allocator grants twice the size of the text.

Promises that turned out to hold only under a condition:

- A path is accepted by the scope test when the root's text occurs anywhere in it, so "/homeless"
  passes for the root "/home" (`SiblingIsAccepted`). The result still lies in the root; it belongs to
  the path that was asked for exactly when the root's names are a prefix of the path's
  (`ScopeTestExact`).
- A result is followed to itself exactly when it is a canonical path shorter than PATH_MAX
  (`FollowedAgain`). A path that resolves to the root comes back with a trailing slash, which the next
  call removes (`TrailingSlashIsLost`), and longer results are refused by the next call.
- The comment on the log cache asks for a cache larger than a read. That is not enough: the cache
  stays below its size on every run if and only if twice the largest read is at most the cache's
  size plus one (`ReadBoundIsExact`). The sizes in use satisfy it (`ShimNeverOverflows`).
- The code does not look at the result of renaming the log itself. A write breaks the size limit
  exactly when the log is open and not empty, the record does not fit, the archives shift, the rename
  of the log fails, and reopening it succeeds (`SizeLimitExact`, with `KeepsFullLog` as the condition).
- A log that could not be reopened during a rotation takes no record any more (`ClosedForGood`).
- An escaped angle bracket is the edge of a word, not a character, so a translated wildcard means what
  it should exactly when it has no angle bracket (`TranslationPreservesMeaning`).
- After setting a URL path the object answers with the same text exactly when the text is a valid
  encoded path other than "%2A" (`SpellingRemembered`).
- Adding a registered descriptor to the event loop removes it from the interest set but not from the
  ring; the two agree afterwards exactly when the descriptor was not registered
  (`AddMirrorsExactly`).
- The maps of the directory walks have keys of type int, which hold the low half of an inode number and
  nothing of the device. Files with the same key count as one: number and size are those of the files
  exactly when no two files have the same key (`DirSizeWithoutHardlink`, `SizeExact`), as inode numbers 1
  and 2^32 + 1 have (`CollisionCountsOnce`) and files of one device with numbers below 2^32 have not
  (`SmallKeysDiffer`), and only then is the size independent of the order of
  listing (`OrderIsIrrelevant`).
- The copy of a tree links different files that have the same key and link counts above one, and the
  later ones lose their contents (`DifferentFilesAreLinked`). Links are right exactly when there are no
  such files, contents exactly when such files have equal contents, and the source's hard links are
  kept exactly when, besides, every file met twice reports a link count above one (`CopyTree`); a file
  with two names and a count of one becomes two files (`UnreportedLinkIsLost`).
- In host and zone names the decoder refuses bytes outside ASCII exactly where `char` is signed
  (`SignMatters`).
- An empty log tag is an error, although its expansion would be empty (`ParseSyslogTag`).

The outside world enters as parameters: the file system as a function from paths to link targets,
the current directory, which renames and allocations fail, the item parser of a tag, inode tables, and
whether `char` is signed. `lstat` fails on paths of PATH_MAX characters or more. A C string is modelled by the characters before its terminator.

## Model

| member | source | states |
|---|---|---|
| ReadWriteLock.RWMutex.constructor | src/utils/cpputils/read_write_lock.h:35-40 | a new lock is free, nobody waits, and the invariant holds |
| ReadWriteLock.RWMutex.RdLock | src/utils/cpputils/read_write_lock.cc:18-27 | entering as a reader is one step of the protocol and keeps its invariant |
| ReadWriteLock.RWMutex.RdRecheck | src/utils/cpputils/read_write_lock.cc:22-26 | a woken reader's test of its predicate is one step and keeps the invariant |
| ReadWriteLock.RWMutex.WrLock | src/utils/cpputils/read_write_lock.cc:29-38 | entering as a writer is one step of the protocol and keeps its invariant |
| ReadWriteLock.RWMutex.WrRecheck | src/utils/cpputils/read_write_lock.cc:33-37 | a woken writer's test of its predicate is one step and keeps the invariant |
| ReadWriteLock.RWMutex.Unlock | src/utils/cpputils/read_write_lock.cc:40-59 | a holder's unlock is one step, with any sleeping writer or all sleeping readers woken, and keeps the invariant |
| ReadWriteLock.StepKeepsInv | src/utils/cpputils/read_write_lock.cc:18-59 | every step of any thread, spurious wake-ups and barging included, keeps exclusion, exact counters and the wake-up invariant |
| ReadWriteLock.EveryRunIsSafe | src/utils/cpputils/read_write_lock.cc:18-59 | the invariant holds in every state of every run from a free lock |
| ReadWriteLock.MutualExclusion | src/utils/cpputils/read_write_lock.cc:18-59 | on every run a writer in the lock is there alone |
| ReadWriteLock.ReaderGetsInExactly | src/utils/cpputils/read_write_lock.cc:18-27 | an entering or woken reader gets in if and only if no writer waits and none is in, and sleeps otherwise; no other thread changes |
| ReadWriteLock.WriterGetsInExactly | src/utils/cpputils/read_write_lock.cc:29-38 | an entering or woken writer gets in if and only if nobody is in, and sleeps otherwise |
| ReadWriteLock.UnlockWakesExactly | src/utils/cpputils/read_write_lock.cc:40-59 | an unlock wakes all sleeping readers if no writer waits, one sleeping writer when the last holder leaves, and nobody else |
| ReadWriteLock.ReadersShare | src/utils/cpputils/read_write_lock.cc:22-26 | any number of threads can be made to read at once, each entering while the others read |
| ReadWriteLock.NoLostWakeup | src/utils/cpputils/read_write_lock.cc:22-58 | whenever nobody holds the lock and somebody waits, some waiter is awake with its predicate true and its next step takes the lock |
| ReadWriteLock.ReadersOnlyDrain | src/utils/cpputils/read_write_lock.cc:22-34 | while a writer waits the set and the number of readers in the lock only shrink |
| ReadWriteLock.EveryoneCanBeServed | src/utils/cpputils/read_write_lock.cc:18-59 | from every reachable state some run without new arrivals serves every waiter and empties the lock |
| ReadWriteLock.QuietRunsEnd | src/utils/cpputils/read_write_lock.cc:18-59 | every run without arrivals and spurious wake-ups is bounded by pending work and awake waiters |
| ReadWriteLock.StuckExactly | src/utils/cpputils/read_write_lock.cc:18-59 | a thread in or awake can take a step if and only if somebody waits or holds the lock |
| ReadWriteLock.EveryoneIsServed | src/utils/cpputils/read_write_lock.cc:18-59 | whatever the schedule, a run without arrivals that cannot go on has served every waiter and emptied the lock |
| CleanPath.UtilCleanPath | src/utils/cutils/path.c:93-145 | the buffer ends up holding the cleaned path and its terminator; a missing or short buffer and an empty path fail; beyond PATH_MAX only zeroes are written |
| CleanPath.CleanInto | src/utils/cutils/path.c:104-144 | the cleaned path of an absolute path, or of a relative one below the current directory, is computed in place |
| CleanPath.DoCleanPath | src/utils/cutils/path.c:53-91 | the loop computes the bounded fold of the path's pieces and fails exactly when the fold does, writing only below PATH_MAX |
| CleanPath.CleanContinue | src/utils/cutils/path.c:35-51 | exactly the segments "." and ".." are handled, and the buffer then spells the stack left or popped |
| CleanPath.ScanBack | src/utils/cutils/path.c:41-47 | the backward scan drops exactly the last name and never passes the root's slash |
| CleanPath.AppendSegment | src/utils/cutils/path.c:72-87 | the buffer spells the grown stack, or the grown path has no room for its terminator |
| CleanPath.BoundedIsFold | src/utils/cutils/path.c:58-90 | where the length bound does not strike, the result is the plain fold: drop empty and ".", pop on "..", clamp at the root |
| CleanPath.RefusedExactly | src/utils/cutils/path.c:76-83 | cleaning fails exactly when the stack after some prefix of the pieces is too long |
| CleanPath.CleanedIsCanonical | src/utils/cutils/path.c:93-145 | every cleaned path has a leading slash, no empty, "." or ".." piece, no trailing slash but the root's, and fits |
| CleanPath.CleanedFixesCanonical | src/utils/cutils/path.c:93-145 | a path is its own cleaning if and only if it is canonical and fits; cleaning is idempotent |
| CleanPath.ShortAbsoluteIsAccepted | src/utils/cutils/path.c:76-83 | no absolute path shorter than PATH_MAX is refused |
| CleanPath.RelativeIsAccepted | src/utils/cutils/path.c:120-123 | a relative path is refused if and only if it and the current directory have 4095 characters or more; otherwise it is folded onto the current directory |
| CleanPath.RefusedUpFront | src/utils/cutils/path.c:100-119 | an empty path, and a relative one without a current directory, are refused |
| CleanPath.ParentIsCleaned | src/utils/cutils/path.c:35-51 | "/n/.." in a path leaves no trace |
| CleanPath.RootParentIsCleaned | src/utils/cutils/path.c:41-47 | ".." at the front of a path leaves no trace |
| Paths.ParentUndoesName | src/utils/cutils/path.c:39-47 | two dots undo the name before them, wherever they stand |
| Paths.RootIsItsParent | src/utils/cutils/path.c:41-47 | two dots at the root do nothing |
| Paths.RenderRoundTrip | src/utils/cutils/path.c:58-90 | reading back the text of a stack of names gives the stack |
| Paths.CanonicalRoundTrip | src/utils/cutils/path.c:58-90 | a canonical path is the text of its names |
| SymlinkScope.FollowSymlinkInScope | src/utils/cutils/path.c:421-441 | both paths are cleaned and the result is that of the scoped resolution, shorter than twice PATH_MAX; any failure gives no path |
| SymlinkScope.EvalSymlinksInScope | src/utils/cutils/path.c:352-419 | the result is the root itself, nothing for a path without the root's text, or the resolution of the text behind the prefix |
| SymlinkScope.Walk | src/utils/cutils/path.c:303-350 | the walk over texts succeeds exactly when the resolver over names does and spells its result below the root, inside its buffer; the characters it scans are those the resolver consumes |
| SymlinkScope.ConsumedIsBounded | src/utils/cutils/path.c:303-350 | the resolver consumes at most the text and PATH_MAX characters for each link it may still follow |
| SymlinkScope.WalkSegment | src/utils/cutils/path.c:314-345 | one segment has the effect of one resolver step on stack, remaining text and links followed |
| SymlinkScope.VisitSegment | src/utils/cutils/path.c:317-338 | dots move in the output, a name is appended and looked up under the root |
| SymlinkScope.PathRealloc | src/utils/cutils/path.c:147-182 | there is room for the segment and its terminator afterwards; an enlarged buffer keeps the first PATH_MAX bytes |
| SymlinkScope.AppendName | src/utils/cutils/path.c:322-334 | the output spells the grown stack: no enlargement loses a byte or is needed a second time |
| SymlinkScope.FollowLink | src/utils/cutils/path.c:202-253 | it fails exactly on too many links, an unreadable link or a text too long; else the target and the rest are the new text and the output spells the stack to continue from |
| SymlinkScope.Redirect | src/utils/cutils/path.c:184-200 | an absolute target restarts at the root, a relative one at the directory of the link |
| SymlinkScope.PopLast | src/utils/cutils/path.c:279-286 | two dots drop the last name and stop at the root |
| SymlinkScope.ResolveSegment | src/utils/cutils/path.c:202-253 | splicing a link's text in front of the rest is splicing its pieces; too many links, unreadable links and texts too long end the resolution |
| SymlinkScope.FollowedStaysInScope | src/utils/cutils/path.c:352-419 | for every file system and every path the result is the root or lies below it |
| SymlinkScope.LooksOnlyBelowRoot | src/utils/cutils/path.c:332-340 | file systems that agree below the root give the same result: no step looks elsewhere |
| SymlinkScope.ResolvedIsLinkFree | src/utils/cutils/path.c:303-350 | no directory on the way to a result, nor the result, is a link |
| SymlinkScope.ResolveIdempotent | src/utils/cutils/path.c:303-350 | a result resolves to itself |
| SymlinkScope.LinkIsSpliced | src/utils/cutils/path.c:184-253 | a link is replaced by the text that was read, from the root if it starts with a slash and from the link's directory otherwise, or ends the walk if the text is too long |
| SymlinkScope.BadLinkFails | src/utils/cutils/path.c:210-227 | a link that cannot be read, or one too many, ends the walk |
| SymlinkScope.ChainIsFollowed | src/utils/cutils/path.c:210-213 | a chain of links is followed to its end if and only if it has at most twenty links |
| SymlinkScope.SelfLinkFails | src/utils/cutils/path.c:210-213 | a link to itself is never followed to an end |
| SymlinkScope.RelativeLinkBelowRoot | src/utils/cutils/path.c:192-198 | a relative link in a directory below the root leads on from that directory |
| SymlinkScope.AbsoluteLinkBelowRoot | src/utils/cutils/path.c:186-191 | an absolute link in a directory below the root leads on from the root |
| SymlinkScope.AcceptedExactly | src/utils/cutils/path.c:372-397 | without links a path is accepted if and only if it is the root, or has the root's text anywhere in it and the root is shorter than 4095 characters |
| SymlinkScope.FollowedAgain | src/utils/cutils/path.c:421-441 | for every path and root a result is followed to itself if and only if it is canonical and shorter than PATH_MAX |
| SymlinkScope.TrailingSlashIsLost | src/utils/cutils/path.c:410-413 | a name linked to "/" is followed to the root with a trailing slash, and that to the root without it |
| SymlinkScope.FollowedResolvesNames | src/utils/cutils/path.c:376-414 | for a path below the root name by name the result is the resolution of its own names |
| SymlinkScope.ScopeTestExact | src/utils/cutils/path.c:376-379 | without links a path that passes the scope test comes back unchanged if and only if the root's names are a prefix of its names |
| SymlinkScope.SiblingIsAccepted | src/utils/cutils/path.c:376-379 | a sibling whose name starts with the root's text passes the test and is resolved as a path below the root |
| LogCache.LineCache.constructor | src/cmd/isulad-shim/terminal.c:262-266 | a new cache is empty and valid |
| LogCache.LineCache.WriteLog | src/cmd/isulad-shim/terminal.c:269-343 | a call with a bounded read never overflows the cache, keeps its invariant and does what the specification of a call says |
| LogCache.LineCache.TakeIn | src/cmd/isulad-shim/terminal.c:297-310 | as much of the read as fits is put behind the cached bytes |
| LogCache.LineCache.SendAndShift | src/cmd/isulad-shim/terminal.c:316-337 | lines leave in order, a full cache without newline leaves whole, the rest moves to the front |
| LogCache.ScanLines | src/cmd/isulad-shim/terminal.c:316-321 | the scan finds exactly the lines and where the last one ends |
| LogCache.WriteKeepsInv | src/cmd/isulad-shim/terminal.c:297-342 | newlines stay within the last read's length and the leftover of the read fits in the space freed |
| LogCache.WriteAdvances | src/cmd/isulad-shim/terminal.c:297-342 | records sent and records still cached stay the records of the stream |
| LogCache.LinesLeaveAtOnce | src/cmd/isulad-shim/terminal.c:316-342 | what a call keeps has no newline and is shorter than the cache, but for the bytes that did not fit |
| LogCache.RecordsConserve | src/cmd/isulad-shim/terminal.c:316-342 | the records of a stream and its leftover are the stream |
| LogCache.LeftoverIsShort | src/cmd/isulad-shim/terminal.c:316-328 | the leftover of a stream is newline-free and shorter than the cache |
| LogCache.RecordsAreRecords | src/cmd/isulad-shim/terminal.c:316-328 | a record ends in its only newline or is a newline-free chunk of exactly the cache's size |
| LogCache.RunIsFaithful | src/cmd/isulad-shim/terminal.c:269-343 | on every run of bounded reads the cache stays below its size and the records sent, followed by those cached, are the records of everything read |
| LogCache.RunConserves | src/cmd/isulad-shim/terminal.c:269-343 | bytes sent followed by the cache are the bytes read, in order, and everything sent is a record |
| LogCache.ChunkingIsIrrelevant | src/cmd/isulad-shim/terminal.c:297-342 | the same bytes cut into reads differently give the same records |
| LogCache.ShimNeverOverflows | src/cmd/isulad-shim/process.c:44 | with the shim's sizes no run of reads overflows the cache or loses a byte |
| LogCache.FullCacheLosesRead | src/cmd/isulad-shim/terminal.c:298-309 | a read that meets a full cache is lost entirely |
| LogCache.ReadBoundIsExact | src/cmd/isulad-shim/terminal.c:262-264 | the cache stays below its size on every run if and only if twice the largest read is at most its size plus one |
| LogRotation.SetUp | src/cmd/isulad-shim/process.c:826-845 | there is a terminal unless a log that has a path cannot be opened, and it starts with the files left from before |
| LogRotation.LogTerminal.constructor | src/cmd/isulad-shim/process.c:826-845 | without a log path the log is closed; with one it is open, empty or with what an existing log holds; files left from before are in order |
| LogRotation.LogTerminal.RenameOldLogFiles | src/cmd/isulad-shim/terminal.c:39-70 | the rename loop performs the shift of the archives, stopping at the first failure |
| LogRotation.LogTerminal.DumpLogFile | src/cmd/isulad-shim/terminal.c:72-111 | archives shift, the log becomes archive 1, and a log is opened again |
| LogRotation.LogTerminal.JsonDataWrite | src/cmd/isulad-shim/terminal.c:130-174 | a record is appended, or written cut to the limit after a rotation, and files in order stay in order |
| LogRotation.PackIsFaithful | src/cmd/isulad-shim/terminal.c:146-163 | the greedy packing keeps every record in order, cut to the limit, and no generation outgrows it |
| LogRotation.PackIsGreedy | src/cmd/isulad-shim/terminal.c:146-150 | a new generation starts only with a record that would have outgrown the one before or is as long as a whole file |
| LogRotation.CutKeepsFront | src/cmd/isulad-shim/terminal.c:157-163 | a record keeps its first bytes, up to the limit |
| LogRotation.ShiftFailsExactly | src/cmd/isulad-shim/terminal.c:46-66 | the shift fails if and only if a rename fails although its source exists |
| LogRotation.FilesAreGenerations | src/cmd/isulad-shim/terminal.c:39-174 | on every run without failures file i is the generation i before the last, for exactly the archives configured |
| LogRotation.FilesStaySmall | src/cmd/isulad-shim/terminal.c:39-174 | on every run without failures files stay within the limit and no further archive exists |
| LogRotation.FilesHoldSuffix | src/cmd/isulad-shim/terminal.c:39-174 | archives oldest to newest and the log hold a record-aligned suffix of the records, all of them while they fit |
| LogRotation.FailuresKeepOrder | src/cmd/isulad-shim/terminal.c:61-107 | whatever renames and reopenings fail, the files hold a suffix of the records written, in order |
| LogRotation.WrittenAreTaken | src/cmd/isulad-shim/terminal.c:130-174 | on every run the records written are those that found the log open and fitted or were rotated for, cut to the limit, in order |
| LogRotation.ClosedForGood | src/cmd/isulad-shim/terminal.c:250-252 | once the log could not be reopened no later record changes the files |
| LogRotation.SizeLimitExact | src/cmd/isulad-shim/terminal.c:104-107 | the limit survives a write if and only if the write does not append to a nonempty log that could not be renamed away |
| UrlEscape.Escape | src/utils/cpputils/url.cc:220-256 | counting, early return and filling pass together give the one-pass encoding |
| UrlEscape.FillEscaped | src/utils/cpputils/url.cc:239-255 | the string of the predicted length is filled from its first to its last cell |
| UrlEscape.EncodedLength | src/utils/cpputils/url.cc:222-240 | the count predicts the exact length |
| UrlEscape.NothingToEscape | src/utils/cpputils/url.cc:235-237 | the early return agrees with the loop |
| UrlEscape.CheckEscape | src/utils/cpputils/url.cc:105-134 | an escape is accepted exactly when it is complete, hexadecimal and allowed in the mode |
| UrlEscape.CalculatePercentNum | src/utils/cpputils/url.cc:136-165 | the count fails exactly on malformed input, predicts the exact length, and licenses the early return |
| UrlEscape.DoUnescape | src/utils/cpputils/url.cc:167-195 | the string of the predicted length is filled with the decoding |
| UrlEscape.Unescape | src/utils/cpputils/url.cc:197-213 | both passes and the early return give the one-pass decoding, the empty string on malformed input |
| UrlEscape.SignMatters | src/utils/cpputils/url.cc:156-160 | with signed characters the decoder refuses non-ASCII bytes in host and zone names, and there is no other difference |
| UrlEscape.EscapeRoundTrip | src/utils/cpputils/url.cc:74-256 | decoding the encoding gives the string back if every byte survives in the mode and is refused otherwise |
| UrlEscape.EscapeRoundTripAllBytes | src/utils/cpputils/url.cc:105-256 | in the path, path-segment, user-password, query and fragment modes escaping then unescaping is the identity on all byte strings |
| UrlEscape.NameRoundTripExact | src/utils/cpputils/url.cc:119-132 | in host and zone names exactly the strings of surviving bytes come back |
| UrlEscape.EscapeStandsFor | src/utils/cpputils/url.cc:105-134 | an escape in digits of either case stands for the byte of its value, in every mode, or is refused where a host or zone name may not contain that byte |
| UrlEscape.CaseIsIrrelevant | src/utils/cpputils/url.cc:167-195 | decoding does not depend on the case of the digits of an escape, wherever it stands |
| UrlEscape.MalformedIsRefused | src/utils/cpputils/url.cc:107-114 | a percent sign without two digits behind it gives the empty string |
| UrlEscape.RawByte | src/utils/cpputils/url.cc:140-162 | a plus sign of a query stands for the space and any other byte for itself, in host and zone names if and only if it need not be escaped, or is outside ASCII and characters are unsigned |
| UrlEscape.EscapeByteExactly | src/utils/cpputils/url.cc:239-255 | the encoder writes a plus sign for the space of a query, plain bytes as they are, and upper-case escapes otherwise |
| UrlEscape.UnreservedExactly | src/utils/cpputils/url.cc:41-98 | the characters that are never escaped besides those of the mode are letters, digits and four marks |
| UrlEscape.EscapesExactly | src/utils/cpputils/url.cc:41-98 | in each mode exactly the bytes that are neither unreserved nor in the mode's list are escaped |
| UrlEscape.EncodedAlphabet | src/utils/cpputils/url.cc:220-256 | an encoded string consists of unreserved characters, percent signs and the characters its mode lists |
| UrlEscape.ValidEncodedPath | src/utils/cpputils/url.cc:526-538 | a path is valid exactly when each byte is a delimiter or needs no escape |
| UrlEscape.ValidPathBytes | src/utils/cpputils/url.cc:526-538 | a path is valid if and only if it consists of unreserved characters, sub-delimiters and the characters ":@/[]%" |
| UrlEscape.EncodedIsValid | src/utils/cpputils/url.cc:526-538 | what the encoder writes is a valid encoded path |
| UrlEscape.URLDatum.SetPath | src/utils/cpputils/url.cc:774-784 | the decoded path and, unless it is the encoder's own, the spelling are stored; an undecodable path changes nothing |
| UrlEscape.StoredExactly | src/utils/cpputils/url.cc:774-784 | a path is stored if and only if it is not empty and can be decoded |
| UrlEscape.URLDatum.EscapedPath | src/utils/cpputils/url.cc:786-798 | the answer decodes to the stored path |
| UrlEscape.SpellingDecodes | src/utils/cpputils/url.cc:786-798 | in every state of the two fields the answer decodes to the stored path |
| UrlEscape.SpellingRemembered | src/utils/cpputils/url.cc:774-798 | after a successful SetPath(p) the answer is p if and only if p is a valid encoded path other than "%2A" |
| Wildcard.WildcardToRegex | src/utils/cutils/utils_regex.c:93-140 | the buffer is filled to its last cell with the translation and its terminator, unless the allocation is refused |
| Wildcard.RegexSize | src/utils/cutils/utils_regex.c:69-91 | the precomputed size is the number of characters written with the terminator, and the overflow tests never fire |
| Wildcard.StringsCount | src/utils/cutils/utils_string.c:86-103 | the number of occurrences |
| Wildcard.PutChar | src/utils/cutils/utils_regex.c:114-134 | one wildcard character's translation is appended |
| Wildcard.ParseTranslation | src/utils/cutils/utils_regex.c:112-137 | the produced text parses, as an extended regular expression, to one token per wildcard character between anchors |
| Wildcard.TranslatedExactly | src/utils/cutils/utils_regex.c:113-134 | the text of one character: the special ones, brackets and angle brackets escaped, the two wildcards expanded, others as they are |
| Wildcard.TranslationPreservesMeaning | src/utils/cutils/utils_regex.c:93-140 | the produced expression matches exactly the subjects the wildcard matches, if and only if the wildcard has no angle bracket |
| Wildcard.Disagreement | src/utils/cutils/utils_regex.c:98 | for every wildcard with an angle bracket a subject on which the two disagree |
| Wildcard.AngleIsWordEdge | src/utils/cutils/utils_regex.c:98 | before and behind a word of one character an angle bracket matches nothing, and it does not match itself |
| Wildcard.SizeIsExact | src/utils/cutils/utils_regex.c:88-89 | escapes counted character by character, stars, length, anchors and terminator add up to the length written |
| DirSize.DirSizeWithoutHardlink | src/utils/cutils/utils_file.c:1357-1390 | of the files met the first with each key counts; the number is that of the files if and only if no two have the same key, and then the size is their sum; both hold for a tree on one device with inode numbers below 2^32 |
| DirSize.CalculateDir | src/utils/cutils/utils_file.c:1324-1355 | a directory adds the files it meets whose keys are new, none below the depth limit |
| DirSize.WalkEntries | src/utils/cutils/utils_file.c:1263-1322 | the listing loop adds the files with new keys, in listing order |
| DirSize.CalculateEntry | src/utils/cutils/utils_file.c:1297-1312 | an entry adds its files unless their keys have been seen |
| DirSize.CountExact | src/utils/cutils/utils_file.c:1306-1312 | as many files are counted as there are if and only if no two have the same key |
| DirSize.SizeExact | src/utils/cutils/utils_file.c:1306-1312 | the size is the sum over the files, whatever their sizes, if and only if no two have the same key |
| DirSize.CollisionCountsOnce | src/utils/cutils/map/map.c:195-202 | files with the inode numbers 1 and 2^32 + 1 count as the first of them |
| DirTree.SameKeyExactly | src/utils/cutils/map/map.c:195-202 | two files have the same key if and only if 2^32 divides the difference of their inode numbers |
| DirTree.SmallKeysDiffer | src/utils/cutils/map/map.c:195-202 | files of one device with inode numbers below 2^32 are told apart |
| DirSize.NestedIsMet | src/utils/cutils/utils_file.c:1334-1337 | a file is met if and only if it lies under at most 1024 directories |
| DirSize.ShallowIsSeenInFull | src/utils/cutils/utils_file.c:1334-1337 | a tree within MAX_PATH_DEPTH is seen in full |
| DirSize.OrderKeepsCount | src/utils/cutils/utils_file.c:1276-1277 | trees that differ in listing order at any level have the same count |
| DirSize.OrderIsIrrelevant | src/utils/cutils/utils_file.c:1276-1277 | the size is the same in every listing order, whatever the sizes of the files, if and only if no two files have the same key |
| DirCopy.CopyTree | src/utils/cutils/utils_file.c:1996-2013 | every node has its copy and other paths keep what they had; copies are one inode exactly when their sources are shared and have the same key, with the contents of the first; links, contents and hard links are those of the source if and only if the keys, contents and counts of such files allow it; links and contents are right for a tree on one device with inode numbers below 2^32 |
| DirCopy.LayoutIsTree | src/utils/cutils/utils_file.c:2036-2061 | the layout has at every path what the path leads to in the tree, name by name, and nothing else |
| DirCopy.Copier.CopyDirRecursive | src/utils/cutils/utils_file.c:2015-2071 | exactly the source's layout is added in listing order, keeping the invariant on contents and links; it fails exactly on a fifo, a socket or a destination that is no directory |
| DirCopy.Copier.CopyFolder | src/utils/cutils/utils_file.c:1893-1923 | the directory is there afterwards unless something else is, and nothing else changes |
| DirCopy.Copier.CopyFile | src/utils/cutils/utils_file.c:1975-1994 | regular files, links and devices are copied; fifos and sockets are refused |
| DirCopy.Copier.CopyRegularFile | src/utils/cutils/utils_file.c:1925-1947 | a shared file is linked to the first copy with its key if there is one, any other is copied anew |
| DirCopy.UnreportedLinkIsLost | src/utils/cutils/utils_file.c:1929-1942 | one file under two names with a reported count of one is copied to two files |
| DirCopy.ReportedLinkIsKept | src/utils/cutils/utils_file.c:1929-1942 | one file under two names with a count of two or more is copied to one file |
| DirCopy.DifferentFilesAreLinked | src/utils/cutils/utils_file.c:1929-1942 | different shared files with the inode numbers 1 and 2^32 + 1 become one file with the contents of the first |
| HandlerRing.Link.constructor | src/utils/cutils/linked_list.h:39-43 | a new node is linked to itself |
| HandlerRing.LinkedListAdd | src/utils/cutils/linked_list.h:77-92 | the ring with the node right behind the head is again a ring, forward and backward |
| HandlerRing.LinkedListDel | src/utils/cutils/linked_list.h:102-111 | the ring without the node is again a ring, forward and backward |
| HandlerRing.LinkedListLen | src/utils/cutils/linked_list.h:114-123 | the number of nodes |
| HandlerRing.EpollDescr.constructor | src/utils/cutils/mainloop.c:134-143 | a new loop has no handlers and an empty interest set |
| HandlerRing.EpollDescr.AddHandler | src/utils/cutils/mainloop.c:71-106 | one new node and one new descriptor on success; on any failure the ring stays and the descriptor leaves the interest set |
| HandlerRing.EpollDescr.DelHandler | src/utils/cutils/mainloop.c:109-131 | exactly the first node with the descriptor goes, together with the descriptor, or nothing changes |
| HandlerRing.EpollDescr.Close | src/utils/cutils/mainloop.c:146-158 | every node is visited and freed once, in order; ring and interest set end empty |
| HandlerRing.RunMirrors | src/utils/cutils/mainloop.c:71-131 | over every run that never adds a registered descriptor the ring holds exactly the interest set, each descriptor once |
| HandlerRing.AddMirrorsExactly | src/utils/cutils/mainloop.c:88-105 | adding keeps the two equal if and only if the descriptor was not registered |
| HandlerRing.AddExactly | src/utils/cutils/mainloop.c:71-106 | where the two agree, adding succeeds if and only if the descriptor is not registered and memory and kernel allow it, and puts it in front of the ring and in the set; a failing attempt on such a descriptor changes nothing, one on a registered descriptor takes it from the set only |
| HandlerRing.DeleteMirrors | src/utils/cutils/mainloop.c:109-131 | deleting keeps the two equal and succeeds exactly for a registered descriptor the kernel lets go |
| HandlerRing.AddThenDelete | src/utils/cutils/mainloop.c:71-131 | deleting what was just added restores the loop |
| GrowableBuffer.Buffer.constructor | src/utils/buffer/buffer.c:25-54 | an empty buffer with room for its terminator |
| GrowableBuffer.Buffer.Grow | src/utils/buffer/buffer.c:85-122 | the contents stay, the capacity at least doubles, and all bytes ever copied by growing stay below it; it fails exactly beyond half the address space or when the allocation fails |
| GrowableBuffer.Buffer.Append | src/utils/buffer/buffer.c:125-159 | the buffer holds its old text followed by the appended string up to its terminator, in the capacity the growth rule gives, or is unchanged exactly when it cannot grow |
| GrowableBuffer.AppendedWhenSmall | src/utils/buffer/buffer.c:85-159 | appending strings one after the other never fails where every size up to twice that of the text is granted and the text stays below half the address space |
| TagTemplate.ParseSyslogTag | src/cmd/options/opt_log.c:279-344 | the expansion in place answers with the leftmost expansion of the tag; it fails exactly on a missing or empty tag, an unclosed or unknown item, or when the buffer cannot take the pieces |
| TagTemplate.ParsedIsExpansion | src/cmd/options/opt_log.c:279-344 | where the tag's size and every size up to twice that of the text are granted, the answer is the expansion: only an unclosed or unknown item fails |
| TagTemplate.PiecesSpell | src/cmd/options/opt_log.c:300-335 | the strings appended spell the expansion |
| TagTemplate.ExpandStep | src/cmd/options/opt_log.c:300-335 | one turn appends the text before the next item and its value, fails exactly when the expansion or the buffer does, and restores the working copy |
| TagTemplate.ParseItem | src/cmd/options/opt_log.c:323-331 | the parser is given exactly the text between the braces |
| TagTemplate.StrStr | src/cmd/options/opt_log.c:302-316 | the first pair of braces of the C string at a position |
| TagTemplate.ExpandTemplate | src/cmd/options/opt_log.c:300-335 | a literal part and an item expand to the literal, the item's value and the expansion of the rest |
| TagTemplate.UnclosedFails | src/cmd/options/opt_log.c:315-320 | an item that is not closed makes the expansion fail |
| TagTemplate.PlainTag | src/cmd/options/opt_log.c:302-306 | a tag without items is its own expansion |

## Left out

- Threads of the shim, terminals and FIFOs, which copy bytes between descriptors, and request structures, option tables and configuration getters, which hold no algorithm.
- Flushing the log cache without a buffer: the only caller always passes one, and the flush does not reset the size when the cache ends in a newline.
- Partial writes, failing `fstat` and paths too long in log rotation.
- Wildcard.StringsCount: does not cover more than INT_MAX occurrences, because its result is an int and overflows there.
- Wildcard.RegexSize: does not cover wildcards with more than INT_MAX occurrences of one escaped character, for the same reason, nor texts larger than the largest C object.
- Wildcard.WildcardToRegex: the same wildcards.
- Wildcard.TranslationPreservesMeaning: does not model locales; the characters of words are letters, digits and the underscore of ASCII.
- SymlinkScope.Walk: does not model failing allocations, nor file systems that change during the walk.
- DirCopy.CopyTree: does not model ownership, times, extended attributes and device numbers, failing system calls, or a destination inside the source.
- DirTree.Key: does not model big-endian machines, where an int at the address of a 64-bit number is its high half.
- DirSize.DirSizeWithoutHardlink: does not model 64-bit overflow of the totals, and entries that cannot be examined are taken to be absent from the listing.
- TagTemplate.ParseSyslogTag: does not say what the output parameter holds after a failure; when the last literal cannot be appended the code stores the partial text before it returns the error.
- TagTemplate.ParsedIsExpansion: an allocation is granted or refused by its size alone; copies made with `util_strdup_s`, which ends the process when memory runs out, always succeed.
- Resolution of relative URL references and parsing of queries and authorities: the former does not remove dot segments, and the loop of the latter does not end on a query with a separator.
- `linked_list_add_tail`, the event loop's dispatch and the freeing of memory.
- Filters, SELinux labels, AES and base64, which wrap libraries.
