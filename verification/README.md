# Models of some NT command line tools

The repository is a collection of independent NT tools. This project models the parts of nine of
them that contain an algorithm, and proves what those algorithms promise. Each tool has its own
modules; a few small ones are shared.

| modules | tool |
|---|---|
| `FileTree`, `FileEnumerator`, `FileWalkLaws`, `FileCourseLaws` | `cacls`: the resumable enumeration of files in a directory tree |
| `AccessControl`, `AclMergeSpec`, `AclMergeLaws`, `AclMerge` | `cacls`: merging requests into an access control list |
| `Alignment`, `PeFormat`, `PeLayout`, `PeImage`, `PeImageLaws`, `PeReadBack`, `PeFields`, `PePlaces`, `PeAddSection`, `PeExamples` | `addsect`: adding a section to a PE file |
| `BootEntryFormat`, `BootEntryWriter`, `BootOrder`, `LinkedLists`, `BootLists`, `BootLaws` | `autosafe`: EFI boot entries and their order |
| `WorkQueue`, `Checksum` | `checkrel`: worker threads on a list, and the checksum they compute |
| `Glob`, `WildcardCompiler` | `cat`: a wildcard pattern compiled to a code with length bounds, and its matcher |
| `FunctionMatcher`, `FunctionMatcherLimits`, `ImportGraph`, `ImportWalk`, `ImportWalkLaws` | `appparse`: a greedy wildcard matcher, and the walk over imported modules |
| `AppCompatGoo`, `AppCompatGooLaws` | `appcompat`: the list of entries kept in one registry value |
| `CdDump` | `cddump`: reading sectors in pieces the drive accepts, and the WAV header |
| `Bytes`, `Wrappers` | bytes, little-endian numbers, files; an option type |

Each tool has a specification that the code is proved against, and laws about that specification which
do not mention it: which bytes stand at which offsets, which entries a list has in which order, exactly
when something fails. Where the code changes things step by step, the model does too: the enumerator, the ACL and its
requests, the PE image and the file written, the compiled pattern, the boot entry block, the nodes
of the boot lists and the parse stack are objects or arrays that methods change. Each such method is proved
against a specification function or predicate, and the laws are proved about that. `hide`
statements keep a proof from looking into definitions it does not need.

## What holds, and what does not

- **Enumerator.** What there is to list is the recursive pre-order walk, which reports exactly the
  entries that a path of readable directories leads to, each once. A pattern that is literally the
  name of a directory makes the walk go on inside that directory only. A caller that goes on after
  refusals gets a beginning of that walk (`FileCourseLaws.CompletesIff`). It is told that it has
  everything, and then has it, if and only if in every directory the walk leads to all paths put
  together fit MAX_PATH and the pattern names no empty directory. Otherwise what is behind is lost
  (`LongNameCutsOffASibling`, `BareNameCutsOffASibling`). The callers do not enter their loop if
  `Init` reports a refusal, so a refused directory before the first match loses everything, whether
  they are told to go on or not (`EarlyRefusalLosesAll`).
- **ACL merge.** The two passes agree on the size, up to ACEs that are counted and then found to
  have nothing to say; a size that no ACL can have is refused; the result is canonical and has
  exactly the ACEs that are left and those that are added (`MergeHas`); no right is lost or gained that
  no request is about (`MergeKeepsTheRest`); what each kind of request gives is stated under the access
  check of [MS-DTYP] section 2.5.3.2; and `FailsIff` says when a merge fails. Two things
  the code does not do: a grant on a plain file has no effect if the account's own allowing ACEs are
  all inherit-only (`GrantGives` has the exact condition, `GrantWithoutEffect` such a list), and a
  revocation without an old ACL becomes an allowed ACE (`RevokeNeedsAnAcl`). `ReInit` reloads the
  mask but keeps the inheritance found, so a wrapper used on several directories can accept one that
  a fresh wrapper refuses. `ReuseIsHarmlessIff` says when by what the wrapper holds,
  `RunIsFreshIff` by the directories that a run has been through, up to the first one that fails.
- **PE section.** Old addresses keep their bytes and reading the new file gives the headers back,
  which are the old ones but for the fields that `WrittenHeadersAre` names.
  For an image whose sections are aligned, which the test for room has let pass, the new section is
  there with the data supplied (`AddedSectionIsThere`). In general the header of the new section
  points to its data exactly if the last running raw end is aligned (`NewPointerIsRightIff`,
  `UnalignedEndMisplaces`); a file pointer to the very first byte behind the sections is left behind
  (`PointerFollowsItsByteIff`, `PointerLeftBehind`); the test for room in the section table is sound
  exactly if no raw data precedes that table (`CheckMeansRoomIff`, `EarlyDataFoolsCheck`). A 32-bit
  image loses `BaseOfData`, which the 64-bit structure used in between does not have
  (`BaseOfDataIsLost`).
- **Boot entries.** Parsing the bytes written gives the entry back, unless foreign options look like
  those of NT (`ReadsBackIff`; entries that were parsed are never like that). The entry returned
  beside the bytes has no foreign options, so writing it once more would lose them
  (`ForeignOptionsSurviveOnce`). The lists are rings of nodes that are edited while they are walked.
  An entry that moves takes its link along, which is why the walk steps back first. An entry that is
  replaced is left with a link to the new one, which is therefore seen again and found unchanged.
  That link is read when the replaced entry has been freed already: exactly if some entry is written
  again, which is never the case in the run that sets the next boot (`SaveChanges`, `SetNextBoot`).
- **Worker queue.** Every interleaving is safe, every run ends, and no file is written twice. All
  files are written in every run, each with the sum of its bytes, if and only if there are at most 64
  threads or no files (`CompletesIffFewThreads`). With more threads than that the main thread's wait
  fails at once and the process can end with work left (`SixtyFiveThreadsLoseAFile`). The semaphore
  has a maximum of 0x70000000, so the number of items must not exceed it.
- **Checksum.** Line 877 of `newcheck.c` lacks a parenthesis; the fold loop it evidently means is
  modelled. Block by block, as in the build for DOS, no carry is lost. The NT build makes one call
  over the whole file: that is exact for all files of a length exactly if the length is at most
  131074 (`ExactIffShort`), and for a given file as `WrapAroundIsHarmlessIff` says; `OnesFail` has a
  file that it is wrong for. A worker writes the bare sum where a later check takes the length for a
  sum of zero, so the entry of a file of zeros does not agree with its check
  (`WorkerEntryAgreesIff`).
- **Compiled patterns.** The matcher agrees with the meaning of the pattern on names shorter than
  65535 exactly if the pattern has no two adjacent stars: the maximum stored behind the first of
  them wraps to 0.
- **Greedy matcher.** It is sound. It finds every match exactly for the search strings called
  searchable: behind each star there is a word that, at the end of the string, does not repeat its
  first character, and elsewhere goes on as it began wherever that character comes again and is
  followed by a star, with at most question marks in between; and the string does not end in two
  stars. Every other search string misses some name. For example `*aab` misses `aaab`.
- **Import walk.** It ends on cyclic graphs, leaves the stack as it was, expands no name twice on a
  branch, and visits exactly the modules that imports lead to.
- **Application goo.** A request repeated changes nothing. The entry of an image is not brought up
  to date exactly if its flags are those asked for and one of the two version blocks is a proper
  prefix of the other (`IsHonouredIff`, `NoVersionPassesForAny`).
- **CD dump.** The sectors written are a prefix of those asked for, in order, and the size in the
  header is right exactly if it is all of them; the RIFF size field is then the length of the whole
  file, 8 more than the RIFF format asks for (`DumpFile`). `SAMPLE` is 8 bytes, which explains the
  doubling in `wav.c`.

## Model

| member | source | states |
|---|---|---|
| FileEnumerator.FileEnumerate.Init | cacls/fileenum.cxx:100-110 | refuses exactly the names of MAX_PATH characters and more; reports the first item coming for any other and leaves an enumerator whose remaining items are the others |
| FileEnumerator.FileEnumerate.Ialize | cacls/fileenum.cxx:122-229 | the same from a used enumerator, root directories of drives included; a name that does not fit ends it |
| FileEnumerator.FileEnumerate.NextLocal | cacls/fileenum.cxx:307-366 | the next match in the directory that is neither "." nor "..", that there is none, or that its path does not fit |
| FileEnumerator.FileEnumerate.InitDir | cacls/fileenum.cxx:379-471 | starts on the subdirectories, or inside the directory that the pattern names, and reports the first of what comes there; fails where a path does not fit |
| FileEnumerator.FileEnumerate.NextDir | cacls/fileenum.cxx:484-528 | goes on to the first later subdirectory with something to report |
| FileEnumerator.FileEnumerate.DownDir | cacls/fileenum.cxx:540-590 | the first item of the subdirectory at hand, the rest of it and of its siblings remaining, or that its path and the pattern do not fit |
| FileEnumerator.FileEnumerate.Next | cacls/fileenum.cxx:240-296 | reports exactly the first remaining item or what ends the enumeration, and leaves the others; a refused subdirectory is reported once and its siblings follow |
| FileEnumerator.Enumerate | cacls/t2.cxx:574-656 | the callers' loop gets what is coming up to the first thing that ends it, with the status for that, and nothing if the first thing is a refusal |
| FileWalkLaws.WalkFindsWhatIsThere | cacls/fileenum.cxx:379-590 | the walk has an entry if and only if a path of readable directories leads to it where the pattern in force matches it |
| FileWalkLaws.WalkDoesNotRepeat | cacls/fileenum.cxx:379-590 | no path is reported twice |
| FileWalkLaws.MatchesComeFirst | cacls/fileenum.cxx:240-296 | the matches in a directory come before everything below it |
| FileWalkLaws.MatchesInOrder | cacls/fileenum.cxx:307-366 | matches come in the order of the directory |
| FileWalkLaws.SubdirectoriesInOrder | cacls/fileenum.cxx:484-528 | what is in one subdirectory comes before what is in a later one |
| FileCourseLaws.FitsIff | cacls/fileenum.cxx:353-356 | a path fits if and only if root, names, backslashes and what is put behind them, with a NUL, have at most 260 characters |
| FileCourseLaws.FitsInsideIff | cacls/fileenum.cxx:561-577 | the same of a subdirectory with the pattern behind it |
| FileCourseLaws.UnmarkedIffSmooth | cacls/fileenum.cxx:307-590 | nothing makes a deep enumeration end early if and only if in every directory the walk leads to all paths fit and the pattern names no empty directory |
| FileCourseLaws.CompletesIff | cacls/t2.cxx:574-674 | a caller that goes on after refusals gets a beginning of what there is; unless the first thing is a refusal it is told that it has everything if and only if that holds, and then it has |
| FileCourseLaws.AllButIsListedIff | cacls/fileenum.cxx:261-281 | where all paths fit, everything is listed if and only if nothing comes behind an empty directory that the pattern names |
| FileCourseLaws.LongNameCutsOffASibling | cacls/fileenum.cxx:561-577 | a directory whose name has 255 characters, and a file behind it that is not listed |
| FileCourseLaws.BareNameCutsOffASibling | cacls/fileenum.cxx:261-281 | an empty directory with the name searched for, and a file in a sibling of its parent that is not listed |
| FileCourseLaws.EarlyRefusalLosesAll | cacls/t2.cxx:574-579 | a refused directory in front of a match, and nothing is listed |
| AccessControl.CheckIsBitwise | cacls/daclwrap.cxx:552-698 | the ordered access check, which the order of the ACEs is for, decides each right by the first ACE that applies and mentions it |
| AclMerge.AccountAccess.Init | cacls/accacc.cxx:43-57 | a request for no access becomes a denial of GENERIC_ALL, any other an allowance of the mask |
| AclMerge.AccountAccess.ReInit | cacls/accacc.hxx:76-79 | reloads the mask and nothing else: what inheritance was found stays |
| AclMerge.AccountAccess.AddInheritance | cacls/accacc.cxx:67-86 | adds what an ACE with these flags reaches |
| AclMerge.DaclWrap.SetAccess | cacls/daclwrap.cxx:59-121 | a request is appended unless its account is named already or the table is full; requested accounts stay distinct |
| AclMerge.DaclWrap.MergeGrant | cacls/daclwrap.cxx:224-288 | adds the granted rights to the account's allowing ACEs and takes them from its denying ones; fails on an ACE of another kind |
| AclMerge.DaclWrap.MergeRequests | cacls/daclwrap.cxx:224-304 | all requests against all old ACEs: the masks, the requests and the size afterwards, and when the pass fails |
| AclMerge.DaclWrap.SilenceCovered | cacls/daclwrap.cxx:306-347 | clears the masks of the ACEs of denied, replaced and revoked accounts and counts the size of the others |
| AclMerge.DaclWrap.GetNewAclSize | cacls/daclwrap.cxx:206-375 | the size, the rewritten old ACL and the requests left for the second pass, or failure exactly when the specification fails |
| AclMerge.DaclWrap.FillNewAcl | cacls/daclwrap.cxx:552-698 | the new ACL gets exactly the ACEs specified, without running out of room, unless the old one is out of order |
| AclMerge.DaclWrap.BuildAcl | cacls/daclwrap.cxx:135-159 | each outcome of the specified merge with its return value, a size that is too large included; on success the ACL allocated holds the ACEs |
| AclMerge.DaclWrap.AllocateNewAcl | cacls/daclwrap.cxx:387-403 | an empty ACL of that size, or failure exactly for sizes beyond 65535 |
| AclMergeLaws.RevokeReplaceDeny | cacls/daclwrap.cxx:306-347 | after a merge a revoked account has no ACE, a replaced one exactly one allowing ACE with the rights asked for, a denied one exactly one denying ACE, inheritable on directories |
| AclMergeLaws.RevokeNeedsAnAcl | cacls/daclwrap.cxx:675-693 | without an old ACL a revocation adds an allowing ACE |
| AclMergeLaws.GrantGives | cacls/daclwrap.cxx:224-287 | a token with a granted account alone is granted all rights asked for, if and only if the account's allowing ACEs, where there are any, do not all serve inheritance only |
| AclMergeLaws.GrantWithoutEffect | cacls/daclwrap.cxx:224-287 | one inherit-only ACE, and a grant that is merged and has no effect |
| AclMergeLaws.GivenWithoutAcl | cacls/daclwrap.cxx:675-693 | without an old ACL a granted or replaced account is given what was asked for |
| AclMergeLaws.DirectoryGrantTakesEffect | cacls/daclwrap.cxx:283-286 | on a directory the inheritance test ensures that |
| AclMergeLaws.DenialComesFirst | cacls/daclwrap.cxx:561-583 | whoever holds a denied account is refused the denied rights, whatever else the list says |
| AclMergeLaws.DenialComesFirstWithoutAcl | cacls/daclwrap.cxx:675-693 | the same without an old ACL |
| AclMergeLaws.OthersSeeThePartedList | cacls/daclwrap.cxx:584-672 | to tokens without a requested account the new list says what the old one would with its inherited ACEs moved to the end |
| AclMergeLaws.OthersNoticeNothing | cacls/daclwrap.cxx:552-698 | such tokens get the same answers as before if inherited ACEs came last already |
| AclMergeLaws.MergeKeepsTheRest | cacls/daclwrap.cxx:224-288 | whatever the token, on a right that no request for its accounts is about but grants of other rights, the new list says what the old one would with its inherited ACEs moved to the end: a grant takes nothing away and gives nothing else |
| AclMergeLaws.MergeHas | cacls/daclwrap.cxx:224-698 | exactly the ACEs of a successful merge: the old ones with the rights granted added or struck off, and those that requests add, with flags and sizes |
| AclMergeLaws.WithoutAclHas | cacls/daclwrap.cxx:561-693 | without an old ACL exactly one ACE for each request |
| AclMergeLaws.FailsIff | cacls/daclwrap.cxx:135-375 | exactly when the merge fails: a grant for an account with an ACE of another kind, or on a directory with ACEs that do not reach everywhere; a size beyond 65535; a denying ACE behind an allowing one |
| AclMergeLaws.MergeIsCanonical | cacls/daclwrap.cxx:561-672 | a successful merge with an old ACL is ordered: explicit denying, explicit allowing, inherited |
| AclMergeLaws.SizeSuffices | cacls/daclwrap.cxx:212-375 | the computed size is at least what is filled in, and for a non-empty old ACL exceeds it by just the uncovered ACEs left with an empty mask |
| AclMergeLaws.SizeIsExactWithoutAcl | cacls/daclwrap.cxx:349-373 | without an old ACL the size is exact |
| AclMergeLaws.ReuseIsHarmlessIff | cacls/daclwrap.cxx:214-216 | a used wrapper gives the result of a fresh one, unless on a directory what it has found before and what is there reach everything for each taken-up grant, what is there alone does not, and the merge does not fail for an ACE of another kind or out of order |
| AclMergeLaws.RunIsFreshIff | cacls/daclwrap.cxx:214-216 | over a run up to its first failure, the exact condition under which a file gets what a fresh wrapper would give it, where the wrapper has found what the matching ACEs of the earlier directories reach |
| AclMergeLaws.RunsAreIndependent | cacls/daclwrap.cxx:214-216 | so every plain file of a run, and every directory that passes on its own, gets what a fresh wrapper would give it |
| AclMergeLaws.LeftoversCanHide | cacls/accacc.hxx:76-79 | a directory that does not pass on its own passes behind one that does |
| Alignment.AlignRoundsUp | addsect/addsect.cpp:97-105 | masking rounds up to the next multiple of a power of two, as long as the result is a 32-bit number |
| PeImage.CImage.SizeOutputBuffer | addsect/addsect.cpp:147-173 | the buffer grows by zeros to at least the size asked for, and stays empty or a multiple of FileAlignment |
| PeImage.CImage.ZeroFileData | addsect/addsect.cpp:250-271 | writes exactly the number of zeros asked for, in pieces of the buffer's size |
| PeImage.CImage.AlignFileData | addsect/addsect.cpp:273-289 | both addresses are rounded up, the gap in the file is zeros, and the buffer is not touched where there is no gap |
| PeImage.CImage.Read | addsect/addsect.cpp:291-426 | the headers of the file as parsed, or failure for images it refuses |
| PeImage.CImage.Check | addsect/addsect.cpp:430-451 | true if and only if the section table seems to have room and no section has the name |
| PeImage.CImage.CopySections | addsect/addsect.cpp:488-508 | the file has every section where it was, gaps filled, and the running addresses are those of the layout |
| PeImage.CImage.InsertSection | addsect/addsect.cpp:513-572 | the data is at the next free file address, padded to the file alignment, and the header is added; the buffer is always large enough |
| PeImage.CImage.AdjustPointers | addsect/addsect.cpp:577-591 | every pointer beyond the extra offset is shifted, the others are not |
| PeImage.CImage.AdjustDebug | addsect/addsect.cpp:593-621 | the debug directory is rewritten with its pointers shifted; fails exactly if no section has its address |
| PeImage.CImage.Write | addsect/addsect.cpp:455-711 | the bytes of the new file, and when writing fails |
| PeImageLaws.CheckMeansRoomIff | addsect/addsect.cpp:409-440 | the test lets one more header in if and only if it fits the 16-entry array and ends before any raw data, or some raw data precedes the section headers; so it is sound exactly if none does |
| PeImageLaws.CheckedIsSound | addsect/addsect.cpp:430-451 | an accepted image with ordinary headers, its raw data behind them, is sound: all the laws apply to it |
| PeImageLaws.RoomIsSound | addsect/addsect.cpp:430-451 | with that room, the new headers stay clear of the raw data and of what is placed behind it |
| PeImageLaws.NewSectionIsApart | addsect/addsect.cpp:520-558 | the new section is aligned and disjoint from headers and old sections, in the file and in the address space, and inside the image |
| PeImageLaws.OldBytesStay | addsect/addsect.cpp:475-508 | each byte of an old section's raw data outside the debug directory is where it was |
| PeImageLaws.AddressesKeepTheirBytes | addsect/addsect.cpp:227-240 | every RVA of an old section maps through the new section table to the byte it had, outside the debug directory |
| PeImageLaws.NewPointerIsRightIff | addsect/addsect.cpp:577-582 | the new section's pointer is where its data was written, if and only if the last running raw end is aligned |
| PeImageLaws.NewAddressesGetTheData | addsect/addsect.cpp:555-572 | then the new section's RVAs, where no old section covers them, map to the supplied data and zeros |
| PeImageLaws.NewAddressesAreFree | addsect/addsect.cpp:520-558 | no old section of an image with aligned sections covers an address of the new one |
| PeImageLaws.RegularImageGetsTheData | addsect/addsect.cpp:555-582 | so for such images the pointer is right and all new RVAs map to the supplied data and zeros |
| PeImageLaws.RestIsThere | addsect/addsect.cpp:624-633 | all trailing bytes are kept, behind the new section |
| PeImageLaws.PointerFollowsItsByteIff | addsect/addsect.cpp:577-590 | a pointer at or behind the extra offset designates the same byte after the shift, if and only if it is beyond that offset or nothing moved |
| PeImageLaws.PointerLeftBehind | addsect/addsect.cpp:577-590 | a pointer equal to the extra offset designates the first byte of the new section afterwards |
| PeImageLaws.PointersStay | addsect/addsect.cpp:579-587 | of an old section's header only the relocation and line number pointers can change |
| PeImageLaws.DebugEntriesFollow | addsect/addsect.cpp:610-620 | each debug entry keeps its bytes but for its file pointer, which is shifted like the others |
| PeReadBack.ReadsBack | addsect/addsect.cpp:635-711 | parsing the written file gives exactly the headers meant, those of WrittenHeadersAre |
| PeReadBack.BaseOfDataIsLost | addsect/addsect.cpp:322-360 | the used bytes of a 32-bit optional header all survive if and only if BaseOfData is zero |
| PeFields.ParseIs | addsect/addsect.cpp:291-426 | every field of the headers that are read, at its offset in the file, and exactly which files are refused |
| PeFields.FieldsAre | addsect/addsect.cpp:593-612 | where the alignments, the size of the headers and the debug directory are in the optional header |
| PeFields.WrittenHeadersAre | addsect/addsect.cpp:513-711 | every field of the headers in the written file at its offset: the new image size at 56, a zero checksum at 64 and no bound imports in the optional header, all its other bytes as before; one section more, whose header is given; pointers beyond the extra offset moved |
| PePlaces.NextFileIsLeast | addsect/addsect.cpp:475-508 | the next free place in the file is the first aligned one behind headers and raw data |
| PePlaces.NextVirtIsLeast | addsect/addsect.cpp:475-508 | the next free address is the first aligned one behind all sections |
| PePlaces.EndsAre | addsect/addsect.cpp:513-553 | file and image end behind the data, rounded up to eight bytes and to the alignments, and no later |
| PePlaces.ExtraIsLeast | addsect/addsect.cpp:410-503 | the extra offset is the greatest of the raw ends and the free places in front of a section |
| PePlaces.AddressIs | addsect/addsect.cpp:208-240 | an address designates the byte as far into the raw data of the first section that has it as it is behind the section's start |
| PePlaces.NoAddress | addsect/addsect.cpp:208-240 | an address in no section has no place |
| PePlaces.DebugIsLostIff | addsect/addsect.cpp:593-608 | writing fails exactly if there is a debug directory and no section, the new one included, has its address |
| PePlaces.BytesBeforeAre | addsect/addsect.cpp:467-508 | each byte between the headers and the new section is the old one where headers or raw data were, and zero elsewhere, but for the debug directory |
| PePlaces.WrittenLength | addsect/addsect.cpp:624-633 | the file ends with what was behind the old sections |
| PeAddSection.AddSection | addsect/addsect.cpp:802-881 | reading, checking, inserting and writing: an output exactly if the image parses, passes the check and keeps its debug directory, and then the specified bytes; an image that is refused may be anything that can be read |
| PeAddSection.AddedSectionIsThere | addsect/addsect.cpp:802-881 | for an ordinary image with aligned sections that passes the check: the output parses to the headers meant, old RVAs keep their bytes, the new ones have the data |
| PeExamples.TinyIsSound | addsect/addsect.cpp:291-451 | a file of 1024 bytes that meets every condition of the laws |
| PeExamples.UnalignedEndMisplaces | addsect/addsect.cpp:555-582 | raw data of 513 bytes: the new header points to 2559, the data is at 1536 |
| PeExamples.EarlyDataFoolsCheck | addsect/addsect.cpp:409-440 | raw data at offset 1: the test passes and there is no room |
| BootEntryWriter.LayOut | autosafe/autosafe.c:1123-1221 | the offsets and lengths are those of the bytes specified, whatever comes in front of them |
| BootEntryWriter.FillHeader | autosafe/autosafe.c:1254-1264 | the fields, written in the order of the code, make up the header |
| BootEntryWriter.CreateBootEntryFromBootEntry | autosafe/autosafe.c:1123-1302 | the block holds exactly the specified bytes behind the in-memory structure, whose pointers lead to the parts of the entry, without its foreign options |
| BootEntryFormat.PartsAreApart | autosafe/autosafe.c:1150-1221 | name, paths and options begin at multiples of four, do not overlap, and end with the entry |
| BootEntryFormat.BytesAre | autosafe/autosafe.c:1254-1302 | every field, string, path and gap of a written entry at its offset, the versions included |
| BootEntryFormat.ParsedIs | autosafe/autosafe.c:983-1022 | where each part of an entry is looked for in any bytes, and which options count as those of NT |
| BootEntryFormat.StringAtIs | autosafe/autosafe.c:983-1022 | a string goes up to the first NUL |
| BootEntryFormat.ReadsBackIff | autosafe/autosafe.c:983-1022 | parsing the written bytes gives id, attributes, name, boot path and OS part back, if and only if foreign options do not look like those of NT |
| BootEntryFormat.ParsedReadsBack | autosafe/autosafe.c:929-1036 | what was parsed survives being written and parsed again |
| BootEntryFormat.ForeignOptionsSurviveOnce | autosafe/autosafe.c:1236-1251 | the bytes keep foreign options; writing the returned entry again keeps them only if there are none |
| BootLists.EfiBootLists.ConvertBootEntries | autosafe/autosafe.c:929-1036 | every entry of the chain is parsed and appended to the active or the inactive list, in order |
| BootLaws.EnumerationReadsBack | autosafe/autosafe.c:929-1036 | the chain of bytes of written entries is enumerated to these entries |
| BootLaws.FlaggedAre | autosafe/autosafe.c:972-981 | the active list has exactly the entries with the lowest attribute bit, the inactive one the others |
| BootLaws.FlaggedKeepsOrder | autosafe/autosafe.c:972-981 | both are in the order of the enumeration |
| BootLists.EfiBootLists.InitializeEfi | autosafe/autosafe.c:1484-1566 | the lists share no node and hold what is specified for the firmware's order |
| LinkedLists.MoveMatching | autosafe/autosafe.c:1540-1550 | the walk over the links ends although the nodes it is at are moved: all nodes of the id are at the end of the other ring, in order, and both are well linked |
| BootLists.EfiBootLists.TakeActive | autosafe/autosafe.c:1538-1549 | all entries of an id move to the end of the ordered list, the others stay, and the lists share no node |
| BootOrder.PlacingKeepsEntries | autosafe/autosafe.c:1538-1562 | building the lists keeps the multiset of entries |
| BootOrder.PlacedInOrder | autosafe/autosafe.c:1538-1562 | the ordered list follows the firmware's order, an entry going to the first place that asks for its id |
| BootOrder.PlacedHas | autosafe/autosafe.c:1538-1562 | exactly the entries whose id is in the order are placed, the others are left |
| BootOrder.PlacedIsOrder | autosafe/autosafe.c:1538-1562 | with one entry per id the placed ids are the firmware's order |
| BootOrder.LeftKeepsOrder | autosafe/autosafe.c:1538-1562 | entries left over stay in their original order |
| BootLaws.PlacedOfId | autosafe/autosafe.c:1538-1562 | the entries of an id in the ordered list are its active ones and then its inactive ones |
| BootLaws.WithIdKeepsOrder | autosafe/autosafe.c:1538-1562 | entries that are moved keep their order |
| LinkedLists.Replace | autosafe/autosafe.c:1671-1672 | the new node has the place of the old one, whose own link leads to it afterwards |
| BootLists.EfiBootLists.SaveList | autosafe/autosafe.c:1602-1684 | one walk over the links ends and leaves a well-linked list of what is to be kept; the link of a freed entry is read if and only if some entry is written again, and leads to the new one; a new entry stops the walk |
| BootLists.EfiBootLists.SaveChanges | autosafe/autosafe.c:1569-1725 | deleted entries go, modified ones are stored again, the ids of the ordered list and the timeout are written, the caller's current entry is followed to what replaced it; a new entry stops it; freed links are read if and only if some entry is written again |
| LinkedLists.ListIds | autosafe/autosafe.c:1686-1701 | the ids of the entries in the order of the links |
| BootLists.ModifiedReadsBack | autosafe/autosafe.c:1650-1682 | a modified entry can be read back from what the firmware stores, if no other has its id |
| BootLaws.SavedHas | autosafe/autosafe.c:1602-1684 | exactly what a list has after saving: the entries not deleted, a modified one without status and foreign options |
| BootLaws.SavedKeepsOrder | autosafe/autosafe.c:1602-1684 | in their order |
| BootLaws.StoredIs | autosafe/autosafe.c:1611-1665 | what the firmware has of an entry afterwards: nothing, its bytes, or what it had |
| BootLaws.MatchesIff | autosafe/autosafe.c:471-473 | an entry is chosen if the keyword stands somewhere in its lowered name |
| BootLists.EfiBootLists.MoveSafeIA64 | autosafe/autosafe.c:452-484 | the first entry whose name has the keyword goes to the front and that order is written; nothing is written if there is none |
| BootLists.SetNextBoot | autosafe/autosafe.c:452-484 | from the enumerated bytes to the order written: the chosen entry first, no stored entry changed, no freed link read |
| BootOrder.ChosenComesFirst | autosafe/autosafe.c:466-481 | with one entry per id the order written is the old one with the chosen id in front |
| WorkQueue.StepKeepsInv | checkrel/newcheck.c:158-211 | every step of every thread keeps the invariant on locks, count and items |
| WorkQueue.Safety | checkrel/newcheck.c:158-211 | in every interleaving the semaphore equals the list length while the mutex is free, no worker removes from an empty list, and entries are written by one worker at a time |
| WorkQueue.AllFilesWrittenOnce | checkrel/newcheck.c:244-256 | once all workers have exited every queued file was written exactly once, with the sum of its bytes, and each worker has taken one exit item |
| WorkQueue.NoFileTwice | checkrel/newcheck.c:158-211 | however a run goes, no file is written twice |
| WorkQueue.NoDeadlock | checkrel/newcheck.c:666-674 | as long as the process runs some thread can go on |
| WorkQueue.EveryRunEnds | checkrel/newcheck.c:158-256 | runs are bounded, and one cannot be continued exactly when the process has ended |
| WorkQueue.CompletesIffFewThreads | checkrel/newcheck.c:244-256 | whenever the main thread's wait has returned all files have been written once, in every run, if and only if there are at most 64 threads or no files |
| WorkQueue.SixtyFiveThreadsLoseAFile | checkrel/newcheck.c:255 | a run with 65 threads and one file that ends with the file unwritten |
| Checksum.CheckSum | checkrel/newcheck.c:861-883 | the 16-bit one's complement sum of what the 32-bit accumulator holds; the fold loop ends |
| Checksum.CheckSumFile | checkrel/newcheck.c:686-707 | block by block equals one pass over unbounded integers; the result is zero for the empty file alone |
| Checksum.CheckSumMapped | checkrel/newcheck.c:709-750 | one call over the mapped file, the length standing in for zero; the result is zero for the empty file alone |
| Checksum.WordsAre | checkrel/newcheck.c:861-883 | the words summed: pairs of bytes, the low one first, with a zero behind an odd one |
| Checksum.WrapAroundIsHarmlessIff | checkrel/newcheck.c:861-883 | one call over a mapped file gives the one's complement sum of its bytes exactly under this condition on the sum of its words |
| Checksum.ShortFilesAreExact | checkrel/newcheck.c:709-750 | that call is exact for files of at most 131074 bytes |
| Checksum.ExactIffShort | checkrel/newcheck.c:709-750 | it is exact for all files of a length if and only if the length is at most 131074 |
| Checksum.OnesFail | checkrel/newcheck.c:709-750 | 65538 words of 0xFFFF sum to 0xFFFE instead of 0xFFFF |
| Checksum.ZeroSumIsZeroData | checkrel/newcheck.c:746-750 | the sum is zero for all-zero data only |
| Checksum.WorkerEntryAgreesIff | checkrel/newcheck.c:195 | the sum a worker writes is the one a later check computes if and only if the file is empty or the sum of its words is not a multiple of 2^32 |
| Checksum.ZeroFileIsReported | checkrel/newcheck.c:740-750 | up to 131074 bytes those are the files with nothing but zeros |
| WildcardCompiler.CompileWorker | cat/fnreg.cpp:51-83 | the buffer receives the code of the pattern; min and max are those of the rest |
| WildcardCompiler.Compile | cat/fnreg.cpp:86-90 | the code of the whole pattern |
| WildcardCompiler.Match | cat/fnreg.cpp:92-122 | the backtracking matcher on the code decides the pruned search |
| WildcardCompiler.BoundsAreTrue | cat/fnreg.cpp:51-83 | min and max bound the length of every name the rest matches |
| WildcardCompiler.PruningIsExact | cat/fnreg.cpp:103-117 | pruning with the stored numbers loses nothing, except that a star before a star matches no name |
| WildcardCompiler.CompileAndMatch | cat/fnreg.cpp:51-122 | compiling and matching agrees with the plain meaning, if and only if no two stars are adjacent or the name does not match anyway |
| WildcardCompiler.ExactIffNoAdjacentStars | cat/fnreg.cpp:62-69 | the matcher agrees with the pattern on all names shorter than 65535 exactly if it has no adjacent stars |
| WildcardCompiler.LongNameIsMissed | cat/fnreg.cpp:103-117 | the bound on the name is needed |
| FunctionMatcher.MatchFunction | appparse/appparse.cpp:1745-1825 | the nested loops end and decide the greedy search |
| FunctionMatcher.GreedyIsSound | appparse/appparse.cpp:1745-1825 | every true answer is a case-insensitive glob match |
| FunctionMatcher.ExactIfSearchable | appparse/appparse.cpp:1745-1825 | for searchable strings it is true for every match |
| FunctionMatcher.PlainIsSearchable | appparse/appparse.cpp:1745-1825 | literals and question marks with at most one trailing star are searchable |
| FunctionMatcherLimits.ExactIffSearchable | appparse/appparse.cpp:1745-1825 | it agrees with the glob on all names if and only if the search string is searchable |
| FunctionMatcherLimits.GreedyMissesAMatch | appparse/appparse.cpp:1795-1806 | "*aab" misses "aaab" |
| ImportGraph.ChildrenAreSorted | appparse/appparse.cpp:694-727 | the children stay strictly sorted, so no module is listed twice |
| ImportGraph.LessIff | appparse/appparse.cpp:694-727 | the order is that of the first characters that differ, a name coming before its continuations |
| ImportGraph.ChildrenAreImports | appparse/appparse.cpp:944-1030 | they are exactly the modules that the descriptors name |
| ImportGraph.FirstSpellingStays | appparse/appparse.cpp:944-1030 | a module is spelt as by the first descriptor that names it |
| ImportWalk.WalkImportTable | appparse/appparse.cpp:929-1033 | finding or inserting each descriptor's module builds that list |
| ImportWalk.ModuleParseStack.CheckModuleParsed | appparse/appparse.cpp:138-150 | true if and only if the name is on the stack, up to case |
| ImportWalk.ParseModule | appparse/appparse.cpp:1043-1174 | ends on every finite import graph, restores the stack on every exit, builds the specified tree, and succeeds exactly if the file is there, is an image, resolves what is wanted, and is a system file, on the stack or readable to the end |
| ImportWalkLaws.ErrorIs | appparse/appparse.cpp:1043-1174 | exactly when an import succeeds and when it fails in which way: a file of the system or one that is being parsed succeeds without its tables |
| ImportWalkLaws.ChildrenAre | appparse/appparse.cpp:1128-1152 | a module whose tables are read has all its imports as children, each parsed with its name on the stack |
| ImportWalkLaws.WalkExpandsOnce | appparse/appparse.cpp:1128-1141 | on no branch is a name expanded twice |
| ImportWalkLaws.WalkIsLow | appparse/appparse.cpp:1128-1141 | a branch is no longer than there are files, and one more |
| ImportWalkLaws.VisitsWhatIsReachable | appparse/appparse.cpp:1043-1174 | a module is visited if and only if imports of opened modules lead to it |
| AppCompatGoo.CheckGooEntry | appcompat/apphacks.c:114-333 | whether an entry is to be added, otherwise the value with the first matching entry rewritten where it has to be, and for settings that are not permanent the value without that entry |
| AppCompatGoo.CopyOthers | appcompat/apphacks.c:293-331 | the value without one entry, the others in order, and whether there are others |
| AppCompatGoo.ReplaceEntry | appcompat/apphacks.c:226-264 | a well-formed value with that entry rewritten and the others kept in order |
| AppCompatGoo.MakeAppCompatGoo | appcompat/apphacks.c:402-602 | from any well-formed value a well-formed one: a new entry in front of the old ones, or the first matching one rewritten; and what is kept for later if the settings are not permanent |
| AppCompatGooLaws.FirstRequestIs | appcompat/apphacks.c:402-602 | an image without an entry gets one in front of the others, with the first 512 bytes of its version resource, its flags and its version |
| AppCompatGooLaws.NextRequestIs | appcompat/apphacks.c:114-333 | otherwise its first entry, and no other, gets the flags and the version unless it seems to have them |
| AppCompatGooLaws.TwoImagesKeepAnEntryEach | appcompat/apphacks.c:114-602 | two images whose resources differ in a byte that counts keep an entry each, as long as no old entry is taken for both |
| AppCompatGooLaws.ValueIs | appcompat/apphacks.c:536-585 | the bytes of the value at their offsets: the total size, and one entry behind the other |
| AppCompatGoo.AskingTwiceIsAskingOnce | appcompat/apphacks.c:114-602 | the same request again changes nothing |
| AppCompatGoo.IsHonouredIff | appcompat/apphacks.c:177-283 | the entry has the flags and version asked for, unless its flags agree and of its version and the one asked for one is a proper prefix of the other |
| AppCompatGoo.NoVersionPassesForAny | appcompat/apphacks.c:177-283 | an entry without a version block is taken to have any |
| CdDump.CddumpDumpLba | cddump/read.c:59-135 | the file gets the sectors from the start on in order, each at its place and each once, and nothing else; if it is not all of them the next sector met an error or a rejected one-sector read |
| CdDump.DumpWavHeader | cddump/wav.c:31-76 | every field of the header at its offset, with 32-bit arithmetic; fails exactly if the channels take too many bytes or the file cannot be written |
| CdDump.DumpFile | cddump/cddump.c:625-637 | header and sectors at their places; the data size in the header is that of the data written, and the RIFF size the length of the file, if and only if all sectors were read, which they are if nothing fails |

## Left out

- Win32 and NT calls are parameters or state: finding files is a cursor over a list, a mapped file is a byte sequence, the firmware is a map and a list, a drive is a function. They succeed unless the control flow tests for their failure.
- FileEnumerator.FileEnumerate.Init: takes the name as GetFullPathName returns it, which must fit too, and does not model patterns that end in a backslash other than the root of a drive, or the narrow-character version.
- FileEnumerator.Enumerate: does not model what the caller does with each file, nor that it can fail there.
- FileEnumerator.FileEnumerate.Next: clears the mark of a drive's root before it starts on the directory and not after it, which nothing in between looks at; find data that is not set yet names nothing.
- SID lookup, tokens and writing the security descriptor of a file: a SID is a value with a length.
- The fields of the 32-bit and 64-bit optional headers are bytes of a block; copying them field by field is its effect on these bytes.
- PeImage.CImage.Write: does not model images whose addresses leave 32 bits, alignments that are no powers of two, or ranges that lie outside the file read.
- Boot entries with offsets that lead outside their bytes: what lies behind the end reads as zero.
- BootEntryWriter.CreateBootEntryFromBootEntry: asks that the name still fits the room it was found in, as the caller in autosafe.c sees to.
- BootLists.EfiBootLists.SaveChanges: takes an entry that was freed as still holding the link that is read from it.
- The NT, EFI and version structures come from headers that are not part of this model; their sizes and constants are taken from their documentation.
- Editing boot.ini, labelling the default boot entry, and the search for the system partition.
- WorkQueue.CompletesIffFewThreads: does not model that creating a thread or an item can fail, nor a thread count below one.
- FilenameTable::search and the rest of fnreg.cpp beyond the matcher; the buffer for the code has 1024 characters there.
- ImportWalk.ParseModule: does not model the event that cancels parsing, nor the file version information.
- Name demangling, resolving of forwarded functions, XML output and the sorted list of functions in appparse.cpp.
- AppCompatGoo.MakeAppCompatGoo: does not model values that are not well formed, nor writing the kept copy back at exit.
- Finding the silent sectors around a track in cddump.c.
- Tools with argument handling only, and everything with windows and dialogs.
