# GT5P verification

A Dafny 4.11 model of the self-contained algorithms in this port: the host setjmp/longjmp
protocol, the SELF decryption arithmetic and ELF rebuild, the ELF loader and the two image
readers, the RTTI demangler, the jump-table scan, the free-list validator, the two translation
auditors, the guest argument block, the vblank ticker and the overlap recorder. Code that
updates state in loops is written as methods with invariants, each proved equal to a
specification function or predicate; the lemmas say what those specifications mean. What reads
or writes a format is fixed by the bytes, words or instruction fields of that format.

`dafny verify dfyconfig.toml` checks the whole project.

## The models

- `JmpStack` is the array of armed buffers and its depth; `HostProtocol` runs it beside a host
  call stack (calls, returns, arms, longjmps) and compares it with an ideal machine in which
  each live frame owns its buffers. The two stay identical through a run exactly when the
  program never has more than sixteen buffers armed and no unguarded function returns with one
  of its own still armed. The comment in src/gt5p_longjmp.cpp claims without that condition that
  a buffer whose frame has returned can never be fired into. For each of the two ways to break
  it, `UncleanReturnWildIff` and `ArmPastBoundWildIff` say exactly which longjmps then enter a
  dead frame, and `SeventeenBuffersGoWild` is a run from thread start that does. At overflow push
  hands out slot 15 without re-keying it. A function is left unguarded when it was already
  wrapped (scripts/setjmp_patch.py:92). A guarded function restores the armed stack whatever its
  callees did, discipline or not, provided a slot was free when it was called; in every reachable
  state that condition is exact (`GuardRestoresIffFreeSlot`).
- `Rap` reads the key in PBOX order. There a round is an exclusive or, a running exclusive or and
  one subtraction of 128-bit numbers; all of it is undone by an explicit inverse. AES is a
  parameter. `RapVector` is a known answer, byte by byte.
- `Ctr` is counter mode over a block cipher given as a parameter, with the OverflowError at 2^128.
- `ElfFile`, `ElfBuild`, `ElfLoad`, `ImageRead` and `BuildThenLoad` follow a program from parsed
  headers and decrypted segments through the rebuilt file into guest memory, and show that the
  scripts' readers see the same bytes. `Align` is the rounding idiom, which aligns exactly for
  powers of two; segment order and disjointness need no such condition. The rebuild always writes
  0x38-byte program headers but keeps the entry size found in the header: every file rebuilt
  under a header is read back right exactly when that header announces at most one entry or an
  entry size of 0x38 (`TableRightIffStrideFits`).
- `Demangle` is the parser of scripts/rtti.py and a printer for the names it supports. The
  script's description says that anything not recognised is returned unchanged rather than
  dropped. A symbol is returned unchanged exactly when no identifier is read from it: it is
  empty, or a nested name with no length where its first component should start (past any
  template argument lists), or a plain name that does not start with a length or has a newline
  before its last character (`UnchangedIffUnrecognised`). Text left over otherwise is dropped.
- `JumpTable`, `FreeList`, `AuditBranch`, `AuditCmp`, `Argv`, `AllocWatch` and `Ticker` are the
  remaining loops. `AuditBranch` finds that the audit is exact for conditional forms and misjudges
  the branch-always form of bc. `Argv` finds that argv[0] survives every argument string exactly
  when it is shorter than 128 characters. `AllocWatch` finds that a block handed out twice goes
  unnoticed exactly when its end wraps in 32 bits.

## Model

| member | source | states |
|---|---|---|
| JmpStack.KeyIsAlignedUp | src/gt5p_longjmp.cpp:51-53 | the key of a buffer is the only multiple of 16 less than 16 above it, modulo 2^32 |
| JmpStack.Buffers.JmpPush | src/gt5p_longjmp.cpp:55-64 | a push keys the slot at the depth and raises the depth; at 16 it changes nothing and hands out slot 15 |
| JmpStack.Buffers.JmpUnwind | src/gt5p_longjmp.cpp:67 | the depth is lowered to the given one, never raised, and no slot changes |
| JmpStack.Buffers.JmpFire | src/gt5p_longjmp.cpp:71-79 | fire lands at the topmost armed slot with the buffer's key and disarms it and everything above; with no match nothing changes |
| JmpStack.Buffers.SetJmp | scripts/setjmp_patch.py:74-79 | the call site stores its landing point in the slot it was handed, and only there |
| HostProtocol.HostThread.Do | scripts/setjmp_patch.py:41-101 | the wrappers, run on the thread's own buffers, take each event as the host machine does |
| HostProtocol.LongjmpRefines | src/gt5p_longjmp.cpp:71-79 | a longjmp picks the most recently armed live buffer with the key, drops the frames above its owner, and leaves older buffers armed |
| HostProtocol.StepRefines | scripts/setjmp_patch.py:74-101 | each call, arm, return and longjmp of patched code does what the ideal machine does |
| HostProtocol.FaithfulIffDisciplined | src/gt5p_longjmp.cpp:44-82 | a whole run matches the ideal machine, landings included, if and only if at most 16 buffers are ever armed and no unguarded frame returns armed |
| HostProtocol.NeverWild | src/gt5p_longjmp.cpp:44-47 | in every disciplined run no longjmp enters a frame that has returned |
| HostProtocol.ArmedSlotsAreLive | src/gt5p_longjmp.cpp:44-49 | every armed slot belongs to a frame on the stack, and slots are ordered by frame height |
| HostProtocol.GuardRestoresDepth | scripts/setjmp_patch.py:95-101 | a guarded function called with a slot free leaves frames, depth and armed slots as it found them when it returns, whatever happened before or inside, unless a jump goes wild |
| HostProtocol.GuardNeedsFreeSlot | src/gt5p_longjmp.cpp:57-60 | called with no slot free, some run of it returns one buffer short although nothing goes wild |
| HostProtocol.ReachedOlder | src/gt5p_longjmp.cpp:55-79 | in every reachable state, disciplined or not, armed slots and live frames are older than the next activation and armed keys are aligned |
| HostProtocol.GuardRestoresIffFreeSlot | scripts/setjmp_patch.py:95-101 | in every reachable state, the guard restores after all runs of its function if and only if the depth is below 16 |
| HostProtocol.UncleanReturnWildIff | scripts/setjmp_patch.py:83-93 | in every state matching the ideal machine, after an unguarded return with buffers armed, a longjmp enters the dead frame if and only if it is to one of those buffers |
| HostProtocol.ArmPastBoundWildIff | src/gt5p_longjmp.cpp:57-60 | after the top frame of any full state arms and returns, the longjmps that enter a dead frame are given exactly, for frames with and without buffers or guard |
| HostProtocol.OverflowWildIff | src/gt5p_longjmp.cpp:57-60 | the same for a fresh callee: exactly the longjmps to the buffer slot 15 was armed for |
| HostProtocol.SeventeenBuffersGoWild | src/gt5p_longjmp.cpp:37-60 | a concrete run from thread start with seventeen buffers in which the unconditional claim fails |
| HostProtocol.SixteenBuffersFit | src/gt5p_longjmp.cpp:37-60 | the same run with sixteen buffers completes without entering a dead frame |
| Bytes.XorIsMachineXor | scripts/decrypt_self.py:121 | exclusive or, bit by bit, is the machine's operation on bytes |
| Bytes.BeByteAt | scripts/decrypt_self.py:33-35 | byte k of a big-endian number is the digit with n - 1 - k digits below it |
| Bytes.BeBytesOfNum | scripts/decrypt_self.py:33-35 | reading n big-endian bytes and writing the number gives the bytes back |
| Rap.XorE1Loop | scripts/decrypt_self.py:119-121 | for every p the byte at p is combined with the E1 byte at p |
| Rap.ChainLoop | scripts/decrypt_self.py:123-124 | for every i the byte at PBOX[i] is combined with the original byte at PBOX[i - 1] |
| Rap.BorrowByte | scripts/decrypt_self.py:128-137 | the branches compute one digit of a subtraction with borrow, and the last one is unreachable |
| Rap.SubtractLoop | scripts/decrypt_self.py:126-137 | the third loop subtracts the E2 number from the key number as a whole |
| Rap.SubtractIsModular | scripts/decrypt_self.py:126-137 | that subtraction is modulo 256^16 on the little-endian numbers in PBOX order |
| Rap.RoundByPlaces | scripts/decrypt_self.py:118-137 | bytes that fit together place by place, with the E1, E2 and PBOX entries of the source, machine exclusive or and a borrow from place to place, are a round |
| RapVector.KnownKlicensee | scripts/decrypt_self.py:113-139 | under the identity cipher the zero RAP gives one written-out klicensee |
| Rap.RapToKlicensee | scripts/decrypt_self.py:113-139 | the klicensee is five rounds of the mix applied to the decrypted RAP |
| Rap.RoundInverse | scripts/decrypt_self.py:118-137 | a round and its explicit inverse undo each other both ways |
| Rap.MixInverse | scripts/decrypt_self.py:118-139 | any number of rounds is a bijection on 16-byte keys |
| Rap.KlicenseeBijection | scripts/decrypt_self.py:113-139 | given an invertible cipher, a klicensee has exactly one RAP, the one the inverse computes |
| Ctr.AesCtrDec | scripts/decrypt_self.py:50-61 | byte k is combined with byte k mod 16 of the cipher's image of the big-endian counter iv + k/16; the call fails exactly when a counter value needs more than 128 bits |
| Ctr.StreamInvolution | scripts/decrypt_self.py:50-61 | decrypting twice gives the data back |
| Ctr.StreamSplits | scripts/decrypt_self.py:50-61 | data may be cut at any block boundary with the counter advanced by the blocks consumed, failures included |
| Ctr.CounterBlocksDistinct | scripts/decrypt_self.py:53-60 | no counter block is used twice within the data |
| Align.AlignUpAlignsIffPowerOfTwo | scripts/decrypt_self.py:477 | the mask idiom yields a multiple of the alignment for every offset if and only if it is a power of two |
| Align.AndNotBits | scripts/decrypt_self.py:477 | for any mask, a bit is kept exactly where the mask has none |
| ElfFile.PhdrRoundTrip | scripts/decrypt_self.py:203-214 | parsing a packed program header gives every field back |
| ElfFile.PhdrIsBytes | src/elf_loader.h:132-139 | a program header is read from exactly the bytes that spell it, at their ELF64 offsets |
| ElfFile.FileHeaderIsBytes | src/elf_loader.h:118-123 | entry point, table offset, entry size and count are read from exactly bytes 24, 32, 54 and 56 on |
| ElfFile.TableIsBytes | src/elf_loader.h:131-132 | entry i of the table is spelled by the bytes at table offset plus i entry sizes |
| ElfBuild.LayOut | scripts/decrypt_self.py:463-483 | the layout loop computes the offsets and size the other members speak of |
| ElfBuild.SegmentsOrdered | scripts/decrypt_self.py:466-483 | data lies past the header table and inside the file, each segment wholly before the next, for any alignments |
| ElfBuild.SegmentAligned | scripts/decrypt_self.py:474-478 | a power-of-two alignment of at least 16 is honoured |
| ElfBuild.LayoutIsTight | scripts/decrypt_self.py:466-483 | each offset is the end of the data before it rounded up, the least multiple for powers of two; data starts at the first 64 KiB boundary past the table and the file ends with its last segment |
| ElfBuild.BuildElf | scripts/decrypt_self.py:459-529 | the output is fixed byte by byte: header, table, each segment at its offset, zeros elsewhere; and exactly when packing or the final word check fails |
| ElfBuild.ImageOnBytes | scripts/decrypt_self.py:485-513 | in the output every program header is spelled at 0x40 plus 0x38 per entry, every segment stands at its offset, and the rest past the table is zero |
| ElfBuild.ParsePhdrs | scripts/decrypt_self.py:200-214 | the parse loop reads n headers at stride 0x38, and fails exactly on a short file |
| ElfBuild.ReparsedPhdr | scripts/decrypt_self.py:497-506 | re-parsing the output returns every original field except the offset |
| ElfBuild.ReparsedTable | scripts/decrypt_self.py:200-214 | so the parse loop on the output succeeds and returns the rebuilt table |
| ElfBuild.NewHeaderFields | scripts/decrypt_self.py:489-494 | the header points at the new table, announces no sections, and keeps every other byte, entry point, count and entry size among them |
| ElfLoad.LoadElf | src/elf_loader.h:86-223 | memory and the result record after loading; bytes 24 to 31 are the entry point, resolved to two words of memory exactly when it lies in the reported data segment; no effect on a file without the ELF magic |
| ElfLoad.HeaderWrites | src/elf_loader.h:132-180 | what one header, given by its bytes in the file, does to every byte of memory |
| ElfLoad.HeaderRecorded | src/elf_loader.h:141-197 | what one header, given by its bytes in the file, changes in the result record |
| ElfLoad.LastCoverWins | src/elf_loader.h:132-200 | in every loadable file, an address some header writes holds the file byte, or the zero past the file bytes, of the last header that writes it |
| ElfLoad.UncoveredKept | src/elf_loader.h:132-200 | in every loadable file, memory that no header writes is unchanged |
| ElfLoad.RegularWrites | src/elf_loader.h:172-180 | for a segment in 32-bit space with its bytes in the file, what is written is the range up to the larger of file and memory size |
| ElfLoad.ReportedSegments | src/elf_loader.h:141-197 | the result names the last data, code and TLS segments with their sizes |
| ImageRead.BuildSegs | scripts/dis.py:24-31 | the segment list holds the loadable headers in order |
| ImageRead.ReadLoop | scripts/rtti.py:49-54 | both readers take the first segment holding the address; one clips at its end, the other does not |
| ImageRead.FirstHeaderIsRead | scripts/rtti.py:30-54 | the first header of type 1 in the file whose image holds the address is read, clipped as each reader does; without one nothing is |
| ImageRead.ReadersSeeMemory | scripts/dis.py:34-38 | with disjoint segments a read within one file image returns what guest memory holds after loading, by either reader |
| ElfBuild.ImageExists | scripts/decrypt_self.py:485-513 | whenever the offsets fit, a file with the described content exists |
| BuildThenLoad.TableRightIffStrideFits | scripts/decrypt_self.py:488-494 | for a header entry size and count, all rebuilt files show the reader the rebuilt headers if and only if the count is at most 1 or the size is 0x38 |
| BuildThenLoad.ImageIsLoadable | src/elf_loader.h:118-160 | a rebuilt file below 2 GB meets everything the loader relies on |
| BuildThenLoad.BuildThenLoadSegment | scripts/decrypt_self.py:459-529 | building then loading puts all of every segment's bytes at its address, even past its memory size, and zeros up to that size |
| BuildThenLoad.BuildThenLoadElsewhere | src/elf_loader.h:172-180 | and leaves all other guest memory unchanged |
| BuildThenLoad.RebuiltFileIsRead | scripts/dis.py:34-38 | both readers, given the rebuilt file, return the decrypted segment's own bytes |
| BuildThenLoad.EntryDescriptorResolved | src/elf_loader.h:204-218 | an entry point in the data segment, bytes 24 to 31 of the header, resolves to the bytes of the decrypted segment's descriptor |
| Demangle.PartsLoop | scripts/rtti.py:78-96 | the component loop computes the specified parse and ends on every input |
| Demangle.ReadArgsLoop | scripts/rtti.py:98-115 | the argument loop computes the specified parse and ends on every input |
| Demangle.DemangleName | scripts/rtti.py:73-124 | the whole demangler computes the specified name |
| Demangle.PartsReadsComps | scripts/rtti.py:78-96 | components are read exactly, up to and including their own closing E |
| Demangle.ArgsAreRead | scripts/rtti.py:98-115 | template arguments are read exactly, up to and including their own closing E |
| Demangle.DemangleInvertsMangle | scripts/rtti.py:73-124 | demangling the encoding of any name of the grammar gives the name as it is written, by recursion on the name |
| Demangle.KnownName | scripts/rtti.py:15-16 | the script's own example |
| Demangle.KnownTemplate | scripts/rtti.py:98-115 | a template name with a builtin, a nested and a plain argument |
| Demangle.CutShortInArguments | scripts/rtti.py:98-115 | a name that ends inside its last argument list shows the arguments read so far |
| Demangle.PlainNameLines | scripts/rtti.py:120-124 | a plain name is a line cut at the stated length, with or without a final newline; text past a newline makes it no name |
| Demangle.UnchangedIffUnrecognised | scripts/rtti.py:13-16 | for every symbol the result is the symbol itself if and only if no identifier is read from it |
| Demangle.PartsSpendDigits | scripts/rtti.py:78-96 | what the component parser returns has no more digits than the text consumed, and fewer once a component was read |
| Demangle.TailIsDropped | scripts/rtti.py:89-91 | text after whole components is dropped, and the name comes back unchanged only without any component |
| Demangle.UnreadTextIsDropped | scripts/rtti.py:117-124 | two symbols whose unread text is dropped, a nested name cut short and a plain name with text left over |
| JumpTable.ReadTable | scripts/jumptables.py:69-90 | the scan returns a prefix of targets in which no entry lies at or past an earlier forward target, ends only where the next entry is no part of the table, and fails only on a word cut off by the end of the file |
| JumpTable.ScanIsLongest | scripts/jumptables.py:69-90 | such a stopping prefix is the longest one, so the result is unique |
| JumpTable.EntryOnBytes | scripts/jumptables.py:42-89 | an entry is the target t exactly when its bytes spell t's offset from the table base and t is aligned text that is not padding; when the scan stops and when it fails are exact too |
| JumpTable.RealTableRecovered | scripts/jumptables.py:69-76 | for a compiler-laid table, given by the bytes of its entries and targets, the scan's result is exactly the table |
| JumpTable.RecoverTable | scripts/jumptables.py:69-90 | running the scan on such a table returns its entries, without an error |
| FreeList.WalkChain | src/gt5p_bbcount.cpp:211-217 | a chain counts as bad exactly when one of its first 4096 nodes fails the node test |
| FreeList.FreelistBad | src/gt5p_bbcount.cpp:207-220 | the result is the number of the sixteen buckets that lead to a broken node, and zero if and only if none does |
| FreeList.BadIsBroken | src/gt5p_bbcount.cpp:197-220 | a bucket is bad exactly when its head word leads over the words at +12, within 4096 nodes, to one that fails a condition stated on the words at +4 and +12 |
| FreeList.ZeroMeansIntact | src/gt5p_bbcount.cpp:207-220 | a zero vouches for every node reachable in chains that end or loop within 4096 nodes |
| FreeList.ResultDependsOnReads | src/gt5p_bbcount.cpp:207-220 | the result is a function of the bucket heads and the +4 and +12 words of visited nodes |
| FreeList.BracketingIsSound | src/gt5p_allocwatch.cpp:240-245 | if the count changes across a call, one of the words the first walk read was changed |
| ParallelWalk.CleanIffPrefix | scripts/audit_branch.py:33-67 | no mismatch if and only if the lines asked for, in order, come first among the lifted ones |
| ParallelWalk.SurplusUnreported | scripts/audit_branch.py:33-67 | lifted lines past the last one asked for never change the count |
| ParallelWalk.MismatchesAreCounted | scripts/audit_branch.py:33-67 | the result is the number of audited instructions whose line is missing or wrong |
| AuditBranch.Check | scripts/audit_branch.py:33-67 | the result counts the branches whose line, paired by rank, is missing or not the expected one |
| AuditBranch.AuditedWords | scripts/audit_branch.py:43-48 | the audited words are exactly the encodings of a bc that leaves CTR alone |
| AuditBranch.AcceptedIffSameBranch | scripts/audit_branch.py:46-60 | for an instruction given by its fields and encoded, a lifted line is accepted if and only if it branches as the instruction does for every condition register |
| AuditBranch.UnconditionalFormMisjudged | scripts/audit_branch.py:47-52 | the expected line is right for every register value exactly when BO's top bit is clear |
| AuditBranch.CleanAuditIsFaithful | scripts/audit_branch.py:33-67 | no mismatch means every audited conditional branch has its own line with the same sense |
| AuditBranch.CleanAuditIffFaithful | scripts/audit_branch.py:33-67 | for lines of the emitted shape and no branch-always form, no mismatch if and only if every audited branch has its own line with the same sense |
| AuditCmp.Check | scripts/audit_cmp.py:38-81 | the result counts the compares whose line, paired by rank, is missing or not the expected one |
| AuditCmp.CompareWords | scripts/audit_cmp.py:51-61 | the audited words are exactly the encodings of cmp, cmpl, cmpi and cmpli |
| AuditCmp.DecodesAs | scripts/audit_cmp.py:51-61 | the script's shifts recover form, field, width and signedness from the encoding |
| AuditCmp.AcceptedIffSameCompare | scripts/audit_cmp.py:51-76 | for an instruction given by its fields and encoded, and every second operand, register or immediate, a lifted line is accepted if and only if it sets the same field to the same result for every first operand |
| AuditCmp.CleanAuditIsFaithful | scripts/audit_cmp.py:38-81 | no mismatch means every compare has its own line with the same effect |
| AuditCmp.CleanAuditIffFaithful | scripts/audit_cmp.py:38-81 | for lines of the emitted shape, no mismatch if and only if every compare has its own line with the same effect |
| AuditCmp.SignednessShowsAcrossTheMiddle | scripts/audit_cmp.py:4-8 | signed and unsigned word compares differ exactly when one operand alone has crossed 0x80000000 |
| Argv.SetupArgv | src/main.cpp:350-422 | the guest memory and the three argument registers after set-up, for any argument string |
| Argv.TokensOfJoined | src/main.cpp:407-408 | splitting words joined by any runs of blanks and tabs gives the words back |
| Argv.ArgumentsAreWords | src/main.cpp:398-415 | the arguments are the first 29 words of the first 511 characters |
| Argv.DefaultArgument | src/main.cpp:398-399 | without an argument string there is one argument, boot_from=gamedata |
| Argv.PosIsTight | src/main.cpp:406-413 | strings are packed from 0x180 on, each at the next multiple of 16 |
| Argv.StringsBelowEnvp | src/main.cpp:401-417 | however the 511 characters split, the token strings end below the environment word |
| Argv.BlockIsComplete | src/main.cpp:371-418 | every 64-bit slot points at its own intact string, the slots end in a null one and the environment is empty |
| Argv.BlockElsewhere | src/main.cpp:356-357 | outside the 64 KiB block memory is unchanged, and inside it all but pointers and strings is zero |
| Argv.Argv0IntactIffShort | src/main.cpp:371-372 | argv[0] survives every argument string if and only if it is shorter than 128 characters |
| Argv.Compact | src/main.cpp:359-370 | the guest's in-place loop stores every slot's low word without overwriting an unread slot |
| Argv.GuestSeesArguments | src/main.cpp:359-373 | after compaction entry i of the 32-bit array is the address of argument i's text, for i below argc |
| Argv.WordAfterArguments | src/main.cpp:359-370 | entry argc is null if and only if argc is even; for odd argc it is the address of argument (argc - 1) / 2 |
| AllocWatch.Recorder.Note | src/gt5p_allocwatch.cpp:973-1006 | a note appends the block and adds one report for each of the first 4096 blocks it clashes with in 32-bit arithmetic |
| AllocWatch.SilentIffDisjoint | src/gt5p_allocwatch.cpp:987-1006 | for ranges that do not wrap, zero reports if and only if no block overlaps a recorded earlier one |
| AllocWatch.ReportsCountPairs | src/gt5p_allocwatch.cpp:987-1006 | at any length the reports count the overlapping pairs whose earlier block is among the first 4096 |
| AllocWatch.ReissueNoticedIffNoWrap | src/gt5p_allocwatch.cpp:989 | a block handed out twice is noticed if and only if its end does not wrap |
| Ticker.PresentThread.Pass | src/gt5p_present.cpp:80-94 | a pass fires every tick that is due, at most 240; the next one is then 16 ms per tick later, or now after 240 |
| Ticker.TicksFollowClock | src/gt5p_present.cpp:77-94 | on any clock that never runs backwards the ticks sent are exactly those due without a resync, and at most one more per resync |
| Ticker.TicksFollowResync | src/gt5p_present.cpp:77-94 | after a resync at a clock value, and until the next one, the ticks sent are exactly those due from that value on |
| Ticker.DueCounts | src/gt5p_present.cpp:84-92 | the ticks due count the instants 16 ms apart up to the clock value |

## Left out

- AES and zlib: the block cipher is a function parameter, invertible where a result needs it, and decompression is not part of this model.
- scripts/decrypt_self.py outside the members above: key tables, metadata parsing and the search for a key set.
- The text level of scripts/setjmp_patch.py (regular expressions, files, chunks): a call in the model says whether the function was guarded. The value a longjmp passes and the guest registers are not modelled.
- ElfBuild.BuildElf: does not model running out of memory for a huge alignment.
- ElfLoad.LoadElf: vm_commit is taken to have no effect on content; inputs on which the C code has undefined behaviour (a table outside the file, a wrapped offset, writing past 4 GB, a file of 2 GB or more) are excluded.
- ImageRead: raising KeyError is the result NotMapped; `u32`, `cstr` and the vtable walk of scripts/rtti.py are plumbing over the reader.
- The rest of scripts/jumptables.py: finding candidate branches and cutting a table at its guarding compare.
- Demangle.DemangleName: digits are the ASCII ones, as in every name the script passes.
- The matching of lifted source text in both auditors: a lifted branch is its shift, mask and sense, a lifted compare its cast and shift. A function without lifted text, which the scripts count as clean, is not modelled either. The summary-overflow bit a compare copies and the check of an immediate's value are not modelled.
- Argv.SetupArgv: vm_write64 is taken to store big-endian, as guest words are; strtok is modelled by the token split it performs.
- Argv.Compact: the guest loop is modelled from its description in src/main.cpp; its code is not in the repository.
- AllocWatch.Recorder.Note: the counters are unbounded, and the lock, the log lines and the environment switches are left out.
- Ticker.PresentThread.Pass: clock values are integers, so the wrap of the 64-bit millisecond counter is not modelled; presenting and draining are left out.
- Threads, exception handlers, host unwinding, graphics and stdio: effects of the host platform.
