# A verified model of parts of systemd

This project models the most intricate algorithms of a systemd source tree in Dafny and proves what they promise:

* **Symlink resolution** (`src/basic/chase.c` with the helpers it uses from `src/basic/path-util.c`). `Chase` is the
  loop of `chaseat()` as a state machine over an unchanging file system of directories, files and symlinks
  (`FileSystem`). `ChaseLoop` is the same loop in its own form, on strings, a file descriptor and a counter, proved
  equal to the machine. `Resolver` is ordinary recursive pathname resolution, and the loop is proved to refine it: the
  place that is reached, the path that is returned and the error are the same. `ChaseRuns` and `ChaseReplay` hold what
  is true of every run: where the loop stands, who owns what it stands on, what a result looks like, that resolving
  twice changes nothing, and that step-by-step resolution takes the same way as resolution in one go. `ChaseAsserts`
  settles when the assertions of the loop hold. `ChasePosix` compares with resolution as section 4.13 of POSIX.1-2017
  XBD has it, and proves how results fit into the host's own resolution.
* **ELF to PE conversion** (`tools/elf2efi.py`). `Elf2efi`, `RelocTable`, `PeRelocate` and `PeImage` follow the script
  from section copying to the written file. `PeLoader` defines two small loaders and proves exactly for which load
  addresses the PE file means what the ELF file means: for all of them unless a word is relocated more than once.
  `PeExamples` has input files for which it does not. The format of base relocations is that of "The .reloc Section
  (Image Only)" in the Microsoft PE Format specification. `Bytes` has little-endian words and memory.
* **Capability transitions** (`src/basic/capability-util.c`), against the rules of capabilities(7) as a small kernel.
* **cgroup names and killing** (`src/basic/cgroup-util.c`): `CgroupNames`, `CgroupRoundTrip`, `CgroupKill`.
* **The critical-chain walk** (`src/analyze/analyze-critical-chain.c`), **D-Bus label escaping**
  (`src/basic/bus-label.c`) and **the exposure score** (`src/analyze/analyze-security.c`).

Code that works step by step is modelled by methods with loops, arrays and classes; each is tied by its `ensures` to a
function, and the properties are lemmas about that function. `dafny verify dfyconfig.toml` checks everything.

## Findings

* *The assertions of `chaseat()` can fire.* The branch of `src/basic/chase.c:319-320` asserts that
  `path_extract_directory()` does not fail with EINVAL in the two modes modelled here. It does fail so when the parent
  directory's path is PATH_MAX or longer, because `path_extract_directory()` checks its result with
  `path_is_valid()`. `ChaseAsserts.AssertsReachableExactly` gives the exact condition on the file system, for all
  flags, `ChaseAsserts.AssertFiresExactly` the exact condition on a state, `ChaseAsserts.DeepTreeAborts` a concrete
  tree, and `Resolver.ChaseRefinesResolution` the exact condition on a path.
* *An ELF relocation that reaches over the end of its section* is accepted by `apply_elf_relative_relocation()`, and
  makes the section's data longer (`PeRelocate.ApplyElfRelativeRelocation`). The raw data in the headers tiles the
  file if and only if no relocated word reaches over the raw size, which is a multiple of 512 bytes, of the section
  in which it starts (`PeImage.ConversionTilesExactly`). `PeExamples.StraddlingIsNotTiled` is a file for which it does,
  at every image base.
* *An ELF relocation that is listed more than once.* An ELF loader forgets all relocations of a word before the last
  one with an addend of its own; a PE loader forgets none. `PeLoader.ConversionIsFaithful` has the exact condition. A
  RELA entry listed twice is converted rightly only for load addresses that need no shift (`PeLoader.ListedTwice`, with
  the file of `PeExamples.TwiceIsUnfaithful`); REL entries may be listed any number of times
  (`PeLoader.RelIsFaithful`).
* *ELF relocations whose words overlap in part.* At load addresses that need no shift the conversion is right
  (`PeLoader.UnshiftedIsFaithful`). At others a carry can get into the overlapping word:
  `PeExamples.OverlapIsUnfaithful` is a file that is wrong four gigabytes above its image base.
* *`capability_quintet_mangle()` sets unset masks.* An unset mask is all ones to the code, so that it stays unset if
  and only if the bounding set is full (`Capabilities.QuintetMangle`).
* *Resolution differs from section 4.13 of POSIX.1-2017 XBD* for the empty path, which is the base directory
  (`ChasePosix.EmptyIsBase`), and for other paths in these ways, which `ChasePosix.ChaseAndStandard` proves to be all,
  with the flags that refuse off and unless an assertion fires:
  * Something that is no directory is returned where a slash or "/." at the end of the path, or of the target of a
    link on the way, demands a directory (`ChasePosix.TrailingSlashIsIgnored`, `ChasePosix.SlashBehindFile`); so is a
    link, under CHASE_NOFOLLOW, that a slash or "/." behind it would have made the standard follow.
  * The error is EINVAL where the standard has another: for a component longer than NAME_MAX, and for a link with an
    empty target (`ChasePosix.OverlongIsInvalid`, `ChasePosix.OverlongOrEmptyIsInvalid`).

  Where resolution meets none of these the verdict is the standard's (`ChasePosix.ChaseIsStandard`), and a directory
  that is returned is always the one that the standard reaches (`ChasePosix.DirectoriesAgree`).

## Model

| member | source | states |
|---|---|---|
| `PathUtil.FirstComponentMeaning` | src/basic/path-util.c:836-905 | Peeling off the first component agrees with splitting at slashes and dropping empty and "." parts; it fails exactly for an overlong component or an unwanted ".." |
| `PathUtil.ExtendMeaning` | src/basic/path-util.c:528-600 | Joining two paths has the components of both, in order, whatever slashes they have |
| `PathUtil.RenderMeaning` | src/basic/path-util.c:528-600 | A path built up by joining components has exactly these components |
| `PathUtil.LexJoined` | src/basic/path-util.c:836-905 | Peeling undoes joining: the first component comes back, and the rest is the rest of the join |
| `PathUtil.LexExtend` | src/basic/path-util.c:528-600 | Peeling the first component off a join peels it off the first path, or off the second if the first has none |
| `PathUtil.ExtractDirectoryOfRender` | src/basic/path-util.c:1096-1141 | Taking the directory of a normalized path undoes one join, except for an overlong parent, which is refused |
| `Chase.MoveDecreases` | src/basic/chase.c:250-478 | Every turn lowers the symlink budget, or keeps it and shortens what is left to do; so the loop ends on every file system, cyclic links included |
| `Chase.MoveKeepsInv` | src/basic/chase.c:250-478 | Every turn keeps the loop invariant: the literal walk along `done` ends at the open inode, through directories that the flags allow |
| `Chase.UpIsParent` | src/basic/chase.c:285-306 | The parent of the open inode is where `done` without its last component leads |
| `ChaseRuns.RunKeepsInv` | src/basic/chase.c:250-478 | The invariant holds in every state of every run |
| `ChaseRuns.LoopPosition` | src/basic/chase.c:276-282 | In every state of every run `done` leads literally to `fd` through real directories only, `done` is empty exactly at the base, and `fd` is the base or below it |
| `ChaseRuns.RunExists` | src/basic/chase.c:250-478 | Every partial run extends to a complete one, which ends in the outcome of the call |
| `ChaseRuns.SafeRunsKeepOwner` | src/basic/chase.c:402-404 | With CHASE_SAFE, and whatever other flags, once the open inode belongs to a non-root user, all later ones belong to the same user |
| `ChaseRuns.SafeResultKeepsOwner` | src/basic/chase.c:16-25 | So does the returned inode |
| `ChaseRuns.ResultIsCanonical` | src/basic/chase.c:468-477 | A result has no ".." and no symlink in a proper prefix, and leads literally to the returned inode, or to nothing if the call says that it does not exist |
| `ChaseRuns.ResultForm` | src/basic/chase.c:647-652 | A result, of a step too, is not empty, and is absolute exactly if the base is the host's root: the assertions of `chase()` hold |
| `ChaseRuns.SafeExactly` | src/basic/path-util.c:1173-1190 | `path_is_safe()` accepts exactly the non-empty paths shorter than PATH_MAX without ".." and without overlong components |
| `ChaseReplay.Replay` | src/basic/chase.c:250-478 | Resolving a part of `done` again, followed by anything, comes back to the same state |
| `ChaseReplay.Idempotent` | src/basic/chase.c:410-478 | Resolving a result again, with the same flags, gives the same path, inode and existence |
| `ChaseReplay.StepByStep` | src/basic/chase.c:516-549 | Whenever resolution in one go succeeds, with any flags, repeating CHASE_STEP on the returned path yields 0 once for each symlink and ".." that it meets, and then the same final result |
| `Resolver.ResolveConcat` | src/basic/chase.c:454-462 | Splicing a link's target before the rest is resolving the target first and then the rest |
| `Resolver.LimitExact` | src/basic/chase.c:418-419 | A larger budget of links never changes what is reached, and a smaller one only refuses |
| `Resolver.GuardOnlyCrashes` | src/basic/chase.c:305-321 | The assertions change nothing but to crash: resolution with them is plain resolution or a crash |
| `Resolver.MissingDecided` | src/basic/chase.c:369-396 | A missing name is a result exactly if CHASE_NONEXISTENT is on and what follows, as it is spelled then, is nothing or is shorter than PATH_MAX without ".." and overlong components; the result then names the missing place and what follows it, in order, and else there is an error |
| `Resolver.LoopAgrees` | src/basic/chase.c:250-478 | From every reachable state the loop has the verdict of recursive resolution of what is left to do: place, path, error or crash, and for a missing name whether it is a result, and which |
| `Resolver.ChaseRefinesResolution` | src/basic/chase.c:250-478 | For every path, `chaseat()` has the one verdict that recursive resolution, with ".." clamped at the root and 31 links allowed, decides, the path that is returned for a missing name included; it aborts if and only if resolution goes up where the path is too long, and else agrees with plain resolution |
| `Resolver.ChaseReaches` | src/basic/chase.c:418-419 | What resolution without a limit reaches over at most 31 links is returned, inode and path; a 32nd link gives ELOOP |
| `Resolver.ChaseReachesOnly` | src/basic/chase.c:250-478 | Nothing else is ever returned as existing |
| `Resolver.FlagsOnlyRefuse` | src/basic/chase.c:402-415 | CHASE_SAFE, CHASE_PROHIBIT_SYMLINKS and CHASE_NO_AUTOFS can turn an outcome into an error and never change it otherwise |
| `Resolver.RefusedExactly` | src/basic/chase.c:402-415 | A call is refused by these flags if and only if the run without them takes a step that one of them forbids: into an inode of another user from one of a non-root user, onto an automount point, or over a symlink |
| `ChaseAsserts.AssertFiresExactly` | src/basic/chase.c:305-321 | An assertion fires in a state exactly if ".." is taken where the parent's path is too long to be valid |
| `ChaseAsserts.ShallowNeverAborts` | src/basic/chase.c:305-329 | On a file system without such a directory no run meets a failing assertion |
| `ChaseAsserts.DeepAborts` | src/basic/chase.c:305-329 | Every such directory that the flags let through is a way to make one fire |
| `ChaseAsserts.AssertsReachableExactly` | src/basic/chase.c:305-329 | For all flags, some path makes an assertion fire if and only if such a directory can be walked to under these flags |
| `ChaseAsserts.ShallowRefines` | src/basic/chase.c:250-478 | On a file system without such a directory `chaseat()` is plain pathname resolution |
| `ChaseAsserts.DeepTreeAborts` | src/basic/chase.c:305-321 | A chain of directories with names of 255 bytes is a concrete example, for all flags |
| `ChasePosix.WalkResolves` | src/basic/chase.c:468-477 | Resolving a path without ".." and without links on the way is a literal walk |
| `ChasePosix.ResultInHost` | src/basic/chase.c:647-660 | The path that `chase()` returns, resolved by the host, leads to the inode that was found under the root directory, over no link but those in the root path; a missing one is missing there |
| `ChasePosix.EmptyIsBase` | src/basic/chase.c:104-105 | The empty path is the base directory |
| `ChasePosix.OnlyComponentsMatter` | src/basic/chase.c:250-478 | Unless a rest of the path is returned, the outcome depends on the components of the path only |
| `ChasePosix.TrailingSlashIsIgnored` | src/basic/chase.c:250-264 | Without CHASE_NONEXISTENT and CHASE_STEP, which return an unresolved rest, a trailing slash or "/." does not change the outcome |
| `ChasePosix.SlashBehindFile` | src/basic/chase.c:410-410 | For every path that leads to something that is no directory, the same path with a slash behind it returns the same, which is not the verdict of the standard |
| `ChasePosix.OverlongIsInvalid` | src/basic/chase.c:256-258 | A path that starts with an overlong component is invalid |
| `ChasePosix.StrictRelated` | src/basic/chase.c:250-478 | From every place, resolution as the code has it and as the standard has it agree, or differ in one of the ways listed above and no other |
| `ChasePosix.DemandIsMet` | src/basic/chase.c:250-264 | Resolution as the standard has it finds nothing but a directory where a path demands one, and never has EINVAL |
| `ChasePosix.OrdinaryAgrees` | src/basic/chase.c:410-462 | The two agree where no overlong component, and no target that is empty or ends in a slash or "/.", is met |
| `ChasePosix.OrdinaryEverywhere` | src/basic/chase.c:410-462 | None is met from any place if the components of the path and of all targets are short, and no target is empty or ends in a slash or "/." |
| `ChasePosix.ChaseAndStandard` | src/basic/chase.c:250-478 | For every path but the empty one, the outcome of `chaseat()` is the verdict of the standard, or a non-directory where the standard has ENOTDIR or follows a link that a slash is behind, or EINVAL where the standard has ENAMETOOLONG, ENOENT or ENOTDIR; EINVAL is never the standard's verdict |
| `ChasePosix.OverlongOrEmptyIsInvalid` | src/basic/chase.c:424-425 | Where the standard meets an overlong component or an empty target, on the path or in a target, the outcome is EINVAL or an abort, unless CHASE_NOFOLLOW keeps a link that a slash is behind |
| `ChasePosix.DirectoriesAgree` | src/basic/chase.c:468-477 | A directory that is returned, and its path, are the verdict of the standard |
| `ChasePosix.ChaseIsStandard` | src/basic/chase.c:250-478 | If no such component or target is met and the path does not end in a slash or "/.", every outcome but an abort is the verdict of the standard |
| `ChaseLoop.Chaseat` | src/basic/chase.c:205-550 | The loop on strings and buffers computes the outcome of the state machine |
| `ChaseLoop.TakeDotDot` | src/basic/chase.c:271-365 | One turn on "..", all branches, is one move of the machine |
| `ChaseLoop.TakeComponent` | src/basic/chase.c:367-477 | One turn on a name is one move of the machine |
| `ChaseLoop.TakeSymlink` | src/basic/chase.c:410-466 | So is following a link, with restart at the root and splicing |
| `ChaseLoop.FinishStep` | src/basic/chase.c:521-549 | The path returned for a step joins what is done and what is left |
| `Elf2efi.AlignToIs` | tools/elf2efi.py:242-243 | Aligning gives the least multiple that is not smaller |
| `Elf2efi.TakeSection` | tools/elf2efi.py:285-310 | Refuses a section exactly if it would overlap what it joins; its bytes are then at their address, and nothing taken before is lost |
| `Elf2efi.MergedIs` | tools/elf2efi.py:259-314 | Every copied byte is at its address with its protection, and neighbours have different protections |
| `Elf2efi.IterCopySections` | tools/elf2efi.py:259-314 | Succeeds exactly if segments are page-aligned, and copied sections hold bits or zeros and do not overlap within one protection; it then yields the merged sections |
| `Elf2efi.ConvertSections` | tools/elf2efi.py:317-355 | Succeeds exactly if the page-aligned sections are in order; they are then disjoint and sized by their data |
| `Elf2efi.CopySections` | tools/elf2efi.py:358-381 | Succeeds exactly if every requested section that exists can be copied; each is then appended once, in order, read-only, on pages of its own |
| `Elf2efi.LayOut` | tools/elf2efi.py:608-609 | The three stages together, with their exact success condition |
| `Elf2efi.LayoutIs` | tools/elf2efi.py:317-381 | The layout is page-aligned and disjoint, is sized by its data, and has every copied byte at its address |
| `PeRelocate.UpdateIsWrite` | tools/elf2efi.py:401-402 | Overwriting part of a section's data is writing to the memory of the image and nothing else |
| `PeRelocate.FindTarget` | tools/elf2efi.py:390-391 | Finds the section that contains the offset if and only if there is exactly one |
| `PeRelocate.ApplyElfRelativeRelocation` | tools/elf2efi.py:384-402 | Succeeds exactly if one section has the offset, its data can be changed and the value fits; the data then reaches to the end of the word at least, all else is unchanged, and inside a section it acts on memory as the loader's "base plus addend" does, for REL and RELA |
| `PeRelocate.ConvertElfRelocTable` | tools/elf2efi.py:405-453 | Succeeds exactly if no relocation is unsupported and all relative ones can be applied in turn; yields what they make of the sections, and their entries |
| `PeRelocate.AllAppliedAreFixes` | tools/elf2efi.py:384-402 | Inside their sections all relocations together act on memory as a loader's do |
| `PeRelocate.GrowthExactly` | tools/elf2efi.py:401-402 | The data stays within the sizes in the headers if and only if no relocated word straddles one |
| `PeRelocate.EntriesHold` | tools/elf2efi.py:440-449 | There is one entry for each relocation, on its page |
| `PeRelocate.ConvertTables` | tools/elf2efi.py:499-507 | The same for all tables of the file, which must be REL or RELA |
| `RelocTable.AddEntryHolds` | tools/elf2efi.py:440-449 | The blocks always hold one entry per relocation, on its page, in order |
| `RelocTable.TableRoundTrip` | tools/elf2efi.py:515-530 | Parsing the emitted bytes block by block gives back the blocks, with increasing pages and 4-byte boundaries |
| `RelocTable.TableIsFaithful` | tools/elf2efi.py:515-530 | The parsed table has exactly one typed entry per relocation, at its offset plus the shift of the image, and otherwise padding |
| `PeImage.EmitTable` | tools/elf2efi.py:515-530 | The loop over sorted pages emits the table |
| `PeImage.HeadersFit` | tools/elf2efi.py:477-492 | The header area holds all section headers, and the shift is whole pages and lifts the image above it |
| `PeImage.Assemble` | tools/elf2efi.py:509-543 | All sections move by the shift, and the table follows on pages of its own exactly if there is a relocation |
| `PeImage.ConvertElfRelocations` | tools/elf2efi.py:456-543 | Succeeds exactly if the file is a PIE with sections and its relocations convert; the image is then page-aligned, disjoint, above its headers, relocated and shifted, and its entry point is shifted with it |
| `PeImage.OrderedIsSorted` | tools/elf2efi.py:561 | Sorting by address changes nothing |
| `PeImage.PlaceSections` | tools/elf2efi.py:560-568 | The overlap error cannot be raised, and file positions are aligned and follow one another |
| `PeImage.WritePe` | tools/elf2efi.py:546-576 | The assertion on the header size holds, the file ends behind the last section, and every section's data is where its header says |
| `PeImage.TilesExactly` | tools/elf2efi.py:560-576 | The raw ranges in the headers are aligned and fill the file from the headers to its end if and only if every recorded size is that of the data |
| `PeImage.ConversionTilesExactly` | tools/elf2efi.py:317-355 | So a converted file is tiled if and only if no relocation of the input reaches over the raw size of the section in which it starts |
| `PeLoader.RelocatedTo` | tools/elf2efi.py:395-402 | A word after its relocations: the base once for each that is not forgotten, added to the last addend or the word itself, modulo the word size |
| `PeLoader.SameWord` | tools/elf2efi.py:401-402 | Relocating for the preferred base and shifting once per relocation is relocating for the real base if and only if the forgotten relocations do not matter |
| `PeLoader.TableIsFound` | tools/elf2efi.py:515-543 | A loader that reads the file finds the table in memory, and it lists the places of all relocations |
| `PeLoader.ChainAgrees` | tools/elf2efi.py:384-449 | Conversion, writing and loading compose: every byte agrees, relocated or not, if and only if nothing is lost |
| `PeLoader.ConversionIsFaithful` | tools/elf2efi.py:579-645 | At every load address the PE loader accepts the file; every byte of the ELF image loaded `shift` higher is in the PE image if and only if nothing is lost to relocations of one word; and the entry point is in the same place |
| `PeLoader.ApartIsFaithful` | tools/elf2efi.py:579-645 | If relocated words do not overlap the conversion is faithful at every load address |
| `PeLoader.RelIsFaithful` | tools/elf2efi.py:397-399 | So it is with REL relocations, however often they are listed |
| `PeLoader.InsideTiles` | tools/elf2efi.py:532-576 | Relocated words inside copied sections straddle nothing, so that the file is tiled |
| `PeLoader.NothingIsLost` | tools/elf2efi.py:278-314 | That covers every byte of every copied section |
| `PeLoader.ListedTwice` | tools/elf2efi.py:395-396 | A file whose relocations are one RELA entry twice is converted faithfully for a load address if and only if the address needs no shift |
| `PeLoader.UnshiftedIsFaithful` | tools/elf2efi.py:384-402 | At a load address that needs no shift the conversion is faithful however the relocated words overlap |
| `PeLoader.Elf2Efi` | tools/elf2efi.py:579-645 | The whole conversion succeeds exactly if the layout and the relocations do; its result is then faithful, and tiled, exactly under the two conditions above, and the image size covers all sections |
| `PeExamples.StraddlingIsNotTiled` | tools/elf2efi.py:401-402 | At every image base a file with a relocation four bytes before the end of its section is converted, and the result is not tiled |
| `PeExamples.TwiceIsUnfaithful` | tools/elf2efi.py:395-396 | At every image base a file with one relocation listed twice is converted, and the result is faithful exactly at load addresses that need no shift, so not 4096 bytes higher |
| `PeExamples.OverlapIsUnfaithful` | tools/elf2efi.py:401-402 | At every image base a file with two relocations whose words overlap by half is converted, and the result is faithful at the image base and not four gigabytes higher |
| `Capabilities.UpdateInheritedSet` | src/basic/capability-util.c:90-105 | The inheritable set becomes exactly the known part of the mask |
| `Capabilities.AmbientSetApply` | src/basic/capability-util.c:107-166 | Ends with exactly the wanted ambient set, within the bounding set, and if asked to with the same inheritable set; fails exactly if the kernel's rules forbid it |
| `Capabilities.GainCapSetpcap` | src/basic/capability-util.c:168-200 | CAP_SETPCAP is effective afterwards exactly if it was permitted or effective, and nothing else changes |
| `Capabilities.BoundingSetDrop` | src/basic/capability-util.c:202-266 | Succeeds exactly if CAP_SETPCAP is permitted or nothing has to go; the bounding set then loses the rest and temporary privilege is gone |
| `Capabilities.RaiseAmbient` | src/basic/capability-util.c:452-492 | The first stage of enforcement, with its exact success condition |
| `Capabilities.QuintetEnforce` | src/basic/capability-util.c:448-617 | Succeeds exactly under a condition on the start state, and ends in a state that depends on nothing else |
| `Capabilities.QuintetReachedExactly` | src/basic/capability-util.c:448-617 | For a fully set quintet the end state is the quintet itself if and only if it is inside the current bounding set and consistent, although CAP_SETPCAP is added on the way |
| `Capabilities.WhoCanEnforce` | src/basic/capability-util.c:448-617 | Which processes can enforce a consistent quintet, in terms of what they hold |
| `Capabilities.EnforceOnlyDrops` | src/basic/capability-util.c:448-617 | Enforcement never adds permitted or bounding capabilities, and keeps the kernel's invariants |
| `Capabilities.EnforceAgain` | src/basic/capability-util.c:448-617 | Enforcing a reached quintet again succeeds and changes nothing |
| `Capabilities.OverlayAll` | src/basic/capability-util.c:503-569 | The loop over all capabilities takes each set from the quintet if set there, else from the process |
| `Capabilities.QuintetMangle` | src/basic/capability-util.c:412-446 | Exactly the known capabilities outside the bounding set go from every mask, also from those that are unset and thereby all ones; a mask is unset afterwards exactly if it was before and the bounding set is full, the ambient one exactly if it was before; and the result says whether anything changed |
| `Capabilities.BitList` | src/basic/capability-util.c:342-358 | The list has exactly the bits of the mask, in order |
| `Capabilities.DropPrivileges` | src/basic/capability-util.c:308-369 | Succeeds exactly under the stated privileges, and ends with permitted and effective sets equal to the mask, nothing inheritable or ambient, the bounding set cut to the mask, and the new user everywhere |
| `CgroupNames.EscapeRoundTrip` | src/basic/cgroup-util.c:1666-1703 | Unescaping undoes escaping, and an escaped name is a valid file name that differs by at most one underscore |
| `CgroupNames.CgSliceToPath` | src/basic/cgroup-util.c:1735-1808 | The loop computes the path of ancestors, and refuses what they refuse |
| `CgroupNames.CgSkipSlices` | src/basic/cgroup-util.c:1216-1232 | The loop drops the leading slices |
| `CgroupNames.CgPathGetSlice` | src/basic/cgroup-util.c:1557-1591 | The loop finds the innermost leading slice, or the root slice |
| `CgroupRoundTrip.SlicePathIsHierarchy` | src/basic/cgroup-util.c:1735-1808 | Every component of a slice's path is itself an accepted slice, whose path is the prefix up to it |
| `CgroupRoundTrip.SliceRecovered` | src/basic/cgroup-util.c:1557-1591 | The slice decoder inverts the encoder, root slice included, whatever follows after a component that is not a slice |
| `CgroupRoundTrip.BareSliceRecovered` | src/basic/cgroup-util.c:1557-1591 | And with nothing behind it |
| `CgroupRoundTrip.SystemUnitRoundTrip` | src/basic/cgroup-util.c:1234-1254 | From a slice's path and an escaped unit both names come back |
| `CgroupRoundTrip.UserUnitRoundTrip` | src/basic/cgroup-util.c:1404-1417 | From the path of a user's unit all four decoders give back slice, manager, user slice and unit |
| `CgroupKill.OnePass` | src/basic/cgroup-util.c:337-381 | One reading's new processes get the signal once each, nobody else gets anything, and an error means that one of them could not be signalled |
| `CgroupKill.CgKillItems` | src/basic/cgroup-util.c:298-391 | The loop ends whatever the processes do; no process is signalled twice, only eligible ones are, an error means that this file could not be read or one of the processes not be signalled, and without one the cgroup was seen with nobody left |
| `CgroupKill.CgKill` | src/basic/cgroup-util.c:393-427 | The same over processes and, for SIGKILL on the unified hierarchy, threads, with a set of the caller |
| `CgroupKill.CgKillAlone` | src/basic/cgroup-util.c:322-326 | The same without one, when each of the two passes has its own |
| `CgroupKill.CgKillRecursive` | src/basic/cgroup-util.c:452-517 | The same over the whole tree with one shared set; an error means trouble with a file or a process of this tree |
| `CgroupKill.QuietTreeIsKilled` | src/basic/cgroup-util.c:452-517 | In a tree where nothing moves, a call without error has signalled every eligible process of every cgroup |
| `CriticalChain.SortedLatestFirst` | src/analyze/analyze-critical-chain.c:61-73 | Dependencies are visited latest first |
| `CriticalChain.LongestLoop` | src/analyze/analyze-critical-chain.c:100-104 | The loop finds the latest activation among those in range |
| `CriticalChain.CountLoop` | src/analyze/analyze-critical-chain.c:109-113 | The loop counts those within the fuzz of it |
| `CriticalChain.ListDependenciesOne` | src/analyze/analyze-critical-chain.c:79-145 | Ends on every graph, adds no unit twice, adds only reachable units, and everything that they lead to |
| `CriticalChain.ListDependencies` | src/analyze/analyze-critical-chain.c:147-197 | The units expanded are exactly those reachable over edges in range and within the fuzz, each once; it fails exactly if one of them cannot be read |
| `BusLabel.BusLabelEscape` | src/basic/bus-label.c:10-43 | The loop stays in its buffer and computes the escaped form |
| `BusLabel.BusLabelUnescape` | src/basic/bus-label.c:45-79 | The loop stays in its buffer and computes the unescaped form |
| `BusLabel.RoundTrip` | src/basic/bus-label.c:45-79 | Unescaping undoes escaping |
| `BusLabel.EscapedIsLabel` | src/basic/bus-label.c:10-43 | An escaped form is a label of "Valid Object Paths" in the D-Bus specification, does not start with a digit, and belongs to one string only |
| `Exposure.Accumulate` | src/analyze/analyze-security.c:1777-1800 | The sums modulo 2^64, which are the mathematical ones if they fit |
| `Exposure.FitsIsExact` | src/analyze/analyze-security.c:1798-1799 | What fits 64 bits is added up exactly, at every step |
| `Exposure.ScoreBounds` | src/analyze/analyze-security.c:1894-1894 | The doubly rounded score is between 0 and 100, and 0 exactly if every counted badness is 0 |
| `Exposure.ScoreMonotone` | src/analyze/analyze-security.c:1798-1894 | Lowering one badness never raises the score |
| `Exposure.Assess` | src/analyze/analyze-security.c:1855-1900 | The assertion on the weights fires exactly if their 64-bit sum is 0; else a row of the table is selected, the first that applies, for the 64-bit exposure, which is the score if everything fits |

## Left out

- `chaseat()` with CHASE_PARENT, CHASE_MKDIR_0755, CHASE_TRAIL_SLASH or CHASE_EXTRACT_FILENAME, and its relative mode on a directory that is neither the host's root nor resolved as a root.
- The `openat()` shortcut of `chaseat()`, the `chase_and_*` wrappers, and the making absolute of arguments at the start of `chase()`.
- File systems that change during resolution, permission errors and out-of-memory errors.
- Resolver.ChaseRefinesResolution: is stated without the flags that refuse, which Resolver.FlagsOnlyRefuse and Resolver.RefusedExactly add, and without CHASE_STEP, which ChaseReplay.StepByStep adds.
- PeLoader.ConversionIsFaithful: assumes that relocated words are the same or do not overlap, and lie inside one copied section each, and that addresses fit 32 bits as PE headers demand; for words that overlap in part there is PeLoader.UnshiftedIsFaithful, and no exact condition at other load addresses.
- RelocTable.TableIsFaithful: assumes that the table and the relocated addresses fit 32 bits, as the fields of the format demand.
- Sections are values in the model of `elf2efi.py`, where they are objects in a shared list; there is no aliasing in the script that this hides.
- Header fields that carry constants, sums of sizes, time stamps and the hash that chooses the image base (a parameter here), and truncation of addresses to 32 bits outside the relocation table.
- `drop_privileges()` reports group changes through a parameter; masks are sets of bit numbers; printing and parsing of capabilities.
- The kernel's `cgroup.kill` shortcut, CGROUP_REMOVE, the logging callback, and reading of cgroup files, `/proc` and extended attributes.
- The output of `systemd-analyze`, the individual security checks, and everything else in the repository: each would add easier members.
