# The musl dynamic linker, modelled and proved

This project models musl 1.1.19's dynamic linker (`ldso/dynlink.c`), its stage-1 bootstrap
(`ldso/dlstart.c`) and the AArch64 compare-and-swap loops (`arch/aarch64/atomic_arch.h`), and proves what
they are for. `dafny verify dfyconfig.toml` checks everything. Words are 64-bit and wrap; `&` is bitwise.

| module | part of the linker |
|---|---|
| `Basics` | an option type, C strings, reversal |
| `Words` | `size_t` arithmetic, `MAXP2`, `ALIGN`, the mask idioms |
| `TlsLayout` | offsets of TLS modules below the thread pointer, `update_tls_size`, `__copy_tls` |
| `TlsStorage` | the one allocation of a library loaded at run time: DSO, pathname, DTVs, TLS blocks |
| `TlsProtocol` | threads taking DTV and TLS slots in `__tls_get_new` while libraries are loaded and threads come and go: a state machine, proved over all runs |
| `Hashes`, `Lookup` | the two hashes, the two hash sections with the Bloom filter, `find_sym`, each proved equal to a linear scan |
| `Relocs`, `LazyBinding`, `RedoScopes` | what a relocation pass does to memory; putting relocations off and redoing them, once and over many calls |
| `RelocMachine` | `do_relocs`, `reloc_all`, `redo_lazy_relocs`, `prepare_lazy` over arrays, proved against `Relocs` |
| `Bootstrap` | the linker relocating itself in stages 1, 2 and 3 |
| `Dsos` | a DSO and the files it comes from; what sequences of DSOs are |
| `Loader` | the load list, symbol chain, TLS list and lazy list as linked objects; `load_library`, `load_deps`, `dlopen` with its rollback |
| `MapLibrary` | the image of a mapped library, byte by byte |
| `Rpath` | `$ORIGIN` expansion in place |
| `InitFini` | constructors and destructors under threads and re-entry, as a state machine |
| `AtomicCas` | LL/SC compare-and-swap refining an atomic one |

Assumptions. `a_fetch_add` is atomic. `__inhibit_ptc` keeps threads from being created during `dlopen`; a
new thread's DTV covers `libc.tls_cnt`. Steps interleave sequentially consistently. What the kernel and the
file system decide (mapping, allocation, `readlink`, where a name leads) is a parameter or left open, so
that results hold for every outcome; a constant `calm` says that no request to the kernel or `malloc` fails. Relocation types and the `R_SYM`/`R_TYPE` split are a decoded
datatype. `dlopen` can only be reached through the linker's own symbols, so the linker is on the load list.
Numbers such as `tls_id` and list positions are unbounded where the code could not overflow them.

## Findings

Places where the code does less than its callers might expect. Each has its exact condition proved and an
input that shows it.

- The loop of `map_library` skips the segment on the lowest page before it zeroes anything, so the loader does
  not zero that segment's part beyond `p_filesz`. All zero-initialised data reads as zero exactly when the bytes
  that follow the lowest segment in the file happen to be zero where its own begins (`MapLibrary.BssZeroIff`).
  A library of one segment shows it: `MapLibrary.BssOfOnlySegmentNotZero`.
- `load_deps` records a dependency once for every DT_NEEDED entry it answers, and `dlopen` with RTLD_LAZY calls
  `prepare_lazy` for each record. A new library that two others need is pushed on the lazy list twice, and its
  link then leads back into the list. The list keeps its end exactly when no DSO that needs a table comes up twice
  (`Loader.Linker.LazyListEndsIff`). `redo_lazy_relocs` overwrites links as it reads them and ends all the same
  (`Loader.Linker.RedoLazyRelocs`), but it gives a turn only to the DSOs pushed after the last repeat
  (`Loader.Linker.TurnsOfPushed`). Later calls push only new DSOs, so that those the list has lost never have a turn
  again (`Loader.Linker.OpenAndRedo`, `Loader.Linker.ManyCalls`). Where A needs B and C which both need D, opening A
  leaves turns for D alone, then and in all later calls: `Loader.Linker.DiamondIsLost`, for instance from the state
  `Loader.Begin` builds.
- A relocation put off ends as an eager pass under the scope of the redo makes it, whatever that scope
  (`LazyBinding.PutOffWordIsEager`), and over many calls as one under the last (`RedoScopes.GrowingScopesAreEager`).
  What was not put off stays as the first scope made it. The memories are equal exactly when the two scopes agree
  on all those entries (`LazyBinding.LazyIsEagerIff`). When the scope has only grown and nothing was reported, what
  is left of that is weak references: one found missing is written at once as 0 plus its addend, and a definition
  that comes later and would have added something is missed (`LazyBinding.GrownScopeIsEagerIff`). An input:
  `LazyBinding.WeakReferenceStaysUnbound`.
- `tls_offset` and the reservation of a library loaded at run time are computed without overflow checks (only the
  number of threads is checked). They are right exactly when the exact value is a word
  (`TlsLayout.NextOffsetClearsIff`, `Loader.Linker.ListIsLaidOutIff`, `TlsStorage.FitsIff`). When `per_th` wraps to
  0 the code divides by it (line 1073 of `ldso/dynlink.c`); `FitsIff` is about the other values. Inputs:
  `TlsLayout.OffsetPastTheEnd`, `TlsStorage.GrantedTooSmall`, `TlsStorage.PerThreadVanishes`.
- `dlopen`'s cleanup does not restore the `deps` array of a DSO that was there before but had none, like every DSO
  loaded at startup except the program. Every other `deps` is as on entry, and the state allows another `dlopen`
  exactly when nothing recorded in that one array was freed (`Loader.Linker.DlOpen`, whose failure clause is
  `Failed`). What can be checked before the call is that every DSO on the list the name could lead to has its
  dependencies recorded: then no failure does harm (`Loader.Linker.NextCallPossible`). A library that is there from
  startup, while of what it needs one file has been replaced and one removed, shows the opposite:
  `Loader.Linker.FailureLeavesDangling`, from the state `Loader.StartWith` builds.

## Model

| member | source | states |
|---|---|---|
| `Words.MaxP2IsMax` | musl-1.1.19/ldso/dynlink.c:26 | `-(-a & -b)` on wrapping words is the maximum of two powers of two |
| `Words.AlignIsRoundUp` | musl-1.1.19/ldso/dynlink.c:27 | ALIGN gives the least multiple at or above, when the sum is a word |
| `Words.MaskIsRoundDown` | musl-1.1.19/ldso/dynlink.c:595-619 | masking with the negation of a power of two rounds down to a multiple, for every word |
| `Words.MaskIsMod` | musl-1.1.19/ldso/dynlink.c:1097-1098 | masking with a power of two less one is the remainder |
| `TlsLayout.NextOffsetIsExact` | musl-1.1.19/ldso/dynlink.c:1097-1099 | the two wrapping updates compute the unbounded exact offset modulo 2^64 |
| `TlsLayout.FirstOffsetIsExact` | musl-1.1.19/ldso/dynlink.c:1591-1593 | so does the program's own offset, whose formula is a different one |
| `TlsLayout.ExactOffsetIsCongruent` | musl-1.1.19/ldso/dynlink.c:1097-1099 | offset plus image address is a multiple of the alignment |
| `TlsLayout.ExactOffsetIsLeast` | musl-1.1.19/ldso/dynlink.c:1097-1099 | no smaller offset holds the block and is congruent |
| `TlsLayout.NextOffsetClearsIff` | musl-1.1.19/ldso/dynlink.c:1097-1099 | the block clears what lies below it if and only if the exact offset is a word |
| `TlsLayout.OffsetPastTheEnd` | musl-1.1.19/ldso/dynlink.c:1097-1099 | an input where it is not: the block is placed over the one below |
| `TlsLayout.RunsAreLaidOut` | musl-1.1.19/ldso/dynlink.c:1091-1100 | after any sequence of loads and reverted loads: blocks stacked without overlap, padding below each alignment, congruence, `tls_align` a power of two no smaller than any alignment |
| `TlsLayout.PrefixKeepsLayout` | musl-1.1.19/ldso/dynlink.c:1771-1777 | going back to the saved offset, alignment and list gives a laid-out state again |
| `TlsLayout.BlocksAreDisjoint` | musl-1.1.19/ldso/dynlink.c:1091-1100 | in memory, for every run and every aligned thread pointer, two modules' blocks never overlap, end at or below the thread pointer, and are both congruent to their images |
| `TlsLayout.TlsSizeCovers` | musl-1.1.19/ldso/dynlink.c:1363-1373 | `libc.tls_size` covers the DTV, all blocks, the descriptor and two alignments |
| `TlsLayout.DescriptorFits` | musl-1.1.19/src/env/__init_tls.c:52-56 | the descriptor is aligned, ends inside the area and leaves the DTV and all blocks room below it |
| `TlsLayout.CopyTls` | musl-1.1.19/src/env/__init_tls.c:33-66 | `__copy_tls` fills a DTV whose entries are the blocks at descriptor minus offset, all inside the area and above the DTV |
| `TlsStorage.AllocSizeIs` | musl-1.1.19/ldso/dynlink.c:1068-1076 | when the overflow test passes, `alloc_size` is the exact sum |
| `TlsStorage.NewDtvPlace` | musl-1.1.19/ldso/dynlink.c:1102-1103 | `new_dtv` is the first word boundary after the pathname's terminator |
| `TlsStorage.TlsSlotPlace` | musl-1.1.19/ldso/dynlink.c:1351-1354 | a thread's block lies inside its padded slot and is congruent to the image, wherever the slot is |
| `TlsStorage.RegionsAreDisjoint` | musl-1.1.19/ldso/dynlink.c:1339-1354 | pathname, all `n_th` DTVs and all `n_th` blocks are in bounds, in order and disjoint, for every name length, size, alignment and thread count |
| `TlsStorage.FitsIff` | musl-1.1.19/ldso/dynlink.c:1068-1076 | when `per_th` has not wrapped to 0, a granted allocation holds its regions if and only if it has not wrapped at all |
| `TlsStorage.GrantedTooSmall` | musl-1.1.19/ldso/dynlink.c:1068-1076 | an input that is granted and does not hold its regions |
| `TlsStorage.PerThreadVanishes` | musl-1.1.19/ldso/dynlink.c:1071-1073 | an input whose `per_th` is 0, which the code divides by |
| `TlsProtocol.RunInv` | musl-1.1.19/ldso/dynlink.c:1318-1361 | the invariant behind the next rows holds at every moment of every interleaving of loads, commits, aborts, thread creation and exit, and accesses |
| `TlsProtocol.SlotsWithinReservation` | musl-1.1.19/ldso/dynlink.c:1339-1352 | each module hands out at most `n_th` DTVs and `n_th` blocks, to threads alive at its load, never two of a kind to one thread |
| `TlsProtocol.IndexBelowReservation` | musl-1.1.19/ldso/dynlink.c:1340-1352 | every index a step obtains from `a_fetch_add` is below the recorded `n_th` |
| `TlsProtocol.SlotsAreExclusive` | musl-1.1.19/ldso/dynlink.c:1339-1355 | two threads never hold the same DTV slot or the same block |
| `TlsProtocol.EntriesComplete` | musl-1.1.19/src/thread/__tls_get_addr.c:8-14 | outside `__tls_get_new` entries 1 to `dtv[0]` are non-null, which the fast path relies on |
| `TlsProtocol.WalkStaysOnList` | musl-1.1.19/ldso/dynlink.c:1330-1357 | both unguarded list walks end on the list at the module asked for, and every entry they index exists |
| `TlsProtocol.ThreadMemoryIsDisjoint` | musl-1.1.19/ldso/dynlink.c:1339-1354 | protocol and layout together: in memory, DTVs and blocks of two threads from one module, DTVs with blocks too, are apart and inside its allocation |
| `Hashes.StrCmp` | musl-1.1.19/ldso/dynlink.c:145-149 | zero exactly when the two strings are equal |
| `Hashes.ComputeSysvHash` | musl-1.1.19/ldso/dynlink.c:186-195 | the loop computes the hash function below of the string in memory |
| `Hashes.SysvHashIsStandard` | musl-1.1.19/ldso/dynlink.c:186-195 | masking once at the end equals the hash of the System V ABI, chapter 5, "Hash Table", on every string |
| `Hashes.ComputeGnuHash` | musl-1.1.19/ldso/dynlink.c:197-204 | the loop computes the GNU hash of the string in memory |
| `Lookup.AndBit` | musl-1.1.19/ldso/dynlink.c:243-247 | `f & 1 << k` tests bit k, the test the filter's second half makes by shifting |
| `Lookup.GnuLookup` | musl-1.1.19/ldso/dynlink.c:220-239 | on every well-formed section, bucket and chain search returns what a linear scan of the hashed symbols returns, and ends at the chain's mark |
| `Lookup.GnuLookupFiltered` | musl-1.1.19/ldso/dynlink.c:241-251 | the Bloom filter changes nothing: still the linear scan, so no defined symbol is rejected |
| `Lookup.SysvLookup` | musl-1.1.19/ldso/dynlink.c:206-218 | on acyclic chains the first match in chain order, or nothing when no hashed symbol matches; symbols on no chain are allowed |
| `Lookup.FoundIsHashed` | musl-1.1.19/ldso/dynlink.c:206-218 | what is found is on the chain of its own name's bucket |
| `Lookup.ChainScanIsScanIff` | musl-1.1.19/ldso/dynlink.c:206-218 | for a uniquely named symbol that is what a scan of the whole table finds if and only if the symbol, if there is one, is on its chain |
| `Lookup.SectionsAgreeIff` | musl-1.1.19/ldso/dynlink.c:206-251 | for a uniquely named symbol System V and GNU lookup return the same if and only if both sections index it or neither does |
| `Lookup.FindSym` | musl-1.1.19/ldso/dynlink.c:260-288 | the loop returns the definition of the first DSO of the chain that has a usable one, with the hash computed when first needed |
| `Lookup.AppendKeepsResolution` | musl-1.1.19/ldso/dynlink.c:260-288 | appending DSOs to the chain never changes a symbol that resolves |
| `Lookup.MemberResolves` | musl-1.1.19/ldso/dynlink.c:260-288 | a name one member defines resolves in the whole chain |
| `Relocs.RunSettles` | musl-1.1.19/ldso/dynlink.c:317-453 | with distinct targets, every entry of a pass lands from the original contents of its own word, its slot keeps the original addend, and no other word changes |
| `Relocs.StepLands` | musl-1.1.19/ldso/dynlink.c:366-419 | what one step writes depends only on the word, the entry and its addend |
| `Relocs.RunConcat` | musl-1.1.19/ldso/dynlink.c:1201-1213 | tables processed one after the other are one pass over their concatenation |
| `LazyBinding.RunDefers` | musl-1.1.19/ldso/dynlink.c:346-354 | a pass defers exactly the unresolved PLT and GOT entries of strong references, in order, with their addends settled |
| `LazyBinding.RedoCompacts` | musl-1.1.19/ldso/dynlink.c:456-474 | running deferred entries again keeps exactly the still unresolved ones, in order and with their addends, and reports nothing |
| `LazyBinding.RedoWrites` | musl-1.1.19/ldso/dynlink.c:366-378 | every other deferred entry's word is symbol value plus addend, and words of survivors are untouched |
| `LazyBinding.BindStable` | musl-1.1.19/ldso/dynlink.c:343-347 | a reference bound to a definition stays bound to it when DSOs are appended |
| `LazyBinding.LazyIsEagerIff` | musl-1.1.19/ldso/dynlink.c:345-378 | deferring under one scope and redoing under any other leaves the memory of an eager pass under the other if and only if the two scopes agree on every entry that was not deferred |
| `LazyBinding.GrownScopeIsEagerIff` | musl-1.1.19/ldso/dynlink.c:345-378 | for a scope that has grown, after a pass that reported nothing: if and only if no weak reference missed a definition that adds something |
| `LazyBinding.WeakReferenceStaysUnbound` | musl-1.1.19/ldso/dynlink.c:345-378 | an input where one does: the word stays 0 and an eager pass writes the address |
| `LazyBinding.PutOffWordIsEager` | musl-1.1.19/ldso/dynlink.c:347-353 | the word of every deferred entry ends as the eager pass leaves it, for every scope of the redo |
| `LazyBinding.LandsAlikeIff` | musl-1.1.19/ldso/dynlink.c:366-419 | two scopes make the same of a word if and only if they agree on its entry; entries that take a module from no definition are excluded, there the code stops |
| `LazyBinding.ValuesAlikeIff` | musl-1.1.19/ldso/dynlink.c:366-419 | two bindings give the same value if and only if they contribute the same, for every addend and type |
| `LazyBinding.ErrorsMeanUnbound` | musl-1.1.19/ldso/dynlink.c:355-358 | a pass that reports nothing has bound, deferred or skipped every entry |
| `RedoScopes.WaitingAre` | musl-1.1.19/ldso/dynlink.c:456-474 | after redos under any sequence of scopes exactly the entries that none of them bound are waiting |
| `RedoScopes.EndsAtFirstBound` | musl-1.1.19/ldso/dynlink.c:456-474 | the word of a waiting entry ends as the first scope that binds it makes it |
| `RedoScopes.GrowingScopesAreEager` | musl-1.1.19/ldso/dynlink.c:1818-1824 | over any number of calls under a chain that grows, the word of a deferred entry ends as an eager pass under the last chain leaves it, although the entry was deferred under a scope with local libraries |
| `RelocMachine.ComputeBind` | musl-1.1.19/ldso/dynlink.c:338-364 | looking a reference up, section symbols and weak references included, is the specification's binding |
| `RelocMachine.Machine.DoReloc` | musl-1.1.19/ldso/dynlink.c:317-453 | one entry over arrays is one specified step: memory, saved addends, slot, lazy table, errors |
| `RelocMachine.Machine.DoRelocs` | musl-1.1.19/ldso/dynlink.c:293-454 | the whole loop is the specified pass, also when the table read is the lazy table being rewritten |
| `RelocMachine.Machine.RelocLocalGot` | musl-1.1.19/ldso/dynlink.c:1181-1190 | adds the base to each local GOT word, except for the linker |
| `RelocMachine.Machine.RelocAll` | musl-1.1.19/ldso/dynlink.c:1193-1213 | the local GOT and the four tables of one DSO, each call with its own slot count, are the specified passes in order |
| `RelocMachine.Machine.RedoLazy` | musl-1.1.19/ldso/dynlink.c:462-473 | in-place compaction without loss: survivors are exactly the unresolved entries in order, all others are written, nothing else changes |
| `RelocMachine.PrepareLazy` | musl-1.1.19/ldso/dynlink.c:1701-1723 | no table when binding is immediate, failure when there is no memory, otherwise a table of the computed capacity |
| `RelocMachine.CapacityCovers` | musl-1.1.19/ldso/dynlink.c:1713-1718 | that capacity, computed from byte sizes and as if every PLT table were in REL form, is at least the number of entries of all tables |
| `RelocMachine.DeferralsFit` | musl-1.1.19/ldso/dynlink.c:347-353 | a pass never defers more entries than the capacity |
| `Bootstrap.Startup.Start` | musl-1.1.19/ldso/dlstart.c:120-142 | the three loops of stage 1 add the base to local GOT words and apply the relative entries of REL and RELA |
| `Bootstrap.LocalGotRelocated` | musl-1.1.19/ldso/dynlink.c:1181-1190 | `reloc_all` adds the base to each local GOT word once, and leaves the linker's as they are |
| `Bootstrap.SavedIsEnough` | musl-1.1.19/ldso/dynlink.c:1415-1429 | the array of saved addends is long enough for every slot both passes use |
| `Bootstrap.SlotsWithinCount` | musl-1.1.19/ldso/dynlink.c:1423-1426 | a REL table takes at most `symbolic_rel_cnt` slots |
| `Bootstrap.SameItems` | musl-1.1.19/ldso/dynlink.c:310-336 | both passes run over the same entries in the same forms, hence give each the same slot |
| `Bootstrap.AbortsIff` | musl-1.1.19/ldso/dynlink.c:402-418 | before run time a pass stops if and only if some entry takes a module from no definition |
| `Bootstrap.StagesLand` | musl-1.1.19/ldso/dynlink.c:326-336 | after stages 2 and 3 each word is what the final scope and the addend of the image give |
| `Bootstrap.TwoPassesAreOne` | musl-1.1.19/ldso/dynlink.c:1431-1434 | relocating the linker twice leaves, word for word, the memory of one ordinary pass with original addends under the final scope |
| `Bootstrap.RelativeOnce` | musl-1.1.19/ldso/dlstart.c:120-142 | over stages 1, 2 and 3 every relative relocation and every MIPS local GOT word is applied exactly once, because stages 2 and 3 skip the linker's |
| `Bootstrap.SymbolicOnce` | musl-1.1.19/ldso/dynlink.c:316-337 | every other entry ends as the final scope and the image's addend give, stage 1 included |
| `Bootstrap.OthersUntouched` | musl-1.1.19/ldso/dlstart.c:120-142 | no other word changes over the three stages |
| `Loader.Linker.constructor` | musl-1.1.19/ldso/dynlink.c:1585-1596 | the initial lists are valid and hold the program alone, with its TLS |
| `Loader.Linker.MemberIffLinked` | musl-1.1.19/ldso/dynlink.c:1161-1167 | "`syms_next` set or equal to `syms_tail`" is exactly membership of the symbol chain |
| `Loader.Linker.AddSyms` | musl-1.1.19/ldso/dynlink.c:1161-1167 | appends a DSO that is not on the chain, changes nothing for one that is |
| `Loader.Linker.RevertSyms` | musl-1.1.19/ldso/dynlink.c:1169-1179 | restores any earlier chain, however much was added since, and clears every removed link |
| `Loader.Linker.LinkTls` | musl-1.1.19/ldso/dynlink.c:1089-1107 | identifier, alignment, offset and list link of a new module |
| `Loader.Linker.ListIsLaidOutIff` | musl-1.1.19/ldso/dynlink.c:1089-1107 | at every moment, after any loads and any failed ones, the modules on the list are laid out (`TlsLayout.LaidOut`) if and only if every offset exists as a word |
| `Loader.Linker.Install` | musl-1.1.19/ldso/dynlink.c:1089-1112 | joining the load list and the TLS list keeps all lists valid and appends exactly this DSO |
| `Loader.Linker.FindShortname` | musl-1.1.19/ldso/dynlink.c:972-976 | finds a DSO after the head with the short name, or there is none |
| `Loader.Linker.FindIdent` | musl-1.1.19/ldso/dynlink.c:1023-1025 | finds a DSO after the head that is the file, or there is none |
| `Loader.Linker.LoadFile` | musl-1.1.19/ldso/dynlink.c:1023-1118 | a file already on the list is never loaded again and gets a missing short name only from a search; RTLD_NOLOAD adds nothing; a second libc yields the linker |
| `Loader.Linker.LoadLibrary` | musl-1.1.19/ldso/dynlink.c:920-1119 | the result is what the name is entitled to; at most one DSO is appended, made from the file, unlike every other in (dev, ino); failure changes nothing |
| `Loader.Linker.LoadNeeds` | musl-1.1.19/ldso/dynlink.c:1125-1142 | one DSO's needs are answered in order and recorded up to the one that ends the call, each load leaves less to load, and what joins the list was made from the files and is among the answers |
| `Loader.Linker.LoadRound` | musl-1.1.19/ldso/dynlink.c:1123-1143 | one round: all needs so far answered and recorded, or the first that is not; what joins the list was made from the files and found |
| `Loader.Linker.LoadDeps` | musl-1.1.19/ldso/dynlink.c:1121-1145 | terminates; the recorded dependencies answer, one by one and in order, every DT_NEEDED of every DSO from the start to the moving end of the list, or all up to the one at which the load was given up; every DSO that joins the list has the name, identity, needs and TLS of a file a request leads to and is among the dependencies found |
| `Loader.Linker.ClosedUnderNeeded` | musl-1.1.19/ldso/dynlink.c:1121-1145 | hence the list is closed under DT_NEEDED from there on |
| `Dsos.UnloadedShrinks` | musl-1.1.19/ldso/dynlink.c:1023-1112 | every DSO that joins the list lowers the measure that ends `load_deps` on finitely many files |
| `Loader.Linker.PrepareLazy` | musl-1.1.19/ldso/dynlink.c:1710-1725 | pushes on the lazy list unless binding is immediate or the table cannot be had |
| `Loader.Linker.PrepareAll` | musl-1.1.19/ldso/dynlink.c:1797-1802 | the lazy list afterwards, link by link, for every sequence of dependencies, repeated ones included |
| `Dsos.PreparedOnceIff` | musl-1.1.19/ldso/dynlink.c:1797-1802 | a DSO is prepared twice if and only if one that needs a table comes up twice |
| `Loader.Linker.PushedOnceKeepsList` | musl-1.1.19/ldso/dynlink.c:1724-1725 | without repeats the new lazy list is the pushed DSOs, last first, then all of the old list |
| `Loader.Linker.PushedTwiceNeverEnds` | musl-1.1.19/ldso/dynlink.c:1724-1725 | after a repeat the list, as it is linked then, has no end |
| `Loader.Linker.LateWithin` | musl-1.1.19/ldso/dynlink.c:1724-1725 | from `lazy_head` on its links stay among the DSOs pushed after the last repeat |
| `Loader.Linker.PushedWithin` | musl-1.1.19/ldso/dynlink.c:1724-1725 | pushes keep the links among the DSOs they kept to before and those pushed, whatever the list was |
| `Loader.Linker.LazyListEndsIff` | musl-1.1.19/ldso/dynlink.c:1797-1802 | the lazy list keeps an end, and all it had, if and only if no DSO that needs a table comes up twice |
| `Loader.Linker.DiamondFound` | musl-1.1.19/ldso/dynlink.c:1121-1145 | for files where A needs B and C which both need D: whatever is loaded from them starting with A, the answers to its needs are B, C, D and D |
| `Loader.Linker.OpenDiamond` | musl-1.1.19/ldso/dynlink.c:1728-1819 | `dlopen` with RTLD_LAZY on these files, when it succeeds, records these dependencies and leaves a lazy list that leads from D to D |
| `Loader.Linker.RedoTurn` | musl-1.1.19/ldso/dynlink.c:462-472 | one turn puts a DSO with entries left on the new list and unlinks any other |
| `Loader.Linker.RedoOne` | musl-1.1.19/ldso/dynlink.c:460-473 | the turn of a DSO met for the first time, or met before; in the second case only DSOs met before it follow |
| `Loader.Linker.RedoLazyRelocs` | musl-1.1.19/ldso/dynlink.c:456-474 | from every state of the links the walk ends: the DSOs that the links lead through, up to the end or to one met before, have their turn in order, then perhaps some of them again, and no other; a list with an end becomes those with entries left, in reverse |
| `Loader.Linker.TurnsOfPushed` | musl-1.1.19/ldso/dynlink.c:456-474 | whatever the list was before: without repeats everybody pushed has a turn, last first, and then the old list up to its end or a DSO met before; after a repeat those pushed after the last one, and nobody else |
| `Loader.Linker.OpenAndRedo` | musl-1.1.19/ldso/dynlink.c:1797-1824 | one call and the redo after it: only new DSOs are pushed, and the links and the turns stay among the DSOs they kept to and those pushed, after a repeat among those pushed later |
| `Loader.Linker.ManyCalls` | musl-1.1.19/ldso/dynlink.c:1797-1824 | any number of calls up to one that fails: a DSO that was there and that the lazy list has lost has no turn again |
| `Loader.Linker.DiamondIsLost` | musl-1.1.19/ldso/dynlink.c:1797-1824 | after the diamond was opened only D has another turn; A, B and C have none in the redo that follows or in any later call |
| `Loader.Linker.MakeGlobal` | musl-1.1.19/ldso/dynlink.c:1804-1811 | the chain grows by exactly the library and its dependencies |
| `Loader.Linker.RelocAll` | musl-1.1.19/ldso/dynlink.c:1201-1224 | from its start on everything is relocated, with any number of entries left for later, or the pass was abandoned; nothing is unmarked |
| `Loader.Linker.RevertTls` | musl-1.1.19/ldso/dynlink.c:1771-1777 | cuts the module list back to any earlier one |
| `Loader.Linker.RevertList` | musl-1.1.19/ldso/dynlink.c:1779-1780 | cuts the load list back to any earlier one |
| `Loader.Linker.FreeAfter` | musl-1.1.19/ldso/dynlink.c:1757-1770 | the walk frees exactly the DSOs after the old tail |
| `Loader.Linker.RevertRest` | musl-1.1.19/ldso/dynlink.c:1771-1781 | the TLS list and its counters, the lazy list and the load list are as saved |
| `Loader.Linker.Cleanup` | musl-1.1.19/ldso/dynlink.c:1754-1782 | all lists are cut back to what they were, from any later valid state |
| `Loader.Linker.SameListsSameLinks` | musl-1.1.19/ldso/dynlink.c:1754-1782 | equal lists mean equal links in every DSO |
| `Loader.Linker.NextCallPossibleIff` | musl-1.1.19/ldso/dynlink.c:1754-1782 | when lists and recorded dependencies are kept but for those of one DSO, another call is possible if and only if all of these are on the list |
| `Loader.Linker.NextCallPossible` | musl-1.1.19/ldso/dynlink.c:1754-1790 | another call is possible after every failure when each listed DSO that was an answer to the name had its dependencies recorded |
| `Loader.Linker.DlOpen` | musl-1.1.19/ldso/dynlink.c:1728-1819 | a `dlopen` that fails anywhere before commit, however much was loaded, leaves every list, counter, offset and link as on entry, frees only what it allocated, changes no recorded dependencies but those of the named DSO if that had none, and leaves a state for another call if and only if all recorded there were on the list; one that succeeds gives the library the name leads to, every new DSO made from one of the files and recorded among its dependencies, all their needs answered, everything relocated, and the symbol chain changed for RTLD_GLOBAL only |
| `Loader.Linker.FailureLeavesDangling` | musl-1.1.19/ldso/dynlink.c:1754-1782 | an input after whose failure another call is not possible |
| `MapLibrary.Extent` | musl-1.1.19/ldso/dynlink.c:584-603 | the first pass finds the lowest segment with its offset and the highest end |
| `MapLibrary.InSpan` | musl-1.1.19/ldso/dynlink.c:612-619 | the pages of every segment lie in the reserved span |
| `MapLibrary.SkipsLowestOnly` | musl-1.1.19/ldso/dynlink.c:696-700 | the test on addresses skips the lowest segment and no other |
| `MapLibrary.AddressSpace.MapSegment` | musl-1.1.19/ldso/dynlink.c:701-716 | one segment's pages hold its file bytes, then zeros, and no other page changes |
| `MapLibrary.AddressSpace.MapSegments` | musl-1.1.19/ldso/dynlink.c:661-716 | all segments together, whatever their number and order, are in place inside the span, and nothing outside changes |
| `MapLibrary.SegmentContents` | musl-1.1.19/ldso/dynlink.c:661-716 | file bytes at base plus address; above the lowest page zeros from `p_filesz` to the end of the last page (System V ABI, chapter 5, "Program Loading") |
| `MapLibrary.LowestBssIff` | musl-1.1.19/ldso/dynlink.c:696-700 | the lowest segment's zero-initialised data reads as zero if and only if the file has zeros there |
| `MapLibrary.BssZeroIff` | musl-1.1.19/ldso/dynlink.c:696-716 | all zero-initialised data reads as zero if and only if that of the lowest segment does for the same reason |
| `MapLibrary.BssOfOnlySegmentNotZero` | musl-1.1.19/ldso/dynlink.c:696-700 | an input of one segment where it does not |
| `MapLibrary.OnlySegmentWellFormed` | musl-1.1.19/ldso/dynlink.c:661-716 | that input is a well-formed segment list |
| `Rpath.CountTokens` | musl-1.1.19/ldso/dynlink.c:774-781 | counts the dollar signs, or refuses when one of them begins no token |
| `Rpath.ExpandStep` | musl-1.1.19/ldso/dynlink.c:828-836 | from one token to the next, the jump `7 + 2*(t[1]=='{')` skips exactly the spelling found |
| `Rpath.ExpandFits` | musl-1.1.19/ldso/dynlink.c:823 | the expansion fits `strlen + n*l + 1` bytes with seven to spare for every token |
| `Rpath.ExpandIsCString` | musl-1.1.19/ldso/dynlink.c:826-837 | the expansion holds no terminator of its own |
| `Rpath.CopyExpanded` | musl-1.1.19/ldso/dynlink.c:826-837 | the copying pass meets as many tokens as were counted, stays in bounds and writes the pure substitution with its terminator |
| `Rpath.Dso.FixupRpath` | musl-1.1.19/ldso/dynlink.c:764-839 | every outcome with its condition; success means the path with each token replaced by the origin's directory |
| `InitFini.RunInv` | musl-1.1.19/ldso/dynlink.c:1269-1300 | the invariant behind the next rows over every interleaving of threads, nested `dlopen` calls and lock steps |
| `InitFini.OneBusy` | musl-1.1.19/ldso/dynlink.c:1275-1280 | although the lock is taken late or not at all, at most one thread is between testing a flag and pushing |
| `InitFini.StartedAtMostOnce` | musl-1.1.19/ldso/dynlink.c:1280-1293 | in no run are a DSO's constructors started twice |
| `InitFini.NothingLeftOut` | musl-1.1.19/ldso/dynlink.c:1279-1299 | when a call returns, every DSO from its start to the head is marked |
| `InitFini.FiniListIsReverse` | musl-1.1.19/ldso/dynlink.c:1282-1286 | the fini list has no repeats, holds exactly the constructed DSOs with destructors, last marked first (System V ABI, chapter 5, "Initialization and Termination Functions") |
| `InitFini.CallBackwards` | musl-1.1.19/ldso/dynlink.c:1258-1260 | a fini array is called from its end |
| `InitFini.ExitFini` | musl-1.1.19/ldso/dynlink.c:1250-1267 | exit calls each listed DSO's destructors in list order, array reversed, then DT_FINI unless zero |
| `InitFini.ExitIsPossible` | musl-1.1.19/ldso/dynlink.c:1254-1255 | whenever exit happens, every listed DSO is on the load list and constructed |
| `AtomicCas.RunInv` | musl-1.1.19/arch/aarch64/atomic_arch.h:24-35 | a reservation that still holds means the cell has the loaded value, in every run |
| `AtomicCas.StepRefines` | musl-1.1.19/arch/aarch64/atomic_arch.h:24-35 | each step of the loop is an atomic compare-and-swap step or invisible, spurious failures included |
| `AtomicCas.RunRefines` | musl-1.1.19/arch/aarch64/atomic_arch.h:54-65 | so every run, for cells of any type, refines a run of the atomic specification |
| `AtomicCas.OneInstant` | musl-1.1.19/arch/aarch64/atomic_arch.h:24-35 | up to any moment inside a call there is no instant of effect or exactly one |
| `AtomicCas.CompletedCall` | musl-1.1.19/arch/aarch64/atomic_arch.h:24-35 | a completed call has one instant at which the cell held the value returned, and wrote then if and only if that value was the expected one |

## Left out

- Relocation types COPY, OFFSET32, TLSDESC, FUNCDESC and FUNCDESC_VAL; the FDPIC paths; targets with TLS above the thread pointer; 32-bit words.
- `ARCH_SYM_REJECT_UND`, which is constant false on most targets, and the debugger hooks.
- `decode_vec`, `decode_dyn` and the program headers themselves: dynamic sections and segments are given decoded. Segment protections, RELRO and `mprotect` (except that it may fail in `reloc_all`).
- `reclaim` and `reclaim_gaps`, which would only add page arithmetic of the kind proved in `MapLibrary`.
- `path_open`, the environment and `/etc/ld-musl-*.path`: where a name leads is a map from names and requesters to files. The requester is its name, standing for the chain of requesters whose run paths are searched.
- Memory is a map from aligned words to words; relocations whose targets overlap partly are outside the model.
- DlOpen: ends at the commit point; the walk of `redo_lazy_relocs` that follows is `RedoLazyRelocs`, and `update_tls_size` is in `TlsLayout`. A short name given to an older DSO stays after a failure. Freed memory is listed, not unmapped; `td_index`, `funcdescs` and `rpath` are not modelled there.
- FreeAfter: lists what is freed; that each link is read before its DSO is gone is in the body, not in the contract.
- RedoTurn: how many entries a DSO has left after its turn is arbitrary; which ones stay is `RelocMachine.Machine.RedoLazy`. The two are not joined in one state.
- RedoOne: takes the number of entries left from `RedoTurn`.
- LinkTls: the addresses `new_dtv` and `new_tls` of the same lines are in `TlsStorage`.
- CopyTls: copying the images into the blocks is not modelled.
- DoReloc: covers the types in `Relocs.RelType`; the other branches of the switch are the types in the first line.
- FitsIff: says nothing about `per_th` wrapping to 0, where the code divides by zero.
- The `lazy` table that a second `prepare_lazy` for the same DSO replaces is not tracked as memory.
- RelocAll: in `Loader` only marks DSOs and leaves any number of entries for later; what it does to memory is `RelocMachine.Machine.RelocAll`. The two are not joined in one state.
- MapSegments: mappings that fail, and a single mapping instead of the span when there is no memory manager, are not modelled.
- `BlocksAreDisjoint` and the lemmas before it are about blocks whose offsets are words; beyond that `NextOffsetClearsIff` says the layout fails.
- ManyCalls: ends with the first call that fails, which pushes nothing and gives no turns; what it says holds again for the calls after that, as long as they are possible.
- The order of constructors: the code runs them in reverse load order, and no claim about dependency order is made.
- Progress of the retry loops, and memory orderings weaker than sequential consistency.
