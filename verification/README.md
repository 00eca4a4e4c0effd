# A model of libelf

This project models the ELF library in `base/libelf` (the BSD ELF Tool Chain) and the intrusive containers it ships,
and proves what the library's design promises about them. The model follows the C code: an object whose fields the
library rewrites is a class, a loop is a loop with invariants, and an error return is a case of the result. `dafny
verify dfyconfig.toml` checks the whole project.

The modules, from the containers up to whole files:

- `RbShape`, `RbBalance`, `RbLinks`, `RbTree`: the red-black tree of `sys/tree.h`, which is the section index of every
  descriptor. `RbTree.ScnTree` rewrites links, parents and colours of real nodes; the other three modules hold the
  shapes it draws, their balance, and the effect of every relinking on a snapshot of the links.
- `SplayShape`, `Splay`: the splay tree of `sys/tree.h` with its top-down splay.
- `StableMerge`, `StailqSort`: `STAILQ_SORT`, the bottom-up mergesort of a tail queue in place.
- `Codec`, `Section`, `Extended`, `ElfObject`: the file representation of headers, section and data descriptors, the
  counts with extended numbering, and the descriptor with its section index.
- `Extents`, `Placement`, `Layout`, `Resync`: laying out an object in both modes of `elf_update`.
- `Writer`, `Update`, `RoundTrip`: writing the image, `elf_update` as a whole when the library does the layout, and
  opening the image again.
- `Strptr`: `elf_strptr` and its agreement with the layout.
- `Lifetime`, `Archive`, `Symtab`: activations and release of nested descriptors, ar(1) archives and their symbol
  table.
- `Basics`: facts about numbers and sequences.

`Resync.OutlookOf` is where the results about `elf_update` start: a function of the object before the call, whether or
not its header and its section table were read from the file yet. `Update.Holds` is the new image as a function of
that outlook, and `Update.ElfUpdate` and `RoundTrip.UpdateAndReopen` say when the image is written and what a reader
gets.

## Properties that fail, and when they hold

- A file with fewer than 0xff00 sections and an extended segment count or string table index is misread
  (`Extended.CountsLost`). Exactly when the counts survive: `Extended.CountsRoundTrip`, and for a whole written image
  `RoundTrip.CountsBack`.
- `elf_strptr` looks in the wrong place when an empty data descriptor moves the next one by its alignment
  (`Strptr.EmptyDescriptorDisagrees`), and behind every descriptor that has a size but no buffer
  (`Strptr.NullBufferDisagrees`). Exactly when the two agree: `Strptr.StrptrAgrees`. On a table that is still in the
  file it fails for an alignment that is no power of two, unless the application does the layout
  (`Strptr.StrptrInFile`).
- The assertion in `elf_newscn` that there are sections fails for files whose section 0 announces none, and on the
  second call for files whose section 0 has another type (`ElfObject.OrphanFiles`). Exactly when:
  `ElfObject.Elf.FirstNewScns`. In an object that is being created it fails exactly when an extended string table
  index was set before (`ElfObject.Elf.IndexThenScn`).
- After `elf_update` with `ELF_C_NULL` on an opened file, the next call that needs the sections fails an assertion.
  Exactly when: `Resync.UpdateNullAndLoad`.
- An extent whose end does not fit into 64 bits is accepted, and the returned size leaves it out
  (`Extents.WrappedRegion`, `Extents.SlippedRegion`). Exactly when: `Extents.AcceptsExactly`, `Extents.GrownExactly`.
- In application layout a data descriptor left at the offset that `elf_newdata` gives it passes the check against the
  section's size (`Placement.UnsetOffset`). Exactly when: `Placement.ChosenInside`.
- A section nobody has read is copied from where it was in the old file, but checked at its new offset, so that a
  section behind the end of the old file can pass (`Writer.CopiedFromOutside`). Exactly when the check is right:
  `Writer.CheckExactly`. Exactly when `elf_update` meets such a section: `Update.ElfUpdate`.
- A section header that asks for an alignment that is no power of two can leave data misaligned in the file, and can
  make the writer's assertion on the section's offset fail (`Placement.MisalignedSection`,
  `Placement.MisplacedSection`). Exactly when: `Placement.AbsoluteAlignment`, `Placement.FileAlignment`.
- An archive member whose BSD name is longer than the member is opened with a wrapped-around size, or reads past the
  archive (`Archive.LongNameMember`). Exactly when an opened member lies inside: `Archive.MemberInside`.
- An archive's string table, or its symbol table in the BSD format, is recorded without the archive having its bytes
  (`Archive.TruncatedTable`). Exactly when they lie inside: `Archive.TablesInside`.
- The names of an archive's symbols are read past the end of the symbol table when the last one has no zero byte
  (`Symtab.OpenName`). Exactly when they are not: `Symtab.NamesEnd`.
- `STAILQ_SORT` of an empty queue leaves the tail pointer in a local variable; `StailqSort.Sort` says so.

## Model

| member | source | states |
|---|---|---|
| RbBalance.RbMeaning | base/libelf/src/include/sys/tree.h:51-57 | A shape is balanced with black height h exactly when red nodes have black children and every search path meets h black nodes. |
| RbBalance.HeightBound | base/libelf/src/include/sys/tree.h:51-59 | A red-black tree of n nodes has height at most 2 lg(n + 1). |
| RbTree.ScnTree.RotateLeft | base/libelf/src/include/sys/tree.h:344-359 | The left rotation of one subtree, on links and parents of real nodes, redraws that subtree and keeps the in-order sequence of the whole tree. |
| RbTree.ScnTree.RotateRight | base/libelf/src/include/sys/tree.h:361-377 | The right rotation likewise. |
| RbTree.ScnTree.InsertColor | base/libelf/src/include/sys/tree.h:435-478 | From any tree whose only defect is one red node below a red node, the repair loop terminates with a red-black tree of the same nodes in the same order. |
| RbTree.ScnTree.Insert | base/libelf/src/include/sys/tree.h:614-647 | A fresh key: the old in-order sequence with the node in its place, all invariants kept. A key that is there: nothing changes and its node is returned. |
| RbTree.ScnTree.RemoveFixLeft | base/libelf/src/include/sys/tree.h:487-519 | One turn of the repair loop, defect on the left: one black node is still missing on the same paths or none is, the order is kept and the measure falls. |
| RbTree.ScnTree.RemoveFixRight | base/libelf/src/include/sys/tree.h:520-553 | The mirror image. |
| RbTree.ScnTree.RemoveColor | base/libelf/src/include/sys/tree.h:480-557 | From any tree with one black node missing on all paths through one place, the repair loop terminates with a red-black tree of the same nodes in the same order. |
| RbTree.ScnTree.TakeOver | base/libelf/src/include/sys/tree.h:569-604 | The successor of a node with two children leaves its position to its child and takes over links, parent and colour of the removed node, link by link. |
| RbTree.ScnTree.Remove | base/libelf/src/include/sys/tree.h:480-612 | Removing any member leaves exactly the old in-order sequence without that node, as a red-black search tree with a black root and right parent pointers. |
| RbTree.ScnTree.Find | base/libelf/src/include/sys/tree.h:649-666 | Finds a node with the key if and only if the tree holds one. |
| RbTree.ScnTree.NFind | base/libelf/src/include/sys/tree.h:668-688 | Finds the least node whose key is not below the given one. |
| RbTree.ScnTree.Search | base/libelf/src/elf_scn.c:165-176 | The lookup loop returns the section of the given index if and only if the tree holds one, within 2 lg(n + 1) steps. |
| RbTree.ScnTree.Next | base/libelf/src/include/sys/tree.h:690-711 | RB_NEXT is the next node of the in-order sequence, or NULL for the last. |
| RbTree.ScnTree.MinMax | base/libelf/src/include/sys/tree.h:736-750 | The first or the last node of the in-order sequence. |
| RbTree.ScnTree.Foreach | base/libelf/src/include/sys/tree.h:781-784 | The traversal visits every node once, in strictly ascending order. |
| RbTree.ScnTree.Drain | base/libelf/src/elf_end.c:69-70 | RB_FOREACH_SAFE with removal of every visited node releases all nodes in order and leaves the tree empty. |
| Splay.SplayTree.LeftRound | base/libelf/src/include/sys/tree.h:217-226 | One round of the splay to the left keeps all nodes, their order and the split by the search key, and the middle part shrinks. |
| Splay.SplayTree.RightRound | base/libelf/src/include/sys/tree.h:227-236 | One round to the right likewise. |
| Splay.SplayTree.Assemble | base/libelf/src/include/sys/tree.h:110-115 | The four assignments at the end of a splay put the two side parts below the root, through the header node. |
| Splay.SplayTree.Splay | base/libelf/src/include/sys/tree.h:207-240 | The splay terminates, keeps the nodes and their order, and leaves all smaller keys left and all larger keys right of the root. |
| Splay.SplayTree.SplayMinMax | base/libelf/src/include/sys/tree.h:242-276 | The least or the greatest node comes to the root, and nodes and order are kept. |
| Splay.SplayTree.Find | base/libelf/src/include/sys/tree.h:125-135 | Finds a node with the key if and only if there is one, brings it to the root and keeps the order. |
| Splay.SplayTree.Next | base/libelf/src/include/sys/tree.h:137-149 | The node of the least greater key, or NULL when there is none. |
| Splay.SplayTree.Insert | base/libelf/src/include/sys/tree.h:162-184 | Refines insertion into a set: a fresh key joins the nodes and becomes the root, a key that is there changes nothing. |
| Splay.SplayTree.Remove | base/libelf/src/include/sys/tree.h:186-205 | Refines removal from a set: exactly the node with the key leaves. |
| StableMerge.PassSorted | base/libelf/src/_elftc.h:222-269 | The pass invariant: merging sorted runs of length sz pairwise gives sorted runs of length 2 sz. |
| StableMerge.PassStable | base/libelf/src/_elftc.h:222-269 | A pass keeps the order of equal elements. |
| StableMerge.SortCorrect | base/libelf/src/_elftc.h:215-271 | Passes of doubling run length sort any sequence stably, for every total preorder. |
| StailqSort.OneRound | base/libelf/src/_elftc.h:225-265 | One round takes two runs from the front of the queue and appends their merge to the result, relinking the nodes in place. |
| StailqSort.OnePass | base/libelf/src/_elftc.h:222-268 | One pass of the outer loop is the pass function, and counts its merges. |
| StailqSort.Sort | base/libelf/src/_elftc.h:215-271 | STAILQ_SORT terminates and leaves the same nodes sorted and stable, with the tail at the last node; an empty queue is left with its tail in a local variable. |
| Codec.FieldMeaning | base/libelf/src/elf_update.c:1000-1012 | A field's value is the sum of its bytes times powers of 256, from the first byte on in one byte order and from the last in the other. |
| Codec.ShdrFields | base/libelf/src/elf_scn.c:118-130 | A section header is decoded from the byte positions that the gABI gives its fields, in either class. |
| Codec.EhdrFields | base/libelf/src/libelf_ehdr.c:173-176 | An executable header likewise. |
| Codec.GetPutShdr | base/libelf/src/elf_update.c:1000-1012 | A section header is read back from its file representation, in either class and byte order. |
| Codec.GetPutEhdr | base/libelf/src/elf_update.c:872-884 | An executable header likewise. |
| Extended.CountsRoundTrip | base/libelf/src/libelf_extended.c:49-134 | Stored counts are read back unchanged exactly when the section count is extended, or no other count is, or section 0 happens to carry the section count. |
| Extended.CountsLost | base/libelf/src/libelf_ehdr.c:81-85 | Three sections and 0xffff segments are read back as no sections. |
| Extended.CountsExactly | base/libelf/src/libelf_ehdr.c:190-209 | The counts of every file, or why it is refused, in terms of the header's fields and of section header 0. |
| Extended.SettersExactly | base/libelf/src/libelf_extended.c:49-134 | What the three setters assign, and that they assign nothing else. |
| ElfObject.Elf.LoadEhdr | base/libelf/src/libelf_ehdr.c:105-212 | The header and the counts come from the file, each field from its byte position, or the call fails, exactly as the counts in the header and section 0 say; a header that is there is returned again. |
| ElfObject.Elf.LoadSectionHeaders | base/libelf/src/elf_scn.c:58-141 | Succeeds exactly when entries of the known size lie in the file and no sections were loaded before; in that case the assertion fails. The section indices then are 0 to n - 1, and every section has the fields of its entry, each from its byte position in the file, and its offset and size. |
| ElfObject.InitialEhdrMeaning | base/libelf/src/libelf_ehdr.c:91-103 | A new executable header names class and version and has no byte order, tables or counts. |
| ElfObject.Elf.GetScn | base/libelf/src/elf_scn.c:144-177 | Once the sections are loaded, an index below the section count, and no other, has a section; index 0 alone, when section 0 was not counted. |
| ElfObject.Elf.NewScn | base/libelf/src/elf_scn.c:189-242 | The new section gets the next free index, the first one comes after section 0, and the assertion on the section count fails exactly for the stated objects, opened or being created. |
| ElfObject.Elf.FirstNewScns | base/libelf/src/elf_scn.c:206-232 | The first call on an object opened from a file fails its assertion exactly when section 0 announces no sections, and the second call after an error exactly when section 0 had the wrong type. |
| ElfObject.OrphanFiles | base/libelf/src/libelf_ehdr.c:41-85 | Both kinds of files exist, for every class and either byte order. |
| ElfObject.Elf.IndexThenScn | base/libelf/src/libelf_extended.c:78-102 | For an object that is being created, a string table index followed by the first elf_newscn fails the latter's assertion exactly when the index is extended. |
| ElfObject.Elf.NextScn | base/libelf/src/elf_scn.c:244-255 | The section of the next index, or NULL after the last. |
| ElfObject.Elf.Sections | base/libelf/src/elf_scn.c:244-255 | Starting from NULL, elf_nextscn enumerates the sections 1 to n - 1 in order. |
| ElfObject.Elf.StoreShnum | base/libelf/src/libelf_extended.c:48-76 | Header and section header 0 after the section count was stored, and section 0 is made when it is needed. |
| ElfObject.Elf.StorePhnum | base/libelf/src/libelf_extended.c:107-134 | The same for the segment count. |
| ElfObject.Elf.StoreShstrndx | base/libelf/src/libelf_extended.c:78-105 | The same for the string table index. |
| Extents.ExtentList.IsUnused | base/libelf/src/elf_update.c:365-401 | The decision, by 64-bit arithmetic, and the extent after which the region goes. |
| Extents.AcceptsExactly | base/libelf/src/elf_update.c:365-401 | In an ordered list the decision agrees with the absence of an overlap exactly when the end of the region does not wrap around to before the next extent. |
| Extents.ExtentList.Insert | base/libelf/src/elf_update.c:407-442 | A region whose end fits into 64 bits is inserted exactly when it overlaps no extent, and the list stays in order. |
| Extents.EndMeaning | base/libelf/src/elf_update.c:478-481 | The size that the layout returns is the least that no extent ends behind. |
| Extents.GrownExactly | base/libelf/src/elf_update.c:480-481 | The size computed after an insertion covers the region exactly when its end fits into 64 bits. |
| Extents.WrappedRegion | base/libelf/src/elf_update.c:476-481 | A section at offset 2^64 - 8 of size 16 is accepted and left out of the size. |
| Extents.SlippedRegion | base/libelf/src/elf_update.c:371-395 | A region from 100 past 2^64 is accepted although it overlaps the extent at 200, and the size leaves it out. |
| Placement.DescriptorsApart | base/libelf/src/elf_update.c:254-263 | In library layout the descriptors of a section follow one another from offset 0 on, each at the first multiple of its alignment, none past the section's end. |
| Placement.AbsoluteAlignment | base/libelf/src/elf_update.c:265-317 | All descriptors of a section are aligned in the file, wherever it goes behind the first bytes, however many, exactly when the alignment the header asks for is no greater than theirs or a multiple of the greatest of them. |
| Placement.PowerOfTwoAligned | base/libelf/src/elf_update.c:265-317 | They are whenever the header asks for no alignment or for a power of two. |
| Placement.FileAlignment | base/libelf/src/elf_update.c:754 | The writer's assertion on the section's offset holds, wherever the section goes behind the first bytes, however many, exactly when its alignment is a multiple of the type's. |
| Placement.MisalignedSection | base/libelf/src/elf_update.c:289-317 | A header that asks for alignment 6 puts the first section at 66, and a descriptor of alignment 4 with it. |
| Placement.MisplacedSection | base/libelf/src/elf_update.c:751-754 | A header that asks for alignment 3 puts a section of words at 66, where the writer's assertion fails. |
| Placement.ChosenInside | base/libelf/src/elf_update.c:254-283 | In application layout the check against the section's size keeps all descriptors inside the section exactly when none of their ends wraps around. |
| Placement.UnsetOffset | base/libelf/src/elf_data.c:196-203 | The offset that a new data descriptor has passes that check. |
| Placement.SectionTypes | base/libelf/src/libelf_data.c:33-107 | The section types of each ELF type. |
| Placement.FileAligns | base/libelf/src/libelf_align.c:97-135 | The alignments in the file. |
| Placement.FileDataExactly | base/libelf/src/elf_data.c:67-168 | When elf_getdata succeeds on a section that is still in the file, and every field of the descriptor that it makes. |
| Placement.PlanExactly | base/libelf/src/elf_update.c:142-283 | When a section can be laid out: the checks on every descriptor and, in application layout, on the section, for all sections. |
| Placement.PlanValues | base/libelf/src/elf_update.c:285-317 | The alignment, the size and the entry size that a section gets in library layout. |
| Placement.ChosenValues | base/libelf/src/elf_update.c:276-283 | In application layout a section stays where its header says. |
| Placement.NewShdrMeaning | base/libelf/src/elf_update.c:319-332 | Of a section header only alignment, entry size, offset and size are assigned, and values that fit are kept. |
| Layout.GetData | base/libelf/src/elf_data.c:67-168 | elf_getdata on a section that has no descriptors: when it succeeds, and the descriptor that it makes. |
| Layout.ComputeSectionExtents | base/libelf/src/elf_update.c:110-342 | Succeeds exactly when the section has a plan, and then sets offset, size and the descriptors' offsets as planned, in both layout modes; in library layout the section goes to the first offset that fits its alignment. The other header fields are kept. |
| Layout.ResyncSections | base/libelf/src/elf_update.c:448-485 | Succeeds exactly when every section with contents has a plan and all regions are disjoint; the list of extents then is what was there and one extent per section, and the size is its end. |
| Resync.LoadTable | base/libelf/src/elf_update.c:649-652 | Sections that are in the file only join the known ones exactly as the file has them. |
| Resync.GetPhdr | base/libelf/src/libelf_phdr.c:37-110 | The program header table at hand, or the one in the file where the header says, if it lies there. |
| Resync.PhdrTableExactly | base/libelf/src/libelf_phdr.c:37-110 | Which table that is, and when there is none. |
| Resync.HeadExactly | base/libelf/src/libelf_ehdr.c:105-212 | What the layout starts from when the header was not read yet. |
| Resync.OutlookExactly | base/libelf/src/elf_update.c:522-572 | The checks on the executable header. |
| Resync.ResyncHeaders | base/libelf/src/elf_update.c:602-642 | The extents of the executable header and of the program header table, and which table is found. |
| Resync.ResyncShdr | base/libelf/src/elf_update.c:669-688 | The section header table joins the extents exactly when its place is possible. |
| Resync.StoreCounts | base/libelf/src/elf_update.c:694-695 | Storing the counts changes section header 0 as the setters say and leaves the layout alone when section 0 has no contents. |
| Resync.ResyncElf | base/libelf/src/elf_update.c:509-712 | In both layout modes, for every object: it succeeds exactly when header, section table and layout are acceptable. The returned size is the end of the last extent, the list is in order and disjoint, and its regions are those of the header, the tables and the sections. The header then describes these regions, and all its other fields are those it had before. |
| Resync.UpdateNullAndLoad | base/libelf/src/elf_update.c:1234-1246 | After elf_update with ELF_C_NULL the sections are loaded again, and the assertion at elf_scn.c:113-114 fails exactly when there are at least two sections and the table that the new header describes lies within the file; in application layout it always does, if it was read from there. |
| Resync.LibraryLayout | base/libelf/src/elf_update.c:60-64 | In library layout nothing but a section without a plan, or an end past the largest off_t, makes the layout fail: no insertion fails for an overlap. |
| Resync.ChosenLayout | base/libelf/src/elf_update.c:602-686 | In application layout an object can be laid out exactly when every section has a plan, no two regions overlap, the tables are aligned and behind the header, and the sections end within off_t. |
| Resync.LibraryChain | base/libelf/src/elf_update.c:60-64 | In library layout executable header, program header table, sections by index and section header table follow one another. |
| Resync.LibraryExtents | base/libelf/src/elf_update.c:602-686 | After a library layout the list of extents is exactly that chain. |
| Resync.SectionAligned | base/libelf/src/elf_update.c:312-330 | A section starts at a multiple of the sh_addralign that it then has. |
| Writer.CopiedFromOutside | base/libelf/src/elf_data.c:259-264 | The check of elf_rawdata passes for a section whose bytes in the old file lie behind its end. |
| Writer.CheckExactly | base/libelf/src/elf_data.c:259-264 | The check is right for old files of every length exactly when the section has not moved towards the start of the file. |
| Writer.XlateExactly | base/libelf/src/elf_update.c:824-835 | When a descriptor can be translated. |
| Writer.WriteScn | base/libelf/src/elf_update.c:718-841 | The section's bytes go to its place and nothing else changes: encoded descriptors and filled holes, or the bytes of the old file; or the call fails, or it would read outside of the old file, each exactly when stated. |
| Writer.WritePhdr | base/libelf/src/elf_update.c:891-947 | The program header table goes to its place; a table that could not be read is looked for again. |
| Writer.WriteShdr | base/libelf/src/elf_update.c:953-1015 | Every section writes its header into the slot of its index, which fills the table from end to end. |
| Writer.TileHoldsPart | base/libelf/src/elf_update.c:1051-1089 | Every extent's bytes are where the extent is, whatever is written after it. |
| Writer.TileFills | base/libelf/src/elf_update.c:1053-1057 | Every byte outside all extents is the fill character. |
| Writer.WriteElf | base/libelf/src/elf_update.c:1034-1091 | The filling loop writes exactly the tiles, its three assertions hold, and it stops at the first part that cannot be written, saying whether that part lies outside of the old file. |
| Writer.ReadyAfterLayout | base/libelf/src/elf_update.c:505-507 | After a library layout all that the writers assert about an extent holds. |
| Writer.WriteImage | base/libelf/src/elf_update.c:1034-1091 | After a library layout the image is exactly tiled: each region holds what belongs there, all other bytes are the fill character. |
| Update.DescriptorsAligned | base/libelf/src/elf_update.c:289-317 | In the new file every descriptor is at a multiple of its d_align, if its section asked for no alignment or for a power of two. |
| Update.BytesExactly | base/libelf/src/elf_update.c:761-840 | When a section can be written: its descriptors can be translated, or it lies in the old file where it was and where it goes. |
| Update.NewHeaderMeaning | base/libelf/src/elf_update.c:319-332 | The new section header keeps all fields but four; section header 0 also takes extended counts. |
| Update.PartsWritten | base/libelf/src/elf_update.c:1059-1083 | All extents can be written exactly when the headers, the tables and every section can, as functions of the object before the call. |
| Update.PartsWild | base/libelf/src/elf_update.c:771-785 | The writer reads outside of the old file exactly when all before a section can be written and that section passes the check with bytes behind the old file's end. |
| Update.LaidOutExactly | base/libelf/src/elf_update.c:509-712 | In library layout an object can be laid out exactly when its table can be read, every section has a plan, and the sections end within off_t. |
| Update.ElfUpdate | base/libelf/src/elf_update.c:1199-1247 | For every object, read or not: elf_update succeeds exactly when layout and writing are possible, and the new file then is the image that Holds describes, as a function of the object before the call. Its first bytes are the new executable header, which keeps all fields that the layout does not set. |
| RoundTrip.OpenMemory | base/libelf/src/libelf_memory.c:41-90 | The kind of the descriptor, or the error, for every image; class, byte order and version of an ELF descriptor come from the image, and an archive is opened up to its first ordinary member. |
| RoundTrip.HeaderBack | base/libelf/src/libelf_ehdr.c:173-188 | The executable header is read back from the image. |
| RoundTrip.CountsBack | base/libelf/src/libelf_ehdr.c:190-209 | The three counts are read back from the image exactly when section 0 is not needed or holds them all. |
| RoundTrip.EntryBack | base/libelf/src/elf_scn.c:111-136 | Every section header is read back from the image. |
| RoundTrip.PhdrBack | base/libelf/src/libelf_phdr.c:37-110 | The program header table that was written is read back from the image. |
| RoundTrip.ReadBack | base/libelf/src/elf_scn.c:58-141 | Opening the image and loading it restores the header, the counts, with extended numbering too, the program header table, and every section header in index order. |
| RoundTrip.UpdateAndReopen | base/libelf/src/elf_update.c:1199-1247 | elf_update followed by opening the new file restores the header, the counts, the program header table and the section headers that the object had promised before the call; of the headers from before the call all fields are back that the layout does not set. The new descriptor's file is the image that holds all contents. |
| RoundTrip.UnchangedCopied | base/libelf/src/elf_update.c:761-797 | A section that nobody has read or changed has the bytes that it had in the old file. |
| RoundTrip.DescriptorBack | base/libelf/src/elf_update.c:799-840 | In the image every descriptor lies at the section's offset plus its own, translates back to its contents, and has a filled hole before it. |
| RoundTrip.DataBack | base/libelf/src/elf_data.c:67-168 | elf_getdata on the new file returns the contents of a section that has one descriptor of the section's type. |
| RoundTrip.BytesBack | base/libelf/src/elf_data.c:67-168 | elf_getdata on the new file returns exactly the bytes written for a section of bytes, with any descriptors, read before or not. |
| RoundTrip.ContentsBack | base/libelf/src/elf_data.c:67-168 | In them every descriptor of bytes is found at its offset. |
| Strptr.StrPtr | base/libelf/src/elf_strptr.c:53-131 | Which byte of which descriptor elf_strptr points to, in both layout modes, and what is read in from the file when the section had no descriptors. |
| Strptr.FindMeaning | base/libelf/src/elf_strptr.c:87-128 | In library layout, for all descriptors, the search finds exactly those that have a buffer and are not empty, each where those before it put it, up to the first of them that holds no bytes or has an improper alignment. |
| Strptr.StrptrAgrees | base/libelf/src/elf_strptr.c:87-128 | For all tables, the search agrees with the layout at every offset exactly when the layout without the descriptors that are empty or have no buffer puts every other descriptor where it is. |
| Strptr.HarmlessAgrees | base/libelf/src/elf_strptr.c:96-97 | It agrees when every descriptor without contents is empty and asks for no more alignment than the next one, and so for tables without such descriptors. |
| Strptr.EmptyDescriptorDisagrees | base/libelf/src/elf_update.c:258-262 | An empty descriptor of alignment 4 between two single bytes: the layout puts the second byte at 4, elf_strptr looks for it at 1. |
| Strptr.NullBufferDisagrees | base/libelf/src/elf_strptr.c:96-97 | A descriptor of one byte without a buffer, before a single byte: the layout puts that byte at 1, elf_strptr finds it at 0. |
| Strptr.StrptrNamesWritten | base/libelf/src/elf_update.c:807-838 | The byte that elf_strptr points to is the byte of the image at the section's offset plus the given one. |
| Strptr.FindChosenMeaning | base/libelf/src/elf_strptr.c:63-85 | In application layout the search finds the first nonempty descriptor that covers the offset, unless one of another type comes first. |
| Strptr.StrptrInFile | base/libelf/src/elf_strptr.c:53-131 | For a table still in the file, elf_strptr points to the byte at the section's offset plus the given one, exactly when the table lies in the file and, in library layout, its alignment is a power of two. |
| Lifetime.Descriptors.Begin | base/libelf/src/elf_begin.c:33-91 | Succeeds exactly for the stated commands, descriptors and outcomes. A member is linked to its archive, which counts it, and has its file; another descriptor stands alone; a descriptor that is no archive is activated again. The invariant of all descriptors is kept: an archive counts its live members, a live member's archive is live. |
| Lifetime.Descriptors.End | base/libelf/src/elf_end.c:39-94 | Keeps the invariant and returns one activation. Released are descriptors without activations only, none twice. |
| Lifetime.Descriptors.ReleaseUp | base/libelf/src/elf_end.c:53-91 | The loop up the parent chain releases a descriptor, then its archive if that was the last member, and so on. |
| Lifetime.Descriptors.AllReleased | base/libelf/src/elf_end.c:56-64 | When all activations have been returned, every descriptor has been released. |
| Archive.GetNumber | base/libelf/src/libelf_ar_util.c:41-74 | The scanning loop yields the value of the digits between blanks, or fails at a character that is no digit. |
| Archive.NumberOfDecimal | base/libelf/src/libelf_ar_util.c:41-74 | A number in decimal, with blanks around it, is read back. |
| Archive.NumberMeaning | base/libelf/src/libelf_ar_util.c:41-74 | A field in any base up to 10 is the number of its digits, ends at a blank or at a digit that the base does not have, and is refused at any other character. |
| Archive.Archive.Open | base/libelf/src/libelf_ar_util.c:228-350 | Symbol table, string table and the cursor after opening, for SVR4 and BSD archives, as functions of the archive; the cursor is even. |
| Archive.OpenExactly | base/libelf/src/libelf_ar_util.c:262-330 | When opening an archive succeeds, in terms of its bytes. |
| Archive.OpenImage | base/libelf/src/libelf_ar_util.c:278-345 | Opening a well-formed archive records the contents of its symbol table and of its string table, where it has them, in either format. |
| Archive.OpenableExactly | base/libelf/src/libelf_memory.c:62-90 | Which images elf_memory accepts, in terms of their bytes. |
| Archive.MemberExactly | base/libelf/src/libelf_ar.c:217-280 | Where a member is opened and with what size, and when it is refused, in terms of its header. |
| Archive.TablesInside | base/libelf/src/libelf_ar_util.c:290-341 | Symbol and string table lie in the archive exactly when the last of them does; an SVR4 symbol table always does. |
| Archive.TruncatedTable | base/libelf/src/libelf_ar_util.c:300-341 | A table of three bytes is recorded whether or not the archive has them. |
| Archive.MemberInside | base/libelf/src/libelf_ar.c:241-280 | The bytes of an opened member lie in the archive exactly when its name is not longer than the member. |
| Archive.StuckMember | base/libelf/src/libelf_ar.c:265-280 | Opening fails an assertion or reads outside the archive exactly when the name is longer than the member and what lies behind it ends inside of a signature or is the one of an archive, in particular when the name goes past the archive. |
| Archive.LongNameMember | base/libelf/src/libelf_ar.c:265-280 | Name length 5 in a member of 3 bytes is such a member, anywhere in an archive. |
| Archive.Archive.Step | base/libelf/src/elf_next.c:53-61 | For every archive: opening a member and moving on leaves the cursor even and past the member's header, or at 0. |
| Archive.Traverse | base/libelf/src/libelf_ar.c:206-291 | The documented loop yields the contents of all ordinary members in order, without padding and long names, and ends at 0. |
| Archive.ReadArchive | base/libelf/src/libelf_ar_util.c:228-350 | A well-formed archive, with or without special members, is read back member by member. |
| Symtab.Process | base/libelf/src/libelf_ar.c:429-496 | The decoding loop over words and strings computes the decoding function, including every error. |
| Symtab.DecodeExactly | base/libelf/src/libelf_ar.c:437-488 | Which tables are accepted, in terms of their bytes, and the offsets of the symbols. |
| Symtab.ElfHash | base/libelf/src/elf_hash.c:38-54 | The loop computes the hash value of the name, or runs past the table. |
| Symtab.FoldKeeps | base/libelf/src/elf_hash.c:46-51 | The folding of the hash value keeps all bits but 4 to 7 and 28 to 31. |
| Symtab.FoldCombines | base/libelf/src/elf_hash.c:46-51 | The bits 4 to 7 are combined with the bits 28 to 31. |
| Symtab.DecodeEncode | base/libelf/src/libelf_ar.c:409-488 | Decoding the symbol table of any nonempty list of symbols gives them back in order with their hash values, followed by one sentinel. |
| Symtab.NamesEnd | base/libelf/src/libelf_ar.c:452-478 | In a table that is accepted all names end within the table exactly when it has a zero byte for every name; the last one's is not required. |
| Symtab.OpenName | base/libelf/src/libelf_ar.c:452-478 | A table of one symbol without a zero byte is accepted. |
| Symtab.EmptyRefused | base/libelf/src/libelf_ar.c:452-453 | A table of no symbols is refused. |

## Left out

- Update.ElfUpdate: models one call with `ELF_C_WRITE` for library layout. What it does to the descriptor after the
  image is complete (elf_update.c:1093-1190: the file itself, releasing the sections and headers) is not part of it,
  so the results are about the first such call.
- Update.ElfUpdate: asks for the sizes, buffers and alignments of `Update.Prepared`. The library asserts some of them
  (elf_update.c:754, 785, 821) and truncates or wraps for the others; in particular the sums of library layout are
  unbounded numbers here, which is the same as the library's as long as they are in range. An extended count without a
  section 0 that can hold it is outside of it too.
- Resync.ResyncElf: asks that no computed end exceeds uint64_t, or off_t for the tables. What happens to a region
  whose end wraps around is the subject of `Extents.AcceptsExactly` and `Extents.GrownExactly`.
- Writing in application layout: the assertion at elf_update.c:1085 then holds only when the last descriptor ends with
  its section. Application layout is covered up to the list of extents.
- Writer.WritePhdr: does not keep the table that a second lookup finds, because the table is released right after.
- RoundTrip.DataBack: sections of several descriptors of a type other than bytes, which are translated as a whole when
  they are read back; for bytes see `RoundTrip.BytesBack`.
- Writer.WriteScn: does not model the cache of raw data descriptors; the section was not read with `elf_rawdata`
  before.
- The translators and the size tables are parameters: sizes are positive, translating to the file and back gives the
  original, bytes are copied, and program headers can always be translated to memory. That `_libelf_xlate` refuses
  source buffers that are not aligned in memory is not modelled.
- Strptr.StrPtr: models the walk over the descriptors of a section that was found; sums of sizes in library layout are
  unbounded numbers.
- Splay.SplayTree.Splay: the comparison is that of integer keys, where the macro takes any; a comparison that is a
  total preorder ranks the nodes of a tree like integers. The amortised bound of splay trees is not stated.
- StailqSort.Sort: counts run lengths without the bound of `int`.
- RB_PREV, RB_REINSERT, the reverse and the safe reverse traversals: mirror images of what is modelled.
- Allocation never fails; reading, writing and mapping files, the error number, locking and version negotiation are
  left out. That a descriptor opened with version EV_NONE cannot be loaded is left out.
- Lifetime.Descriptors.Begin: takes what opening a file or a member comes to as a parameter, and leaves memory that
  belongs to a descriptor, other than the descriptor itself, out.
- Archive.Archive.Open: translating the names of members, and the other fields of a member's header, are left out, and
  so is the BSD symbol table's own format (libelf_ar.c:315-407).
- The `gelf` accessors, flags and checksums.
- Kernel headers and build files in the rest of the repository.
