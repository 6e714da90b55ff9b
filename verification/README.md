# Jet 3 structure proofs

A Dafny model of the parts of this repository that decide whether a Jet 3 database image is well formed and how
its bytes may be edited: the independent structure decoder and key encoder under `oracle/windows-dao`, the
byte-level page patchers beside them, the node writer of the traversal fuzz target, the library's bulk index
builder, row and long-value writers, strict row reader and mutation-map guard, and four algorithms of the test
kit. Each module carries the operations (loops as methods, pure code as functions) and the theorems about them.

The central results, most demanding first:

- **Writer and reader of index trees meet.** The pages that the library's bulk builder produces, for any records
  in any number and order, are read by the independent decoder exactly when the entries of every node are
  measured, sorted and strictly growing across pages; it then returns exactly those records, visits every page
  once and finds the tree within its depth limit (`BuiltTrees.BuiltTreeReads`, `EveryPageVisited`). For sorted
  records the only obstacle is a separator that is a prefix of the next one, with an exact condition and a
  refused input (`BuiltRecords.SortedBuildReadable`, `CrossedBuildRefused`); entries of rows never meet it,
  whatever the lengths of their keys (`BuiltRecords.RowTreeReads`).
- **An accepted observation ties the structures together.** The loops of `observe` accept exactly the files
  whose pages are partitioned, whose map rows are all named, whose declared counts match, and whose index trees
  lie on pages of their own and list the entries of the rows decoded from the same file; then trees share no
  page and searching an index finds exactly the rows of its table (`Classification`, `IndexKeys`,
  `Observation`).
- **An insertion keeps the observation, exactly when it inserts what it says.** A data page appended at the end
  of the file leaves all other maps, the reserve, all other tables and every tree as they were, but it adds a
  row: without further edits the file passes exactly when that row decodes, every index of its table skips it
  and a declared count one short is admitted (`Appends.AppendAlone`). With the counts and the leaf of the index
  rewritten as the patcher does, it passes with the old rows and the new one behind them exactly when the new
  row decodes and its entry is the one put into the leaf (`Insertions.InsertObserved`); for the patcher's Long
  index, when the row holds the given key (`LongInsertions.InsertRow`, `InsertedRowObserved`).
- **Accepted index trees are search trees.** A tree is accepted exactly when its separators lie between the
  entries of their neighbours, so deletions may leave them stale (`TreeAcceptance`), and a node is read exactly
  when its bytes spell it (`NodeBytes`). Local checks imply a sorted traversal, one leaf depth, correct search
  by separators, and a leaf chain that spells the traversal unless a later leaf is page 0 (`IndexTrees`).
- **Keys are an order isomorphism** for composite keys over every column kind and both directions, are
  self-delimiting, and shorten with exactly two adjacent bytes of discrimination (`KeyOrder`, `KeyParsing`,
  `KeyShortening`). The decoder's width rule takes exactly the printed keys (`KeyLanguage`). The bytes of keys
  are given by position from the stored bytes (`TextKeys`, `StoredKeys`, `KeyCodes`).
- **Row decoding is a bijection** between live slots and stored rows; long values partition the live long-value
  slots; cyclic links are rejected because exactly the finite walks are accepted; decoded scalars give back
  their stored bytes (`Links`, `TableRows`, `FieldValues`). Locators and long values that the library writes are
  read back as written (`LongValues`).
- **Rows written are rows read, and the two readers part on two families.** Every column that is read returns
  the bytes written for it, from column values through the null map to the decoder (`RowWriting`). Once a row
  stores a variable column, the strict reader accepts exactly the writer's own spelling. The strict reader and
  the decoder agree on a strictly accepted row except for rows of column count 0 (one or three bytes), which the
  decoder never takes, and rows without variable fields in a table that once had some, which the decoder takes
  to end in a trailer (`RowLayout.RowRoundTrip`, `LastFixedColumnRefused`, `RowReaders.ReadersAgree`,
  `ZeroColumnRows`, `FixedOnlyReadersAgree`).
- **Page edits refine sequences.** Any run of insertions and deletions on a data page equals the same run on a
  sequence of optional rows (`DataPages`); an index node gives back exactly the entries that extend its common
  prefix, and on a used page exactly when every stale mark ends one of them (`IndexNodes`).

Modelling conventions. A byte is an integer from 0 to 255; masks are division and remainder, and `x ^ 0xff`
is `255 - x`. Every `require`, index error or overflow of the decoders is the result `Rejected`, so
"accepted" is a premise of the lemmas, never an assumption about the input. The cyclic code register is a
sequence of sixteen bits so that exclusive or is pointwise. File images, clocks and page assignments are
parameters. Where the sources disagree with their own comments the code is followed: the docstring at
`oracle/windows-dao/structure.py:491` calls the second element of a field specification "ascending", while
the code at lines 444 and 606 of that file uses it as "descending".

## Model

| member | source | states |
|---|---|---|
| KeyEncoding.EncodeChunks | oracle/windows-dao/keys.py:87-95 | the chunk loop writes the directed marker and nine-byte chunks with length or continuation byte |
| KeyEncoding.AssembleText | oracle/windows-dao/keys.py:60-66 | popping trailing default nibbles and packing gives the primary weights, the frame and the packed secondary nibbles |
| KeyEncoding.GeneralText | oracle/windows-dao/keys.py:69-76 | collects weights byte by byte and rejects an undefined byte anywhere in the text |
| KeyEncoding.CollationKeyValid | oracle/windows-dao/keys.py:60-76 | collected weights keep primaries at least 16 and nibbles from 2 to 10, whatever the text |
| KeyOrder.FloatBitsOrder | oracle/windows-dao/keys.py:99-112 | rewritten IEEE patterns are ordered as the numbers they denote, with -0 below +0, and are injective |
| KeyOrder.FramedOrder | oracle/windows-dao/keys.py:87-95 | chunked bytes compare as the raw bytes, decided at a position both have |
| KeyOrder.PackedOrder | oracle/windows-dao/keys.py:60-66 | packed nibble lists compare as the lists |
| KeyOrder.TextKeyOrder | oracle/windows-dao/keys.py:60-76 | Text keys compare by primary weights, then by secondary weights |
| TextKeys.TrailingSpacesIgnored | oracle/windows-dao/keys.py:69-76 | any number of trailing spaces leaves the key as it is |
| TextKeys.TextKeyExactly | oracle/windows-dao/keys.py:60-76 | the key of a text without trailing spaces, byte by byte: the marker, the primary weights of every byte in order, and the explicit or default accents up to the last one that is not 2, two to a byte; refused exactly for an undefined byte |
| StoredKeys.StoredIntegerKey | oracle/windows-dao/keys.py:100-112 | the key of a stored Integer, Long or Currency field is its bytes reversed with the sign bit inverted |
| StoredKeys.StoredByteKey | oracle/windows-dao/keys.py:100-112 | the key of a stored Byte field is that byte |
| StoredKeys.StoredDateKey | oracle/windows-dao/keys.py:100-112 | the key of a stored date is its bytes reversed, all inverted for a negative pattern and otherwise only the sign bit; every date the decoder reads has one |
| StoredKeys.FloatingKeyBytes | oracle/windows-dao/keys.py:103-107 | the same rule on the big-endian bytes of a Single, Double or Date pattern |
| StoredKeys.StoredFlagKey | oracle/windows-dao/keys.py:96-98 | the key of a Boolean column is the marker and 0 for a set presence bit or 255 for a clear one, inverted when descending |
| StoredKeys.StoredNullKey | oracle/windows-dao/keys.py:82-84 | the key of an absent field is the single byte 0, or 255 when descending |
| StoredKeys.IdentifierKey | oracle/windows-dao/keys.py:87-95 | the key of a 16-byte identifier is its two framed halves, by position |
| StoredKeys.StoredBinaryKey | oracle/windows-dao/keys.py:87-95 | a stored Binary field has a key exactly from 1 to 255 bytes; every byte of the nine-byte chunks is given by position |
| KeyOrder.ComponentOrder | oracle/windows-dao/keys.py:79-112 | a smaller value has a decidedly smaller component, a larger one in a descending column; null is first |
| KeyOrder.ValueOrderTotal | oracle/windows-dao/keys.py:79-112 | two values of a column are comparable and equal values share their component |
| KeyOrder.CompositeOrder | oracle/windows-dao/keys.py:79-112 | concatenated components compare bytewise as the value tuples compare under each column's direction |
| KeyOrder.EntryOrder | oracle/windows-dao/structure.py:606-615 | keys are equal exactly for equal tuples, never proper prefixes of each other, and appended locators only break ties |
| KeyShortening.Shorten | oracle/windows-dao/keys.py:115-124 | the nested shift loops compute the register specification |
| KeyShortening.ShortenedBound | oracle/windows-dao/keys.py:115-124 | at most 255 bytes, the identity exactly up to 255, otherwise the first 253 bytes kept |
| KeyShortening.ShiftsInjective | oracle/windows-dao/keys.py:118-122 | any number of code shifts is injective |
| KeyShortening.ShorteningDiscriminates | oracle/windows-dao/keys.py:115-124 | different equally long keys that differ only within two adjacent bytes shorten differently |
| KeyShortening.ThreeBytesCollide | oracle/windows-dao/keys.py:115-124 | two bytes is the exact limit: every window of three tail bytes has a colliding partner |
| KeyCodes.ShortenedExactly | oracle/windows-dao/keys.py:115-124 | a long key is its first 253 bytes and, low byte first, the 16-bit number that shifting and exclusive or with 0x8005 compute from the rest |
| KeyParsing.MeasureText | oracle/windows-dao/structure.py:450-465 | the primary and nibble loops find the end of a Text component or reject |
| KeyParsing.MeasureBinary | oracle/windows-dao/structure.py:470-482 | the chunk loop with padding and length checks finds the end of a Binary component or rejects |
| KeyParsing.MeasureRecord | oracle/windows-dao/structure.py:440-485 | the component loop of the width parser |
| KeyParsing.ComponentEndExact | oracle/windows-dao/structure.py:440-485 | the parser finds the end of every printed component whatever surrounds it |
| KeyParsing.RecordWidthExact | oracle/windows-dao/structure.py:440-485 | printing then measuring returns the key length plus four, whatever follows the key |
| KeyParsing.WrittenEntryAccepted | oracle/windows-dao/structure.py:518-519 | every leaf or branch entry built from a row passes the width rule, shortened keys included |
| KeyParsing.WidthExtends | oracle/windows-dao/structure.py:518-519 | a record that passes as a leaf entry passes as a branch entry with any child page |
| KeyParsing.MeasuredRecordsBelow | oracle/windows-dao/structure.py:440-485 | exactly measured records are never proper prefixes of each other |
| KeyLanguage.KeyEndExactly | oracle/windows-dao/structure.py:440-484 | the parser ends at an offset of the record exactly when the bytes up to it are one printable component per column in order: null, or marker and number bytes, or marker and the chunks of a Binary or GUID value, or the key of some weights and accents |
| KeyLanguage.WidthExactly | oracle/windows-dao/structure.py:518-519 | an index entry passes the width rule exactly when it is such a printed key with a locator (and a child page on a branch), or has the one length a shortened key gives and a Text or Binary column exists |
| DataPages.ReadDirectory | oracle/windows-dao/structure.py:61-76 | the directory pass accepts exactly bounded, descending, unreserved words and returns start, end and flags of each slot |
| DataPages.DirectoryExactly | oracle/windows-dao/structure.py:61-76 | a directory is accepted exactly when its word bytes spell its slots: hidden in the top bit, overflow in the next, a clear reserved bit, the start in thirteen bits, and ends that meet |
| DataPages.RowBytes | oracle/windows-dao/structure.py:61-76 | a row is the bytes between start and end of its slot under the flags of its slot |
| DataPages.InsertRefines | oracle/windows-dao/registry/indexed_rows.py:110-128 | an inserted row is appended to the sequence of rows; all others, the owner and the free-count law are kept |
| DataPages.DeleteRefines | oracle/windows-dao/registry/indexed_rows.py:129-144 | compaction turns one slot into a tombstone and keeps the bytes and flags of every other slot although rows move, exactly when no later slot is a bare 0xc000 word |
| DataPages.BarePageFails | oracle/windows-dao/registry/indexed_rows.py:138-141 | one accepted page whose bare word is shifted into a row by a deletion before it |
| DataPages.EditRefines | oracle/windows-dao/registry/indexed_rows.py:110-144 | page and sequence refuse the same edits and agree after each |
| DataPages.RunRefines | oracle/windows-dao/registry/indexed_rows.py:110-144 | any run of edits keeps the directory acceptable, the free word true and the page equal to the row sequence |
| DataPages.NewPageRows | oracle/windows-dao/registry/indexed_boundary.py:73-79 | the appended page is a well-formed page with one row, so runs can start from it |
| DataPages.DataPage.constructor | oracle/windows-dao/registry/indexed_boundary.py:73-79 | builds that page in place |
| DataPages.DataPage.Insert | oracle/windows-dao/registry/indexed_boundary.py:81-92 | in-place insertion: exact acceptance condition, returned slot, whole new page, no change when refused |
| DataPages.DataPage.Delete | oracle/windows-dao/registry/indexed_rows.py:129-144 | in-place deletion with row moves and word rewrites: exact acceptance condition, whole new page, no change when refused |
| RowLayout.WriteRow | crates/jet3/src/row/writer.rs:461-477 | writes data, low bytes, jump table, count and presence in the writer's layout |
| RowLayout.WriteJumpBytes | crates/jet3/src/row/writer.rs:467-474 | the jump loop records the first boundary that reaches each 256-byte block, or the sentinel |
| RowLayout.TrailerRoundTrip | oracle/windows-dao/structure.py:242-253 | every nondecreasing boundary list of zero to 255 fields survives the low-byte and jump-table trailer |
| RowLayout.SentinelExactly | oracle/windows-dao/structure.py:250-252 | without the override a boundary is wrong exactly at index 255 when its field crosses a 256-byte block |
| RowLayout.StrictIsCanonical | crates/jet3/src/row/reader_layout.rs:114-209 | the trailer checks of the strict reader accept exactly the trailers the writer would produce from the decoded boundaries |
| RowLayout.DecodeFields | oracle/windows-dao/structure.py:234-276 | the field loop returns presence, fixed and variable bytes by column or rejects |
| RowWriting.NullMapRead | crates/jet3/src/row/writer.rs:413-426 | a null map with one bit per flag, the first in the lowest bit, is read back flag by flag for any number of columns |
| RowWriting.FlaggedRowRoundTrip | crates/jet3/src/row/writer.rs:399-477 | a row given by its flags: every Boolean reads as its flag, every unset column as null, and every set one as its own bytes |
| RowWriting.EncodeRow | crates/jet3/src/row/writer.rs:253-478 | the writer from column values: its checks, the null map, fixed bytes at their offsets over zeros, variable values in their slots, and the length limit |
| RowWriting.WrittenRowReads | oracle/windows-dao/structure.py:234-276 | the decoder returns every written value in its own column |
| RowWriting.WrittenRowValidates | crates/jet3/src/row/reader_layout.rs:21-209 | the strict reader accepts a written row exactly when it has no more variable slots than columns |
| RowLayout.RowRoundTrip | oracle/windows-dao/structure.py:234-276 | a written row under any high water: accepted exactly when boundaries are found and every present column lies inside them, and then every column that was written returns its own bytes |
| RowLayout.AgreeingRowRoundTrip | crates/jet3/src/row/writer.rs:461-477 | when row and table agree on having variable fields, exactly the rows whose present columns were all written are accepted |
| RowLayout.TrailerInFixedBytes | oracle/windows-dao/structure.py:242-255 | a row without variable fields has boundaries under a positive high water exactly when its fixed bytes end in a trailer |
| RowLayout.LastFixedColumnRefused | oracle/windows-dao/structure.py:242-268 | under a positive high water such a row is refused whenever a present fixed column ends within one byte of its fixed area |
| RowLayout.DeletedVariableColumn | oracle/windows-dao/structure.py:242-255 | one written row that is read under high water 0 and refused under high water 1 |
| RowReaders.Validate | crates/jet3/src/row/reader_layout.rs:21-209 | the strict reader: counts, row length, fixed boundary, trailer framing and the two checking loops |
| RowReaders.ValidatesExactly | crates/jet3/src/row/reader_layout.rs:21-209 | the strict reader accepts exactly the rows whose counts suit the definition and which are the writer's own spelling of their boundaries |
| RowReaders.StrictFixedRows | crates/jet3/src/row/reader_layout.rs:69-112 | rows without a live variable column are accepted exactly within the stated lengths: the fixed columns, padding to two bytes, anything after them once a column was deleted, and at most 2003 or 2012 bytes |
| RowReaders.StrictVariableRows | crates/jet3/src/row/reader_layout.rs:113-209 | rows with live variable columns are accepted exactly when the writer makes them from boundaries whose number and start suit the definition, in at most 2012 bytes |
| RowReaders.ReadersAgree | crates/jet3/src/row/reader.rs:89-109 | on a row the strict reader accepts, both readers give the same outcome for every column exactly when the row has a column and stores a variable one, or its table never had one, or the last bytes spell a fitting trailer exactly when no variable field is present |
| RowReaders.FixedOnlyReadersAgree | oracle/windows-dao/structure.py:242-276 | when no variable column is stored but the table once had some, the decoder accepts exactly rows of at least one column whose last bytes spell a trailer that leaves every present column alone, with the same fields |
| RowReaders.ZeroColumnRows | crates/jet3/src/row/reader_layout.rs:36-112 | of the rows with column count 0 the strict reader accepts exactly those of one and three bytes, whatever the definition, and the decoder accepts none |
| RowReaders.ZeroColumnsPart | oracle/windows-dao/structure.py:236-238 | the one-byte row `[0]` is accepted by the strict reader and refused by the decoder |
| RowReaders.NoSlotsNoVariables | crates/jet3/src/row/reader_layout.rs:69-75 | while slot numbers stay below 255, a row in which the strict reader looks for no slot has no variable field, so the cast to a byte loses nothing |
| RowReaders.ReadersPart | crates/jet3/src/row/reader_layout.rs:91-112 | one row that the strict reader accepts and the decoder refuses |
| IndexNodes.WriteNode | fuzz/fuzz_targets/index_traversal.rs:159-188 | writes header, common prefix, suffixes, boundary bits and free word in place |
| IndexNodes.NodeRoundTrip | fuzz/fuzz_targets/index_traversal.rs:159-188 | a written node decodes to exactly its header and entries, or is refused exactly for its tag, tail, order or widths |
| IndexNodes.EntriesReadBackExactly | fuzz/fuzz_targets/index_traversal.rs:177-188 | the prefix length is truncated to one byte, so written entries are read back exactly when the prefix is under 256 bytes or there is at most one entry |
| IndexNodes.LongPrefixLosesEntries | fuzz/fuzz_targets/index_traversal.rs:177-188 | two entries under a prefix of 256 bytes are not read back |
| IndexNodes.OnlyProperExtensionsRoundTrip | fuzz/fuzz_targets/index_traversal.rs:177-188 | under a prefix of fewer than 256 bytes the written entries are read back exactly when all start with it and all but the first are longer; a decoder that accepts them needs every one to be longer |
| IndexNodes.FirstEntryEqualsPrefix | oracle/windows-dao/structure.py:506-521 | a first entry equal to the prefix is stored and found again |
| NodeBytes.DecodesExactly | oracle/windows-dao/structure.py:499-522 | a node is read from a page exactly when its bytes spell it: tag, class, owner, links, tail child and prefix length by offset, every entry between consecutive marked positions after the common bytes, widths and order of the entries, the free word, and the rules for an empty node |
| IndexNodes.HeaderClasses | oracle/windows-dao/structure.py:499-512 | which header classes an accepted node may have: 1 to 3 for a branch, only 1 for an empty root, 0 for a leaf |
| IndexNodes.EndsByBytes | oracle/windows-dao/structure.py:508-508 | the boundaries are the set bits of bytes 22 to 247, lowest bit first, in order |
| IndexNodes.StaleMarks | fuzz/fuzz_targets/index_traversal.rs:177-188 | the writer never clears a mark: on a page in any state the surviving entries are read back exactly when every mark already there is the end of one of them |
| IndexNodes.RebuildLeaf | oracle/windows-dao/registry/indexed_rows.py:150-162 | the leaf rebuild replaces free word, bitmap and records, keeps all other bytes, and refuses non-plain leaves and over 200 records |
| IndexNodes.RebuiltLeafDecodes | oracle/windows-dao/registry/indexed_boundary.py:98-106 | a rebuilt leaf decodes to exactly its nine-byte records |
| IndexTrees.TreeWalk.VisitNode | oracle/windows-dao/structure.py:496-541 | the mutating recursion extends its three lists exactly as the functional visit says |
| IndexTrees.ReadIndexTree | oracle/windows-dao/structure.py:488-551 | visit, sibling check and final checks together |
| IndexTrees.VisitSound | oracle/windows-dao/structure.py:496-541 | an accepted visit yields a tree whose nodes all pass their local checks, with distinct unseen pages, at most 32 deep |
| IndexTrees.TraversalSorted | oracle/windows-dao/structure.py:522-550 | local order and separator bounds imply a sorted traversal of every subtree |
| IndexTrees.LeavesAtHeight | oracle/windows-dao/structure.py:535-549 | all leaves lie at one depth and no branch does |
| IndexTrees.FinalChecksRedundant | oracle/windows-dao/structure.py:544-550 | a tree is accepted exactly when the visit and the sibling check accept; the last two checks never fail |
| IndexTrees.BracketedChild | oracle/windows-dao/structure.py:536-539 | an entry lies in the child whose separators bracket it and in no other |
| IndexTrees.SearchCorrect | oracle/windows-dao/structure.py:536-539 | descending by separators finds an entry exactly when the traversal contains it |
| IndexTrees.LeafChainSpellsTraversal | oracle/windows-dao/structure.py:544-548 | following next links over the leaves yields the traversal exactly when no later leaf is page 0 |
| IndexTrees.HeaderKeepsChain | oracle/windows-dao/structure.py:407-408 | in a file whose first page is no leaf, following next links over the leaves of an accepted tree yields the traversal |
| TreeAcceptance.SeparatedExactly | oracle/windows-dao/structure.py:534-539 | the checks on the ends of subtrees hold exactly when every entry below a child is at most its separator and every entry below the next child is larger |
| TreeAcceptance.SiblingsExactly | oracle/windows-dao/structure.py:544-548 | the level-by-level link check holds exactly when neighbours at one depth name each other and the outer ends name page 0 |
| TreeAcceptance.ReadsExactly | oracle/windows-dao/structure.py:488-551 | the decoder accepts exactly the files that hold a tree, said about pages, entries and separators alone, at any height |
| TreeAcceptance.HeldTreeReads | oracle/windows-dao/structure.py:488-551 | such a tree is accepted with any separators between its neighbours, and its entries are returned in order |
| TreeAcceptance.DeletionKeepsTree | oracle/windows-dao/structure.py:536-539 | deleting the last entry of a leaf that keeps another leaves the tree accepted with its stale separator, and exactly that entry is missing |
| BuiltRecords.ZeroLeafCutsChain | oracle/windows-dao/structure.py:544-548 | an accepted tree with page 0 as its middle leaf, whose chain loses entries |
| IndexTrees.TreeCapacity | oracle/windows-dao/registry/index_trees.py:110-124 | an uncompressed tree of height h over the nine-byte Long records that `long_tree` demands (null records of five bytes are not covered) holds at most 200 * 139^h entries |
| IndexTrees.DepthThresholds | oracle/windows-dao/registry/index_trees.py:122-124 | more than 200 nine-byte entries force a second level and more than 27800 a third, in every accepted tree |
| BuiltRecords.SparseTreeAccepted | oracle/windows-dao/registry/index_trees.py:122-124 | an accepted tree of three Long records and depth 2: acceptance alone gives no upper bound on the depth |
| TreePlans.GroupEnd | crates/jet3/src/index/tree/builder.rs:87-105 | each group of children fits its page, has at least two children, never leaves exactly one child over, and is as large as fits |
| TreePlans.IndexPages.Push | crates/jet3/src/index/tree/builder.rs:117-150 | appends one node unless the node limit is reached |
| TreePlans.IndexPages.PlanLeaves | crates/jet3/src/index/tree/builder.rs:61-83 | leaves tile the records, fit their pages, and all but the last are full and hold at least two records |
| TreePlans.IndexPages.PlanParents | crates/jet3/src/index/tree/builder.rs:84-113 | one more level: parents tile the level below, at most half as many, exactly one when the level fits under it |
| TreePlans.IndexPages.Plan | crates/jet3/src/index/tree/builder.rs:56-115 | every successful plan is a tree with one root whose nodes fit, with at most one node per record; it fails only for a record width or a node limit below the number of records |
| TreePlans.DeclaredDepths | crates/jet3/src/index/tree/builder.rs:56-115 | nine-byte records plan one leaf exactly up to 200 and one branch level exactly up to 27800 |
| BuiltTrees.PageImage | crates/jet3/src/index/tree/builder.rs:159-245 | writes the page of a node in place, and refuses exactly when an ordinal, inventory, page assignment or width is wrong |
| BuiltTrees.ReadyIsAdmitted | crates/jet3/src/index/tree/builder.rs:159-245 | the writer refuses no node of a plan whose pages are assigned |
| BuiltTrees.LinksAreAssigned | crates/jet3/src/index/tree/builder.rs:159-245 | a page is written only when its own node, its neighbours and its last child have pages, and its header words name exactly these, or 0 where there is none |
| BuiltTrees.ChildrenAreAssigned | crates/jet3/src/index/tree/builder.rs:159-245 | every entry of a written branch is the largest record below its child and the page assigned to that child |
| BuiltTrees.PageDecodes | crates/jet3/src/index/tree/builder.rs:159-245 | the decoder reads the planned entries and links from every built page, or refuses it exactly for the order or width of its entries |
| BuiltTrees.TreeSpells | crates/jet3/src/index/tree/builder.rs:84-113 | the traversal below a planned node is the run of records the node covers |
| BuiltTrees.TreeChildrenAccepted | oracle/windows-dao/structure.py:534-540 | separators written by the builder bracket their children exactly when records grow strictly across pages |
| BuiltTrees.DepthBounded | oracle/windows-dao/structure.py:497-498 | with distinct 32-bit pages no plan is deeper than the decoder's limit |
| BuiltTrees.BuiltLinks | oracle/windows-dao/structure.py:544-548 | previous and next pages written by the builder pass the sibling check at every depth |
| BuiltTrees.BuiltTreeReads | crates/jet3/src/index/tree/builder.rs:53-245 | the decoder accepts a bulk-built tree and returns exactly its records, or refuses it exactly when some node is out of order, mismeasured or repeats a record across pages |
| BuiltTrees.EveryPageVisited | crates/jet3/src/index/tree/builder.rs:53-245 | the decoder visits the page of every planned node exactly once |
| BuiltRecords.SortedBuildReadable | crates/jet3/src/index/tree/builder.rs:54-55 | strictly sorted, measured records are read back exactly when no separator that is a prefix of the next one has a child page sorting after what the next one goes on with |
| BuiltRecords.CrossedBuildRefused | crates/jet3/src/index/tree/builder.rs:225-241 | a greedy plan over fourteen sorted, measured records that the decoder refuses |
| BuiltRecords.RowEntryPrefix | oracle/windows-dao/structure.py:606-615 | the entry of a row is a proper prefix of another only for a key of 254 bytes and a shortened key |
| BuiltRecords.RowBuildReadable | oracle/windows-dao/structure.py:606-615 | greedy plans over bytewise sorted row entries with distinct locators and three-byte pages are readable, for keys of any length |
| BuiltRecords.RowTreeReads | oracle/windows-dao/structure.py:606-615 | the decoder returns exactly the entries of the rows from such a tree |
| BuiltRecords.RowEntriesOrdered | oracle/windows-dao/structure.py:606-615 | up to 255 key bytes, entries compare exactly as the rows compare by values and locators |
| BuiltTrees.LongTreeDepth | oracle/windows-dao/registry/index_trees.py:122-124 | built trees over single-Long records have depth 1 exactly up to 200 records and 2 exactly up to 27800 |
| Links.WalkLinks | oracle/windows-dao/structure.py:364-379 | the overflow walk ends on every input and reaches the stored row of its slot, or rejects |
| Links.FollowExact | oracle/windows-dao/structure.py:364-379 | the walk accepts exactly the slots with a finite overflow path, so the cycle check refuses exactly the endless walks |
| Links.ReadPayload | oracle/windows-dao/structure.py:300-333 | the payload loop ends on every input and adds exactly the value's fragments to the reached set |
| Links.ChainExact | oracle/windows-dao/structure.py:313-331 | the fragment walk accepts exactly the finite chains of live owned fragments that avoid what was reached |
| Links.PayloadExact | oracle/windows-dao/structure.py:300-333 | a payload is accepted exactly when its descriptor denotes a value of the declared length with new fragments |
| Links.ReachedOnlyForbids | oracle/windows-dao/structure.py:314-317 | earlier values only forbid fragments and never change what a descriptor denotes |
| Links.SlotByDirectory | oracle/windows-dao/structure.py:61-76 | which slots exist, their bytes and their two flags, from the directory of their page |
| Links.FragmentByBytes | oracle/windows-dao/structure.py:314-322 | a fragment is a slot with clear flag bits on an owned page that starts with 1, 1 and spells LVAL |
| Links.LinksHaveFourBytes | oracle/windows-dao/structure.py:373-376 | an overflow slot of any other length is refused |
| LongValues.LocatorRoundTrip | crates/jet3/src/long_value/writer.rs:200-209 | a locator written as slot byte and three page bytes, low byte first, is read back wherever it lies |
| LongValues.LocatorSpelled | crates/jet3/src/long_value/writer.rs:200-209 | any four bytes are what the writer spells for the locator read from them, so the two spellings are inverse both ways |
| LongValues.OverflowLinkFollowed | crates/jet3/src/row/directory.rs:295-301 | an overflow slot holding a written locator is followed to exactly that slot when it is hidden and of the table, and refused otherwise |
| LongValues.InlineRoundTrip | crates/jet3/src/long_value/writer.rs:85-103 | a written inline value is read back as its payload |
| LongValues.SinglePageRoundTrip | crates/jet3/src/long_value/writer.rs:105-130 | a written single-page header denotes exactly the live row it names, when that row has the declared length and is not on page 0 |
| LongValues.ChainedRoundTrip | crates/jet3/src/long_value/writer.rs:149-189 | a payload cut into fragments and written as a chain is read back whole, over exactly its rows in order |
| TableRows.ReadLongPages | oracle/windows-dao/structure.py:354-354 | reads the owned pages of every long-value column or rejects |
| TableRows.ReadRow | oracle/windows-dao/structure.py:362-393 | one live slot: accepted exactly when its record exists and shares neither storage nor fragments with earlier ones |
| TableRows.ReadPages | oracle/windows-dao/structure.py:357-393 | the page loop decodes the live slots in order and collects the stored slots |
| TableRows.ColumnReached | oracle/windows-dao/structure.py:395-401 | the final check of a column accepts exactly complete reachability |
| FieldValues.ValueRoundTrip | oracle/windows-dao/structure.py:279-297 | a decoded value gives back the bytes of its field, for every type and every field |
| FieldValues.WordsUnsigned | oracle/windows-dao/structure.py:43-48 | the two- and four-byte words of every structure are little-endian numbers |
| FieldValues.DecodeInjective | oracle/windows-dao/structure.py:279-297 | two fields of a column have equal values exactly when their bytes are equal, with dates compared as bit patterns, so that 0.0 and -0.0, which the source finds equal, count as different |
| IndexKeys.KeyIsOfStoredBytes | oracle/windows-dao/structure.py:554-562 | `index_key` after `decode_value` takes the stored bytes back: the key value of a present field is a function of its bytes, for every type and every length |
| TableRows.ReadRows | oracle/windows-dao/structure.py:351-402 | accepts exactly the tables that have a complete decoding, and returns that decoding |
| TableRows.RowsBijection | oracle/windows-dao/structure.py:356-394 | records match live slots one to one and their storages match all nonempty non-overflow slots one to one |
| TableRows.RowsAreMeant | oracle/windows-dao/structure.py:362-393 | every record is the row at the end of its own link path with the decoded value of every field and every long value it denotes |
| TableRows.PayloadsPartitionSlots | oracle/windows-dao/structure.py:380-401 | every live long-value slot is one fragment of one value of its column, and every value has its declared length |
| TableRows.RowsByBytes | oracle/windows-dao/structure.py:356-394 | rows start at the slots whose top directory bit is clear and are stored in the nonempty slots whose next bit is clear |
| TableRows.FragmentsByBytes | oracle/windows-dao/structure.py:395-401 | the fragments of a column are the slots of its pages whose top directory bit is clear |
| AllocationMaps.CollectBits | oracle/windows-dao/structure.py:105-109 | the bit loops add exactly the pages whose bit is set |
| AllocationMaps.ReferenceChecks | oracle/windows-dao/structure.py:119-121 | the size and prefix tests on the active references accept exactly distinct references followed only by zeros |
| AllocationMaps.LoadMap | oracle/windows-dao/structure.py:99-129 | inline and indirect maps are read by the bit and slot loops, or rejected |
| AllocationMaps.LocatorRowByBytes | oracle/windows-dao/structure.py:79-86 | a map row is a row of a page tagged 1 whose flag bits are clear |
| AllocationMaps.MapAcceptedExactly | oracle/windows-dao/structure.py:99-129 | which rows are maps: inline ones of five bytes or more, and 133-byte ones over distinct bitmap pages followed by zeros |
| AllocationMaps.InlineMapByBytes | oracle/windows-dao/structure.py:105-114 | the members of an inline map by byte and bit |
| AllocationMaps.IndirectMapByBytes | oracle/windows-dao/structure.py:115-127 | the members of an indirect map by slot of 16352 pages, byte and bit, and how many pages it represents |
| AllocationMaps.RowEditEffect | oracle/windows-dao/structure.py:79-86 | a byte edited inside a map row changes that byte of that row and no other row of the file |
| AllocationMaps.FlippedMap | oracle/windows-dao/registry/indexed_boundary.py:63-72 | an admitted bit edit changes the decoded members of an inline map by exactly one page |
| AllocationMaps.OtherMapsKept | oracle/windows-dao/registry/indexed_boundary.py:63-72 | the edit leaves every other inline or indirect map as it was |
| AllocationMaps.AppendDataPage | oracle/windows-dao/registry/indexed_boundary.py:60-80 | the three guarded edits at offsets read from the original, then the new page; refused exactly when a guard fails |
| AllocationMaps.AppendedMap | oracle/windows-dao/registry/indexed_boundary.py:60-80 | what the append does to each map of the file |
| AllocationMaps.AppendKeepsAllocation | oracle/windows-dao/registry/indexed_boundary.py:60-80 | appending keeps every page in exactly one class, the free tail law and all other maps |
| Classification.GlobalMapExactly | oracle/windows-dao/structure.py:129-132 | the global map is accepted exactly when it starts at page 0 and beyond the end of the file holds every page that it represents |
| Classification.InlineGlobalByBytes | oracle/windows-dao/structure.py:129-132 | for an inline global map: a zero base and every bit from the end of the file on set |
| Classification.Classify | oracle/windows-dao/structure.py:641-642 | with `ClaimPages` and `CollectMetadata`, the separation and completeness checks accept exactly the allocations that partition the pages |
| Classification.ClaimPages | oracle/windows-dao/structure.py:585-602 | the role loop accepts exactly readable, disjoint, non-free owners with contained availability |
| Classification.CollectMetadata | oracle/windows-dao/structure.py:624-633 | the map loop accepts exactly distinct locators and bitmap pages and collects the metadata pages |
| Observation.ReserveRow | oracle/windows-dao/structure.py:639-640 | in an accepted file row 1 of page 1 is present, is 133 zero bytes, and is named by no map locator |
| Observation.CheckReserve | oracle/windows-dao/structure.py:634-640 | the directory loop accepts exactly the files whose active map rows are the named maps and the empty reserve |
| IndexKeys.BuildEntries | oracle/windows-dao/structure.py:608-614 | the expected entries are rebuilt from the decoded rows through `index_key`, without the rows an index ignores for a null, or refused exactly when a value or locator has no key bytes |
| IndexKeys.ExpectedExactly | oracle/windows-dao/structure.py:608-614 | an entry is expected exactly when it is the entry of a row that the index does not skip |
| IndexKeys.SkippedRows | oracle/windows-dao/structure.py:610-611 | an index leaves out exactly the rows with a null in some key column, and only if it ignores nulls |
| StoredKeys.LocatorRead | oracle/windows-dao/structure.py:614-614 | the locator behind a key is read back as a big-endian page and a row |
| StoredKeys.LocatorOrder | oracle/windows-dao/structure.py:614-614 | entries with one key are ordered by page and then by row |
| IndexKeys.RowEntryIsIndexed | oracle/windows-dao/structure.py:612-614 | the entry of a decoded row is the entry of its key values and locator, so order, width and tree results apply to it |
| Observation.CollectDataPages | oracle/windows-dao/structure.py:336-348 | the owned pages of a table in order, without long-value pages, or rejected for a wrong tag or owner |
| Observation.DataPagesExactly | oracle/windows-dao/structure.py:336-348 | the data pages are the owned pages in increasing order that do not spell LVAL in bytes 4 to 7; these name the table instead |
| Observation.CountByBytes | oracle/windows-dao/structure.py:226-226 | the declared row count is spelled by bytes 12 to 15 of the root page |
| Observation.ReadTable | oracle/windows-dao/structure.py:336-402 | the rows of a table are read from the pages its own map owns |
| Observation.CheckTable | oracle/windows-dao/structure.py:587-620 | one table: rows, declared against live count, and every index, accepted exactly when all hold |
| Observation.PlacedByBytes | oracle/windows-dao/structure.py:617-620 | a tree is placed exactly when its pages are in its map and every page of the map has an index tag and spells the table's definition page |
| Observation.CheckIndex | oracle/windows-dao/structure.py:603-620 | accepts exactly an accepted tree whose entries are the sorted entries of the decoded rows, on pages of its own map, all owned by the table |
| Observation.Observe | oracle/windows-dao/structure.py:577-642 | accepts exactly when allocation, reserve, declared counts and indexes hold for the rows it decodes from the file, and returns those rows |
| Observation.IndexTreesApart | oracle/windows-dao/structure.py:603-642 | after acceptance no tree page is free or metadata and trees of different indexes share no page |
| Observation.SearchFindsRows | oracle/windows-dao/structure.py:603-615 | descending an accepted index by separators finds an entry exactly when it is the entry of a row decoded from the file |
| RowFrames.DecodedKept | oracle/windows-dao/structure.py:351-402 | an edit outside the data pages and long-value pages of a table leaves its decoded rows as they are |
| RowFrames.DecodedGrows | oracle/windows-dao/structure.py:351-402 | a table that gains a page with one row has a complete decoding exactly when that row has a record without fragments, namely the old rows and this one |
| Appends.TreeKept | oracle/windows-dao/structure.py:488-551 | a tree is read only from its own pages, so edits elsewhere leave its nodes and entries as they are |
| Appends.AppendKeepsReserve | oracle/windows-dao/registry/indexed_boundary.py:60-80 | appending a data page keeps the reserve and every unnamed map row |
| Appends.OtherTableKept | oracle/windows-dao/structure.py:587-620 | in a file grown by one page every other table is sound with its old rows and with no others |
| Appends.AppendAlone | oracle/windows-dao/registry/indexed_boundary.py:60-80 | the appended file passes the observation exactly when the new row decodes without fragments, every index of its table skips it and the count delta is one smaller; the rows are then the old ones and the new one |
| Insertions.LeafTree | oracle/windows-dao/structure.py:488-551 | a root leaf is a whole tree exactly when it decodes and has no neighbours |
| Insertions.LeafListsRow | oracle/windows-dao/registry/indexed_boundary.py:97-106 | the rebuilt leaf lists the rows of the grown table exactly when the new row has the entry that was added |
| Insertions.InsertObserved | oracle/windows-dao/registry/indexed_boundary.py:60-106 | append, both counts and the rebuilt leaf together pass the observation exactly when the new row decodes without fragments and has the added entry; the rows are then the old ones and the new one |
| Insertions.InsertKeepsDefinitions | oracle/windows-dao/registry/indexed_boundary.py:93-96 | the counts are the only definition bytes that change, so columns, indexes and maps are described as before |
| LongInsertions.LongComponent | oracle/windows-dao/registry/common.py:169-171 | `long_key` of a number is the key component of exactly that number in an ascending Long column |
| LongInsertions.InsertRow | oracle/windows-dao/registry/indexed_boundary.py:35-106 | reads the rows, rebuilds their records with `long_key` and patches the file, refused exactly when a count, a row, a map bit, the leaf or the room fails its guard |
| LongInsertions.InsertedRowObserved | oracle/windows-dao/registry/indexed_boundary.py:35-106 | the patched file passes the observation exactly when the given row bytes decode without fragments and hold the given key |
| Definitions.LoadDefinition | oracle/windows-dao/structure.py:140-152 | the chain loop ends on every input and assembles the body |
| Definitions.FollowAcceptsExactly | oracle/windows-dao/structure.py:142-150 | a chain is accepted exactly when it reaches page 0 over definition pages, so cycles are rejected |
| Definitions.ChainByBytes | oracle/windows-dao/structure.py:142-150 | every page of a definition has its prefix bytes, and bytes 4 to 7 name the next page, or 0 on the last |
| Definitions.BodyByBytes | oracle/windows-dao/structure.py:151-153 | the body has the length that its bytes 8 to 11 spell |
| Definitions.AddressTranslation | oracle/windows-dao/structure.py:156-160 | every byte of the body is the file byte at its translated offset, across any number of pages |
| Definitions.AddressesDistinct | oracle/windows-dao/structure.py:156-160 | different logical positions have different file offsets |
| MapGuard.Inspect | crates/jet3/src/alloc/mutation_map_guard.rs:67-99 | one map is inspected against every pending map with the shared seen flags |
| MapGuard.Validate | crates/jet3/src/alloc/mutation_map_guard.rs:8-65 | accepts exactly when each pending locator occurs once, no other map overlaps it and none of its storage is free or content |
| MapGuard.ContainsExactly | crates/jet3/src/alloc/mutation_map.rs:137-147 | the search for one span finds a page exactly when some span holds its set bit |
| MapGuard.OverlapsExactly | crates/jet3/src/alloc/mutation_map.rs:149-170 | the interval comparisons report exactly the maps that share a byte of their rows or of their bitmaps |
| MapGuard.AdmittedBytesAreExclusive | crates/jet3/src/alloc/mutation_map_guard.rs:67-99 | storage bytes of an admitted map belong to no other map and to no content |
| MapGuard.PendingMapsDisjoint | crates/jet3/src/alloc/mutation_map_guard.rs:8-65 | two admitted pending maps share no storage byte |
| Calendar.YearCount | crates/jet3-testkit/src/semantic_values.rs:355-358 | the closed form counts the days of all earlier years |
| Calendar.MonthCount | crates/jet3-testkit/src/semantic_values.rs:360-363 | the table counts the days of all earlier months |
| Calendar.DateFromOrdinal | crates/jet3-testkit/src/semantic_values.rs:365-386 | binary search and month scan return a valid date with that ordinal exactly for ordinals in range |
| Calendar.OrdinalInjective | crates/jet3-testkit/src/semantic_values.rs:351-386 | at most one valid date has a given ordinal |
| Calendar.EveryDateIsReached | crates/jet3-testkit/src/semantic_values.rs:365-386 | every valid date of years 1 to 9999 has an ordinal in range and is the only answer for it |
| Calendar.SplitMoment | crates/jet3-testkit/src/semantic_values.rs:329-342 | truncated days and time of day recombine to the millisecond count, and a moment exists exactly for days of the years 100 to 9999 |
| Calendar.DateTimeMoment | crates/jet3-testkit/src/semantic_values.rs:321-342 | over exact numbers a day count has the moment of its nearest millisecond, exactly when that lies in the years 100 to 9999; the range guard refuses nothing more |
| Calendar.MomentsCollide | crates/jet3-testkit/src/semantic_values.rs:330-335 | two millisecond counts name one moment only when equal or mirrored within a day of the epoch |
| Rounding.PropagateCarry | crates/jet3-testkit/src/semantic_values.rs:218-233 | the carry loop adds one to the number the digits spell |
| Rounding.SignificantDigits | crates/jet3-testkit/src/semantic_values.rs:209-238 | round half up of the whole decimal, with the all-nines carry normalised |
| CanonicalRows.CanonicalizeRows | crates/jet3-testkit/src/semantic_snapshot.rs:434-444 | sorts by key in place and numbers duplicates |
| CanonicalRows.ContentKept | crates/jet3-testkit/src/semantic_snapshot.rs:434-444 | the multiset of rows is kept |
| CanonicalRows.PairsUnique | crates/jet3-testkit/src/semantic_snapshot.rs:436-443 | rows with one key have increasing ordinals |
| CanonicalRows.OrdinalsComplete | crates/jet3-testkit/src/semantic_snapshot.rs:436-443 | the canonical rows with a key carry exactly the ordinals below the number of input rows with that key |
| CanonicalRows.DuplicatesKeepOrder | crates/jet3-testkit/src/semantic_snapshot.rs:434-444 | the canonical row with ordinal o is the o-th input row with its key |
| CanonicalRows.OrderIndependent | crates/jet3-testkit/src/semantic_snapshot.rs:434-444 | the keys and ordinals are the same for every permutation of the input |
| Relationships.PairRelationshipSides | crates/jet3-testkit/src/semantic_reader.rs:432-478 | the popping and removing loop computes the pairing specification |
| Relationships.MatchRectangle | crates/jet3-testkit/src/semantic_reader.rs:480-495 | matching relates whole groups of sides, which makes the pairing independent of the side taken first |
| Relationships.PairingSucceedsExactly | crates/jet3-testkit/src/semantic_reader.rs:432-478 | pairing succeeds exactly when every side has one matching side in the whole list |
| Relationships.PairsAreExactly | crates/jet3-testkit/src/semantic_reader.rs:432-478 | each matching pair is formed once and nothing else is |
| Relationships.EverySideUsedOnce | crates/jet3-testkit/src/semantic_reader.rs:432-478 | the pairs contain every side exactly once |
| Relationships.NoFieldDropped | crates/jet3-testkit/src/semantic_reader.rs:460-470 | the zip drops no field of either side |
| Relationships.RelationshipsExactly | crates/jet3-testkit/src/semantic_reader.rs:432-478 | a relationship is formed exactly for two sides that name each other, with the foreign name, both tables in their places, both field lists and each cascade in its own bit |
| Relationships.EqualNamesKeepOrder | crates/jet3-testkit/src/semantic_reader.rs:472-478 | relationships with one name stay in the order in which their pairs were formed |
| Relationships.RelationshipsOrderIndependent | crates/jet3-testkit/src/semantic_reader.rs:432-478 | success, the multiset of relationships and the sorted names do not depend on input order |

## Left out

- Catalog reading (`tables`) and column and index parsing inside `definition`: the model starts from parsed columns, maps, indexes and definition pages.
- The literal collation table and locale captures: only the bounds of weights and nibbles that `keys.py` relies on are kept, as a premise on the table.
- Floating-point formatting, parsing and rounding: floats are bit patterns, dates are exact numbers, and rounding starts from digit strings.
- Digests, resource budgets, read errors, JSON, command-line and VM orchestration.
- Counter edits and receipts of the page patchers other than the two counts of an insertion: single-field writes beside the modelled ones.
- The choice of a collation per Text column: one collation stands for all of them.
- The released-page branch of the library's row deletion and the library's own tree reader.
- The observation after an insertion into an existing data page or after a deletion: of these the page edit (`DataPages`) and the leaf rebuild (`IndexNodes`) are modelled, not the whole file.
- RowWriting.EncodeRow: models columns that carry their storage ordinals (dense layouts are the case of consecutive ones), takes values as stored bytes, so that types, declared maximum widths and the rule that an empty Binary is null stay outside, and no work budget.
- LongValues.ChainedRoundTrip: asks for rows outside page 0, which the writer does not refuse for a nonzero slot but the reader takes for the end of the chain.
- AllocationMaps.AppendDataPage: takes a nonempty row, because the slice assignment of the original degenerates for an empty one, which its caller never passes.
- IndexNodes.WriteNode: requires that the entries fit the area, because the original panics on a slice bound otherwise.
- IndexNodes.NodeRoundTrip: starts from a page with a clear bitmap, as the fuzz target does; `IndexNodes.StaleMarks` gives the exact condition on other pages.
- IndexNodes.EntriesReadBackExactly: starts from a page with a clear bitmap, for the same reason.
- IndexNodes.OnlyProperExtensionsRoundTrip: starts from a page with a clear bitmap, for the same reason.
- IndexNodes.RebuildLeaf: requires nine-byte records, because the patchers only build records of one Long key and a locator.
- IndexTrees.DepthThresholds: gives lower bounds only, because the upper bounds are false of accepted trees (`BuiltRecords.SparseTreeAccepted`); trees of the bulk builder meet both (`BuiltTrees.LongTreeDepth`).
- BuiltTrees.BuiltTreeReads: asks for one page per node and no page 0 as a last child, which the builder leaves to its caller.
- BuiltTrees.PageImage: copies a branch record and its child page in one write instead of two; the bytes are the same.
- TreePlans.IndexPages.Plan: does not model work and allocation budgets.
- Appends.AppendAlone: asks for a definition root below 2^24, because the page of a root whose bytes spell `LVAL` would count as a long-value page.
- Insertions.InsertObserved: takes a table with one index, a declared count equal to its rows and index entries of nine bytes, which the patcher demands.
- LongInsertions.InsertRow: does not model the tests that choose between the three arms (full pages, plain directories, no long-value pages), so it patches more files than the original, and asks for different owned and available maps, which every accepted observation has.
- RowReaders.Validate: does not model the work budget.
- Calendar.DateTimeMoment: works on exact numbers, so the rounding of the multiplication and of the final addition in double precision is not part of it.
- TableRows.ReadRows: long values keep the list of their fragments in the result, and date values stay bit patterns.
