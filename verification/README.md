# libquo and its hwloc, in Dafny

This project models the parts of libquo that decide something, and of the hwloc copy inside it that they
rest on, and proves what those parts are for. Run `dafny verify dfyconfig.toml` to check it.

What is modelled, by file:

- `Words`, `Bitmap`, `BitmapQueries`, `BitmapInclusion`, `BitmapCompare`: hwloc's bitmaps, finite or infinite sets of
  naturals kept as an array of 64-bit words and a flag for all words behind it. A bitmap is an object whose
  fields change in place; its meaning is an `iset<nat>`, and every operation is proved to compute the operation
  on sets, for operands of different lengths, any tails, and a result that is one of the operands.
- `Numerals`, `BitmapHex`, `BitmapTaskset`, `BitmapList`: the three printers and parsers of bitmaps. `strtoul`
  is a parameter of the parsers; what the round trips need of it is stated, and proved of a model of `strtoul`.
- `TextMeaning`, `HexMeaning`, `TasksetMeaning`, `ListMeaning`: what those texts mean, character by character.
- `PciTree`, `PciInsert`, `PciOrder`: insertion of PCI objects in any order of discovery, and lookup by bus id.
  `PciTree` states what insertion does to a tree of values and what the tree is; `PciInsert` is the pointer
  code, proved to do exactly that to linked siblings, children and parents; `PciOrder` proves exactly when the
  order of insertion does not matter and every object is found again.
- `KindPartition`, `CpuKinds`: registration of kinds of CPUs, which splits the kinds there are.
- `QuoSet`, `AutoDistrib`, `Election`: which values occur in at least two of several sorted sets, the rule by
  which a process selects itself as a worker, and what all processes of a node select together.
- `TableSegment`, `Protocol`, `ProtocolRuns`, `ProtocolFiles`: how the processes of a node come by the table on
  which they decide. Any number of processes call over and over, interleaving freely, and change their bindings
  between calls; one barrier is reused throughout, and broadcasts, files and shared segments are as MPI and POSIX
  have them.
- `Stids`: lowering the numbers of selected processes per node until their total fits.
- `DiffTheory`, `DiffValues`, `DiffRollback`, `DiffApply`: applying a list of differences to a topology, with the
  rollback when one does not fit, and exactly when that restores the topology.
- `Distances`: compacting a distance matrix in place when objects disappear.
- `Colors`: how processes find out which of them share a node, and how many nodes there are.
- `Base64`, `Base64Coder`, `Base64Meaning`: encoding and decoding (section 5.2 of RFC 1521, section 4 of RFC 4648).

Where the code and its documentation disagree, the model follows the code:

- The number of processes selected for one resource can exceed the documented maximum when all processes
  share resources (`src/quo.h:566-568`). `Election.BoundHoldsExactly` says exactly when it does not; the bound
  on the total always holds (`Election.TotalElected`).
- A comment says that the first forced efficiency of a kind is kept (`src/hwloc/hwloc/cpukinds.c:148-151`).
  When a registration splits a kind, the part that is split off takes the new value:
  `KindPartition.FirstForcedValueLost`, and `KindPartition.KnownValueSurvives` for what happens exactly.
- For the order of PCI insertions not to matter, it is not enough that bridge ranges are nested or disjoint:
  `PciTree.OrderMattersWithoutBuses`, `PciOrder.OrderMattersOutside`. It does not matter, and every object is
  found again by its bus id, if and only if bus ids are distinct and, on the bus of each object, of any two
  bridges that hold it one is below the other, and a bridge that holds it is below none that does not
  (`PciOrder.OrderIrrelevantExactly`, `PciOrder.FoundExactly`). The source checks neither
  (`src/hwloc/hwloc/pci-common.c:965-969`).
- All differences applied are said to be unapplied on failure (`src/hwloc/include/hwloc/diff.h:209-210`). The
  code undoes them in the order in which they were applied, passes over what does not fit, and takes the first
  info that does. That need not restore what several of them changed (`DiffRollback.ChainedIsNotUndone`), nor an
  info beside another of its name (`DiffRollback.SameNameNotUndone`). `DiffRollback.RolledBackExactly` says
  exactly when it does, for every topology and list; `DiffRollback.DistinctRestoredExactly`,
  `DiffRollback.FreshRestoredExactly` and `DiffRollback.RestoredExactly` say so more simply for lists with one
  entry for an attribute, for lists that repeat no value, and for objects without two infos of one name.

## Model

| member | source | states |
|---|---|---|
| BitSets.DenoteExt | src/hwloc/hwloc/bitmap.c:70-77 | two stored arrays with their tails stand for the same set exactly when every word, stored or not, is equal |
| Bitmaps.Bitmap.constructor | src/hwloc/hwloc/bitmap.c:84-106 | a new bitmap is valid and empty |
| Bitmaps.Bitmap.EnlargeByUlongs | src/hwloc/hwloc/bitmap.c:136-152 | capacity grows to hold the words asked for; nothing stored is lost |
| Bitmaps.Bitmap.ReallocByUlongs | src/hwloc/hwloc/bitmap.c:156-176 | more words become stored without changing the set, tail included |
| Bitmaps.Bitmap.ResetByUlongs | src/hwloc/hwloc/bitmap.c:186-195 | exactly that many words are stored; the caller gives them values |
| Bitmaps.Bitmap.CopyFrom | src/hwloc/hwloc/bitmap.c:232-245 | the destination becomes the source's set, also when they are the same bitmap |
| Bitmaps.Bitmap.Clear | src/hwloc/hwloc/bitmap.c:698-717 | the set becomes empty |
| Bitmaps.Bitmap.Fill | src/hwloc/hwloc/bitmap.c:719-738 | the set becomes all naturals |
| Bitmaps.Bitmap.Add | src/hwloc/hwloc/bitmap.c:852-867 | exactly one index is added, finite or infinite set |
| Bitmaps.Bitmap.Remove | src/hwloc/hwloc/bitmap.c:936-951 | exactly one index is removed |
| Bitmaps.Bitmap.SetRange | src/hwloc/hwloc/bitmap.c:869-923 | exactly [begin, end], or [begin, infinity) for -1, is added, with growth and clipping against an infinite tail; an empty range changes nothing |
| Bitmaps.Bitmap.ClrRange | src/hwloc/hwloc/bitmap.c:953-1008 | exactly that interval is removed |
| WordwiseOps.RangeAdded | src/hwloc/hwloc/bitmap.c:869-923 | setting the masked bits of the stored words is adding the range, although it was cut at the stored words |
| WordwiseOps.RangeRemoved | src/hwloc/hwloc/bitmap.c:953-1008 | clearing the masked bits is removing the range |
| WordwiseOps.RangeMaskBits | src/hwloc/hwloc/bitmap.c:76-82 | the word masks select exactly the bits of the range |
| Bitmaps.Bitmap.Singlify | src/hwloc/hwloc/bitmap.c:1460-1494 | only the least member is left, and an empty set stays empty |
| Bitmaps.Or | src/hwloc/hwloc/bitmap.c:1144-1183 | the result is the union of the old operands, for any lengths and tails and any aliasing of result and operands |
| Bitmaps.And | src/hwloc/hwloc/bitmap.c:1185-1224 | the same for the intersection |
| Bitmaps.AndNot | src/hwloc/hwloc/bitmap.c:1226-1265 | the same for the difference |
| Bitmaps.Xor | src/hwloc/hwloc/bitmap.c:1267-1300 | the same for the symmetric difference |
| Bitmaps.Not | src/hwloc/hwloc/bitmap.c:1302-1318 | the same for the complement |
| WordwiseOps.OrDenotes | src/hwloc/hwloc/bitmap.c:1159-1181 | stopping at the shorter operand when its tail is full loses nothing of the union |
| WordwiseOps.AndDenotes | src/hwloc/hwloc/bitmap.c:1200-1222 | nor of the intersection when its tail is empty |
| WordwiseOps.AndNotDenotes | src/hwloc/hwloc/bitmap.c:1241-1263 | nor of the difference, the longer second operand being complemented |
| WordwiseOps.XorDenotes | src/hwloc/hwloc/bitmap.c:1282-1298 | the longer operand combined with the shorter one's tail is the symmetric difference |
| BitmapQueries.IsSet | src/hwloc/hwloc/bitmap.c:1010-1017 | membership |
| BitmapQueries.IsZero | src/hwloc/hwloc/bitmap.c:1019-1031 | emptiness, which no infinite set has |
| BitmapQueries.IsEqual | src/hwloc/hwloc/bitmap.c:1047-1078 | equality of the sets, whatever is stored |
| BitmapQueries.Intersects | src/hwloc/hwloc/bitmap.c:1080-1111 | whether the sets have a common member, perhaps only in a tail |
| BitmapQueries.IsIncluded | src/hwloc/hwloc/bitmap.c:1113-1142 | whether one set is included in the other |
| BitmapQueries.MeetInWord | src/hwloc/hwloc/bitmap.c:1086-1110 | two sets meet exactly when two words at one index do |
| BitmapQueries.IncludedWordwise | src/hwloc/hwloc/bitmap.c:1119-1141 | inclusion holds exactly when it holds word by word |
| BitmapQueries.NextBit | src/hwloc/hwloc/bitmap.c:1396-1458 | the least member (or non-member) above an index, or -1 when there is none |
| BitmapInclusion.CompareInclusion | src/hwloc/hwloc/bitmap.c:1604-1717 | the one-pass verdict is the relation of the two sets: equal, included, contains, intersects or different |
| BitmapInclusion.VerdictIsRelation | src/hwloc/hwloc/bitmap.c:1604-1717 | what the pass has seen of words beyond both arrays decides the relation, empty sets included |
| BitmapInclusion.RunAutomaton | src/hwloc/hwloc/bitmap.c:1604-1717 | the loop with its early exit ends in the verdict over all words and both tails |
| BitmapInclusion.StillIntersects | src/hwloc/hwloc/bitmap.c:1604-1717 | no later word can change the verdict at which the loop exits early |
| BitmapCompare.Compare | src/hwloc/hwloc/bitmap.c:1544-1587 | the sign of the lexicographic comparison from the highest indexes, 0 only for equal sets, for any lengths and tails |
| BitmapCompare.WordDecides | src/hwloc/hwloc/bitmap.c:1559-1584 | the highest word where two bitmaps differ, compared as a number, decides |
| BitmapCompare.HigherTransitive | src/hwloc/include/hwloc/bitmap.h:486-503 | the order is transitive |
| BitmapCompare.NotBothHigher | src/hwloc/include/hwloc/bitmap.h:486-503 | and strict: no two sets come each after the other, nor one after itself |
| BitmapCompare.EmptyIsLowest | src/hwloc/include/hwloc/bitmap.h:490 | no set comes before the empty one |
| Numerals.StrtoulPrefixed | src/hwloc/hwloc/bitmap.c:392-393 | a number printed as 0x and digits is read back by the model of strtoul |
| Numerals.StrtoulDecimal | src/hwloc/hwloc/bitmap.c:446-501 | a number printed as decimal is read back with the base left open, zero (an octal to strtoul) included |
| BitmapHex.PrintHex | src/hwloc/hwloc/bitmap.c:251-344 | the loop over 32-bit halves with its accumulator prints the grouped text of the set |
| BitmapHex.ScanHex | src/hwloc/hwloc/bitmap.c:361-421 | a text is taken for the set its groups spell, or refused with the set emptied; a full set for the bare infinite prefix |
| BitmapHex.ScanGroups | src/hwloc/hwloc/bitmap.c:390-410 | accumulating two groups a word stores exactly the words that the groups spell |
| BitmapHex.HexRoundTrip | src/hwloc/hwloc/bitmap.c:251-421 | parsing the print of any finite or infinite set gives that set back, and only that: with skipped leading words, empty groups and the infinite prefix |
| BitmapHex.StrtoulReadsGroups | src/hwloc/hwloc/bitmap.c:392-393 | the model of strtoul meets what the round trip asks of the library function |
| BitmapHex.WordsBack | src/hwloc/hwloc/bitmap.c:251-421 | the groups give the words back, also when the topmost was zero and not printed |
| HexMeaning.HexTextShows | src/hwloc/hwloc/bitmap.c:251-344 | what is printed, by literal characters: index i is in the set if and only if bit i%4 of the digit at its place, among 0123456789abcdef, is set; 32 to a group, counted by commas from the right |
| HexMeaning.HexTextShape | src/hwloc/hwloc/bitmap.c:251-344 | the text starts with 0xf...f if and only if the set is infinite; each group is 0x and eight digits not all zero, nothing, or 0x0 at the end |
| HexMeaning.HexTextIsShort | src/hwloc/hwloc/bitmap.c:284-293 | no group and no pair of groups is printed that need not be |
| HexMeaning.HexTextMeans | src/hwloc/hwloc/bitmap.c:361-421 | any text of groups of one to eight digits, printed or not, is taken for the set that it shows |
| HexMeaning.StrtoulReadsAnyGroup | src/hwloc/hwloc/bitmap.c:392-393 | the model of strtoul reads every such group as the number it shows |
| TextMeaning.ValueBits | src/hwloc/hwloc/bitmap.c:392-393 | the value of hexadecimal digits has the bits that the digits show |
| BitmapTaskset.PrintTaskset | src/hwloc/hwloc/bitmap.c:542-613 | the loop prints the set as one hexadecimal number |
| BitmapTaskset.ScanTaskset | src/hwloc/hwloc/bitmap.c:630-696 | a text is taken for the set it spells, sixteen digits a word from the right, or refused with the set emptied |
| BitmapTaskset.TasksetRoundTrip | src/hwloc/hwloc/bitmap.c:542-696 | parsing the print of any finite or infinite set gives that set back, and only that |
| BitmapTaskset.StrtoulReadsChunks | src/hwloc/hwloc/bitmap.c:665-680 | the model of strtoul meets what that round trip asks of the library function |
| TasksetMeaning.TasksetTextShows | src/hwloc/hwloc/bitmap.c:542-613 | what is printed, by literal characters: index i is in the set if and only if bit i%4 of the digit i/4 places from the right is set |
| TasksetMeaning.TasksetTextShape | src/hwloc/hwloc/bitmap.c:542-613 | 0x and digits without leading zeros, or 0xf...f and whole words, which it is if and only if the set is infinite |
| TasksetMeaning.TasksetTextIsShort | src/hwloc/hwloc/bitmap.c:567-574 | no full word is printed at the top of an infinite set |
| TasksetMeaning.TasksetTextMeans | src/hwloc/hwloc/bitmap.c:630-696 | any number of digits, with 0x, 0xf...f or nothing in front, is taken for the set that it shows |
| BitmapList.PrintList | src/hwloc/hwloc/bitmap.c:423-470 | the text lists exactly the maximal runs of the set, in order |
| ListMeaning.ListTextNames | src/hwloc/hwloc/bitmap.c:436-467 | by literal characters: between commas, the text names in decimal the ends of the maximal runs with a dash between them, single members alone, and an open end by a dash |
| BitmapList.RunsUnique | src/hwloc/hwloc/bitmap.c:436-467 | there is only one such list for a set |
| BitmapList.OpenIffInfinite | src/hwloc/hwloc/bitmap.c:436-467 | its last range is open exactly when the set is infinite |
| BitmapList.ScanList | src/hwloc/hwloc/bitmap.c:487-540 | a text is taken for the union of the ranges it names; without a number where one must be, it is refused and the set emptied |
| BitmapList.ListRoundTrip | src/hwloc/hwloc/bitmap.c:423-540 | the list of a set whose ranges begin and end at numbers that fit an int is read as that set, and only that |
| BitmapList.StrtoulReadsDecimals | src/hwloc/hwloc/bitmap.c:499-525 | the model of strtoul meets what the list round trip asks of the library function |
| BitmapList.StoredIsPrintable | src/hwloc/hwloc/bitmap.c:423-470 | every bitmap that stores no bit beyond INT_MAX is such a set |
| PciTree.Comparisons | src/hwloc/hwloc/pci-common.c:250-291 | the comparison of two objects, case by case, in terms of bus id order and bridge ranges |
| PciTree.AddKeepsOrder | src/hwloc/hwloc/pci-common.c:293-364 | inserting keeps siblings sorted and every object below the bridges that contain it, and adds just that object |
| PciTree.InsertedInBusOrder | src/hwloc/hwloc/pci-common.c:250-371 | after any run of insertions siblings go up by domain, bus, device and function, and below a bridge stands only what is on a bus of its range |
| PciTree.Canonical | src/hwloc/hwloc/pci-common.c:293-364 | two such trees over the same objects are the same tree |
| PciTree.InsertionOrderIrrelevant | src/hwloc/hwloc/pci-common.c:366-371 | inserting a set of objects in any two orders yields the same tree, if bus ids are distinct and, on the bus of each object, bridge ranges are nested and lead nowhere that the bridge above does not |
| PciOrder.OrderIrrelevantExactly | src/hwloc/hwloc/pci-common.c:293-371 | that condition is exact: given only what the source checks of a range (962-964), all orders yield one tree if and only if it holds |
| PciOrder.OrdersThatDiffer | src/hwloc/hwloc/pci-common.c:293-371 | two orders that build different trees whenever it does not |
| PciOrder.ClashMatters | src/hwloc/hwloc/pci-common.c:293-364 | an object that two bridges beside each other hold stays below the one it came below first, whatever is inserted later |
| PciOrder.LeakMatters | src/hwloc/hwloc/pci-common.c:293-364 | an object in the range of an inner bridge, but not of the outer, stays below the outer one or beside it, as it came, whatever is inserted later |
| PciOrder.FirstTwinStays | src/hwloc/hwloc/pci-common.c:343-361 | of two objects with one bus id the second is dropped |
| PciOrder.UnderStays | src/hwloc/hwloc/pci-common.c:293-364 | insertion leaves every object below what it is below |
| PciOrder.UnderBefore | src/hwloc/hwloc/pci-common.c:293-364 | and brings it below no other object that was there |
| PciOrder.OrderMattersOutside | src/hwloc/hwloc/pci-common.c:965-969 | disjoint ranges are not enough: an inner bridge on a bus of the outer one that leads elsewhere |
| PciTree.OrderMattersWithoutBuses | src/hwloc/hwloc/pci-common.c:293-364 | ranges that are merely nested are not enough: two such bridges and a device for which the order decides |
| PciTree.ParentIsInnermost | src/hwloc/hwloc/pci-common.c:293-364 | an object's parent is the innermost bridge whose range holds its bus |
| PciTree.ParentAfterInsertions | src/hwloc/hwloc/pci-common.c:366-371 | so it is after any run of insertions |
| PciTree.FindAnswers | src/hwloc/hwloc/pci-common.c:753-795 | lookup returns the object with that bus id if there is one, else the innermost bridge over that bus, else where it started |
| PciTree.LookupAfterInsertions | src/hwloc/hwloc/pci-common.c:753-795 | after any run of insertions an inserted object is found, and another bus id gets the innermost bridge, or the start, exactly when bridge ranges are nested and closed on that bus |
| PciOrder.FoundExactly | src/hwloc/hwloc/pci-common.c:753-795 | every object is found after every order of insertion if and only if the order does not matter |
| PciOrder.FoundThrough | src/hwloc/hwloc/pci-common.c:770-776 | an object is found only if everything it is below holds its bus |
| PciInsert.AddObject | src/hwloc/hwloc/pci-common.c:293-364 | the routine on linked siblings, children and parents turns the lists that show a tree into those that show the tree with the object inserted, and touches nothing else |
| PciInsert.Find | src/hwloc/hwloc/pci-common.c:753-795 | lookup by bus id on linked objects answers what it answers on the tree they show, whose meaning is that of `PciTree.FindAnswers` |
| PciInsert.SweepBelow | src/hwloc/hwloc/pci-common.c:316-338 | the loop that moves siblings below a late bridge leaves exactly the sibling and child lists of the swept tree |
| PciInsert.Discover | src/hwloc/hwloc/pci-common.c:366-371 | inserting discovered objects one by one from an empty list leaves the linked form of the tree |
| KindPartition.AddInfosMembers | src/hwloc/hwloc/cpukinds.c:104-126 | adding infos unites them |
| KindPartition.AddInfosListsOnce | src/hwloc/hwloc/cpukinds.c:104-126 | what is there and what is added is listed once each, in the order in which it first came |
| KindPartition.RunListsOnce | src/hwloc/hwloc/cpukinds.c:128-228 | after any run, the kind of a PU lists the infos of the registrations that covered it, each once, in the order in which they first came |
| KindPartition.RegisterPartitions | src/hwloc/hwloc/cpukinds.c:178-228 | one registration keeps kinds non-empty and disjoint, and covers what was covered and the new set |
| KindPartition.RegisterInfos | src/hwloc/hwloc/cpukinds.c:178-228 | and each PU keeps its infos and gains those of the registration if it is covered |
| KindPartition.RunKeepsPartition | src/hwloc/hwloc/cpukinds.c:128-228 | after any run of registrations, with any reordering between them, the kinds partition exactly what was registered, and each PU has exactly the infos of the registrations covering it |
| KindPartition.RegisterSameKind | src/hwloc/hwloc/cpukinds.c:178-228 | two PUs are in one kind after a registration when they were and it covers both or neither, or when it is the first to cover both |
| KindPartition.KindsAreHistories | src/hwloc/hwloc/cpukinds.c:128-228 | after any run, two covered PUs are in one kind if and only if every registration covers both or neither: kinds are split as much as they must be and never merged |
| KindPartition.OrderOfRegistrationsIrrelevant | src/hwloc/hwloc/cpukinds.c:128-228 | so neither order nor repetition of registrations matters to the partition |
| KindPartition.RegisterForced | src/hwloc/hwloc/cpukinds.c:178-206 | what one registration does to a PU's forced efficiency: a known value survives a registration that does not overwrite exactly when it covers the PU's whole kind |
| KindPartition.ForcedExactly | src/hwloc/hwloc/cpukinds.c:178-228 | exactly which forced efficiency each PU has after a registration: its old one if it is not covered, or if its kind is covered as a whole, known and not overwritten; that of the registration otherwise |
| KindPartition.RunForced | src/hwloc/hwloc/cpukinds.c:128-228 | and so after any run, in terms of the registrations alone |
| KindPartition.KindsStay | src/hwloc/hwloc/cpukinds.c:178-228 | kinds stay in their places with what is left of their PUs and their efficiency; new ones come after them, their efficiency unknown |
| KindPartition.KnownValueSurvives | src/hwloc/hwloc/cpukinds.c:148-206 | over runs: a known value survives a registration that does not overwrite if and only if that covers every PU with the same history |
| KindPartition.FirstForcedValueLost | src/hwloc/hwloc/cpukinds.c:148-194 | a concrete run after which the first value is not kept, as the comment says it would be |
| KindPartition.LastForcedWins | src/hwloc/hwloc/cpukinds.c:178-206 | with overwriting registrations the last one that covers a PU decides |
| CpuKinds.Topology.RegisterKind | src/hwloc/hwloc/cpukinds.c:128-229 | the method on the array of kinds does what the specification says, never uses more than 2N+1 slots, and refuses an empty set or unknown flags |
| CpuKinds.Topology.Reserve | src/hwloc/hwloc/cpukinds.c:153-175 | the array holds at least 2N+1 kinds, and the new slots are zeroed |
| CpuKinds.Topology.SplitAt | src/hwloc/hwloc/cpukinds.c:180-194 | a kind that is only partly covered is split in two |
| CpuKinds.Topology.AbsorbAt | src/hwloc/hwloc/cpukinds.c:196-204 | a kind that is covered takes the infos and, when unknown or overwritten, the efficiency |
| CpuKinds.Topology.GetByCpuset | src/hwloc/hwloc/cpukinds.c:631-660 | the kind that includes the set; a distinct error if the set meets several kinds or reaches outside one, and another if it meets none |
| CpuKinds.LookupCases | src/hwloc/hwloc/cpukinds.c:647-657 | stopping at the first kind the set meets is right because kinds are disjoint |
| QuoSet.GetKSetIntersection | src/quo-set.c:42-136 | for valid sets, the sorted values that are in at least two of them; other input is refused; no sets give nothing |
| QuoSet.TwoScansReach | src/quo-set.c:92-113 | a value common to two sets is reached by one of the two ordered scans, although either may skip it |
| QuoSet.Scan | src/quo-set.c:94-112 | one ordered scan marks every common value it can reach and nothing else |
| QuoSet.Check | src/quo-set.c:62-78 | exactly the strictly increasing non-negative sets pass, and the maximum is found |
| QuoSet.Collect | src/quo-set.c:115-127 | the marked values, in order, as many as were counted |
| AutoDistrib.QidsInType | src/quo.c:203-246 | the ranks that cover a resource, in an order that passes the check of the set routine |
| AutoDistrib.Decide | src/quo-auto-distrib.c:282-352 | a process selects itself exactly when the three-way rule says so |
| AutoDistrib.Covered | src/quo-auto-distrib.c:334-347 | being among the first max unshared ranks of a resource |
| Election.CountPerResource | src/quo-auto-distrib.c:282-352 | when some rank shares nothing or none shares, each resource is touched by as many selected ranks as it has ranks that share nothing, up to max, and no rank that shares is selected |
| Election.LowestElected | src/quo-auto-distrib.c:282-352 | and these are the lowest of them |
| Election.TotalElected | src/quo-auto-distrib.c:282-352 | how many are selected in all: the sum of that, or when all share the lowest ranks up to max times the number of resources; never more than that product |
| Election.BoundHoldsExactly | src/quo-auto-distrib.c:282-352 | the documented bound per resource holds if and only if not all ranks share, or each resource has few enough ranks below max times the number of resources |
| Election.UnboundRanks | src/quo-auto-distrib.c:308-312 | with nobody bound it holds exactly when there are at most max ranks |
| Election.BothElected | src/quo-auto-distrib.c:308-312 | a concrete table for which it does not hold |
| TableSegment.Publish | src/quo-auto-distrib.c:103-144 | the segment holds the header and then the rows |
| TableSegment.Rebuild | src/quo-auto-distrib.c:182-201 | the table read from the segment is the one published |
| TableSegment.FlatInjective | src/quo-auto-distrib.c:103-144 | a segment stands for one table only, given the number of rows |
| Protocol.TableIsValid | src/quo.c:221-246 | the table process 0 queries passes the set routine's check and holds ranks of the node only |
| Protocol.BarrierEntered | src/quo-mpi.c:726-734 | the reused barrier keeps every process level with its generation, or one ahead inside it, and its count right |
| Protocol.StepKeeps | src/quo-auto-distrib.c:57-204 | every step of every process keeps the protocol invariant |
| Protocol.RunKeeps | src/quo-auto-distrib.c:57-259 | so does every interleaving of any number of processes over any number of calls, with bindings changed in between |
| ProtocolRuns.AttachIsSafe | src/quo-auto-distrib.c:157-176 | a process that attaches finds the segment linked and completely written, with the table of its own call |
| ProtocolRuns.AttachedStaysIntact | src/quo-auto-distrib.c:166-202 | what it is attached to stays so until it returns, though the path may be unlinked |
| ProtocolFiles.NothingLeftBehind | src/quo-auto-distrib.c:148-157 | whenever process 0 is outside, exactly the files are there that were there at the beginning under paths it never used: every path that a call announced is gone |
| ProtocolFiles.StepCleans | src/quo-auto-distrib.c:57-204 | every step keeps that, but for the path of the call under way |
| ProtocolRuns.NoRebindDuringQuery | src/quo-auto-distrib.c:254-259 | while process 0 queries the bindings none can change |
| ProtocolRuns.NoDeadlock | src/quo-auto-distrib.c:94-181 | unless all are done, some process has a step |
| ProtocolRuns.EveryRunEnds | src/quo-auto-distrib.c:57-259 | no interleaving is longer than a bound given by processes, calls and resources |
| ProtocolRuns.AllDoneAtEnd | src/quo-auto-distrib.c:57-259 | when nobody can step, all calls are complete |
| ProtocolRuns.Agreement | src/quo-auto-distrib.c:94-201 | all processes end a call with the same table as process 0, that of the bindings when it queried |
| ProtocolRuns.CallElects | src/quo-auto-distrib.c:228-352 | deciding alone, the processes together are exactly the elected ones of the table of that call, so many per resource and so many in all |
| Stids.UpdateNstids | demos/nice-tid-distrib.c:253-316 | terminates; succeeds if and only if nothing need be given up or one can be left for every busy node; then the total is exact, no node grows and none loses its last, a node that gave two more than another leaves that at most one, and one that could give once more has given no less than those after it in the order; otherwise nothing changes |
| Stids.Lower | demos/nice-tid-distrib.c:280-293 | the passes end exactly at the wanted total or prove it cannot be met |
| Stids.PassLevels | demos/nice-tid-distrib.c:280-288 | after full passes every node has given as often as it could, up to their number; a last partial one takes once more from the first nodes |
| Stids.StillDecreasing | demos/nice-tid-distrib.c:282-288 | a pass that did not finish leaves the counts sorted, so that the next one looks at the right nodes |
| Stids.TotalPermuted | demos/nice-tid-distrib.c:260-266 | totals do not depend on the order of the sort |
| Stids.Unselect | demos/nice-tid-distrib.c:356-367 | the first selected processes of a node stay selected and the others do not |
| Stids.KeepsCount | demos/nice-tid-distrib.c:356-367 | exactly the new number stay, the first process among them if it was selected |
| DiffTheory.StepUndone | src/hwloc/hwloc/diff.c:449-521 | undoing an entry just applied succeeds and restores everything, totals modulo 2^64 included, if infos of an object have different names |
| DiffTheory.StepUndoneExactly | src/hwloc/hwloc/diff.c:449-521 | if they need not, it succeeds still, and restores everything if and only if no earlier info is already as the changed one becomes |
| DiffTheory.StepsCommute | src/hwloc/hwloc/diff.c:449-521 | two entries for different attributes can be applied in either order |
| DiffValues.FitsByValue | src/hwloc/hwloc/diff.c:449-521 | an entry fits exactly when its attribute holds the value it expects, the infos of one name being one attribute with several values |
| DiffValues.StepByValue | src/hwloc/hwloc/diff.c:449-521 | it replaces the first such value and leaves the other attributes alone |
| DiffValues.Determined | src/hwloc/hwloc/diff.c:449-521 | those values determine the state, beside names of infos and totals relative to local memories, which no entry changes |
| DiffRollback.RolledBackExactly | src/hwloc/include/hwloc/diff.h:209-210 | the rollback restores everything if and only if undoing the entries about each attribute, first one first, leads back to the values it held |
| DiffRollback.BackwardsAll | src/hwloc/hwloc/diff.c:449-564 | applying a list in reverse replaces, entry by entry, what it leads to by what it starts from |
| DiffRollback.BackwardsUntil | src/hwloc/hwloc/diff.c:449-564 | and ends at the first entry that does not find what it leads to, the others being put back as far as they fit |
| DiffRollback.AppliedByValue | src/hwloc/hwloc/diff.c:449-521 | entries that were applied did to each attribute the replacements they say |
| DiffRollback.UndoneByValue | src/hwloc/hwloc/diff.c:555-561 | what undoing leaves of an attribute depends on its values and the entries about it alone |
| DiffRollback.DistinctRestoredExactly | src/hwloc/include/hwloc/diff.h:209-210 | where no two entries are about the same attribute, the rollback restores everything if and only if no info is already, before the one that changes, as that becomes |
| DiffRollback.UndoneInOrder | src/hwloc/hwloc/diff.c:555-561 | undoing such entries in the order they were applied passes none over, and restores everything if infos of an object have different names |
| DiffRollback.RestoredExactly | src/hwloc/include/hwloc/diff.h:209-210 | where infos of an object have different names, the rollback restores everything if and only if the values that the entries take each attribute through lead back |
| DiffRollback.TwoChanges | src/hwloc/hwloc/diff.c:555-561 | then one change is undone; two, x to y to z, exactly if x is y or y is z |
| DiffRollback.FreshRestoredExactly | src/hwloc/include/hwloc/diff.h:209-210 | where no attribute gets a value twice, the rollback restores everything if and only if no entry takes up the outcome of an earlier one; with different names, if and only if no two are about the same attribute |
| DiffRollback.ChainedIsNotUndone | src/hwloc/hwloc/diff.c:544-561 | three entries of which the third fails, and the size 2 that the rollback leaves of 1 |
| DiffRollback.ChainedYetUndone | src/hwloc/hwloc/diff.c:544-561 | two entries for one attribute that are undone all the same |
| DiffRollback.SameNameNotUndone | src/hwloc/include/hwloc.h:1146-1147 | two infos of one name, and one entry that is not undone |
| DiffTheory.StepKeepsTotals | src/hwloc/hwloc/diff.c:460-480 | every object's total memory stays the sum of the local memories below it, modulo 2^64 |
| DiffTheory.AppliedKeepsTotals | src/hwloc/hwloc/diff.c:544-553 | and so after any list of entries |
| DiffApply.ApplyOne | src/hwloc/hwloc/diff.c:449-521 | an entry is applied exactly when its attribute holds what the entry starts from, and the first such value becomes what it leads to, with the walk up the parents; in reverse the two change roles; otherwise nothing changes |
| DiffApply.AddToTotals | src/hwloc/hwloc/diff.c:474-478 | the walk adds the difference to the object and all its ancestors, once each |
| DiffApply.Apply | src/hwloc/hwloc/diff.c:523-564 | all entries are applied as they stand, or the negated position of the first that does not fit is returned and the state is what the rollback leaves: as before exactly when undoing leads each attribute back to its values; in reverse, the same with what each entry starts from and leads to exchanged |
| DiffApply.Cancel | src/hwloc/hwloc/diff.c:555-561 | the entries before the failing one are undone, first one first, and those that do not fit are passed over |
| Distances.Restrict | src/hwloc/hwloc/distances.c:739-768 | the matrix and its arrays become those of the remaining objects, in order, in place |
| Distances.CellMoves | src/hwloc/hwloc/distances.c:749-757 | a cell is never moved to a place still to be read |
| Distances.CompactMatrix | src/hwloc/hwloc/distances.c:749-757 | the matrix becomes the submatrix of the remaining objects |
| Distances.CompactArrays | src/hwloc/hwloc/distances.c:759-767 | the same for objects, indexes and types in one pass, which tests the objects while it moves them |
| Distances.Distances.RefreshOne | src/hwloc/hwloc/distances.c:770-816 | each object is looked up again under its own type, or the common one, and its index; the gone ones are forgotten, those left stand beside the type and index they were found under, and distances between fewer than two are dropped |
| Colors.GetMyColor | src/quo-mpi.c:156-177 | the scan ends within the numbers although its inner loop has no bound, and counts the runs before the own number |
| Colors.SameColorSameNode | src/quo-mpi.c:156-209 | whatever common order the sort leaves, two processes have the same colour exactly when they have the same number |
| Colors.NodesCounted | src/quo-mpi.c:221-227 | the contributions of the rank-0 processes add up to the number of distinct numbers |
| Base64.EncodedLength | src/hwloc/hwloc/base64.c:133-186 | the encoded length is four times the number of started groups of three bytes |
| Base64.EncodedBack | src/hwloc/hwloc/base64.c:193-309 | encoding what was decoded gives the text back, padding included, if it ended as it must and left no bits over |
| Base64.OnlyEncoding | src/hwloc/hwloc/base64.c:193-309 | a text is the encoding of nothing else, and of nothing at all if it ends otherwise |
| Base64.EncodedInjective | src/hwloc/hwloc/base64.c:133-186 | different bytes have different encodings |
| Base64Meaning.AlphabetInOrder | src/hwloc/hwloc/base64.c:62-63 | a digit is the character of the literal alphabet at its value, and the position of a character is its index there |
| Base64Meaning.GroupMeans | src/hwloc/hwloc/base64.c:133-186 | each four characters, read in base 64, are the three bytes of their place read in base 256; at the end two bytes and two zero bits, or one byte and four, with = for the rest |
| Base64Meaning.TestVectors | src/hwloc/hwloc/base64.c:133-186 | the test vectors of section 10 of RFC 4648 |
| Base64Meaning.OnlySpacePassedOver | src/hwloc/hwloc/base64.c:205-212 | the six white space characters may stand anywhere in a text to decode, and nothing else is passed over |
| Base64Coder.Encode | src/hwloc/hwloc/base64.c:133-186 | the encoding and its NUL are stored exactly when both fit |
| Base64Coder.StoreDigit | src/hwloc/hwloc/base64.c:214-254 | the four states of the digit loop fill the buffer with the bytes completed and the bits left over, and refuse when there is no room |
| Base64Coder.CheckEnd | src/hwloc/hwloc/base64.c:262-306 | which padding may follow which state, white space aside |
| Base64Coder.Decode | src/hwloc/hwloc/base64.c:193-309 | decoding into a buffer succeeds if and only if the text, white space removed, is an encoding of bytes that fit, and then stores them; without a buffer, it counts |
| Base64Coder.DecodedAre | src/hwloc/hwloc/base64.c:193-309 | so the encoding of n bytes, decoded into n+1 bytes, gives exactly those |

## Left out

- Bitmaps: the index and count types are unbounded; the 32-bit `unsigned` of the source would wrap, and a range
  end below -1, which the source casts to `unsigned`, is not modelled.
- Bitmaps: words are stored in a growing list that is a field, so two bitmaps never share storage; allocation
  does not fail. Bits are vectors of booleans, `ffsl` and `flsl` functions with contracts.
- Bitmaps: `only`, `allbut`, `first`, `last`, `weight`, `isfull` and the conversions from and to words would
  only add easy members. `compare_first` is not modelled either.
- BitmapCompare.Compare: the two loops over the words that one bitmap does not store are one, which reads its
  tail instead.
- BitmapQueries.NextBit: one method for `next` and `next_unset`, which differ in one complement.
- BitmapHex.PrintHex: the text is returned whole; the truncation of `snprintf` to a buffer, and so the length
  that is returned when it does not fit, are not modelled. The same holds for the other two printers.
- BitmapHex.ScanHex: does not take the empty text, on which the source reads behind the end. More groups than
  were counted, on which an assertion stops the source, are an error result.
- BitmapHex.ScanGroups: what a text that ends after a comma leaves in the words it did not spell is not said.
- BitmapList.ScanList: numbers that do not fit an `int` are an error result of their own; the source converts
  them. So `BitmapList.ListRoundTrip` is for sets whose ranges begin and end at numbers that fit, as they must
  for the printer.
- TextMeaning.IsDigit: the lower-case digits that are printed; capital ones, which `strtoul` reads as well, are
  given no meaning of their own.
- PCI: host bridges, special devices, localities and the attachment of the tree to the topology. A bridge's
  buses are in its own domain.
- PciInsert.AddObject: the object with a bus id already taken is dropped, and the message about it left out;
  freeing it is not modelled.
- CPU kinds: ranking by efficiency, except that reordering kinds between registrations changes nothing that is
  proved; restriction to fewer CPUs; duplication.
- QuoSet.GetKSetIntersection: allocation does not fail, and values are not limited to 32 bits.
- AutoDistrib.Decide: `max` times the number of resources does not overflow; a call with `max` not positive is
  refused by the source before anything that is modelled.
- AutoDistrib.QidsInType: whether a process covers a resource is an input, for failing queries too.
- Protocol: the length of the path name and the name are one broadcast. A failing call of process 0 leaves the
  others waiting, so calls succeed; the mapping of a segment is its contents, and every step is atomic. The
  file written may exist already, with anything in it. Memory is counted in ints.
- ProtocolRuns.EveryRunEnds: fairness is not expressed; the bound on the steps of any run, with
  `ProtocolRuns.NoDeadlock`, is.
- Stids.UpdateNstids: the order that `qsort` leaves is an input, sorted as `compare_second` has it. The messages
  between nodes are left out.
- DiffTheory.Fits: differences that change a name where there is none are left out with the building of
  differences, which never produces them.
- Distances: grouping by distance, whose transitive closure the source does not reach from every start, and
  everything about values and heterogeneous types beyond keeping them in place.
- Colors.GetMyColor: the sort is any reordering that is the same on all processes; the comparison function of
  the source truncates a difference, so it may not sort.
- Base64Coder.Decode: a character is white space if it is one of the six of the C locale.
- Texts hold no NUL; C strings end there.
- The bind stack, the query functions, the bindings for other languages, the backends of hwloc, the discovery of
  distances, XML, and the other demos: calls into the operating system, or easy members.
