# Verified models of SONiC build-image algorithms

This project models the self-contained algorithms of the SONiC build-image repository in Dafny and
proves what they are for. Each source component has a pure model, on which the properties are
proved, and where the source works by changing things in place an imperative model (classes, arrays,
linked nodes, loops) whose methods are proved to compute the pure one.

| modules | component |
|---|---|
| `DmaBlocks`, `DmaAssembly`, `DmaSegment` | assembly of a contiguous DMA segment from page blocks, with tags in the low address bits |
| `VersionLookup`, `VersionAdjust`, `VersionModules`, `VersionExpand`, `VersionOverwrite`, `VersionSubtract`, `VersionClasses` | inheritance of package versions: overwrite, adjust, subtract and expansion |
| `YangRows`, `YangTables`, `YangContainers`, `YangWeights`, `YangRoundTrip`, `YangForward`, `YangTranslator`, `YangDatabase` | ConfigDB to YANG translation and its inverse |
| `SplayTree`, `SplayOps`, `SplaySet` | top-down splay trees on linked nodes |
| `MpoolCells`, `MpoolList` | first-fit DMA memory pools |
| `FruFields`, `FruImage`, `FruLayout`, `FruAreas` | FRU images of the IPMI Platform Management FRU Information Storage Definition |
| `FanTlv`, `FanDevice` | fan EEPROM images |
| `DhcpFilter`, `DhcpHealth`, `DhcpMonitor` | the packet filter and the counter and health state machine of dhcpmon |
| `FrrConfig` | canonical form of FRR configurations |
| `BreakoutLanes` | lanes of broken-out ports |
| `EcmpBuckets` | bucket size of fine-grained ECMP |
| `TextOps` | splitting, joining, stripping and integers as Python defines them |
| `Wrappers`, `Powers` | options, results and powers of two |

`dafny verify dfyconfig.toml` checks everything.

## What the proofs found

- The DMA scan is maximal with fewer assumptions than one expects: blocks need not be distinct or
  non-zero, only aligned and inside the 64-bit address space, and `seg_size` may start anywhere.
  Pages are conserved for every outcome. A refused page request leaves a zero slot that the scan takes
  for a block at address zero. Only the very first request for blocks can leave one to a scan, since a later
  refusal ends the loop; a request is met at address zero, without pages behind it, exactly when one
  block is asked for and its page refused (`SegmentAlloc`, `OnePageExample`), as long as no page is
  granted right behind the empty slot.
- `adjust` alone changes an effective version in a diamond (`DiamondExample`), with an exact
  condition (`AdjustMeaning`). `subtract` followed by expansion is nevertheless lossless on diamonds,
  because expansion adjusts too; it needs only that the default module has no two components of one
  key (`SubtractIsLossless`, `LossyExample`).
- `overwrite` for all dists but not all arches writes a version to (all, arch), where an older version at
  (dist, all) hides it (`StepTakes`, `HiddenExample`); with both flags, as `freeze` uses it, the new
  version is always effective (`FrozenVersion`).
- A boolean leaf with the text false comes back from YANG as true (`BooleanExample`).
- A DMA pool smaller than a megabyte has a descriptor arena that leaves the pool (`DescInside`);
  freeing the address at the end of an arena removes its tail sentinel (`FreeLimit`). Descriptor and
  data blocks never overlap (`ArenasApart`), but the common list covers both (`CommonClashes`), so it
  cannot be used beside them; the source reserves it for one chip family.
- Board extra fields of length 1 and product extra fields of length 0 or 1 are read as the end of the
  list, and dates of more than 24 bits are cut; the round trips say exactly when nothing is lost
  (`BoardExtraExample`, `ProductExtraExample`, `BoardDateExample`).
- The fan image's checksum covers its length but is looked for where the length says, so a changed low
  length byte is accepted exactly when it is smaller and the bytes there happen to be the sum
  (`LengthDamage`, `LengthDamageExample`); every other changed byte in front of the padding is
  noticed (`DamageRejected`).
- The ECMP bucket size counts a next hop once for every device of its bank, so it is too large exactly
  when a bank has two devices (`BucketAsMeant`, `TwoDevicesExample`). The only caller gives each
  device its own bank, where it is always right (`CallerAsMeant`).
- Where documentation and code differ, the code is followed: beside being inbound and udp on port 67 or 68,
  as the comment on the packet filter says, an IPv4 packet must be a first fragment.

## Model

| member | source | states |
|---|---|---|
| `DmaSegment.Segment.FindLargest` | platform/centec/centec-dal/dal_kernel.c:877-969 | one call, from any starting seg_size: the blocks tagged 2 tile exactly [seg_begin, seg_end) whenever the segment improved, the recorded segment is unchanged otherwise, and if seg_size stays below req_size then it bounds every contiguous run of the whole array; no block is lost and the addresses under the tags are unchanged |
| `DmaSegment.Segment.GrowAround` | platform/centec/centec-dal/dal_kernel.c:895-930 | the do/while: from block i the range grows by untagged blocks after i until it meets the request or no such block fits at either end, and the blocks tagged 3 are exactly those of the range, laid end to end |
| `DmaSegment.Segment.SettleOne` | platform/centec/centec-dal/dal_kernel.c:892-966 | one turn of the outer loop keeps the winner's tiling and settles block i: no run through a block up to i is longer than seg_size |
| `DmaAssembly.StableIsMaximal` | platform/centec/centec-dal/dal_kernel.c:903-930 | a range that no later block extends, longer than the best so far, is the whole maximal run around it although the scan looks only at blocks after i |
| `DmaAssembly.SettledBoundsRuns` | platform/centec/centec-dal/dal_kernel.c:892-966 | when every block is settled, seg_size bounds every contiguous run in the array |
| `DmaAssembly.PromoteWins` | platform/centec/centec-dal/dal_kernel.c:932-953 | retagging makes the grown range the winner, tiled exactly by the blocks tagged 2, and discards the previous one |
| `DmaAssembly.DropKeepsWinner` | platform/centec/centec-dal/dal_kernel.c:954-964 | discarding a losing range leaves the winner's tiling as it was |
| `DmaBlocks.RangeLength` | platform/centec/centec-dal/dal_kernel.c:898-930 | blocks laid end to end are pairwise different and as many as the range holds block sizes |
| `DmaBlocks.OneExtent` | platform/centec/centec-dal/dal_kernel.c:898-930 | all blocks of one contiguous range lie in the same maximal run |
| `DmaSegment.Segment.AllocBlocks` | platform/centec/centec-dal/dal_kernel.c:975-1004 | what the pool becomes for every run of replies, also when a request is refused half-way: the requested slots are added, filled up to the first refusal and empty from there, or none is added when the array has no room; it succeeds exactly when there is room and no reply is a refusal |
| `DmaSegment.Segment.Assemble` | platform/centec/centec-dal/dal_kernel.c:1051-1062 | at the end of the do/while every block obtained is in the pool and none is released. The first request was made, and eight more blocks were asked for only while no run was as long as the request. The loop ends with the request met, by blocks tagged 2 that tile it, without room for eight more, or at a refusal; `seg_size` is the length of a run that exists, and when the request is not met the longest of the blocks scanned last |
| `DmaSegment.Segment.ScanAndAsk` | platform/centec/centec-dal/dal_kernel.c:1051-1062 | one turn of the do/while: it ends with the request met by a tiling, without room for eight more blocks, or at a refusal, and goes on only when every new slot was filled |
| `DmaAssembly.WinnerIsRun` | platform/centec/centec-dal/dal_kernel.c:932-953 | the winner's length is that of a contiguous run in the array, so the longest run is attained |
| `DmaAssembly.RunPersists` | platform/centec/centec-dal/dal_kernel.c:975-1004 | a run stays one when blocks are added |
| `DmaSegment.Segment.ReleaseUnused` | platform/centec/centec-dal/dal_kernel.c:1065-1084 | blocks of the segment stay, all others are released once, and kept and released together are the blocks of the pool |
| `DmaSegment.KeptTiles` | platform/centec/centec-dal/dal_kernel.c:1065-1084 | what is kept still tiles the segment, exactly when the segment does not begin at address zero (a refused request leaves a zero slot that is taken for a block at zero); without refusals it never does |
| `DmaSegment.BlockOrder` | platform/centec/centec-dal/dal_kernel.c:1033-1036 | the least page order whose pages hold a block |
| `DmaSegment.SegmentAlloc` | platform/centec/centec-dal/dal_kernel.c:1010-1087 | conservation for every outcome: pages obtained are those released or still in the pool, and what stays in the pool lies in the segment. The first request is made, and more blocks are asked for only while no run is as long as the request. When the request is not met, the segment is the longest run of the blocks scanned last, which are all but those of a refused request, and there is no room for more or a request was refused. When it is met, it exceeds the request by less than a block, and the kept blocks tile it exactly when it does not begin at zero. When no page is granted at the address of one block size, a request is met at address zero exactly when it is for one block, there is room for one, and the first page request is refused |
| `DmaSegment.Capacity` | platform/centec/centec-dal/dal_kernel.c:1038-1039 | the most blocks that fit in memory |
| `DmaSegment.KeptInside` | platform/centec/centec-dal/dal_kernel.c:1065-1084 | whatever the outcome, the blocks kept lie in the segment |
| `DmaSegment.Outcome` | platform/centec/centec-dal/dal_kernel.c:1051-1087 | a request is met at address zero only if the first request for blocks was refused, and, when no page is granted at the address of one block size, exactly when one block was asked for and its page refused |
| `DmaSegment.OnePageExample` | platform/centec/centec-dal/dal_kernel.c:1010-1087 | one page asked for and refused: the call reports a segment of one page at address zero |
| `DmaSegment.Segment.Free` | platform/centec/centec-dal/dal_kernel.c:1093-1118 | every block kept is released exactly once |
| `DmaSegment.SegmentLife` | platform/centec/centec-dal/dal_kernel.c:1010-1118 | over allocation and free, with any refusals and any outcome, the pages released are exactly the pages obtained, as multisets |
| `VersionLookup.SortSorted` | scripts/versions_manager.py:133-140 | sorting by the order keys gives a sorted permutation of the components |
| `VersionLookup.BasesAreInheritable` | scripts/versions_manager.py:106-113 | a component inherits exactly from the four keys made of its own or the general dist and arch |
| `VersionLookup.LookBases` | scripts/versions_manager.py:211-216 | in sorted order, the last applicable entry is the most detailed one: (dist, arch), then (dist, all), then (all, arch), then (all, all) |
| `VersionLookup.LookSort` | scripts/versions_manager.py:133-140 | sorting does not change which of two entries of equal key wins |
| `VersionAdjust.InheritedIsLook` | scripts/versions_manager.py:255-260 | the merge loop over earlier components gives at each package the last applicable entry |
| `VersionAdjust.AdjustMeaning` | scripts/versions_manager.py:237-264 | `adjust` keeps the effective version at a query exactly when the query is not masked: a (dist, all) entry that repeats the (all, all) version, is dropped, and had hidden a different (all, arch) entry |
| `VersionModules.AdjustLean` | scripts/versions_manager.py:237-264 | for all inputs, `adjust` leaves no entry equal to what its component inherits, and no empty component |
| `VersionModules.AdjustIdempotent` | scripts/versions_manager.py:237-264 | running `adjust` twice equals running it once |
| `VersionExpand.OverwriteLook` | scripts/versions_manager.py:161-174 | after the overwrite loop, an entry of the overwriting module wins and all others stay |
| `VersionOverwrite.OverwriteOneAt` | scripts/versions_manager.py:96-103 | with any flags, exactly the components of the type whose dist and arch are those of the overwriting one, or general where the flag allows it, take its versions, and the others stay; only when there is none it is added, under a key made general as the flags say (142-147, 161-174) |
| `VersionOverwrite.OverwriteLoopAt` | scripts/versions_manager.py:161-174 | after the loop, with any flags, each component lists the version of the last overwriting component of its scope that has one, and else its own |
| `VersionOverwrite.FrozenVersion` | scripts/versions_manager.py:161-175 | overwritten with both flags, as `freeze` does (468), and adjusted, a module gives a package at the key of each overwriting component that component's version, whatever it held before, when the overwriting module lists one version of the package for the type |
| `VersionOverwrite.StepTakes` | scripts/versions_manager.py:161-174 | overwriting makes the new version effective at its key for all flags but one combination: for all dists but not all arches exactly when it is not hidden below an older (dist, all) entry |
| `VersionOverwrite.HiddenExample` | scripts/versions_manager.py:161-174 | a version that overwriting for all dists alone leaves hidden |
| `VersionExpand.ConfigModuleLook` | scripts/versions_manager.py:194-209 | the config module holds at (dist, arch) the folded component of that type, and nothing for types without components |
| `VersionExpand.ConfigIsEffective` | scripts/versions_manager.py:211-216 | the config fold over the components of a type is the effective version |
| `VersionExpand.ConfigMeaning` | scripts/versions_manager.py:161-216 | the expansion through clone, overwrite, adjust and fold equals a definition by lookups in the two modules alone |
| `VersionSubtract.SubtractKeepsMeaning` | scripts/versions_manager.py:161-235 | compress then expand: the expanded version of every type, package, dist and arch is unchanged by `subtract` exactly when it is not lossy, which needs the default module to hold two components of one key that disagree |
| `VersionSubtract.SubtractIsLossless` | scripts/versions_manager.py:161-235 | when the default module has no two components of one key, `subtract` changes no expanded version at any query, diamond or not |
| `VersionSubtract.DiamondExample` | scripts/versions_manager.py:237-264 | a diamond of (all, arch) and (dist, all) on which `adjust` changes the effective version |
| `VersionSubtract.LossyExample` | scripts/versions_manager.py:194-235 | two default components of one key on which `subtract` changes an expanded version |
| `VersionClasses.Component.Merge` | scripts/versions_manager.py:56-59 | the dict after merging, overwriting or keeping entries |
| `VersionClasses.Component.Subtract` | scripts/versions_manager.py:61-64 | exactly the entries that are not equal in the other dict stay |
| `VersionClasses.Component.CleanInfo` | scripts/versions_manager.py:142-147 | dist and arch made general as asked; dist stays for deb unless forced |
| `VersionClasses.VersionModule.Clone` | scripts/versions_manager.py:335-343 | a new module of new components with the values of those of the types asked for and not excluded, in order; an empty list asks for all |
| `VersionClasses.SelectedParts` | scripts/versions_manager.py:335-343 | part by part, the components of the types asked for and not excluded are taken, in order |
| `VersionClasses.VersionModule.Adjust` | scripts/versions_manager.py:237-264 | the component objects, subtracted from in place, hold the value of the adjust function; the lemmas on it apply |
| `VersionClasses.VersionModule.Overwrite` | scripts/versions_manager.py:161-175 | the module after merging in place with any flags, appending clones and adjusting, as the functions of `VersionOverwrite` tell; the other module keeps its value |
| `VersionClasses.VersionModule.GetConfigModule` | scripts/versions_manager.py:194-209 | a new module with the value of the expansion; neither input changes |
| `VersionClasses.VersionModule.VersionsFor` | scripts/versions_manager.py:244-249 | the versions of a type in a config module are the expansion at that key |
| `VersionClasses.VersionModule.Subtract` | scripts/versions_manager.py:218-235 | the module's components become new objects with the value of the subtraction; the default module keeps its value |
| `YangRows.ValueRoundTrip` | src/sonic-yang-mgmt/sonic_yang_ext.py:399-433 | a field value comes back from its typed form exactly when it is faithful: integers canonical, leaf-lists lists of such, or texts of stripped elements where a separator is declared, booleans only the text true; `_revFindYangTypedValue` is 766-788 |
| `YangRows.BooleanExample` | src/sonic-yang-mgmt/sonic_yang_ext.py:783-784 | the boolean text false comes back as true, because the forward path keeps text and the reverse path tests truthiness |
| `YangRows.TypedPlain` | src/sonic-yang-mgmt/sonic_yang_ext.py:399-433 | a plain uint leaf takes exactly the texts that are integers and holds the number; any other plain leaf holds the text |
| `YangRows.TypedList` | src/sonic-yang-mgmt/sonic_yang_ext.py:417-428 | a leaf-list holds its elements in order, each as a plain leaf would: those of a list, the stripped parts of a text with a declared separator, the characters of another text; it fails exactly when an element of a uint list is no integer |
| `YangRows.FaithfulTyped` | src/sonic-yang-mgmt/sonic_yang_ext.py:399-433 | canonical integers and every other faithful value always translate |
| `YangRows.UntypedForms` | src/sonic-yang-mgmt/sonic_yang_ext.py:766-788 | what each YANG value becomes: decimal digits or text, the truth of a boolean, the elements of a leaf-list, joined where a separator is declared |
| `YangRows.KeyRoundTrip` | src/sonic-yang-mgmt/sonic_yang_ext.py:253-266 | `_createKey` (741-760) after `_extractKey` gives the key back exactly when every part is stripped and not empty, raises exactly when a stripped part is empty, and always gives a key of that form |
| `YangRows.FieldsRoundTrip` | src/sonic-yang-mgmt/sonic_yang_ext.py:573-581 | all fields of an entry come back exactly when all are faithful |
| `YangRows.PairsRoundTrip` | src/sonic-yang-mgmt/sonic_yang_ext.py:513-526 | the inner list of a Type 1 entry gives back the entry's dict, in whatever order it was visited |
| `YangRows.RowRoundTrip` | src/sonic-yang-mgmt/sonic_yang_ext.py:546-595 | a list entry comes back with its key exactly when it is a dict with a normal key, no field named like a key, and faithful fields (Type 1: any texts); `_revXlateList` is 871-902 |
| `YangRows.AcceptsIff` | src/sonic-yang-mgmt/sonic_yang_ext.py:546-595 | a list takes exactly the entries whose keys have as many parts as it has key names and whose fields it can type; a Type 1 list (505-538) those whose fields are texts |
| `YangRows.RowHolds` | src/sonic-yang-mgmt/sonic_yang_ext.py:505-595 | the row of an entry holds the stripped parts of the key under the key names, every field as its leaf types it, and nothing else; a Type 1 row holds name and value of each field in the order of the dict |
| `YangTables.RestIsUntaken` | src/sonic-yang-mgmt/sonic_yang_ext.py:601-610 | after all lists, the config holds exactly the entries that no list accepts |
| `YangTables.EachToOne` | src/sonic-yang-mgmt/sonic_yang_ext.py:601-672 | dispatch loses and doubles nothing: the rows of the i-th list are one for each entry whose first accepting list it is, and an empty list leaves no node |
| `YangTables.ListsBack` | src/sonic-yang-mgmt/sonic_yang_ext.py:836-914 | the lists of a container give back their entries under the same keys when these are normal, those of a list whose name lacks _LIST excepted |
| `YangTables.ListsNormal` | src/sonic-yang-mgmt/sonic_yang_ext.py:741-760 | whatever the reverse lists give back has normal keys, when no field has the name of a key |
| `YangRoundTrip.EveryKeyOnce` | src/sonic-yang-mgmt/sonic_yang_ext.py:648-698 | when a table translates, every key of it was consumed once: by a list, else by the inner container of its name, else by the leaf of its name |
| `YangRoundTrip.ContainerRoundTrip` | src/sonic-yang-mgmt/sonic_yang_ext.py:488-698 | the reverse translation (741-962) of a translated table, with nested containers, is the original table exactly when it is good: for every well-formed schema, every visiting order of every dict, and every table that translates |
| `YangForward.TranslatesIff` | src/sonic-yang-mgmt/sonic_yang_ext.py:648-698 | a table translates exactly when every key that no list takes is that of an inner container, which is empty or translates, or of a leaf whose value can be typed |
| `YangForward.GoodTranslates` | src/sonic-yang-mgmt/sonic_yang_ext.py:648-698 | a good table always translates |
| `YangForward.ThereAndBack` | src/sonic-yang-mgmt/sonic_yang_ext.py:488-698 | for every table: it translates and comes back as it was exactly when it is good |
| `YangForward.LeafHolds` | src/sonic-yang-mgmt/sonic_yang_ext.py:674-690 | a leaf stands under its name in the YANG data, as the schema types it |
| `YangForward.InnerHolds` | src/sonic-yang-mgmt/sonic_yang_ext.py:617-639 | an inner container stands under its name with its own translation, empty where it is missing or empty |
| `YangForward.ListHolds` | src/sonic-yang-mgmt/sonic_yang_ext.py:601-672 | the rows of a list stand under its name, one for each entry that it is the first to accept |
| `YangWeights.ListsWeight` | src/sonic-yang-mgmt/sonic_yang_ext.py:836-914 | the lists give back no more fields than they took, and fewer when an entry has a field with the name of a key, so a table with such an entry never comes back |
| `YangTranslator.Translator.ExtractKeyOf` | src/sonic-yang-mgmt/sonic_yang_ext.py:253-266 | the key dict, or an error when the numbers of names and parts differ |
| `YangTranslator.Translator.FindYangTypedValue` | src/sonic-yang-mgmt/sonic_yang_ext.py:399-433 | the typed value for the table at the bottom and the field at the top of `elementPath`, or an error |
| `YangTranslator.Translator.XlateEntry` | src/sonic-yang-mgmt/sonic_yang_ext.py:564-595 | one list entry: its row, or an error that leaves no output behind; `elementPath` is as before either way |
| `YangTranslator.Translator.XlateType1Entry` | src/sonic-yang-mgmt/sonic_yang_ext.py:505-538 | one Type 1 entry, its fields as pairs of the inner list |
| `YangTranslator.Translator.XlateList` | src/sonic-yang-mgmt/sonic_yang_ext.py:546-595 | the rows of the accepted entries are appended, exactly these are deleted from the config, and `elementPath` is as before |
| `YangTranslator.Translator.XlateContainerInContainer` | src/sonic-yang-mgmt/sonic_yang_ext.py:617-639 | the inner container's node, empty for a missing or empty one |
| `YangTranslator.Translator.XlateTable` | src/sonic-yang-mgmt/sonic_yang_ext.py:648-698 | `_xlateContainer`: the translated table, or an error when a leaf does not convert or a key is left; on success `elementPath` is as before |
| `YangTranslator.Translator.CreateKeyOf` | src/sonic-yang-mgmt/sonic_yang_ext.py:741-760 | the key made from an entry, or an error when a part is missing or empty |
| `YangTranslator.Translator.RevXlateList` | src/sonic-yang-mgmt/sonic_yang_ext.py:836-902 | the dict of the entries of a list, later ones replacing earlier ones of the same key |
| `YangTranslator.Translator.RevTable` | src/sonic-yang-mgmt/sonic_yang_ext.py:933-962 | `_revXlateContainer`: the table, or an error; on success `elementPath` is as before |
| `YangDatabase.PlaceNames` | src/sonic-yang-mgmt/sonic_yang_ext.py:709-710 | the two names are those of module and top container, and of top container and table, joined with a colon; splitting the second at the colon gives the table back |
| `YangDatabase.TableAt` | src/sonic-yang-mgmt/sonic_yang_ext.py:703-722 | each table of a translated database stands under its two names, whatever other tables share its module |
| `YangDatabase.OnlyTables` | src/sonic-yang-mgmt/sonic_yang_ext.py:703-722 | nothing else stands there |
| `YangDatabase.DatabaseRoundTrip` | src/sonic-yang-mgmt/sonic_yang_ext.py:703-722 | the reverse translation (968-994) of a translated database is the original exactly when every table is good, for every schema with a name of its own for each table and every order of tables and of places |
| `YangDatabase.GoodDatabaseTranslates` | src/sonic-yang-mgmt/sonic_yang_ext.py:703-722 | a database of good tables always translates |
| `YangDatabase.XlateDatabase` | src/sonic-yang-mgmt/sonic_yang_ext.py:703-722 | `_xlateConfigDBtoYang`: the translated database, or an error at the first table that has no model or does not translate; `elementPath` is empty after success |
| `YangDatabase.RevDatabase` | src/sonic-yang-mgmt/sonic_yang_ext.py:968-994 | `_revXlateYangtoConfigDB`: the database, or an error at a name of more than two parts, a table without a model, or one that does not translate back |
| `SplayOps.RotateRight` | src/iccpd/include/openbsd_tree.h:92-97 | the rotation on the nodes in memory keeps order and gives the rotated tree |
| `SplayOps.StepLeft` | src/iccpd/include/openbsd_tree.h:234-247 | one turn to the left, with or without rotation: the three trees together keep their in-order sequence and nodes, and a stop leaves no left child |
| `SplayOps.Assemble` | src/iccpd/include/openbsd_tree.h:120-130 | the three trees become one search tree with the same in-order sequence |
| `SplaySet.Splay` | src/iccpd/include/openbsd_tree.h:225-263 | for every search tree and key, the in-order sequence and the nodes are kept, and the root splits the sequence at the key: it is the key, or an in-order neighbour of where it would stand |
| `SplaySet.SplayMin` | src/iccpd/include/openbsd_tree.h:268-303 | with the negative infinity, the in-order sequence is kept and the root has no left child |
| `SplaySet.SplayMax` | src/iccpd/include/openbsd_tree.h:268-303 | with the positive infinity, the in-order sequence is kept and the root has no right child |
| `SplaySet.Head.Find` | src/iccpd/include/openbsd_tree.h:141-150 | a node is returned exactly when the key is there, and it has the key; the contents stay |
| `SplaySet.Head.Next` | src/iccpd/include/openbsd_tree.h:152-164 | the in-order successor, or null for the last element |
| `SplaySet.Head.Min` | src/iccpd/include/openbsd_tree.h:166-172 | the first element, or null |
| `SplaySet.Head.Max` | src/iccpd/include/openbsd_tree.h:166-172 | the last element, or null |
| `SplaySet.Head.Insert` | src/iccpd/include/openbsd_tree.h:177-200 | a new key goes to its place in the in-order sequence; when the key is there its node is returned and nothing changes, and inserting a node of the tree again returns that node |
| `SplaySet.Head.Remove` | src/iccpd/include/openbsd_tree.h:203-223 | the contents without the key; the argument is returned exactly when its key was there, else null |
| `SplaySet.Join` | src/iccpd/include/openbsd_tree.h:214-218 | splaying the left subtree for the removed key leaves a root without right child, so hanging the right subtree there joins both in order |
| `SplaySet.Perform` | src/iccpd/include/openbsd_tree.h:134-263 | one insert, remove or find agrees with a set of keys, in its answer and in what it leaves |
| `SplaySet.Run` | src/iccpd/include/openbsd_tree.h:134-263 | every run from the empty tree: each answer is membership in the set that the operations before it make |
| `MpoolCells.AllocOk` | platform/centec/centec-dal/dal_mpool.c:126-158 | a granted request keeps the list sorted, pairwise disjoint, inside the arena and aligned |
| `MpoolCells.FreeOk` | platform/centec/centec-dal/dal_mpool.c:220-244 | freeing any address but the end of the arena keeps the invariant |
| `MpoolCells.FreeBlock` | platform/centec/centec-dal/dal_mpool.c:220-244 | freeing the address of a block takes out that block and no other |
| `MpoolCells.FreeLimit` | platform/centec/centec-dal/dal_mpool.c:220-244 | freeing the end of the arena takes out the tail sentinel and breaks the invariant |
| `MpoolCells.InOrder` | platform/centec/centec-dal/dal_mpool.c:126-158 | blocks lie in the arena in address order without overlap |
| `MpoolCells.RefusedIffNoGap` | platform/centec/centec-dal/dal_mpool.c:131-144 | given node memory, a request is refused exactly when no gap is as large as the rounded size |
| `MpoolCells.AllocGrants` | platform/centec/centec-dal/dal_mpool.c:126-158 | a granted request records a block of exactly its size at the place returned, beside the cells that were there, and usage grows by that size |
| `MpoolCells.LowestGap` | platform/centec/centec-dal/dal_mpool.c:131-155 | a granted block starts at the lowest gap that is large enough |
| `MpoolCells.FreeUndoesAlloc` | platform/centec/centec-dal/dal_mpool.c:126-244 | freeing the address just returned restores the list exactly |
| `MpoolCells.Conservation` | platform/centec/centec-dal/dal_mpool.c:306-324 | usage of a list and all its gaps together are the size of its arena |
| `MpoolCells.UsedSplit` | platform/centec/centec-dal/dal_mpool.c:306-324 | usage is the sum of the sizes of the cells of the type and of type -1 |
| `MpoolCells.ServeAllOk` | platform/centec/centec-dal/dal_mpool.c:126-244 | every run of requests of positive size, served or not, and of frees keeps the invariant |
| `MpoolCells.HeldApart` | platform/centec/centec-dal/dal_mpool.c:126-244 | in every run the ranges that callers hold, each from the address returned for the size asked for in whole cache lines and not yet freed, lie in the arena and are pairwise disjoint |
| `MpoolCells.PoolInside` | platform/centec/centec-dal/dal_mpool.c:78-88 | the aligned pool lies inside the memory given and wastes less than a cache line at its end |
| `MpoolCells.ArenasApart` | platform/centec/centec-dal/dal_mpool.c:75-123 | in every pair of runs no descriptor block overlaps a data block, and data blocks stay inside the memory, for every pool size |
| `MpoolCells.CommonClashes` | platform/centec/centec-dal/dal_mpool.c:90-111 | the common list is laid over the same memory: some runs make one of its blocks overlap a descriptor block exactly when the pool has room for a cache line |
| `MpoolCells.DescInside` | platform/centec/centec-dal/dal_mpool.c:99-111 | descriptor blocks stay inside the pool in every run exactly when the aligned pool has a megabyte |
| `MpoolList.CreateList` | platform/centec/centec-dal/dal_mpool.c:46-72 | two sentinels linked in memory, or null when either node has no memory |
| `MpoolList.AllocCommon` | platform/centec/centec-dal/dal_mpool.c:126-158 | the list in memory after the walk and the two pointer writes; null exactly without room or node memory, and else the block's address |
| `MpoolList.FreeCell` | platform/centec/centec-dal/dal_mpool.c:220-244 | the list in memory without the block at the address |
| `MpoolList.Usage` | platform/centec/centec-dal/dal_mpool.c:306-324 | the loop sums the sizes of the cells of a type |
| `MpoolList.Chip.Create` | platform/centec/centec-dal/dal_mpool.c:75-123 | three lists over the aligned memory, or null when any of six node allocations fails |
| `MpoolList.Chip.Alloc` | platform/centec/centec-dal/dal_mpool.c:161-217 | the request is rounded and goes to the list of its type; other types are refused |
| `MpoolList.Chip.Free` | platform/centec/centec-dal/dal_mpool.c:247-273 | the list is chosen by the type of the handle's own head node |
| `DhcpFilter.ProgramChecked` | src/dhcpmon/src/dhcp_device.cpp:64-90 | every jump of the 25 instructions stays inside the program and goes forward, so it halts |
| `DhcpFilter.AndMask` | src/dhcpmon/src/dhcp_device.cpp:80-80 | masking with n low bits is the remainder |
| `DhcpFilter.FilterExact` | src/dhcpmon/src/dhcp_device.cpp:60-90 | for packets of every length and every IPv4 header length, with a load outside the packet rejecting, the filter accepts exactly the packets that are not outgoing and are UDP over IPv6, or over IPv4 with fragment offset zero, with a source or destination port of 67 or 68 present |
| `DhcpHealth.CountedWhere` | src/dhcpmon/src/dhcp_device.cpp:126-163 | messages of clients count where they come in from the south as broadcasts and where the relay sends them north under its address, messages of servers where they come in from the north to that address and where they go out to the south, and no others |
| `DhcpHealth.MonitoredSlots` | src/dhcpmon/src/dhcp_device.cpp:102-108 | the checks look at discover, offer, request and ack, and every type has its own counter in each direction |
| `DhcpHealth.DeviceTally` | src/dhcpmon/src/dhcp_device.cpp:126-163 | in every run of packets and ticks, each counter of an interface is the number of packets counted there, and each snapshot that number at the last tick, modulo 2^64 |
| `DhcpHealth.AggregateTally` | src/dhcpmon/src/dhcp_device.cpp:126-163 | in every run, the aggregate counters and snapshots are the sums over the interfaces modulo 2^64 |
| `DhcpHealth.AggregateWindow` | src/dhcpmon/src/dhcp_device.cpp:723-730 | until a counter wraps, it exceeds its snapshot by exactly the packets since the last tick, so snapshot is at most current |
| `DhcpHealth.InactiveTogether` | src/dhcpmon/src/dhcp_device.cpp:324-335 | the aggregate is inactive exactly when every interface is, however often counters wrapped, if fewer than 2^64 packets of a kind fall between ticks |
| `DhcpHealth.PositiveMeaning` | src/dhcpmon/src/dhcp_device.cpp:366-381 | the relay check in terms of packets: indeterminate when no monitored message came in since the last tick, unhealthy when one came in and none of its type went out on any interface |
| `DhcpHealth.NegativeMeaning` | src/dhcpmon/src/dhcp_device.cpp:395-414 | the management check in terms of packets; always healthy without a management interface |
| `DhcpHealth.CountIsStreak` | src/dhcpmon/src/dhcp_mon.cpp:89-115 | in every run each health count is the number of ticks since the first unhealthy one after the last healthy one |
| `DhcpHealth.StreakIs` | src/dhcpmon/src/dhcp_mon.cpp:89-115 | the first tick of the present streak is unhealthy, no tick since is healthy, and every unhealthy tick before it has a healthy one after it |
| `DhcpHealth.AlarmInRun` | src/dhcpmon/src/dhcp_mon.cpp:96-102 | in every run a tick raises an alarm exactly when it is unhealthy and ends a stretch of more than the maximum number of ticks that begins unhealthy and has no healthy tick |
| `DhcpMonitor.HandleOption53` | src/dhcpmon/src/dhcp_device.cpp:126-163 | both counter arrays are incremented exactly when the message is one to be counted on the interface |
| `DhcpMonitor.IsInactive` | src/dhcpmon/src/dhcp_device.cpp:324-335 | the loop decides whether any monitored counter moved |
| `DhcpMonitor.CheckPositive` | src/dhcpmon/src/dhcp_device.cpp:348-381 | the loop finds a monitored message that was received and not sent |
| `DhcpMonitor.CheckNegative` | src/dhcpmon/src/dhcp_device.cpp:395-414 | the loop finds a monitored message that was sent |
| `DhcpMonitor.GetStatus` | src/dhcpmon/src/dhcp_device.cpp:430-444 | the status of a device, healthy for none |
| `DhcpMonitor.UpdateSnapshot` | src/dhcpmon/src/dhcp_device.cpp:723-730 | the snapshot array becomes the current one |
| `DhcpMonitor.Monitor.Receive` | src/dhcpmon/src/dhcp_device.cpp:126-163 | the devices in memory make the step of the packet |
| `DhcpMonitor.Monitor.CheckRelayHealth` | src/dhcpmon/src/dhcp_mon.cpp:89-115 | the new count of a check and whether it raises an alarm |
| `DhcpMonitor.Monitor.UpdateSnapshots` | src/dhcpmon/src/dhcp_devman.cpp:236-249 | every interface and the aggregate save their counters, none twice |
| `DhcpMonitor.Monitor.TimeoutCallback` | src/dhcpmon/src/dhcp_mon.cpp:128-135 | both checks see the old snapshots; the devices then make the step of the tick |
| `DhcpMonitor.Monitor.RunHistory` | src/dhcpmon/src/dhcp_mon.cpp:89-135 | any history of packets and ticks from the start leaves the devices in memory in the state of the run, and raises at each tick the alarms that the log of both checks up to it demands |
| `FruFields.FixedRoundTrip` | device/ragile/x86_64-ragile_ra-b6510-32c-r0/fru.py:206-228 | fixed fields are read back exactly when each has at most 63 bytes |
| `FruFields.ExtrasRoundTrip` | device/ragile/x86_64-ragile_ra-b6510-32c-r0/fru.py:231-240 | extra fields are read back exactly when each has at most 63 bytes and is not of length 1, in the product area also not empty |
| `FruFields.ChecksumExact` | device/ragile/x86_64-ragile_ra-b6510-32c-r0/fru.py:62-67 | the checksum makes the bytes sum to zero modulo 256, and no other byte does |
| `FruFields.GrownIsLeast` | device/ragile/x86_64-ragile_ra-b6510-32c-r0/fru.py:292-294 | the area grows by the fewest steps of eight that leave room for the checksum |
| `FruFields.SealShape` | device/ragile/x86_64-ragile_ra-b6510-32c-r0/fru.py:292-305 | a sealed area has its size as length and in its second byte, a zero sum, and the contents in front |
| `FruImage.BoardShape` | device/ragile/x86_64-ragile_ra-b6510-32c-r0/fru.py:242-305 | a board area of a size that is a multiple of eight has length = 8 * data[1] and byte sum 0 |
| `FruImage.ProductShape` | device/ragile/x86_64-ragile_ra-b6510-32c-r0/fru.py:567-621 | the same for a product area |
| `FruImage.DateRoundTrip` | device/ragile/x86_64-ragile_ra-b6510-32c-r0/fru.py:252-254 | a date is read back exactly when it has 24 bits |
| `FruImage.BoardRoundTrip` | device/ragile/x86_64-ragile_ra-b6510-32c-r0/fru.py:191-305 | a board area gives its fields back exactly when they are good: section 11 of the IPMI FRU definition |
| `FruImage.ProductRoundTrip` | device/ragile/x86_64-ragile_ra-b6510-32c-r0/fru.py:441-621 | a product area gives its fields back exactly when they are good: section 12 of the IPMI FRU definition |
| `FruImage.BoardExtraExample` | device/ragile/x86_64-ragile_ra-b6510-32c-r0/fru.py:231-240 | a board area with an extra of one byte, whatever it is, that does not come back |
| `FruImage.BoardDateExample` | device/ragile/x86_64-ragile_ra-b6510-32c-r0/fru.py:252-254 | a board area with a date of 25 bits that does not come back |
| `FruImage.ProductExtraExample` | device/ragile/x86_64-ragile_ra-b6510-32c-r0/fru.py:486-495 | product areas with an extra of no or one byte that do not come back |
| `FruImage.HeaderChecksum` | device/ragile/x86_64-ragile_ra-b6510-32c-r0/fru.py:914-918 | the common header sums to zero: section 8 of the IPMI FRU definition |
| `FruImage.ImageRoundTrip` | device/ragile/x86_64-ragile_ra-b6510-32c-r0/fru.py:673-950 | an encoded image has 256 bytes and decodes to the fields it was made from exactly when board and product fields are good, present or absent, for area sizes that are multiples of eight |
| `FruLayout.BoardBytes` | device/ragile/x86_64-ragile_ra-b6510-32c-r0/fru.py:242-305 | a board area byte by byte: section 11 of the IPMI FRU definition |
| `FruLayout.ProductBytes` | device/ragile/x86_64-ragile_ra-b6510-32c-r0/fru.py:567-621 | a product area byte by byte: section 12 of the IPMI FRU definition |
| `FruLayout.ImageLaidOut` | device/ragile/x86_64-ragile_ra-b6510-32c-r0/fru.py:873-950 | the common header byte by byte, section 8 of the IPMI FRU definition, then the areas at their offsets and zeros |
| `FruLayout.AreaEncodes` | device/ragile/x86_64-ragile_ra-b6510-32c-r0/fru.py:242-305 | an area can be encoded exactly when every field is shorter than 256 bytes and its size before and after growing below 2048 |
| `FruLayout.AcceptedSums` | device/ragile/x86_64-ragile_ra-b6510-32c-r0/fru.py:673-734 | an image is accepted only when it begins with version 1, header and areas sum to zero, and it has no internal use area |
| `FruAreas.SealArea` | device/ragile/x86_64-ragile_ra-b6510-32c-r0/fru.py:292-305 | data and size after growing, padding and checksum; an error when the size does not fit its byte |
| `FruAreas.TakeAll` | device/ragile/x86_64-ragile_ra-b6510-32c-r0/fru.py:206-228 | the index advances over n fields; reading past the end is an error |
| `FruAreas.TakeExtras` | device/ragile/x86_64-ragile_ra-b6510-32c-r0/fru.py:231-240 | attributes are set up to the end marker; those beyond stay |
| `FruAreas.BoardInfoArea.Recalcute` | device/ragile/x86_64-ragile_ra-b6510-32c-r0/fru.py:242-305 | data and size are those of the encoding, dated at the call, or it fails exactly when that does |
| `FruAreas.BoardInfoArea.Decodedata` | device/ragile/x86_64-ragile_ra-b6510-32c-r0/fru.py:191-240 | the attributes are those of the decoding on a new object |
| `FruAreas.ProductInfoArea.Recalcute` | device/ragile/x86_64-ragile_ra-b6510-32c-r0/fru.py:567-621 | data and size are those of the encoding, or it fails exactly when that does |
| `FruAreas.ProductInfoArea.Decodedata` | device/ragile/x86_64-ragile_ra-b6510-32c-r0/fru.py:441-495 | the attributes are those of the decoding on a new object |
| `FruAreas.IpmiFru.RecalcuteCommonHead` | device/ragile/x86_64-ragile_ra-b6510-32c-r0/fru.py:873-926 | the image with the offsets of the areas present, or an error at 256 bytes |
| `FruAreas.IpmiFru.Recalcute` | device/ragile/x86_64-ragile_ra-b6510-32c-r0/fru.py:928-950 | the image of the areas' fields, and an error exactly when the encoding has one |
| `FruAreas.IpmiFru.DecodeFrom` | device/ragile/x86_64-ragile_ra-b6510-32c-r0/fru.py:673-734 | areas in the image become new objects with the decoded fields, others stay; an error exactly when the decoding has one |
| `FanTlv.DevBytesBack` | device/ragile/x86_64-ragile_ra-b6510-32c-r0/fantlv.py:81-88 | the bytes of a device type give its number back, also above 2^32 as long as its hexadecimal digits pair up |
| `FanTlv.FanRoundTrip` | device/ragile/x86_64-ragile_ra-b6510-32c-r0/fantlv.py:90-205 | whenever an image can be generated, decoding it gives the same four fields, whatever the object held |
| `FanTlv.ImageLaidOut` | device/ragile/x86_64-ragile_ra-b6510-32c-r0/fantlv.py:90-134 | an image byte by byte: head, length, the four fields by type, sum, and 0xff |
| `FanTlv.EncodesIff` | device/ragile/x86_64-ragile_ra-b6510-32c-r0/fantlv.py:81-134 | with a device type of 32 bits an image can be made exactly when the three texts have at most 236 bytes together |
| `FanTlv.DamageRejected` | device/ragile/x86_64-ragile_ra-b6510-32c-r0/fantlv.py:139-160 | an image with any one byte of head, high length byte, payload or checksum changed is always rejected |
| `FanTlv.LengthDamage` | device/ragile/x86_64-ragile_ra-b6510-32c-r0/fantlv.py:139-168 | an image with its low length byte changed is accepted exactly when the length became shorter and the two bytes at the new end are the sum of the bytes before them, the changed one included; then exactly the fields that begin in front of the new end are set. A longer length is always rejected |
| `FanTlv.LengthDamageExample` | device/ragile/x86_64-ragile_ra-b6510-32c-r0/fantlv.py:139-168 | an image with a changed length byte that is accepted |
| `FanTlv.TlvsBack` | device/ragile/x86_64-ragile_ra-b6510-32c-r0/fantlv.py:161-205 | the loop visits the fields of an image in the order in which they stand, and ends |
| `FanDevice.FanObject.GenerateFanValue` | device/ragile/x86_64-ragile_ra-b6510-32c-r0/fantlv.py:90-134 | the 256-cell buffer filled by index is the image |
| `FanDevice.FanObject.DecodeImage` | device/ragile/x86_64-ragile_ra-b6510-32c-r0/fantlv.py:139-168 | the object's fields after the loop, or an error; every turn advances by at least two bytes |
| `FanDevice.FanObject.Decoder` | device/ragile/x86_64-ragile_ra-b6510-32c-r0/fantlv.py:177-205 | one field is set by its type |
| `FrrConfig.ToIsCanonical` | src/sonic-bgpcfgd/bgpcfgd/config.py:69-95 | whatever the text, each path begins where the one before allows: level, one deeper or one up, with shared prefixes and clean lines |
| `FrrConfig.KeptParts` | src/sonic-bgpcfgd/bgpcfgd/config.py:76-79 | part by part, the lines kept are those that are neither blank nor comments |
| `FrrConfig.PathsHold` | src/sonic-bgpcfgd/bgpcfgd/config.py:69-95 | there is one path for each line kept, in order: it ends in the stripped line, the first stands at the top level, and each other is on the level of the one before, one deeper, or one up, as its indentation compares |
| `FrrConfig.FromToRoundTrip` | src/sonic-bgpcfgd/bgpcfgd/config.py:69-114 | `to_canonical` after `from_canonical` gives the paths back exactly when they begin at the top level, move one level at most with shared prefixes, and their lines are stripped, not empty, without newline and not comments |
| `FrrConfig.CanonicalIsStable` | src/sonic-bgpcfgd/bgpcfgd/config.py:69-114 | for every text, writing its canonical form and reading it again changes nothing |
| `FrrConfig.ParseConfig` | src/sonic-bgpcfgd/bgpcfgd/config.py:69-95 | the loop over the current path and offset computes the canonical form |
| `FrrConfig.WriteConfig` | src/sonic-bgpcfgd/bgpcfgd/config.py:103-114 | the loop writes each last line, indented by its depth |
| `BreakoutLanes.LanesDealt` | src/sonic-config-engine/portconfig.py:285-317 | the slices stand in a row, their concatenation is a prefix of the parent's lanes, and it covers all assigned lanes exactly when every division is exact |
| `BreakoutLanes.ApartIffLanes` | src/sonic-config-engine/portconfig.py:299-315 | child numbers are distinct exactly when every child but the last has a lane |
| `BreakoutLanes.ChildForEach` | src/sonic-config-engine/portconfig.py:302-315 | there are as many children as ports exactly when no number comes twice |
| `BreakoutLanes.ChildrenDistinct` | src/sonic-config-engine/portconfig.py:285-317 | with a lane for each port, no child replaces another and each has the lanes, alias, speed and index of its own slot |
| `BreakoutLanes.ChildHolds` | src/sonic-config-engine/portconfig.py:285-317 | with a lane for each port, the i-th port is numbered by its first lane and has the lanes from there on that its part gives each port, the i-th alias, the index of its first lane and the speed of its part |
| `BreakoutLanes.OnlyPorts` | src/sonic-config-engine/portconfig.py:285-317 | there is no other child |
| `BreakoutLanes.ChildrenLanes` | src/sonic-config-engine/portconfig.py:285-317 | the lanes of the children, in the order of their numbers, are the parent's lanes from the first on, as many as are used |
| `BreakoutLanes.ConfigIff` | src/sonic-config-engine/portconfig.py:285-317 | there is a configuration exactly when the lanes suffice, every part has a port, and every port finds an alias and an index |
| `BreakoutLanes.NameInjective` | src/sonic-config-engine/portconfig.py:303-303 | two child names are equal only if their numbers are |
| `BreakoutLanes.MergeKeepsAll` | src/sonic-config-engine/portconfig.py:347-361 | merging parents with disjoint ranges replaces no port: every child of every parent is there as its parent made it |
| `BreakoutLanes.AddPart` | src/sonic-config-engine/portconfig.py:302-315 | the inner loop advances lane and alias and fills the dict, or fails at a missing alias or index |
| `BreakoutLanes.GetConfigOf` | src/sonic-config-engine/portconfig.py:285-317 | the dict of all children, or an error |
| `EcmpBuckets.GcdDivides` | src/sonic-config-engine/minigraph.py:147-150 | the result divides both numbers |
| `EcmpBuckets.GcdIsGreatest` | src/sonic-config-engine/minigraph.py:147-150 | every common divisor divides it and is at most as large |
| `EcmpBuckets.CalculateGcd` | src/sonic-config-engine/minigraph.py:147-150 | the while loop computes Euclid's function |
| `EcmpBuckets.LcmIsMultiple` | src/sonic-config-engine/minigraph.py:137-142 | the result of the loop is a multiple of every number up to n |
| `EcmpBuckets.LcmIsLeast` | src/sonic-config-engine/minigraph.py:137-142 | it divides every common multiple of 1 to n |
| `EcmpBuckets.LcmUpTo` | src/sonic-config-engine/minigraph.py:137-142 | the loop with exact division computes that least common multiple |
| `EcmpBuckets.LcmGrows` | src/sonic-config-engine/minigraph.py:137-142 | the least common multiple of 1 to d * n exceeds that of 1 to n for every d above 1 |
| `EcmpBuckets.BucketAsMeant` | src/sonic-config-engine/minigraph.py:127-145 | over any banks with a device and a next hop, the bucket size is at least the sum of the least common multiples of 1 to the number of next hops of each bank, and equals it exactly when every bank has one device |
| `EcmpBuckets.CallerAsMeant` | src/sonic-config-engine/minigraph.py:163-166 | the caller numbers its devices, so every bank has one and its bucket size is always the sum over next hops |
| `EcmpBuckets.TwoDevicesExample` | src/sonic-config-engine/minigraph.py:127-145 | two devices on one bank with two next hops give 12 instead of 2 |
| `EcmpBuckets.CalculateLcmForEcmp` | src/sonic-config-engine/minigraph.py:127-145 | the sum, over each bank with a device and a next hop taken once, of the least common multiple of 1 to its count; this is the sum over its numbers of next hops exactly when each bank has one device |

## Left out

- Page reservation (`MEM_MAP_RESERVE`), the kernel's page allocator, and the 32-bit width of block counts and sizes: page requests are answered by a list of replies, and sizes are unbounded except for addresses, which are below 2^64.
- File, path and dump code of `versions_manager.py`, and the host-image branch of `get_config_module` (lines 184-189), which expands over another base than the one `VersionBuild.subtract` uses.
- VersionClasses.VersionModule.Overwrite: the two modules share no component objects, since merging a component into itself while iterating is not a use the source makes.
- Loading of YANG models, libyang, and the building of leaf dicts from choices, groupings and uses: a schema is given with its leaves by name. The step of libyang between the two translations, which types booleans, is not part of this model.
- YangRows.ValueRoundTrip: a list or a dict given where the schema has a plain leaf, and a dict given for a leaf-list, are errors, where the source stores Python's text of the value.
- YangTranslator.Translator.FindYangTypedValue: the same values are errors.
- YangTranslator.Translator.XlateType1Entry: values that are no texts, and a list under a key name, are errors, where the source stores Python's text of the value.
- TextOps.ParseInt: decimal digits outside ASCII, which Python's `int` accepts too, are not modelled.
- The log output of the translator, and the message texts of its errors.
- Red-black trees: only their prototypes are in the header.
- Comparison functions of splay trees: keys are integers, for a comparison function that is a total order.
- `dal_mpool_destroy`, `dal_mpool_debug` and the lock of `dal_mpool.c`: each operation is atomic.
- MpoolCells.RoundUp: sizes so near the largest int that rounding up overflows are not modelled.
- FruAreas.IpmiFru.DecodeFrom: does not decode chassis and multi-record areas.
- Chassis, internal-use and multi-record areas of FRU images and `initDefault`: the setter of the internal-use area calls itself, so those paths do not complete. Which of exit and exception ends a failed decoding is not distinguished. The clock is a parameter.
- FruImage.ImageRoundTrip: area sizes are multiples of eight, as every size that the source gives an area is.
- Fan images longer than the buffer are one kind of error; the order in which the source notices them is not modelled.
- Sockets, libevent, option parsing and the databases of dhcpmon: a packet is an event with its message type, direction and addresses. Health counts are unbounded.
- DhcpHealth.InactiveTogether: is stated for fewer than 2^64 packets of a kind between two ticks, since equal wrapped counters cannot tell 2^64 packets from none.
- FrrConfig.WriteConfig: every path has a line, since the source raises on an empty path.
- BreakoutLanes.GetConfigOf: the loop over the parts of a mode is a recursion; parsing of mode texts, and the optional attributes of `hwsku.json`, are not modelled; port dicts are keyed by the number in the name.
- EcmpBuckets.CalculateLcmForEcmp: division is exact integer division, where Python 3 divides in floating point.
- The rest of `minigraph.py`, of iccpd, of the device plugins and of the build scripts: tables, wrappers and input/output.
