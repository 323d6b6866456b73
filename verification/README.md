# reacTIVision: verified models of the segmenter, the recognisers and the OSC library

The project models the parts of reacTIVision that turn an image into fiducial ids and ids into
network packets, and proves what they guarantee. `dafny verify dfyconfig.toml` checks all of it.

**The region segmenter** (`libfidtrack/segment.c`, files `Options` to `Segmenter` and
`SegmentationTheorems`). One pass over a binary image builds regions with a union-find of
redirects, a region pool with a free list and a bounded adjacency graph. `Segmenter` is the
imperative code; a pointer is an index into a pool. Ghost fields label every scanned pixel with its
region and every reference with its root and rank. The value-level modules say what each operation
does to a pool (`RegionGraph`, `References`, `Storage`), what it does to the labelling
(`Components`), when lists may overflow (`Overflow`) and how the steps of the scan compose
(`Scanning`).

**The tree recogniser** (`libfidtrack/fidtrackX.c`, `treeidmap.cpp`). `Peeling` states what a
partial peeling of leaves has established, as a trace with the order, parents and trees of the peeled
regions; `Hanging` relates it to the trees that hang in the graph; `DepthStrings` proves the
left-heavy string canonical; `Descent` and `Entries` carry the walk down and the sorting;
`Recognition` draws the conclusions and `Fidtracker` is the imperative code.

**Smaller algorithms.** `SymbolSequences` (ranks of permutations, `fidtrack120.c`) and
`TopologySearch` (classification over intrusive rings, `topologysearch.c`). `Handover` says what
a segmented image guarantees to the recognisers: the peeling can begin, nothing has reported to a leaf
at which it starts, and a tree of the table that hangs anywhere in the image is found exactly if none
of its regions lists a neighbour twice. `Shapes` says the same of what is drawn: of components of
pixels inside one another.

**The OSC library** (`wosclib`). `PatternMatch` is the wildcard matcher, `PatternLanguage` its
language, and `OscPatterns` the reading that OpenSound Control 1.0 gives to patterns, with the exact
distance between the two; `CallbackLists` and
`AddressSpace` dispatch addresses, cutting and restoring the pattern buffer; `OscBytes`, `Messages`,
`Framing` and `Bundles` encode and parse; `TcpHandler` sends and receives frames,
`TcpStreams` is the state machine of several senders and one receiver, and `TcpDelivery` says what
every run of it delivers.

## Where the code differs from its documentation

The models follow the code.

- Merging regions swaps the last neighbour into a slot and does not look at that slot again
  (`libfidtrack/segment.c:293-299`), so a neighbour can be listed twice; the last pixel of the image
  BBBW, BWWB, BBBB does it (`DuplicateArises`). Regions with such an entry are never peeled, and
  the trees that have one are missed (`HangingTreeIsFound`, `HoleIsMissed`).
- `find_roots` asserts that a starting leaf has no visited children
  (`libfidtrack/fidtrackX.c:552`). On arbitrary symmetric graphs this holds exactly when the neighbour
  of the leaf has not been peeled into it and reported (`StartUnvisited`); it fails for the last leaf
  of any component that is an unflagged tree in the window (`LastLeafIsVisited`), for two linked leaves
  for instance (`SecondLeafIsVisited`). The release build peels such a leaf all the same, and so does
  the model. On the regions of a segmented image it always holds (`StartsAreUnvisited`).
- The peeling is said never to go above a region that exceeds the limits of the table
  (`libfidtrack/fidtrackX.c:416-421`); the code tests only the child it climbs from
  (`ClimbsFromSmaller`) and stops at candidates of the largest size (`NothingAboveLargest`), so that
  another child may exceed them.
- A root with one neighbour is taken for a leaf on the way down
  (`libfidtrack/fidtrackX.c:186`), so its string is a single character (`NotCut`).
- A brace list whose last alternative fails is skipped, and no list matches at the end of a name; a
  bracket set contains its own opening mark, the minus signs of its ranges, and ranges that end with
  the closing bracket (`wosclib/WOscPatternMatch.cpp:166-283`). A backslash is dropped, where
  OpenSound Control 1.0 gives it no special meaning (`wosclib/WOscPatternMatch.cpp:127-134`).
- From the second blob on, a message's array of blobs is allocated with the number of its strings
  (`wosclib/WOscMessage.cpp:622`), so that the write of the second is out of bounds unless there are
  two strings (`TwoBlobsFit`).
- The receiver looks for a nested bundle in the second byte of an item
  (`wosclib/WOscReceiver.cpp:215`), where a bundle has no number sign.
- `ERR_NO_ITEMS_IN_BUNDLE` is never thrown: an earlier check catches the case
  (`wosclib/WOscBundle.h:155-156`).
- While a packet's data come in, every `recv` stores at the beginning of the packet buffer
  (`wosclib/WOscTcpHandler.cpp:242`), whatever has been received before. Data that arrive in several
  pieces overwrite each other, and the end of the delivered packet is never written. The framing stays
  in step; the packet is intact exactly when its data came in one `recv`.
- Sending an empty packet sends its length and then reports a lost connection
  (`wosclib/WOscTcpHandler.cpp:123-127`).

## Model

| member | source | states |
|---|---|---|
| `SegmentationTheorems.RegionsAreConnectedComponents` | libfidtrack/segment.c:346-489 | two pixels resolve to one root, and to one live region, exactly when a path of 4-neighbouring pixels of one colour joins them |
| `SegmentationTheorems.EveryPixelResolves` | libfidtrack/segment.h:114-125 | from every pixel's reference the redirects end, at one root only, which owns a live region of the pixel's colour |
| `SegmentationTheorems.GraphIsFaithful` | libfidtrack/segment.c:210-343 | listed neighbours touch and differ in colour; touching regions are listed, or one is saturated and the other fragmented; without saturation the lists are exactly the touching pairs |
| `SegmentationTheorems.ListsAreWellFormed` | libfidtrack/segment.c:118-343 | equal multiplicity at both ends, no loops, no list beyond the capacity, nothing listed by saturated or freed regions |
| `SegmentationTheorems.FragmentedTouchesSaturated` | libfidtrack/segment.c:177-243 | a live region is fragmented only if it touches a live region of the other colour that is saturated |
| `SegmentationTheorems.SaturatedHasLongOutline` | libfidtrack/segment.c:210-319 | the list of a region has at most one entry for each side at which it meets another region, and a region is saturated only if it has more such sides than the capacity |
| `SegmentationTheorems.OverflowIsForced` | libfidtrack/segment.c:210-319 | conversely a region that touches more unsaturated regions than the capacity is saturated |
| `SegmentationTheorems.NothingOverflows` | libfidtrack/segment.c:210-319 | if no outline exceeds the capacity then no region is saturated or fragmented, and the lists are exactly the touching pairs |
| `SegmentationTheorems.RoomyIfLarge` | libfidtrack/segment.c:346-489 | which holds when the capacity is at least two links for each pixel of the image |
| `SegmentationTheorems.ListedIffTouching` | libfidtrack/segment.c:210-343 | two regions whose own outlines fit the capacity are listed exactly when they touch, whatever the others do |
| `SegmentationTheorems.BorderRegionsMarked` | libfidtrack/segment.c:359-374 | a live region is flagged as adjacent to the root exactly when it has a border pixel |
| `SegmentationTheorems.BoxesAreExact` | libfidtrack/segment.c:454-461 | the box of a region away from the border is the bounding box of its pixels if and only if their coordinates fit into 16 bits |
| `SegmentationTheorems.PoolsAreConserved` | libfidtrack/segment.c:55-100 | live regions and roots correspond one to one, the pool is the live regions and the free list, and neither pool outgrows the pixels |
| `Segmentation.Segmenter.BuildRegions` | libfidtrack/segment.c:346-489 | for every image of pixels 0 and 255 the pass ends in a segmented state: labels, references, graph, flags and boxes all agree with the image, and lists overflow only where the outline of a region has more sides than the capacity |
| `Segmentation.Segmenter.constructor` | libfidtrack/segment.c:495-510 | both pools, the free list and all that is remembered are empty, and the two rows have the width of the image |
| `Segmentation.Segmenter.TakeRegion` | libfidtrack/segment.c:55-92 | takes the head of the free list, or grows the pool, and the free chain stays linked |
| `Segmentation.Segmenter.NewRegion` | libfidtrack/segment.c:55-100 | a fresh root that owns a fresh region with a one-pixel box; no other reference changes |
| `Segmentation.Segmenter.IsAdjacent` | libfidtrack/segment.c:118-153 | scanning only the shorter list decides adjacency, in both directions |
| `Segmentation.Segmenter.RemoveAdjacentFrom` | libfidtrack/segment.c:156-174 | removes one occurrence of the neighbour and keeps the multiset of the others |
| `Segmentation.Segmenter.ReplaceAdjacent` | libfidtrack/segment.c:251-271 | exchanges the first occurrence of a neighbour, in its slot, for another |
| `Segmentation.Segmenter.MakeSaturated` | libfidtrack/segment.c:177-191 | the overflowing region loses its links, its former neighbours lose theirs to it and are fragmented, nothing else changes |
| `Segmentation.Segmenter.MakeAdjacent` | libfidtrack/segment.c:210-248 | links two regions, or saturates the full ones, as IsMadeAdjacent spells out case by case |
| `Segmentation.Segmenter.MergeRegions` | libfidtrack/segment.c:274-343 | the union of links, box and flags of two regions, by transfer or by saturation |
| `Segmentation.Segmenter.DropCommonLinks` | libfidtrack/segment.c:293-299 | the loop that drops common neighbours, with the slot it does not look at again |
| `Segmentation.Segmenter.TransferLinks` | libfidtrack/segment.c:305-317 | every remaining neighbour is handed over, its own list updated in place |
| `Segmentation.Segmenter.SpreadSaturation` | libfidtrack/segment.c:281-288 | a merger in which one side is saturated saturates the other and fragments its neighbours |
| `Segmentation.Segmenter.Resolve` | libfidtrack/segment.h:114-125 | returns the root of a reference and shortens the path; every other root stays what it was |
| `Segmentation.Segmenter.WestFacts` | libfidtrack/segment.c:414-415 | under the row invariant, which CentrePixel keeps, the west cell is a root without being resolved, as the comment claims, and owns the west region |
| `Segmentation.Segmenter.ContinueRun` | libfidtrack/segment.c:417-461 | a pixel of the west colour joins the west region when the north region is that region already or has another colour, and the row invariant holds at the next pixel; MergeRuns does the merging |
| `Segmentation.Segmenter.MergeRuns` | libfidtrack/segment.c:421-440 | after the merger both runs resolve to the northern root, and the row invariant holds at the next pixel |
| `Segmentation.Segmenter.UniteRegions` | libfidtrack/segment.c:433-439 | pools, graph and box after a merger: the younger region is freed and its reference redirected |
| `Segmentation.Segmenter.EndRun` | libfidtrack/segment.c:454-457 | at a change of colour the box of the run becomes exact on its right side |
| `Segmentation.Segmenter.ContinueAbove` | libfidtrack/segment.c:457-461 | a pixel of the north colour joins the north region, whose box grows |
| `Segmentation.Segmenter.StartRegion` | libfidtrack/segment.c:468-474 | a new region is linked north and west, without the west link when both are one region; all touching pairs are then known to the graph |
| `Segmentation.Segmenter.CentrePixel` | libfidtrack/segment.c:414-476 | one step of the inner loop keeps the row invariant; with it the west cell stays resolved, as the comment claims |
| `Segmentation.Segmenter.TopRow` | libfidtrack/segment.c:357-374 | the first row, run by run |
| `Segmentation.Segmenter.LeftEdge` | libfidtrack/segment.c:390-407 | the first pixel of a row |
| `Segmentation.Segmenter.RightEdge` | libfidtrack/segment.c:478-482 | the region at the right edge is marked and the row closed |
| `Segmentation.Segmenter.BottomRow` | libfidtrack/segment.c:485-489 | the regions of the last row are marked after resolving |
| `References.RootReached` | libfidtrack/segment.h:114-125 | following redirects reaches the recorded root and stops there |
| `References.ShorteningKeepsForest` | libfidtrack/segment.h:114-125 | path shortening changes no reference's root and keeps the redirects acyclic |
| `References.RedirectKeepsForest` | libfidtrack/segment.c:437-439 | redirecting a root to another keeps the redirects acyclic and moves exactly its own references |
| `References.StorageConserved` | libfidtrack/segment.c:55-100 | pool size is live regions plus free list; live regions are as many as roots |
| `RegionGraph.SaturationKeeps` | libfidtrack/segment.c:177-191 | saturation keeps the lists well formed and loses no known pair |
| `RegionGraph.MadeAdjacentKeeps` | libfidtrack/segment.c:210-248 | linking keeps the lists well formed, keeps every known pair and makes the new pair known |
| `RegionGraph.MergerKeeps` | libfidtrack/segment.c:274-343 | a merger keeps the lists well formed, frees the second region and keeps every pair known under its new name |
| `CommonLinks.RemovesAllCommon` | libfidtrack/segment.c:293-299 | no common neighbour is left by the loop if and only if none stands at or behind the slot where the scan ends |
| `CommonLinks.DuplicateArises` | libfidtrack/segment.c:293-319 | in the well linked pool before the last pixel of the image BBBW, BWWB, BBBB, where nothing is listed twice, the merger that the pixel asks for lists a region twice |
| `CommonLinks.MergerNoDuplicates` | libfidtrack/segment.c:281-319 | every merger keeps the lists free of duplicates if and only if it overflows, or the common neighbours all stand before the slot where the scan ends |
| `CommonLinks.RetainedRechecked` | libfidtrack/segment.c:293-299 | the variant that looks at slot i again keeps no common neighbour and loses no other |
| `Components.RegionsAreComponents` | libfidtrack/segment.c:413-474 | labels that agree across touching pixels of one colour, and are joined within themselves, are the connected components |
| `Pixels.RasterAt` | libfidtrack/segment.c:385-385 | pixel (x, y) of the image is the entry y * width + x of the buffer |
| `Components.CornerLinked` | libfidtrack/segment.c:413-474 | where no link is made the pair is known through the pixel above left |
| `Overflow.MadeAdjacentAccounted` | libfidtrack/segment.c:210-243 | make_adjacent at a side that has made no link keeps the account: links counted by sides, overflow only beyond the capacity, losses only beside an overflowed region |
| `Overflow.MergeAccounted` | libfidtrack/segment.c:281-319 | so does a merger, which joins the two outlines |
| `Overflow.ContourBound` | libfidtrack/segment.c:346-489 | an outline has at most two sides for each labelled pixel |
| `Scanning.AttachStep` | libfidtrack/segment.c:377-461 | attaching a pixel to a neighbouring region keeps the invariant of the pass |
| `Scanning.MergeStep` | libfidtrack/segment.c:421-440 | merging keeps the invariant of the pass |
| `Regions.SwapRemove` | libfidtrack/segment.c:156-174 | overwriting a slot with the last entry removes exactly the entry of that slot |
| `Handover.BlackAndWhiteIsTwoColoured` | libfidtrack/topologysearch.c:66-95 | the graph of a black and white image links black regions to white ones only, as the topology search asserts |
| `Handover.SegmentedIsPristine` | libfidtrack/fidtrackX.c:510-525 | a segmented image leaves the records of all regions at the values that find_roots checks |
| `Handover.SegmentedCanBePeeled` | libfidtrack/fidtrackX.c:529-557 | the peeling can begin on the regions of every segmented image, with duplicate entries or without |
| `Handover.FarSideIsFlagged` | libfidtrack/fidtrackX.c:491-497 | in a segmented image a hanging tree always has a border or fragmented region on its far side: a part of the graph that no link leaves owns pixels up to the top row |
| `Handover.HangingTreeIsFound` | libfidtrack/fidtrackX.c:427-557 | in a segmented image a tree of the table that hangs anywhere is a candidate of the finished search if and only if none of its regions lists a neighbour twice |
| `Handover.EveryHangingTreeIsFound` | libfidtrack/fidtrackX.c:427-557 | so without duplicate entries every tree of the table that hangs anywhere in the image is found |
| `Handover.HangingTreeIsIdentified` | libfidtrack/fidtrackX.c:592-614 | and what is reported are the ids of exactly these trees |
| `Shapes.DrawnHangs` | libfidtrack/fidtrackX.c:427-557 | components of equal-coloured pixels that lie inside one another in the image, away from its border, hang in the graph as the same tree up to the order of children, if no outline exceeds the capacity |
| `Shapes.HangsDrawn` | libfidtrack/fidtrackX.c:427-557 | and what hangs in the graph is drawn in the image |
| `Shapes.DrawnTreeIsIdentified` | libfidtrack/fidtrackX.c:592-614 | so a tree of the table drawn anywhere in the image is reported, with its id, if and only if no neighbour of its regions is listed twice |
| `Handover.HoleIsMissed` | libfidtrack/segment.c:293-319 | the last pixel of the image BBBW, BWWB, BBBB makes a hanging tree with a repeated entry, which is missed |
| `Handover.StartsAreUnvisited` | libfidtrack/fidtrackX.c:551-552 | so on a segmented image the assertion of find_roots holds in every state of the search: nothing has reported to a leaf at which it starts |
| `Handover.ClosedPartHasFlag` | libfidtrack/segment.c:359-374 | every part of the graph of an image that no link leaves has a border, fragmented or saturated region |
| `DepthStrings.CanonicalForm` | libfidtrack/fidtrackX.c:155-217 | equal depth strings if and only if the trees are isomorphic as unordered rooted trees |
| `DepthStrings.LeftHeavyUnique` | libfidtrack/fidtrackX.c:155-170 | a left-heavy list of strings is determined by the strings in it |
| `DepthStrings.CompareAntisymmetric` | libfidtrack/fidtrackX.c:167-168 | the sign of the comparison is reversed with its arguments |
| `DepthStrings.CompareTransitive` | libfidtrack/fidtrackX.c:167-168 | the comparison is transitive |
| `DepthStrings.CompareIsDictionary` | libfidtrack/fidtrackX.c:167-168 | negative exactly if at the first place where the strings differ the first one ends or has the smaller character, positive exactly if the second does |
| `DepthStrings.DepthStringIsGreatest` | libfidtrack/fidtrackX.c:155-217 | of all strings that write the depth of the root and then its children, in any order at every node, the depth string is the last in that order, and no other is |
| `DepthStrings.LeftHeavyExample` | libfidtrack/fidtrackX.c:173-217 | a root with a leaf and a child that has one leaf is written 48 49 50 49 |
| `Peeling.Begin` | libfidtrack/fidtrackX.c:510-525 | with the initial values that are checked, nothing has been peeled |
| `Peeling.ReadyNoRepeat` | libfidtrack/fidtrackX.c:427-508 | a region that lists a neighbour twice is never ready to be peeled, since that neighbour would have to report first and lists the region twice itself |
| `Peeling.RepeatNotPeeled` | libfidtrack/fidtrackX.c:427-508 | so it is never peeled |
| `Peeling.OneParent` | libfidtrack/fidtrackX.c:453-457 | when a region is peeled at most one neighbour is not yet peeled |
| `Peeling.FlaggedHasNoParent` | libfidtrack/fidtrackX.c:491-497 | a border or fragmented region is only peeled when all its neighbours have been |
| `Peeling.PeelStep` | libfidtrack/fidtrackX.c:427-508 | peeling one ready region keeps the trace: each region once, counts and heights those of the peeled tree, unpeeled regions counting the neighbours that reported |
| `Peeling.ParentReady` | libfidtrack/fidtrackX.c:484-503 | when the propagation goes on, the parent is ready and is no starting leaf |
| `Peeling.ParentWaits` | libfidtrack/fidtrackX.c:484-503 | when it stops, the parent still waits for a neighbour, or a neighbour ended the search |
| `Peeling.ClimbStep` | libfidtrack/fidtrackX.c:483-503 | a peeled region was a starting leaf, or the parent of the one peeled just before, which reported and is within the limits |
| `Peeling.ReadyReports` | libfidtrack/fidtrackX.c:484-503 | a region that is peeled towards a parent has had reports of all its other neighbours |
| `Peeling.RoomInOrder` | libfidtrack/fidtrackX.c:427-508 | the trace is shorter than the pool while a region is unpeeled, so the recursion ends |
| `Peeling.CandidatesIn` | libfidtrack/fidtrackX.c:462-474 | the candidates are exactly the peeled regions within the windows |
| `Fidtracking.FidtrackerX.CollectChildren` | libfidtrack/fidtrackX.c:440-460 | counts descendants and height over the peeled neighbours; the result is that of the tree they form; finds the one parent |
| `Fidtracking.FidtrackerX.Record` | libfidtrack/fidtrackX.c:462-486 | links candidates, flags nearly fitting ones as lost, and reports to the parent |
| `Fidtracking.FidtrackerX.PeelOne` | libfidtrack/fidtrackX.c:427-486 | one region peeled and recorded, and whether its parent is ready or still waits |
| `Fidtracking.FidtrackerX.Propagate` | libfidtrack/fidtrackX.c:427-508 | terminates, keeps the trace consistent, peels no other starting leaf, and changes only the records |
| `Fidtracking.FidtrackerX.FindRoots` | libfidtrack/fidtrackX.c:529-557 | peels from every unflagged leaf; on any symmetric graph, with repeated entries or without, the roots found are exactly the candidates of the trace |
| `Hanging.HangingIsPeeled` | libfidtrack/fidtrackX.c:427-508 | a tree of unflagged regions without repeated entries, within the windows, that hangs from r has been peeled up to r, unless the rest was peeled into r first |
| `Hanging.PeeledHangs` | libfidtrack/fidtrackX.c:427-508 | conversely what was peeled towards p is a tree of unflagged regions without repeated entries, hanging away from p |
| `Hanging.FarSideNotPeeled` | libfidtrack/fidtrackX.c:491-497 | a border or fragmented region beyond p keeps p from being peeled into r |
| `Hanging.RootTraversed` | libfidtrack/fidtrackX.c:427-508 | so if the root of such a tree is peeled at all, it is peeled towards p, with that tree, and nothing in the tree is listed twice |
| `Hanging.StartUnvisited` | libfidtrack/fidtrackX.c:551-552 | on any symmetric graph the asserted count of a starting leaf is zero if and only if its neighbour has not been peeled into it and reported; otherwise all the rest hangs from that neighbour as an unflagged tree |
| `Hanging.LastLeafIsVisited` | libfidtrack/fidtrackX.c:551-552 | and the assertion does fail: when the rest of the graph of a leaf is a tree in the window whose leaves have all been started from, the count is one |
| `Hanging.SecondLeafIsVisited` | libfidtrack/fidtrackX.c:551-552 | as for the second of two linked leaves, once the first has been peeled from the initial records |
| `Descent.ChildTest` | libfidtrack/fidtrackX.c:391-392 | a smaller descendant count singles out exactly the neighbours that were peeled into a region |
| `Descent.ChildrenDisjoint` | libfidtrack/fidtrackX.c:381-395 | the subtrees of two children have no region in common |
| `Fidtracking.FidtrackerX.SetDepth` | libfidtrack/fidtrackX.c:381-395 | depths count the steps from the root of the peeled tree; nothing outside the tree changes |
| `Entries.CmpTransitive` | libfidtrack/fidtrackX.c:155-170 | the comparison given to qsort is transitive, missing strings last |
| `Entries.CmpTotal` | libfidtrack/fidtrackX.c:155-170 | and total, so that sorting is well defined |
| `Entries.SortEntries` | libfidtrack/fidtrackX.c:202-202 | a permutation in the order of the comparison |
| `Entries.SortedConcat` | libfidtrack/fidtrackX.c:202-213 | what the sorted entries spell does not depend on their order before |
| `Fidtracking.FidtrackerX.BuildLeftHeavyDepthString` | libfidtrack/fidtrackX.c:173-217 | spells the canonical string of the tree peeled into r, the greatest of all ways to write that tree, whatever the order of the lists, and only permutes lists below r |
| `Fidtracking.FidtrackerX.ChildEntries` | libfidtrack/fidtrackX.c:188-199 | the strings of the children, none for other neighbours |
| `Fidtracking.FidtrackerX.SpellEntries` | libfidtrack/fidtrackX.c:204-213 | the concatenation of the strings that are there |
| `Fidtracking.FidtrackerX.constructor` | libfidtrack/fidtrackX.c:562-582 | the windows computed from the table cover every tree of the table |
| `Recognition.RecordedInNumbers` | libfidtrack/fidtrackX.c:562-571 | a peeled tree of n nodes is recorded exactly if its depth is one of the table and n is a size of the table, or at least four, at most two below the smallest and at most one above the largest; only sizes of the table are not lost |
| `Recognition.ClimbsFromSmaller` | libfidtrack/fidtrackX.c:416-421 | the search starts at unflagged leaves, and climbs to any other region from a child with fewer nodes and less depth than the largest tree of the table |
| `Recognition.NothingAboveLargest` | libfidtrack/fidtrackX.c:456-486 | and it climbs past a region only if all its children reported, so that none of them is saturated, at the border, or of the largest size and a depth of the table |
| `Recognition.IdsInNumbers` | libfidtrack/fidtrackX.c:354-361 | lost and unknown symbols get the id -1; the key is 98 or 119 by colour, then 48 |
| `Fidtracking.FidtrackerX.Identify` | libfidtrack/fidtrackX.c:354-361 | no id for lost symbols, else the first index of the coloured string, else the invalid id |
| `Fidtracking.FidtrackerX.FindFiducials` | libfidtrack/fidtrackX.c:592-614 | the ids of the candidates in order, all of them if there is at most one or at most max_count, otherwise max_count of them but at least one; a tree of the table that hangs off a flagged rest is found, with its id, exactly if none of its regions lists a neighbour twice |
| `Fidtracking.FidtrackerX.IdentifyRoots` | libfidtrack/fidtrackX.c:602-613 | the loop over the candidates, with exactly that many ids |
| `Recognition.KnownTreeIsFound` | libfidtrack/fidtrackX.c:427-557 | the search misses no tree of the table without repeated entries that hangs from r away from a part with a border or fragmented region |
| `Recognition.RepeatIsMissed` | libfidtrack/fidtrackX.c:427-557 | and it misses those with a repeated entry |
| `Recognition.KnownTreeIsIdentified` | libfidtrack/fidtrackX.c:354-361 | the id of such a region is the index of the first occurrence of its coloured string |
| `Recognition.IdentifiedTreeIsKnown` | libfidtrack/fidtrackX.c:354-361 | an id is only given to a root of the right colour whose peeled tree is isomorphic to the table's, or by the cut at an only neighbour to the one-node tree |
| `Recognition.SortedString` | libfidtrack/fidtrackX.c:202-213 | sorted entries of any permutation of the list spell the depth string |
| `TreeIdMaps.FindMaximumTreeDepth` | libfidtrack/treeidmap.cpp:32-43 | the largest depth behind the colour prefix, zero if there is none |
| `TreeIdMaps.TreeIdMap.constructor` | libfidtrack/treeidmap.cpp:177-231 | first-occurrence ids, windows that just cover node counts and depths, and the number of different trees |
| `TreeIdMaps.TreeIdMap.FromFile` | libfidtrack/treeidmap.cpp:96-170 | the same for the words of a file, empty words skipped and missing prefixes prepended |
| `TreeIdMaps.TreesHavePrefixes` | libfidtrack/treeidmap.cpp:125-132 | every string of such a table has a colour prefix |
| `TreeIdMaps.TreesFromWords` | libfidtrack/treeidmap.cpp:116-136 | one string for every word that is not empty, in order: the word itself if it begins with 119 or 98, otherwise 119 and the word |
| `TreeIdMaps.ColouredInNumbers` | libfidtrack/fidtrackX.c:358-361 | the string looked up begins with 98 for colour 0, with 119 otherwise, and goes on with 48 |
| `TreeIdMaps.TreeIdMap.Add` | libfidtrack/treeidmap.cpp:195-218 | inserting one string keeps the table, also for a duplicate |
| `TreeIdMaps.TreeIdMap.TreestringToId` | libfidtrack/treeidmap.cpp:240-245 | the first index of a known string, the invalid id of an unknown one |
| `TreeIdMaps.DepthStringLength` | libfidtrack/treeidmap.cpp:193-205 | a depth string has one character for each node |
| `TreeIdMaps.DepthStringTop` | libfidtrack/treeidmap.cpp:32-43 | the largest character is that of the deepest level |
| `TreeIdMaps.ColouredMeasures` | libfidtrack/treeidmap.cpp:193-213 | so the windows of the table measure node count and height of its trees |
| `SymbolSequences.HasAllSymbolsOnce` | libfidtrack/fidtrack120.c:140-159 | accepts exactly the permutations |
| `SymbolSequences.IdFromSymbolSequence` | libfidtrack/fidtrack120.c:164-186 | the id is the lexicographic rank; mapping[k] is always the number of unused symbols below |
| `SymbolSequences.IdsOrdered` | libfidtrack/fidtrack120.c:164-186 | ids increase strictly in lexicographic order, are different for different sequences, and stay below the factorial |
| `SymbolSequences.IdsComplete` | libfidtrack/fidtrack120.c:164-186 | every number below the factorial is the id of a sequence |
| `SymbolSequences.RankMonotone` | libfidtrack/fidtrack120.c:164-186 | ranks increase strictly among the orders of the same entries |
| `SymbolSequences.LexLessAt` | libfidtrack/fidtrack120.c:164-186 | the order is that of the first place where two sequences differ |
| `TopologySearch.CycleLinked` | libfidtrack/segment.c:35-42 | inserting before the head keeps the ring circular in both directions and appends the region |
| `TopologySearch.PartialSegmentTopology.LinkRegion` | libfidtrack/segment.c:35-42 | appends to one ring and leaves the other two intact and disjoint |
| `TopologySearch.PartialSegmentTopology.FindBlackLeafs` | libfidtrack/topologysearch.c:30-46 | the first ring holds exactly the black leafs |
| `TopologySearch.PartialSegmentTopology.HasOnlyOneNonLeafAdjacentRegion` | libfidtrack/topologysearch.c:49-63 | decides whether one neighbour is no leaf |
| `TopologySearch.PartialSegmentTopology.VisitLeaf` | libfidtrack/topologysearch.c:66-97 | classifies the region above a leaf once |
| `TopologySearch.PartialSegmentTopology.FindBlackLeafContainerRegions` | libfidtrack/topologysearch.c:66-97 | the second ring holds exactly the containers above the leafs |
| `TopologySearch.PartialSegmentTopology.CountNonLeafContainerAdjacentRegions` | libfidtrack/topologysearch.c:100-111 | counts the neighbours that are no containers |
| `TopologySearch.PartialSegmentTopology.FindRootRegions` | libfidtrack/topologysearch.c:114-143 | the third ring holds exactly the roots |
| `TopologySearch.PartialSegmentTopology.constructor` | libfidtrack/topologysearch.c:146-162 | three disjoint circular doubly linked rings with exactly the leafs, containers and roots of the graph, independent of region order, and the level of every region in numbers |
| `TopologySearch.ContainerShape` | libfidtrack/topologysearch.c:66-97 | a container has at least one leaf and at most as many as there are symbols, and one more neighbour |
| `TopologySearch.RootShape` | libfidtrack/topologysearch.c:114-143 | a root is black, has exactly as many containers as there are symbols, and at most one more neighbour |
| `PatternMatching.PatternMatch` | wosclib/WOscPatternMatch.cpp:73-142 | terminates and decides acceptance, wildcards of the pattern and of the name included |
| `PatternMatching.MatchBrackets` | wosclib/WOscPatternMatch.cpp:164-221 | the set as the scan reads it, closed by the first bracket, then the rest of both strings |
| `PatternMatching.MatchList` | wosclib/WOscPatternMatch.cpp:242-286 | some alternative is a prefix and the rest matches behind it, or the last alternative is no prefix and the rest matches the whole name |
| `PatternLanguage.AcceptsTheLanguage` | wosclib/WOscPatternMatch.cpp:73-286 | for names without wildcards acceptance is membership in the language of the pattern, cut into pieces without reference to any search |
| `PatternLanguage.WildcardNames` | wosclib/WOscPatternMatch.cpp:85-104 | for names with wildcards and plain addresses it is membership of the address in the language of the name |
| `PatternLanguage.ListPattern` | wosclib/WOscPatternMatch.cpp:242-286 | exactly which names a list between ordinary texts accepts |
| `OscPatterns.SetMembers` | wosclib/WOscPatternMatch.cpp:164-221 | the members of any set, ranges included: its opening mark, the characters of its body and every range of the scanned string, one that ends with the closing bracket included |
| `OscPatterns.SetMeetsOsc` | wosclib/WOscPatternMatch.cpp:164-221 | a set has every member that OpenSound Control 1.0 gives it, and no others among the characters of names if and only if its mark, the characters of its body and its scanned ranges are such members |
| `OscPatterns.MarkDeviates` | wosclib/WOscPatternMatch.cpp:164-221 | whatever the body, unless it names the mark: a plain set accepts the opening bracket and a negated one refuses the exclamation mark, against the protocol |
| `OscPatterns.SetsDeviate` | wosclib/WOscPatternMatch.cpp:164-221 | as [a] and [!a] do |
| `OscPatterns.RangesDeviate` | wosclib/WOscPatternMatch.cpp:164-221 | [a-c] has the minus sign as a member, and [A-] the letters up to the closing bracket |
| `OscPatterns.BackslashDropped` | wosclib/WOscPatternMatch.cpp:127-134 | a backslash before an ordinary character is dropped, where the protocol lets it stand for itself |
| `OscPatterns.SameTokens` | wosclib/WOscPatternMatch.cpp:101-137 | otherwise patterns fall into the pieces that the protocol gives them |
| `OscPatterns.OscIsAccepted` | wosclib/WOscPatternMatch.cpp:73-286 | if behind every list with an empty alternative some token takes a character and negated sets have the members of the protocol, every name of the language of OpenSound Control 1.0 is accepted |
| `OscPatterns.AcceptedIsOsc` | wosclib/WOscPatternMatch.cpp:73-286 | conversely, if every list but a last one has an empty alternative and plain sets have the members of the protocol, only names of that language are accepted |
| `OscPatterns.DemandsMore` | wosclib/WOscPatternMatch.cpp:73-142 | some token takes a character exactly when the pieces do not cover the empty name |
| `OscPatterns.MatcherMeetsOsc` | wosclib/WOscPatternMatch.cpp:73-286 | both inclusions for the matcher itself, for every pattern without backslashes and every name without wildcards |
| `OscPatterns.IncludedExactly` | wosclib/WOscPatternMatch.cpp:73-286 | for token sequences that can all cover something and whose lists all have an empty alternative, but for one at the end: the language of the protocol is accepted if and only if the conditions of OscIsAccepted hold |
| `OscPatterns.SameExactly` | wosclib/WOscPatternMatch.cpp:73-286 | and the two languages are the same if and only if, in addition, plain sets have the members of the protocol |
| `OscPatterns.MatcherIsOscExactly` | wosclib/WOscPatternMatch.cpp:73-286 | both equivalences for the matcher and its patterns |
| `OscPatterns.SkippedListDeviates` | wosclib/WOscPatternMatch.cpp:242-286 | other lists are skipped against the protocol, when something is demanded behind them and their last alternative is no prefix of the shortest name of what follows |
| `OscPatterns.SimplePatternsAsOsc` | wosclib/WOscPatternMatch.cpp:73-142 | patterns without lists, sets and backslashes accept exactly the language of the protocol |
| `OscPatterns.ListPatternMeetsOsc` | wosclib/WOscPatternMatch.cpp:242-286 | a list between ordinary texts agrees with the protocol on a name if and only if a condition on the two strings holds |
| `OscPatterns.FailingAlternativeSkipped` | wosclib/WOscPatternMatch.cpp:267-283 | a single failing alternative is skipped, so that the pattern accepts a name it should not |
| `OscPatterns.EmptyAlternativeMissed` | wosclib/WOscPatternMatch.cpp:85-90 | an empty alternative never matches at the end of a name |
| `CallbackLists.CallbackList.constructor` | wosclib/WOscMethod.h:171-176 | an empty list of the given capacity, usable if and only if that is not zero |
| `CallbackLists.CallbackList.Double` | wosclib/WOscMethod.h:158-165 | twice the room, the same contents |
| `CallbackLists.CallbackList.Append` | wosclib/WOscMethod.h:188-193 | the contents and the new method, the buffer doubled only when full |
| `CallbackLists.CallbackList.Reset` | wosclib/WOscMethod.h:186-186 | no contents |
| `AddressSpaces.Container.Child` | wosclib/WOscContainer.cpp:108-120 | a child is entered at the end of its parent's list |
| `AddressSpaces.Container.AddContainer` | wosclib/WOscContainer.cpp:247-255 | appends an entry |
| `AddressSpaces.Container.AddMethod` | wosclib/WOscContainer.cpp:221-229 | appends an entry |
| `AddressSpaces.Container.AddContainerAlias` | wosclib/WOscContainer.cpp:190-203 | appends an alias, or reports which of the three errors in the order of the checks |
| `AddressSpaces.Container.NextSlashOrNull` | wosclib/WOscPatternMatch.cpp:298-305 | the first slash or the end |
| `AddressSpaces.Container.DispatchMessage` | wosclib/WOscContainer.cpp:360-373 | the callbacks of the paths of the address are appended, or an error is reported and nothing changes |
| `AddressSpaces.Container.DispatchSubMessage` | wosclib/WOscContainer.cpp:388-416 | one entry for each path whose parts all match, earlier entries kept, the pattern buffer as before; ends on any graph of aliases |
| `AddressSpaces.Container.MatchMethods` | wosclib/WOscContainer.cpp:393-397 | the matching methods of a container, last entry first |
| `AddressSpaces.Container.MatchContainers` | wosclib/WOscContainer.cpp:409-414 | what is found below the matching containers, last entry first |
| `AddressSpaces.DispatchedUnique` | wosclib/WOscContainer.cpp:388-416 | entries and order are determined by the address space and the pattern: all paths, in descending order |
| `AddressSpaces.LaterEntryFirst` | wosclib/WOscContainer.cpp:388-416 | where two paths part the one with the later entry comes first |
| `AddressSpaces.CutAt` | wosclib/WOscContainer.cpp:407-415 | a zero over the slash separates the first part from the others |
| `AddressSpaces.CStringInNumbers` | wosclib/WOscPatternMatch.cpp:298-305 | a string ends at the first character with the code 0 |
| `AddressSpaces.SplitJoins` | wosclib/WOscContainer.cpp:388-416 | the parts have no slash in them, and with slashes between them they are the address again |
| `OscBytes.GetSizeFourByteAligned` | wosclib/WOscUtil.cpp:76-80 | the next multiple of four |
| `OscBytes.PadStringWithZeros` | wosclib/WOscUtil.cpp:101-111 | the string, its zero and zeros up to a multiple of four, nothing else written |
| `OscBytes.FillBufferWith` | wosclib/WOscUtil.h:68-76 | the big-endian two's complement of the word, nothing else written |
| `OscBytes.BufferToWord` | wosclib/WOscUtil.h:57-67 | the word of four big-endian bytes |
| `OscBytes.BufferToInt` | wosclib/WOscUtil.h:57-67 | its signed value |
| `OscBytes.IntRoundTrip` | wosclib/WOscUtil.h:57-76 | reading a written 32-bit integer gives it back |
| `OscBytes.WordRoundTrip` | wosclib/WOscUtil.h:57-76 | the same for bit patterns of floats |
| `OscBytes.BytesRoundTrip` | wosclib/WOscUtil.h:57-76 | writing a read word gives its bytes back |
| `OscBytes.WordInNumbers` | wosclib/WOscUtil.h:57-76 | the first byte counts 16777216, and a leading byte from 128 on means a negative number |
| `OscBytes.PaddedReads` | wosclib/WOscString.cpp:50-57 | a padded string is read back up to its zero |
| `OscBytes.PaddedInNumbers` | wosclib/WOscUtil.cpp:101-111 | behind the string come one to four bytes, all zero, up to a multiple of four |
| `OscBytes.OscString.constructor` | wosclib/WOscString.cpp:50-57 | the padded text |
| `OscBytes.OscString.Append` | wosclib/WOscString.cpp:220-251 | the joined texts, padded anew |
| `OscBytes.BlobFromData` | wosclib/WOscBlob.cpp:107-124 | the size of the data, the data themselves, and zeros up to a multiple of four |
| `OscBytes.BlobFromBinary` | wosclib/WOscBlob.cpp:56-65 | the blob whose binary form stands in the buffer, padding included |
| `Messages.Message.New` | wosclib/WOscMessage.cpp:71-98 | refuses addresses without a slash, else a message without arguments |
| `Messages.Message.ArgumentsSize` | wosclib/WOscMessage.cpp:398-423 | the sizing pass gives the size of the arguments' bytes |
| `Messages.Message.WriteArguments` | wosclib/WOscMessage.cpp:438-473 | the writing pass writes exactly these bytes |
| `Messages.Message.GenerateBufferFromMembers` | wosclib/WOscMessage.cpp:376-474 | both passes agree; the buffer is the binary form of address, tag and arguments |
| `Messages.Message.AddInt` | wosclib/WOscMessage.cpp:519-537 | one more argument, everything else kept, the buffer regenerated |
| `Messages.Message.AddFloat` | wosclib/WOscMessage.cpp:488-506 | the same for floats |
| `Messages.Message.AddString` | wosclib/WOscMessage.cpp:550-567 | the same for strings |
| `Messages.Message.AddBlob` | wosclib/WOscMessage.cpp:617-634 | the same for blobs, as long as the array sized by the strings has room |
| `Messages.Message.Parse` | wosclib/WOscMessage.cpp:130-206 | the address and arguments that the buffer says, re-encoded; errors for empty buffers and missing slashes |
| `Messages.Message.ParseArguments` | wosclib/WOscMessage.cpp:168-203 | commas are skipped, the scan ends at an unknown tag |
| `Messages.MessageRoundTrip` | wosclib/WOscMessage.cpp:130-474 | the binary form says the address and arguments it was made of, and no others |
| `Messages.MessageAligned` | wosclib/WOscMessage.cpp:376-474 | messages occupy a multiple of four bytes, at least eight |
| `Messages.MessageInNumbers` | wosclib/WOscMessage.cpp:376-537 | byte 0 is 47; behind the padded address stand 44, one of 105, 102, 115 and 98 for each argument, exactly by its type, and 0 |
| `Messages.ArgumentInNumbers` | wosclib/WOscMessage.cpp:438-473 | the bytes of each argument stand behind those of the arguments before it: big-endian words, texts with their zero, blobs behind their size |
| `Messages.SaidInNumbers` | wosclib/WOscMessage.cpp:168-203 | what the parser makes of any buffer begins with 47 and has one argument for each such tag, of its type, commas skipped and nothing behind an unknown tag |
| `Messages.OneBlobFits` | wosclib/WOscMessage.cpp:617-634 | no blob of a message with at most one is written outside the array allocated for it |
| `Messages.TwoBlobsFit` | wosclib/WOscMessage.cpp:617-634 | with two blobs and strings between them, the write of the second is in bounds if and only if there are two strings; so it is not for two blobs alone |
| `Bundles.Bundle.AddMessage` | wosclib/WOscBundle.cpp:212-226 | a message is added behind the messages |
| `Bundles.Bundle.AddBundle` | wosclib/WOscBundle.cpp:187-202 | a bundle is added behind the bundles |
| `Bundles.Bundle.GetBufferLen` | wosclib/WOscBundle.cpp:399-411 | the number of bytes that will be written, at every nesting depth |
| `Bundles.Bundle.GetBuffer` | wosclib/WOscBundle.cpp:140-177 | header, time tag, then messages and bundles in the order of adding, each behind its size |
| `Bundles.Bundle.HeaderInNumbers` | wosclib/WOscBundle.cpp:140-158 | the form begins with 35 98 117 110 100 108 101 0, the next two big-endian words are the time tag, and the framed items follow |
| `Bundles.BundleParser.Parse` | wosclib/WOscBundle.h:125-160 | each error exactly when its check fails; accepted exactly when the body has a layout, which the ghost result is |
| `Bundles.BundleParser.GetNextItem` | wosclib/WOscBundle.h:171-183 | yields the next item of the layout, or nothing when all have been fetched |
| `Bundles.BundleParser.FetchAll` | wosclib/WOscReceiver.cpp:210-224 | a receiver's loop fetches exactly the items |
| `Bundles.BundleRoundTrip` | wosclib/WOscBundle.h:125-183 | the binary form of a bundle that is not empty is accepted, and its only layout is its messages, then its bundles |
| `Bundles.NestedItem` | wosclib/WOscBundle.h:125-183 | every nested bundle is an item, small enough to be parsed in turn |
| `Bundles.NestedBundleIsRefused` | wosclib/WOscReceiver.cpp:213-219 | the receiver's test on the second byte takes no nested bundle for one, and the message parser refuses it |
| `Framing.LayoutUnique` | wosclib/WOscBundle.h:143-150 | framed items can be separated in one way only |
| `Framing.ItemFound` | wosclib/WOscBundle.h:143-150 | at the offset of an item the size read is its length |
| `TcpHandlers.SendOverSocket` | wosclib/WOscTcpHandler.cpp:35-45 | everything is sent in order, or a proper prefix and an error |
| `TcpHandlers.NetworkSend` | wosclib/WOscTcpHandler.cpp:107-130 | length and data are sent as one frame, or a prefix and an error; empty data always report an error |
| `TcpHandlers.SelectRxState.Init` | wosclib/WOscTcpHandler.h:143-149 | back to the beginning of a packet |
| `TcpHandlers.SelectRxState.Store` | wosclib/WOscTcpHandler.cpp:238-246 | the bytes of the length are stored behind each other, those of the data always at the beginning of the buffer |
| `TcpHandlers.SelectRxState.NetworkReceiveInternal` | wosclib/WOscTcpHandler.cpp:233-273 | one recv of any size, or its failure, takes the state machine one step, whatever a new data buffer contains |
| `TcpHandlers.StaysInStep` | wosclib/WOscTcpHandler.cpp:238-273 | for receives of any size the machine completes lengths and packets at the same moments as a receiver that stores them correctly, and its packets have the right lengths |
| `TcpHandlers.ReadStepKeepsStream` | wosclib/WOscTcpHandler.cpp:233-273 | that correct receiver loses, doubles and reorders no byte of the stream |
| `TcpHandlers.IntactIffOneReceive` | wosclib/WOscTcpHandler.cpp:242-246 | data survive the buffer, whatever was in it before, if and only if they came in one receive |
| `TcpHandlers.TwoByTwo` | wosclib/WOscTcpHandler.cpp:242-267 | four bytes read two by two are delivered as the last two, followed by what the new buffer contained |
| `TcpStreams.StepKeepsInvariant` | wosclib/WOscTcpHandler.cpp:107-130 | every step of every sender and of the receiver keeps the invariant: framing, order of locking, counts, and what each delivered buffer was filled with |
| `TcpDelivery.MutualExclusion` | wosclib/WOscTcpHandler.cpp:107-130 | at most one sender is between locking and unlocking |
| `TcpDelivery.DeliveredInStep` | wosclib/WOscTcpHandler.cpp:233-273 | in every run, for receives of any size, as many packets are delivered as were read, each with the length of its payload in the order of locking, in which each sender's own order is kept |
| `TcpDelivery.DeliveredIsOverwritten` | wosclib/WOscTcpHandler.cpp:242-267 | a delivered packet is the pieces of its payload stored one over the other in an unset buffer |
| `TcpDelivery.AllReadAllCounted` | wosclib/WOscTcpHandler.cpp:233-273 | when the mutex is free and every byte read, a packet has been delivered for every payload |
| `TcpDelivery.Progress` | wosclib/WOscTcpHandler.cpp:107-130 | until everything is sent and read some step is possible |
| `TcpDelivery.RunsEnd` | wosclib/WOscTcpHandler.cpp:35-45 | every run is finite |
| `TcpDelivery.FinishedMeansCounted` | wosclib/WOscTcpHandler.cpp:233-273 | a run that cannot go on has delivered a packet for every payload of every sender |
| `TcpDelivery.IntactIffReceivedAtOnce` | wosclib/WOscTcpHandler.cpp:242-267 | a delivered packet is its payload, whatever the buffers contained, if and only if its data came in one receive |
| `TcpDelivery.PrefixIffAtOnce` | wosclib/WOscTcpHandler.cpp:233-273 | with no packet half read, the delivered packets are a prefix of the payloads in the order of locking, whatever the buffers contained, if and only if every receive of data took all that was missing |
| `TcpDelivery.FinishedMeansDelivered` | wosclib/WOscTcpHandler.cpp:233-273 | a run of such receives that cannot go on has delivered every payload of every sender |
| `TcpDelivery.HalvesAreLost` | wosclib/WOscTcpHandler.cpp:242-267 | a run of one sender and one payload, read in two halves, that delivers something else |

## Left out

- Fidtracking.FidtrackerX.FindRoots: descendant counts and depths are mathematical integers, not 16-bit ones.
- Fidtracking.FidtrackerX.FindFiducials: node counts of the table stay within 16 bits, because untraversed regions are recognised by the count 0x7FFF.
- Fidtracking.FidtrackerX.BuildLeftHeavyDepthString: characters are unbounded numbers, so depths beyond the range of char do not wrap; the strings are results of calls instead of slots of one buffer and a field of the region.
- Fidtracking.FidtrackerX.Record: the ring of candidates is a sequence; the ring itself is modelled in TopologySearch.
- Entries.SortEntries: stands in for qsort as some permutation in order; which one of equal strings comes first is not claimed by any other contract.
- TreeIdMaps.TreeIdMap.FromFile: reading words from a stream, and the windows of a file that cannot be opened, are not modelled.
- SymbolSequences.IdFromSymbolSequence: the table of factorials and the mapping have the length of the sequence, not eight.
- AddressSpaces.Container.DispatchSubMessage: strings are sequences of characters, compared by code; the sign of char beyond ASCII is not modelled.
- CallbackLists.CallbackList.Append: a list of capacity zero is excluded, since doubling cannot enlarge it and the code writes behind its buffer.
- OscPatterns.MatcherMeetsOsc: patterns in which a backslash stands for itself in the protocol are excluded, and BackslashDropped shows why; brackets and braces left open or closed in vain, which the protocol does not define, match nothing in its language here.
- OscPatterns.MatcherIsOscExactly: lists without an empty alternative in the middle of a pattern have no equivalence in general; SkippedListDeviates and, between ordinary texts, ListPatternMeetsOsc treat them.
- Messages.Message.AddBlob: a further blob is excluded when too few strings precede it, since the code then writes outside its array.
- Messages.Message.Parse: buffers whose scan would leave the buffer, or that announce a negative blob size, are excluded, since the code reads without bounds.
- Messages.Message.AddFloat: a float is its 32-bit pattern; strings inside a message are values, not OscString objects.
- Bundles.Bundle.GetBuffer: returns a new buffer instead of replacing the one cached in the object; sub-bundles form a tree.
- Bundles.BundleParser.Parse: negative item sizes are excluded, and buffers beyond 2^31-1 bytes.
- TcpHandlers.NetworkSend: the closed-socket error, and the mutex calls, which TcpStreams models.
- TcpHandlers.SelectRxState.NetworkReceiveInternal: a received length that is zero or negative is excluded, since the code allocates with it unchecked.
- TcpStreams.StepKeepsInvariant: payloads have at least one byte and no send or recv fails; the contents of a new data buffer are arbitrary.
- Camera, windows, parameters, TUIO and the speed and angle tracking of `xtrack`: input and output, and floating point.
- Geometry in `fidtrackX.c` and `fidtrack120.c`: leaf centres, angles, straight lines and pixel warp are floating point, so the lost flag set by the warp is not modelled.
- `threshold.c` and `tiled_bernsen_threshold.c`: not called by xtrack, and partly floating point.
- `find_regionsX`: a filter on boxes and sizes.
- Priority queue and queueing branches of the receiver: compiled out by the configuration.
- Copying, merging and index getters of messages, exceptions, info classes, removal of containers: easy members, or unfinished code.
- Reference counting of return addresses, threads and socket setup: tied to the operating system.
