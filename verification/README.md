# A verified model of Oodles

Oodles is a distributed web crawler in C++: a scheduler keeps a tree of URLs and hands its pages out to
crawlers, which talk to it over a framed message protocol. This project models the parts of it that keep
state under an invariant, and proves what those parts are for. `dafny verify dfyconfig.toml` checks all of it.

The form follows the program. What C++ updates in place is a class with the same fields here, and each of
its methods is proved against values: the chunks as clients see them (`Views`), the tree as a map from
nodes to cells (`View`), the load of the crawlers (`State`), the bytes sent and seen. The properties are
lemmas about those values.

* **Small-object allocator** (`Chunk`, `Arena`, `ChunkVector`, `ChunkManager`). The free list of a chunk
  lives in the first bytes of its free blocks. `Free` is what following the links visits, and
  `Chunk.Valid` says that these are exactly the blocks that are not live, each once. The last link is
  never written by `ReserveSpace` and never relied upon. The manager caches three pointers; a pointer here is the storage it
  points into and an index, so that one left over from before the vector grew would be caught.
  `ChunkManager.Valid` is what the asserts of the program come to: at most one chunk is without live
  blocks, `empty` names it, and the other two pointers are in range. Clients see addresses, live blocks and bytes: allocating
  and deallocating leave every other live block and its bytes alone.
* **Crawl scheduler** (`WorkUnit`, `Node`, `Formula`, `Traversal`, `Weights`, `Assignment`, `Trie`, `UrlTree`,
  `Seeding`, `Schedule`, `Ranking`, `Queue`, `Runs`, `Search`, `Scheduler`, `EarlyRun`). `Scheduler.Steady` is kept by every
  operation: the tree is a trie whose pages are its leaves and whose nodes spell exactly the prefixes of all paths
  inserted so far, pages and work units agree on who has what, no work unit is
  too large, the page table leads to the nodes of the assigned pages, every page carries its worth as
  its weight, and every inner node below the root the sum over its children. `Astray` are the Red nodes that hide a page from the
  traversal; runs and updates never add to them, so that in a tree without any (`Settled`) Red means
  "only assigned pages below". The queue of crawlers is a heap, as the standard library keeps it; ranks
  change while crawlers are in it, so that its order is no invariant but a condition of theorems. Which pages
  a run hands out is stated round by round (`Searches.Course`): what each search found is the best from its cursor, and
  the cursor and the queue go on from where the round before left them.
* **Framing protocol** (`Message`, `Framing`, `Protocol`). One end of a connection keeps ghost books of
  what was pushed, sent, freed and acknowledged, and of what was seen, delivered and popped. `Delivery`
  connects two ends, whatever the sizes of the buffers were.
* **URL parser and printer** (`Text`, `Url`). The scanner works character by character; `Find` says what
  it finds in terms of where the separators are. Parsing undoes printing exactly under the conditions
  stated in the round trips, with and without a scheme and with a query.
* **Rank-indexed registry** (`BitSet`, `Factory`) and **trie** (`TreeIterator`, `UrlTree`, `Trie`).
* **Dialog** (`Dialog`). The two sessions, alone and over two channels.

Some of what one would expect of the code does not hold of it; then the exact condition is proved:

* `Factories.AgreesWhenIncreasing`: enrolling messages in any other than increasing order of their ids
  breaks the registry. The program's own order is right (`EnrolmentOrders`).
* `Urls.ParseUndoesPrint`: a user name without a password, or the other way round, is not found again, and
  neither is a path with a dot segment. On a path that begins with ".." `Urls.Normalise` erases in front of the
  first part, and it goes past the end of every other path with a dot segment but one, the single dot. Without a scheme
  (`Urls.ParseUndoesPrintWithoutScheme`) credentials are never found again. The last colon before the path is taken for that
  of the port, unless the host begins with it, and a slash in a query for the end of the path
  (`Urls.DomainEndsThere`, `Urls.ParseUndoesPrintWithQuery`).
* `TreeIterators.PageLikeDirectory`: a page and a directory of one name share a node of the tree.
* `Schedulers.Scheduler.LighterFirst`: the formula that weights pass through turns their order round (`Formulas.NormaliseReverses`).
  Of two pages beside each other the one with fewer links goes first, where the comment at sched/Node.cpp:81-88 wants
  links to make a page more important and crawls less.
* `Seeding.ScheduledSettled`: a page scheduled below a Red node is hidden, because `schedule` does not
  clean the branch (`RedRootHidesNewPages`). One run before the first page is scheduled is enough to
  get there: it turns the root Red (`Scheduler.NothingToGive`), and no later run, of however many, gives the page to a
  crawler, although one waits (`EarlyRuns.SeedUnderRedRoot`, `EarlyRuns.RunBeforeSeeds`).
* `Runs.WorkConservingIff`: a run may leave crawlers waiting while pages wait too, for two reasons. With
  crawlers of different sizes, a large one with work is passed over for a small one that is full. And with
  crawlers of one size, because the heap is not told that a load has changed: `Runs.AllFilled`,
  `Runs.OrderLost` and `Runs.LostOrderStarves` follow five crawlers through a run, a page taken back, and any
  number of rounds, in all of which the fifth crawler waits. The two conditions, together and only together,
  are enough; the order is needed behind the front of the queue only, and the first round restores it there.
  Where the order is lost the theorem leaves open what the queue does, as the standard does.
  `Queues.TakingBackKeepsOrder` and `Queues.ComingOnlineKeepsOrder` say exactly when it is lost.
* `ChunkManagers.NarrowingIsHarmless`: the number of blocks is cut to a byte before it is clamped.
* `Dialogs.SchedulerDialog`: beginning a crawl before the registration makes the session refuse it.

The comment at sched/Scheduler.cpp:233-236 describes a block that marks ancestors Red; `FillCrawler`
proves that the block is never entered, and leaves it out.

## Model

| member | source | states |
|---|---|---|
| Chunks.FreshWalk | utility/Chunk.cpp:30-37 | with block i pointing at block i + 1 the free list runs through all blocks, although the link of the last is never set |
| Chunks.ClientWriteKeepsWalk | utility/Chunk.cpp:51-62 | whatever clients write into a block that is not free, the free list is the same |
| Chunks.PushExtendsWalk | utility/Chunk.cpp:64-74 | a block given back is put in front of the free list, by writing one byte of it |
| Chunks.FreeAndLive | utility/Chunk.hpp:50-51 | free and live blocks add up to all blocks, so that the count of available blocks tells both full and empty |
| Chunks.Chunk.EmptyAndFull | utility/Chunk.hpp:50-51 | a chunk is empty when no block is live and full when every block is |
| Chunks.Chunk.ReserveSpace | utility/Chunk.cpp:19-38 | afterwards the chunk is valid with no block live: the links visit every block once |
| Chunks.Chunk.Allocate | utility/Chunk.cpp:51-62 | hands out a block that was not live, the first of the free list, and changes no byte; null exactly when full |
| Chunks.Chunk.Deallocate | utility/Chunk.cpp:64-74 | the block is live no longer and heads the free list; of all bytes only its first changes |
| Chunks.Chunk.ClientWrite | utility/Chunk.cpp:57-61 | a write into a live block leaves the free list valid and changes that byte only |
| Chunks.Chunk.DestroySpace | utility/Chunk.cpp:40-49 | memory and free list are gone |
| Arenas.LiveUnique | utility/Chunk.hpp:41-48 | the address of a live block belongs to one chunk and is one block of it |
| Arenas.LiveBlocksDisjoint | utility/ChunkManager.cpp:37-103 | any two different live blocks do not overlap |
| Arenas.OwnerHoldsBlock | utility/Chunk.hpp:41-48 | some chunk owns the address of a live block, and a chunk that does is the one in which the block is live |
| Arenas.TouchOne | utility/ChunkManager.cpp:99-128 | replacing one chunk by one that differs in one block disturbs no other live block and no byte of it |
| Arenas.DropDead | utility/ChunkManager.cpp:133-144 | removing a chunk without live blocks, the last taking its place, is not noticed by any client |
| Arenas.AddFresh | utility/ChunkManager.cpp:71-81 | neither is adding a chunk in memory of its own |
| ChunkVectors.ChunkVector.Search | utility/ChunkManager.cpp:172-209 | from any starting chunk the search terminates and returns a chunk that owns the address, or null exactly when none does |
| ChunkVectors.ChunkVector.Grow | utility/ChunkManager.cpp:52-63 | at capacity, and only then, the vector moves to new storage, for two chunks at first and twice as many as there are later |
| ChunkVectors.ChunkVector.Extend | utility/ChunkManager.cpp:52-83 | appends an empty chunk; at capacity all chunks move to new storage, and clients see no difference |
| ChunkVectors.ChunkVector.RemoveAt | utility/ChunkManager.cpp:133-144 | swap with the end and pop: only a chunk without live blocks has its memory released |
| ChunkManagers.NarrowingIsHarmless | utility/ChunkManager.cpp:163-169 | keeping the quotient in a byte before clamping changes the result unless it is below 256 or its low byte is 255 |
| ChunkManagers.GrowthLeavesNoStalePointer | utility/ChunkManager.cpp:55-81 | when the vector grows no cached pointer is left into the old storage |
| ChunkManagers.ServingRestoresCache | utility/ChunkManager.cpp:91-102 | serving a block makes the chunk of the allocator non-empty, so that the one `empty` names is again the only empty one |
| ChunkManagers.RetiringRestoresCache | utility/ChunkManager.cpp:130-150 | in each case of the swap with the end and the pop, the pointers that are kept are in range and the chunk dropped has no live block |
| ChunkManagers.ChunkManager.Initialise | utility/ChunkManager.cpp:156-170 | the manager is valid with 8 to 255 blocks to a chunk |
| ChunkManagers.ChunkManager.Acquire | utility/ChunkManager.cpp:40-90 | the allocator is pointed at a chunk with a free block: the empty one, or else the first with space, or else a new one; a chunk is added only when every one is full |
| ChunkManagers.ChunkManager.FirstWithSpace | utility/ChunkManager.cpp:43-87 | the first chunk with a free block, or the end when there is none |
| ChunkManagers.ChunkManager.Allocate | utility/ChunkManager.cpp:37-103 | returns an address that was not live and now is; all other live blocks and their bytes stay; the cached pointers are right again. The block is free in the chunk the allocator names as long as that has space, then in the empty one, then in the first with space; a chunk is added only when every one is full, and no other chunk changes |
| ChunkManagers.ChunkManager.Find | utility/ChunkManager.cpp:172-209 | sound and complete: a chunk that owns the address, or null exactly when none owns it |
| ChunkManagers.ChunkManager.Locate | utility/ChunkManager.cpp:111-127 | for a live block the search never fails, and ends at the chunk in which it is live |
| ChunkManagers.ChunkManager.GiveToOwner | utility/ChunkManager.cpp:108-131 | all asserts up to "we cannot empty the same chunk twice" hold |
| ChunkManagers.ChunkManager.Settle | utility/ChunkManager.cpp:130-153 | a chunk just emptied becomes the empty one, or one of two is dropped, and which, and where the three pointers go then; no client notices and the cache is valid |
| ChunkManagers.ChunkManager.Deallocate | utility/ChunkManager.cpp:105-154 | the block is live no longer; all other live blocks and their bytes stay; the cached pointers are right again. Which chunk goes is stated, and where the pointers go: none unless its chunk and another are empty now, and then one |
| ChunkManagers.ChunkManager.ClientWrite | utility/ChunkManager.cpp:102-102 | a client's write is seen at that byte of that block only, and leaves the manager valid |
| WorkUnits.LowerBound | sched/Crawler.cpp:28-48 | the first position whose element is not less |
| Nodes.Crawler.AddUrl | sched/Crawler.cpp:28-35 | the work unit stays strictly sorted and within its maximum, with that URL in addition |
| Nodes.Crawler.RemoveUrl | sched/Crawler.cpp:37-48 | the search always finds the URL (the assert holds), and just that one goes |
| Nodes.Crawler.SetSession | sched/Crawler.cpp:50-55 | a session is attached once |
| Nodes.PageData.AssignCrawler | sched/PageData.cpp:22-29 | the page has the crawler, and the crawler's work unit the URL in addition |
| Nodes.PageData.UnassignCrawler | sched/PageData.cpp:31-38 | neither has the other any longer |
| Nodes.PageData.WorthMeans | sched/Node.cpp:90-93 | what a page is worth, times its crawls and one more, is its epoch times its links and one more |
| Nodes.Node.WeighAgainst | sched/Node.cpp:121-128 | returns one of the two with no smaller weight; the other only if its weight is greater |
| Nodes.Node.CalculateWeight | sched/Node.cpp:74-119 | the new measure, the word left with the parent, and the minima; nothing at the root |
| Nodes.LinksCount | sched/Node.cpp:81-93 | links make a page heavier in the proportion of their number |
| Formulas.NormaliseReverses | sched/Node.cpp:15-23 | of two weights the heavier becomes the smaller number |
| Formulas.NormaliseRange | sched/Node.cpp:15-23 | which is positive and at most one half |
| Assignments.AssignAgrees | sched/PageData.cpp:22-29 | assigning a page keeps "a page's crawler is c exactly when its URL is in c's work unit", and disjoint work units |
| Assignments.UnassignAgrees | sched/PageData.cpp:31-38 | so does taking it back; the crawler has the URL |
| Traversal.WaitsBelowAstray | sched/Scheduler.cpp:194-200 | a page that waits below a Red node lies below one of the Red nodes that hide something |
| Traversal.RedMeansAssignedBelow | sched/Scheduler.cpp:127-131 | in a settled tree everything below a Red node is Red or an assigned page |
| Traversal.RedRootMeansAllAssigned | sched/Scheduler.cpp:225-226 | when the traversal has exhausted a settled tree every page has a crawler |
| Traversal.StepDown | sched/Scheduler.cpp:142-142 | going down to a candidate keeps the cursor and its ancestors not Red, and hides nothing |
| Traversal.StepUp | sched/Scheduler.cpp:132-140 | without a candidate fewer nodes are not Red, the parent and its ancestors still are, and at most the node itself hides something |
| Traversal.AssignSettles | sched/Scheduler.cpp:221-224 | the leaf the traversal stopped at hides nothing once it is assigned |
| Traversal.CleanedStep | sched/Scheduler.cpp:145-163 | painting a node and cleaning from its parent cleans the whole branch and nothing else |
| Traversal.CleaningSettles | sched/Scheduler.cpp:145-163 | cleaning a branch leaves none of its nodes hiding anything, and opens it up for the traversal |
| Traversal.UnassignUnsettlesBranch | sched/Scheduler.cpp:92-92 | a page taken back is hidden at most by the nodes above it |
| Searches.BestFromChild | sched/Scheduler.cpp:142-142 | if the search goes on from the heaviest candidate and finds the best page from there, that is the best from the parent |
| Searches.BestFromParent | sched/Scheduler.cpp:132-140 | if it backtracks, what is best from the parent is best from the node: at each branching off the way to the page, no candidate is heavier, and none behind it as heavy |
| Searches.GoesDown | sched/Scheduler.cpp:119-143 | one step down is such a move, and leaves the search where it may go on |
| Searches.GoesUp | sched/Scheduler.cpp:119-143 | without a candidate the search ends at a page that waits, or at the root, or goes up |
| Searches.FilledGives | sched/Scheduler.cpp:206-231 | the pages a crawler was given are those its searches found, each the best from its cursor; nothing else changed |
| Searches.CourseGives | sched/Scheduler.cpp:38-77 | over a whole run: every page handed out is the best from the cursor at that moment and goes to the crawler in front then; all other pages are as they were |
| Weights.LeafChange | sched/Node.cpp:89-99 | a new weight puts the parent of the page off, by the difference the reviser tells |
| Weights.InnerChange | sched/Node.cpp:100-107 | an inner node that takes the difference in passes the same difference on to its parent |
| Weights.BalancedMeansLeafSums | sched/Node.cpp:75-107 | in a balanced tree each node below the root carries the sum over all leaves below it |
| Tries.SpellUnique | utility/Node.ipp:18-27 | two nodes that spell the same path are the same |
| Tries.InsertionSpellsPath | utility/Tree.ipp:37-56 | the node that inserting returns spells the path |
| Tries.InsertionAddsPrefixes | utility/Tree.ipp:37-56 | just the prefixes of the path are spelt in addition; a path that was there adds no node |
| Tries.InsertionKeepsClosure | utility/Tree.ipp:37-56 | if the nodes spell the prefixes of the paths inserted and nothing else, they do so after one insertion more |
| Tries.SameNodesKeepClosure | utility/Node.hpp:27-27 | whatever colours and pages become, the nodes spell the same prefixes |
| UrlTrees.Tree.FindChild | utility/IndexedSet.ipp:14-36 | the child with the value, or null exactly when there is none |
| UrlTrees.Tree.Attach | utility/Node.ipp:27-34 | a new last child that knows its parent, depth and place; the tree stays well formed |
| UrlTrees.Tree.CreateChild | utility/Node.ipp:13-37 | the child with the value that was there, with nothing changed, or a new one |
| UrlTrees.Tree.Insert | utility/Tree.ipp:37-56 | follows the path as far as it exists, hangs a chain of new nodes below that, and returns the last; the nodes spell the prefixes of all paths inserted, this one among them |
| Seeding.SeedingSettled | sched/Scheduler.cpp:252-275 | a new page keeps the tree settled exactly when no node on its path is Red |
| Seeding.SeedingShape | sched/Scheduler.cpp:259-261 | the new chain with its page is again a tree whose leaves are its pages |
| Seeding.ScheduledSpells | sched/Scheduler.cpp:256-267 | the node found or made spells the URL's path, and in addition just its prefixes are spelt |
| Seeding.ScheduledSettled | sched/Scheduler.cpp:252-275 | scheduling keeps the tree settled exactly when the URL was there already, or no node on its path is Red |
| Seeding.RedRootHidesNewPages | sched/Scheduler.cpp:214-216 | under a Red root every new page stays unassigned and hidden |
| Schedules.AssignConsistent | sched/Scheduler.cpp:221-224 | handing out the page keeps tree and work units consistent, assigns one page more, and lets the traversal go on from the parent |
| Schedules.FreedAndCleaned | sched/Scheduler.cpp:86-98 | after the branch is cleaned the page taken back can be found again, and no node more hides anything |
| Schedules.SeedConsistent | sched/Scheduler.cpp:256-267 | a new page keeps tree and work units consistent |
| Schedules.SeedBalanced | sched/Scheduler.cpp:256-272 | new nodes without weight leave all sums right |
| Ranking.RankIsStrictWeakOrder | sched/Crawler.cpp:57-83 | the order of the queue is a strict weak order |
| Ranking.SameCapacityUnblocked | sched/Crawler.hpp:39-41 | crawlers of one capacity never block each other |
| Ranking.ProgressStep | sched/Scheduler.cpp:57-69 | a round adds what it assigned to the sum of all loads, whoever is served |
| Ranking.DeferredStep | sched/Scheduler.cpp:61-64 | no crawler gets into the deferred list twice |
| Queues.FrontIsTop | sched/Scheduler.cpp:57-57 | the front of an ordered queue ranks below none |
| Queues.PoppedKeeps | sched/Scheduler.cpp:67-67 | taking out the front, whose own rank may have changed, leaves the others, in order if all behind the front was |
| Queues.PushedKeeps | sched/Scheduler.cpp:68-68 | putting a crawler into an ordered queue leaves it ordered, with that crawler in addition |
| Queues.RequeuedFollows | sched/Scheduler.cpp:67-68 | after both the queue has the same crawlers, in order if all behind the front was |
| Queues.TakingBackKeepsOrder | sched/Scheduler.cpp:86-98 | a page taken back leaves the order intact exactly when the crawler's parent in the heap does not rank below it, and behind the front also when it stands among the first three |
| Queues.ComingOnlineKeepsOrder | sched/Session.cpp:173-190 | likewise for a crawler that gets its session after it was queued |
| Runs.OnCourseStep | sched/Scheduler.cpp:57-69 | serving and putting back the front leaves enough rounds for all that wait |
| Runs.RunGoesOn | sched/Scheduler.cpp:57-69 | a round keeps the accounts of a run: pages, deferred crawlers, order of the queue, rounds to go |
| Runs.StarvingRun | sched/Scheduler.cpp:57-69 | a blocked crawler behind the front may be passed over in every round, though the queue is in order |
| Runs.WorkConservingIff | sched/Scheduler.cpp:44-69 | every run leaves no online crawler waiting exactly when nobody behind the front waits, or all behind it is in order and nobody there is blocked |
| Runs.HeapRunIsRun | sched/Scheduler.cpp:57-69 | the rounds of the heap are such a run |
| Runs.AllFilled | sched/Scheduler.cpp:57-69 | where a run that fills five crawlers of one size leaves them in the heap |
| Runs.OrderLost | sched/Scheduler.cpp:86-98 | one page taken back from the fifth then blocks nobody, and loses the order |
| Runs.LostOrderStarves | sched/Scheduler.cpp:57-69 | after that the fifth waits through any number of rounds |
| Schedulers.Scheduler.constructor | sched/Scheduler.cpp:23-31 | a new tree, of a new root alone that has no page, which is steady and settled; no crawlers and no page in the table |
| Schedulers.Scheduler.RegisterCrawler | sched/Scheduler.hpp:41-41 | a crawler that joins with nothing to do keeps the scheduler steady, and an ordered queue ordered |
| Schedulers.Scheduler.SelectBestChild | sched/Scheduler.cpp:172-204 | the last of the heaviest children that are neither Red nor assigned pages; null exactly when there is none, and then the node is Red |
| Schedulers.Scheduler.TraverseBranch | sched/Scheduler.cpp:119-143 | terminates on every tree; stops at an unassigned page, or at the root turned Red; hides nothing but the page it stops at; wherever the way to the page leaves the branch of the cursor it takes the heaviest candidate, the last of several |
| Schedulers.Scheduler.FindPage | sched/Scheduler.cpp:219-219 | the search, as part of the scheduler: all but colours stays as it was, and the page found is the best from the cursor |
| Schedulers.Scheduler.HandOut | sched/Scheduler.cpp:221-224 | the page found is assigned, cached and in the work unit; the cursor may go on from its parent |
| Schedulers.Scheduler.FillOne | sched/Scheduler.cpp:214-231 | the best page from the cursor is given to the crawler, and the cursor moves to its parent; or the tree is exhausted |
| Schedulers.Scheduler.FillCrawler | sched/Scheduler.cpp:206-250 | terminates, also when the cursor comes from another crawler; then the crawler is full or the root Red; returns how many pages were newly assigned, all of them to it; the last block is never entered; each page is the best from the parent of the one before, the first from the cursor handed on, and the cursor it leaves is stated |
| Schedulers.Scheduler.RanksAgree | sched/Crawler.cpp:57-83 | the order of the queue is that of the comparison, on crawlers as they are |
| Schedulers.Scheduler.Requeue | sched/Scheduler.cpp:67-68 | pop and push of the front: the heap of the same crawlers, and nothing else changes |
| Schedulers.Scheduler.ServeFront | sched/Scheduler.cpp:57-69 | one round: the front is full afterwards or the root Red, unless it is offline; no other load changes; the front is put back, and the cursor handed on |
| Schedulers.Scheduler.FillAll | sched/Scheduler.cpp:39-77 | all rounds together: conservation, the deferred list, the queue, and work conservation where it holds |
| Schedulers.Scheduler.Run | sched/Scheduler.cpp:38-77 | keeps the scheduler steady; the value returned is the number of pages newly assigned and the growth of all work units; deferred crawlers are distinct and just those that grew; if all behind the front was in order, so is the queue, and blocked crawlers behind it got nothing; and then no online crawler waits unless the root is Red or one behind the front was blocked; the rounds are those of a course: in each the front crawler gets the best pages from the cursor that the round before left, and is put back |
| Schedulers.Scheduler.WeighLeaf | sched/Node.cpp:89-99 | the page carries its worth, and what its parent lacks is what the parent was told |
| Schedulers.Scheduler.WeighInner | sched/Node.cpp:100-107 | the node carries the sum over its children, and what its parent lacks is what the parent was told |
| Schedulers.Scheduler.WeighTreeBranch | sched/Scheduler.cpp:165-170 | afterwards every inner node below the root carries the sum over its children again, and every page its worth |
| Schedulers.Scheduler.CleanTreeBranch | sched/Scheduler.cpp:145-163 | the branch up to the root is Amber, a leaf at its end Green, and no other colour changes |
| Schedulers.Scheduler.Release | sched/Scheduler.cpp:89-92 | the page is taken back from its crawler, which has its URL |
| Schedulers.Scheduler.UpdateNode | sched/Scheduler.cpp:86-98 | keeps the scheduler steady; the page waits for a crawler within reach of the traversal; its crawl is counted, and makes it lighter in proportion; its old crawler has just that URL less, and stands in the queue where it stood |
| Schedulers.Scheduler.Schedule | sched/Scheduler.cpp:252-275 | keeps the scheduler steady; the tree is as it was or has a new chain with the new page; links are counted unless from a seed; a new page weighs its epoch, twice if linked to, and a known one is heavier in the proportion of its links; nodes and page in addition are new objects, and the path is among those the tree spells |
| Schedulers.Scheduler.NothingToGive | sched/Scheduler.cpp:38-77 | a run on the root alone gives nothing and changes no load; where work is conserved and a crawler waits it turns the root Red |
| EarlyRuns.FirstRun | sched/Scheduler.cpp:38-77 | the run itself, before the first URL: the root is Red afterwards, and nobody has been given anything |
| EarlyRuns.RunsUnderRedRoot | sched/Scheduler.cpp:214-216 | while the root is Red, no run of any number gives a page to a crawler, and the root stays Red |
| EarlyRuns.SeedUnderRedRoot | sched/Scheduler.cpp:252-275 | a URL scheduled under a Red root has a page that no run after that gives to a crawler, in any steady and settled scheduler |
| EarlyRuns.RunBeforeSeeds | sched/Scheduler.cpp:23-77 | from the start: a new scheduler, a crawler online, a run, the first URL, any number of runs; the page is still free |
| Schedulers.Scheduler.ExhaustedMeansAllAssigned | sched/Scheduler.cpp:38-77 | a run that turns the root of a settled tree Red leaves no page without a crawler |
| Schedulers.Scheduler.WeightIsWorthBelow | sched/Node.cpp:75-107 | at any time the weight kept at a node below the root is what all pages below it are worth, computed afresh |
| Schedulers.Scheduler.PageWeighed | sched/Node.cpp:89-99 | at any time the weight of a page, times its crawls and one more, is its epoch times its links and one more |
| Schedulers.Scheduler.ScaleMeans | sched/Node.cpp:64-68 | children are compared by what all pages below them are worth, over the number of their children and one more, normalised |
| Schedulers.Scheduler.LighterFirst | sched/Node.cpp:15-23 | with the program's formula a page compares as no heavier than another beside it exactly when its weight is no smaller: the lighter goes first |
| BitSets.WordInBytes | utility/BitSet.cpp:33-33 | the number that the third step leaves is the sum of its bytes in base 256 |
| BitSets.PopulationCountIsOnes | utility/BitSet.cpp:24-34 | the masks, shifts and the remainder by 255 count the bits of every word |
| BitSets.PopulationCountBelowIsOnes | utility/BitSet.cpp:36-46 | with a limit just the bits below it are counted |
| BitSets.PlaceIncreases | utility/BitSet.cpp:115-130 | different members have different places, in the same order |
| BitSets.BitSet.HasValue | utility/BitSet.cpp:84-91 | whether the number is a member; never beyond the maximum |
| BitSets.BitSet.SetBits | utility/BitSet.cpp:93-102 | adds that number and no other, and tells whether it was new and not too large |
| BitSets.BitSet.ClearBits | utility/BitSet.cpp:104-113 | removes that number and no other, and tells whether it was there |
| BitSets.BitSet.IndexOf | utility/BitSet.cpp:115-130 | how many members are smaller, or -1 for what is no member |
| Factories.EnrolledAgrees | net/oop/Factory.cpp:30-44 | enrolling keeps the registry in agreement with its members exactly when the id is greater than all before |
| Factories.AgreesWhenIncreasing | net/oop/Factory.cpp:30-44 | the registry answers like a map exactly when the ids were enrolled in increasing order |
| Factories.EnrolmentOrders | net/oop/Messages.cpp:16-23 | the program's order is right; the first two messages the other way round are not |
| Factories.Factory.Enroll | net/oop/Factory.cpp:30-44 | enrols a new id within the maximum at its place, and refuses any other |
| Factories.Factory.Create | net/oop/Factory.cpp:55-64 | null exactly for ids not enrolled, else a message of that type, as long as the registry agrees |
| Messages.HeaderRoundTrip | net/oop/Message.cpp:30-58 | size and id come back from the header, for all 32-bit sizes and 16-bit ids |
| Messages.HeaderOfBytes | net/oop/Message.cpp:42-58 | any six bytes are the header that their size and id make |
| Messages.HeaderLayout | net/oop/Message.cpp:30-40 | byte by byte: the size of the whole message in network order in the first four, the id in the last two |
| Messages.FramesArePrefixFree | net/oop/Protocol.cpp:114-148 | frames at the beginning of a stream of frames are the first of these |
| Messages.Message.ToBuffer | net/oop/Serialiser.hpp:119-134 | writes exactly the next bytes of the frame, as many as fit |
| Messages.Message.FromBuffer | net/oop/Serialiser.hpp:136-142 | takes exactly the next bytes of the body, as many as are pending |
| Framing.Freed | net/oop/Protocol.cpp:69-75 | freeing the first message buffered keeps the order of freed, buffered and queued messages |
| Framing.BooksWrote | net/oop/Protocol.cpp:94-109 | whatever part of a message is written, what was sent and what is to be sent are the frames of all messages pushed |
| Framing.DeliversWhatWasPushed | net/oop/Protocol.cpp:114-148 | a receiver that has seen the first bytes has the first messages, and one that has seen all has all |
| Framing.OneWayToReceive | net/oop/Protocol.cpp:114-148 | however the bytes were cut up, the same messages are delivered |
| Framing.PeersSendKnownIds | net/oop/Protocol.cpp:128-132 | bytes from a peer that pushes enrolled messages only never announce another id |
| Protocols.Protocol.PushMessage | net/oop/Protocol.cpp:29-40 | queues the message behind all others; null is ignored |
| Protocols.Protocol.SendOne | net/oop/Protocol.cpp:94-109 | one round: the next bytes are sent in place, and a message written to its end is buffered |
| Protocols.Protocol.Message2Buffer | net/oop/Protocol.cpp:81-112 | the buffer holds exactly the next bytes of the stream; one message at most is completed |
| Protocols.Protocol.FreeAll | net/oop/Protocol.cpp:58-76 | frees exactly the messages whose bytes have all been acknowledged |
| Protocols.Protocol.BytesTransferred | net/oop/Protocol.cpp:48-79 | sizes freed and bytes left over are what was acknowledged; first in, first out; less is left over than the front message |
| Protocols.Protocol.Finish | net/oop/Protocol.cpp:140-144 | a complete message, and no other, is handed over |
| Protocols.Protocol.ReceiveOne | net/oop/Protocol.cpp:127-145 | one round uses up all bytes or completes a message |
| Protocols.Protocol.Buffer2Message | net/oop/Protocol.cpp:114-148 | the messages delivered and the one begun account for every byte seen; only too few bytes for a header are left unused |
| Protocols.Protocol.Receive | net/oop/Protocol.cpp:114-148 | receiving leaves alone what is being sent |
| Protocols.Protocol.PopMessage | net/oop/Protocol.cpp:16-27 | hands on the first message received; null when there is none |
| Protocols.Delivery | net/oop/Protocol.cpp:81-148 | between two ends: what has been delivered are the first of the messages pushed, and all once everything sent was seen |
| Protocols.FreedInOrder | net/oop/Protocol.cpp:48-79 | the messages freed are the first pushed, their bytes all acknowledged; the front message buffered is not acknowledged to its end |
| Texts.SplitJoin | url/Parser.cpp:115-126 | cutting at a separator undoes joining with it |
| Texts.JoinSplit | url/URL.cpp:140-158 | joining undoes cutting |
| Texts.SplitSize | url/Parser.cpp:54-66 | there is one part more than there are separators, which is what is reserved |
| Texts.LettersLowered | url/Parser.cpp:83-83 | each capital becomes the letter at its place in the alphabet, and nothing else changes |
| Urls.TokeniseScheme | url/Parser.cpp:68-87 | one character of the scheme, or the state after it: credentials if there is an @ before the first slash |
| Urls.TokeniseDomain | url/Parser.cpp:89-142 | the parts of the domain in lower case, where it ends, and whether it is an IP address |
| Urls.TokenisePath | url/Parser.cpp:144-173 | the parts up to the last slash; none when there is no other |
| Urls.OneMoreOfField | url/Parser.cpp:273-302 | scanning a field character by character finds what stands before its separator |
| Urls.Scan | url/Parser.cpp:258-307 | the loop over the states finds the parts that the places of the separators define |
| Urls.Normalise | url/Parser.cpp:206-233 | the identity exactly on paths without dot segments; a single dot becomes the empty path; of every other path with one, the loop erases in front of the first part if it begins with "..", and goes past the end if not |
| Urls.Parse | url/Parser.cpp:258-313 | scans, and then removes dot segments, where that is defined. The flag says IP address exactly when the last part is a number and so are three before it (counted in 16 bits): of four parts all, of fewer never. Scheme and domain have no capitals, path no dot segment, page and query no slash |
| Urls.OctetsCount | url/Parser.cpp:115-128 | the loop counts the places before the last part that hold a number |
| Urls.IpMeans | url/Parser.cpp:128-132 | whatever the domain, the flag is set exactly as stated for `Urls.Parse` |
| Urls.FoundRegular | url/Parser.cpp:258-307 | whatever the text, the flag goes with the domain found, scheme and domain are in lower case, and neither page nor query has a slash |
| Urls.DomainEndsThere | url/Parser.cpp:89-108 | the domain ends where it was printed exactly when the last colon is that of the port, or there is none behind the first character |
| Urls.ParsedIfFound | url/Parser.cpp:309-309 | what the scanner finds is what parsing gives if there is no dot segment, and none is ever in the result |
| Urls.Url.Host | url/URL.cpp:140-158 | the parts of the domain joined by dots |
| Urls.Url.Resource | url/URL.cpp:160-180 | the parts of the path, each followed by a slash, and the page |
| Urls.Url.ToStream | url/URL.cpp:197-218 | the whole URL; the password only with a user name |
| Urls.UserNameSpoilt | url/URL.cpp:203-210 | a user name printed without a password is never found again |
| Urls.ParseUndoesPrint | url/Parser.cpp:258-313 | with a scheme, parsing gives all fields back exactly when user name and password are both there or both missing, no colon of the domain can be taken for that of the port, no part of the path is a dot segment, and the page has no question mark |
| Urls.ParseUndoesPrintWithQuery | url/Parser.cpp:258-313 | with a query behind it, all fields and the query come back exactly when they do without it and the query has no slash |
| Urls.ParseUndoesPrintWithoutScheme | url/Parser.cpp:258-313 | without a scheme, exactly when moreover the domain has more than one part and there is neither user name nor password |
| TreeIterators.WayIsEmpty | url/TreeIterator.cpp:58-61 | a URL without a domain leads nowhere, whatever its path |
| TreeIterators.TreeIterator.MovePointerForward | url/TreeIterator.cpp:38-110 | the pointer is at the next part, or only the state has moved on and it is to be called again |
| TreeIterators.TreeIterator.Increment | url/TreeIterator.cpp:175-185 | terminates at the next part, or at the end when none is left |
| TreeIterators.Iterate | utility/Tree.ipp:49-53 | place by place: the domain from its top level (an IP address from its first part), the path, and last the page if there is one; nothing without a domain |
| TreeIterators.WaysDiffer | url/TreeIterator.cpp:38-110 | two URLs with domains of one length, both with a page or both without, have the same way exactly when domain, path and page agree |
| TreeIterators.PageLikeDirectory | url/TreeIterator.cpp:80-102 | a page and a directory of the same name have the same way |
| Dialogs.SchedulerSession.ContinueDialog | sched/Session.cpp:111-171 | refuses exactly what does not continue the dialog, and then keeps its context |
| Dialogs.CrawlerSession.ContinueDialog | crawl/Session.cpp:93-128 | likewise |
| Dialogs.SchedulerDialog | sched/Session.cpp:111-171 | whatever is sent, accepts exactly the prefixes of REGISTER END*, as long as nothing was sent before the registration and nothing but BEGIN last before an END |
| Dialogs.CrawlerDialog | crawl/Session.cpp:93-128 | whatever is sent, accepts exactly begun crawls, each when the registration or an ended crawl was sent last |
| Dialogs.NoDialogError | sched/Session.cpp:90-95 | no interleaving of the two sessions over their channels leads to a dialog error, from any state in order |
| Dialogs.NoDialogErrorFromStart | crawl/Context.cpp:14-21 | in particular none that begins with the registration |

## Left out

- Urls.Parse: returns the text of the query instead of its pairs, which the code appends to the page in another order (url/Parser.cpp:235-246); whether a part is a number (`str2int`) is a parameter; lower case is that of ASCII letters.
- Urls.Url.constructor: requires a path for which removing dot segments is defined.
- Protocols.Protocol.Message2Buffer: requires room for a header when a message is begun, and a further message queued when the buffer is filled exactly; the code reads the front of an empty queue otherwise.
- Protocols.Protocol.Buffer2Message: requires a whole header where a message begins, and ids that are enrolled; the code does not check either.
- Protocols.Protocol.Receive: requires the same.
- Protocols.Protocol.PushMessage: takes a message that is serialised already; the code serialises it here, and then starts a transfer if none is under way, which is I/O.
- Protocols.Protocol.PopMessage: does not reconstruct the message from its body; bodies are opaque non-empty bytes, and `transfer_data` is I/O.
- Schedulers.Scheduler.RegisterCrawler: requires a crawler that is not queued yet and has no URLs, which is how the sessions create one; the code checks neither.
- Schedulers.Scheduler.Schedule: requires that the path neither leads through a page nor ends at an inner node, as pages belong on leaves (sched/Node.hpp:35), that it is not empty (that of a URL without a domain is, and the code would put the page on the root), and that different URLs have different ids; the path is the one `Iterate` yields. The count of leaves is not kept.
- Schedulers.Scheduler.UpdateNode: requires that the id is in the page table and its page assigned; the code asserts the second and relies on the first.
- Queues.RequeuedFollows: the heap is written after the algorithm common in standard libraries, whose code is not part of this model; its elements are a sequence of values that is replaced as a whole.
- Schedulers.Scheduler.Run: the deferred crawls are returned instead of sent; sessions do not change during a run; breadcrumbs are left out; `fill_crawler` keeps the root of the first scheduler in a static variable, here each has its own.
- Nodes.Node.CalculateWeight: over the reals, without rounding; `normalise` is any function, as only the comparison of weights matters. Where the program's own formula is meant its square root is a parameter.
- Urls.ParseUndoesPrintWithoutScheme: requires that the first part of the domain has no colon, and is not empty where it is the only one and a port follows.
- `visited` is updated as in the code but nothing is claimed about it: it drifts when a branch is cleaned, and only the block that is never entered reads it.
- UrlTrees.Tree.FindChild: the indexed set is a sequence of children in the order of insertion; the order of the `std::set` inside it, which nothing here reads, is not modelled. Indices are unbounded.
- ChunkVectors.ChunkVector.Extend: the address that malloc returns is a parameter, required not to overlap the chunks in use; chunks are objects that change places instead of values that are copied.
- The destructor of `ChunkManager`, which also destroys the chunk that has live blocks left, and `ObjectAllocator`.
- `Factory::lookup`, which lets a subscript equal to the size through; the singleton.
- `TreeIterator` moving backwards.
- What the crawler does with the URLs of a begun crawl: the loop at crawl/Session.cpp:138-143 never advances. Creating crawlers and contexts, and the garbage collector of the session.
- `DeferredUpdate`, events, dispatchers, sockets, threads and DNS: I/O plumbing.
- HTML parsing and the HTTP protocol.
- Hashes of URLs, printing of trees, exceptions, the tests and the programs.
