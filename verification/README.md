# Mizzle, verified

Mizzle is a git server.  Its storage backends answer the same questions in different ways: which objects a
fetch needs, which commits a push brings, whether a ref may move.  This project models those answers in
Dafny 4.11 and proves that they are what they claim to be and that they agree with each other.

Nothing in it needs another library: `dafny verify dfyconfig.toml` checks all of it.

## What is modelled

Everything rests on one notion, reachability in a finite graph (`Graphs.dfy`), defined by walks of a given
length and used through two facts: what is reached from a set is closed, and it is the least closed set.
An object store (`ObjectStore.dfy`) is a finite map from ids to commits, trees, blobs and tags; the commit
graph, the tree graph and the graph of all references are read off it.  A blob has no content here except the tree
its bytes would name if they were read as a commit.  Object ids are the numbers below
2^160, with 0 the null id; a byte is a number below 256; a 64-bit word is a natural number below 2^64.

- **Walks of the commit graph.**  `BreadthFirst.dfy` says what the breadth-first loops compute, as one growing
  list and a position in it.  `CommitWalks.dfy` holds the loops of the KV and SQL backends: the early-exit
  ancestor test, the capped collection of ancestors, and the two-pass walk.  `DepthLimited.dfy` is the shallow walk.
- **Pack selection.**  `PackSelection.dfy` is the pruning walker; `Selection.dfy` says what it selects;
  `ShallowFetch.dfy` says what a client is left with; `KvBuildPack.dfy` collects everything and subtracts;
  `KvOptions.dfy` is about the options it ignores; `FsBuildPack.dfy` chooses between a whole pack, a bitmap and
  the walker.
- **Reachability bitmaps.**  `Words.dfy`, `DenseBitmaps.dfy` and `PackBitmaps.dfy` go from single bits to the
  decoded, united and read-back bitmap.
- **Push comparison.**  `Comparison.dfy` has the commits each ref of a push introduces and drops, with their
  caches; `PushedCommits.dfy` compares them with what the push brings into the object store, tags included.
- **The key-value layer.**  `Keys.dfy` (keys, ranges), `KvObjects.dfy` (ingest, parents), `Refs.dfy`
  (compare-and-swap batches in KV and SQL), `RefTransactions.dfy` (interleaved transactions),
  `CacheKeys.dfy` and `PackCache.dfy` (the on-disk cache, its keys and its files, over whole runs).
- **The push pipeline.**  `PushPipeline.dfy` runs one push over HTTP or SSH; `ConcurrentPushes.dfy` interleaves any
  number of them; `ReceiveRequest.dfy` parses the request, and `ShallowRequests.dfy` is about requests with lines that
  are no commands; `Signatures.dfy` recovers signed bytes.

Loops of the source are methods with loops, and objects it changes in place are classes.  Each such method is
proved against a function or a set that does not mention the loop; what the source promises is then proved of
that function.  Code outside the repository enters as a parameter with its specification: the commits a library
traversal yields (`IsTraversal`), the positions a compressed bitmap decodes to (`Ewah`), the result of a range
scan (`IsScan`), the decisions of the forge and of the connection (`Push`), UTF-8 validity (`isUtf8`).

## Where the code and its documentation differ

The model follows the code, and a lemma states each difference.

- A fetch is said to send everything the wants reach.  An object that is wanted directly and is no commit is
  sent without what it refers to: an annotated tag goes without its commit (`Selection.WantedTagIsSentAlone`),
  and a wanted tree even keeps its contents out of a pack whose commits need them
  (`Selection.DirectTreeHidesItsBlob`).  `Selection.PromiseKeptIff` and `Selection.NothingDanglesIff` say exactly when
  this does no harm.
- The walker and the KV backend differ on directly wanted objects that the client has
  (`KvBuildPack.HadTreeIsSentAgain`).  They differ on wanted blobs that hold the text of a commit: the KV backend is
  documented to ask whether an object is a commit, but only tries to read it as one
  (`KvBuildPack.BlobIsReadAsCommit`).  `KvBuildPack.KvMatchesWalker` says exactly when they agree.  The same blob is
  shown to a forge as a commit (`PushedCommits.OnlyCommitsShownIff`, `PushedCommits.BlobIsShownAsCommit`).
- The KV backend takes depth and filter and uses neither, so it sends too much
  (`KvOptions.KvHonoursOptionsIff`, `KvOptions.DepthIsIgnored`, `KvOptions.FilterIsIgnored`).
- The parents of a commit listed as shallow are said not to be sent; they are if they are near enough by another
  path (`ShallowFetch.BoundaryParentIsSentIff`, `ShallowFetch.ListedButNotCut`).
- A have that is a stored tag is let through to the pack layer: the walker fails on it, and the KV backend subtracts
  the tag alone (`KvBuildPack.TagHaveSubtractsItself`).
- The storage contract and the comparison promise commits parent-first; the walks list them nearest first, so a
  tip comes before its parents (`CommitWalks.ParentFirstIff`, `CommitWalks.ChildComesFirst`).
- The comparison is meant to show a forge every commit a push brings.  It keeps one answer per name, so a push that
  names a ref twice, which the parser accepts and the backends apply, hides what only its second update brings
  (`Comparison.RepeatedNameHidesCommits`).  It walks from new tips as if they were commits, so the answer for a
  pushed tag is an error (`PushedCommits.PushedTagHidesItsCommit`).  `PushedCommits.PushOrderShowsAllIff` says exactly
  when everything is shown.
- It is also meant to leave out what other refs reach.  The KV and SQL backends do not peel tags, so the commit of an
  untouched tag can be reported as new (`PushedCommits.NothingOldReportedIff`,
  `PushedCommits.UnpeeledTagRepeatsItsCommit`).
- A comment in the comparison says that a ref's old tip is excluded from its new commits.  It is not: after a
  fast-forward the old history shows up again unless something else reaches it (`Comparison.OldHistoryReappears`,
  `Comparison.OldCommitComesBack`).
- The contract refuses an update from null to null on an absent ref; the KV backend accepts it
  (`Refs.KvKeepsContractIff`) and the pipeline announces it (`PushPipeline.NullUpdateIsAnnounced`).
- The upper bound of a range scan is documented as the next byte string.  It is the next string that does not
  start with the key, and on a key of 0xFF bytes only it is too low for a scan (`Keys.RangeExactIff`).
- Parent positions are 16 bits wide: commits with more than 65536 parents come back wrong (`KvObjects.ParentsRoundTrip`).
- The cache key is said to be equal only for requests with equal packs.  The two id lists are not delimited, so
  different requests can share a key (`CacheKeys.KeysCollide`), but not if no wanted id starts with a zero byte
  (`CacheKeys.KeysSeparate`, `CacheKeys.LoneWantCollidesIff`).
- A cached pack is said to stay right.  One built while a wanted id was missing stays incomplete
  (`PackCache.FreshIsStableIff`, `PackCache.MissingWantSpoilsEntry`).
- Failures of the cache are said to do no harm.  A write that breaks off leaves a cut file, which is served from then
  on (`PackCache.CacheIsCoherentIff`, `PackCache.CutWriteIsServed`).
- A refused push without ref updates is treated as accepted over HTTP (`PushPipeline.HttpIsSafeIff`).
- Over SSH the push kinds are computed again for the notification, on the assumption that they come from the same
  data.  A force push whose history was not all stored can be announced as a fast-forward
  (`PushPipeline.TransportsAgreeIff`, `PushPipeline.ForcePushAnnouncedAsFastForward`).
- Capabilities are stripped from the first line of a push, whatever that line is.  Behind a line that is no command,
  such as the `shallow` lines of a push from a shallow clone, they end up in the name of the ref
  (`ShallowRequests.CommandsComeBackIff`, `ShallowRequests.ShallowPush`).

## Model

| member | source | states |
|---|---|---|
| Graphs.PruningLosesNothing | mizzle/src/pack.rs:321-328 | Not descending into a closed set loses nothing outside it: the fact that makes skipping known subtrees sound |
| BreadthFirst.OrderIsExact | mizzle/src/backend/kv/graph.rs:93-117 | The breadth-first loop, pruned at a closed set, visits what the tips reach outside that set, once each, in order of true distance |
| BreadthFirst.DepthIsShortest | mizzle/src/pack.rs:187-221 | The depth at which a commit is first met is no longer than any walk to it, even when the search stops at a depth limit |
| CommitWalks.IsAncestor | mizzle/src/backend/kv/graph.rs:41-66 | The early-exit search answers yes if and only if the ancestor is reachable from the descendant |
| CommitWalks.CollectAncestors | mizzle/src/backend/kv/graph.rs:123-150 | Adds exactly the ancestors to the shared set, and gives up if and only if the set would outgrow the cap |
| CommitWalks.WalkFrom | mizzle/src/backend/kv/graph.rs:93-117 | The visiting loop stops with an error exactly when more commits than the cap remain to be listed |
| CommitWalks.ListedIsExact | mizzle/src/backend/kv/graph.rs:68-71 | A finished walk lists the difference of the two histories, without repetition, nearest first |
| CommitWalks.ReachableExcluding | mizzle/src/backend/kv/graph.rs:77-120 | Exact set difference; the cap error occurs if and only if the excluded history or the difference is larger than the cap; no tips, no commits |
| CommitWalks.ParentFirstIff | mizzle/src/backend/mod.rs:280-281 | For every list of tips and exclusions, the promised parent-first order holds if and only if each parent of a listed tip is excluded or is an earlier tip |
| CommitWalks.OneTipParentFirstIff | mizzle/src/auth.rs:55-59 | From one tip, if and only if every parent of the tip is excluded |
| CommitWalks.ChildComesFirst | mizzle/src/backend/kv/graph.rs:93-117 | A commit with one parent is listed before it |
| CommitWalks.CteIsAncestors | mizzle/src/backend/sql/graph.rs:148-158 | On an acyclic history, the rows of the recursive query, repeated or not, are exactly the ancestors |
| CommitWalks.SqlIsAncestor | mizzle/src/backend/sql/graph.rs:38-64 | The SQL ancestor test is reachability |
| CommitWalks.SqlReachableExcluding | mizzle/src/backend/sql/graph.rs:71-138 | Exact difference, and the identical list in the identical order whenever the KV walk succeeds; the cap error occurs if and only if the difference is larger than the cap |
| DepthLimited.DepthLimitedCommits | mizzle/src/pack.rs:163-224 | Returns, once each, exactly the commits fewer than `depth` edges from a want on a path that avoids the haves, and for depth zero the wants; the boundary is exactly those at distance `depth - 1` that have parents; other parents are returned or had; fails only on a missing commit within reach |
| DepthLimited.DepthInEdges | mizzle/src/pack.rs:204-215 | What the limit means, in edges: some walk of fewer than `depth` of them, or distance exactly `depth - 1` and a parent; depth zero is as depth one |
| DepthLimited.ParentsAreNear | mizzle/src/pack.rs:204-221 | No history is cut off except at the boundary and at the haves |
| ShallowFetch.OnlyOptionsLeaveOpen | mizzle/src/pack.rs:63-159 | For every depth and filter, each reference of a sent object is sent or had, or is a parent of a boundary commit, a root tree or blob that the filter omits, or a reference of a direct want |
| ShallowFetch.ListedCommits | mizzle/src/pack.rs:90-101 | The commits of a request, for every depth: reached from the wants that are not stored non-commits and not from the haves; with a depth, by fewer edges than that around the haves |
| ShallowFetch.PackIsExact | mizzle/src/pack.rs:63-159 | Exactly what is sent, for every depth and filter: the stored non-commits that are wanted, the listed commits, and, unless trees are omitted, what tree entries lead to below their root trees around the direct wants and is not had, without blobs on tree entries only |
| ShallowFetch.BoundaryParentIsSentIff | mizzle/src/pack.rs:20-23 | A parent of a boundary commit is sent if and only if it is not had and is not exactly one level below the boundary |
| ShallowFetch.DepthOneParentIsSentIff | mizzle/src/pack.rs:205-215 | With depth one a commit is sent if and only if it is wanted and not had |
| ShallowFetch.ListedButNotCut | mizzle/src/pack.rs:205-215 | A commit and its parent, both wanted with depth one: the commit is listed as shallow and the parent is sent |
| Selection.SelectionIsExact | mizzle/src/pack.rs:63-159 | The pruned walk selects the direct wants and what the commits reach without passing through them, minus everything the client has |
| Selection.CommitRequestIsExact | mizzle/src/pack.rs:120-152 | For commit wants, the selection is the closure of the wants minus the closure of the haves |
| Selection.FullWalkIsClosure | mizzle/src/pack.rs:229-275 | The same walk with nothing to skip finds the whole closure of its tips |
| Selection.PromiseKeptIff | mizzle/src/pack.rs:11-15 | The pack is everything the want tips reach and the have tips do not if and only if the client has no directly wanted object and every reference of one is wanted, had, or reached around the direct wants |
| Selection.NothingDanglesIff | mizzle/src/pack.rs:11-15 | Every reference of a sent object leads to one that is sent or had if and only if the references of the directly wanted objects are so covered |
| Selection.WantedTagIsSentAlone | mizzle/src/pack.rs:74-88 | In every store, a wanted annotated tag is sent alone although the client lacks what it points to |
| Selection.TaggedCommitIsNotSent | mizzle/src/pack.rs:74-88 | A tag, its commit and an empty tree: fetching the tag sends the tag |
| Selection.DirectTreeHidesItsBlob | mizzle/src/pack.rs:115-135 | A commit wanted together with its tree: the tree's blob is not sent |
| PackSelection.VisitEntries | mizzle/src/pack.rs:321-339 | One tree's entries add exactly the ids the client lacks, and queue only new subtrees |
| PackSelection.WalkTree | mizzle/src/pack.rs:138-152 | A tree walk into a partly filled result leaves it closed below everything met so far; it cannot fail in a complete store |
| PackSelection.GatherCommits | mizzle/src/pack.rs:120-153 | Commits, root trees and everything below them that is neither known nor directly wanted, from any list of commits in any order |
| PackSelection.BuildHaveSet | mizzle/src/pack.rs:229-275 | The have-set is the closure of the haves, and building it succeeds in every complete store that has them |
| PackSelection.ClassifyWants | mizzle/src/pack.rs:74-88 | Wants are split into commits (or unknown ids) and stored non-commits |
| PackSelection.WantsSplit | mizzle/src/pack.rs:74-88 | The split loses no want, and neither side holds an object of the other kind |
| PackSelection.ObjectsForFetchWithHaveSet | mizzle/src/pack.rs:63-159 | The result for every depth and filter, given any have-set; every wanted stored non-commit is in it; the shallow list is the exact boundary; success in every complete store |
| PackSelection.ObjectsForFetch | mizzle/src/pack.rs:45-54 | Full fetch: closure of the wants minus closure of the haves for commit wants, and the exact result with direct wants |
| KvBuildPack.CollectTreeOids | mizzle/src/backend/kv/build_pack.rs:142-172 | The stack-driven walk adds everything below a tree to a set it shares with earlier walks, although it never enters a tree twice |
| KvBuildPack.CollectCommitTrees | mizzle/src/backend/kv/build_pack.rs:55-59 | Every tree that an object of the list names when read as a commit, with everything below it |
| KvBuildPack.CollectSide | mizzle/src/backend/kv/build_pack.rs:39-59 | One side of the request: the commit difference and all trees its members name; the walk cannot hit its cap |
| KvBuildPack.NeededObjects | mizzle/src/backend/kv/build_pack.rs:39-74 | The needed set computed by collecting both sides and subtracting, whatever the depth and filter |
| KvBuildPack.HaveSideIsClosure | mizzle/src/backend/kv/build_pack.rs:62-74 | What is subtracted is the closure of the haves, for haves that are commits |
| KvBuildPack.TagHaveSubtractsItself | mizzle/src/fetch.rs:32-41 | For a have that is a tag, the KV backend subtracts the tag alone and the walker's traversal fails |
| KvBuildPack.KvNeededIsSelected | mizzle/src/backend/kv/build_pack.rs:39-74 | Collecting and subtracting gives the pruned walk's selection and what directly wanted blobs are misread to name, without what the client has |
| KvBuildPack.KvMatchesWalker | mizzle/src/backend/kv/build_pack.rs:39-74 | The KV backend and the walker select the same objects if and only if the client has none of the direct wants and whatever wanted blobs are misread to name is had or sent anyway; always so for commit wants |
| KvBuildPack.KvTreesAreWhole | mizzle/src/backend/kv/build_pack.rs:142-172 | A tree in the pack that was not wanted itself comes with all its entries that are not had, however it got there |
| KvBuildPack.BlobIsReadAsCommit | mizzle/src/backend/kv/build_pack.rs:112-139 | A wanted blob that holds the text of a commit is sent alone by the walker and with the tree it names by the KV backend |
| KvBuildPack.SavedCommitPullsItsTree | mizzle/src/backend/kv/build_pack.rs:112-139 | Such a blob and its tree, fetched by a client that has nothing |
| KvBuildPack.HadTreeIsSentAgain | mizzle/src/backend/kv/build_pack.rs:62-74 | A directly wanted tree that the client has is sent by the walker and not by the KV backend |
| KvBuildPack.CommitsTreeIsHad | mizzle/src/backend/kv/build_pack.rs:62-74 | The tree of a commit the client has is such a request |
| KvOptions.KvHonoursOptionsIff | mizzle/src/backend/kv/build_pack.rs:26-74 | For commit wants and every depth and filter, the KV backend sends what the walker sends if and only if the depth reaches every commit there is to send and the filter has nothing to omit: no filter; no trees and all root trees had; no blobs and every blob of a sent tree had or sent |
| KvOptions.DepthIsIgnored | mizzle/src/backend/kv/build_pack.rs:26-74 | In every store, a clone of depth one of a commit with a parent gets the parent from the KV backend |
| KvOptions.TwoCommits | mizzle/src/backend/kv/build_pack.rs:26-74 | A repository of two commits where that happens |
| KvOptions.FilterIsIgnored | mizzle/src/backend/kv/build_pack.rs:26-74 | A clone without trees gets more from the KV backend, whatever the stored history |
| KvOptions.OneCommit | mizzle/src/backend/kv/build_pack.rs:26-74 | A repository of one commit where that happens |
| Comparison.ComputePushKind | mizzle/src/backend/kv/graph.rs:21-38 | A null old id is a creation, otherwise a null new id a deletion, otherwise a fast-forward if and only if the old tip is reachable from the new one |
| Comparison.ConcreteComparison.RefIndex | mizzle/src/auth.rs:153-160 | The first ref of that name |
| Comparison.ConcreteComparison.ReadCommits | mizzle/src/auth.rs:274-283 | The commits of a walk, or an error for the first that does not read as a commit |
| Comparison.ConcreteComparison.NewCommits | mizzle/src/auth.rs:232-290 | Answers from the cell of the first ref of the name if it is filled, else walks from the new tip past untouched refs and earlier new tips and reads what it finds; fills that cell, errors included, and no other |
| Comparison.ConcreteComparison.DroppedCommits | mizzle/src/auth.rs:292-336 | The same for the walk from the old tip past the new one |
| Comparison.ConcreteComparison.Ask | mizzle/src/auth.rs:232-290 | The answers to any sequence of queries about the refs of the push |
| Comparison.AnswerIsBrought | mizzle/src/auth.rs:241-283 | Short of the cap, a ref is answered with what it adds to the histories of untouched refs and earlier new tips, once each, if and only if all of that reads as commits; the error names one of it that does not |
| Comparison.AnswerIsCutIff | mizzle/src/auth.rs:253-265 | The answer is the cap error if and only if the excluded histories or what the ref adds are larger than the cap |
| Comparison.AnswerIsLost | mizzle/src/auth.rs:298-330 | Dropped commits: none for a creation, the whole history of the old tip for a deletion, else what the new tip does not reach; listed once each if and only if all read as commits; the cap error if and only if they or the new history are larger than the cap |
| Comparison.RepliesAreOwn | mizzle/src/auth.rs:233-236 | If no ref is asked about before the first ref of its name, every query gets the answer of that first ref |
| Comparison.RepliesAvoid | mizzle/src/auth.rs:54-55 | Whatever is asked, no answer holds a commit that untouched refs reach through commits |
| PushedCommits.AnswersArePartition | mizzle/src/auth.rs:54-59 | Under distinct names, in any order and however often asked: answers for different refs share no commit; with untouched tags covered, what is reported is brought by the push; once all refs are asked about, every commit brought is reported if and only if new histories are stored and the commits of pushed tags are old or pushed themselves |
| PushedCommits.PushOrderShowsAllIff | mizzle/src/auth.rs:153-160 | Asked in push order, every commit that the new tips reach in the object store and untouched refs do not is reported if and only if each new commit tip has a new name and a stored new history, or a repeated name and earlier tips that reach it, and each commit of a pushed tag is old or reached from pushed commits |
| PushedCommits.NothingOldReportedIff | mizzle/src/serve.rs:119-144 | No push is reported with a commit that untouched refs reach if and only if every commit of an untouched tag is also reached through commits, whether or not histories are complete |
| PushedCommits.NewCommitIsReported | mizzle/src/auth.rs:246-257 | Every stored commit that untouched refs do not reach through commits is reported by some push under distinct names, also if part of its history is missing |
| PushedCommits.ReachedCommits | mizzle/src/backend/mod.rs:280-286 | The commits reachable in the object store are the histories of the tips after peeling tags |
| PushedCommits.PushedTagHidesItsCommit | mizzle/src/auth.rs:275-280 | Creating a ref at a tag is answered with an error, and no commit of the tag is reported |
| PushedCommits.UnpeeledTagRepeatsItsCommit | mizzle/src/backend/kv/refs.rs:37-42 | The commit of an untouched, unpeeled tag is reported as new by some push, unless it is reached through commits |
| PushedCommits.PeeledIsDeduplicated | mizzle/src/serve.rs:131-142 | If the listing gives for every tag what it leads to, as the filesystem backend does, no push is reported with a commit that untouched refs reach |
| PushedCommits.TagOfCommit | mizzle/src/backend/kv/refs.rs:37-42 | A repository where both happen |
| PushedCommits.OnlyCommitsShownIff | mizzle/src/backend/kv/refs.rs:153-162 | Asked in push order, everything reported is a stored commit if and only if no first ref of its name has a new tip that reads as a commit, is none, and is not excluded |
| PushedCommits.BlobIsShownAsCommit | mizzle/src/backend/kv/refs.rs:153-162 | A ref at a blob that holds the text of a commit is shown as a commit by the KV backend and refused by the others |
| Comparison.RepeatedNameHidesCommits | mizzle/src/auth.rs:153-160 | A push that sets one ref twice: both queries give the first answer, and a commit only the second tip reaches is in neither |
| Comparison.FirstToBring | mizzle/src/auth.rs:244-246 | Each commit is attributed to the earliest ref of the push that reaches it |
| Comparison.FastForwardLosesNothing | mizzle/src/auth.rs:292-336 | Short of the cap, the push is a fast-forward if and only if the forge is told that no commit is dropped |
| Comparison.OldHistoryReappears | mizzle/src/auth.rs:243-253 | After a fast-forward, the new commits leave out the old history if and only if another existing ref or an earlier ref of the push reaches the old tip |
| Comparison.LoneFastForward | mizzle/src/serve.rs:131-137 | A fast-forward of the only ref reports all of its old history |
| Comparison.OldCommitComesBack | mizzle/src/serve.rs:131-137 | One ref moved forward by one commit: both commits are reported |
| Comparison.ExistingRefTips | mizzle/src/serve.rs:120-144 | Tips and peeled tips of exactly the refs the push does not touch |
| Words.ClearLowest | mizzle/src/bitmap.rs:365-372 | Clearing the lowest bit by subtracting one keeps every other bit |
| Words.MaskedOnes | mizzle/src/bitmap.rs:353-357 | Counting under a low mask counts exactly the bits below it |
| DenseBitmaps.DenseBitmap.FromEwah | mizzle/src/bitmap.rs:297-309 | The expansion has exactly the decoded bits that fit, and those below its length fit |
| DenseBitmaps.DenseBitmap.ExtendTo | mizzle/src/bitmap.rs:331-336 | Grows, never shrinks, and changes no bit |
| DenseBitmaps.DenseBitmap.OrWith | mizzle/src/bitmap.rs:311-316 | Bitwise union of bitmaps of any two lengths |
| DenseBitmaps.DenseBitmap.XorWith | mizzle/src/bitmap.rs:318-323 | Bitwise difference of bitmaps of any two lengths |
| DenseBitmaps.DenseBitmap.AndNotWith | mizzle/src/bitmap.rs:325-329 | Bits of one that are not in the other, at the first one's length |
| DenseBitmaps.ZippedBits | mizzle/src/bitmap.rs:311-329 | Combining words over the shorter length is right for every bit, including those past the other's end |
| DenseBitmaps.DenseBitmap.PopcountInRange | mizzle/src/bitmap.rs:345-359 | Counts the set bits below a bound, across whole words, a masked last word and a missing tail |
| DenseBitmaps.CountIsFull | mizzle/src/bitmap.rs:148-149 | The count reaches the bound if and only if every position is set |
| PackBitmaps.PackBitmap.BuildOidIndex | mizzle/src/bitmap.rs:93-103 | Both tables are filled as the callback says |
| PackBitmaps.EntryIndexIsLast | mizzle/src/bitmap.rs:95-99 | An id is indexed exactly when some entry names it, by the last such entry |
| PackBitmaps.PackBitmap.DecodeEntry | mizzle/src/bitmap.rs:169-188 | Through any memo table that holds real bitmaps, the result is the exclusive-or along the whole chain, and the memo table still holds only real ones; the chain ends |
| PackBitmaps.TrueBitIsParity | mizzle/src/bitmap.rs:169-188 | A position of the pack is in an entry's bitmap if and only if an odd number of entries along its chain list it |
| PackBitmaps.PackBitmap.UnionBitmap | mizzle/src/bitmap.rs:154-167 | The union of the real bitmaps, or nothing exactly when an id has no entry |
| PackBitmaps.UnionOrderIrrelevant | mizzle/src/bitmap.rs:154-167 | Order and repetition of the ids make no difference |
| PackBitmaps.PackBitmap.ForEachSetBit | mizzle/src/bitmap.rs:361-375 | Reports set positions in ascending order up to the first that names no object |
| PackBitmaps.PackBitmap.HaveReachable | mizzle/src/bitmap.rs:115-124 | The ids of the set positions before the first unresolved one, and nothing exactly when an id has no entry |
| PackBitmaps.PackBitmap.CoversExactly | mizzle/src/bitmap.rs:139-150 | True if and only if every object of the pack is reached from the wants and from no have; undetermined exactly when an id has no entry |
| PackBitmaps.HavesPreventReuse | mizzle/src/bitmap.rs:139-150 | If every entry has a bit in the pack, no request with haves reuses a pack |
| FsBuildPack.BitmapMatchesWalker | mizzle/src/backend/fs_gitoxide.rs:1096-1105 | Reading the union back gives exactly the closure of the haves, although the reader stops at the first bit past the pack |
| FsBuildPack.ReuseIsExact | mizzle/src/pack_reuse.rs:75-91 | The coverage test holds if and only if the pack is the closure of the wants minus the closure of the haves |
| FsBuildPack.FindReusablePack | mizzle/src/pack_reuse.rs:36-60 | A pack is found if and only if one covers the request |
| FsBuildPack.TryBitmapHaveSet | mizzle/src/backend/fs_gitoxide.rs:1073-1094 | A have-set from any bitmap is the walker's have-set |
| FsBuildPack.ShippedPack | mizzle/src/backend/fs_gitoxide.rs:451-456 | A pack shipped as it is holds what the walker would have selected |
| FsBuildPack.BuildPack | mizzle/src/backend/fs_gitoxide.rs:440-482 | Whole pack, bitmap or walker: all branches give the same objects, for every depth, filter and request, every wanted stored non-commit among them |
| FsBuildPack.OneCommitPack | mizzle/src/pack_reuse.rs:75-91 | A pack of one commit and its tree, with a bitmap that tells the truth about them, is shipped as it is |
| Keys.IncrementInPlace | mizzle/src/backend/kv/keys.rs:122-131 | The reverse loop with carry and truncation computes the successor used as a bound |
| Keys.RangeIsPrefix | mizzle/src/backend/kv/keys.rs:122-131 | A key lies between a prefix and its successor if and only if it starts with the prefix |
| Keys.RangeExactIff | mizzle/src/backend/kv/keys.rs:117-131 | The range is the prefix range if and only if the prefix has a byte below 0xFF; otherwise it holds the prefix alone |
| Keys.RefRangeIsExact | mizzle/src/backend/kv/keys.rs:59-71 | For every repository id, the scan meets exactly that repository's ref keys |
| Keys.ParentRangeIsExact | mizzle/src/backend/kv/keys.rs:102-115 | For every repository and commit, the scan meets exactly the keys of that commit |
| Keys.BigEndianOrder | mizzle/src/backend/kv/keys.rs:92-99 | Big-endian encoding keeps order and is injective |
| KvObjects.OidRoundTrip | mizzle/src/backend/kv/graph.rs:168-177 | An id written as twenty bytes is read back |
| KvObjects.ParKeyInjective | mizzle/src/backend/kv/keys.rs:92-99 | Parent keys tell commits and positions apart and sort by position |
| KvObjects.ParentsRoundTrip | mizzle/src/backend/kv/objects.rs:204-209 | Scanning returns a commit's parents in order if and only if there are at most 65536 of them |
| KvObjects.IngestOne | mizzle/src/backend/kv/objects.rs:270-288 | Writing one object leaves every other commit's parents and every other object as they were |
| KvObjects.Ingest | mizzle/src/backend/kv/objects.rs:239-296 | Afterwards the key space stores the old history plus the pack's, each object reads back with its kind and bytes (the last one of an id), and no repository's refs and no other repository's keys changed |
| KvObjects.AddedIs | mizzle/src/backend/kv/objects.rs:199-217 | The history after ingest has the parents of the pack's commits, and elsewhere what was there before |
| KvObjects.FetchParentsIsSucc | mizzle/src/backend/kv/graph.rs:153-182 | The scan gives the walks the parents of the stored graph, exactly for commits of at most 65536 parents |
| Refs.SqlUpdateRefs | mizzle/src/backend/sql/refs.rs:81-135 | Carries out the contract: the whole batch in order, or nothing |
| Refs.KvUpdateRefs | mizzle/src/backend/kv/refs.rs:100-150 | The whole batch or nothing, on the encoded keys, leaving every other repository's refs, and every repository's history, objects and HEAD, alone |
| Refs.KvKeepsContractIff | mizzle/src/backend/mod.rs:192-207 | The KV backend agrees with the contract on success and on the final refs if and only if it refuses or no update is from null to null; batches may name a ref twice |
| Refs.BackendsAgree | mizzle/src/backend/mod.rs:192-207 | Without an update from null to null, both do the same to every batch |
| Refs.BatchPassesIff | mizzle/src/backend/mod.rs:192-207 | A batch passes if and only if each update expects what its ref holds after the updates before it, and, by the contract, none is from null to null; every ref then holds what was last written to it |
| Refs.BothNullDiverges | mizzle/src/backend/kv/refs.rs:121-136 | Deleting an absent ref from null is accepted by KV and refused by the contract |
| Refs.RefKeyInjective | mizzle/src/backend/kv/keys.rs:50-56 | Keys tell repositories and names apart |
| Refs.ListRefs | mizzle/src/backend/kv/refs.rs:18-64 | Lists each ref once with its value, in name order, and fails if and only if a name is not UTF-8; HEAD is the ref that the repository's entry names, or `refs/heads/main` without a valid entry, or nothing if there is no such ref |
| RefTransactions.InterleavingIsSerial | mizzle/src/backend/kv/refs.rs:100-150 | After any interleaving of locking transactions, the refs are those of the committed batches applied one after the other |
| RefTransactions.StepKeepsInv | mizzle/src/backend/kv/txn.rs:26-37 | No step of one transaction invalidates the checks another has made, and no lock outlives its transaction |
| RefTransactions.EditsFormChain | mizzle/src/backend/kv/refs.rs:112-146 | No lost update: the successful edits of each ref start where the previous one ended |
| RefTransactions.RivalsCannotBothWin | mizzle/src/backend/mod.rs:195-207 | Two successful edits from the same old value have an edit between them that restored it |
| RefTransactions.NoLostUpdates | mizzle/src/backend/kv/refs.rs:100-150 | Both laws hold of what any interleaving of transactions has committed |
| RefTransactions.CommitIsAtomic | mizzle/src/backend/kv/txn.rs:26-37 | A commit applies its whole batch to the refs of that moment, and no other step changes a ref |
| RefTransactions.LoneBatchCommitsIff | mizzle/src/backend/kv/refs.rs:100-150 | While nobody else locks a ref of its batch, a transaction that is left alone runs to its commit if and only if its batch passes on the committed refs |
| CacheKeys.SortedIff | mizzle/src/backend/pack_cache.rs:45-49 | Sorting makes lists equal exactly when they are permutations of each other |
| CacheKeys.KeyIff | mizzle/src/backend/pack_cache.rs:41-70 | Among requests with equally many wants, keys agree if and only if repository, wants, haves (up to order) and options agree, where no depth and depth zero are one option |
| CacheKeys.KeysCollide | mizzle/src/backend/pack_cache.rs:43-57 | A request for one id that starts with a zero byte shares its key with a request that wants nothing and has one id |
| CacheKeys.KeysSeparate | mizzle/src/backend/pack_cache.rs:43-57 | Requests with different numbers of wants have different keys if no want of the longer one starts with a zero byte |
| CacheKeys.LoneWantCollidesIff | mizzle/src/backend/pack_cache.rs:43-57 | A request for one id without haves shares its key with one of another number of wants if and only if the id starts with a zero byte |
| PackCache.NeededIsStable | mizzle/src/backend/pack_cache.rs:3-8 | A request for stored ids, naming stored trees, selects the same objects however the store grows |
| PackCache.FreshIsStableIff | mizzle/src/backend/pack_cache.rs:3-8 | A request gives the same pack on every closed growth of the store if and only if its wants, and the trees that wanted blobs name, are stored |
| PackCache.CommitsNameStored | mizzle/src/backend/pack_cache.rs:3-8 | For requests for commits, the conditions are that the ids are stored |
| PackCache.CacheIsCoherentIff | mizzle/src/backend/pack_cache.rs:76-100 | After any past of ingests and builds in any number of repositories, with files that cannot be read or created or whose writing breaks off, every later build answers as a fresh one in all continuations without broken writes and colliding keys if and only if no cached file is cut |
| PackCache.ZeroFreeCacheIsCoherentIff | mizzle/src/backend/pack_cache.rs:76-100 | The same for runs in which no wanted id starts with a zero byte |
| PackCache.CacheIsCoherent | mizzle/src/backend/kv/build_pack.rs:34-103 | From an empty cache, if no writing breaks off and no keys collide, every answer, hit or miss, is what a fresh build in that repository would give at that moment |
| PackCache.CutWriteIsServed | mizzle/src/backend/pack_cache.rs:81-100 | A build whose writing breaks off is answered whole, and the next such build gets the cut file |
| PackCache.CutIsRepairedIff | mizzle/src/backend/pack_cache.rs:76-100 | A cut file stays until a build of its key fails to read it and writes it to the end; until then it is served whenever it can be read |
| PackCache.MissingWantSpoilsEntry | mizzle/src/backend/kv/build_pack.rs:87-103 | In any closed store: an entry built before one of its wants arrived is served without it afterwards |
| PushPipeline.PreliminaryIsOptimistic | mizzle-proto/src/receive.rs:14-22 | In both classifications a null old id is a creation and otherwise a null new id a deletion; the cheap one errs only in taking a force push for a fast-forward |
| PushPipeline.Server.BuildPushRefs | mizzle/src/serve.rs:101-117 | Classifies every update, in order |
| PushPipeline.Server.RecvPackPost | mizzle/src/serve.rs:147-305 | Repository and events after the HTTP handler, on every outcome |
| PushPipeline.Server.ServeReceivePack | mizzle/src/serve.rs:727-854 | Repository and events after the SSH session, on every outcome |
| PushPipeline.SshIsSafe | mizzle/src/serve.rs:757-853 | Refs move exactly when all checks and comparisons pass, once, as the batch says; a written pack is rolled back, once, exactly when it is turned down; the notification follows the move and comes at most once |
| PushPipeline.HttpIsSafeIff | mizzle/src/serve.rs:220-297 | The same holds over HTTP if and only if the push is not one without updates that the full check refuses |
| PushPipeline.RefusedPushIsAnnounced | mizzle/src/serve.rs:220-297 | Such a push is rolled back and then announced |
| PushPipeline.SameRepository | mizzle/src/serve.rs:727-854 | Whatever is pushed, both transports leave the same repository |
| PushPipeline.ChecksSeePack | mizzle/src/serve.rs:163-218 | The first check is given the kinds without the store, the second the kinds on the store with the commits of the pack, and that store |
| PushPipeline.PushOutcome | mizzle/src/serve.rs:172-231 | The repository after every push: an approved one leaves the commits of its pack stored, whether or not its refs move, and the refs of its batch if it passes; one that is turned down leaves them only if a rollback removes nothing; any other changes nothing |
| PushPipeline.PushIsAnnounced | mizzle/src/serve.rs:253-297 | Which pushes move refs and are announced, and as what: over HTTP by the kinds the forge was given, over SSH by those on the store of that moment |
| PushPipeline.KindIsStableIff | mizzle/src/serve.rs:837-839 | No addition to the store can change the classification of an update if and only if it is no force push or its new tip's history is all stored |
| PushPipeline.TransportsAgreeIff | mizzle/src/serve.rs:835-850 | Both transports do and announce the same, whatever others add meanwhile, if and only if the push is not a refused one without updates, and, if it is accepted and announced, none of its force pushes has a history that is not all stored |
| PushPipeline.ForcePushAnnouncedAsFastForward | mizzle/src/serve.rs:835-850 | A push approved as a force push, whose missing parent arrives meanwhile, is announced as a fast-forward over SSH |
| PushPipeline.NullUpdateIsAnnounced | mizzle/src/receive.rs:54-73 | An update from null to null of an absent ref is announced on the KV backend and refused by the contract |
| ConcurrentPushes.StepKeepsInv | mizzle/src/serve.rs:147-305 | No step of any push, over either transport, breaks what holds of the others |
| ConcurrentPushes.EveryRunIsSafe | mizzle/src/serve.rs:727-854 | In every interleaving of pushes on a changing store, under the contract's or the KV backend's test, the refs are the outcome of the batches of the pushes that moved them, in that order, and every push keeps the pipeline's rules |
| ConcurrentPushes.NoValueWithoutConsent | mizzle/src/serve.rs:207-218 | A value that a ref did not hold at first was put there by a push that passed every check, named ref and value, and kept its pack |
| ConcurrentPushes.LonePushIsPipeline | mizzle/src/serve.rs:147-305 | A push that runs alone is a run of this model with the refs, moves, rollbacks and announcements of the handler of its transport |
| ReceiveRequest.ReadReceiveRequest | mizzle-proto/src/receive.rs:34-87 | The reading loop with its error cases computes the parse that the laws below are about |
| ReceiveRequest.RequestRoundTrip | mizzle-proto/src/receive.rs:34-87 | Parsing undoes encoding for any commands, capabilities and pack, leaves the pack unread, and fails exactly beyond the limit |
| ReceiveRequest.AcceptedIff | mizzle-proto/src/receive.rs:42-87 | An input is accepted, with these updates and this rest, if and only if it is pkt-lines and a flush packet and the rest, no line is a malformed command, and the updates are the commands in order and within the limit |
| ReceiveRequest.IgnoredIff | mizzle-proto/src/receive.rs:69-73 | A line is passed over if and only if it has fewer than two spaces |
| ReceiveRequest.CommandOf | mizzle-proto/src/receive.rs:69-82 | Three fields make an update with those ids and that name, unless an id is malformed or the name is not UTF-8 |
| ReceiveRequest.SeenIsSentIff | mizzle-proto/src/receive.rs:61-67 | The commands come back unchanged if and only if the first refname has no NUL byte |
| ReceiveRequest.PackIsNotRead | mizzle-proto/src/receive.rs:31-33 | Any accepted input is accepted in the same way with any other pack behind it |
| ReceiveRequest.LimitHolds | mizzle-proto/src/receive.rs:82-82 | No accepted request exceeds the limit or holds a refname that is not UTF-8 |
| ReceiveRequest.OidHexRoundTrip | mizzle-proto/src/receive.rs:74-75 | Forty hexadecimal digits give the id back |
| ReceiveRequest.OidFromHexIff | mizzle-proto/src/receive.rs:74-75 | An id is read from exactly forty hexadecimal digits, their case does not matter, and forty zeros are the null id |
| ReceiveRequest.NumberRoundTrip | mizzle-proto/src/receive.rs:43-45 | The four-digit length field gives every length back, also with a plus sign for the first digit |
| ShallowRequests.PassedOverLines | mizzle-proto/src/receive.rs:61-73 | Lines that are no commands change nothing, except that what follows is not the first line |
| ShallowRequests.CommandsComeBackIff | mizzle-proto/src/receive.rs:61-82 | Behind any such lines, the commands come back as sent if and only if the limit allows them, the names are UTF-8, and the first name has no NUL byte, or, behind at least one such line, no capabilities are sent |
| ShallowRequests.ShallowPush | mizzle-proto/src/receive.rs:61-67 | A push from a shallow clone updates a ref whose name ends in a NUL byte and the capabilities |
| Signatures.StripGpgsig | mizzle/src/sigverify.rs:19-52 | The line loop with its two flags computes the stripped text that the laws below are about |
| Signatures.StripDropsSignatures | mizzle/src/sigverify.rs:19-52 | In literal bytes: of the lines before the first blank line, exactly those are dropped that begin with `gpgsig ` or `gpgsig-sha256 `, each with the indented lines after it; the rest is kept |
| Signatures.StripDropsOpenLine | mizzle/src/sigverify.rs:19-52 | The same for a text that ends without a newline before any blank line |
| Signatures.EveryTextHasLines | mizzle/src/sigverify.rs:98-109 | Every text is of one of these two forms |
| Signatures.CommitHeadersStay | mizzle/src/sigverify.rs:43-46 | The lines `tree`, `parent`, `author` and `committer` never count as part of a signature |
| Signatures.StripUndoesSigningIff | mizzle/src/sigverify.rs:11-18 | Stripping a signed commit gives the unsigned one's result if and only if no indented line follows the signature's own lines |
| Signatures.SignedPayload | mizzle/src/sigverify.rs:19-52 | Header, signature, body strips to header, body, whatever the body contains |
| Signatures.StripIsIdempotent | mizzle/src/sigverify.rs:19-52 | Stripping twice is stripping once, on every input |
| Signatures.ChangesOnlySignedIff | mizzle/src/sigverify.rs:25-49 | A text is changed if and only if a header line is a signature, and no signature is left |
| Signatures.BodyIsKept | mizzle/src/sigverify.rs:26-33 | After the blank line every byte is kept |
| Signatures.LineFirst | mizzle/src/sigverify.rs:98-109 | The line iterator splits off exactly the first line with its terminator |

## Left out

- HTTP, SSH and TLS servers, protocol negotiation, ref advertisement, progress and logging: input and output.
- Fetch-request and ls-refs argument parsing: one-branch facts.
- The libraries: gix traversal and object parsing, sqlx, TiKV, EWAH decompression, zlib, SHA-1 and SHA-256.  They appear as parameters with a specification; a cache key is modelled by the bytes that are hashed.
- Pack bytes: a pack is the set of its objects; deltas, ordering and thin-pack rewriting are not part of this model.
- Parsing of `.bitmap` and `.rev` files: entries are given, with differences that point backwards, which the parser does not check.
- Errors of the storage layer below the operations (a failed read or commit): every operation is modelled on reads that succeed; a listing that fails in `existing_ref_tips` corresponds to an empty listing.
- The backend that runs the git command line, and file-level races of pack installation and removal in the filesystem backend.
- Reference updates of the filesystem backend, which are a gix transaction.
- `ref_diff`, `tree_diff`, signature verification, key lookup and tag signatures: dispatch to libraries or to the forge.
- Large-file storage, push certificates and receipts.
- Gitlinks: an entry that is not a tree is a leaf, and a stored object under its id is taken to be a blob.
- Garbage collection: in the cache model the store only grows, as its documentation assumes.
- CommitWalks.SqlReachableExcluding: needs an acyclic history, since the recursive query keeps duplicates and would not end on a cycle; object ids rule cycles out.
- CommitWalks.CollectAncestors: asks for a shared set that is closed and within the cap, which is what its only caller passes.
- Comparison.ConcreteComparison.NewCommits: asks for a name of the push, since the source panics on any other; answers with ids, whose parsed contents are not part of this model.
- KvBuildPack.NeededObjects: the walk's cap is the largest machine word, so its success is stated for histories no longer than that.
- PackCache.CacheIsCoherentIff: is about requests whose ids are stored when built and whose keys do not collide; `PackCache.FreshIsStableIff` and `CacheKeys.KeysCollide` show why.  A build is one step: builds that overlap, where one opens or overwrites a file that another is still writing, are not part of this model.
- CacheKeys.KeysSeparate: is a sufficient condition; `CacheKeys.LoneWantCollidesIff` is exact for a request for one id.
- PackCache.FreshIsStableIff: asks that the haves, and trees that haves which are blobs name, are stored; for commit haves the second is no matter.
- PushedCommits.NothingOldReportedIff: takes it that the null id is neither an object nor a parent, since no ref can be created at it; `PushedCommits.CoveredSuffices` does without.
- KvBuildPack.KvMatchesWalker: is about haves that are commits; `KvBuildPack.TagHaveSubtractsItself` says what happens to a tag.
- KvOptions.KvHonoursOptionsIff: compares the objects sent; the list of shallow commits, which the KV backend never sends, is the walker's boundary.
- ConcurrentPushes.EveryRunIsSafe: the object store under concurrent pushes is arbitrary at every step, so nothing is said there about which objects a rollback removes.
- ReceiveRequest.AcceptedIff: says exactly what is accepted; which error a refused input gets is fixed by the loop alone.
- ShallowRequests.CommandsComeBackIff: asks for payloads that fit the length field, and no final newline in a refname that is sent without the optional newline.
- ReceiveRequest.RequestRoundTrip: asks for payloads that fit the length field, UTF-8 refnames, and no final newline in a refname that is sent without the optional newline.
