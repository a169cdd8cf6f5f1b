# A verified model of the manuals platform

This project models the parts of the platform whose correctness is hard to see from one
function: the resumable crawl that fills a car's manual database, the organisation canvas of a
company with the access rights compiled from it, the time-window guards, the question
allowance, the parts-catalogue build, the Jalali calendar and keyset pagination. Everything is
stated over the program's own entities (nodes and upserts, frontiers and snapshots, seats and
grants, hits and nonces, catalogue rows) and proved for all inputs and all runs.

Code that updates state in place is modelled as classes and loops (`LogicalHTMLParser`,
`OrgCanvas`, `Layout`, `Account`, `InProcessLimiter`, `HitTable`, `QuestionLog`, `VehicleDb`,
`SessionTable`). Each such method is proved equal to a specification function or to a stated
property of the new state, and the promises of the program are proved about those functions.
The short handlers of `OrgCanvas` (creating, deleting and filling a seat, seating, hiring or removing
a person) are each proved equal to their edit in `OrgGraph`; the rows below name the lemmas about
those edits. Automatic induction is switched off on the lemmas, so every inductive proof is written out.

| file | subject |
|---|---|
| `Wrappers.dfy`, `Text.dfy`, `Links.dfy` | options, paths as strings, parent pointers |
| `NodeTable.dfy`, `Crawl.dfy`, `Recovery.dfy`, `Crawler.dfy` | the crawl: upsert and reconcile, frontier, crash recovery, the crawler itself |
| `Paths.dfy`, `Harvest.dfy`, `CrawlResult.dfy` | what a crawl leaves, said of paths, pages and links alone |
| `OrgGraph.dfy`, `OrgEdits.dfy`, `OrgChart.dfy`, `OrgReach.dfy`, `OrgLayout.dfy` | the canvas: edits, what each has done, the class that performs them, reach, drawing |
| `Access.dfy`, `Accounts.dfy`, `TeamRuns.dfy`, `Outcomes.dfy`, `OrgRepair.dfy` | entitlements, their compilation and a company's runs of them, what each operation opens, repair of reporting lines |
| `Windows.dfy`, `HitStore.dfy`, `StoreExact.dfy`, `Guards.dfy`, `Quota.dfy`, `Sessions.dfy` | limiters, nonces, question allowance, sessions |
| `Parts.dfy`, `Quantities.dfy`, `Catalogue.dfy`, `FrameListing.dfy`, `CataloguePaths.dfy`, `Vehicle.dfy`, `CatalogueBuilder.dfy` | the parts catalogue: pruning and emission, numbers and titles, audit, rows and their order, addresses, the database of a vehicle, the build |
| `Calendar.dfy`, `Listing.dfy` | Gregorian to Jalali, pagination |

## What the proofs found

Where the code and its own comments differ, the model follows the code.

- Crawl: the comments at `htmlparser_logical.py:490-491` and `634-635` call the snapshot
  consistent with the rows. The rows are committed first, so the table can be ahead of the
  snapshot; recovery rests on the upsert absorbing a replay (`ReplayAbsorbed`), and after a
  kill inside the final passes on reconciling twice (`ReplayThroughReconcile`). The comment at
  line 653 says a finished crawl is skipped; lines 518-519 make a finished snapshot start a
  fresh crawl over the old table, which ends in the same table (`RestartedRecoverable`).
- Canvas: a PATCH refused for its OTP flag has already emptied the person's other seat, because
  the request is not one transaction. `RefusedPatch` says for which requests and charts a refusal
  changes anything; `RefusedPatchUnseats` is an instance. `add_root_on_top` for a person who
  already has a seat fails on the one-to-one constraint and changes nothing.
- Entitlements: `sync_node_to_user` announces that admin grants are passed with
  `override_purchase`, but passes `False`. Stored layers that are not valid ids can make a
  compile widen an admin grant; `WideningExactly` gives the exact condition. In the permission
  editor a list that names nothing a person may have of a car is cleaned to the empty list, which
  reads as all of it. `PostedListHonoured` and `AdminListHonoured` say exactly which posted lists
  bound the result, for purchased cars and for cars granted beyond the purchase; so an all-layers
  admin grant cannot be narrowed, although the compiler would allow it, and a partial one is
  restored whole by a list that misses it (`PartialGrantRestored`). A manager who may pass on a car
  but none of its real layers passes on all of them (`DelegationCeiling`).
- Purchases: `KG_backend/api/access.py:215-216` says a delegated admin grant survives a change of purchase;
  `KG_backend/api/portal.py:1345` deletes every grant outside it, admin grants included. The docstring of that view
  says people can never exceed the company; an admin grant of a car that is then bought with fewer
  layers exceeds it until the seat is next compiled (`RescopeWithin`, `RescopeLeavesWider`).
- Limits: the in-process limiter and the shared store keep their promise exactly for windows up to
  an hour (`LimiterExact`, `SharedExact`); a signed request is accepted once exactly when verification takes at most
  2400 s between its epoch check and its nonce count (`SingleAcceptance`). Two racing questions
  with one left can both be refused (`RacersCanBothLose`).
- Sessions: the longest gap between uses that never loses a session is the idle window less
  TOUCH_INTERVAL; with any longer one it can be lost (`LongerGapsLose`). When requests of one
  session overlap, both clocks still bound it (`NeverPastBounds`), but a request that is late to
  write takes the session back to its own, earlier use (`LateWriteTakesBack`).
- Catalogue: telling equal sibling titles apart can itself produce an equal title
  (`RenamedSiblingsClash`), and slashes in titles can spell another row's path
  (`SlashedTitlesClash`). The build then ends in an IntegrityError and publishes nothing. The
  guards to look at first are on titles and codes alone: no two shown siblings have one title, and
  none's title goes on with a slash where another's ends (`PlainSiblingsFit`); no frame's code goes
  on with a slash where another's ends (`PlainCodesApart`). They are enough (`PlainVehicleFits`).
  Where a title or a code does go on after another, only the titles below that pair matter, and
  `BuildFitsKey` and `DbFitsKey` say exactly how.

## Model

| member | source | states |
|---|---|---|
| `NodeTable.ReplayAbsorbed` | htmlparser_logical.py:457-484 | upserting a list of rows a second time changes nothing, although some columns are first-wins and some last-wins |
| `NodeTable.PrefixAbsorbed` | htmlparser_logical.py:457-484 | rows already in the table are absorbed when they and further rows are upserted again: resuming from an older snapshot loses and adds nothing |
| `NodeTable.BatchPaths` | htmlparser_logical.py:457-484 | after a batch the table has the paths it had and those of the rows, and no other |
| `NodeTable.BatchLeaves` | htmlparser_logical.py:457-484 | by the positions of a path's rows, column by column: a stored link or source stays, else the first row that has one wins; the last parent, role, file type and content that is not null wins, the last title that is not empty, the order and depth of the last row; the root number is untouched |
| `Paths.NormExact` | htmlparser_logical.py:169-174 | normalising a path keeps its segments and nothing else, a lone dot standing for the top |
| `Paths.ParentExact` | htmlparser_logical.py:176-185 | the parent of a path is what stands before its last slash |
| `Paths.DepthIsSegments` | htmlparser_logical.py:622 | the depth of a path is the number of its segments less one |
| `Paths.AnchoredPath` | htmlparser_logical.py:615-622 | a page without a path of its own is hung one level under its referrer, whatever slashes its link text has |
| `Paths.BeforeExact` | htmlparser_logical.py:734-742 | the order in which roots are numbered is that of the first character in which two paths differ, a prefix coming first |
| `NodeTable.ReconcileAt` | htmlparser_logical.py:694-731 | the three UPDATE statements in sequence act on each row as one correction that depends only on its having a child and a page child before them |
| `NodeTable.ReconcileSettles` | htmlparser_logical.py:671-732 | the role, file type and content of each row after the corrections, from those before and from whether it has a child or a page child; no other column changes |
| `NodeTable.RootOrderFollowsPaths` | htmlparser_logical.py:734-742 | root numbers are distinct, run from 0 to count - 1 and follow the order of the paths |
| `NodeTable.ReplayThroughReconcile` | htmlparser_logical.py:648-650 | replaying the log over an already reconciled table undoes promotions, but reconciling again restores exactly the same table |
| `NodeTable.ReplayThroughFinish` | htmlparser_logical.py:648-655 | a replay over a table committed before or after the numbering of roots ends in the same finished table |
| `Crawl.AdvanceShrinks` | htmlparser_logical.py:568-574 | each turn of the loop leaves fewer pages to open, or as many and a shorter queue: it ends for every link graph |
| `Recovery.AheadOfSnapshot` | htmlparser_logical.py:633-638 | killed between the commit of rows and the commit of the snapshot, the crawl still ends in the final table |
| `Recovery.AtSnapshot` | htmlparser_logical.py:487-504 | a committed snapshot is a point to resume from |
| `Recovery.CheckpointSound` | htmlparser_logical.py:560-566 | both commits of a pause leave a recoverable disk |
| `Recovery.FinalSound` | htmlparser_logical.py:648-655 | each of the four closing commits is recoverable and the last is the final result |
| `Recovery.RestartedRecoverable` | htmlparser_logical.py:505-521 | a finished crawl that is started again crawls afresh over its own table and ends in it |
| `Recovery.RunSound` | htmlparser_logical.py:523-669 | from any recoverable disk every state one call commits is recoverable, and an undisturbed call ends with the final table and page count |
| `Recovery.ScheduleRecoverable` | htmlparser_logical.py:487-669 | every sequence of kills, pauses and restarts leaves a recoverable disk |
| `Recovery.InterruptionsAreInvisible` | htmlparser_logical.py:487-669 | after every such sequence an undisturbed call ends with the disk and the page count of one uninterrupted crawl |
| `Recovery.OpenedOnce` | htmlparser_logical.py:568-580 | no page is opened twice, none that was visited before, and only indexed files |
| `Recovery.LoopCoverage` | htmlparser_logical.py:555-646 | the loop ends having visited exactly what was visited, queued, or listed by a page it saved |
| `Recovery.LoopCount` | htmlparser_logical.py:628-631 | the page counter grows by one for each saved page |
| `Recovery.CrawlCoverage` | htmlparser_logical.py:523-646 | a whole crawl visits the index, its links and the links of saved pages, so children of excluded, dropped or unreadable pages are followed only through others |
| `Harvest.BreadthFirst` | htmlparser_logical.py:555-646 | links are taken off the queue breadth first: those queued, then those of the saved pages in the order these were saved |
| `Harvest.SavedByFirstLink` | htmlparser_logical.py:568-631 | a page is saved exactly when the first link to it saves it: the file is indexed and readable, its title is not excluded, and it has a path or a place under its referrer |
| `Harvest.RowsInOrder` | htmlparser_logical.py:584-631 | the rows of a crawl, in order: for each saved page its own row, with role, order and address of the link that opened it and re-anchored if need be, and then its DOM rows |
| `Harvest.CrawlBrings` | htmlparser_logical.py:584-631 | a whole crawl brings in every DOM row and the own row of every page it saves, and each row it brings in comes from a saved page in one of these ways |
| `CrawlResult.CrawlTable` | htmlparser_logical.py:523-669 | the table of a finished crawl: its paths are those of the rows the pages contribute, every column is settled by the positions of those rows and by what is stored below, and only roots are numbered, in path order |
| `CrawlResult.CrawlTallies` | htmlparser_logical.py:555-646 | the counters of a finished crawl are the rows it has saved and the pages it could not read |
| `CrawlResult.PausesWhenTold` | htmlparser_logical.py:558-568 | a run pauses exactly when it is told to before its last link is taken off the queue |
| `CrawlResult.CheckpointEveryTime` | htmlparser_logical.py:628-638 | whenever a run has saved another 250 pages it commits a snapshot of that moment |
| `Crawler.LogicalHTMLParser.SaveRows` | htmlparser_logical.py:457-484 | the loop of upserts leaves the table of the specification, uncommitted, and counts the rows |
| `Crawler.LogicalHTMLParser.SaveCheckpoint` | htmlparser_logical.py:487-504 | the snapshot and everything written before it are committed together |
| `Crawler.LogicalHTMLParser.LoadCheckpoint` | htmlparser_logical.py:505-521 | only a snapshot that is not marked done is resumed |
| `Crawler.LogicalHTMLParser.ReconcileFileTypes` | htmlparser_logical.py:671-732 | the three updates in place give the reconciled table |
| `Crawler.LogicalHTMLParser.NumberRoots` | htmlparser_logical.py:734-742 | clearing and numbering roots one by one, in path order, gives each root its rank |
| `Crawler.LogicalHTMLParser.VisitNext` | htmlparser_logical.py:568-646 | one turn of the loop moves the frontier and the table as specified, for every outcome of parsing |
| `Crawler.LogicalHTMLParser.Seed` | htmlparser_logical.py:537-553 | a fresh crawl saves the index page and checkpoints in one commit |
| `Crawler.LogicalHTMLParser.Checkpoint` | htmlparser_logical.py:633-638 | two commits, rows before frontier |
| `Crawler.LogicalHTMLParser.Finalise` | htmlparser_logical.py:648-655 | four commits: rows, corrections, root numbers, done marker |
| `Crawler.LogicalHTMLParser.Crawl` | htmlparser_logical.py:523-669 | a call commits exactly the states, in the order, that the recovery theorems speak of, and ends as they say |
| `Links.AcyclicRanked` | KG_backend/api/orggraph_api.py:421-430 | parent pointers without a cycle have a ranking in which every parent comes first |
| `Links.MoveKeepsAcyclic` | KG_backend/api/orggraph_api.py:421-430 | re-parenting keeps the chart free of cycles exactly when the seat is not at or above its new parent |
| `Links.SpliceKeepsAcyclic` | KG_backend/api/orggraph_api.py:338-341 | hanging the children of a deleted seat on its parent or on the root makes no cycle |
| `Links.SpliceKeepsLines` | KG_backend/api/orggraph_api.py:338-341 | who is above whom among the other seats is unchanged, the fallback root being added above a detached branch |
| `OrgGraph.PlaceKeepsForest` | KG_backend/api/orggraph_api.py:299-315 | creating a seat keeps the forest |
| `OrgGraph.DeleteKeepsForest` | KG_backend/api/orggraph_api.py:335-346 | deleting a seat and re-parenting its children keeps the forest |
| `OrgGraph.PatchKeepsForest` | KG_backend/api/orggraph_api.py:348-418 | every PATCH keeps the forest, also one that is refused half-way |
| `OrgGraph.CreateUserKeepsForest` | KG_backend/api/orggraph_api.py:484-556 | creating an account in an empty seat keeps the forest and the one-seat rule |
| `OrgGraph.ReassignKeepsForest` | KG_backend/api/orggraph.py:246-277 | moving the root seat to another person keeps the forest and the single root |
| `OrgGraph.OnTopKeepsForest` | KG_backend/api/orggraph.py:280-309 | putting a new root above the old one keeps the forest and the single root |
| `OrgGraph.SeatAllKeepsForest` | KG_backend/api/orggraph.py:324-353 | seeding a flat row of seats under a root keeps the forest |
| `OrgGraph.HireSeats` | KG_backend/api/portal.py:1464-1541 | an account the platform admin creates gets a new seat under the occupied root, and nobody else's seat changes |
| `OrgGraph.RemoveKeepsForest` | KG_backend/api/portal.py:1584-1589 | deleting an account empties the seat it held, leaves every other seat as it was and keeps the forest |
| `OrgGraph.EditKeepsForest` | KG_backend/api/orggraph_api.py:285-430 | every edit of the canvas, and every hiring, deactivation, removal or change of cap beside it, keeps an acyclic forest with at most one root, the root on top, one seat for each person and only existing accounts seated |
| `OrgGraph.RunKeepsForest` | KG_backend/api/orggraph_api.py:285-430 | every run of edits, in any order and with any arguments, keeps that invariant |
| `OrgGraph.RootStaysInRun` | KG_backend/api/orggraph_api.py:330-346 | a company that has a root has exactly one after every run of edits: no edit takes it away |
| `OrgGraph.SeedingRoots` | KG_backend/api/orggraph.py:324-353 | seeding an empty canvas makes a root |
| `OrgEdits.EditAnswers` | KG_backend/api/orggraph_api.py:285-430 | each edit is carried out exactly when the request and the chart allow it, and a refused one other than a PATCH changes nothing |
| `OrgEdits.PatchDone` | KG_backend/api/orggraph_api.py:369-418 | a PATCH that is carried out: a posted parent of an ordinary seat is its parent, a posted occupant holds this seat and no other, absent fields keep their values, and of the other seats only the person's prior one changes, which is emptied |
| `OrgEdits.PatchMoves` | KG_backend/api/orggraph_api.py:369-380 | who then stands above the moved seat is who stood at or above the new parent, and no line that does not pass the seat changes |
| `OrgEdits.CreateDone` | KG_backend/api/orggraph_api.py:299-315 | a created seat is new, empty and under the posted parent, the cap on seats is kept, and a refusal has its reason |
| `OrgEdits.DeleteDone` | KG_backend/api/orggraph_api.py:335-346 | a deleted seat is gone, its children hang on its parent or else on the root, and nobody else moves |
| `OrgEdits.CreateUserDone` | KG_backend/api/orggraph_api.py:484-556 | a new active account holds the seat it was created in, no other seat changes, and the cap on accounts is kept |
| `OrgEdits.ReassignDone` | KG_backend/api/orggraph.py:246-277 | the person holds the root seat, old or new, and no other; nobody else moves |
| `OrgEdits.OnTopDone` | KG_backend/api/orggraph.py:280-309 | the person sits in a new root, the old one is an ordinary seat under it with the same holder, and nothing else changes |
| `OrgEdits.OnTopLines` | KG_backend/api/orggraph.py:280-309 | every line of superiors stays, the new root being added on top of the old root's tree |
| `OrgEdits.SetActiveDone` | KG_backend/api/portal.py:1590-1593 | activating or deactivating an account touches no seat and no other account |
| `OrgEdits.SeedDone` | KG_backend/api/orggraph.py:324-353 | the first graph seat by seat: a root, and under it a seat for each of the others, in order |
| `OrgChart.OrgCanvas.PatchNode` | KG_backend/api/orggraph_api.py:348-418 | the checks and writes in their order, with the state each refusal leaves |
| `OrgChart.OrgCanvas.MoveRootTo` | KG_backend/api/orggraph.py:246-277 | the root seat passes to a person whose other seat is emptied first, and is made when missing |
| `OrgChart.OrgCanvas.AddRootOnTop` | KG_backend/api/orggraph.py:280-309 | the old root becomes an ordinary seat under a new one, or nothing changes when the person is already seated |
| `OrgChart.OrgCanvas.SeedGraph` | KG_backend/api/orggraph.py:324-353 | an empty graph gets one root and a flat row of seats; any other is left alone |
| `OrgChart.OrgCanvas.VacateSeats` | KG_backend/api/orggraph_api.py:394-396 | every other seat of a person is emptied and nothing else changes |
| `OrgChart.DeleteKeepsLines` | KG_backend/api/orggraph_api.py:335-346 | deleting a seat keeps every other line of superiors, the root stepping in where a line would break |
| `OrgChart.PatchAnswers` | KG_backend/api/orggraph_api.py:348-418 | a PATCH fails before it touches anything exactly when one of its checks fails, and past them only the OTP flag can refuse it |
| `OrgChart.RefusedPatch` | KG_backend/api/orggraph_api.py:369-408 | in terms of the request and the chart: a refusal leaves the chart as it was unless every check passes, the OTP flag is refused and the person named sits elsewhere |
| `OrgChart.RefusedPatchUnseats` | KG_backend/api/orggraph_api.py:394-408 | a concrete case in which it does |
| `OrgReach.Descendants` | KG_backend/api/orggraph.py:164-173 | the frontier walk finds exactly what lies below, and ends also on a stale cycle |
| `OrgReach.WouldCycle` | KG_backend/api/orggraph_api.py:421-430 | the upward walk answers true exactly when the seat is at or above its new parent |
| `OrgReach.Supervisor` | KG_backend/api/orggraph.py:220-230 | the walk up finds the holder of the nearest occupied seat above, empty seats being skipped |
| `OrgReach.WantedSupervisors` | KG_backend/api/orggraph.py:215-231 | a supervisor, or none, is wanted for each seated person and nobody else |
| `OrgReach.StoreSupervisors` | KG_backend/api/orggraph.py:232-239 | the wanted values are stored, the rest is kept, and the count is of the rows that changed |
| `OrgReach.SyncReportsTo` | KG_backend/api/orggraph.py:199-239 | afterwards the legacy relation mirrors the canvas on everyone seated |
| `OrgReach.GraphSubtreeUserIds` | KG_backend/api/orggraph.py:141-177 | the people seated below a seat, without the person themself |
| `OrgReach.SubtreeUserIds` | KG_backend/api/access.py:385-409 | everyone whose reporting chain leads to the manager, cycles or not |
| `OrgReach.CanvasToReports` | KG_backend/api/orggraph.py:199-239 | a seat below on the canvas is below in the mirrored relation |
| `OrgReach.ReportsToCanvas` | KG_backend/api/orggraph.py:199-239 | a seated person below in the mirrored relation sits below on the canvas |
| `OrgReach.ReachAgrees` | KG_backend/api/access.py:385-409 | after the mirror the two reach algorithms agree on seated people, and the mirrored relation has no cycle through any of them |
| `OrgReach.ReachEqual` | KG_backend/api/access.py:385-409 | they agree outright exactly when no unseated person still reports into the team |
| `OrgReach.VisibleScope` | KG_backend/api/orggraph_api.py:158-188 | the root sees all, a leaf nothing, others their own branch and the seat above |
| `OrgReach.SeesOwnTeam` | KG_backend/api/orggraph_api.py:158-188 | besides their own and their superior's seat a viewer sees exactly the seats of the team that reach computes, and no seat higher up |
| `OrgLayout.Layout.Place` | KG_backend/api/orggraph_api.py:140-150 | the recursion with its shared cursor places a branch inside the columns it used, level by level, apart and centred, one leaf to a column and siblings in list order |
| `OrgLayout.Layout.PlaceKids` | KG_backend/api/orggraph_api.py:145-148 | the branches of siblings stay apart and the outermost two are returned |
| `OrgLayout.Layout.Relayout` | KG_backend/api/orggraph_api.py:122-155 | every forest is drawn with seats of one level at least a column apart, each parent midway between its extreme children, and no two seats in one place; the leaves fill the first columns, one each, and of two siblings the branch of the one listed first lies to the left |
| `OrgLayout.RelayoutCompact` | KG_backend/api/orggraph_api.py:122-155 | the drawing theorem for the node list as the endpoint passes it, hidden parents counting as none |
| `Access.Keep` | KG_backend/api/access.py:521-530 | filtering a layer list keeps exactly the allowed layers, and is the identity exactly when all are allowed |
| `Access.SyncCeiling` | KG_backend/api/orggraph.py:38-89 | one compile leaves a purchased car within the company's scope and any other car within what the platform admin had granted |
| `Access.RunCeiling` | KG_backend/api/orggraph_api.py:447-474 | no sequence of permission saves and recompiles leaves that ceiling, and empty-means-all never widens it |
| `Access.WideningExactly` | KG_backend/api/orggraph.py:56-83 | for an admin grant with arbitrary stored layers: no compile can widen it if and only if those layers are none, all valid, or include every valid one |
| `Access.SyncedCompiled` | KG_backend/api/orggraph.py:38-89 | whatever a compile stores is in compiled form |
| `Access.RoundTrip` | KG_backend/api/orggraph.py:38-111 | snapshotting the grants onto the seat and compiling again restores them if and only if they are in compiled form |
| `Access.FirstPostedDecides` | KG_backend/api/orggraph_api.py:447-474 | of a posted permission list the first row of each car decides what is compiled for it |
| `Access.PostedListHonoured` | KG_backend/api/orggraph_api.py:447-474 | for every posted list and purchased car: the purchased layers the list names are given, or all when it names none, so the list bounds the result exactly when it names a purchased layer (or nothing real was purchased) |
| `Access.AdminListHonoured` | KG_backend/api/orggraph_api.py:456-471 | for every posted list and car granted beyond the purchase, whatever is stored: what is given, and that the list bounds it exactly when it shares a real layer with the grant or names every real layer |
| `Access.PartialGrantRestored` | KG_backend/api/orggraph.py:69-81 | a grant of one layer, and a posted list of another that leaves the grant whole |
| `Access.DelegationCeiling` | KG_backend/api/access.py:210-275 | a manager changes nothing about a car they hold no grantable layers of, and otherwise stays within those layers for every request exactly when there are any |
| `Outcomes.KeepAppend` | KG_backend/api/access.py:521-530 | filtering keeps the order of a layer list |
| `Outcomes.SortedRises` | KG_backend/api/access.py:266-270 | layers taken from a set are listed in strictly alphabetical order |
| `Outcomes.AppliedOutcome` | KG_backend/api/access.py:491-531 | what applying a list opens of each car: which row decides, what it stores, and which layers that opens |
| `Outcomes.CompiledOutcome` | KG_backend/api/orggraph.py:38-89 | the same for a compile of whatever list is stored on the seat, for purchased cars, for cars granted beyond the purchase and for all others |
| `Outcomes.CleanedRows` | KG_backend/api/orggraph_api.py:447-471 | what the permission editor stores of a posted list: the rows of the cars it covers, each with the layers it covers |
| `Outcomes.DelegationOutcome` | KG_backend/api/access.py:231-275 | what delegation leaves of each car: outside the manager's reach what was there; within it the first row that names no layers or one in reach decides, gives those it names within reach or all of them, and is an admin row exactly outside the purchase; without such a row the car is closed |
| `Outcomes.StepOutcome` | KG_backend/api/access.py:231-275 | what one compile, delegation or direct grant does to each person's cars; nobody else's change |
| `TeamRuns.TeamCeiling` | KG_backend/api/orggraph.py:38-89 | over every run of compiles, delegations, direct grants by the platform admin and changes of purchase everybody stays, car by car, within what is bought now and what the platform admin has granted of it to somebody so far; a car that is neither is closed |
| `TeamRuns.RescopeWithin` | KG_backend/api/portal.py:1328-1354 | a change of purchase closes every car it does not post to everybody; of a posted car everybody keeps their row, which opens exactly the layers stated, and a person stays within the layers its first row asks for exactly when they held no admin row of it, or one whose layers are asked for |
| `TeamRuns.RescopeLeavesWider` | KG_backend/api/portal.py:1342-1345 | an admin row that exceeds the new purchase of its car |
| `TeamRuns.BuyAllKeeps` | KG_backend/api/portal.py:415-426 | buying all cars keeps what was bought, buys every other car whole and changes nobody's rows |
| `TeamRuns.StorePurchase` | KG_backend/api/portal.py:1331-1337 | the first posted row of each known car is stored, with its real layers |
| `Accounts.Account.ApplyUserAccess` | KG_backend/api/access.py:491-531 | the grant rows are replaced by the first admissible request for each car |
| `Accounts.Account.SyncNodeToUser` | KG_backend/api/orggraph.py:38-89 | the seat's permission is compiled over the grants the person has now |
| `Accounts.Account.SyncUserToNode` | KG_backend/api/orggraph.py:92-111 | the seat then lists exactly the person's grants and AI flag |
| `Accounts.Account.SavePermission` | KG_backend/api/orggraph_api.py:435-475 | the cleaned list is stored on the seat and compiled |
| `Accounts.Account.MirrorAndCompile` | KG_backend/api/orggraph.py:38-111 | both directions in turn leave grants and AI flag as they were |
| `Accounts.GrantableCars` | KG_backend/api/access.py:210-228 | a manager may pass on the purchased cars with the purchased layers, and beyond the purchase only cars granted to them directly |
| `Accounts.Account.ApplyManagedAccess` | KG_backend/api/access.py:231-275 | grants outside the manager's reach stay, and each car within it ends with the first admissible request or none |
| `Accounts.UserPackageSet` | KG_backend/api/access.py:129-142 | the packages of a person are those of the cars they can open, no more and no fewer |
| `OrgRepair.FindValidSupervisor` | KG_backend/api/access.py:412-427 | the nearest eligible superior on the chain, and none exactly when no step of it is eligible, cycles included |
| `OrgRepair.TopRanked` | KG_backend/api/access.py:441-444 | a top-ranked active member, of several the one listed first |
| `OrgRepair.NewSupervisor` | KG_backend/api/access.py:450-457 | a violating member gets the nearest eligible superior, else the top if it outranks them, else nobody |
| `OrgRepair.EnforceOrgConsistency` | KG_backend/api/access.py:430-463 | one pass repairs exactly the violations, leaves the rest alone, changes nothing when there are none, and returns how many rows it changed |
| `OrgRepair.RepairedUpward` | KG_backend/api/access.py:430-463 | after a pass every in-company supervisor strictly outranks the report, and a pass over such a company is the identity |
| `OrgRepair.UpwardAcyclic` | KG_backend/api/access.py:430-463 | strictly rising ranks leave no cycle of reporting |
| `Windows.SinceIsDropOld` | KG_backend/api/ratelimit.py:113-150 | on recorded hits the shared store's query and the in-process popping see the same live hits |
| `Windows.SpacedMeansBounded` | KG_backend/api/ratelimit.py:133-150 | spaced hits put at most the limit into any closed interval of the window's length |
| `Windows.RunFaithful` | KG_backend/api/ratelimit.py:75-150 | sweeps and pops of any run leave a bucket that holds every hit still inside the window |
| `Windows.LimiterExact` | KG_backend/api/ratelimit.py:75-150 | every run keeps within the limit in every window exactly for windows up to the hour the sweep remembers |
| `Windows.LongWindowLeaks` | KG_backend/api/ratelimit.py:75-87 | for every longer window a run that lets one hit too many through |
| `Windows.RetryAccepted` | KG_backend/api/ratelimit.py:133-150 | a refused client that waits as told, nothing else of its key being accepted, is let through, whatever the sweeps do |
| `Windows.RetryHonoured` | KG_backend/api/ratelimit.py:133-150 | a refused client that waits as told is let through, for every run of a limiter that started empty |
| `Windows.AdmitsExactly` | KG_backend/api/ratelimit.py:133-150 | in every run a call is let through exactly when fewer than its limit were in the window that ends with it |
| `Windows.RetryTight` | KG_backend/api/ratelimit.py:145-148 | the retry time is tight: a client that comes back a second earlier is refused again, even if nobody else came |
| `HitStore.AcceptedApart` | KG_backend/api/contentguard.py:45-69 | two accepted requests with one nonce are more than an hour apart, whatever else uses the table |
| `HitStore.SingleAcceptance` | KG_backend/api/shield.py:137-156 | a request signed for an epoch and a nonce is accepted at most once in every run exactly when no verification takes longer than the memory less the validity |
| `HitStore.SharedLimit` | KG_backend/api/ratelimit.py:113-130 | across all workers no window of a client, up to an hour, holds more admitted requests than its limit |
| `HitStore.SharedExact` | KG_backend/api/ratelimit.py:113-130 | every run keeps that promise exactly for windows up to the hour after which rows are deleted |
| `HitStore.CleanedEarlyLeaks` | KG_backend/api/ratelimit.py:118-119 | for every longer window a run that admits one request too many |
| `HitStore.SharedRetryHonoured` | KG_backend/api/ratelimit.py:113-130 | the shared store's retry times are honoured as well, for every run from an empty table |
| `StoreExact.SharedAdmitsExactly` | KG_backend/api/ratelimit.py:113-130 | across all workers a client is admitted exactly when fewer than its limit of its requests were admitted in the window that ends now |
| `StoreExact.SharedRetryTight` | KG_backend/api/ratelimit.py:124-128 | the shared store's retry times are tight to the second as well |
| `StoreExact.CountsExactly` | KG_backend/api/contentguard.py:45-69 | a reader's count is the number of their hits of the last hour, whatever was deleted meanwhile |
| `StoreExact.VerifiesExactly` | KG_backend/api/shield.py:137-156 | in every run a signed request is answered by the first check it fails, and past them all is a replay exactly when its nonce came up in such a request within the last hour |
| `StoreExact.InTimeFor` | KG_backend/api/shield.py:141-147 | a request stamped with the epoch of its time is in time until the end of the next epoch |
| `Guards.PopOld` | KG_backend/api/ratelimit.py:143-145 | the popping loop drops exactly the leading stale hits |
| `Guards.InProcessLimiter.Sweep` | KG_backend/api/ratelimit.py:75-87 | at most once a minute stale hits and empty buckets go |
| `Guards.InProcessLimiter.Allow` | KG_backend/api/ratelimit.py:133-150 | one call answers, and leaves the state, as the run theorems assume |
| `Guards.HitTable.AllowShared` | KG_backend/api/ratelimit.py:113-130 | one transaction on the shared table answers, cleans and records as the run theorems assume |
| `Guards.HitTable.CountAndAdd` | KG_backend/api/contentguard.py:45-69 | counts the last hour's hits of a key and adds one |
| `Guards.HitTable.Verify` | KG_backend/api/shield.py:137-156 | the checks in their order; only a well-formed, timely, correctly signed request uses up its nonce |
| `Quota.RecountSafe` | KG_backend/api/quota.py:83-90 | a recount that accepts finds room under the limit for everything accepted that now counts |
| `Quota.NextInvariant` | KG_backend/api/quota.py:41-90 | every step of every request, from loading its company on, every tick and every reset keeps the invariant |
| `Quota.NeverOverLimit` | KG_backend/api/quota.py:62-90 | in every interleaving the accepted questions that count never exceed the limit |
| `Quota.EveryPlanKept` | KG_backend/api/quota.py:17-38 | every company has a plan of the table, and no interleaving ever takes a user past that plan's number of accepted questions since the last reset, within 30 days for the two subscriptions |
| `Quota.StartInvariant` | KG_backend/api/quota.py:62-90 | an empty log satisfies the invariant |
| `Quota.RacersCanBothLose` | KG_backend/api/quota.py:81-89 | an interleaving in which both racers for the last question are turned away |
| `Quota.AloneAnswered` | KG_backend/api/quota.py:62-90 | a question that meets no other is accepted exactly when fewer than the limit count, and leaves its row only then |
| `Quota.QuestionLog.Ask` | KG_backend/api/quota.py:62-90 | one request, with whatever others log between its check and its recount: when it is accepted and what stays in the log |
| `Sessions.NeverPastBounds` | KG_backend/api/models.py:344-404 | however the loads, clock readings and writes of its requests and the prunes interleave, a session is never live past its ceiling or past the idle window after its recorded last use |
| `Sessions.SequentialRuns` | KG_backend/api/portal.py:276-284 | requests that follow one another are among those interleavings and leave the row that the step by step run says |
| `Sessions.LateWriteTakesBack` | KG_backend/api/models.py:392-399 | an interleaving in which a late write replaces a later use by an earlier one |
| `Sessions.RegularUseKeepsAlive` | KG_backend/api/models.py:366-399 | used at gaps of at most the idle window less TOUCH_INTERVAL a session is accepted every time until the ceiling, though most uses are not written |
| `Sessions.LongerGapsLose` | KG_backend/api/models.py:380-399 | with any longer gap two uses can find the session expired |
| `Sessions.SessionTable.Issue` | KG_backend/api/models.py:344-364 | a new row bounded by both clocks |
| `Sessions.SessionTable.Resolve` | KG_backend/api/models.py:366-378 | a row is answered exactly while it is live, and whenever one is answered neither its ceiling nor the idle window after its last use is over |
| `Sessions.SessionTable.Touch` | KG_backend/api/models.py:380-399 | one update of both fields from the row as it was loaded, or none within TOUCH_INTERVAL or when the row is gone, and no other row changes |
| `Sessions.SessionTable.Request` | KG_backend/api/portal.py:276-284 | a request that overlaps no other is one step of the session's run and touches no other session |
| `Sessions.SessionTable.Prune` | KG_backend/api/models.py:401-404 | exactly the expired rows go, and their number is returned |
| `Parts.Classify` | KG_backend/api/partsingest.py:561-592 | a row is published exactly when it is a cross reference or has a part number, a readable quantity and a name; the reason says what is missing |
| `Quantities.QuantityExact` | KG_backend/api/partsingest.py:60-61 | which raw strings are published as which quantity: n below 1000 in decimal behind any zeros, or behind an X in at most three digits; a lone X as required; and nothing else |
| `Quantities.QuantityReads` | KG_backend/api/partsingest.py:575-592 | the usual notations of every n below 1000 are read as n |
| `Quantities.WrittenOut` | KG_backend/api/partsingest.py:1163-1176 | the decimal notation of a number: digits whose places add up to it, with no zero in front |
| `Quantities.NamesakesApart` | KG_backend/api/partsingest.py:1163-1176 | kept siblings of one label are shown under one title exactly when they have one group id |
| `Quantities.TitleForm` | KG_backend/api/partsingest.py:1163-1176 | the title of every row: its label, or with a kept namesake the label and its group id or its own id in decimal |
| `Parts.KeptRowsInOrder` | KG_backend/api/partsingest.py:1133-1136 | the kept rows of a section are exactly its publishable ones, in their order |
| `Parts.KeptSectionsInOrder` | KG_backend/api/partsingest.py:1118-1148 | the kept sections of a page are exactly those with an image and a publishable row, in their order and with all such rows |
| `Parts.ChainDistinct` | KG_backend/api/partsingest.py:1178-1240 | a path of emission meets no row twice, even when some parents form a cycle, so emission ends |
| `Parts.EmittedPaths` | KG_backend/api/partsingest.py:1153-1253 | emission visits exactly the kept rows reached from the top |
| `Parts.EmittedOnce` | KG_backend/api/partsingest.py:1153-1253 | each kept row reached from the top is emitted once, and a kept row under a missing parent or on a cycle not at all |
| `Parts.KeptHasKid` | KG_backend/api/partsingest.py:1153-1161 | a kept row that is not served has a kept child |
| `Catalogue.BuildPassesAudit` | KG_backend/api/partsingest.py:1153-1253 | for every staged tree the rows of one frame, if the primary key lets them through, leave no childless folder, no empty group or section, no incomplete row and no two equal siblings |
| `Catalogue.LeafPublishedOnce` | KG_backend/api/partsingest.py:1118-1253 | a servable leaf under the top gets one node and one group with all its kept sections, which name each other, and no other row gets a group |
| `FrameListing.ServedExactly` | KG_backend/api/partsingest.py:1118-1148 | served are exactly the leaves with a good page and, in a section with an image, a row to publish |
| `FrameListing.EmittedInOrder` | KG_backend/api/partsingest.py:1178-1240 | rows are emitted in document order, each in front of what hangs below it |
| `FrameListing.OneWay` | KG_backend/api/partsingest.py:1178-1240 | which fixes the order: two paths precede one another in one way only |
| `FrameListing.RowsTell` | KG_backend/api/partsingest.py:1178-1199 | what each row says of the staged row it shows: title, depth, path, parent row, whether it is a leaf with a group |
| `FrameListing.GroupsInOrder` | KG_backend/api/partsingest.py:1200-1211 | group ids run from the first free one in the order of the rows, and each row and its group name one another |
| `CataloguePaths.BuildFitsKey` | KG_backend/api/partsingest.py:1163-1195 | whatever the titles, the build of a frame gets past the primary key if and only if sibling titles differ and, where one goes on with a slash after another, no titles below the two make up for it |
| `CataloguePaths.PlainSiblingsFit` | KG_backend/api/partsingest.py:1163-1195 | when sibling titles differ and none goes on with a slash after another, the frame gets past the primary key |
| `CataloguePaths.KeyedSiblings` | KG_backend/api/partsingest.py:1163-1195 | whatever the titles, two siblings shown under one title stop the build |
| `CataloguePaths.RenamedSiblingsClash` | KG_backend/api/partsingest.py:1163-1176 | a tree whose renamed siblings clash, so that its build does not get past the key |
| `CataloguePaths.SlashedTitlesClash` | KG_backend/api/partsingest.py:1178-1195 | a tree whose siblings all differ and whose slashes give two leaves one path |
| `CataloguePaths.BuildIsTree` | KG_backend/api/partsingest.py:1178-1253 | the rows of a finished build form one tree under the frame's root, with paths and depths that fit |
| `CataloguePaths.WalkIsBreadcrumb` | KG_backend/api/parts.py:343-353 | walking down by titles reaches a row exactly when the titles are its breadcrumb |
| `CataloguePaths.LeafIsFound` | KG_backend/api/parts.py:343-356 | every servable leaf under the top can be opened by the titles on the way to it |
| `Vehicle.FrameOfDb` | KG_backend/api/parts.py:332-353 | asked for one frame, the database of a vehicle answers with exactly the rows and groups that frame's build inserted |
| `Vehicle.DbPassesAudit` | KG_backend/api/partsingest.py:1386-1427 | the whole database of a vehicle, once the primary key has let it through, passes every gate of the audit, whatever was staged |
| `Vehicle.LeafPublishedOnceInDb` | KG_backend/api/partsingest.py:1106-1253 | among all frames a servable leaf under the top of its own has one node and one group, and nothing else has a group |
| `Vehicle.GroupsNumbered` | KG_backend/api/partsingest.py:1106-1211 | group ids run on from frame to frame without a gap, so none is used twice |
| `Vehicle.KeyOfDb` | KG_backend/api/partsingest.py:1106-1253 | the key holds in the whole database if and only if it holds in each frame and no two frames share a path |
| `Vehicle.DbFitsKey` | KG_backend/api/partsingest.py:1106-1253 | a vehicle gets past the primary key if and only if each frame does and, where a frame's code goes on with a slash after another's, no titles below the two make up for it |
| `Vehicle.PlainCodesApart` | KG_backend/api/partsingest.py:1106-1195 | frames of which neither code goes on with a slash after the other's cannot share a path |
| `Vehicle.PlainVehicleFits` | KG_backend/api/partsingest.py:1106-1253 | when that holds of all siblings and all codes, the vehicle gets past the primary key |
| `Vehicle.LeafIsFoundInDb` | KG_backend/api/parts.py:339-356 | in the database of a vehicle every servable leaf under the top of its frame opens by its titles |
| `CatalogueBuilder.VehicleDb.ServableLeaves` | KG_backend/api/partsingest.py:1118-1148 | the loop over the tree keeps exactly the servable leaves and their sections |
| `CatalogueBuilder.VehicleDb.KeepIds` | KG_backend/api/partsingest.py:1153-1161 | walking up from each leaf collects exactly the rows at or above one, past missing parents and cycles |
| `CatalogueBuilder.VehicleDb.DisplayTitles` | KG_backend/api/partsingest.py:1163-1176 | a row without a kept sibling of its label keeps the label, any other is told apart by its gid or tree id |
| `CatalogueBuilder.VehicleDb.EmitRow` | KG_backend/api/partsingest.py:1178-1211 | one node and, for a leaf, its group with the next free id |
| `CatalogueBuilder.VehicleDb.Emit` | KG_backend/api/partsingest.py:1178-1240 | the recursion ends and inserts the rows of its branch in order, or fails exactly on a repeated path |
| `CatalogueBuilder.VehicleDb.BuildFrame` | KG_backend/api/partsingest.py:1106-1253 | one frame adds exactly its rows and groups behind those of earlier frames, or fails exactly when two rows share a path |
| `CatalogueBuilder.VehicleDb.BuildVehicle` | KG_backend/api/partsingest.py:1088-1253 | the loop over the frames leaves exactly their rows and groups, or fails exactly when two rows of the vehicle share a path |
| `CatalogueBuilder.Resolve` | KG_backend/api/parts.py:339-353 | the segment loop, over the rows of one configuration, is the walk from its root |
| `CatalogueBuilder.TitleChain` | KG_backend/api/parts.py:123-136 | the loop upwards, by id in the whole database, collects the breadcrumb within the row's own frame |
| `Calendar.NextDayNumber` | KG_backend/api/reporting.py:50-62 | the day count of the conversion rises by one from each Gregorian day to the next, over month, leap and century ends |
| `Calendar.NumberRoundTrip` | KG_backend/api/reporting.py:60-69 | reading a Jalali date off a day count and counting it back is the identity, and the date is valid |
| `Calendar.JalaliRoundTrip` | KG_backend/api/reporting.py:60-69 | every valid Jalali date is read off its own count |
| `Calendar.NextDayToNextDay` | KG_backend/api/reporting.py:50-69 | every valid Gregorian date from year 1 converts to a valid Jalali date, and consecutive days to consecutive days |
| `Calendar.OrderKept` | KG_backend/api/reporting.py:50-69 | the conversion keeps strict order, so it is one-to-one |
| `Calendar.EveryJalaliDate` | KG_backend/api/reporting.py:50-69 | a Jalali date is the image of exactly one Gregorian date from that of 1 January of year 1 on, and of none before |
| `Calendar.KnownDays` | KG_backend/api/reporting.py:50-69 | the conversion of well-known days |
| `Listing.ClampLimit` | KG_backend/api/listing.py:32-42 | a limit within 1 to 100 is kept, a greater one becomes 100, and anything else the default |
| `Listing.PageSound` | KG_backend/api/listing.py:82-92 | a page is in order, beyond its cursor, no longer than its limit, skips nothing before its last row, and has a cursor exactly when more is left |
| `Listing.FollowSound` | KG_backend/api/listing.py:70-92 | however the table changes between fetches, rows come in strict order and a walk to the end has every row that was there throughout |
| `Listing.UnfinishedIsFull` | KG_backend/api/listing.py:70-92 | a walk that is not finished has returned every row it asked for, so it ends once it has asked for more than there are |
| `Listing.PaginationUnderInserts` | KG_backend/api/listing.py:70-92 | with inserts only, every initial row is returned exactly once |

## Left out

- HTML parsing, zip extraction, images and thread pools: a page's outcome (unreadable, or rows and links) is a given function of the file. Assumed of it: a page's own row has a file type, a DOM row has no content. The model root, restored from the snapshot, is part of that function.
- The crawl's `updated_at`, its printed summary, and errors in the middle of `save_rows`; hashes of paths are taken to be injective.
- Crashes are modelled for the crawl only; storage failures and the guards' fallbacks are not.
- Labels, coordinates typed by users, phone numbers and other display data of seats; malformed ids in requests.
- OrgGraph.HireSeats: the second count that rolls back a racing creation, and the reports_to field a new account may carry, are not part of the edit.
- OrgGraph.ReassignKeepsForest: the graph that `reassign_root` makes for a company without one is a separate seeding step.
- OrgLayout.RelayoutCompact: takes the absence of cycles from the canvas invariant, and coordinates as real numbers.
- Access.RoundTrip: over the grants and the AI flag; expiry dates and root scope refresh are not part of it.
- Accounts.Account.MirrorAndCompile: for a company scope that does not change between the two directions.
- OrgRepair.EnforceOrgConsistency: the reporting chain each lookup reads is an arbitrary parameter, since rows are saved while the pass runs.
- HitStore.SharedLimit: transactions of the hits table are taken in the order of their clocks, which the code reads just before it takes the lock; so for SharedExact and SharedRetryHonoured.
- HitStore.SingleAcceptance: assumes that same order of clocks.
- TeamRuns.BuyAllKeeps: the recompile of the root that follows is a compile step of its own.
- CrawlResult.CheckpointEveryTime: for the rest of an undisturbed run; after a kill it holds of the run that resumes.
- TeamRuns.TeamCeiling: the root's own recompile after a change of purchase is a compile step like any other. Teams are modelled on values.
- Signatures and tokens: the signature check is a given outcome and a nonce identifies its request; times are real numbers.
- Guards.InProcessLimiter.Allow: for positive limits, which the decorator checks first.
- Quota.NeverOverLimit: one user, one plan for the whole run, a clock and a reset time that do not go back.
- Sessions.RegularUseKeepsAlive: for requests of one token that do not overlap; with overlapping ones a late write can end a session early (`LateWriteTakesBack`). The lifetimes stay as configured.
- Parts.Classify: digits are ASCII, as text cleaning leaves them; a failed build (IntegrityError) is an answer, the abandoned temporary file is not modelled.
- CatalogueBuilder.VehicleDb.BuildFrame: captions, labels, counters and copied image files are not part of the rows; the image gate is the staged flag.
- Display names of roles, analytics, insights, feedback, the assistant, reports and dashboards: counting queries and text with no invariant across steps.
