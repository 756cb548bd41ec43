# Verification of the WWP servers

A Dafny model of the hardest code in this repository, and proofs about it: the list, path, vector and
module code of libltdl, the G-line, map, capability, WHO, topic-burst and listing commands of the IRC
daemon, and the game lobby of the web server.  `dafny verify dfyconfig.toml` checks the whole project
with Dafny 4.11.

| file | models |
|---|---|
| `Basics.dfy`, `IrcStrings.dfy` | optional values, C strings, strcmp order; case mapping and irccmp |
| `SList.dfy` | linked lists on mutable nodes, with the destructive merge sort |
| `Paths.dfy`, `Argz.dfy` | path canonicalization; vectors of strings in one block of bytes |
| `SearchPaths.dfy`, `SearchPathRuns.dfy` | the search path and its walk; runs of setting, adding and inserting |
| `DirListings.dfy` | sorted directory listings |
| `Ltdl.dfy`, `LtdlExit.dfy`, `LtdlRuns.dfy` | handles, reference counts and loaders; the shutdown; invariants over runs |
| `Glines.dfy`, `GlineRuns.dfy` | G-line voting; safety and progress over runs |
| `MapPrinter.dfy` | the MAP command on its shared prompt buffer |
| `Caps.dfy`, `CapRuns.dfy`, `CapLines.dfy` | capability negotiation, its invariants, its replies |
| `Patricia.dfy` | the tree walk with an explicit stack |
| `Who.dfy` | the global WHO with its marks |
| `Packers.dfy` | the loops that pack lists into reply lines |
| `TopicBurst.dfy`, `TopicNet.dfy` | accepting topic bursts; flooding over a network |
| `Games.dfy` | game record, tables, sweep and listing |

Code that changes state is modelled by classes, arrays and methods with loops; each method is tied to a
function of the old state, and what the code is for is proved about that function.  Values that the code
only reads (server tree, Patricia tree, capability table) are datatypes.

Where the model takes something as given:

- Comparison callbacks of the list sort are total preorders on the nodes of the list.
- Which loader opens a file, whose exit function fails, which G-line applies to a mask, what matches a WHO
  mask, what a search callback answers and when a Patricia walk breaks off are parameters, arbitrary
  functions.
- Clocks, dates and the text of a percentage are parameters.  Messages that are sent are recorded in order.
- Capability masks are sets of table indices, so each capability has a bit of its own.  Names in the table
  are in the order of the daemon's own case mapping, in which the search compares them.
- Clients of the module table close a handle no more often than they opened it (`ModuleRuns.Permitted`).
- Assertions are compiled out, as `config.h` of the IRC server has it (line 247).
- Reply packers get names within the limits of `ircd_defs.h`.

Where code and documentation differ, the model follows the code:

- `canonicalize_path` does not remove an element of slashes alone in the middle of a path
  (`Paths.NormalFormExactly`).
- `lt_dlpath_insertdir` computes the canonical form of the directory and then inserts the directory as it
  was given (`SearchPaths.AddDirNormalFormExactly`, `SearchPaths.InsertDirNormalFormExactly`), and it
  takes the position in the path as one in the vector, so that the directory can come behind the element
  (`SearchPaths.InsertDirExactly`) or be lost (`SearchPaths.AddDirExactly`).
- The walk over a search path that ends in an element of slashes alone reads in front of its buffer
  (`SearchPaths.ReadsOutsideExactly`); setting the user path never leads to that, adding or inserting a
  directory can (`SearchPathRuns.SearchOutsideExactly`).
- A resident module in front of the list does not keep its loader at shutdown
  (`ModuleExit.LoaderSurvivesExactly`).
- A mask that is too long for a pending G-line entry is cut off, and then is not found again: no number of
  votes places it (`GlineRuns.ActedExactlyWhenFits`).
- A server at depth 31 spoils the prompt of its next sibling (`MapPrinter.MapIsRight`).
- A WHO that reaches its limit in the second phase can leave marks behind (`Who.MarksLeftExactly`); one
  that reaches it in the first goes on without a limit (`Who.TooManyExactly`).
- A game that failed, or that was closed under another name, leaves its row in `HostGames` for good
  (`Games.OrphanRunExactly`).

## Model

| member | source | states |
|---|---|---|
| `SLists.Sort` | WWP IRC server/IRC/libltdl/slist.c:306-336 | on any acyclic list and any comparison that is a total preorder, relinks the very nodes of the list into the stable sort of their sequence, and compares no more often than SortCost of the length; it terminates and touches no other node |
| `SLists.SortMerge` | WWP IRC server/IRC/libltdl/slist.c:272-297 | merging two disjoint sorted chains in place gives the chain of the merge, left first on ties, with one comparison for all nodes but the last at most |
| `SLists.Middle` | WWP IRC server/IRC/libltdl/slist.c:312-324 | the two-speed scan stops at the last node of the first half, so both halves are non-empty and differ by at most one |
| `SLists.Halve` | WWP IRC server/IRC/libltdl/slist.c:312-329 | cutting there leaves two chains that are exactly the two halves |
| `SLists.StableSortSorts` | WWP IRC server/IRC/libltdl/slist.c:299-336 | the stable sort is sorted |
| `SLists.StableSortPermutes` | WWP IRC server/IRC/libltdl/slist.c:299-336 | it holds every node exactly as often as the input: none lost, none duplicated |
| `SLists.StableSortIsStable` | WWP IRC server/IRC/libltdl/slist.c:283-287 | nodes that compare equal keep their order |
| `SLists.StableSortUnique` | WWP IRC server/IRC/libltdl/slist.c:299-336 | sorted, a permutation and stable determine the result: any such list is the stable sort |
| `SLists.MergeOfSorts` | WWP IRC server/IRC/libltdl/slist.c:272-336 | merging the stable sorts of two halves is the stable sort of the whole |
| `SLists.SortCostBound` | WWP IRC server/IRC/libltdl/slist.c:306-336 | the number of comparisons is at most n times the ceiling of the binary logarithm of n |
| `SLists.CeilLog2Least` | WWP IRC server/IRC/libltdl/slist.c:306-336 | that ceiling is the least exponent whose power of two reaches n |
| `SLists.Remove` | WWP IRC server/IRC/libltdl/slist.c:77-112 | takes the first node for which the callback answers anything out of the chain and returns that answer; the chain of the others is unchanged, and nothing changes when the callback answers nothing throughout |
| `SLists.Find` | WWP IRC server/IRC/libltdl/slist.c:117-132 | what the callback answers for the first node that it answers anything for, or nothing |
| `SLists.Concat` | WWP IRC server/IRC/libltdl/slist.c:141-158 | the chain of the one list followed by the other, null lists included |
| `SLists.Cons` | WWP IRC server/IRC/libltdl/slist.c:167-179 | the node in front of the chain |
| `SLists.Reverse` | WWP IRC server/IRC/libltdl/slist.c:222-237 | the chain of the same nodes in reverse order |
| `SLists.ChainUnique` | WWP IRC server/IRC/libltdl/slist.c:117-132 | following the links of a list reaches one sequence of nodes only |
| `Paths.CanonicalizePath` | WWP IRC server/IRC/libltdl/ltdl.c:586-645 | the in-place scan writes exactly the canonical text, stays inside its buffer and ends it with EOS |
| `Paths.CanonicalElements` | WWP IRC server/IRC/libltdl/ltdl.c:598-640 | the canonical text is the cleaned elements, leading empty ones dropped, joined by the separator |
| `Paths.NormalFormExactly` | WWP IRC server/IRC/libltdl/ltdl.c:605-634 | the result has no empty element, no doubled slash and no element that ends in a slash if and only if no all-slash element follows another kind of element |
| `Paths.BlankElementBreaksNormalForm` | WWP IRC server/IRC/libltdl/ltdl.c:607-618 | `a:/:b` becomes `a::b`: an all-slash element in the middle leaves an empty one |
| `Paths.NormalFormsAreFixed` | WWP IRC server/IRC/libltdl/ltdl.c:605-634 | a text is a fixed point of canonicalization if and only if it is in normal form |
| `Paths.IdempotentExactly` | WWP IRC server/IRC/libltdl/ltdl.c:605-634 | canonicalizing twice is canonicalizing once if and only if the result is in normal form |
| `Paths.CanonicalParts` | WWP IRC server/IRC/libltdl/ltdl.c:586-645 | for every path, the non-empty elements of the canonical text are the cleaned elements that are not empty, in order |
| `Paths.CleanExactly` | WWP IRC server/IRC/libltdl/ltdl.c:616-634 | cleaning keeps the pieces of an element between its slashes, in order, and a slash in front; it leaves one slash between two pieces and none at the end |
| `ArgzVectors.CreateSep` | WWP IRC server/IRC/libltdl/lt__argz.c:79-128 | the in-place replacement leaves the vector Sep of the string, delimiters folded |
| `ArgzVectors.SepEntries` | WWP IRC server/IRC/libltdl/lt__argz.c:96-122 | for every string the entries of that vector are its non-empty pieces, and an empty last one after a final delimiter |
| `ArgzVectors.Stringify` | WWP IRC server/IRC/libltdl/lt__argz.c:211-225 | every EOS but the last becomes the separator, in place |
| `ArgzVectors.SplitJoinExactly` | WWP IRC server/IRC/libltdl/lt__argz.c:79-225 | splitting and joining restores the string byte for byte if and only if no delimiter had to be folded |
| `ArgzVectors.NormalFormRoundTrip` | WWP IRC server/IRC/libltdl/ltdl.c:586-672 | for a path in normal form the entries are its elements and joining restores it byte for byte |
| `ArgzVectors.SearchPathRoundTrip` | WWP IRC server/IRC/libltdl/ltdl.c:586-672 | from any search path whose canonical form is normal: the entries are the cleaned non-empty elements and joining restores the canonical form |
| `ArgzVectors.EntriesOfFlat` | WWP IRC server/IRC/libltdl/lt__argz.c:177-208 | a vector of entries reads back as those entries |
| `ArgzVectors.FlatOfEntries` | WWP IRC server/IRC/libltdl/lt__argz.c:177-208 | every well-formed block is the vector of its entries |
| `ArgzVectors.Argz.Append` | WWP IRC server/IRC/libltdl/lt__argz.c:48-76 | the bytes behind the old block |
| `ArgzVectors.Argz.Insert` | WWP IRC server/IRC/libltdl/lt__argz.c:131-174 | splices the entry in at the start of the entry that contains the pointer, or appends it when there is no pointer |
| `ArgzVectors.SpliceInsertsEntry` | WWP IRC server/IRC/libltdl/lt__argz.c:145-170 | whatever offset the pointer has, also in mid-entry: the new entry comes right before the entry containing it, all others stay as they were |
| `ArgzVectors.EntryContainsOffset` | WWP IRC server/IRC/libltdl/lt__argz.c:145-150 | the entry found by walking back from an offset is the one that contains it |
| `ArgzVectors.Argz.Next` | WWP IRC server/IRC/libltdl/lt__argz.c:177-208 | the start of the following entry, or none at the end |
| `ArgzVectors.Argz.StrCmpAt` | WWP IRC server/IRC/libltdl/ltdl.c:1763 | the sign of strcmp with the entry at an offset |
| `ArgzVectors.Argz.InsertInOrder` | WWP IRC server/IRC/libltdl/ltdl.c:1750-1769 | the entries become the ordered insertion of the entry into the old ones |
| `ArgzVectors.InOrderAscending` | WWP IRC server/IRC/libltdl/ltdl.c:1758-1768 | ordered insertion keeps a vector strictly ascending in strcmp order, hence free of duplicates |
| `ArgzVectors.InOrderElems` | WWP IRC server/IRC/libltdl/ltdl.c:1758-1768 | and its set of entries grows by exactly the new one |
| `Basics.StrCmpZero` | WWP IRC server/IRC/libltdl/ltdl.c:1763 | the order is antisymmetric, and 0 means equal |
| `Basics.StrCmpTransitive` | WWP IRC server/IRC/libltdl/ltdl.c:1763 | and transitive |
| `Basics.StrCmpExactly` | WWP IRC server/IRC/libltdl/ltdl.c:1763 | of two strings the one with the smaller character at the first difference comes first, or the one that ends there |
| `DirListings.StemEnd` | WWP IRC server/IRC/libltdl/ltdl.c:1787-1811 | the two backward loops find the end of the stem, of which the next rows say what it is |
| `DirListings.StemExactly` | WWP IRC server/IRC/libltdl/ltdl.c:1787-1811 | for every name, taken as a head and the dots and digits at its end: they go if they begin with a dot, and then the last extension goes, if there is one |
| `DirListings.StemOfLibrary` | WWP IRC server/IRC/libltdl/ltdl.c:1787-1811 | base, extension and version number, if any, leave the base, whatever dots and digits the base has |
| `DirListings.StemOfVersioned` | WWP IRC server/IRC/libltdl/ltdl.c:1787-1797 | a version number without an extension before it goes alone |
| `DirListings.StemSamples` | WWP IRC server/IRC/libltdl/ltdl.c:1787-1811 | what is left of `libfoo.so.1.2`, `foo.so1`, `m-1.2.so`, `core.7` and `readme` |
| `DirListings.StemKeepsExactly` | WWP IRC server/IRC/libltdl/ltdl.c:1787-1811 | a name is kept whole if and only if no dot follows its first character |
| `DirListings.InsertDir` | WWP IRC server/IRC/libltdl/ltdl.c:1771-1831 | directory, slash and stem are inserted in order |
| `DirListings.ListFiles` | WWP IRC server/IRC/libltdl/ltdl.c:1834-1864 | every name that does not begin with a dot is inserted, in the order the directory is read |
| `DirListings.ListingIs` | WWP IRC server/IRC/libltdl/ltdl.c:1771-1864 | a listing is strictly ascending and holds exactly what was there and, for each name that does not begin with a dot, the directory, a slash and the stem |
| `DirListings.AscendingUnique` | WWP IRC server/IRC/libltdl/ltdl.c:1750-1769 | a strictly ascending vector is determined by its set of entries |
| `DirListings.AnyReadingOrder` | WWP IRC server/IRC/libltdl/ltdl.c:1834-1864 | whatever order a directory is read in, and however often a name comes, the listing is the same |
| `SearchPaths.SearchPath.Set` | WWP IRC server/IRC/libltdl/ltdl.c:2228-2244 | the path becomes the canonical form, or none |
| `SearchPaths.SearchPath.InsertDir` | WWP IRC server/IRC/libltdl/ltdl.c:2118-2185 | split, insert, join, for every directory: it goes in as given (not its canonical form, which is computed and dropped), before the entry of the vector at the offset the pointer has in the path; the pointer may lie behind the vector, and exactly when is said |
| `SearchPaths.SearchPath.AddSearchDir` | WWP IRC server/IRC/libltdl/ltdl.c:2187-2199 | the directory goes behind the path; none and an empty one change nothing |
| `SearchPaths.SearchPath.InsertSearchDir` | WWP IRC server/IRC/libltdl/ltdl.c:2201-2226 | the same before a position, and an error without any change for a position outside the path |
| `SearchPaths.WithDirIs` | WWP IRC server/IRC/libltdl/ltdl.c:2118-2185 | for every path, position and directory the new path is the entries of the vector with the directory among them, joined; and empty if the first of these is |
| `SearchPaths.NewParts` | WWP IRC server/IRC/libltdl/ltdl.c:2118-2185 | unless it is lost like that, the elements of the directory come as a whole among those of the path, in the place of its entry |
| `SearchPaths.AddDirExactly` | WWP IRC server/IRC/libltdl/ltdl.c:2187-2199 | adding a directory keeps all elements and appends the new ones if and only if the path has an element; behind separators alone it is lost |
| `SearchPaths.AddDirNormalFormExactly` | WWP IRC server/IRC/libltdl/ltdl.c:2187-2199 | a normal path to which a directory is added stays normal if and only if the directory is itself in normal form |
| `SearchPaths.InsertDirNormalFormExactly` | WWP IRC server/IRC/libltdl/ltdl.c:2201-2226 | and so does one into which a directory is inserted, at every position |
| `SearchPaths.InsertDirBefore` | WWP IRC server/IRC/libltdl/ltdl.c:2201-2226 | for every path with an element the directory becomes one more entry, right before the entry of the vector that the offset lies in; the others stay |
| `SearchPaths.InsertDirExactly` | WWP IRC server/IRC/libltdl/ltdl.c:2158-2171 | that entry is the element pointed to if and only if no more separators were folded in front of it than its characters from the pointer on |
| `SearchPaths.VectorLength` | WWP IRC server/IRC/libltdl/ltdl.c:2158-2171 | the vector is shorter than the path by the separators folded in all of it, which says when a position lies behind it |
| `SearchPaths.InsertBehindInstead` | WWP IRC server/IRC/libltdl/ltdl.c:2158-2171 | setting `a:/:/:b` leaves `a:::b`, in which a directory inserted before `b` comes behind it |
| `SearchPaths.RootLosesDirectory` | WWP IRC server/IRC/libltdl/ltdl.c:2187-2199 | setting the path `/` leaves an empty one, and a directory added to that is lost |
| `SearchPaths.SlashSpoilsPath` | WWP IRC server/IRC/libltdl/ltdl.c:2118-2185 | adding `lib/` to `usr` leaves a path that is not in normal form |
| `SearchPaths.ForeachDirInPath` | WWP IRC server/IRC/libltdl/ltdl.c:678-741 | the callback gets the file names of the directories in order, up to and including the first that it takes, and its last answer is the result; or up to an empty directory, whose last character is looked for in front of the buffer when there is a file name |
| `SearchPaths.TriedExactly` | WWP IRC server/IRC/libltdl/ltdl.c:713-737 | these are the directories in order, each with one slash and the file name behind it, all but the last refused; fewer than the directories only if the last is taken or the next directory is empty |
| `SearchPaths.DirsExactly` | WWP IRC server/IRC/libltdl/ltdl.c:697-706 | the directories visited are the cleaned non-empty elements of the path, and an empty one if the canonical form is empty or ends in a separator |
| `SearchPaths.ProperExactly` | WWP IRC server/IRC/libltdl/ltdl.c:697-706 | none of them is empty if and only if the path has an element and its last one is not made of slashes alone |
| `SearchPaths.ReadsOutsideExactly` | WWP IRC server/IRC/libltdl/ltdl.c:722-727 | the walk reads outside the buffer if and only if there is a file name, the path has no element or its last one is made of slashes alone, and no directory before holds the file |
| `SearchPaths.RootReadsOutside` | WWP IRC server/IRC/libltdl/ltdl.c:722-727 | with the search path `/` it does so for every file name |
| `SearchPathRuns.SetIsSafe` | WWP IRC server/IRC/libltdl/ltdl.c:2228-2244 | no search over a path that was set, to whatever, reads outside its buffer |
| `SearchPathRuns.HarmfulExactly` | WWP IRC server/IRC/libltdl/ltdl.c:2118-2244 | over every run of setting, adding and inserting the user path ends blank if and only if a directory that ends blank became its end and the end has not changed since |
| `SearchPathRuns.SearchOutsideExactly` | WWP IRC server/IRC/libltdl/ltdl.c:678-741 | and exactly then a search for a file that no directory of the path holds reads outside its buffer |
| `SearchPathRuns.SoundDirectoriesAreSafe` | WWP IRC server/IRC/libltdl/ltdl.c:678-741 | while no directory put in ends blank, no search does |
| `SearchPathRuns.SlashRun` | WWP IRC server/IRC/libltdl/ltdl.c:2118-2199 | after the path is set to `usr` and `/` is added, a search does so if and only if `usr` does not hold the file |
| `SearchPaths.FileNamesTakeSlash` | WWP IRC server/IRC/libltdl/ltdl.c:722-727 | such an element never ends in a slash, so one is always put in front of the file name |
| `ModuleTable.Ltdl.FindHandle` | WWP IRC server/IRC/libltdl/ltdl.c:376-392 | the first handle with the file name |
| `ModuleTable.Ltdl.TryLoaders` | WWP IRC server/IRC/libltdl/ltdl.c:428-462 | a vtable that is named is the only one asked, and is the answer if and only if it opens the file; without one the answer is the first loader in the list that opens it, or none if none does; with no vtable and no loader the code follows a null pointer |
| `ModuleTable.ServingExactly` | WWP IRC server/IRC/libltdl/ltdl.c:428-462 | the loader that the specification names is that one, too |
| `ModuleTable.Ltdl.Open` | WWP IRC server/IRC/libltdl/ltdl.c:367-489 | an open of a file that is open already adds a reference; otherwise a new handle with one reference goes in front: of the vtable that is named, if that opens the file, and of no other; or of the first loader in the list that opens it; or nothing changes, and the answer is null, when none of these opens it |
| `ModuleTable.Ltdl.Register` | WWP IRC server/IRC/libltdl/ltdl.c:1495-1505 | a handle that was opened just now goes in front of the list |
| `ModuleTable.Ltdl.MakeResident` | WWP IRC server/IRC/libltdl/ltdl.c:2256-2272 | marks the handle as resident; a null handle is an error and changes nothing |
| `ModuleTable.Ltdl.Close` | WWP IRC server/IRC/libltdl/ltdl.c:1948-2010 | the count goes down; a non-resident handle without references is unlinked and its module closed; an unknown handle changes nothing |
| `ModuleTable.Ltdl.CloseHandles` | WWP IRC server/IRC/libltdl/ltdl.c:280-326 | closes the modules according to the shutdown schedule, leaves the resident handles behind the first that is not, and counts the closes that fail |
| `ModuleTable.Ltdl.CloseModules` | WWP IRC server/IRC/libltdl/ltdl.c:285-326 | the level loop terminates for all reference counts, with that schedule, and counts one error for each module whose close fails |
| `ModuleTable.FailuresExactly` | WWP IRC server/IRC/libltdl/ltdl.c:285-326 | those counted are the closes with a status that is not 0, each once |
| `ModuleTable.LevelDecreases` | WWP IRC server/IRC/libltdl/ltdl.c:285-326 | its measure, remaining references together with the distance of the level from the largest count, drops in every round |
| `ModuleTable.ShutdownClosesEachOnce` | WWP IRC server/IRC/libltdl/ltdl.c:280-326 | every non-resident handle is closed exactly once, and only resident ones are left |
| `ModuleTable.ShutdownSchedule` | WWP IRC server/IRC/libltdl/ltdl.c:285-326 | they are closed in the order of their reference counts, and in list order among equal counts |
| `ModuleTable.Ltdl.AddLoader` | WWP IRC server/IRC/libltdl/lt_dlloader.c:62-99 | the loader goes in front or at the end, as its priority says; a vtable that is not usable is refused |
| `ModuleTable.Ltdl.LoaderInUse` | WWP IRC server/IRC/libltdl/lt_dlloader.c:168-180 | whether an open handle belongs to the loader, and whether a resident one does |
| `ModuleTable.Ltdl.RemoveLoader` | WWP IRC server/IRC/libltdl/lt_dlloader.c:153-204 | a loader that is unknown, in use or whose exit function fails is refused, with an error message unless resident modules use it; otherwise the first of that name is taken out and the others stay |
| `ModuleTable.RemovalExactly` | WWP IRC server/IRC/libltdl/lt_dlloader.c:153-204 | the first loader with the name is the one; it stays if and only if a module uses it or its exit function fails; an error message is missing only when it goes or a resident module needs it |
| `ModuleExit.CloseLoaders` | WWP IRC server/IRC/libltdl/ltdl.c:334-354 | the sweep over the loaders leaves those of a name that has a refused one no later in the list, and counts the refusals met while an error message is set |
| `ModuleExit.Exit` | WWP IRC server/IRC/libltdl/ltdl.c:264-361 | the whole of lt_dlexit: state and error count of the call that matches the first lt_dlinit, of the earlier ones, and of one too many |
| `ModuleExit.LeftExactly` | WWP IRC server/IRC/libltdl/ltdl.c:334-354 | a loader is left if and only if it or an earlier one of its name is refused |
| `ModuleExit.NothingCountedExactly` | WWP IRC server/IRC/libltdl/ltdl.c:328-354 | unless a failed close left a message, refusals are not counted if and only if no exit function fails |
| `ModuleExit.AllCounted` | WWP IRC server/IRC/libltdl/ltdl.c:334-354 | and with such a message every loader that is left is counted |
| `ModuleExit.LoaderSurvivesExactly` | WWP IRC server/IRC/libltdl/ltdl.c:280-354 | a loader survives if and only if for it or an earlier one of its name the exit function fails or a resident module of it stands behind one that is not resident |
| `ModuleExit.ResidentLosesLoader` | WWP IRC server/IRC/libltdl/ltdl.c:280-283 | a resident module alone in the table keeps running while its loader is removed |
| `ModuleRuns.RunKeeps` | WWP IRC server/IRC/libltdl/ltdl.c:367-489 | over every run of clients that do not close more often than they open: one handle per file, the count of each non-resident handle is its opens minus its closes and at least one, each module was closed at most once and none that is open, the vtable of every open handle is in the loader list |
| `ModuleRuns.StartInv` | WWP IRC server/IRC/libltdl/ltdl.c:225-245 | the invariant holds at the start |
| `ModuleRuns.CloseExactlyAtZero` | WWP IRC server/IRC/libltdl/ltdl.c:1948-2010 | a module is closed exactly when the opens of its handle have all been closed |
| `ModuleRuns.RunThenExit` | WWP IRC server/IRC/libltdl/ltdl.c:264-326 | when such a run ends with the last lt_dlexit, each module opened has been closed exactly once, except for those resident at the end |
| `ModuleRuns.CrashesExactly` | WWP IRC server/IRC/libltdl/ltdl.c:428-444 | over every run an open follows the null pointer if and only if it names no vtable while the loader list is empty, whatever the file |
| `ModuleRuns.OpenServedBy` | WWP IRC server/IRC/libltdl/ltdl.c:428-476 | over every run a file that is not open yet is opened by the vtable that is named, if that opens it, and by no other; without one by the first in the list that opens it; else the table stays as it is |
| `ModuleRuns.AddLoaderOrder` | WWP IRC server/IRC/libltdl/lt_dlloader.c:62-99 | adding keeps the list the reverse of the surviving prepended loaders followed by the surviving appended ones |
| `ModuleRuns.RemoveLoaderOrder` | WWP IRC server/IRC/libltdl/lt_dlloader.c:153-204 | and so does removing |
| `IrcStrings.IrcCmp` | WWP IRC server/IRC/src/match.c:192-206 | 0 if and only if the strings are equal up to the case mapping of RFC 1459, section 2.2 |
| `IrcStrings.SameCase` | WWP IRC server/IRC/src/match.c:228-298 | the tables for lower and upper case make the same characters equal |
| `IrcStrings.SameCaseExactly` | WWP IRC server/IRC/src/match.c:264-298 | two characters are equal case aside if and only if they are the same, the same letter, or one of the four pairs of other characters that RFC 1459, section 2.2, names |
| `Glines.Server.ExpireList` | WWP IRC server/IRC/src/gline.c:77-88 | one pending list without the lapsed entries and without the entry that is to go |
| `Glines.Server.Expire` | WWP IRC server/IRC/src/gline.c:70-89 | both lists |
| `Glines.Server.HasVoted` | WWP IRC server/IRC/modules/m_gline.c:222-225 | the same user@host or the same server, case aside |
| `Glines.Server.Scan` | WWP IRC server/IRC/modules/m_gline.c:214-220 | the first entry for the mask, case aside |
| `Glines.Server.Check` | WWP IRC server/IRC/modules/m_gline.c:204-277 | the whole new state, the answer and the clients tried of a vote: covered, first, second, repeated or third |
| `Glines.Server.Execute` | WWP IRC server/IRC/modules/m_gline.c:92-152 | a G-line leaves the bans that are there and adds one: user and host of the request, set now, ending after the set time, in the database, with the reason and the date cut to a buffer; a removal takes out exactly the ban that the lookup finds, if it is in the database; the clients are tried against the ban that was added |
| `Glines.Server.CheckGline` | WWP IRC server/IRC/modules/m_gline.c:50-83 | the clients tried, in list order |
| `Glines.AttemptedExactly` | WWP IRC server/IRC/modules/m_gline.c:50-83 | a client is tried if and only if it is on the list, not dead, and matches |
| `Glines.AttemptsSnoc` | WWP IRC server/IRC/modules/m_gline.c:50-83 | and in list order, each client once |
| `Glines.LapsedExactly` | WWP IRC server/IRC/src/gline.c:70-89 | a pending entry stays if and only if its last vote is less than the voting window ago |
| `GlineRuns.RunBacked` | WWP IRC server/IRC/modules/m_gline.c:204-277 | over every run, each pending entry is backed by recorded votes: a first one, and a second by another operator on another server in time |
| `GlineRuns.PlacedByThreeVotes` | WWP IRC server/IRC/modules/m_gline.c:204-277 | in every run a ban is placed or removed only on a third vote for the mask, by three operators on three servers, each less than the voting window after the one before, all within twice the window; and then the ban is that of the third request, set at its time, with the reason of the first |
| `GlineRuns.BansChangeOnlyThen` | WWP IRC server/IRC/modules/m_gline.c:204-277 | nothing else in a run changes the bans |
| `GlineRuns.FittingKeepsUnique` | WWP IRC server/IRC/modules/m_gline.c:166-277 | an event whose mask fits the buffers keeps one entry per mask, case aside |
| `GlineRuns.RunUnique` | WWP IRC server/IRC/modules/m_gline.c:166-277 | so over every run in which the masks fit each pending list has one entry per mask |
| `GlineRuns.UniqueExactlyWhenFits` | WWP IRC server/IRC/modules/m_gline.c:178-179 | a request keeps one entry per mask from every state if and only if its mask fits the buffers of a pending entry |
| `GlineRuns.LongMaskNeverPlaced` | WWP IRC server/IRC/modules/m_gline.c:178-221 | in no run does the server act on a mask that does not fit |
| `GlineRuns.ActedExactlyWhenFits` | WWP IRC server/IRC/modules/m_gline.c:178-277 | there is a run in which it acts on a mask if and only if the mask fits |
| `GlineRuns.OtherEvent` | WWP IRC server/IRC/src/gline.c:70-102 | an event about another mask only ages the entry |
| `GlineRuns.OwnRequest` | WWP IRC server/IRC/modules/m_gline.c:204-277 | a request moves the entry of its mask, is answered and changes the bans as if no other mask existed; what is placed or removed is stated field by field |
| `GlineRuns.RepeatChangesNothing` | WWP IRC server/IRC/modules/m_gline.c:222-234 | a vote is turned down only for one on record by the same user@host or server, and changes nothing but what has lapsed |
| `GlineRuns.AnswerExactly` | WWP IRC server/IRC/modules/m_gline.c:216-268 | the answer to a vote on an entry that has not lapsed: turned down if and only if the same user@host or server is on record; otherwise placed if and only if two votes are |
| `GlineRuns.FirstAnswer` | WWP IRC server/IRC/modules/m_gline.c:166-277 | a vote for a mask without one is recorded in front as the first, and not acted on |
| `GlineRuns.CoveredChangesNothing` | WWP IRC server/IRC/modules/m_gline.c:210-214 | a request for a ban that is there already is not recorded; only what has lapsed goes |
| `GlineRuns.ThirdVotePlaces` | WWP IRC server/IRC/modules/m_gline.c:204-277 | three votes by different operators and servers in time, with anything about other masks and any repeated votes in between and in any order of the operators, act exactly at the third, after which the entry is gone, if and only if the second operator has a user name; the ban added has user and host of the mask, the time of the third vote and the reason of the first, and a removal takes out exactly the database entry that the lookup finds |
| `MapPrinter.MapCommand.Text` | WWP IRC server/IRC/modules/m_map.c:57-71 | name, identifier for operators, dashes up to a fixed column, a bar, the number of users in five places and the percentage |
| `MapPrinter.MapCommand.CountChildren` | WWP IRC server/IRC/modules/m_map.c:87-100 | the number of children that the viewer may see |
| `MapPrinter.MapCommand.PrintLine` | WWP IRC server/IRC/modules/m_map.c:41-82 | a line with the prompt as it stands, and the two characters before it made ready for the children |
| `MapPrinter.MapCommand.DumpMap` | WWP IRC server/IRC/modules/m_map.c:37-120 | at any depth the lines are those of a pure function of tree and prompt, the prompt is left as stated for the next sibling, and every write stays inside 64 characters; for a whole tree of which what is visible is slim at depth 30, they are the drawing of what is visible |
| `MapPrinter.MapCommand.DumpChildren` | WWP IRC server/IRC/modules/m_map.c:87-120 | the two passes over the children do so for all of them |
| `MapPrinter.MapIsRight` | WWP IRC server/IRC/modules/m_map.c:37-120 | the map is the drawing (branches, last branches, stems and blanks below) of the tree without what is hidden from the viewer if and only if no server at depth 30 of that has two children; always if it goes no deeper than 30 |
| `MapPrinter.SubtreeIsRight` | WWP IRC server/IRC/modules/m_map.c:76-120 | the same for every subtree, in any place |
| `MapPrinter.PrintedIsDrawing` | WWP IRC server/IRC/modules/m_map.c:76-120 | the same in terms of the children that the code shows |
| `MapPrinter.VisibleExactly` | WWP IRC server/IRC/modules/m_map.c:91-96 | a user sees nothing that is hidden and no service where services are, and the whole tree if and only if it has none below the root; an operator sees all of any tree |
| `MapPrinter.SampleForUser` | WWP IRC server/IRC/modules/m_map.c:87-115 | the four lines of a map with a hidden server, what is below it, and a service left out |
| `MapPrinter.LineText` | WWP IRC server/IRC/modules/m_map.c:49-71 | a line in full: name, identifier for operators only, dashes that fill up 49 columns, the number of users in five places, their share |
| `MapPrinter.TwinsAtDepth31` | WWP IRC server/IRC/modules/m_map.c:76-120 | thirty servers in a row with two below the last are drawn wrongly, whoever asks |
| `MapPrinter.SiblingReady` | WWP IRC server/IRC/modules/m_map.c:76-82 | after a child the buffer is as its next sibling needs it if and only if the child was not the last one and not at depth 31; the hook of a last child is blanked |
| `MapPrinter.LaterDiffers` | WWP IRC server/IRC/modules/m_map.c:84-85 | the early return for a deeper server does spoil the hook of its next sibling |
| `MapPrinter.BarsAlign` | WWP IRC server/IRC/modules/m_map.c:62-67 | the bars stand in one column wherever the label leaves room |
| `Caps.CapabSearch` | WWP IRC server/IRC/modules/m_cap.c:70-87 | the sign is that of the comparison of the word at the head of the list with the name, case aside |
| `Caps.Bsearch` | WWP IRC server/IRC/modules/m_cap.c:111-113 | finds a capability if and only if the word equals its name, case aside |
| `Caps.FindCap` | WWP IRC server/IRC/modules/m_cap.c:89-133 | the capability and sign of the first element, and the rest of the list, which is strictly shorter |
| `Caps.SpelledMentions` | WWP IRC server/IRC/modules/m_cap.c:89-133 | the scanner reads back exactly the elements that a client spells out, with any blanks between and around them |
| `Caps.Connection.WalkRequest` | WWP IRC server/IRC/modules/m_cap.c:227-255 | the walk ends; it succeeds if and only if every element can be granted, and then has the two masks and the two new sets |
| `Caps.Connection.DoReq` | WWP IRC server/IRC/modules/m_cap.c:215-265 | the new state and the reply of CAP REQ, of which the next row says what they are |
| `CapRuns.RequestSpelled` | WWP IRC server/IRC/modules/m_cap.c:215-265 | a request is answered NAK, and changes neither set, if and only if some element has an unknown name, adds a prohibited capability or removes a sticky one; otherwise ACK, and each capability is in the client set, in the active set if it needs no acknowledgement, and in the reply, as the last element that names it says; registration is suspended in any case |
| `Caps.Connection.DoAck` | WWP IRC server/IRC/modules/m_cap.c:267-294 | the new active set of CAP ACK |
| `CapRuns.AckSpelled` | WWP IRC server/IRC/modules/m_cap.c:267-294 | a capability that the client has becomes active if it is named, one that it lacks inactive if it is given up; nothing else changes |
| `Caps.Connection.DoClear` | WWP IRC server/IRC/modules/m_cap.c:296-318 | the new state and the reply of CAP CLEAR |
| `CapRuns.ClearExactly` | WWP IRC server/IRC/modules/m_cap.c:296-318 | what the client has and is not sticky goes, is reported, and becomes inactive unless it needs acknowledgement |
| `Caps.Connection.Meet` | WWP IRC server/IRC/modules/m_cap.c:320-337 | one need is met; registration follows if and only if the client is unregistered and none remains |
| `Caps.Connection.DoLs` | WWP IRC server/IRC/modules/m_cap.c:206-213 | registration is suspended and the list sent |
| `Caps.Connection.DoList` | WWP IRC server/IRC/modules/m_cap.c:339-344 | the client set is listed |
| `CapRuns.ClientSetExactly` | WWP IRC server/IRC/modules/m_cap.c:215-318 | over every run a capability is in the client set if and only if a request granted whole last added it, and no later one and no CAP CLEAR took it away; a request is granted whole or says nothing |
| `CapRuns.SaidIsLast` | WWP IRC server/IRC/modules/m_cap.c:237-255 | what a request says of a capability is its last mention |
| `CapRuns.SaidNever` | WWP IRC server/IRC/modules/m_cap.c:237-255 | and it says nothing of a capability if and only if it does not mention it |
| `CapRuns.SetsAgree` | WWP IRC server/IRC/modules/m_cap.c:215-318 | over every run the client and active sets agree on every capability that needs no acknowledgement |
| `CapRuns.StickyStays` | WWP IRC server/IRC/modules/m_cap.c:215-318 | a sticky capability never leaves the client set |
| `CapRuns.ProhibitedStaysOut` | WWP IRC server/IRC/modules/m_cap.c:229-235 | a prohibited one never enters it |
| `CapRuns.ProtoActiveExactly` | WWP IRC server/IRC/modules/m_cap.c:267-318 | over every run a capability that needs acknowledgement is active if and only if the client acknowledged it while it had it and has not given it up since while it did not; requests and CAP CLEAR leave it |
| `CapRuns.RegisteredExactly` | WWP IRC server/IRC/modules/m_cap.c:206-337 | over every run a client is registered if and only if at some moment USER and NICK had come and every LS and REQ was followed by a CAP END |
| `CapRuns.NegotiationSuspends` | WWP IRC server/IRC/modules/m_cap.c:206-226 | from the first LS or REQ on a client stays unregistered until CAP END |
| `CapLines.PackCap` | WWP IRC server/IRC/modules/m_cap.c:167-198 | one capability into the buffer, or the full line out first |
| `CapLines.SendCapList` | WWP IRC server/IRC/modules/m_cap.c:143-204 | the lines are those of the greedy packing of the capabilities to be shown |
| `CapLines.CapListing` | WWP IRC server/IRC/modules/m_cap.c:143-204 | each line fits 512 bytes and ends only where the next item does not, all but the last carry a star, and together they are in table order: without masks the capabilities that are not hidden, with masks those removed behind a minus sign and those added; `~` and `=` mark what needs acknowledgement and what is sticky |
| `Patricia.Walk` | WWP IRC server/IRC/include/patricia.h:130-168 | the loop with its explicit stack visits what the recursive preorder visits, breaks prune their subtree, and the stack never exceeds its slots |
| `Patricia.Pop` | WWP IRC server/IRC/include/patricia.h:146-152 | breaking off goes on with the node on top of the stack |
| `Patricia.Advance` | WWP IRC server/IRC/include/patricia.h:154-168 | a step down leaves exactly the left subtree, the right one and the stack to be visited |
| `Patricia.VisitedExactly` | WWP IRC server/IRC/include/patricia.h:130-168 | a node is visited if and only if it has a prefix and no node above it broke off |
| `Patricia.VisitedInOrder` | WWP IRC server/IRC/include/patricia.h:130-168 | places are visited in strictly ascending preorder, and none twice |
| `Patricia.VisitsAtPaths` | WWP IRC server/IRC/include/patricia.h:130-168 | the prefixes seen are those at the visited places, in that order |
| `Who.WhoCommand.CommonChannel` | WWP IRC server/IRC/modules/m_who.c:96-135 | marks and replies of one channel, with the reply limit |
| `Who.WhoCommand.AllClients` | WWP IRC server/IRC/modules/m_who.c:171-206 | replies of the second phase and the marks taken off |
| `Who.WhoCommand.WhoGlobal` | WWP IRC server/IRC/modules/m_who.c:146-207 | the whole command, pacing included |
| `Who.EachOnce` | WWP IRC server/IRC/modules/m_who.c:96-207 | below the limit every visible client that matches and every invisible one on a common channel is listed exactly once, and no mark is left |
| `Who.ListedExactly` | WWP IRC server/IRC/modules/m_who.c:96-207 | and that is: with the operator flag only operators, hidden ones for operators only; the mask is tried on nick, user name, host, description and server, the last not for invisible clients where servers are hidden from users |
| `Who.LimitReported` | WWP IRC server/IRC/modules/m_who.c:123-133 | the limit is reported, once, if and only if at least 500 clients should be listed |
| `Who.BudgetUsedUp` | WWP IRC server/IRC/modules/m_who.c:96-164 | the first phase uses the limit up if and only if at least that many invisible clients on the channels match |
| `Who.RepliesBelow` | WWP IRC server/IRC/modules/m_who.c:96-207 | the exact number of replies if it does not |
| `Who.RepliesBeyond` | WWP IRC server/IRC/modules/m_who.c:96-207 | the exact number if it does: the limit, what later channels add, and every visible client that matches |
| `Who.TooManyExactly` | WWP IRC server/IRC/modules/m_who.c:129-206 | a WHO gets more replies than the limit if and only if the first phase uses it up and a later channel or the second phase has a match |
| `Who.OneTooMany` | WWP IRC server/IRC/modules/m_who.c:129-206 | a network in which a WHO gets one reply more than the limit |
| `Who.NoFurtherLimit` | WWP IRC server/IRC/modules/m_who.c:129-133 | once the limit has been reached in a channel, the second phase goes on over all clients and does not report it |
| `Who.MarksLeftExactly` | WWP IRC server/IRC/modules/m_who.c:171-206 | marks are left if and only if fewer clients on channels match than the limit and a client that the first phase marks comes after enough visible matches to use up the rest |
| `Who.MarkIsLeft` | WWP IRC server/IRC/modules/m_who.c:171-206 | a network in which a mark is left |
| `Packers.ChunksLossless` | WWP IRC server/IRC/modules/m_watch.c:174-197 | nothing is lost, repeated, reordered or split |
| `Packers.ChunksFit` | WWP IRC server/IRC/modules/m_watch.c:181-186 | every line keeps within the room, and none is empty |
| `Packers.ChunksFull` | WWP IRC server/IRC/modules/m_watch.c:181-186 | a line ends only where the next item does not fit |
| `Packers.ChunksAdmissible` | WWP IRC server/IRC/modules/m_watch.c:181-186 | on every line each item has the room set aside for it behind the items before it |
| `Packers.ChunksFewest` | WWP IRC server/IRC/modules/m_watch.c:174-197 | and no division of the items into such lines has fewer lines |
| `Packers.ListWatches` | WWP IRC server/IRC/modules/m_watch.c:164-197 | the lines are those of the greedy packing of the nicks |
| `Packers.WatchListing` | WWP IRC server/IRC/modules/m_watch.c:164-197 | each line fits 512 bytes with its header and ends only where the next nick does not; together they are the nicks with a blank before each but the first |
| `Packers.ListAccepts` | WWP IRC server/IRC/modules/m_accept.c:45-83 | the lines are those of the greedy packing of the masks, written through a fixed buffer without leaving it |
| `Packers.AcceptListing` | WWP IRC server/IRC/modules/m_accept.c:45-83 | each line fits 512 bytes with its header and ends only where the room for the next mask is missing; with a blank between them the lines are the masks as nick!user@host, in order |
| `Packers.ListChannels` | WWP IRC server/IRC/modules/m_whois.c:83-114 | the same for the channels that may be seen, in a buffer that holds the header, too |
| `Packers.WhoisListing` | WWP IRC server/IRC/modules/m_whois.c:44-114 | each line fits 512 bytes and ends only where the room for the next channel is missing; the lines hold in order, with status, exactly the public channels of a target who does not hide them, those of oneself and shared ones, and for an administrator the others behind a tilde |
| `TopicBurst.Channel.Tburst` | WWP IRC server/IRC/modules/m_tburst.c:87-112 | a burst is accepted if and only if it is from services, for an older channel, or for one as old as ours with a newer topic; what is stored of it, that it is forwarded, and when members are told |
| `TopicBurst.NewestWins` | WWP IRC server/IRC/modules/m_tburst.c:87-112 | in every order of bursts for a channel no older than ours the newest topic wins, and the initial one stays if none is newer |
| `TopicBurst.OrderDoesNotMatter` | WWP IRC server/IRC/modules/m_tburst.c:87-112 | any two orders of the same bursts, with any repetitions, end at the same topic |
| `TopicBurst.LastForcedThenNewest` | WWP IRC server/IRC/modules/m_tburst.c:93-101 | a burst from services or for an older channel overrides the topic whatever its time; of those that follow the last such burst the newest wins |
| `TopicBurst.UnforcedNewest` | WWP IRC server/IRC/modules/m_tburst.c:93-101 | without such a burst the newest wins from the start |
| `TopicBurst.TwoOrders` | WWP IRC server/IRC/modules/m_tburst.c:99-101 | two bursts commute if and only if they do not give different topics of one time that is newer than ours |
| `TopicNet.SendsAre` | WWP IRC server/IRC/modules/m_tburst.c:103-112 | an accepted burst goes over every link but the one it came by |
| `TopicNet.DeliverKeeps` | WWP IRC server/IRC/modules/m_tburst.c:103-112 | every delivery keeps the invariant: over each link a server is informed or a packet is under way to it, and no packet is newer than its sender |
| `TopicNet.DeliverDrops` | WWP IRC server/IRC/modules/m_tburst.c:87-112 | every delivery lowers the measure of servers, topics still ahead and packets |
| `TopicNet.JoinEnds` | WWP IRC server/IRC/modules/m_tburst.c:87-112 | after servers join, flooding stops, within a bound in links and servers |
| `TopicNet.Converges` | WWP IRC server/IRC/modules/m_tburst.c:87-112 | once it has, connected servers have one and the same topic: one of the initial ones, and none that a connected server began with is newer |
| `Games.RoundTripExactly` | WWP server/Game.php:117-128 | a record holds at least 72 bytes, and reading its fixed places gives back the game if and only if both names have at most 20 bytes without a NUL at the end and all numbers fit 32 bits |
| `Games.RecordReadBack` | WWP server/Game.php:103-142 | in the tables of every run each record reads back as the game of its host row if and only if that fits |
| `Games.RecordBytes` | WWP server/Game.php:103-142 | over every run, each field of a record byte by byte, whatever the length of the names: these filled up with NULs to 20 bytes but never cut, and behind them address, number, place, use, password, rank and the two times of the game, highest byte first |
| `Games.PackParts` | WWP server/Game.php:117-128 | with names of at most 20 bytes each field stands at its fixed place |
| `Games.Lobby.AddGame` | WWP server/Game.php:103-142 | one row in each table, under new numbers; the record is the packed game |
| `Games.Lobby.DeleteGame` | WWP server/Game.php:73-101 | the entry goes; the host row goes only if the game did not fail and the name matches |
| `Games.DeletedExactly` | WWP server/Game.php:73-101 | exactly those, and no other row of either table changes |
| `Games.Lobby.CleanOldGames` | WWP server/cleanOldGames.php:5-20 | the fetch loop removes exactly the stale entries and the host rows of their games |
| `Games.SweptExactly` | WWP server/cleanOldGames.php:5-20 | exactly the entries more than 300 seconds from the clock go, with their host rows, and no other row changes |
| `Games.Lobby.GameList` | WWP server/GameList.php:6-20 | the sweep, and then exactly the games of the channel that are offered, newest first |
| `Games.RunOk` | WWP server/Game.php:73-142 | over every run each entry has its host row, and each game at most one entry |
| `Games.ListingIsFresh` | WWP server/GameList.php:6-20 | a listing shows exactly the games of the channel within 300 seconds of the clock of the sweep, each with its host row |
| `Games.OrphanExactly` | WWP server/Game.php:73-101 | a close leaves the host row of an offered game without an entry if and only if it failed or gave another name |
| `Games.OrphanRunExactly` | WWP server/Game.php:73-142 | over every run a host row has no entry if and only if such a close came and none under its own name that succeeded since |
| `Games.OrphanStays` | WWP server/cleanOldGames.php:5-20 | a host row whose entry is gone is never swept; it goes only when the game is closed under its own name |
| `Games.StepOrphan` | WWP server/Game.php:73-101 | and that closing does remove it |
| `Games.FailedGame` | WWP server/Game.php:73-142 | the run in which a game is created and fails leaves its host row |
| `Games.FailedGameStays` | WWP server/cleanOldGames.php:5-20 | and after that run any number of sweeps leaves the row there |

## Left out

- Sockets, SQL, HTTP, HTML, logging, `dlopen`, `fopen` and directory reads: replaced by parameters and traces.
- Cryptography and the AUTHPONG exchange: they rest on libraries that are not in the repository.
- Allocation failure, and the parts of libltdl that are not compiled here (dependency libraries, other platforms).
- `lt_dlhandle_map`: its loop does not advance, so there is nothing to prove of it.
- ModuleExit.Exit: does not model the text of error messages; whether a failed close has set one is a parameter.
- ModuleTable.Ltdl.Close: does not model error strings and a handle that is closed more often than it was opened; callers must not do that.
- Glines.Server.Execute: does not model what the attempt to ban a client does with it; matching is a parameter.
- The entry steps of GLINE and GUNGLINE (privileges, CIDR limits, forwarding): each ends in the one call of check_majority that is modelled.
- Address parsing behind the lookup of a G-line: the lookup is a parameter.
- MapPrinter.MapCommand.Text: does not model the floating point behind the percentage of users; its text is a parameter.
- Caps.Connection.DoReq: does not model a table in which two capabilities share a bit.
- PATRICIA_WALK_ALL, which differs from the walk modelled only in running its body at every node, and the functions that build and search the tree.
- Who.WhoCommand.WhoGlobal: does not model the fields of a WHO reply beyond the client it is about, and the WHO of one channel or one nick.
- TopicBurst.Channel.Tburst: does not model the capability that a neighbour needs to be sent a burst; in the network of TopicNet all have it.
- The commands that edit the accept and watch lists, and all thin command handlers.
- Games.Lobby.AddGame: does not model escaping and encryption; the row holds the plain record.
- The session check of `deleteGame`: only calls that pass it are modelled.
