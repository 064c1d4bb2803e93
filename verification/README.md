# Verification of an eCos host and shell tree

This project models the parts of the repository that do the hardest work on their data, and proves
what those parts promise. `dafny verify dfyconfig.toml` checks all of it. There are seven groups of
modules, and `Common` with what they share.

**Option parsing** (`PermuteArgs`, `ArgvLayout`, `OptionScanner`, `Getopt`, `OptionTexts`,
`OptionVectors`). `getopt_long` parses an
argument vector in place and moves the arguments that are not options behind those that are.
`PermuteArgs` proves the exchange of two adjacent blocks along gcd-many cycles. `OptionScanner` is a
pure scan from left to right that never moves anything. `Getopt` is the scanner with its static
variables, resumed from call to call. The main result is `ParseAll`: until it returns -1 the scanner
reports what the pure scan of the original vector reports, and it leaves the vector stably
partitioned, with `optind` at the first element that was not consumed. `OptionTexts` says what that
scan reports for each form of element, and `OptionVectors` closes the circle: a vector written out from
a list of options, arguments and operands is reported as that list, and ends with the operands behind
the options (`RoundTrip`, `WrittenIsParsed`).

**The configuration hierarchy** (`ParentMap`, `NodeLists`, `HierarchyView`, `HierarchyLaws`,
`HierarchyUnload`, `HierarchyCancel`, `HierarchyLoad`, `Hierarchy`). A CDL toplevel keeps its nodes
in a tree and says the same things several times: parent and contents, owner and owned, the name
table, the vector of loadables. `HierarchyView` has the invariants and, for each operation, what it
does to the values; `Hierarchy.Toplevel` has the operations as methods that change the state step by
step. The laws: every operation keeps the tree a tree and all copies in step, removal is undone
exactly in reverse order, lookup by name agrees with a search of the tree, re-parenting rejects
exactly the moves that would close a cycle, and a loadable can be unloaded, removed and destroyed
with every container empty by the time it is deleted. `HierarchyLoad` follows a whole load, step by
step, to its cancellation, which leaves the hierarchy as it was exactly if the nodes from before that
refer to the loadable were the last of the orphans; in particular if there are none.

**Flags and values in a transaction** (`Propagation`, `Interfaces`, `Settling`, `Endless`,
`Transactions`). A node is to be active if its parent is active and enabled and its own `active_if`
goals hold; a default value is the result of an expression; an interface counts the active and
enabled nodes that implement it. Changes wait in two queues, and propagation brings up to date what
may depend on them. In every state of every run nothing is wrong unnoticed, and interfaces are
counted, even if interfaces implement each other in a circle. Once the queues are empty the flags are
what the hierarchy and the goals ask for. If no node depends on itself (interfaces that implement each
other aside), propagation ends; without such interfaces its result is determined by the values that
were given, whatever the order of the changes. `Transactions.Transaction` has the methods and the
loop, proved against the functions of `Propagation`.

**Numbers and versions** (`Integers`, `IntegerTexts`, `Versions`, `VersionTexts`). 64-bit integers as
text in three bases, and the comparison of version strings. The two modules of texts say which texts
are which numbers, and which of two versions is the newer one, of the texts themselves.

**Savefile command tables** (`TclWords`, `SavefileTables`). Commands an application does not know
survive loading and saving, as far as their names can be written without quoting. `TclWords` is how
Tcl splits a script into words and a list into elements.

**The shell line** (`ShellHistory`, `ShellArgs`, `ShellLine`, `ShellTyping`). The ring of remembered
lines, the in-place tokeniser and the key handling of the serial shell.

**Smaller pieces**: custom build steps (`BuildStep`), configuration headers shared by loadables
(`ConfigHeaders`), the Internet checksum of `ping` (`Checksum`, after sections 1 and 2 of RFC 1071)
and the circular trace buffer (`TraceRing`).

Where the code is narrower than the obvious claim, the claim is proved exactly where it holds and a
concrete input shows where it does not:

- A long option written in full is reported as ambiguous if two longer names that it abbreviates come
  ahead of it in the table (`ExactMatchFound`, `AmbiguousDespiteExactMatch`).
- Without long options and with '-' no option letter, a '-' at the end of a cluster of letters ends
  the run before the skipped arguments have been moved (`TrailingDashExactly`, `StoppedAt`,
  `TrailingDashExample`).
- The smallest 64-bit number does not come back from decimal, nor any negative number from hex or
  octal (`RoundTrip`). The overflow test of the reader lets some numbers of 2^63 and more pass
  (`ParseExact`, `UndetectedOverflow`).
- "v1" is newer than "Z", "Z" than "V2" and "V2" than "v1" (`TransitiveExactly`, `CircularExample`).
- With the sum of the words of a packet at 2^32 or more the accumulator of the checksum loses a
  carry, and exactly then the checksum is wrong (`RightExactly`, `OverflowExample`).
- A cancelled load does not put an orphan it had re-parented back to its old place among the orphans
  (`CancelUndoesLoad`, `AdoptedExample`).
- The names of commands and subcommands are saved without quoting. They are read back as they were
  exactly if they are plain: not empty, without white space, and without certain characters
  (`LineReadsBack`, `ListReadsBack`); a subcommand "y z" comes back as two (`BlankExample`).
- Two interfaces that implement each other stay enabled once they are, so that the values given do not
  determine the result (`TwoResults`).
- Propagation need not end: two options whose goals contradict each other change their flags for
  ever (`EndlessExample`). Without interfaces, the references in goals and expressions guarantee an
  end exactly if no node depends on itself, directly or through others (`EndsExactly`).

## Model

| member | source | states |
|---|---|---|
| PermuteArgs.ComputeGcd | ecos/ecosap/shell/getopt_long.c:101-112 | the remainder loop ends and computes the greatest common divisor, for positive arguments |
| PermuteArgs.GcdIsGreatest | ecos/ecosap/shell/getopt_long.c:98-112 | the result divides both arguments and every common divisor divides it |
| PermuteArgs.CyclesPartitionRange | ecos/ecosap/shell/getopt_long.c:126-145 | the gcd-many cycles of length (opt_end - nonopt_start) / gcd are disjoint and cover the range: each offset is reached in exactly one cycle, at exactly one step |
| PermuteArgs.Permute | ecos/ecosap/shell/getopt_long.c:118-146 | in-place exchange of two non-empty adjacent blocks: each keeps its order, everything else stays |
| ArgvLayout.PickSizes | ecos/ecosap/shell/getopt_long.c:113-117 | the consumed and the skipped elements of a vector are all of it, each once |
| ArgvLayout.PickAll | ecos/ecosap/shell/getopt_long.c:113-117 | with nothing skipped the consumed elements are the vector itself |
| OptionScanner.ExactMatchFound | ecos/ecosap/shell/getopt_long.c:169-198 | a name in the table is found as itself if and only if fewer than two of the entries ahead of it are longer names it abbreviates |
| OptionScanner.AmbiguousDespiteExactMatch | ecos/ecosap/shell/getopt_long.c:169-198 | a table on which a name written in full is ambiguous, and found if the entries are reordered |
| OptionScanner.ParseShortAdvances | ecos/ecosap/shell/getopt_long.c:390-452 | a short option consumes something and never yields -1 except for a last '-' that is no option letter |
| OptionScanner.ParseElementAdvances | ecos/ecosap/shell/getopt_long.c:370-452 | the same for an element that may be a long option |
| OptionScanner.ScanAdvances | ecos/ecosap/shell/getopt_long.c:296-452 | each call that does not return -1 decreases (elements left, characters left), passes over non-options only, and stops only at the end, behind "--", or as the mode demands |
| OptionScanner.ScanAllClassifies | ecos/ecosap/shell/getopt_long.c:296-452 | a whole run classifies every position it passes as consumed or skipped; what is skipped is a non-option; nothing is skipped unless permuting |
| OptionScanner.TrailingDashExactly | ecos/ecosap/shell/getopt_long.c:390-399 | the run stops inside an element if and only if there are no long options and the element ends here in a '-' that is no option letter |
| OptionScanner.StoppedAt | ecos/ecosap/shell/getopt_long.c:390-399 | a whole run that stops inside an element stops, without long options and with '-' no option letter, at one of three characters or more that begins and ends in '-' |
| OptionScanner.PermutingRunEnds | ecos/ecosap/shell/getopt_long.c:299-369 | if no such element is ahead, in particular with long options, a permuting run ends at the end of the vector or behind "--" |
| OptionScanner.TrailingDashExample | ecos/ecosap/shell/getopt_long.c:398-399 | a run that stops so, with a skipped argument still ahead of an option |
| Getopt.Scanner.FindLongOption | ecos/ecosap/shell/getopt_long.c:169-198 | the loop over the table finds what exact matches and abbreviations ahead of them determine |
| Getopt.Scanner.TakeLongOption | ecos/ecosap/shell/getopt_long.c:199-251 | argument, optopt, *idx, *flag, optind and the value for a long option, with and without "=argument" |
| Getopt.Scanner.ParseLongOptions | ecos/ecosap/shell/getopt_long.c:152-252 | reports what the pure scan reports for the text at place, and -1 exactly if it may be short options |
| Getopt.Scanner.TakeDashW | ecos/ecosap/shell/getopt_long.c:407-423 | "-W name" in one element or two, or a missing argument |
| Getopt.Scanner.TakeShortOption | ecos/ecosap/shell/getopt_long.c:424-454 | a letter with no, required or optional argument, in the same element or the next |
| Getopt.Scanner.ParseShortOption | ecos/ecosap/shell/getopt_long.c:390-454 | the letter at place, as the pure scan has it |
| Getopt.Scanner.ParseHere | ecos/ecosap/shell/getopt_long.c:370-454 | the element at place, long or short, as the pure scan has it |
| Getopt.Scanner.Finish | ecos/ecosap/shell/getopt_long.c:301-316 | at the end the vector is stably partitioned and optind is the first element not consumed; both blocks are non-empty when they are exchanged |
| Getopt.Scanner.SkipNonOption | ecos/ecosap/shell/getopt_long.c:335-348 | a non-option joins the skipped block, which is moved behind the options met since; what is ahead of the scan is not touched |
| Getopt.Scanner.ExamineElement | ecos/ecosap/shell/getopt_long.c:317-367 | one element in front of the scan is skipped, reported, made ready, or ends the scan, as the pure scan has it |
| Getopt.Scanner.NextElement | ecos/ecosap/shell/getopt_long.c:296-368 | the goto loop passes exactly the non-options in front of the next option |
| Getopt.Scanner.GetoptInternal | ecos/ecosap/shell/getopt_long.c:266-455 | one call reports what the pure scan of the original vector reports from the same place and keeps the arrangement for all elements passed so far |
| Getopt.Scanner.GetoptLong | ecos/ecosap/shell/getopt_long.c:481-498 | the same for the two permuting entry points |
| Getopt.Scanner.ParseAll | ecos/host/tools/menuconfig/conf.c:498 | all calls until -1: the results are those of the pure scan of the original vector, and the vector ends as consumed elements, skipped ones, untouched rest, each in original order, with optind at the first one not consumed |
| OptionTexts.LookupExactly | ecos/ecosap/shell/getopt_long.c:169-198 | a name stands for entry i of the table, for none, or is unclear, each if and only if a condition on the names in the table holds |
| OptionTexts.ShortOption | ecos/ecosap/shell/getopt_long.c:407-454 | an option letter: without ':' no argument, and the next letter follows; with ':' the rest of the element or the next element, or '?' or ':' if there is none; with '::' the next element only if arguments are not moved and it does not begin with '-' |
| OptionTexts.UnknownLetter | ecos/ecosap/shell/getopt_long.c:390-406 | any other letter, and ':', is '?' with the letter in optopt; a last '-' ends the run |
| OptionTexts.LongElement | ecos/ecosap/shell/getopt_long.c:152-261 | a long option, behind "--" or, for getopt_long_only, "-": its value or 0 and the store, its entry, and its argument behind '=' or in the next element; an argument missing or not allowed is '?' or ':' |
| OptionTexts.UnknownName | ecos/ecosap/shell/getopt_long.c:183-253 | a name that is unclear or unlisted is '?' with optopt 0 |
| OptionTexts.ShortAfterAll | ecos/ecosap/shell/getopt_long.c:376-389 | for getopt_long_only, letters that are no long option are read as without it |
| OptionTexts.DashWIsDoubleDash | ecos/ecosap/shell/getopt_long.c:407-423 | "-W name" and "-Wname" are read as "--name" is |
| OptionTexts.FirstLetter | ecos/ecosap/shell/getopt_long.c:351-355 | an element of two characters or more that begins with '-' is read from its second one on, "--" aside |
| OptionTexts.OtherElements | ecos/ecosap/shell/getopt_long.c:299-368 | the end, "--", and arguments that are no options, which are reported, end the run, or are skipped, as the mode demands |
| OptionVectors.Configured | ecos/ecosap/shell/getopt_long.c:275-286 | '+' in front of the option letters, or POSIXLY_CORRECT, keeps arguments where they are; '-' reports each of them |
| OptionVectors.RoundTrip | ecos/ecosap/shell/getopt_long.c:266-455 | a vector written from a list of letters, names, arguments and operands, in any of the three modes, is reported as just that list, and everything up to its end has been passed |
| OptionVectors.PickWritten | ecos/ecosap/shell/getopt_long.c:113-117 | the elements consumed are those of the options, the ones skipped the operands |
| OptionVectors.WrittenIsParsed | ecos/host/tools/menuconfig/conf.c:498 | all calls on such a vector: the results are what the list says, one after the other, and the vector ends as the elements of the options, "--" if there is one, the operands, and the rest, with optind at the first operand |
| ParentMap.MoveRanked | ecos/host/libcdl/base.cxx:1970-1999 | moving a node below one that is neither itself nor its descendant leaves no cycle |
| ParentMap.MoveClosesCycle | ecos/host/libcdl/base.cxx:3663-3680 | a move closes a cycle if and only if the new parent is the node itself or a descendant of it |
| HierarchyView.AddOk | ecos/host/libcdl/base.cxx:1769-1810 | adding keeps parents and contents, owners and owned, the name table and the loadables in step, names unique and the hierarchy acyclic |
| HierarchyView.MoveOk | ecos/host/libcdl/base.cxx:1970-1999 | so does re-parenting, unless the new parent is the node or below it |
| HierarchyView.DetachOk | ecos/host/libcdl/base.cxx:1819-1866 | so does the first step of a removal, for loadables directly below the toplevel |
| HierarchyView.AttachOk | ecos/host/libcdl/base.cxx:1891-1922 | so does undoing it while the place is still there and the name is not taken |
| HierarchyView.DeleteOk | ecos/host/libcdl/base.cxx:1944-1966 | so does the second step, for a removed node with empty contents |
| HierarchyLaws.DetachAttach | ecos/host/libcdl/base.cxx:1889-1922 | add_node_to_toplevel restores every field remove_node_from_toplevel has changed |
| HierarchyLaws.ReturnedUndoesRemoved | ecos/host/libcdl/base.cxx:1868-1938 | the nodes of a loadable removed from the back and returned from the front: the hierarchy is as before, after each step |
| HierarchyLaws.LastOutFirstIn | ecos/host/libcdl/base.cxx:1838-1938 | any sequence of fully attached loadables directly below the toplevel, removed and returned in reverse order, leaves contents order, loadables order, name table and all fields as they were |
| HierarchyLaws.RemovedIsReturnable | ecos/host/libcdl/base.cxx:1891-1938 | a loadable removed with all it owns meets every demand of add_loadable_to_toplevel |
| HierarchyLaws.SettledExactly | ecos/host/libcdl/base.cxx:1812-1817 | no removal is half done if and only if the attached nodes are those below the toplevel |
| HierarchyLaws.LookupAgrees | ecos/host/libcdl/base.cxx:757-760 | when no removal is half done, lookup by name and a recursive find_node from the toplevel give the same answer |
| HierarchyLaws.TableFinds | ecos/host/libcdl/base.cxx:2075-2091 | and what the name table has is what the search may find |
| HierarchyLaws.AddSettled | ecos/host/libcdl/base.cxx:1769-1810 | adding below an attached parent leaves no removal half done |
| HierarchyLaws.MoveSettled | ecos/host/libcdl/base.cxx:1970-1999 | nor does re-parenting below an attached parent |
| HierarchyLaws.RemovedSettled | ecos/host/libcdl/base.cxx:1868-1887 | nor does removing all of an unloaded loadable |
| HierarchyLaws.ContainsIsCycleTest | ecos/host/libcdl/base.cxx:3663-3680 | the recursive contains test rejects exactly the moves that would close a cycle |
| HierarchyLaws.RootOrderExactly | ecos/host/libcdl/base.cxx:3613-3626 | the nodes with a parent property are ahead of the others below the toplevel after the move, given that the rest of them were, if and only if the node was not there already ahead of the first one without |
| HierarchyLaws.BindKeepsRootOrder | ecos/host/libcdl/base.cxx:3608-3626 | a node that is new and appended below the toplevel, comes from elsewhere, or was put last by unloading is moved in order; so bind keeps the order as long as no move is refused, since a loadable that is refused elsewhere stays where it was appended |
| HierarchyUnload.UnloadStep | ecos/host/libcdl/base.cxx:3573-3589 | one Unloading move closes no cycle, the loadable being directly below the toplevel or moved there first |
| HierarchyUnload.UnloadedOk | ecos/host/libcdl/base.cxx:1304-1313 | nor do all of them in owned order; afterwards each node with a parent property is below its loadable, and the loadable below the toplevel |
| HierarchyUnload.UnloadedIsIsolated | ecos/host/libcdl/base.cxx:3573-3578 | after unloading, the loadable has all of its own nodes below it and no others |
| HierarchyUnload.RemovedIsDestroyable | ecos/host/libcdl/base.cxx:1047-1068 | removing it then gives the destructor what it relies on |
| HierarchyUnload.EmptyWhenDeleted | ecos/host/libcdl/base.cxx:740-755 | when its turn comes in reverse owned order, a node is removed from the toplevel, its contents are empty, and it owns nothing but, if it is the loadable, itself |
| HierarchyUnload.AllDeleted | ecos/host/libcdl/base.cxx:1070-1082 | at the end all owned nodes are gone and nothing else has changed |
| HierarchyUnload.GoneSettled | ecos/host/libcdl/base.cxx:1070-1082 | no removal is half done afterwards, so lookup and search still agree |
| Hierarchy.Toplevel.constructor | ecos/host/libcdl/base.cxx:1663-1705 | a new toplevel contains the orphans container and nothing else |
| Hierarchy.Toplevel.AddNode | ecos/host/libcdl/base.cxx:1769-1810 | the whole new state, orphans standing in for a missing parent; all invariants kept |
| Hierarchy.Toplevel.ChangeParent | ecos/host/libcdl/base.cxx:1970-1999 | the whole new state, last or at a position, also within one parent; all invariants kept |
| Hierarchy.Toplevel.RemoveNodeFromToplevel | ecos/host/libcdl/base.cxx:1819-1866 | the whole new state, with the two places a loadable goes back to; all invariants kept |
| Hierarchy.Toplevel.AddNodeToToplevel | ecos/host/libcdl/base.cxx:1891-1922 | the whole new state; all invariants kept |
| Hierarchy.Toplevel.RemoveNode | ecos/host/libcdl/base.cxx:1944-1966 | the whole new state once the node has been deleted too; all invariants kept |
| Hierarchy.Toplevel.RemoveLoadableFromToplevel | ecos/host/libcdl/base.cxx:1868-1887 | the attached nodes of the loadable are removed from the back |
| Hierarchy.Toplevel.AddLoadableToToplevel | ecos/host/libcdl/base.cxx:1924-1938 | its nodes are returned from the front |
| Hierarchy.Toplevel.Unload | ecos/host/libcdl/base.cxx:1304-1313 | the Unloading updates of all owned nodes, keeping every invariant on the way |
| Hierarchy.Toplevel.Update | ecos/host/libcdl/base.cxx:3548-3692 | for each kind of change and destination: ignored, re-parented to the right place, or refused with the hierarchy unchanged because the destination is no container or the move would close a cycle |
| Hierarchy.Toplevel.MoveToRoot | ecos/host/libcdl/base.cxx:3613-3626 | the node goes below the toplevel at the first place held by a node without a parent property, a place that always exists |
| Hierarchy.Toplevel.MoveBelow | ecos/host/libcdl/base.cxx:3646-3689 | the move is refused if and only if the destination is no container or lies below the node |
| Hierarchy.Toplevel.DestroyLoadable | ecos/host/libcdl/base.cxx:1047-1098 | everything the loadable owns is gone, nothing else has changed, and every invariant holds |
| HierarchyCancel.UnloadedRest | ecos/host/libcdl/base.cxx:1304-1313 | unloading a loadable changes nothing about the nodes it does not own, nor their order |
| HierarchyCancel.RemovedRest | ecos/host/libcdl/base.cxx:1868-1887 | nor does removing it |
| HierarchyCancel.GoneIsUnwound | ecos/host/libcdl/base.cxx:1398-1399 | once it is destroyed, what is left of the hierarchy has every field and order it had before |
| HierarchyCancel.OrphanedIsUnloadable | ecos/host/libcdl/base.cxx:1290-1313 | once the references to a loadable are dissolved, everything of others is out of its containers and it can be unloaded |
| HierarchyCancel.UnwoundIsCancelled | ecos/host/libcdl/base.cxx:1380-1402 | dissolved, unloaded, removed and destroyed, a loadable leaves every container without its nodes, the nodes that referred to it last among the orphans, and all else as it was |
| HierarchyCancel.CancelledSettled | ecos/host/libcdl/base.cxx:1380-1402 | lookup and search agree afterwards |
| HierarchyLoad.LoadKeeps | ecos/host/libcdl/base.cxx:1196-1274 | any legal sequence of added and re-parented nodes keeps every invariant, and changes old nodes only where a parent property moves an orphan |
| HierarchyLoad.LoadIsCancellable | ecos/host/libcdl/base.cxx:1380-1402 | every such load meets what cancelling demands |
| HierarchyLoad.CancelRestoresExactly | ecos/host/libcdl/base.cxx:1380-1402 | the cancelled hierarchy equals the one before the load in every field if and only if the old nodes that refer to the loadable were the last orphans, in that order |
| HierarchyLoad.CancelUndoesLoad | ecos/host/libcdl/base.cxx:1196-1402 | the same for every legal load from its first step to its cancellation |
| HierarchyLoad.OwnReferencesRestore | ecos/host/libcdl/base.cxx:1380-1402 | the condition holds if only its own nodes refer to the loadable |
| HierarchyLoad.AdoptedExample | ecos/host/libcdl/base.cxx:1213-1250 | a load after which it does not hold |
| Hierarchy.Toplevel.DissolveReferences | ecos/host/libcdl/base.cxx:1290-1303 | the nodes whose parent property names a node of the loadable become orphans one after the other, keeping every invariant |
| Hierarchy.Toplevel.CancelLoad | ecos/host/libcdl/base.cxx:1380-1402 | unbinding, removing and deleting a loadable takes its own nodes out, returns what it had adopted to the orphans and leaves everything else in its place and order |
| Hierarchy.Toplevel.Contains | ecos/host/libcdl/base.cxx:776-802 | the recursive search ends and is true if and only if the node is in the container or, recursing, below it |
| Hierarchy.Toplevel.FindNode | ecos/host/libcdl/base.cxx:832-860 | it returns a node of that name in reach, and none only if there is none |
| Hierarchy.Toplevel.Lookup | ecos/host/libcdl/base.cxx:2075-2091 | the attached node of that name if there is one, which is also what a recursive find_node from the toplevel gives when no removal is half done, and none otherwise |
| Propagation.RecalculatedAnnounces | ecos/host/libcdl/interface.cxx:459-518 | recalculating interfaces, and those that these implement in turn, changes values of interfaces only, and every node that changes is queued; interfaces may implement each other |
| Propagation.UpdatedKeeps | ecos/host/libcdl/value.cxx:2009-2038 | one update of a flag or a default makes it right, and nothing else becomes wrong without something it looks at being queued |
| Propagation.ReparentedAndTested | ecos/host/libcdl/base.cxx:3679-3687 | change_parent followed by the test of the node leaves nothing wrong unnoticed in the new hierarchy, wherever below a loaded node it goes |
| Propagation.GiveKeeps | ecos/host/libcdl/transact.cxx:592-645 | nor does giving a value |
| Propagation.VisitKeeps | ecos/host/libcdl/transact.cxx:1645-1706 | visiting the contents and referrers of the node at the front makes up for taking it from its queue |
| Propagation.RunKeeps | ecos/host/libcdl/transact.cxx:1638-1710 | in every state of a run each loaded node has the right flag, each default is the result of its expression, or something it looks at waits |
| Propagation.QuietMeansExact | ecos/host/libcdl/value.cxx:3074-3115 | once nothing waits, a loaded node is active if and only if its goals hold and everything above it that has a value is enabled with its goals met; a default with data is the result of its expression, one that can be off is on if and only if the result is a number other than 0 or a text other than "" and the spellings of false |
| Propagation.DefaultsAreResults | ecos/host/libcdl/value.cxx:1227-1265 | the same of defaults for every state in which nothing is left to do, by flavor |
| Propagation.StepFromFront | ecos/host/libcdl/transact.cxx:1645-1706 | values are taken before flags, and of each the one that has waited longest |
| Interfaces.RecalculatedCounts | ecos/host/libcdl/interface.cxx:459-518 | the recursion ends, since on the way interfaces only become enabled, or only disabled; interfaces that are recalculated then have the number of their active and enabled implementers, and the others keep it |
| Interfaces.CountIsCardinality | ecos/host/libcdl/interface.cxx:466-477 | the count is the number of places in the list of implementers that hold an active and enabled node |
| Interfaces.CountedByFlavor | ecos/host/libcdl/interface.cxx:479-513 | an interface that is counted is on if and only if there is such a place, and its data is their number |
| Interfaces.SetActiveCounts | ecos/host/libcdl/transact.cxx:688-722 | setting a flag leaves every interface counted |
| Interfaces.GiveCounts | ecos/host/libcdl/transact.cxx:592-645 | so does giving a value |
| Interfaces.RunCounts | ecos/host/libcdl/transact.cxx:1638-1710 | in every state of a run all interfaces are counted, even while changes wait |
| Settling.VisitDecreases | ecos/host/libcdl/transact.cxx:1645-1706 | if no node depends on itself, interfaces aside that implement each other, the changes that a visit queues, those of interfaces included, cost less than the visit |
| Settling.EndsWhenLayered | ecos/host/libcdl/transact.cxx:1638-1710 | then propagation ends, within the cost of what waits |
| Settling.PlainIsLayered | ecos/host/libcdl/base.cxx:883-921 | no node of a hierarchy without references and interfaces depends on itself |
| Settling.SolutionIsUnique | ecos/host/libcdl/value.cxx:3074-3115 | if no node depends on itself and no interface implements itself, two solutions for the same given values have the same flags and values |
| Settling.ResultIsDetermined | ecos/host/libcdl/transact.cxx:1638-1710 | then propagation arrives at the same flags and values from any two states with the same given values, whatever has changed in which order |
| Endless.EndlessExample | ecos/host/libcdl/func.cxx:548-565 | two options, one active if the other is not, the other if the one is: no number of rounds empties the queues |
| Endless.TwoResults | ecos/host/libcdl/interface.cxx:459-518 | two interfaces that implement each other: nothing is left to do with both enabled, and with both disabled |
| Endless.TrapNeverEnds | ecos/host/libcdl/value.cxx:1823-2038 | where there are no interfaces and some nodes depend on each other in a circle through goals, expressions and parents, there are such goals and expressions, and a start from which the queues are never empty |
| Endless.EndsExactly | ecos/host/libcdl/transact.cxx:1638-1710 | without interfaces, the references let propagation end whatever goals and expressions say and wherever it starts, if and only if no node depends on itself |
| Transactions.Transaction.IsActive | ecos/host/libcdl/transact.cxx:665-687 | the flag according to the changes made in the transaction, and otherwise the earlier one |
| Transactions.Transaction.CountImplementers | ecos/host/libcdl/interface.cxx:466-477 | how many implementers are active and enabled, one with two implements properties counting twice |
| Transactions.Transaction.Recalculate | ecos/host/libcdl/interface.cxx:459-518 | the value is the count by flavor, and interfaces that the interface implements follow, also in a circle |
| Transactions.Transaction.SetWholeValue | ecos/host/libcdl/transact.cxx:592-645 | the whole new state: value, queue entry if it has changed and is not queued, and the interfaces if its enabled part has |
| Transactions.Transaction.GiveValue | ecos/host/libcdl/value.cxx:3311-3325 | the value is in force and given, queued if it has changed, and only interfaces change besides; nothing goes unnoticed, and every interface stays counted |
| Transactions.Transaction.SetActive | ecos/host/libcdl/transact.cxx:688-722 | the flag is recorded, its opposite forgotten, the node queued, and the interfaces it implements recalculated |
| Transactions.Transaction.TestActive | ecos/host/libcdl/value.cxx:3074-3115 | true if and only if the parent is active and, if it has a value, enabled, and the goals of the node hold |
| Transactions.Transaction.Retest | ecos/host/libcdl/value.cxx:2009-2038 | the node gets the flag that is tested for; also the test after re-parenting |
| Transactions.Transaction.Reevaluate | ecos/host/libcdl/value.cxx:1823-1866 | a default that is in force becomes the result of its expression by flavor: the data, or on for a number other than 0 or a text other than "" and the spellings of false; a value that was given stays |
| Transactions.Transaction.Bind | ecos/host/libcdl/base.cxx:1249-1274 | whatever flags and defaults the new nodes start with, afterwards nothing is wrong unnoticed, and interfaces stay counted |
| Transactions.Transaction.UpdateContents | ecos/host/libcdl/base.cxx:883-921 | both branches do the same as testing each node in the container in order |
| Transactions.Transaction.Visit | ecos/host/libcdl/transact.cxx:1677-1704 | contents, then referrers in order, unless the node is no longer loaded |
| Transactions.Transaction.Round | ecos/host/libcdl/transact.cxx:1645-1706 | values first, then flags, each time the front of the queue |
| Transactions.Transaction.Propagate | ecos/host/libcdl/transact.cxx:1638-1710 | the loop ends with both queues empty, every flag and default right, and interfaces counted |
| Integers.StringToInteger | ecos/host/libcdl/cdlmisc.cxx:197-346 | the loops accept exactly the texts the grammar of numbers does, with the value the wrapping accumulator gives |
| Integers.ParseExact | ecos/host/libcdl/cdlmisc.cxx:245-345 | the value is right if and only if its magnitude is below 2^63; what is accepted beyond that is right modulo 2^64; within a known number of digits nothing beyond is accepted |
| Integers.UndetectedOverflow | ecos/host/libcdl/cdlmisc.cxx:245-265 | a hex text that passes the overflow test with its leading digit lost |
| IntegerTexts.FormIsRead | ecos/host/libcdl/cdlmisc.cxx:197-346 | white space, possibly '+', possibly '-', and "0x", "0X", "0" or nothing with digits of the base: the sign times the positional value of the digits is read if and only if it is below 2^63 in size; longer than is safe aside, the text is rejected otherwise |
| IntegerTexts.OnlyForms | ecos/host/libcdl/cdlmisc.cxx:197-346 | a text that is accepted has this form: with any other character it is rejected |
| IntegerTexts.ReadsUpToNul | ecos/host/libcdl/cdlmisc.cxx:207 | what is behind a NUL does not matter |
| IntegerTexts.DigitExactly | ecos/host/libcdl/cdlmisc.cxx:250-262 | a digit is worth its place in "0123456789abcdef" or "0123456789ABCDEF" |
| Integers.PrintHex | ecos/host/libcdl/cdlmisc.cxx:454-491 | 8 or 16 hex digits, written backwards inside the 24-byte buffer |
| Integers.PrintOctal | ecos/host/libcdl/cdlmisc.cxx:493-510 | octal digits without leading zeros, inside the buffer |
| Integers.PrintDecimal | ecos/host/libcdl/cdlmisc.cxx:511-537 | decimal digits with a sign, the smallest number included, inside the buffer |
| Integers.IntegerToString | ecos/host/libcdl/cdlmisc.cxx:433-540 | the text of every 64-bit number in each format |
| Integers.RoundTrip | ecos/host/libcdl/cdlmisc.cxx:197-540 | reading back what was printed gives the number, in decimal if and only if it is not the smallest, in hex and octal if and only if it is not negative |
| IntegerTexts.PrintedHex | ecos/host/libcdl/cdlmisc.cxx:454-491 | "0x" and 8 or 16 capital hex digits, "0x0" for zero |
| IntegerTexts.PrintedOctal | ecos/host/libcdl/cdlmisc.cxx:493-510 | '0' and octal digits with no other zero in front, "0" unless positive |
| IntegerTexts.PrintedDecimal | ecos/host/libcdl/cdlmisc.cxx:511-537 | decimal digits without zeros in front, behind '-' if negative |
| Integers.MinimumText | ecos/host/libcdl/cdlmisc.cxx:515-526 | the text of the smallest number |
| Versions.CompareVersions | ecos/host/libcdl/cdlmisc.cxx:884-1014 | the two-pointer loop computes the lexicographic comparison of the token lists |
| Versions.RunValueExact | ecos/host/libcdl/cdlmisc.cxx:953-977 | digit runs that fit an int are compared by the numbers they denote |
| Versions.LexTransitive | ecos/host/libcdl/cdlmisc.cxx:918-1012 | the comparison of token lists is transitive |
| Versions.CompareOpposite | ecos/host/libcdl/cdlmisc.cxx:847-877 | swapping the arguments reverses the answer, for all strings |
| Versions.CompareZero | ecos/host/libcdl/cdlmisc.cxx:889-915 | two versions are the same if and only if their token lists are, up to a leading v; "current" is newer than everything else |
| Versions.TransitiveExactly | ecos/host/libcdl/cdlmisc.cxx:910-916 | the order is transitive on a triple if and only if it does not mix v, V and a string between the two the wrong way round |
| Versions.TransitiveByFirstCharacters | ecos/host/libcdl/cdlmisc.cxx:910-916 | so it is transitive wherever the first characters of no arrangement of the triple put one version between a small and a capital v |
| Versions.TransitiveWhenUniform | ecos/host/libcdl/cdlmisc.cxx:847-877 | on versions that all start with a v, or of which none does, newest-first is a total preorder |
| Versions.CircularExample | ecos/host/libcdl/cdlmisc.cxx:910-916 | "v1", "Z" and "V2" go round in a circle |
| VersionTexts.Derived | ecos/host/libcdl/cdlmisc.cxx:864-952 | with a separator and more behind it a version is newer, with any other character but a digit older |
| VersionTexts.FirstDifference | ecos/host/libcdl/cdlmisc.cxx:979-1010 | where two versions first differ, a separator is newer than anything else, and otherwise, unless both are digits, the larger character |
| VersionTexts.Interchangeable | ecos/host/libcdl/cdlmisc.cxx:878-995 | with one separator in place of another a version is the same, and compares the same with every other |
| VersionTexts.CaseOfV | ecos/host/libcdl/cdlmisc.cxx:910-916 | the case of a v in front of both does not matter |
| VersionTexts.NumbersDecide | ecos/host/libcdl/cdlmisc.cxx:953-977 | behind equal texts the larger number, as far as it fits an int, is the newer one; between equal numbers, whatever their zeros in front, the rest decides |
| SavefileTables.Toplevel.HandleCommand | ecos/host/libcdl/base.cxx:2748-2852 | what one line adds to the tables and whether it is reported; no duplicates, nothing known, no subcommands without a command |
| SavefileTables.Toplevel.Save | ecos/host/libcdl/base.cxx:2584-2671 | the text of a minimal save: the version, known commands with known and then unsupported subcommands, then the unsupported commands, all names as they are |
| SavefileTables.LoadedTidy | ecos/host/libcdl/base.cxx:2774-2840 | whatever lines are loaded, the tables hold no duplicates and nothing the application knows |
| SavefileTables.LoadedExactly | ecos/host/libcdl/base.cxx:2748-2852 | after any lines the tables hold exactly the commands and subcommands mentioned that the application does not know |
| TclWords.ListReadsBack | ecos/host/libcdl/base.cxx:2807-2840 | names joined by blanks split into the same names if and only if none is empty, contains white space or a backslash, or begins with a brace or a quote |
| TclWords.CommandReadsBack | ecos/host/libcdl/base.cxx:2633-2661 | a command with a name and a braced list is read word for word and name for name, and reading goes on behind it, if and only if the name needs no quoting, the names in the list do not, and the braces in the list match |
| SavefileTables.LineReadsBack | ecos/host/libcdl/base.cxx:2633-2661 | the same for each line of a savefile, whatever follows it |
| SavefileTables.SavedReadsBack | ecos/host/libcdl/base.cxx:2609-2671 | if all names are plain the text of a savefile is read back line for line |
| SavefileTables.BlankExample | ecos/host/libcdl/base.cxx:2652-2661 | a table with the subcommand "y z" is saved and read back with "y" and "z" |
| SavefileTables.NothingIsLost | ecos/host/libcdl/base.cxx:2490-2500 | if all names are plain, loading any lines, saving and reading the text keeps every command and subcommand, whatever the application knows |
| SavefileTables.RoundTrip | ecos/host/libcdl/base.cxx:2578-2583 | if all names are plain, loading the text that was saved into a new toplevel rebuilds the tables in order, and a second save writes the same text |
| ShellHistory.AddHistoryNode | ecos/ecosap/shell/shelltask.c:69-86 | a node appended to a chain gives a chain |
| ShellHistory.BuildHistoryList | ecos/ecosap/shell/shelltask.c:88-114 | a ring of n distinct nodes, linked both ways, numbered downwards |
| ShellHistory.NextPrevInverse | ecos/ecosap/shell/shelltask.c:110-111 | on a ring next and prev undo each other |
| ShellArgs.JoinedWords | ecos/ecosap/shell/shelltask.c:374-389 | the words of any line joined by single spaces give the line back |
| ShellArgs.SplitArgs | ecos/ecosap/shell/shelltask.c:374-389 | every argument points to the word at its place in the line, read from the buffer with its new terminators; there are as many as there are further words |
| ShellArgs.CountArgs | ecos/ecosap/shell/shelltask.c:335-393 | the first 20 characters of the first word select the first command of that name; the arguments are the words after it; an unknown command leaves the buffer alone |
| ShellLine.RunOk | ecos/ecosap/shell/shelltask.c:178-329 | over every sequence of keys the line has no leading and no adjacent spaces, remembered lines no end space either, and all are at most 255 long |
| ShellLine.Recalls | ecos/ecosap/shell/shelltask.c:207-264 | after lines have been entered without recalling, j presses of Ctrl-P bring back the j-th latest, up to the size of the ring |
| ShellLine.Shell.constructor | ecos/ecosap/shell/shelltask.c:150-174 | an empty line and a ring of empty entries |
| ShellLine.Shell.Press | ecos/ecosap/shell/shelltask.c:171-327 | what each key does to line, ring and place in it, and what Enter executes |
| ShellTyping.TypingAppends | ecos/ecosap/shell/shelltask.c:307-326 | the characters of any text that are a line together with the line so far are put behind it; ring and place stay |
| ShellTyping.Erasing | ecos/ecosap/shell/shelltask.c:243-305 | Ctrl-B, Backspace and Delete take the last character away |
| ShellTyping.TypedAndErased | ecos/ecosap/shell/shelltask.c:243-326 | a character typed and taken away leaves everything as it was |
| ShellTyping.Emptied | ecos/ecosap/shell/shelltask.c:286-295 | Ctrl-U empties the line |
| ShellTyping.Ignored | ecos/ecosap/shell/shelltask.c:179-206 | a space at the start or behind a space, Ctrl-A and unknown keys are ignored; Ctrl-F is stored |
| ShellTyping.Overflow | ecos/ecosap/shell/shelltask.c:321-326 | behind the 256th character the position wraps round, and the line begins again |
| ShellTyping.StepAndBack | ecos/ecosap/shell/shelltask.c:207-241 | Ctrl-P and Ctrl-N undo each other's step in the ring, and each shows the line at the place it goes to |
| ShellTyping.TypedAndEntered | ecos/ecosap/shell/shelltask.c:250-284 | a line typed and entered is remembered at the place, without a space at its end, and the next place is current |
| ShellTyping.WordsOfJoined | ecos/ecosap/shell/shelltask.c:374-389 | words joined by single spaces are split into the same words |
| ShellTyping.ExecutedWords | ecos/ecosap/shell/shelltask.c:345-393 | the first command named by the first word, or by its first 20 characters, gets the other words; without one nothing is called |
| ShellLine.Shell.Load | ecos/ecosap/shell/shelltask.c:219-222 | the buffer holds the remembered line and the position is at its end |
| ShellLine.Shell.Enter | ecos/ecosap/shell/shelltask.c:250-284 | the line is remembered without its end space at the current place, the next place is current, and the command found gets the line's further words |
| BuildStep.Accepted | ecos/host/libcdl/build.cxx:227-233 | every text of the form white space, target, blanks, colon, blanks, dependencies, newline or semicolon, rules is accepted with just those parts |
| BuildStep.OnlyAccepted | ecos/host/libcdl/build.cxx:238-339 | nothing else is accepted |
| BuildStep.Rejected | ecos/host/libcdl/build.cxx:251-336 | what is rejected, and as what: nothing, no colon, no dependencies, nothing behind them, no rules |
| BuildStep.RulesOf | ecos/host/libcdl/build.cxx:304-326 | each line of the rules is kept without its blanks in front, and ends in a newline even if it is the last |
| BuildStep.RulesAreLines | ecos/host/libcdl/build.cxx:304-326 | the rules are lines that each end in a newline and do not start with a blank |
| BuildStep.NormalForm | ecos/host/libcdl/build.cxx:238-339 | the three parts put together again split into the same three parts |
| BuildStep.SplitBuildStep | ecos/host/libcdl/build.cxx:238-339 | the loops accept what the grammar accepts, with its parts or its error |
| ConfigHeaders.WrittenOnce | ecos/host/libcdl/build.cxx:2093-2156 | every loadable is written exactly once |
| ConfigHeaders.SharingOwn | ecos/host/libcdl/build.cxx:2142-2150 | and only to its own header |
| ConfigHeaders.SharingJoin | ecos/host/libcdl/build.cxx:2142-2150 | in the order of the loadables |
| ConfigHeaders.AnnouncedFiles | ecos/host/libcdl/build.cxx:2184-2226 | the headers announced are system.h and those generated, and no others |
| ConfigHeaders.Announced | ecos/host/libcdl/build.cxx:2184-2226 | in the same order, if no loadable has system.h for its own header |
| ConfigHeaders.FirstsInOrder | ecos/host/libcdl/build.cxx:2193-2226 | a header comes ahead of another that is wanted later |
| ConfigHeaders.GetConfigHeaders | ecos/host/libcdl/build.cxx:2193-2226 | system.h and then each header once, where it is first wanted |
| ConfigHeaders.GenerateConfigHeaders | ecos/host/libcdl/build.cxx:2105-2157 | each header once, where it is first wanted, with all loadables that share it in their order |
| Checksum.NoOverflow | ecos/ecosap/shell/ping.c:59-77 | with at most 65537 words the 32-bit accumulator cannot wrap round |
| Checksum.WordsAre | ecos/ecosap/shell/ping.c:74-83 | each word has two bytes of the packet in the byte order of the machine, and an odd byte is the first of a last word |
| Checksum.TwoFolds | ecos/ecosap/shell/ping.c:85-90 | two folds bring any value of the accumulator to its residue modulo 65535 |
| Checksum.ChecksumIsComplement | ecos/ecosap/shell/ping.c:59-92 | the result is the complement of the ones' complement sum |
| Checksum.RightExactly | ecos/ecosap/shell/ping.c:59-92 | for every length that fits an int the result is that complement if and only if the words sum up to less than 2^32 |
| Checksum.OverflowExample | ecos/ecosap/shell/ping.c:74-77 | a packet of 131076 bytes with all bits set, one word more than is safe, gets a wrong checksum |
| Checksum.ChecksExactly | ecos/ecosap/shell/ping.c:157-171 | a packet checks if and only if its field holds the checksum of the packet with a zero field, up to a multiple of 65535 |
| Checksum.InsertedChecks | ecos/ecosap/shell/ping.c:157-171 | with the checksum inserted at an even place the packet checks |
| Checksum.OtherByteOrder | ecos/ecosap/shell/ping.c:59-92 | a machine of the other byte order gets the byte-swapped checksum |
| Checksum.InetChecksum | ecos/ecosap/shell/ping.c:59-92 | the loop over words and an odd byte computes the folded complement of the 32-bit sum |
| Checksum.PutChecksum | ecos/ecosap/shell/ping.c:157-171 | afterwards the packet checks, and nothing but the field has changed |
| TraceRing.NewestIs | ecos/host/infra/trace.cxx:666-678 | what the latest n messages are, newest first |
| TraceRing.Tracer.Trace | ecos/host/infra/trace.cxx:170-346 | the message takes the place of the oldest one and all others keep theirs |
| TraceRing.Tracer.Dump | ecos/host/infra/trace.cxx:659-679 | whatever was traced, the latest messages that fit the buffer come out once each, newest first |

## Left out

- Getopt.Scanner.TakeLongOption: not for a long option whose value is -1.
- Getopt.Scanner.ParseLongOptions: not for long options whose value is -1, which the code takes for "not a long option", so that no caller may give it; `Config.Valid` excludes them.
- OptionVectors.RoundTrip: for getopt_long; how getopt_long_only tells long options from letters is said element by element (`OptionTexts.LongElement`, `OptionTexts.ShortAfterAll`).
- Error messages of `getopt_long`, screen echo and printing of the shell, diagnostics and Tcl output: foreign input and output.
- The environment variable POSIXLY_CORRECT is read once per process; here it is a parameter of the scanner.
- Failing allocations, cookies, memory-leak counters and tracing macros; assertions of the code are preconditions or proved.
- Characters are ASCII; where the code has plain char its sign does not matter.
- VersionTexts.NumbersDecide: not for digit runs beyond an int, whose sum overflows.
- Signed overflow, undefined in C, is modelled as wrapping in the digit runs of versions and in the accumulators of numbers, and shifts of negative numbers as arithmetic.
- Fields of a node are parts of the state of its toplevel, as maps from the node, not fields of an object of its own; two toplevels sharing a node are not modelled.
- Hierarchy.Toplevel.FindNode: does not say which of several nodes of one name comes first, since names of attached nodes are unique.
- Hierarchy.Toplevel.RemoveNode: includes the deletion of the node that follows in the only two callers' loops, and so demands empty contents as the destructors do.
- Hierarchy.Toplevel.Update: without the retest of the active flag that follows a move, which is `Transactions.Transaction.Retest`, and the clearing of structural conflicts.
- Hierarchy.Toplevel.MoveBelow: likewise.
- Hierarchy.Toplevel.CancelLoad: the nodes that refer to the loadable are given, in the order of the references; of the Destroyed updates, only those of parent properties.
- Properties of nodes other than `parent`, `active_if`, `default_value`, `calculated` and `implements`; data conflicts beyond their being reported.
- Which nodes have a parent property is given to the operations, not tracked by them.
- Transactions.Transaction.Propagate: demands that no node depends on itself, since the loop may not end otherwise; `Round` is its body without that demand. Checks of `requires` and `legal_values` and the validity of solutions make conflicts but no changes, and are not modelled. The hierarchy and the references stay fixed during a run.
- Transactions.Transaction.IsActive: an enclosing transaction is represented by the set of nodes it calls active.
- Transactions.Transaction.GiveValue: the value in force is all that is kept of a value; going back to a default, which brings out the one stored beside it, is not modelled.
- Endless.EndsExactly: without interfaces and with nothing unloaded; with interfaces, levels are proved to suffice (`EndsWhenLayered`), not to be necessary.
- Goals and expressions are functions of the flags and values they refer to, a goal that cannot be evaluated counting as holding and an expression as 0; data that reads as a floating-point number is a text.
- Integers: conversions to and from double, flavors, sources and short forms, which are finite tables or library calls.
- SavefileTables.Toplevel.HandleCommand: the list of subcommands is given as split by Tcl, or as unsplittable; an invocation without arguments raises an error, and the continuation after an error callback, which reads past the arguments, is not modelled.
- TclWords.CommandReadsBack: word for word; that other words amount to the same line is not excluded. What Tcl substitutes for backslashes, variables and commands is not modelled, only that it is not the text as written.
- Registration of savefile commands: the known commands are given, with distinct names as `add_savefile_command` ensures; duplicate subcommands, which `add_savefile_subcommand` lets in, are allowed for.
- SavefileTables.Toplevel.Save: without the comment that goes on top unless the save is minimal; the version is given as text.
- ShellArgs.CountArgs: demands at most 10 arguments for a known command, as `argv` has no room for more.
- ShellArgs.SplitArgs: likewise.
- ShellLine.Shell.Enter: likewise.
- ShellLine.Shell.Press: likewise; the functions of commands are represented by their place in the table and the words passed to them; a remembered line is held as a string.
- BuildStep.SplitBuildStep: the texts of error messages.
- ConfigHeaders.GenerateConfigHeaders: what a loadable writes, and the comparison with the old file.
- Checksum.InetChecksum: a negative length, for which the code sums nothing; the rest of the packet and the network.
- Formatting of trace messages, and concurrent use of the trace buffer.
- Resolution and inference of conflicts, committing and nested transactions, packages, the build tree, the conflict dialogs, and the commands of the shell for networks, flash, threads and registers: sources not modelled or plain plumbing.
