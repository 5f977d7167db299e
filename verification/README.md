# Verified models of fwbuilder's Cisco compilers and ANTLR runtime

This project models the state-heavy parts of two libraries that ship in fwbuilder: the Cisco compilers
(`src/cisco_lib`) and the ANTLR 2 C++ runtime (`src/antlr`). It states what those parts are for and proves it.
`dafny verify dfyconfig.toml` checks everything.

| file | what it is about |
|---|---|
| `Basics` | options, minimum and maximum, three facts about sequences |
| `NatRules`, `NatMerge`, `StaticMerge` | PIX address translation: rules, commands, and what merging commands must achieve |
| `NatConfig` | the configuration lines and a firewall that reads them in order |
| `NatMeaning`, `NatOutput` | the printed configuration against the rules it came from |
| `NatCompiler` | the processors themselves: create, merge in place, print |
| `RewriteScript`, `RewriteProgram`, `RewriteEngine` | the token stream rewrite engine: edit scripts, how they accumulate, how they are applied |
| `HiddenFilter` | the filter that hangs hidden tokens on monitored ones |
| `LookaheadBuffer` | the circular queue and the token and input buffers, against a cursor on an endless stream |
| `AstRefCount`, `AstFreed` | the intrusive reference counts of syntax trees, and exactly what they free |
| `AstTree` | syntax trees as child and sibling links: building, copying, comparing, searching |
| `AclAssign`, `AclSplit`, `AclWhole`, `AclZones` | policy rules on their way to access lists, and what asking only first objects does to them |
| `Redundant` | removal of covered addresses from a rule element |
| `NetZone` | the interface whose network zone includes an address |

Loops over command maps, queues, links and counters are methods with loops; each is proved against a
specification, and the theorems are about the specification.

## What came out

- **Address translation.** The printed PIX configuration translates exactly what the rules ask for *if and only
  if* two conditions on the rules hold (`ExactMeaning`, for every list of rules): joining pools is closed under
  "same pool, then same match", and every access list that is handed on is handed to a command that still prints
  it. Rules with pairwise distinct matches always meet both (`DistinctIsExact`). The second condition fails when
  the same rule is given twice, because the loop that merges access lists never asks whether the command it
  merges into is silenced: then nothing at all is translated (`TwiceTheSameRule`). The first fails for
  `JoinedPoolsLeak`.
  Destination rules always come out right: every packet from outside goes exactly where some rule sends it
  (`DeliveryMeaning`). With list substitution, entries left in the lists by an earlier configuration do not matter
  (`LeftoversForgotten`).
- **Rewriting.** Every edit script, overlapping or going backwards, executes each operation exactly once.
  Scripts that go forward render position by position. `rollback` counts positions in the sorted list, while its
  documentation speaks of instructions by their index in a stream of them; `RollbackUndoes` says exactly when
  cutting undoes the later edits, and `RollbackUndoesEarlier` gives two edits of which it undoes the earlier.
- **Buffers.** Any orderly script of calls on a buffer sees what a plain cursor on the stream sees. Only item 0,
  the one before the cursor, depends on more: it is readable exactly when something is left behind the cursor, and
  compaction takes that away, which is the crash that a comment in `CircularQueue.hpp` works around by a large
  limit. A client that looks at an item, consumes it and looks back loses it after exactly every 1000001st
  (`LookBackAfter`). A consume with nothing queued is lost.
- **Reference counts.** Counts equal handles in every run, and what a cascade leaves does not depend on the order
  in which members are destroyed: exactly the nodes that can be reached or hang below a cycle (`SurvivorsExactly`,
  `SurvivesExactly`, `OneOutcome`). So an operation frees exactly what cannot be reached any more *if and only if*
  it leaves no cycle of garbage (`FreedExactly`, and `Play` for whole runs); `LeakACycle` is a run that ends with
  such a cycle. An assignment to a member writes to freed memory *if and only if* the member's node cannot be
  reached, from outside or from what is assigned, and does not hang below a cycle that does not use the member
  (`Assign`, `AssignRaw`, `AssignableExactly`); `ClearAbandoned` is a run that does. Without cycles it never does.
- **Access lists.** Each access list decides as the policy restricted to its interface and direction. The
  processors ask only the first object of an element. For the firewall and for broadcasts the splits before them
  make that right. For the cluster nothing does, so a rule is where it should not be exactly when, after the
  splits, a cluster object stands behind another one. For network zones the PIX compiler splits once more
  (`AclZones`), after which no rule is missing where it should be; IOS and NX-OS have that split commented out, and
  there a rule is missing exactly where some object's zone goes with the interface but the first one's does not
  (`FirstObjectExactly`, `CompileAcls`, `CompilePix`; `ClusterSlips` and `SecondZoneMissed` are inputs). For a
  packet of an interface's zone the interface's list decides as the whole policy exactly when the deciding rule
  does not span zones there (`ZoneDecides`). The zone split says in a comment that an object without a zone goes to
  all interfaces; it catches strings, though, while the search throws `FWException`, so the compilation fails,
  exactly when such an object is one of several (`CompilePix`).
- **Network zones.** The chosen zone is the narrowest one *if and only if* some match has less than 31 host bits,
  or none has 32 or more, or of those with 32 or more the one with the largest interface id is no wider than any
  match (`ChosenExactly`; networks with 32 or more host bits, so most IPv6 networks, all count as equally large).
  Within one zone the last match replaces earlier ones, so a list gives its narrowest match for every address *if
  and only if*, for each listed network, the last listed one that contains it is no wider (`InOrderExactly`;
  `NestedListFails` is a list that does not).
- **Building trees.** `RunIsWritten` gives the tree of any run of `addASTChild` and `makeASTRoot` in preorder. No
  node is lost, except that the children which the first root brings along are replaced by the first child added
  after it, because there is no current child then.
- **Partial tree matches** do not compose (`PartialIsNotTransitive`); `PartialTreeComposes` says for which trees
  they do.

## Model

| member | source | states |
|---|---|---|
| NatMerge.IdsStep | src/cisco_lib/NATCompiler_pix_optimizers.cpp:101-164 | one rule's relabelling keeps "ids are equal exactly on commands connected by pools and matches", and commands still to come keep their own ids |
| NatMerge.MergedStep | src/cisco_lib/NATCompiler_pix_optimizers.cpp:97-200 | one rule's changes to ids, flags and list names keep the whole description of the merged prefix |
| NatMerge.MergedAt | src/cisco_lib/NATCompiler_pix_optimizers.cpp:97-200 | what the finished merge leaves in every field of every command |
| NatMerge.SameId | src/cisco_lib/NATCompiler_pix_optimizers.cpp:101-164 | after merging, two commands have equal `nat_id` if and only if a chain of "same pool" and "same match" links connects them |
| NatRules.PoolByName | src/cisco_lib/NATCompiler_pix_optimizers.cpp:112-118 | two rules share a pool exactly if they leave through one interface and their pools have one address, or are one object when there is none |
| NatMeaning.Survivors | src/cisco_lib/NATCompiler_pix_optimizers.cpp:101-164 | duplicates included: each pool keeps exactly one `global`, each match exactly one `nat`, and every command ends with the id of both |
| NatMeaning.OneList | src/cisco_lib/NATCompiler_pix_optimizers.cpp:166-198 | commands that end up with one access list serve one interface and are connected |
| NatMeaning.Meaning | src/cisco_lib/NATCompiler_pix_writers.cpp:277-378 | what the firewall translates to which pool, read off the lines the flags let through |
| NatMeaning.RectangularMeansConnected | src/cisco_lib/NATCompiler_pix_optimizers.cpp:127-164 | the one-step condition on rules is equivalent to the same condition along every chain |
| NatMeaning.JoinsMeet | src/cisco_lib/NATCompiler_pix_optimizers.cpp:176-197 | of two commands that take over one list, the later takes it from the earlier |
| NatMeaning.ExactMeaning | src/cisco_lib/NATCompiler_pix_optimizers.cpp:97-200 | for every list of rules the printed configuration means what the rules say if and only if pools are rectangular and lists survive |
| NatMeaning.DistinctIsExact | src/cisco_lib/NATCompiler_pix_optimizers.cpp:137-142 | with pairwise distinct matches the configuration is exact |
| NatMeaning.ExactPoolMeaning | src/cisco_lib/NATCompiler_pix_optimizers.cpp:112-124 | pools are compared by address only: for every list of rules each pool is also spelled right if and only if, besides, rules sharing a pool agree on its text |
| NatMeaning.ExactTextMeaning | src/cisco_lib/NATCompiler_pix_writers.cpp:277-313 | with pairwise distinct matches the same holds for the printed text alone, whatever pool it was meant for |
| NatMeaning.TwiceTheSameRule | src/cisco_lib/NATCompiler_pix_optimizers.cpp:166-198 | the same rule twice: both are silenced and nothing is translated |
| NatMeaning.JoinedPoolsLeak | src/cisco_lib/NATCompiler_pix_optimizers.cpp:144-163 | joining the pools of a repeated match also gives a third rule a pool it did not ask for |
| NatRules.TextIsSpelled | src/cisco_lib/NATCompiler_pix_writers.cpp:277-313 | the text of a `global` names the interface exactly for interface objects and dynamic interfaces, and otherwise the address, network or range with its mask, by the shape of the object |
| StaticMerge.MergeDnat | src/cisco_lib/NATCompiler_pix_optimizers.cpp:73-95 | one destination rule's comparisons extend the merged prefix: shared list name, flag on the earlier command |
| StaticMerge.StaticAt | src/cisco_lib/NATCompiler_pix_optimizers.cpp:73-95 | the finished merge: every command has the list of the first of its class, and all but the last are silenced |
| StaticMerge.SameFirst | src/cisco_lib/NATCompiler_pix.cpp:98-106 | commands compare equal exactly when they have the same first representative |
| NatOutput.OneStaticPerClass | src/cisco_lib/NATCompiler_pix_writers.cpp:487-523 | each class of rules that agree in everything but the original source prints exactly one `static`, and shares its list with no other rule |
| NatOutput.StaticMeaning | src/cisco_lib/NATCompiler_pix_writers.cpp:456-524 | each rule's redirection, with the rule's own inside address, service, original source and service in the entry, is in force and no other is, although a class shares one list |
| NatOutput.DeliveryMeaning | src/cisco_lib/NATCompiler_pix_writers.cpp:456-524 | every packet from outside is sent to an interface, address and service exactly if some rule sends it there |
| NatOutput.ListsAreComplete | src/cisco_lib/NATCompiler_pix_writers.cpp:338-376 | in any printed configuration no line touches an access list after the line that binds it |
| NatOutput.BinderIsLast | src/cisco_lib/NATCompiler_pix_optimizers.cpp:182-197 | after a `nat` line no later command writes to its list |
| NatConfig.ClearKeeps | src/cisco_lib/NATCompiler_pix_writers.cpp:338-345 | clearing a list before its first entry never loses an entry |
| NatConfig.LeftoversForgotten | src/cisco_lib/NATCompiler_pix_writers.cpp:338-345 | with list substitution, a firewall whose lists were not empty reads the same commands and the same entries of every list in use as one that starts empty |
| NatConfig.PrintedReflected | src/cisco_lib/NATCompiler_pix_writers.cpp:529-575 | reading everything printed leaves exactly the commands and entries that the flags let through |
| NatCompiler.SharePools | src/cisco_lib/NATCompiler_pix_optimizers.cpp:101-125 | the command takes the id of the earlier commands with its pool, if there are any, and is otherwise unchanged |
| NatCompiler.Relabel | src/cisco_lib/NATCompiler_pix_optimizers.cpp:154-161 | the loop relabels the whole class although it compares with a field it is changing |
| NatCompiler.DropRepeat | src/cisco_lib/NATCompiler_pix_optimizers.cpp:127-164 | at most one earlier command represents the match, and the loop joins the command with that one |
| NatCompiler.MergeLists | src/cisco_lib/NATCompiler_pix_optimizers.cpp:166-198 | the command ends with the list of the last command it can share with, and all those are flagged |
| NatCompiler.MergeSnat | src/cisco_lib/NATCompiler_pix_optimizers.cpp:97-200 | the three loops together keep the description of the merged prefix |
| NatCompiler.PixNatCompiler.GetNatAclName | src/cisco_lib/NATCompiler_pix.cpp:212-226 | the first free name for a rule, so never one in use |
| NatCompiler.PixNatCompiler.CreateNatCmd | src/cisco_lib/NATCompiler_pix.cpp:997-1079 | one more source command with its own id and list name, nothing silenced, the others unchanged |
| NatCompiler.PixNatCompiler.CreateStaticCmd | src/cisco_lib/NATCompiler_pix.cpp:1081-1127 | one more destination command with its own list name, the others unchanged |
| NatCompiler.PixNatCompiler.MergeNatCmd | src/cisco_lib/NATCompiler_pix_optimizers.cpp:62-204 | after the whole queue, source and destination commands are merged as described |
| NatCompiler.PixNatCompiler.PrintSnat | src/cisco_lib/NATCompiler_pix_writers.cpp:251-380 | the lines for one source rule, depending on its flags and on whether its list was cleared; its list gets the original source, destination and service |
| NatCompiler.PixNatCompiler.PrintDnat | src/cisco_lib/NATCompiler_pix_writers.cpp:386-526 | the lines for one destination rule; its list gets the inside address and service and the original source and service |
| NatCompiler.PixNatCompiler.Compile | src/cisco_lib/NATCompiler_pix_optimizers.cpp:62-204 | create, merge and print: the output is complete, translates exactly what the rules ask for if and only if the two conditions hold, is exact for distinct matches, sends every packet from outside exactly where some destination rule of the input sends it, and with list substitution means the same whatever the lists held before |
| RewriteScript.EachOpOnce | src/antlr/TokenStreamRewriteEngine.cpp:111-159 | any script, overlapping or going backwards: each operation is executed exactly once, in script order |
| RewriteScript.RenderIsSlots | src/antlr/TokenStreamRewriteEngine.cpp:130-158 | a script that goes forward renders position by position: the texts at a position, its token unless replaced, and the operations past the end at the end |
| RewriteScript.ReplacedSlots | src/antlr/TokenStreamRewriteEngine.hpp:158-176 | the positions of a replacement show its text once and none of its tokens |
| RewriteProgram.InsertKeepsSorted | src/antlr/TokenStreamRewriteEngine.cpp:172-210 | adding an operation keeps the program sorted |
| RewriteProgram.ProgramAt | src/antlr/TokenStreamRewriteEngine.cpp:172-210 | however edits arrive, each position keeps its operations in the order they were added |
| RewriteProgram.SortedIsCanonical | src/antlr/TokenStreamRewriteEngine.cpp:172-210 | a sorted program is determined by its operations at each position |
| RewriteProgram.OrderOfEdits | src/antlr/TokenStreamRewriteEngine.cpp:172-210 | two series of edits give one program if and only if they agree, in order, at every position |
| RewriteProgram.RollbackUndoes | src/antlr/TokenStreamRewriteEngine.cpp:83-98 | cutting a program back to its old length undoes later edits if and only if none of them starts before the last old operation |
| RewriteProgram.RollbackUndoesEarlier | src/antlr/TokenStreamRewriteEngine.hpp:199-204 | of two edits of which the second starts first, a rollback to one instruction undoes the first |
| RewriteEngine.IndexIsPosition | src/antlr/TokenStreamRewriteEngine.cpp:65-81 | until end of file, token indices are positions in the buffer and the buffer is the stream |
| RewriteEngine.ForwardText | src/antlr/TokenStreamRewriteEngine.cpp:111-159 | what spells the rendering of a script that goes forward is the edited text, as a string |
| RewriteEngine.TokenStreamRewriteEngine.NextToken | src/antlr/TokenStreamRewriteEngine.cpp:65-81 | the next token that is not discarded; everything drawn on the way is recorded |
| RewriteEngine.TokenStreamRewriteEngine.AddToSortedRewriteList | src/antlr/TokenStreamRewriteEngine.cpp:172-210 | the named program gets the operation behind those of equal index; other programs are unchanged |
| RewriteEngine.TokenStreamRewriteEngine.InsertAfterIndex | src/antlr/TokenStreamRewriteEngine.hpp:232-238 | an insertion before the next index, with the unsigned wrap |
| RewriteEngine.TokenStreamRewriteEngine.ReplaceRange | src/antlr/TokenStreamRewriteEngine.hpp:289-294 | a replacement, placed by its first index |
| RewriteEngine.TokenStreamRewriteEngine.RemoveRange | src/antlr/TokenStreamRewriteEngine.hpp:323-328 | a replacement by nothing |
| RewriteEngine.TokenStreamRewriteEngine.PerformAll | src/antlr/TokenStreamRewriteEngine.cpp:172-210 | after any run of edits under any names, each program is what it was before with that name's edits added one by one in the order they came, and there are no other programs |
| RewriteEngine.TokenStreamRewriteEngine.Rollback | src/antlr/TokenStreamRewriteEngine.cpp:83-98 | the first operations of the named program stay, nothing else changes |
| RewriteEngine.TokenStreamRewriteEngine.ToStream | src/antlr/TokenStreamRewriteEngine.cpp:111-159 | the three loops terminate and print the text of the rendering, clipped to the buffer; for a script that goes forward that is, position by position, the texts put there and the token unless it is replaced, and then what is past the end |
| HiddenFilter.LinkStep | src/antlr/TokenStreamHiddenTokenFilter.cpp:137-149 | a hidden token changes one forward link, that of the last token kept before it |
| HiddenFilter.BehindIsLastKept | src/antlr/TokenStreamHiddenTokenFilter.cpp:127-130 | the token remembered for the next monitored token is the hidden one right before it |
| HiddenFilter.TokenStreamHiddenTokenFilter.ConsumeFirst | src/antlr/TokenStreamHiddenTokenFilter.cpp:32-56 | takes tokens up to the first monitored one, remembers the first of them whose kind is to be hidden, and keeps the description of all links |
| HiddenFilter.TokenStreamHiddenTokenFilter.NextToken | src/antlr/TokenStreamHiddenTokenFilter.cpp:117-151 | returns the next monitored token, skipping none; its `hiddenAfter` is the first token behind it, before the next monitored one, whose kind is to be hidden |
| HiddenFilter.TokenStreamHiddenTokenFilter.ChainAhead | src/antlr/CommonHiddenStreamToken.cpp:28-46 | following `hiddenAfter` spells the hidden tokens up to the next monitored one |
| HiddenFilter.TokenStreamHiddenTokenFilter.ChainBehind | src/antlr/CommonHiddenStreamToken.cpp:33-51 | following `hiddenBefore` spells them in reverse |
| HiddenFilter.TokenStreamHiddenTokenFilter.DrawnKinds | src/antlr/TokenStreamHiddenTokenFilter.cpp:32-151 | the runs between monitored tokens hold every token of a kind to be hidden and no other, in order |
| HiddenFilter.TokenStreamHiddenTokenFilter.Drain | src/antlr/TokenStreamHiddenTokenFilter.cpp:32-151 | the first chain, then each monitored token and its chain, spell the consumed stream without the kinds that are only to be discarded; the chains hold exactly the tokens whose kinds are to be hidden, and each can be walked back |
| LookaheadBuffer.QueueIndexIsExact | src/antlr/CircularQueue.hpp:54-66 | the unsigned wrap and the conversion to `int` give the intended index if and only if it fits in an `int` |
| LookaheadBuffer.CircularQueue.RemoveItems | src/antlr/CircularQueue.hpp:79-100 | drops that many items or all there are; past the limit the dead ones are erased |
| LookaheadBuffer.CircularQueue.RemoveFirst | src/antlr/CircularQueue.hpp:68-77 | drops the first item, erasing the dead ones past the limit; an empty queue is no longer a queue after it |
| LookaheadBuffer.Buffer.SyncConsume | src/antlr/InputBuffer.hpp:131-140 | applying deferred consumes does not move the cursor, and not the front while a mark is open |
| LookaheadBuffer.Buffer.Fill | src/antlr/TokenBuffer.cpp:43-52 | fetches exactly as much as was asked for and is not there yet |
| LookaheadBuffer.Buffer.LT | src/antlr/TokenBuffer.cpp:54-66 | looks at stream position `pos + i - 1`; item 0 is readable if and only if something is left behind the cursor |
| LookaheadBuffer.Buffer.Mark | src/antlr/InputBuffer.cpp:56-61 | the marker is the cursor's distance from the front |
| LookaheadBuffer.Buffer.Rewind | src/antlr/InputBuffer.cpp:66-71 | the cursor goes to that distance from the front, which does not move |
| LookaheadBuffer.Buffer.Commit | src/antlr/InputBuffer.hpp:60-63 | the position is kept if and only if another mark is open or what is deferred is queued |
| LookaheadBuffer.Buffer.Consume | src/antlr/TokenBuffer.hpp:68-71 | advances by one if and only if a mark is open or something is queued beyond the deferred consumes |
| LookaheadBuffer.Buffer.Reset | src/antlr/TokenBuffer.hpp:43-49 | the cursor jumps past everything fetched |
| LookaheadBuffer.Buffer.GetLAChars | src/antlr/InputBuffer.cpp:30-38 | the fetched items from the marked offset on |
| LookaheadBuffer.Buffer.GetMarkedChars | src/antlr/InputBuffer.cpp:43-51 | the items between the front and the marked offset |
| LookaheadBuffer.Play | src/antlr/TokenBuffer.cpp:43-86 | any orderly script of looks, also at item 0, consumes, nested marks, rewinds, commits and resets gets the answers of the plain cursor |
| LookaheadBuffer.LookBack | src/antlr/CircularQueue.hpp:54-66 | the script that looks, consumes and finally looks back gets all items, and the last one again unless exactly a multiple of one more than the limit has gone by |
| LookaheadBuffer.LookBackAfter | src/antlr/CircularQueue.hpp:79-100 | so a buffer answers, and loses the item |
| LookaheadBuffer.OpenMarksStay | src/antlr/InputBuffer.cpp:56-71 | whatever happens in between, a mark that is not closed remembers its position |
| LookaheadBuffer.GuessLeavesNoTrace | src/antlr/InputBuffer.cpp:56-71 | a mark, any calls that leave older marks alone, and the rewind restore position, marks and what is left behind the cursor |
| LookaheadBuffer.GuessingIsInvisible | src/antlr/InputBuffer.cpp:56-71 | after a failed guess the parser reads on as if it had not guessed; at item 0, too, if nothing was deferred before it |
| AstRefCount.Memory.NewNode | src/antlr/BaseAST.hpp:25-27 | a node with null members and no counting object yet |
| AstRefCount.Memory.GetRef | src/antlr/ASTRefCount.cpp:14-36 | a node gets one counting object, keeps the one it has, and every request counts |
| AstRefCount.Memory.Release | src/antlr/ASTRefCount.hpp:57-61 | one count less; the cascade keeps the invariant, terminates, and frees only nodes that come in an order in which each was held by nothing but members of earlier ones |
| AstRefCount.Memory.DeleteRef | src/antlr/ASTRefCount.cpp:21-24 | the object, its node and its members go, and what only they held |
| AstRefCount.Memory.Construct | src/antlr/ASTRefCount.hpp:49-52 | a handle from a raw pointer: it is on that node, through the counting object the node had if it had one |
| AstRefCount.Memory.Copy | src/antlr/ASTRefCount.hpp:53-56 | a handle from a handle |
| AstRefCount.Memory.Destroy | src/antlr/ASTRefCount.hpp:57-61 | the end of a handle keeps counts equal to handles and frees what nothing anchors any more, and nothing else |
| AstRefCount.Memory.AssignRaw | src/antlr/ASTRefCount.hpp:62-72 | assignment from a raw pointer: the new object is counted before the old one is given back; it writes to freed memory if and only if the member's node goes with the old value, and otherwise the handle is on that node, through the counting object the node had if it had one |
| AstRefCount.Memory.Assign | src/antlr/ASTRefCount.hpp:73-85 | assignment from a handle, with the same fault; what is held already stays |
| AstRefCount.Memory.Get | src/antlr/ASTRefCount.hpp:87-89 | a handle never dangles |
| AstRefCount.SurvivorsExactly | src/antlr/ASTRefCount.hpp:57-61 | a cascade leaves exactly the nodes that anchor each other or are anchored by a count that is owed, cycles or not |
| AstFreed.SurvivesExactly | src/antlr/ASTRefCount.hpp:57-61 | which are the nodes that can be reached or hang below a cycle |
| AstFreed.OneOutcome | src/antlr/ASTRefCount.cpp:21-24 | whatever the order in which members are destroyed, one state comes out |
| AstFreed.NothingReachableIsFreed | src/antlr/ASTRefCount.cpp:21-24 | what a handle outside or a raw pointer can still reach is never freed, cycles or not |
| AstFreed.FreedExactly | src/antlr/ASTRefCount.hpp:57-85 | exactly the nodes that cannot be reached any more are freed if and only if no cycle is garbage |
| AstFreed.GarbageHasCycle | src/antlr/ASTRefCount.hpp:57-61 | whatever stays although it cannot be reached hangs below a cycle of garbage |
| AstFreed.AssignableExactly | src/antlr/ASTRefCount.hpp:62-85 | a handle can be written if and only if it is outside, or its node can be reached from outside or from the new value, or hangs below a cycle without it |
| AstFreed.AcyclicHasNoCycle | src/antlr/BaseAST.hpp:172-173 | links that go down in some order of depth make no cycle |
| AstFreed.DeeperIsAssignable | src/antlr/BaseAST.hpp:172-173 | without cycles, every member of a node may be assigned anything |
| AstFreed.CyclesStay | src/antlr/ASTRefCount.hpp:57-61 | no operation frees a node on a cycle |
| AstFreed.Perform | src/antlr/ASTRefCount.hpp:49-85 | each call leaves the state it aims at, without what nothing anchors there, or faults exactly if it frees what it writes |
| AstFreed.Play | src/antlr/ASTRefCount.hpp:49-85 | over any run counts equal handles, each step frees exactly what it cut off unless it leaves a cycle of garbage, garbage stays only where there is such a cycle, and the run ends early exactly at the first fault |
| AstFreed.LeakACycle | src/antlr/ASTRefCount.hpp:57-61 | a run that makes a node its own child and ends the handle: nothing reaches the node, and it stays |
| AstFreed.ClearAbandoned | src/antlr/ASTRefCount.hpp:62-72 | a run that then sets that child to null through a raw pointer: it frees the node and writes to it |
| AstTree.Hang | src/antlr/ASTFactory.cpp:161-186 | a sibling list is hung on the last child, or becomes root or first child |
| AstTree.ASTPair.AddASTChild | src/antlr/ASTFactory.cpp:161-186 | the list goes behind the current child, or becomes the root or the children of the root, and the current child is again the end of its chain |
| AstTree.ASTPair.MakeASTRoot | src/antlr/ASTFactory.cpp:284-296 | the node becomes the root; its children are its own followed by the whole old tree, whose last sibling is the current child; no node is lost |
| AstTree.AddChild | src/antlr/BaseAST.hpp:77-92 | the children become the old ones followed by the list |
| AstTree.AdvanceToEnd | src/antlr/ASTPair.hpp:32-38 | the end of the sibling chain |
| AstTree.RunPair | src/antlr/ASTFactory.cpp:161-296 | any run of additions and new roots builds the tree that its calls write down in preorder, and keeps the current child at the end of its chain |
| AstTree.RunIsWritten | src/antlr/ASTFactory.cpp:161-296 | in preorder, the tree of a run is what the calls write: a child at the current place, a root before everything so far; only what a root without a current child brought along is lost when a child is added |
| AstTree.AdditionsConcatenate | src/antlr/ASTFactory.cpp:161-186 | additions concatenate their sibling lists in order |
| AstTree.Make | src/antlr/ASTFactory.cpp:232-271 | the first node with the other lists as children, in order, its own children replaced; without a first node, one list |
| AstTree.EraseExactly | src/antlr/BaseAST.cpp:60-88 | the values compared are equal exactly if the same tokens are in the same places |
| AstTree.EqualsList | src/antlr/BaseAST.cpp:60-88 | decides structural equality of two sibling lists |
| AstTree.EqualsTree | src/antlr/BaseAST.cpp:123-138 | decides structural equality of two trees without their siblings |
| AstTree.EqualsListPartial | src/antlr/BaseAST.cpp:93-118 | decides the partial match, in which a childless node accepts anything below |
| AstTree.EqualsTreePartial | src/antlr/BaseAST.cpp:143-158 | the same for trees without their siblings |
| AstTree.ExactIsPartial | src/antlr/BaseAST.cpp:93-158 | an exact match is a partial match |
| AstTree.PartialComposes | src/antlr/BaseAST.cpp:93-118 | every list matched by `b` is matched by `a` if and only if `a` refines `b`: it has the tokens of `b`, and below each of them either no children or ones that refine those of `b` |
| AstTree.PartialTreeComposes | src/antlr/BaseAST.cpp:143-158 | the same for trees without their siblings |
| AstTree.PartialIsNotTransitive | src/antlr/BaseAST.cpp:107-109 | the partial match is not an order: three trees |
| AstTree.PreorderExactly | src/antlr/BaseAST.cpp:37-55 | the search visits exactly the nodes of the list and below it |
| AstTree.DoWorkForFindAll | src/antlr/BaseAST.cpp:37-55 | appends the matching nodes of a list and below, in preorder |
| AstTree.FindAll | src/antlr/BaseAST.cpp:164-189 | in preorder, a node is found exactly if the tree with it as root has the tokens of the pattern in the same places, or, in a partial search, is matched by it; a null pattern finds none |
| AstTree.DupTree | src/antlr/ASTFactory.cpp:217-224 | a structurally equal tree of fresh nodes, without the siblings of the root |
| AstTree.DupList | src/antlr/ASTFactory.cpp:200-212 | a structurally equal list of fresh nodes |
| AclAssign.Processor.SetInterfaceAndDirectionBySrc | src/cisco_lib/PolicyCompiler_cisco_acls.cpp:59-133 | pushes an inbound copy for each interface where a rule for any interface belongs inbound, and for no other, and the rule itself unless its destination is the firewall |
| AclAssign.Processor.SetInterfaceAndDirectionByDst | src/cisco_lib/PolicyCompiler_cisco_acls.cpp:135-201 | pushes an outbound copy for each interface where the rule belongs outbound, and for no other; nothing for any interface is left |
| AclAssign.Processor.SetInterfaceAndDirectionIfInterfaceSet | src/cisco_lib/PolicyCompiler_cisco_acls.cpp:203-270 | pushes a rule with an interface once for each of its directions |
| AclAssign.BelongsIsApplies | src/cisco_lib/Helper.cpp:388-428 | where a rule applies: for its own interface or, unbound, on each that is neither unprotected nor loopback, for its direction; a two-way rule only in the zone of its first object, on every interface for "any" and for an object without a zone, and not for the firewall or its cluster |
| AclAssign.OneUnbound | src/cisco_lib/PolicyCompiler_cisco_acls.cpp:59-201 | a rule for any interface ends on exactly the access lists where it applies, once on each |
| AclAssign.OneBound | src/cisco_lib/PolicyCompiler_cisco_acls.cpp:203-270 | a rule for a given interface ends on that interface's lists only, for its direction or for both |
| AclAssign.AclIsRestricted | src/cisco_lib/PolicyCompiler_cisco_acls.cpp:59-270 | each access list consists of exactly the rules that apply there, once each, in order |
| AclAssign.FirstOfRestricted | src/cisco_lib/PolicyCompiler_cisco_acls.cpp:59-270 | first match in the restriction is the first rule that applies and matches |
| AclAssign.AssignedIsConcrete | src/cisco_lib/PolicyCompiler_cisco_acls.cpp:59-270 | no rule leaves without an interface or for both directions |
| AclAssign.AssignInterfaces | src/cisco_lib/PolicyCompiler_cisco_acls.cpp:59-270 | the three processors over a whole policy: concrete rules, each list holds exactly the rules that belong there, and decides as the restricted policy |
| AclSplit.PeelRemoves | src/cisco_lib/PolicyCompiler_cisco.cpp:46-74 | removing the first reference to each object taken out leaves what should stay, even with repeated references |
| AclSplit.SplitConserves | src/cisco_lib/PolicyCompiler_cisco.cpp:375-418 | the objects of the element are conserved over the outputs |
| AclSplit.SplitSeparates | src/cisco_lib/PolicyCompiler_cisco.cpp:375-418 | each output differs only in the element, which has one object or none that matches the firewall |
| AclSplit.FirstSpeaksForAll | src/cisco_lib/PolicyCompiler_cisco_acls.cpp:54-58 | in such an element, the first object matches the firewall if and only if any does |
| AclSplit.SplitDecides | src/cisco_lib/PolicyCompiler_cisco.cpp:375-418 | splitting decides every packet as before |
| AclSplit.SplitIfMatches | src/cisco_lib/PolicyCompiler_cisco.cpp:375-418 | the loop and the removal of references after it push the copies and what is left, for any element |
| AclWhole.InZoneOfSome | src/libfwbuilder/src/fwbuilder/RuleElement.cpp:120-130 | since adding an object takes "any" out of an element, an element is in a zone exactly if some object of it is |
| AclWhole.FirstObjectExactly | src/cisco_lib/PolicyCompiler_cisco_acls.cpp:59-201 | a rule is on a list without its whole elements belonging there exactly if a cluster object stands behind another one, and belongs there without being on it exactly if an object of the zone stands behind another one |
| AclWhole.NoFirewallPasses | src/cisco_lib/PolicyCompiler_cisco_acls.cpp:83-88 | a rule for any interface and both directions goes to a list if and only if no object of the element asked matches the firewall, the first one is not the cluster's, and the zone is right |
| AclWhole.ClusterSlips | src/cisco_lib/PolicyCompiler_cisco.cpp:375-418 | a source element with a cluster object in second place is not split and goes inbound; with the two swapped it does not |
| AclWhole.SecondZoneMissed | src/cisco_lib/Helper.cpp:403-428 | a destination element with the interface's zone in second place is not on its outbound list; with the two swapped it is |
| AclWhole.SplitGoes | src/cisco_lib/PolicyCompiler_cisco.cpp:375-418 | which rules slip or are missed after both splits, in terms of the policy before them |
| AclWhole.WholeRestrictedExactly | src/cisco_lib/PolicyCompiler_cisco_acls.cpp:59-201 | an access list is the policy restricted by whole elements if and only if no rule slips or is missed there |
| AclWhole.CompileAcls | src/cisco_lib/PolicyCompiler_cisco_acls.cpp:54-270 | both splits and the assignment in a row: decisions kept, lists restricted, and restricted by whole elements exactly where no rule of the policy slips or is missed |
| AclWhole.ZoneExactly | src/cisco_lib/Helper.cpp:403-428 | in either direction, every packet of the zone of an interface that hits a rule meets it on that interface's list if and only if the rule's element does not span zones there |
| AclWhole.ListSaysTheSame | src/cisco_lib/PolicyCompiler_cisco_acls.cpp:59-270 | a list decides a packet as the whole policy if and only if the rule that decides it is on the list |
| AclWhole.ZoneDecides | src/cisco_lib/PolicyCompiler_cisco_acls.cpp:83-113 | so for a packet of an interface's zone, in either direction, if and only if the deciding rule does not span zones there |
| AclZones.PartsExactly | src/cisco_lib/splitByNetworkZonesForRE.cpp:45-64 | the map holds for each interface with objects in its zone one rule with exactly these, in order |
| AclZones.ZoneSplitConserves | src/cisco_lib/splitByNetworkZonesForRE.cpp:66-118 | the objects of the element are conserved over the rules |
| AclZones.AllZoneSplitDecides | src/cisco_lib/splitByNetworkZonesForRE.cpp:66-118 | splitting a policy by zones decides every packet as before |
| AclZones.ZoneSplitGoes | src/cisco_lib/splitByNetworkZonesForRE.cpp:66-118 | of the rules it makes none is missed, and one slips exactly if the objects of the interface's zone have a cluster object, but not first |
| AclZones.FailsExactly | src/cisco_lib/splitByNetworkZonesForRE.cpp:66-118 | the split of a policy fails exactly if an object without a zone is one of several in a source or destination |
| AclZones.SplitByNetworkZones | src/cisco_lib/splitByNetworkZonesForRE.cpp:66-118 | pushes a single object's rule as it is, otherwise these rules, or fails exactly if an object of several has no zone |
| AclZones.CompilePix | src/cisco_lib/PolicyCompiler_pix.cpp:468-519 | splits by firewall and by zones and the assignment in a row: when it fails, decisions kept, no rule missed, and restriction by whole elements exactly where no rule slips within the zone |
| Redundant.MarkRedundant | src/cisco_lib/PolicyCompiler_cisco.cpp:668-695 | for any iteration order, marks exactly the addresses that do not survive |
| Redundant.CoveredBySurvivor | src/cisco_lib/PolicyCompiler_cisco.cpp:678-695 | whatever is removed is covered by something left |
| Redundant.NoneShadowed | src/cisco_lib/PolicyCompiler_cisco.cpp:678-695 | nothing left covers anything else left |
| Redundant.OneOfEqual | src/cisco_lib/PolicyCompiler_cisco.cpp:678-695 | exactly one of each group of equal addresses is left |
| Redundant.SameAddresses | src/cisco_lib/PolicyCompiler_cisco.cpp:678-695 | the element covers the same addresses as before |
| Redundant.OthersIrredundant | src/cisco_lib/PolicyCompiler_cisco.cpp:678-695 | what stays covers everything, nothing of it covers anything else of it, and each widest address is covered by exactly one |
| Redundant.RemoveRedundantAddresses | src/cisco_lib/PolicyCompiler_cisco.cpp:657-704 | something is left, one reference of each removed object goes, and a covered address stays if and only if it is referenced twice; an element without repeats comes out irredundant |
| NetZone.CalculateDimension | src/cisco_lib/Helper.cpp:55-78 | the saturated sum of the members; it never wraps; a network counts its addresses, or `INT_MAX` from 32 host bits on, "any" the maximum, references nothing |
| NetZone.SizeOfPermutation | src/cisco_lib/Helper.cpp:58-67 | the order of the members does not matter |
| NetZone.DimensionOrders | src/libfwbuilder/src/fwbuilder/InetAddrMask.cpp:182-196 | exactly when one network counts as smaller than another |
| NetZone.ExpandGroupRecursive | src/cisco_lib/Helper.cpp:80-95 | the networks of a zone in order: exactly those that a way down through members leads to, references followed |
| NetZone.ExpandExactly | src/cisco_lib/Helper.cpp:80-95 | a network is in the expansion if and only if a path of members, each followed if it is a reference, leads to it |
| NetZone.ReferenceIsMember | src/cisco_lib/Helper.cpp:86-90 | a member and a reference to it expand to the same networks in the same place |
| NetZone.ContainsExactly | src/cisco_lib/Helper.cpp:301-312 | one network contains another exactly if it is of the same family and has all of its addresses |
| NetZone.CollectZones | src/cisco_lib/Helper.cpp:228-329 | one entry for each eligible interface with a match: its last match |
| NetZone.PickNarrowest | src/cisco_lib/Helper.cpp:335-356 | the entry of least dimension, among equals the one with the largest id |
| NetZone.FindInterfaceByAddress | src/cisco_lib/Helper.cpp:112-196 | the first interface that is neither for failover nor unprotected with an own network that contains the subnet |
| NetZone.FindInterfaceByNetzone | src/cisco_lib/Helper.cpp:214-386 | the whole search: an interface whose zone includes a network that contains the subnet, if there is one, and exactly when its match is the narrowest; else the first whose own network does; without an address, the first whose zone has "any" |
| NetZone.SameZonesSameAnswer | src/cisco_lib/Helper.cpp:214-386 | so interfaces that differ only in how their zones are written get the same answer |
| NetZone.SharingIsNested | src/cisco_lib/Helper.cpp:301-312 | two networks that contain one subnet are nested |
| NetZone.ChosenIsLeast | src/cisco_lib/Helper.cpp:331-356 | with unnested zones, no zone network that contains the subnet has a smaller dimension than the chosen one |
| NetZone.NetOrder | src/cisco_lib/Helper.cpp:55-78 | the order of two dimensions, "any" and the saturation included |
| NetZone.ChosenIsNarrowest | src/cisco_lib/Helper.cpp:331-356 | the chosen zone is the narrowest match if and only if sizes decide: a match below 31 host bits, or none of 32 or more, or of those the one with the largest id no wider than any |
| NetZone.InOrderExactly | src/cisco_lib/Helper.cpp:301-312 | the last match of a list is its narrowest for every address if and only if, for each listed network, the last listed one that contains it is no wider |
| NetZone.NestedListFails | src/cisco_lib/Helper.cpp:301-312 | a list whose wider network comes last gives the wider one |
| NetZone.UnnestedIsInOrder | src/cisco_lib/Helper.cpp:301-312 | a list without nested networks is in order |
| NetZone.NarrowestAmongAll | src/cisco_lib/Helper.cpp:214-386 | with lists in order, the narrowest match is the narrowest network of any zone that contains the subnet |
| NetZone.ChosenExactly | src/cisco_lib/Helper.cpp:214-386 | with lists in order, no network of any zone that contains the subnet is narrower than the chosen one if and only if sizes decide |
| NetZone.WideZoneChosen | src/cisco_lib/Helper.cpp:351-355 | two zones of which the wider one is chosen, for every pair of sizes from 31 host bits on with the wider one at 32 or more |

## Left out

- Match and pool comparisons use the library's equality of addresses and services, modelled as equality of records; an address object's identity is part of its record.
- The command maps, keyed by consecutive numbers, are sequences; access list names are a rule id and a counter instead of a dotted string; interface labels are interface ids.
- NatCompiler.PixNatCompiler.PrintSnat: the pre-6.3 syntax, `outside`, connection options and the manual commit of the firewall service module are not modelled, and a comment line carries no text.
- NatCompiler.PixNatCompiler.PrintDnat: the same holds for `static` lines, and ports and interface addresses are part of opaque ids.
- NatCompiler.PixNatCompiler.GetNatAclName: only names with an empty suffix, which is how the compiler calls it here.
- NatMeaning.ExactTextMeaning: only for pairwise distinct matches; for any rules `NatMeaning.ExactPoolMeaning` tells pools apart by their address as well, since two pools can be spelled alike.
- Exemption rules, the default-translation optimizer and the detectors of overlapping pools and rules.
- RewriteEngine.TokenStreamRewriteEngine.ToStream: positions are natural numbers; only adding one to a position wraps at 64 bits. The constructor that reserves space, which fills the buffer with null tokens, is not modelled.
- HiddenFilter.TokenStreamHiddenTokenFilter.NextToken: the masks do not change during a run and the upstream never returns a null token.
- LookaheadBuffer.Buffer.LT: counters are natural numbers; only the queue index and the fill target wrap, at 32 bits. Token and input buffer share one model, whose items stand for tokens or characters.
- LookaheadBuffer.CircularQueue.RemoveFirst: on an empty queue whose offset has passed the limit it erases past the end of the vector, which C++ leaves undefined.
- LookaheadBuffer.Buffer.Mark: the queries for the number of entries and for open marks are not modelled; pairing marks with rewinds and commits is the caller's duty, as in the original.
- LookaheadBuffer.Play: scripts consume outside marks only what they have looked at, and name markers that are open.
- LookaheadBuffer.GuessingIsInvisible: whether item 0 is still there later on is not compared when consumes were deferred before the guess, since the mark applies them earlier and so moves the compaction.
- AstRefCount.Memory.Assign: a write to freed memory ends a run, since what happens after it is undefined. The handle being written counts for nothing while its old value goes; in the original its own destructor would then wrap a count of 0 that belongs to an object under deletion. Freed memory is modelled by maps from which entries disappear, and the code that allocates passes in a fresh address.
- AstTree.DupTree: the trees carry a kind and a text; other node classes, factories, and the ownership of nodes that an operation unlinks are the subject of `AstRefCount` or not modelled. Arguments of one call are disjoint.
- AclAssign.AssignInterfaces: rules are values that are copied and changed; whether an object matches the firewall or its cluster, and which zone includes it, are given functions.
- AclWhole.FirstObjectExactly: that an object taken for the firewall without its multicasts is also taken for it with them is assumed; the matcher's two flags only ever add matches.
- AclWhole.ListSaysTheSame: only one direction when two rules have the same body but another interface or direction; copies of one rule do not.
- AclZones.CompilePix: the processors between the two kinds of splits, which replace the firewall and expand addresses, are not modelled; "any" is never one of several objects, as adding an object to an element ensures.
- AclSplit.SplitIfMatches: the remaining rule is a changed copy instead of the original object.
- Redundant.RemoveRedundantAddresses: covering is any transitive relation; the cache of the library's comparison is not modelled.
- NetZone.FindInterfaceByNetzone: containment is that of address intervals, as the comment on the overlap function describes it; an address without a mask is a network with no host bits; the exception is an absent result.
- Object groups, name generation, reserved words, remark texts, the drivers, configlets, file writing, XML, generated lexers and parsers, error reporting and tracing.
