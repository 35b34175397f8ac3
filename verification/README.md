# Subordination, modelled and proved in Dafny

Subordination runs programs that consist of *kernels*: objects that are sent down a tree of cluster
nodes, executed, and sent back up to their parents. This project models the parts of it that decide
something, and proves that they do what the program relies on. `dafny verify dfyconfig.toml` checks all
of it.

## What is modelled

**The wavefront** (`Grid`, `Recurrence`, `PartGenerator`, `WaveSurface`). The autoregressive model of
ocean waves cuts a three-dimensional in-place recurrence into parts, submits a part when its lower
neighbours are complete, and computes it from a copy of its box with a halo. The main theorem is the one
that the program asserts at run time with its residual: whatever the order in which submitted parts
return, the surface is the one of the sequential program, cell by cell. Elements, their sum and their
product are uninterpreted, noise is the n-th draw of a fixed stream that is restarted for each part. The
theorem needs no relation between the size of the coefficients and that of the parts: both need only be
at least 1, because the completed parts are closed downwards.

**The tree of nodes** (`TreePosition`, `TreeIterator`). Positions in a tree of constant fan-out, in
32-bit arithmetic, and the iterator over the nodes that may become a superior. It shows every lower
position exactly once, the parent first. The condition under which the search for a position is exact is
`Representable`; outside of it the search may give a wrong layer or never end.

**The hierarchy and its protocol** (`Hierarchy`, `Discovery`, `Discoverer`). A node's table of versioned
records, the walks over the superiors, the daemon that probes, answers and gossips, and all daemons
together with the set of all messages ever sent. Because nothing is taken out of that set, messages may be
lost, repeated and overtaken. Addresses are numbers whose order is that of the positions in the tree; 0 is
the empty address. The resources of a node are an uninterpreted type.

**Resource expressions** (`Expression`, `ExpressionText`, `ExpressionReader`, `ExpressionCodec`). The
printer, the bracket-scanning reader and the binary codec. Both round trips are proved with their exact
conditions, `Plain` and `Encodable`.

**Transport** (`Buffer`, `Framing`, `KernelCodec`, `Connection`). Frames in a buffer that is filled,
flipped and compacted, kernels that are passed on by nodes that do not know their types, and the queue of
kernels that wait for an answer.

**Scheduling** (`ThreadPool`, `Weights`, `Admission`, `Scheduler`). The queues and condition variables of
the thread pool as a state machine (everything but the execution of a kernel happens under one lock, so
the steps are atomic; spurious wake-ups are allowed), saturating weights, admission control, and the
choice of the least busy neighbour.

## What the code does not do

These are properties that one might expect and that do not hold. Each has a lemma or a contract.

- A probe that only notifies the old superior of a change carries no records, so nothing is removed there,
  and its answer is handled like that of a probe: the old superior becomes the superior again and the same
  notification is sent anew (`Discovery.SuperiorIsTakenBack`, exact in `Discovery.WhoAnswersIsSuperior`, and
  reached from the start in `Discovery.SuperiorIsTakenBackInRun`).
- A node that loses its superior clears the superior before it compares it with the lost address, so it
  never looks for another one at once (`Discoverer.Discoverer.OnClientRemove`).
- The loss of a superior makes no new version, so the others never take it over
  (exact in `Discovery.OwnChangeIsNews`, `Discovery.OldNewsIsIgnored`).
- With interleaving a kernel that needs all threads, or as many as there are, is never passed on, even if
  nothing else runs (`Admission.FitsPlainly`, `Admission.ProcessPipeline.ProcessKernels`).
- Kernels that need all threads are divided among the threads of a neighbour, but not among those of this
  node, so that a neighbour with the same load seems less busy (`Scheduler.Scheduler.Schedule`).
- The position search wraps around in 32 bits and may not end (`TreePosition.SearchMayNotEnd`).
- Text: truth values, numbers from 2 to the power of 63 on, some names and some strings do not come back
  (`ExpressionText.NotReadBack`, exact in `ExpressionText.RoundTrip`).
- Binary: `Negate` is written but has no case in `make_expression` (`ExpressionCodec.BinaryRoundTrip`), so
  a kernel with such a filter is lost on the way (`KernelCodec.KernelRoundTrip`).
- With downstream threads but fewer of them than upstream threads a kernel may be put into a queue that
  does not exist (`ThreadPool.EveryHashHasAQueue`).

## Model

| member | source | states |
|---|---|---|
| `Recurrence.PartsTileDomain` | src/examples/cpp/autoreg/autoreg.cc:78-97 | the output boxes of the parts tile the domain: a cell lies in the output box of exactly the part that owns it |
| `Recurrence.HaloInLowerParts` | src/examples/cpp/autoreg/autoreg.cc:90-93 | every cell that the recurrence reads around a cell belongs to the same part or to one that is lower in every direction |
| `Recurrence.PartSizes` | src/examples/cpp/autoreg/autoreg.cc:78-97 | every part has at least the given size and less than twice as much along each axis, and its halo is as wide as the coefficients reach |
| `Recurrence.NoiseOfPart` | src/examples/cpp/autoreg/autoreg.cc:33-44 | the n-th cell of a part in row-major order gets the n-th number of the stream |
| `Recurrence.FinalSolves` | src/examples/cpp/autoreg/autoreg.cc:54-75 | the surface of the nested loops is the only one that satisfies the recurrence, which runs through all coefficients in row-major order and leaves out those that reach beyond the edge |
| `PartGenerator.DrawNoise` | src/examples/cpp/autoreg/autoreg.cc:33-44 | one restarted stream fills the box in row-major order, the n-th cell with the n-th draw, and nothing else changes |
| `PartGenerator.WeightedSum` | src/examples/cpp/autoreg/autoreg.cc:62-70 | the triple loop computes the sum of the recurrence in its order of summation, if the cells before are final and the cell itself still holds noise |
| `PartGenerator.Sweep` | src/examples/cpp/autoreg/autoreg.cc:302-324 | the in-place sweep over a box with a halo leaves every cell with the value of the recurrence |
| `PartGenerator.WriteBox` | src/examples/cpp/autoreg/autoreg.cc:345-376 | upstream the halo is sent, downstream the output |
| `PartGenerator.PackInjective` | src/examples/cpp/autoreg/autoreg.cc:345-376 | what is sent determines the cells that were to be sent |
| `PartGenerator.ReadBox` | src/examples/cpp/autoreg/autoreg.cc:380-410 | reading restores a box whose packing is the payload that was received |
| `PartGenerator.Kernel.Act` | src/examples/cpp/autoreg/autoreg.cc:277-324 | a part whose halo is final is computed to the final values of its box |
| `PartGenerator.Execute` | src/examples/cpp/autoreg/autoreg.cc:276-410 | sending a part, computing it elsewhere and sending it back yields exactly the final values, whatever was in the memory there |
| `WaveSurface.Gather` | src/examples/cpp/autoreg/autoreg.hh:95-103 | the input slice is the box of the part |
| `WaveSurface.Scatter` | src/examples/cpp/autoreg/autoreg.hh:105-125 | the two output slices put exactly the output of the part into the surface |
| `WaveSurface.IsReady` | src/examples/cpp/autoreg/autoreg.cc:114-128 | the count of the up to seven lower neighbours decides whether all of them are complete |
| `WaveSurface.ReadyMeansAllBelow` | src/examples/cpp/autoreg/autoreg.cc:114-128 | when the direct lower neighbours are complete, all lower parts are |
| `WaveSurface.PushKeepsWave` | src/examples/cpp/autoreg/autoreg.cc:99-175 | a pass keeps the invariant that below a part that was submitted everything is complete |
| `WaveSurface.NeverStalls` | src/examples/cpp/autoreg/autoreg.cc:99-175 | after a pass, if some part is not complete, some part is submitted: the wave never stalls |
| `WaveSurface.HaloIsFinal` | src/examples/cpp/autoreg/autoreg.cc:128-137 | at the time of submission the halo of a part is final |
| `WaveSurface.GenerateParts` | src/examples/cpp/autoreg/autoreg.cc:77-97 | the parts are those of the tiling, in row-major order, all of them initial |
| `WaveSurface.Generator.PushKernels` | src/examples/cpp/autoreg/autoreg.cc:99-209 | one pass submits exactly the initial parts that are ready, keeps all that was sent consistent, and reports completion exactly when all parts are complete |
| `WaveSurface.Accept` | src/examples/cpp/autoreg/autoreg.cc:481-497 | the returned output replaces exactly the cells of the part |
| `WaveSurface.Generator.React` | src/examples/cpp/autoreg/autoreg.cc:481-497 | a returned part, even a repeated one, becomes complete, its cells become final, and the next pass follows |
| `WaveSurface.Run` | src/examples/cpp/autoreg/autoreg.cc:99-209 | in every order in which submitted parts return the run ends with every cell final |
| `WaveSurface.GenerateWhiteNoise` | src/examples/cpp/autoreg/autoreg.cc:24-51 | the sequential noise is that of the parts, each with its own restarted stream |
| `WaveSurface.GenerateSurface` | src/examples/cpp/autoreg/autoreg.cc:54-75 | the sequential computation in place leaves every cell with the coefficients, in their order, times the cells behind it and its own noise |
| `WaveSurface.Verify` | src/examples/cpp/autoreg/autoreg.cc:224-259 | the parallel and the sequential surface are two arrays that are equal cell by cell and satisfy the recurrence, so the residual is nought |
| `TreePosition.ParentIsHeapParent` | src/subordination/daemon/tree_hierarchy_iterator.cc:18-20 | the parent (layer - 1, offset / fanout) of the node number q is the node number (q - 1) / fanout |
| `TreePosition.LinearOrder` | src/subordination/daemon/position_in_tree.hh:64-70 | positions are ordered by layer and offset as their numbers are, hence the number determines the position |
| `TreePosition.SearchExact` | src/subordination/daemon/position_in_tree.cc:7-21 | in 32-bit arithmetic the search stops in the right layer exactly if the size of the layer, cut to 32 bits, still covers the node |
| `TreePosition.SmallIsRepresentable` | src/subordination/daemon/position_in_tree.cc:7-21 | this is so whenever the number times the fan-out is below 2 to the power of 32 |
| `TreePosition.SearchMayNotEnd` | src/subordination/daemon/position_in_tree.cc:13-17 | with a fan-out of 65536 the search for the node 65538 never ends |
| `TreePosition.Position.constructor` | src/subordination/daemon/position_in_tree.cc:7-21 | the position that is built has the given number |
| `TreePosition.Position.ToPositionInAddressRange` | src/subordination/daemon/position_in_tree.cc:25-36 | the 0-based number of the position, so the constructor is undone |
| `TreePosition.Position.NumNodes` | src/subordination/daemon/position_in_tree.cc:40-48 | the size of the layer, cut to 32 bits |
| `TreePosition.Position.Increment` | src/subordination/daemon/position_in_tree.cc:52-60 | the successor: the number grows by one |
| `TreePosition.Position.Decrement` | src/subordination/daemon/position_in_tree.cc:64-75 | the predecessor; the root stays |
| `TreeIterator.OrderIsComplete` | src/subordination/daemon/tree_hierarchy_iterator.cc:30-123 | the order of the probes has every lower position once and no other, the parent in the tree first |
| `TreeIterator.UpperStep` | src/subordination/daemon/tree_hierarchy_iterator.cc:75-109 | one step through the upper layers passes over the parent and moves on by one place of the order, up to the root |
| `TreeIterator.Iterator.Visited` | src/subordination/daemon/tree_hierarchy_iterator.cc:30-123 | the shown address is the one at its place in the order, in every state of the iterator |
| `TreeIterator.Iterator.ShownIsLower` | src/subordination/daemon/tree_hierarchy_iterator.cc:30-123 | every shown address belongs to a lower position |
| `TreeIterator.Iterator.constructor` | src/subordination/daemon/tree_hierarchy_iterator.cc:8-31 | the first address is shown, or the end is reached if there are no lower positions |
| `TreeIterator.Iterator.Next` | src/subordination/daemon/tree_hierarchy_iterator.cc:35-55 | the next address of the order is shown, or the end is reached behind the last one; the repeated root of the first layer is absorbed |
| `TreeIterator.Iterator.TraverseUpperLayers` | src/subordination/daemon/tree_hierarchy_iterator.cc:75-98 | the place in the order grows by one unless the address repeats, and the state changes at the root |
| `TreeIterator.Iterator.TraverseBaseLayer` | src/subordination/daemon/tree_hierarchy_iterator.cc:112-123 | the left part of the own layer follows, up to the own position, which ends the iteration |
| `TreeIterator.Visit` | src/subordination/daemon/tree_hierarchy_iterator.cc:8-123 | a whole iteration shows each lower address exactly once, the parent first, and never the own one |
| `Hierarchy.MergedIsLatest` | src/subordination/daemon/hierarchy.cc:10-32 | merging keeps for every other node the record of the highest version, the held one in case of a tie |
| `Hierarchy.MergeChanges` | src/subordination/daemon/hierarchy.cc:10-32 | a list changes the table exactly if it has a newer record of another node |
| `Hierarchy.MergeOrder` | src/subordination/daemon/hierarchy.cc:10-32 | lists of the same consistent records lead to the same nodes, versions and resources in every order |
| `Hierarchy.Hierarchy.AddNodes` | src/subordination/daemon/hierarchy.cc:10-32 | the loop merges the list and reports whether the table changed |
| `Hierarchy.Hierarchy.AddSuperior` | src/subordination/daemon/hierarchy.cc:35-45 | the superior is set, with a new version exactly if it differs |
| `Hierarchy.Hierarchy.AddSubordinate` | src/subordination/daemon/hierarchy.cc:48-58 | the record of the node, or a default one, gets this node as its superior without a new version |
| `Hierarchy.Hierarchy.RemoveNode` | src/subordination/daemon/hierarchy.cc:61-80 | the two links are cleared without a new version; a node without a record is never reported |
| `Hierarchy.Hierarchy.SetResources` | src/subordination/daemon/hierarchy.cc:83-92 | other resources get a new version |
| `Hierarchy.Hierarchy.TraverseDown` | src/subordination/daemon/hierarchy.hh:152-170 | on an acyclic table exactly the nodes at most the given number of steps below are appended, nobody twice, in at most one round more than there are nodes |
| `Hierarchy.Hierarchy.TraverseUp` | src/subordination/daemon/hierarchy.hh:152-170 | exactly the ancestors up to the given number are appended, although every walk begins anew at the first node |
| `Hierarchy.LowerIsComplete` | src/subordination/daemon/hierarchy.cc:139-149 | with as many steps as there are nodes nobody below is left out |
| `Hierarchy.AncestorsClimb` | src/subordination/daemon/hierarchy.cc:152-166 | the listed ancestors are the nodes to which the superiors lead |
| `Hierarchy.LowerIsNotUpper` | src/subordination/daemon/hierarchy.cc:116-136 | on an acyclic table no descendant is an ancestor |
| `Hierarchy.Hierarchy.Nodes` | src/subordination/daemon/hierarchy.cc:116-136 | this node, then all descendants and then all ancestors within the radius, nobody twice |
| `Hierarchy.Hierarchy.LowerNodes` | src/subordination/daemon/hierarchy.cc:139-149 | the node and exactly its descendants within the depth |
| `Hierarchy.Hierarchy.UpperNodes` | src/subordination/daemon/hierarchy.cc:152-166 | the node and its ancestors up to the depth, in their order |
| `Hierarchy.Hierarchy.NodesBehind` | src/subordination/daemon/hierarchy.hh:59-67 | above the superior its ancestors, behind any other neighbour all that is below it |
| `Discovery.ReactionIsSound` | src/subordination/daemon/discoverer.cc:59-361 | every handler leads from states and messages in which superiors stand lower to such states and messages |
| `Discovery.NeverRejects` | src/subordination/daemon/discoverer.cc:142-160 | the branch for a superior that tries to become a subordinate is never taken |
| `Discovery.SuperiorsNeverLoop` | src/subordination/daemon/discoverer.cc:59-361 | with messages lost, repeated and overtaken, no superiors ever form a cycle, neither the real ones nor those in any table |
| `Discovery.RemovalIsReported` | src/subordination/daemon/hierarchy.cc:61-80 | in every reachable state the removal of a node reports exactly whether the view has changed, because every node has a record of its superior |
| `Discovery.StepKeepsCoherent` | src/subordination/daemon/discoverer.cc:59-361 | every step keeps the coherence of versions and resources |
| `Discovery.AlwaysCoherent` | src/subordination/daemon/hierarchy.cc:10-92 | no record of a node is newer than its own, and below the highest version equal versions carry equal resources |
| `Discovery.VersionsNeverDecrease` | src/subordination/daemon/hierarchy.cc:10-92 | in every run nodes stay known and versions never decrease |
| `Discovery.OrderDoesNotMatter` | src/subordination/daemon/hierarchy.cc:10-32 | two messages that overtake each other lead to the same nodes, versions and resources |
| `Discovery.NewsTravels` | src/subordination/daemon/discoverer.cc:246-255 | in every run, when a node has a newer record of itself or of a node that is at most the radius above or below it, all nodes that it knows but the sender are sent this record |
| `Discovery.NewsArrives` | src/subordination/daemon/discoverer.cc:320-338 | whoever has received gossip knows what it says then and ever after |
| `Discovery.AnswerTells` | src/subordination/daemon/discoverer.cc:112-140 | whoever probes is answered with the records of all nodes near the node that was probed |
| `Discovery.OwnChangeIsNews` | src/subordination/daemon/hierarchy.cc:35-92 | a node makes a new version of its record exactly if it gets another superior or other resources |
| `Discovery.OldNewsIsIgnored` | src/subordination/daemon/hierarchy.cc:10-32 | records without a new version change nothing |
| `Discovery.WhoAsksIsSubordinate` | src/subordination/daemon/discoverer.cc:112-160 | after a probe with records the probed superior has the sender as a subordinate, and the former one has not |
| `Discovery.GossipStep` | src/subordination/daemon/discoverer.cc:320-338 | whoever passes gossip on is less behind than before, and tells no more neighbours than there are nodes |
| `Discovery.GossipIsBounded` | src/subordination/daemon/discoverer.cc:246-255 | in every stretch of a run at most as much gossip is sent as the number of nodes times the number of versions by which they catch up, where every event other than the receipt of gossip may put each node behind by one version |
| `Discovery.GossipComesToRest` | src/subordination/daemon/discoverer.cc:246-255 | hence without such events the gossip that is still sent is bounded by what the nodes do not know yet |
| `Discovery.WhoAnswersIsSuperior` | src/subordination/daemon/discoverer.cc:162-206 | after a successful answer the answering node is the superior, so it is the intended one exactly if the intended one answered |
| `Discovery.SuperiorIsTakenBack` | src/subordination/daemon/discoverer.cc:142-202 | the notification of the old superior removes nothing there; its answer makes the old superior the superior again and sends the same notification anew |
| `Discovery.SuperiorIsTakenBackInRun` | src/subordination/daemon/discoverer.cc:142-202 | there is a run of three nodes in which the last one takes the second as its superior, then the first, and then has the second again |
| `Discoverer.Discoverer.Discover` | src/subordination/daemon/discoverer.cc:59-87 | the shown candidate, which stands lower, is probed; at the end the iteration starts again later |
| `Discoverer.Discoverer.OnTimer` | src/subordination/daemon/discoverer.cc:89-96 | only a waiting node acts: it probes a candidate that is not its superior, or starts the timer again |
| `Discoverer.Discoverer.BroadcastHierarchy` | src/subordination/daemon/discoverer.cc:246-255 | every known node but the ignored one is sent a message with the records of all nodes that are at most the radius above or below |
| `Discoverer.Discoverer.ProcessProbe` | src/subordination/daemon/discoverer.cc:142-160 | the decision about a probe and its return code |
| `Discoverer.Discoverer.ProbeReceived` | src/subordination/daemon/discoverer.cc:112-140 | the reaction to a probe is a step of the protocol |
| `Discoverer.Discoverer.ProbeReturned` | src/subordination/daemon/discoverer.cc:162-206 | the reaction to an answer is a step of the protocol; after a failure the next candidate is probed |
| `Discoverer.Discoverer.OnClientRemove` | src/subordination/daemon/discoverer.cc:229-244 | the loss of a neighbour is a step of the protocol; of a lost superior only the neighbours are told and no candidate is probed |
| `Discoverer.Discoverer.UpdateWeights` | src/subordination/daemon/discoverer.cc:320-338 | gossip is merged and, exactly if it was news, passed on to all known nodes but the sender with all records near by |
| `Discoverer.Discoverer.SetResources` | src/subordination/daemon/discoverer.cc:352-361 | changed resources are told to everybody |
| `Discoverer.Discoverer.DidIsStep` | src/subordination/daemon/discoverer.cc:59-361 | what one daemon does is a step of the network |
| `ExpressionText.StringRoundTrip` | src/subordination/core/resources.cc:81-108 | a written string is read back exactly if every backslash in it stands before a quote |
| `ExpressionText.NumberReadsBack` | src/subordination/core/resources.cc:118-128 | a written number is read back exactly if it is below 2 to the power of 63 |
| `ExpressionText.ScanIs` | src/subordination/core/resources.cc:39-47 | the scan stops at the first space outside of brackets |
| `ExpressionText.ReadsBack` | src/subordination/core/resources.cc:411-440 | plain expressions are read back at every sufficient depth |
| `ExpressionText.ReadWeight` | src/subordination/core/resources.cc:411-440 | what is read is never heavier to write than the text was, not counting backslashes |
| `ExpressionText.OnlyPlainComesBack` | src/subordination/core/resources.cc:411-440 | an expression that is read back is plain and no deeper than the depth |
| `ExpressionText.RoundTrip` | src/subordination/core/resources.cc:293-440 | an expression is read back from its text exactly if it is plain and the depth suffices |
| `ExpressionText.SimpleRoundTrip` | src/subordination/core/resources.cc:293-440 | names that start with a letter, and strings without spaces, brackets and backslashes, suffice |
| `ExpressionText.NotReadBack` | src/subordination/core/resources.cc:367-440 | what does not come back: truth values, numbers of 64 bits, the name -0, backslashes, a space in a first argument |
| `ExpressionReader.TrimText` | src/subordination/core/resources.cc:10-16 | the two loops cut off exactly the spaces at the ends |
| `ExpressionReader.WriteString` | src/subordination/core/resources.cc:81-89 | quotes are escaped up to the first null character |
| `ExpressionReader.ReadString` | src/subordination/core/resources.cc:91-108 | the loop removes the escapes |
| `ExpressionReader.FindArgument` | src/subordination/core/resources.cc:39-47 | the loop finds the end of the first argument or refuses |
| `ExpressionReader.ReadExpression` | src/subordination/core/resources.cc:20-79 | an application is read, name and arguments |
| `ExpressionReader.ReadText` | src/subordination/core/resources.cc:411-440 | a text is read, with the three kinds of failure |
| `ExpressionReader.WriteText` | src/subordination/core/resources.cc:293-392 | the recursive printer writes the text of the expression |
| `ExpressionReader.WriteAndRead` | src/subordination/core/resources.cc:293-440 | writing and then reading gives the expression exactly if it is plain and the depth suffices |
| `ExpressionCodec.TextDecodes` | src/subordination/core/resources.cc:235-275 | a string is decoded to itself exactly if it has no null character and is shorter than the size that marks a null pointer |
| `ExpressionCodec.BinaryRoundTrip` | src/subordination/core/resources.cc:235-365 | decoding what was encoded, with anything behind it, gives the expression and leaves the rest exactly if the expression is encodable, that is without negation |
| `ExpressionCodec.Write` | src/subordination/core/resources.cc:277-320 | the encoding is appended to the buffer |
| `ExpressionCodec.Read` | src/subordination/core/resources.cc:336-365 | one expression is consumed from the buffer; an unknown tag fails |
| `Framing.WriteFrame` | src/subordination/core/kernel_buffer.cc:153-166 | the payload is appended behind its size; an empty one leaves no trace |
| `Framing.Receiver.ReceiveKernel` | src/subordination/core/kernel_buffer.cc:168-184 | the payload is delivered, and the next frame begins behind it whatever its reader consumed |
| `Framing.Receiver.ReceiveKernels` | src/subordination/core/connection.cc:107-140 | all complete frames are delivered in order, and what is kept is a proper part of the next frame |
| `Framing.Receiver.Round` | src/subordination/core/connection.hh:175-179 | filling, flipping, reading and compacting keeps the stream in step |
| `Framing.Transfer` | src/subordination/core/connection.cc:107-140 | however the stream is cut into pieces, exactly the payloads arrive, once and in order |
| `KernelCodec.KernelRoundTrip` | src/subordination/core/kernel.cc:24-83 | a kernel arrives as it was sent, with its parent and principal known by number, exactly if its filter is encodable |
| `KernelCodec.ForwardingIsTransparent` | src/subordination/core/foreign_kernel.cc:4-16 | passed on by any number of nodes that do not know its type, a kernel is read as if it had come directly, but for its source |
| `KernelCodec.SameBytes` | src/subordination/core/foreign_kernel.cc:4-16 | received from the same peer in the end, both are written to the same bytes |
| `KernelCodec.ForeignKernel.Read` | src/subordination/core/foreign_kernel.cc:10-16 | header, type, common fields and all the rest of the frame are read |
| `KernelCodec.ForeignKernel.Write` | src/subordination/core/foreign_kernel.cc:4-8 | they are written again |
| `Connection.SecondAnswerFindsNothing` | src/subordination/core/connection.hh:221-232 | numbers are distinct, so after the answer to an own kernel the same answer finds nothing, exactly if no broadcast has the same number |
| `Connection.FoundByFields` | src/subordination/core/connection.hh:221-232 | the first saved kernel is found that has the two numbers of the answer, was sent to the application that answers, and is native if the answer is |
| `Connection.Connection.ExactlyOnce` | src/subordination/core/connection.hh:201-209 | every number that was given to a saved kernel is in exactly one place: still saved, answered or recovered |
| `Connection.Connection.Send` | src/subordination/core/connection.cc:44-84 | a kernel that waits for an answer gets a number that no other one had, is written, and is saved if the connection saves |
| `Connection.Connection.SaveKernel` | src/subordination/core/connection.cc:261-308 | which kernels are kept in which queue |
| `Connection.Connection.FindKernel` | src/subordination/core/connection.hh:221-232 | the first match |
| `Connection.Connection.PlugParent` | src/subordination/core/connection.cc:206-259 | the matching kernel is taken out and gives its parent back; a carried parent is used otherwise; all else is refused |
| `Connection.Connection.ReceiveAnswer` | src/subordination/core/connection.cc:174-204 | an answer is delivered with its parent, or nothing changes |
| `Connection.Connection.ReceiveAnswerTwice` | src/subordination/core/connection.cc:174-259 | an answer without a carried parent that comes twice is delivered at most once, and the second time it is refused |
| `Connection.Connection.ReturnHome` | src/subordination/core/connection.cc:174-259 | the answer to an own kernel is delivered with the parent that was kept, and exactly this kernel is taken out |
| `Connection.Connection.AnswerElsewhere` | src/subordination/core/connection.cc:174-259 | an answer with other numbers, from another application or to a foreign kernel leaves a saved kernel alone |
| `Connection.Connection.ReceiveForeign` | src/subordination/core/connection.cc:142-163 | an answer that is passed on takes its kernel out of the queue |
| `Connection.Connection.RecoverKernels` | src/subordination/core/connection.cc:310-378 | every saved kernel meets its fate once and in order, every own one is resent, returned with an error to its parent or trashed, and all that was sent is answered or recovered |
| `Connection.Connection.RecoverKernel` | src/subordination/core/connection.cc:327-378 | the fate of one kernel |
| `ThreadPool.StepKeepsOrder` | src/subordination/core/parallel_pipeline.cc:107-157 | every step keeps the queues in order and loses nothing |
| `ThreadPool.StepKeepsAttended` | src/subordination/core/parallel_pipeline.hh:128-196 | every step keeps each waiting kernel attended by a thread that is awake or notified |
| `ThreadPool.NothingIsLostOrForgotten` | src/subordination/core/parallel_pipeline.cc:107-157 | in every run kernels are started once and in order, those of one hash one after the other, no kernel waits for threads that sleep without notification, and while a thread sleeps every common kernel has a thread of its own about to take it |
| `ThreadPool.EveryHashHasAQueue` | src/subordination/core/parallel_pipeline.hh:180-196 | every hash leads to a queue exactly if there are no downstream threads or at least as many as upstream threads |
| `ThreadPool.SameHashSameQueue` | src/subordination/core/parallel_pipeline.hh:128-196 | of any two kernels with one hash that are sent in a run, alone or among others, the first is before the second in the queue that the remainder of the hash names |
| `ThreadPool.OwnQueueFirst` | src/subordination/core/parallel_pipeline.cc:107-157 | a thread takes from the common queue only if its own queue is empty, and leaves only at the end and without work |
| `Weights.WeightsAreClamped` | src/subordination/core/weights.hh:105-128 | addition, subtraction and, by non-zero numbers, multiplication are those of the integers cut to the range |
| `Weights.UsedMono` | src/subordination/daemon/process_pipeline.hh:160-163 | more load never means fewer threads in use |
| `Weights.UsedIsClamped` | src/subordination/daemon/process_pipeline.hh:160-163 | the threads in use are the number of kernels that need all threads times the threads, and the sum of the others, cut to the range |
| `Admission.PassKeepsKernels` | src/subordination/daemon/process_pipeline.cc:155-174 | a pass deals with every kernel once |
| `Admission.PassKeepsOrder` | src/subordination/daemon/process_pipeline.cc:155-174 | admitted and requeued kernels keep their order |
| `Admission.PassIsFair` | src/subordination/daemon/process_pipeline.cc:155-174 | the threads are never used up by an admission, and no requeued kernel fits the final load |
| `Admission.FitsPlainly` | src/subordination/daemon/process_pipeline.cc:155-174 | a kernel fits exactly if the threads that are wanted and its own are fewer than there are |
| `Admission.NothingFits` | src/subordination/daemon/process_pipeline.cc:155-174 | when all threads are in use nothing is admitted |
| `Admission.ProcessPipeline.TotalLoad` | src/subordination/daemon/process_pipeline.hh:147-153 | the sum of the loads of all jobs, each added once |
| `Admission.SumAny` | src/subordination/daemon/process_pipeline.hh:147-153 | the sum of saturating loads does not depend on the order of the table |
| `Admission.ProcessPipeline.Dispatch` | src/subordination/daemon/process_pipeline.cc:135-153 | the threads that the applications want grow by those of a kernel that goes upstream, and not for another one; no other job changes |
| `Admission.NotedIsCounted` | src/subordination/daemon/process_pipeline.cc:155-174 | the load that a pass reckons with is never below the load that the connections note |
| `Admission.ProcessPipeline.Forward` | src/subordination/daemon/process_pipeline.cc:115-133 | a new kernel is passed on exactly if the threads in use and its own are fewer than there are, or if a single job runs without interleaving, and waits otherwise |
| `Admission.ProcessPipeline.DoProcessKernels` | src/subordination/daemon/process_pipeline.cc:155-174 | the rotating loop over the queue is the pass: what is passed on leaves a thread free, and nothing that waits could be added; without interleaving a single job gets everything |
| `Admission.ProcessPipeline.ProcessKernels` | src/subordination/daemon/process_pipeline.cc:176-180 | both queues share one load: the threads in use before and those of all admitted kernels are fewer than there are, no kernel that needs all threads is admitted, and none that waits could be added |
| `Scheduler.Scheduler.Match` | src/subordination/daemon/socket_pipeline.hh:368-375 | some node behind the neighbour satisfies the filter |
| `Scheduler.Scheduler.FindBest` | src/subordination/daemon/socket_pipeline.cc:140-178 | a candidate of least relative load is found exactly if one may be taken |
| `Scheduler.Scheduler.Schedule` | src/subordination/daemon/socket_pipeline.cc:78-240 | the best candidate, this node with its load increased, or a return for want of resources; in plain numbers, no candidate with as many threads has a smaller load than the chosen one, and the kernel stays exactly if every candidate is busier |
| `Scheduler.TableOrderIsIrrelevant` | src/subordination/daemon/socket_pipeline.cc:78-240 | two orders of a table lead to the same decision: to keep the kernel, to give it to equally busy neighbours, or to send it back to the same node |

## Left out

- WaveSurface.Verify: does not model the trimming of the surface, which is applied to both results alike, nor the checks for a negative or undefined variance and for undefined noise, nor the time stamps and logs.
- WaveSurface.Generator.PushKernels: does not model the MPI path, nor the wrap-around of 32-bit part numbers and counters, which stay below the number of parts.
- PartGenerator.WriteBox: does not model the fields of a part kernel other than its box.
- TreePosition.Position.constructor: requires a number that is `Representable`; for others the search of the source is wrong or does not end, as `TreePosition.SearchExact` and `TreePosition.SearchMayNotEnd` say.
- TreeIterator.Iterator.constructor: does not model strides other than 1, for which the two position conversions are not inverse, nor a fan-out of 0, which the source refuses only after it has divided by it.
- TreeIterator.Visit: has the same limits as the constructor of the iterator.
- Hierarchy.Hierarchy.AddNodes: does not model the times of the last modification, which nothing here depends on.
- Hierarchy.Hierarchy.TraverseDown: the source has one template for both directions; here each direction has its own loop over the same rounds.
- Discovery.SuperiorsNeverLoop: does not model hierarchies read from a cache file, nor nodes that start again with version 0.
- Discovery.GossipIsBounded: the bound counts messages of gossip only; probes and their answers are events that may be received again and again, and by the finding above they need not come to rest.
- Discoverer.Discoverer.ProbeReturned: does not model the table of clients of the socket pipeline, which is updated and from which the old superior is removed, nor logging and the cache file.
- ExpressionText.RoundTrip: characters above 127 are not letters here; in the source they are undefined behaviour of the C character functions.
- ExpressionCodec.Read: fails for a byte that names no type of value and for the number of a resource that does not exist; the source accepts both unchecked.
- The evaluation of expressions is not modelled; both round trips give back the same tree, hence the same value under all bindings, and further statements about evaluation would be easy.
- Framing.Receiver.ReceiveKernels: requires a stream that a writer can have sent; a size below that of the header is not handled by the source either. The order of the bytes of the size is that of the host in the source and fixed here.
- KernelCodec.KernelRoundTrip: does not model the fields of an application that is sent along, which is taken as a sized block of bytes, nor the fields that the types of kernels add, which are part of the payload together with a carried parent.
- Connection.Connection.Send: requires that the 64-bit counter does not wrap around, and does not model the load counters, the transaction log and errors while writing, after which the kernel is saved all the same.
- Connection.Connection.SaveKernel: does not model the record in the transaction log.
- Connection.Connection.ReceiveAnswer: does not model the look-up of principals of kernels that are not answers.
- Connection.Connection.Forward: does not model the change of numbers of routed kernels, of which only one old number is kept and which is not undone everywhere.
- ThreadPool.NothingIsLostOrForgotten: does not model the timer queue, threads for single kernels and the pipeline for errors; ends of threads are modelled, but kernels that are sent after the end may stay in the queues, as in the source.
- Admission.ProcessPipeline.Dispatch: does not model an unknown application without a description, for which the source throws out of the pass, nor broadcasts, which go to every job, nor the load that kernels take off when they come back.
- Admission.ProcessPipeline.DoProcessKernels: without interleaving the number of jobs may change during a pass; only the case of one job that all kernels belong to is stated.
- Scheduler.Scheduler.Schedule: does not model kernels that name a file and the location of files; the filter is a predicate on resources.
- Sockets, pipes, epoll, processes, signals, time-outs, logging, the formatting language, GlusterFS, the Python and Guile bindings and MPI are not part of this model, nor is the byte buffer of the unistdx library, of which only positions, limits and range errors are modelled.
- Ownership of memory is not modelled: kernels are values here, and parents are named by numbers.
- The binary form of `Bindings`, the tables of system calls, the parser of properties, getters and setters would only add easy members.
