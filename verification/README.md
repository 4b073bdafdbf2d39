# Models and proofs for the NEAT, HyperNeat and remote-API libraries

Dafny models of three parts of the repository, with the properties that hold of all their inputs and runs.
`dafny verify dfyconfig.toml` checks everything.

**NEAT** (`proyecto/NEAT`). A genome is a class with the source's fields: gene slots with holes, the nodes by row, the
output list and the row list. `eval` works in place, row by row, and is proved to compute a synchronous recurrence that
is stated without it and has exactly one solution. `JSON` and `load` are loops over tokens; a genome saved and loaded
gives the same answers for ever. The population is a class with the source's tables of innovation, node and row
numbers; its methods are proved against a registry of finite maps, and from that follow historical marking and row
order over whole runs of mutations and crossovers. Speciation is a partition with a complete search, and an epoch keeps
the best of every niche and the champion of all times.
Files: `Sequences`, `Genomes`, `Recurrence`, `Evaluation`, `NodeValue`, `EvalCase`, `TokenFile`, `TokenCase`, `Loading`,
`RowOrder`, `Tables`, `Registry`, `Seeds`, `Mutations`, `Crossover`, `Acts`, `Population`, `SplitValue`, `Runs`, `InputRow`,
`Sack`, `SackCase`, `Speciation`, `Epoch`.

**The remote-API client** (`proyecto/RobotLIB/remoteApi`). Outbox, inbox and split buffers are byte arrays changed in
place; each is proved to stay a concatenation of frames, and everything else is said about the frames: single frames
per key in the outbox, the round trip of split commands, the inbox as a newest-wins map and the string streams in it.
Packets are proved against the bytes on the wire, the check value against polynomial division. The recursive lock and
the hand-over between a waiting caller and the communication thread are state machines over all interleavings.
Files: `Bytes`, `Buffers`, `Frames`, `FrameBuffer`, `Outbox`, `SplitFrames`, `SplitTransfer`, `SplitReceive`, `SplitRun`,
`SplitArrival`, `InboxMerge`, `InboxRun`, `SplitInbox`, `Packets`, `Crc`, `RecursiveLock`, `WaitProtocol`.

**The HyperNeat substrate** (`proyecto/HyperNeat`). Nodes are objects that share cells and are connected and evaluated
in place; the text a node is compiled to is read back by a parser with the usual precedence and proved to say what the
running network computes.
Files: `Formula`, `FormulaCase`, `Macro`, `Substrate`, `HyperNeat`.

## What the code does not do

Where the code departs from what one would expect, the exact condition is proved:

- Placing a row for a connection that goes back by exactly one row puts it before both endpoints
  (`RowOrder.PlacedBetween`). From the second row back into the first, or between inputs, that spoils the row of the inputs
  (`InputRows.InputsFirstIff`, `InputRows.DisplacingRun`).
- A recurrent input is added without its weight; the recurrence says so.
- The population agrees with its seed only if no (in, out) pair occurs twice in it (`Populations.Start`). Searching for
  a connection to split or a pair to join numbers all candidates on the way.
- A saved genome without rows cannot be read back (`TokenFile.ReadsBackIffHasRows`); `load` spoils the row list of an
  object that already has rows (`Loading.RowListAfterLoad`); a missing node 0 can keep an unused row
  (`Loading.KeptRowsAreInUse`). The outputs of a loaded genome are in node order.
- A message of more than 32768 packets does not arrive, because packets are counted in 16 bits; an empty message is
  reported as a failure (`Packets.RoundTripIff`, `Packets.SendMessage`).
- Commands without a key are never found again among received ones: in several chunks they need not arrive, and their
  replies pile up (`SplitArrivals.ArrivesIff`, `InboxRun.UnkeyedPilesUp`). In a reply that names a key twice the older
  frame can win (`InboxRun.LookupGivesNewest`), and two frames of a string stream in one message stay apart, so that a
  later one gets between them (`InboxRun.StreamOfMessage`, `InboxRun.StreamOutOfOrder`).
- A completed split command enters the inbox without a look at its mode, and a string stream that comes in chunks takes the
  place of what was not read yet (`SplitInbox.SplitReachesInbox`). It is looked for at a place where it is not yet, and so
  can be taken for a string stream; `InboxMerge.MergeReply` says exactly when it is not.
- Drawing in proportion to values whose sum is zero can find nothing and end the program (`Sacks.DrawIsFoundIff`).
- `_exec_int_int` does not heed the option that forbids overwriting (`Outboxes.PutFixed` has a parameter for it).
- A waiting call made while communication is paused always ends in a timeout (`WaitProtocol.WaitIsAnswered`).
- The macro in the generated C++ header uses its argument without parentheses, so the header computes another function
  as soon as a node has two inputs that matter (`Macros.HeaderIsRight`, `Macros.PositiveRightIff`).

## Model

| member | source | states |
|---|---|---|
| `Genomes.Encoding.AddNode` | proyecto/NEAT/src/genetic_encoding.cpp:73-163 | Adding a node grows the slot table with holes, fills exactly slot `id` and lists the node once under its row and, for an output, once among the outputs; an occupied slot is refused and nothing changes. |
| `Genomes.Encoding.AddConnection` | proyecto/NEAT/src/genetic_encoding.cpp:170-220 | The same for a connection and its innovation; an occupied slot leaves the genome as it was. |
| `Genomes.Encoding.ResetPast` | proyecto/NEAT/src/genetic_encoding.cpp:990-995 | Every existing node has past value zero afterwards, and nothing else is changed. |
| `Recurrence.SolutionExists` | proyecto/NEAT/src/genetic_encoding.cpp:798-879 | For every closed network, past and input sequence the synchronous recurrence (weighted values of earlier rows at the same step, unweighted past values of the same and later rows) has a solution. |
| `Recurrence.SolutionIsUnique` | proyecto/NEAT/src/genetic_encoding.cpp:798-879 | It has only one solution, so it is a meaning. |
| `Evaluation.FeederTable` | proyecto/NEAT/src/genetic_encoding.cpp:808-813 | The table of inputs of a node lists, in slot order, exactly the enabled connections into it. |
| `Evaluation.AdaptedRows` | proyecto/NEAT/src/genetic_encoding.cpp:814-822 | The adapted row list is exactly the rows in use, in row order. |
| `Evaluation.InverseRows` | proyecto/NEAT/src/genetic_encoding.cpp:823-831 | The inverse table gives for every row its place in the row order. |
| `Evaluation.EvalRow` | proyecto/NEAT/src/genetic_encoding.cpp:844-873 | One turn of the row loop, in place: the nodes of the row get the values of the recurrence, and their past moves on only after the whole row is done. |
| `Evaluation.Eval` | proyecto/NEAT/src/genetic_encoding.cpp:798-879 | One call in place computes the outputs of the recurrence at time t and leaves exactly the past values that time t + 1 needs. |
| `Evaluation.EvalAll` | proyecto/NEAT/src/genetic_encoding.cpp:798-879 | Over any sequence of input vectors the calls give the outputs of the one solution of the recurrence. |
| `NodeValues.InputValue` | proyecto/NEAT/src/genetic_encoding.cpp:855-861 | In a solution the value of an input node is its function of the input. |
| `NodeValues.ValueIsSum` | proyecto/NEAT/src/genetic_encoding.cpp:844-866 | In a solution the value of every other node is its function of a sum that starts at zero and to which every enabled connection into the node, slot by slot, adds the weighted present value of a source in an earlier row or the unweighted previous value of any other source. |
| `NodeValues.NoFeeder` | proyecto/NEAT/src/genetic_encoding.cpp:844-866 | A node that nothing feeds has its function of zero. |
| `NodeValues.OneFeeder` | proyecto/NEAT/src/genetic_encoding.cpp:844-866 | A node fed by one connection has its function of what that one brings. |
| `NodeValues.TwoFeeders` | proyecto/NEAT/src/genetic_encoding.cpp:844-866 | A node fed by two has its function of the sum of both. |
| `EvalCases.EvalLooped` | proyecto/NEAT/src/genetic_encoding.cpp:798-879 | Evaluated twice, an input that feeds an output which feeds itself answers, for all functions, weights and inputs: first the weighted input, then the weighted input plus the unweighted previous output; a third, disabled connection adds nothing. |
| `TokenFile.Json` | proyecto/NEAT/src/genetic_encoding.cpp:229-276 | The loops of `JSON` write exactly the token sequence of the genome; with an empty row list the closing bracket is missing. |
| `TokenFile.ReadFile` | proyecto/NEAT/src/genetic_encoding.cpp:344-423 | The three reading loops of `load` read what the specification of the file reader reads, with their uninitialised variables as parameters. |
| `TokenFile.FileReadsBack` | proyecto/NEAT/src/genetic_encoding.cpp:229-276 | Reading the saved tokens gives the row list and, slot by slot, the saved genes. |
| `TokenFile.ReadsBackIffHasRows` | proyecto/NEAT/src/genetic_encoding.cpp:229-276 | The saved text can be read back if and only if the row list is not empty. |
| `TokenCases.SampleIsWritten` | proyecto/NEAT/src/genetic_encoding.cpp:229-276 | The text of a genome with all five functions, both kinds of holes and a disabled connection, token by token. |
| `TokenCases.ReadSample` | proyecto/NEAT/src/genetic_encoding.cpp:344-423 | What the loops read from that text, record by record, whatever the reading variables held. |
| `TokenCases.OddTokens` | proyecto/NEAT/src/random_function.cpp:70-80 | The five names of functions and no other are known; a word is read as zero and a number cut towards zero. |
| `Loading.Load` | proyecto/NEAT/src/genetic_encoding.cpp:294-520 | A load of a saved genome into a new object gives its renumbering: nodes, used rows and connections are numbered 0, 1, ... in order, endpoints are mapped. Whatever the object held, the new row numbers are put behind its old row list. |
| `Loading.CompressRows` | proyecto/NEAT/src/genetic_encoding.cpp:439-455 | The rows kept are those that a node read names, in row order. |
| `Loading.KeptRowsAreInUse` | proyecto/NEAT/src/genetic_encoding.cpp:445-455 | A row is kept if and only if a node is in it, or node 0 is missing and the uninitialised reading variable happened to hold it. |
| `Loading.RenumberedNet` | proyecto/NEAT/src/genetic_encoding.cpp:437-520 | Renumbering is a renaming of the network: an order-keeping bijection on nodes, order-keeping on rows, connections compacted. |
| `Loading.GenesComeBack` | proyecto/NEAT/src/genetic_encoding.cpp:437-520 | Gene by gene: weight, switch, kind and function come back as they were, endpoints and rows under their new numbers. |
| `Loading.InputsKeepNumbers` | proyecto/NEAT/src/genetic_encoding.cpp:437-520 | Inputs keep their numbers and no other node gets one of theirs. |
| `Recurrence.RenamedValues` | proyecto/NEAT/src/genetic_encoding.cpp:437-520 | A renamed network has, at every time, the values of the original. |
| `Loading.SameAnswers` | proyecto/NEAT/src/genetic_encoding.cpp:437-520 | From a zeroed past, output i of the renumbered genome has at every time the value of the i-th output node of the original in node order. |
| `Loading.OutputsKeepOrderIff` | proyecto/NEAT/src/genetic_encoding.cpp:493-503 | The renumbered outputs stand in the order of the original ones if and only if the output list was in node order. |
| `Loading.SaveAndLoad` | proyecto/NEAT/src/genetic_encoding.cpp:229-520 | Save, load into a new object, evaluate: the answers to every input sequence are those of the original with its past reset, in node order; the same lists if the output list was in node order (as it is in every genome of a run). |
| `Loading.RowListAfterLoad` | proyecto/NEAT/src/genetic_encoding.cpp:457-462 | After a load the row list is a permutation if and only if the object had no rows before (or none were loaded). |
| `RowOrder.PlacedKeepsOrder` | proyecto/NEAT/src/NEAT.cpp:253-313 | Placing a row keeps the list a permutation of the rows allotted and never changes the order of rows already there. |
| `RowOrder.PlacedBetween` | proyecto/NEAT/src/NEAT.cpp:289-308 | A new row stands strictly between its two endpoints' rows if and only if these differ and the connection does not go back by exactly one row; in that case the new row stands before both. |
| `RowOrder.FirstRowStays` | proyecto/NEAT/src/NEAT.cpp:289-308 | The first row stays first unless a new row is placed for a connection from the second row back into the first. |
| `RowOrder.PlacedNextToInput` | proyecto/NEAT/src/NEAT.cpp:253-313 | Which row a splitting node gets: the recorded one; else the common row of both ends; else the row next to the input's on the output's side, new if the two are neighbours; one in front of both if the connection goes back by one row. |
| `Registries.StillFits` | proyecto/NEAT/src/NEAT.cpp:202-424 | A genome that agrees with the registry agrees with every later registry. |
| `Registries.RowForAgain` | proyecto/NEAT/src/NEAT.cpp:255-286 | A splitting node that has been placed gets the same row again. |
| `Acts.NumbersHaveNoGaps` | proyecto/NEAT/src/NEAT.cpp:354-424 | Whatever a population does, innovations and node numbers are given without gaps: every number up to the next one belongs to a pair that had none. |
| `Seeds.RegisterSeed` | proyecto/NEAT/src/NEAT.cpp:165-183 | The registering loop gives every (in, out) pair of the seed the number of the first connection that has it, and all numbers are below the next one. |
| `Seeds.NextNumber` | proyecto/NEAT/src/NEAT.cpp:165-183 | If no pair occurs twice in the seed, the next innovation is the number of its connections. |
| `Populations.Start` | proyecto/NEAT/src/NEAT.cpp:135-199 | The population is valid after construction, and the seed agrees with its registry if and only if no (in, out) pair occurs twice in the seed. |
| `Populations.Population.ObtainInnovation` | proyecto/NEAT/src/NEAT.cpp:409-424 | A pair gets the number it has, or the next unused one; nothing else changes. |
| `Populations.Population.ObtainHistoricalNode` | proyecto/NEAT/src/NEAT.cpp:354-369 | The same for the node that splits a pair. |
| `Populations.Population.ObtainRow` | proyecto/NEAT/src/NEAT.cpp:253-313 | The node gets the row it has, or a new one placed by the rule, and the registry stays consistent. |
| `Populations.Population.MutationNode` | proyecto/NEAT/src/NEAT.cpp:202-246 | A child is a genome with one enabled connection split and its node placed by the row rule. There is none exactly if the genome has the splitting node of every enabled connection, all of which are numbered then. The child agrees with the registry, so no slot was occupied. |
| `Populations.Population.SplitCandidates` | proyecto/NEAT/src/NEAT.cpp:211-224 | The candidates are exactly the enabled connections whose splitting node the genome lacks; on the way every enabled connection has its splitting node numbered. |
| `Populations.Population.MutationConnection` | proyecto/NEAT/src/NEAT.cpp:509-555 | The child has one pair joined that was not, and the genome comes back unchanged exactly if every pair is joined; the child agrees with the registry. |
| `Populations.Population.JoinCandidates` | proyecto/NEAT/src/NEAT.cpp:524-547 | The candidates are exactly the pairs not joined; every pair of nodes is numbered on the way. |
| `Populations.Population.Crossover` | proyecto/NEAT/src/NEAT.cpp:805-900 | The child of two genomes that agree with the registry agrees with it, for all draws. |
| `Crossovers.Cross` | proyecto/NEAT/src/NEAT.cpp:805-900 | Slot by slot the child has what the rule takes from the parents, and its indexes agree with its genes. |
| `Crossovers.CrossedHas` | proyecto/NEAT/src/NEAT.cpp:805-900 | The child has a connection or a node exactly where one of the parents has one. |
| `Crossovers.ChildConnection` | proyecto/NEAT/src/NEAT.cpp:822-871 | A connection of one parent passes on as it is; of both, it is switched on exactly if both are or the draw wakes it, and the rest is that of the drawn parent or of the one where it is switched off. |
| `Crossovers.ChildNode` | proyecto/NEAT/src/NEAT.cpp:872-895 | A node of one parent passes on, of both the drawn one, with zero values. |
| `Crossovers.CrossedNumbered` | proyecto/NEAT/src/NEAT.cpp:822-871 | In every slot of the child is the connection that the registry numbers so, because parents agree where both have one. |
| `Mutations.SplitFits` | proyecto/NEAT/src/NEAT.cpp:234-245 | The genome with a connection split agrees with the registry and both new connections went into free slots. |
| `SplitValues.SplitSays` | proyecto/NEAT/src/NEAT.cpp:234-245 | Gene by gene: a split switches the old connection off, puts one new node between its ends, joined by a connection of weight one and one of the old weight, both switched on, and leaves every other gene as it was. |
| `SplitValues.JoinSays` | proyecto/NEAT/src/NEAT.cpp:509-555 | A join adds one connection, switched on, between two nodes that had none, and changes nothing else. |
| `SplitValues.SplitKeepsValues` | proyecto/NEAT/src/NEAT.cpp:202-246 | Splitting a forward connection with a node that passes its input on changes no value: every old node of the child has, at every time and from an equal past, the value it had in the parent. |
| `Runs.PutRandomWeights` | proyecto/NEAT/src/NEAT.cpp:35-39 | Only the weights of existing connections change. |
| `Runs.Run` | proyecto/NEAT/src/NEAT.cpp:202-900 | After any sequence of node mutations, connection mutations, crossovers and weight changes every genome ever made agrees with the final registry, the registry only grew, and each new genome is what its operation makes of the genomes it names (its history is given). |
| `Runs.RunFromSeed` | proyecto/NEAT/src/NEAT.cpp:135-900 | The same from any seed that repeats no pair; and every genome can be evaluated as long as the inputs are alone in the first row. |
| `Runs.HistoricalMarking` | proyecto/NEAT/src/NEAT.cpp:202-900 | Between any two genomes of a run: slots are equal exactly if their (in, out) pairs are; a connection in slot k has innovation k and joins existing nodes. |
| `Runs.SameNodeSameRow` | proyecto/NEAT/src/NEAT.cpp:253-313 | A node number stands for the same row in every genome of a run. |
| `Runs.SplitStaysBetween` | proyecto/NEAT/src/NEAT.cpp:289-308 | In every genome of a run a node that splits a forward pair lies strictly between its two ends. |
| `Runs.SplitKeepsInputsFirst` | proyecto/NEAT/src/NEAT.cpp:289-308 | Splitting leaves the inputs alone in the first row if and only if the connection does not lead into an input from another input or from the second row. |
| `Runs.InputsStillLead` | proyecto/NEAT/src/genetic_encoding.cpp:837-844 | While it does, every genome of the run meets what `eval` asks of the inputs. |
| `Runs.LoadedIsSeed` | proyecto/NEAT/src/NEAT.cpp:146-147 | What `load` makes of a saved genome meets what the runs ask of a seed. |
| `InputRows.InputsFirstIff` | proyecto/NEAT/src/NEAT.cpp:253-313 | After any sequence of the three registry operations the inputs are alone in the first row if and only if no operation placed, for the first time, a node on a connection into an input from another input or from the second row. |
| `InputRows.RunWithInputs` | proyecto/NEAT/src/NEAT.cpp:135-900 | So it is for every run of a population from a seed whose inputs are alone in the first row; if none did, every genome made can be evaluated. |
| `InputRows.CanBeDisplaced` | proyecto/NEAT/src/NEAT.cpp:289-308 | With two inputs this can happen at any time: naming and placing the node between them displaces them. |
| `InputRows.SplitDisplaces` | proyecto/NEAT/src/NEAT.cpp:202-246 | Whatever is drawn, splitting the only enabled connection of a seed, if it joins two inputs or one to itself, puts a node that is no input into the row of the inputs. |
| `InputRows.DisplacingRun` | proyecto/NEAT/src/NEAT.cpp:135-246 | So a run of one mutation from any such seed reaches the failure. |
| `InputRows.TwoInputsCanStart` | proyecto/NEAT/src/NEAT.cpp:135-201 | There is such a seed: two inputs in one row and a connection from one to the other. |
| `Sacks.Sack.TakeOneRandomly` | proyecto/NEAT/src/discrete_probabilities.cpp:19-32 | Takes out the drawn element and no other, and the sum follows. |
| `Sacks.Sack.ObtainUniformRandomElement` | proyecto/NEAT/src/discrete_probabilities.cpp:34-47 | Gives the first element at which the running share reaches the draw; none exactly if no share reaches it. |
| `Sacks.DrawIsFoundIff` | proyecto/NEAT/src/discrete_probabilities.cpp:34-47 | A draw of at most one finds an element, so that the error exit is not reached, if and only if there are elements and their sum is not zero or the first value is positive. |
| `SackCases.DrawOfTwo` | proyecto/NEAT/src/discrete_probabilities.cpp:34-47 | Of two elements with positive values the first is drawn up to its part of the sum, the second up to one, and none above. |
| `SackCases.DrawAfterTaking` | proyecto/NEAT/src/discrete_probabilities.cpp:19-47 | Once the first of two is taken out, every draw up to one finds the second. |
| `Speciation.FindNiche` | proyecto/NEAT/src/NEAT.cpp:1142-1166 | Finds a niche whose representative is within the threshold; finds none only after every representative was tried and failed. |
| `Speciation.PlaceAll` | proyecto/NEAT/src/NEAT.cpp:1129-1174 | Every organism is in one niche, is its founder or within the threshold of its representative, and a niche was opened only for an organism near no representative that existed then. |
| `Speciation.NichesArePartition` | proyecto/NEAT/src/NEAT.cpp:1176-1186 | The kept and renumbered niches are a partition of the organisms into non-empty lists, and every organism's niche field is the index of its niche. |
| `Epochs.Generation.Spatiation` | proyecto/NEAT/src/NEAT.cpp:1110-1186 | The whole of `spatiation`: the two statements above for the new generation, with the representatives drawn from the non-empty existing niches of the one before. |
| `Epochs.CutNiche` | proyecto/NEAT/src/NEAT.cpp:1345-1373 | The survivors of a niche, in order, are those not below its mean, and their new places are listed. |
| `Epochs.CutAll` | proyecto/NEAT/src/NEAT.cpp:1342-1380 | The survivors are exactly the organisms not below their niche's mean, each once, and the rebuilt niches are a partition of them; what `exist` holds does not matter. |
| `Epochs.BestSurvive` | proyecto/NEAT/src/NEAT.cpp:1364-1371 | The best of every niche survives. |
| `Epochs.RateAll` | proyecto/NEAT/src/NEAT.cpp:1383-1397 | Shared fitness is fitness divided by the niche's size, the total is the sum of the survivors' means, and the champion is the best of the old one and the survivors. |
| `Epochs.MeanIsAverage` | proyecto/NEAT/src/NEAT.cpp:1349-1356 | The mean times the number of members is what their fitness adds up to. |
| `Epochs.RatedByShare` | proyecto/NEAT/src/NEAT.cpp:1387-1396 | The shared fitness of every survivor times the size of its niche is its fitness. |
| `Epochs.SharesMakeMean` | proyecto/NEAT/src/NEAT.cpp:1383-1397 | The shared fitness of a niche adds up to its mean. |
| `Epochs.MeansAddUp` | proyecto/NEAT/src/NEAT.cpp:1383-1397 | The total is built up mean by mean. |
| `Epochs.ChampionOfAll` | proyecto/NEAT/src/NEAT.cpp:1342-1397 | The champion is also the best of the old one and the whole population, as the cut removes no best one. |
| `Epochs.Generation.Epoch` | proyecto/NEAT/src/NEAT.cpp:1331-1397 | The whole of `epoch` for any children: the cut, the ratings and the champion of the old generation, then the new generation in niches. |
| `RecursiveLocks.MutualExclusion` | proyecto/RobotLIB/remoteApi/extApiPlatform.c:344-402 | In every interleaving at most one thread is inside, the level is its nesting depth, and the main mutex is its own. |
| `RecursiveLocks.MainIsFree` | proyecto/RobotLIB/remoteApi/extApiPlatform.c:344-402 | The main mutex is free exactly when no thread is inside or coming in, and it becomes free exactly at the release of the last level. |
| `RecursiveLocks.ReentryDoesNotWait` | proyecto/RobotLIB/remoteApi/extApiPlatform.c:344-366 | The holder never waits for the main mutex when it locks again. |
| `RecursiveLocks.NoDeadlock` | proyecto/RobotLIB/remoteApi/extApiPlatform.c:344-402 | The two mutexes never block each other: whoever holds one can go on. |
| `RecursiveLocks.CanStepSteps` | proyecto/RobotLIB/remoteApi/extApiPlatform.c:344-402 | The conditions on nesting depth never hold a thread up: it can step whenever the mutex it needs is free. |
| `RecursiveLocks.RefinesAbstractLock` | proyecto/RobotLIB/remoteApi/extApiPlatform.c:344-402 | Every step is a step of an abstract recursive lock or changes nothing there. |
| `RecursiveLocks.Locks` | proyecto/RobotLIB/remoteApi/extApiPlatform.c:344-366 | Alone, a lock call comes to its end and takes the thread one level deeper, whether it is inside already or the lock is free. |
| `RecursiveLocks.Unlocks` | proyecto/RobotLIB/remoteApi/extApiPlatform.c:368-402 | Alone, an unlock call comes to its end and gives back one level, and the lock with the last. |
| `Buffers.ByteBuffer.Reserve` | proyecto/RobotLIB/remoteApi/extApi.c:1387-1403 | The bytes stay; if there is too little room, the buffer grows by the missing amount or by 500 bytes, whichever is more. |
| `Buffers.ByteBuffer.AppendChunk` | proyecto/RobotLIB/remoteApi/extApi.c:1387-1412 | The bytes are the old ones and then the chunk. |
| `Buffers.ByteBuffer.RemoveChunk` | proyecto/RobotLIB/remoteApi/extApi.c:1162-1170 | The bytes are the old ones without the chunk. |
| `Frames.FindCommand` | proyecto/RobotLIB/remoteApi/extApi.c:1086-1160 | The walk over frames ends and finds the first frame of that command and key, at its offset, or the null pointer if there is none. |
| `Frames.MatchesIsSameKey` | proyecto/RobotLIB/remoteApi/extApi.c:1102-1160 | For well-formed frames the byte comparison is equality of command and key. |
| `Frames.KeyedByNumber` | proyecto/RobotLIB/remoteApi/extApi.c:1102-1160 | A command has a key exactly if its number lies strictly between 0x1000 and 0x4000 and is neither 0x2000 nor 0x3000; those are the ones an empty key does not fit. |
| `Frames.KeysByNumber` | proyecto/RobotLIB/remoteApi/extApi.c:1102-1160 | In the first range the key is four bytes, in the second eight, in the third a text with its zero; elsewhere it is empty. |
| `FrameBuffers.FirstIsOf` | proyecto/RobotLIB/remoteApi/extApi.c:1086-1160 | What the walk finds is the first of the frames of that command and key. |
| `Outboxes.MadeFrame` | proyecto/RobotLIB/remoteApi/extApi.c:1172-1385 | A new frame is well-formed and says back its command, mode, key and data. |
| `Outboxes.MadeSubheader` | proyecto/RobotLIB/remoteApi/extApi.c:1172-1385 | Its subheader by the offsets: both sizes are its length, nothing of it is sent yet, and key size, command, mode, delay and options are those asked for. |
| `Outboxes.PutNull` | proyecto/RobotLIB/remoteApi/extApi.c:378-399 | With even options a command already there is left alone, with odd ones or none there a frame is added; all other commands keep theirs; the outbox stays a list of well-formed frames. |
| `Outboxes.PutFixed` | proyecto/RobotLIB/remoteApi/extApi.c:663-706 | With even options, or where they are not heeded, a command already there is overwritten in place with the new mode and value; otherwise one frame is added. |
| `Outboxes.PutBuffer` | proyecto/RobotLIB/remoteApi/extApi.c:787-827 | With even options a command already there is taken out; the new one goes to the end. |
| `Outboxes.OverwritableIsSingle` | proyecto/RobotLIB/remoteApi/extApi.c:663-1030 | One put with even options leaves one frame, with the value put. |
| `Outboxes.PutAll` | proyecto/RobotLIB/remoteApi/extApi.c:663-1030 | Over any run of puts with even options the outbox holds for each command and key at most one frame, with the last mode and value put. |
| `Outboxes.PutAllInsistent` | proyecto/RobotLIB/remoteApi/extApi.c:378-1030 | Over any run of puts with odd options that are heeded, the outbox holds for each command and key all requests, in order. |
| `SplitFrames.ChunkSays` | proyecto/RobotLIB/remoteApi/extApi.c:1739-1762 | A chunk is a well-formed frame of the same command and key with exactly the next piece of the data. |
| `SplitFrames.FrameLayout` | proyecto/RobotLIB/include/v_repConst.h:883-902 | The fields of a frame by their bytes, all of them with the lowest byte first. |
| `SplitTransfer.SendRound` | proyecto/RobotLIB/remoteApi/extApi.c:1737-1762 | One round appends to the message the chunk of every waiting command, and leaves of each what is not yet sent, or nothing. |
| `SplitReceive.ReceiveChunk` | proyecto/RobotLIB/remoteApi/extApi.c:1832-1878 | A chunk is written over the partial command of its key and size, or over fresh space with a partial command of another size removed; it comes out exactly if it is complete; the partial commands of other keys stay. |
| `SplitRun.RoundsIsCeiling` | proyecto/RobotLIB/remoteApi/extApi.c:1737-1762 | A command is drained in its size divided by the piece size, rounded up, and in one round if it is empty. |
| `SplitRun.SplitRoundTrip` | proyecto/RobotLIB/remoteApi/extApi.c:1739-1866 | For any run of rounds, whatever else is sent and whatever partial command of its key was left over: a keyed split command comes out of the receiver exactly at its last chunk, with key and data byte for byte, nothing of it before, and is gone from the split buffer. |
| `SplitRun.SmallArrives` | proyecto/RobotLIB/remoteApi/extApi.c:1739-1830 | A split command that fits into one piece, with a key or without, comes out whole in one round. |
| `SplitRun.SinglesAlways` | proyecto/RobotLIB/remoteApi/extApi.c:1832-1878 | The receiver never holds two partial commands of one key. |
| `SplitArrivals.ArrivesIff` | proyecto/RobotLIB/remoteApi/extApi.c:1469-1486 | A split command arrives, whatever else is sent and whatever was in the space the receiver uses, if and only if its number is in one of the three ranges of keyed commands or it fits into one piece. |
| `SplitRun.ReceiveMessage` | proyecto/RobotLIB/remoteApi/extApi.c:1812-1881 | The loop over the frames of a message does to every frame what the specification says. |
| `InboxMerge.JoinedSays` | proyecto/RobotLIB/remoteApi/extApi.c:1414-1456 | A string-stream frame joined with the one before is well-formed, with both size fields right and the payloads one after the other. |
| `InboxMerge.ModesByByte` | proyecto/RobotLIB/include/v_repConst.h:1025-1045 | A frame that came whole discontinues exactly if its mode is five; a string stream is command 0x3018. |
| `InboxMerge.MergeReply` | proyecto/RobotLIB/remoteApi/extApi.c:1791-1900 | Any reply: what came whole and what its last chunk completes is merged, so that a keyed name has its news and then what is left of the old frames, one less for each new one, and nothing of a command without a key goes; the other chunks go into the partial commands. It stops exactly where a completed command is misread: the inbox has a string stream, and one is read where the command is looked for before it is there. |
| `InboxMerge.MergeOfMerges` | proyecto/RobotLIB/remoteApi/extApi.c:1814-1893 | What the loop makes of the two inboxes, entry by entry, satisfies the law of names: for every key the news in order, and one old frame unmarked for each. |
| `InboxRun.MergeGivesNewest` | proyecto/RobotLIB/remoteApi/extApi.c:1814-1893 | For any message and inbox a name has exactly its newest reply after a merge if and only if the message does not bring it, or all that it brings of it but the last discontinues it and the inbox had no more of it than the message. |
| `InboxRun.LookupGivesNewest` | proyecto/RobotLIB/remoteApi/extApi.c:1814-1893 | And a lookup finds it if and only if the first reply of the name that does not discontinue it is the last, or all discontinue it and the inbox had no more of it. |
| `InboxRun.MergeIsMap` | proyecto/RobotLIB/remoteApi/extApi.c:1791-1900 | If no key occurs twice among what the message brings, the merge of an inbox that denotes a map denotes the map with it taken in. |
| `InboxRun.InboxIsMap` | proyecto/RobotLIB/remoteApi/extApi.c:1791-1900 | Over any run of such messages, with chunks and commands completed by them, and of removals, from any inbox that denotes a map, the inbox stays a map: what arrived taken in one after the other, without what was removed. |
| `InboxRun.LookupIsNewest` | proyecto/RobotLIB/remoteApi/extApi.c:1814-1893 | Over any run of messages, with chunks and commands completed by them, and of removals, for a name that no message brings twice: a lookup finds what the last event about the name left, its newest reply or nothing. |
| `InboxRun.StreamInInbox` | proyecto/RobotLIB/remoteApi/extApi.c:1414-1456 | Over any run of messages and removals the frame of a string stream holds all payloads received since it was last removed, discontinued or completed by a chunk, in order, with both size fields right. |
| `InboxRun.StreamOfMessage` | proyecto/RobotLIB/remoteApi/extApi.c:1414-1456 | However many frames of a stream one message brings to an inbox with at most one of it: all payloads are there in order, and in one frame if and only if the message brings at most one. |
| `InboxRun.StreamOutOfOrder` | proyecto/RobotLIB/remoteApi/extApi.c:1414-1456 | With two frames of it in the inbox the next payload is put between theirs. |
| `InboxRun.RemoveReply` | proyecto/RobotLIB/remoteApi/extApi.c:1964-2022 | A reply is found exactly if the inbox has one of its name; its first one is gone afterwards, and all else stays. |
| `InboxRun.NamedTwiceOlderWins` | proyecto/RobotLIB/remoteApi/extApi.c:1814-1830 | If a message brings two replies of a name, wherever they stand and whatever the inbox had, both stay and a lookup finds the older one. |
| `InboxRun.UnkeyedPilesUp` | proyecto/RobotLIB/remoteApi/extApi.c:1469-1486 | Replies numbered at most 0x1000, at least 0x4000, or by a range mark are never replaced or discontinued: over any run in which none is removed all that ever came, whole or completed by a chunk, are in the inbox. |
| `SplitInbox.EntriesAreOut` | proyecto/RobotLIB/remoteApi/extApi.c:1812-1881 | What enters the inbox from a message is exactly what comes out at its frames, whole or completed. |
| `SplitInbox.SplitReachesInbox` | proyecto/RobotLIB/remoteApi/extApi.c:1737-1893 | A keyed command put into the split buffer of one side is, after its last chunk, in the inbox of the other, byte for byte in key and pure data, in front of all there was of its name but the first; in several chunks even a string stream (it takes the place of what was there) and a discontinued command. |
| `Packets.SendMessage` | proyecto/RobotLIB/remoteApi/extApi.c:1507-1551 | The bytes sent are the packets of the message, each with its header; an empty message is a failure. |
| `Packets.CountPackets` | proyecto/RobotLIB/remoteApi/extApi.c:1529-1536 | The counting loop gives the number of packets as 16 signed bits show it. |
| `Packets.PiecesIsCeiling` | proyecto/RobotLIB/remoteApi/extApi.c:1529-1536 | A message takes a packet for every 1294 bytes or part of them. |
| `Packets.PacketBytes` | proyecto/RobotLIB/remoteApi/extApi.c:1507-1551 | A packet is the number one, its length and the number of packets left, two bytes each with the lower one first, and its data. |
| `Packets.PacketsOnTheWire` | proyecto/RobotLIB/remoteApi/extApi.c:1507-1551 | Packets are full as long as more than 1294 bytes are left, and each says how many follow. |
| `Packets.RoundTripIff` | proyecto/RobotLIB/remoteApi/extApi.c:1507-1596 | The packets of a message are put together to the message if and only if there are at most 32768 of them, that is, if and only if it is no longer than they can carry. |
| `Packets.Connection.ReceivePacket` | proyecto/RobotLIB/remoteApi/extApi.c:1621-1666 | However the bytes of the stream are delivered, a packet is taken whole, with its data and its count; an incomplete one is an error. |
| `Packets.Connection.ReceiveMessage` | proyecto/RobotLIB/remoteApi/extApi.c:1553-1666 | However the bytes are delivered, the loop stays inside the buffer sized from the first packet, gives what the packets make, and leaves the stream at the start of what follows the message. |
| `Crcs.GetCrc` | proyecto/RobotLIB/remoteApi/extApi.c:1944-1962 | The loops compute the check that the lemmas below are about. |
| `Crcs.CrcLinear` | proyecto/RobotLIB/remoteApi/extApi.c:1944-1962 | The check of the exclusive or of two data of equal length is the exclusive or of their checks. |
| `Crcs.SelfCheck` | proyecto/RobotLIB/remoteApi/extApi.c:1944-1962 | Data followed by their own check, high byte first, have check zero. |
| `Crcs.ChangesAreNoticed` | proyecto/RobotLIB/remoteApi/extApi.c:1944-1962 | Any change within two adjacent bytes, or of one byte, changes the check. |
| `Crcs.BurstsAreNoticed` | proyecto/RobotLIB/remoteApi/extApi.c:1944-1962 | Any burst of at most sixteen bits over three bytes changes the check. |
| `Crcs.CrcIsRemainder` | proyecto/RobotLIB/remoteApi/extApi.c:1944-1962 | The check is the remainder of the data with sixteen zero bits in the long division by x^16 + x^12 + x^5 + 1. |
| `Crcs.CheckOfOne` | proyecto/RobotLIB/remoteApi/extApi.c:1944-1962 | The check of the byte one is 0x1021. |
| `WaitProtocol.QueuedGoesOut` | proyecto/RobotLIB/remoteApi/extApi.c:378-406 | In every interleaving a command queued while the next message is n is in the outbox until message n is sent, and in message n ever after. |
| `WaitProtocol.OnlyQueuedGoesOut` | proyecto/RobotLIB/remoteApi/extApi.c:1729-1772 | A message holds nothing but commands queued while it was next. |
| `WaitProtocol.OnePauseOneMessage` | proyecto/RobotLIB/remoteApi/extApi.c:2071-2080 | All that is queued while communication is paused goes out in one message. |
| `WaitProtocol.WaitIsAnswered` | proyecto/RobotLIB/remoteApi/extApi.c:315-334 | A waiting call that ends without the timeout flag reads an inbox with the reply to its message or a later one merged; in a pause no waiting call ends without the flag. |
| `WaitProtocol.NoSendBeforeFetch` | proyecto/RobotLIB/remoteApi/extApi.c:1706-1722 | Once a reply to the message waited for has arrived nothing is sent or merged until the caller has fetched. |
| `WaitProtocol.AnswerCanArrive` | proyecto/RobotLIB/remoteApi/extApi.c:1706-1722 | From every state in which a call waits outside a pause, the answer can still arrive: caller and thread never wait for each other. |
| `WaitProtocol.AnsweredCallCanEnd` | proyecto/RobotLIB/remoteApi/extApi.c:1706-1722 | Once it has, the call can end with it before any timeout, also if it was just the message waited for that was answered. |
| `WaitProtocol.ThreadGoesOn` | proyecto/RobotLIB/remoteApi/extApi.c:1706-1772 | Between calls, outside a pause, the thread can send its next message without the caller, with all of the outbox, also if it was waiting for the caller to fetch. |
| `WaitProtocol.PauseCanEnd` | proyecto/RobotLIB/remoteApi/extApi.c:2071-2080 | A pause begun and ended leaves everything as it was, nested or not. |
| `WaitProtocol.PauseEnds` | proyecto/RobotLIB/remoteApi/extApi.c:2071-2080 | Whoever pauses can end the pause by one level, and the last level gives the lock back. |
| `Formulas.FormulaMeansValue` | proyecto/HyperNeat/src/SpatialNode.cpp:116-161 | The text of a node, read by the usual precedence with the node function a function, has the value of the node, and cannot be read if a node function is not defined. |
| `FormulaCases.Precedence` | proyecto/HyperNeat/src/SpatialNode.cpp:116-161 | The reading of sums, products, groups and repeated quotients on small texts. |
| `FormulaCases.SigmoidSays` | proyecto/HyperNeat/src/UserFunctions.cpp:48-63 | The node function in exact arithmetic. |
| `FormulaCases.OtherNameIsZero` | proyecto/HyperNeat/src/UserFunctions.cpp:48-63 | A node with any other function is worth nothing. |
| `FormulaCases.TwoFedText` | proyecto/HyperNeat/src/SpatialNode.cpp:116-161 | The text of a node with two inputs, sign by sign. |
| `FormulaCases.TwoFedValue` | proyecto/HyperNeat/src/SpatialNode.cpp:77-87 | Its value, for all weights and inputs and whatever the operations round to. |
| `FormulaCases.SourceExpanded` | proyecto/HyperNeat/headers/UserFunctions.hpp:10-19 | The macro of an input node expanded, sign by sign. |
| `Macros.MacroReading` | proyecto/HyperNeat/headers/UserFunctions.hpp:10-19 | The same text with the macro expanded, read by the usual precedence: only the first of several inputs is scaled. |
| `Macros.HeaderIsRight` | proyecto/HyperNeat/headers/UserFunctions.hpp:10-19 | For a node whose inputs are read right, the macro reading is the value of the node if and only if the inputs after the first add up to zero. |
| `Macros.ReadingsAgree` | proyecto/HyperNeat/headers/UserFunctions.hpp:10-19 | Both readings agree if at every node the inputs after the first add up to zero. |
| `Macros.ChainsAreLone` | proyecto/HyperNeat/headers/UserFunctions.hpp:10-19 | So they agree for all values if every node has at most one input. |
| `Macros.TwoInputsMisread` | proyecto/HyperNeat/headers/UserFunctions.hpp:10-19 | With two inputs of weight one they differ whenever the second is not zero. |
| `Macros.RightEverywhereIff` | proyecto/HyperNeat/headers/UserFunctions.hpp:10-19 | A node fed by chains, with weights of one sign after the first, is read right in all exact worlds if and only if it has at most one input. |
| `Macros.PositiveRightIff` | proyecto/HyperNeat/headers/UserFunctions.hpp:10-19 | A network with positive weights, however deep, is read right in all exact worlds if and only if no node has a second input. |
| `Substrates.SpatialNode.AddInputToNode` | proyecto/HyperNeat/src/SpatialNode.cpp:57-75 | Input nodes and inputs not on a lower sheet are refused; otherwise the input is appended and activity passes on. |
| `Substrates.SpatialNode.CalculateOutput` | proyecto/HyperNeat/src/SpatialNode.cpp:77-87 | The cell gets the node function of the sum of the weighted outputs of the inputs. |
| `Substrates.SpatialNode.GetNodeFunction` | proyecto/HyperNeat/src/SpatialNode.cpp:116-161 | The text is that of the node with all it is fed by; the recursion ends because inputs are on lower sheets. |
| `Substrates.CalculatesValue` | proyecto/HyperNeat/src/SpatialNode.cpp:77-87 | A node whose inputs have their values calculates its value. |
| `Substrates.Substrate.EvaluateSpatialNode` | proyecto/HyperNeat/src/Substrate.cpp:140-151 | If all lower layers have their values, so has this layer afterwards; no other cell changes. |
| `Substrates.Substrate.GetSubstrateOutputFunctions` | proyecto/HyperNeat/src/Substrate.cpp:166-176 | The texts of exactly the output nodes of the substrate, in layer order. |
| `Substrates.Substrate.GetOutputOrder` | proyecto/HyperNeat/src/Substrate.cpp:188-197 | Their output numbers, in the same order. |
| `Substrates.Substrate.OutputsInOrder` | proyecto/HyperNeat/src/Substrate.cpp:166-197 | The output nodes are listed layer by layer and in the order of each layer, each once. |
| `HyperNeats.HyperNeat.CreateSubstrateConnections` | proyecto/HyperNeat/src/HyperNeat.cpp:101-197 | Refused exactly for no layers, or several outputs and a wrong number of layers; otherwise, whatever connections existed, every layer has the planned ones, and the result is true exactly if some node of type 2 is active. |
| `HyperNeats.LinkedByWeight` | proyecto/HyperNeat/src/HyperNeat.cpp:178-179 | A pair is connected exactly if the node is no input and its weight or the negated weight exceeds the threshold. |
| `HyperNeats.NegatedIsSame` | proyecto/HyperNeat/src/HyperNeat.cpp:157-195 | Negating all weights changes no connection, no activity and no result. |
| `HyperNeats.PickedExactly` | proyecto/HyperNeat/src/HyperNeat.cpp:157-183 | The connections of a node are exactly the pairs of adjacent layers that are linked, each once and with its weight. |
| `HyperNeats.HyperNeat.EdgesAreRight` | proyecto/HyperNeat/src/HyperNeat.cpp:157-183 | In the settled network a node of the layer below feeds a node exactly if that node is not an input and the weight or the negated weight exceeds the threshold. |
| `HyperNeats.HyperNeat.ActiveIsReachable` | proyecto/HyperNeat/src/SpatialNode.cpp:57-75 | A node is active exactly if a path of connections leads to it from an input node. |
| `HyperNeats.HyperNeat.EvaluateSubstrateConnections` | proyecto/HyperNeat/src/HyperNeat.cpp:298-315 | After an evaluation every node has its value in its cell; without an active output nothing changes. |
| `HyperNeats.HyperNeat.FormulaSaysOutput` | proyecto/HyperNeat/src/HyperNeat.cpp:298-315 | Then the formula of every node says what the node has in its cell. |

## Left out

- Floating-point rounding in NEAT: numbers are reals there, and node functions are parameters. In the substrate
  multiplication, division and the exponential function are parameters and may round; additions are exact.
- Loading.Load: of text that `JSON` does not write, only the row list is said.
- InboxMerge.MergeReply: stops where a completed command is misread (extApi.c:1869 computes its first argument before the
  append it should follow, so other bytes are read). What the program then joins is not modelled, and no message on which
  this happens is part of a run of InboxRun. Frames of a reply are well-formed, and chunks lie within their commands.
- SplitRun.SplitRoundTrip: stated for keyed commands; all others are in SplitArrivals.ArrivesIff.
- InboxRun.StreamInInbox: for streams whose frame stays below the size limit, with at most one frame in a message; more than
  one are in InboxRun.StreamOfMessage and InboxRun.StreamOutOfOrder.
- Outboxes.PutAll: for commands that can be overwritten; those written in place always carry the same amount of data for
  a key, as the callers do. Keys of 65535 bytes or more, which the 16-bit key size cannot hold, are excluded.
- Evaluation.Eval: asks for consistent indexes, a row list that is a permutation and inputs alone in the first row; for
  other genomes the tables of `eval` are read out of range or rows are skipped.
- WaitProtocol.QueuedGoesOut: a command is its key; what it carries is in Outboxes. There is one caller and no
  disconnection, and the server replies to each message in turn.
- InputRows.SplitDisplaces: for the first mutation of a seed with a single enabled connection; at any other time the condition
  is InputRows.InputsFirstIff.
- Packets.SendMessage: the socket takes everything. Sizes are below 2^31, as they fit the source's signed integers.
- HyperNeats.HyperNeat.CreateSubstrateConnections: the network that draws the weights is a parameter, a weight for every
  pair of nodes, as every pair is asked for once.
- Substrates.Substrate.EvaluateSpatialNode: distinct nodes write to distinct cells and no output cell is an input cell.
- Random draws are parameters, so that every statement holds for all of them; the children that reproduction draws and
  the compatibility measure are parameters of `epoch` and `spatiation`.
- `loadFromArray` is a copy of `load`. Of `load`, text that `JSON` does not write is covered only as far as the reading
  loops go.
- The commands of the split queue that are put there while one of the same key waits; `_exec_null_buffer` compares
  their size four bytes off, so it always adds a new one.
- The header of the inbox, the shared-memory transport, timeouts and clocks other than the choice to time out.
- The text for octave, which puts `OUTPUT_k = ` in front of the text of an output node; the decimal form of numbers.
- `ANN_function`, printing, saving to disk, reading the configuration files, `mutation_change_weight` beyond the change of
  weights, and the wrapper functions around the remote API, which would only add easy members.
