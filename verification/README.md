# keykit: byacc, phrases, MIDI tracks and regular expressions

A Dafny model of four parts of keykit, with the properties that make them right. The code that
works step by step is modelled step by step: methods with loops over arrays, bit rows, linked
nodes and objects, each proved against a specification, and lemmas about what the specifications
mean for a whole run.

## byacc, the parser generator

The model follows the generator from the symbols and rules that were read to a run of the parser
that comes out, in one chain of methods (`Byacc.CompileAndParse`):

* `Grammars.Valid` is the layout of the grammar arrays: right-hand sides in `ritem`, each ended by
  its negated rule number, `rrhs` pointing at each. `Reader` lays a grammar out in this way, and
  numbers symbols and token values. `Languages` shows that the packed grammar has the language of
  the rules as they were read.
* `Nullable`, `Derives`, `Warshall`, `Closure`, `Kernels` and `Lr0` build the LR(0) automaton on
  packed words. Its states are exactly the kernels that GOTO reaches (`Automata`).
* `Gotos`, `Lookaheads`, `Lalr` and `Digraph` compute lookahead sets. `Relations.IsLookahead` says
  what they are: lookback, then includes*, then reads*, then a token read directly. The depth-first
  pass with its stack of components computes the least solution of its set equations.
* `Actions`, `Conflicts` and `MakeParser` make the action rows. `Conflicts.FateOf` says what becomes
  of every action; `Conflicts.PrecedenceRemoves`, `Conflicts.DefaultRemoves` and
  `Conflicts.AcceptanceRemoves` say it of the rows themselves.
* `Vectors`, `Packing` and `Output` compress the rows into one table. `Placement` says where first
  fit puts each vector, and, with the table as long as it has grown (`TableGrowth`), exactly when it
  gives up. The vectors are determined by the parser, so there are tables if and only if first fit
  does not give up on them. `Decisions` shows that the compressed tables decide as the rows do: a kept
  action is taken, a goto is exact, and the only other thing that happens is a default reduction in
  place of an error. So precedence decides what the parser does (`Decisions.PrecedenceDecides`); in
  the example of `Precedence` a product binds tighter than a sum.
* `Driver` is the emitted `yyparse` without error recovery, one round at a time. Its stack is always
  a path of the automaton from state 0 whose symbols derive the tokens consumed, so each reduction
  finds its right-hand side, a goto exists below it, and what is accepted is a sentence. What has
  been consumed always begins a sentential form (`Prefixes`).
* `Trees`, `FollowSets` and `Acceptance` prove the converse. Along a parse tree, what follows a
  nonterminal is found over includes* and reads*, so every reduction of the tree is allowed, and if
  the grammar has no conflicts the driver does it: it accepts exactly the sentences of the grammar.
* `Loops` and `Termination` prove that runs end. A grammar without conflicts turns no symbol into
  itself, and then each round lowers a measure. So every run ends in acceptance, an error or a full
  stack, and the first two are right about the input. With conflicts a run may go on for ever
  (`Endless`).
* `StackBound` proves that the stack is never full if it is large enough for the input, provided that
  every nonterminal derives some string of tokens: then the parser decides its language
  (`StackBound.ParserDecides`). `Growing` has a grammar without conflicts, and with a nonterminal
  that derives none, whose parser fills a stack of any size.

## Phrases

`Phrases` models the linked note lists and reorders them in place; `PhraseOps` is the difference and
the intersection of two phrases, as multisets of exact notes, although byte messages of one time
come in no fixed order; `PhraseCompare` is the comparison, and says where equality and an empty
difference agree and where they do not. The comparison of byte messages reads past the end of the
second, so `Notes.BytesMay` lets any memory stand there, and the sign is stated where it is the same
for all of them; `OneMemory` keeps what is behind a phrase fixed from one comparison to the next.

## MIDI tracks

`TrackWriting` writes a phrase as a track: a merge of its notes with pending note-offs
(`Writing.Schedule`), encoded with running status and numbers of variable length. `Reading` is the
track reader, whose events `RoundTrip` also gives byte by byte. `RoundTrip` proves when reading
undoes writing, and that then exactly the messages of the notes are received. It does for tracks of
complete channel messages and sysex messages. It does not when a complete channel message follows a
shorter or longer one with the same first byte: the latter goes behind the escape, and the writer
then leaves out a status byte that the reader never saw. The condition is exact. The formats are
those of Standard MIDI Files 1.0 (RP-001), sections "Conventions" and "Track Chunks".

## Regular expressions

`Patterns` reads patterns as elements and says what these match; `PatternTexts` says how patterns are
written and what they match as written, and proves that the two agree for every pattern that
compiles. `Programs` is the matcher, `Regexes` the compiler with its buffers: the shift that turns an
element into a closure in place, the second copy for a plus sign. `ClassTables` says what the class
table holds between patterns. The matcher finds the leftmost match and there the one in which each
closure in turn goes as far as it can.

## Where code and intention part

* `%nonassoc` is documented as making an expression an error. It is one only in states without a
  default reduction: `sole_reduction` ignores erased actions (`Decisions.ErasedIsError`; a grammar
  with such a state is that of `Nonassoc.NonassocMayReduce`).
* A negated class outside a closure accepts the terminator of the text and runs past it. Exactly the
  patterns in which such a class can be reached do so on some text (`Patterns.RunsPastExactly`,
  `Programs.ExecRunsPast`); every run that stays in the text is right (`Programs.ExecFinds`).
* A class left open leaves its characters in the table for the next pattern, exactly when it has any
  (`ClassTables.LeftOverExactly`), and changes that pattern exactly when its first class does not
  hold them itself (`ClassTables.AgreesExactly`).
* Phrases that differ only in the order of byte messages of one time leave nothing when subtracted
  from each other, but compare as unequal (`PhraseCompare.TiesDecide`).
* The comparison of byte messages of unequal length may depend on the memory behind the shorter one;
  `Notes.SettledExactly` and `PhraseCompare.KnownExactly` say when the sign does not. Exactly where it
  does, comparing phrases may be negative both ways round (`PhraseCompare.TurnedExactly`,
  `PhraseCompare.NegativeBothWays`); `PhraseCompare.TransExactly` and `OneMemory.TransWithOneMemory` say
  when it is transitive.
* A grammar without conflicts promises a parser that decides its language. With a nonterminal that
  derives no string of tokens it may reduce empty rules until the stack is full, whatever its size
  (`Growing.AnyStackOverflows`); without one it cannot (`StackBound.NoOverflow`).
* Declared token numbers can make values collide (`Reader.ValuesCollide`), exactly when they are not
  fit for use (`Reader.GivenDistinct`).

`dafny verify dfyconfig.toml` checks the project.

## Model

| member | source | states |
|---|---|---|
| `Warshall.TransitiveClosure` | byacc/warshall.c:3-54 | the packed rows end as the transitive closure (one or more edges) of the relation they held, for every n, rows of several words included |
| `Warshall.ReflexiveTransitiveClosure` | byacc/warshall.c:56-84 | the same with exactly the diagonal added: the rows end as reflexive reachability |
| `Warshall.Round` | byacc/warshall.c:25-52 | one turn of the outer loop, by moving word pointers and masks, takes every row from paths through nodes below k to paths through nodes up to k |
| `Warshall.SetDiagonal` | byacc/warshall.c:67-83 | bit i of row i is set in every row and no other bit changes |
| `Reader.PackSymbols` | byacc/reader.c:1552-1673 | every symbol gets its number, and under that number its precedence, associativity and value: of a token the declared value, of error 256, of any other token the lowest number above 256 that was neither declared nor given to an earlier token; the values are nonnegative and distinct exactly when the declared numbers are positive, distinct and do not take the 256 that an unnumbered error token gets |
| `Reader.PackGrammar` | byacc/reader.c:1676-1732 | ritem is the three items of the start rule and then each right-hand side by number, ended by the negated rule number; rrhs points at each; a rule keeps the precedence that it was given, and only one without any gets that of the last token on its right-hand side, or none |
| `Reader.IndexDistinct` | byacc/reader.c:1594-1604 | numbers are distinct: error is 1, tokens below ntokens, nonterminals above the start symbol, the goal the first of them |
| `Reader.IndexIsTaken` | byacc/reader.c:1583-1604 | every number but 0 and that of the start symbol belongs to a symbol of the right class |
| `Reader.NumberVars` | byacc/reader.c:1597-1615 | nonterminals are numbered consecutively with the goal first, whatever its place in the symbol list |
| `Reader.SortLargeNumbers` | byacc/reader.c:1617-1627 | the declared numbers above 256, all of them, in order |
| `Reader.NextFree` | byacc/reader.c:1638-1644 | the scan stops at the first number that no token declares: it passes over declared numbers only, and never misses one still ahead |
| `Reader.GiveValues` | byacc/reader.c:1629-1646 | declared values stay; error gets 256; each other token the lowest number above 256 that nobody declared and no earlier token got |
| `Reader.GivenDistinct` | byacc/reader.c:1617-1646 | the token values are distinct and nonzero if and only if the declared numbers are fit for it |
| `Reader.ValuesCollide` | byacc/reader.c:1617-1646 | an input that is not fit: error without a number and another token with 256 get the same value |
| `Reader.PackRule` | byacc/reader.c:1706-1726 | one rule copied by number, with its end marker and the precedence of its last token |
| `Reader.LaidOutIsValid` | byacc/reader.c:1692-1728 | the arrays form a valid grammar in which every rule is the rule that was read |
| `Reader.ReadGrammar` | byacc/reader.c:1552-1732 | both together: a valid grammar with the goal, the symbols and the rules that were read, no more and no fewer, the precedences of all symbols, and values that are usable if and only if the declared numbers are fit; a rule with a precedence of its own has that and its associativity, any other those of the token behind which no token follows on its right-hand side, or 0 where there is none |
| `Languages.ReadNumbersMatch` | byacc/reader.c:1594-1604 | in the grammar read, symbols have distinct numbers, tokens those below ntokens, and every number but those of $end and $accept belongs to a symbol |
| `Languages.DerivesAsRead` | byacc/reader.c:1676-1732 | between strings of symbols the packed grammar derives exactly what the rules as read derive |
| `Languages.SentencesAsRead` | byacc/reader.c:1552-1732 | so an input is a sentence of the packed grammar if and only if it is one of the rules as read |
| `Nullable.SetNullable` | byacc/lr0.c:555-601 | terminates, and marks a symbol if and only if it derives the empty string |
| `Nullable.EmptyIsLeast` | byacc/lr0.c:567-596 | whatever derives the empty string lies in every set of symbols closed under the rules: the marked set is the least fixpoint |
| `Nullable.RuleDerivesEmpty` | byacc/lr0.c:573-595 | a rule whose right-hand side derives nothing but symbols that vanish makes its left-hand side vanish |
| `Derives.SetDerives` | byacc/lr0.c:495-522 | derives[x] points at the list of exactly the rules of x, ascending, with its end mark |
| `Items.ClosureIsClosed` | byacc/closure.c:104-175 | the closure set holds the nucleus and, with an item before a nonterminal, the first items of its rules |
| `Items.ClosureIsLeast` | byacc/closure.c:104-175 | and lies in every set that does so |
| `Closure.SetEFF` | byacc/closure.c:11-44 | row v of EFF is the set of nonterminals that v reaches through leftmost symbols of rules, itself included |
| `Closure.SetFirstDerives` | byacc/closure.c:47-101 | row v of first_derives is the set of rules of all those nonterminals |
| `Closure.ComputeClosure` | byacc/closure.c:104-175 | itemset ends strictly ascending, without duplicates, and as a set is exactly the closure of the nucleus |
| `Closure.MergeWord` | byacc/closure.c:143-167 | the rules of one word of the rule set are merged into the output; a zero word is skipped whole |
| `Kernels.KernelIsGoto` | byacc/lr0.c:255-290 | what collects in the slot of x is GOTO of the items over x |
| `Kernels.KernelFits` | byacc/lr0.c:36-75 | the kernel for x has at most as many items as x has occurrences in ritem |
| `Kernels.SlotRoom` | byacc/lr0.c:60-75 | so the slot of x is never overfilled and slots do not overlap |
| `Kernels.KernelBuffers.NewItemsets` | byacc/lr0.c:255-290 | afterwards each slot holds the kernel of its symbol and shift_symbol lists exactly the symbols that have one |
| `Kernels.KernelBuffers.constructor` | byacc/lr0.c:36-76 | the slots are laid out one after the other with room for every occurrence |
| `Lr0.SortSymbols` | byacc/lr0.c:100-110 | the insertion sort leaves the same symbols, strictly ascending |
| `Lr0.SaveReductions` | byacc/lr0.c:444-492 | exactly the rules whose end stands behind the dot, ascending |
| `Lr0.GetState` | byacc/lr0.c:161-223 | finds the state with the given kernel or makes it; no two states ever share a kernel |
| `Lr0.AppendStates` | byacc/lr0.c:90-117 | the list of successors: one for each symbol that can be moved over, ascending by symbol, with the GOTO kernel |
| `Lr0.InitializeStates` | byacc/lr0.c:227-252 | state 0 has the kernel of the start rule |
| `Lr0.GenerateStates` | byacc/lr0.c:133-156 | terminates with the LR(0) automaton: distinct kernels, exact shift and reduction lists, every state the successor of an earlier one |
| `Automata.StatesAreReachableKernels` | byacc/lr0.c:133-156 | the states are exactly the kernels that GOTO reaches from the start kernel, each once |
| `Automata.EdgeUnique` | byacc/lr0.c:409-441 | a state has at most one successor on a symbol |
| `Automata.EdgeExists` | byacc/lr0.c:409-441 | and has one, holding the moved item, whenever an item has the symbol behind its dot |
| `Gotos.SetGotoMap` | byacc/lalr.c:156-220 | the counting sort puts every transition on a nonterminal once into the range of its symbol, by ascending source state |
| `Gotos.GotoEntry` | byacc/lalr.c:203-217 | every entry is a transition, and lies in the range of its symbol |
| `Gotos.GotoExists` | byacc/lalr.c:203-217 | every transition on a nonterminal has an entry there |
| `Gotos.RangeAscends` | byacc/lalr.c:203-217 | within a range the source states ascend strictly |
| `Gotos.GotoUnique` | byacc/lalr.c:203-217 | so source and symbol determine the entry |
| `Gotos.MapGoto` | byacc/lalr.c:226-251 | terminates with the entry of the pair although its upper bound starts one past the range |
| `Digraph.DigraphPass.Run` | byacc/lalr.c:554-580 | each row ends as the union of the initial rows of all nodes it reaches |
| `Digraph.DigraphPass.Traverse` | byacc/lalr.c:582-637 | terminates and keeps the invariant of the search; a node is left finished with its solution, or on the stack with its index lowered |
| `Digraph.DigraphPass.TakeEdge` | byacc/lalr.c:604-617 | one successor: visited if new, then its index and its row are taken over |
| `Digraph.DigraphPass.Pop` | byacc/lalr.c:620-636 | the component is popped and every member gets the row of its root |
| `Digraph.RootSolved` | byacc/lalr.c:620-636 | when the index of a node is its own height, its row is the solution of every node stacked above it |
| `Digraph.ReachesRoot` | byacc/lalr.c:620-636 | every node above such a root reaches it: the popped nodes are one strongly connected component |
| `Digraph.SolutionSolves` | byacc/lalr.c:554-637 | the rows satisfy F(x) = initial(x) and the union of F(y) over the successors y of x |
| `Digraph.SolutionIsLeast` | byacc/lalr.c:554-637 | and are contained in all rows that satisfy or exceed these equations |
| `Digraph.CycleRowsEqual` | byacc/lalr.c:554-637 | nodes that reach each other end with equal rows |
| `Lookaheads.InitializeLA` | byacc/lalr.c:118-153 | the entries are the reductions of all states in order, each state's in its range |
| `Lookaheads.LaExists` | byacc/lalr.c:118-153 | every complete rule of a state has an entry |
| `Lookaheads.LaUnique` | byacc/lalr.c:118-153 | an entry is determined by its state and rule, and determines them |
| `Lookaheads.SetDirectReads` | byacc/lalr.c:284-294 | the row of a goto gets exactly the tokens that its target shifts |
| `Lookaheads.ReadEdges` | byacc/lalr.c:296-313 | exactly the gotos that it reads: those from its target over a nullable nonterminal |
| `Lookaheads.InitializeF` | byacc/lalr.c:255-329 | after the first pass, row k is what the gotos reachable from k by reads read directly, with $end read by goto 0 |
| `Relations.RuleWalk` | byacc/lalr.c:364-383 | from a state that holds a rule's first item the automaton can be walked along its right-hand side |
| `Lalr.FollowRule` | byacc/lalr.c:364-383 | the states met along a right-hand side; the last holds the complete rule |
| `Lalr.IncludeEdges` | byacc/lalr.c:387-399 | the backward scan finds exactly the gotos that include this one through the rule |
| `Lalr.AddLookbackEdge` | byacc/lalr.c:426-450 | finds the entry of the reduction and adds the goto to its list, leaving every other list alone |
| `Lalr.BuildRelations` | byacc/lalr.c:333-423 | the transposed table is the relation includes, and the lookback lists are exactly the relation lookback |
| `Lalr.Transpose` | byacc/lalr.c:453-509 | the relation turned around, no row overfilled |
| `Lalr.ComputeLookaheads` | byacc/lalr.c:519-551 | row i of LA is the union of the rows of F over its lookback list |
| `Lalr.TwoPasses` | byacc/lalr.c:554-580 | the two passes together compute includes* then reads* then a direct read |
| `Lalr.LookaheadsFollow` | byacc/lalr.c:519-551 | so t is in LA for q and r if and only if some goto looked back to leads over includes* and reads* to one that reads t |
| `Lalr.ComputeLalr` | byacc/lalr.c:639-655 | the whole of lalr: exactly these lookahead sets, for every state and complete rule |
| `Actions.GetShifts` | byacc/mkpar.c:58-91 | exactly the shifts of the state, sorted |
| `Actions.AddReduce` | byacc/mkpar.c:119-157 | the new action is added, nothing is lost, and the list stays sorted by token, shift first, then by rule |
| `Actions.AddReductions` | byacc/mkpar.c:93-116 | adds a reduction for each rule of the state and each token in its lookahead set, and nothing else |
| `Actions.ParseActions` | byacc/mkpar.c:46-55 | the row of a state holds exactly its shifts and its reductions on lookaheads, sorted |
| `Conflicts.OneKept` | byacc/mkpar.c:259-302 | at most one action on a token is left unsuppressed |
| `Conflicts.KeptByDefault` | byacc/mkpar.c:294-301 | without a decision by precedence it is the shift if there is one, else the reduction by the lowest rule |
| `Conflicts.SomeKept` | byacc/mkpar.c:225-236 | one is left, unless the state accepts on the token or a nonassociative pair was erased |
| `Conflicts.EndConflicts` | byacc/mkpar.c:245-256 | in the final state every action on $end is marked 1 and counted |
| `Conflicts.ResolveConflicts` | byacc/mkpar.c:259-302 | a group of actions on one token gets the marks that precedence, associativity and order decide (`PrecedenceRemoves`, `DefaultRemoves`), and the counters the number of actions marked 1: all but the first, as shift/reduce if that is a shift |
| `Conflicts.SettleRow` | byacc/mkpar.c:226-236 | every group of a row is settled and the two counts are right |
| `Conflicts.RemoveConflicts` | byacc/mkpar.c:211-242 | all rows are settled, as the three lemmas below spell out; SRtotal plus RRtotal is the number of actions marked 1 |
| `Conflicts.PrecedenceRemoves` | byacc/mkpar.c:270-292 | a shift and a reduction, alone on their token and both with a precedence: the shift is left if its precedence is higher, or equal and the token right associative; the reduction if its precedence is higher, or equal and the token left associative; otherwise both become errors; nothing else about them changes |
| `Conflicts.DefaultRemoves` | byacc/mkpar.c:294-301 | where precedence has no say the shift is left as it was, or without one the reduction by the lowest rule, and every other action on the token is marked 1 |
| `Conflicts.AcceptanceRemoves` | byacc/mkpar.c:245-256 | in the final state every action on token 0 is marked 1 |
| `Conflicts.GroupCounted` | byacc/mkpar.c:259-302 | a group that precedence decides counts for nothing; any other for all its actions but one, as shift/reduce if its first is a shift and else as reduce/reduce; at acceptance for all of them, as shift/reduce |
| `Conflicts.FindFinalState` | byacc/mkpar.c:160-175 | the successor of state 0 over the goal |
| `Conflicts.SoleReduction` | byacc/mkpar.c:326-352 | a rule if and only if nothing is shifted, every reduction left is by it, and one of them is on a token other than error |
| `MakeParser.Defreds` | byacc/mkpar.c:355-363 | the default reduction of every state by that rule |
| `MakeParser.LiveAction` | byacc/mkpar.c:211-302 | an action left unsuppressed is one that the automaton and the lookahead sets allow |
| `MakeParser.MakeParser` | byacc/mkpar.c:30-43 | rows, fates, final state, default reductions and totals together |
| `Output.OutputRuleData` | byacc/output.c:63-108 | yylhs and yylen describe every rule, by symbol value and by length of its right-hand side |
| `Output.OutputDefred` | byacc/output.c:111-136 | default reductions renumbered by two, none staying 0 |
| `Vectors.EnterActions` | byacc/output.c:181-204 | the unsuppressed shifts and reductions, without the default one, under their tokens; the counts are the numbers of slots filled |
| `Vectors.BuildVector` | byacc/output.c:207-246 | exactly `count` pairs of token value and entry, with distinct keys in the order of the tokens, and their span |
| `Vectors.TokenActions` | byacc/output.c:167-250 | the shift vector and the reduction vector of every state hold exactly these actions |
| `Vectors.DefaultGoto` | byacc/output.c:285-318 | the target most frequent among the gotos of a symbol, the lowest one on a tie |
| `Vectors.SaveColumn` | byacc/output.c:322-363 | the gotos of a symbol that do not go to the default, by source state, and their span |
| `Output.GotoActions` | byacc/output.c:252-283 | default and column of every nonterminal from the goal on |
| `Vectors.SortActions` | byacc/output.c:365-398 | exactly the vectors that have entries, by width, then tally, then number |
| `Output.VectorsAreUnique` | byacc/output.c:167-398 | the vectors and the order in which they are packed are determined by the parser |
| `Packing.Packer.MatchingVector` | byacc/output.c:464-501 | an equal earlier vector; for rows none is missed although only neighbours are compared |
| `Packing.Packer.TryPlace` | byacc/output.c:532-557 | whether all cells above the base are free; the table grows with free cells |
| `Packing.Packer.BaseTaken` | byacc/output.c:558-562 | whether an earlier vector has the base |
| `Packing.Packer.Place` | byacc/output.c:565-571 | writes the entries and keeps every earlier vector in place |
| `Packing.Packer.AdvanceLowzero` | byacc/output.c:573-574 | lowzero ends at the first free cell |
| `Packing.Packer.PackVector` | byacc/output.c:505-579 | the vector gets the least nonzero base that is usable; the search gives up exactly if, with a base below which none is usable, it comes to an entry at MAXTABLE or beyond that also lies outside the table as long as it has grown by then |
| `Packing.Packer.FindPlace` | byacc/output.c:521-563 | the search of pack_vector: the least usable base, or the limit is met; and how long the table is afterwards |
| `Packing.GivesUpExactly` | byacc/output.c:534-548 | the search gives up in the packed table if and only if first fit, in terms of the vectors placed, does |
| `TableGrowth.GrowsNext` | byacc/output.c:534-548 | looking at one entry leaves the table as long as the cell needs, a multiple of 200, and does not meet the limit if the cell lies in the table or below MAXTABLE |
| `Packing.Packer.PackNext` | byacc/output.c:421-432 | one turn of pack_table: the next vector shares the base of an equal one or gets the least usable base, and what was placed before stays first fit |
| `Packing.Packer.PackTable` | byacc/output.c:401-445 | all vectors are packed, each at its least usable base, if and only if first fit never comes to a vector at which the search gives up |
| `Placement.FirstFitIsUnique` | byacc/output.c:505-579 | the bases are determined by the vectors and their order: any two first-fit placements of the same vectors agree |
| `Placement.LengthsAreUnique` | byacc/output.c:534-548 | so are the lengths that the table has before each vector |
| `Placement.PlacedIsNoOverflow` | byacc/output.c:421-432 | if all vectors have been placed without giving up, no first-fit run of the same vectors gives up |
| `Placement.SmallTablesFit` | byacc/output.c:536-539 | packing never gets stuck if the reach of all vectors together is below MAXTABLE |
| `Packing.PackedProbe` | byacc/output.c:401-579 | probing a base with a key succeeds if and only if the vector has the key, and yields its entry, although vectors overlap and equal ones share a base |
| `Packing.Packer.ProbeExact` | byacc/output.c:430-431 | the same for the base stored for every vector, those without entries included |
| `Output.OutputTables` | byacc/output.c:138-164 | there are tables if and only if first fit, with the table as long as it has grown, never comes to a vector of this parser at which the search gives up; they find exactly the vectors' entries |
| `Output.SmallParserFits` | byacc/output.c:138-164 | in particular a parser always gets its tables if its vectors times the number of keys stay below 32500 |
| `Decisions.KeptIsTaken` | byacc/skeleton.c:75-111 | the parser takes the action that conflict removal kept for a state and token |
| `Decisions.OtherwiseDefault` | byacc/skeleton.c:75-115 | where none was kept it does the default reduction if there is one, and else reports an error |
| `Decisions.ErasedIsError` | byacc/mkpar.c:280-286 | a nonassociative pair is a parse error if and only if its state has no default reduction |
| `Decisions.PrecedenceDecides` | byacc/mkpar.c:270-292 | what the generated parser does in a state that can shift a token or reduce by one rule, both with a precedence: it shifts if the token's precedence is higher, or equal and the token right associative; it reduces if it is lower, or equal and the token left associative; otherwise it does the default reduction or reports an error |
| `Precedence.ProductBindsTighter` | byacc/mkpar.c:270-292 | in every parser generated for e: e '+' e or e '*' e or n, with both operators left associative and '*' above '+', behind e '+' e a '*' is shifted and a '+' makes the sum be reduced |
| `Precedence.ProductIsReduced` | byacc/mkpar.c:270-292 | and behind e '*' e either operator makes the product be reduced |
| `Nonassoc.NonassocMayReduce` | byacc/mkpar.c:326-352 | a grammar for which it is not: in every parser generated for e: e '<' e or n, with '<' nonassociative, the erased '<' after e '<' e runs into the default reduction |
| `Decisions.GotoExact` | byacc/skeleton.c:226-230 | the packed goto is that of the automaton for every transition on a nonterminal |
| `Stacks.ItemOnStack` | byacc/skeleton.c:178-198 | an item of the top state has its part before the dot on top of the stack, and its first item in the state below |
| `Stacks.LhsGoto` | byacc/skeleton.c:226-230 | a state that holds a rule's first item has a goto on its left-hand side |
| `Stacks.ShiftDerives` | byacc/skeleton.c:90-106 | shifting keeps the stack a path of the automaton that derives the tokens consumed |
| `Stacks.ReduceDerives` | byacc/skeleton.c:178-240 | reducing by a complete rule never pops the bottom, finds a goto and keeps that too |
| `Prefixes.StackBegins` | byacc/skeleton.c:66-246 | the symbols of every stack begin a sentential form |
| `Driver.DefaultSound` | byacc/skeleton.c:75 | a default reduction is by a rule complete in its state |
| `Driver.ShiftSound` | byacc/skeleton.c:90-106 | a shift found in the tables is a transition on a token of the value looked up |
| `Driver.ReduceSound` | byacc/skeleton.c:108-113 | a reduction found in the tables is by a complete rule |
| `Driver.YyParser.ReadToken` | byacc/skeleton.c:76-78 | reads one value; the end of the input and negative values count as 0 |
| `Driver.YyParser.Choose` | byacc/skeleton.c:74-115 | the decision that the tables give, with the token read only where there is no default reduction |
| `Driver.YyParser.Step` | byacc/skeleton.c:74-113 | one round does what the tables decide, keeps the stack a path of the automaton from state 0 whose symbols derive the tokens consumed, and accepts only a sentence |
| `Driver.YyParser.Reduce` | byacc/skeleton.c:178-240 | pops the right-hand side, never the bottom, and pushes the goto or, over the goal at the bottom, the final state |
| `Driver.YyParser.Parse` | byacc/skeleton.c:66-246 | performs the run that the tables determine; every configuration of it is consistent, and what it has consumed begins a sentential form; acceptance proves that the input is a sentence of the grammar |
| `Driver.RunIsUnique` | byacc/skeleton.c:74-246 | the run is determined by tables and input; a larger budget only continues it |
| `Driver.ErrorIsGenuine` | byacc/skeleton.c:108-118 | an error is reported only where no action was kept for the input |
| `Driver.RunErrorIsGenuine` | byacc/skeleton.c:108-118 | so a run that ends in an error got to a state without a kept action for the next input, and all that it consumed begins a sentential form |
| `Driver.ConsumedBegins` | byacc/skeleton.c:66-246 | so do the tokens consumed: none is shifted that could not come next |
| `Driver.GoalIsSentence` | byacc/skeleton.c:199-225 | with the goal alone on the stack and the end of input ahead, the input is derived from the goal |
| `Trees.TreeOfSentence` | byacc/skeleton.c:178-240 | every sentence has a parse tree with the goal at its root |
| `FollowSets.FirstIsRead` | byacc/lalr.c:255-329 | the first token of the trees behind a goto is read from it, over nullable nonterminals if need be |
| `FollowSets.ChildrenFollow` | byacc/lalr.c:333-423 | what follows a nonterminal in a parse tree is found from its goto over includes* and reads* |
| `FollowSets.FollowIsLookahead` | byacc/lalr.c:519-551 | and is in the lookahead set of every reduction that looks back to the goto |
| `Acceptance.NoConflictsExactly` | byacc/mkpar.c:211-302 | conflict removal suppresses nothing if and only if no state allows two actions on a token, or one on $end where that means acceptance |
| `Acceptance.ForestRun` | byacc/skeleton.c:74-246 | without conflicts the driver runs through the trees of a parse one round for each token and rule, whether or not default reductions read ahead |
| `Acceptance.SentenceIsAccepted` | byacc/skeleton.c:66-246 | completeness: without conflicts every run on an input with a parse tree of n tokens and rules ends in acceptance, given more than n places on the stack and a budget of n rounds |
| `Acceptance.StepSound` | byacc/skeleton.c:74-113 | one round of any run shifts one token or reduces by a rule that some lookahead allows, keeps the stack deriving what was consumed, and accepts only a sentence |
| `Acceptance.AcceptsExactly` | byacc/skeleton.c:66-246 | the parser of a grammar without conflicts accepts exactly the sentences of the grammar |
| `Loops.FollowStops` | byacc/lalr.c:519-551 | a token that can follow a goto comes to be shifted, or to accept, after finitely many reductions, on a suitable stack |
| `Loops.NoReturn` | byacc/skeleton.c:178-240 | without conflicts a stack from which the reductions before a token come to an end never comes back |
| `Loops.UnitsAreAcyclic` | byacc/skeleton.c:178-240 | so no symbol is turned into itself by rules that add only nullable symbols to it |
| `Termination.RoundFalls` | byacc/skeleton.c:74-240 | one round lowers a measure of the input left, the lowest place reached and the ranks of the symbols on the stack |
| `Termination.EveryRunEnds` | byacc/skeleton.c:66-246 | if no symbol can be turned into itself, with or without conflicts, every run ends within a number of rounds fixed by grammar, input and stack size |
| `Endless.NeverEnds` | byacc/skeleton.c:178-240 | a grammar with conflicts, s: a and a: a or empty, every parser of which goes on for ever on the empty input, a sentence |
| `Termination.RunDecides` | byacc/skeleton.c:66-246 | without conflicts every run ends in acceptance, an error or a full stack; acceptance means a sentence, an error that the input is none, however short the stack |
| `StackBound.SomeEnd` | byacc/lalr.c:519-551 | without conflicts, if every nonterminal derives a string of tokens, each path that ends in a goto can be followed by some token before which the reductions come to an end, and which can also follow every goto below it over nullable symbols |
| `StackBound.NoStateTwice` | byacc/skeleton.c:222-240 | then no stack holds a state twice with nothing but nullable symbols in between |
| `StackBound.StackFits` | byacc/skeleton.c:222-240 | so with n tokens consumed the stack has at most n + 1 times as many places as there are states |
| `StackBound.NoOverflow` | byacc/skeleton.c:236-239 | so a stack of a size fixed by the parser and the length of the input never overflows |
| `StackBound.ParserDecides` | byacc/skeleton.c:66-246 | the parser of such a grammar decides its language: every run with that stack and enough rounds ends, in acceptance if the input is a sentence and with an error if not |
| `Growing.ExampleHasNoConflicts` | byacc/mkpar.c:211-302 | a grammar that has no conflicts, in which one nonterminal derives no string of tokens |
| `Growing.AnyStackOverflows` | byacc/skeleton.c:222-240 | every parser of it overflows on one input of two tokens, whatever the size of the stack: the condition on nonterminals is needed |
| `Byacc.Generate` | byacc/main.c:342-347 | the stages in a row: automaton, gotos and parser of the grammar whether or not there are tables; tables that refine the action rows if and only if first-fit packing of this parser never gives up; the conflict totals count the actions marked 1 |
| `Byacc.GenerateAndParse` | byacc/skeleton.c:66-246 | end to end for every valid grammar: there is a parser unless first fit gives up on its vectors; what it accepts is derived from the goal; without conflicts every input with a parse tree that stack and budget have room for is accepted, and given enough rounds the run ends, with an error only for what is no sentence; if also every nonterminal derives a string of tokens and the stack has room for the input, sentences are accepted and everything else is an error |
| `Byacc.CompileAndParse` | byacc/reader.c:1552-1732 | the same from the symbols and rules as read, and in terms of them: the parser is that of exactly these rules, and the inputs it accepts are those whose tokens the rules as read derive from the goal |
| `Notes.NtCmpOrder` | src/phrase.c:259-319 | the sign of the lexicographic comparison of the notes' order keys, which `OrderOfTypes` and `OrderOfFields` spell out |
| `Notes.OrderOfTypes` | src/phrase.c:240-285 | the earlier note comes first; at one time byte messages, all equal, come before full notes, these before note-ons and these before note-offs, whatever their other fields |
| `Notes.OrderOfFields` | src/phrase.c:286-319 | notes of one time and type are ordered by pitch, channel modulo 16, port, volume, flags, duration and attribute, a string before its continuations |
| `Notes.BytesCmp` | src/phrase.c:219-238 | what the loop over the length of the first message gives for some memory behind the second |
| `Notes.BytesSign` | src/phrase.c:219-238 | zero means equal messages whatever lies in memory; the sign is lexicographic where it is settled |
| `Notes.SettledExactly` | src/phrase.c:233-236 | it is settled, for all that memory may hold, if and only if the second message is no beginning of the first, or all that the first has beyond it are bytes of 255 |
| `Notes.NtCmpXact` | src/phrase.c:321-380 | zero if and only if the exact keys are equal, whatever lies in memory, which is when the notes agree in every field (`SameExactly`); negative exactly if the first is lexicographically before the second, where the sign is settled |
| `Notes.SameExactly` | src/phrase.c:240-380 | two notes that are no byte messages have the same exact key if and only if time, type, pitch, channel modulo 16, port, volume, flags, duration and attribute agree; two byte messages if and only if time and bytes agree; one of each never |
| `Notes.BeforeTotal` | src/phrase.c:259-319 | of two notes one comes before the other |
| `Notes.BeforeTrans` | src/phrase.c:259-319 | the order is transitive |
| `Notes.ExactRefines` | src/phrase.c:253-258 | the exact comparison agrees with the order except between byte messages of one time |
| `Phrases.InsertOrdered` | src/phrase.c:645-674 | inserting at the first place whose note comes strictly later keeps a list in order |
| `Phrases.Phrase.NtInsert` | src/phrase.c:645-674 | the note goes behind all that do not come after it, or at the end if it does not precede the last; nothing else is relinked |
| `Phrases.Phrase.PhReorder` | src/phrase.c:409-452 | terminates with the same nodes relinked as the stable sort of the list, and p_end at the last |
| `Phrases.StableSortSorts` | src/phrase.c:409-452 | the result is in order and a permutation of the nodes |
| `Phrases.StableSortIsStable` | src/phrase.c:409-452 | nodes equal in the order keep their relative positions |
| `PhraseOps.PhrOp` | src/code2.c:337-436 | p1 - p2 or p1 & p2: the notes are a selection of those of p1 in order, and their exact keys are the multiset difference or the multiset intersection of those of the two phrases |
| `PhraseOps.MatchRegion` | src/code2.c:357-408 | two regions of byte messages of one time give the difference or intersection of their multisets whatever their orders |
| `PhraseOps.FindUnused` | src/code2.c:389-398 | an unused equal note is flagged if there is one; otherwise no flag changes |
| `PhraseOps.OpsSplit` | src/code2.c:333-336 | difference and intersection together are the first phrase: no note is lost or invented |
| `PhraseOps.RegionsApart` | src/code2.c:346-378 | what is in one region occurs nowhere behind the other phrase's region, so regions can be matched by themselves |
| `PhraseCompare.PhrCmp` | src/code2.c:438-460 | whatever lies in memory behind the second message: zero if and only if the exact keys agree; and negative exactly if the first phrase is lexicographically before the second, where no byte message compared is read past its end with an open result |
| `PhraseCompare.PhraseLexMeans` | src/code2.c:438-460 | the first phrase is below the second if and only if at some place their exact keys agree before it, and there it ends or has the lower note |
| `PhraseCompare.KnownExactly` | src/code2.c:438-460 | the sign is the lexicographic one for all that memory may hold if and only if it is settled at the first notes that differ |
| `PhraseCompare.PhrCmpTurned` | src/code2.c:438-460 | turning the phrases around turns the sign of phrcmp itself, where both signs are known |
| `PhraseCompare.PhrCmpTrans` | src/code2.c:438-460 | and phrcmp is transitive where its three signs are known |
| `PhraseCompare.TurnedExactly` | src/code2.c:438-460 | phrcmp is antisymmetric for all that memory may hold if and only if both its signs are known |
| `PhraseCompare.NegativeBothWays` | src/phrase.c:233-236 | wherever its sign is not known it may be negative both ways round |
| `PhraseCompare.TransExactly` | src/code2.c:438-460 | phrcmp is transitive for all that memory may hold, even if what is behind the third phrase changes between two comparisons, if and only if the first phrase does not come after the third, or one of the premises cannot hold |
| `OneMemory.MayIsWith` | src/phrase.c:221-238 | what a comparison may give is what it gives with some memory behind each message |
| `OneMemory.TransWithOneMemory` | src/code2.c:438-460 | with one memory behind the third phrase, the same in both comparisons that read it, phrcmp is transitive if and only if the first phrase surely comes after the second, or no such memory can lie between the other two: a condition on the first differing notes and their bytes |
| `OneMemory.OneMemoryMatters` | src/code2.c:438-460 | byte messages 1 5, 1 6 and 1 are compared transitively with one memory behind the last, but need not be with two |
| `PhraseCompare.BothMayBeNegative` | src/phrase.c:233-236 | one such pair: byte messages 1 5 and 1, of which each may be found to come first |
| `PhraseCompare.PhraseLexZero` | src/code2.c:438-460 | zero if and only if the phrases have the same exact keys in the same order |
| `PhraseCompare.PhraseLexTurned` | src/code2.c:438-460 | turning the phrases around turns the sign of the lexicographic comparison of exact keys, which phrcmp has where its sign is known |
| `PhraseCompare.PhraseLexTrans` | src/code2.c:438-460 | that comparison is transitive |
| `PhraseCompare.EqualLeavesNothing` | src/code2.c:333-459 | phrases that compare equal leave nothing when subtracted |
| `PhraseCompare.NothingLeftExactly` | src/code2.c:333-459 | two phrases leave nothing when subtracted from each other if and only if they hold the same exact keys equally often |
| `PhraseCompare.TiesDecide` | src/code2.c:348-355 | an ordered phrase compares equal to every ordered phrase with the same keys if and only if its byte messages of one time are equal |
| `PhraseCompare.SwappedTiesDiffer` | src/code2.c:348-355 | otherwise swapping two of them gives one that is in order, has the same keys and compares unequal |
| `PhraseCompare.TiesCompareUnequal` | src/code2.c:348-355 | a pair that leaves nothing both ways and compares unequal |
| `Varnums.VarRoundTrip` | src/keyto.c:39-52 | reading back a number written gives its lowest 56 bits and consumes exactly its bytes, whatever follows |
| `Varnums.VarExact` | src/mfin.c:63-79 | so it gives the number back if and only if it is below 2 to the 56th |
| `Varnums.VarBytesAre` | src/keyto.c:40-52 | the bytes of a number below two to the 28th: its one to four digits to the base 128, highest first, all but the last with the high bit set |
| `TrackWriting.TrackWriter.WriteVarinum` | src/keyto.c:39-52 | writes groups of seven bits, highest first, at most eight bytes |
| `TrackWriting.TrackWriter.PutDelta` | src/keyto.c:54-63 | writes the time, 0 for a negative one |
| `TrackWriting.TrackWriter.PutNote` | src/keyto.c:81-91 | writes a channel message, without its status byte under running status |
| `TrackWriting.TrackWriter.PutBytes` | src/keyto.c:312-379 | a complete channel message under running status, a sysex in the chosen form, anything else behind the escape; the last status becomes the first byte in every case |
| `TrackWriting.TrackWriter.AddPend` | src/keyto.c:477-500 | the note-off goes into the pending list at its place in the order |
| `TrackWriting.TrackWriter.NextEvent` | src/keyto.c:509-562 | one round writes the head of the schedule: the top pending note-off if it is not later than the next note |
| `TrackWriting.TrackWriter.PhTrack` | src/keyto.c:502-570 | a whole phrase: the schedule of starts and pending note-offs, encoded event by event, and the end of the track; what the bytes say is stated with the reader, in `WriteAndRead` |
| `TrackWriting.TrackLength` | src/keyto.c:563-569 | times never fall, and the deltas sum to the later of the last event and the phrase length |
| `Writing.StartsAreNotes` | src/keyto.c:534-560 | every note is passed through once, in order |
| `Writing.OffsAreEnds` | src/keyto.c:477-500 | every full note gets exactly one note-off, at its end |
| `Writing.OriginOfOff` | src/keyto.c:555-558 | and only after its start |
| `Writing.ScheduleRises` | src/keyto.c:509-562 | for a phrase in order with nonnegative durations events come in nondecreasing time |
| `Writing.OffsComeFirst` | src/keyto.c:511-515 | on a tie note-offs come first: whatever ends later in the track at the time of a start was started with or after it |
| `Reading.TrackReader.EGetC` | src/mfin.c:49-59 | takes one byte and counts it, or fails at the end of the file |
| `Reading.TrackReader.ReadVarinum` | src/mfin.c:61-79 | reads exactly the bytes of one number |
| `Reading.TrackReader.ReadChannelMessage` | src/mfin.c:726-741 | one or two data bytes, the first of them already read under running status |
| `Reading.TrackReader.ReadLongMessage` | src/mfin.c:744-796 | meta events, sysex messages with their continuations, and escaped messages |
| `Reading.TrackReader.ReadTrack` | src/mfin.c:703-807 | the track is read as the specification reads it, event by event, or fails at a premature end of file |
| `RoundTrip.ReadsMessage` | src/mfin.c:723-742 | a channel message, with its status byte or that of the message before, is handed on at the time reached: two data bytes, or one for status bytes from c0 to df |
| `RoundTrip.ReadsMeta` | src/mfin.c:746-758 | ff, a kind, a length and so many bytes behind a delta time are read as the meta event of that kind with those bytes at that time |
| `RoundTrip.ReadsTwoPackets` | src/mfin.c:760-796 | a sysex that comes in two packets is handed on as one message at the time of the second packet if Mf_nomerge is set, and otherwise as the two parts at their times |
| `RoundTrip.WrittenAs` | src/keyto.c:312-379 | how any message stands in the file, byte for byte: a channel message of the right length with or without its status byte, a sysex behind f0 and a length if so asked for, anything else behind f7 and its length |
| `RoundTrip.ReadsTrack` | src/mfin.c:703-807 | from any point where writer and reader agree, a track is read back if and only if no status byte clashes |
| `RoundTrip.TrackRoundTrip` | src/keyto.c:312-379 | a track written from the start of a file is read back, messages, times and length, if and only if no status byte clashes |
| `RoundTrip.NoClashMeans` | src/keyto.c:336-378 | a clash is a complete channel message right behind an escaped one that begins with the same status byte |
| `RoundTrip.CompleteRoundTrip` | src/keyto.c:336-366 | so tracks of complete channel messages and sysex messages are always read back |
| `RoundTrip.ClashOccurs` | src/keyto.c:368-378 | a track that is not: a note-on cut short, then a complete one |
| `RoundTrip.PhraseTrackOk` | src/keyto.c:502-570 | the track of a phrase with carriable notes meets the conditions of the round trip |
| `RoundTrip.WriteAndRead` | src/keyto.c:502-570 | writing a phrase and reading the track gives every start and end at its time, if and only if no status byte clashes; what is received then is, as a multiset, for each full note the note-on 9c with pitch and volume at its start and 8c or 9c with pitch and 0 at its end, for each other note its one message, and nothing else but the end of the track, in the order of time |
| `Regexes.Regex.ChSet` | src/regex.c:215-219 | adds one character to the class table |
| `Regexes.Regex.ReadClass` | src/regex.c:281-301 | the members of a bracketed class, ranges and leading dash or bracket included, are added to the table |
| `Regexes.Regex.StoreTable` | src/regex.c:305-306 | the table is stored and cleared |
| `Regexes.Regex.CompileClosure` | src/regex.c:314-340 | the code of the last element, doubled for a plus sign, is shifted up in place and becomes a closure |
| `Regexes.Regex.Close` | src/regex.c:334-340 | the in-place shift: the cells move up by one between CLO and END |
| `Regexes.Regex.MyreComp` | src/regex.c:224-432 | the program stands for the elements of the pattern, or the message is that of the first fault and the program is munged; an empty pattern reuses the last one; what the elements of a pattern match is in `PatternTexts.WrittenMeans`, and which fault it is in `ClassTables.FailsBecause` |
| `PatternTexts.PatternMeans` | src/regex.c:239-427 | a pattern as written (symbols: a plain or escaped character, a dot, a class of single characters and ranges; each alone, starred or plussed; anchors) compiles, and its elements match from i to j exactly when it does in its own terms: a star any number of times, a plus at least once, an escaped character itself |
| `PatternTexts.RunIsRange` | src/regex.c:287-292 | in a class x-y, with x not above y, accepts c if and only if x <= c <= y, and x alone only x |
| `PatternTexts.PatternIsWritten` | src/regex.c:239-427 | every pattern that compiles is the text of such a pattern |
| `PatternTexts.CompilesIfWritten` | src/regex.c:239-427 | so a pattern compiles if and only if it is such a text |
| `PatternTexts.WrittenMeans` | src/regex.c:239-427 | what compiled elements match is what every pattern with that text matches |
| `ClassTables.CompilesExactly` | src/regex.c:224-432 | a pattern compiles if and only if it does not begin with a closure and leaves no class open |
| `ClassTables.FailsBecause` | src/regex.c:302-327 | a pattern that fails has an empty closure if it begins with one, an illegal closure if that follows the anchor at its start, and otherwise a missing bracket |
| `ClassTables.LeftOverExactly` | src/regex.c:272-308 | from a clear table, bits are left over if and only if a class is left open and a character follows its bracket and caret |
| `ClassTables.AgreesExactly` | src/regex.c:272-308 | a pattern compiled over leftover bits gives what it gives over a clear table if and only if it fails, reads no class, or its first class holds those bits itself |
| `ClassTables.OpenClassLeaks` | src/regex.c:302-303 | one leak: after an open [a the pattern [b] also accepts a |
| `Patterns.GreedyFinds` | src/regex.c:605-706 | the greedy search finds a match if and only if there is one, and then the preferred one: at the first closure where two matches differ it goes further |
| `Patterns.PreferredMeans` | src/regex.c:657-698 | of two different matches the preferred one goes further at the first closure where they differ |
| `Patterns.BestIsUnique` | src/regex.c:657-698 | there is at most one such end |
| `Patterns.RunsPastExactly` | src/regex.c:631-636 | on some text the matcher passes the end if and only if the pattern has a negated class outside a closure whose predecessors outside closures can all be matched; from a start inside the text one of its predecessors must also consume a character |
| `Patterns.LeadingClassStaysInside` | src/regex.c:631-636 | so a pattern whose only such class stands first, as in [^b]+, never passes the end from a start inside the text |
| `Patterns.BareNegatedRunsPast` | src/regex.c:631-636 | one such run: a[^b] passes the end of the text a, which it does not match |
| `Programs.PMatch` | src/regex.c:605-706 | running the program is the greedy search of the elements |
| `Programs.Closure` | src/regex.c:657-698 | a closure runs as far as it can and gives back one character at a time |
| `Programs.MyreExec` | src/regex.c:477-524 | the leftmost start before the end of the text where the search does not fail; only the start of the text for an anchored pattern; nothing for a munged program |
| `Programs.ExecFinds` | src/regex.c:477-524 | whatever the pattern, for every run that stays in the text: found if and only if some match starts before the end of the text; the start is the leftmost, the end the best from there; and no match starts before the place where a run leaves the text |
| `Programs.ExecRunsPast` | src/regex.c:477-524 | execution leaves some text if and only if such a class can be reached; an anchored pattern also starts at the end of an empty text |
| `Regexes.Search` | src/regex.c:434-524 | compiling and executing together, for every pattern: it compiles if and only if it is the text of a pattern, and what is found is a stretch that this pattern matches, in its own terms; nothing found means that it matches from no place looked at; leftmost and with the best end; the text is left only if a bare negated class can be reached |

## Left out

- Driver.YyParser.Parse: error recovery, semantic values and debugging output are not modelled; an error ends the run, and the budget of rounds stands for runs that never end (`Endless.NeverEnds`). For grammars with conflicts `Termination.EveryRunEnds` says when runs end, not when they do not.
- StackBound.ParserDecides: for grammars in which some nonterminal derives no string of tokens only `Termination.RunDecides` is stated; which of them let the stack grow, as that of `Growing` does, is not characterised.
- Driver.YyParser.constructor: asks for a stack of at least two states, because the push of the final state over the goal is not checked against the stack size in the source.
- Acceptance.SentenceIsAccepted: speaks of grammars without conflicts; which language is left when precedence or order decides conflicts is not characterised beyond `Decisions.KeptIsTaken`, `Decisions.PrecedenceDecides` and soundness.
- Closure.SetFirstDerives: the next word of a row is read where it is tested; the source fetches it one turn earlier, which after the last nonterminal of a multiple of 32 reads one word past the row.
- Packing.Packer.AdvanceLowzero: the scan ends at the end of the table, beyond which the source reads cells that it has not allocated.
- Packing.Packer.TryPlace: a table grown for a base that is then rejected stays grown, as in the source; running out of memory is not modelled.
- Lr0.GetState: cores, shifts and reductions are sequences instead of linked lists, and numbers are unbounded, so the limits on states and gotos (MAXSHORT) are not modelled.
- Lalr.AddLookbackEdge: the lists of gotos are sequences, and the buffers `edge` and `states` are unbounded.
- Actions.AddReduce: action lists are sequences, so the splicing of list cells is not modelled.
- Vectors.TokenActions: froms, tos, tally and width of a vector are one record.
- Reader.PackGrammar: the arrays are built as sequences; precedences of symbols are read from the symbol list by position, and names are left out.
- Notes.BytesCmp: the memory behind the second message is some sequence of bytes; reading it is not an error in the model, and what it holds may differ from one comparison to the next, except in `OneMemory.TransWithOneMemory`.
- Phrases.Phrase.PhReorder: without the timeout, which leaves a list half sorted.
- PhraseOps.PhrOp: copies of notes share nothing with the originals, and reference counts and the free list are left out.
- TrackWriting.TrackWriter.PutDelta: the click factor is 1; scaling by a fraction and its rounding are left out.
- TrackWriting.TrackWriter.PutBytes: text messages, which stand for meta events, are excluded.
- Reading.TrackReader.ReadTrack: what the events do to notes and phrases (k_noteon and the queue of unfinished notes), meta event types and the header chunk are left out; the message buffer is a sequence, so its growth is not modelled.
- RoundTrip.TrackRoundTrip: asks for data bytes below 128 in complete channel messages, lengths and times below 2 to the 56th, and, when the reader does not merge, sysex messages that end in f7.
- Regexes.Regex.MyreComp: tags, back-references, word boundaries and a backslash at the end of the pattern are excluded, and the buffer is long enough, since the source does not check MAXDFA.
- Programs.MyreExec: the start and end of tagged parts are not recorded.
- Patterns.BareNegatedRunsPast: what happens past the terminator is not modelled further; such a run counts as an outcome of its own.
- Lexing of grammars, copying of actions, unused_rules, verbose output and all printing of tables: text handling around the algorithms.
- datum arithmetic, tasks, fifos, graphics and language bindings of keykit.
