# Tree automata and automata-based BDDs, modelled in Dafny

This project models the core of a toolkit for tree automata and automata-based
binary decision diagrams (ABDDs), together with its two C++ front-ends that
compile BLIF netlists and DIMACS clause files into BuDDy BDDs.

- **Netlist and clause compilers.** `blif_parser.cpp` and `dimacs_parser.cpp`
  are modelled as classes that hold a token list consumed from the front
  (tokenizer, `get_token`, preamble, clauses, `.inputs`/`.outputs`/`.names`
  statements), a variable map, a gate dependency map, the DFS variable order
  and the memo of compiled gates. BuDDy itself is modelled as Boolean
  formulas (`BoolEngine.Bdd`) with an evaluation function, so every
  compilation rule is proved as an equality of meanings: a `.names` table
  denotes the disjunction of its rows, a CNF/DNF file denotes the conjunction
  or disjunction of its clauses.
- **Tree-automaton core.** Transitions, the `TTreeAut` container (queries,
  renaming, removal, shrinking, BFS/DFS iteration, shortest state paths),
  top-down and bottom-up reachability, trimming, tree matching, tuple
  generation, subset-construction determinization, isomorphism checking and
  the conversion between trees and their bracketed string form. Worklist
  loops are methods whose results are proved equal to least fixpoints
  (reachable and generating states) or to reference definitions.
- **Text formats and string helpers.** The VATA (`.vtf`) and Timbuk (`.tmb`)
  line parsers and writers, with round-trip lemmas; transition keys; state
  name sorting; tuple names and the binary variable assignments.
- **ABDD apply support.** The Boolean operation tables, the short-circuit
  table and its soundness against the tables, box-label negation, the
  unique table of ABDD nodes with renumbering, negation of subtrees, the
  materialization predicates, the variable-range fixpoint of a box and the
  reference BDD apply, whose result is proved to compute the operation and
  to be reduced.

Python dictionaries become Dafny maps (with a key-order sequence where the
source depends on insertion order), lists become sequences, exceptions become
`Option`/`Result`-style outcomes, and objects updated in place become classes.

## Model

| member | source | states |
|---|---|---|
| Tokenizer.WordsShape | cpp/blif_parser.cpp:69-82 | the words of a line are non-empty, hold no white space, and together spell exactly the line's non-space characters |
| Tokenizer.LineTokensShape | cpp/blif_parser.cpp:64-82 | a line of length one or starting with the comment character gives no token; any other line gives its words followed by exactly one "\n" token |
| Tokenizer.TokensOfLines | cpp/blif_parser.cpp:59-85 | a file of '\n'-terminated lines yields the tokens of each line in order, and an unterminated last line is dropped |
| Tokenizer.SplitLine | cpp/dimacs_parser.cpp:96-110 | the inner character loop over a completed line produces exactly its words and one "\n" token |
| Tokenizer.Tokenize | cpp/dimacs_parser.cpp:77-113 | the character loop over a whole file produces exactly the token list of the line-level specification (the netlist tokenizer at cpp/blif_parser.cpp:50-86 is the same loop with '#' as comment character) |
| Numerals.Stoi | cpp/dimacs_parser.cpp:164-165 | `std::stoi` yields, when it succeeds, a value in the 32-bit `int` range; failure (no digits, overflow) is `None` |
| Numerals.StoiEmpty | cpp/dimacs_parser.cpp:116-119 | `std::stoi("")` fails, which is what a clause literal read from an exhausted token list meets |
| Numerals.StoiOfIntToString | cpp/dimacs_parser.cpp:177 | on the `int` range, reading back a printed integer gives the integer |
| BoolEngine.XnorMeaning | cpp/blif_parser.cpp:459 | the characteristic-mode combination `(p & o) \| (!p & !o)` holds exactly when p and o agree |
| BoolEngine.XorMeaning | cpp/blif_parser.cpp:461 | the combination `(p & !o) \| (!p & o)` holds exactly when p and o differ |
| BoolEngine.EvalOnSupport | cpp/blif_parser.cpp:440 | a BDD built from `bdd_ithvar` depends only on the variables it mentions |
| Dimacs.ClauseTermMeaning | cpp/dimacs_parser.cpp:171-192 | with the intended start value, a CNF clause term holds iff one of its literals holds and a DNF term iff all of them hold |
| Dimacs.DnfTermAsWrittenIsFalse | cpp/dimacs_parser.cpp:172-175 | as written, the clause term starts at false in DNF mode too, so every DNF term is false under every assignment |
| Dimacs.DnfTermAsWrittenCounterexample | cpp/dimacs_parser.cpp:172-175 | for `p dnf 1 1` / `1 0` the intended term x0 holds when x0 is true, while the term as written does not |
| Dimacs.LiteralMeaning | cpp/dimacs_parser.cpp:177-191 | literal k denotes variable \|k\|-1, plain when k > 0 and negated otherwise |
| Dimacs.DenotesNoClauses | cpp/dimacs_parser.cpp:150-157 | the start values true (CNF) and false (DNF) are the meaning of an empty clause list |
| Dimacs.FoldValid | cpp/dimacs_parser.cpp:193-200 | folding one more clause term into the result (AND for CNF, OR for DNF) keeps the result equal in meaning to the CNF/DNF of all clauses read |
| Dimacs.ReadPreambleMeaning | cpp/dimacs_parser.cpp:148-169 | a preamble is accepted exactly when a type "cnf" or "dnf" and two positive numeric counts follow; the header then records them |
| Dimacs.ReadClause | cpp/dimacs_parser.cpp:171-203 | a clause read consumes at least its terminator and has at least one literal |
| Dimacs.DimacsParser.constructor | cpp/dimacs_parser.cpp:52-62 | a parser starts with the tokenized list, no counts, and result false |
| Dimacs.DimacsParser.GetToken | cpp/dimacs_parser.cpp:115-124 | takes the front token; on an empty list returns "" and leaves the list empty |
| Dimacs.DimacsParser.Preamble | cpp/dimacs_parser.cpp:148-169 | succeeds exactly when the preamble reads; then sets the mode, the counts and the start value (true for CNF, false for DNF) and consumes four tokens; otherwise aborts |
| Dimacs.DimacsParser.Clausule | cpp/dimacs_parser.cpp:171-203 | reads one clause up to its "0" and newline and folds its intended term into the result; a non-numeric literal aborts |
| Dimacs.ParseStep | cpp/dimacs_parser.cpp:128-140 | one round of the main loop consumes at least one token: a `p` token reads a preamble and restarts the clause list from the mode's start value, any other token reads one clause, folds its term into the result and counts it; a failed read aborts |
| Dimacs.ParseFromDenotes | cpp/dimacs_parser.cpp:127-146 | whatever the main loop reads, the result it ends with is the CNF/DNF function of the clauses read since the last preamble |
| Dimacs.ParseFromEnds | cpp/dimacs_parser.cpp:127-141 | the main loop, when it does not abort, ends with at most one token left |
| Dimacs.DimacsParser.Round | cpp/dimacs_parser.cpp:128-140 | one pass of the loop body aborts exactly when the reference round does, and otherwise leaves the parser in exactly the state that round gives |
| Dimacs.DimacsParser.Parse | cpp/dimacs_parser.cpp:127-146 | corrected (see Findings): aborts exactly when the reference loop `ParseFrom` over the starting tokens and state does; otherwise ends in exactly the state it gives (mode, result, counts, clauses read, tokens left), with the result denoting the CNF/DNF of those clauses |
| BlifSpec.StatementNamesAreTokens | cpp/blif_parser.cpp:116-123 | every name the statement scan collects is one of the tokens |
| BlifSpec.DeclaredNamesHasFirstWord | cpp/blif_parser.cpp:113-123 | the first ordinary word after `.inputs`, `.outputs` or `.names` is collected as a name |
| BlifSpec.LineHasNoNewline | cpp/blif_parser.cpp:397-424 | a list line is the words up to the first "\n" token, then that token, then the rest |
| BlifSpec.SkipNewlines | cpp/blif_parser.cpp:450 | skipping newline tokens stops at a token that is not "\n", or fails when the list runs out |
| BlifSpec.RowLits | cpp/blif_parser.cpp:432-435 | a row pairs input i with plane character i, for every input |
| BlifSpec.RowTermMeaning | cpp/blif_parser.cpp:438-449 | a row's term holds exactly when every literal holds: '1' needs the input true, '0' false, and '-' is skipped |
| BlifSpec.RowTermOrderFree | cpp/blif_parser.cpp:436 | sorting a row's literals, as characteristic mode does, does not change the term's meaning |
| BlifSpec.CoverMeaning | cpp/blif_parser.cpp:427-452 | the disjunction of the rows holds exactly when some row matches |
| BlifSpec.GateRelationMeaning | cpp/blif_parser.cpp:454-463 | the characteristic relation holds exactly when the output variable equals the gate function |
| BlifSpec.GateFunctionMeaning | cpp/blif_parser.cpp:536-540 | a table whose last output is "1" is on exactly when some row matches, otherwise exactly when none does |
| BlifSpec.EmptyTableIsTrue | cpp/blif_parser.cpp:536-540 | a `.names` statement without rows stores the negation of the empty disjunction: constant true |
| BlifSpec.InputVars | cpp/blif_parser.cpp:432-440 | the inputs of characteristic mode are the variables of every name but the last |
| BlifSpec.InputFunctions | cpp/blif_parser.cpp:520-521 | the inputs of output mode are the stored functions of every name but the last |
| BlifSpec.MarkRowKeepsFunctions | cpp/blif_parser.cpp:520-522 | flagging inputs as used never changes a stored function |
| BlifSpec.MarkRowFlags | cpp/blif_parser.cpp:515-522 | exactly the inputs a row does not mark '-' become flagged as used; other entries stay as they were |
| BlifSpec.TouchAll | cpp/blif_parser.cpp:404 | `var_map[w]` inserts every missing word with id 0 and changes no present entry |
| BlifSpec.Ids | cpp/blif_parser.cpp:422 | the ids of a name line are the map's ids of its words, in order |
| BlifSpec.ClearDependencies | cpp/blif_parser.cpp:404-405 | each declared input gets an empty dependency list and other entries stay |
| BlifSpec.SeedInputs | cpp/blif_parser.cpp:497-498 | in output mode each declared input stores its own variable, not yet used |
| BlifSpec.Statements | cpp/blif_parser.cpp:356-395 | a readable statement list always consumes tokens |
| BlifOrder.VarLabelDfs | cpp/blif_parser.cpp:582-595 | appends exactly the pre-order walk `PreOrder` from the id (nothing when visited; else the id, then the walks from its inputs in list order, each skipping what earlier ones listed); the order never repeats an id, and every id it adds has its inputs visited |
| BlifOrder.OutputIds | cpp/blif_parser.cpp:598-605 | the outputs are exactly the map keys that no gate reads as an input |
| BlifOrder.DfsOrder | cpp/blif_parser.cpp:597-612 | the order is exactly `DfsWalk`, the walks from the outputs in key order sharing what is listed; it holds each id once, holds every root, and is closed under dependencies |
| BlifOrder.FilterMembers | cpp/blif_parser.cpp:615-624 | the filtered order holds exactly the kept ids, in their original relative order |
| BlifOrder.FilterToInputs | cpp/blif_parser.cpp:615-624 | collecting the positions of non-inputs and erasing them from the back leaves exactly the order filtered to the inputs |
| BlifOrder.PickMax | cpp/blif_parser.cpp:552-567 | over the map's iteration order, totals the node counts of the unused entries and picks an unused entry whose count is positive and not exceeded by any other; none when all unused counts are zero |
| Blif.StatementsHaveOutput | cpp/blif_parser.cpp:570-571 | every `.names` statement of a readable list names at least its output |
| Blif.Numbered | cpp/blif_parser.cpp:125-129 | numbering distinct names consecutively gives distinct ids in [start, start + count) |
| Blif.BlifParser.constructor | cpp/blif_parser.h:63-83 | a new parser holds the tokens, result true and gate function false, and no names |
| Blif.BlifParser.GetToken | cpp/blif_parser.cpp:350-354 | returns the front token, which becomes the current token, and the list loses exactly that token |
| Blif.BlifParser.VarIdOf | cpp/blif_parser.cpp:404 | `var_map[w]`: the id of w, inserting w with id 0 when absent |
| Blif.BlifParser.StatementWords | cpp/blif_parser.cpp:116-122 | one statement line of the scan adds its names to the collected names once each, or fails when the line runs past the list |
| Blif.BlifParser.CollectNames | cpp/blif_parser.cpp:108-124 | the scan collects every name after `.inputs`, `.outputs` and `.names` once and counts the `.names` statements; it fails exactly when a statement runs past the list |
| Blif.BlifParser.InitialParse | cpp/blif_parser.cpp:108-132 | every distinct declared name gets a distinct id in [old counter, new counter), and the counter grows by the number of names |
| Blif.BlifParser.InputsList | cpp/blif_parser.cpp:397-406 | `.inputs` records the line's names as inputs, each with an empty dependency list |
| Blif.BlifParser.InputsListOutput | cpp/blif_parser.cpp:490-500 | `.inputs` in output mode also stores each input's own variable, flagged unused |
| Blif.BlifParser.OutputsList | cpp/blif_parser.cpp:408-415 | `.outputs` records the line's names as outputs and nothing else |
| Blif.BlifParser.NamesList | cpp/blif_parser.cpp:417-424 | the name line appends the ids of its names, the output's last |
| Blif.BlifParser.BuildVarDependency | cpp/blif_parser.cpp:570-580 | the gate's output id maps to all preceding ids in order; no other entry changes |
| Blif.BlifParser.CharacteristicRow | cpp/blif_parser.cpp:438-450 | the row's path is the conjunction of its literals over the input variables |
| Blif.BlifParser.SkipNewlineTokens | cpp/blif_parser.cpp:450 | skips "\n" tokens and fails when the list runs out |
| Blif.BlifParser.NamesContentCharacteristic | cpp/blif_parser.cpp:426-464 | the rows read up to the next `.names`/`.end` give XNOR(cover, output variable) when the last output is "1" and XOR otherwise |
| Blif.BlifParser.OutputRow | cpp/blif_parser.cpp:508-531 | the row's path conjoins the stored functions of the inputs it marks, each flagged as used, with stored functions unchanged |
| Blif.BlifParser.NamesContentOutput | cpp/blif_parser.cpp:502-541 | every input a row cares about is flagged used, and the output stores the cover (last output "1") or its negation, unflagged |
| Blif.BlifParser.NamesHeader | cpp/blif_parser.cpp:371-373 | the name line gives the gate's ids and records the output's dependencies; an empty line fails |
| Blif.BlifParser.NamesStatement | cpp/blif_parser.cpp:370-380 | a `.names` statement changes the parser state exactly as one gate step of the statement semantics |
| Blif.BlifParser.NamesTableCharacteristic | cpp/blif_parser.cpp:374-378 | in characteristic mode the gate relation is conjoined into the result and the gate function is reset to false |
| Blif.BlifParser.NamesTableOutput | cpp/blif_parser.cpp:484 | in output mode the truth table changes the state as one gate step |
| Blif.BlifParser.InputsStatement | cpp/blif_parser.cpp:366-367 | `.inputs` changes the state as one inputs step in either mode |
| Blif.BlifParser.OutputsStatement | cpp/blif_parser.cpp:368-369 | `.outputs` changes the state as one outputs step |
| Blif.BlifParser.ParseStatement | cpp/blif_parser.cpp:357-392 | one dispatch round reads one statement and applies it; `.end` ends the list; an unknown construct is skipped |
| Blif.BlifParser.CharacteristicFunctionParse | cpp/blif_parser.cpp:356-395 | the recursive dispatch runs exactly the statement list up to `.end` in characteristic mode, and fails exactly when the list cannot be read |
| Blif.BlifParser.OutputFunctionParse | cpp/blif_parser.cpp:466-488 | the same in output mode |
| Blif.BlifParser.VariableOrderDfs | cpp/blif_parser.cpp:597-627 | the walk is exactly `DfsWalk` of the dependency map in key order, holds each id once, holds every root, is closed under dependencies; characteristic mode keeps it whole, output mode keeps exactly the declared inputs in walk order |
| Blif.BlifParser.InputIdSet | cpp/blif_parser.cpp:615-617 | the set of ids of the declared inputs |
| Blif.BlifParser.PickResult | cpp/blif_parser.cpp:543-568 | characteristic mode keeps the result; output mode succeeds exactly when some unused entry has nodes, and then picks an unused stored function with the greatest node count |
| BlifCircuit.CharacteristicMeaning | cpp/blif_parser.cpp:374-376 | over statements whose names all have ids, the characteristic result holds exactly when the start result and every gate relation hold |
| BlifCircuit.OutputAgreement | cpp/blif_parser.cpp:536-540 | in output mode, under an assignment satisfying every gate, each stored function evaluates to its own variable's value |
| BlifCircuit.ModesAgree | cpp/blif_parser.cpp:356-541 | the two modes describe one circuit: every assignment satisfying the characteristic relation gives every stored function of output mode its variable's value |
| Transitions.ShortenEdge | py/tree_automata/transition.py:45-47 | every box becomes short (None) and the number of boxes, the symbol and the variable stay |
| Transitions.ShortenEdgeIdempotent | py/tree_automata/transition.py:45-47 | shortening twice is shortening once |
| Transitions.FullSelfLoopMeaning | py/tree_automata/transition.py:70-76 | a full self loop is false without children and otherwise means every child is the source |
| Transitions.FullSelfLoopIsSelfLoop | py/tree_automata/transition.py:65-76 | a full self loop is also a self loop (the source is among the children) |
| Automaton.RemoveFirst | py/tree_automata/automaton.py:645-646 | `list.remove(x)` drops exactly one occurrence of x |
| Automaton.Without | py/tree_automata/automaton.py:665-666 | the key order without x holds every other key, without repetitions when the keys had none |
| Automaton.NotLeadingTo | py/tree_automata/automaton.py:668-674 | the kept transitions are exactly those without s among their children |
| Automaton.TreeAut.constructor | py/tree_automata/automaton.py:30-42 | stores roots, transitions and name; a port arity of 0 is replaced by the number of distinct port labels |
| Automaton.TreeAut.GetPortArity | py/tree_automata/automaton.py:298-307 | the number of distinct edge symbols that start with "Port" |
| Automaton.TreeAut.GetOutputStates | py/tree_automata/automaton.py:161-171 | exactly the states having some transition with no children |
| Automaton.TreeAut.IsTopDownDeterministic | py/tree_automata/automaton.py:322-334 | true iff no state has two transitions with the same symbol |
| Automaton.TreeAut.GetStates | py/tree_automata/automaton.py:128-142 | every root, key and child once each: the list's elements are exactly the automaton's states |
| Automaton.TreeAut.RenameState | py/tree_automata/automaton.py:637-659 | the first root a is removed and b appended; when a is a key its transitions move to key b and every a in a source or child becomes b; otherwise nothing else changes |
| Automaton.RenameRemovesName | py/tree_automata/automaton.py:637-659 | after renaming a key a to b != a, a is no key, source or child, and no root when it was a root at most once |
| Automaton.TreeAut.RemoveState | py/tree_automata/automaton.py:661-674 | the first root s, the key s and every transition leading to s are dropped, and nothing else |
| Automaton.RemoveStateRemoves | py/tree_automata/automaton.py:661-674 | after removing s, s is no key, no remaining transition leads to s, and every remaining transition was there before |
| Automaton.TreeAut.ShrinkTreeAut | py/tree_automata/automaton.py:772-797 | with D the states outside the kept set, the new state is exact: the roots lose the first occurrence of each state of D, the keys of D are dropped, and every remaining key keeps, in order, exactly its transitions with no child in D; hence every key and child lies in the kept set (and every root, when the roots had no repetition), and an automaton already inside the kept set is unchanged |
| Automaton.FirstsDroppedStep | py/tree_automata/automaton.py:662-663 | removing the first occurrence of one more state from the roots is the same as dropping it together with the others |
| Automaton.KeysWithoutStep | py/tree_automata/automaton.py:665-666 | deleting one more key is the same as deleting it with the others |
| Automaton.SparingStep | py/tree_automata/automaton.py:668-674 | removing the transitions leading to one more state is the same as removing those leading to any of them |
| Automaton.Outside | py/tree_automata/automaton.py:776-787 | the states to delete, each once: exactly the roots, keys and children outside the kept set; none when everything is kept |
| Automaton.FilterOut | py/tree_automata/automaton.py:776-789 | the names outside the kept set, each once |
| Automaton.AddNew | py/tree_automata/automaton.py:132-139 | adding names not yet present yields a list without repetitions holding both |
| Automaton.ChildStatesOfKeys | py/tree_automata/automaton.py:135-139 | the children listed over the edges of the keys are exactly the child states of those keys |
| Automaton.Unvisited | py/tree_automata/automaton.py:922-926 | the successors pushed are exactly the successors not yet visited |
| Automaton.IterateStatesBfs | py/tree_automata/automaton.py:929-945 | raises (None) exactly when some top-down reachable state has no transition entry; otherwise yields exactly the reachable states, each once, in breadth-first order: each is the first entry still waiting in the roots followed by the children of the states yielded before it, and nothing waits at the end |
| Automaton.IterateStatesDfs | py/tree_automata/automaton.py:909-926 | the same for the depth-first iterator, with the stack order: each state is the topmost entry still waiting in the reversed roots followed by the children of the states yielded before it, so the first root still comes first |
| Automaton.WorkVisit | py/tree_automata/automaton.py:917-926 | popping an unvisited state from the front (queue) or the back (stack) and pushing its unvisited children leaves waiting exactly the stream with those children appended, and the popped state was its first (queue) or last (stack) waiting entry |
| Automaton.ReachStep | py/tree_automata/functions/reachability.py:40-44 | adding children of a reached state to a set of only reachable states keeps it a set of only reachable states |
| Automaton.Reversed | py/tree_automata/automaton.py:915-916 | the reversed roots hold the same states, the first root last |
| Helpers.Prefixed | py/tree_automata/functions/helpers.py:21 | each tuple with p put in front, in order |
| Helpers.Containing | py/tree_automata/functions/helpers.py:22 | exactly the tuples that contain the state, in order |
| Helpers.GeneratePossibleChildren | py/tree_automata/functions/helpers.py:13-23 | every result has length size, contains the state and uses only parents |
| Helpers.ProductMember | py/tree_automata/functions/helpers.py:21 | `product(parents, repeat=size)` holds exactly the lists of length size over the parents |
| Helpers.GeneratePossibleChildrenMembers | py/tree_automata/functions/helpers.py:21-22 | a list is a result iff it has length size, contains the state and uses only parents |
| Helpers.ProductCount | py/tree_automata/functions/helpers.py:21 | the product has \|parents\|^size tuples |
| Helpers.ContainingProductCount | py/tree_automata/functions/helpers.py:21-22 | the tuples containing the state number n^size - (n-k)^size, with k copies of the state among n parents |
| Helpers.GeneratePossibleChildrenCount | py/tree_automata/functions/helpers.py:13-23 | the result has \|P\|^size - (\|P\|-k)^size entries, k the number of copies of the state in P |
| Helpers.GeneratePossibleChildrenDistinct | py/tree_automata/functions/helpers.py:21-22 | the result has no duplicates when the parents have none |
| Helpers.ProductDistinct | py/tree_automata/functions/helpers.py:21 | the product of distinct parents has no duplicate tuple |
| Helpers.SampleCountThreeOfThree | py/tests/tree_automata_tests/test_helpers.py:93 | the sample call with 3 parents and size 3 has 19 results |
| Helpers.SampleCountThreeOfTwo | py/tests/tree_automata_tests/test_helpers.py:94 | the sample call with 2 parents and size 3 has 7 results |
| Helpers.SampleCountTwoOfTwo | py/tests/tree_automata_tests/test_helpers.py:95 | the sample call with 2 parents and size 2 has 3 results |
| Helpers.SampleCountThreeOfFive | py/tests/tree_automata_tests/test_helpers.py:96 | the sample call with 5 parents and size 3 has 61 results |
| Helpers.SampleCountFourOfTwo | py/tests/tree_automata_tests/test_helpers.py:97 | the sample call with 2 parents and size 4 has 15 results |
| Reachability.NewIn | py/tree_automata/functions/reachability.py:41-44 | the children not yet in the result, each once, in order of first occurrence |
| Reachability.PushChildren | py/tree_automata/functions/reachability.py:40-44 | appends exactly the new children of the popped state to both the result and the work list |
| Automaton.ExactlyReachable | py/tree_automata/functions/reachability.py:27-45 | a list holding the roots, closed under children and holding only reachable states holds exactly the top-down reachable states |
| Reachability.ReachableTopDown | py/tree_automata/functions/reachability.py:27-45 | a state is in the result if and only if it is reachable from the roots, in zero or more steps when count_itself and in one or more steps otherwise; starts with the roots iff count_itself; has no duplicates; is closed under the children of its states' transitions |
| Reachability.TopDownExact | py/tree_automata/functions/reachability.py:27-45 | a closed list of reachable states holding the roots (or their children) holds exactly the states reachable in zero (or one) or more steps |
| Reachability.GetAllStateReachability | py/tree_automata/functions/reachability.py:11-24 | one entry per state; a state is in the entry of q if and only if it is reachable from q, in zero or more steps when reflexive and in one or more steps otherwise; each entry is closed under children; the roots are restored |
| Reachability.ExactlyGenerating | py/tree_automata/functions/reachability.py:78-112 | a list holding the output states, closed upward and holding only productive states holds exactly the states from which a finite tree can be generated |
| Reachability.Symbols | py/tree_automata/functions/reachability.py:92 | the arity dictionary's symbols, each once, covering every edge |
| Reachability.FireSymbol | py/tree_automata/functions/reachability.py:96-111 | for one symbol, adds the source of every transition whose children contain the popped state and are all in the result as it stood, and adds only productive sources |
| Reachability.FireTransitions | py/tree_automata/functions/reachability.py:96-111 | one pop adds the source of every productive transition having the popped state as a child and all children already in the result |
| Reachability.BottomUpFrom | py/tree_automata/functions/reachability.py:90-112 | the output states come first; the result has no duplicates, holds only productive states and is closed upward |
| Reachability.ListOfSet | py/tree_automata/functions/reachability.py:90 | a set listed in some order: each element once |
| Reachability.ReachableBottomUp | py/tree_automata/functions/reachability.py:78-112 | holds every output state, no duplicates, only states that generate a finite tree, and every source of a transition whose children all are in it |
| Trimming.Copy | py/tree_automata/functions/trimming.py:10 | `copy.deepcopy`: a fresh automaton with the same contents |
| Trimming.StatesWithin | py/tree_automata/functions/trimming.py:11-14 | removing roots, keys and transitions never adds a state |
| Trimming.RemoveUselessStates | py/tree_automata/functions/trimming.py:9-15 | works on a fresh copy; the result is exactly two shrinks: first the non-generating states are removed (first root occurrence, keys, and every transition leading to one), then, on that automaton, the states unreachable from its roots; so only generating states and transitions of the input remain, and a trim input is returned unchanged |
| Trimming.TrimmedParts | py/tree_automata/functions/trimming.py:9-15 | the two shrinks of the trimming leave only generating states and transitions of the input, and leave a trim automaton as it was |
| Trimming.ShrinkToTopDownReachableAsWritten | py/tree_automata/functions/trimming.py:18-25 | raises KeyError exactly when some unreachable state is no key; otherwise keeps the roots and exactly the reachable part of the dictionary |
| Trimming.ReachabilitySplit | py/tree_automata/functions/trimming.py:19-21 | a copy and exactly the states that are not top-down reachable, each once |
| Trimming.ShrinkToTopDownReachable | py/tree_automata/functions/trimming.py:18-25 | keeps the roots and exactly the top-down reachable part of the dictionary |
| Trimming.ReachablePartClosed | py/tree_automata/functions/trimming.py:18-25 | every key left is reachable, and every child of a kept transition is reachable |
| Trimming.ShrinkKeyError | py/tree_automata/functions/trimming.py:23-24 | an automaton whose unreachable state q2 is only a child: it is among the states, unreachable and no key, so `pop` raises |
| MatchTree.ChildTuples | py/tree_automata/functions/match_tree.py:11-16 | exactly the child tuples of the state's transitions labelled with the node's value |
| MatchTree.MatchStateRuns | py/tree_automata/functions/match_tree.py:10-30 | the corrected top-down search succeeds from q exactly when q has a run on the node: a transition with the node's label and as many children, each child state running on the matching subtree |
| MatchTree.TryTuplesRuns | py/tree_automata/functions/match_tree.py:18-30 | trying the tuples succeeds iff some tuple has the node's arity and every child state runs on its subtree |
| MatchTree.ChildrenMatchRuns | py/tree_automata/functions/match_tree.py:23-27 | the child loop succeeds iff every remaining child state runs on its subtree |
| MatchTree.AsWrittenSound | py/tree_automata/functions/match_tree.py:10-30 | whatever the search as written accepts, the corrected search accepts |
| MatchTree.TopDownBreakMisses | py/tree_automata/functions/match_tree.py:21-22 | a state with transitions a() and a(p) runs on the tree a(b), yet the search as written stops at the first tuple of the wrong length and rejects |
| MatchTree.MatchTreeTopDown | py/tree_automata/functions/match_tree.py:6-37 | corrected (see Findings): the tree is accepted exactly when some root state runs on it |
| MatchTree.LeafStates | py/tree_automata/functions/match_tree.py:50-59 | at a leaf, exactly the states with a transition of the leaf's label and no children, each once |
| MatchTree.TupleFits | py/tree_automata/functions/match_tree.py:68-72 | a transition fits iff it has the node's arity and each child state lies in the matching child's state list |
| MatchTree.TupleFitsAsWritten | py/tree_automata/functions/match_tree.py:68-72 | as written: raises IndexError exactly when the transition has more children than the node (and its first ones fit); true when every child state it has lies in the matching list |
| MatchTree.InnerStates | py/tree_automata/functions/match_tree.py:62-75 | exactly the states having a transition that fits the children's state lists |
| MatchTree.InnerStatesAsWritten | py/tree_automata/functions/match_tree.py:62-75 | as written: raises exactly when some transition of the label overreaches, otherwise collects the states with a loosely fitting transition |
| MatchTree.ListsFit | py/tree_automata/functions/match_tree.py:62-72 | with exact state lists for the children, the fitting test is the run relation at the node |
| MatchTree.ListsFitLoosely | py/tree_automata/functions/match_tree.py:62-72 | with the children's lists as computed as written, the loose test and the overreach test agree with their reference definitions |
| MatchTree.MatchBottomUp | py/tree_automata/functions/match_tree.py:48-75 | with the arity check added, the states computed for a node are exactly those that run on it |
| MatchTree.MatchBottomUpAsWritten | py/tree_automata/functions/match_tree.py:48-75 | as written: raises exactly when some transition on the way overreaches; otherwise computes exactly the states with a loose run (shorter transitions accepted), each once at a leaf |
| MatchTree.MatchTreeBottomUp | py/tree_automata/functions/match_tree.py:46-84 | corrected (see Findings): the tree is accepted exactly when some root state runs on it: the same answer as the top-down matcher |
| MatchTree.BottomUpAcceptsShort | py/tree_automata/functions/match_tree.py:69-74 | as written, the leaf transition a() lets q be computed for the tree a(b), on which q has no run, and nothing raises |
| MatchTree.BottomUpIndexError | py/tree_automata/functions/match_tree.py:69-70 | as written, the transition a(p, p) on the tree a(b) raises IndexError where the answer is no match |
| TreeNodes.MaxLevels | py/tree_automata/tree_node.py:100-103 | the maximum of the children's level counts: an upper bound reached by some child, 0 for none |
| TreeNodes.TreeNode.constructor | py/tree_automata/tree_node.py:24-28 | a new node is a parentless leaf at depth 0 holding the value |
| TreeNodes.TreeNode.UpdateDepth | py/tree_automata/tree_node.py:59-65 | the node gets the new depth and every descendant that depth plus its distance from the node |
| TreeNodes.TreeNode.ConnectChild | py/tree_automata/tree_node.py:77-83 | the node is appended as last child, its parent is set, and its subtree's depths count from the parent's depth + 1 |
| TreeNodes.TreeNode.RemoveChild | py/tree_automata/tree_node.py:85-93 | only the leftmost child with the value is removed; with no such child nothing changes |
| TreeNodes.TreeNode.RemoveAt | py/tree_automata/tree_node.py:92 | `children.pop(i)` drops exactly position i |
| TreeNodes.TreeNode.GetDepth | py/tree_automata/tree_node.py:95-104 | the largest depth + 1 over the subtree |
| TreeNodes.TreeNode.HeightOfNumbered | py/tree_automata/tree_node.py:95-104 | with depths numbered from d, `get_depth` is d plus the number of levels of the tree |
| TreeNodes.ToString | py/tree_automata/tree_node.py:202-216 | the string starts with the node's value; for word values it is non-empty and has no surrounding white space |
| TreeNodes.Tail | py/tree_automata/tree_node.py:207-215 | what follows the value is empty for a leaf and a bracketed list otherwise |
| TreeNodes.Separated | py/tree_automata/tree_node.py:211-214 | the children's strings with ';' between them |
| TreeNodes.Strip | py/tree_automata/tree_node.py:158 | `str.strip()`: no longer than the input, no white space at either end, and the input itself when already stripped |
| TreeNodes.LStrip | py/tree_automata/tree_node.py:160 | `str.lstrip(chars)` leaves a suffix of the input |
| TreeNodes.WordLength | py/tree_automata/tree_node.py:159 | the length of the longest prefix of word characters, which `^[\w]+` matches |
| TreeNodes.LStripWord | py/tree_automata/tree_node.py:159-160 | stripping the characters of a maximal word prefix strips exactly that prefix |
| TreeNodes.GetNode | py/tree_automata/tree_node.py:151-162 | the stripped string's leading word is the node's value and the rest follows; no leading word is the AttributeError of a failed match |
| TreeNodes.ReadStep | py/tree_automata/tree_node.py:164-195 | each recursive call of the builder consumes input |
| TreeNodes.BuildOpen | py/tree_automata/tree_node.py:177-180 | '[' followed by a word opens a child of the current node |
| TreeNodes.BuildNext | py/tree_automata/tree_node.py:183-186 | ';' followed by a word completes the current node and opens its next sibling |
| TreeNodes.BuildClose | py/tree_automata/tree_node.py:189-190 | ']' completes the current node and returns to its parent |
| TreeNodes.WordFirst | py/tree_automata/tree_node.py:193-195 | a leading word is read as a new root |
| TreeNodes.BuildTail | py/tree_automata/tree_node.py:164-195 | once a node is open, reading its string form's tail leaves it complete with all its children |
| TreeNodes.RootText | py/tree_automata/tree_node.py:202-216 | the string of a word tree is stripped, starts with no mark, and its leading word is the root's value |
| TreeNodes.StringRoundTrip | py/tree_automata/tree_node.py:140-216 | for trees whose values are words, `convert_string_to_tree(convert_tree_to_string(t))` gives t back |
| TreeNodes.ParseExample | py/tree_automata/tree_node.py:148 | `x[y;z]` is the tree x with the children y and z |
| TreeNodes.ExampleText | py/tree_automata/tree_node.py:148 | the tree x(y, z) prints as `x[y;z]` |
| TreeNodes.ParseBlank | py/tree_automata/tree_node.py:173-174 | blank text gives no tree (None) |
| TreeNodes.ParseOrphanChild | py/tree_automata/tree_node.py:177-179 | a child with no node before it is an error |
| TreeNodes.ParseRootSibling | py/tree_automata/tree_node.py:183-185 | a sibling of the root is an error: the root has no parent |
| TreeNodes.ParseMissingWord | py/tree_automata/tree_node.py:159 | a bracket must be followed by a node name |
| Determinization.ProductMembers | py/tree_automata/functions/determinization.py:57 | `product(*tuple)` holds exactly the picks of one element from each list |
| Determinization.Containing | py/tree_automata/functions/determinization.py:33 | exactly the rows containing the state, in order |
| Determinization.GenerateTuplesMembers | py/tree_automata/functions/determinization.py:31-33 | a tuple is generated iff it has length size, contains the state and is drawn from the states |
| Determinization.Insert | py/tree_automata/functions/determinization.py:66 | inserting into a sorted list keeps it sorted and adds exactly the element |
| Determinization.SortStrings | py/tree_automata/functions/determinization.py:66 | `list.sort()` returns a sorted permutation |
| Determinization.SortStringsDistinct | py/tree_automata/functions/determinization.py:66 | sorting keeps the elements, and a list without repetitions stays so |
| Determinization.CreateLookup | py/tree_automata/functions/determinization.py:14-25 | one entry per alphabet symbol, giving for each child tuple exactly the sources of its edges, each once; an edge whose symbol is outside the alphabet raises KeyError |
| Determinization.ParentsOfProduct | py/tree_automata/functions/determinization.py:57-65 | the parents gathered over the product are exactly the sources of some edge whose children pick one state from each macrostate |
| Determinization.ChildHandle | py/tree_automata/functions/determinization.py:56-67 | a sorted list without repetitions holding exactly those parents |
| Determinization.CollectOutputs | py/tree_automata/automaton.py:173-198 | for each key in order of first occurrence, the values of its leaf edges |
| Determinization.GetOutputEdges | py/tree_automata/automaton.py:173-200 | keyed by the symbol of a leaf edge (by its source when inverse), each key once, mapping to the sorted values of its leaf edges |
| Determinization.SortedOutputs | py/tree_automata/automaton.py:199 | sorting every list keeps the leaf-edge relation |
| Determinization.OutEdges | py/tree_automata/functions/determinization.py:37-48 | one leaf edge per output symbol (to its sources) and one per arity-0 symbol without output (to the empty macrostate); the macrostates listed are exactly those the leaf edges lead to, the empty one once |
| Determinization.HandleCorrect | py/tree_automata/functions/determinization.py:152 | the parents computed for a tuple are exactly the sources of the input edges that symbol and some pick of the tuple have |
| Determinization.ProcessTuples | py/tree_automata/functions/determinization.py:141-156 | every tuple of the symbol is recorded once, gives an edge with correct parents, and its parents join the work list unless already waiting |
| Determinization.Round | py/tree_automata/functions/determinization.py:135-156 | after one popped macrostate, every tuple of explored macrostates containing it is recorded for every symbol |
| Determinization.Explore | py/tree_automata/functions/determinization.py:131-156 | every edge found is correct and well-shaped, no (symbol, tuple) pair is processed twice, every explored macrostate is a leaf macrostate or reached by an edge; on completion every tuple of explored macrostates has its edge |
| Determinization.CreateRoots | py/tree_automata/functions/determinization.py:91-97 | exactly the names of the explored macrostates holding an original root, each once |
| Determinization.NamedAllMembers | py/tree_automata/functions/determinization.py:76-87 | the named transitions are exactly the macrostate edges with every macrostate replaced by its name |
| Determinization.CreateRelation | py/tree_automata/functions/determinization.py:73-88 | the sources in order of first appearance, each with its named edges once; a symbol outside the alphabet raises KeyError |
| Determinization.Construct | py/tree_automata/functions/determinization.py:122-156 | on completion, the edges are exactly the subset construction over the explored macrostates |
| Determinization.TreeAutDeterminization | py/tree_automata/functions/determinization.py:120-166 | raises KeyError iff some edge's symbol is outside the alphabet; otherwise builds a fresh automaton named `determinized(...)` whose edges are the subset construction and whose roots are exactly the macrostates holding an original root |
| Determinization.EdgeForUnique | py/tree_automata/functions/determinization.py:143-144 | with no pair repeated, the edge found for a pair is the one edge of that pair |
| Determinization.DeterminizedRun | py/tree_automata/functions/determinization.py:120-166 | on every tree over the alphabet the result reaches an explored macrostate holding exactly the states the input reaches, so it accepts the same trees |
| Isomorphism.PermutationsMembers | py/tree_automata/functions/isomorphism.py:22 | `itertools.permutations(list2)` yields exactly the lists holding the same elements as often as list2 |
| Isomorphism.PermutationsFromMembers | py/tree_automata/functions/isomorphism.py:22 | the permutations starting at position i or later are those headed by such an element, followed by a permutation of the rest |
| Isomorphism.ZipMapAt | py/tree_automata/functions/isomorphism.py:23 | the zipped dictionary has the elements of list1 as keys and maps the i-th to the i-th of the permutation |
| Isomorphism.MappingsAreBijections | py/tree_automata/functions/isomorphism.py:17-23 | every generated mapping of two duplicate-free lists of one length is a bijection between their elements |
| Isomorphism.BijectionsAreGenerated | py/tree_automata/functions/isomorphism.py:17-23 | every bijection between the elements of two duplicate-free lists of one length is generated |
| Isomorphism.ImageList | py/tree_automata/functions/isomorphism.py:23 | the images of list1 under a bijection list the elements of list2 once each |
| Isomorphism.RenameList | py/tree_automata/functions/isomorphism.py:59-61 | every label starting with "Port" becomes "Port" and every other label stays, position by position |
| Isomorphism.RenamePorts | py/tree_automata/functions/isomorphism.py:53-61 | every list of the dictionary renamed so; keys and other labels unchanged |
| Isomorphism.RenamedTwice | py/tree_automata/functions/isomorphism.py:36-38 | renaming again changes nothing, so the renaming repeated for every mapping is harmless |
| Isomorphism.Contained | py/tree_automata/functions/isomorphism.py:44-49 | one symbol loop succeeds iff every symbol of the first list is in the second |
| Isomorphism.CheckOutputEdges | py/tree_automata/functions/isomorphism.py:26-50 | the dictionaries are port-renamed when ports are ignored; the check holds iff every mapped pair either both lack output symbols or have the same set of them |
| Isomorphism.CheckEdgeCounts | py/tree_automata/functions/isomorphism.py:64-72 | true iff every mapped pair has equal edge counts; false only at a differing pair; KeyError only when a state or image has no entry |
| Isomorphism.CompareEdges | py/tree_automata/functions/isomorphism.py:75-90 | the comparison as written: KeyError for an unmapped source, false on a differing source image, label, box array or variable, and otherwise whether the children agree under the map |
| Isomorphism.CompareEdgesMeaning | py/tree_automata/functions/isomorphism.py:75-90 | when box arrays are as long as the children lists, the comparison never raises and holds exactly when e1 renamed by the map is e2 |
| Isomorphism.FirstMatchMeaning | py/tree_automata/functions/isomorphism.py:136-140 | the search finds the first candidate comparing true after candidates all comparing false, fails when all compare false, and raises only at a raising comparison before any success |
| Isomorphism.FindMatch | py/tree_automata/functions/isomorphism.py:135-140 | the loop over the candidates computes exactly that search |
| Isomorphism.GreedyPairs | py/tree_automata/functions/isomorphism.py:134-145 | a successful greedy matching pairs the edges of the first state one-to-one with edges of the second that they match |
| Isomorphism.GreedyRaises | py/tree_automata/functions/isomorphism.py:134-145 | the greedy matching raises only when some comparison of the two edge sets raises |
| Isomorphism.MatchState | py/tree_automata/functions/isomorphism.py:134-147 | the loop over the first state's edges computes the greedy matching, removing each paired candidate |
| Isomorphism.NonLeaf | py/tree_automata/functions/isomorphism.py:132-133 | the edge sets hold exactly the transitions with at least one child |
| Isomorphism.MatchStates | py/tree_automata/functions/isomorphism.py:129-147 | succeeds iff every state's greedy matching succeeds; stops at a state that fails or raises |
| Isomorphism.OutputLabels | py/tree_automata/functions/isomorphism.py:109-110 | the inverse output dictionary, renamed as the check renames it, has an entry for exactly the states with an output edge, listing exactly their output symbols |
| Isomorphism.TryMapping | py/tree_automata/functions/isomorphism.py:124-150 | for one mapping, the output, count and edge checks together hold exactly when the mapping is accepted (same output symbols, same edge counts, every edge set matched); a raise needs a state without entry or a raising comparison |
| Isomorphism.CheckCountsAndEdges | py/tree_automata/functions/isomorphism.py:127-147 | the count check and the edge matching hold exactly when counts agree and every edge set is matched |
| Isomorphism.SearchMappings | py/tree_automata/functions/isomorphism.py:124-151 | a non-empty result is an accepted bijection; the empty result with states present means no bijection is accepted |
| Isomorphism.TreeAutIsomorphic | py/tree_automata/functions/isomorphism.py:93-151 | {} when the state counts or the edge counts differ; a non-empty result is a bijection between the states under which every check holds; {} with equal counts means no bijection passes; a raise needs a missing entry or a raising comparison |
| Isomorphism.AcceptedEmbeds | py/tree_automata/functions/isomorphism.py:129-147 | under an accepted mapping the non-output edges of each state pair one-to-one with matching non-output edges of its image |
| StatePaths.Enumerated | py/tree_automata/automaton.py:488 | `enumerate` pairs each child with its position |
| StatePaths.IndexedChildrenAre | py/tree_automata/automaton.py:485-488 | the children named by the pairs are exactly the children of the transitions |
| StatePaths.Extend | py/tree_automata/automaton.py:490 | a child's path `f"{path}{i}"` is never empty |
| StatePaths.ExpandState | py/tree_automata/automaton.py:485-494 | over one dequeued state, a child not met yet gets the extended path `f"{path}{i}"` and is queued with the first path offered to it; a known child keeps its key and its path is replaced only by a smaller offered one: no recorded path grows, every changed path is one offered, and no offered path is smaller than the path kept |
| StatePaths.OffersNew | py/tree_automata/automaton.py:489-492 | a child not met yet gets the offered path and is queued with it, keeping the update rule |
| StatePaths.OffersKnown | py/tree_automata/automaton.py:493-494 | a known child takes the offered path only when it is smaller, keeping the update rule |
| StatePaths.SpellsExtend | py/tree_automata/automaton.py:488-490 | appending a child's position to a path that spells a walk to its parent spells a walk to the child |
| StatePaths.SpelledStep | py/tree_automata/automaton.py:484-494 | expanding a state whose path spells a walk keeps every recorded and queued path a spelled walk |
| StatePaths.PathsDone | py/tree_automata/automaton.py:483-494 | once the queue is empty, every recorded state is a key and the recorded states are closed under children |
| StatePaths.Items | py/tree_automata/automaton.py:495 | the dictionary's items in insertion order |
| StatePaths.SortByPath | py/tree_automata/automaton.py:495 | `sorted(..., key=path)` is a permutation sorted by path |
| StatePaths.SortedItems | py/tree_automata/automaton.py:495 | sorting the items keeps the states, their paths and the pairing, each state once |
| StatePaths.RootDict | py/tree_automata/automaton.py:482 | every root gets path "" |
| StatePaths.ShortestStatePaths | py/tree_automata/automaton.py:467-495 | pairs sorted by path, each state once; each path spells the child positions of a walk from a root to its state; the path is "" exactly for the roots; all roots appear; the states listed are keys, closed under children and states of the automaton; a dequeued state without entry raises KeyError |
| StringManipulation.NamePrefixLength | py/helpers/string_manipulation.py:20-23 | the counting loop gives the length of the part before the longest all-digit suffix |
| StringManipulation.PrefixSplit | py/helpers/string_manipulation.py:20-24 | what follows the counted prefix is all digits, and the prefix is empty or ends in a non-digit |
| StringManipulation.NamePrefixOf | py/helpers/string_manipulation.py:20-24 | a prefix not ending in a digit, followed by digits, is the name's prefix |
| StringManipulation.SortBy | py/helpers/string_manipulation.py:27 | a stable sort: a permutation sorted by the key |
| StringManipulation.LStripValues | py/helpers/string_manipulation.py:26 | one number per name when no `int` conversion fails |
| StringManipulation.StateNameSort | py/helpers/string_manipulation.py:10-31 | a permutation of the names; sorted by the number after the first name's prefix when every name has that form; otherwise (and for []) the list unchanged |
| StringManipulation.StateNameSortNumeric | py/helpers/string_manipulation.py:15 | "q2" comes before "q10" |
| StringManipulation.StateNameSortLosesName | py/helpers/string_manipulation.py:26-28 | as written, `lstrip("x1_")` reads "x1_12" as 2, so ["x1_2", "x1_12"] sorts to ["x1_2", "x1_2"] and a name is lost |
| StringManipulation.StateNameSortKeepsNames | py/helpers/string_manipulation.py:10-31 | the intended sort keeps both names, ordered by their numbers |
| StringManipulation.OrderListElement | py/helpers/string_manipulation.py:34-39 | the list has count entries and entry i is prefix + str(i + start) |
| StringManipulation.TranslateFromValues | py/helpers/string_manipulation.py:61 | names that each read as their number translate to exactly those numbers |
| StringManipulation.VarTranslateOfOrderList | py/helpers/string_manipulation.py:53-61 | translating a generated variable list maps each `prefix+n` back to n, when the prefix does not end in a digit |
| StringManipulation.NameSetStringNames | py/helpers/string_manipulation.py:64-69 | the name is "{" + the sorted names joined by "," + "}" and holds exactly the names given |
| StringManipulation.LastIndex | py/helpers/string_manipulation.py:103 | the last position of the character, as a greedy `.*` followed by it matches |
| StringManipulation.FirstLine | py/helpers/string_manipulation.py:103 | `.` does not match a line break: the match stays inside the first line |
| StringManipulation.FirstNameOfTupleName | py/helpers/string_manipulation.py:87-105 | the first name comes back out of `tuple_name((a, b))` when a has no line break and b no comma |
| StringManipulation.FirstNameOfTupleNameWithNewline | py/helpers/string_manipulation.py:103-104 | a line break in the first name hides the comma from the match, so the extraction fails |
| VarManipulation.Binary | py/tree_automata/var_manipulation.py:108-116 | the reference bit list: exactly size entries, each 0 or 1 |
| VarManipulation.DivModUnique | py/tree_automata/var_manipulation.py:112-113 | a quotient and remainder in range are the floor division and modulo the halving loop uses |
| VarManipulation.BinaryValue | py/tree_automata/var_manipulation.py:108-116 | the bits, read most significant first, spell num modulo 2^size |
| VarManipulation.BinaryOfSmall | py/tree_automata/var_manipulation.py:108-116 | for 0 <= num < 2^size the bits spell num itself |
| VarManipulation.AssignVariables | py/tree_automata/var_manipulation.py:108-116 | the halving loop with the final reverse yields the reference bit list, most significant bit first |
| VarManipulation.ReverseAppend | py/tree_automata/var_manipulation.py:115 | reversing a list with one more remainder puts that remainder in front |
| VarManipulation.AssignVariablesDict | py/tree_automata/var_manipulation.py:122-131 | the keys are exactly 1..size and key i holds bit i-1 of the reference list |
| VarManipulation.CreateVarOrderDict | py/tree_automata/var_manipulation.py:46-47 | count names, the i-th being prefix followed by the decimal i+start |
| VarManipulation.GetVarPrefix | py/tree_automata/var_manipulation.py:67-75 | "" for no names; otherwise a prefix of the first name whose cut-off rest is all digits and which does not itself end in a digit |
| PyText.StrLessTotal | py/tree_automata/automaton.py:495 | two different path strings are ordered one way or the other, so sorting by path is well defined |
| PyText.StrLessTransitive | py/tree_automata/automaton.py:495 | the string order used to sort paths is transitive |
| PyText.LStripSuffix | py/helpers/string_manipulation.py:26 | `lstrip(chars)` leaves a suffix of the string and removes only characters of the set |
| PyText.PyIntOfIntToString | py/helpers/string_manipulation.py:61 | `int` reads back the decimal text of every integer |
| PyText.JoinSplitOn | py/formats/format_tmb.py:69 | the pieces of a one-character split joined with that character give the string back |
| PyText.SplitJoin | py/formats/format_tmb.py:75 | whitespace-splitting words joined by single blanks gives the words back |
| FormatVtf.Dropping | py/formats/format_vtf.py:35 | the words other than the dropped one, in order, all taken from the input |
| FormatVtf.LoadRootsFromVtf | py/formats/format_vtf.py:34-35 | every result is a whitespace-free word other than the `%Root` marker |
| FormatVtf.RootsRoundTrip | py/formats/format_vtf.py:329-334 | loading the written roots line gives the roots back, for roots that are words other than the marker |
| FormatVtf.LoadStatesFromVtf | py/formats/format_vtf.py:38-40 | at most one state per word of the line |
| FormatVtf.StatesRoundTrip | py/formats/format_vtf.py:337-342 | loading the written `%States` line (each state with `:0`) gives the states back, for words without a colon |
| FormatVtf.BeforeColonOf | py/formats/format_vtf.py:40 | the part before the first colon of `q:n` is q |
| FormatVtf.LoadArityFromVtf | py/formats/format_vtf.py:43-54 | the loop over the words skips the `%Alphabet` header and records the symbol and integer of each `symbol:arity` word, later words overriding earlier ones; a malformed word gives no dictionary |
| FormatVtf.AritiesRoundTrip | py/formats/format_vtf.py:345-350 | loading the written alphabet line gives the dictionary of the written symbol and arity pairs |
| FormatVtf.EdgeInfoLength | py/formats/format_vtf.py:98-102 | the edge information is the longest run of leading words not starting with '(' |
| FormatVtf.BracketSpan | py/formats/format_vtf.py:62 | a found span starts with '[' and ends with ']' inside the string |
| FormatVtf.ProcessEdge | py/formats/format_vtf.py:57-89 | no words give no boxes and an empty variable; a `_` box name becomes a missing box, so no box is named `_` |
| FormatVtf.ProcessEdgeWords | py/formats/format_vtf.py:57-89 | processing the words the file writer emits for an edge gives its boxes (when one is present) and its variable |
| FormatVtf.LoadTransitionFromVtf | py/formats/format_vtf.py:92-116 | a blank line gives nothing; otherwise source and symbol are words, and an LH transition always has a box array |
| FormatVtf.TransitionRoundTrip | py/formats/format_vtf.py:289-326 | loading a line the file writer wrote gives the transition back, with an all-missing box array dropped |
| FormatVtf.BoxedRoundTrip | py/formats/format_vtf.py:289-326 | a transition with at least one present box is read back exactly |
| FormatVtf.StrLineIsBare | py/formats/format_vtf.py:353-366 | the string writer's line is the file writer's line for the transition without boxes and variable |
| FormatVtf.StrLineRoundTrip | py/formats/format_vtf.py:353-366 | a plain tree-automaton transition is read back exactly from the string writer's line |
| FormatVtf.KeyDeterminesEdge | py/formats/format_vtf.py:180-187 | two transitions get the same key if and only if they agree on source, symbol and children, for names without '-' and children without ',' |
| FormatVtf.GenerateKeyFromEdge | py/formats/format_vtf.py:180-187 | the key starts with the source and '-', then the symbol, and ends with ']' |
| FormatVtf.KeyParts | py/formats/format_vtf.py:180-187 | source, symbol and children can be read back from a key |
| FormatVtf.ConsistencyCheckVtf | py/formats/format_vtf.py:145-177 | true exactly when every key and every transition source and child is a declared state and every symbol is declared with the transition's number of children |
| FormatTmb.ReplaceCommasIn | py/formats/format_tmb.py:21-42 | the stack loop computes the reference replacement: the outermost parentheses are dropped, commas directly inside them become ';', and an unbalanced line raises (None) |
| FormatTmb.CommasBalanced | py/formats/format_tmb.py:27-41 | when the replacement succeeds, the line has as many ')' as '(' beyond the depth already open |
| FormatTmb.UnbalancedFails | py/formats/format_tmb.py:27-41 | a line with unequal numbers of '(' and ')' raises (a failed pop or "unbalanced parentheses") |
| FormatTmb.JoinCommas | py/formats/format_tmb.py:21-42 | the writer's `(c1,...,cn)` becomes `c1;...;cn` |
| FormatTmb.NestedKept | py/formats/format_tmb.py:29-35 | inner parentheses and their commas are kept: `(x(y,z),w)` becomes `x(y,z);w` |
| FormatTmb.LoadSymbol | py/formats/format_tmb.py:45-56 | with a '(' after a non-empty start: the text before the first '(' and the rest, which together give the line; otherwise the whole stripped line and "" |
| FormatTmb.NonEmpty | py/formats/format_tmb.py:70 | the non-empty pieces in order, and all of them when none is empty |
| FormatTmb.LoadTransitionFromTmb | py/formats/format_tmb.py:59-71 | a parsed transition has one missing box per child, an empty variable and non-empty children without ';'; a line without `->` or with unbalanced parentheses raises (None) |
| FormatTmb.TmbTransitionRoundTrip | py/formats/format_tmb.py:211-222 | loading a transition line as the writer writes it gives the transition back |
| FormatTmb.ChildrenBack | py/formats/format_tmb.py:69-70 | the non-empty ';'-separated pieces of the joined children are the children |
| FormatTmb.Rest | py/formats/format_tmb.py:78 | `words[1:]`: the list without its first word, empty for no words |
| FormatTmb.LoadArityFromTmb | py/formats/format_tmb.py:74-83 | the loop records the symbol and integer of every word after the first, later words overriding earlier ones; a malformed word gives no dictionary |
| FormatTmb.TmbAritiesRoundTrip | py/formats/format_tmb.py:184-188 | loading the written `Ops` line gives the dictionary of the written symbol and arity pairs |
| ApplyTables.OpLookup | py/apply/box_algebra/apply_tables.py:80-88 | the seven binary operations have a 4x4 table whose port-port cell is `OP`; NOP and NOT have none |
| ApplyTables.ComplementInvolution | py/apply/box_algebra/apply_tables.py:31-78 | complementing a table cell (0/1, P1/!P1, P2/!P2) twice gives it back |
| ApplyTables.Annihilators | py/apply/box_algebra/apply_tables.py:31-43 | a 0 operand of AND gives 0 in every column, a 1 operand of OR gives 1 |
| ApplyTables.NegatedTables | py/apply/box_algebra/apply_tables.py:31-78 | NAND, NOR and IFF are AND, OR and XOR with every cell complemented |
| ApplyTables.CommutativeTables | py/apply/box_algebra/apply_tables.py:31-78 | every table except IMPLY is symmetric in its two operands |
| ApplyTables.ImplyNotSymmetric | py/apply/box_algebra/apply_tables.py:59-64 | the IMPLY table is not symmetric |
| ShortCircuit.EarlyReturnLookup | py/apply/short_circuit_evaluation.py:29-58 | the dictionary has a decision exactly for a constant 0 or 1 on one side and a non-constant on the other, under one of the seven binary operations |
| ShortCircuit.MirroredDecisions | py/apply/short_circuit_evaluation.py:29-58 | for every operation but IMPLY, a constant first edge decides as the same constant second edge, with first and second swapped |
| ShortCircuit.DecisionsFollowTables | py/apply/short_circuit_evaluation.py:29-58 | each decision is the cell of the operation's table in the constant's row (or column) and the port column (or row) |
| ShortCircuit.DecisionsAreSound | py/apply/short_circuit_evaluation.py:29-58 | combining the constant with either terminal of the other edge gives what the decision prescribes (0, 1, the other edge or its negation) |
| ShortCircuit.ProduceTerminal | py/apply/short_circuit_evaluation.py:294-315 | on 0/1 leaves a terminal results exactly for the seven binary operations; NOP and NOT raise |
| ShortCircuit.ProduceTerminalFollowsTable | py/apply/short_circuit_evaluation.py:294-315 | on 0/1 leaves the terminal is the cell of the operation's table |
| ShortCircuit.GetShcLookup | py/apply/short_circuit_evaluation.py:61-68 | 0 exactly when every target is leaf 0 and the box is X, L0, H0, LPort or HPort; otherwise 1 exactly when every target is leaf 1 and the box is X, L1, H1, LPort or HPort; nothing else is returned |
| ShortCircuit.ConstantEdgeBox | py/apply/short_circuit_evaluation.py:61-68 | a constant edge with targets has its first target equal to the constant and a box not tied to the other terminal |
| ShortCircuit.ShortCircuitDecision | py/apply/short_circuit_evaluation.py:110-131 | a decision exists only when the source nodes agree (node_var_compare) and exactly one edge is constant; it returns a constant or the other edge, plain or negated |
| ShortCircuit.ShortEdgeCorrector | py/apply/short_circuit_evaluation.py:318-332 | the one kept target is the second for LPort and the first otherwise, and too few targets raise IndexError |
| Negation.NegateBoxLabel | py/apply/negation.py:15-24 | a negated label exists exactly for no box, X, L0, L1, H0, H1, LPort and HPort |
| Negation.NegateBoxLabelInvolution | py/apply/negation.py:15-24 | negating a label twice gives it back |
| Negation.NegateBoxLabelCases | py/apply/negation.py:15-24 | no box, X and the port boxes are fixed; L0/L1 swap and H0/H1 swap |
| Negation.NegationHelper.constructor | py/apply/abdd_apply_helper.py:42-53 | the negation cache starts with the two terminals swapped and the counter continues the unique table's |
| Negation.NegationHelper.NegateSubtree | py/apply/negation.py:27-60 | the result is recorded as the negation of the node (same variable, negated boxes, negated targets); a cached node returns its negation unchanged, otherwise the result is the unique table's node for its key; the counter advances exactly with the table, and the cache only grows |
| Negation.NegationHelper.MakeUnique | py/apply/negation.py:44-58 | an equal node already in the unique table is returned; otherwise the new node gets the counter as index, is inserted, and the counter advances by one |
| Negation.NegationHelper.NegateAll | py/apply/negation.py:39-40 | every target negated, in order, with the cache only growing |
| Negation.NegEntryGrows | py/apply/negation.py:59 | a recorded negation stays one when the cache grows |
| AbddNodeCache.AbddNode.Terminal | py/apply/abdd_node.py:158-165 | a terminal node has its index, variable 0, the leaf flag and value set, and no boxes or targets |
| AbddNodeCache.AbddNode.constructor | py/apply/negation.py:44-50 | a node made during apply has its index, variable, leaf flag, boxes and targets as given and no leaf value, and sits above its targets |
| AbddNodeCache.NodeCache.Keyed | py/apply/abdd_node_cache.py:48-55 | every node is stored under the key of its own variable, leaf value, boxes and targets |
| AbddNodeCache.NodeCache.constructor | py/apply/abdd_node_cache.py:36-46 | a new unique table holds exactly the terminals 0 and 1 under their keys, and the counter is 2 |
| AbddNodeCache.NodeCache.InsertNode | py/apply/abdd_node_cache.py:48-55 | the node is stored under its key, overriding an equal key; a new key goes to the end of the table's order |
| AbddNodeCache.NodeCache.FindNode | py/apply/abdd_node_cache.py:57-68 | a node is found exactly when its key is present, and it is the stored node with that key |
| AbddNodeCache.FindAfterInsert | py/apply/abdd_node_cache.py:48-68 | after inserting a node, finding any node with the same key gives it |
| AbddNodeCache.NodeCache.RefreshNodes | py/apply/abdd_node_cache.py:70-83 | the table is unchanged; inner nodes are renumbered 2, 3, ... in table order, leaves keep their numbers, and the counter is set past the last number |
| AbddNodeCache.NodeCache.DistinctNodes | py/apply/abdd_node_cache.py:48-55 | no node sits under two keys, so renumbering gives every inner node its own number |
| AbddNodeCache.Renumber | py/apply/abdd_node_cache.py:77-83 | the loop numbers the inner nodes of the list in order from 2 and returns the next number |
| PatternGenerate.OutNameInjective | py/apply/materialization/pattern_generate.py:83-85 | different target positions get different `out{i}` names |
| PatternGenerate.ViewOf | py/apply/materialization/pattern_generate.py:41-50 | a missing source node with a direction raises; without a source the edge is the roots, with input variable 0 and the root rule as box |
| PatternGenerate.ObtainPredicates | py/apply/materialization/pattern_generate.py:31-87 | the predicates built by the loops are the reference predicate set of the chosen edge and the materialization variable, and an edge that cannot be chosen raises |
| PatternGenerate.EmptyIffNoMaterialization | py/apply/materialization/pattern_generate.py:55-63 | the set is empty exactly when the box is None, mat <= in, or mat >= every target variable |
| PatternGenerate.PredicatesShape | py/apply/materialization/pattern_generate.py:75-85 | otherwise the set has exactly one "in" predicate (`1<` when in+1 == mat, `<<` otherwise) and at most one predicate per target and for the leaf |
| PatternGenerate.LeafOnlyForLeafBoxes | py/apply/materialization/pattern_generate.py:68-72 | a "leaf" predicate appears only for the boxes L0, L1, H0 and H1 |
| PatternGenerate.CheckPredicateAgainstValues | py/apply/materialization/pattern_generate.py:209-233 | a missing variable raises KeyError; otherwise true exactly when every `1<` predicate has v1+1 == v2 and every `<<` predicate has v1+1 < v2, so the empty set holds |
| PatternGenerate.ObtainedPredicatesHold | py/apply/materialization/pattern_generate.py:31-87 | the predicates obtained for an edge hold of the edge's own input, materialization, leaf and target variables |
| PatternGenerate.PortRowsMembers | py/apply/materialization/pattern_generate.py:133-147 | the product rows are exactly the sequences of one choice (`1<`, `<<` or none) per port |
| PatternGenerate.SelectionsMembers | py/apply/materialization/pattern_generate.py:140-147 | the product's selections are exactly the well-formed ones: one "in" relation, a leaf relation exactly for leaf boxes, one choice per port |
| PatternGenerate.CheckSingletonVar | py/apply/materialization/pattern_generate.py:165-182 | the selection's non-empty predicates are added exactly when some port passes the single-port test |
| PatternGenerate.CheckPairwiseVars | py/apply/materialization/pattern_generate.py:185-206 | the selection's non-empty predicates are added exactly when some pair of ports passes the pairwise test |
| PatternGenerate.SinglePortAccepted | py/apply/materialization/pattern_generate.py:174-182 | for one port, a selection is accepted exactly when it relates the port and, for a leaf box, no more strongly than the leaf |
| PatternGenerate.CreateAllPredicateSets | py/apply/materialization/pattern_generate.py:90-162 | the loop over the product yields exactly the reference set of accepted predicate sets of the box |
| PatternGenerate.OneInPredicate | py/apply/materialization/pattern_generate.py:116-182 | every generated set contains exactly one "in" predicate, `in 1< mat` or `in << mat` |
| PatternGenerate.NoPortsNoSets | py/apply/materialization/pattern_generate.py:157-160 | a box without ports yields no predicate set |
| BoxMaterialization.JustifiedStep | py/apply/materialization/box_materialization.py:65-94 | adding one bound that one of the three rules justifies keeps every bound a starting bound or a rule's consequence |
| BoxMaterialization.ChangedDrops | py/apply/materialization/box_materialization.py:65-94 | bounds only go from None to a value, so a pass that changes something leaves fewer bounds unset, which is why the loop ends |
| BoxMaterialization.UnloopableStep | py/apply/materialization/box_materialization.py:69-75 | a state without a looping transition and with one bound set gets the other bound equal to it; no change means no such state is left |
| BoxMaterialization.TerminatingStep | py/apply/materialization/box_materialization.py:78-83 | a looping state without a maximum gets one less than a terminable child's minimum; no change means no such state is left |
| BoxMaterialization.LoopingStep | py/apply/materialization/box_materialization.py:86-94 | the other children of a looping transition get their missing minimum as the source's minimum plus one; no change means none is left |
| BoxMaterialization.Sweep | py/apply/materialization/box_materialization.py:66-94 | one pass of the loop body keeps every bound justified, leaves fewer bounds unset when it changes something, and otherwise leaves a state where no rule applies |
| BoxMaterialization.ComputeVariableRanges | py/apply/materialization/box_materialization.py:39-105 | every state gets exactly one entry; roots keep the minimum invar+1, 0/1 output states the maximum leaf_level and port states their outvar; at the end no rule applies and every bound is justified |
| BddApply.CreateVarOrderForApply | py/bdd/bdd_apply.py:17-31 | the loop builds the reference dictionary: the sorted names, each numbered at its first occurrence |
| BddApply.OrderKeys | py/bdd/bdd_apply.py:25-28 | the dictionary keeps the names already numbered, with their numbers, and gains exactly the given names |
| BddApply.VarOrderNumbered | py/bdd/bdd_apply.py:17-31 | the distinct names get the consecutive indices 1, 2, ... with no gaps or repeats, in sorted first-seen order |
| BddApply.OrderFirstSeen | py/bdd/bdd_apply.py:25-28 | a name seen first gets a smaller index than every name seen first after it |
| BddApply.ParseOp | py/bdd/bdd_apply.py:212-219 | an operation exists exactly for "or", "and", "xor", "nor" and "nand"; any other name raises KeyError |
| BddApply.LeafApplyBoolean | py/bdd/bdd_apply.py:192-221 | on the values 0 and 1 the result's truth is the Boolean operation, and or, and and xor give 0 or 1 again |
| BddApply.DecideCase | py/bdd/bdd_apply.py:95-110 | both leaves give case a; the walk descends into the second node when the first is a leaf or has a later variable, into the first in the mirror case, and into both on equal variables |
| BddApply.LookupKeyInjective | py/bdd/bdd_apply.py:158 | `value,low,high` keys of comma-free parts are equal only for equal parts |
| BddApply.KeyHasComma | py/bdd/bdd_apply.py:122-158 | a lookup key always has a comma, so it never collides with a leaf's `t{v}` name |
| BddApply.CachedLeaf | py/bdd/bdd_apply.py:122-131 | a leaf found in the cache under `t{v}` is the leaf of value v, so leaves are shared per value |
| BddApply.CachedInner | py/bdd/bdd_apply.py:166-168 | a node found under a lookup key whose children differ is the inner node with that variable and those children |
| BddApply.ApplyHelper.constructor | py/bdd/bdd_apply.py:47-49 | a new helper has counted and cached nothing, and holds the variable order |
| BddApply.ApplyHelper.MakeLeaf | py/bdd/bdd_apply.py:122-131 | the leaf is the one cached as `t{v}`, or a new leaf cached under that name |
| BddApply.ApplyHelper.MakeNode | py/bdd/bdd_apply.py:158-176 | equal children give the child itself, recorded under the key; a known key gives the cached node; otherwise a fresh node `n{count}` is made, cached, and the count advances; the result denotes if-then-else on the variable |
| BddApply.ExpandBoth | py/bdd/bdd_apply.py:153-156 | Shannon expansion: a node over the results for both low and both high children computes the operation on the two nodes |
| BddApply.ExpandFirst | py/bdd/bdd_apply.py:147-150 | Shannon expansion on the first node's variable |
| BddApply.ExpandSecond | py/bdd/bdd_apply.py:141-144 | Shannon expansion on the second node's variable |
| BddApply.ApplyHelper.ApplyFrom | py/bdd/bdd_apply.py:112-176 | the returned node computes the operation on the two nodes' functions under every assignment, and every node made stays in the helper's closed set |
| BddApply.MadeReduced | py/bdd/bdd_apply.py:159-164 | no node the apply makes has identical low and high children, at any depth |
| BddApply.HelperOrderAsWritten | py/bdd/bdd_apply.py:55-59 | as written, a list given as the order fails (UnboundLocalError), while no order or a dictionary is used |
| BddApply.ListOrderFails | py/bdd/bdd_apply.py:55-59 | every list order fails as written, although the intended order would number its names |
| BddApply.HelperOrderNumbered | py/bdd/bdd_apply.py:55-59 | the intended order built from a list or from the diagrams' variables numbers them without gaps or repeats |
| BddApply.OrderFor | py/bdd/bdd_apply.py:55-59 | the helper's order is the intended one: the dictionary given, or the one built from the list or from the diagrams' variables |
| BddApply.OrderCovers | py/bdd/bdd_apply.py:55-59 | an order that fits the diagrams indexes all their variables and tells them apart |
| BddApply.ApplyFunction | py/bdd/bdd_apply.py:71-189 | corrected (see Findings): two absent roots give an empty diagram and one absent root gives the other; otherwise an unknown operation raises, and the result's root computes the operation on the two diagrams and is reduced |

## Left out

- BuDDy internals (`bdd_init`, `bdd_ithvar`, the node table, `bdd_nodecount`, printing): BDDs are Boolean formulas with an evaluation function, and node counts are a parameter `nodeCount` of the result picker.
- File and console I/O: `fopen` failures and `exit` are modelled as a status result; verbose printing, `print_*` helpers and the warning of `compute_variable_ranges` are dropped.
- C++ `unordered_map` iteration order (DFS roots, result picking) and Python `set` iteration order (unreachable states, edge sets in the isomorphism check, determinized roots) are not determined by the source; the model takes the order as a parameter or as the order of a sequence.
- The undefined behaviour of BLIF `get_token` on an empty token list is modelled as a failure.
- The DIMACS message about a clause-count mismatch is not modelled: once a token has been read the loop leaves through its inner return, so the check after the loop runs only for an empty token list, where both counts are still 0.
- A BLIF `.names` gate with no inputs (its single row reads the newline token as the output bit) is modelled as written; no corrected variant is given.
- Determinization.TreeAutDeterminization: the work-list loop runs at most `fuel` rounds and reports `OutOfFuel` beyond that; the source loops until the work list is empty.
- The inner dictionaries of transitions (keyed by `generate_key_from_edge`) are modelled as sequences of transitions per source state, so two transitions with the same key are not merged; KeyDeterminesEdge states when keys coincide.
- Dictionary keys produced with `str()` of a list (macrostate names, lookup keys) are modelled by the lists themselves or by explicit name functions.
- Determinization takes symbol arities as natural numbers; the source accepts any integer read from a file.
- String operations work on `seq<char>`: no Unicode normalisation, case folding or Unicode digits for `isnumeric`/`int`; white space is the ASCII white space.
- `convert_string_to_tree` is modelled by the shape of the tree it builds; the `parent` and `depth` fields of the parsed nodes are not modelled.
- Isomorphism.TreeAutIsomorphic: the greedy edge matching is modelled as written and proved sound (an accepted mapping embeds the edges); it is not proved to find every isomorphism.
- Isomorphism.RenamePorts: the source renames the lists in place; the model returns the renamed dictionary.
- `tree_aut_isomorphic` returns `{}` both for "not isomorphic" and for two automata without states; the model keeps this ambiguity.
- Negation.NegationHelper.constructor: `ABDDApplyHelper.__init__` reads the terminals of the cache it is given; the model always receives a cache, so the failure when none is given is not modelled.
- The box catalogue used by `create_all_predicate_sets` and `compute_variable_ranges` is loaded from files; the model takes the box's name, port strengths, roots, loopable and terminable transitions as parameters.
- Automaton.TreeAut.GetStates: lists the states through the corrected StateNameSort (see Findings), so every state appears once under its own name; the source's `lstrip` can repeat one state and lose another (`{"x1_2", "x1_12"}` gives `["x1_2", "x1_2"]`) or rename one (`{"q01", "q2"}` gives `["q1", "q2"]`), and that is not modelled here.
- StringManipulation.NameSetString: builds macrostate names with the corrected StateNameSort, so the name lists exactly the states of the set; the source's name can repeat or rename states as in the GetStates line, and the determinization built on it inherits the corrected names.
- StringManipulation.NameSetStringNames: states that the name reads back as the states of the set, which holds for the corrected sort only; for the source's sort the read-back list can repeat or rename names (see the Findings row on `lstrip`).
- BddApply.CreateVarOrderForApply: numbers the variables in the order of the corrected StateNameSort, so each variable gets its own index; the source's sort can repeat or rename apply variables (`["x1_2", "x1_12"]` numbers `x1_2` twice and never `x1_12`), and the order built from the no-order case of HelperOrder inherits the same correction.
- Dimacs.DimacsParser.Clausule: literals become variables without a bound check; in the source `bdd_ithvar` on a variable above the count declared by the `p` line, or a clause met before the `p` line, is a BuDDy runtime error, while the model's Eval gives every variable a value.
- Blif.BlifParser.CharacteristicRow: like Clausule, the literal variables of a row are not checked against the variables BuDDy was initialised with; an out-of-range `bdd_ithvar` error is not modelled. The same holds for Blif.BlifParser.OutputRow.
- BddApply.ApplyFunction: requires, through OrderFits, that a given order dictionary names every variable of both diagrams and gives them distinct indices; an incomplete dictionary raises KeyError in the source (py/bdd/bdd_apply.py:106) and a non-injective one merges variables, and neither outcome is modelled.
- Negation.NegationHelper.NegateSubtree: requires, through Negatable, that every box label below the node is a known label; an unknown label raises KeyError in the source's negation table, and that error path is not modelled.
- Negation.NegationHelper.NegateAll: requires, through Negatable, that every box label below every target is a known label; the source raises KeyError from its negation table on an unknown label partway through the targets, after the negations of the earlier targets have entered the caches; neither that error nor that partial cache state is modelled.
- The ABDD apply orchestration, canonization, box ordering, DOT rendering, file readers and the experiment drivers are not part of this model.

## Findings

| source | as written | input that shows it | evidently intended | confidence | as-written member | corrected member |
|---|---|---|---|---|---|---|
| cpp/dimacs_parser.cpp:172-175 | the clause term starts as `bddfalse` in DNF mode too and literals are ANDed into it, so every DNF term is false | `p dnf 1 1` then `1 0`: the term is false for x0 = true | a DNF term starts as `bddtrue` and is the conjunction of its literals | not executed | Dimacs.DnfTermAsWrittenCounterexample | Dimacs.ClauseTermMeaning |
| py/helpers/string_manipulation.py:26 | `i.lstrip(prefix)` removes any leading characters of the prefix's character set, not the prefix | `["x1_2", "x1_12"]` sorts to `["x1_2", "x1_2"]` | strip the prefix itself, so the names are kept and ordered by their numbers | not executed | StringManipulation.StateNameSortLosesName | StringManipulation.StateNameSortKeepsNames |
| py/tree_automata/functions/trimming.py:22-23 | every unreachable state of `get_states` is popped from the transition dictionary, and `pop` raises KeyError for a state that is only a child | root `q0` without transitions and `q1 -> a(q2)`: `q2` is unreachable and no key | remove only the unreachable states that are keys, leaving the reachable part | not executed | Trimming.ShrinkKeyError | Trimming.ShrinkToTopDownReachable |
| py/tree_automata/functions/match_tree.py:21-22 | `break` on a transition whose arity differs from the node's stops trying the remaining transitions | a state with transitions `a()` and `a(p)` and the tree `a(b)` where `p -> b()` | skip that transition (`continue`) and try the rest | not executed | MatchTree.TopDownBreakMisses | MatchTree.MatchStateRuns |
| py/tree_automata/functions/match_tree.py:69-74 | no arity check: a transition with fewer children than the node is accepted, one with more raises IndexError | the leaf transition `a()` is accepted at the node `a(b)`; `a(p, p)` at a node with one child raises | a transition fits only when its arity equals the node's number of children | not executed | MatchTree.BottomUpAcceptsShort | MatchTree.MatchBottomUp |
| py/bdd/bdd_apply.py:55-59 | with a list as `vars`, `_temp2` is read before it is assigned (UnboundLocalError) | `apply_function("and", b1, b2, ["x1", "x2"])` with both roots present | build the order from the given list | not executed | BddApply.ListOrderFails | BddApply.OrderFor |
