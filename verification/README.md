# A verified model of a Thompson/subset-construction regex engine

This project models the core of a small regular-expression engine written in
Rust. The engine turns a pattern into a postfix sequence of Thompson operators
(`transform.rs`). It builds an NFA from that sequence with a fragment stack
(`nfa.rs`, `automaton.rs`). It determinises the NFA by the subset construction
(`dfa.rs`). It matches a whole input against the DFA one character at a time
(`DFA::match_input`). Edge labels are a character, a character class or epsilon
(`symbols.rs`). Nodes are transition, split and accept states (`state.rs`).

How the model is built:

- Rust's shared, mutable `Rc<RefCell<State>>` nodes become an arena
  `Graph(nodes: map<nat, Node>, next: nat)`. An edge holds the id of its
  target, and rewriting a node in place is an overwrite of its slot. The
  global `AtomicUsize` counter is the arena's `next` field.
- A node is `Accept` or a `Transition` with an ordered list of labelled
  edges. A one-edge list is the source's transition. A two-epsilon-edge list
  is its split. The edge list is what `adjacent` and `insert_transition_ord`
  work on.
- Every fallible computation returns an `Outcome`. `Ok(v)` is a value.
  `Err(msg)` is the parser's recoverable error message. `Panic(site)` is a
  Rust panic, with the site named: `unwrap` on an empty stack, a bad slice, an
  unexpected operator, the final stack-height check, or the matcher's
  `expect`.
- Reference definitions stand beside the code's algorithms:
  - `EpsClosure` is the set of nodes without epsilon edges that epsilon paths
    reach.
  - `StepSet` and `After` are the NFA-id sets that one character or one word
    leads to.
  - `Regex`, `Postfix` and `Build` are the tree that a postfix sequence
    denotes and Thompson's construction of that tree.
  - `SubsetDfa` states what a subset-construction DFA is.
- The code's algorithms are proved to agree with these definitions:
  - `follow_epsilon`, `dfs` and `delta_states`;
  - the NFA builder's loop;
  - the DFA worklist;
  - the matcher.

The main results:

- The parser's output is always parenthesis-free. For a non-empty pattern not
  ending in `|` it is a complete postfix expression.
- `ConstructNfa` succeeds exactly when the postfix sequence is complete. It
  then builds Thompson's construction of the unique tree that the sequence
  denotes.
- `ConstructDfa` builds a DFA whose nodes are the subsets reachable from the
  start closure. Each node has exactly one edge per character whose successor
  set is non-empty. Nodes whose set holds the NFA's end get one epsilon edge to
  a shared end.
- Walking that DFA over a word tracks the NFA-id set that the word leads to.
  `match_input` accepts when that set holds the NFA's end, or when the set has
  no successor at all. The second disjunct is the defect listed under
  Findings.
- The repository's end-to-end tests `regex_concat`, `regex_or1` and
  `regex_asterisk1` are proved: `EndToEnd.RegexConcat`, `EndToEnd.RegexOr1`
  and `EndToEnd.RegexAsterisk1` compile each test's pattern and show that both
  acceptance tests accept each of its inputs.
- A printer `Printer.Print` writes a tree with exactly the parentheses the
  parser's precedence needs. The parser reads every printed tree back as that
  tree's postfix form, so every complete parse is the parse of a printed tree.
- Soundness for the whole pipeline: `Language.InLanguage` is the language of a
  tree. For every tree without the any-character class, and every word of its
  language, compiling the printed tree and matching the word accepts under both
  acceptance tests. In particular every non-empty pattern of plain characters
  matches itself.

Where the code departs from what a caller of a regex compiler would expect,
the model follows the code:

- The empty pattern parses to an empty operator list. The NFA builder then
  panics at its stack-height check, rather than the parser reporting a
  malformed pattern.
- A trailing `|` parses to a sequence whose `Or` misses its right operand. The
  builder then panics on `pop().unwrap()`.
- An operator where an operand is due panics in the parser (`transform.rs:129`).
- An unmatched `(` panics on a slice of the empty remainder.
- Input after an unmatched `)` is silently dropped.
- `.` builds a `CharClass(All)` edge. `delta` compares labels by equality, and
  `get_alphabet` skips classes, so no DFA edge ever reads a class. A wildcard
  therefore never matches a character.

## Model

| member | source | states |
|---|---|---|
| Symbols.AlphabetContainsIff | src/regex/automaton/state/symbols.rs:27-34 | a character label contains another character label exactly when the characters are equal |
| Symbols.AllContainsEveryChar | src/regex/automaton/state/symbols.rs:27-55 | the `All` class contains every character, and every character "contains" `All` as well |
| Symbols.ContainsNothingElse | src/regex/automaton/state/symbols.rs:33-43 | a class contains no class and no epsilon; a character never contains epsilon; epsilon contains only epsilon |
| Symbols.ContainsCharacterisation | src/regex/automaton/state/symbols.rs:27-55 | the containment relation holds for exactly three kinds of pair: equal non-class labels, a class over a character, and a character over a class |
| Symbols.OrderLayout | src/regex/automaton/state/symbols.rs:2-9 | the derived order puts characters before classes before epsilon, and orders characters by code point |
| Symbols.LessIsStrictTotalOrder | src/regex/automaton/state/symbols.rs:2-14 | the derived order is irreflexive, asymmetric, transitive and total |
| State.TargetsIff | src/regex/automaton/state.rs:100-120 | an id is a filtered target exactly when some edge that passes the filter leads to it |
| State.SmallSeparated | src/regex/automaton/state.rs:15-19 | the accept, one-edge and split nodes never mix epsilon and non-epsilon edges |
| State.Alloc | src/regex/automaton/state.rs:25-28 | a fresh id is above every id in use, so it is unused, and the arena stays closed when the new node points into it |
| State.NewTransition | src/regex/automaton/state.rs:38-40 | a fresh one-edge node under the next id, with the arena kept closed and separated |
| State.NewSplit | src/regex/automaton/state.rs:42-44 | a fresh node with two epsilon edges under the next id, with the arena kept closed and separated |
| State.NewAccept | src/regex/automaton/state.rs:46-48 | a fresh accepting node under the next id, with the arena kept closed and separated |
| State.Rewrite | src/regex/automaton.rs:60 | an in-place overwrite changes only its slot and keeps the arena closed when the new node points into it |
| State.RetargetAll | src/regex/automaton/state.rs:64-70 | every edge keeps its label and now leads to the given node |
| State.Connect | src/regex/automaton/state.rs:62-75 | a transition keeps its labels with every target replaced; an accepting node becomes one epsilon edge to the target |
| State.ConnectAt | src/regex/automaton.rs:24 | connecting the node in a slot changes only that slot and keeps the arena closed and separated |
| State.DeltaOfTransition | src/regex/automaton/state.rs:102-109 | a one-edge node yields its target for its own label and nothing for any other |
| State.DeltaOfSplit | src/regex/automaton/state.rs:110-117 | a split yields both targets, in order, for epsilon only |
| State.DeltaOfAccept | src/regex/automaton/state.rs:118 | an accepting node has no targets |
| State.TargetsOfSmall | src/regex/automaton/state.rs:81-94 | the children `dfs` follows are the target of a one-edge node and the two targets of a two-edge node, in edge order |
| State.InsertOrd | src/regex/automaton/dfa.rs:85 | ordered insertion adds exactly one edge, keeps all others, adds one to the count of its label, and keeps the list sorted |
| State.InsertTransitionOrd | src/regex/automaton/dfa.rs:48 | inserting into a node gives a transition node with exactly one more edge of that label, and an accepting node becomes that one edge |
| State.SeparatedDelta | src/regex/automaton/state.rs:110-117 | a node with an epsilon target has no character target |
| State.ConnectSeparated | src/regex/automaton/state.rs:62-75 | `connect` keeps a node separated |
| State.NodeEqIsEquivalence | src/regex/automaton/state.rs:148-160 | node equality is an equivalence and cannot tell where edges lead, so a connected node equals the original |
| State.Dfs | src/regex/automaton/state.rs:77-98 | returns the newly visited ids, each once, with the root first unless it was visited already; every new id is reachable from the root, and every target of a new id ends up visited |
| State.DfsAll | src/regex/automaton/state.rs:87-94 | `dfs` from each child in turn visits every child and only what the children reach |
| State.Flatten | src/regex/automaton.rs:84-90 | the flattened graph lists each id reachable from the start exactly once, with the start first |
| State.FollowEpsilon | src/regex/automaton/state.rs:122-144 | the result has no duplicates and holds exactly the epsilon closure; a start without epsilon edges is its own result |
| State.PushTargets | src/regex/automaton/state.rs:134-139 | every target not yet visited is queued once and marked visited; nothing else is queued |
| State.BfsDone | src/regex/automaton/state.rs:127-143 | when the queue runs empty, the result is the epsilon closure |
| Automata.AutomatonTransition | src/regex/automaton.rs:32-39 | two fresh nodes: a start with one edge of the given label to a fresh accepting end, with the old nodes kept |
| Automata.ConcatAutomaton | src/regex/automaton.rs:23-30 | the first fragment's end is connected to the second's start; the result runs from the first start to the second end, and only that end node changes |
| Automata.AlternateNodes | src/regex/automaton.rs:46-47 | a fresh split to both starts, then a fresh accepting end |
| Automata.AutomatonAlternate | src/regex/automaton.rs:45-55 | a fresh split start leads to both starts, both ends are connected to one fresh accepting end, and only those two ends change |
| Automata.ZeroOrOneNodes | src/regex/automaton.rs:58-59 | a fresh accepting end, then a fresh split to the old start and that end |
| Automata.AutomatonZeroOrOne | src/regex/automaton.rs:57-65 | the old end is overwritten by the same split as the fresh start: back to the old start or out to the fresh end |
| Automata.ZeroOrOneLoops | src/regex/automaton.rs:57-65 | the star can loop from the old end back to the old start, and both the old end and the new start reach the new end by epsilon |
| Automata.CharsOf | src/regex/automaton.rs:70-79 | exactly the characters on `Alphabet` edges of the listed nodes |
| Automata.GetAlphabet | src/regex/automaton.rs:67-80 | exactly the characters on `Alphabet` edges of nodes reachable from the start; class and epsilon edges contribute nothing |
| Automata.FlattenMachine | src/regex/automaton.rs:84-90 | the flattened node list starts with the start node and holds exactly the nodes reachable from it |
| Automata.AutomatonEqIsEquivalence | src/regex/automaton.rs:92-98 | automaton equality is reflexive, symmetric and transitive |
| Transform.ToThompsonPostfix | src/regex/transform.rs:34-36 | a successful parse has no parentheses; it is empty exactly for the empty pattern, and otherwise complete or, only after a trailing bar, missing one right operand |
| Transform.PostfixConcat | src/regex/transform.rs:38-56 | consumes a non-empty prefix of a non-empty input and stops at the end or at `)`; the operators it produces are parenthesis-free and shaped |
| Transform.ConcatRest | src/regex/transform.rs:41-53 | the loop stops at the end or a `)`, leaving its operators unchanged there; appending complete units keeps a complete expression complete |
| Transform.PostfixOr | src/regex/transform.rs:58-71 | consumes a non-empty prefix and never stops at a bar; its output is complete, or dangling only when the whole input ended in a bar |
| Transform.PostfixAsterisk | src/regex/transform.rs:73-84 | consumes a non-empty prefix of a non-empty input and produces one complete expression |
| Transform.PostfixPrimary | src/regex/transform.rs:86-103 | a group or a character class: one complete expression from a non-empty input |
| Transform.PostfixCharClass | src/regex/transform.rs:108-136 | one `Primary` or `All` operator; fails with an error exactly on a lone backslash and panics exactly on an operator character |
| Transform.DepthAppend | src/regex/automaton/nfa.rs:23-47 | the stack height after two sequences is the height after the second, run from where the first left off |
| Transform.DepthShift | src/regex/automaton/nfa.rs:23-47 | a sequence that runs from some height runs the same way from a greater one |
| Transform.DepthAppendWellFormed | src/regex/automaton/nfa.rs:32-41 | a binary operator after two complete operands is complete, and after a dangling or missing right operand it is dangling |
| Transform.OrShape | src/regex/transform.rs:61-67 | an alternation has the shape of its two sides and stays parenthesis-free |
| Transform.DepthStarWellFormed | src/regex/automaton/nfa.rs:28-31 | `*` after a complete expression is complete |
| Transform.NoParensJoin | src/regex/transform.rs:47-49 | joining parenthesis-free sequences with an operator stays parenthesis-free |
| ParserCases.ChainRest | src/regex/transform.rs:41-53 | over plain characters, the loop appends one `Primary, Concat` pair per character |
| ParserCases.LiteralChain | src/regex/transform.rs:143-155 | a run of plain characters is its first character followed by `Primary(c), Concat` for each later one |
| ParserCases.ClassCases | src/regex/transform.rs:112-127 | `.` is `All`, a backslash makes any following character literal, and a plain character is itself |
| ParserCases.TrailingBackslashFails | src/regex/transform.rs:115-116 | a pattern ending in a lone backslash is the error "escapted nothing" |
| ParserCases.UnmatchedOpenPanics | src/regex/transform.rs:92-94 | an unclosed group panics on the slice past its missing `)` |
| ParserCases.OperatorAsOperandPanics | src/regex/transform.rs:128-130 | a pattern starting with `*`, a bar or `)` panics in the character-class parser |
| ParserCases.UnmatchedCloseDropsRest | src/regex/transform.rs:41-45 | everything after an unmatched `)` is ignored |
| ParserCases.OrBindsTighterLeft | src/regex/transform.rs:158-173 | `ab`, bar, `c` is `a` concatenated with the alternation of `b` and `c` |
| ParserCases.OrBindsTighterRight | src/regex/transform.rs:175-190 | `a`, bar, `bc` is the alternation of `a` and `b` concatenated with `c` |
| ParserCases.OrIsRightAssociative | src/regex/transform.rs:58-71 | `a`, bar, `b`, bar, `c` groups to the right |
| ParserCases.StarBindsTighterThanOr | src/regex/transform.rs:192-208 | in `ab*`, bar, `c` the star applies to `b` alone |
| ParserCases.StarOnRightOperand | src/regex/transform.rs:210-226 | in `a`, bar, `b*c` the star applies to `b` and the alternation to `a` and `b*` |
| ParserCases.GroupAsOperand | src/regex/transform.rs:228-244 | a group is a single operand of the bar |
| ParserCases.StarredGroup | src/regex/transform.rs:246-262 | a star after a group applies to the whole group |
| ParserCases.GroupsInsideChain | src/regex/transform.rs:264-287 | the postfix form of `12(ab)*`, bar, `c#*` |
| ParserCases.TwoStarredGroups | src/regex/transform.rs:289-312 | the postfix form of `12(ab)*`, bar, `(c#)*` |
| ParserCases.StarredAnyChar | src/regex/transform.rs:314-332 | `.*abc` stars the any-character class |
| ParserCases.StarredEscapedDot | src/regex/transform.rs:333-351 | `\.*abc` stars the literal `.` |
| ParserCases.StarredEscapedBackslash | src/regex/transform.rs:352-370 | `\\*abc` stars the literal backslash |
| ParserCases.StarredGroupWithAnyChar | src/regex/transform.rs:371-387 | `(a.)*`, bar, `b` stars the group of `a` and any character |
| Nfa.Push | src/regex/automaton/nfa.rs:25-27 | pushes one fragment whose start has one edge of the given label, and keeps the rest of the stack |
| Nfa.StarTop | src/regex/automaton/nfa.rs:28-31 | replaces only the top fragment and keeps the stack invariant |
| Nfa.Combine | src/regex/automaton/nfa.rs:32-41 | pops two fragments and pushes one; a concatenation runs from the left start to the right end |
| Nfa.DepthSingle | src/regex/automaton/nfa.rs:24-46 | operands push one fragment, `*` needs one, binary operators need two and leave one fewer, and a parenthesis fails |
| Nfa.StepOp | src/regex/automaton/nfa.rs:24-46 | one operator succeeds exactly when its stack effect is defined; otherwise it panics, as unhandled for a parenthesis and as an empty pop otherwise |
| Nfa.Run | src/regex/automaton/nfa.rs:23-47 | the loop succeeds exactly when the predicted stack height is defined, and then leaves that height; a parenthesis-free sequence can only fail by an empty pop |
| Nfa.ConstructNfa | src/regex/automaton/nfa.rs:18-54 | a parse error is passed through unchanged; success is exactly a complete postfix sequence; the result is a closed fragment whose end accepts |
| Nfa.DepthFloor | src/regex/automaton/nfa.rs:23-47 | from a non-empty stack, the height never drops to zero |
| Nfa.DanglingFails | src/regex/automaton/nfa.rs:32-36 | a sequence that lacks one operand cannot run from an empty stack |
| Nfa.EmptyPatternPanics | src/regex/automaton/nfa.rs:49-51 | the empty pattern panics at the final stack-height check |
| Nfa.PatternOutcome | src/regex/automaton/nfa.rs:18-54 | a non-empty pattern that parses builds an automaton, or panics on an empty pop, and the panic happens only when the pattern ends in a bar |
| Nfa.TrailingBarPanics | src/regex/automaton/nfa.rs:32-35 | `a` followed by a bar panics when `Or` pops its missing left operand |
| Nfa.Build | src/regex/automaton/nfa.rs:23-47 | Thompson's construction of a tree adds a closed, separated fragment on fresh ids and keeps every old node |
| Nfa.CatFragment | src/regex/automaton.rs:41-43 | the concatenation fragment is built on fresh ids over the old arena |
| Nfa.AltFragment | src/regex/automaton.rs:45-55 | the alternation fragment is built on fresh ids over the old arena |
| Nfa.StarFragment | src/regex/automaton.rs:57-65 | the star fragment is built on fresh ids over the old arena |
| Nfa.PushTree | src/regex/automaton/nfa.rs:23-47 | pushing a tree's fragment grows the stack by one and keeps the invariant |
| Nfa.RunPostfix | src/regex/automaton/nfa.rs:23-47 | running a tree's postfix form, then more operators, is pushing the tree's fragment, then running the rest |
| Nfa.CombineTrees | src/regex/automaton/nfa.rs:32-41 | combining the fragments of two pushed trees gives the fragment of their alternation or concatenation |
| Nfa.CombinePair | src/regex/automaton/nfa.rs:32-41 | a binary operator pops the right operand, then the left, and pushes their combination |
| Nfa.BuildAlt | src/regex/automaton.rs:45-55 | an alternation is built as the left operand, then the right, then the split |
| Nfa.BuildCat | src/regex/automaton.rs:23-30 | a concatenation is built as the left operand, then the right, then the link |
| Nfa.BuildStar | src/regex/automaton.rs:57-65 | a starred tree is built as its operand, then the zero-or-more wrapping |
| Nfa.TreeStep | src/regex/automaton/nfa.rs:24-46 | the tree stack machine fails exactly when the fragment stack machine does, and its trees spell out the operators read |
| Nfa.Trees | src/regex/automaton/nfa.rs:23-47 | over a whole sequence, the trees' postfix forms are exactly the operators read, at the predicted height |
| Nfa.TreeOf | src/regex/automaton/nfa.rs:18-54 | every complete postfix sequence is the postfix form of the tree it denotes |
| Nfa.PostfixRoundTrip | src/regex/automaton/nfa.rs:18-54 | a tree's postfix form is complete and denotes that tree again |
| Nfa.ConstructFromTree | src/regex/automaton/nfa.rs:18-54 | a pattern whose postfix form is a tree's builds that tree's fragment in a fresh arena |
| Nfa.ConstructIsThompson | src/regex/automaton/nfa.rs:18-54 | every automaton the builder returns is Thompson's construction of the tree its postfix sequence denotes |
| Nfa.BuildConcat | src/regex/automaton/nfa.rs:65-79 | `abc` builds `a`, `b` and `c` linked in order |
| Nfa.BuildOr | src/regex/automaton/nfa.rs:81-95 | `ab`, bar, `c` builds `a` linked to the alternation of `b` and `c` |
| Nfa.BuildAsterisk | src/regex/automaton/nfa.rs:97-112 | `ab*`, bar, `c` builds `a` linked to the alternation of `b*` and `c` |
| Nfa.BuildParen | src/regex/automaton/nfa.rs:114-129 | `(ab)*`, bar, `c` builds the alternation of the starred `ab` and `c` |
| Nfa.BuildCharClass | src/regex/automaton/nfa.rs:131-146 | `(a.)*`, bar, `c` builds the alternation of the starred `a` and any-character pair, and `c` |
| Subsets.AfterSnoc | src/regex/automaton/dfa.rs:61-68 | reading one more character after a word takes one more successor step |
| Subsets.PowerSet | src/regex/automaton/dfa.rs:39-45 | the sets of NFA ids form a finite space: exactly the subsets of the arena's ids |
| Subsets.StableClosure | src/regex/automaton/state.rs:129-131 | a node without epsilon edges is its own closure |
| Subsets.ClosureOfSnoc | src/regex/automaton/dfa.rs:94-105 | the closures of a list grow by one closure per appended id |
| Subsets.StepSetAdd | src/regex/automaton/dfa.rs:94-105 | the successor set of a set grown by one member grows by that member's closed targets |
| Subsets.AfterEmpty | src/regex/automaton/dfa.rs:61-68 | no word leads anywhere from the empty set |
| Subsets.ClosureReachable | src/regex/automaton/state.rs:122-144 | the closure lies in the arena, has no epsilon edges, and is reachable |
| Subsets.StepSetReachable | src/regex/automaton/dfa.rs:39-45 | successor sets of reachable sets are reachable and lie in the arena |
| Subsets.StepSetWitness | src/regex/automaton.rs:67-80 | a character with a non-empty successor set labels an edge of some member |
| Subsets.ClosureUnfold | src/regex/automaton/state.rs:127-140 | the closure of a node with epsilon edges is the union of its epsilon targets' closures |
| Dfa.NewClosures | src/regex/automaton/dfa.rs:95-104 | one member's share of `delta_states`: the closures of its targets, less what was already seen |
| Dfa.DeltaStates | src/regex/automaton/dfa.rs:92-108 | exactly the successor set of the NFA-id set on the character |
| Dfa.InsertTargets | src/regex/automaton/dfa.rs:85 | an ordered insertion adds no target except the new one |
| Dfa.CharEdgesInsert | src/regex/automaton/dfa.rs:78-86 | adding the edge of a new character keeps exactly one edge per character with a non-empty successor set, to that set's node |
| Dfa.CharEdgesExtend | src/regex/automaton/dfa.rs:79-83 | a node's edges stay correct when the memo grows |
| Dfa.NodeOf | src/regex/automaton/dfa.rs:79-83 | looks up the successor set; on first sight allocates a fresh `Accept` node and lists it once in the returned pairs |
| Dfa.CharStep | src/regex/automaton/dfa.rs:75-87 | one character of `generate_transitions` keeps its invariant for one more character |
| Dfa.CharSteps | src/regex/automaton/dfa.rs:75-87 | after the loop over the alphabet, every character is handled, in any iteration order |
| Dfa.GenerateTransitions | src/regex/automaton/dfa.rs:72-90 | the node gets one edge per character with a non-empty successor set, to that set's node; only new sets are returned, each once, on fresh placeholder nodes; no other node changes |
| Dfa.PopQueued | src/regex/automaton/dfa.rs:40 | popping the queue removes exactly the head's set |
| Dfa.StepQueue | src/regex/automaton/dfa.rs:40-44 | after pop and append, the queued sets are the old ones, less the head, plus the new ones |
| Dfa.StepExpanded | src/regex/automaton/dfa.rs:44 | every set no longer queued has all its character edges |
| Dfa.StepSuccess | src/regex/automaton/dfa.rs:41-43 | the success list holds, once each, the nodes of the expanded sets that contain the NFA's end |
| Dfa.ExpandNext | src/regex/automaton/dfa.rs:39-45 | one round keeps the worklist invariant, and either the memo grows or the queue shrinks |
| Dfa.PlainNode | src/regex/automaton/dfa.rs:47-49 | an expanded set without the NFA's end is finished as it stands |
| Dfa.SuccessNode | src/regex/automaton/dfa.rs:48 | an expanded set with the NFA's end is finished by one epsilon edge to the shared end |
| Dfa.FinishingStep | src/regex/automaton/dfa.rs:47-49 | one round of the epsilon loop finishes one more success node |
| Dfa.FinishingDone | src/regex/automaton/dfa.rs:47-49 | after the epsilon loop every node is finished |
| Dfa.ReachedStep | src/regex/automaton/dfa.rs:39-45 | a successor set of a set that some word leads to is led to by that word and one more character |
| Dfa.Worklist | src/regex/automaton/dfa.rs:30-45 | the worklist ends with an empty queue; the start set maps to node 0, and every set is the set some word leads to from the start closure, reachable and expanded |
| Dfa.AddEndEdges | src/regex/automaton/dfa.rs:47-49 | every success node gets exactly one epsilon edge to the shared end, and every node is then finished |
| Dfa.ConstructDfa | src/regex/automaton/dfa.rs:25-57 | fails exactly when the NFA builder does, with its outcome; otherwise the result is the subset DFA of the NFA over its alphabet, with start 0 and shared end 1, and every node's set is the set some word leads to from the start closure |
| Matcher.Walk | src/regex/automaton/dfa.rs:61-68 | a successful walk stays in the arena |
| Matcher.WalkInput | src/regex/automaton/dfa.rs:60-68 | the loop follows the first target on each character, and panics exactly when some character has no edge |
| Matcher.MatchInput | src/regex/automaton/dfa.rs:59-70 | after the walk, accepts exactly when the closure of the reached node holds an `Accept` node; panics when the walk fails |
| Matcher.AnyAccept | src/regex/automaton/dfa.rs:69 | whether some node of the closure is `Accept` |
| Matcher.MatchInputEnd | src/regex/automaton/dfa.rs:69 | accepts exactly when the closure of the reached node holds the DFA's end |
| Matcher.StepSetInAlphabet | src/regex/automaton/dfa.rs:75-78 | a character outside the alphabet leads nowhere from a reachable set |
| Matcher.DfaStep | src/regex/automaton/dfa.rs:61-67 | the DFA's step on a character goes to the node of the successor set, and is missing exactly when that set is empty |
| Matcher.WalkTracks | src/regex/automaton/dfa.rs:59-68 | walking the DFA tracks the NFA-id set that the word leads to; the walk fails exactly when that set becomes empty |
| Matcher.DfaClosure | src/regex/automaton/dfa.rs:47-49 | a DFA node's closure is the shared end when its set holds the NFA's end, and the node itself otherwise |
| Matcher.AcceptingIff | src/regex/automaton/dfa.rs:69 | `match_input`'s test accepts a node exactly when its set holds the NFA's end or has no successor; the end-based test accepts exactly the first |
| Matcher.AcceptingUnended | src/regex/automaton/dfa.rs:69 | for a set without the NFA's end, `match_input`'s test accepts exactly when the set has no successor |
| Matcher.NodeAccepting | src/regex/automaton/dfa.rs:80 | the node of a set without the NFA's end keeps its `Accept` placeholder exactly when the set has no successor |
| Matcher.MatchSemantics | src/regex/automaton/dfa.rs:59-70 | for every word, the walk succeeds exactly when the word is empty or leads to a non-empty set; the two acceptance tests are then as in `AcceptingIff` |
| Matcher.MatchAccepted | src/regex/automaton/dfa.rs:59-70 | every word the NFA accepts is accepted by both acceptance tests |
| Matcher.DotPattern | src/regex/automaton/nfa.rs:42-44 | `.` builds one fragment with a `CharClass(All)` edge |
| Matcher.DotAcceptsEmpty | src/regex/automaton/dfa.rs:69 | in the DFA of `.`, `match_input`'s test accepts the empty input and the end-based test rejects it |
| Matcher.MatchDotOnEmpty | src/regex/automaton/dfa.rs:69 | compiling `.` and matching the empty input gives true as written and false when corrected |
| EndToEnd.TransitionNodes | src/regex/automaton.rs:32-39 | a literal fragment takes the next two ids: its end, then its start |
| EndToEnd.ConcatNodes | src/regex/automaton.rs:23-30 | concatenation rewrites only the first end, to one epsilon edge |
| EndToEnd.AltNodes | src/regex/automaton.rs:45-55 | the ids and nodes that alternation allocates and rewrites |
| EndToEnd.StarNodes | src/regex/automaton.rs:57-65 | the ids and nodes that the star allocates and rewrites |
| EndToEnd.AbcNfa | src/regex.rs:11 | the NFA that `abc` builds, node by node |
| EndToEnd.AbcAfter | src/regex.rs:12 | `abc` leads from the start closure of the `abc` NFA to its end |
| EndToEnd.RegexConcat | src/regex.rs:10-13 | `abc` compiles and both acceptance tests accept `abc` |
| EndToEnd.OrNfa | src/regex.rs:17 | the NFA that the pattern of `regex_or1` builds, node by node |
| EndToEnd.OrAfter | src/regex.rs:18-19 | `bc` and `ac` both lead to the end of that NFA |
| EndToEnd.RegexOr1 | src/regex.rs:16-20 | the pattern of `regex_or1` compiles and both acceptance tests accept `bc` and `ac` |
| EndToEnd.StarNfa | src/regex.rs:39 | the NFA that the pattern of `regex_asterisk1` builds, node by node |
| EndToEnd.AfterLoop | src/regex.rs:40 | a word that leads from a set back to it can be read any number of times |
| EndToEnd.StarAfter | src/regex.rs:40-41 | `abcbcbc` and `ad` both lead to sets that hold the end of that NFA |
| EndToEnd.RegexAsterisk1 | src/regex.rs:38-42 | the pattern of `regex_asterisk1` compiles and both acceptance tests accept `abcbcbc` and `ad` |
| Printer.AtomParses | src/regex/transform.rs:86-103 | a printed character class or group parses as one primary of the tree's postfix form, whatever follows |
| Printer.LitParses | src/regex/transform.rs:86-103 | a literal, escaped with a backslash when it is an operator, parses as one primary of that character, whatever follows |
| Printer.AltLeftParses | src/regex/transform.rs:73-84 | a printed left operand of the bar parses at the star level as the tree's postfix form, before anything but `*` |
| Printer.OperandParses | src/regex/transform.rs:58-71 | a printed right operand parses at the bar level as the tree's postfix form, before anything but `*` and a bar |
| Printer.AltParses | src/regex/transform.rs:58-71 | a printed alternation parses as its left operand, the bar and its right operand, giving the alternation's postfix form |
| Printer.ChainParses | src/regex/transform.rs:38-56 | a printed tree parses at the concatenation level to the loop state holding the tree's postfix form |
| Printer.CatChainParses | src/regex/transform.rs:41-53 | a printed concatenation parses as its left chain and then its right operand, so the loop state holds the concatenation's postfix form |
| Printer.ConcatParses | src/regex/transform.rs:38-56 | a printed tree followed by the end or a `)` parses to the tree's postfix form, stopping there |
| Printer.PrintParses | src/regex/transform.rs:34-36 | every printed tree parses to that tree's postfix form |
| Printer.PrintRoundTrip | src/regex/automaton/nfa.rs:18-54 | parsing a printed tree gives back the tree, and the NFA builder builds Thompson's construction of it |
| Printer.ReprintParses | src/regex/transform.rs:34-36 | every pattern that parses to a complete postfix sequence parses the same as the printed form of its tree |
| Language.ReadsAfter | src/regex/automaton/dfa.rs:92-108 | a node without epsilon edges that a word leads to along the arena is in the set the word leads to from the start closure |
| Language.AlternateGrows | src/regex/automaton.rs:45-55 | alternation overwrites only the two ends, which accept, so every old edge remains |
| Language.ZeroOrOneGrows | src/regex/automaton.rs:57-65 | the star overwrites only the old end, which accepts, so every old edge remains |
| Language.CatShape | src/regex/automaton.rs:23-30 | a concatenation keeps both operands' edges and adds an epsilon edge from the left end to the right start |
| Language.AltGrows | src/regex/automaton.rs:45-55 | an alternation keeps both operands' edges |
| Language.AltShape | src/regex/automaton.rs:45-55 | an alternation's start has epsilon edges to both operands' starts, and both operands' ends have one to its end |
| Language.StarGrows | src/regex/automaton.rs:57-65 | a star keeps its operand's edges |
| Language.StarShape | src/regex/automaton.rs:57-65 | a star's start and its operand's old end are both the split to the operand's start and the new end |
| Language.BuildReads | src/regex/automaton/nfa.rs:23-47 | every word of a tree's language leads Thompson's fragment of the tree from its start to its end |
| Language.CatReads | src/regex/automaton.rs:23-30 | a word split into a word of each operand leads the concatenation's fragment from its start to its end |
| Language.AltReads | src/regex/automaton.rs:45-55 | a word of either operand leads the alternation's fragment from its start to its end |
| Language.StarReads | src/regex/automaton.rs:57-65 | from the star's start, or from its operand's old end, any run of words of the operand leads to the star's end |
| Language.NfaAccepts | src/regex/automaton/nfa.rs:18-54 | a printed tree compiles to its fragment, and after every word of the tree's language the subset simulation holds the fragment's end |
| Language.CompiledMatches | src/regex/automaton/dfa.rs:25-70 | compiling a printed tree and matching a word of its language accepts under both acceptance tests |
| Language.LitTreeWord | src/regex/transform.rs:41-53 | a word of plain characters prints as itself and is in its own language |
| Language.LiteralMatchesItself | src/regex/automaton/dfa.rs:25-70 | compiling a non-empty pattern of plain characters and matching the pattern itself accepts under both acceptance tests |

## Left out

- Program I/O in `main.rs` is not modelled: reading arguments and stdin and printing matching lines.
- The `println!` of the postfix sequence in `construct_nfa` is not modelled.
- The `Debug` implementations are not modelled.
- Reference counting and interior mutability become an arena with integer ids. There is no aliasing to model: every shared `Rc` is the same arena slot.
- The fresh id that `connect` draws when it rewrites an `Accept` node is not modelled. Neither is the id of the split written over a star's old end. The rewritten node keeps its slot's id. Ids are compared only after construction, and only the NFA end's id is read, which is never rewritten.
- The iteration order of `HashSet` and `HashMap` is not modelled. The alphabet loop is proved for every order. NFA-id sets are `set<nat>`. Node ids in the DFA depend on that order; the language does not.
- Byte-offset slicing of UTF-8 strings is not modelled. A pattern holds `char`s and each one advances the parser by one. The source's `&remain[1..]` after a multi-byte character would panic, and the model does not panic there.
- The bodies of `insert_transition_ord` and `adjacent` are not part of this model. `State.InsertOrd` is an ordered insertion with the contract the callers need: one edge added, in the derived symbol order.
- The `state.rs` text defines a one-label `Transition`, a `Split` and a two-variant `Symbol`. That conflicts with the `CharClass` labels, `insert_transition_ord` and `adjacent` that the other files use. The model follows the other files: a node is an edge list over the `symbols.rs` labels.
- `Symbol::contains` is modelled but nothing in the core calls it. Wildcard matching, where a class edge is read by any character, is therefore not modelled: the code never follows a class edge.
- Language.CompiledMatches: soundness is stated for trees without the any-character class only. Their class edges are never read, so a word of such a tree's language is in general not accepted.
- Language.CompiledMatches: only soundness is proved, that every word of the language is accepted. Completeness, that every accepted word is in the language, is not proved.
- The DFA-shape tests in `dfa.rs:116-171` are not modelled. They compare whole DFAs under `PartialEq`. The model proves the language-level facts instead: `Dfa.ConstructDfa` and `Matcher.MatchSemantics`.
- The regex tests `regex_or2`, `regex_or3`, `regex_asterisk2`, `regex_asterisk3` and `regex_incomplete1` are not worked through. `Matcher.MatchAccepted` covers every word that the NFA accepts. What remains for each test is a hand computation of its NFA.
- Transform.ToThompsonPostfix: the contract states only the shape of the output. `Printer.PrintParses` states which postfix form it gives for every printed tree, and `Printer.ReprintParses` that every complete parse is the parse of a printed tree.
- Nfa.StarTop: the contract does not name the new top fragment. `Nfa.StarTree` states that it is the star of the old top.
- Nfa.Combine: the contract gives the combined fragment's ids for `Concat` only. `Nfa.CombinePair` states both operators in full.
- Matcher.Walk: the contract states only that the walk stays in the arena. `Matcher.WalkTracks` states what it computes on a DFA built from an NFA.

## Findings

| source | as written | input that shows it | evidently intended | confidence | as-written member | corrected member |
|---|---|---|---|---|---|---|
| src/regex/automaton/dfa.rs:69 | `match_input` accepts when the epsilon closure of the reached node holds any `Accept` node. Every DFA node starts as an `Accept` placeholder (`dfa.rs:31`, `dfa.rs:80`) and stays one when its set has no successor, so such a node accepts even when its set lacks the NFA's end | pattern `.` with input `""`: the NFA start's only edge is a class edge, so the alphabet is empty and the DFA start stays `Accept`; `match_input` returns true, yet the NFA needs one character | accept exactly when the reached node's closure holds the DFA's shared end, that is, when the NFA-id set holds the NFA's end | not executed | Matcher.MatchDotOnEmpty | Matcher.MatchInputEnd |
