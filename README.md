# Detective Quest (master stage) in Dafny

A model of the core of `trabalhodetetctivequestmastheus.c`, a text
adventure. The player walks a binary tree of rooms (`Sala`), one choice
per step. Every room visited that has a clue adds the clue to two places:

- a binary search tree of clues (`PistaNode`), keyed by `strcmp`;
- a chained hash table of ten buckets, binding the clue to a suspect chosen
  by the room's name.

At the end the player accuses a suspect. The accusation stands when at
least two clues found along the right-child chain of the clue tree point to
that suspect.

Modules, one per part of the program:

- `CStrings`: C strings as sequences of non-NUL bytes, and `strcmp` (`StrCmp`, `Less`), with its ordering laws.
- `ClueIndex`: the clue tree. `Clues` is its value (`Insert`, `InOrder`, the search-tree invariant `Ordered`). The class `PistaNode` holds the nodes that `inserirPista` changes in place; its ghost `Tree` and `Repr` tie each node to its value and its footprint.
- `SuspectLedger`: `hash` with explicit 32-bit wrap-around, and the bucket array as `array<Chain>`. Chain nodes are never changed after creation, so a chain is a value. `Lookup` and `Associate` are the table's meaning.
- `RoomGraph`: rooms as values. Their links are set once, before the walk, and never changed.
- `Exploration`: the walk loop. The characters the player types are a parameter. `Percurso` gives the rooms at the top of each loop iteration; the folds `CollectClues` and `CollectSuspects` give what those iterations leave in the tree and the table.
- `Accusation`: the right-spine check as written, plus a full in-order count to compare it with.
- `Scenarios`: small concrete mansions run through the methods.

## Model

| member | source | states |
|---|---|---|
| CStrings.StrCmpZeroIffEqual | trabalhodetetctivequestmastheus.c:87 | `strcmp` returns zero exactly when the two strings are equal, which is the test `encontrarSuspeito` uses |
| CStrings.StrCmpAntisymmetric | trabalhodetetctivequestmastheus.c:54 | swapping the arguments of `strcmp` negates its result |
| CStrings.LessAsymmetric | trabalhodetetctivequestmastheus.c:54 | `strcmp(a, b) < 0` is irreflexive and asymmetric |
| CStrings.LessTransitive | trabalhodetetctivequestmastheus.c:54 | `strcmp(a, b) < 0` is transitive |
| CStrings.LessTotal | trabalhodetetctivequestmastheus.c:54-58 | two clues are either equal or one is below the other, so every insertion step takes a defined branch |
| RoomGraph.CriarSala | trabalhodetetctivequestmastheus.c:30-37 | a new room has the given name and clue and no exits |
| ClueIndex.PistaNode.constructor | trabalhodetetctivequestmastheus.c:40-46 | a new node holds the clue, has no children and is a one-node tree |
| ClueIndex.InsertAddsOneCopy | trabalhodetetctivequestmastheus.c:49-61 | after insertion the tree's clues, as a multiset, are the old ones plus one more copy of the new clue: duplicates are kept |
| ClueIndex.InsertIntoEmpty | trabalhodetetctivequestmastheus.c:50-52 | inserting into an empty tree gives a single node without children |
| ClueIndex.InsertKeepsOrdered | trabalhodetetctivequestmastheus.c:54-58 | insertion keeps the search-tree invariant: left subtrees strictly below, right subtrees at or above each node |
| ClueIndex.OrderedInOrderSorted | trabalhodetetctivequestmastheus.c:150-163 | the in-order listing of a search tree is non-decreasing under `strcmp` |
| ClueIndex.InsertSortedWithDuplicates | trabalhodetetctivequestmastheus.c:49-61 | after an insertion into a search tree, the listing is sorted and holds one more copy of the inserted clue |
| ClueIndex.InserirPista | trabalhodetetctivequestmastheus.c:49-61 | the resulting tree is the value-level insertion into the old tree. An empty tree gets a fresh childless node; otherwise the same root is returned and only fresh nodes join the footprint |
| ClueIndex.ExibirPistas | trabalhodetetctivequestmastheus.c:150-163 | the clues printed are the in-order listing of the tree: left subtree, the node, right subtree |
| SuspectLedger.HashValue | trabalhodetetctivequestmastheus.c:65-68 | the running hash always fits in an unsigned 32-bit word |
| SuspectLedger.HashValueIsHornerModWord | trabalhodetetctivequestmastheus.c:65-68 | shifting left by 5 and adding each byte with 32-bit wrap-around equals the unbounded base-32 Horner value of the bytes, reduced modulo 2^32 |
| SuspectLedger.Bucket | trabalhodetetctivequestmastheus.c:69 | the bucket index is below `TABLE_SIZE` (10) |
| SuspectLedger.Hash | trabalhodetetctivequestmastheus.c:64-70 | the loop over the bytes before the NUL returns the bucket index of the clue, which is in 0..9 |
| SuspectLedger.FindIsFirstMatch | trabalhodetetctivequestmastheus.c:86-92 | a chain search fails exactly when no binding in the chain has the clue; otherwise it returns the suspect of the first binding that has it |
| SuspectLedger.EmptyTable | trabalhodetetctivequestmastheus.c:199 | the empty table has `TABLE_SIZE` buckets |
| SuspectLedger.NovaTabela | trabalhodetetctivequestmastheus.c:199 | a fresh array of `TABLE_SIZE` empty buckets |
| SuspectLedger.LookupEmpty | trabalhodetetctivequestmastheus.c:199 | no clue is found in the empty table |
| SuspectLedger.Associate | trabalhodetetctivequestmastheus.c:73-80 | adding a binding keeps the table at `TABLE_SIZE` buckets |
| SuspectLedger.InserirNaHash | trabalhodetetctivequestmastheus.c:73-80 | the clue's bucket gets a new head binding the clue to the suspect, with the old chain as its tail; every other bucket is unchanged |
| SuspectLedger.LookupAssociateSame | trabalhodetetctivequestmastheus.c:78-79 | right after binding a clue, looking it up gives the new suspect, whatever it was bound to before |
| SuspectLedger.LookupAssociateOther | trabalhodetetctivequestmastheus.c:73-80 | binding a clue does not change the lookup of any other clue |
| SuspectLedger.EncontrarSuspeito | trabalhodetetctivequestmastheus.c:83-93 | scanning the clue's bucket returns the table's lookup of the clue (NULL as `None`) |
| Exploration.PercursoStep | trabalhodetetctivequestmastheus.c:128-145 | between two iterations the walk had not ended, and the room changed only to an existing child: left on `e`/`E`, right on `d`/`D`. A missing exit or any other character leaves it where it was |
| Exploration.PercursoEnds | trabalhodetetctivequestmastheus.c:116-119 | the walk starts at the entry room and takes at most one step per choice. It ends at a room without exits, on `s`/`S`, or when the input runs out |
| Exploration.CollectCluesKeepsOrdered | trabalhodetetctivequestmastheus.c:103-105 | recording the clues of any walk keeps the clue tree a search tree |
| Exploration.RecordClueContents | trabalhodetetctivequestmastheus.c:103-105 | one iteration adds the room's clue, and only when it is not empty |
| Exploration.CollectCluesContents | trabalhodetetctivequestmastheus.c:101-114 | the tree ends with its old clues plus one copy of the clue of every visit to a room with a clue, re-prompts at the same room included |
| Exploration.CollectSuspectsUnmet | trabalhodetetctivequestmastheus.c:106-113 | a clue met in no room keeps its old lookup |
| Exploration.CollectSuspectsLastVisitWins | trabalhodetetctivequestmastheus.c:106-113 | a clue's lookup at the end is the suspect of the room of its last visit: "Suspeito A" for "Cozinha", "Suspeito B" for "Biblioteca", "Suspeito C" otherwise |
| Exploration.IterationStep | trabalhodetetctivequestmastheus.c:101-147 | the rest of the walk is the current room followed by what comes after it; folding over it means recording the current room, then the rest |
| Exploration.RegistrarPista | trabalhodetetctivequestmastheus.c:103-114 | a room with a clue inserts it into the tree and binds it in the table; a room without one changes neither |
| Exploration.Escolher | trabalhodetetctivequestmastheus.c:128-145 | the choice quits exactly on `s`/`S`. Otherwise the room changes only to an existing child in the chosen direction |
| Exploration.ExplorarSalasComPistas | trabalhodetetctivequestmastheus.c:96-147 | the tree and the table end as the value-level folds over the rooms of the walk. The root given stays the root; only fresh nodes are added |
| Accusation.CountPointing | trabalhodetetctivequestmastheus.c:170-176 | at most one count per clue visited |
| Accusation.CountPointingAppend | trabalhodetetctivequestmastheus.c:170-176 | the count over two lists of clues is the sum of the counts |
| Accusation.QuorumIffTwoWitnesses | trabalhodetetctivequestmastheus.c:178 | the count reaches 2 exactly when two distinct positions of the list point to the suspect |
| Accusation.OneWitness | trabalhodetetctivequestmastheus.c:172-173 | the count is positive exactly when some clue of the list is found and bound to the suspect |
| Accusation.RightSpineNoLonger | trabalhodetetctivequestmastheus.c:170-175 | following right children visits no more nodes than the in-order listing has |
| Accusation.SpineCountAtMostFullCount | trabalhodetetctivequestmastheus.c:170-175 | the right-spine count never exceeds the count over every clue of the tree |
| Accusation.VerificarSuspeitoFinal | trabalhodetetctivequestmastheus.c:166-179 | true exactly when at least two clues on the right spine (root, root.direita, ...) are found and bound to the accused name |
| Accusation.EmptyTreeUnsupported | trabalhodetetctivequestmastheus.c:166-179 | an empty tree supports no accusation |
| Accusation.SupportedByAllClues | trabalhodetetctivequestmastheus.c:166-179 | the full-traversal comparison holds exactly when two distinct clues in the in-order listing point to the suspect |
| Accusation.SpineCheckIsConservative | trabalhodetetctivequestmastheus.c:166-179 | whenever the right-spine check accepts, the full check accepts too |
| Scenarios.WalkACollects | trabalhodetetctivequestmastheus.c:96-147 | walking left twice through a three-room chain records "X" then "Y". "Y" goes right of "X", and both are bound to "Suspeito C" |
| Scenarios.SpineCountsA | trabalhodetetctivequestmastheus.c:166-179 | in that tree the right spine holds two clues for "Suspeito C" and none for "Suspeito A" |
| Scenarios.FewCluesSupportNothing | trabalhodetetctivequestmastheus.c:166-179 | a walk meeting fewer than two clue-bearing visits, starting from an empty tree, supports no accusation |
| Scenarios.RightSpineMissesLeftClue | trabalhodetetctivequestmastheus.c:170-175 | clue "B" then "A" (turning left) puts "A" left of the root. Both point to "Suspeito C", yet the spine count is 1 while the full check sees two |
| Scenarios.RepromptRecordsClueTwice | trabalhodetetctivequestmastheus.c:101-114 | an invalid key re-records the room's clue, so one clue stored twice on the right spine reaches the threshold on its own |

`Scenarios.CenarioA` and `Scenarios.CenarioC` run whole explorations and
accusations through the methods on concrete mansions, with the outcome
asserted.

Notes on behaviour that follows the code:

- A repeated clue is inserted again at every visit, including a re-prompt after an invalid key at the same room. The tree keeps each copy, and the table gets a new head binding each time. Descriptions of this program that speak of clues being collected once do not match the code; the model follows the code.
- The clue's suspect is decided by the room's name alone.

## Left out

- Console output (`printf`) and the banner and menus are not modelled; the printed clue list is the sequence `ExibirPistas` returns.
- Console input: the `scanf(" %c")` choices are the parameter `escolhas`. Whitespace skipping is implicit, since the sequence holds only the characters read. The accused name read by `scanf(" %49[^\n]")` is the parameter `suspeito`.
- Exploration.ExplorarSalasComPistas: when the input runs out at a room with exits, the walk stops there. The C loop would instead act on what `scanf` leaves at end of file (a stale or uninitialised `opcao`), which is not modelled.
- `malloc`, `strdup` and `free`, allocation failure, and the leaks of the clue tree and the hash nodes in `main` are not modelled; Dafny allocation does not fail and has no `free`.
- The fixed `char[50]` and `char[100]` buffers and `strcpy` overflow are not modelled: strings have no length cap.
- Signedness of `char` in `hash` is not modelled: bytes are taken as unsigned, 1..255 before the NUL.
- `main`, with its hard-coded five-room mansion (lines 183-193), is not modelled; `Scenarios` uses small mansions of its own.
- Rooms are values, not mutable nodes: the code never changes a room after `main` links them. Sharing between rooms is therefore not modelled.

## Findings

| source | as written | input that shows it | evidently intended | confidence | as-written member | corrected member |
|---|---|---|---|---|---|---|
| trabalhodetetctivequestmastheus.c:170-175 | the accusation counts clues only along the right-child chain from the root (`node = node->direita`), so clues in any left subtree are never looked at | room "Sotao" with clue "B" whose left exit leads to "Porao" with clue "A", choices `e`, accusing "Suspeito C": both clues point to "Suspeito C", but "A" sits left of the root, so the count is 1 and the accusation is refused | count every collected clue (a full traversal of the clue tree), so that two clues pointing to the suspect support the accusation | not executed | Accusation.VerificarSuspeitoFinal, shown by Scenarios.RightSpineMissesLeftClue | Accusation.SupportedByAllClues, with Accusation.SpineCheckIsConservative |
