# Connect four with a Monte-Carlo tree search, modelled in Dafny

This project models the game logic of a connect-four program written in Java (package
`fr.ul.puissance4`). It covers three parts:

- the board and turn, `Etat`;
- the node of the Monte-Carlo search tree, `Noeud`;
- the move value, `Coup`.

It also models the final step of the computer's turn: choosing, among the root's children, the move
with the best win ratio.

Modules, one per part of the program:

- `Coups` (`coup.dfy`): `Coup` as an immutable datatype. Its `equals` is taken over a small universe of
  objects (`null`, a `Coup`, anything else). Its `hashCode` is written out in 32-bit arithmetic.
- `Grille` (`grille.dfy`): the board as a value, `seq<seq<char>>`, and the constants of `Etat`. It also
  holds the outcome enumeration `FinDePartie` and the functions that say what each board operation
  computes: the list of moves, the bubbling drop of a piece, the row-major scan for a run of four. The
  lemmas give them meaning: the gravity invariant, the lowest empty row, full board versus empty move
  list, and the coverage of every line of four.
- `Etats` (`etat.dfy`): the class `Etat`, with `joueur` as a field and the board as an `array2<char>`
  updated in place. Each method is proved against the `Grille` function applied to `Cells()`, the
  board read as a value.
- `Noeuds` (`noeud.dfy`): the search tree as an arena. Nodes live in one sequence, the field `noeuds`
  of the class `Arbre`. Each node refers to its parent and children by index. The root is node 0, and
  each node comes after its parent. That order makes the walk to the root terminate, and it makes
  "exactly the ancestors change" statable.
- `Recherche` (`mcts.dfy`): `ordijoue_mcts`. The clock is replaced by a number of passes. The argmax
  over the root's children becomes a method proved against the first-maximum predicate.
- `Options` (`options.dfy`): the `Option` datatype standing for Java's `null`.

Where the code and its comments disagree, the model follows the code:

- `coupsPossibles` lists one move per empty cell, not one per column. Its list therefore holds up to 42
  entries, with duplicates. The comment promises at most 9 (`Grille.EmptyBoardMoves`).
- `jouerCoup` does not check the column range. The model takes `0 <= colonne < COLONNE` as a
  precondition.
  - It is correct only under the gravity invariant. The bubbling loop writes the mover's piece into each
    empty cell it meets and clears the cell above. On a board with a floating piece this erases the
    floating piece, which is replaced by the mover's, and the piece written into row 0 stays there. For
    example, take a column holding only an `'X'` in row 1, and drop an `'O'` into it. Afterwards rows 0
    and 5 hold `'O'`, row 1 is empty, and no `'X'` is left (`Grille.FloatingPieceErased`).
  - `Etats.Etat.JouerCoup` is therefore specified for every board by the bubbling function
    `Grille.Jouer`. Under gravity, `Grille.JouerUnderGravity` shows that this is "put the piece in the
    lowest empty row".
- `propagationScore` ignores its `score` argument. It counts a win at every node, on the path,
  reached by the same player as the start node, whatever the outcome.
- `calculerUCB1` negates the whole sum, exploration term included, for a node not reached by the
  computer (`Noeud.java:268`). Its doc comment shows the sign on the ratio alone (`Noeud.java:253`). The
  model follows the code: `Noeuds.UCB1` negates the sum.
- `ordijoue_mcts` is a method of `Etat` in Java. Here it sits in its own module `Recherche`, because
  the tree imports the state. It takes the state as a parameter, `etat` standing for `this`, and also
  returns the tree it built, so that the tree can be described.
- The computer's turn changes nothing (`Recherche.OrdijoueMcts`). With the stubbed phases the root
  never gets a child, so the move chosen is `null`, and `jouerCoup(null)` is refused.
  - The console game loop in `Main.java:19-31` runs until `testFin` reports a finished game, and the
    turn passes to the human only through a played move.
  - So once it is the computer's turn on an unfinished board, that loop repeats the computer's turn
    forever.
  - This was read from the code, not executed. The game loop is not part of this model.

## Model

| member | source | states |
|---|---|---|
| Coups.GetColonne | src/main/java/fr/ul/puissance4/Coup.java:18-20 | the move is rebuilt from its column |
| Coups.ColonneRoundTrip | src/main/java/fr/ul/puissance4/Coup.java:8-20 | `getColonne` returns the column given to the constructor, and a move is determined by its column |
| Coups.Equals | src/main/java/fr/ul/puissance4/Coup.java:40-45 | `equals` holds exactly for another `Coup` with the same column |
| Coups.EqualsNull | src/main/java/fr/ul/puissance4/Coup.java:42 | `equals(null)` and `equals` on another class are false |
| Coups.EqualsIsEquivalence | src/main/java/fr/ul/puissance4/Coup.java:40-45 | `equals` is reflexive, symmetric and transitive |
| Coups.HashCode | src/main/java/fr/ul/puissance4/Coup.java:47-50 | the hash is `31 + colonne` modulo 2^32 |
| Coups.HashCodeMatchesEquals | src/main/java/fr/ul/puissance4/Coup.java:40-50 | equal moves have equal hashes, and only equal moves do |
| Coups.Wrap32 | src/main/java/fr/ul/puissance4/Coup.java:49 | the 32-bit result differs from the exact one by a multiple of 2^32 |
| Grille.Mark | src/main/java/fr/ul/puissance4/Etat.java:136 | the piece is `'O'` exactly for the human player, and never the empty cell |
| Grille.EmptyGrid | src/main/java/fr/ul/puissance4/Etat.java:32-38 | the initial board has every cell empty |
| Grille.MovesEmptyIffFull | src/main/java/fr/ul/puissance4/Etat.java:106-117 | the list's length is the number of empty cells; it is empty exactly when the board is full |
| Grille.MovesPerColumn | src/main/java/fr/ul/puissance4/Etat.java:106-117 | `Coup(j)` occurs once for each empty cell of column `j`; it occurs exactly when the column has an empty cell; every listed column is in range |
| Grille.EmptyBoardMoves | src/main/java/fr/ul/puissance4/Etat.java:104-117 | on the empty board the list has 42 entries, not at most 9 |
| Grille.MovesArePlayable | src/main/java/fr/ul/puissance4/Etat.java:106-117 | under gravity, every listed move has an empty top cell, so `jouerCoup` accepts it |
| Grille.LowestEmpty | src/main/java/fr/ul/puissance4/Etat.java:137-142 | the row found is empty and every row below it in the column is occupied |
| Grille.JouerUnderGravity | src/main/java/fr/ul/puissance4/Etat.java:136-142 | under gravity the bubbling drop puts the piece in the lowest empty row, overwrites no piece, changes no other cell, and keeps gravity |
| Grille.FloatingPieceErased | src/main/java/fr/ul/puissance4/Etat.java:136-142 | off gravity, a drop onto a floating `'X'` leaves an `'O'` in row 0 and another at the bottom, and erases the `'X'` |
| Grille.FirstWin | src/main/java/fr/ul/puissance4/Etat.java:169-202 | the cell found is the first in row-major order that starts a run of four; none exactly when no cell does |
| Grille.Winner | src/main/java/fr/ul/puissance4/Etat.java:178 | an `'X'` run is a computer win, any other piece a human win |
| Grille.FinCharacterisation | src/main/java/fr/ul/puissance4/Etat.java:167-205 | a win is reported exactly when some cell starts a run of four, and the first such cell decides the winner; without a run, a draw exactly when the board is full, otherwise not finished |
| Grille.FinAtFirstWin | src/main/java/fr/ul/puissance4/Etat.java:171-198 | the first cell of the scan that starts a run decides the outcome |
| Grille.FinWithoutWin | src/main/java/fr/ul/puissance4/Etat.java:203-204 | with no run, a draw exactly when all 42 cells are occupied, else not finished |
| Grille.LineOfFourDetected | src/main/java/fr/ul/puissance4/Etat.java:174-198 | the four scanned directions cover every line of four in any of the eight orientations |
| Etats.PlateauVide | src/main/java/fr/ul/puissance4/Etat.java:30-38 | a fresh 6 x 7 array with every cell empty |
| Etats.Etat.constructor | src/main/java/fr/ul/puissance4/Etat.java:28-39 | an empty board on a fresh array, and the computer moves first |
| Etats.Etat.WithPlayer | src/main/java/fr/ul/puissance4/Etat.java:45-49 | an empty board, and the given player moves first |
| Etats.Etat.FromPlateau | src/main/java/fr/ul/puissance4/Etat.java:56-59 | the state holds the given array itself and the given player |
| Etats.Etat.CopieEtat | src/main/java/fr/ul/puissance4/Etat.java:93-100 | the copy has the same cells and player, on a fresh array, so changing it cannot change the original |
| Etats.Etat.CoupsPossibles | src/main/java/fr/ul/puissance4/Etat.java:106-117 | the list is one `Coup(j)` per empty cell `(i, j)` in row-major order |
| Etats.Etat.ChangerJoueur | src/main/java/fr/ul/puissance4/Etat.java:119-121 | the player becomes `1 - joueur` |
| Etats.Etat.JouerCoup | src/main/java/fr/ul/puissance4/Etat.java:128-148 | refused with nothing changed for no move or a full column; otherwise the bubbling drop of the current player's piece, and the turn passes; under gravity, the piece lands in the lowest empty row and gravity is kept |
| Etats.Etat.Alignement | src/main/java/fr/ul/puissance4/Etat.java:175-177 | the count is at most 4; the counted cells match; below 4, the next cell is off the board or differs, so the count is exactly the loop's; it is 4 exactly when a run of four starts at the cell |
| Etats.Etat.RunFrom | src/main/java/fr/ul/puissance4/Etat.java:174-198 | true exactly when a run of four starts at the cell in one of the four directions |
| Etats.Etat.TestFin | src/main/java/fr/ul/puissance4/Etat.java:167-205 | the result is the outcome `Grille.Fin` of the board, which `Grille.FinCharacterisation` describes |
| Noeuds.Pere | src/main/java/fr/ul/puissance4/Noeud.java:34 | a parent comes before its child |
| Noeuds.AppendKeepsTree | src/main/java/fr/ul/puissance4/Noeud.java:74-98 | adding a new node for a child keeps the tree invariant |
| Noeuds.AddChildKeepsTree | src/main/java/fr/ul/puissance4/Noeud.java:170-174 | listing the new node among its parent's children keeps the tree invariant |
| Noeuds.Ancestors | src/main/java/fr/ul/puissance4/Noeud.java:232-244 | the walk starts at the node and only visits nodes before it |
| Noeuds.AncestorsChain | src/main/java/fr/ul/puissance4/Noeud.java:238-244 | the walk follows parent links, stops at a node without a parent and visits no node twice |
| Noeuds.AncestorsReachRoot | src/main/java/fr/ul/puissance4/Noeud.java:238-244 | in a well-formed tree the walk ends at the root |
| Noeuds.AncestorsClosed | src/main/java/fr/ul/puissance4/Noeud.java:238-240 | the parent of a node on the walk is on the walk |
| Noeuds.AncestorsAlternate | src/main/java/fr/ul/puissance4/Noeud.java:235-242 | a node on the walk has the start's player exactly at an even distance from the start |
| Noeuds.GreaterIsStrictOrder | src/main/java/fr/ul/puissance4/Noeud.java:195 | `>` on scores with infinities is a strict total order |
| Noeuds.ScanStep | src/main/java/fr/ul/puissance4/Noeud.java:195-198 | one step of a strict-`>` scan keeps the first maximum of the scores seen |
| Noeuds.ScanDone | src/main/java/fr/ul/puissance4/Noeud.java:182-202 | a finished scan holds the first maximum, or nothing when every score is minus infinity |
| Noeuds.FirstMaxUnique | src/main/java/fr/ul/puissance4/Noeud.java:195-198 | the first maximum is unique |
| Noeuds.RatioBounds | src/main/java/fr/ul/puissance4/Noeud.java:220-225 | `ratio` is plus infinity exactly without simulations; otherwise wins / simulations, between 0 and 1, and 1 exactly when every simulation was a win |
| Noeuds.UCB1Cases | src/main/java/fr/ul/puissance4/Noeud.java:265-273 | plus infinity exactly without simulations or without a parent; otherwise ratio plus exploration, negated for nodes not reached by the computer; with the exploration term non-negative, the sign is the computer's |
| Noeuds.PremierEnfant | src/main/java/fr/ul/puissance4/Noeud.java:186 | none exactly when no child plays the move; otherwise a child that plays it |
| Noeuds.PremierEnfantIsFirst | src/main/java/fr/ul/puissance4/Noeud.java:186 | the child found is the first in list order that plays the move |
| Noeuds.PropagationCounters | src/main/java/fr/ul/puissance4/Noeud.java:230-245 | exactly the nodes on the walk get one more simulation; a win is added exactly at those with the start's player; nothing else changes, and counters never decrease |
| Noeuds.PropagationKeepsTree | src/main/java/fr/ul/puissance4/Noeud.java:234-243 | propagation keeps the tree invariant, including `0 <= nb_victoires <= nb_simus` |
| Noeuds.PropagationAtLoneRoot | src/main/java/fr/ul/puissance4/Noeud.java:234-238 | from a root without children, propagation visits the root alone |
| Noeuds.Arbre.Racine | src/main/java/fr/ul/puissance4/Etat.java:218-219 | `new Noeud(null, null)` with the state set: a well-formed single root with no move and zero counters |
| Noeuds.Arbre.Vide | src/main/java/fr/ul/puissance4/Noeud.java:57-66 | a lone node for move 0 on a fresh empty state, with zero counters |
| Noeuds.Arbre.NouveauNoeud | src/main/java/fr/ul/puissance4/Noeud.java:74-98 | the child holds a fresh copy of the parent's state with the move played (or refused), is reached by the other player, has zero counters, and leaves the parent and every state in the tree unchanged |
| Noeuds.Arbre.AjouterEnfant | src/main/java/fr/ul/puissance4/Noeud.java:170-174 | exactly one node is added, with the parent as its parent, and appended last to the parent's children. The child's state is a fresh copy with the move played or refused, and the turn passes exactly when the move was played. All other nodes and states are unchanged |
| Noeuds.Arbre.Selection | src/main/java/fr/ul/puissance4/Noeud.java:181-203 | the first move without a child, in list order; otherwise the move of the first maximum score, with leaf children skipped; none when no move has a non-leaf child |
| Noeuds.Arbre.PropagationScore | src/main/java/fr/ul/puissance4/Noeud.java:230-245 | the tree afterwards has exactly the nodes on the path to the root visited once, described by `Noeuds.PropagationCounters`, and it stays well formed |
| Recherche.MeilleurCoup | src/main/java/fr/ul/puissance4/Etat.java:244-252 | the move of the first child with strictly greatest ratio; none exactly when the root has no children; a chosen move is in range |
| Recherche.Chercher | src/main/java/fr/ul/puissance4/Etat.java:234-242 | with the stubbed phases, each pass adds one simulation and one win to the root alone |
| Recherche.OrdijoueMcts | src/main/java/fr/ul/puissance4/Etat.java:212-257 | the root copies the state; no move is chosen, and playing none leaves the state unchanged |

## Left out

- `Main.java`, `Coup.demanderCoup`, `Coup.toString` and `Etat.toString`: console input and output
  only.
- The getters and setters (`getPlateau`, `getJoueur`, `setJoueur`, `setParent`, `setEnfants`,
  `setNb_simus`, `setNb_victoires`, `setCoup`):
  - the raw setters can break the tree invariant, and the search does not use them;
  - the getters are read as field accesses.
  - `setEtat` is used once, by `ordijoue_mcts` on its new root. It is modelled as part of building the
    root, in `Noeuds.Arbre.Racine`.
- The clock of `ordijoue_mcts`: `System.currentTimeMillis` is replaced by a number of passes, at
  least one.
  - The stub phases `selection`, `expansion` and `simulation` of `Etat` are written inline as what
    they return: their argument, or `NON`.
  - The list of moves computed at the start of `ordijoue_mcts` is never used. It is computed all the
    same.
- Noeuds.UCB1Cases: the UCB1 term `C * sqrt(ln N(parent) / N)` is double-precision arithmetic. It
  is a parameter `explore`, a function of the two simulation counts. The sign property is therefore
  stated only for a non-negative exploration term.
- The `ucb1` field, which caches the last UCB1 value:
  - it is written by the constructors, by `propagationScore`, and by `selection` through
    `calculerUCB1`;
  - it is never read, so it is not modelled.
- Ratios and scores are compared as reals with infinities (`Noeuds.Score`), not as IEEE doubles:
  - rounding of `nb_victoires / nb_simus` is not modelled;
  - NaN cannot arise from the counters.
- `new Noeud(parent, null)` and `new Noeud(null, coup)`: they give a node without a state, and the
  program never builds one. The root built with `new Noeud(null, null)` is modelled in the form the
  program uses: `Noeuds.Arbre.Racine`, with its state set.
- Node identity: a node is an index into the arena, and the parent link is that index. In Java,
  `changerJoueur` on the parent flips a field of a shared object. The model flips a copy and writes it
  back, which leaves the same state.
- Board rows as separate Java arrays: the board is one `array2<char>`, so rows cannot alias each
  other. The copy's independence is stated as the freshness of its array.
- The 32-bit `int` overflow of `nb_simus`, `nb_victoires` and `joueur`: counters are unbounded
  integers.
- The drafts `src/Etat.java` and `src/Noeud.java`, which duplicate the package classes in broken
  form.
- `Noeuds.EstFeuille`, `Noeuds.Ratio` and `Noeuds.UCB1` are plain definitions of `estFeuille`, `ratio`
  and `calculerUCB1`. Their properties are the contracts of `Noeuds.RatioBounds`,
  `Noeuds.UCB1Cases` and `Noeuds.Arbre.Selection`.
