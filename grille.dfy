/**
 * The connect-four board as a value: the constants of `Etat`, the outcome enumeration
 * `FinDePartie`, and the functions that specify what the board operations of `Etat` compute,
 * with the lemmas that say what those results mean.
 *
 * A board is a `LIGNE` x `COLONNE` grid of characters, row 0 on top and row `LIGNE - 1` at the
 * bottom; a cell holds `VIDE`, `'O'` (the human) or `'X'` (the computer).
 * Cells are also numbered in row-major order, cell `p` being row `p / COLONNE`, column `p % COLONNE`.
 */
module Grille {
  import opened Options
  import opened Coups

  const LIGNE: int := 6
  const COLONNE: int := 7
  /** The number of cells, `LIGNE * COLONNE`. */
  const CASES: int := 42

  const HUMAN_PLAYER: int := 0
  const COMPUTER_PLAYER: int := 1

  const VIDE: char := ' '

  /** How a game stands: not finished, drawn, won by the computer, won by the human. */
  datatype FinDePartie = Non | MatchNul | OrdiGagne | HumainGagne

  type Grid = seq<seq<char>>

  predicate WellFormed(g: Grid) {
    |g| == LIGNE && forall i | 0 <= i < |g| :: |g[i]| == COLONNE
  }

  predicate InGrid(i: int, j: int) {
    0 <= i < LIGNE && 0 <= j < COLONNE
  }

  /** The piece a player puts down: `'O'` for the human player, `'X'` for anyone else. */
  function Mark(joueur: int): (m: char)
    ensures m != VIDE
    ensures m == 'O' <==> joueur == HUMAN_PLAYER
  {
    if joueur == HUMAN_PLAYER then 'O' else 'X'
  }

  function EmptyGrid(): (g: Grid)
    ensures WellFormed(g)
    ensures forall i, j | InGrid(i, j) :: g[i][j] == VIDE
  {
    seq(LIGNE, i => seq(COLONNE, j => VIDE))
  }

  ghost predicate IsFull(g: Grid)
    requires WellFormed(g)
  {
    forall i, j | InGrid(i, j) :: g[i][j] != VIDE
  }

  /** Cell `p` in row-major order. */
  function At(g: Grid, p: int): char
    requires WellFormed(g) && 0 <= p < CASES
  {
    g[p / COLONNE][p % COLONNE]
  }

  lemma AtCell(g: Grid, i: int, j: int)
    requires WellFormed(g) && InGrid(i, j)
    ensures 0 <= i * COLONNE + j < CASES
    ensures (i * COLONNE + j) / COLONNE == i && (i * COLONNE + j) % COLONNE == j
    ensures At(g, i * COLONNE + j) == g[i][j]
  {
  }

  // ----- the list of moves -----

  /** The moves `coupsPossibles` collects from the first `c` cells of one row, left to right. */
  function RowMoves(row: seq<char>, c: int): seq<Coup>
    requires 0 <= c <= |row| <= COLONNE
  {
    if c == 0 then [] else RowMoves(row, c - 1) + (if row[c - 1] == VIDE then [Coup(c - 1)] else [])
  }

  /** The moves `coupsPossibles` has collected from the first `r` rows, top to bottom. */
  function MovesRows(g: Grid, r: int): seq<Coup>
    requires WellFormed(g) && 0 <= r <= LIGNE
  {
    if r == 0 then [] else MovesRows(g, r - 1) + RowMoves(g[r - 1], COLONNE)
  }

  /** What `coupsPossibles` returns: one move per empty cell, in row-major order. */
  function CoupsPossibles(g: Grid): seq<Coup>
    requires WellFormed(g)
  {
    MovesRows(g, LIGNE)
  }

  /** The number of occupied cells among the first `c` of a row. */
  function RowOccupied(row: seq<char>, c: int): (n: nat)
    requires 0 <= c <= |row|
    ensures n <= c
  {
    if c == 0 then 0 else RowOccupied(row, c - 1) + (if row[c - 1] != VIDE then 1 else 0)
  }

  /** The number of occupied cells in the first `r` rows. */
  function OccupiedRows(g: Grid, r: int): (n: nat)
    requires WellFormed(g) && 0 <= r <= LIGNE
    ensures n <= r * COLONNE
  {
    if r == 0 then 0 else OccupiedRows(g, r - 1) + RowOccupied(g[r - 1], COLONNE)
  }

  function Occupied(g: Grid): nat
    requires WellFormed(g)
  {
    OccupiedRows(g, LIGNE)
  }

  /** The number of empty cells of column `j` in the rows above row `r`, counted column-wise. */
  function EmptiesInColumn(g: Grid, j: int, r: int): (n: nat)
    requires WellFormed(g) && 0 <= j < COLONNE && 0 <= r <= LIGNE
    ensures n <= r
  {
    if r == 0 then 0
    else EmptiesInColumn(g, j, r - 1) + (if g[r - 1][j] == VIDE then 1 else 0)
  }

  /** How many times `m` occurs in `ms`. */
  function Count(ms: seq<Coup>, m: Coup): (n: nat)
    ensures n <= |ms|
  {
    if ms == [] then 0 else Count(ms[..|ms| - 1], m) + (if ms[|ms| - 1] == m then 1 else 0)
  }

  lemma {:induction false} CountConcat(a: seq<Coup>, b: seq<Coup>, m: Coup)
    ensures Count(a + b, m) == Count(a, m) + Count(b, m)
    decreases |b|
  {
    if b != [] {
      assert (a + b)[..|a + b| - 1] == a + b[..|b| - 1];
      CountConcat(a, b[..|b| - 1], m);
    } else {
      assert a + b == a;
    }
  }

  lemma {:induction false} RowMovesLength(row: seq<char>, c: int)
    requires 0 <= c <= |row| <= COLONNE
    ensures |RowMoves(row, c)| + RowOccupied(row, c) == c
    ensures RowMoves(row, c) == [] <==> forall k | 0 <= k < c :: row[k] != VIDE
  {
    if c > 0 {
      RowMovesLength(row, c - 1);
    }
  }

  lemma {:induction false} RowMovesCount(row: seq<char>, c: int, j: int)
    requires 0 <= c <= |row| <= COLONNE && 0 <= j < COLONNE
    ensures Count(RowMoves(row, c), Coup(j)) == if j < c && row[j] == VIDE then 1 else 0
  {
    if c > 0 {
      RowMovesCount(row, c - 1, j);
      var added := if row[c - 1] == VIDE then [Coup(c - 1)] else [];
      CountConcat(RowMoves(row, c - 1), added, Coup(j));
      assert Count(added, Coup(j)) == if row[c - 1] == VIDE && c - 1 == j then 1 else 0 by {
        if added != [] {
          assert added[..0] == [];
        }
      }
    }
  }

  /** Every move collected from a row names one of the columns scanned. */
  lemma {:induction false} RowMovesRange(row: seq<char>, c: int, m: Coup)
    requires 0 <= c <= |row| <= COLONNE && m in RowMoves(row, c)
    ensures 0 <= m.colonne < c
  {
    if m !in RowMoves(row, c - 1) {
      assert row[c - 1] == VIDE && m == Coup(c - 1);
    } else {
      RowMovesRange(row, c - 1, m);
    }
  }

  lemma {:induction false} MovesRowsRange(g: Grid, r: int, m: Coup)
    requires WellFormed(g) && 0 <= r <= LIGNE && m in MovesRows(g, r)
    ensures 0 <= m.colonne < COLONNE
  {
    if m in RowMoves(g[r - 1], COLONNE) {
      RowMovesRange(g[r - 1], COLONNE, m);
    } else {
      MovesRowsRange(g, r - 1, m);
    }
  }

  lemma {:induction false} MovesRowsFacts(g: Grid, r: int, j: int)
    requires WellFormed(g) && 0 <= r <= LIGNE && 0 <= j < COLONNE
    ensures |MovesRows(g, r)| + OccupiedRows(g, r) == r * COLONNE
    ensures MovesRows(g, r) == [] <==> forall i, k | 0 <= i < r && 0 <= k < COLONNE :: g[i][k] != VIDE
    ensures Count(MovesRows(g, r), Coup(j)) == EmptiesInColumn(g, j, r)
  {
    if r > 0 {
      MovesRowsFacts(g, r - 1, j);
      RowMovesLength(g[r - 1], COLONNE);
      RowMovesCount(g[r - 1], COLONNE, j);
      CountConcat(MovesRows(g, r - 1), RowMoves(g[r - 1], COLONNE), Coup(j));
    }
  }

  /**
   * The list has one entry per empty cell: its length is the number of empty cells, it is empty exactly
   * when the board is full, and that is when all cells are counted as occupied.
   */
  lemma MovesEmptyIffFull(g: Grid)
    requires WellFormed(g)
    ensures |CoupsPossibles(g)| == CASES - Occupied(g)
    ensures CoupsPossibles(g) == [] <==> IsFull(g)
    ensures Occupied(g) == CASES <==> IsFull(g)
  {
    MovesRowsFacts(g, LIGNE, 0);
  }

  /** `Coup(j)` occurs in the list once for every empty cell of column `j`, and no other move occurs. */
  lemma MovesPerColumn(g: Grid, j: int)
    requires WellFormed(g) && 0 <= j < COLONNE
    ensures Count(CoupsPossibles(g), Coup(j)) == EmptiesInColumn(g, j, LIGNE)
    ensures Coup(j) in CoupsPossibles(g) <==> exists i | 0 <= i < LIGNE :: g[i][j] == VIDE
    ensures forall m | m in CoupsPossibles(g) :: 0 <= m.colonne < COLONNE
  {
    MovesRowsFacts(g, LIGNE, j);
    EmptiesInColumnPositive(g, j, LIGNE);
    forall m | m in CoupsPossibles(g) ensures 0 <= m.colonne < COLONNE {
      MovesRowsRange(g, LIGNE, m);
    }
    CountPositive(CoupsPossibles(g), Coup(j));
  }

  lemma {:induction false} CountPositive(ms: seq<Coup>, m: Coup)
    ensures Count(ms, m) > 0 <==> m in ms
  {
    if ms != [] {
      CountPositive(ms[..|ms| - 1], m);
      assert ms == ms[..|ms| - 1] + [ms[|ms| - 1]];
    }
  }

  lemma {:induction false} EmptiesInColumnPositive(g: Grid, j: int, r: int)
    requires WellFormed(g) && 0 <= j < COLONNE && 0 <= r <= LIGNE
    ensures EmptiesInColumn(g, j, r) > 0 <==> exists i | 0 <= i < r :: g[i][j] == VIDE
  {
    if r > 0 {
      EmptiesInColumnPositive(g, j, r - 1);
    }
  }

  /** The doc comment of `coupsPossibles` promises at most 9 entries; on the empty board the list has 42. */
  lemma EmptyBoardMoves()
    ensures |CoupsPossibles(EmptyGrid())| == CASES
  {
    var g := EmptyGrid();
    MovesEmptyIffFull(g);
    OccupiedEmpty(g, LIGNE);
  }

  lemma {:induction false} OccupiedEmpty(g: Grid, r: int)
    requires g == EmptyGrid() && 0 <= r <= LIGNE
    ensures OccupiedRows(g, r) == 0
  {
    if r > 0 {
      OccupiedEmpty(g, r - 1);
      RowOccupiedEmpty(g[r - 1], COLONNE);
    }
  }

  lemma {:induction false} RowOccupiedEmpty(row: seq<char>, c: int)
    requires 0 <= c <= |row| && forall k | 0 <= k < |row| :: row[k] == VIDE
    ensures RowOccupied(row, c) == 0
  {
    if c > 0 {
      RowOccupiedEmpty(row, c - 1);
    }
  }

  // ----- gravity and dropping a piece -----

  /** Every column is a run of empty cells above a run of pieces. */
  predicate Gravity(g: Grid)
    requires WellFormed(g)
  {
    forall i, i', j | 0 <= i < i' < LIGNE && 0 <= j < COLONNE :: g[i][j] != VIDE ==> g[i'][j] != VIDE
  }

  /** Under gravity every move in the list is a column whose top cell is empty, so `jouerCoup` accepts it. */
  lemma MovesArePlayable(g: Grid, m: Coup)
    requires WellFormed(g) && Gravity(g) && m in CoupsPossibles(g)
    ensures 0 <= m.colonne < COLONNE
    ensures g[0][m.colonne] == VIDE
  {
    MovesPerColumn(g, 0);
    MovesPerColumn(g, m.colonne);
    var i :| 0 <= i < LIGNE && g[i][m.colonne] == VIDE;
  }

  /** `g` with cell `(r, j)` set to `v`. */
  function Set(g: Grid, r: int, j: int, v: char): (h: Grid)
    requires WellFormed(g) && InGrid(r, j)
    ensures WellFormed(h)
    ensures forall i, k | InGrid(i, k) :: h[i][k] == if i == r && k == j then v else g[i][k]
  {
    g[r := g[r][j := v]]
  }

  /**
   * The board as `jouerCoup` leaves it once its loop has looked at the rows above row `i`: the piece
   * `m` was written into row 0 of column `j`, then moved down one row each time the row below was empty.
   */
  function Bubbled(g: Grid, j: int, m: char, i: int): (h: Grid)
    requires WellFormed(g) && 0 <= j < COLONNE && 1 <= i <= LIGNE
    ensures WellFormed(h)
    decreases i
  {
    if i == 1 then Set(g, 0, j, m)
    else
      var b := Bubbled(g, j, m, i - 1);
      if b[i - 1][j] == VIDE then Set(Set(b, i - 1, j, m), i - 2, j, VIDE) else b
  }

  /** The board after `jouerCoup` drops piece `m` into column `j`, whatever the board was. */
  function Jouer(g: Grid, j: int, m: char): (h: Grid)
    requires WellFormed(g) && 0 <= j < COLONNE
    ensures WellFormed(h)
  {
    Bubbled(g, j, m, LIGNE)
  }

  /** The board after `jouerCoup` in column `j`, whether it accepts the move or refuses it for a full column. */
  function JouerSiPossible(g: Grid, j: int, m: char): (h: Grid)
    requires WellFormed(g) && 0 <= j < COLONNE
    ensures WellFormed(h)
  {
    if g[0][j] == VIDE then Jouer(g, j, m) else g
  }

  /** The lowest empty row of a column whose top cell is empty, searching upwards from row `r`. */
  function LowestEmptyFrom(g: Grid, j: int, r: int): (l: int)
    requires WellFormed(g) && 0 <= j < COLONNE && 0 <= r < LIGNE && g[0][j] == VIDE
    ensures 0 <= l <= r && g[l][j] == VIDE
    ensures forall i | l < i <= r :: g[i][j] != VIDE
    decreases r
  {
    if g[r][j] == VIDE then r else LowestEmptyFrom(g, j, r - 1)
  }

  function LowestEmpty(g: Grid, j: int): (l: int)
    requires WellFormed(g) && 0 <= j < COLONNE && g[0][j] == VIDE
    ensures 0 <= l < LIGNE && g[l][j] == VIDE
    ensures forall i | l < i < LIGNE :: g[i][j] != VIDE
  {
    LowestEmptyFrom(g, j, LIGNE - 1)
  }

  lemma {:induction false} BubbledUnderGravity(g: Grid, j: int, m: char, i: int)
    requires WellFormed(g) && Gravity(g) && 0 <= j < COLONNE && g[0][j] == VIDE && m != VIDE
    requires 1 <= i <= LIGNE
    ensures Bubbled(g, j, m, i) == Set(g, if i - 1 < LowestEmpty(g, j) then i - 1 else LowestEmpty(g, j), j, m)
    decreases i
  {
    var l := LowestEmpty(g, j);
    if i > 1 {
      BubbledUnderGravity(g, j, m, i - 1);
      var b := Bubbled(g, j, m, i - 1);
      if i - 1 <= l {
        // the piece sits in row i - 2, and row i - 1 is still empty: it moves down one row
        assert g[i - 1][j] == VIDE;
        assert g[i - 2][j] == VIDE;
        var h := Set(Set(b, i - 1, j, m), i - 2, j, VIDE);
        assert b[i - 1][j] == VIDE;
        var want := Set(g, i - 1, j, m);
        assert forall r | 0 <= r < LIGNE :: h[r] == want[r];
      } else {
        assert b[i - 1][j] != VIDE;
      }
    }
  }

  /**
   * Under gravity, with the top cell of column `j` empty, dropping `m` puts it in the lowest empty
   * row of that column, changes no other cell (so no piece is overwritten) and keeps gravity.
   */
  lemma JouerUnderGravity(g: Grid, j: int, m: char)
    requires WellFormed(g) && Gravity(g) && 0 <= j < COLONNE && g[0][j] == VIDE && m != VIDE
    ensures Jouer(g, j, m) == Set(g, LowestEmpty(g, j), j, m)
    ensures forall i | LowestEmpty(g, j) < i < LIGNE :: g[i][j] != VIDE
    ensures forall i, k | InGrid(i, k) && g[i][k] != VIDE :: Jouer(g, j, m)[i][k] == g[i][k]
    ensures Gravity(Jouer(g, j, m))
  {
    BubbledUnderGravity(g, j, m, LIGNE);
  }

  /** A board whose column 0 holds a single `'X'`, floating in row 1 above empty cells. */
  function FloatingX(): (g: Grid)
    ensures WellFormed(g) && !Gravity(g)
  {
    var g := EmptyGrid()[1 := EmptyGrid()[1][0 := 'X']];
    assert g[1][0] != VIDE && g[2][0] == VIDE;
    g
  }

  /**
   * Off gravity the bubbling drop is no drop: an `'O'` dropped onto the floating `'X'` stays in row 0,
   * erases the `'X'`, and a second `'O'` lands at the bottom.
   */
  lemma FloatingPieceErased()
    ensures var h := Jouer(FloatingX(), 0, 'O');
      h[0][0] == 'O' && h[1][0] == VIDE && h[5][0] == 'O'
      && forall i | 0 <= i < LIGNE :: h[i][0] != 'X'
  {
    var g := FloatingX();
    var b1 := Bubbled(g, 0, 'O', 1);
    assert b1[1][0] == 'X' && b1[2][0] == VIDE;
    var b2 := Bubbled(g, 0, 'O', 2);
    assert b2 == b1;
    var b3 := Bubbled(g, 0, 'O', 3);
    assert b3[0][0] == 'O' && b3[1][0] == VIDE && b3[2][0] == 'O' && b3[3][0] == VIDE;
    var b4 := Bubbled(g, 0, 'O', 4);
    assert b4[0][0] == 'O' && b4[1][0] == VIDE && b4[2][0] == VIDE && b4[3][0] == 'O' && b4[4][0] == VIDE;
    var b5 := Bubbled(g, 0, 'O', 5);
    assert b5[0][0] == 'O' && b5[1][0] == VIDE && b5[3][0] == VIDE && b5[4][0] == 'O' && b5[5][0] == VIDE;
    assert b5[2][0] == VIDE;
  }

  // ----- the end-of-game test -----

  /** The four directions `testFin` looks in from a cell, in the order it tries them. */
  datatype Dir = Bas | Droite | BasDroite | BasGauche

  /** Row of the `t`-th cell from row `i` in direction `d`. */
  function LigneAt(i: int, d: Dir, t: int): int {
    match d
    case Droite => i
    case _ => i + t
  }

  /** Column of the `t`-th cell from column `j` in direction `d`. */
  function ColAt(j: int, d: Dir, t: int): int {
    match d
    case Bas => j
    case BasGauche => j - t
    case _ => j + t
  }

  /** The `t`-th cell from `(i, j)` in direction `d` exists and holds what `(i, j)` holds. */
  predicate Aligned(g: Grid, i: int, j: int, d: Dir, t: int)
    requires WellFormed(g) && InGrid(i, j)
  {
    InGrid(LigneAt(i, d, t), ColAt(j, d, t)) && g[LigneAt(i, d, t)][ColAt(j, d, t)] == g[i][j]
  }

  /** Four equal cells starting at `(i, j)` in direction `d`. */
  predicate Run(g: Grid, i: int, j: int, d: Dir)
    requires WellFormed(g) && InGrid(i, j)
  {
    forall t | 0 <= t < 4 :: Aligned(g, i, j, d, t)
  }

  /** An occupied cell that starts a run of four. */
  predicate Wins(g: Grid, i: int, j: int)
    requires WellFormed(g) && InGrid(i, j)
  {
    g[i][j] != VIDE && (Run(g, i, j, Bas) || Run(g, i, j, Droite) || Run(g, i, j, BasDroite) || Run(g, i, j, BasGauche))
  }

  predicate WinsAt(g: Grid, p: int)
    requires WellFormed(g) && 0 <= p < CASES
  {
    Wins(g, p / COLONNE, p % COLONNE)
  }

  /** The first cell at or after `p`, in row-major order, that starts a run of four. */
  function FirstWin(g: Grid, p: int): (r: Option<int>)
    requires WellFormed(g) && 0 <= p <= CASES
    ensures r.Some? ==> p <= r.value < CASES && WinsAt(g, r.value)
    ensures r.Some? ==> forall q | p <= q < r.value :: !WinsAt(g, q)
    ensures r.None? <==> forall q | p <= q < CASES :: !WinsAt(g, q)
    decreases CASES - p
  {
    if p == CASES then None
    else if WinsAt(g, p) then Some(p)
    else FirstWin(g, p + 1)
  }

  /** The outcome for the owner of a winning run: `'X'` is the computer, any other piece the human. */
  function Winner(c: char): (f: FinDePartie)
    ensures f == OrdiGagne <==> c == 'X'
    ensures f == OrdiGagne || f == HumainGagne
  {
    if c == 'X' then OrdiGagne else HumainGagne
  }

  /** What `testFin` returns: the owner of the first run found, else a draw when all cells are occupied. */
  function Fin(g: Grid): FinDePartie
    requires WellFormed(g)
  {
    match FirstWin(g, 0)
    case Some(p) => Winner(At(g, p))
    case None => if Occupied(g) == CASES then MatchNul else Non
  }

  lemma {:induction false} FirstWinFrom(g: Grid, q: int, p: int)
    requires WellFormed(g) && 0 <= q <= p < CASES && WinsAt(g, p)
    requires forall s | q <= s < p :: !WinsAt(g, s)
    ensures FirstWin(g, q) == Some(p)
    decreases p - q
  {
    if q < p {
      FirstWinFrom(g, q + 1, p);
    }
  }

  /**
   * `testFin` reports a win exactly when some occupied cell starts a run of four; the first such cell in
   * row-major order decides who won. Without a run it reports a draw exactly when the board is full.
   */
  lemma FinCharacterisation(g: Grid)
    requires WellFormed(g)
    ensures (Fin(g) == OrdiGagne || Fin(g) == HumainGagne) <==> exists i, j | InGrid(i, j) :: Wins(g, i, j)
    ensures (exists i, j | InGrid(i, j) :: Wins(g, i, j)) ==>
      exists p | 0 <= p < CASES :: WinsAt(g, p) && (forall q | 0 <= q < p :: !WinsAt(g, q)) && Fin(g) == Winner(At(g, p))
    ensures (forall i, j | InGrid(i, j) :: !Wins(g, i, j)) ==> (Fin(g) == MatchNul <==> IsFull(g))
    ensures (forall i, j | InGrid(i, j) :: !Wins(g, i, j)) ==> (Fin(g) == Non <==> !IsFull(g))
  {
    MovesEmptyIffFull(g);
    if exists i, j | InGrid(i, j) :: Wins(g, i, j) {
      var i, j :| InGrid(i, j) && Wins(g, i, j);
      AtCell(g, i, j);
      assert WinsAt(g, i * COLONNE + j);
    } else {
      forall q | 0 <= q < CASES ensures !WinsAt(g, q) {
        assert InGrid(q / COLONNE, q % COLONNE);
      }
    }
  }

  /** No cell before `(i, j)` in row-major order starts a run of four. */
  ghost predicate NoWinBefore(g: Grid, i: int, j: int)
    requires WellFormed(g)
  {
    forall r, c | InGrid(r, c) && (r < i || (r == i && c < j)) :: !Wins(g, r, c)
  }

  /** The scan moves past a cell that starts no run. */
  lemma NoWinNext(g: Grid, i: int, j: int)
    requires WellFormed(g) && InGrid(i, j) && NoWinBefore(g, i, j) && !Wins(g, i, j)
    ensures NoWinBefore(g, i, j + 1)
  {
  }

  /** The scan moves past the end of a row. */
  lemma NoWinNextRow(g: Grid, i: int)
    requires WellFormed(g) && NoWinBefore(g, i, COLONNE)
    ensures NoWinBefore(g, i + 1, 0)
  {
  }

  /** The first cell of the scan that starts a run of four decides the outcome. */
  lemma FinAtFirstWin(g: Grid, i: int, j: int)
    requires WellFormed(g) && InGrid(i, j) && Wins(g, i, j) && NoWinBefore(g, i, j)
    ensures Fin(g) == Winner(g[i][j])
  {
    AtCell(g, i, j);
    forall q | 0 <= q < i * COLONNE + j ensures !WinsAt(g, q) {
      assert InGrid(q / COLONNE, q % COLONNE);
    }
    FirstWinFrom(g, 0, i * COLONNE + j);
  }

  /** Without a run of four, the outcome is a draw exactly when every cell is occupied. */
  lemma FinWithoutWin(g: Grid)
    requires WellFormed(g) && NoWinBefore(g, LIGNE, 0)
    ensures Fin(g) == if Occupied(g) == CASES then MatchNul else Non
  {
    forall q | 0 <= q < CASES ensures !WinsAt(g, q) {
      assert InGrid(q / COLONNE, q % COLONNE);
    }
  }

  /**
   * Four equal pieces on a line, in any of the eight orientations `(dr, dc)`: horizontal, vertical
   * or diagonal, read either way.
   */
  predicate LineOfFour(g: Grid, i: int, j: int, dr: int, dc: int)
    requires WellFormed(g)
  {
    && InGrid(i, j) && InGrid(i + 3 * dr, j + 3 * dc)
    && g[i][j] != VIDE
    && g[i + dr][j + dc] == g[i][j] && g[i + 2 * dr][j + 2 * dc] == g[i][j] && g[i + 3 * dr][j + 3 * dc] == g[i][j]
  }

  /** The four directions of `testFin` cover every line of four: any such line makes it report a win. */
  lemma LineOfFourDetected(g: Grid, i: int, j: int, dr: int, dc: int)
    requires WellFormed(g) && -1 <= dr <= 1 && -1 <= dc <= 1 && (dr, dc) != (0, 0)
    requires LineOfFour(g, i, j, dr, dc)
    ensures Fin(g) == OrdiGagne || Fin(g) == HumainGagne
  {
    // the end of the line that comes first in the scan, and the direction that reads the line from it
    var (si, sj, d) :=
      if dr == 1 then (if dc == 0 then (i, j, Bas) else if dc == 1 then (i, j, BasDroite) else (i, j, BasGauche))
      else if dr == -1 then
        (if dc == 0 then (i - 3, j, Bas) else if dc == 1 then (i - 3, j + 3, BasGauche) else (i - 3, j - 3, BasDroite))
      else (if dc == 1 then (i, j, Droite) else (i, j - 3, Droite));
    assert InGrid(si, sj);
    assert forall t | 0 <= t < 4 :: Aligned(g, si, sj, d, t) by {
      forall t | 0 <= t < 4 ensures Aligned(g, si, sj, d, t) {
        assert t == 0 || t == 1 || t == 2 || t == 3;
      }
    }
    assert Wins(g, si, sj);
    FinCharacterisation(g);
  }
}
