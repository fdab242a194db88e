/**
 * The game state `Etat`: whose turn it is and the board, a `LIGNE` x `COLONNE` array of characters
 * updated in place. `Cells()` is the board as a value; the operations are specified by the
 * functions of `Grille` applied to it.
 */
module Etats {
  import opened Options
  import opened Coups
  import opened Grille

  /** A new board with every cell empty, as both public constructors build it. */
  method PlateauVide() returns (tab: array2<char>)
    ensures fresh(tab)
    ensures tab.Length0 == LIGNE && tab.Length1 == COLONNE
    ensures forall i, j | InGrid(i, j) :: tab[i, j] == VIDE
  {
    tab := new char[LIGNE, COLONNE];
    for i := 0 to LIGNE
      invariant forall r, c | 0 <= r < i && 0 <= c < COLONNE :: tab[r, c] == VIDE
    {
      for j := 0 to COLONNE
        invariant forall r, c | 0 <= r < i && 0 <= c < COLONNE :: tab[r, c] == VIDE
        invariant forall c | 0 <= c < j :: tab[i, c] == VIDE
      {
        tab[i, j] := VIDE;
      }
    }
  }

  class Etat {
    /** Whose turn it is: `HUMAN_PLAYER` or `COMPUTER_PLAYER`. */
    var joueur: int
    /** The board, row 0 on top; the reference never changes, its cells do. */
    const plateau: array2<char>

    ghost predicate Valid() {
      plateau.Length0 == LIGNE && plateau.Length1 == COLONNE
    }

    /** The board as a value. */
    ghost function Cells(): (g: Grid)
      requires Valid()
      reads plateau
      ensures WellFormed(g)
      ensures forall i, j | InGrid(i, j) :: g[i][j] == plateau[i, j]
    {
      seq(LIGNE, (i: int) reads plateau =>
        seq(COLONNE, (j: int) reads plateau => if InGrid(i, j) then plateau[i, j] else VIDE))
    }

    /** Two boards with the same cells are the same value. */
    lemma CellsAre(h: Grid)
      requires Valid() && WellFormed(h)
      requires forall i, j | InGrid(i, j) :: plateau[i, j] == h[i][j]
      ensures Cells() == h
    {
      var g := Cells();
      forall i | 0 <= i < LIGNE ensures g[i] == h[i] {
        assert forall j | 0 <= j < COLONNE :: g[i][j] == h[i][j];
      }
    }

    /** The initial state: an empty board, and the computer moves first. */
    constructor ()
      ensures Valid() && fresh(plateau)
      ensures joueur == COMPUTER_PLAYER
      ensures Cells() == EmptyGrid()
    {
      var tab := PlateauVide();
      joueur := COMPUTER_PLAYER;
      plateau := tab;
      new;
      CellsAre(EmptyGrid());
    }

    /** An empty board on which the given player moves first. */
    constructor WithPlayer(joueur: int)
      ensures Valid() && fresh(plateau)
      ensures this.joueur == joueur
      ensures Cells() == EmptyGrid()
    {
      var tab := PlateauVide();
      this.joueur := joueur;
      plateau := tab;
      new;
      CellsAre(EmptyGrid());
    }

    /** The private constructor: takes the given board itself, without copying it. */
    constructor FromPlateau(j: int, tab: array2<char>)
      requires tab.Length0 == LIGNE && tab.Length1 == COLONNE
      ensures Valid()
      ensures joueur == j && plateau == tab
    {
      joueur := j;
      plateau := tab;
    }

    /**
     * A deep copy: same cells and same player, on a board of its own, so that changing the copy
     * cannot change this state.
     */
    method CopieEtat() returns (e: Etat)
      requires Valid()
      ensures fresh(e) && fresh(e.plateau) && e.Valid()
      ensures e.joueur == joueur && e.Cells() == Cells()
    {
      var tab := new char[LIGNE, COLONNE];
      for i := 0 to LIGNE
        invariant forall r, c | 0 <= r < i && 0 <= c < COLONNE :: tab[r, c] == plateau[r, c]
      {
        // one row, as `System.arraycopy` copies it
        for j := 0 to COLONNE
          invariant forall r, c | 0 <= r < i && 0 <= c < COLONNE :: tab[r, c] == plateau[r, c]
          invariant forall c | 0 <= c < j :: tab[i, c] == plateau[i, c]
        {
          tab[i, j] := plateau[i, j];
        }
      }
      var jour := joueur;
      e := new Etat.FromPlateau(jour, tab);
      e.CellsAre(Cells());
    }

    /** The list of moves: one `Coup(j)` for each empty cell `(i, j)`, in row-major order. */
    method CoupsPossibles() returns (listCoup: seq<Coup>)
      requires Valid()
      ensures listCoup == Grille.CoupsPossibles(Cells())
    {
      ghost var g := Cells();
      listCoup := [];
      for i := 0 to LIGNE
        invariant listCoup == MovesRows(g, i)
      {
        for j := 0 to COLONNE
          invariant listCoup == MovesRows(g, i) + RowMoves(g[i], j)
        {
          if plateau[i, j] == VIDE {
            listCoup := listCoup + [Coup(j)];
          }
        }
      }
    }

    method ChangerJoueur()
      modifies this
      ensures joueur == 1 - old(joueur)
    {
      joueur := 1 - joueur;
    }

    /**
     * Drops the current player's piece into the move's column: refused, with nothing changed, for no
     * move or a full column; otherwise the piece is written into row 0 and moved down while the cell
     * below is empty, and the turn passes to the other player.
     */
    method JouerCoup(coup: Option<Coup>) returns (ok: bool)
      requires Valid()
      requires coup.Some? ==> 0 <= coup.value.colonne < COLONNE
      modifies this, plateau
      ensures ok == (coup.Some? && old(Cells())[0][coup.value.colonne] == VIDE)
      ensures Cells() == if ok then Jouer(old(Cells()), coup.value.colonne, Mark(old(joueur))) else old(Cells())
      ensures joueur == if ok then 1 - old(joueur) else old(joueur)
      ensures ok && old(Gravity(Cells())) ==>
        var col := coup.value.colonne;
        && Cells() == Set(old(Cells()), LowestEmpty(old(Cells()), col), col, Mark(old(joueur)))
        && Gravity(Cells())
    {
      if coup.None? {
        return false;
      }
      var col := coup.value.colonne;
      if plateau[0, col] != VIDE {
        return false;
      }
      ghost var g0 := Cells();
      var m := Mark(joueur);
      plateau[0, col] := m;
      for i := 1 to LIGNE
        invariant joueur == old(joueur)
        invariant forall r, c | InGrid(r, c) :: plateau[r, c] == Bubbled(g0, col, m, i)[r][c]
      {
        if plateau[i, col] == VIDE {
          plateau[i, col] := m;
          plateau[i - 1, col] := VIDE;
        }
      }
      CellsAre(Jouer(g0, col, m));
      if Gravity(g0) {
        JouerUnderGravity(g0, col, m);
      }
      ChangerJoueur();
      ok := true;
    }

    /**
     * How many equal cells, at most four, start at the occupied cell `(i, j)` in direction `d`: the
     * count stops at the first cell that is off the board or differs, and is four exactly when a run of
     * four starts there.
     */
    method Alignement(i: int, j: int, d: Dir) returns (k: int)
      requires Valid() && InGrid(i, j)
      ensures 0 <= k <= 4
      ensures forall t | 0 <= t < k :: Aligned(Cells(), i, j, d, t)
      ensures k == 4 <==> Run(Cells(), i, j, d)
      ensures k < 4 ==> !Aligned(Cells(), i, j, d, k)
    {
      ghost var g := Cells();
      k := 0;
      while k < 4 && InGrid(LigneAt(i, d, k), ColAt(j, d, k)) && plateau[LigneAt(i, d, k), ColAt(j, d, k)] == plateau[i, j]
        invariant 0 <= k <= 4
        invariant forall t | 0 <= t < k :: Aligned(g, i, j, d, t)
      {
        k := k + 1;
      }
      if k < 4 {
        assert !Aligned(g, i, j, d, k);
      }
    }

    /**
     * Whether a run of four starts at the occupied cell `(i, j)`, trying down, right, down-right and
     * down-left in turn.
     */
    method RunFrom(i: int, j: int) returns (w: bool)
      requires Valid() && InGrid(i, j) && plateau[i, j] != VIDE
      ensures w == Wins(Cells(), i, j)
    {
      var k := Alignement(i, j, Bas);
      if k == 4 {
        return true;
      }
      k := Alignement(i, j, Droite);
      if k == 4 {
        return true;
      }
      k := Alignement(i, j, BasDroite);
      if k == 4 {
        return true;
      }
      k := Alignement(i, j, BasGauche);
      return k == 4;
    }

    /**
     * The end-of-game test: scans the cells in row-major order, counting the occupied ones and
     * reporting the owner of the first cell that starts a run of four; without a run, a draw when every
     * cell was counted and not finished otherwise.
     */
    method TestFin() returns (r: FinDePartie)
      requires Valid()
      ensures r == Fin(Cells())
    {
      ghost var g := Cells();
      var n := 0;
      for i := 0 to LIGNE
        invariant n == OccupiedRows(g, i)
        invariant NoWinBefore(g, i, 0)
      {
        for j := 0 to COLONNE
          invariant n == OccupiedRows(g, i) + RowOccupied(g[i], j)
          invariant NoWinBefore(g, i, j)
        {
          if plateau[i, j] != VIDE {
            n := n + 1;
            var gagne := RunFrom(i, j);
            if gagne {
              FinAtFirstWin(g, i, j);
              return Winner(plateau[i, j]);
            }
          }
          NoWinNext(g, i, j);
        }
        NoWinNextRow(g, i);
      }
      FinWithoutWin(g);
      if n == COLONNE * LIGNE {
        return MatchNul;
      }
      return Non;
    }
  }
}
