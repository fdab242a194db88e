/**
 * The computer's turn, `ordijoue_mcts`: it builds a search tree rooted at a copy of the state, runs
 * the search passes, and plays the move of the root's child with the best win ratio. The selection,
 * expansion and simulation phases it calls are stubs: selection and expansion return the node they
 * are given and simulation reports an unfinished game.
 */
module Recherche {
  import opened Options
  import opened Coups
  import opened Grille
  import opened Etats
  import opened Noeuds

  /** The win ratios of the nodes `kids`, in order. */
  function Ratios(ns: seq<Noeud>, kids: seq<nat>): (sc: seq<Score>)
    requires forall t | 0 <= t < |kids| :: kids[t] < |ns|
    ensures |sc| == |kids|
  {
    seq(|kids|, t requires 0 <= t < |kids| => Ratio(ns[kids[t]]))
  }

  /**
   * The final choice of `ordijoue_mcts`: the move of the first child of node `r` whose ratio is
   * strictly greater than every ratio before it and no smaller than any after it; none exactly when
   * `r` has no children. A chosen move is always one `jouerCoup` can be given.
   */
  method MeilleurCoup(a: Arbre, r: nat) returns (best: Option<Coup>)
    requires a.Valid() && r < |a.noeuds|
    ensures best.None? <==> a.noeuds[r].enfants == []
    ensures var kids := a.noeuds[r].enfants;
      kids != [] ==> exists b | 0 <= b < |kids| :: IsFirstMax(Ratios(a.noeuds, kids), b) && best == a.noeuds[kids[b]].coup
    ensures best.Some? ==> 0 <= best.value.colonne < COLONNE
  {
    var kids := a.noeuds[r].enfants;
    ghost var sc := Ratios(a.noeuds, kids);
    assert NodeOK(a.noeuds, r) && ChildrenOK(a.noeuds, r);
    best := None;
    var val := NegInf;
    ghost var bi := -1;
    for t := 0 to |kids|
      invariant -1 <= bi < t
      invariant Scanned(sc, t, bi)
      invariant val == Meilleur(sc, bi)
      invariant best == if bi == -1 then None else a.noeuds[kids[bi]].coup
    {
      ScanStep(sc, t, bi);
      var enf := a.noeuds[kids[t]];
      var val2 := Ratio(enf);
      if Greater(val2, val) {
        val := val2;
        best := enf.coup;
        bi := t;
      }
    }
    ScanDone(sc, bi);
    assert kids != [] ==> sc[0] != NegInf;
    if bi != -1 {
      // a child is not the root, so it was reached by a playable move
      assert a.noeuds[kids[bi]].parent == Some(r);
      assert NodeOK(a.noeuds, kids[bi]) && ParentOK(a.noeuds, kids[bi]);
    }
  }

  /**
   * The search loop of `ordijoue_mcts` on a tree rooted at `e`, with the clock replaced by a number of
   * passes, at least one as the `do`-`while` makes it. With the stubbed phases every pass propagates
   * from the root to the root itself, so the root stays the whole tree and counts each pass as a
   * simulation and a win.
   */
  method Chercher(e: Etat, passes: nat) returns (racine: Arbre)
    requires e.Valid() && passes >= 1
    ensures fresh(racine) && racine.Valid()
    ensures racine.noeuds == [Noeud(HUMAN_PLAYER, None, e, None, [], passes, passes)]
  {
    racine := new Arbre.Racine(e);
    for t := 0 to passes
      invariant fresh(racine) && racine.Valid()
      invariant racine.noeuds == [Noeud(HUMAN_PLAYER, None, e, None, [], t, t)]
    {
      var toExpand := 0;         // the stubbed selection returns the root
      var expanded := toExpand;  // the stubbed expansion returns its argument
      var status := Non;         // the stubbed simulation
      PropagationAtLoneRoot(racine.noeuds, HUMAN_PLAYER);
      racine.PropagationScore(expanded, status);
    }
  }

  /**
   * `ordijoue_mcts`: searches from a copy of the state, then plays the chosen move. The root never gets
   * a child, so no move is chosen and playing none leaves the state as it was; the copy at the root is
   * the state as it was on entry.
   */
  method OrdijoueMcts(etat: Etat, passes: nat) returns (racine: Arbre, best: Option<Coup>)
    requires etat.Valid() && passes >= 1
    modifies etat, etat.plateau
    ensures fresh(racine) && racine.Valid() && best == None
    ensures racine.noeuds == [Noeud(HUMAN_PLAYER, None, racine.noeuds[0].etat, None, [], passes, passes)]
    ensures fresh(racine.noeuds[0].etat) && racine.noeuds[0].etat.Valid()
    ensures racine.noeuds[0].etat.Cells() == old(etat.Cells()) && racine.noeuds[0].etat.joueur == old(etat.joueur)
    ensures etat.joueur == old(etat.joueur) && etat.Cells() == old(etat.Cells())
  {
    var coups := etat.CoupsPossibles();
    var e := etat.CopieEtat();
    racine := Chercher(e, passes);
    best := MeilleurCoup(racine, 0);
    var _ := etat.JouerCoup(best);
  }
}
