/**
 * The Monte-Carlo search tree of `Noeud`. The nodes live in one sequence, the arena, and refer to
 * their parent and children by index; the root is node 0 and every other node comes after its
 * parent, which is what makes the walk up to the root terminate.
 */
module Noeuds {
  import opened Options
  import opened Coups
  import opened Grille
  import opened Etats

  /**
   * One node: the player who moved to reach it, that move (none at the root of a search), the game
   * state after it, the parent, the children, and the MCTS counters of wins and simulations.
   */
  datatype Noeud = Noeud(
    joueur: int,
    coup: Option<Coup>,
    etat: Etat,
    parent: Option<nat>,
    enfants: seq<nat>,
    nbVictoires: int,
    nbSimus: int)

  /** Parents come before their children, and every child index names a node. */
  predicate Linked(ns: seq<Noeud>) {
    && (forall k | 0 <= k < |ns| :: ns[k].parent.Some? ==> ns[k].parent.value < k)
    && (forall k, t | 0 <= k < |ns| && 0 <= t < |ns[k].enfants| :: ns[k].enfants[t] < |ns|)
  }

  /** The index of the parent of a node that has one. */
  function Pere(ns: seq<Noeud>, k: int): (p: nat)
    requires Linked(ns) && 0 <= k < |ns| && ns[k].parent.Some?
    ensures p < k
  {
    ns[k].parent.value
  }

  /**
   * What a node owes its parent: it comes after it, is reached by the other player, has been simulated
   * no more often, and was reached by a playable move.
   */
  ghost predicate ParentOK(ns: seq<Noeud>, k: int)
    requires 0 <= k < |ns|
  {
    && ns[k].parent.Some?
    && ns[k].parent.value < k
    && ns[k].joueur == 1 - ns[ns[k].parent.value].joueur
    && ns[k].nbSimus <= ns[ns[k].parent.value].nbSimus
    && ns[k].coup.Some? && 0 <= ns[k].coup.value.colonne < COLONNE
  }

  /** Children are nodes of the tree that point back to their parent. */
  ghost predicate ChildrenOK(ns: seq<Noeud>, k: int)
    requires 0 <= k < |ns|
  {
    forall t | 0 <= t < |ns[k].enfants| :: ns[k].enfants[t] < |ns| && ns[ns[k].enfants[t]].parent == Some(k)
  }

  /**
   * The invariant at one node: it belongs to one of the two players, has no more wins than
   * simulations, and agrees with its parent (unless it is the root,
   * node 0) and with its children.
   */
  ghost predicate NodeOK(ns: seq<Noeud>, k: int)
    requires 0 <= k < |ns|
  {
    && (ns[k].joueur == 0 || ns[k].joueur == 1)
    && 0 <= ns[k].nbVictoires <= ns[k].nbSimus
    && ChildrenOK(ns, k)
    && (if k == 0 then ns[k].parent.None? else ParentOK(ns, k))
  }

  /**
   * The invariant of the tree: it is linked, every state is a board of the right size, node 0 is the
   * only root, and every node keeps the invariant.
   */
  ghost predicate WellFormedTree(ns: seq<Noeud>) {
    && |ns| > 0
    && Linked(ns)
    && (forall k | 0 <= k < |ns| :: ns[k].etat.Valid())
    && (forall k | 0 <= k < |ns| :: NodeOK(ns, k))
  }

  /**
   * Appending a child of `n.parent` that has no children and no simulations yet, and is reached by the
   * other player with a playable move, keeps the tree well formed.
   */
  lemma AppendKeepsTree(ns: seq<Noeud>, n: Noeud)
    requires WellFormedTree(ns)
    requires n.parent.Some? && n.parent.value < |ns| && n.joueur == 1 - ns[n.parent.value].joueur
    requires n.enfants == [] && n.nbVictoires == 0 && n.nbSimus == 0
    requires n.coup.Some? && 0 <= n.coup.value.colonne < COLONNE && n.etat.Valid()
    ensures WellFormedTree(ns + [n])
  {
    var r := ns + [n];
    forall k | 0 <= k < |r| ensures NodeOK(r, k) {
      if k < |ns| {
        assert NodeOK(ns, k) && r[k] == ns[k];
        assert ChildrenOK(r, k) by {
          forall t | 0 <= t < |r[k].enfants| ensures r[r[k].enfants[t]] == ns[ns[k].enfants[t]] {
            assert ChildrenOK(ns, k);
          }
        }
      } else {
        assert NodeOK(ns, n.parent.value);
      }
    }
  }

  /** Listing node `k` among the children of its parent `p` keeps the tree well formed. */
  lemma AddChildKeepsTree(ns: seq<Noeud>, p: int, k: int)
    requires WellFormedTree(ns) && 0 <= p < |ns| && 0 <= k < |ns| && ns[k].parent == Some(p)
    ensures WellFormedTree(ns[p := ns[p].(enfants := ns[p].enfants + [k])])
  {
    var r := ns[p := ns[p].(enfants := ns[p].enfants + [k])];
    forall q | 0 <= q < |r| ensures NodeOK(r, q) {
      assert NodeOK(ns, q);
      assert ChildrenOK(r, q) by {
        forall t | 0 <= t < |r[q].enfants| ensures r[q].enfants[t] < |r| && r[r[q].enfants[t]].parent == Some(q) {
          assert ChildrenOK(ns, q);
          if q == p && t == |ns[p].enfants| {
            assert r[q].enfants[t] == k;
          } else {
            assert r[q].enfants[t] == ns[q].enfants[t];
          }
        }
      }
      if q != 0 {
        assert ParentOK(ns, q);
      }
    }
  }

  // ----- the path to the root -----

  /** The nodes `propagationScore` visits from node `k`: `k`, its parent, and so on up to the root. */
  function Ancestors(ns: seq<Noeud>, k: int): (path: seq<nat>)
    requires Linked(ns) && 0 <= k < |ns|
    ensures |path| > 0 && path[0] == k
    ensures forall t | 0 <= t < |path| :: path[t] <= k
    decreases k
  {
    match ns[k].parent
    case None => [k]
    case Some(p) => [k] + Ancestors(ns, p)
  }

  /**
   * The path is a chain of parent links that ends at a node without a parent, and it never visits a
   * node twice: it strictly descends through the indices.
   */
  lemma {:induction false} AncestorsChain(ns: seq<Noeud>, k: int)
    requires Linked(ns) && 0 <= k < |ns|
    ensures var path := Ancestors(ns, k);
      && (forall t | 0 <= t < |path| - 1 :: ns[path[t]].parent == Some(path[t + 1]))
      && ns[path[|path| - 1]].parent.None?
      && (forall s, t | 0 <= s < t < |path| :: path[t] < path[s])
    decreases k
  {
    if ns[k].parent.Some? {
      AncestorsChain(ns, ns[k].parent.value);
    }
  }

  /** In a well-formed tree the path from any node ends at the root, node 0. */
  lemma AncestorsReachRoot(ns: seq<Noeud>, k: int)
    requires WellFormedTree(ns) && 0 <= k < |ns|
    ensures Ancestors(ns, k)[|Ancestors(ns, k)| - 1] == 0
  {
    AncestorsChain(ns, k);
    var path := Ancestors(ns, k);
    assert NodeOK(ns, path[|path| - 1]);
  }

  /** The parent of a node on the path is on the path too. */
  lemma {:induction false} AncestorsClosed(ns: seq<Noeud>, k: int, a: int)
    requires Linked(ns) && 0 <= k < |ns| && a in Ancestors(ns, k) && ns[a].parent.Some?
    ensures ns[a].parent.value in Ancestors(ns, k)
    decreases k
  {
    if a != k {
      AncestorsClosed(ns, ns[k].parent.value, a);
    }
  }

  /** Players alternate along the path: the `t`-th node from `k` is `k`'s player exactly when `t` is even. */
  lemma {:induction false} AncestorsAlternate(ns: seq<Noeud>, k: int, t: int)
    requires WellFormedTree(ns) && 0 <= k < |ns| && 0 <= t < |Ancestors(ns, k)|
    ensures ns[Ancestors(ns, k)[t]].joueur == ns[k].joueur <==> t % 2 == 0
    decreases k
  {
    if t > 0 {
      assert NodeOK(ns, k) && ParentOK(ns, k);
      var p := ns[k].parent.value;
      assert NodeOK(ns, p);
      var a := Ancestors(ns, k)[t];
      assert a == Ancestors(ns, p)[t - 1];
      assert NodeOK(ns, a);
      AncestorsAlternate(ns, p, t - 1);
    }
  }

  // ----- counters and scores -----

  /** A node with no children. */
  function EstFeuille(n: Noeud): bool {
    |n.enfants| == 0
  }

  /** A `double` score as far as comparisons go: minus infinity, a finite value, plus infinity. */
  datatype Score = NegInf | Finite(v: real) | PosInf

  /** Java's `>` on the scores `selection` and the final choice compare. */
  function Greater(a: Score, b: Score): bool {
    match a
    case NegInf => false
    case Finite(x) => b.NegInf? || (b.Finite? && x > b.v)
    case PosInf => !b.PosInf?
  }

  /** `>` on scores is a strict total order. */
  lemma GreaterIsStrictOrder(a: Score, b: Score, c: Score)
    ensures !Greater(a, a)
    ensures Greater(a, b) ==> !Greater(b, a)
    ensures Greater(a, b) && Greater(b, c) ==> Greater(a, c)
    ensures a != b ==> Greater(a, b) || Greater(b, a)
  {
  }

  /**
   * `sc[b]` is the score a scan with a strict `>` from minus infinity picks: the maximum, beating
   * every score before it, and above minus infinity.
   */
  predicate IsFirstMax(sc: seq<Score>, b: int) {
    && 0 <= b < |sc|
    && sc[b] != NegInf
    && (forall t | 0 <= t < |sc| :: !Greater(sc[t], sc[b]))
    && (forall t | 0 <= t < b :: Greater(sc[b], sc[t]))
  }

  /**
   * Where a scan with a strict `>` from minus infinity stands after the first `t` scores: no score above
   * minus infinity seen yet (`b == -1`), or the first maximum `b` of the scores seen.
   */
  predicate Scanned(sc: seq<Score>, t: int, b: int)
    requires 0 <= t <= |sc|
  {
    if b == -1 then forall x | 0 <= x < t :: sc[x] == NegInf
    else IsFirstMax(sc[..t], b)
  }

  /** The best score a scan standing at `b` holds. */
  function Meilleur(sc: seq<Score>, b: int): Score
    requires -1 <= b < |sc|
  {
    if b == -1 then NegInf else sc[b]
  }

  /** One step of the scan: the next score replaces the best one exactly when it is greater. */
  lemma {:induction false} ScanStep(sc: seq<Score>, t: int, b: int)
    requires 0 <= t < |sc| && -1 <= b < t && Scanned(sc, t, b)
    ensures Scanned(sc, t + 1, if Greater(sc[t], Meilleur(sc, b)) then t else b)
  {
    var pre, next := sc[..t], sc[..t + 1];
    assert forall x | 0 <= x < t :: next[x] == pre[x] == sc[x];
    if Greater(sc[t], Meilleur(sc, b)) {
      forall x | 0 <= x < t ensures Greater(sc[t], sc[x]) {
        if b != -1 {
          GreaterIsStrictOrder(sc[t], sc[b], sc[x]);
          GreaterIsStrictOrder(sc[x], sc[b], sc[t]);
        }
      }
    } else if b != -1 {
      GreaterIsStrictOrder(sc[t], sc[b], sc[b]);
    }
  }

  /** A finished scan has found the first maximum, or only minus infinity. */
  lemma ScanDone(sc: seq<Score>, b: int)
    requires -1 <= b < |sc| && Scanned(sc, |sc|, b)
    ensures b == -1 <==> forall x | 0 <= x < |sc| :: sc[x] == NegInf
    ensures b != -1 ==> IsFirstMax(sc, b)
  {
    assert sc[..|sc|] == sc;
  }

  /** There is at most one first maximum. */
  lemma FirstMaxUnique(sc: seq<Score>, b: int, c: int)
    requires IsFirstMax(sc, b) && IsFirstMax(sc, c)
    ensures b == c
  {
  }

  /** The share of simulations won, plus infinity for a node never simulated. */
  function Ratio(n: Noeud): Score {
    if n.nbSimus != 0 then Finite(n.nbVictoires as real / n.nbSimus as real) else PosInf
  }

  /** With the counter invariant, a ratio is plus infinity or lies between 0 and 1; a win ratio is 1. */
  lemma RatioBounds(n: Noeud)
    requires 0 <= n.nbVictoires <= n.nbSimus
    ensures Ratio(n).PosInf? <==> n.nbSimus == 0
    ensures Ratio(n).Finite? ==> 0.0 <= Ratio(n).v <= 1.0
    ensures Ratio(n).Finite? ==> (Ratio(n).v == 1.0 <==> n.nbVictoires == n.nbSimus)
  {
    if n.nbSimus != 0 {
      var w, s := n.nbVictoires as real, n.nbSimus as real;
      assert w / s <= 1.0 by {
        assert w <= s;
      }
      assert w / s == 1.0 ==> w == s by {
        assert w == (w / s) * s;
      }
    }
  }

  /**
   * `calculerUCB1`: plus infinity for a node without simulations or without a parent; otherwise the
   * win ratio plus the exploration term, negated for a node reached by the human's move. The
   * exploration term `c * sqrt(ln N(parent) / N)` is floating-point and is left as the parameter
   * `explore`, applied to the simulation counts of the parent and of the node.
   */
  function UCB1(ns: seq<Noeud>, k: int, explore: (int, int) -> real): (s: Score)
    requires Linked(ns) && 0 <= k < |ns|
  {
    if ns[k].nbSimus != 0 && ns[k].parent.Some? then
      var b := ns[k].nbVictoires as real / ns[k].nbSimus as real + explore(ns[Pere(ns, k)].nbSimus, ns[k].nbSimus);
      Finite(if ns[k].joueur == COMPUTER_PLAYER then b else -b)
    else PosInf
  }

  /**
   * The cases of `calculerUCB1`: infinite exactly without simulations or without a parent; otherwise its
   * magnitude is ratio plus exploration, and, with a non-negative exploration term, its sign is that of
   * the computer for the computer's nodes and the opposite for the others.
   */
  lemma UCB1Cases(ns: seq<Noeud>, k: int, explore: (int, int) -> real)
    requires Linked(ns) && 0 <= k < |ns| && 0 <= ns[k].nbVictoires <= ns[k].nbSimus
    ensures UCB1(ns, k, explore).PosInf? <==> ns[k].nbSimus == 0 || ns[k].parent.None?
    ensures UCB1(ns, k, explore).Finite? ==>
      var e := explore(ns[Pere(ns, k)].nbSimus, ns[k].nbSimus);
      && Ratio(ns[k]).Finite?
      && (ns[k].joueur == COMPUTER_PLAYER ==> UCB1(ns, k, explore).v == Ratio(ns[k]).v + e)
      && (ns[k].joueur != COMPUTER_PLAYER ==> UCB1(ns, k, explore).v == -(Ratio(ns[k]).v + e))
      && (e >= 0.0 ==> (ns[k].joueur == COMPUTER_PLAYER ==> UCB1(ns, k, explore).v >= 0.0))
      && (e >= 0.0 ==> (ns[k].joueur != COMPUTER_PLAYER ==> UCB1(ns, k, explore).v <= 0.0))
  {
    if UCB1(ns, k, explore).Finite? {
      var w, s := ns[k].nbVictoires as real, ns[k].nbSimus as real;
      assert s > 0.0;
      assert w / s >= 0.0;
    }
  }

  // ----- selection -----

  /** The first child in `kids` whose move equals `c`, as `enfants.stream().filter(...).findFirst()` finds it. */
  function PremierEnfant(ns: seq<Noeud>, kids: seq<nat>, c: Coup): (r: Option<nat>)
    requires forall t | 0 <= t < |kids| :: kids[t] < |ns|
    ensures r.None? <==> forall t | 0 <= t < |kids| :: !JoueLeCoup(ns[kids[t]], c)
    ensures r.Some? ==> r.value in kids && JoueLeCoup(ns[r.value], c)
  {
    if kids == [] then None
    else if JoueLeCoup(ns[kids[0]], c) then Some(kids[0])
    else
      var r := PremierEnfant(ns, kids[1..], c);
      assert forall t | 1 <= t < |kids| :: kids[1..][t - 1] == kids[t];
      r
  }

  /** The child found is the first one in the list that plays `c`. */
  lemma {:induction false} PremierEnfantIsFirst(ns: seq<Noeud>, kids: seq<nat>, c: Coup)
    requires forall t | 0 <= t < |kids| :: kids[t] < |ns|
    requires PremierEnfant(ns, kids, c).Some?
    ensures exists t | 0 <= t < |kids| :: (kids[t] == PremierEnfant(ns, kids, c).value
      && forall s | 0 <= s < t :: !JoueLeCoup(ns[kids[s]], c))
  {
    if !JoueLeCoup(ns[kids[0]], c) {
      PremierEnfantIsFirst(ns, kids[1..], c);
      var t :| 0 <= t < |kids[1..]| && kids[1..][t] == PremierEnfant(ns, kids[1..], c).value
        && forall s | 0 <= s < t :: !JoueLeCoup(ns[kids[1..][s]], c);
      assert kids[t + 1] == PremierEnfant(ns, kids, c).value;
      forall s | 0 <= s < t + 1 ensures !JoueLeCoup(ns[kids[s]], c) {
        if s > 0 {
          assert kids[s] == kids[1..][s - 1];
        }
      }
    } else {
      assert kids[0] == PremierEnfant(ns, kids, c).value;
    }
  }

  /** The node was reached by a move equal to `c`, by `Coup.equals`. */
  predicate JoueLeCoup(n: Noeud, c: Coup) {
    n.coup.Some? && Equals(c, UnCoup(n.coup.value))
  }

  /** No child of node `i` plays `c` yet. */
  predicate Inexplore(ns: seq<Noeud>, i: int, c: Coup)
    requires Linked(ns) && 0 <= i < |ns|
  {
    PremierEnfant(ns, ns[i].enfants, c).None?
  }

  /**
   * The score `selection` gives the move `c` once it has been tried: that of the first child playing it,
   * or minus infinity, which nothing beats under `>`, when that child is a leaf and is skipped.
   */
  function ScoreDuCoup(ns: seq<Noeud>, i: int, c: Coup, explore: (int, int) -> real): Score
    requires Linked(ns) && 0 <= i < |ns|
  {
    match PremierEnfant(ns, ns[i].enfants, c)
    case None => NegInf
    case Some(k) => if EstFeuille(ns[k]) then NegInf else UCB1(ns, k, explore)
  }

  /** The scores of the moves `ms`, in order. */
  function Scores(ns: seq<Noeud>, i: int, ms: seq<Coup>, explore: (int, int) -> real): (sc: seq<Score>)
    requires Linked(ns) && 0 <= i < |ns|
    ensures |sc| == |ms|
  {
    if ms == [] then [] else [ScoreDuCoup(ns, i, ms[0], explore)] + Scores(ns, i, ms[1..], explore)
  }

  lemma {:induction false} ScoresAt(ns: seq<Noeud>, i: int, ms: seq<Coup>, explore: (int, int) -> real, t: int)
    requires Linked(ns) && 0 <= i < |ns| && 0 <= t < |ms|
    ensures Scores(ns, i, ms, explore)[t] == ScoreDuCoup(ns, i, ms[t], explore)
  {
    if t > 0 {
      ScoresAt(ns, i, ms[1..], explore, t - 1);
    }
  }

  /** Every move before index `u` already has a child. */
  predicate TousExplores(ns: seq<Noeud>, i: int, ms: seq<Coup>, u: int)
    requires Linked(ns) && 0 <= i < |ns| && 0 <= u <= |ms|
  {
    forall t | 0 <= t < u :: !Inexplore(ns, i, ms[t])
  }

  lemma TousExploresStep(ns: seq<Noeud>, i: int, ms: seq<Coup>, u: int)
    requires Linked(ns) && 0 <= i < |ns| && 0 <= u < |ms|
    requires TousExplores(ns, i, ms, u) && !Inexplore(ns, i, ms[u])
    ensures TousExplores(ns, i, ms, u + 1)
  {
  }

  // ----- back-propagation -----

  /** One visit of `propagationScore` to node `n` for a simulation started at a node of player `j`. */
  function Incremente(n: Noeud, j: int): Noeud {
    n.(nbSimus := n.nbSimus + 1, nbVictoires := if n.joueur == j then n.nbVictoires + 1 else n.nbVictoires)
  }

  /** The nodes whose index is on `path` visited once, the others untouched. */
  function Propage(ns: seq<Noeud>, path: seq<nat>, j: int): (r: seq<Noeud>)
    ensures |r| == |ns|
  {
    seq(|ns|, k requires 0 <= k < |ns| => if k in path then Incremente(ns[k], j) else ns[k])
  }

  /** One more visited node, not visited before. */
  lemma PropageStep(ns: seq<Noeud>, done: seq<nat>, j: int, p: int)
    requires 0 <= p < |ns| && p !in done
    ensures Propage(ns, done + [p], j) == Propage(ns, done, j)[p := Incremente(ns[p], j)]
  {
    var a, b := Propage(ns, done + [p], j), Propage(ns, done, j)[p := Incremente(ns[p], j)];
    forall k | 0 <= k < |ns| ensures a[k] == b[k] {
      assert k in done + [p] <==> k in done || k == p;
    }
  }

  /** Past its first node, the walk from a node that has a parent is the walk from that parent. */
  lemma AncestorsTail(ns: seq<Noeud>, k: int)
    requires Linked(ns) && 0 <= k < |ns| && ns[k].parent.Some?
    ensures Ancestors(ns, k)[1..] == Ancestors(ns, ns[k].parent.value)
  {
    var up := Ancestors(ns, ns[k].parent.value);
    assert Ancestors(ns, k) == [k] + up;
  }

  /** Moving the first node of `up` to the end of `done` keeps their concatenation. */
  lemma ShiftFirst(done: seq<nat>, up: seq<nat>)
    requires |up| > 0
    ensures done + up == (done + [up[0]]) + up[1..]
  {
    assert up == [up[0]] + up[1..];
  }

  /** The walk from `start` has visited `done` and stands at `ptr`; the next node it visits is `ptr`'s parent. */
  lemma AncestorsStep(ns: seq<Noeud>, start: int, done: seq<nat>, ptr: int)
    requires Linked(ns) && 0 <= start < |ns| && 0 <= ptr < |ns| && ns[ptr].parent.Some?
    requires Ancestors(ns, start) == done + Ancestors(ns, ptr)[1..]
    ensures var p := ns[ptr].parent.value;
      Ancestors(ns, start) == (done + [p]) + Ancestors(ns, p)[1..]
  {
    AncestorsTail(ns, ptr);
    ShiftFirst(done, Ancestors(ns, ns[ptr].parent.value));
  }

  /**
   * After a propagation from `start`, exactly the nodes on the path to the root have one more
   * simulation, the win counter goes up exactly at those on the path whose player is that of `start`,
   * and nothing else changes: counters never decrease.
   */
  lemma PropagationCounters(ns: seq<Noeud>, start: int, k: int)
    requires Linked(ns) && 0 <= start < |ns| && 0 <= k < |ns|
    ensures var r := Propage(ns, Ancestors(ns, start), ns[start].joueur);
      var onPath := k in Ancestors(ns, start);
      && r[k].nbSimus == ns[k].nbSimus + (if onPath then 1 else 0)
      && r[k].nbVictoires == ns[k].nbVictoires + (if onPath && ns[k].joueur == ns[start].joueur then 1 else 0)
      && r[k].(nbSimus := ns[k].nbSimus, nbVictoires := ns[k].nbVictoires) == ns[k]
  {
  }

  /** In a tree that is only a root, a propagation visits the root and nothing else. */
  lemma PropagationAtLoneRoot(ns: seq<Noeud>, j: int)
    requires |ns| == 1 && Linked(ns) && ns[0].parent.None?
    ensures Ancestors(ns, 0) == [0]
    ensures Propage(ns, Ancestors(ns, 0), j) == [Incremente(ns[0], j)]
  {
    assert Propage(ns, [0], j)[0] == Incremente(ns[0], j);
  }

  /** Propagating from any node keeps the tree well formed. */
  lemma PropagationKeepsTree(ns: seq<Noeud>, start: int)
    requires WellFormedTree(ns) && 0 <= start < |ns|
    ensures WellFormedTree(Propage(ns, Ancestors(ns, start), ns[start].joueur))
  {
    var path := Ancestors(ns, start);
    var r := Propage(ns, path, ns[start].joueur);
    forall k | 0 <= k < |r| ensures NodeOK(r, k) {
      assert NodeOK(ns, k);
      assert ChildrenOK(r, k) by {
        assert ChildrenOK(ns, k);
      }
      if k != 0 {
        assert ParentOK(ns, k);
        if k in path {
          AncestorsClosed(ns, start, k);
        }
      }
    }
  }

  /** The arena holding a search tree. */
  class Arbre {
    var noeuds: seq<Noeud>

    ghost predicate Valid()
      reads this
    {
      WellFormedTree(noeuds)
    }

    /** The root of a search: `new Noeud(null, null)` followed by `setEtat(e)`. */
    constructor Racine(e: Etat)
      requires e.Valid()
      ensures Valid()
      ensures noeuds == [Noeud(HUMAN_PLAYER, None, e, None, [], 0, 0)]
    {
      noeuds := [Noeud(HUMAN_PLAYER, None, e, None, [], 0, 0)];
    }

    /** `new Noeud()`: a lone node for move column 0 on a fresh initial state. */
    constructor Vide()
      ensures Valid()
      ensures |noeuds| == 1 && fresh(noeuds[0].etat) && noeuds[0].etat.Valid()
      ensures noeuds[0] == Noeud(HUMAN_PLAYER, Some(Coup(0)), noeuds[0].etat, None, [], 0, 0)
      ensures noeuds[0].etat.Cells() == EmptyGrid() && noeuds[0].etat.joueur == COMPUTER_PLAYER
    {
      var e := new Etat();
      noeuds := [Noeud(HUMAN_PLAYER, Some(Coup(0)), e, None, [], 0, 0)];
    }

    /**
     * `new Noeud(parent, coup)`: a node whose state is a copy of the parent's with `coup` played on it
     * (a refused move leaves the copy as it was), reached by the other player than the parent's. The
     * parent is neither changed nor told about its new child, and no state already in the tree changes.
     */
    method NouveauNoeud(p: nat, coup: Coup) returns (k: nat)
      requires Valid() && p < |noeuds| && 0 <= coup.colonne < COLONNE
      modifies this
      ensures Valid()
      ensures k == old(|noeuds|) && |noeuds| == k + 1 && noeuds[..k] == old(noeuds)
      ensures noeuds[k].(etat := old(noeuds[p].etat)) ==
        Noeud(1 - noeuds[p].joueur, Some(coup), old(noeuds[p].etat), Some(p), [], 0, 0)
      ensures fresh(noeuds[k].etat) && fresh(noeuds[k].etat.plateau) && noeuds[k].etat.Valid()
      ensures noeuds[k].etat.Cells() == JouerSiPossible(old(noeuds[p].etat.Cells()), coup.colonne, Mark(old(noeuds[p].etat.joueur)))
      ensures noeuds[k].etat.joueur ==
        if old(noeuds[p].etat.Cells())[0][coup.colonne] == VIDE then 1 - old(noeuds[p].etat.joueur) else old(noeuds[p].etat.joueur)
      ensures forall q | 0 <= q < k :: noeuds[q].etat.Cells() == old(noeuds[q].etat.Cells()) && noeuds[q].etat.joueur == old(noeuds[q].etat.joueur)
    {
      var parent := noeuds[p];
      var e := parent.etat.CopieEtat();
      var _ := e.JouerCoup(Some(coup));
      // the parent flips its player, lends it to the child, and flips it back
      noeuds := noeuds[p := noeuds[p].(joueur := 1 - noeuds[p].joueur)];
      var j := noeuds[p].joueur;
      noeuds := noeuds[p := noeuds[p].(joueur := 1 - noeuds[p].joueur)];
      assert noeuds == old(noeuds);
      k := |noeuds|;
      AppendKeepsTree(noeuds, Noeud(j, Some(coup), e, Some(p), [], 0, 0));
      noeuds := noeuds + [Noeud(j, Some(coup), e, Some(p), [], 0, 0)];
    }

    /**
     * `ajouterEnfant`: builds the child of node `p` for `coup` and appends it, last, to `p`'s children;
     * every other node, and every state already in the tree, is unchanged.
     */
    method AjouterEnfant(p: nat, coup: Coup) returns (k: nat)
      requires Valid() && p < |noeuds| && 0 <= coup.colonne < COLONNE
      modifies this
      ensures Valid()
      ensures k == old(|noeuds|) && |noeuds| == k + 1
      ensures noeuds[p] == old(noeuds[p]).(enfants := old(noeuds[p].enfants) + [k])
      ensures forall q | 0 <= q < k && q != p :: noeuds[q] == old(noeuds[q])
      ensures noeuds[k].(etat := old(noeuds[p].etat)) ==
        Noeud(1 - noeuds[p].joueur, Some(coup), old(noeuds[p].etat), Some(p), [], 0, 0)
      ensures fresh(noeuds[k].etat) && fresh(noeuds[k].etat.plateau) && noeuds[k].etat.Valid()
      ensures noeuds[k].etat.Cells() == JouerSiPossible(old(noeuds[p].etat.Cells()), coup.colonne, Mark(old(noeuds[p].etat.joueur)))
      ensures noeuds[k].etat.joueur ==
        if old(noeuds[p].etat.Cells())[0][coup.colonne] == VIDE then 1 - old(noeuds[p].etat.joueur) else old(noeuds[p].etat.joueur)
      ensures forall q | 0 <= q < k :: noeuds[q].etat.Cells() == old(noeuds[q].etat.Cells()) && noeuds[q].etat.joueur == old(noeuds[q].etat.joueur)
    {
      k := NouveauNoeud(p, coup);
      AddChildKeepsTree(noeuds, p, k);
      noeuds := noeuds[p := noeuds[p].(enfants := noeuds[p].enfants + [k])];
    }

    /**
     * `selection` from node `i`: the first move of `i`'s state, in list order, that no child plays yet;
     * when every move has a child, the move whose non-leaf child has the first greatest score, or none
     * when no move has a non-leaf child (or there are no moves).
     */
    method Selection(i: nat, explore: (int, int) -> real) returns (best: Option<Coup>)
      requires Valid() && i < |noeuds|
      ensures var ms := Grille.CoupsPossibles(noeuds[i].etat.Cells());
        forall u | 0 <= u < |ms| && Inexplore(noeuds, i, ms[u]) && TousExplores(noeuds, i, ms, u) :: best == Some(ms[u])
      ensures var ms := Grille.CoupsPossibles(noeuds[i].etat.Cells());
        var sc := Scores(noeuds, i, ms, explore);
        TousExplores(noeuds, i, ms, |ms|) ==>
          && (best.None? <==> forall t | 0 <= t < |ms| :: sc[t] == NegInf)
          && (best.Some? ==> exists b | 0 <= b < |ms| :: IsFirstMax(sc, b) && best == Some(ms[b]))
    {
      ghost var ms := Grille.CoupsPossibles(noeuds[i].etat.Cells());
      ghost var sc := Scores(noeuds, i, ms, explore);
      var coups := noeuds[i].etat.CoupsPossibles();
      best := None;
      var val := NegInf;
      ghost var bi := -1;
      for t := 0 to |coups|
        invariant -1 <= bi < t
        invariant TousExplores(noeuds, i, ms, t)
        invariant Scanned(sc, t, bi)
        invariant val == Meilleur(sc, bi)
        invariant best == if bi == -1 then None else Some(ms[bi])
      {
        var c := coups[t];
        var n := PremierEnfant(noeuds, noeuds[i].enfants, c);
        if n.None? {
          // an unexplored path: explore it
          assert Inexplore(noeuds, i, ms[t]);
          assert !TousExplores(noeuds, i, ms, |ms|);
          return Some(c);
        }
        assert !Inexplore(noeuds, i, ms[t]);
        TousExploresStep(noeuds, i, ms, t);
        ScoresAt(noeuds, i, ms, explore, t);
        ScanStep(sc, t, bi);
        ghost var next := if Greater(sc[t], Meilleur(sc, bi)) then t else bi;
        var nd := noeuds[n.value];
        if !EstFeuille(nd) {
          var ucb1 := UCB1(noeuds, n.value, explore);
          assert ucb1 == sc[t];
          if Greater(ucb1, val) {
            best := Some(c);
            val := ucb1;
            bi := t;
          }
        } else {
          assert sc[t] == NegInf;
        }
        assert bi == next;
      }
      ScanDone(sc, bi);
      assert best.None? <==> bi == -1;
      assert ms == Grille.CoupsPossibles(noeuds[i].etat.Cells());
      assert sc == Scores(noeuds, i, ms, explore);
    }

    /**
     * `propagationScore` from node `start`: every node on the path from `start` up to the root gets one
     * more simulation, and one more win when its player is `start`'s; `score` plays no part.
     */
    method PropagationScore(start: nat, score: FinDePartie)
      requires Valid() && start < |noeuds|
      modifies this
      ensures Valid()
      ensures noeuds == Propage(old(noeuds), Ancestors(old(noeuds), start), old(noeuds[start].joueur))
    {
      ghost var ns0 := noeuds;
      var j := noeuds[start].joueur;
      var ptr := start;
      ghost var done: seq<nat> := [start];
      PropageStep(ns0, [], j, start);
      assert Propage(ns0, [], j) == ns0;
      noeuds := noeuds[ptr := Incremente(noeuds[ptr], j)];
      while noeuds[ptr].parent.Some?
        invariant 0 <= ptr < |ns0| && |noeuds| == |ns0|
        invariant noeuds == Propage(ns0, done, j)
        invariant noeuds[ptr].parent == ns0[ptr].parent
        invariant Ancestors(ns0, start) == done + Ancestors(ns0, ptr)[1..]
        invariant forall x | x in done :: ptr <= x
        decreases ptr
      {
        AncestorsStep(ns0, start, done, ptr);
        ptr := noeuds[ptr].parent.value;
        PropageStep(ns0, done, j, ptr);
        done := done + [ptr];
        noeuds := noeuds[ptr := Incremente(noeuds[ptr], j)];
      }
      assert Ancestors(ns0, ptr) == [ptr];
      assert done == Ancestors(ns0, start);
      PropagationKeepsTree(ns0, start);
    }
  }
}
