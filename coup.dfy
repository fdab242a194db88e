/**
 * A move of connect four: the index of the column a piece is dropped into.
 * A `Coup` is immutable and two moves are equal exactly when their columns are.
 */
module Coups {

  /** Java's 32-bit `int`. */
  type Int32 = x: int | -0x8000_0000 <= x < 0x8000_0000

  /** Reduces an unbounded integer to the 32-bit two's-complement value Java computes. */
  function Wrap32(x: int): (r: Int32)
    ensures (r - x) % 0x1_0000_0000 == 0
  {
    (x + 0x8000_0000) % 0x1_0000_0000 - 0x8000_0000
  }

  /** The column is fixed at construction: a datatype value cannot change afterwards. */
  datatype Coup = Coup(colonne: Int32)

  /** What `equals` may be handed: `null`, another `Coup`, or an object of some other class. */
  datatype Objet = Nul | UnCoup(coup: Coup) | Autre

  function GetColonne(c: Coup): (r: Int32)
    ensures Coup(r) == c
  {
    c.colonne
  }

  /** `Coup.equals`: true exactly for another `Coup` on the same column. */
  function Equals(c: Coup, o: Objet): (r: bool)
    ensures r <==> o == UnCoup(c)
  {
    match o
    case Nul => false
    case Autre => false
    case UnCoup(d) => c.colonne == d.colonne
  }

  /** `Objects.hash(colonne)`, that is `31 * 1 + colonne` in 32-bit arithmetic. */
  function HashCode(c: Coup): (r: Int32)
    ensures (r - 31 - c.colonne) % 0x1_0000_0000 == 0
  {
    Wrap32(31 + c.colonne)
  }

  lemma ColonneRoundTrip(j: Int32, c: Coup)
    ensures GetColonne(Coup(j)) == j
    ensures Coup(GetColonne(c)) == c
  {
  }

  lemma EqualsNull(c: Coup)
    ensures !Equals(c, Nul)
    ensures !Equals(c, Autre)
  {
  }

  lemma EqualsIsEquivalence(a: Coup, b: Coup, c: Coup)
    ensures Equals(a, UnCoup(a))
    ensures Equals(a, UnCoup(b)) <==> Equals(b, UnCoup(a))
    ensures Equals(a, UnCoup(b)) && Equals(b, UnCoup(c)) ==> Equals(a, UnCoup(c))
  {
  }

  /** Between -2^31 and 2^32 the wrap-around subtracts 2^32 exactly from the values past `Int32`. */
  lemma Wrap32Small(x: int)
    requires -0x8000_0000 <= x < 0x1_0000_0000
    ensures Wrap32(x) == if x < 0x8000_0000 then x else x - 0x1_0000_0000
  {
    var y := x + 0x8000_0000;
    if y < 0x1_0000_0000 {
      assert y % 0x1_0000_0000 == y;
    } else {
      assert y - 0x1_0000_0000 < 0x1_0000_0000;
      assert y % 0x1_0000_0000 == y - 0x1_0000_0000;
    }
  }

  /** Equal moves hash alike, and since the wrap-around is a bijection on 32-bit values, only equal moves do. */
  lemma HashCodeMatchesEquals(a: Coup, b: Coup)
    ensures Equals(a, UnCoup(b)) ==> HashCode(a) == HashCode(b)
    ensures HashCode(a) == HashCode(b) ==> Equals(a, UnCoup(b))
  {
    Wrap32Small(31 + a.colonne);
    Wrap32Small(31 + b.colonne);
  }
}
