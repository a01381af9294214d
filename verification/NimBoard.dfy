/** The game that nimd referees: piles of stones, a move takes one or more stones from one
    pile, and whoever takes the last stone wins. Bouton's theorem for boards of any size. */
module NimBoard {

  type Board = seq<nat>

  /** Bitwise exclusive or. */
  function Xor(a: nat, b: nat): nat {
    if a == 0 && b == 0 then 0 else 2 * Xor(a / 2, b / 2) + (a + b) % 2
  }

  /** The exclusive or of all piles. */
  function NimSum(b: Board): nat {
    if b == [] then 0 else Xor(b[0], NimSum(b[1..]))
  }

  function Stones(b: Board): nat {
    if b == [] then 0 else b[0] + Stones(b[1..])
  }

  /** The server's move rule: an existing pile, and 1 to all of its stones. */
  predicate LegalMove(b: Board, pile: int, amount: int) {
    0 <= pile < |b| && 1 <= amount <= b[pile]
  }

  function AfterMove(b: Board, pile: int, amount: int): Board
    requires LegalMove(b, pile, amount)
  {
    b[pile := b[pile] - amount]
  }

  lemma {:induction false} MoveTakesStones(b: Board, pile: int, amount: int)
    requires LegalMove(b, pile, amount)
    ensures Stones(AfterMove(b, pile, amount)) == Stones(b) - amount
  {
    if pile == 0 {
      assert AfterMove(b, pile, amount)[1..] == b[1..];
    } else {
      MoveTakesStones(b[1..], pile - 1, amount);
      assert AfterMove(b, pile, amount)[1..] == AfterMove(b[1..], pile - 1, amount);
    }
  }

  /** The player to move can force a win: some move leaves the opponent without one. On an
      empty board the previous player has just taken the last stone. */
  ghost predicate CanForceWin(b: Board)
    decreases Stones(b)
  {
    exists pile, amount :: LegalMove(b, pile, amount) && LosesAfter(b, pile, amount)
  }

  ghost predicate LosesAfter(b: Board, pile: int, amount: int)
    requires LegalMove(b, pile, amount)
    decreases Stones(b), 0
  {
    MoveTakesStones(b, pile, amount);
    !CanForceWin(AfterMove(b, pile, amount))
  }

  // ----- exclusive or -----

  lemma {:induction false} XorBits(a: nat, b: nat)
    ensures Xor(a, b) / 2 == Xor(a / 2, b / 2) && Xor(a, b) % 2 == (a + b) % 2
  {
  }

  lemma {:induction false} OddXor(a: nat, b: nat)
    requires Xor(a, b) % 2 == 1
    ensures a % 2 == 1 || b % 2 == 1
  {
    hide Xor;
    XorBits(a, b);
    OddSum(a, b);
  }

  lemma OddSum(a: nat, b: nat)
    requires (a + b) % 2 == 1
    ensures a % 2 == 1 || b % 2 == 1
  {
  }

  lemma {:induction false} XorCommutes(a: nat, b: nat)
    ensures Xor(a, b) == Xor(b, a)
  {
    if a != 0 || b != 0 {
      XorCommutes(a / 2, b / 2);
    }
  }

  lemma {:induction false} XorAssociates(a: nat, b: nat, c: nat)
    ensures Xor(Xor(a, b), c) == Xor(a, Xor(b, c))
    decreases a + b + c
  {
    if a != 0 || b != 0 || c != 0 {
      XorAssociates(a / 2, b / 2, c / 2);
      hide Xor;
      var ab, bc := Xor(a, b), Xor(b, c);
      XorBits(a, b);
      XorBits(b, c);
      XorBits(ab, c);
      XorBits(a, bc);
      SameBits(Xor(ab, c), Xor(a, bc), ab, bc, a, b, c);
    }
  }

  lemma SameBits(x: nat, y: nat, ab: nat, bc: nat, a: nat, b: nat, c: nat)
    requires x / 2 == y / 2 && x % 2 == (ab + c) % 2 && y % 2 == (a + bc) % 2
    requires ab % 2 == (a + b) % 2 && bc % 2 == (b + c) % 2
    ensures x == y
  {
  }

  lemma {:induction false} XorZero(a: nat)
    ensures Xor(a, 0) == a && Xor(0, a) == a
  {
    if a != 0 {
      XorZero(a / 2);
    }
  }

  lemma {:induction false} XorCancels(a: nat, b: nat)
    ensures Xor(a, b) == 0 <==> a == b
  {
    if a != 0 || b != 0 {
      XorCancels(a / 2, b / 2);
    }
  }

  // ----- nim sums -----

  /** Changing one pile changes the nim sum by that pile's old and new size. */
  lemma {:induction false} NimSumUpdate(b: Board, i: nat, v: nat)
    requires i < |b|
    ensures NimSum(b[i := v]) == Xor(Xor(v, b[i]), NimSum(b))
  {
    var t := NimSum(b[1..]);
    if i == 0 {
      assert b[0 := v][1..] == b[1..];
      XorCancels(b[0], b[0]);
      XorZero(t);
      XorAssociates(b[0], b[0], t);
      XorAssociates(v, b[0], Xor(b[0], t));
    } else {
      var d := Xor(v, b[i]);
      assert b[i := v][1..] == b[1..][i - 1 := v];
      NimSumUpdate(b[1..], i - 1, v);
      XorAssociates(b[0], d, t);
      XorCommutes(b[0], d);
      XorAssociates(d, b[0], t);
    }
  }

  function Halves(b: Board): Board {
    if b == [] then [] else [b[0] / 2] + Halves(b[1..])
  }

  lemma {:induction false} HalvesLength(b: Board)
    ensures |Halves(b)| == |b|
  {
    if b != [] {
      HalvesLength(b[1..]);
    }
  }

  lemma {:induction false} HalvesAt(b: Board, i: nat)
    requires i < |b| == |Halves(b)|
    ensures Halves(b)[i] == b[i] / 2
    decreases i
  {
    if i > 0 {
      HalvesLength(b[1..]);
      HalvesAt(b[1..], i - 1);
    }
  }

  lemma {:induction false} HalvesSum(b: Board)
    ensures NimSum(Halves(b)) == NimSum(b) / 2
  {
    if b != [] {
      HalvesSum(b[1..]);
      XorBits(b[0], NimSum(b[1..]));
      assert Halves(b)[1..] == Halves(b[1..]);
    }
  }

  /** An odd nim sum comes from an odd pile. */
  lemma {:induction false} OddPile(b: Board) returns (i: nat)
    requires NimSum(b) % 2 == 1
    ensures i < |b| && b[i] % 2 == 1
  {
    hide Xor;
    OddXor(b[0], NimSum(b[1..]));
    if b[0] % 2 == 1 {
      i := 0;
    } else {
      var j := OddPile(b[1..]);
      i := j + 1;
    }
  }

  /** When the nim sum is not zero, some pile shrinks when the nim sum is xor-ed into it:
      one that has the nim sum's top bit. */
  lemma {:induction false} ShrinkablePile(b: Board) returns (i: nat)
    requires NimSum(b) != 0
    ensures i < |b| && Xor(b[i], NimSum(b)) < b[i]
    decreases NimSum(b)
  {
    var s := NimSum(b);
    HalvesSum(b);
    HalvesLength(b);
    if s / 2 != 0 {
      i := ShrinkablePile(Halves(b));
      HalvesAt(b, i);
      XorBits(b[i], s);
    } else {
      i := OddPile(b);
      XorBits(b[i], 1);
      XorZero(b[i] / 2);
    }
  }

  /** From a board with non-zero nim sum there is a move to one with nim sum zero. */
  lemma BalancingMove(b: Board) returns (pile: nat, amount: nat)
    requires NimSum(b) != 0
    ensures LegalMove(b, pile, amount) && NimSum(AfterMove(b, pile, amount)) == 0
  {
    pile := ShrinkablePile(b);
    var s, v := NimSum(b), Xor(b[pile], NimSum(b));
    amount := b[pile] - v;
    NimSumUpdate(b, pile, v);
    XorCommutes(v, b[pile]);
    XorCancels(b[pile], b[pile]);
    XorAssociates(b[pile], b[pile], s);
    XorZero(s);
    XorCancels(s, s);
  }

  /** From a board with nim sum zero every move leads to a non-zero nim sum. */
  lemma {:induction false} UnbalancingMoves(b: Board, pile: int, amount: int)
    requires NimSum(b) == 0 && LegalMove(b, pile, amount)
    ensures NimSum(AfterMove(b, pile, amount)) != 0
  {
    var v: nat := b[pile] - amount;
    NimSumUpdate(b, pile, v);
    XorZero(Xor(v, b[pile]));
    XorCancels(v, b[pile]);
  }

  /** Bouton's theorem: the player to move can force a win exactly when the nim sum of the
      board is not zero. */
  lemma {:induction false} Bouton(b: Board)
    ensures CanForceWin(b) <==> NimSum(b) != 0
    decreases Stones(b)
  {
    if NimSum(b) != 0 {
      var pile, amount := BalancingMove(b);
      MoveTakesStones(b, pile, amount);
      Bouton(AfterMove(b, pile, amount));
      assert LosesAfter(b, pile, amount);
    } else {
      forall pile, amount | LegalMove(b, pile, amount) ensures !LosesAfter(b, pile, amount) {
        UnbalancingMoves(b, pile, amount);
        MoveTakesStones(b, pile, amount);
        Bouton(AfterMove(b, pile, amount));
      }
    }
  }
}
