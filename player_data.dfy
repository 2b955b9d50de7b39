/**
 * Player rotation: the active player is a counter over 1..|tints| that wraps
 * back to 1, and each player's tint is looked up at index activePlayer - 1.
 */
module Players {

  /** The tint table every new PlayerData starts with, one entry per player. */
  const DefaultTints: seq<int> := [0x3643f4, 0x3bebff]

  /** The player after `p` in a rotation of `n` players. */
  function Successor(p: int, n: nat): (r: int)
    ensures 1 <= p <= n ==> 1 <= r <= n && r == p % n + 1
    ensures p < n ==> r == p + 1
  {
    if p + 1 > n then 1 else p + 1
  }

  /** The active player after `k` turns of the rotation, starting from `p`. */
  function Rotate(p: int, n: nat, k: nat): int
    decreases k
  {
    if k == 0 then p else Rotate(Successor(p, n), n, k - 1)
  }

  /** Below the last player, `k` turns simply count `k` players up. */
  lemma {:induction false} RotateClimbs(p: int, n: nat, k: nat)
    requires 1 <= p && p + k <= n
    ensures Rotate(p, n, k) == p + k
    decreases k
  {
    if k > 0 {
      RotateClimbs(p + 1, n, k - 1);
    }
  }

  /** Turns compose: `a + b` turns are `a` turns followed by `b` turns. */
  lemma {:induction false} RotateSplits(p: int, n: nat, a: nat, b: nat)
    ensures Rotate(p, n, a + b) == Rotate(Rotate(p, n, a), n, b)
    decreases a
  {
    if a > 0 {
      RotateSplits(Successor(p, n), n, a - 1, b);
    }
  }

  /** As many turns as there are players bring the rotation back to where it started. */
  lemma FullRotation(p: int, n: nat)
    requires 1 <= p <= n
    ensures Rotate(p, n, n) == p
  {
    // up to the last player, over the wrap to player 1, then up to p again
    RotateClimbs(p, n, n - p);
    RotateSplits(p, n, n - p, 1);
    RotateClimbs(1, n, p - 1);
    RotateSplits(p, n, n - p + 1, p - 1);
  }

  class PlayerData {
    var activePlayer: int
    /** The tint of each player, by player number minus one; never reassigned. */
    const tints: seq<int>

    /** The active player is always a valid 1-based index into the tint table. */
    ghost predicate Valid()
      reads this
    {
      1 <= activePlayer <= |tints|
    }

    constructor ()
      ensures Valid()
      ensures activePlayer == 1 && tints == DefaultTints
    {
      activePlayer := 1;
      tints := DefaultTints;
    }

    function GetActivePlayer(): (p: int)
      reads this
      requires Valid()
      ensures 1 <= p <= |tints|
    {
      activePlayer
    }

    /** The tint of the active player: the first entry for player 1, the second for player 2, and so on. */
    function GetTint(): (t: int)
      reads this
      requires Valid()
      ensures t in tints
      ensures tints == DefaultTints ==> (t == 0x3643f4 <==> activePlayer == 1)
    {
      tints[activePlayer - 1]
    }

    /** Hands the turn to the next player, wrapping from the last back to player 1. */
    method NextPlayer()
      requires Valid()
      modifies this`activePlayer
      ensures Valid()
      ensures activePlayer == Successor(old(activePlayer), |tints|)
      ensures activePlayer == old(activePlayer) % |tints| + 1
    {
      activePlayer := activePlayer + 1;
      if activePlayer > |tints| {
        activePlayer := 1;
      }
    }
  }
}
