/**
 * The four sides of a maze square, the clockwise and opposite relations
 * between them, and the random choices the maze engine makes.
 */
module Sides {

  datatype Side = Top | Right | Bottom | Left

  /** The side facing `s` across a square. */
  function Opposite(s: Side): (o: Side)
    ensures o != s
  {
    match s
    case Top => Bottom
    case Bottom => Top
    case Left => Right
    case Right => Left
  }

  /** The next side clockwise: Top, Right, Bottom, Left, Top. */
  function Next(s: Side): (n: Side)
    ensures n != s
  {
    match s
    case Top => Right
    case Right => Bottom
    case Bottom => Left
    case Left => Top
  }

  /** Applies `Next` n times. */
  function Turn(s: Side, n: nat): Side
  {
    if n == 0 then s else Next(Turn(s, n - 1))
  }

  /** Opposite is an involution without fixed points. */
  lemma OppositeInvolution(s: Side)
    ensures Opposite(Opposite(s)) == s
    ensures Opposite(s) != s
  {
  }

  /** The opposite side is a half turn clockwise. */
  lemma OppositeIsHalfTurn(s: Side)
    ensures Opposite(s) == Turn(s, 2)
  {
  }

  /** Four clockwise steps come back to the start, and no fewer do. */
  lemma {:induction false} NextCycles(s: Side, n: nat)
    ensures Turn(s, n) == Turn(s, n % 4)
    ensures 0 < n % 4 ==> Turn(s, n) != s
  {
    if n >= 4 {
      NextCycles(s, n - 4);
      TurnAdd(s, 4, n - 4);
      assert Turn(s, 4) == s;
      assert Turn(s, n) == Turn(Turn(s, 4), n - 4);
      assert (n - 4) % 4 == n % 4;
    } else {
      assert n % 4 == n;
      assert Turn(s, 3) == Next(Turn(s, 2)) && Turn(s, 2) == Next(Turn(s, 1)) && Turn(s, 1) == Next(s);
    }
  }

  /** Turning n then m steps is turning n + m steps. */
  lemma {:induction false} TurnAdd(s: Side, n: nat, m: nat)
    ensures Turn(Turn(s, n), m) == Turn(s, n + m)
  {
    if m > 0 {
      TurnAdd(s, n, m - 1);
    }
  }

  /** The side drawn for a roll of a four-sided die, in the order of `getRandomSide`. */
  function SideOfRoll(n: int): (s: Side)
    ensures s == Top <==> n == 0
    ensures s == Bottom <==> n == 1
    ensures s == Left <==> n == 2
  {
    if n == 0 then Top
    else if n == 1 then Bottom
    else if n == 2 then Left
    else Right
  }

  /** The four rolls 0..3 give the four sides, each exactly once. */
  lemma RollsAreFair(s: Side)
    ensures exists n :: 0 <= n < 4 && SideOfRoll(n) == s
    ensures forall n, m :: 0 <= n < 4 && 0 <= m < 4 && SideOfRoll(n) == SideOfRoll(m) ==> n == m
  {
    match s
    case Top => assert SideOfRoll(0) == s;
    case Bottom => assert SideOfRoll(1) == s;
    case Left => assert SideOfRoll(2) == s;
    case Right => assert SideOfRoll(3) == s;
  }

  /** The random oracle: some integer in [0, n). */
  method GetRandom(n: int) returns (r: int)
    requires n > 0
    ensures 0 <= r < n
  {
    r :| 0 <= r < n;
  }

  /** A side chosen through one roll `n` of the oracle. */
  method RandomSide() returns (s: Side, ghost n: int)
    ensures 0 <= n < 4 && s == SideOfRoll(n)
  {
    var roll := GetRandom(4);
    s := SideOfRoll(roll);
    n := roll;
  }

}
