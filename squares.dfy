/**
 * One maze square: what each of its four sides holds and whether the
 * square lies on the path currently highlighted.
 */
module Squares {

  import opened Options
  import opened Sides

  /** `Unset` is a side the square's side map has no entry for yet. */
  datatype SideType = Unset | Wall | DoorIn | DoorOut

  /** What the facing side of the neighbouring square holds when two squares agree. */
  function Mirror(t: SideType): (m: SideType)
    ensures (m == Unset) == (t == Unset)
    ensures (m == Wall) == (t == Wall)
    ensures t == DoorOut <==> m == DoorIn
    ensures t == DoorIn <==> m == DoorOut
  {
    match t
    case Unset => Unset
    case Wall => Wall
    case DoorIn => DoorOut
    case DoorOut => DoorIn
  }

  datatype Square = Square(top: SideType, right: SideType, bottom: SideType, left: SideType, onPath: bool)
  {
    /** The type of side `s`. */
    function Get(s: Side): SideType
    {
      match s
      case Top => top
      case Right => right
      case Bottom => bottom
      case Left => left
    }

    /** The square with side `s` set to `t`; nothing else differs. */
    function Set(s: Side, t: SideType): (r: Square)
      ensures r.Get(s) == t
      ensures forall e :: e != s ==> r.Get(e) == Get(e)
      ensures r.onPath == onPath
    {
      match s
      case Top => this.(top := t)
      case Right => this.(right := t)
      case Bottom => this.(bottom := t)
      case Left => this.(left := t)
    }

    /** Some side of the square is a door in. */
    predicate HasInDoor()
    {
      top == DoorIn || right == DoorIn || bottom == DoorIn || left == DoorIn
    }

    /** How many sides of the square are doors in. */
    function InDoorCount(): (n: nat)
      ensures n <= 4
      ensures n > 0 <==> HasInDoor()
      ensures n > 0 <==> exists s :: Get(s) == DoorIn
    {
      assert top == Get(Top) && right == Get(Right) && bottom == Get(Bottom) && left == Get(Left);
      (if top == DoorIn then 1 else 0) + (if right == DoorIn then 1 else 0)
      + (if bottom == DoorIn then 1 else 0) + (if left == DoorIn then 1 else 0)
    }

    /**
     * The side the path entered by: the first door in, looking at Top,
     * Bottom, Left and Right in that order, and Right when there is none.
     */
    function InDoor(): (s: Side)
      ensures HasInDoor() ==> Get(s) == DoorIn
      ensures !HasInDoor() ==> s == Right
      ensures forall e :: InDoorRank(e) < InDoorRank(s) ==> Get(e) != DoorIn
    {
      if top == DoorIn then Top
      else if bottom == DoorIn then Bottom
      else if left == DoorIn then Left
      else Right
    }
  }

  /** The order in which `InDoor` looks at the sides. */
  function InDoorRank(s: Side): nat
  {
    match s
    case Top => 0
    case Bottom => 1
    case Left => 2
    case Right => 3
  }

  /** Setting a side that held no door in adds as many doors in as `t` is one. */
  lemma SetCountsDoorsIn(sq: Square, s: Side, t: SideType)
    requires sq.Get(s) != DoorIn
    ensures sq.Set(s, t).InDoorCount() == sq.InDoorCount() + (if t == DoorIn then 1 else 0)
  {
  }

  /** A square has a door in exactly when one of its four sides is a door in. */
  lemma HasInDoorSide(sq: Square)
    ensures sq.HasInDoor() <==> exists s :: sq.Get(s) == DoorIn
  {
    assert sq.top == sq.Get(Top) && sq.right == sq.Get(Right) && sq.bottom == sq.Get(Bottom) && sq.left == sq.Get(Left);
  }

  /** A square with at most one door in has it on one side only. */
  lemma OneDoorIn(sq: Square, s: Side, t: Side)
    requires sq.InDoorCount() <= 1 && sq.Get(s) == DoorIn && sq.Get(t) == DoorIn
    ensures s == t
  {
  }

  /** A side the solver may leave by: a door out it has not tried yet. */
  predicate Usable(sq: Square, tried: seq<Side>, s: Side)
  {
    sq.Get(s) == DoorOut && s !in tried
  }

  /** The three sides after `start`, clockwise, in the order the solver scans them. */
  function ScanFrom(start: Side): (order: seq<Side>)
    ensures |order| == 3
    ensures forall s :: s in order <==> s != start
  {
    [Next(start), Next(Next(start)), Next(Next(Next(start)))]
  }

  /** The first side of `order` that is usable, if any. */
  function FirstUsable(sq: Square, tried: seq<Side>, order: seq<Side>): (r: Option<Side>)
    ensures r.Some? ==> r.value in order && Usable(sq, tried, r.value)
    ensures r.None? <==> forall i :: 0 <= i < |order| ==> !Usable(sq, tried, order[i])
    ensures r.Some? ==> exists k :: 0 <= k < |order| && order[k] == r.value
                                    && forall j :: 0 <= j < k ==> !Usable(sq, tried, order[j])
  {
    if order == [] then None
    else if Usable(sq, tried, order[0]) then Some(order[0])
    else
      var r := FirstUsable(sq, tried, order[1..]);
      assert forall i :: 1 <= i < |order| ==> order[i] == order[1..][i - 1];
      assert r.Some? ==> exists k :: 1 <= k < |order| && order[k] == r.value
                                     && forall j :: 0 <= j < k ==> !Usable(sq, tried, order[j]);
      r
  }

  /**
   * The solver's choice of exit: scanning clockwise from the side after
   * `start`, the first door out not in `tried`; `start` itself is never
   * returned.
   */
  method NextOutDoorStartingFrom(sq: Square, start: Side, tried: seq<Side>) returns (r: Option<Side>)
    ensures r == FirstUsable(sq, tried, ScanFrom(start))
    ensures r.Some? ==> r.value != start && sq.Get(r.value) == DoorOut && r.value !in tried
    ensures r.None? <==> forall s :: s != start ==> !Usable(sq, tried, s)
  {
    var x := Next(start);
    ghost var k := 0;
    while x != start
      invariant 0 <= k <= 3
      invariant x == (if k < 3 then ScanFrom(start)[k] else start)
      invariant FirstUsable(sq, tried, ScanFrom(start)) == FirstUsable(sq, tried, ScanFrom(start)[k..])
      decreases 3 - k
    {
      if x == Top && sq.Get(Top) == DoorOut && Top !in tried {
        return Some(Top);
      } else if x == Right && sq.Get(Right) == DoorOut && Right !in tried {
        return Some(Right);
      } else if x == Bottom && sq.Get(Bottom) == DoorOut && Bottom !in tried {
        return Some(Bottom);
      } else if x == Left && sq.Get(Left) == DoorOut && Left !in tried {
        return Some(Left);
      }
      x := Next(x);
      k := k + 1;
    }
    forall s | s != start
      ensures !Usable(sq, tried, s)
    {
      var i :| 0 <= i < 3 && ScanFrom(start)[i] == s;
    }
    r := None;
  }

}
