/**
 * The three token cells of a player, as values.
 *
 * A cell holds the table slot on which the player has placed a token, or
 * `Empty` when the cell is free. `Press` is the toggle a key press performs
 * on the cells; the class in player.dfy runs it in place on an array and is
 * proved to compute exactly this function.
 */
module Tokens {

  /** The value of a free token cell. */
  const Empty: int := -1

  /** The number of token cells a player owns. */
  const Cells: nat := 3

  datatype Option<T> = None | Some(value: T)

  /** What a key press does to the cells. */
  datatype Outcome =
    | Removed(cell: nat)  // the pressed slot was in `cell`, which is cleared
    | Placed(cell: nat)   // the pressed slot is written into the free `cell`
    | Ignored             // the slot is not held and no cell is free

  /** The number of cells that hold a token. */
  function Occupied(s: seq<int>): (n: nat)
    ensures n <= |s|
    ensures n == 0 <==> forall i :: 0 <= i < |s| ==> s[i] == Empty
  {
    if s == [] then 0
    else (if s[0] != Empty then 1 else 0) + Occupied(s[1..])
  }

  /** The set of slots the cells hold. */
  function Held(s: seq<int>): set<int>
  {
    set i | 0 <= i < |s| && s[i] != Empty :: s[i]
  }

  /** No slot is held by two cells. */
  predicate DistinctTokens(s: seq<int>)
  {
    forall i, j :: 0 <= i < j < |s| && s[i] != Empty ==> s[i] != s[j]
  }

  /** The player's invariant over its cells and its token counter. */
  predicate Consistent(s: seq<int>, count: int)
  {
    |s| == Cells && count == Occupied(s) && DistinctTokens(s) && 0 <= count <= Cells
  }

  /** The first cell whose value is `slot`, as the press loop meets it. */
  function Find(s: seq<int>, slot: int): (r: Option<nat>)
    ensures r.Some? ==> r.value < |s| && s[r.value] == slot
    ensures r.Some? ==> forall j :: 0 <= j < r.value ==> s[j] != slot
    ensures r.None? <==> forall j :: 0 <= j < |s| ==> s[j] != slot
  {
    if s == [] then None
    else if s[0] == slot then Some(0)
    else match Find(s[1..], slot)
      case None => None
      case Some(k) => Some(k + 1)
  }

  /** The free cell with the highest index. */
  function LastFree(s: seq<int>): (r: Option<nat>)
    ensures r.Some? ==> r.value < |s| && s[r.value] == Empty
    ensures r.Some? ==> forall j :: r.value < j < |s| ==> s[j] != Empty
    ensures r.None? <==> forall j :: 0 <= j < |s| ==> s[j] != Empty
  {
    if s == [] then None
    else if s[|s| - 1] == Empty then Some(|s| - 1)
    else LastFree(s[..|s| - 1])
  }

  /** Which of the three cases a press of `slot` falls into. */
  function Classify(s: seq<int>, slot: int): Outcome
  {
    match Find(s, slot)
    case Some(i) => Removed(i)
    case None =>
      match LastFree(s)
      case Some(k) => Placed(k)
      case None => Ignored
  }

  /** The cells after a press of `slot`. */
  function Press(s: seq<int>, slot: int): seq<int>
  {
    match Classify(s, slot)
    case Removed(i) => if i < |s| then s[i := Empty] else s
    case Placed(k) => if k < |s| then s[k := slot] else s
    case Ignored => s
  }

  /** How a press changes the token counter. */
  function CountChange(o: Outcome): int
  {
    match o
    case Removed(_) => -1
    case Placed(_) => 1
    case Ignored => 0
  }

  /** The counter after a press of `slot`. */
  function PressCount(s: seq<int>, count: int, slot: int): int
  {
    count + CountChange(Classify(s, slot))
  }

  /** Overwriting one cell changes the number of occupied cells by what it loses and gains. */
  lemma {:induction false} OccupiedUpdate(s: seq<int>, i: nat, v: int)
    requires i < |s|
    ensures Occupied(s[i := v]) ==
            Occupied(s) - (if s[i] != Empty then 1 else 0) + (if v != Empty then 1 else 0)
  {
    if i == 0 {
      assert s[i := v][1..] == s[1..];
    } else {
      assert s[i := v][1..] == s[1..][i - 1 := v];
      OccupiedUpdate(s[1..], i - 1, v);
    }
  }

  /** With distinct tokens, the counter is the number of distinct slots held. */
  lemma {:induction false} OccupiedIsHeldSize(s: seq<int>)
    requires DistinctTokens(s)
    ensures Occupied(s) == |Held(s)|
  {
    if s == [] {
      assert Held(s) == {};
    } else {
      assert DistinctTokens(s[1..]) by {
        forall i, j | 0 <= i < j < |s[1..]| && s[1..][i] != Empty
          ensures s[1..][i] != s[1..][j]
        {
          assert s[1..][i] == s[i + 1] && s[1..][j] == s[j + 1];
        }
      }
      OccupiedIsHeldSize(s[1..]);
      if s[0] == Empty {
        assert Held(s) == Held(s[1..]) by {
          forall x | x in Held(s) ensures x in Held(s[1..]) {
            var i :| 0 <= i < |s| && s[i] != Empty && s[i] == x;
            assert s[1..][i - 1] == x;
          }
          forall x | x in Held(s[1..]) ensures x in Held(s) {
            var i :| 0 <= i < |s[1..]| && s[1..][i] != Empty && s[1..][i] == x;
            assert s[i + 1] == x;
          }
        }
      } else {
        assert Held(s) == {s[0]} + Held(s[1..]) by {
          forall x | x in Held(s) ensures x in {s[0]} + Held(s[1..]) {
            var i :| 0 <= i < |s| && s[i] != Empty && s[i] == x;
            if i > 0 { assert s[1..][i - 1] == x; }
          }
          forall x | x in Held(s[1..]) ensures x in Held(s) {
            var i :| 0 <= i < |s[1..]| && s[1..][i] != Empty && s[1..][i] == x;
            assert s[i + 1] == x;
          }
        }
        assert s[0] !in Held(s[1..]) by {
          forall j | 0 <= j < |s[1..]| ensures s[1..][j] != s[0] {
            assert s[1..][j] == s[j + 1];
          }
        }
      }
    }
  }

  /**
   * Pressing a held slot clears the first cell that holds it and no other
   * cell, lowers the counter by one and removes the slot from the held set
   * when the tokens are distinct.
   */
  lemma PressHeld(s: seq<int>, count: int, slot: int)
    requires exists i :: 0 <= i < |s| && s[i] == slot
    ensures Classify(s, slot).Removed?
    ensures var k := Classify(s, slot).cell;
      k < |s| && s[k] == slot && (forall j :: 0 <= j < k ==> s[j] != slot) &&
      Press(s, slot) == s[k := Empty]
    ensures PressCount(s, count, slot) == count - 1
    ensures DistinctTokens(s) && slot != Empty ==> Held(Press(s, slot)) == Held(s) - {slot}
  {
    var k := Classify(s, slot).cell;
    var t := Press(s, slot);
    if DistinctTokens(s) && slot != Empty {
      forall x | x in Held(t) ensures x in Held(s) - {slot} {
        var i :| 0 <= i < |t| && t[i] != Empty && t[i] == x;
        assert i != k && s[i] == x;
      }
      forall x | x in Held(s) - {slot} ensures x in Held(t) {
        var i :| 0 <= i < |s| && s[i] != Empty && s[i] == x;
        assert t[i] == x;
      }
    }
  }

  /**
   * Pressing a slot that is not held writes it into the free cell with the
   * highest index, leaves every other cell alone, raises the counter by one
   * and adds the slot to the held set.
   */
  lemma PressFree(s: seq<int>, count: int, slot: int)
    requires forall i :: 0 <= i < |s| ==> s[i] != slot
    requires exists i :: 0 <= i < |s| && s[i] == Empty
    ensures Classify(s, slot).Placed?
    ensures var k := Classify(s, slot).cell;
      k < |s| && s[k] == Empty && (forall j :: k < j < |s| ==> s[j] != Empty) &&
      Press(s, slot) == s[k := slot]
    ensures PressCount(s, count, slot) == count + 1
    ensures Held(Press(s, slot)) == Held(s) + {slot}
  {
    var k := Classify(s, slot).cell;
    var t := Press(s, slot);
    forall x | x in Held(t) ensures x in Held(s) + {slot} {
      var i :| 0 <= i < |t| && t[i] != Empty && t[i] == x;
      if i != k { assert s[i] == x; }
    }
    forall x | x in Held(s) + {slot} ensures x in Held(t) {
      if x == slot {
        assert t[k] == slot;
      } else {
        var i :| 0 <= i < |s| && s[i] != Empty && s[i] == x;
        assert t[i] == x;
      }
    }
  }

  /** Pressing a slot that is not held while every cell is occupied changes nothing. */
  lemma PressFull(s: seq<int>, count: int, slot: int)
    requires forall i :: 0 <= i < |s| ==> s[i] != slot && s[i] != Empty
    ensures Classify(s, slot) == Ignored
    ensures Press(s, slot) == s
    ensures PressCount(s, count, slot) == count
  {
  }

  /** A press of any slot other than `Empty` keeps the player's invariant. */
  lemma PressPreservesConsistency(s: seq<int>, count: int, slot: int)
    requires Consistent(s, count)
    requires slot != Empty
    ensures Consistent(Press(s, slot), PressCount(s, count, slot))
  {
    var t := Press(s, slot);
    match Classify(s, slot)
    case Removed(k) =>
      OccupiedUpdate(s, k, Empty);
      assert t == s[k := Empty];
      assert DistinctTokens(t) by {
        forall i, j | 0 <= i < j < |t| && t[i] != Empty ensures t[i] != t[j] {
          assert i != k && t[i] == s[i];
          if j != k { assert t[j] == s[j]; }
        }
      }
    case Placed(k) =>
      OccupiedUpdate(s, k, slot);
      assert t == s[k := slot];
      assert DistinctTokens(t) by {
        forall i, j | 0 <= i < j < |t| && t[i] != Empty ensures t[i] != t[j] {
          if i == k {
            assert t[j] == s[j];
          } else if j == k {
            assert t[i] == s[i];
          } else {
            assert t[i] == s[i] && t[j] == s[j];
          }
        }
      }
    case Ignored =>
  }

  /**
   * A press of `Empty` is not safe: in a consistent state with a free cell
   * it matches that free cell as if it held a token, so the counter drops
   * while the cells stay as they were.
   */
  lemma EmptyPressBreaksCounter(s: seq<int>, count: int)
    requires Consistent(s, count)
    requires exists i :: 0 <= i < |s| && s[i] == Empty
    ensures Press(s, Empty) == s
    ensures PressCount(s, count, Empty) == Occupied(s) - 1
    ensures !Consistent(Press(s, Empty), PressCount(s, count, Empty))
  {
  }

  /**
   * Pressing the same slot twice restores the counter and the set of held
   * slots; when the slot was not held before, the cells come back exactly.
   */
  lemma PressTwice(s: seq<int>, count: int, slot: int)
    requires Consistent(s, count)
    requires slot != Empty
    ensures var s1, c1 := Press(s, slot), PressCount(s, count, slot);
      PressCount(s1, c1, slot) == count && Held(Press(s1, slot)) == Held(s)
    ensures (forall i :: 0 <= i < |s| ==> s[i] != slot) ==> Press(Press(s, slot), slot) == s
  {
    var s1, c1 := Press(s, slot), PressCount(s, count, slot);
    PressPreservesConsistency(s, count, slot);
    if exists i :: 0 <= i < |s| && s[i] == slot {
      PressHeld(s, count, slot);
      var k := Classify(s, slot).cell;
      assert s1[k] == Empty;
      assert forall i :: 0 <= i < |s1| ==> s1[i] != slot by {
        forall i | 0 <= i < |s1| ensures s1[i] != slot {
          if i != k {
            assert s1[i] == s[i];
            if i < k { assert s[k] != s[i]; } else { assert s[i] != s[k]; }
          }
        }
      }
      PressFree(s1, c1, slot);
    } else if exists i :: 0 <= i < |s| && s[i] == Empty {
      PressFree(s, count, slot);
      var k := Classify(s, slot).cell;
      PressHeld(s1, c1, slot);
      assert Classify(s1, slot).cell == k;
      assert s1[k := Empty] == s;
    } else {
      PressFull(s, count, slot);
    }
  }

  /**
   * The cells need not come back after two presses of a held slot: a token
   * removed from cell 0 returns in the highest free cell, cell 1.
   */
  lemma PressTwiceMayMoveToken()
    ensures Press(Press([5, Empty, 7], 5), 5) == [Empty, 5, 7]
  {
    var s: seq<int> := [5, Empty, 7];
    assert s[0] == 5;
    PressHeld(s, 1, 5);
    assert Press(s, 5) == [Empty, Empty, 7];
    var t: seq<int> := [Empty, Empty, 7];
    assert t[1] == Empty && t[2] != Empty;
    PressFree(t, 0, 5);
    assert Classify(t, 5).cell == 1;
  }

  /** A press sequence applied to the cells and the counter, in order. */
  function PressAll(s: seq<int>, count: int, slots: seq<int>): (seq<int>, int)
    decreases slots
  {
    if slots == [] then (s, count)
    else PressAll(Press(s, slots[0]), PressCount(s, count, slots[0]), slots[1..])
  }

  /** Any sequence of presses of real slots keeps the invariant, so at most three tokens are held. */
  lemma {:induction false} PressAllPreservesConsistency(s: seq<int>, count: int, slots: seq<int>)
    requires Consistent(s, count)
    requires forall i :: 0 <= i < |slots| ==> slots[i] != Empty
    ensures Consistent(PressAll(s, count, slots).0, PressAll(s, count, slots).1)
    ensures 0 <= PressAll(s, count, slots).1 <= Cells
    decreases slots
  {
    if slots != [] {
      PressPreservesConsistency(s, count, slots[0]);
      PressAllPreservesConsistency(Press(s, slots[0]), PressCount(s, count, slots[0]), slots[1..]);
    }
  }
}
