/**
 * A player's token bookkeeping and score.
 *
 * The table and the UI are not part of this model: each call the player
 * makes into them is appended, as an `Event`, to the ghost log `log`.
 */
module PlayerModel {
  import opened Tokens

  /** A call the player makes into the table or the UI. */
  datatype Event =
    | PlaceToken(player: nat, slot: int)   // table.placeToken(player, slot)
    | RemoveToken(player: nat, slot: int)  // table.removeToken(player, slot)
    | SetScore(player: nat, score: int)    // ui.setScore(player, score)

  /** The calls a press of `slot` makes, by the case it falls into. */
  function PressEvents(player: nat, slot: int, o: Outcome): seq<Event>
  {
    match o
    case Removed(_) => [RemoveToken(player, slot)]
    case Placed(_) => [PlaceToken(player, slot)]
    case Ignored => []
  }

  class Player {
    /** The id of the player, starting from 0. */
    const id: nat
    /** True iff the input comes from the keyboard. */
    const human: bool

    var score: int
    /** tokens[i] is the slot of the i-th token, or Empty if it is not placed. */
    var tokens: array<int>
    /** How many tokens are placed. */
    var countTokens: int
    /** Pending key presses; created empty and not used by the operations modelled. */
    var actions: seq<int>

    /** The calls made into the table and the UI, oldest first. */
    ghost var log: seq<Event>

    /** The structural invariant, and the documented `score >= 0`. */
    ghost predicate Valid()
      reads this
    {
      tokens.Length == Cells && score >= 0
    }

    /** The token invariant: the counter matches the occupied cells, which are distinct. */
    ghost predicate TokensConsistent()
      reads this, tokens
    {
      Consistent(tokens[..], countTokens)
    }

    constructor (id: nat, human: bool)
      ensures this.id == id && this.human == human
      ensures Valid() && fresh(tokens)
      ensures tokens[..] == [Empty, Empty, Empty] && countTokens == 0
      ensures score == 0 && actions == [] && log == []
      ensures TokensConsistent()
    {
      this.id := id;
      this.human := human;
      score := 0;
      actions := [];
      var cells := new int[3];
      cells[0] := Empty;
      cells[1] := Empty;
      cells[2] := Empty;
      tokens := cells;
      countTokens := 0;
      log := [];
      new;
      assert tokens[..] == [Empty, Empty, Empty];
    }

    /**
     * A key press on `slot`: remove the token there if the player has one,
     * else place one in a free cell, else do nothing.
     */
    method KeyPressed(slot: int)
      requires Valid()
      modifies tokens, this`countTokens, this`log
      ensures Valid()
      ensures tokens[..] == Press(old(tokens[..]), slot)
      ensures countTokens == PressCount(old(tokens[..]), old(countTokens), slot)
      ensures log == old(log) + PressEvents(id, slot, Classify(old(tokens[..]), slot))
      ensures slot != Empty && old(TokensConsistent()) ==> TokensConsistent()
    {
      ghost var cells := tokens[..];
      var toRemove := false;
      var x := -1;
      var i := 0;
      while i < tokens.Length && !toRemove
        invariant 0 <= i <= tokens.Length
        invariant !toRemove ==> tokens[..] == cells && countTokens == old(countTokens) && log == old(log)
        invariant !toRemove ==> forall j :: 0 <= j < i ==> cells[j] != slot
        invariant !toRemove ==> -1 <= x < i
        invariant !toRemove && x == -1 ==> forall j :: 0 <= j < i ==> cells[j] != Empty
        invariant !toRemove && x >= 0 ==> cells[x] == Empty && forall j :: x < j < i ==> cells[j] != Empty
        invariant toRemove ==> 0 < i && Find(cells, slot) == Some(i - 1)
        invariant toRemove ==> tokens[..] == cells[i - 1 := Empty]
        invariant toRemove ==> countTokens == old(countTokens) - 1
        invariant toRemove ==> log == old(log) + [RemoveToken(id, slot)]
      {
        if tokens[i] == slot {
          log := log + [RemoveToken(id, slot)];
          tokens[i] := Empty;
          countTokens := countTokens - 1;
          toRemove := true;
        } else if tokens[i] == Empty {
          x := i;
        }
        i := i + 1;
      }
      if !toRemove {
        assert Find(cells, slot) == None;
        match LastFree(cells)
        case None =>
          assert x == -1;
        case Some(k) =>
          assert x == k;
      }
      if !toRemove && x != -1 {
        tokens[x] := slot;
        log := log + [PlaceToken(id, slot)];
        countTokens := countTokens + 1;
      }
      if slot != Empty && Consistent(cells, old(countTokens)) {
        PressPreservesConsistency(cells, old(countTokens), slot);
      }
    }

    /** Award a point: the score rises by one and the new score goes to the UI. */
    method Point()
      requires Valid()
      modifies this`score, this`log
      ensures Valid()
      ensures score == old(score) + 1
      ensures log == old(log) + [SetScore(id, score)]
    {
      score := score + 1;
      log := log + [SetScore(id, score)];
    }

    /** The current score. */
    method Score() returns (s: int)
      requires Valid()
      ensures s == score && s >= 0
    {
      s := score;
    }
  }
}
