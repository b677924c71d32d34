/** Four pieces of the later draft modelled exactly as written, next to
    lemmas that exhibit where they part from the documented behaviour. The
    rest of the model uses the corrected behaviour (see README, Findings). */
module AsWritten {
  import opened Cards
  import Table2
  import Game2

  // ---------------------------------------------------------------------
  // `List<Integer>.remove(int)` removes by index

  /** `list.remove(index)` on a list of `Integer`s called with an `int`: Java
      picks the overload that removes the entry AT `index`, and throws
      (`None`) when `index` is out of range. */
  function RemoveAt(s: seq<nat>, index: int): (r: Option<seq<nat>>)
    ensures r.Some? <==> 0 <= index < |s|
    ensures r.Some? ==> |r.value| == |s| - 1 && multiset(r.value) == multiset(s) - multiset{s[index]}
  {
    if 0 <= index < |s| then
      assert s == s[..index] + [s[index]] + s[index + 1..];
      Some(s[..index] + s[index + 1..])
    else None
  }

  /** Whenever the slot's list holds `player` and, at position `player`,
      another player, the call `remove(player)` keeps `player`'s token and
      takes the other player's token instead. */
  lemma RemoveAtMissesPlayer(s: seq<nat>, player: nat)
    requires NoDup(s) && player in s && player < |s| && s[player] != player
    ensures RemoveAt(s, player).Some?
    ensures player in RemoveAt(s, player).value
    ensures s[player] !in RemoveAt(s, player).value
    ensures RemoveAt(s, player).value != RemoveFirst(s, player)
  {
    var r: seq<nat> := RemoveAt(s, player).value;
    var other: nat := s[player];
    var m := multiset(s);
    NoDupCounts(s);
    assert m[other] == 1 && m[player] == 1;
    assert multiset(r) == m - multiset{other};
    assert multiset(r)[player] == 1 && multiset(r)[other] == 0;
    var rf: seq<nat> := RemoveFirst(s, player);
    RemoveFirstMultiset(s, player);
    assert multiset(rf) == m - multiset{player};
    assert multiset(rf)[player] == 0;
  }

  /** Two concrete token lists: players 2, 0, 1 on a slot, where removing
      player 0 takes out player 2; and player 1 alone on a slot, where
      removing player 1 throws. */
  lemma RemoveTokenCounterexample()
    ensures RemoveAt([2, 0, 1], 0) == Some([0, 1]) && RemoveFirst([2, 0, 1], 0) == [2, 1]
    ensures RemoveAt([1], 1).None? && RemoveFirst([1], 1) == []
  {
    var s: seq<nat> := [2, 0, 1];
    assert s[..0] + s[1..] == [0, 1];
    assert s[1..] == [0, 1] && [0, 1][1..] == [1];
    assert RemoveFirst([0, 1], 0) == [1];
    assert RemoveFirst(s, 0) == [2] + RemoveFirst([0, 1], 0);
  }

  // ---------------------------------------------------------------------
  // `grid[row][col] == card` unboxes a null cell

  /** Outcome of a grid scan: an exception, no match, or the first match. */
  datatype Scan = Throws | NotFound | FoundAt(index: nat)

  /** The `keepLoop` scan of `removeCard` over the grid cells in row-major
      order, comparing each `Integer` cell with the `int` card: Java unboxes
      the cell, so the first null cell met before the card throws. */
  function ScanAsWritten(cells: seq<Cell>, card: nat): (r: Scan)
    ensures r.FoundAt? ==> r.index < |cells| && cells[r.index] == Some(card)
  {
    if cells == [] then NotFound
    else if cells[0].None? then Throws
    else if cells[0].value == card then FoundAt(0)
    else
      match ScanAsWritten(cells[1..], card)
      case FoundAt(i) => FoundAt(i + 1)
      case other => other
  }

  /** The scan throws exactly when some null cell comes before every cell
      showing the card. */
  lemma {:induction false} ScanThrowsIff(cells: seq<Cell>, card: nat)
    ensures ScanAsWritten(cells, card) == Throws <==>
            exists i :: 0 <= i < |cells| && cells[i].None? && forall j :: 0 <= j < i ==> cells[j] != Some(card)
  {
    if cells != [] && cells[0].Some? && cells[0].value != card {
      var t := cells[1..];
      ScanThrowsIff(t, card);
      if ScanAsWritten(cells, card) == Throws {
        var i :| 0 <= i < |t| && t[i].None? && forall j :: 0 <= j < i ==> t[j] != Some(card);
        assert cells[i + 1].None?;
        forall j | 0 <= j < i + 1
          ensures cells[j] != Some(card)
        {
          if j > 0 {
            assert cells[j] == t[j - 1];
          }
        }
      }
      if exists i :: 0 <= i < |cells| && cells[i].None? && forall j :: 0 <= j < i ==> cells[j] != Some(card) {
        var i :| 0 <= i < |cells| && cells[i].None? && forall j :: 0 <= j < i ==> cells[j] != Some(card);
        assert i > 0;
        forall j | 0 <= j < i - 1
          ensures t[j] != Some(card)
        {
          assert t[j] == cells[j + 1];
        }
        assert t[i - 1].None?;
      }
    }
  }

  /** Once the first card of a full row-major grid is removed, the scan for
      any other card throws: the second removal of `removeAllCardsFromTable`
      fails on the cell the first one nulled. */
  lemma ScanCounterexample(card: nat, rest: seq<Cell>)
    ensures ScanAsWritten([None] + rest, card) == Throws
  {
  }

  // ---------------------------------------------------------------------
  // The slot counter of `placeCardsOnTable`

  /** The deal loop of `placeCardsOnTable` as written, over the grid cells in
      row-major order: `slot` counts the placements so far, and each card goes
      to slot `slot` rather than to the index of its cell. Yields the slot
      contents and what is left of the deck. */
  function DealAsWritten(grid: seq<Cell>, slotToCard: seq<Cell>, deck: seq<nat>, slot: nat): (r: (seq<Cell>, seq<nat>))
    requires slot + |grid| <= |slotToCard|
    ensures |r.0| == |slotToCard| && |r.1| <= |deck|
    decreases grid
  {
    if grid == [] || deck == [] then (slotToCard, deck)
    else if grid[0].None? then DealAsWritten(grid[1..], slotToCard[slot := Some(deck[0])], deck[1..], slot + 1)
    else DealAsWritten(grid[1..], slotToCard, deck, slot)
  }

  /** On an empty table the counter matches each cell's index, so the deal
      as written then agrees with the corrected one. */
  lemma {:induction false} DealAsWrittenOnEmpty(grid: seq<Cell>, slotToCard: seq<Cell>, deck: seq<nat>, slot: nat)
    requires slot + |grid| == |slotToCard|
    requires forall x :: 0 <= x < |grid| ==> grid[x].None?
    ensures forall x :: 0 <= x < |slotToCard| ==>
              DealAsWritten(grid, slotToCard, deck, slot).0[x] ==
                if slot <= x && x - slot < |deck| then Some(deck[x - slot]) else slotToCard[x]
    ensures DealAsWritten(grid, slotToCard, deck, slot).1 == deck[if |deck| < |grid| then |deck| else |grid|..]
    decreases grid
  {
    if grid != [] && deck != [] {
      DealAsWrittenOnEmpty(grid[1..], slotToCard[slot := Some(deck[0])], deck[1..], slot + 1);
    }
  }

  /** Hence on an empty table the deal as written is the corrected deal. */
  lemma DealAsWrittenAgreesOnEmpty(cells: seq<Cell>, deck: seq<nat>)
    requires forall x :: 0 <= x < |cells| ==> cells[x].None?
    ensures DealAsWritten(cells, cells, deck, 0) == Game2.Deal(cells, deck)
  {
    DealAsWrittenOnEmpty(cells, cells, deck, 0);
    Game2.DealOnEmpty(cells, deck);
    var written, dealt := DealAsWritten(cells, cells, deck, 0), Game2.Deal(cells, deck);
    assert written.0 == dealt.0 by {
      forall x | 0 <= x < |cells|
        ensures written.0[x] == dealt.0[x]
      {
      }
    }
  }

  /** A table showing card 0 in slot 0 and nothing in slot 1, with card 1 left
      in the deck: as written, card 1 overwrites card 0 in slot 0 and slot 1
      stays empty, so card 0 is lost from the slots; the corrected deal puts
      card 1 in slot 1. */
  lemma DealCounterexample()
    ensures DealAsWritten([Some(0), None], [Some(0), None], [1], 0) == ([Some(1), None], [])
    ensures Game2.Deal([Some(0), None], [1]) == ([Some(0), Some(1)], [])
  {
    var cells: seq<Cell> := [Some(0), None];
    var first: seq<Cell> := [Some(0)];
    var none: seq<Cell> := [];
    assert cells[1..] == [None] && cells[..1] == first && first[..0] == none;
    assert none + [Some(0)] == first && first + [Some(1)] == [Some(0), Some(1)];
    assert Game2.Deal(none, [1]) == (none, [1]);
    assert Game2.Deal(first, [1]) == (first, [1]);
    assert Game2.Deal(cells, [1]) == (first + [Some(1)], []);
    assert cells[0 := Some(1)] == [Some(1), None];
  }

  // ---------------------------------------------------------------------
  // `getCard` unboxes the slot's entry

  /** `getCard` as written: `int card = slotToCard[slot]` unboxes the
      `Integer` entry before returning it, so an empty slot throws (`None`)
      instead of returning null. */
  function GetCardAsWritten(slotToCard: seq<Cell>, slot: nat): (r: Option<nat>)
    requires slot < |slotToCard|
    ensures r.Some? <==> slotToCard[slot].Some?
    ensures r.Some? ==> slotToCard[slot] == Some(r.value)
  {
    if slotToCard[slot].Some? then Some(slotToCard[slot].value) else None
  }

  /** A key pressed on an empty slot with an empty key-press queue: nobody
      holds a token there, so `keyPressed`'s `removeToken` fails and the slot
      is offered to the queue, where it is the slot `treatSetQueue` takes
      next; its `getCard` call then throws, before the test `card != null`
      that was meant to skip the slot. The exception is not the
      `InterruptedException` the method catches, so it ends the player's
      thread. */
  lemma GetCardCounterexample(slotToCard: seq<Cell>, slotsToPlayers: seq<seq<nat>>, playersToSlots: seq<seq<nat>>,
                              slot: nat, id: nat)
    requires Table2.TokensConsistent(slotToCard, slotsToPlayers, playersToSlots)
    requires slot < |slotToCard| && slotToCard[slot].None?
    ensures id !in slotsToPlayers[slot]
    ensures Game2.Offered([], slot) == [slot]
    ensures GetCardAsWritten(slotToCard, slot).None?
  {
  }
}
