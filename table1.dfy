/** The shared board of the earlier draft (Table.java): the slot/card arrays, a
    grid that shows the cards on the table in whatever cells were free when
    they arrived, and a token list per slot that exists only once a token was
    placed there. */
module Table1 {
  import opened Cards

  /** The players on a slot's token list, or none while the list is null. */
  function Listed(tokens: Option<seq<nat>>): (r: seq<nat>)
    ensures tokens.Some? ==> r == tokens.value
    ensures tokens.None? ==> r == []
  {
    if tokens.Some? then tokens.value else []
  }

  class Table {
    /** Slot -> card (null if none). */
    const slotToCard: array<Cell>
    /** Card -> slot (null if none). */
    const cardToSlot: array<Cell>
    /** The board as rows and columns; a cell is not tied to a slot. */
    const grid: array2<Cell>
    /** Per slot, the players holding a token there; null until the first token. */
    const slotsToPlayers: array<Option<seq<nat>>>

    ghost predicate Shaped()
    {
      slotToCard != cardToSlot && slotsToPlayers.Length == slotToCard.Length
    }

    /** Every card shown in the grid is on the table, and no card is shown twice. */
    ghost predicate GridShowsTable()
      reads grid, cardToSlot
    {
      (forall r, c :: 0 <= r < grid.Length0 && 0 <= c < grid.Length1 && grid[r, c].Some? ==>
         grid[r, c].value < cardToSlot.Length && cardToSlot[grid[r, c].value].Some?) &&
      (forall r1, c1, r2, c2 ::
         0 <= r1 < grid.Length0 && 0 <= c1 < grid.Length1 && 0 <= r2 < grid.Length0 && 0 <= c2 < grid.Length1 &&
         grid[r1, c1].Some? && grid[r1, c1] == grid[r2, c2]
         ==> r1 == r2 && c1 == c2)
    }

    /** The class invariant: the documented bijection, token lists only on
        slots holding a card, and a grid showing cards of the table. */
    ghost predicate Valid()
      reads slotToCard, cardToSlot, grid, slotsToPlayers
    {
      Shaped() &&
      Bijection(slotToCard[..], cardToSlot[..]) &&
      (forall s :: 0 <= s < slotsToPlayers.Length && slotsToPlayers[s].Some? ==> slotToCard[s].Some?) &&
      GridShowsTable()
    }

    /** `Table(env)`: `tableSize` slots, `deckSize` cards, a `rows` by
        `columns` grid, all null, and no token list yet. */
    constructor (tableSize: nat, deckSize: nat, rows: nat, columns: nat)
      ensures Valid()
      ensures slotToCard.Length == tableSize && cardToSlot.Length == deckSize
      ensures grid.Length0 == rows && grid.Length1 == columns
      ensures forall s :: 0 <= s < tableSize ==> slotToCard[s].None? && slotsToPlayers[s].None?
      ensures forall c :: 0 <= c < deckSize ==> cardToSlot[c].None?
      ensures forall r, c :: 0 <= r < rows && 0 <= c < columns ==> grid[r, c].None?
      ensures fresh(slotToCard) && fresh(cardToSlot) && fresh(grid) && fresh(slotsToPlayers)
    {
      slotToCard := new Cell[tableSize](_ => None);
      cardToSlot := new Cell[deckSize](_ => None);
      slotsToPlayers := new Option<seq<nat>>[tableSize](_ => None);
      grid := new Cell[rows, columns]((_, _) => None);
    }

    /** `countCards`: the number of occupied slots. */
    method CountCards() returns (cards: nat)
      ensures cards == CountSome(slotToCard[..])
      ensures cards == |Occupied(slotToCard[..])|
      ensures cards <= slotToCard.Length
    {
      cards := 0;
      for i := 0 to slotToCard.Length
        invariant cards == CountSome(slotToCard[..i])
      {
        assert slotToCard[..i + 1][..i] == slotToCard[..i];
        if slotToCard[i].Some? {
          cards := cards + 1;
        }
      }
      assert slotToCard[..] == slotToCard[..slotToCard.Length];
      CountSomeIsOccupied(slotToCard[..]);
    }

    /** `placeCard`: records the card in both arrays and shows it in the first
        null grid cell in row-major order, whichever slot it went to; a full
        grid is left as it is. */
    method PlaceCard(card: nat, slot: nat)
      requires Shaped()
      requires card < cardToSlot.Length && slot < slotToCard.Length
      modifies slotToCard, cardToSlot, grid
      ensures slotToCard[..] == old(slotToCard[..])[slot := Some(card)]
      ensures cardToSlot[..] == old(cardToSlot[..])[card := Some(slot)]
      ensures forall r, c :: 0 <= r < grid.Length0 && 0 <= c < grid.Length1 ==>
                grid[r, c] == if old(IsFirstOf(grid, None, r, c)) then Some(card) else old(grid[r, c])
      ensures old(Valid()) && old(slotToCard[slot]).None? && old(cardToSlot[card]).None? ==> Valid()
    {
      ghost var s2c, c2s := slotToCard[..], cardToSlot[..];
      ghost var wasValid := Valid();
      cardToSlot[card] := Some(slot);
      slotToCard[slot] := Some(card);
      assert slotToCard[..] == s2c[slot := Some(card)];
      assert cardToSlot[..] == c2s[card := Some(slot)];
      var found, row, col := ReplaceFirst(grid, None, Some(card));
      if wasValid && s2c[slot].None? && c2s[card].None? {
        BijectionPlace(s2c, c2s, card, slot);
        assert GridShowsTable() by {
          forall r, c | 0 <= r < grid.Length0 && 0 <= c < grid.Length1 && grid[r, c].Some? && !(found && r == row && c == col)
            ensures grid[r, c] == old(grid[r, c]) && grid[r, c] != Some(card)
          {
          }
        }
      }
    }

    /** `removeCard` on an occupied slot (the source unboxes the entry, so an
        empty slot throws): nulls both arrays and the slot's token list, and
        clears the grid cell showing the card. The grid scan compares cells
        as nullable values; see the findings for the unboxing comparison the
        source makes. */
    method RemoveCard(slot: nat)
      requires Valid()
      requires slot < slotToCard.Length && slotToCard[slot].Some?
      modifies slotToCard, cardToSlot, grid, slotsToPlayers
      ensures Valid()
      ensures slotToCard[..] == old(slotToCard[..])[slot := None]
      ensures cardToSlot[..] == old(cardToSlot[..])[old(slotToCard[slot]).value := None]
      ensures slotsToPlayers[..] == old(slotsToPlayers[..])[slot := None]
      ensures forall r, c :: 0 <= r < grid.Length0 && 0 <= c < grid.Length1 ==>
                grid[r, c] == if old(grid[r, c]) == old(slotToCard[slot]) then None else old(grid[r, c])
    {
      var card := slotToCard[slot].value;
      ghost var s2c, c2s := slotToCard[..], cardToSlot[..];
      slotToCard[slot] := None;
      cardToSlot[card] := None;
      slotsToPlayers[slot] := None;
      forall r, c | 0 <= r < grid.Length0 && 0 <= c < grid.Length1 && grid[r, c] == Some(card)
        ensures IsFirstOf(grid, Some(card), r, c)
      {
      }
      var found, row, col := ReplaceFirst(grid, Some(card), None);
      BijectionRemove(s2c, c2s, slot);
      assert slotToCard[..] == s2c[slot := None];
      assert cardToSlot[..] == c2s[card := None];
    }

    /** `placeToken`: on a slot holding a card, the player joins the slot's
        list, which is created if it is still null; otherwise nothing changes. */
    method PlaceToken(player: nat, slot: nat)
      requires Valid()
      requires slot < slotToCard.Length
      modifies slotsToPlayers
      ensures Valid()
      ensures slotsToPlayers[..] ==
                if slotToCard[slot].Some? then old(slotsToPlayers[..])[slot := Some(Listed(old(slotsToPlayers[slot])) + [player])]
                else old(slotsToPlayers[..])
    {
      if slotToCard[slot].Some? {
        if slotsToPlayers[slot].None? {
          slotsToPlayers[slot] := Some([]);
        }
        slotsToPlayers[slot] := Some(slotsToPlayers[slot].value + [player]);
      }
    }

    /** `removeToken`: true iff the slot has a token list, whether or not the
        player is on it; the player's first entry then leaves the list. The
        source calls `List<Integer>.remove(int)`, which removes by index; this
        models the removal by value the method's documentation describes. */
    method RemoveToken(player: nat, slot: nat) returns (removed: bool)
      requires Valid()
      requires slot < slotsToPlayers.Length
      modifies slotsToPlayers
      ensures Valid()
      ensures removed == old(slotsToPlayers[slot]).Some?
      ensures slotsToPlayers[..] ==
                if removed then old(slotsToPlayers[..])[slot := Some(RemoveFirst(old(slotsToPlayers[slot]).value, player))]
                else old(slotsToPlayers[..])
    {
      removed := false;
      if slotsToPlayers[slot].Some? {
        slotsToPlayers[slot] := Some(RemoveFirst(slotsToPlayers[slot].value, player));
        removed := true;
      }
    }

    /** `getCard`: the slot's entry, null for an empty slot; a card found is
        in this slot by the bijection. */
    method GetCard(slot: nat) returns (card: Cell)
      requires slot < slotToCard.Length
      ensures card == slotToCard[slot]
      ensures Bijection(slotToCard[..], cardToSlot[..]) && card.Some? ==>
                card.value < cardToSlot.Length && cardToSlot[card.value] == Some(slot)
    {
      card := slotToCard[slot];
    }

    /** `getSlot`: the card's entry, null for a card off the table. */
    method GetSlot(card: nat) returns (slot: Cell)
      requires card < cardToSlot.Length
      ensures slot == cardToSlot[card]
      ensures Bijection(slotToCard[..], cardToSlot[..]) && slot.Some? ==>
                slot.value < slotToCard.Length && slotToCard[slot.value] == Some(card)
    {
      slot := cardToSlot[card];
    }

    /** `getSlotToCard`: the array itself, not a copy. */
    method GetSlotToCard() returns (a: array<Cell>)
      ensures a == slotToCard
    {
      a := slotToCard;
    }

    /** `removeAllCardsFromTable`: `removeCard` on every slot index below the
        number of cards in the game. Each call unboxes its slot's card and
        indexes `slotToCard`, so the source needs a table at least as large
        as the deck with each of those slots occupied; then every card of the
        game was on those slots, and the whole table, grid and token lists
        included, ends empty. */
    method RemoveAllCardsFromTable()
      requires Valid()
      requires cardToSlot.Length <= slotToCard.Length
      requires forall s :: 0 <= s < cardToSlot.Length ==> slotToCard[s].Some?
      modifies slotToCard, cardToSlot, grid, slotsToPlayers
      ensures Valid()
      ensures forall s :: 0 <= s < slotToCard.Length ==> slotToCard[s].None?
      ensures forall c :: 0 <= c < cardToSlot.Length ==> cardToSlot[c].None?
      ensures forall s :: 0 <= s < slotsToPlayers.Length ==> slotsToPlayers[s].None?
      ensures forall r, c :: 0 <= r < grid.Length0 && 0 <= c < grid.Length1 ==> grid[r, c].None?
    {
      FullPrefixHoldsEveryCard(slotToCard[..], cardToSlot[..]);
      for slot := 0 to cardToSlot.Length
        invariant Valid()
        invariant forall s :: 0 <= s < slotToCard.Length ==>
                    slotToCard[s] == if s < slot then None else old(slotToCard[s])
      {
        RemoveCard(slot);
      }
      EmptySlotsEmptyTable();
    }

    /** With every slot empty, a valid table holds no card, no token list and
        no grid entry either. */
    lemma EmptySlotsEmptyTable()
      requires Valid()
      requires forall s :: 0 <= s < slotToCard.Length ==> slotToCard[s].None?
      ensures forall c :: 0 <= c < cardToSlot.Length ==> cardToSlot[c].None?
      ensures forall s :: 0 <= s < slotsToPlayers.Length ==> slotsToPlayers[s].None?
      ensures forall r, c :: 0 <= r < grid.Length0 && 0 <= c < grid.Length1 ==> grid[r, c].None?
    {
    }
  }
}
