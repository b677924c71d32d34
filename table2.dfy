/** The shared board of the later draft (Table2.java): the slot/card arrays, a
    row-major grid that mirrors them, and the token lists per slot and per player. */
module Table2 {
  import opened Cards

  /** The token layer: a slot's players and a player's slots mirror each other,
      neither list repeats an entry, and a token sits only on a slot holding a card. */
  predicate TokensConsistent(slotToCard: seq<Cell>, slotsToPlayers: seq<seq<nat>>, playersToSlots: seq<seq<nat>>)
  {
    |slotsToPlayers| == |slotToCard| &&
    (forall s :: 0 <= s < |slotsToPlayers| ==> NoDup(slotsToPlayers[s])) &&
    (forall p :: 0 <= p < |playersToSlots| ==> NoDup(playersToSlots[p])) &&
    (forall s, p {:trigger p in slotsToPlayers[s]} :: 0 <= s < |slotsToPlayers| && p in slotsToPlayers[s] ==>
       slotToCard[s].Some? && p < |playersToSlots| && s in playersToSlots[p]) &&
    (forall p, s {:trigger s in playersToSlots[p]} :: 0 <= p < |playersToSlots| && s in playersToSlots[p] ==>
       s < |slotsToPlayers| && p in slotsToPlayers[s])
  }

  /** Every player's slot list with `slot` taken out. */
  function Evict(playersToSlots: seq<seq<nat>>, slot: nat): seq<seq<nat>>
  {
    seq(|playersToSlots|, p requires 0 <= p < |playersToSlots| => RemoveFirst(playersToSlots[p], slot))
  }

  /** Appending an absent element keeps a list free of repetition. */
  lemma AppendNoDup(s: seq<nat>, x: nat)
    requires NoDup(s) && x !in s
    ensures NoDup(s + [x])
  {
    forall i, j | 0 <= i < j < |s + [x]| ensures (s + [x])[i] != (s + [x])[j] {
      if j == |s| {
        assert (s + [x])[i] == s[i];
      }
    }
  }

  /** Every slot's player list with `player` taken out. */
  function Withdraw(slotsToPlayers: seq<seq<nat>>, player: nat): seq<seq<nat>>
  {
    seq(|slotsToPlayers|, s requires 0 <= s < |slotsToPlayers| => RemoveFirst(slotsToPlayers[s], player))
  }

  /** Clearing one player's list and withdrawing it from every slot keeps the
      token layer consistent (the penalty of a failed claim). */
  lemma TokensWithdrawn(slotToCard: seq<Cell>, sp: seq<seq<nat>>, ps: seq<seq<nat>>, player: nat)
    requires TokensConsistent(slotToCard, sp, ps)
    requires player < |ps|
    ensures TokensConsistent(slotToCard, Withdraw(sp, player), ps[player := []])
  {
    var sp', ps' := Withdraw(sp, player), ps[player := []];
    forall s | 0 <= s < |sp|
      ensures NoDup(sp'[s]) && forall p :: p in sp'[s] <==> p in sp[s] && p != player
    {
      RemoveFirstMembers(sp[s], player);
    }
    forall s, p | 0 <= s < |sp'| && p in sp'[s]
      ensures slotToCard[s].Some? && p < |ps'| && s in ps'[p]
    {
      assert p in sp[s];
    }
    forall p, s | 0 <= p < |ps'| && s in ps'[p]
      ensures s < |sp'| && p in sp'[s]
    {
      assert s in ps[p];
    }
  }

  /** Withdrawing `player` from exactly the slots on its own list is
      withdrawing it from every slot. */
  lemma WithdrawnByTokens(slotToCard: seq<Cell>, sp: seq<seq<nat>>, ps: seq<seq<nat>>, player: nat, sp': seq<seq<nat>>)
    requires TokensConsistent(slotToCard, sp, ps) && player < |ps|
    requires |sp'| == |sp|
    requires forall s :: 0 <= s < |sp| ==> sp'[s] == if s in ps[player] then RemoveFirst(sp[s], player) else sp[s]
    ensures sp' == Withdraw(sp, player)
    ensures TokensConsistent(slotToCard, sp', ps[player := []])
  {
    forall s | 0 <= s < |sp|
      ensures sp'[s] == Withdraw(sp, player)[s]
    {
      if s !in ps[player] {
        assert player !in sp[s];
      }
    }
    TokensWithdrawn(slotToCard, sp, ps, player);
  }

  /** Cards joining empty slots never break the token layer: tokens only need
      their slot to hold some card. */
  lemma TokensMoreCards(slotToCard: seq<Cell>, more: seq<Cell>, sp: seq<seq<nat>>, ps: seq<seq<nat>>)
    requires TokensConsistent(slotToCard, sp, ps)
    requires |more| == |slotToCard|
    requires forall s :: 0 <= s < |slotToCard| && slotToCard[s].Some? ==> more[s].Some?
    ensures TokensConsistent(more, sp, ps)
  {
  }

  /** Placing a token that is not yet there keeps the token layer consistent. */
  lemma TokensPlaced(slotToCard: seq<Cell>, sp: seq<seq<nat>>, ps: seq<seq<nat>>, player: nat, slot: nat)
    requires TokensConsistent(slotToCard, sp, ps)
    requires slot < |sp| && slotToCard[slot].Some? && player < |ps| && player !in sp[slot]
    ensures TokensConsistent(slotToCard, sp[slot := sp[slot] + [player]], ps[player := ps[player] + [slot]])
  {
    var sp', ps' := sp[slot := sp[slot] + [player]], ps[player := ps[player] + [slot]];
    assert slot !in ps[player];
    AppendNoDup(sp[slot], player);
    AppendNoDup(ps[player], slot);
    forall s, p | 0 <= s < |sp'| && p in sp'[s]
      ensures slotToCard[s].Some? && p < |ps'| && s in ps'[p]
    {
      if s != slot || p != player {
        assert p in sp[s];
      }
    }
    forall p, s | 0 <= p < |ps'| && s in ps'[p]
      ensures s < |sp'| && p in sp'[s]
    {
      if s != slot || p != player {
        assert s in ps[p];
      }
    }
  }

  /** Removing a token that is there keeps the token layer consistent. */
  lemma TokensRemoved(slotToCard: seq<Cell>, sp: seq<seq<nat>>, ps: seq<seq<nat>>, player: nat, slot: nat)
    requires TokensConsistent(slotToCard, sp, ps)
    requires slot < |sp| && player < |ps| && player in sp[slot]
    ensures TokensConsistent(slotToCard, sp[slot := RemoveFirst(sp[slot], player)],
                             ps[player := RemoveFirst(ps[player], slot)])
  {
    var sp', ps' := sp[slot := RemoveFirst(sp[slot], player)], ps[player := RemoveFirst(ps[player], slot)];
    RemoveFirstMembers(sp[slot], player);
    RemoveFirstMembers(ps[player], slot);
    forall s, p | 0 <= s < |sp'| && p in sp'[s]
      ensures slotToCard[s].Some? && p < |ps'| && s in ps'[p]
    {
      assert p in sp[s];
    }
    forall p, s | 0 <= p < |ps'| && s in ps'[p]
      ensures s < |sp'| && p in sp'[s]
    {
      assert s in ps[p];
    }
  }

  /** Emptying a slot together with every token on it keeps the token layer consistent. */
  lemma TokensEvicted(slotToCard: seq<Cell>, sp: seq<seq<nat>>, ps: seq<seq<nat>>, slot: nat)
    requires TokensConsistent(slotToCard, sp, ps)
    requires slot < |slotToCard|
    ensures TokensConsistent(slotToCard[slot := None], sp[slot := []], Evict(ps, slot))
  {
    var sp', ps' := sp[slot := []], Evict(ps, slot);
    forall p | 0 <= p < |ps|
      ensures NoDup(ps'[p]) && forall s :: s in ps'[p] <==> s in ps[p] && s != slot
    {
      RemoveFirstMembers(ps[p], slot);
    }
    forall s, p | 0 <= s < |sp'| && p in sp'[s]
      ensures slotToCard[slot := None][s].Some? && p < |ps'| && s in ps'[p]
    {
      assert p in sp[s];
    }
    forall p, s | 0 <= p < |ps'| && s in ps'[p]
      ensures s < |sp'| && p in sp'[s]
    {
      assert s in ps[p];
    }
  }

  /** One step of the eviction loop: once `id`'s token is gone, only the ids
      above it are left on the slot. */
  lemma DropPlayer(players: seq<nat>, original: seq<nat>, id: nat)
    requires NoDup(players)
    requires forall p :: p in players <==> p in original && p >= id
    ensures NoDup(RemoveFirst(players, id))
    ensures forall p :: p in RemoveFirst(players, id) <==> p in original && p >= id + 1
  {
    RemoveFirstMembers(players, id);
  }

  lemma UpdateTwice<T>(s: seq<T>, i: nat, a: T, b: T)
    requires i < |s|
    ensures s[i := a][i := b] == s[i := b]
  {
  }

  /** The player lists after the eviction loop has handled ids `0..id`. */
  lemma EvictStep(ps: seq<seq<nat>>, id: nat, slot: nat)
    requires id < |ps|
    ensures (Evict(ps[..id], slot) + ps[id..])[id := RemoveFirst(ps[id], slot)] ==
            Evict(ps[..id + 1], slot) + ps[id + 1..]
  {
  }

  /** The slots' token lists once the first `i` of `slots` were emptied. */
  function Cleared(slotsToPlayers: seq<seq<nat>>, slots: seq<nat>, i: nat): (r: seq<seq<nat>>)
    requires i <= |slots| && forall j :: 0 <= j < |slots| ==> slots[j] < |slotsToPlayers|
    ensures |r| == |slotsToPlayers|
  {
    if i == 0 then slotsToPlayers
    else Cleared(slotsToPlayers, slots, i - 1)[slots[i - 1] := []]
  }

  /** The players' slot lists once the first `i` of `slots` were evicted, in order. */
  function EvictAll(playersToSlots: seq<seq<nat>>, slots: seq<nat>, i: nat): (r: seq<seq<nat>>)
    requires i <= |slots|
    ensures |r| == |playersToSlots|
  {
    if i == 0 then playersToSlots
    else Evict(EvictAll(playersToSlots, slots, i - 1), slots[i - 1])
  }

  /** The emptied slots have no token left; every other slot keeps its list. */
  lemma {:induction false} ClearedAt(sp: seq<seq<nat>>, slots: seq<nat>, i: nat)
    requires i <= |slots| && forall j :: 0 <= j < |slots| ==> slots[j] < |sp|
    ensures forall j :: 0 <= j < i ==> Cleared(sp, slots, i)[slots[j]] == []
    ensures forall s :: 0 <= s < |sp| && s !in slots[..i] ==> Cleared(sp, slots, i)[s] == sp[s]
  {
    if i > 0 {
      ClearedAt(sp, slots, i - 1);
      assert forall s :: s in slots[..i] <==> s in slots[..i - 1] || s == slots[i - 1];
    }
  }

  /** Each player's list loses exactly the evicted slots and stays free of
      repetition. */
  lemma {:induction false} EvictAllMembers(ps: seq<seq<nat>>, slots: seq<nat>, i: nat)
    requires i <= |slots| && forall p :: 0 <= p < |ps| ==> NoDup(ps[p])
    ensures forall p :: 0 <= p < |ps| ==> NoDup(EvictAll(ps, slots, i)[p])
    ensures forall p, s {:trigger s in EvictAll(ps, slots, i)[p]} {:trigger s in ps[p]} :: 0 <= p < |ps| ==>
              (s in EvictAll(ps, slots, i)[p] <==> s in ps[p] && s !in slots[..i])
  {
    if i > 0 {
      var prev := EvictAll(ps, slots, i - 1);
      EvictAllMembers(ps, slots, i - 1);
      assert forall s :: s in slots[..i] <==> s in slots[..i - 1] || s == slots[i - 1];
      forall p | 0 <= p < |ps|
        ensures NoDup(EvictAll(ps, slots, i)[p])
        ensures forall s :: s in EvictAll(ps, slots, i)[p] <==> s in prev[p] && s != slots[i - 1]
      {
        assert EvictAll(ps, slots, i)[p] == RemoveFirst(prev[p], slots[i - 1]);
        RemoveFirstMembers(prev[p], slots[i - 1]);
      }
      forall p, s | 0 <= p < |ps|
        ensures s in EvictAll(ps, slots, i)[p] <==> s in ps[p] && s !in slots[..i]
      {
        assert s in EvictAll(ps, slots, i)[p] <==> s in prev[p] && s != slots[i - 1];
        assert s in prev[p] <==> s in ps[p] && s !in slots[..i - 1];
      }
    }
  }

  /** A player's list shrinks by one for each evicted slot it held. */
  lemma {:induction false} EvictAllLength(ps: seq<seq<nat>>, slots: seq<nat>, i: nat, p: nat)
    requires i <= |slots| && NoDup(slots) && p < |ps| && forall q :: 0 <= q < |ps| ==> NoDup(ps[q])
    requires forall j :: 0 <= j < i ==> slots[j] in ps[p]
    ensures |EvictAll(ps, slots, i)[p]| == |ps[p]| - i
  {
    if i > 0 {
      EvictAllLength(ps, slots, i - 1, p);
      EvictAllMembers(ps, slots, i - 1);
      assert slots[i - 1] !in slots[..i - 1];
      assert EvictAll(ps, slots, i)[p] == RemoveFirst(EvictAll(ps, slots, i - 1)[p], slots[i - 1]);
    }
  }

  /** A table with no card and no token satisfies the invariant. */
  lemma EmptyTable(slotToCard: seq<Cell>, cardToSlot: seq<Cell>, sp: seq<seq<nat>>, ps: seq<seq<nat>>)
    requires |sp| == |slotToCard|
    requires forall s :: 0 <= s < |slotToCard| ==> slotToCard[s].None? && sp[s] == []
    requires forall c :: 0 <= c < |cardToSlot| ==> cardToSlot[c].None?
    requires forall p :: 0 <= p < |ps| ==> ps[p] == []
    ensures Bijection(slotToCard, cardToSlot) && TokensConsistent(slotToCard, sp, ps)
  {
  }

  class Table {
    /** Slot -> card (null if none). */
    const slotToCard: array<Cell>
    /** Card -> slot (null if none). */
    const cardToSlot: array<Cell>
    /** Row-major view of the board. */
    const grid: array2<Cell>
    /** Per slot, the players holding a token there. */
    const slotsToPlayers: array<seq<nat>>
    /** Per player, the slots it holds a token on. */
    const playersToSlots: array<seq<nat>>

    ghost predicate Shaped()
    {
      slotToCard != cardToSlot && slotsToPlayers != playersToSlots &&
      slotsToPlayers.Length == slotToCard.Length &&
      RowStart(grid.Length0, grid.Length1) == slotToCard.Length
    }

    /** Cell (r, c) of the grid shows the content of slot `c + cols*r`. */
    ghost predicate GridMirrors()
      reads grid, slotToCard
    {
      forall r, c :: 0 <= r < grid.Length0 && 0 <= c < grid.Length1 ==>
        SlotOf(r, c, grid.Length1) < slotToCard.Length && grid[r, c] == slotToCard[SlotOf(r, c, grid.Length1)]
    }

    /** The class invariant: the documented bijection, the token layer and the grid mirror. */
    ghost predicate Valid()
      reads slotToCard, cardToSlot, grid, slotsToPlayers, playersToSlots
    {
      Shaped() &&
      Bijection(slotToCard[..], cardToSlot[..]) &&
      TokensConsistent(slotToCard[..], slotsToPlayers[..], playersToSlots[..]) &&
      GridMirrors()
    }

    /** The table the game builds: every slot, card and grid cell null, every token list empty. */
    constructor (rows: nat, columns: nat, deckSize: nat, players: nat)
      ensures Valid()
      ensures grid.Length0 == rows && grid.Length1 == columns
      ensures slotToCard.Length == rows * columns && cardToSlot.Length == deckSize
      ensures playersToSlots.Length == players
      ensures forall s :: 0 <= s < slotToCard.Length ==> slotToCard[s].None? && slotsToPlayers[s] == []
      ensures forall c :: 0 <= c < cardToSlot.Length ==> cardToSlot[c].None?
      ensures forall p :: 0 <= p < playersToSlots.Length ==> playersToSlots[p] == []
      ensures fresh(slotToCard) && fresh(cardToSlot) && fresh(grid)
      ensures fresh(slotsToPlayers) && fresh(playersToSlots)
    {
      var slots := rows * columns;
      RowStartIsProduct(rows, columns);
      slotToCard := new Cell[slots](_ => None);
      cardToSlot := new Cell[deckSize](_ => None);
      slotsToPlayers := new seq<nat>[slots](_ => []);
      playersToSlots := new seq<nat>[players](_ => []);
      grid := new Cell[rows, columns]((_, _) => None);
      new;
      assert GridMirrors() by {
        forall r, c | 0 <= r < rows && 0 <= c < columns
          ensures SlotOf(r, c, columns) < slots
        {
          SlotOfInRange(r, c, rows, columns);
        }
      }
      EmptyTable(slotToCard[..], cardToSlot[..], slotsToPlayers[..], playersToSlots[..]);
    }

    /** `countCards`: the number of occupied slots. */
    method CountCards() returns (cards: nat)
      ensures cards == CountSome(slotToCard[..])
      ensures cards == |Occupied(slotToCard[..])|
      ensures cards <= slotToCard.Length
    {
      cards := 0;
      for i := 0 to slotToCard.Length
        invariant cards == CountSome(slotToCard[..i])
      {
        assert slotToCard[..i + 1][..i] == slotToCard[..i];
        if slotToCard[i].Some? {
          cards := cards + 1;
        }
      }
      assert slotToCard[..] == slotToCard[..slotToCard.Length];
      CountSomeIsOccupied(slotToCard[..]);
    }

    /** `placeCard`: records the card in both arrays and shows it in the grid
        cell whose index is `slot`, if that cell is still null. */
    method PlaceCard(card: nat, slot: nat)
      requires Shaped()
      requires card < cardToSlot.Length && slot < slotToCard.Length
      modifies slotToCard, cardToSlot, grid
      ensures slotToCard[..] == old(slotToCard[..])[slot := Some(card)]
      ensures cardToSlot[..] == old(cardToSlot[..])[card := Some(slot)]
      ensures forall r, c :: 0 <= r < grid.Length0 && 0 <= c < grid.Length1 ==>
                grid[r, c] == if SlotOf(r, c, grid.Length1) == slot && old(grid[r, c]).None?
                              then Some(card) else old(grid[r, c])
      ensures old(Valid()) && old(slotToCard[slot]).None? && old(cardToSlot[card]).None? ==> Valid()
    {
      ghost var s2c, c2s := slotToCard[..], cardToSlot[..];
      cardToSlot[card] := Some(slot);
      slotToCard[slot] := Some(card);
      assert slotToCard[..] == s2c[slot := Some(card)];
      assert cardToSlot[..] == c2s[card := Some(slot)];
      var keepLoop := true;
      var row := 0;
      ghost var hitRow, hitCol := 0, 0;
      while row < grid.Length0 && keepLoop
        modifies grid
        invariant 0 <= row <= grid.Length0
        invariant keepLoop ==> forall r, c :: 0 <= r < grid.Length0 && 0 <= c < grid.Length1 ==> grid[r, c] == old(grid[r, c])
        invariant keepLoop ==> forall r, c :: 0 <= r < row && 0 <= c < grid.Length1 ==>
                    !(old(grid[r, c]).None? && SlotOf(r, c, grid.Length1) == slot)
        invariant !keepLoop ==> (hitRow < grid.Length0 && hitCol < grid.Length1 &&
                                 SlotOf(hitRow, hitCol, grid.Length1) == slot && old(grid[hitRow, hitCol]).None?)
        invariant !keepLoop ==> forall r, c :: 0 <= r < grid.Length0 && 0 <= c < grid.Length1 ==>
                    grid[r, c] == if r == hitRow && c == hitCol then Some(card) else old(grid[r, c])
      {
        var col := 0;
        while col < grid.Length1 && keepLoop
          modifies grid
          invariant 0 <= col <= grid.Length1
          invariant keepLoop ==> forall r, c :: 0 <= r < grid.Length0 && 0 <= c < grid.Length1 ==> grid[r, c] == old(grid[r, c])
          invariant keepLoop ==> forall r, c :: 0 <= r < grid.Length0 && 0 <= c < grid.Length1 && Before(r, c, row, col) ==>
                      !(old(grid[r, c]).None? && SlotOf(r, c, grid.Length1) == slot)
          invariant !keepLoop ==> (hitRow < grid.Length0 && hitCol < grid.Length1 &&
                                   SlotOf(hitRow, hitCol, grid.Length1) == slot && old(grid[hitRow, hitCol]).None?)
          invariant !keepLoop ==> forall r, c :: 0 <= r < grid.Length0 && 0 <= c < grid.Length1 ==>
                      grid[r, c] == if r == hitRow && c == hitCol then Some(card) else old(grid[r, c])
        {
          if grid[row, col].None? && slot == SlotOf(row, col, grid.Length1) {
            grid[row, col] := Some(card);
            hitRow, hitCol := row, col;
            keepLoop := false;
          }
          col := col + 1;
        }
        row := row + 1;
      }
      forall r, c | 0 <= r < grid.Length0 && 0 <= c < grid.Length1 && !keepLoop && SlotOf(r, c, grid.Length1) == slot
        ensures r == hitRow && c == hitCol
      {
        SlotOfInjective(r, c, hitRow, hitCol, grid.Length1);
      }
      if old(Valid()) && s2c[slot].None? && c2s[card].None? {
        BijectionPlace(s2c, c2s, card, slot);
      }
    }

    /** `removeCard`: on an occupied slot, takes every player's token off it,
        nulls both arrays and clears the grid cell showing the card; on an
        empty slot, changes nothing. */
    method RemoveCard(slot: nat)
      requires Valid()
      requires slot < slotToCard.Length
      modifies slotToCard, cardToSlot, grid, slotsToPlayers, playersToSlots
      ensures Valid()
      ensures old(slotToCard[slot]).None? ==>
                slotToCard[..] == old(slotToCard[..]) && cardToSlot[..] == old(cardToSlot[..]) &&
                slotsToPlayers[..] == old(slotsToPlayers[..]) && playersToSlots[..] == old(playersToSlots[..])
      ensures old(slotToCard[slot]).Some? ==>
                slotToCard[..] == old(slotToCard[..])[slot := None] &&
                cardToSlot[..] == old(cardToSlot[..])[old(slotToCard[slot]).value := None] &&
                slotsToPlayers[..] == old(slotsToPlayers[..])[slot := []] &&
                playersToSlots[..] == Evict(old(playersToSlots[..]), slot)
      ensures forall r, c :: 0 <= r < grid.Length0 && 0 <= c < grid.Length1 ==>
                grid[r, c] == if SlotOf(r, c, grid.Length1) == slot then None else old(grid[r, c])
    {
      if slotToCard[slot].Some? {
        var card := slotToCard[slot].value;
        ghost var s2c, c2s := slotToCard[..], cardToSlot[..];
        ghost var sp, ps := slotsToPlayers[..], playersToSlots[..];
        RemoveTokensFrom(slot);
        slotToCard[slot] := None;
        cardToSlot[card] := None;
        forall r, c | 0 <= r < grid.Length0 && 0 <= c < grid.Length1
          ensures grid[r, c] == Some(card) <==> SlotOf(r, c, grid.Length1) == slot
        {
          if grid[r, c] == Some(card) {
            BijectionOneSlotPerCard(s2c, c2s, slot, SlotOf(r, c, grid.Length1));
          }
        }
        EraseFromGrid(card, slot);
        BijectionRemove(s2c, c2s, slot);
        TokensEvicted(s2c, sp, ps, slot);
      }
    }

    /** The `removeToken(id, slot)` loop of `removeCard`, over every player id. */
    method RemoveTokensFrom(slot: nat)
      requires Shaped() && TokensConsistent(slotToCard[..], slotsToPlayers[..], playersToSlots[..])
      requires slot < slotToCard.Length
      modifies slotsToPlayers, playersToSlots
      ensures slotsToPlayers[..] == old(slotsToPlayers[..])[slot := []]
      ensures playersToSlots[..] == Evict(old(playersToSlots[..]), slot)
    {
      ghost var sp, ps := slotsToPlayers[..], playersToSlots[..];
      var id := 0;
      while id < playersToSlots.Length
        invariant 0 <= id <= playersToSlots.Length
        invariant NoDup(slotsToPlayers[slot])
        invariant slotsToPlayers[..] == sp[slot := slotsToPlayers[slot]]
        invariant forall p :: p in slotsToPlayers[slot] <==> p in sp[slot] && p >= id
        invariant playersToSlots[..] == Evict(ps[..id], slot) + ps[id..]
      {
        ghost var sp', ps' := slotsToPlayers[..], playersToSlots[..];
        DropPlayer(slotsToPlayers[slot], sp[slot], id);
        var removed := RemoveToken(id, slot);
        UpdateTwice(sp, slot, sp'[slot], slotsToPlayers[slot]);
        if !removed {
          assert slot !in ps[id];
        }
        EvictStep(ps, id, slot);
        id := id + 1;
      }
      HeadIn(slotsToPlayers[slot]);
      assert ps[..id] == ps;
    }

    /** The grid scan of `removeCard`, comparing cells as nullable values: the
        one cell showing `card` becomes null. */
    method EraseFromGrid(card: nat, slot: nat)
      requires forall r, c :: 0 <= r < grid.Length0 && 0 <= c < grid.Length1 ==>
                 (grid[r, c] == Some(card) <==> SlotOf(r, c, grid.Length1) == slot)
      modifies grid
      ensures forall r, c :: 0 <= r < grid.Length0 && 0 <= c < grid.Length1 ==>
                grid[r, c] == if SlotOf(r, c, grid.Length1) == slot then None else old(grid[r, c])
    {
      var found, row, col := ReplaceFirst(grid, Some(card), None);
      forall r, c | 0 <= r < grid.Length0 && 0 <= c < grid.Length1
        ensures grid[r, c] == if SlotOf(r, c, grid.Length1) == slot then None else old(grid[r, c])
      {
        if SlotOf(r, c, grid.Length1) == slot {
          assert old(grid[r, c]) == Some(card);
          SlotOfInjective(r, c, row, col, grid.Length1);
        }
      }
    }

    /** `placeToken`: on a slot holding a card, the player is added to the
        slot's list and the slot to the player's list; otherwise nothing changes. */
    method PlaceToken(player: nat, slot: nat)
      requires Valid()
      requires slot < slotToCard.Length
      requires slotToCard[slot].Some? ==> player < playersToSlots.Length
      modifies slotsToPlayers, playersToSlots
      ensures slotToCard[slot].Some? ==>
                slotsToPlayers[..] == old(slotsToPlayers[..])[slot := old(slotsToPlayers[slot]) + [player]] &&
                playersToSlots[..] == old(playersToSlots[..])[player := old(playersToSlots[player]) + [slot]]
      ensures slotToCard[slot].None? ==>
                slotsToPlayers[..] == old(slotsToPlayers[..]) && playersToSlots[..] == old(playersToSlots[..])
      ensures player !in old(slotsToPlayers[slot]) ==> Valid()
    {
      ghost var sp, ps := slotsToPlayers[..], playersToSlots[..];
      if slotToCard[slot].Some? {
        slotsToPlayers[slot] := slotsToPlayers[slot] + [player];
        playersToSlots[player] := playersToSlots[player] + [slot];
        if player !in sp[slot] {
          TokensPlaced(slotToCard[..], sp, ps, player, slot);
        }
      }
    }

    /** `removeToken`: true iff the player held a token on the slot; then the
        player leaves the slot's list and the slot leaves the player's list.
        The source calls `List<Integer>.remove(int)`, which removes by index;
        this models the documented removal by value. */
    method RemoveToken(player: nat, slot: nat) returns (removed: bool)
      requires Shaped()
      requires slot < slotsToPlayers.Length
      requires player in slotsToPlayers[slot] ==> player < playersToSlots.Length
      modifies slotsToPlayers, playersToSlots
      ensures removed == (player in old(slotsToPlayers[slot]))
      ensures slotsToPlayers[..] == old(slotsToPlayers[..])[slot := RemoveFirst(old(slotsToPlayers[slot]), player)]
      ensures playersToSlots[..] ==
                if removed then old(playersToSlots[..])[player := RemoveFirst(old(playersToSlots[player]), slot)]
                else old(playersToSlots[..])
      ensures !removed ==> slotsToPlayers[..] == old(slotsToPlayers[..])
      ensures old(NoDup(slotsToPlayers[slot])) ==> player !in slotsToPlayers[slot]
      ensures old(TokensConsistent(slotToCard[..], slotsToPlayers[..], playersToSlots[..])) ==>
                TokensConsistent(slotToCard[..], slotsToPlayers[..], playersToSlots[..])
      ensures old(Valid()) ==> Valid()
    {
      ghost var valid := TokensConsistent(slotToCard[..], slotsToPlayers[..], playersToSlots[..]);
      ghost var wasValid := Valid();
      ghost var sp, ps := slotsToPlayers[..], playersToSlots[..];
      removed := false;
      if player in slotsToPlayers[slot] {
        slotsToPlayers[slot] := RemoveFirst(slotsToPlayers[slot], player);
        if slot in playersToSlots[player] {
          playersToSlots[player] := RemoveFirst(playersToSlots[player], slot);
        }
        removed := true;
        assert slotsToPlayers[..] == sp[slot := RemoveFirst(sp[slot], player)];
        assert playersToSlots[..] == ps[player := RemoveFirst(ps[player], slot)];
        if valid {
          TokensRemoved(slotToCard[..], sp, ps, player, slot);
        }
      } else {
        assert sp[slot := RemoveFirst(sp[slot], player)] == sp;
      }
      if NoDup(sp[slot]) {
        RemoveFirstMembers(sp[slot], player);
      }
      if wasValid {
        assert Bijection(slotToCard[..], cardToSlot[..]) && GridMirrors();
      }
    }

    /** Two identical `removeToken` calls: the first reports whether the
        player held a token on the slot, the second always reports false. */
    method RemoveTokenTwice(player: nat, slot: nat) returns (first: bool, second: bool)
      requires Valid()
      requires slot < slotsToPlayers.Length && player < playersToSlots.Length
      modifies slotsToPlayers, playersToSlots
      ensures Valid()
      ensures first == (player in old(slotsToPlayers[slot])) && !second
    {
      first := RemoveToken(player, slot);
      second := RemoveToken(player, slot);
    }

    /** `getCard`: the card in an occupied slot (the source unboxes the entry,
        so an empty slot throws); the card's slot is this slot again. */
    method GetCard(slot: nat) returns (card: nat)
      requires slot < slotToCard.Length && slotToCard[slot].Some?
      ensures slotToCard[slot] == Some(card)
      ensures Bijection(slotToCard[..], cardToSlot[..]) ==> card < cardToSlot.Length && cardToSlot[card] == Some(slot)
    {
      card := slotToCard[slot].value;
    }

    /** `getSlot`: the slot of a card on the table (unboxed, like `getCard`). */
    method GetSlot(card: nat) returns (slot: nat)
      requires card < cardToSlot.Length && cardToSlot[card].Some?
      ensures cardToSlot[card] == Some(slot)
      ensures Bijection(slotToCard[..], cardToSlot[..]) ==> slot < slotToCard.Length && slotToCard[slot] == Some(card)
    {
      slot := cardToSlot[card].value;
    }

    /** `getSlotToCard`: the array itself, not a copy. */
    method GetSlotToCard() returns (a: array<Cell>)
      ensures a == slotToCard
    {
      a := slotToCard;
    }

    /** `removeAllCardsFromTable`: removes the card of every non-null grid cell. */
    method RemoveAllCardsFromTable()
      requires Valid()
      modifies slotToCard, cardToSlot, grid, slotsToPlayers, playersToSlots
      ensures Valid()
      ensures forall s :: 0 <= s < slotToCard.Length ==> slotToCard[s].None? && slotsToPlayers[s] == []
      ensures forall c :: 0 <= c < cardToSlot.Length ==> cardToSlot[c].None?
      ensures forall p :: 0 <= p < playersToSlots.Length ==> playersToSlots[p] == []
      ensures forall r, c :: 0 <= r < grid.Length0 && 0 <= c < grid.Length1 ==> grid[r, c].None?
    {
      for row := 0 to grid.Length0
        invariant Valid()
        invariant forall r, c :: 0 <= r < row && 0 <= c < grid.Length1 ==> grid[r, c].None?
      {
        for col := 0 to grid.Length1
          invariant Valid()
          invariant forall r, c :: 0 <= r < grid.Length0 && 0 <= c < grid.Length1 && Before(r, c, row, col) ==> grid[r, c].None?
        {
          if grid[row, col].Some? {
            var card := grid[row, col].value;
            assert slotToCard[SlotOf(row, col, grid.Length1)] == Some(card);
            var slot := cardToSlot[card].value;
            RemoveCard(slot);
          }
        }
      }
      forall s | 0 <= s < slotToCard.Length
        ensures slotToCard[s].None?
      {
        var r, c := CellOfSlot(s, grid.Length0, grid.Length1);
      }
      forall s | 0 <= s < slotToCard.Length
        ensures slotsToPlayers[s] == []
      {
        HeadIn(slotsToPlayers[s]);
      }
      forall p | 0 <= p < playersToSlots.Length
        ensures playersToSlots[p] == []
      {
        HeadIn(playersToSlots[p]);
      }
    }
  }
}
