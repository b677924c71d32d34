/** The players and the dealer of the earlier draft (Player.java and
    Dealer.java), one sequential step at a time. This draft's dealer has no
    claim queue, so a player's key press reports a full queue of pressed
    slots to its caller instead of queueing itself with the dealer. */
module Game1 {
  import opened Cards
  import Table1

  /** Capacity of a player's queue of pressed slots (`new ArrayBlockingQueue<Integer>(3)`). */
  const QueueCapacity := 3
  /** Number of cards in a claimed set. */
  const SetSize := 3

  /** The queue of pressed slots after a press on `slot`: it joins the queue
      when the queue has room, does not hold it yet and the slot shows a
      card; otherwise a queued slot leaves the queue; otherwise nothing
      changes. */
  function Toggled(queue: seq<nat>, slot: nat, occupied: bool): (r: seq<nat>)
  {
    if |queue| < QueueCapacity && slot !in queue && occupied then queue + [slot]
    else if slot in queue then RemoveFirst(queue, slot)
    else queue
  }

  /** A press keeps the queue within its capacity and free of repetition. */
  lemma ToggledBounded(queue: seq<nat>, slot: nat, occupied: bool)
    requires |queue| <= QueueCapacity && NoDup(queue)
    ensures |Toggled(queue, slot, occupied)| <= QueueCapacity
    ensures NoDup(Toggled(queue, slot, occupied))
  {
    if |queue| < QueueCapacity && slot !in queue && occupied {
      forall i, j | 0 <= i < j < |queue + [slot]|
        ensures (queue + [slot])[i] != (queue + [slot])[j]
      {
        if j == |queue| {
          assert (queue + [slot])[i] == queue[i];
        }
      }
    } else if slot in queue {
      RemoveFirstMembers(queue, slot);
      RemoveFirstMultiset(queue, slot);
      assert |multiset(RemoveFirst(queue, slot))| == |multiset(queue)| - 1;
    }
  }

  /** The pressed slot is queued afterwards exactly when it joined, and no
      other slot joins or leaves. */
  lemma ToggledMembers(queue: seq<nat>, slot: nat, occupied: bool)
    requires NoDup(queue)
    ensures slot in Toggled(queue, slot, occupied) <==> |queue| < QueueCapacity && slot !in queue && occupied
    ensures forall x :: x != slot ==> (x in Toggled(queue, slot, occupied) <==> x in queue)
  {
    if slot in queue {
      RemoveFirstMembers(queue, slot);
    }
  }

  /** Two presses on a slot that joined the queue leave the queue as it was. */
  lemma ToggledTwice(queue: seq<nat>, slot: nat, occupied: bool)
    requires |queue| < QueueCapacity && slot !in queue && occupied
    ensures Toggled(Toggled(queue, slot, occupied), slot, occupied) == queue
  {
    RemoveFirstAppended(queue, slot);
  }

  /** Removing the first `x` from a list that ends in its only `x` gives back the rest. */
  lemma {:induction false} RemoveFirstAppended(s: seq<nat>, x: nat)
    requires x !in s
    ensures RemoveFirst(s + [x], x) == s
  {
    if s != [] {
      assert (s + [x])[1..] == s[1..] + [x];
      RemoveFirstAppended(s[1..], x);
    }
  }

  class Player {
    const id: nat
    const table: Table1.Table
    var score: int
    /** The slots this player pressed, oldest first. */
    var setsQueue: seq<nat>
    var isFrozen: bool
    var terminate: bool

    /** The class invariant (`@inv score >= 0`) and a queue of distinct slots
        of the table within its capacity. */
    ghost predicate Valid()
      reads this
    {
      score >= 0 && |setsQueue| <= QueueCapacity && NoDup(setsQueue) &&
      forall k :: 0 <= k < |setsQueue| ==> setsQueue[k] < table.slotToCard.Length
    }

    constructor (table: Table1.Table, id: nat)
      ensures Valid()
      ensures this.table == table && this.id == id
      ensures score == 0 && setsQueue == [] && !isFrozen && !terminate
    {
      this.table := table;
      this.id := id;
      score := 0;
      setsQueue := [];
      isFrozen := false;
      terminate := false;
    }

    /** `keyPressed` (after its wait for the player's thread): the press
        toggles the slot in the queue as `Toggled` says, placing a token when
        the slot joins and removing the player's token when it leaves. The
        result is whether the queue is now full, the moment the source hands
        the player to the dealer. */
    method KeyPressed(slot: nat) returns (claim: bool)
      requires Valid() && table.Valid()
      requires slot < table.slotToCard.Length
      modifies this`setsQueue, table.slotsToPlayers
      ensures Valid() && table.Valid()
      ensures setsQueue == Toggled(old(setsQueue), slot, table.slotToCard[slot].Some?)
      ensures table.slotsToPlayers[..] ==
                if |old(setsQueue)| < QueueCapacity && slot !in old(setsQueue) && table.slotToCard[slot].Some? then
                  old(table.slotsToPlayers[..])[slot := Some(Table1.Listed(old(table.slotsToPlayers[slot])) + [id])]
                else if slot in old(setsQueue) && old(table.slotsToPlayers[slot]).Some? then
                  old(table.slotsToPlayers[..])[slot := Some(RemoveFirst(old(table.slotsToPlayers[slot]).value, id))]
                else old(table.slotsToPlayers[..])
      ensures claim == (|setsQueue| == QueueCapacity)
    {
      ghost var queue := setsQueue;
      var card := table.GetCard(slot);
      if |setsQueue| < QueueCapacity && slot !in setsQueue && card.Some? {
        setsQueue := setsQueue + [slot];
        table.PlaceToken(id, slot);
      } else if slot in setsQueue {
        setsQueue := RemoveFirst(setsQueue, slot);
        var removed := table.RemoveToken(id, slot);
      }
      claim := |setsQueue| == QueueCapacity;
      ToggledBounded(queue, slot, card.Some?);
      ToggledMembers(queue, slot, card.Some?);
      forall k | 0 <= k < |setsQueue|
        ensures setsQueue[k] < table.slotToCard.Length
      {
        if setsQueue[k] != slot {
          assert setsQueue[k] in queue;
        }
      }
    }

    /** `setQueueToArray`: the cards under the three queued slots, in queue
        order. The source unboxes both the queued slots and their cards, so
        it needs a full queue of occupied slots; distinct slots of a valid
        table show distinct cards. */
    method SetQueueToArray() returns (testCards: array<nat>)
      requires Valid() && |setsQueue| == QueueCapacity
      requires forall k :: 0 <= k < QueueCapacity ==> table.slotToCard[setsQueue[k]].Some?
      ensures testCards.Length == QueueCapacity
      ensures forall k :: 0 <= k < QueueCapacity ==> table.slotToCard[setsQueue[k]] == Some(testCards[k])
      ensures Bijection(table.slotToCard[..], table.cardToSlot[..]) ==> NoDup(testCards[..])
    {
      testCards := new nat[QueueCapacity];
      for i := 0 to QueueCapacity
        invariant forall k :: 0 <= k < i ==> table.slotToCard[setsQueue[k]] == Some(testCards[k])
      {
        var card := table.GetCard(setsQueue[i]);
        testCards[i] := card.value;
      }
      if Bijection(table.slotToCard[..], table.cardToSlot[..]) {
        forall k, l | 0 <= k < l < QueueCapacity
          ensures testCards[k] != testCards[l]
        {
          if testCards[k] == testCards[l] {
            BijectionOneSlotPerCard(table.slotToCard[..], table.cardToSlot[..], setsQueue[k], setsQueue[l]);
          }
        }
      }
    }

    /** `point`: after the freeze, exactly one more point. */
    method Point()
      requires Valid()
      modifies this`score, this`isFrozen
      ensures Valid()
      ensures score == old(score) + 1 && isFrozen
    {
      isFrozen := true;
      var ignored := table.CountCards();
      score := score + 1;
    }

    /** `penalty`: a freeze and nothing else; the score is untouched. */
    method Penalty()
      modifies this`isFrozen
      ensures isFrozen
    {
      isFrozen := true;
    }

    /** `score`. */
    method Score() returns (s: int)
      requires Valid()
      ensures s == score && s >= 0
    {
      s := score;
    }

    /** `terminate`: the flag is raised (the thread interrupts are not modelled). */
    method Terminate()
      modifies this`terminate
      ensures terminate
    {
      terminate := true;
    }
  }

  class Dealer {
    const table: Table1.Table
    const players: seq<Player>
    /** `env.util.testSet`, the matching rule of an external library. */
    const isSet: Matcher
    /** Cards not yet dealt, front first. */
    var deck: seq<nat>

    /** Player `i` has id `i`, plays at this table and is valid. */
    ghost predicate PlayersValid()
      reads players
    {
      forall i :: 0 <= i < |players| ==> players[i].id == i && players[i].table == table && players[i].Valid()
    }

    /** The deck starts as every card of the game, in order. */
    constructor (table: Table1.Table, players: seq<Player>, isSet: Matcher, deckSize: nat)
      ensures this.table == table && this.players == players && this.isSet == isSet
      ensures |deck| == deckSize && forall k :: 0 <= k < deckSize ==> deck[k] == k
    {
      this.table := table;
      this.players := players;
      this.isSet := isSet;
      deck := seq(deckSize, k => k);
    }

    /** The players' scores, by id. */
    ghost function Scores(): (r: seq<int>)
      reads players
      ensures |r| == |players| && forall i :: 0 <= i < |players| ==> r[i] == players[i].score
    {
      seq(|players|, i reads players requires 0 <= i < |players| => players[i].score)
    }

    /** The first loop of `announceWinners`: the highest score, starting from 0. */
    method TopScore() returns (maxScore: int)
      requires PlayersValid()
      ensures maxScore == MaxScore(Scores())
    {
      ghost var scores := Scores();
      maxScore := 0;
      for i := 0 to |players|
        invariant maxScore == MaxScore(scores[..i])
      {
        assert scores[..i + 1][..i] == scores[..i];
        var score := players[i].Score();
        if score > maxScore {
          maxScore := score;
        }
      }
      assert scores[..|players|] == scores;
    }

    /** The second loop of `announceWinners`: an array with a place for every
        player, holding the ids of the players scoring `m` in player order
        and zeros after them. */
    method CollectWinners(m: int, ghost scores: seq<int>) returns (winners: array<nat>)
      requires PlayersValid() && scores == Scores()
      ensures winners.Length == |scores|
      ensures var n := CountAt(scores, m);
              n <= winners.Length && winners[..n] == Winners(scores, m) &&
              forall k :: n <= k < winners.Length ==> winners[k] == 0
    {
      winners := new nat[|players|](_ => 0);
      var numOfWinners := 0;
      for i := 0 to |players|
        invariant numOfWinners == CountAt(scores[..i], m)
        invariant winners[..numOfWinners] == Winners(scores[..i], m)
        invariant forall k :: numOfWinners <= k < winners.Length ==> winners[k] == 0
      {
        WinnersStep(scores, m, i);
        var score := players[i].Score();
        if score == m {
          ghost var before := winners[..];
          winners[numOfWinners] := players[i].id;
          PrefixPush(before, winners[..], numOfWinners, i);
          numOfWinners := numOfWinners + 1;
        }
      }
      assert scores[..|players|] == scores;
    }

    /** `announceWinners`: the winners array has a place for every player and
        starts with the ids of every player at the top score, in player
        order, followed by zeros; with any player at all someone wins. Every
        player is then told to terminate. */
    method AnnounceWinners() returns (winners: array<nat>)
      requires PlayersValid()
      modifies players`terminate
      ensures PlayersValid()
      ensures winners.Length == |players|
      ensures var n := CountAt(Scores(), MaxScore(Scores()));
              n <= winners.Length && winners[..n] == Winners(Scores(), MaxScore(Scores())) &&
              (forall k :: n <= k < winners.Length ==> winners[k] == 0) &&
              (|players| > 0 ==> n > 0)
      ensures forall i :: 0 <= i < |players| ==> players[i].terminate
    {
      ghost var scores := Scores();
      var maxScore := TopScore();
      winners := CollectWinners(maxScore, scores);
      if |players| > 0 {
        MaxScoreAttained(scores);
        WinnersComplete(scores, maxScore);
      }
      TerminateAll();
    }

    /** The closing loop of `announceWinners`: every player is told to terminate. */
    method TerminateAll()
      requires PlayersValid()
      modifies players`terminate
      ensures PlayersValid() && Scores() == old(Scores())
      ensures forall i :: 0 <= i < |players| ==> players[i].terminate
    {
      for i := 0 to |players|
        invariant PlayersValid()
        invariant forall j :: 0 <= j < i ==> players[j].terminate
      {
        players[i].Terminate();
      }
    }

    /** `testSet`: an array that is not three long is refused and nothing
        changes; otherwise the library's verdict decides, and a legal set is
        taken off the table. The source hands the card ids to `removeCard`,
        whose argument is a slot, so it needs the three ids to name distinct
        occupied slots; the model does the same. The refill call that
        follows is an empty stub in this draft. */
    method TestSet(cards: seq<nat>) returns (result: bool)
      requires table.Valid()
      requires |cards| == SetSize && isSet(cards) ==>
                 NoDup(cards) &&
                 forall i :: 0 <= i < SetSize ==> cards[i] < table.slotToCard.Length && table.slotToCard[cards[i]].Some?
      modifies table.slotToCard, table.cardToSlot, table.grid, table.slotsToPlayers
      ensures table.Valid()
      ensures result == (|cards| == SetSize && isSet(cards))
      ensures !result ==> unchanged(table.slotToCard, table.cardToSlot, table.grid, table.slotsToPlayers)
      ensures result ==> forall s :: 0 <= s < table.slotToCard.Length ==>
                table.slotToCard[s] == if s in cards then None else old(table.slotToCard[s])
    {
      if |cards| != SetSize {
        return false;
      }
      var ok := isSet(cards);
      if !ok {
        return false;
      }
      for i := 0 to SetSize
        invariant table.Valid()
        invariant forall s :: 0 <= s < table.slotToCard.Length ==>
                    table.slotToCard[s] == if s in cards[..i] then None else old(table.slotToCard[s])
      {
        assert cards[i] !in cards[..i];
        table.RemoveCard(cards[i]);
        assert cards[..i + 1] == cards[..i] + [cards[i]];
      }
      assert cards[..SetSize] == cards;
      return true;
    }

    /** `removeAllCardsFromTable`: the table's own removal of every card;
        this draft does not return the cards to the deck. */
    method RemoveAllCardsFromTable()
      requires table.Valid()
      requires table.cardToSlot.Length <= table.slotToCard.Length
      requires forall s :: 0 <= s < table.cardToSlot.Length ==> table.slotToCard[s].Some?
      modifies table.slotToCard, table.cardToSlot, table.grid, table.slotsToPlayers
      ensures table.Valid()
      ensures forall s :: 0 <= s < table.slotToCard.Length ==> table.slotToCard[s].None?
      ensures deck == old(deck)
    {
      table.RemoveAllCardsFromTable();
    }
  }
}
