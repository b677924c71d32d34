/** The dealer and the players of the later draft (Dealer2.java, Player2.java),
    one sequential step at a time over the shared `Table2.Table`. */
module Game2 {
  import opened Cards
  import Table2

  /** Capacity of a player's `setsQueue` (an `ArrayBlockingQueue` of size 3). */
  const QueueCapacity: nat := 3

  /** Number of tokens (and cards) that make a claim. */
  const SetSize: nat := 3

  /** Every player holds at most `SetSize` tokens. */
  predicate TokensBounded(playersToSlots: seq<seq<nat>>)
  {
    forall p :: 0 <= p < |playersToSlots| ==> |playersToSlots[p]| <= SetSize
  }

  /** `Math.max(x, 0)`, the value the countdown shows. */
  function Clamp(x: int): (r: int)
    ensures r >= 0 && r >= x
    ensures r == x || r == 0
  {
    if x > 0 then x else 0
  }

  /** The deal of `placeCardsOnTable` over the slots in row-major order: each
      empty slot, while the deck lasts, takes the deck's front card. Yields the
      new slot contents and what is left of the deck. */
  function Deal(cells: seq<Cell>, deck: seq<nat>): (r: (seq<Cell>, seq<nat>))
    ensures |r.0| == |cells| && |r.1| <= |deck|
  {
    if cells == [] then ([], deck)
    else
      var prev := Deal(cells[..|cells| - 1], deck);
      if prev.1 != [] && cells[|cells| - 1].None? then (prev.0 + [Some(prev.1[0])], prev.1[1..])
      else (prev.0 + [cells[|cells| - 1]], prev.1)
  }

  /** A dealt slot keeps its card; an empty one stays empty or gets a deck card. */
  lemma {:induction false} DealKeeps(cells: seq<Cell>, deck: seq<nat>)
    ensures forall x :: 0 <= x < |cells| && cells[x].Some? ==> Deal(cells, deck).0[x] == cells[x]
    ensures forall x :: 0 <= x < |cells| && cells[x].None? ==>
              Deal(cells, deck).0[x].None? || Deal(cells, deck).0[x].value in deck
  {
    if cells != [] {
      var p := cells[..|cells| - 1];
      DealKeeps(p, deck);
      DealRest(p, deck);
      forall x | 0 <= x < |p|
        ensures cells[x] == p[x]
      {
      }
    }
  }

  /** What is left of the deck is the deck minus the cards dealt from its front. */
  lemma {:induction false} DealRest(cells: seq<Cell>, deck: seq<nat>)
    ensures Deal(cells, deck).1 == deck[|deck| - |Deal(cells, deck).1|..]
  {
    if cells != [] {
      DealRest(cells[..|cells| - 1], deck);
    }
  }

  /** While cards remain in the deck, no slot is left empty. */
  lemma {:induction false} DealFills(cells: seq<Cell>, deck: seq<nat>)
    ensures Deal(cells, deck).1 != [] ==> forall x :: 0 <= x < |cells| ==> Deal(cells, deck).0[x].Some?
  {
    if cells != [] {
      DealFills(cells[..|cells| - 1], deck);
    }
  }

  /** No card is lost or duplicated: the cards on the table and in the deck
      are the same before and after the deal. */
  lemma {:induction false} DealConserves(cells: seq<Cell>, deck: seq<nat>)
    ensures multiset(NonNull(Deal(cells, deck).0)) + multiset(Deal(cells, deck).1) ==
            multiset(NonNull(cells)) + multiset(deck)
  {
    if cells != [] {
      var p, last := cells[..|cells| - 1], cells[|cells| - 1];
      var prev, r := Deal(p, deck), Deal(cells, deck);
      DealConserves(p, deck);
      assert cells == p + [last];
      NonNullSnoc(p, last);
      DealCellConserves(prev.0, prev.1, last, r);
    }
  }

  /** One cell of the deal moves at most one card from the deck to the table. */
  lemma DealCellConserves(dealt: seq<Cell>, rest: seq<nat>, cell: Cell, r: (seq<Cell>, seq<nat>))
    requires r == if rest != [] && cell.None? then (dealt + [Some(rest[0])], rest[1..]) else (dealt + [cell], rest)
    ensures multiset(NonNull(r.0)) + multiset(r.1) ==
            multiset(NonNull(dealt)) + multiset(rest) + multiset(if cell.Some? then [cell.value] else [])
  {
    if rest != [] && cell.None? {
      NonNullSnoc(dealt, Some(rest[0]));
      assert rest == [rest[0]] + rest[1..];
    } else {
      NonNullSnoc(dealt, cell);
    }
  }

  /** On an empty table the deck's cards go to slots 0, 1, 2, ... in order. */
  lemma {:induction false} DealOnEmpty(cells: seq<Cell>, deck: seq<nat>)
    requires forall x :: 0 <= x < |cells| ==> cells[x].None?
    ensures forall x :: 0 <= x < |cells| ==> Deal(cells, deck).0[x] == Fill(deck, x)
    ensures Deal(cells, deck).1 == deck[if |deck| < |cells| then |deck| else |cells|..]
  {
    if cells != [] {
      var p := cells[..|cells| - 1];
      DealOnEmpty(p, deck);
    }
  }

  /** One more cell of the row-major scan, seen on the whole slot array:
      `current` is the dealt prefix followed by the untouched rest. */
  lemma DealStep(cells: seq<Cell>, deck: seq<nat>, x: nat, current: seq<Cell>, rest: seq<nat>)
    requires x < |cells|
    requires current == Deal(cells[..x], deck).0 + cells[x..] && rest == Deal(cells[..x], deck).1
    ensures current[x] == cells[x]
    ensures rest != [] && cells[x].None? ==>
              Deal(cells[..x + 1], deck) == (Deal(cells[..x], deck).0 + [Some(rest[0])], rest[1..]) &&
              current[x := Some(rest[0])] == Deal(cells[..x + 1], deck).0 + cells[x + 1..]
    ensures !(rest != [] && cells[x].None?) ==>
              Deal(cells[..x + 1], deck) == (Deal(cells[..x], deck).0 + [cells[x]], rest) &&
              current == Deal(cells[..x + 1], deck).0 + cells[x + 1..]
  {
    assert cells[..x + 1][..x] == cells[..x];
    assert cells[x..] == [cells[x]] + cells[x + 1..];
  }

  /** How the dealer judged one queued claim: too few tokens, a legal set, or
      a wrong one. */
  datatype Verdict = Dropped | Scored | Penalized

  /** The cards on the given slots, in order. */
  function CardsAt(slotToCard: seq<Cell>, slots: seq<nat>): (r: seq<nat>)
    requires forall k :: 0 <= k < |slots| ==> slots[k] < |slotToCard| && slotToCard[slots[k]].Some?
    ensures |r| == |slots|
    ensures forall k :: 0 <= k < |slots| ==> slotToCard[slots[k]] == Some(r[k])
  {
    seq(|slots|, k requires 0 <= k < |slots| => slotToCard[slots[k]].value)
  }

  /** Distinct occupied slots show distinct cards, each placed at its slot. */
  lemma CardsAtOnTable(slotToCard: seq<Cell>, cardToSlot: seq<Cell>, slots: seq<nat>)
    requires Bijection(slotToCard, cardToSlot) && NoDup(slots)
    requires forall k :: 0 <= k < |slots| ==> slots[k] < |slotToCard| && slotToCard[slots[k]].Some?
    ensures NoDup(CardsAt(slotToCard, slots))
    ensures forall k :: 0 <= k < |slots| ==>
              CardsAt(slotToCard, slots)[k] < |cardToSlot| && cardToSlot[CardsAt(slotToCard, slots)[k]] == Some(slots[k])
  {
    var cards := CardsAt(slotToCard, slots);
    forall k | 0 <= k < |slots|
      ensures cards[k] < |cardToSlot| && cardToSlot[cards[k]] == Some(slots[k])
    {
      BijectionIff(slotToCard, cardToSlot, slots[k], cards[k]);
    }
  }

  /** Points a player earned over a run of judged claims. */
  ghost function Credits(queue: seq<Player>, verdicts: seq<Verdict>, p: Player): (n: nat)
    requires |queue| == |verdicts|
    ensures n <= |queue|
  {
    if queue == [] then 0
    else Credits(queue[..|queue| - 1], verdicts[..|verdicts| - 1], p) +
         (if queue[|queue| - 1] == p && verdicts[|verdicts| - 1] == Scored then 1 else 0)
  }

  /** Claims that were all dropped earn nobody a point. */
  lemma {:induction false} CreditsAllDropped(queue: seq<Player>, verdicts: seq<Verdict>, p: Player)
    requires |queue| == |verdicts| && forall k :: 0 <= k < |verdicts| ==> verdicts[k] == Dropped
    ensures Credits(queue, verdicts, p) == 0
  {
    if queue != [] {
      CreditsAllDropped(queue[..|queue| - 1], verdicts[..|verdicts| - 1], p);
    }
  }

  /** One more judged claim adds its point, if any, to the tally. */
  lemma CreditsStep(queue: seq<Player>, verdicts: seq<Verdict>, p: Player, q: Player, v: Verdict)
    requires |queue| == |verdicts|
    ensures Credits(queue + [q], verdicts + [v], p) ==
            Credits(queue, verdicts, p) + if q == p && v == Scored then 1 else 0
  {
    assert (queue + [q])[..|queue|] == queue;
    assert (verdicts + [v])[..|verdicts|] == verdicts;
  }

  /** What the deck puts into the `k`-th freed slot: its `k`-th card, or
      nothing once it has run out. */
  function Fill(deck: seq<nat>, k: nat): (r: Cell)
    ensures r.Some? <==> k < |deck|
    ensures r.Some? ==> r.value == deck[k]
  {
    if k < |deck| then Some(deck[k]) else None
  }

  /** Slot contents once the first `i` of `slots` were cleared and refilled
      from the front of `deck`, in order. */
  function Refilled(slotToCard: seq<Cell>, slots: seq<nat>, deck: seq<nat>, i: nat): (r: seq<Cell>)
    requires i <= |slots| && forall j :: 0 <= j < |slots| ==> slots[j] < |slotToCard|
    ensures |r| == |slotToCard|
  {
    if i == 0 then slotToCard
    else Refilled(slotToCard, slots, deck, i - 1)[slots[i - 1] := Fill(deck, i - 1)]
  }

  /** Card positions once the first `i` of `cards` left their `slots` and the
      front cards of `deck` took those slots. */
  function Unmapped(cardToSlot: seq<Cell>, cards: seq<nat>, slots: seq<nat>, deck: seq<nat>, i: nat): (r: seq<Cell>)
    requires i <= |cards| && i <= |slots|
    requires forall j :: 0 <= j < |cards| ==> cards[j] < |cardToSlot|
    requires forall k :: 0 <= k < |deck| ==> deck[k] < |cardToSlot|
    ensures |r| == |cardToSlot|
  {
    if i == 0 then cardToSlot
    else
      var c := Unmapped(cardToSlot, cards, slots, deck, i - 1)[cards[i - 1] := None];
      if i - 1 < |deck| then c[deck[i - 1] := Some(slots[i - 1])] else c
  }

  /** The deck left after `i` refills is `deck`; its front is the `i`-th fill
      and one more refill leaves the rest. */
  lemma DeckFront(d: seq<nat>, i: nat, deck: seq<nat>)
    requires deck == d[if |d| < i then |d| else i..]
    ensures Fill(d, i) == if deck == [] then None else Some(deck[0])
    ensures (if deck == [] then [] else deck[1..]) == d[if |d| < i + 1 then |d| else i + 1..]
  {
  }

  /** Each refilled slot holds its deck card (or nothing); other slots keep their content. */
  lemma {:induction false} RefilledAt(slotToCard: seq<Cell>, slots: seq<nat>, deck: seq<nat>, i: nat)
    requires i <= |slots| && forall j :: 0 <= j < |slots| ==> slots[j] < |slotToCard|
    requires NoDup(slots)
    ensures forall j :: 0 <= j < i ==> Refilled(slotToCard, slots, deck, i)[slots[j]] == Fill(deck, j)
    ensures forall s :: 0 <= s < |slotToCard| && s !in slots[..i] ==> Refilled(slotToCard, slots, deck, i)[s] == slotToCard[s]
  {
    if i > 0 {
      RefilledAt(slotToCard, slots, deck, i - 1);
      assert forall s :: s in slots[..i] <==> s in slots[..i - 1] || s == slots[i - 1];
    }
  }

  /** Claimed cards that were handled are off the table, the others still sit
      where they were, provided the claimed cards are distinct and none of
      them is in the deck. */
  lemma {:induction false} UnmappedAt(cardToSlot: seq<Cell>, cards: seq<nat>, slots: seq<nat>, deck: seq<nat>, i: nat)
    requires i <= |cards| && i <= |slots|
    requires forall j :: 0 <= j < |cards| ==> cards[j] < |cardToSlot|
    requires forall k :: 0 <= k < |deck| ==> deck[k] < |cardToSlot|
    requires NoDup(cards) && forall k, j :: 0 <= k < |deck| && 0 <= j < |cards| ==> deck[k] != cards[j]
    ensures forall j :: 0 <= j < i ==> Unmapped(cardToSlot, cards, slots, deck, i)[cards[j]].None?
    ensures forall j :: i <= j < |cards| ==> Unmapped(cardToSlot, cards, slots, deck, i)[cards[j]] == cardToSlot[cards[j]]
  {
    if i > 0 {
      UnmappedAt(cardToSlot, cards, slots, deck, i - 1);
    }
  }

  /** The slots that `cardToSlot` gives for `cards`, in order. */
  function SlotsOf(cardToSlot: seq<Cell>, cards: seq<nat>): (r: seq<nat>)
    requires forall i :: 0 <= i < |cards| ==> cards[i] < |cardToSlot| && cardToSlot[cards[i]].Some?
    ensures |r| == |cards| && forall i :: 0 <= i < |cards| ==> Some(r[i]) == cardToSlot[cards[i]]
  {
    if cards == [] then [] else [cardToSlot[cards[0]].value] + SlotsOf(cardToSlot, cards[1..])
  }

  /** Distinct cards on the table sit on distinct slots, which hold them, and
      none of them is among the cards off the table. */
  lemma ClaimSlots(s2c: seq<Cell>, c2s: seq<Cell>, cards: seq<nat>, d: seq<nat>)
    requires Bijection(s2c, c2s) && NoDup(cards)
    requires forall i :: 0 <= i < |cards| ==> cards[i] < |c2s| && c2s[cards[i]].Some?
    requires forall k :: 0 <= k < |d| ==> d[k] < |c2s| && c2s[d[k]].None?
    ensures var slots := SlotsOf(c2s, cards);
            NoDup(slots) && forall i :: 0 <= i < |cards| ==> slots[i] < |s2c| && s2c[slots[i]] == Some(cards[i])
    ensures forall k, j :: 0 <= k < |d| && 0 <= j < |cards| ==> d[k] != cards[j]
  {
    var slots := SlotsOf(c2s, cards);
    forall i | 0 <= i < |cards|
      ensures slots[i] < |s2c| && s2c[slots[i]] == Some(cards[i])
    {
      BijectionIff(s2c, c2s, slots[i], cards[i]);
    }
  }

  /** After the three refills, each claimed slot holds its fill and has no
      token, each claimed card is off the table, every slot that did not hold
      a claimed card keeps its card and its tokens, and each player's list
      loses exactly the claimed slots. */
  lemma ClaimRefilled(s2c: seq<Cell>, c2s: seq<Cell>, sp: seq<seq<nat>>, ps: seq<seq<nat>>,
                      cards: seq<nat>, slots: seq<nat>, d: seq<nat>)
    requires |cards| == SetSize && |slots| == SetSize && NoDup(cards) && NoDup(slots)
    requires forall j :: 0 <= j < SetSize ==>
               cards[j] < |c2s| && c2s[cards[j]] == Some(slots[j]) && slots[j] < |s2c| && s2c[slots[j]] == Some(cards[j])
    requires forall k :: 0 <= k < |d| ==> d[k] < |c2s|
    requires forall k, j :: 0 <= k < |d| && 0 <= j < SetSize ==> d[k] != cards[j]
    requires |sp| == |s2c| && forall p :: 0 <= p < |ps| ==> NoDup(ps[p])
    ensures forall i :: 0 <= i < SetSize ==>
              Refilled(s2c, slots, d, SetSize)[slots[i]] == Fill(d, i) && Table2.Cleared(sp, slots, SetSize)[slots[i]] == []
    ensures forall i :: 0 <= i < SetSize ==> Unmapped(c2s, cards, slots, d, SetSize)[cards[i]].None?
    ensures forall s :: 0 <= s < |s2c| && !(s2c[s].Some? && s2c[s].value in cards) ==>
              Refilled(s2c, slots, d, SetSize)[s] == s2c[s] && Table2.Cleared(sp, slots, SetSize)[s] == sp[s]
    ensures forall p, s :: 0 <= p < |ps| ==> (s in Table2.EvictAll(ps, slots, SetSize)[p] <==> s in ps[p] && s !in slots)
  {
    RefilledAt(s2c, slots, d, SetSize);
    UnmappedAt(c2s, cards, slots, d, SetSize);
    Table2.ClearedAt(sp, slots, SetSize);
    Table2.EvictAllMembers(ps, slots, SetSize);
    assert slots[..SetSize] == slots;
    forall s | 0 <= s < |s2c| && !(s2c[s].Some? && s2c[s].value in cards)
      ensures s !in slots
    {
    }
  }

  /** What judging a claim reads and writes: the deck and the table's four maps. */
  datatype Board = Board(deck: seq<nat>, slotToCard: seq<Cell>, cardToSlot: seq<Cell>,
                         slotsToPlayers: seq<seq<nat>>, playersToSlots: seq<seq<nat>>)

  /** The claim of player `id` can be read off the board: three token slots
      holding cards of the game, a deck of cards of the game, and a token
      list per slot. */
  predicate ClaimReadable(b: Board, id: nat)
  {
    id < |b.playersToSlots| && |b.playersToSlots[id]| == SetSize && |b.slotsToPlayers| == |b.slotToCard| &&
    (forall k :: 0 <= k < SetSize ==>
       b.playersToSlots[id][k] < |b.slotToCard| && b.slotToCard[b.playersToSlots[id][k]].Some? &&
       b.slotToCard[b.playersToSlots[id][k]].value < |b.cardToSlot|) &&
    (forall k :: 0 <= k < |b.deck| ==> b.deck[k] < |b.cardToSlot|)
  }

  /** The verdict of `removeCardsFromTable` on the claim of player `id`:
      dropped unless the player holds three tokens, scored when the cards
      under them form a set, penalized otherwise. */
  function Judged(isSet: Matcher, b: Board, id: nat): (v: Verdict)
    ensures v == Dropped <==> id >= |b.playersToSlots| || |b.playersToSlots[id]| != SetSize
    ensures v == Scored ==> ClaimReadable(b, id)
  {
    if id >= |b.playersToSlots| || |b.playersToSlots[id]| != SetSize then Dropped
    else if ClaimReadable(b, id) && isSet(CardsAt(b.slotToCard, b.playersToSlots[id])) then Scored
    else Penalized
  }

  /** The board once the claim of player `id` is judged: a dropped claim
      changes nothing; a legal set leaves the table, its slots refilled from
      the front of the deck and their tokens gone; a wrong one costs the
      player every token. */
  function AfterClaim(isSet: Matcher, b: Board, id: nat): (r: Board)
    ensures |r.slotToCard| == |b.slotToCard| && |r.cardToSlot| == |b.cardToSlot|
    ensures |r.slotsToPlayers| == |b.slotsToPlayers| && |r.playersToSlots| == |b.playersToSlots|
  {
    match Judged(isSet, b, id)
    case Dropped => b
    case Scored =>
      var tokens := b.playersToSlots[id];
      Board(b.deck[if |b.deck| < SetSize then |b.deck| else SetSize..],
            Refilled(b.slotToCard, tokens, b.deck, SetSize),
            Unmapped(b.cardToSlot, CardsAt(b.slotToCard, tokens), tokens, b.deck, SetSize),
            Table2.Cleared(b.slotsToPlayers, tokens, SetSize),
            Table2.EvictAll(b.playersToSlots, tokens, SetSize))
    case Penalized =>
      b.(slotsToPlayers := Table2.Withdraw(b.slotsToPlayers, id), playersToSlots := b.playersToSlots[id := []])
  }

  /** The board once the claims of `ids` are judged in order, oldest first. */
  function JudgeAll(isSet: Matcher, b: Board, ids: seq<nat>): (r: Board)
    ensures |r.slotToCard| == |b.slotToCard| && |r.cardToSlot| == |b.cardToSlot|
    ensures |r.slotsToPlayers| == |b.slotsToPlayers| && |r.playersToSlots| == |b.playersToSlots|
  {
    if ids == [] then b
    else AfterClaim(isSet, JudgeAll(isSet, b, ids[..|ids| - 1]), ids[|ids| - 1])
  }

  /** The verdicts on the claims of `ids`, each on the board its predecessors left. */
  function Verdicts(isSet: Matcher, b: Board, ids: seq<nat>): (r: seq<Verdict>)
    ensures |r| == |ids|
  {
    if ids == [] then []
    else Verdicts(isSet, b, ids[..|ids| - 1]) + [Judged(isSet, JudgeAll(isSet, b, ids[..|ids| - 1]), ids[|ids| - 1])]
  }

  /** The ids of the queued players, oldest first. */
  function ClaimantIds(queue: seq<Player>): (r: seq<nat>)
    ensures |r| == |queue| && forall k :: 0 <= k < |queue| ==> r[k] == queue[k].id
  {
    seq(|queue|, k requires 0 <= k < |queue| => queue[k].id)
  }

  /** While no player holds three tokens, every claim is dropped and the
      board stays as it is. */
  lemma {:induction false} QuietJudgeAll(isSet: Matcher, b: Board, ids: seq<nat>)
    requires forall p :: 0 <= p < |b.playersToSlots| ==> |b.playersToSlots[p]| != SetSize
    ensures JudgeAll(isSet, b, ids) == b
    ensures forall k :: 0 <= k < |ids| ==> Verdicts(isSet, b, ids)[k] == Dropped
  {
    if ids != [] {
      QuietJudgeAll(isSet, b, ids[..|ids| - 1]);
    }
  }

  /** A judged claim, scored or penalized, leaves its player without a token. */
  lemma ClaimantCleared(isSet: Matcher, b: Board, id: nat)
    requires Table2.TokensConsistent(b.slotToCard, b.slotsToPlayers, b.playersToSlots)
    requires Judged(isSet, b, id) != Dropped
    ensures AfterClaim(isSet, b, id).playersToSlots[id] == []
  {
    var tokens := b.playersToSlots[id];
    if Judged(isSet, b, id) == Scored {
      var left := Table2.EvictAll(b.playersToSlots, tokens, SetSize);
      Table2.EvictAllLength(b.playersToSlots, tokens, SetSize, id);
      assert AfterClaim(isSet, b, id).playersToSlots == left;
    }
  }

  /** Judging one more claim on the last board extends a run of judgements. */
  lemma BoardsExtend(isSet: Matcher, ids: seq<nat>, verdicts: seq<Verdict>, boards: seq<Board>, v: Verdict, b: Board)
    requires |boards| == |verdicts| + 1 && |verdicts| < |ids|
    requires forall k :: 0 <= k < |verdicts| ==>
               verdicts[k] == Judged(isSet, boards[k], ids[k]) && boards[k + 1] == AfterClaim(isSet, boards[k], ids[k])
    requires v == Judged(isSet, boards[|verdicts|], ids[|verdicts|])
    requires b == AfterClaim(isSet, boards[|verdicts|], ids[|verdicts|])
    ensures forall k :: 0 <= k < |verdicts| + 1 ==>
              (verdicts + [v])[k] == Judged(isSet, (boards + [b])[k], ids[k]) &&
              (boards + [b])[k + 1] == AfterClaim(isSet, (boards + [b])[k], ids[k])
  {
  }

  /** One more claim judged: the fold and the verdicts grow by one step. */
  lemma JudgeAllStep(isSet: Matcher, b: Board, ids: seq<nat>, n: nat)
    requires n < |ids|
    ensures JudgeAll(isSet, b, ids[..n + 1]) == AfterClaim(isSet, JudgeAll(isSet, b, ids[..n]), ids[n])
    ensures Verdicts(isSet, b, ids[..n + 1]) == Verdicts(isSet, b, ids[..n]) + [Judged(isSet, JudgeAll(isSet, b, ids[..n]), ids[n])]
  {
    assert ids[..n + 1][..n] == ids[..n];
  }

  /** A run of judgements, one board after another, is `JudgeAll` and
      `Verdicts` of its first board: the claims are judged in queue order. */
  lemma BoardsAreJudgeAll(isSet: Matcher, ids: seq<nat>, verdicts: seq<Verdict>, boards: seq<Board>)
    requires |verdicts| == |ids| && |boards| == |ids| + 1
    requires forall k :: 0 <= k < |ids| ==>
               verdicts[k] == Judged(isSet, boards[k], ids[k]) && boards[k + 1] == AfterClaim(isSet, boards[k], ids[k])
    ensures boards[|ids|] == JudgeAll(isSet, boards[0], ids)
    ensures verdicts == Verdicts(isSet, boards[0], ids)
  {
    BoardsPrefix(isSet, ids, verdicts, boards, |ids|);
    assert ids[..|ids|] == ids && verdicts[..|ids|] == verdicts;
  }

  /** The first `n` judgements of a run are `JudgeAll` and `Verdicts` of
      the first `n` claims. */
  lemma {:induction false} BoardsPrefix(isSet: Matcher, ids: seq<nat>, verdicts: seq<Verdict>, boards: seq<Board>, n: nat)
    requires |verdicts| == |ids| && |boards| == |ids| + 1 && n <= |ids|
    requires forall k :: 0 <= k < |ids| ==>
               verdicts[k] == Judged(isSet, boards[k], ids[k]) && boards[k + 1] == AfterClaim(isSet, boards[k], ids[k])
    ensures boards[n] == JudgeAll(isSet, boards[0], ids[..n])
    ensures verdicts[..n] == Verdicts(isSet, boards[0], ids[..n])
  {
    if n > 0 {
      BoardsPrefix(isSet, ids, verdicts, boards, n - 1);
      JudgeAllStep(isSet, boards[0], ids, n - 1);
      assert verdicts[..n] == verdicts[..n - 1] + [verdicts[n - 1]];
    }
  }

  /** While no player holds three tokens, every claim of a run of
      judgements is dropped and the last board is the first. */
  lemma QuietBoards(isSet: Matcher, ids: seq<nat>, verdicts: seq<Verdict>, boards: seq<Board>)
    requires |verdicts| == |ids| && |boards| == |ids| + 1
    requires forall p :: 0 <= p < |boards[0].playersToSlots| ==> |boards[0].playersToSlots[p]| != SetSize
    requires forall k :: 0 <= k < |ids| ==>
               verdicts[k] == Judged(isSet, boards[k], ids[k]) && boards[k + 1] == AfterClaim(isSet, boards[k], ids[k])
    ensures forall k :: 0 <= k < |ids| ==> verdicts[k] == Dropped
    ensures boards[|ids|] == boards[0]
  {
    BoardsAreJudgeAll(isSet, ids, verdicts, boards);
    QuietJudgeAll(isSet, boards[0], ids);
  }

  /** The board a legal set leaves, spelled out: `AfterClaim` of a scored claim. */
  lemma ScoredClaim(isSet: Matcher, b: Board, id: nat, a: Board)
    requires ClaimReadable(b, id) && isSet(CardsAt(b.slotToCard, b.playersToSlots[id]))
    requires var tokens := b.playersToSlots[id];
             a == Board(b.deck[if |b.deck| < SetSize then |b.deck| else SetSize..],
                        Refilled(b.slotToCard, tokens, b.deck, SetSize),
                        Unmapped(b.cardToSlot, CardsAt(b.slotToCard, tokens), tokens, b.deck, SetSize),
                        Table2.Cleared(b.slotsToPlayers, tokens, SetSize),
                        Table2.EvictAll(b.playersToSlots, tokens, SetSize))
    ensures Judged(isSet, b, id) == Scored && AfterClaim(isSet, b, id) == a
  {
  }

  /** What a legal set does to a valid board: the deck loses its front
      cards, each token slot holds its deck card (or nothing) and no token,
      the claimed cards leave the table, every other slot keeps its card and
      its tokens, and each player's list loses exactly the token slots. */
  lemma ScoredBoard(isSet: Matcher, b: Board, id: nat)
    requires Bijection(b.slotToCard, b.cardToSlot)
    requires Table2.TokensConsistent(b.slotToCard, b.slotsToPlayers, b.playersToSlots)
    requires forall k :: 0 <= k < |b.deck| ==> b.deck[k] < |b.cardToSlot| && b.cardToSlot[b.deck[k]].None?
    requires Judged(isSet, b, id) == Scored
    ensures AfterClaim(isSet, b, id).deck == b.deck[if |b.deck| < SetSize then |b.deck| else SetSize..]
    ensures forall k :: 0 <= k < SetSize ==>
              var slot := b.playersToSlots[id][k];
              AfterClaim(isSet, b, id).slotToCard[slot] == Fill(b.deck, k) &&
              AfterClaim(isSet, b, id).slotsToPlayers[slot] == [] &&
              AfterClaim(isSet, b, id).cardToSlot[b.slotToCard[slot].value].None?
    ensures forall s :: 0 <= s < |b.slotToCard| && s !in b.playersToSlots[id] ==>
              AfterClaim(isSet, b, id).slotToCard[s] == b.slotToCard[s] &&
              AfterClaim(isSet, b, id).slotsToPlayers[s] == b.slotsToPlayers[s]
    ensures forall p, s {:trigger s in AfterClaim(isSet, b, id).playersToSlots[p]} :: 0 <= p < |b.playersToSlots| ==>
              (s in AfterClaim(isSet, b, id).playersToSlots[p] <==> s in b.playersToSlots[p] && s !in b.playersToSlots[id])
  {
    var tokens := b.playersToSlots[id];
    var cards := CardsAt(b.slotToCard, tokens);
    assert AfterClaim(isSet, b, id) == Board(b.deck[if |b.deck| < SetSize then |b.deck| else SetSize..],
                      Refilled(b.slotToCard, tokens, b.deck, SetSize),
                      Unmapped(b.cardToSlot, cards, tokens, b.deck, SetSize),
                      Table2.Cleared(b.slotsToPlayers, tokens, SetSize),
                      Table2.EvictAll(b.playersToSlots, tokens, SetSize));
    ScoredFrame(b, tokens);
    ScoredUnmapped(b, tokens);
  }

  /** The claimed cards leave the table once their slots are refilled. */
  lemma ScoredUnmapped(b: Board, tokens: seq<nat>)
    requires Bijection(b.slotToCard, b.cardToSlot) && |tokens| == SetSize && NoDup(tokens)
    requires forall k :: 0 <= k < SetSize ==> tokens[k] < |b.slotToCard| && b.slotToCard[tokens[k]].Some?
    requires forall k :: 0 <= k < |b.deck| ==> b.deck[k] < |b.cardToSlot| && b.cardToSlot[b.deck[k]].None?
    ensures forall k :: 0 <= k < SetSize ==>
              Unmapped(b.cardToSlot, CardsAt(b.slotToCard, tokens), tokens, b.deck, SetSize)[b.slotToCard[tokens[k]].value].None?
  {
    var cards := CardsAt(b.slotToCard, tokens);
    CardsAtOnTable(b.slotToCard, b.cardToSlot, tokens);
    forall k, j | 0 <= k < |b.deck| && 0 <= j < SetSize
      ensures b.deck[k] != cards[j]
    {
    }
    UnmappedAt(b.cardToSlot, cards, tokens, b.deck, SetSize);
  }

  /** The board a wrong claim leaves, spelled out: `AfterClaim` of a penalized claim. */
  lemma PenalizedClaim(isSet: Matcher, b: Board, id: nat, a: Board)
    requires ClaimReadable(b, id) && !isSet(CardsAt(b.slotToCard, b.playersToSlots[id]))
    requires a == b.(slotsToPlayers := Table2.Withdraw(b.slotsToPlayers, id), playersToSlots := b.playersToSlots[id := []])
    ensures Judged(isSet, b, id) == Penalized && AfterClaim(isSet, b, id) == a
  {
  }

  /** On a board whose maps are consistent, a claimant holding three tokens
      can always be read off the board. */
  lemma ReadableOnValidBoard(b: Board, id: nat)
    requires Bijection(b.slotToCard, b.cardToSlot)
    requires Table2.TokensConsistent(b.slotToCard, b.slotsToPlayers, b.playersToSlots)
    requires forall k :: 0 <= k < |b.deck| ==> b.deck[k] < |b.cardToSlot|
    requires id < |b.playersToSlots| && |b.playersToSlots[id]| == SetSize
    ensures ClaimReadable(b, id)
  {
    var tokens := b.playersToSlots[id];
    forall k | 0 <= k < SetSize
      ensures tokens[k] < |b.slotToCard| && b.slotToCard[tokens[k]].Some? && b.slotToCard[tokens[k]].value < |b.cardToSlot|
    {
      assert tokens[k] in b.playersToSlots[id];
    }
  }

  /** A scored claim leaves every slot off its tokens with the card and the
      tokens it had, gives each token slot its deck card (or nothing) and no
      token, and takes exactly the token slots off every player's list. */
  lemma ScoredFrame(b: Board, tokens: seq<nat>)
    requires |tokens| == SetSize && NoDup(tokens) && |b.slotsToPlayers| == |b.slotToCard|
    requires forall k :: 0 <= k < SetSize ==> tokens[k] < |b.slotToCard|
    requires forall p :: 0 <= p < |b.playersToSlots| ==> NoDup(b.playersToSlots[p])
    ensures forall k :: 0 <= k < SetSize ==>
              Refilled(b.slotToCard, tokens, b.deck, SetSize)[tokens[k]] == Fill(b.deck, k) &&
              Table2.Cleared(b.slotsToPlayers, tokens, SetSize)[tokens[k]] == []
    ensures forall s :: 0 <= s < |b.slotToCard| && s !in tokens ==>
              Refilled(b.slotToCard, tokens, b.deck, SetSize)[s] == b.slotToCard[s] &&
              Table2.Cleared(b.slotsToPlayers, tokens, SetSize)[s] == b.slotsToPlayers[s]
    ensures forall p, s {:trigger s in Table2.EvictAll(b.playersToSlots, tokens, SetSize)[p]} :: 0 <= p < |b.playersToSlots| ==>
              (s in Table2.EvictAll(b.playersToSlots, tokens, SetSize)[p] <==> s in b.playersToSlots[p] && s !in tokens)
  {
    assert tokens[..SetSize] == tokens;
    Table2.ClearedAt(b.slotsToPlayers, tokens, SetSize);
    Table2.EvictAllMembers(b.playersToSlots, tokens, SetSize);
    RefilledAt(b.slotToCard, tokens, b.deck, SetSize);
  }

  /** `setsQueue.offer(slot)` on the capacity-3 key-press queue: the slot
      joins the back unless the queue is full, and then it is dropped. */
  function Offered(queue: seq<nat>, slot: nat): (r: seq<nat>)
    ensures |r| <= QueueCapacity || r == queue
    ensures |queue| < QueueCapacity <==> r == queue + [slot]
  {
    if |queue| < QueueCapacity then queue + [slot] else queue
  }

  class Player {
    const id: nat
    const table: Table2.Table
    const human: bool
    /** A Java `int`; overflow after 2^31-1 points is not modelled. */
    var score: int
    /** Slots whose key was pressed, oldest first. */
    var setsQueue: seq<nat>
    var isFrozen: bool
    var lockTable: bool
    var terminate: bool

    /** The class invariant (`@inv score >= 0`), a bounded queue of slots of
        the table, and an id the table has a token list for. */
    ghost predicate Valid()
      reads this
    {
      score >= 0 && |setsQueue| <= QueueCapacity &&
      (forall k :: 0 <= k < |setsQueue| ==> setsQueue[k] < table.slotToCard.Length) &&
      id < table.playersToSlots.Length
    }

    /** The dealer a player reports to is a parameter of `TreatSetQueue` here. */
    constructor (table: Table2.Table, id: nat, human: bool)
      ensures this.table == table && this.id == id && this.human == human
      ensures score == 0 && setsQueue == [] && !isFrozen && !lockTable && !terminate
    {
      this.table := table;
      this.id := id;
      this.human := human;
      score := 0;
      setsQueue := [];
      isFrozen := false;
      lockTable := false;
      terminate := false;
    }

    /** `keyPressed`: ignored while the table is locked or the player frozen;
        otherwise a press on a slot holding this player's token removes the
        token, and any other press offers the slot to the bounded queue (an
        offer to a full queue is dropped). A key outside the table raises an
        exception that the source swallows, so it changes nothing. */
    method KeyPressed(slot: int)
      requires Valid() && table.Valid() && TokensBounded(table.playersToSlots[..])
      modifies this`setsQueue, table.slotsToPlayers, table.playersToSlots
      ensures Valid() && table.Valid() && TokensBounded(table.playersToSlots[..])
      ensures old(lockTable || isFrozen) || slot < 0 || slot >= table.slotToCard.Length ==>
                setsQueue == old(setsQueue) &&
                table.slotsToPlayers[..] == old(table.slotsToPlayers[..]) &&
                table.playersToSlots[..] == old(table.playersToSlots[..])
      ensures !old(lockTable || isFrozen) && 0 <= slot < table.slotToCard.Length ==>
                if id in old(table.slotsToPlayers[slot]) then
                  setsQueue == old(setsQueue) &&
                  table.slotsToPlayers[..] == old(table.slotsToPlayers[..])[slot := RemoveFirst(old(table.slotsToPlayers[slot]), id)] &&
                  table.playersToSlots[..] == old(table.playersToSlots[..])[id := RemoveFirst(old(table.playersToSlots[id]), slot)]
                else
                  setsQueue == Offered(old(setsQueue), slot) &&
                  table.slotsToPlayers[..] == old(table.slotsToPlayers[..]) &&
                  table.playersToSlots[..] == old(table.playersToSlots[..])
    {
      if !lockTable && !isFrozen && 0 <= slot < table.slotToCard.Length {
        ghost var tokens := table.playersToSlots[id];
        var removed := table.RemoveToken(id, slot);
        assert |table.playersToSlots[id]| <= |tokens| by {
          assert table.playersToSlots[id] == table.playersToSlots[..][id];
        }
        if !removed {
          setsQueue := Offered(setsQueue, slot);
        }
      }
    }

    /** One step of `treatSetQueue`: takes the oldest queued slot; places a
        token there if the player holds fewer than three and none on that slot,
        removes the token if it holds one there, and reports to the dealer when
        it ends up holding three. A slot that holds no card gets no token,
        since the card is tested for null (the corrected reading of `getCard`;
        see the findings). The blocking `take` on an empty queue is a step that
        does nothing here. */
    method TreatSetQueue(dealer: Dealer)
      requires Valid() && table.Valid() && TokensBounded(table.playersToSlots[..])
      modifies this`setsQueue, table.slotsToPlayers, table.playersToSlots, dealer`playersQueue
      ensures Valid() && table.Valid() && TokensBounded(table.playersToSlots[..])
      ensures old(setsQueue) == [] ==>
                setsQueue == [] && dealer.playersQueue == old(dealer.playersQueue) &&
                table.slotsToPlayers[..] == old(table.slotsToPlayers[..]) &&
                table.playersToSlots[..] == old(table.playersToSlots[..])
      ensures old(setsQueue) != [] ==> setsQueue == old(setsQueue[1..])
      ensures old(setsQueue) != [] ==>
                var slot, tokens := old(setsQueue[0]), old(table.playersToSlots[id]);
                if |tokens| < SetSize && slot !in tokens && old(table.slotToCard[slot]).Some? then
                  table.slotsToPlayers[..] == old(table.slotsToPlayers[..])[slot := old(table.slotsToPlayers[slot]) + [id]] &&
                  table.playersToSlots[..] == old(table.playersToSlots[..])[id := tokens + [slot]]
                else if slot in tokens then
                  table.slotsToPlayers[..] == old(table.slotsToPlayers[..])[slot := RemoveFirst(old(table.slotsToPlayers[slot]), id)] &&
                  table.playersToSlots[..] == old(table.playersToSlots[..])[id := RemoveFirst(tokens, slot)]
                else
                  table.slotsToPlayers[..] == old(table.slotsToPlayers[..]) &&
                  table.playersToSlots[..] == old(table.playersToSlots[..])
      ensures old(setsQueue) != [] && old(table.slotToCard[setsQueue[0]]).None? ==>
                table.slotsToPlayers[..] == old(table.slotsToPlayers[..]) &&
                table.playersToSlots[..] == old(table.playersToSlots[..])
      ensures old(setsQueue) != [] ==>
                dealer.playersQueue ==
                  old(dealer.playersQueue) + (if |table.playersToSlots[id]| == SetSize then [this] else [])
    {
      if setsQueue != [] {
        var slot := setsQueue[0];
        setsQueue := setsQueue[1..];
        ToggleToken(slot);
        if |table.playersToSlots[id]| == SetSize {
          dealer.PlayerToQueue(this);
        }
      }
    }

    /** The token step of `TreatSetQueue` for the slot just taken from the
        queue: place a token on a slot holding a card, remove a held one, or
        leave the table alone; an empty slot never changes the tokens. */
    method ToggleToken(slot: nat)
      requires Valid() && table.Valid() && TokensBounded(table.playersToSlots[..])
      requires slot < table.slotToCard.Length
      modifies table.slotsToPlayers, table.playersToSlots
      ensures table.Valid() && TokensBounded(table.playersToSlots[..])
      ensures var tokens := old(table.playersToSlots[id]);
              if |tokens| < SetSize && slot !in tokens && table.slotToCard[slot].Some? then
                table.slotsToPlayers[..] == old(table.slotsToPlayers[..])[slot := old(table.slotsToPlayers[slot]) + [id]] &&
                table.playersToSlots[..] == old(table.playersToSlots[..])[id := tokens + [slot]]
              else if slot in tokens then
                table.slotsToPlayers[..] == old(table.slotsToPlayers[..])[slot := RemoveFirst(old(table.slotsToPlayers[slot]), id)] &&
                table.playersToSlots[..] == old(table.playersToSlots[..])[id := RemoveFirst(tokens, slot)]
              else
                table.slotsToPlayers[..] == old(table.slotsToPlayers[..]) &&
                table.playersToSlots[..] == old(table.playersToSlots[..])
      ensures old(table.slotToCard[slot]).None? ==>
                table.slotsToPlayers[..] == old(table.slotsToPlayers[..]) &&
                table.playersToSlots[..] == old(table.playersToSlots[..])
    {
      var card := table.slotToCard[slot];
      var tokens := table.playersToSlots[id];
      if |tokens| < SetSize && slot !in tokens && card.Some? {
        assert id !in table.slotsToPlayers[slot];
        table.PlaceToken(id, slot);
      } else if slot in tokens {
        var removed := table.RemoveToken(id, slot);
      }
    }

    /** `point`: one more point; the freeze is over when the method returns. */
    method Point()
      requires Valid()
      modifies this`score, this`isFrozen
      ensures score == old(score) + 1 && !isFrozen
      ensures Valid()
    {
      isFrozen := true;
      isFrozen := false;
      var ignored := table.CountCards();
      score := score + 1;
    }

    /** `penalty`: a freeze, and the score is left as it was. */
    method Penalty()
      modifies this`isFrozen
      ensures !isFrozen
    {
      isFrozen := true;
      isFrozen := false;
    }

    /** `score`. */
    method Score() returns (s: int)
      ensures s == score
      ensures Valid() ==> s >= 0
    {
      s := score;
    }

    /** `setListToArray`: this player's token slots, in the order they were placed. */
    method SetListToArray() returns (a: array<nat>)
      requires id < table.playersToSlots.Length
      ensures a[..] == table.playersToSlots[id]
    {
      var tokens := table.playersToSlots[id];
      a := new nat[|tokens|](k requires 0 <= k < |tokens| => tokens[k]);
    }

    /** `setLockTable`. */
    method SetLockTable(status: bool)
      modifies this`lockTable
      ensures lockTable == status
    {
      lockTable := status;
    }

    /** `terminate`: the flag is raised (the thread interrupts are not modelled). */
    method Terminate()
      modifies this`terminate
      ensures terminate
    {
      terminate := true;
    }
  }

  class Dealer {
    const table: Table2.Table
    const players: seq<Player>
    /** `env.util.testSet`, the matching rule of an external library. */
    const isSet: Matcher
    const turnTimeoutMillis: int
    const turnTimeoutWarningMillis: int
    /** Cards not yet dealt, front first. */
    var deck: seq<nat>
    var terminate: bool
    /** Deadline of the current turn, in milliseconds. */
    var reshuffleTime: int
    /** Players that reported three tokens, oldest first. */
    var playersQueue: seq<Player>

    /** Player `i` has id `i` and plays at this table. */
    ghost predicate Wired()
    {
      |players| == table.playersToSlots.Length &&
      forall i :: 0 <= i < |players| ==> players[i].id == i && players[i].table == table
    }

    /** The deck holds distinct cards of the game, none of them on the table. */
    ghost predicate DeckValid()
      reads this, table.cardToSlot
    {
      NoDup(deck) &&
      forall k :: 0 <= k < |deck| ==> deck[k] < table.cardToSlot.Length && table.cardToSlot[deck[k]].None?
    }

    /** Every player is wired to this table and valid. */
    ghost predicate PlayersValid()
      reads players
    {
      Wired() && forall i :: 0 <= i < |players| ==> players[i].Valid()
    }

    /** The dealer's invariant: a valid table on which no player holds more
        than three tokens, wired players that are each valid, a valid deck,
        and a claim queue drawn from the players. */
    ghost predicate Valid()
      reads this, players, table.slotToCard, table.cardToSlot, table.grid, table.slotsToPlayers, table.playersToSlots
    {
      table.Valid() && TokensBounded(table.playersToSlots[..]) && DeckValid() && PlayersValid() &&
      (forall k :: 0 <= k < |playersQueue| ==> playersQueue[k] in players)
    }

    constructor (table: Table2.Table, players: seq<Player>, isSet: Matcher,
                 deckSize: nat, turnTimeoutMillis: int, turnTimeoutWarningMillis: int, now: int)
      ensures this.table == table && this.players == players && this.isSet == isSet
      ensures this.turnTimeoutMillis == turnTimeoutMillis && this.turnTimeoutWarningMillis == turnTimeoutWarningMillis
      ensures |deck| == deckSize && forall k :: 0 <= k < deckSize ==> deck[k] == k
      ensures !terminate && reshuffleTime == now && playersQueue == []
    {
      this.table := table;
      this.players := players;
      this.isSet := isSet;
      this.turnTimeoutMillis := turnTimeoutMillis;
      this.turnTimeoutWarningMillis := turnTimeoutWarningMillis;
      deck := seq(deckSize, k => k);
      terminate := false;
      reshuffleTime := now;
      playersQueue := [];
    }

    /** `playerToQueue`. */
    method PlayerToQueue(player: Player)
      modifies this`playersQueue
      ensures playersQueue == old(playersQueue) + [player]
    {
      playersQueue := playersQueue + [player];
    }

    /** `returnAllToDeck`: the cards on the table join the back of the deck in
        slot order (they stay on the table). */
    method ReturnAllToDeck()
      modifies this`deck
      ensures deck == old(deck) + NonNull(table.slotToCard[..])
      ensures |deck| == |old(deck)| + CountSome(table.slotToCard[..])
    {
      var onTable := table.GetSlotToCard();
      for i := 0 to onTable.Length
        invariant deck == old(deck) + NonNull(onTable[..i])
      {
        assert onTable[..i + 1][..i] == onTable[..i];
        if onTable[i].Some? {
          deck := deck + [onTable[i].value];
        }
      }
      assert onTable[..] == onTable[..onTable.Length];
      NonNullCount(onTable[..]);
    }

    /** `removeAllCardsFromTable`: every card on the table goes back to the
        deck behind the cards already there, the table is cleared of cards
        and tokens, the claim queue is judged (every claim is dropped, since
        no player holds a token any more) and every player's queue of key
        presses is emptied; no score changes. */
    method RemoveAllCardsFromTable(now: int)
      requires Valid()
      modifies this`deck, this`reshuffleTime, this`playersQueue, table.slotToCard, table.cardToSlot, table.grid,
               table.slotsToPlayers, table.playersToSlots, players`score, players`isFrozen, players`setsQueue
      ensures Valid()
      ensures deck == old(deck) + NonNull(old(table.slotToCard[..]))
      ensures forall s :: 0 <= s < table.slotToCard.Length ==> table.slotToCard[s].None? && table.slotsToPlayers[s] == []
      ensures forall p :: 0 <= p < table.playersToSlots.Length ==> table.playersToSlots[p] == []
      ensures playersQueue == []
      ensures forall i :: 0 <= i < |players| ==> players[i].setsQueue == [] && players[i].score == old(players[i].score)
      ensures reshuffleTime == old(reshuffleTime)
    {
      ghost var queue := playersQueue;
      ClearTable();
      ghost var verdicts, boards := RemoveCardsFromTable(now);
      forall i | 0 <= i < |players|
        ensures players[i].score == old(players[i].score)
      {
        CreditsAllDropped(queue, verdicts, players[i]);
      }
      ClearQueues();
    }

    /** `returnAllToDeck` followed by the table's `removeAllCardsFromTable`:
        the deck stays free of repetition because the cards on the table are
        distinct and none of them was in the deck. */
    method ClearTable()
      requires Valid()
      modifies this`deck, table.slotToCard, table.cardToSlot, table.grid, table.slotsToPlayers, table.playersToSlots
      ensures Valid()
      ensures deck == old(deck) + NonNull(old(table.slotToCard[..]))
      ensures forall s :: 0 <= s < table.slotToCard.Length ==> table.slotToCard[s].None? && table.slotsToPlayers[s] == []
      ensures forall p :: 0 <= p < table.playersToSlots.Length ==> table.playersToSlots[p] == []
    {
      ghost var d, s2c, c2s := deck, table.slotToCard[..], table.cardToSlot[..];
      BijectionCards(s2c, c2s);
      ReturnAllToDeck();
      forall x | x in d
        ensures x !in NonNull(s2c)
      {
        var k :| 0 <= k < |d| && d[k] == x;
      }
      NoDupAppend(d, NonNull(s2c));
      forall k | 0 <= k < |deck|
        ensures deck[k] < table.cardToSlot.Length
      {
        if k >= |d| {
          assert deck[k] in NonNull(s2c);
        }
      }
      table.RemoveAllCardsFromTable();
    }

    /** The closing loop of `removeAllCardsFromTable`: every player's key
        presses are forgotten. */
    method ClearQueues()
      requires PlayersValid()
      modifies players`setsQueue
      ensures PlayersValid()
      ensures forall i :: 0 <= i < |players| ==> players[i].setsQueue == [] && players[i].score == old(players[i].score)
    {
      for i := 0 to |players|
        invariant PlayersValid()
        invariant forall j :: 0 <= j < i ==> players[j].setsQueue == []
        invariant forall j :: 0 <= j < |players| ==> players[j].score == old(players[j].score)
      {
        players[i].setsQueue := [];
      }
    }

    /** The players' scores, by id. */
    ghost function Scores(): (r: seq<int>)
      reads players
      ensures |r| == |players| && forall i :: 0 <= i < |players| ==> r[i] == players[i].score
    {
      seq(|players|, i reads players requires 0 <= i < |players| => players[i].score)
    }

    /** The first loop of `announceWinners`: the top score, starting at 0. */
    method TopScore() returns (maxScore: int)
      requires PlayersValid()
      ensures maxScore == MaxScore(Scores())
    {
      ghost var scores := Scores();
      maxScore := 0;
      for i := 0 to |players|
        invariant maxScore == MaxScore(scores[..i])
      {
        assert scores[..i + 1][..i] == scores[..i];
        var score := players[i].Score();
        if score > maxScore {
          maxScore := score;
        }
      }
      assert scores[..|players|] == scores;
    }

    /** The second loop of `announceWinners`: how many players score `m`. */
    method CountScoring(m: int) returns (counter: nat)
      requires PlayersValid()
      ensures counter == CountAt(Scores(), m)
    {
      ghost var scores := Scores();
      counter := 0;
      for i := 0 to |players|
        invariant counter == CountAt(scores[..i], m)
      {
        assert scores[..i + 1][..i] == scores[..i];
        var score := players[i].Score();
        if score == m {
          counter := counter + 1;
        }
      }
      assert scores[..|players|] == scores;
    }

    /** `announceWinners`: the ids of every player with the top score, in
        player order; the top score starts at 0, and with any player at all
        someone wins. */
    method AnnounceWinners() returns (winners: array<nat>)
      requires Valid()
      ensures winners[..] == Winners(Scores(), MaxScore(Scores()))
      ensures |players| > 0 ==> winners.Length > 0
    {
      ghost var scores := Scores();
      var maxScore := TopScore();
      var counter := CountScoring(maxScore);
      winners := CollectScoring(maxScore, counter, scores);
      WinnersComplete(scores, maxScore);
      if |players| > 0 {
        MaxScoreAttained(scores);
      }
    }

    /** The third loop of `announceWinners`: the ids of the `counter`
        players scoring `m`, in player order. */
    method CollectScoring(m: int, counter: nat, ghost scores: seq<int>) returns (winners: array<nat>)
      requires PlayersValid() && scores == Scores() && counter == CountAt(scores, m)
      ensures winners[..] == Winners(scores, m)
    {
      winners := new nat[counter];
      FillWinners(winners, m, scores);
    }

    /** The loop of `CollectScoring` over an array with room for exactly
        the players scoring `m`. */
    method FillWinners(winners: array<nat>, m: int, ghost scores: seq<int>)
      requires PlayersValid() && scores == Scores() && winners.Length == CountAt(scores, m)
      modifies winners
      ensures winners[..] == Winners(scores, m)
    {
      var numOfWinners := 0;
      for i := 0 to |players|
        invariant numOfWinners == CountAt(scores[..i], m) <= winners.Length
        invariant winners[..numOfWinners] == Winners(scores[..i], m)
      {
        WinnersStep(scores, m, i);
        var score := players[i].Score();
        if score == m {
          CountAtRoom(scores, m, i);
          ghost var before := winners[..];
          winners[numOfWinners] := players[i].id;
          PrefixPush(before, winners[..], numOfWinners, i);
          numOfWinners := numOfWinners + 1;
        }
      }
      assert scores[..|players|] == scores;
      WinnersComplete(scores, m);
    }

    /** `placeCardsOnTable`: the deck is shuffled (`shuffled` is the order the
        shuffle chose), the game is told to end when the shuffled deck holds no
        legal set (`deckHasSet` is the library's verdict), and then every empty
        grid cell, in row-major order, takes the deck's front card while the
        deck lasts. The card goes to the slot of its own cell; see the findings
        for the placement counter the source passes instead. */
    method PlaceCardsOnTable(shuffled: seq<nat>, deckHasSet: bool)
      requires Valid() && multiset(shuffled) == multiset(deck)
      modifies this`deck, this`terminate, table.slotToCard, table.cardToSlot, table.grid
      ensures Valid()
      ensures terminate == (old(terminate) || !deckHasSet)
      ensures table.slotToCard[..] == Deal(old(table.slotToCard[..]), shuffled).0
      ensures deck == Deal(old(table.slotToCard[..]), shuffled).1
    {
      Shuffle(shuffled);
      if !deckHasSet {
        terminate := true;
      }
      DealAll();
    }

    /** The nested loops of `placeCardsOnTable`: the whole deal over the
        slots, row by row. */
    method DealAll()
      requires Valid()
      modifies this`deck, table.slotToCard, table.cardToSlot, table.grid
      ensures Valid()
      ensures table.slotToCard[..] == Deal(old(table.slotToCard[..]), old(deck)).0
      ensures deck == Deal(old(table.slotToCard[..]), old(deck)).1
    {
      ghost var cells, shuffled := table.slotToCard[..], deck;
      var slot := 0;
      for i := 0 to table.grid.Length0
        invariant Valid()
        invariant slot == RowStart(i, table.grid.Length1) && slot <= |cells|
        invariant Dealt(slot, cells, shuffled)
      {
        slot := DealRow(i, slot, cells, shuffled);
      }
      assert slot == |cells| && cells[..slot] == cells && cells[slot..] == [];
    }

    /** The deal has covered the first `n` slots: they hold the deal of
        `cells` from `shuffled`, the rest are as they were, and the deck is
        what that deal left. */
    ghost predicate Dealt(n: nat, cells: seq<Cell>, shuffled: seq<nat>)
      reads this, table.slotToCard
    {
      n <= |cells| &&
      table.slotToCard[..] == Deal(cells[..n], shuffled).0 + cells[n..] &&
      deck == Deal(cells[..n], shuffled).1
    }

    /** Row `row` of the deal, cell by cell from the left; `slot` counts the
        cells dealt so far and is returned one row further on. */
    method DealRow(row: nat, slot: nat, ghost cells: seq<Cell>, ghost shuffled: seq<nat>) returns (next: nat)
      requires Valid() && row < table.grid.Length0 && |cells| == table.slotToCard.Length
      requires slot == RowStart(row, table.grid.Length1) && slot <= |cells|
      requires Dealt(slot, cells, shuffled)
      modifies this`deck, table.slotToCard, table.cardToSlot, table.grid
      ensures Valid()
      ensures next == RowStart(row + 1, table.grid.Length1) && next <= |cells|
      ensures Dealt(next, cells, shuffled)
    {
      next := slot;
      for col := 0 to table.grid.Length1
        invariant Valid()
        invariant next == SlotOf(row, col, table.grid.Length1) && next <= |cells|
        invariant Dealt(next, cells, shuffled)
      {
        SlotOfInRange(row, col, table.grid.Length0, table.grid.Length1);
        DealCell(row, col, next, cells, shuffled);
        next := next + 1;
      }
    }

    /** `shuffleDeck`: the deck becomes the given permutation of itself. */
    method Shuffle(shuffled: seq<nat>)
      requires DeckValid() && multiset(shuffled) == multiset(deck)
      modifies this`deck
      ensures deck == shuffled && DeckValid()
    {
      NoDupPermutation(deck, shuffled);
      forall k | 0 <= k < |shuffled|
        ensures shuffled[k] in deck
      {
        assert shuffled[k] in multiset(deck);
      }
      deck := shuffled;
    }

    /** One cell of the deal: an empty cell (row, col), while the deck lasts,
        takes the deck's front card at `slot`, its own index. */
    method DealCell(row: nat, col: nat, slot: nat, ghost cells: seq<Cell>, ghost shuffled: seq<nat>)
      requires Valid() && row < table.grid.Length0 && col < table.grid.Length1
      requires slot == SlotOf(row, col, table.grid.Length1) && slot < |cells| == table.slotToCard.Length
      requires Dealt(slot, cells, shuffled)
      modifies this`deck, table.slotToCard, table.cardToSlot, table.grid
      ensures Valid()
      ensures Dealt(slot + 1, cells, shuffled)
    {
      DealStep(cells, shuffled, slot, table.slotToCard[..], deck);
      if deck != [] && table.grid[row, col].None? {
        PutCard(row, col, slot);
      }
    }

    /** The body of the deal's test: the deck's front card is written into the
        empty grid cell (row, col) and placed at its slot. */
    method PutCard(row: nat, col: nat, slot: nat)
      requires Valid() && row < table.grid.Length0 && col < table.grid.Length1
      requires slot == SlotOf(row, col, table.grid.Length1)
      requires deck != [] && table.grid[row, col].None?
      modifies this`deck, table.slotToCard, table.cardToSlot, table.grid
      ensures Valid()
      ensures deck == old(deck[1..])
      ensures table.slotToCard[..] == old(table.slotToCard[..])[slot := Some(old(deck[0]))]
      ensures table.cardToSlot[..] == old(table.cardToSlot[..])[old(deck[0]) := Some(slot)]
      ensures forall r, c :: 0 <= r < table.grid.Length0 && 0 <= c < table.grid.Length1 ==>
                table.grid[r, c] == if r == row && c == col then Some(old(deck[0])) else old(table.grid[r, c])
    {
      ghost var s2c, c2s := table.slotToCard[..], table.cardToSlot[..];
      ghost var sp, ps := table.slotsToPlayers[..], table.playersToSlots[..];
      var card := deck[0];
      deck := deck[1..];
      table.grid[row, col] := Some(card);
      table.PlaceCard(card, slot);
      forall r, c | 0 <= r < table.grid.Length0 && 0 <= c < table.grid.Length1 && SlotOf(r, c, table.grid.Length1) == slot
        ensures r == row && c == col
      {
        SlotOfInjective(r, c, row, col, table.grid.Length1);
      }
      BijectionPlace(s2c, c2s, card, slot);
      Table2.TokensMoreCards(s2c, table.slotToCard[..], sp, ps);
    }

    /** `placeSpecificCardOnTable`: the front card of the deck, if any, goes to
        the slot of cell (`row`, `col`). */
    method PlaceSpecificCardOnTable(row: nat, col: nat)
      requires table.Shaped() && row < table.grid.Length0 && col < table.grid.Length1
      requires deck != [] ==> deck[0] < table.cardToSlot.Length
      modifies this`deck, table.slotToCard, table.cardToSlot, table.grid
      ensures old(deck) == [] ==>
                deck == [] && table.slotToCard[..] == old(table.slotToCard[..]) &&
                table.cardToSlot[..] == old(table.cardToSlot[..]) &&
                forall r, c :: 0 <= r < table.grid.Length0 && 0 <= c < table.grid.Length1 ==> table.grid[r, c] == old(table.grid[r, c])
      ensures old(deck) != [] ==>
                var slot := SlotOf(row, col, table.grid.Length1);
                slot < table.slotToCard.Length && deck == old(deck[1..]) &&
                table.slotToCard[..] == old(table.slotToCard[..])[slot := Some(old(deck[0]))] &&
                table.cardToSlot[..] == old(table.cardToSlot[..])[old(deck[0]) := Some(slot)] &&
                forall r, c :: 0 <= r < table.grid.Length0 && 0 <= c < table.grid.Length1 ==>
                  table.grid[r, c] == if SlotOf(r, c, table.grid.Length1) == slot && old(table.grid[r, c]).None?
                                      then Some(old(deck[0])) else old(table.grid[r, c])
      ensures old(table.Valid() && deck != [] && table.cardToSlot[deck[0]].None?) &&
              old(table.slotToCard[SlotOf(row, col, table.grid.Length1)]).None?
              ==> table.Valid()
    {
      var slot := SlotOf(row, col, table.grid.Length1);
      SlotOfInRange(row, col, table.grid.Length0, table.grid.Length1);
      if deck != [] {
        var card := deck[0];
        deck := deck[1..];
        table.PlaceCard(card, slot);
      }
    }

    /** The scan of `testSet` for the cell showing `card`; empty cells are
        skipped (see the findings on the unboxing compare). */
    method FindCard(card: nat) returns (found: bool, row: nat, col: nat)
      ensures found ==> row < table.grid.Length0 && col < table.grid.Length1 && table.grid[row, col] == Some(card)
      ensures !found ==> forall r, c :: 0 <= r < table.grid.Length0 && 0 <= c < table.grid.Length1 ==>
                           table.grid[r, c] != Some(card)
    {
      found, row, col := false, 0, 0;
      for r := 0 to table.grid.Length0
        invariant found ==> row < table.grid.Length0 && col < table.grid.Length1 && table.grid[row, col] == Some(card)
        invariant !found ==> forall r', c :: 0 <= r' < r && 0 <= c < table.grid.Length1 ==> table.grid[r', c] != Some(card)
      {
        for c := 0 to table.grid.Length1
          invariant found ==> row < table.grid.Length0 && col < table.grid.Length1 && table.grid[row, col] == Some(card)
          invariant !found ==> forall r', c' :: (0 <= r' < r && 0 <= c' < table.grid.Length1) || (r' == r && 0 <= c' < c) ==>
                                 table.grid[r', c'] != Some(card)
        {
          if table.grid[r, c] == Some(card) {
            found, row, col := true, r, c;
          }
        }
      }
    }

    /** The body of `testSet`'s loop for one card of a legal set: the card
        leaves the table (with every token on its slot) and the front card of
        the deck, if any, takes its slot. */
    method ReplaceCard(card: nat)
      requires Valid()
      requires card < table.cardToSlot.Length && table.cardToSlot[card].Some?
      modifies this`deck, table.slotToCard, table.cardToSlot, table.grid, table.slotsToPlayers, table.playersToSlots
      ensures Valid()
      ensures var slot, d := old(table.cardToSlot[card]).value, old(deck);
              deck == (if d == [] then [] else d[1..]) &&
              table.slotToCard[..] == old(table.slotToCard[..])[slot := if d == [] then None else Some(d[0])] &&
              table.cardToSlot[..] == (if d == [] then old(table.cardToSlot[..])[card := None]
                                       else old(table.cardToSlot[..])[card := None][d[0] := Some(slot)]) &&
              table.slotsToPlayers[..] == old(table.slotsToPlayers[..])[slot := []] &&
              table.playersToSlots[..] == Table2.Evict(old(table.playersToSlots[..]), slot)
    {
      ghost var ps := table.playersToSlots[..];
      var slot := table.cardToSlot[card].value;
      assert slot < table.slotToCard.Length && table.slotToCard[slot] == Some(card) by {
        BijectionIff(table.slotToCard[..], table.cardToSlot[..], table.cardToSlot[card].value, card);
      }
      var row0, col0 := CellOfSlot(slot, table.grid.Length0, table.grid.Length1);
      var found, row, col := FindCard(card);
      assert found;
      assert SlotOf(row, col, table.grid.Length1) == slot by {
        var s := SlotOf(row, col, table.grid.Length1);
        BijectionOneSlotPerCard(table.slotToCard[..], table.cardToSlot[..], s, slot);
      }
      table.RemoveCard(slot);
      assert table.slotToCard[slot].None? && table.cardToSlot[card].None?;
      if deck != [] {
        assert deck[0] != card;
        PlaceSpecificCardOnTable(row, col);
      }
      assert DeckValid();
      forall i | 0 <= i < |players|
        ensures |table.playersToSlots[i]| <= |ps[i]|
      {
        assert table.playersToSlots[i] == Table2.Evict(ps, slot)[i];
      }
    }

    /** `testSet`: a claim of other than three cards fails; a claim the
        matcher accepts takes its three cards off the table, each slot (and its
        tokens) cleared and refilled from the front of the deck while cards
        last. The source reads each card's slot before checking it, so the cards
        of a legal set must be distinct cards on the table. */
    method TestSet(cards: seq<nat>) returns (result: bool)
      requires Valid()
      requires |cards| == SetSize && isSet(cards) ==>
                 NoDup(cards) &&
                 forall i :: 0 <= i < |cards| ==> cards[i] < table.cardToSlot.Length && table.cardToSlot[cards[i]].Some?
      modifies this`deck, table.slotToCard, table.cardToSlot, table.grid, table.slotsToPlayers, table.playersToSlots
      ensures Valid()
      ensures result == (|cards| == SetSize && isSet(cards))
      ensures !result ==>
                deck == old(deck) && table.slotToCard[..] == old(table.slotToCard[..]) &&
                table.cardToSlot[..] == old(table.cardToSlot[..]) &&
                table.slotsToPlayers[..] == old(table.slotsToPlayers[..]) &&
                table.playersToSlots[..] == old(table.playersToSlots[..])
      ensures result ==>
                var slots := SlotsOf(old(table.cardToSlot[..]), cards);
                deck == old(deck)[if |old(deck)| < SetSize then |old(deck)| else SetSize..] &&
                table.slotToCard[..] == Refilled(old(table.slotToCard[..]), slots, old(deck), SetSize) &&
                table.cardToSlot[..] == Unmapped(old(table.cardToSlot[..]), cards, slots, old(deck), SetSize) &&
                table.slotsToPlayers[..] == Table2.Cleared(old(table.slotsToPlayers[..]), slots, SetSize) &&
                table.playersToSlots[..] == Table2.EvictAll(old(table.playersToSlots[..]), slots, SetSize)
      ensures result ==> forall i :: 0 <= i < SetSize ==>
                var slot := old(table.cardToSlot[cards[i]]).value;
                slot < table.slotToCard.Length && table.slotsToPlayers[slot] == [] &&
                table.slotToCard[slot] == Fill(old(deck), i)
      ensures result ==> forall i :: 0 <= i < SetSize ==> table.cardToSlot[cards[i]].None?
      ensures result ==>
                forall s :: 0 <= s < table.slotToCard.Length && !(old(table.slotToCard[s]).Some? && old(table.slotToCard[s]).value in cards)
                  ==> table.slotToCard[s] == old(table.slotToCard[s]) && table.slotsToPlayers[s] == old(table.slotsToPlayers[s])
    {
      if |cards| != SetSize {
        return false;
      }
      result := isSet(cards);
      if result {
        TakeOffTable(cards);
      }
    }

    /** The loop of `testSet` over the three cards of a legal set. */
    method TakeOffTable(cards: seq<nat>)
      requires Valid()
      requires |cards| == SetSize && NoDup(cards)
      requires forall i :: 0 <= i < |cards| ==> cards[i] < table.cardToSlot.Length && table.cardToSlot[cards[i]].Some?
      modifies this`deck, table.slotToCard, table.cardToSlot, table.grid, table.slotsToPlayers, table.playersToSlots
      ensures Valid()
      ensures var slots := SlotsOf(old(table.cardToSlot[..]), cards);
              deck == old(deck)[if |old(deck)| < SetSize then |old(deck)| else SetSize..] &&
              table.slotToCard[..] == Refilled(old(table.slotToCard[..]), slots, old(deck), SetSize) &&
              table.cardToSlot[..] == Unmapped(old(table.cardToSlot[..]), cards, slots, old(deck), SetSize) &&
              table.slotsToPlayers[..] == Table2.Cleared(old(table.slotsToPlayers[..]), slots, SetSize) &&
              table.playersToSlots[..] == Table2.EvictAll(old(table.playersToSlots[..]), slots, SetSize)
      ensures forall i :: 0 <= i < SetSize ==>
                var slot := old(table.cardToSlot[cards[i]]).value;
                slot < table.slotToCard.Length && table.slotsToPlayers[slot] == [] &&
                table.slotToCard[slot] == Fill(old(deck), i)
      ensures forall i :: 0 <= i < SetSize ==> table.cardToSlot[cards[i]].None?
      ensures forall s :: 0 <= s < table.slotToCard.Length && !(old(table.slotToCard[s]).Some? && old(table.slotToCard[s]).value in cards)
                ==> table.slotToCard[s] == old(table.slotToCard[s]) && table.slotsToPlayers[s] == old(table.slotsToPlayers[s])
    {
      ghost var d, s2c, c2s := deck, table.slotToCard[..], table.cardToSlot[..];
      ghost var sp, ps := table.slotsToPlayers[..], table.playersToSlots[..];
      ghost var slots := SlotsOf(c2s, cards);
      ClaimSlots(s2c, c2s, cards, d);
      RefillAll(cards, slots);
      ClaimRefilled(s2c, c2s, sp, ps, cards, slots, d);
    }

    /** The three refills of `TakeOffTable`, stated on the maps as a whole;
        `slots` are where the claimed cards sit. */
    method RefillAll(cards: seq<nat>, ghost slots: seq<nat>)
      requires Valid()
      requires |cards| == SetSize && |slots| == SetSize && NoDup(cards) && NoDup(slots)
      requires forall j :: 0 <= j < SetSize ==> cards[j] < table.cardToSlot.Length && table.cardToSlot[cards[j]] == Some(slots[j])
      requires forall j :: 0 <= j < SetSize ==> slots[j] < table.slotToCard.Length
      requires forall k, j :: 0 <= k < |deck| && 0 <= j < SetSize ==> deck[k] != cards[j]
      modifies this`deck, table.slotToCard, table.cardToSlot, table.grid, table.slotsToPlayers, table.playersToSlots
      ensures Valid()
      ensures deck == old(deck)[if |old(deck)| < SetSize then |old(deck)| else SetSize..]
      ensures table.slotToCard[..] == Refilled(old(table.slotToCard[..]), slots, old(deck), SetSize)
      ensures table.cardToSlot[..] == Unmapped(old(table.cardToSlot[..]), cards, slots, old(deck), SetSize)
      ensures table.slotsToPlayers[..] == Table2.Cleared(old(table.slotsToPlayers[..]), slots, SetSize)
      ensures table.playersToSlots[..] == Table2.EvictAll(old(table.playersToSlots[..]), slots, SetSize)
    {
      ghost var d, s2c, c2s := deck, table.slotToCard[..], table.cardToSlot[..];
      ghost var sp, ps := table.slotsToPlayers[..], table.playersToSlots[..];
      for i := 0 to SetSize
        invariant Valid()
        invariant deck == d[if |d| < i then |d| else i..]
        invariant table.slotToCard[..] == Refilled(s2c, slots, d, i)
        invariant table.cardToSlot[..] == Unmapped(c2s, cards, slots, d, i)
        invariant table.slotsToPlayers[..] == Table2.Cleared(sp, slots, i)
        invariant table.playersToSlots[..] == Table2.EvictAll(ps, slots, i)
      {
        RefillNext(cards, slots, d, s2c, c2s, sp, ps, i);
      }
    }

    /** Refill `i` of `RefillAll`. */
    method RefillNext(cards: seq<nat>, ghost slots: seq<nat>, ghost d: seq<nat>, ghost s2c: seq<Cell>, ghost c2s: seq<Cell>,
                      ghost sp: seq<seq<nat>>, ghost ps: seq<seq<nat>>, i: nat)
      requires Valid()
      requires |cards| == SetSize && |slots| == SetSize && NoDup(cards) && NoDup(slots) && i < SetSize
      requires forall j :: 0 <= j < SetSize ==> cards[j] < |c2s| && c2s[cards[j]] == Some(slots[j]) && slots[j] < |s2c|
      requires forall k, j :: 0 <= k < |d| && 0 <= j < SetSize ==> d[k] != cards[j]
      requires forall k :: 0 <= k < |d| ==> d[k] < |c2s|
      requires |sp| == |s2c|
      requires deck == d[if |d| < i then |d| else i..]
      requires table.slotToCard[..] == Refilled(s2c, slots, d, i)
      requires table.cardToSlot[..] == Unmapped(c2s, cards, slots, d, i)
      requires table.slotsToPlayers[..] == Table2.Cleared(sp, slots, i)
      requires table.playersToSlots[..] == Table2.EvictAll(ps, slots, i)
      modifies this`deck, table.slotToCard, table.cardToSlot, table.grid, table.slotsToPlayers, table.playersToSlots
      ensures Valid()
      ensures deck == d[if |d| < i + 1 then |d| else i + 1..]
      ensures table.slotToCard[..] == Refilled(s2c, slots, d, i + 1)
      ensures table.cardToSlot[..] == Unmapped(c2s, cards, slots, d, i + 1)
      ensures table.slotsToPlayers[..] == Table2.Cleared(sp, slots, i + 1)
      ensures table.playersToSlots[..] == Table2.EvictAll(ps, slots, i + 1)
    {
      UnmappedAt(c2s, cards, slots, d, i);
      assert table.cardToSlot[cards[i]] == Some(slots[i]);
      DeckFront(d, i, deck);
      ReplaceCard(cards[i]);
    }

    /** The deck and the table's four maps as they stand. */
    ghost function Snapshot(): Board
      reads this`deck, table.slotToCard, table.cardToSlot, table.slotsToPlayers, table.playersToSlots
    {
      Board(deck, table.slotToCard[..], table.cardToSlot[..], table.slotsToPlayers[..], table.playersToSlots[..])
    }

    /** `removeCardsFromTable`: the claims queued by players are judged
        first come, first served, and the queue ends empty. `boards[k]` is the
        board the `k`-th claim is judged on: the first is the board before the
        call, each next one is what judging the claim before it left, and the
        last is the board after the call. Each player gains one point per legal
        set it claimed, and a legal set restarts the turn. When no player holds
        three tokens, every claim is dropped and nothing else changes. */
    method RemoveCardsFromTable(now: int) returns (ghost verdicts: seq<Verdict>, ghost boards: seq<Board>)
      requires Valid()
      modifies this`deck, this`reshuffleTime, this`playersQueue, table.slotToCard, table.cardToSlot, table.grid,
               table.slotsToPlayers, table.playersToSlots, players`score, players`isFrozen
      ensures Valid()
      ensures playersQueue == [] && |verdicts| == |old(playersQueue)| && |boards| == |verdicts| + 1
      ensures boards[0] == old(Snapshot()) && boards[|verdicts|] == Snapshot()
      ensures forall k :: 0 <= k < |verdicts| ==>
                verdicts[k] == Judged(isSet, boards[k], ClaimantIds(old(playersQueue))[k]) &&
                boards[k + 1] == AfterClaim(isSet, boards[k], ClaimantIds(old(playersQueue))[k])
      ensures forall i :: 0 <= i < |players| ==>
                players[i].score == old(players[i].score) + Credits(old(playersQueue), verdicts, players[i])
      ensures reshuffleTime == if Scored in verdicts then now + turnTimeoutMillis else old(reshuffleTime)
      ensures (forall p :: 0 <= p < table.playersToSlots.Length ==> |old(table.playersToSlots[p])| != SetSize) ==>
                (forall k :: 0 <= k < |verdicts| ==> verdicts[k] == Dropped) &&
                deck == old(deck) && table.slotToCard[..] == old(table.slotToCard[..]) &&
                table.cardToSlot[..] == old(table.cardToSlot[..]) &&
                table.slotsToPlayers[..] == old(table.slotsToPlayers[..]) &&
                table.playersToSlots[..] == old(table.playersToSlots[..])
    {
      verdicts, boards := JudgeQueue(now);
      if forall p :: 0 <= p < table.playersToSlots.Length ==> |old(table.playersToSlots[p])| != SetSize {
        QuietBoards(isSet, ClaimantIds(old(playersQueue)), verdicts, boards);
      }
    }

    /** The loop of `removeCardsFromTable` over the claim queue: the claims
        are judged in the order they were queued, each on the board the one
        before it left. */
    method JudgeQueue(now: int) returns (ghost verdicts: seq<Verdict>, ghost boards: seq<Board>)
      requires Valid()
      modifies this`deck, this`reshuffleTime, this`playersQueue, table.slotToCard, table.cardToSlot, table.grid,
               table.slotsToPlayers, table.playersToSlots, players`score, players`isFrozen
      ensures Valid()
      ensures playersQueue == [] && |verdicts| == |old(playersQueue)| && |boards| == |verdicts| + 1
      ensures boards[0] == old(Snapshot()) && boards[|verdicts|] == Snapshot()
      ensures forall k :: 0 <= k < |verdicts| ==>
                verdicts[k] == Judged(isSet, boards[k], ClaimantIds(old(playersQueue))[k]) &&
                boards[k + 1] == AfterClaim(isSet, boards[k], ClaimantIds(old(playersQueue))[k])
      ensures forall i :: 0 <= i < |players| ==>
                players[i].score == old(players[i].score) + Credits(old(playersQueue), verdicts, players[i])
      ensures reshuffleTime == if Scored in verdicts then now + turnTimeoutMillis else old(reshuffleTime)
    {
      ghost var queue := playersQueue;
      ghost var ids := ClaimantIds(queue);
      ghost var scores := seq(|players|, i requires 0 <= i < |players| reads players => players[i].score);
      verdicts, boards := [], [Snapshot()];
      while playersQueue != []
        invariant Valid()
        invariant |verdicts| <= |queue| && playersQueue == queue[|verdicts|..] && |boards| == |verdicts| + 1
        invariant boards[0] == old(Snapshot()) && boards[|verdicts|] == Snapshot()
        invariant forall k :: 0 <= k < |verdicts| ==>
                    verdicts[k] == Judged(isSet, boards[k], ids[k]) && boards[k + 1] == AfterClaim(isSet, boards[k], ids[k])
        invariant reshuffleTime == if Scored in verdicts then now + turnTimeoutMillis else old(reshuffleTime)
        invariant forall i :: 0 <= i < |players| ==>
                    players[i].score == scores[i] + Credits(queue[..|verdicts|], verdicts, players[i])
        decreases |playersQueue|
      {
        var player := playersQueue[0];
        var v := JudgeStep(player, now, queue, verdicts, scores);
        BoardsExtend(isSet, ids, verdicts, boards, v, Snapshot());
        verdicts, boards := verdicts + [v], boards + [Snapshot()];
      }
      assert queue[..|verdicts|] == queue;
    }

    /** One pass of `removeCardsFromTable`'s loop: `JudgeNext` on the oldest
        claim, with the scores so far (`scores` are those before the loop)
        extended by the claim just judged. */
    method JudgeStep(player: Player, now: int, ghost queue: seq<Player>, ghost verdicts: seq<Verdict>, ghost scores: seq<int>)
      returns (v: Verdict)
      requires Valid() && |verdicts| < |queue| && playersQueue == queue[|verdicts|..] && player == queue[|verdicts|]
      requires |scores| == |players|
      requires forall i :: 0 <= i < |players| ==>
                 players[i].score == scores[i] + Credits(queue[..|verdicts|], verdicts, players[i])
      modifies this`deck, this`reshuffleTime, this`playersQueue, table.slotToCard, table.cardToSlot, table.grid,
               table.slotsToPlayers, table.playersToSlots, player`score, player`isFrozen
      ensures Valid()
      ensures playersQueue == queue[|verdicts| + 1..]
      ensures v == Judged(isSet, old(Snapshot()), player.id)
      ensures Snapshot() == AfterClaim(isSet, old(Snapshot()), player.id)
      ensures reshuffleTime == if v == Scored then now + turnTimeoutMillis else old(reshuffleTime)
      ensures forall i :: 0 <= i < |players| ==>
                players[i].score == scores[i] + Credits(queue[..|verdicts| + 1], verdicts + [v], players[i])
    {
      ghost var n := |verdicts|;
      v := JudgeNext(player, now);
      ghost var done := queue[..n];
      assert queue[..n + 1] == done + [player];
      forall i | 0 <= i < |players|
        ensures players[i].score == scores[i] + Credits(done + [player], verdicts + [v], players[i])
      {
        CreditsStep(done, verdicts, players[i], player, v);
      }
    }

    /** The iterator step of `removeCardsFromTable`: the oldest claim is
        judged and leaves the queue. */
    method JudgeNext(player: Player, now: int) returns (v: Verdict)
      requires Valid() && playersQueue != [] && player == playersQueue[0]
      modifies this`deck, this`reshuffleTime, this`playersQueue, table.slotToCard, table.cardToSlot, table.grid,
               table.slotsToPlayers, table.playersToSlots, player`score, player`isFrozen
      ensures Valid()
      ensures playersQueue == old(playersQueue[1..])
      ensures v == Judged(isSet, old(Snapshot()), player.id)
      ensures Snapshot() == AfterClaim(isSet, old(Snapshot()), player.id)
      ensures player.score == old(player.score) + if v == Scored then 1 else 0
      ensures reshuffleTime == if v == Scored then now + turnTimeoutMillis else old(reshuffleTime)
      ensures v == Dropped ==> player.isFrozen == old(player.isFrozen)
    {
      v := JudgeClaim(player, now);
      playersQueue := playersQueue[1..];
    }

    /** One pass of `removeCardsFromTable`'s loop for a queued `player`: a
        player holding other than three tokens is dropped; otherwise the cards
        under its tokens go to `testSet`, and a legal set earns a point and restarts
        the turn while a wrong one costs a freeze and all the player's tokens.
        The board afterwards is `AfterClaim` of the board before. */
    method JudgeClaim(player: Player, now: int) returns (v: Verdict)
      requires Valid() && player in players
      modifies this`deck, this`reshuffleTime, table.slotToCard, table.cardToSlot, table.grid,
               table.slotsToPlayers, table.playersToSlots, player`score, player`isFrozen
      ensures Valid()
      ensures v == Judged(isSet, old(Snapshot()), player.id)
      ensures Snapshot() == AfterClaim(isSet, old(Snapshot()), player.id)
      ensures player.score == old(player.score) + if v == Scored then 1 else 0
      ensures reshuffleTime == if v == Scored then now + turnTimeoutMillis else old(reshuffleTime)
      ensures v == Dropped ==> player.isFrozen == old(player.isFrozen)
      ensures v == Scored ==>
                forall s :: 0 <= s < table.slotToCard.Length && s !in old(table.playersToSlots[player.id]) ==>
                  table.slotToCard[s] == old(table.slotToCard[s]) && table.slotsToPlayers[s] == old(table.slotsToPlayers[s])
    {
      if |table.playersToSlots[player.id]| != SetSize {
        return Dropped;
      }
      v := JudgeSet(player, now);
    }

    /** `JudgeClaim` for a player holding three tokens: the cards under them
        go to `testSet`; a legal set earns a point and restarts the turn, a wrong
        one costs a freeze and all the player's tokens. */
    method JudgeSet(player: Player, now: int) returns (v: Verdict)
      requires Valid() && player in players && |table.playersToSlots[player.id]| == SetSize
      modifies this`deck, this`reshuffleTime, table.slotToCard, table.cardToSlot, table.grid,
               table.slotsToPlayers, table.playersToSlots, player`score, player`isFrozen
      ensures Valid()
      ensures var tokens := old(table.playersToSlots[player.id]);
              (forall k :: 0 <= k < SetSize ==> tokens[k] < table.slotToCard.Length && old(table.slotToCard[tokens[k]]).Some?) &&
              v == if isSet(CardsAt(old(table.slotToCard[..]), tokens)) then Scored else Penalized
      ensures v == Judged(isSet, old(Snapshot()), player.id)
      ensures Snapshot() == AfterClaim(isSet, old(Snapshot()), player.id)
      ensures player.score == old(player.score) + if v == Scored then 1 else 0
      ensures reshuffleTime == if v == Scored then now + turnTimeoutMillis else old(reshuffleTime)
      ensures v == Scored ==>
                forall s :: 0 <= s < table.slotToCard.Length && s !in old(table.playersToSlots[player.id]) ==>
                  table.slotToCard[s] == old(table.slotToCard[s]) && table.slotsToPlayers[s] == old(table.slotsToPlayers[s])
    {
      ghost var b := Snapshot();
      var tokens := table.playersToSlots[player.id];
      ReadableOnValidBoard(b, player.id);
      var claimed := CardsUnder(tokens);
      var ok := TestClaim(player, tokens, claimed);
      if ok {
        Reward(player, now);
        v := Scored;
        ScoredBoard(isSet, b, player.id);
      } else {
        Punish(player);
        v := Penalized;
        PenalizedClaim(isSet, b, player.id, Snapshot());
      }
    }

    /** `testSet` on the cards under a player's three tokens, stated on
        boards: a legal set leaves the board `AfterClaim` makes of a scored
        claim; a wrong one leaves the board as it is. */
    method TestClaim(player: Player, tokens: seq<nat>, claimed: array<nat>) returns (ok: bool)
      requires Valid() && player in players && tokens == table.playersToSlots[player.id] && |tokens| == SetSize
      requires ClaimReadable(Snapshot(), player.id)
      requires claimed[..] == CardsAt(table.slotToCard[..], tokens)
      modifies this`deck, table.slotToCard, table.cardToSlot, table.grid, table.slotsToPlayers, table.playersToSlots
      ensures Valid()
      ensures ok == isSet(CardsAt(old(table.slotToCard[..]), tokens))
      ensures ok ==> Judged(isSet, old(Snapshot()), player.id) == Scored &&
                     Snapshot() == AfterClaim(isSet, old(Snapshot()), player.id)
      ensures !ok ==> Snapshot() == old(Snapshot())
    {
      ghost var b := Snapshot();
      CardsAtOnTable(b.slotToCard, b.cardToSlot, tokens);
      assert SlotsOf(b.cardToSlot, claimed[..]) == tokens;
      ok := TestSet(claimed[..]);
      if ok {
        ScoredClaim(isSet, b, player.id, Snapshot());
      }
    }

    /** The cards under a claim's tokens, read with `getCard`. */
    method CardsUnder(tokens: seq<nat>) returns (claimed: array<nat>)
      requires forall k :: 0 <= k < |tokens| ==> tokens[k] < table.slotToCard.Length && table.slotToCard[tokens[k]].Some?
      ensures fresh(claimed)
      ensures claimed[..] == CardsAt(table.slotToCard[..], tokens)
    {
      claimed := new nat[|tokens|];
      for i := 0 to |tokens|
        invariant forall k :: 0 <= k < i ==> table.slotToCard[tokens[k]] == Some(claimed[k])
      {
        claimed[i] := table.GetCard(tokens[i]);
      }
    }

    /** A legal set: a point for the player and a fresh turn. */
    method Reward(player: Player, now: int)
      requires Valid() && player in players
      modifies this`reshuffleTime, player`score, player`isFrozen
      ensures Valid()
      ensures player.score == old(player.score) + 1 && reshuffleTime == now + turnTimeoutMillis
    {
      player.Point();
      var shown, warn := UpdateTimerDisplay(true, now);
    }

    /** A wrong set: a freeze, and every token of the player goes back. */
    method Punish(player: Player)
      requires Valid() && player in players
      modifies player`isFrozen, table.slotsToPlayers, table.playersToSlots
      ensures Valid()
      ensures table.playersToSlots[..] == old(table.playersToSlots[..])[player.id := []]
      ensures table.slotsToPlayers[..] == Table2.Withdraw(old(table.slotsToPlayers[..]), player.id)
    {
      player.Penalty();
      ReturnTokens(player.id);
    }

    /** The penalty side of `removeCardsFromTable`: the player's token list
        is cleared, then each of its former slots drops the player. */
    method ReturnTokens(player: nat)
      requires table.Valid() && player < table.playersToSlots.Length
      modifies table.slotsToPlayers, table.playersToSlots
      ensures table.Valid()
      ensures table.playersToSlots[..] == old(table.playersToSlots[..])[player := []]
      ensures table.slotsToPlayers[..] == Table2.Withdraw(old(table.slotsToPlayers[..]), player)
    {
      ghost var sp, ps := table.slotsToPlayers[..], table.playersToSlots[..];
      var tokens := table.playersToSlots[player];
      table.playersToSlots[player] := [];
      forall k | 0 <= k < |tokens|
        ensures tokens[k] < |sp|
      {
        assert tokens[k] in ps[player];
      }
      LiftTokens(player, tokens);
      Table2.WithdrawnByTokens(table.slotToCard[..], sp, ps, player, table.slotsToPlayers[..]);
    }

    /** The loop of `returnTokens`: `player` leaves the list of each slot in
        `tokens`, its own (already cleared) list staying empty. */
    method LiftTokens(player: nat, tokens: seq<nat>)
      requires table.Shaped() && player < table.playersToSlots.Length && table.playersToSlots[player] == []
      requires NoDup(tokens) && forall k :: 0 <= k < |tokens| ==> tokens[k] < table.slotsToPlayers.Length
      modifies table.slotsToPlayers, table.playersToSlots
      ensures table.playersToSlots[..] == old(table.playersToSlots[..])
      ensures forall s :: 0 <= s < table.slotsToPlayers.Length ==>
                table.slotsToPlayers[s] == if s in tokens then RemoveFirst(old(table.slotsToPlayers[s]), player)
                                           else old(table.slotsToPlayers[s])
    {
      ghost var sp := table.slotsToPlayers[..];
      for k := 0 to |tokens|
        invariant table.playersToSlots[..] == old(table.playersToSlots[..])
        invariant forall s :: 0 <= s < |sp| ==>
                    table.slotsToPlayers[s] == if s in tokens[..k] then RemoveFirst(sp[s], player) else sp[s]
      {
        assert tokens[k] !in tokens[..k];
        var removed := table.RemoveToken(player, tokens[k]);
        assert forall s :: s in tokens[..k + 1] <==> s in tokens[..k] || s == tokens[k];
      }
      assert tokens[..|tokens|] == tokens;
    }

    /** `updateTimerDisplay` at time `now`: the countdown shown and whether it
        is in the warning zone; a reset starts a new turn. */
    method UpdateTimerDisplay(reset: bool, now: int) returns (shown: int, warn: bool)
      modifies this`reshuffleTime
      ensures reshuffleTime == if reset then now + turnTimeoutMillis else old(reshuffleTime)
      ensures shown == Clamp(reshuffleTime - now)
      ensures warn == (!reset && reshuffleTime - now <= turnTimeoutWarningMillis)
    {
      if !reset {
        if reshuffleTime - now > turnTimeoutWarningMillis {
          shown, warn := Clamp(reshuffleTime - now), false;
        } else {
          shown, warn := Clamp(reshuffleTime - now), true;
        }
      } else {
        reshuffleTime := turnTimeoutMillis + now;
        shown, warn := Clamp(reshuffleTime - now), false;
      }
    }

    /** `terminate`: the dealer's flag is raised and every player is told to
        terminate (the thread interrupts are not modelled). */
    method Terminate()
      requires PlayersValid()
      modifies this`terminate, players`terminate
      ensures terminate && PlayersValid() && Scores() == old(Scores())
      ensures forall i :: 0 <= i < |players| ==> players[i].terminate
    {
      terminate := true;
      for i := 0 to |players|
        invariant terminate && PlayersValid()
        invariant forall j :: 0 <= j < i ==> players[j].terminate
      {
        players[i].Terminate();
      }
    }

    /** `blockPlayersTokens` (`true`) and `unblockPlayersTokens` (`false`):
        every player's table lock is set to `status`; nothing else changes. */
    method SetPlayersLock(status: bool)
      requires PlayersValid()
      modifies players`lockTable
      ensures PlayersValid() && Scores() == old(Scores())
      ensures forall i :: 0 <= i < |players| ==> players[i].lockTable == status
    {
      for i := 0 to |players|
        invariant PlayersValid()
        invariant forall j :: 0 <= j < i ==> players[j].lockTable == status
      {
        players[i].SetLockTable(status);
      }
    }
  }
}
