/** Helpers shared by both drafts of the game: nullable ids, counting, list
    removal, the slot/card bijection, the winner rule and a row-major grid scan. */
module Cards {

  /** A Java `Integer` that may be null. */
  datatype Option<T> = None | Some(value: T)

  /** An entry of `slotToCard`, `cardToSlot` or the grid: null or an id. */
  type Cell = Option<nat>

  /** The matching rule `env.util.testSet`; it lives in a library that is not
      part of this model, so a dealer receives it as a value. */
  type Matcher = seq<nat> -> bool

  // ---------------------------------------------------------------------
  // Counting the non-null entries of an `Integer[]`

  /** Number of non-null entries, counted from the left as `countCards` does. */
  function CountSome<T>(s: seq<Option<T>>): (n: nat)
    ensures n <= |s|
  {
    if s == [] then 0
    else CountSome(s[..|s| - 1]) + (if s[|s| - 1].Some? then 1 else 0)
  }

  /** The indices holding a value: an independent definition of what is counted. */
  ghost function Occupied<T>(s: seq<Option<T>>): set<nat>
  {
    set i | 0 <= i < |s| && s[i].Some?
  }

  lemma {:induction false} CountSomeIsOccupied<T>(s: seq<Option<T>>)
    ensures CountSome(s) == |Occupied(s)|
  {
    if s != [] {
      var p := s[..|s| - 1];
      CountSomeIsOccupied(p);
      assert |p| !in Occupied(p);
      if s[|s| - 1].Some? {
        assert Occupied(s) == Occupied(p) + {|p|};
      } else {
        assert Occupied(s) == Occupied(p);
      }
    }
  }

  /** Writing one entry changes the count by the change at that entry. */
  lemma {:induction false} CountSomeUpdate<T>(s: seq<Option<T>>, i: nat, v: Option<T>)
    requires i < |s|
    ensures CountSome(s[i := v]) ==
            CountSome(s) - (if s[i].Some? then 1 else 0) + (if v.Some? then 1 else 0)
  {
    var t := s[i := v];
    if i == |s| - 1 {
      assert t[..|t| - 1] == s[..|s| - 1];
    } else {
      CountSomeUpdate(s[..|s| - 1], i, v);
      assert t[..|t| - 1] == s[..|s| - 1][i := v];
    }
  }

  /** The values of the non-null entries, in index order (`returnAllToDeck`). */
  function NonNull<T>(s: seq<Option<T>>): seq<T>
  {
    if s == [] then []
    else NonNull(s[..|s| - 1]) + (if s[|s| - 1].Some? then [s[|s| - 1].value] else [])
  }

  /** `NonNull` of one more cell. */
  lemma NonNullSnoc<T>(s: seq<Option<T>>, c: Option<T>)
    ensures NonNull(s + [c]) == NonNull(s) + if c.Some? then [c.value] else []
  {
    assert (s + [c])[..|s|] == s;
  }

  lemma {:induction false} NonNullCount<T>(s: seq<Option<T>>)
    ensures |NonNull(s)| == CountSome(s)
  {
    if s != [] {
      NonNullCount(s[..|s| - 1]);
    }
  }

  lemma {:induction false} NonNullMembers<T>(s: seq<Option<T>>, x: T)
    ensures x in NonNull(s) <==> exists i :: 0 <= i < |s| && s[i] == Some(x)
  {
    if s != [] {
      var p := s[..|s| - 1];
      NonNullMembers(p, x);
      if x in NonNull(p) {
        var i :| 0 <= i < |p| && p[i] == Some(x);
        assert s[i] == Some(x);
      }
      if exists i :: 0 <= i < |s| && s[i] == Some(x) {
        var i :| 0 <= i < |s| && s[i] == Some(x);
        if i < |p| {
          assert p[i] == Some(x);
        }
      }
    }
  }

  // ---------------------------------------------------------------------
  // Lists without repetition and removal of one element by value

  /** A non-empty list holds its head (lets a caller conclude `s == []` from "no members"). */
  lemma HeadIn<T>(s: seq<T>)
    ensures s != [] ==> s[0] in s
  {
  }

  predicate NoDup<T(==)>(s: seq<T>)
  {
    forall i, j :: 0 <= i < j < |s| ==> s[i] != s[j]
  }

  /** A list without repetition counts each value at most once. */
  lemma {:induction false} NoDupCounts<T>(s: seq<T>)
    requires NoDup(s)
    ensures forall x :: multiset(s)[x] <= 1
  {
    if s != [] {
      var p := s[..|s| - 1];
      assert s == p + [s[|s| - 1]];
      assert NoDup(p);
      NoDupCounts(p);
      assert s[|s| - 1] !in p;
    }
  }

  /** Two lists without repetition and without a common value join into one. */
  lemma NoDupAppend<T>(a: seq<T>, b: seq<T>)
    requires NoDup(a) && NoDup(b) && forall x :: x in a ==> x !in b
    ensures NoDup(a + b)
  {
    forall i, j | 0 <= i < j < |a + b|
      ensures (a + b)[i] != (a + b)[j]
    {
      if i < |a| && |a| <= j {
        assert (a + b)[i] in a && (a + b)[j] in b;
      }
    }
  }

  /** The values of distinct non-null entries are distinct. */
  lemma {:induction false} NonNullNoDup<T>(s: seq<Option<T>>)
    requires forall i, j :: 0 <= i < j < |s| && s[i].Some? ==> s[i] != s[j]
    ensures NoDup(NonNull(s))
  {
    if s != [] {
      var p, c := s[..|s| - 1], s[|s| - 1];
      NonNullNoDup(p);
      assert s == p + [c];
      NonNullSnoc(p, c);
      if c.Some? {
        NonNullMembers(p, c.value);
        NoDupAppend(NonNull(p), [c.value]);
      }
    }
  }

  /** Shuffling keeps a list free of repetition. */
  lemma NoDupPermutation<T>(s: seq<T>, t: seq<T>)
    requires NoDup(s) && multiset(s) == multiset(t)
    ensures NoDup(t)
  {
    NoDupCounts(s);
    forall i, j | 0 <= i < j < |t|
      ensures t[i] != t[j]
    {
      assert t == t[..i] + [t[i]] + t[i + 1..j] + [t[j]] + t[j + 1..];
      assert multiset{t[i], t[j]} <= multiset(t);
    }
  }

  /** `List.remove(Object)`: drops the first occurrence of `x`, if any. */
  function RemoveFirst<T(==)>(s: seq<T>, x: T): (r: seq<T>)
    ensures x in s ==> |r| == |s| - 1
    ensures x !in s ==> r == s
  {
    if s == [] then []
    else if s[0] == x then s[1..]
    else [s[0]] + RemoveFirst(s[1..], x)
  }

  /** Removal takes out one occurrence of `x` and keeps everything else. */
  lemma {:induction false} RemoveFirstMultiset<T>(s: seq<T>, x: T)
    ensures multiset(RemoveFirst(s, x)) == multiset(s) - multiset{x}
  {
    if s != [] {
      assert s == [s[0]] + s[1..];
      if s[0] != x {
        RemoveFirstMultiset(s[1..], x);
      }
    }
  }

  /** On a list without repetition, removal takes out exactly `x`. */
  lemma {:induction false} RemoveFirstMembers<T>(s: seq<T>, x: T)
    requires NoDup(s)
    ensures NoDup(RemoveFirst(s, x))
    ensures forall y :: y in RemoveFirst(s, x) <==> y in s && y != x
  {
    if s != [] {
      assert s == [s[0]] + s[1..];
      assert NoDup(s[1..]) by {
        forall i, j | 0 <= i < j < |s[1..]| ensures s[1..][i] != s[1..][j] {
          assert s[1..][i] == s[i + 1] && s[1..][j] == s[j + 1];
        }
      }
      assert s[0] !in s[1..] by {
        forall k | 0 <= k < |s[1..]| ensures s[1..][k] != s[0] {
          assert s[1..][k] == s[k + 1];
        }
      }
      if s[0] != x {
        RemoveFirstMembers(s[1..], x);
        var r := RemoveFirst(s[1..], x);
        assert RemoveFirst(s, x) == [s[0]] + r;
        forall i, j | 0 <= i < j < |[s[0]] + r| ensures ([s[0]] + r)[i] != ([s[0]] + r)[j] {
          if i == 0 {
            assert ([s[0]] + r)[j] == r[j - 1];
            assert r[j - 1] in r;
          } else {
            assert ([s[0]] + r)[i] == r[i - 1] && ([s[0]] + r)[j] == r[j - 1];
          }
        }
      }
    }
  }

  // ---------------------------------------------------------------------
  // The board's bijection: slotToCard[x] == y iff cardToSlot[y] == x

  predicate Bijection(slotToCard: seq<Cell>, cardToSlot: seq<Cell>)
  {
    (forall s :: 0 <= s < |slotToCard| && slotToCard[s].Some? ==>
       slotToCard[s].value < |cardToSlot| && cardToSlot[slotToCard[s].value] == Some(s)) &&
    (forall c :: 0 <= c < |cardToSlot| && cardToSlot[c].Some? ==>
       cardToSlot[c].value < |slotToCard| && slotToCard[cardToSlot[c].value] == Some(c))
  }

  /** The documented invariant, read in both directions. */
  lemma BijectionIff(slotToCard: seq<Cell>, cardToSlot: seq<Cell>, s: nat, c: nat)
    requires Bijection(slotToCard, cardToSlot)
    requires s < |slotToCard| && c < |cardToSlot|
    ensures slotToCard[s] == Some(c) <==> cardToSlot[c] == Some(s)
  {
  }

  /** A card is never resident in two slots. */
  lemma BijectionOneSlotPerCard(slotToCard: seq<Cell>, cardToSlot: seq<Cell>, s1: nat, s2: nat)
    requires Bijection(slotToCard, cardToSlot)
    requires s1 < |slotToCard| && s2 < |slotToCard|
    requires slotToCard[s1].Some? && slotToCard[s1] == slotToCard[s2]
    ensures s1 == s2
  {
  }

  /** Placing an off-table card into an empty slot keeps the bijection. */
  lemma BijectionPlace(slotToCard: seq<Cell>, cardToSlot: seq<Cell>, card: nat, slot: nat)
    requires Bijection(slotToCard, cardToSlot)
    requires slot < |slotToCard| && card < |cardToSlot|
    requires slotToCard[slot].None? && cardToSlot[card].None?
    ensures Bijection(slotToCard[slot := Some(card)], cardToSlot[card := Some(slot)])
  {
  }

  /** Emptying an occupied slot and its card keeps the bijection. */
  lemma BijectionRemove(slotToCard: seq<Cell>, cardToSlot: seq<Cell>, slot: nat)
    requires Bijection(slotToCard, cardToSlot)
    requires slot < |slotToCard| && slotToCard[slot].Some?
    ensures Bijection(slotToCard[slot := None], cardToSlot[slotToCard[slot].value := None])
  {
  }

  /** The cards on a table whose slots and cards mirror each other are
      distinct, and each is a card of the game that sits in a slot. */
  lemma BijectionCards(slotToCard: seq<Cell>, cardToSlot: seq<Cell>)
    requires Bijection(slotToCard, cardToSlot)
    ensures NoDup(NonNull(slotToCard))
    ensures forall x :: x in NonNull(slotToCard) ==> x < |cardToSlot| && cardToSlot[x].Some?
  {
    NonNullNoDup(slotToCard);
    forall x | x in NonNull(slotToCard)
      ensures x < |cardToSlot| && cardToSlot[x].Some?
    {
      NonNullMembers(slotToCard, x);
    }
  }

  /** The ids below `n`. */
  function Ids(n: nat): (r: set<nat>)
    ensures forall c :: c in r <==> 0 <= c < n
    ensures |r| == n
  {
    if n == 0 then {} else Ids(n - 1) + {n - 1}
  }

  /** The first `n` cells, all non-null and distinct, hold `n` distinct ids. */
  lemma {:induction false} PrefixCardCount(s2c: seq<Cell>, n: nat)
    requires n <= |s2c|
    requires forall s :: 0 <= s < n ==> s2c[s].Some?
    requires forall s, t :: 0 <= s < t < n ==> s2c[s] != s2c[t]
    ensures |set s | 0 <= s < n :: s2c[s].value| == n
  {
    if n > 0 {
      PrefixCardCount(s2c, n - 1);
      var x := s2c[n - 1].value;
      assert (set s | 0 <= s < n :: s2c[s].value) == (set s | 0 <= s < n - 1 :: s2c[s].value) + {x};
    }
  }

  /** The first `n` cells, all non-null, distinct and below `n`, hold every id below `n`. */
  lemma PrefixHoldsAll(s2c: seq<Cell>, n: nat)
    requires n <= |s2c|
    requires forall s :: 0 <= s < n ==> s2c[s].Some? && s2c[s].value < n
    requires forall s, t :: 0 <= s < t < n ==> s2c[s] != s2c[t]
    ensures (set s | 0 <= s < n :: s2c[s].value) == Ids(n)
  {
    PrefixCardCount(s2c, n);
    SubsetFull(set s | 0 <= s < n :: s2c[s].value, Ids(n));
  }

  /** A subset as large as its superset is the whole of it. */
  lemma SubsetFull<T>(a: set<T>, b: set<T>)
    requires a <= b && |a| == |b|
    ensures a == b
  {
    assert b == a + (b - a);
  }

  /** When the first `|cardToSlot|` slots are all occupied, they hold distinct
      cards of the game. */
  lemma FullPrefixDistinct(s2c: seq<Cell>, c2s: seq<Cell>)
    requires Bijection(s2c, c2s) && |c2s| <= |s2c|
    requires forall s :: 0 <= s < |c2s| ==> s2c[s].Some?
    ensures forall s :: 0 <= s < |c2s| ==> s2c[s].Some? && s2c[s].value < |c2s|
    ensures forall s, t :: 0 <= s < t < |c2s| ==> s2c[s] != s2c[t]
  {
    forall s, t | 0 <= s < t < |c2s|
      ensures s2c[s] != s2c[t]
    {
    }
  }

  /** A card shown on one of the first `n` slots has its slot among them. */
  lemma ShownCardSlot(s2c: seq<Cell>, c2s: seq<Cell>, n: nat, c: nat)
    requires Bijection(s2c, c2s) && n <= |s2c|
    requires forall s :: 0 <= s < n ==> s2c[s].Some?
    requires c in (set s | 0 <= s < n :: s2c[s].value)
    ensures c < |c2s| && c2s[c].Some? && c2s[c].value < n
  {
    var s :| 0 <= s < n && s2c[s].value == c;
  }

  /** When the first `|cardToSlot|` slots are all occupied, they hold every
      card of the game: each card's slot is one of them. */
  lemma FullPrefixSlots(s2c: seq<Cell>, c2s: seq<Cell>)
    requires Bijection(s2c, c2s) && |c2s| <= |s2c|
    requires forall s :: 0 <= s < |c2s| ==> s2c[s].Some?
    ensures forall c :: 0 <= c < |c2s| ==> c2s[c].Some? && c2s[c].value < |c2s|
  {
    var n := |c2s|;
    FullPrefixDistinct(s2c, c2s);
    PrefixHoldsAll(s2c, n);
    forall c | 0 <= c < n
      ensures c2s[c].Some? && c2s[c].value < n
    {
      assert c in Ids(n);
      ShownCardSlot(s2c, c2s, n, c);
    }
  }

  /** Hence every slot past them is empty. */
  lemma FullPrefixHoldsEveryCard(s2c: seq<Cell>, c2s: seq<Cell>)
    requires Bijection(s2c, c2s) && |c2s| <= |s2c|
    requires forall s :: 0 <= s < |c2s| ==> s2c[s].Some?
    ensures forall s :: |c2s| <= s < |s2c| ==> s2c[s].None?
  {
    FullPrefixSlots(s2c, c2s);
  }

  // ---------------------------------------------------------------------
  // Winners: the maximum score (starting from 0) and every player at it

  /** The running maximum of `announceWinners`, starting at 0. */
  function MaxScore(scores: seq<int>): (m: int)
    ensures m >= 0
    ensures forall i :: 0 <= i < |scores| ==> scores[i] <= m
  {
    if scores == [] then 0
    else
      var m := MaxScore(scores[..|scores| - 1]);
      if scores[|scores| - 1] > m then scores[|scores| - 1] else m
  }

  /** With non-negative scores, some player reaches the maximum. */
  lemma {:induction false} MaxScoreAttained(scores: seq<int>)
    requires |scores| > 0
    requires forall i :: 0 <= i < |scores| ==> scores[i] >= 0
    ensures exists i :: 0 <= i < |scores| && scores[i] == MaxScore(scores)
  {
    var p := scores[..|scores| - 1];
    if scores[|scores| - 1] <= MaxScore(p) && p != [] {
      MaxScoreAttained(p);
      var i :| 0 <= i < |p| && p[i] == MaxScore(p);
      assert scores[i] == p[i];
    }
  }

  /** The ids (indices) of the players scoring `m`, in player order. */
  function Winners(scores: seq<int>, m: int): (w: seq<nat>)
    ensures forall k :: 0 <= k < |w| ==> w[k] < |scores| && scores[w[k]] == m
    ensures forall k, l :: 0 <= k < l < |w| ==> w[k] < w[l]
  {
    if scores == [] then []
    else Winners(scores[..|scores| - 1], m) + (if scores[|scores| - 1] == m then [|scores| - 1] else [])
  }

  /** Number of players scoring `m` (the `counter` of `announceWinners`). */
  function CountAt(scores: seq<int>, m: int): (n: nat)
    ensures n <= |scores|
  {
    if scores == [] then 0
    else CountAt(scores[..|scores| - 1], m) + (if scores[|scores| - 1] == m then 1 else 0)
  }

  lemma {:induction false} WinnersComplete(scores: seq<int>, m: int)
    ensures |Winners(scores, m)| == CountAt(scores, m)
    ensures forall i :: 0 <= i < |scores| && scores[i] == m ==> i in Winners(scores, m)
  {
    if scores != [] {
      var p := scores[..|scores| - 1];
      WinnersComplete(p, m);
      forall i | 0 <= i < |scores| && scores[i] == m ensures i in Winners(scores, m) {
        if i < |p| {
          assert p[i] == scores[i];
        }
      }
    }
  }

  /** One more player extends the winners and their count by that player if it scores `m`. */
  lemma WinnersStep(scores: seq<int>, m: int, i: nat)
    requires i < |scores|
    ensures Winners(scores[..i + 1], m) == Winners(scores[..i], m) + if scores[i] == m then [i] else []
    ensures CountAt(scores[..i + 1], m) == CountAt(scores[..i], m) + if scores[i] == m then 1 else 0
  {
    assert scores[..i + 1][..i] == scores[..i];
  }

  /** A prefix never counts more players at `m` than the whole. */
  lemma {:induction false} CountAtPrefix(scores: seq<int>, m: int, i: nat)
    requires i <= |scores|
    ensures CountAt(scores[..i], m) <= CountAt(scores, m)
    decreases |scores|
  {
    if i < |scores| {
      var p := scores[..|scores| - 1];
      CountAtPrefix(p, m, i);
      assert p[..i] == scores[..i];
    } else {
      assert scores[..i] == scores;
    }
  }

  /** Writing `x` at position `n` extends the prefix before `n` by `x`. */
  lemma PrefixPush<T>(a: seq<T>, b: seq<T>, n: nat, x: T)
    requires n < |a| && b == a[n := x]
    ensures b[..n + 1] == a[..n] + [x]
  {
  }

  /** A player at `m` leaves room for one more before the whole count. */
  lemma CountAtRoom(scores: seq<int>, m: int, i: nat)
    requires i < |scores| && scores[i] == m
    ensures CountAt(scores[..i], m) < CountAt(scores, m)
  {
    CountAtPrefix(scores, m, i + 1);
    WinnersStep(scores, m, i);
  }

  // ---------------------------------------------------------------------
  // Row-major grid positions

  /** Index of the first cell of row `row` in a row-major board of `cols`
      columns, `cols*row`, written as repeated addition so that the table's
      invariant stays within linear arithmetic. */
  function RowStart(row: nat, cols: nat): (r: nat)
  {
    if row == 0 then 0 else RowStart(row - 1, cols) + cols
  }

  /** `RowStart` is the product `cols*row`. */
  lemma {:induction false} RowStartIsProduct(row: nat, cols: nat)
    ensures RowStart(row, cols) == cols * row
  {
    if row > 0 {
      RowStartIsProduct(row - 1, cols);
    }
  }

  /** Later rows start further along. */
  lemma {:induction false} RowStartMonotone(r1: nat, r2: nat, cols: nat)
    requires r1 <= r2
    ensures RowStart(r1, cols) <= RowStart(r2, cols)
    decreases r2
  {
    if r1 < r2 {
      RowStartMonotone(r1, r2 - 1, cols);
    }
  }

  /** Flat slot index of a grid cell: `col + cols*row`. */
  function SlotOf(row: nat, col: nat, cols: nat): nat
  {
    col + RowStart(row, cols)
  }

  /** Every cell of a `rows` by `cols` board has an index below `rows*cols`. */
  lemma SlotOfInRange(row: nat, col: nat, rows: nat, cols: nat)
    requires row < rows && col < cols
    ensures SlotOf(row, col, cols) < RowStart(rows, cols)
  {
    RowStartMonotone(row + 1, rows, cols);
  }

  /** Different cells of a row have different indices: the index determines the cell. */
  lemma SlotOfInjective(r1: nat, c1: nat, r2: nat, c2: nat, cols: nat)
    requires c1 < cols && c2 < cols
    requires SlotOf(r1, c1, cols) == SlotOf(r2, c2, cols)
    ensures r1 == r2 && c1 == c2
  {
    if r1 < r2 {
      RowStartMonotone(r1 + 1, r2, cols);
    } else if r2 < r1 {
      RowStartMonotone(r2 + 1, r1, cols);
    }
  }

  /** Every index below `rows*cols` is the index of a cell. */
  lemma {:induction false} CellOfSlot(slot: nat, rows: nat, cols: nat) returns (row: nat, col: nat)
    requires slot < RowStart(rows, cols)
    ensures row < rows && col < cols && SlotOf(row, col, cols) == slot
  {
    if slot < RowStart(rows - 1, cols) {
      row, col := CellOfSlot(slot, rows - 1, cols);
    } else {
      row, col := rows - 1, slot - RowStart(rows - 1, cols);
    }
  }

  /** Cell (r1, c1) comes before cell (r2, c2) in row-major order. */
  predicate Before(r1: nat, c1: nat, r2: nat, c2: nat)
  {
    r1 < r2 || (r1 == r2 && c1 < c2)
  }

  /** (r, c) is the first cell of `g`, in row-major order, holding `v`. */
  ghost predicate IsFirstOf(g: array2<Cell>, v: Cell, r: nat, c: nat)
    reads g
  {
    r < g.Length0 && c < g.Length1 && g[r, c] == v &&
    forall r', c' :: 0 <= r' < g.Length0 && 0 <= c' < g.Length1 && Before(r', c', r, c) ==> g[r', c'] != v
  }

  lemma FirstOfUnique(g: array2<Cell>, v: Cell, r1: nat, c1: nat, r2: nat, c2: nat)
    requires IsFirstOf(g, v, r1, c1) && IsFirstOf(g, v, r2, c2)
    ensures r1 == r2 && c1 == c2
  {
  }

  /** The nested `keepLoop` scan of the grid: the first cell equal to `v` is
      overwritten with `w`, and the scan stops there. */
  method ReplaceFirst(g: array2<Cell>, v: Cell, w: Cell) returns (found: bool, row: nat, col: nat)
    modifies g
    ensures found ==> old(IsFirstOf(g, v, row, col))
    ensures !found ==> forall r, c :: 0 <= r < g.Length0 && 0 <= c < g.Length1 ==> old(g[r, c]) != v
    ensures forall r, c :: 0 <= r < g.Length0 && 0 <= c < g.Length1 ==>
              g[r, c] == if old(IsFirstOf(g, v, r, c)) then w else old(g[r, c])
  {
    found, row, col := false, 0, 0;
    var keepLoop := true;
    var i := 0;
    while i < g.Length0 && keepLoop
      invariant 0 <= i <= g.Length0
      invariant keepLoop <==> !found
      invariant keepLoop ==> forall r, c :: 0 <= r < g.Length0 && 0 <= c < g.Length1 ==> g[r, c] == old(g[r, c])
      invariant keepLoop ==> forall r, c :: 0 <= r < i && 0 <= c < g.Length1 ==> g[r, c] != v
      invariant found ==> old(IsFirstOf(g, v, row, col))
      invariant found ==> forall r, c :: 0 <= r < g.Length0 && 0 <= c < g.Length1 ==>
                  g[r, c] == if r == row && c == col then w else old(g[r, c])
    {
      var j := 0;
      while j < g.Length1 && keepLoop
        invariant 0 <= j <= g.Length1
        invariant keepLoop <==> !found
        invariant keepLoop ==> forall r, c :: 0 <= r < g.Length0 && 0 <= c < g.Length1 ==> g[r, c] == old(g[r, c])
        invariant keepLoop ==> forall r, c :: 0 <= r < g.Length0 && 0 <= c < g.Length1 && Before(r, c, i, j) ==> g[r, c] != v
        invariant found ==> old(IsFirstOf(g, v, row, col))
        invariant found ==> forall r, c :: 0 <= r < g.Length0 && 0 <= c < g.Length1 ==>
                    g[r, c] == if r == row && c == col then w else old(g[r, c])
      {
        if g[i, j] == v {
          g[i, j] := w;
          found, row, col := true, i, j;
          keepLoop := false;
        }
        j := j + 1;
      }
      i := i + 1;
    }
    forall r, c | 0 <= r < g.Length0 && 0 <= c < g.Length1
      ensures g[r, c] == if old(IsFirstOf(g, v, r, c)) then w else old(g[r, c])
    {
    }
  }
}
