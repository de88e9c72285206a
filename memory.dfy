/**
 * The memory-matching card game of memory/script.js: sixteen face-down cards,
 * eight fruit twice each, turned up two at a time by the player and by a CPU
 * opponent that picks blindly among the cards still in play. A pair of equal
 * cards scores for whoever turned it and lets them go on; a miss passes the
 * turn. The game ends when all eight pairs are found.
 *
 * The fruit are numbered 0..7 in the order of `cardValues`. The module-level
 * variables of the script are the fields of `MemoryGame`; the card elements'
 * `is-matched` class is the set `matchedCards` of their indices. The handlers
 * that the script runs from `setTimeout` are methods whose calls the
 * counters `pendingChecks` and `pendingCpuTurns` license.
 */
module Memory {
  import opened Wrappers
  import opened Random

  /** The number of distinct fruit, `cardValues.length`. */
  const VALUES := 8
  /** `cardValues`: fruit `v` is number `v`. */
  const CARD_VALUES: seq<int> := Range(VALUES)
  /** `[...cardValues, ...cardValues]`. */
  const DECK: seq<int> := CARD_VALUES + CARD_VALUES
  const CARDS := 16
  /** `cards.length / 2`: the number of pairs on the table. */
  const PAIRS := CARDS / 2

  /** An arrangement of the deck: the same cards in some order. */
  predicate IsDeck(s: seq<int>)
  {
    multiset(s) == multiset(DECK)
  }

  /** The numbers `0 .. n - 1` in order. */
  function Range(n: nat): seq<int>
  {
    if n == 0 then [] else Range(n - 1) + [n - 1]
  }

  /** Each of `0 .. n - 1` occurs in `Range(n)` once, and nothing else occurs. */
  lemma {:induction false} RangeCount(n: nat)
    ensures |Range(n)| == n
    ensures forall v :: multiset(Range(n))[v] == if 0 <= v < n then 1 else 0
  {
    if n > 0 {
      RangeCount(n - 1);
    }
  }

  /** The deck holds each of the eight fruit exactly twice and nothing else. */
  lemma DeckHasPairs()
    ensures |DECK| == CARDS
    ensures forall v :: multiset(DECK)[v] == if 0 <= v < VALUES then 2 else 0
  {
    RangeCount(VALUES);
  }

  /** Every arrangement of the deck holds each fruit exactly twice. */
  lemma ArrangementHasPairs(s: seq<int>)
    requires IsDeck(s)
    ensures |s| == CARDS
    ensures forall v :: multiset(s)[v] == if 0 <= v < VALUES then 2 else 0
  {
    DeckHasPairs();
    assert |s| == |multiset(s)| == |multiset(DECK)|;
  }

  /** Shuffling an arrangement of the deck gives an arrangement of the deck. */
  lemma ShuffleKeepsDeck(s: seq<int>, draws: seq<Unit>)
    requires IsDeck(s) && |draws| == ShuffleDraws(|s|)
    ensures IsDeck(Shuffled(s, draws))
  {
    ShuffledIsPermutation(s, draws);
  }

  /** `let cards = [...cardValues, ...cardValues]`. */
  method NewDeck() returns (a: array<int>)
    ensures fresh(a) && a[..] == DECK
  {
    DeckHasPairs();
    a := new int[CARDS](i requires 0 <= i < CARDS => DECK[i]);
  }

  /** `shuffle(array)`: the Fisher-Yates loop, in place. */
  method Shuffle(a: array<int>, draws: seq<Unit>)
    requires |draws| == ShuffleDraws(a.Length)
    modifies a
    ensures a[..] == Shuffled(old(a[..]), draws)
  {
    if a.Length == 0 {
      return;
    }
    var i := a.Length - 1;
    while i > 0
      invariant 0 <= i < a.Length
      invariant ShuffleFrom(a[..], i, draws[a.Length - 1 - i..]) == Shuffled(old(a[..]), draws)
    {
      var rest := draws[a.Length - 1 - i..];
      var j := RandomInt(rest[0], i + 1);
      ShuffleFromStep(a[..], i, rest);
      SwapCells(a, i, j);
      assert rest[1..] == draws[a.Length - 1 - (i - 1)..];
      i := i - 1;
    }
  }

  /** `[array[i], array[j]] = [array[j], array[i]]`. */
  method SwapCells(a: array<int>, i: nat, j: nat)
    requires i < a.Length && j < a.Length
    modifies a
    ensures a[..] == SwapAt(old(a[..]), i, j)
  {
    a[i], a[j] := a[j], a[i];
  }

  datatype Outcome = PlayerWins | CpuWins | Draw

  /** `displayResult`: the higher score wins, equal scores draw. */
  function Decide(playerScore: nat, cpuScore: nat): (o: Outcome)
    ensures o == PlayerWins <==> playerScore > cpuScore
    ensures o == CpuWins <==> playerScore < cpuScore
    ensures o == Draw <==> playerScore == cpuScore
  {
    if playerScore > cpuScore then PlayerWins
    else if playerScore < cpuScore then CpuWins
    else Draw
  }

  datatype Turn = Player | Cpu

  function Other(t: Turn): Turn
  {
    if t == Player then Cpu else Player
  }

  /** `availableCards.filter(index => index != a && index != b)`. */
  function Without(s: seq<int>, a: int, b: int): (r: seq<int>)
    ensures forall x :: x in r <==> x in s && x != a && x != b
  {
    if s == [] then []
    else (if s[0] != a && s[0] != b then [s[0]] else []) + Without(s[1..], a, b)
  }

  /** Filtering two distinct members out of a list without repetitions removes exactly two. */
  lemma {:induction false} WithoutTwo(s: seq<int>, a: int, b: int)
    requires Distinct(s)
    ensures Distinct(Without(s, a, b))
    ensures |Without(s, a, b)| == |s| - (if a in s then 1 else 0) - (if b in s && b != a then 1 else 0)
  {
    if s != [] {
      var t := s[1..];
      assert Distinct(t) by {
        forall i, j | 0 <= i < j < |t| ensures t[i] != t[j] {
          assert t[i] == s[i + 1] && t[j] == s[j + 1];
        }
      }
      assert s[0] !in t;
      WithoutTwo(t, a, b);
      assert a in s <==> a == s[0] || a in t by { assert s == [s[0]] + t; }
      assert b in s <==> b == s[0] || b in t by { assert s == [s[0]] + t; }
      if s[0] != a && s[0] != b {
        DistinctConcat([s[0]], Without(t, a, b));
      }
    }
  }

  /** The second draw of `selectCpuCards`' do/while loop: the first index that is not `first`. */
  function SecondPick(available: seq<int>, first: int, draws: seq<Unit>): (r: Option<int>)
    requires |available| > 0
    ensures r.Some? ==> r.value in available && r.value != first
    decreases |draws|
  {
    if draws == [] then None
    else
      var second := available[RandomInt(draws[0], |available|)];
      if second != first then Some(second) else SecondPick(available, first, draws[1..])
  }

  /** The two cards `selectCpuCards` returns, or None when the draws run out before two differ. */
  function CpuPick(available: seq<int>, u: Unit, draws: seq<Unit>): (r: Option<(int, int)>)
    requires |available| > 0
  {
    var first := available[RandomInt(u, |available|)];
    match SecondPick(available, first, draws)
    case None => None
    case Some(second) => Some((first, second))
  }

  /** The CPU picks two different cards still in play. */
  lemma CpuPickIsPair(available: seq<int>, u: Unit, draws: seq<Unit>)
    requires |available| > 0
    ensures CpuPick(available, u, draws).Some? ==>
      var (first, second) := CpuPick(available, u, draws).value;
      first in available && second in available && first != second
  {
    var first := available[RandomInt(u, |available|)];
    assert first in available;
  }

  /** The loop runs out of draws exactly when every draw hits the first card again. */
  lemma {:induction false} SecondPickFails(available: seq<int>, first: int, draws: seq<Unit>)
    requires |available| > 0
    ensures SecondPick(available, first, draws).None? <==>
      forall k :: 0 <= k < |draws| ==> available[RandomInt(draws[k], |available|)] == first
    decreases |draws|
  {
    if draws != [] {
      SecondPickFails(available, first, draws[1..]);
      forall k | 0 <= k < |draws| - 1 ensures draws[1..][k] == draws[k + 1] { }
    }
  }

  /** `selectCpuCards`, with the loop's draws supplied; the source keeps drawing for ever. */
  method SelectCpuCards(available: seq<int>, u: Unit, draws: seq<Unit>) returns (pick: Option<(int, int)>)
    requires |available| > 0
    ensures pick == CpuPick(available, u, draws)
  {
    var first := available[RandomInt(u, |available|)];
    var k := 0;
    while k < |draws|
      invariant 0 <= k <= |draws|
      invariant SecondPick(available, first, draws[k..]) == SecondPick(available, first, draws)
    {
      var second := available[RandomInt(draws[k], |available|)];
      if second != first {
        return Some((first, second));
      }
      assert draws[k..][1..] == draws[k + 1..];
      k := k + 1;
    }
    return None;
  }

  /** The variables of the script, as one value. */
  datatype Table = Table(
    flippedCards: seq<int>,
    lockBoard: bool,
    playerScore: nat,
    cpuScore: nat,
    turn: Turn,
    pairsFound: nat,
    availableCards: seq<int>,
    matchedCards: set<int>,
    result: Option<Outcome>)

  /** `[...Array(cards.length).keys()]`. */
  const ALL_CARDS: seq<int> := seq(CARDS, i => i)

  /** The table `initializeGame` sets up. */
  const INITIAL_TABLE := Table([], false, 0, 0, Player, 0, ALL_CARDS, {}, None)

  /**
   * What the handlers keep true: at most two distinct cards face up, both in
   * play, and locked when there are two; the cards in play are exactly the
   * unmatched ones, two fewer for each pair found; every pair found scored
   * for one side; the result is shown exactly when all pairs are found.
   */
  ghost predicate Consistent(t: Table)
  {
    && |t.flippedCards| <= 2
    && Distinct(t.flippedCards)
    && (forall i :: i in t.flippedCards ==> i in t.availableCards)
    && (|t.flippedCards| == 2 ==> t.lockBoard)
    && Distinct(t.availableCards)
    && (forall i :: i in t.availableCards <==> 0 <= i < CARDS && i !in t.matchedCards)
    && (forall i :: i in t.matchedCards ==> 0 <= i < CARDS)
    && |t.availableCards| + 2 * t.pairsFound == CARDS
    && t.playerScore + t.cpuScore == t.pairsFound
    && t.result == if t.pairsFound == PAIRS then Some(Decide(t.playerScore, t.cpuScore)) else None
  }

  lemma InitialConsistent()
    ensures Consistent(INITIAL_TABLE)
  {
    assert forall i :: i in ALL_CARDS <==> 0 <= i < CARDS by {
      forall i ensures i in ALL_CARDS <==> 0 <= i < CARDS {
        if 0 <= i < CARDS {
          assert ALL_CARDS[i] == i;
        }
      }
    }
  }

  /** `flipCard`: the card goes face up; the second one locks the board. */
  function Flipped(t: Table, i: int): Table
  {
    var f := t.flippedCards + [i];
    t.(flippedCards := f, lockBoard := if |f| == 2 then true else t.lockBoard)
  }

  /** The guards of `handleCardClick`. */
  predicate CanFlip(t: Table, i: int)
  {
    t.turn == Player && !t.lockBoard && i !in t.flippedCards && i !in t.matchedCards
  }

  /** The two face-up cards show the same fruit of `deck`. */
  predicate SameFruit(deck: seq<int>, t: Table)
  {
    && |t.flippedCards| >= 2
    && 0 <= t.flippedCards[0] < |deck| && 0 <= t.flippedCards[1] < |deck|
    && deck[t.flippedCards[0]] == deck[t.flippedCards[1]]
  }

  /** `handleCardClick` on card `i`. */
  function Clicked(t: Table, i: int): Table
  {
    if CanFlip(t, i) then Flipped(t, i) else t
  }

  /**
   * A click keeps the table consistent; it turns the card up exactly when
   * the guards pass, and it locks the board exactly when it turns up the
   * second card.
   */
  lemma ClickedKeepsConsistent(t: Table, i: int)
    requires Consistent(t) && 0 <= i < CARDS
    ensures Consistent(Clicked(t, i))
    ensures CanFlip(t, i) ==> Clicked(t, i).flippedCards == t.flippedCards + [i]
    ensures !CanFlip(t, i) ==> Clicked(t, i) == t
    ensures CanFlip(t, i) ==> (Clicked(t, i).lockBoard <==> |t.flippedCards| == 1)
  {
    if CanFlip(t, i) {
      var f := t.flippedCards + [i];
      assert i in t.availableCards;
      DistinctConcat(t.flippedCards, [i]);
      assert forall x :: x in f ==> x in t.flippedCards || x == i;
    }
  }

  /** The first step of `handleMatch`: whoever has the turn scores. */
  function Scored(t: Table): Table
  {
    if t.turn == Player then t.(playerScore := t.playerScore + 1)
    else t.(cpuScore := t.cpuScore + 1)
  }

  /** The rest of `handleMatch` up to `checkGameEnd`: both face-up cards leave play. */
  function PairRemoved(t: Table): Table
    requires |t.flippedCards| == 2
  {
    var card1, card2 := t.flippedCards[0], t.flippedCards[1];
    t.(matchedCards := t.matchedCards + {card1, card2}, pairsFound := t.pairsFound + 1,
       availableCards := Without(t.availableCards, card1, card2), flippedCards := [], lockBoard := false)
  }

  /** `checkGameEnd`: the result is shown once all pairs are found. */
  function Ended(t: Table): Table
  {
    if t.pairsFound == PAIRS then t.(result := Some(Decide(t.playerScore, t.cpuScore))) else t
  }

  /** `handleMatch`. */
  function Matched(t: Table): Table
    requires |t.flippedCards| == 2
  {
    Ended(PairRemoved(Scored(t)))
  }

  /**
   * A match keeps the table consistent: exactly the two face-up cards leave
   * play, one side's score and the pair count go up by one.
   */
  lemma MatchedKeepsConsistent(t: Table)
    requires Consistent(t) && |t.flippedCards| == 2
    ensures Consistent(Matched(t))
    ensures |Matched(t).availableCards| == |t.availableCards| - 2
    ensures Matched(t).playerScore + Matched(t).cpuScore == t.playerScore + t.cpuScore + 1
  {
    var card1, card2 := t.flippedCards[0], t.flippedCards[1];
    assert card1 in t.flippedCards && card2 in t.flippedCards;
    WithoutTwo(t.availableCards, card1, card2);
  }

  /** `switchTurn`: the turn passes unless all pairs are found. */
  function Switched(t: Table): Table
  {
    if t.pairsFound == PAIRS then t else t.(turn := Other(t.turn))
  }

  /** Two switches bring back the turn. */
  lemma SwitchedTwice(t: Table)
    ensures Switched(Switched(t)) == t
  {
  }

  /** The deferred body of `unflipCards`: the cards go face down and the turn passes. */
  function Unflipped(t: Table): Table
  {
    Switched(t.(flippedCards := [], lockBoard := false))
  }

  lemma UnflippedKeepsConsistent(t: Table)
    requires Consistent(t)
    ensures Consistent(Unflipped(t))
    ensures Unflipped(t).flippedCards == [] && !Unflipped(t).lockBoard
    ensures t.pairsFound != PAIRS ==> Unflipped(t).turn != t.turn
  {
  }

  /** `cpuTurn` after `selectCpuCards` returned `first` and `second`. */
  lemma CpuFlipKeepsConsistent(t: Table, first: int, second: int)
    requires Consistent(t) && t.flippedCards == []
    requires first in t.availableCards && second in t.availableCards && first != second
    ensures Consistent(t.(flippedCards := [first, second], lockBoard := true))
  {
    assert forall x :: x in [first, second] ==> x == first || x == second;
  }

  /** While pairs remain, at least two cards are in play, so the CPU can pick. */
  lemma CardsRemain(t: Table)
    requires Consistent(t) && t.pairsFound != PAIRS
    ensures t.pairsFound < PAIRS && |t.availableCards| >= 2
  {
  }

  /** Once all pairs are found no card is in play or face up, and no click changes anything. */
  lemma EndIsFinal(t: Table, i: int)
    requires Consistent(t) && t.pairsFound == PAIRS && 0 <= i < CARDS
    ensures t.availableCards == [] && t.flippedCards == []
    ensures t.result == Some(Decide(t.playerScore, t.cpuScore))
    ensures Clicked(t, i) == t
  {
    assert i !in t.availableCards;
    assert t.availableCards == [];
    if |t.flippedCards| > 0 {
      HeadIsMember(t.flippedCards, t.flippedCards[0]);
      assert false;
    }
  }

  lemma HeadIsMember(s: seq<int>, x: int)
    requires |s| > 0 && x == s[0]
    ensures x in s
  {
  }

  /** The module-level state of memory/script.js. */
  class MemoryGame {
    const cards: array<int>
    var flippedCards: seq<int>
    var lockBoard: bool
    var playerScore: nat
    var cpuScore: nat
    var turn: Turn
    var pairsFound: nat
    var availableCards: seq<int>
    var matchedCards: set<int>
    /** The result the modal shows, None while it is hidden. */
    var result: Option<Outcome>
    /** `checkForMatch` calls scheduled and not yet run. */
    var pendingChecks: nat
    /** `cpuTurn` calls scheduled and not yet run. */
    var pendingCpuTurns: nat

    function State(): Table
      reads this
    {
      Table(flippedCards, lockBoard, playerScore, cpuScore, turn, pairsFound,
            availableCards, matchedCards, result)
    }

    /** The table invariant; `cards` is never written after `initializeGame`. */
    ghost predicate Valid()
      reads this
    {
      cards.Length == CARDS && Consistent(State())
    }

    /** The cards on the table are an arrangement of the deck. */
    ghost predicate DeckOk()
      reads cards
    {
      IsDeck(cards[..])
    }

    /**
     * The script's `let` declarations: the deck in order and the first values
     * of the variables. The script then calls `initializeGame`.
     */
    constructor ()
      ensures cards[..] == DECK && DeckOk()
      ensures State() == Table([], false, 0, 0, Player, 0, [], {}, None)
      ensures pendingChecks == 0 && pendingCpuTurns == 0
    {
      var deck := NewDeck();
      cards := deck;
      flippedCards := [];
      lockBoard := false;
      playerScore := 0;
      cpuScore := 0;
      turn := Player;
      pairsFound := 0;
      availableCards := [];
      matchedCards := {};
      result := None;
      pendingChecks := 0;
      pendingCpuTurns := 0;
    }

    /** `initializeGame`: shuffle the deck again and reset the table; timers already set keep running. */
    method InitializeGame(draws: seq<Unit>)
      requires cards.Length == CARDS && DeckOk()
      requires |draws| == ShuffleDraws(CARDS)
      modifies cards, this`flippedCards, this`lockBoard, this`playerScore, this`cpuScore,
        this`pairsFound, this`turn, this`result, this`availableCards, this`matchedCards
      ensures Valid() && DeckOk()
      ensures cards[..] == Shuffled(old(cards[..]), draws)
      ensures State() == INITIAL_TABLE
    {
      Shuffle(cards, draws);
      ShuffleKeepsDeck(old(cards[..]), draws);
      ResetTable();
      InitialConsistent();
    }

    /** The lines of `initializeGame` after the shuffle: every variable gets its first value. */
    method ResetTable()
      modifies this`flippedCards, this`lockBoard, this`playerScore, this`cpuScore, this`pairsFound,
        this`turn, this`result, this`availableCards, this`matchedCards
      ensures State() == INITIAL_TABLE
    {
      flippedCards := [];
      lockBoard := false;
      playerScore := 0;
      cpuScore := 0;
      pairsFound := 0;
      turn := Player;
      result := None;
      availableCards := ALL_CARDS;
      matchedCards := {};
    }

    /** `handleCardClick` on the card at index `i`. */
    method HandleCardClick(i: int)
      requires Valid() && 0 <= i < CARDS
      modifies this
      ensures Valid()
      ensures State() == Clicked(old(State()), i)
      ensures pendingChecks == old(pendingChecks) + (if CanFlip(old(State()), i) && |flippedCards| == 2 then 1 else 0)
      ensures pendingCpuTurns == old(pendingCpuTurns)
    {
      ClickedKeepsConsistent(State(), i);
      if turn != Player || lockBoard {
        return;
      }
      if i in flippedCards || i in matchedCards {
        return;
      }
      FlipCard(i);
    }

    /** `flipCard`: a second face-up card locks the board and schedules `checkForMatch`. */
    method FlipCard(i: int)
      modifies this
      ensures State() == Flipped(old(State()), i)
      ensures pendingChecks == old(pendingChecks) + (if |flippedCards| == 2 then 1 else 0)
      ensures pendingCpuTurns == old(pendingCpuTurns)
    {
      flippedCards := flippedCards + [i];
      if |flippedCards| == 2 {
        lockBoard := true;
        pendingChecks := pendingChecks + 1;
      }
    }

    /**
     * `checkForMatch`, run by its timer. With fewer than two cards face up the
     * source calls `resetBoard`, which it never defines: the handler stops
     * there with nothing changed, and the result is None.
     */
    method CheckForMatch() returns (isMatch: Option<bool>)
      requires Valid() && pendingChecks > 0
      modifies this
      ensures Valid()
      ensures pendingChecks == old(pendingChecks) - 1
      ensures isMatch.None? <==> |old(flippedCards)| < 2
      ensures isMatch.None? ==> State() == old(State()) && pendingCpuTurns == old(pendingCpuTurns)
      ensures isMatch.Some? ==> (isMatch.value <==> SameFruit(cards[..], old(State())))
      ensures isMatch == Some(true) ==>
        State() == Matched(old(State()))
        && pendingCpuTurns == old(pendingCpuTurns) + (if turn == Cpu then 1 else 0)
      ensures isMatch == Some(false) ==>
        State() == Unflipped(old(State()))
        && pendingCpuTurns == old(pendingCpuTurns) + (if old(pairsFound) != PAIRS && turn == Cpu then 1 else 0)
    {
      pendingChecks := pendingChecks - 1;
      if |flippedCards| < 2 {
        return None;
      }
      var card1, card2 := flippedCards[0], flippedCards[1];
      assert card1 in flippedCards && card2 in flippedCards;
      if cards[card1] == cards[card2] {
        HandleMatch();
        isMatch := Some(true);
      } else {
        UnflipCards();
        isMatch := Some(false);
      }
    }

    /** `handleMatch`; the CPU, having scored, plays again. */
    method HandleMatch()
      requires Valid() && |flippedCards| == 2
      modifies this
      ensures Valid()
      ensures State() == Matched(old(State()))
      ensures pendingChecks == old(pendingChecks)
      ensures pendingCpuTurns == old(pendingCpuTurns) + (if turn == Cpu then 1 else 0)
    {
      MatchedKeepsConsistent(State());
      ScorePair();
      RemovePair();
      CheckGameEnd();
      if turn == Cpu {
        pendingCpuTurns := pendingCpuTurns + 1;
      }
    }

    /** The scoring lines of `handleMatch`. */
    method ScorePair()
      modifies this`playerScore, this`cpuScore
      ensures State() == Scored(old(State()))
    {
      if turn == Player {
        playerScore := playerScore + 1;
      } else {
        cpuScore := cpuScore + 1;
      }
    }

    /** The lines of `handleMatch` that take the face-up pair out of play. */
    method RemovePair()
      requires |flippedCards| == 2
      modifies this`matchedCards, this`pairsFound, this`availableCards, this`flippedCards, this`lockBoard
      ensures State() == PairRemoved(old(State()))
    {
      var card1, card2 := flippedCards[0], flippedCards[1];
      matchedCards := matchedCards + {card1, card2};
      pairsFound := pairsFound + 1;
      availableCards := Without(availableCards, card1, card2);
      flippedCards := [];
      lockBoard := false;
    }

    /** `checkGameEnd`: show the result once all pairs are found. */
    method CheckGameEnd()
      modifies this`result
      ensures State() == Ended(old(State()))
    {
      if pairsFound == PAIRS {
        result := Some(Decide(playerScore, cpuScore));
      }
    }

    /** `unflipCards`, with its deferred body run at once. */
    method UnflipCards()
      requires Valid()
      modifies this
      ensures Valid()
      ensures State() == Unflipped(old(State()))
      ensures pendingChecks == old(pendingChecks)
      ensures pendingCpuTurns == old(pendingCpuTurns) + (if old(pairsFound) != PAIRS && turn == Cpu then 1 else 0)
    {
      UnflippedKeepsConsistent(State());
      flippedCards := [];
      lockBoard := false;
      SwitchTurn();
    }

    /** `switchTurn`; a turn passed to the CPU schedules `cpuTurn`. */
    method SwitchTurn()
      modifies this
      ensures State() == Switched(old(State()))
      ensures pendingChecks == old(pendingChecks)
      ensures pendingCpuTurns == old(pendingCpuTurns) + (if old(pairsFound) != PAIRS && turn == Cpu then 1 else 0)
    {
      if pairsFound == PAIRS {
        return;
      }
      turn := Other(turn);
      if turn == Cpu {
        pendingCpuTurns := pendingCpuTurns + 1;
      }
    }

    /**
     * `cpuTurn`, run by its timer, with its second flip run at once. `u` and
     * `draws` are the random values of `selectCpuCards`; when they run out
     * before two different cards come up, the result is None and the board
     * stays locked, where the source is still drawing.
     */
    method CpuTurn(u: Unit, draws: seq<Unit>) returns (pick: Option<(int, int)>)
      requires Valid() && pendingCpuTurns > 0 && flippedCards == []
      modifies this
      ensures Valid()
      ensures pendingCpuTurns == old(pendingCpuTurns) - 1
      ensures old(pairsFound) == PAIRS ==>
        pick.None? && State() == old(State()) && pendingChecks == old(pendingChecks)
      ensures old(pairsFound) != PAIRS ==>
        |old(availableCards)| >= 2 && pick == CpuPick(old(availableCards), u, draws)
      ensures old(pairsFound) != PAIRS && pick.None? ==>
        State() == old(State()).(lockBoard := true) && pendingChecks == old(pendingChecks)
      ensures pick.Some? ==>
        State() == old(State()).(flippedCards := [pick.value.0, pick.value.1], lockBoard := true)
        && pendingChecks == old(pendingChecks) + 1
    {
      pendingCpuTurns := pendingCpuTurns - 1;
      if pairsFound == PAIRS {
        return None;
      }
      CardsRemain(State());
      lockBoard := true;
      pick := SelectCpuCards(availableCards, u, draws);
      if pick.Some? {
        var (firstCardIndex, secondCardIndex) := pick.value;
        CpuPickIsPair(availableCards, u, draws);
        CpuFlipKeepsConsistent(old(State()), firstCardIndex, secondCardIndex);
        FlipCard(firstCardIndex);
        FlipCard(secondCardIndex);
      }
    }
  }
}
