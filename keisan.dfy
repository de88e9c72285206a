/**
 * The mental-arithmetic game of keisan/script.js: a question `a op b = ?`
 * is shown together with a handful of numbers floating on the screen, one
 * of them the answer; the player clicks a number, a correct click counts,
 * and after a short feedback pause the next question appears, until the
 * thirty seconds are up.
 *
 * The module-level variables of the script are the fields of `QuizGame`
 * (and of the value `Quiz` that describes them). A floating number is
 * represented by its value alone: its position, size, speed and rotation
 * are presentation. Every `Math.random()` the modelled code takes is the
 * next value of the stream `random`, and `drawn` counts the values taken.
 * Elapsed wall-clock time is a parameter of the handlers that read it.
 */
module Keisan {
  import opened Wrappers
  import opened Random

  const GAME_DURATION_SECONDS := 30
  /** Never read by the script; the model proves the screen stays within it. */
  const MAX_FLOATING_NUMBERS_ON_SCREEN := 10
  const MAX_ATTEMPTS_FOR_UNIQUE_NUMBER := 200

  function Min(a: int, b: int): int
  {
    if a <= b then a else b
  }

  // ---------------------------------------------------------------------
  // Questions
  // ---------------------------------------------------------------------

  datatype Operator = Plus | Minus | Times

  /** `['+', '-', '*']`. */
  const OPERATORS: seq<Operator> := [Plus, Minus, Times]

  /** A question as displayed, `left op right = ?`, and the answer the script expects. */
  datatype Question = Question(op: Operator, left: int, right: int, answer: int)

  /** What the displayed expression is worth. */
  function Evaluate(op: Operator, left: int, right: int): int
  {
    match op
    case Plus => left + right
    case Minus => left - right
    case Times => left * right
  }

  /** `generateQuestion`: `u1` and `u2` draw the operands, `u3` the operator. */
  function GenerateQuestion(u1: Unit, u2: Unit, u3: Unit): Question
  {
    var num1 := RandomInt(u1, 9) + 1;
    var num2 := RandomInt(u2, 9) + 1;
    match OPERATORS[RandomInt(u3, |OPERATORS|)]
    case Plus => Question(Plus, num1, num2, num1 + num2)
    case Minus =>
      if num1 < num2 then Question(Minus, num2, num1, num2 - num1)
      else Question(Minus, num1, num2, num1 - num2)
    case Times => Question(Times, num1, num2, num1 * num2)
  }

  /**
   * The two displayed operands are the two drawn numbers in 1..9 (the larger
   * first for a subtraction), the operator is the drawn one, and the expected
   * answer is what the displayed expression is worth: never negative.
   */
  lemma QuestionIsRight(u1: Unit, u2: Unit, u3: Unit)
    ensures var q := GenerateQuestion(u1, u2, u3);
      && 1 <= q.left <= 9 && 1 <= q.right <= 9
      && multiset{q.left, q.right} == multiset{RandomInt(u1, 9) + 1, RandomInt(u2, 9) + 1}
      && q.op == OPERATORS[RandomInt(u3, 3)]
      && q.answer == Evaluate(q.op, q.left, q.right)
      && (q.op == Minus ==> q.left >= q.right)
      && 0 <= q.answer
  {
    var q := GenerateQuestion(u1, u2, u3);
    if q.op == Times {
      assert q.answer == q.left * q.right;
      ProductIsPositive(q.left, q.right);
    }
  }

  lemma ProductIsPositive(a: int, b: int)
    requires 1 <= a && 1 <= b
    ensures 1 <= a * b
  {
  }

  /** How many numbers a question shows once `currentQuestion` questions are solved. */
  function Tier(currentQuestion: nat): (n: nat)
    ensures n <= MAX_FLOATING_NUMBERS_ON_SCREEN
  {
    if 0 <= currentQuestion < 3 then 3
    else if 3 <= currentQuestion < 6 then 6
    else 10
  }

  /** Three numbers for the first three questions, six for the next three, ten after that. */
  lemma TierSteps(currentQuestion: nat)
    ensures Tier(currentQuestion) == 3 <==> currentQuestion < 3
    ensures Tier(currentQuestion) == 6 <==> 3 <= currentQuestion < 6
    ensures Tier(currentQuestion) == 10 <==> 6 <= currentQuestion
  {
  }

  /** The game only gets harder. */
  lemma TierIsMonotone(a: nat, b: nat)
    requires a <= b
    ensures 3 <= Tier(a) <= Tier(b)
  {
  }

  // ---------------------------------------------------------------------
  // The queue of numbers to show
  // ---------------------------------------------------------------------

  /** `set.add(x)` on a set kept in insertion order, as `Array.from` lists it. */
  function Added(s: seq<int>, x: int): seq<int>
  {
    if x in s then s else s + [x]
  }

  /**
   * One wrong number of the first loop, drawn from the stream at `k`: the
   * answer moved by -5..+4, or a number in 1..9 if that is below 1. It also
   * gives the position of the next unused draw.
   */
  function Candidate(answer: int, random: nat -> Unit, k: nat): (c: (int, nat))
    ensures c.1 == k + 1 || c.1 == k + 2
  {
    var num := answer + RandomInt(Draw(random, k), 10) - 5;
    if num < 1 then (RandomInt(Draw(random, k + 1), 9) + 1, k + 2) else (num, k + 1)
  }

  /** A number the queue may hold besides the answer. */
  predicate Plausible(answer: int, x: int)
  {
    1 <= x && (answer - 5 <= x < answer + 5 || x <= 99)
  }

  /** What the queue always is: it holds the answer, no number twice, and only plausible others. */
  predicate Candidates(answer: int, s: seq<int>)
  {
    answer in s && Distinct(s) && forall x :: x in s && x != answer ==> Plausible(answer, x)
  }

  /** The size the queue is filled up to: `total`, but the answer is always there. */
  function Cap(total: nat): nat
  {
    if total == 0 then 1 else total
  }

  /** The `while` loop of lines 219-229 from `unique` after `attempts` tries, reading the stream from `k`. */
  function Collect(answer: int, total: nat, unique: seq<int>, attempts: nat, random: nat -> Unit, k: nat): (seq<int>, nat)
    // `k` only stops the verifier from unrolling all 200 rounds from `attempts == 0`
    decreases MAX_ATTEMPTS_FOR_UNIQUE_NUMBER - attempts, k
  {
    if |unique| < total && attempts < MAX_ATTEMPTS_FOR_UNIQUE_NUMBER then
      var c := Candidate(answer, random, k);
      Collect(answer, total, Added(unique, c.0), attempts + 1, random, c.1)
    else
      (unique, k)
  }

  /**
   * The padding loop of lines 234-239, which only chance ends: each round
   * draws a number in 1..99. `fuel` bounds the rounds; the loop stops early
   * with the queue still short if it runs out.
   */
  function Pad(queue: seq<int>, total: nat, random: nat -> Unit, k: nat, fuel: nat): (seq<int>, nat)
    decreases fuel
  {
    if |queue| < total && fuel > 0 then
      Pad(Added(queue, RandomInt(Draw(random, k), 99) + 1), total, random, k + 1, fuel - 1)
    else
      (queue, k)
  }

  /** The draw at position `k` of the stream. */
  function Draw(random: nat -> Unit, k: nat): Unit
  {
    random(k)
  }

  /** `n` draws of the stream from position `k`. */
  function Draws(random: nat -> Unit, k: nat, n: nat): (d: seq<Unit>)
    ensures |d| == n
  {
    seq<Unit>(n, t requires 0 <= t => Draw(random, k + t))
  }

  /** The queue before the shuffle, and the next unused draw. */
  function Filled(answer: int, total: nat, random: nat -> Unit, k: nat, fuel: nat): (seq<int>, nat)
  {
    var (unique, k1) := Collect(answer, total, [answer], 0, random, k);
    Pad(unique, total, random, k1, fuel)
  }

  /** The queue, the next unused draw, and whether the padding loop finished within its fuel. */
  datatype Preparation = Preparation(queue: seq<int>, next: nat, complete: bool)

  /** `prepareNumbersToGenerateQueue(answer, total)` reading the stream from `k`. */
  function Prepared(answer: int, total: nat, random: nat -> Unit, k: nat, fuel: nat): Preparation
  {
    var (filled, k2) := Filled(answer, total, random, k, fuel);
    if |filled| < total then
      Preparation(filled, k2, false)
    else
      var n := ShuffleDraws(|filled|);
      Preparation(Shuffled(filled, Draws(random, k2, n)), k2 + n, true)
  }

  /** One round of the first loop. */
  lemma CollectStep(answer: int, total: nat, unique: seq<int>, attempts: nat, random: nat -> Unit, k: nat, num: int, k': nat)
    requires |unique| < total && attempts < MAX_ATTEMPTS_FOR_UNIQUE_NUMBER
    requires (num, k') == Candidate(answer, random, k)
    ensures Collect(answer, total, unique, attempts, random, k) == Collect(answer, total, Added(unique, num), attempts + 1, random, k')
  {
  }

  lemma AddedKeeps(answer: int, s: seq<int>, x: int)
    requires Candidates(answer, s) && Plausible(answer, x)
    ensures Candidates(answer, Added(s, x))
    ensures |Added(s, x)| == if x in s then |s| else |s| + 1
  {
    if x !in s {
      DistinctConcat(s, [x]);
    }
  }

  lemma {:induction false} CollectKeeps(answer: int, total: nat, unique: seq<int>, attempts: nat, random: nat -> Unit, k: nat)
    requires Candidates(answer, unique) && |unique| <= Cap(total)
    ensures var r := Collect(answer, total, unique, attempts, random, k).0; Candidates(answer, r) && |r| <= Cap(total)
    decreases MAX_ATTEMPTS_FOR_UNIQUE_NUMBER - attempts, k
  {
    if |unique| < total && attempts < MAX_ATTEMPTS_FOR_UNIQUE_NUMBER {
      var c := Candidate(answer, random, k);
      var next := Added(unique, c.0);
      AddedKeeps(answer, unique, c.0);
      assert Collect(answer, total, unique, attempts, random, k) == Collect(answer, total, next, attempts + 1, random, c.1);
      CollectKeeps(answer, total, next, attempts + 1, random, c.1);
    }
  }

  lemma {:induction false} PadKeeps(answer: int, queue: seq<int>, total: nat, random: nat -> Unit, k: nat, fuel: nat)
    requires Candidates(answer, queue) && |queue| <= Cap(total)
    ensures var r := Pad(queue, total, random, k, fuel).0; Candidates(answer, r) && |r| <= Cap(total)
    decreases fuel
  {
    if |queue| < total && fuel > 0 {
      var next := Added(queue, RandomInt(Draw(random, k), 99) + 1);
      AddedKeeps(answer, queue, RandomInt(Draw(random, k), 99) + 1);
      assert Pad(queue, total, random, k, fuel) == Pad(next, total, random, k + 1, fuel - 1);
      PadKeeps(answer, next, total, random, k + 1, fuel - 1);
    }
  }

  lemma PermutationKeepsCandidates(answer: int, s: seq<int>, t: seq<int>)
    requires Candidates(answer, s) && multiset(s) == multiset(t)
    ensures Candidates(answer, t)
  {
    PermutationKeepsDistinct(s, t);
    assert forall x :: x in t <==> x in s by {
      forall x ensures x in t <==> x in s {
        assert x in t <==> x in multiset(t);
        assert x in s <==> x in multiset(s);
      }
    }
  }

  /**
   * The queue holds the answer and no number twice, every other number in it
   * is at least 1 (near the answer or at most 99), and it has exactly `total`
   * numbers whenever the padding loop finished; the final shuffle only
   * reorders the numbers collected before it.
   */
  lemma PreparedQueue(answer: int, total: nat, random: nat -> Unit, k: nat, fuel: nat)
    ensures var p := Prepared(answer, total, random, k, fuel);
      && Candidates(answer, p.queue)
      && |p.queue| <= Cap(total)
      && (p.complete <==> |p.queue| == Cap(total))
      && (p.complete ==> multiset(p.queue) == multiset(Filled(answer, total, random, k, fuel).0))
  {
    var (unique, k1) := Collect(answer, total, [answer], 0, random, k);
    CollectKeeps(answer, total, [answer], 0, random, k);
    PadKeeps(answer, unique, total, random, k1, fuel);
    var (filled, k2) := Filled(answer, total, random, k, fuel);
    if |filled| >= total {
      var draws := Draws(random, k2, ShuffleDraws(|filled|));
      ShuffledIsPermutation(filled, draws);
      PermutationKeepsCandidates(answer, filled, Shuffled(filled, draws));
    }
  }

  /** Once the first loop has collected enough numbers, the padding loop is never entered. */
  lemma PreparedWithoutPadding(answer: int, total: nat, random: nat -> Unit, k: nat, fuel: nat)
    requires |Collect(answer, total, [answer], 0, random, k).0| >= total
    ensures Prepared(answer, total, random, k, fuel) == Prepared(answer, total, random, k, 0)
    ensures Prepared(answer, total, random, k, fuel).complete
  {
  }

  /**
   * Lines 214-229: the set of numbers, in insertion order, collected with
   * the draws from position `start`; `next` is the first draw left unused.
   */
  method CollectUnique(correctAnswer: int, total: nat, random: nat -> Unit, start: nat)
    returns (uniqueNumbers: seq<int>, next: nat)
    ensures (uniqueNumbers, next) == Collect(correctAnswer, total, [correctAnswer], 0, random, start)
  {
    uniqueNumbers := [correctAnswer];
    next := start;
    var attempts := 0;
    while |uniqueNumbers| < total && attempts < MAX_ATTEMPTS_FOR_UNIQUE_NUMBER
      invariant attempts <= MAX_ATTEMPTS_FOR_UNIQUE_NUMBER
      invariant Collect(correctAnswer, total, uniqueNumbers, attempts, random, next)
             == Collect(correctAnswer, total, [correctAnswer], 0, random, start)
      decreases MAX_ATTEMPTS_FOR_UNIQUE_NUMBER - attempts
    {
      ghost var k := next;
      var num := correctAnswer + RandomInt(Draw(random, next), 10) - 5;
      next := next + 1;
      if num < 1 {
        num := RandomInt(Draw(random, next), 9) + 1;
        next := next + 1;
      }
      assert (num, next) == Candidate(correctAnswer, random, k);
      CollectStep(correctAnswer, total, uniqueNumbers, attempts, random, k, num, next);
      if num !in uniqueNumbers {
        uniqueNumbers := uniqueNumbers + [num];
      }
      attempts := attempts + 1;
    }
  }

  // ---------------------------------------------------------------------
  // The game state
  // ---------------------------------------------------------------------

  /** The script's variables; `question` is the text on the screen and `drawn` the draws taken. */
  datatype Quiz = Quiz(
    currentQuestion: nat,
    correctAnswers: nat,
    currentAnswer: int,
    isQuestionAnswered: bool,
    question: Option<Question>,
    numbersToGenerateQueue: seq<int>,
    currentQuestionNumbersToGenerate: nat,
    numbersOnScreen: seq<int>,
    gameEnded: bool,
    drawn: nat)

  /** The variables as the script declares them. */
  const INITIAL_QUIZ := Quiz(0, 0, 0, false, None, [], 0, [], false, 0)

  /**
   * What holds between the handlers: a correct answer is the only thing
   * that advances `currentQuestion`, so it equals `correctAnswers`; the
   * screen shows no number twice and at most ten; an ended game shows none;
   * and while a question waits for its answer, the answer is on the screen.
   */
  ghost predicate Consistent(s: Quiz)
  {
    && s.correctAnswers == s.currentQuestion
    && Distinct(s.numbersOnScreen)
    && |s.numbersOnScreen| <= MAX_FLOATING_NUMBERS_ON_SCREEN
    && (s.gameEnded ==> s.numbersOnScreen == [])
    && (!s.gameEnded && !s.isQuestionAnswered && s.numbersOnScreen != [] ==> s.currentAnswer in s.numbersOnScreen)
  }

  lemma InitialConsistent()
    ensures Consistent(INITIAL_QUIZ)
  {
  }

  /** Lines 187-205 of `generateNewQuestion`: the tier, the question, and cleared numbers. */
  function Asked(s: Quiz, random: nat -> Unit): Quiz
  {
    var q := GenerateQuestion(Draw(random, s.drawn), Draw(random, s.drawn + 1), Draw(random, s.drawn + 2));
    s.(isQuestionAnswered := false,
       currentQuestionNumbersToGenerate := Tier(s.currentQuestion),
       question := Some(q),
       currentAnswer := q.answer,
       numbersOnScreen := [],
       numbersToGenerateQueue := [],
       drawn := s.drawn + 3)
  }

  /** `prepareNumbersToGenerateQueue(currentAnswer, currentQuestionNumbersToGenerate)`. */
  function Queued(s: Quiz, random: nat -> Unit, fuel: nat): (Quiz, bool)
  {
    var p := Prepared(s.currentAnswer, s.currentQuestionNumbersToGenerate, random, s.drawn, fuel);
    (s.(numbersToGenerateQueue := p.queue, drawn := p.next), p.complete)
  }

  /** `generateInitialFloatingNumbers`: the front of the queue moves onto the screen. */
  function Shown(s: Quiz): Quiz
  {
    var m := Min(s.currentQuestionNumbersToGenerate, |s.numbersToGenerateQueue|);
    s.(numbersOnScreen := s.numbersOnScreen + s.numbersToGenerateQueue[..m],
       numbersToGenerateQueue := s.numbersToGenerateQueue[m..])
  }

  /**
   * `generateNewQuestion`; the flag is false when the padding loop ran out
   * of fuel, where the script would still be looping.
   */
  function NewQuestion(s: Quiz, random: nat -> Unit, fuel: nat): (Quiz, bool)
  {
    if s.gameEnded then (s, true)
    else
      var (t, complete) := Queued(Asked(s, random), random, fuel);
      if complete then (Shown(t), true) else (t, false)
  }

  /** The sequence without its element at `i`. */
  function RemovedAt(s: seq<int>, i: nat): seq<int>
    requires i < |s|
  {
    s[..i] + s[i + 1..]
  }

  /** The counters of `handleAnswer`. */
  function Answered(s: Quiz, isCorrect: bool): Quiz
  {
    if isCorrect then s.(correctAnswers := s.correctAnswers + 1, currentQuestion := s.currentQuestion + 1)
    else s
  }

  /**
   * `onNumberClick` on the `index`-th number of the screen, `elapsed`
   * seconds into the game, with `handleAnswer` up to its timer; the second
   * component is `isCorrect`, or `None` if the click is ignored.
   */
  function Clicked(s: Quiz, index: nat, elapsed: real): (Quiz, Option<bool>)
    requires index < |s.numbersOnScreen|
  {
    if s.gameEnded || s.isQuestionAnswered || elapsed >= GAME_DURATION_SECONDS as real + 0.1 then
      (s, None)
    else
      var isCorrect := s.numbersOnScreen[index] == s.currentAnswer;
      var t := s.(isQuestionAnswered := true, numbersOnScreen := RemovedAt(s.numbersOnScreen, index));
      (Answered(t, isCorrect), Some(isCorrect))
  }

  /** `endGame`. */
  function Ended(s: Quiz): Quiz
  {
    if s.gameEnded then s else s.(gameEnded := true, numbersOnScreen := [])
  }

  /** The part of `updateTimeBar` that ends the game once the time is up. */
  function TimeChecked(s: Quiz, elapsed: real): Quiz
  {
    if GAME_DURATION_SECONDS as real - elapsed <= 0.0 && !s.gameEnded then Ended(s) else s
  }

  /** The callback `handleAnswer` schedules, run `elapsed` seconds into the game. */
  function FeedbackDone(s: Quiz, random: nat -> Unit, elapsed: real, fuel: nat): (Quiz, bool)
  {
    var t := s.(isQuestionAnswered := false);
    if t.gameEnded then (t, true)
    else if elapsed < GAME_DURATION_SECONDS as real then NewQuestion(t, random, fuel)
    else (Ended(t), true)
  }

  /** `initGame`. */
  function Started(s: Quiz, random: nat -> Unit, fuel: nat): (Quiz, bool)
  {
    NewQuestion(s.(currentQuestion := 0, correctAnswers := 0, numbersOnScreen := [], gameEnded := false), random, fuel)
  }

  // ---------------------------------------------------------------------
  // Properties of the handlers
  // ---------------------------------------------------------------------

  /**
   * A new question of a running game: the question drawn from the stream is
   * shown with its answer expected, the flag is cleared and the counters and
   * the end flag are kept.
   */
  lemma NewQuestionAsks(s: Quiz, random: nat -> Unit, fuel: nat)
    requires !s.gameEnded
    ensures var t := NewQuestion(s, random, fuel).0;
      var q := GenerateQuestion(Draw(random, s.drawn), Draw(random, s.drawn + 1), Draw(random, s.drawn + 2));
      && t.question == Some(q) && t.currentAnswer == q.answer
      && !t.isQuestionAnswered && !t.gameEnded
      && t.correctAnswers == s.correctAnswers && t.currentQuestion == s.currentQuestion
      && t.currentQuestionNumbersToGenerate == Tier(s.currentQuestion)
  {
    var a := Asked(s, random);
    AskedPoses(s, random);
    var t := NewQuestion(s, random, fuel).0;
    assert t.question == a.question && t.currentAnswer == a.currentAnswer;
    assert t.currentQuestionNumbersToGenerate == a.currentQuestionNumbersToGenerate;
  }

  lemma AskedIs(s: Quiz, random: nat -> Unit, q: Question)
    requires q == GenerateQuestion(Draw(random, s.drawn), Draw(random, s.drawn + 1), Draw(random, s.drawn + 2))
    ensures Asked(s, random)
         == s.(isQuestionAnswered := false, currentQuestionNumbersToGenerate := Tier(s.currentQuestion),
               question := Some(q), currentAnswer := q.answer, numbersOnScreen := [],
               numbersToGenerateQueue := [], drawn := s.drawn + 3)
  {
  }

  lemma AskedPoses(s: Quiz, random: nat -> Unit)
    ensures var q := GenerateQuestion(Draw(random, s.drawn), Draw(random, s.drawn + 1), Draw(random, s.drawn + 2));
      Asked(s, random).question == Some(q) && Asked(s, random).currentAnswer == q.answer
  {
  }

  /**
   * When the queue is complete, a new question shows exactly as many numbers
   * as the tier asks for, among them the answer, none twice and none other
   * below 1; otherwise it shows nothing.
   */
  lemma NewQuestionShowsAnswer(s: Quiz, random: nat -> Unit, fuel: nat)
    requires !s.gameEnded
    ensures var (t, complete) := NewQuestion(s, random, fuel);
      && (complete ==> |t.numbersOnScreen| == Tier(s.currentQuestion) && t.numbersToGenerateQueue == []
                       && Candidates(t.currentAnswer, t.numbersOnScreen))
      && (!complete ==> t.numbersOnScreen == [])
  {
    var a := Asked(s, random);
    var p := Prepared(a.currentAnswer, a.currentQuestionNumbersToGenerate, random, a.drawn, fuel);
    PreparedQueue(a.currentAnswer, a.currentQuestionNumbersToGenerate, random, a.drawn, fuel);
    var t := a.(numbersToGenerateQueue := p.queue, drawn := p.next);
    assert Queued(a, random, fuel) == (t, p.complete);
    if p.complete {
      assert p.queue[..|p.queue|] == p.queue;
      assert NewQuestion(s, random, fuel).0.numbersOnScreen == p.queue;
    }
  }

  lemma NewQuestionKeepsConsistent(s: Quiz, random: nat -> Unit, fuel: nat)
    requires s.correctAnswers == s.currentQuestion && (s.gameEnded ==> Consistent(s))
    ensures Consistent(NewQuestion(s, random, fuel).0)
  {
    if !s.gameEnded {
      NewQuestionShowsAnswer(s, random, fuel);
    }
  }

  /**
   * A click is ignored exactly when the game is over, the question is
   * already answered or the time is up; otherwise the number leaves the
   * screen, the question counts as answered, `isCorrect` says whether the
   * number was the answer, and only a correct click advances both counters.
   */
  lemma ClickJudges(s: Quiz, index: nat, elapsed: real)
    requires index < |s.numbersOnScreen|
    ensures var (t, r) := Clicked(s, index, elapsed);
      && (r.None? <==> s.gameEnded || s.isQuestionAnswered || elapsed >= GAME_DURATION_SECONDS as real + 0.1)
      && (r.None? ==> t == s)
      && (r.Some? ==>
            && (r.value <==> s.numbersOnScreen[index] == s.currentAnswer)
            && t.isQuestionAnswered
            && multiset(t.numbersOnScreen) == multiset(s.numbersOnScreen) - multiset{s.numbersOnScreen[index]}
            && t.correctAnswers == s.correctAnswers + (if r.value then 1 else 0)
            && t.currentQuestion == s.currentQuestion + (if r.value then 1 else 0))
  {
    var sc := s.numbersOnScreen;
    assert sc == sc[..index] + [sc[index]] + sc[index + 1..];
  }

  lemma ClickedKeepsConsistent(s: Quiz, index: nat, elapsed: real)
    requires Consistent(s) && index < |s.numbersOnScreen|
    ensures Consistent(Clicked(s, index, elapsed).0)
  {
    var sc := s.numbersOnScreen;
    var r := RemovedAt(sc, index);
    assert Distinct(r) by {
      forall i, j | 0 <= i < j < |r| ensures r[i] != r[j] {
        var i' := if i < index then i else i + 1;
        var j' := if j < index then j else j + 1;
        assert r[i] == sc[i'] && r[j] == sc[j'];
      }
    }
  }

  /**
   * While a question waits for its answer, exactly one number on the screen
   * answers it correctly, as long as the time is not up.
   */
  lemma OneCorrectNumber(s: Quiz, elapsed: real)
    requires Consistent(s) && !s.gameEnded && !s.isQuestionAnswered && s.numbersOnScreen != []
    requires elapsed < GAME_DURATION_SECONDS as real + 0.1
    ensures exists i :: 0 <= i < |s.numbersOnScreen| && Clicked(s, i, elapsed).1 == Some(true)
    ensures forall i, j ::
      (0 <= i < |s.numbersOnScreen| && 0 <= j < |s.numbersOnScreen|
       && Clicked(s, i, elapsed).1 == Some(true) && Clicked(s, j, elapsed).1 == Some(true)) ==> i == j
  {
    var i :| 0 <= i < |s.numbersOnScreen| && s.numbersOnScreen[i] == s.currentAnswer;
    assert Clicked(s, i, elapsed).1 == Some(true);
  }

  /** `endGame` ends the game once: a second call, or a later time check, changes nothing. */
  lemma EndedIsFinal(s: Quiz, random: nat -> Unit, elapsed: real, fuel: nat)
    ensures Ended(s).gameEnded && (!s.gameEnded ==> Ended(s).numbersOnScreen == [])
    ensures Ended(Ended(s)) == Ended(s)
    ensures TimeChecked(Ended(s), elapsed) == Ended(s)
    ensures NewQuestion(Ended(s), random, fuel) == (Ended(s), true)
    ensures FeedbackDone(Ended(s), random, elapsed, fuel) == (Ended(s).(isQuestionAnswered := false), true)
  {
  }

  lemma EndedKeepsConsistent(s: Quiz)
    requires Consistent(s)
    ensures Consistent(Ended(s))
  {
  }

  /** Once the time is up, a time check ends the game; before that it changes nothing. */
  lemma TimeCheckEnds(s: Quiz, elapsed: real)
    ensures TimeChecked(s, elapsed) == if elapsed >= GAME_DURATION_SECONDS as real then Ended(s) else s
  {
  }

  lemma FeedbackDoneKeepsConsistent(s: Quiz, random: nat -> Unit, elapsed: real, fuel: nat)
    requires Consistent(s)
    ensures Consistent(FeedbackDone(s, random, elapsed, fuel).0)
  {
    var t := s.(isQuestionAnswered := false);
    if !t.gameEnded && elapsed < GAME_DURATION_SECONDS as real {
      NewQuestionKeepsConsistent(t, random, fuel);
    }
  }

  /** A started game has no score yet and shows a first question of three numbers. */
  lemma StartedIsFresh(s: Quiz, random: nat -> Unit, fuel: nat)
    ensures var (t, complete) := Started(s, random, fuel);
      && Consistent(t)
      && t.correctAnswers == 0 && t.currentQuestion == 0 && !t.gameEnded && !t.isQuestionAnswered
      && (complete ==> |t.numbersOnScreen| == 3 && t.currentAnswer in t.numbersOnScreen)
  {
    var r := s.(currentQuestion := 0, correctAnswers := 0, numbersOnScreen := [], gameEnded := false);
    NewQuestionShowsAnswer(r, random, fuel);
    NewQuestionKeepsConsistent(r, random, fuel);
  }

  // ---------------------------------------------------------------------
  // The script's variables and handlers
  // ---------------------------------------------------------------------

  class QuizGame {
    /** The values `Math.random()` returns, in order. */
    const random: nat -> Unit
    var drawn: nat

    var currentQuestion: nat
    var correctAnswers: nat
    var currentAnswer: int
    var isQuestionAnswered: bool
    var question: Option<Question>
    var numbersToGenerateQueue: seq<int>
    var currentQuestionNumbersToGenerate: nat
    var numbersOnScreen: seq<int>
    var gameEnded: bool
    /** Feedback callbacks scheduled by `handleAnswer` and not yet run. */
    var pendingFeedback: nat

    function State(): Quiz
      reads this
    {
      Quiz(currentQuestion, correctAnswers, currentAnswer, isQuestionAnswered, question,
           numbersToGenerateQueue, currentQuestionNumbersToGenerate, numbersOnScreen, gameEnded, drawn)
    }

    ghost predicate Valid()
      reads this
    {
      Consistent(State())
    }

    /** The script's declarations, before `initGame`. */
    constructor (random: nat -> Unit)
      ensures this.random == random && State() == INITIAL_QUIZ && pendingFeedback == 0
      ensures Valid()
    {
      this.random := random;
      drawn := 0;
      currentQuestion := 0;
      correctAnswers := 0;
      currentAnswer := 0;
      isQuestionAnswered := false;
      question := None;
      numbersToGenerateQueue := [];
      currentQuestionNumbersToGenerate := 0;
      numbersOnScreen := [];
      gameEnded := false;
      pendingFeedback := 0;
      InitialConsistent();
    }

    /** `initGame`: `settled` is false when the padding loop ran out of fuel. */
    method InitGame(fuel: nat) returns (settled: bool)
      modifies this
      ensures Valid()
      ensures (State(), settled) == Started(old(State()), random, fuel)
      ensures pendingFeedback == old(pendingFeedback)
    {
      ghost var s0 := State();
      currentQuestion := 0;
      correctAnswers := 0;
      numbersOnScreen := [];
      gameEnded := false;
      ghost var r := State();
      assert r == s0.(currentQuestion := 0, correctAnswers := 0, numbersOnScreen := [], gameEnded := false);
      settled := GenerateNewQuestion(fuel);
      NewQuestionKeepsConsistent(r, random, fuel);
    }

    method GenerateNewQuestion(fuel: nat) returns (settled: bool)
      modifies this`isQuestionAnswered, this`currentQuestionNumbersToGenerate, this`question,
        this`currentAnswer, this`numbersOnScreen, this`numbersToGenerateQueue, this`drawn
      ensures (State(), settled) == NewQuestion(old(State()), random, fuel)
    {
      if gameEnded {
        return true;
      }
      AskQuestion();
      settled := PrepareNumbersToGenerateQueue(currentAnswer, currentQuestionNumbersToGenerate, fuel);
      if settled {
        GenerateInitialFloatingNumbers();
      }
    }

    /** Lines 187-205 of `generateNewQuestion`. */
    method AskQuestion()
      modifies this`isQuestionAnswered, this`currentQuestionNumbersToGenerate, this`question,
        this`currentAnswer, this`numbersOnScreen, this`numbersToGenerateQueue, this`drawn
      ensures State() == Asked(old(State()), random)
    {
      ghost var s0 := State();
      isQuestionAnswered := false;
      if 0 <= currentQuestion < 3 {
        currentQuestionNumbersToGenerate := 3;
      } else if 3 <= currentQuestion < 6 {
        currentQuestionNumbersToGenerate := 6;
      } else {
        currentQuestionNumbersToGenerate := 10;
      }
      var q := GenerateQuestion(Draw(random, drawn), Draw(random, drawn + 1), Draw(random, drawn + 2));
      AskedIs(s0, random, q);
      drawn := drawn + 3;
      question := Some(q);
      currentAnswer := q.answer;
      numbersOnScreen := [];
      numbersToGenerateQueue := [];
      assert currentQuestionNumbersToGenerate == Tier(s0.currentQuestion);
    }

    /** `prepareNumbersToGenerateQueue`: `complete` is false when the padding loop ran out of fuel. */
    method PrepareNumbersToGenerateQueue(correctAnswer: int, total: nat, fuel: nat) returns (complete: bool)
      modifies this`numbersToGenerateQueue, this`drawn
      ensures Prepared(correctAnswer, total, random, old(drawn), fuel)
           == Preparation(numbersToGenerateQueue, drawn, complete)
    {
      var uniqueNumbers, next := CollectUnique(correctAnswer, total, random, drawn);
      drawn := next;
      numbersToGenerateQueue := uniqueNumbers;
      PadQueue(total, fuel);
      complete := |numbersToGenerateQueue| >= total;
      if complete {
        ShuffleQueue();
      }
    }

    /** Lines 234-239, with at most `fuel` rounds. */
    method PadQueue(total: nat, fuel: nat)
      modifies this`numbersToGenerateQueue, this`drawn
      ensures (numbersToGenerateQueue, drawn) == Pad(old(numbersToGenerateQueue), total, random, old(drawn), fuel)
    {
      var rounds := fuel;
      while |numbersToGenerateQueue| < total && rounds > 0
        invariant Pad(numbersToGenerateQueue, total, random, drawn, rounds)
               == Pad(old(numbersToGenerateQueue), total, random, old(drawn), fuel)
        decreases rounds
      {
        var num := RandomInt(Draw(random, drawn), 99) + 1;
        drawn := drawn + 1;
        if num !in numbersToGenerateQueue {
          numbersToGenerateQueue := numbersToGenerateQueue + [num];
        }
        rounds := rounds - 1;
      }
    }

    /** Lines 242-247: the in-place shuffle with two `splice` writes per swap. */
    method ShuffleQueue()
      modifies this`numbersToGenerateQueue, this`drawn
      ensures numbersToGenerateQueue
           == Shuffled(old(numbersToGenerateQueue), Draws(random, old(drawn), ShuffleDraws(|old(numbersToGenerateQueue)|)))
      ensures drawn == old(drawn) + ShuffleDraws(|old(numbersToGenerateQueue)|)
    {
      var n := |numbersToGenerateQueue|;
      if n == 0 {
        return;
      }
      ghost var k0 := drawn;
      ghost var draws := Draws(random, k0, n - 1);
      var i := n - 1;
      while i > 0
        invariant 0 <= i < n && |numbersToGenerateQueue| == n
        invariant drawn == k0 + (n - 1 - i)
        invariant ShuffleFrom(numbersToGenerateQueue, i, draws[n - 1 - i..])
               == Shuffled(old(numbersToGenerateQueue), draws)
      {
        ghost var before := numbersToGenerateQueue;
        ghost var rest := draws[n - 1 - i..];
        assert draws[n - 1 - i] == Draw(random, k0 + (n - 1 - i));
        assert rest[0] == Draw(random, drawn);
        var j := RandomInt(Draw(random, drawn), i + 1);
        drawn := drawn + 1;
        var temp := numbersToGenerateQueue[i];
        numbersToGenerateQueue := numbersToGenerateQueue[i := numbersToGenerateQueue[j]];
        numbersToGenerateQueue := numbersToGenerateQueue[j := temp];
        assert numbersToGenerateQueue == SwapAt(before, i, j);
        ShuffleFromStep(before, i, rest);
        assert rest[1..] == draws[n - i..];
        i := i - 1;
      }
    }

    /** `generateInitialFloatingNumbers`, without placement, sizes and rotation. */
    method GenerateInitialFloatingNumbers()
      modifies this`numbersToGenerateQueue, this`numbersOnScreen
      ensures State() == Shown(old(State()))
    {
      var i := 0;
      while i < currentQuestionNumbersToGenerate
        invariant i <= |old(numbersToGenerateQueue)|
        invariant numbersOnScreen == old(numbersOnScreen) + old(numbersToGenerateQueue)[..i]
        invariant numbersToGenerateQueue == old(numbersToGenerateQueue)[i..]
        invariant i <= currentQuestionNumbersToGenerate
      {
        if numbersToGenerateQueue == [] {
          break;
        }
        var numValue := numbersToGenerateQueue[0];
        numbersToGenerateQueue := numbersToGenerateQueue[1..];
        numbersOnScreen := numbersOnScreen + [numValue];
        i := i + 1;
      }
    }

    /** `onNumberClick` on the `index`-th number of the screen, `elapsed` seconds into the game. */
    method OnNumberClick(index: nat, elapsed: real) returns (isCorrect: Option<bool>)
      requires Valid() && index < |numbersOnScreen|
      modifies this
      ensures Valid()
      ensures (State(), isCorrect) == Clicked(old(State()), index, elapsed)
      ensures pendingFeedback == old(pendingFeedback) + (if isCorrect.Some? then 1 else 0)
    {
      ClickedKeepsConsistent(State(), index, elapsed);
      if gameEnded || isQuestionAnswered || elapsed >= GAME_DURATION_SECONDS as real + 0.1 {
        return None;
      }
      isQuestionAnswered := true;
      var clickedValue := numbersOnScreen[index];
      var correct := clickedValue == currentAnswer;
      numbersOnScreen := numbersOnScreen[..index] + numbersOnScreen[index + 1..];
      HandleAnswer(correct);
      isCorrect := Some(correct);
    }

    /** `handleAnswer`: the counters, and the feedback callback it schedules. */
    method HandleAnswer(isCorrect: bool)
      modifies this`correctAnswers, this`currentQuestion, this`pendingFeedback
      ensures State() == Answered(old(State()), isCorrect)
      ensures pendingFeedback == old(pendingFeedback) + 1
    {
      if isCorrect {
        correctAnswers := correctAnswers + 1;
        currentQuestion := currentQuestion + 1;
      }
      pendingFeedback := pendingFeedback + 1;
    }

    /** The callback of lines 513-532, `elapsed` seconds into the game. */
    method FeedbackTimeout(elapsed: real, fuel: nat) returns (settled: bool)
      requires Valid() && pendingFeedback > 0
      modifies this
      ensures Valid()
      ensures (State(), settled) == FeedbackDone(old(State()), random, elapsed, fuel)
      ensures pendingFeedback == old(pendingFeedback) - 1
    {
      FeedbackDoneKeepsConsistent(State(), random, elapsed, fuel);
      pendingFeedback := pendingFeedback - 1;
      isQuestionAnswered := false;
      settled := true;
      if !gameEnded {
        if elapsed < GAME_DURATION_SECONDS as real {
          settled := GenerateNewQuestion(fuel);
        } else {
          if !gameEnded {
            EndGame();
          }
        }
      }
    }

    /** `updateTimeBar`, `elapsed` seconds into the game, without the bar's colour. */
    method UpdateTimeBar(elapsed: real)
      requires Valid()
      modifies this`gameEnded, this`numbersOnScreen
      ensures Valid()
      ensures State() == TimeChecked(old(State()), elapsed)
    {
      var remainingTime := GAME_DURATION_SECONDS as real - elapsed;
      if remainingTime <= 0.0 {
        if !gameEnded {
          EndGame();
        }
      }
    }

    /** `endGame`. */
    method EndGame()
      modifies this`gameEnded, this`numbersOnScreen
      ensures State() == Ended(old(State()))
      ensures old(Consistent(State())) ==> Valid()
    {
      if gameEnded {
        return;
      }
      gameEnded := true;
      numbersOnScreen := [];
    }
  }
}
