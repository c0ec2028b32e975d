/**
 * The drill session: one question at a time from the head of the deck,
 * keystrokes feeding a two-digit input, and the two ways a question resolves:
 * a correct answer retires the head fact (grid cell set, progress up by one),
 * a wrong answer of full length rotates the head fact to the tail.
 */
module Quiz {
  import opened Common
  import opened Facts
  import opened DeckBuilder

  const MAX_PROGRESS: int := 81

  // ----- keystrokes and the input string -----

  predicate IsDigit(c: char) {
    '0' <= c <= '9'
  }

  predicate AllDigits(s: string) {
    forall i :: 0 <= i < |s| ==> IsDigit(s[i])
  }

  type KeyDigit = c: char | '0' <= c <= '9' witness '0'

  /** A keypad key handed to onKey: a digit or the backspace key. */
  datatype Key = Digit(ch: KeyDigit) | Backspace

  /** What evaluate decided; Pending means nothing happened yet. */
  datatype Outcome = Pending | Correct | Wrong

  /** Whether onKey appends the key to the input (a digit, with fewer than two characters typed). */
  predicate Appends(s: string, k: Key) {
    k.Digit? && |s| < 2
  }

  /** The input after onKey(k): backspace drops the last character, a digit is appended below length 2. */
  function InputAfter(s: string, k: Key): (r: string)
    ensures |s| <= 2 ==> |r| <= 2
    ensures AllDigits(s) ==> AllDigits(r)
    ensures k.Backspace? && s == [] ==> r == s
    ensures k.Digit? && |s| >= 2 ==> r == s
    ensures Appends(s, k) ==> |r| == |s| + 1 && r[..|s|] == s && r[|s|] == k.ch
    ensures k.Backspace? && s != [] ==> r == s[..|s| - 1]
  {
    match k
    case Backspace => if |s| > 0 then s[..|s| - 1] else s
    case Digit(c) => if |s| >= 2 then s else s + [c]
  }

  /** Backspace takes back the digit just typed. */
  lemma BackspaceUndoesDigit(s: string, c: KeyDigit)
    requires |s| < 2
    ensures InputAfter(InputAfter(s, Digit(c)), Backspace) == s
  {
    assert (s + [c])[..|s|] == s;
  }

  /** The value of a string of digits. */
  function DigitsValue(s: string): nat
    requires AllDigits(s)
  {
    if s == [] then 0
    else 10 * DigitsValue(s[..|s| - 1]) + (s[|s| - 1] as int - '0' as int)
  }

  /** Length of the run of digits at the front of s. */
  function DigitRun(s: string): (n: nat)
    ensures n <= |s| && AllDigits(s[..n])
    ensures n < |s| ==> !IsDigit(s[n])
  {
    if s != [] && IsDigit(s[0]) then
      var n := 1 + DigitRun(s[1..]);
      assert s[..n] == [s[0]] + s[1..][..n - 1];
      n
    else 0
  }

  /**
   * `parseInt(s, 10)` for strings without leading blanks or sign: the value of
   * the leading digits, None where JavaScript gives NaN.
   */
  function ParseInt(s: string): (r: Option<nat>)
    ensures r.None? <==> s == [] || !IsDigit(s[0])
    ensures AllDigits(s) && s != [] ==> r == Some(DigitsValue(s))
  {
    var n := DigitRun(s);
    if n == 0 then None
    else
      assert AllDigits(s) ==> n == |s| && s[..n] == s;
      Some(DigitsValue(s[..n]))
  }

  /** The decimal numeral of n, as `${n}` writes it. */
  function Decimal(n: nat): (s: string)
    ensures s != [] && AllDigits(s)
  {
    if n < 10 then [DigitChar(n)] else Decimal(n / 10) + [DigitChar(n % 10)]
  }

  /** Reading a numeral back gives the number. */
  lemma {:induction false} DecimalValue(n: nat)
    ensures DigitsValue(Decimal(n)) == n
  {
    if n >= 10 {
      var s := Decimal(n);
      DecimalValue(n / 10);
      assert s[..|s| - 1] == Decimal(n / 10);
    }
  }

  /** parseInt undoes writing a number out in decimal. */
  lemma ParseDecimal(n: nat)
    ensures ParseInt(Decimal(n)) == Some(n)
  {
    DecimalValue(n);
  }

  /** `ansLen`: the number of digits the answer has (1 below 10, else 2). */
  function AnswerLength(ans: int): (len: nat)
    ensures 1 <= ans <= 99 ==> len == |Decimal(ans)|
  {
    if ans >= 10 then 2 else 1
  }

  /** The decision evaluate takes on the current input for an answer ans. */
  function Judge(input: string, ans: int): (o: Outcome)
    ensures o == Correct <==> ParseInt(input).Some? && ParseInt(input).value == ans
    ensures o == Wrong ==> ParseInt(input).Some? && |input| >= AnswerLength(ans)
    ensures ParseInt(input).None? ==> o == Pending
  {
    var val := ParseInt(input);
    if val.None? then Pending
    else if val.value == ans then Correct
    else if |input| >= AnswerLength(ans) then Wrong
    else Pending
  }

  /** On a string of digits: correct exactly on the right value; wrong exactly on a full-length wrong value. */
  lemma JudgeDigits(input: string, ans: int)
    requires AllDigits(input)
    ensures Judge(input, ans) == Correct <==> input != [] && DigitsValue(input) == ans
    ensures Judge(input, ans) == Wrong <==> input != [] && DigitsValue(input) != ans && |input| >= AnswerLength(ans)
  {
  }

  /**
   * Typing the answer digit by digit never triggers a wrong answer on the way:
   * every proper prefix is pending and the whole numeral is correct, within the
   * two characters the input holds.
   */
  lemma TypingTheAnswer(ans: nat)
    requires 1 <= ans <= 99
    ensures |Decimal(ans)| <= 2
    ensures Judge(Decimal(ans), ans) == Correct
    ensures forall k :: 0 < k < |Decimal(ans)| ==> Judge(Decimal(ans)[..k], ans) == Pending
  {
    var d := Decimal(ans);
    ParseDecimal(ans);
    if ans >= 10 {
      assert Decimal(ans / 10) == [DigitChar(ans / 10)];
      assert d[..1] == [DigitChar(ans / 10)];
      assert ParseInt(d[..1]) == Some(ans / 10);
    }
  }

  // ----- the completion grid -----

  /** completed is a 10 x 10 grid indexed completed[b][a]; row and column 0 are unused. */
  predicate GridShape(g: seq<seq<bool>>) {
    |g| == 10 && forall i :: 0 <= i < 10 ==> |g[i]| == 10
  }

  /** `Array.from({length:10}, () => Array(10).fill(false))`. */
  function EmptyGrid(): (g: seq<seq<bool>>)
    ensures GridShape(g)
    ensures forall i, j :: 0 <= i < 10 && 0 <= j < 10 ==> !g[i][j]
  {
    seq(10, _ => seq(10, _ => false))
  }

  function CountRow(row: seq<bool>): nat {
    if row == [] then 0 else (if row[0] then 1 else 0) + CountRow(row[1..])
  }

  /** The number of true cells of the grid. */
  function CountTrue(g: seq<seq<bool>>): nat {
    if g == [] then 0 else CountRow(g[0]) + CountTrue(g[1..])
  }

  /** `completed[b][a] = true`. */
  function MarkDone(g: seq<seq<bool>>, a: Operand, b: Operand): (r: seq<seq<bool>>)
    requires GridShape(g)
    ensures GridShape(r) && r[b][a]
    ensures forall i, j :: 0 <= i < 10 && 0 <= j < 10 && (i != b || j != a) ==> r[i][j] == g[i][j]
  {
    g[b := g[b][a := true]]
  }

  lemma {:induction false} CountRowSet(row: seq<bool>, i: nat)
    requires i < |row|
    ensures CountRow(row[i := true]) == CountRow(row) + (if row[i] then 0 else 1)
  {
    if i > 0 {
      CountRowSet(row[1..], i - 1);
      assert row[i := true][1..] == row[1..][i - 1 := true];
    }
  }

  lemma {:induction false} CountTrueSet(g: seq<seq<bool>>, i: nat, row: seq<bool>)
    requires i < |g|
    ensures CountTrue(g[i := row]) + CountRow(g[i]) == CountTrue(g) + CountRow(row)
  {
    if i > 0 {
      CountTrueSet(g[1..], i - 1, row);
      assert g[i := row][1..] == g[1..][i - 1 := row];
    }
  }

  /** Setting a cell that was false raises the count of true cells by one; setting a true one changes nothing. */
  lemma MarkDoneCount(g: seq<seq<bool>>, a: Operand, b: Operand)
    requires GridShape(g)
    ensures GridShape(MarkDone(g, a, b))
    ensures CountTrue(MarkDone(g, a, b)) == CountTrue(g) + (if g[b][a] then 0 else 1)
    ensures g[b][a] ==> MarkDone(g, a, b) == g
  {
    CountRowSet(g[b], a);
    CountTrueSet(g, b, g[b][a := true]);
    if g[b][a] {
      assert g[b][a := true] == g[b];
    }
  }

  lemma {:induction false} AllFalseCount(g: seq<seq<bool>>)
    requires forall i, j :: 0 <= i < |g| && 0 <= j < |g[i]| ==> !g[i][j]
    ensures CountTrue(g) == 0
  {
    if g != [] {
      AllFalseRow(g[0]);
      AllFalseCount(g[1..]);
    }
  }

  lemma {:induction false} AllFalseRow(row: seq<bool>)
    requires forall j :: 0 <= j < |row| ==> !row[j]
    ensures CountRow(row) == 0
  {
    if row != [] {
      AllFalseRow(row[1..]);
    }
  }

  // ----- deck, grid and progress together -----

  /** The state evaluate changes: the deck, the completion grid and the progress counter. */
  datatype Board = Board(deck: seq<Fact>, completed: seq<seq<bool>>, progress: int)

  /**
   * The session invariant: the deck holds, once each, exactly the facts whose
   * grid cell is still false; progress counts the true cells; deck length plus
   * progress is 81.
   */
  ghost predicate Invariant(bd: Board) {
    && GridShape(bd.completed)
    && Distinct(bd.deck)
    && (forall f :: f in bd.deck ==> IsFact(f))
    && (forall a: Operand, b: Operand :: bd.completed[b][a] <==> MakeFact(a, b) !in bd.deck)
    && (forall i :: 0 <= i < 10 ==> !bd.completed[0][i] && !bd.completed[i][0])
    && bd.progress == CountTrue(bd.completed)
    && |bd.deck| + bd.progress == MAX_PROGRESS
  }

  /** `setProgress`: progress clamped to 0..81. */
  function ClampProgress(p: int): (r: int)
    ensures 0 <= r <= MAX_PROGRESS
    ensures 0 <= p <= MAX_PROGRESS ==> r == p
    ensures p < 0 ==> r == 0
    ensures p > MAX_PROGRESS ==> r == MAX_PROGRESS
  {
    if p < 0 then 0 else if p > MAX_PROGRESS then MAX_PROGRESS else p
  }

  /** `if (deck.length > 0) deck.shift()`. */
  function Shift(deck: seq<Fact>): (r: seq<Fact>)
    ensures deck == [] ==> r == []
    ensures deck != [] ==> deck == [deck[0]] + r
  {
    if |deck| > 0 then deck[1..] else deck
  }

  /** `if (deck.length > 0) deck.push(deck.shift())`. */
  function RotateHead(deck: seq<Fact>): (r: seq<Fact>)
    ensures multiset(r) == multiset(deck) && |r| == |deck|
    ensures deck != [] ==> r == Shift(deck) + [deck[0]]
  {
    assert deck != [] ==> deck == [deck[0]] + deck[1..];
    if |deck| > 0 then deck[1..] + [deck[0]] else deck
  }

  /** The active question: `{a, b, ans, idx}`. */
  datatype Question = Question(a: Operand, b: Operand, ans: int, idx: int)

  /** `setActive(a, b)` makes this the active question. */
  function ActiveFor(a: Operand, b: Operand): (q: Question)
    ensures q.a == a && q.b == b && q.ans == a * b
    ensures 0 <= q.idx < 81 && q.idx == IdxOf(a, b)
  {
    Question(a, b, a * b, IdxOf(a, b))
  }

  /** The question is the one at the head of the deck. */
  predicate HeadIs(bd: Board, q: Question) {
    bd.deck != [] && bd.deck[0].a == q.a && bd.deck[0].b == q.b
  }

  /** How evaluate changes the board for the active question q and its outcome o. */
  function Resolve(bd: Board, q: Question, o: Outcome): (r: Board)
    requires GridShape(bd.completed)
    ensures GridShape(r.completed)
    ensures multiset(r.deck) <= multiset(bd.deck)
    ensures o == Pending ==> r == bd
    ensures o == Wrong ==> r.completed == bd.completed && r.progress == bd.progress && multiset(r.deck) == multiset(bd.deck)
    ensures o == Correct ==> r.completed[q.b][q.a] && r.progress == ClampProgress(bd.progress + 1)
  {
    match o
    case Correct => Board(Shift(bd.deck), MarkDone(bd.completed, q.a, q.b), ClampProgress(bd.progress + 1))
    case Wrong => Board(RotateHead(bd.deck), bd.completed, bd.progress)
    case Pending => bd
  }

  /** Completion: progress reaches 81 exactly when the deck is empty. */
  lemma InvariantCompletion(bd: Board)
    requires Invariant(bd)
    ensures 0 <= bd.progress <= MAX_PROGRESS
    ensures bd.progress >= MAX_PROGRESS <==> bd.deck == []
  {
  }

  /** Every fact once in the deck and nothing else, an all-false grid and progress 0 satisfy the invariant. */
  lemma FullDeckInvariant(deck: seq<Fact>, g: seq<seq<bool>>)
    requires |deck| == MAX_PROGRESS && Distinct(deck)
    requires forall f :: f in deck <==> IsFact(f)
    requires GridShape(g) && forall i, j :: 0 <= i < 10 && 0 <= j < 10 ==> !g[i][j]
    ensures Invariant(Board(deck, g, 0))
  {
    AllFalseCount(g);
    forall a: Operand, b: Operand ensures MakeFact(a, b) in deck {
      assert IsFact(MakeFact(a, b));
    }
  }

  /** The deck buildDeck81 returns, an all-false grid and progress 0 satisfy the invariant. */
  lemma FreshBoardInvariant()
    ensures Invariant(Board(FreshDeck(), EmptyGrid(), 0))
  {
    FreshDeckFacts();
    FullDeckInvariant(FreshDeck(), EmptyGrid());
  }

  /** `deck = buildDeck81()` together with a fresh all-false grid, as start-up and the clear key do it. */
  method NewBoard() returns (bd: Board)
    ensures bd == Board(FreshDeck(), EmptyGrid(), 0) && |bd.deck| == MAX_PROGRESS
  {
    var built := BuildDeck81();
    bd := Board(built, EmptyGrid(), 0);
  }

  /**
   * Retiring the head: the grid cell of the active fact goes from false to true,
   * exactly the head leaves the deck, progress rises by one, and the invariant holds.
   */
  lemma RetireKeepsInvariant(bd: Board, q: Question)
    requires Invariant(bd) && HeadIs(bd, q)
    ensures !bd.completed[q.b][q.a]
    ensures var after := Resolve(bd, q, Correct);
      && Invariant(after)
      && after.deck == bd.deck[1..]
      && after.completed[q.b][q.a]
      && after.progress == bd.progress + 1
  {
    var g := bd.completed;
    var h := bd.deck[0];
    var rest := bd.deck[1..];
    assert h in bd.deck;
    assert h == MakeFact(q.a, q.b);
    var after := Resolve(bd, q, Correct);
    MarkDoneCount(g, q.a, q.b);
    assert h !in rest by {
      forall j | 0 <= j < |rest| ensures rest[j] != h {
        assert rest[j] == bd.deck[j + 1];
      }
    }
    assert Distinct(rest) by {
      forall i, j | 0 <= i < j < |rest| ensures rest[i] != rest[j] {
        assert rest[i] == bd.deck[i + 1] && rest[j] == bd.deck[j + 1];
      }
    }
    assert forall f :: f in rest ==> f in bd.deck;
    forall a: Operand, b: Operand
      ensures after.completed[b][a] <==> MakeFact(a, b) !in rest
    {
      if a != q.a || b != q.b {
        assert after.completed[b][a] == g[b][a];
        assert MakeFact(a, b) != h;
        assert MakeFact(a, b) in bd.deck ==> MakeFact(a, b) in [h] + rest;
        assert bd.deck == [h] + rest;
      }
    }
  }

  /** Rotating the head to the tail keeps the same facts, the grid, progress and the invariant. */
  lemma RotateKeepsInvariant(bd: Board, q: Question)
    requires Invariant(bd)
    ensures var after := Resolve(bd, q, Wrong);
      && Invariant(after)
      && multiset(after.deck) == multiset(bd.deck)
      && |after.deck| == |bd.deck|
      && after.completed == bd.completed && after.progress == bd.progress
  {
    var after := Resolve(bd, q, Wrong);
    if bd.deck != [] {
      assert bd.deck == [bd.deck[0]] + bd.deck[1..];
      assert multiset(after.deck) == multiset(bd.deck);
      DistinctPermutation(bd.deck, after.deck);
      forall f ensures f in after.deck <==> f in bd.deck {
        assert f in after.deck <==> f in multiset(after.deck);
        assert f in bd.deck <==> f in multiset(bd.deck);
      }
    }
  }

  /** Once every fact is retired, nothing evaluate does changes the board (the guards on shift and the clamp). */
  lemma FinishedIsStable(bd: Board, q: Question, o: Outcome)
    requires Invariant(bd) && bd.deck == []
    ensures Resolve(bd, q, o) == bd
  {
    assert bd.completed[q.b][q.a];
    MarkDoneCount(bd.completed, q.a, q.b);
  }

  /**
   * Why evaluate's invariant needs the active question at the head: a correct
   * answer for a question already retired (its cell is set) while facts remain
   * removes the head fact from the deck without setting that fact's cell.
   */
  lemma StaleCorrectBreaksInvariant(bd: Board, q: Question)
    requires Invariant(bd) && bd.deck != [] && bd.completed[q.b][q.a]
    ensures !Invariant(Resolve(bd, q, Correct))
  {
    var h := bd.deck[0];
    assert h in bd.deck;
    assert h == MakeFact(h.a, h.b);
    assert !bd.completed[h.b][h.a];
    var after := Resolve(bd, q, Correct);
    assert h !in after.deck by {
      forall j | 0 <= j < |after.deck| ensures after.deck[j] != h {
        assert after.deck[j] == bd.deck[j + 1];
      }
    }
    assert !after.completed[h.b][h.a];
  }

  /**
   * The other stale case: after a wrong answer the active fact sits at the tail,
   * still in the deck. A correct answer then sets its cell while it is still in
   * the deck and removes a different fact, the head.
   */
  lemma RotatedCorrectBreaksInvariant(bd: Board, q: Question)
    requires Invariant(bd) && !HeadIs(bd, q) && !bd.completed[q.b][q.a]
    ensures !Invariant(Resolve(bd, q, Correct))
  {
    var f := MakeFact(q.a, q.b);
    assert f in bd.deck;
    var i :| 0 <= i < |bd.deck| && bd.deck[i] == f;
    assert i != 0;
    var after := Resolve(bd, q, Correct);
    assert after.deck[i - 1] == f;
    assert after.completed[q.b][q.a];
  }

  /** The board after a correct answer keeps the invariant when the answered question was the head or the deck was empty. */
  lemma RetireConsistent(bd: Board, q: Question, after: Board)
    requires GridShape(bd.completed) && after == Resolve(bd, q, Correct)
    ensures Invariant(bd) && (HeadIs(bd, q) || bd.deck == []) ==> Invariant(after)
  {
    if Invariant(bd) && (HeadIs(bd, q) || bd.deck == []) {
      ResolveKeepsInvariant(bd, q, Correct);
    }
  }

  /** evaluate keeps the invariant when the active question is the head of the deck, or the deck is empty. */
  lemma ResolveKeepsInvariant(bd: Board, q: Question, o: Outcome)
    requires Invariant(bd) && (HeadIs(bd, q) || bd.deck == [])
    ensures Invariant(Resolve(bd, q, o))
    ensures bd.progress <= Resolve(bd, q, o).progress
    ensures multiset(Resolve(bd, q, o).deck) <= multiset(bd.deck)
  {
    if bd.deck == [] {
      FinishedIsStable(bd, q, o);
    } else if o == Correct {
      RetireKeepsInvariant(bd, q);
      assert bd.deck == [bd.deck[0]] + bd.deck[1..];
    } else if o == Wrong {
      RotateKeepsInvariant(bd, q);
    }
  }

  // ----- the session object -----

  /** The module-level state of the drill and the functions that change it. */
  class Session {
    var deck: seq<Fact>
    var completed: seq<seq<bool>>
    var progress: int
    var userInput: string
    var active: Question

    ghost function BoardOf(): Board
      reads this`deck, this`completed, this`progress
    {
      Board(deck, completed, progress)
    }

    /** Shapes every operation relies on: a 10 x 10 grid, progress in range, at most two typed digits. */
    ghost predicate WellFormed()
      reads this
    {
      && GridShape(completed)
      && 0 <= progress <= MAX_PROGRESS
      && |userInput| <= 2 && AllDigits(userInput)
      && active.ans == active.a * active.b
    }

    ghost predicate Consistent()
      reads this`deck, this`completed, this`progress
    {
      Invariant(BoardOf())
    }

    /** A question is open: the active fact is the head of the deck. */
    ghost predicate Presenting()
      reads this
    {
      HeadIs(BoardOf(), active)
    }

    /** Start-up: a fresh deck and grid, progress 0, then the first question. */
    constructor ()
      ensures WellFormed() && Presenting() && Consistent()
      ensures deck == FreshDeck() && completed == EmptyGrid() && progress == 0
      ensures userInput == "" && active == ActiveFor(deck[0].a, deck[0].b)
      ensures (active.a == 7 && active.b == 8) || (active.a == 8 && active.b == 7)
    {
      deck := [];
      completed := EmptyGrid();
      active := Question(1, 1, 1, 0);
      userInput := "";
      progress := 0;
      new;
      Reset();
    }

    /** `setProgress(p)`. */
    method SetProgress(p: int)
      modifies this`progress
      ensures progress == ClampProgress(p)
    {
      var capped := if p < MAX_PROGRESS then p else MAX_PROGRESS;
      progress := if capped > 0 then capped else 0;
    }

    /**
     * `newQuestion()`: when progress has reached 81 or the deck is empty the
     * session is over and nothing changes; otherwise the head of the deck
     * becomes the active question and the input is cleared.
     */
    method NewQuestion() returns (over: bool)
      requires WellFormed()
      modifies this`active, this`userInput
      ensures WellFormed()
      ensures over <==> progress >= MAX_PROGRESS || deck == []
      ensures over ==> active == old(active) && userInput == old(userInput)
      ensures !over ==> active == ActiveFor(deck[0].a, deck[0].b) && userInput == ""
      ensures !over ==> Presenting()
    {
      if progress >= MAX_PROGRESS || |deck| == 0 {
        return true;
      }
      var q := deck[0];
      active := ActiveFor(q.a, q.b);
      userInput := "";
      return false;
    }

    /**
     * What start-up and the clear key both do before asking: `deck = buildDeck81()`,
     * an all-false grid and `setProgress(0)`.
     */
    method ClearBoard()
      modifies this`deck, this`completed, this`progress
      ensures BoardOf() == Board(FreshDeck(), EmptyGrid(), 0) && |deck| == MAX_PROGRESS
    {
      SetProgress(0);
      var bd := NewBoard();
      deck := bd.deck;
      completed := bd.completed;
    }

    /** The clear key: fresh deck, all-false grid, progress 0, then the first question. */
    method Reset()
      requires WellFormed()
      modifies this
      ensures WellFormed() && Presenting() && Consistent()
      ensures deck == FreshDeck() && completed == EmptyGrid() && progress == 0
      ensures userInput == "" && active == ActiveFor(deck[0].a, deck[0].b)
      ensures (active.a == 7 && active.b == 8) || (active.a == 8 && active.b == 7)
    {
      ClearBoard();
      var over := NewQuestion();
      FreshBoardInvariant();
      FreshDeckHead();
    }

    /**
     * The correct-answer branch of evaluate: `completed[active.b][active.a] = true`,
     * drop the head if any, `setProgress(progress + 1)`.
     */
    method RetireHead()
      requires WellFormed()
      modifies this`deck, this`completed, this`progress
      ensures WellFormed()
      ensures BoardOf() == Resolve(old(BoardOf()), active, Correct)
      ensures old(Consistent()) && (old(Presenting()) || old(deck) == []) ==> Consistent()
    {
      ghost var before := BoardOf();
      completed := completed[active.b := completed[active.b][active.a := true]];
      if |deck| > 0 {
        deck := deck[1..];
      }
      SetProgress(progress + 1);
      RetireConsistent(before, active, BoardOf());
    }

    /** The wrong-answer branch of evaluate: `deck.push(deck.shift())` when the deck is not empty. */
    method RotateToTail()
      requires WellFormed()
      modifies this`deck
      ensures WellFormed()
      ensures BoardOf() == Resolve(old(BoardOf()), active, Wrong)
      ensures old(Consistent()) ==> Consistent()
    {
      ghost var before := BoardOf();
      if |deck| > 0 {
        deck := deck[1..] + [deck[0]];
      }
      if Invariant(before) {
        RotateKeepsInvariant(before, active);
      }
    }

    /**
     * `evaluate()`: parse the input; the right value retires the head, a wrong
     * value of full length rotates the head to the tail, anything else waits.
     */
    method Evaluate() returns (outcome: Outcome)
      requires WellFormed()
      modifies this`deck, this`completed, this`progress
      ensures WellFormed()
      ensures outcome == Judge(userInput, active.ans)
      ensures BoardOf() == Resolve(old(BoardOf()), active, outcome)
      ensures old(Consistent()) && (old(Presenting()) || old(deck) == []) ==> Consistent()
    {
      var val := ParseInt(userInput);
      if val.None? {
        return Pending;
      }
      if val.value == active.ans {
        RetireHead();
        return Correct;
      }
      var ansLen := if active.ans >= 10 then 2 else 1;
      if |userInput| >= ansLen {
        RotateToTail();
        return Wrong;
      }
      return Pending;
    }

    /**
     * `onKey(k)`: backspace drops the last character; a digit is appended only
     * below two characters, and each append is followed by evaluate.
     */
    method OnKey(k: Key) returns (outcome: Outcome)
      requires WellFormed()
      modifies this`deck, this`completed, this`progress, this`userInput
      ensures WellFormed()
      ensures userInput == InputAfter(old(userInput), k)
      ensures outcome == if Appends(old(userInput), k) then Judge(userInput, active.ans) else Pending
      ensures BoardOf() == Resolve(old(BoardOf()), active, outcome)
      ensures old(Consistent()) && (old(Presenting()) || old(deck) == []) ==> Consistent()
    {
      if k.Backspace? {
        if |userInput| > 0 {
          userInput := userInput[..|userInput| - 1];
        }
        return Pending;
      }
      if |userInput| >= 2 {
        return Pending;
      }
      userInput := userInput + [k.ch];
      outcome := Evaluate();
    }
  }
}
