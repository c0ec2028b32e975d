/**
 * The 81 multiplication facts a x b with a, b in 1..9 and their difficulty
 * heuristic. Scores are kept in exact tenths: ScoreTenths(a, b) is ten times
 * the difficulty the drill computes, so the magnitude term a*b*0.10 becomes
 * the integer a*b and every bonus is multiplied by ten.
 */
module Facts {
  import opened Common

  /** An operand of a fact. */
  type Operand = x: int | 1 <= x <= 9 witness 1

  /** One fact as the deck stores it: operands, answer and score (in tenths). */
  datatype Fact = Fact(a: Operand, b: Operand, ans: int, score: int)

  /** The hand-picked set of facts commonly found hard, keyed "AxB" as in the drill. */
  const HARD_TOP: set<string> := {
    "6x9", "9x6",
    "7x8", "8x7",
    "7x6", "6x7",
    "8x6", "6x8",
    "7x9", "9x7",
    "8x9", "9x8",
    "7x7",
    "6x8", "8x6",
    "4x8", "8x4",
    "4x9", "9x4",
    "4x7", "7x4",
    "6x7", "7x6"
  }

  /** The decimal character of a single digit. */
  function DigitChar(d: int): (c: char)
    requires 0 <= d <= 9
    ensures '0' <= c <= '9' && c as int - '0' as int == d
  {
    ('0' as int + d) as char
  }

  /** The key `${a}x${b}` under which a fact is looked up in HARD_TOP. */
  function FactKey(a: Operand, b: Operand): (k: string)
    ensures |k| == 3 && k[1] == 'x'
    ensures k[0] as int - '0' as int == a && k[2] as int - '0' as int == b
  {
    [DigitChar(a), 'x', DigitChar(b)]
  }

  /** The same hard set as operand pairs. */
  predicate IsHardPair(a: Operand, b: Operand) {
    || (a == 6 && b == 9) || (a == 9 && b == 6)
    || (a == 7 && b == 8) || (a == 8 && b == 7)
    || (a == 7 && b == 6) || (a == 6 && b == 7)
    || (a == 8 && b == 6) || (a == 6 && b == 8)
    || (a == 7 && b == 9) || (a == 9 && b == 7)
    || (a == 8 && b == 9) || (a == 9 && b == 8)
    || (a == 7 && b == 7)
    || (a == 4 && b == 8) || (a == 8 && b == 4)
    || (a == 4 && b == 9) || (a == 9 && b == 4)
    || (a == 4 && b == 7) || (a == 7 && b == 4)
  }

  /** Looking a fact up by its string key agrees with the pair list. */
  lemma HardTopMembership(a: Operand, b: Operand)
    ensures FactKey(a, b) in HARD_TOP <==> IsHardPair(a, b)
  {
    var k := FactKey(a, b);
    if k in HARD_TOP {
      assert k[0] == DigitChar(a) && k[2] == DigitChar(b);
    }
  }

  /** HARD_TOP is closed under swapping the operands. */
  lemma HardTopSymmetric(a: Operand, b: Operand)
    ensures FactKey(a, b) in HARD_TOP <==> FactKey(b, a) in HARD_TOP
  {
    HardTopMembership(a, b);
    HardTopMembership(b, a);
  }

  /**
   * Ten times the difficulty of a x b: easy-operand penalties, hard-operand
   * bonuses, the magnitude term, the dual-high bonus and the HARD_TOP bonus.
   */
  function ScoreTenths(a: Operand, b: Operand): (s: int)
    ensures (s - a * b) % 10 == 0
  {
    var hi := if a >= b then a else b;
    var lo := if a >= b then b else a;
    var s0 := 0;
    var s1 := if a == 1 || b == 1 then s0 - 600 else s0;
    var s2 := if a == 2 || b == 2 then s1 - 250 else s1;
    var s3 := if a == 5 || b == 5 then s2 - 180 else s2;
    var s4 := if a >= 6 then s3 + 100 else s3;
    var s5 := if b >= 6 then s4 + 100 else s4;
    var s6 := if a == 7 || b == 7 then s5 + 120 else s5;
    var s7 := if a == 8 || b == 8 then s6 + 140 else s6;
    var s8 := if a == 9 || b == 9 then s7 + 100 else s7;
    var s9 := s8 + a * b;
    var s10 := if hi >= 7 && lo >= 6 then s9 + 80 else s9;
    if FactKey(a, b) in HARD_TOP then s10 + 400 else s10
  }

  /** The score does not depend on the order of the operands. */
  lemma ScoreSymmetric(a: Operand, b: Operand)
    ensures ScoreTenths(a, b) == ScoreTenths(b, a)
  {
    HardTopSymmetric(a, b);
    assert a * b == b * a;
  }

  /** 7 x 8 and 8 x 7 are the hardest facts: 99.6, and every other fact scores less. */
  lemma {:induction false} ScoreMaximum(a: Operand, b: Operand)
    ensures ScoreTenths(a, b) <= 996
    ensures ScoreTenths(a, b) == 996 <==> (a == 7 && b == 8) || (a == 8 && b == 7)
  {
    HardTopMembership(a, b);
    if a <= 3 {
    } else if a == 4 {
    } else if a == 5 {
    } else if a == 6 {
    } else if a == 7 {
    } else if a == 8 {
    } else {
    }
  }

  /** The fact record the drill builds for a x b. */
  function MakeFact(a: Operand, b: Operand): (f: Fact)
    ensures f.a == a && f.b == b && f.ans == a * b
  {
    Fact(a, b, a * b, ScoreTenths(a, b))
  }

  /** f is exactly the record the drill builds for its operands. */
  predicate IsFact(f: Fact) {
    f == MakeFact(f.a, f.b)
  }

  /** Position of a x b in the enumeration b = 1..9 outer, a = 1..9 inner. */
  function IdxOf(a: Operand, b: Operand): (i: nat)
    ensures i < 81
    ensures i % 9 == a - 1 && i / 9 == b - 1
  {
    (b - 1) * 9 + (a - 1)
  }

  /** s lists the 81 facts in enumeration order: b outer, a inner. */
  predicate IsEnumeration(s: seq<Fact>) {
    |s| == 81 && forall i :: 0 <= i < 81 ==> s[i] == MakeFact(i % 9 + 1, i / 9 + 1)
  }

  /** The only such list. */
  lemma EnumerationUnique(s: seq<Fact>)
    requires IsEnumeration(s)
    ensures s == AllFacts()
  {
  }

  /** The 81 facts in enumeration order: b outer, a inner. */
  function AllFacts(): (s: seq<Fact>)
    ensures |s| == 81 && IsEnumeration(s)
  {
    seq(81, i requires 0 <= i < 81 => MakeFact(i % 9 + 1, i / 9 + 1))
  }

  /** The enumeration puts a x b at IdxOf(a, b), and nowhere else. */
  lemma AllFactsAt(a: Operand, b: Operand)
    ensures AllFacts()[IdxOf(a, b)] == MakeFact(a, b)
    ensures forall i :: 0 <= i < 81 && AllFacts()[i] == MakeFact(a, b) ==> i == IdxOf(a, b)
  {
    forall i | 0 <= i < 81 && AllFacts()[i] == MakeFact(a, b) ensures i == IdxOf(a, b) {
      assert i % 9 + 1 == a && i / 9 + 1 == b;
    }
  }

  /** Every fact of the 9 x 9 grid occurs in the enumeration, each exactly once. */
  lemma AllFactsComplete()
    ensures Distinct(AllFacts())
    ensures forall f :: f in AllFacts() <==> IsFact(f)
  {
    var s := AllFacts();
    forall i, j | 0 <= i < j < 81 ensures s[i] != s[j] {
      assert s[i].a == i % 9 + 1 && s[i].b == i / 9 + 1;
      assert s[j].a == j % 9 + 1 && s[j].b == j / 9 + 1;
    }
    forall f | IsFact(f) ensures f in s {
      AllFactsAt(f.a, f.b);
    }
  }
}
