/**
 * Building the 81-fact deck: enumerate, sort hardest first, then a greedy pass
 * that avoids putting a fact right after its mirror (b x a after a x b).
 */
module DeckBuilder {
  import opened Common
  import opened Facts

  // ----- the sort (a stable sort on score, hardest first) -----

  /** Non-increasing in score. */
  predicate SortedByScore(s: seq<Fact>) {
    forall i, j :: 0 <= i < j < |s| ==> s[i].score >= s[j].score
  }

  /** The facts of s whose score is v, in the order s has them. */
  function WithScore(s: seq<Fact>, v: int): seq<Fact> {
    if s == [] then []
    else (if s[0].score == v then [s[0]] else []) + WithScore(s[1..], v)
  }

  /** x put into t in front of the first element that does not score more than x. */
  function Insert(x: Fact, t: seq<Fact>): (r: seq<Fact>)
    ensures |r| == |t| + 1
  {
    if t == [] || x.score >= t[0].score then [x] + t
    else [t[0]] + Insert(x, t[1..])
  }

  /**
   * `items.sort((x, y) => y.score - x.score)`: a stable sort, hardest first.
   * Insertion from the back keeps an earlier fact in front of a later fact
   * with the same score.
   */
  function SortByScore(s: seq<Fact>): (r: seq<Fact>)
    ensures |r| == |s|
  {
    if s == [] then [] else Insert(s[0], SortByScore(s[1..]))
  }

  /** Insert adds exactly x. */
  lemma {:induction false} InsertPermutation(x: Fact, t: seq<Fact>)
    ensures multiset(Insert(x, t)) == multiset{x} + multiset(t)
  {
    if t != [] && x.score < t[0].score {
      InsertPermutation(x, t[1..]);
      assert t == [t[0]] + t[1..];
    }
  }

  /** Inserting into a sorted sequence keeps it sorted. */
  lemma {:induction false} InsertSorted(x: Fact, t: seq<Fact>)
    requires SortedByScore(t)
    ensures SortedByScore(Insert(x, t))
  {
    if t != [] && x.score < t[0].score {
      var r := Insert(x, t[1..]);
      InsertSorted(x, t[1..]);
      InsertPermutation(x, t[1..]);
      assert Insert(x, t) == [t[0]] + r;
      forall j | 0 <= j < |r| ensures r[j].score <= t[0].score {
        assert r[j] in multiset(r);
        if r[j] != x {
          assert r[j] in t[1..];
        }
      }
    }
  }

  /** Insert puts x in front of every fact of equal score already in t. */
  lemma {:induction false} InsertStable(x: Fact, t: seq<Fact>, v: int)
    ensures WithScore(Insert(x, t), v) == (if x.score == v then [x] else []) + WithScore(t, v)
  {
    var mine := if x.score == v then [x] else [];
    if t == [] || x.score >= t[0].score {
      assert ([x] + t)[1..] == t;
    } else {
      var r := Insert(x, t[1..]);
      var head := if t[0].score == v then [t[0]] else [];
      InsertStable(x, t[1..], v);
      assert ([t[0]] + r)[1..] == r;
      calc {
        WithScore(Insert(x, t), v);
        WithScore([t[0]] + r, v);
        head + WithScore(r, v);
        head + (mine + WithScore(t[1..], v));
        { assert head == [] || mine == []; }
        mine + (head + WithScore(t[1..], v));
        mine + WithScore(t, v);
      }
    }
  }

  /** After the sort the facts run from hardest to easiest. */
  lemma {:induction false} SortSorted(s: seq<Fact>)
    ensures SortedByScore(SortByScore(s))
  {
    if s != [] {
      SortSorted(s[1..]);
      InsertSorted(s[0], SortByScore(s[1..]));
    }
  }

  /** The sort only reorders: it keeps every fact, as often as it occurs. */
  lemma {:induction false} SortPermutation(s: seq<Fact>)
    ensures multiset(SortByScore(s)) == multiset(s)
    ensures |SortByScore(s)| == |s|
  {
    if s != [] {
      SortPermutation(s[1..]);
      InsertPermutation(s[0], SortByScore(s[1..]));
      assert s == [s[0]] + s[1..];
    }
    assert |multiset(SortByScore(s))| == |SortByScore(s)|;
  }

  /** The sort is stable: facts of equal score keep their enumeration order. */
  lemma {:induction false} SortStable(s: seq<Fact>, v: int)
    ensures WithScore(SortByScore(s), v) == WithScore(s, v)
  {
    if s != [] {
      SortStable(s[1..], v);
      InsertStable(s[0], SortByScore(s[1..]), v);
      assert s == [s[0]] + s[1..];
    }
  }

  // ----- the greedy re-sequencing -----

  /** `isSymmetric(p, q)`: q is the mirror of p. */
  predicate IsSymmetric(p: Fact, q: Fact) {
    p.a == q.b && p.b == q.a
  }

  /** `isSameFactor(p, q)`: p and q agree on the first or on the second operand. */
  predicate IsSameFactor(p: Fact, q: Fact) {
    p.a == q.a || p.b == q.b
  }

  /** Being mirrors is mutual, and a fact is its own mirror exactly on the diagonal a = b. */
  lemma MirrorIsMutual(p: Fact, q: Fact)
    ensures IsSymmetric(p, q) <==> IsSymmetric(q, p)
    ensures IsSymmetric(p, p) <==> p.a == p.b
  {
  }

  /** Sharing a factor is mutual, and every fact shares a factor with itself, so the second scan never picks a repeat of prev. */
  lemma SameFactorIsMutual(p: Fact, q: Fact)
    ensures IsSameFactor(p, q) <==> IsSameFactor(q, p)
    ensures IsSameFactor(p, p)
    ensures IsSymmetric(p, q) && IsSameFactor(p, q) ==> p.a == p.b && q.a == q.b
  {
  }

  /** The two scans of the greedy step. */
  datatype Rule = AvoidMirror | AvoidSameFactor

  /** The scan under `rule` does not skip cand (there is no previous pick on the first step). */
  predicate Acceptable(rule: Rule, prev: Option<Fact>, cand: Fact) {
    match rule
    case AvoidMirror => !(prev.Some? && IsSymmetric(prev.value, cand))
    case AvoidSameFactor => !(prev.Some? && IsSameFactor(prev.value, cand))
  }

  /** Index of the first acceptable fact of r, if any. */
  function FirstAcceptable(rule: Rule, prev: Option<Fact>, r: seq<Fact>): (k: Option<nat>)
    ensures k.Some? ==> k.value < |r| && Acceptable(rule, prev, r[k.value])
    ensures k.Some? ==> forall j :: 0 <= j < k.value ==> !Acceptable(rule, prev, r[j])
    ensures k.None? ==> forall j :: 0 <= j < |r| ==> !Acceptable(rule, prev, r[j])
  {
    if r == [] then None
    else if Acceptable(rule, prev, r[0]) then Some(0)
    else match FirstAcceptable(rule, prev, r[1..])
      case None => None
      case Some(k) => Some(k + 1)
  }

  /** The index one greedy step picks: first non-mirror, else first with no shared factor, else the head. */
  function PickIndex(prev: Option<Fact>, r: seq<Fact>): (k: nat)
    requires |r| > 0
    ensures k < |r|
  {
    match FirstAcceptable(AvoidMirror, prev, r)
    case Some(k) => k
    case None =>
      match FirstAcceptable(AvoidSameFactor, prev, r)
      case Some(k) => k
      case None => 0
  }

  /**
   * The pick of one greedy step: the first fact that is not the mirror of prev
   * if there is one; else the first fact sharing no factor with prev if there
   * is one; else the head.
   */
  lemma PickIndexChoice(prev: Option<Fact>, r: seq<Fact>)
    requires |r| > 0
    ensures var k := PickIndex(prev, r);
      && ((exists j :: 0 <= j < |r| && Acceptable(AvoidMirror, prev, r[j])) ==>
          (Acceptable(AvoidMirror, prev, r[k]) && forall j :: 0 <= j < k ==> !Acceptable(AvoidMirror, prev, r[j])))
      && (((forall j :: 0 <= j < |r| ==> !Acceptable(AvoidMirror, prev, r[j])) &&
           (exists j :: 0 <= j < |r| && Acceptable(AvoidSameFactor, prev, r[j]))) ==>
          (Acceptable(AvoidSameFactor, prev, r[k]) && forall j :: 0 <= j < k ==> !Acceptable(AvoidSameFactor, prev, r[j])))
      && ((forall j :: 0 <= j < |r| ==> !Acceptable(AvoidMirror, prev, r[j]) && !Acceptable(AvoidSameFactor, prev, r[j])) ==> k == 0)
  {
  }

  /** The deck the greedy pass appends, starting after prev with the facts r still to place. */
  function Resequence(prev: Option<Fact>, r: seq<Fact>): (out: seq<Fact>)
    ensures |out| == |r|
    decreases |r|
  {
    if r == [] then []
    else
      var k := PickIndex(prev, r);
      [r[k]] + Resequence(Some(r[k]), RemoveAt(r, k))
  }

  /**
   * The deck buildDeck81 returns: the enumeration, sorted hardest first, then
   * resequenced. The enumeration is named by its defining property rather than
   * by AllFacts(), which keeps the verifier from evaluating the whole deal
   * wherever the deck is mentioned; FreshDeckDeal relates the two.
   */
  ghost function FreshDeck(): (d: seq<Fact>)
    ensures |d| == 81
  {
    assert IsEnumeration(AllFacts());
    var items :| IsEnumeration(items);
    Resequence(None, SortByScore(items))
  }

  /** The greedy pass places every fact exactly once. */
  lemma {:induction false} ResequencePermutation(prev: Option<Fact>, r: seq<Fact>)
    ensures multiset(Resequence(prev, r)) == multiset(r)
    ensures |Resequence(prev, r)| == |r|
    decreases |r|
  {
    if r != [] {
      var k := PickIndex(prev, r);
      ResequencePermutation(Some(r[k]), RemoveAt(r, k));
    }
  }

  /** No two facts of r share both operands: each grid cell has at most one fact. */
  predicate DistinctPairs(r: seq<Fact>) {
    forall i, j :: 0 <= i < j < |r| ==> !(r[i].a == r[j].a && r[i].b == r[j].b)
  }

  /** Distinct facts, each the record built for its operands, sit in distinct cells. */
  lemma FactsDistinctPairs(r: seq<Fact>)
    requires Distinct(r) && forall f :: f in r ==> IsFact(f)
    ensures DistinctPairs(r)
  {
    forall i, j | 0 <= i < j < |r| ensures !(r[i].a == r[j].a && r[i].b == r[j].b) {
      assert r[i] in r && r[j] in r;
    }
  }

  /** Taking a fact out keeps the cells distinct. */
  lemma RemoveAtDistinctPairs(r: seq<Fact>, k: nat)
    requires k < |r| && DistinctPairs(r)
    ensures DistinctPairs(RemoveAt(r, k))
  {
    var s := RemoveAt(r, k);
    forall i, j | 0 <= i < j < |s| ensures !(s[i].a == s[j].a && s[i].b == s[j].b) {
      var i' := if i < k then i else i + 1;
      var j' := if j < k then j else j + 1;
      assert s[i] == r[i'] && s[j] == r[j'];
    }
  }

  /**
   * When no two facts share a cell, a greedy step picks index 0 or 1: at most
   * one remaining fact is the mirror of the previous pick. With two or more
   * facts left the pick is never that mirror.
   */
  lemma PickIndexAtMostOne(prev: Option<Fact>, r: seq<Fact>)
    requires |r| > 0 && DistinctPairs(r)
    ensures PickIndex(prev, r) <= 1
    ensures |r| >= 2 && prev.Some? ==> !IsSymmetric(prev.value, r[PickIndex(prev, r)])
  {
    if |r| >= 2 && !Acceptable(AvoidMirror, prev, r[0]) {
      assert !(r[0].a == r[1].a && r[0].b == r[1].b);
      assert Acceptable(AvoidMirror, prev, r[1]);
    }
  }

  /**
   * In a greedy sequence of distinct facts a fact is followed by its mirror only
   * at the very end; the first pick is not the mirror of prev unless it is the last.
   */
  lemma {:induction false} ResequenceNoMirrorAdjacent(prev: Option<Fact>, r: seq<Fact>)
    requires DistinctPairs(r)
    ensures var out := Resequence(prev, r);
      && (|r| >= 2 && prev.Some? ==> !IsSymmetric(prev.value, out[0]))
      && forall i :: 0 <= i < |out| - 2 ==> !IsSymmetric(out[i], out[i + 1])
    decreases |r|
  {
    if r != [] {
      var k := PickIndex(prev, r);
      var rest := RemoveAt(r, k);
      PickIndexAtMostOne(prev, r);
      RemoveAtDistinctPairs(r, k);
      ResequenceNoMirrorAdjacent(Some(r[k]), rest);
      ResequencePermutation(Some(r[k]), rest);
      var out := Resequence(prev, r);
      var tail := Resequence(Some(r[k]), rest);
      assert out == [r[k]] + tail;
      forall i | 0 <= i < |out| - 2 ensures !IsSymmetric(out[i], out[i + 1]) {
        if i > 0 {
          assert out[i] == tail[i - 1] && out[i + 1] == tail[i];
        } else {
          assert out[0] == r[k] && out[1] == tail[0];
        }
      }
    }
  }

  // ----- buildDeck81 -----

  /** The two scans of the loop body: the first index of remaining that `rule` accepts, or -1. */
  method Scan(rule: Rule, prev: Option<Fact>, remaining: seq<Fact>) returns (pickIdx: int)
    ensures -1 <= pickIdx < |remaining|
    ensures pickIdx == -1 <==> forall j :: 0 <= j < |remaining| ==> !Acceptable(rule, prev, remaining[j])
    ensures pickIdx >= 0 ==> Acceptable(rule, prev, remaining[pickIdx])
    ensures pickIdx >= 0 ==> forall j :: 0 <= j < pickIdx ==> !Acceptable(rule, prev, remaining[j])
    ensures pickIdx == match FirstAcceptable(rule, prev, remaining) case None => -1 case Some(k) => k
  {
    pickIdx := -1;
    var i := 0;
    while i < |remaining|
      invariant 0 <= i <= |remaining|
      invariant forall j :: 0 <= j < i ==> !Acceptable(rule, prev, remaining[j])
    {
      if !Acceptable(rule, prev, remaining[i]) {
        i := i + 1;
        continue;
      }
      pickIdx := i;
      break;
    }
  }

  /** The nested loops of buildDeck81 that list every fact, b outer and a inner. */
  method Enumerate() returns (items: seq<Fact>)
    ensures items == AllFacts()
  {
    items := [];
    for b := 1 to 10
      invariant |items| == (b - 1) * 9
      invariant forall i :: 0 <= i < |items| ==> items[i] == AllFacts()[i]
    {
      for a := 1 to 10
        invariant |items| == (b - 1) * 9 + (a - 1)
        invariant forall i :: 0 <= i < |items| ==> items[i] == AllFacts()[i]
      {
        AllFactsAt(a, b);
        items := items + [Fact(a, b, a * b, ScoreTenths(a, b))];
      }
    }
  }

  lemma ConcatAssoc(x: seq<Fact>, y: seq<Fact>, z: seq<Fact>)
    ensures x + (y + z) == (x + y) + z
  {
  }

  /** The greedy loop of buildDeck81: move the facts of items one at a time from remaining to deck. */
  method Resequenced(items: seq<Fact>) returns (deck: seq<Fact>)
    ensures deck == Resequence(None, items)
  {
    var remaining := items;
    deck := [];
    var prev: Option<Fact> := None;
    while |remaining| > 0
      invariant deck + Resequence(prev, remaining) == Resequence(None, items)
      decreases |remaining|
    {
      var pickIdx := Scan(AvoidMirror, prev, remaining);
      if pickIdx == -1 {
        pickIdx := Scan(AvoidSameFactor, prev, remaining);
      }
      if pickIdx == -1 {
        pickIdx := 0;
      }
      assert pickIdx == PickIndex(prev, remaining);
      var picked := remaining[pickIdx];
      ghost var before := Resequence(prev, remaining);
      remaining := RemoveAt(remaining, pickIdx);
      ghost var after := Resequence(Some(picked), remaining);
      assert before == [picked] + after;
      ConcatAssoc(deck, [picked], after);
      deck := deck + [picked];
      prev := Some(picked);
    }
  }

  /**
   * buildDeck81: enumerate the facts (b outer, a inner), sort them hardest first,
   * then move them one at a time from remaining to deck by the greedy rule.
   */
  method BuildDeck81() returns (deck: seq<Fact>)
    ensures deck == FreshDeck()
    ensures |deck| == 81 && multiset(deck) == multiset(AllFacts())
    ensures Distinct(deck) && forall f :: f in deck <==> IsFact(f)
    ensures forall i :: 0 <= i < |deck| - 2 ==> !IsSymmetric(deck[i], deck[i + 1])
  {
    var items := Enumerate();
    items := SortByScore(items);
    deck := Resequenced(items);
    FreshDeckDeal();
    FreshDeckFacts();
  }

  /** The fresh deck is the greedy pass over the sorted enumeration. */
  lemma FreshDeckDeal()
    ensures FreshDeck() == Resequence(None, SortByScore(AllFacts()))
  {
    forall s | IsEnumeration(s) ensures s == AllFacts() {
      EnumerationUnique(s);
    }
  }

  /** The fresh deck holds each of the 81 facts once, with mirrors adjacent only at the end. */
  lemma FreshDeckFacts()
    ensures |FreshDeck()| == 81 && multiset(FreshDeck()) == multiset(AllFacts())
    ensures Distinct(FreshDeck()) && forall f :: f in FreshDeck() <==> IsFact(f)
    ensures forall i :: 0 <= i < |FreshDeck()| - 2 ==> !IsSymmetric(FreshDeck()[i], FreshDeck()[i + 1])
  {
    var sorted := SortByScore(AllFacts());
    FreshDeckDeal();
    AllFactsComplete();
    SortPermutation(AllFacts());
    ResequencePermutation(None, sorted);
    DistinctPermutation(AllFacts(), sorted);
    DistinctPermutation(AllFacts(), FreshDeck());
    forall f ensures f in sorted <==> IsFact(f) {
      assert f in sorted <==> f in multiset(sorted);
      assert f in AllFacts() <==> f in multiset(AllFacts());
    }
    forall f ensures f in FreshDeck() <==> IsFact(f) {
      assert f in FreshDeck() <==> f in multiset(FreshDeck());
      assert f in sorted <==> f in multiset(sorted);
    }
    FactsDistinctPairs(sorted);
    ResequenceNoMirrorAdjacent(None, sorted);
  }

  /** With nothing picked before, the greedy pass starts with the head of its input. */
  lemma ResequenceHead(r: seq<Fact>)
    requires |r| > 0
    ensures Resequence(None, r)[0] == r[0]
  {
    assert FirstAcceptable(AvoidMirror, None, r) == Some(0);
  }

  /** Any hardest-first ordering of the 81 facts starts with 7 x 8 or 8 x 7. */
  lemma SortedHead(s: seq<Fact>)
    requires SortedByScore(s) && multiset(s) == multiset(AllFacts())
    ensures |s| > 0 && (s[0] == MakeFact(7, 8) || s[0] == MakeFact(8, 7))
  {
    AllFactsComplete();
    AllFactsAt(7, 8);
    var top := MakeFact(7, 8);
    assert top in multiset(s);
    var i :| 0 <= i < |s| && s[i] == top;
    var h := s[0];
    assert h in multiset(AllFacts());
    assert IsFact(h);
    assert h.score >= top.score;
    ScoreMaximum(7, 8);
    ScoreMaximum(h.a, h.b);
  }

  /** The first fact the fresh deck asks is a hardest one: 7 x 8 or 8 x 7. */
  lemma FreshDeckHead()
    ensures FreshDeck()[0] == MakeFact(7, 8) || FreshDeck()[0] == MakeFact(8, 7)
  {
    var sorted := SortByScore(AllFacts());
    FreshDeckDeal();
    SortSorted(AllFacts());
    SortPermutation(AllFacts());
    SortedHead(sorted);
    ResequenceHead(sorted);
  }
}
