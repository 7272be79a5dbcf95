/**
 * The interpretation of a chart: the day stem's personality entry, the
 * excess / balanced / lacking status of each element, and the overall
 * advice text assembled from them.
 *
 * The Japanese display texts of the tables are not modelled: a `Text`
 * stands for the table entry it is taken from.  The fragments of the
 * overall advice are kept as written, because its structure is what the
 * analysis decides.
 */
module Interpretations {

  import opened Wrappers
  import opened Cycles
  import opened Pillars
  import Tally

  datatype Status = Excess | Balanced | Lacking

  /** A display text, named by the table and key it comes from. */
  datatype Text =
    | ExcessText(element: Element)
    | LackingText(element: Element)
    | BalancedText(element: Element)
    | AdviceText(element: Element, item: nat)
    | TitleText(stem: Stem)
    | DescriptionText(stem: Stem)
    | TraitText(stem: Stem, item: nat)

  datatype DayStemInterpretation = DayStemInterpretation(
    stem: Stem, element: Element, title: Text, description: Text, traits: seq<Text>)

  function StemEntry(s: Stem, e: Element): DayStemInterpretation
  {
    DayStemInterpretation(s, e, TitleText(s), DescriptionText(s),
      [TraitText(s, 0), TraitText(s, 1), TraitText(s, 2), TraitText(s, 3)])
  }

  /**
   * The personality table keyed by day stem.  Each entry names its own key
   * and the element of that stem, and carries four traits.
   */
  function DayStemInterpretations(s: Stem): (r: DayStemInterpretation)
    ensures r.stem == s && r.element == StemToElement(s)
    ensures r.title == TitleText(s) && r.description == DescriptionText(s) && |r.traits| == 4
  {
    if s == 0 then StemEntry(0, Wood)
    else if s == 1 then StemEntry(1, Wood)
    else if s == 2 then StemEntry(2, Fire)
    else if s == 3 then StemEntry(3, Fire)
    else if s == 4 then StemEntry(4, Earth)
    else if s == 5 then StemEntry(5, Earth)
    else if s == 6 then StemEntry(6, Metal)
    else if s == 7 then StemEntry(7, Metal)
    else if s == 8 then StemEntry(8, Water)
    else StemEntry(9, Water)
  }

  /** Five ways of bringing an element into daily life. */
  function ElementPracticalAdvice(e: Element): (r: seq<Text>)
    ensures |r| == 5 && forall t :: t in r ==> t.AdviceText? && t.element == e
  {
    [AdviceText(e, 0), AdviceText(e, 1), AdviceText(e, 2), AdviceText(e, 3), AdviceText(e, 4)]
  }

  function ExcessInterpretation(e: Element): Text
  {
    ExcessText(e)
  }

  function LackingInterpretation(e: Element): Text
  {
    LackingText(e)
  }

  function BalancedInterpretation(e: Element): Text
  {
    BalancedText(e)
  }

  datatype ElementBalance = ElementBalance(
    element: Element, count: int, status: Status, interpretation: Text, practicalAdvice: Option<seq<Text>>)

  /**
   * The status of a count against the mean `total / 5`: excess from one and
   * a half times the mean, otherwise lacking up to half the mean.  The
   * comparisons are cross-multiplied to stay in integers; the contract
   * states them on the mean, in exact arithmetic.
   */
  function Classify(count: int, total: int): (st: Status)
    ensures var average := total as real / 5.0;
      && (st == Excess <==> count as real >= average * 1.5)
      && (st == Lacking <==> count as real < average * 1.5 && count as real <= average * 0.5)
      && (st == Balanced <==> average * 0.5 < count as real < average * 1.5)
  {
    if 10 * count >= 3 * total then Excess
    else if 10 * count <= total then Lacking
    else Balanced
  }

  /** The entry of the table that matches the status. */
  function Interpretation(status: Status, e: Element): Text
  {
    match status
    case Excess => ExcessInterpretation(e)
    case Lacking => LackingInterpretation(e)
    case Balanced => BalancedInterpretation(e)
  }

  /** The record for one element; advice is attached to a lacking element only. */
  function BalanceOf(e: Element, count: int, total: int): (r: ElementBalance)
    ensures r.element == e && r.count == count
    ensures r.practicalAdvice.Some? <==> r.status == Lacking
    ensures r.practicalAdvice.Some? ==> r.practicalAdvice.value == ElementPracticalAdvice(e)
    ensures r.interpretation == Interpretation(r.status, e)
  {
    if 10 * count >= 3 * total then
      ElementBalance(e, count, Excess, ExcessInterpretation(e), None)
    else if 10 * count <= total then
      ElementBalance(e, count, Lacking, LackingInterpretation(e), Some(ElementPracticalAdvice(e)))
    else
      ElementBalance(e, count, Balanced, BalancedInterpretation(e), None)
  }

  /** One record per element, in the order 木 火 土 金 水. */
  function AnalyzeElementBalance(counts: map<Element, int>): (r: seq<ElementBalance>)
    requires IsCountTable(counts)
    ensures |r| == 5
    ensures forall i :: 0 <= i < 5 ==>
      && r[i].element == FiveElements[i]
      && r[i].count == counts[FiveElements[i]]
      && r[i].status == Classify(r[i].count, TotalCount(counts))
      && r[i].interpretation == Interpretation(r[i].status, r[i].element)
      && (r[i].practicalAdvice.Some? <==> r[i].status == Lacking)
      && (r[i].practicalAdvice.Some? ==> r[i].practicalAdvice.value == ElementPracticalAdvice(r[i].element))
  {
    var total := TotalCount(counts);
    [ BalanceOf(Wood, counts[Wood], total), BalanceOf(Fire, counts[Fire], total),
      BalanceOf(Earth, counts[Earth], total), BalanceOf(Metal, counts[Metal], total),
      BalanceOf(Water, counts[Water], total) ]
  }

  /**
   * With eight symbols counted, excess means at least three and lacking
   * means none; advice is never attached to an excess element.
   */
  lemma BalanceOfEight(counts: map<Element, int>)
    requires IsCountTable(counts) && TotalCount(counts) == 8
    requires forall e :: counts[e] >= 0
    ensures var r := AnalyzeElementBalance(counts);
      forall i :: 0 <= i < 5 ==>
        && (r[i].status == Excess <==> r[i].count >= 3)
        && (r[i].status == Lacking <==> r[i].count == 0)
        && (r[i].status == Excess ==> r[i].practicalAdvice == None)
  {
  }

  /** With nothing counted, the excess test, checked first, holds for every element. */
  lemma BalanceOfNothing(counts: map<Element, int>)
    requires IsCountTable(counts) && TotalCount(counts) == 0
    requires forall e :: counts[e] >= 0
    ensures forall b :: b in AnalyzeElementBalance(counts) ==> b.status == Excess
  {
    var r := AnalyzeElementBalance(counts);
    forall b | b in r
      ensures b.status == Excess
    {
      var i :| 0 <= i < |r| && r[i] == b;
    }
  }

  /** A chart's tally always classifies against the fixed mean 8 / 5. */
  lemma ChartBalance(fp: FourPillars)
    ensures var counts := Tally.ElementCounts(fp);
      var r := AnalyzeElementBalance(counts);
      forall i :: 0 <= i < 5 ==>
        && r[i].count == Tally.ElementCount(Tally.PillarList(fp), FiveElements[i])
        && (r[i].status == Excess <==> r[i].count >= 3)
        && (r[i].status == Lacking <==> r[i].count == 0)
  {
    Tally.ChartCountsSumToEight(fp);
    BalanceOfEight(Tally.ElementCounts(fp));
  }

  // ---------------------------------------------------------------- overall advice

  /** The elements of the records with status `st`, in record order (`filter` then `map`). */
  function ElementsWithStatus(balance: seq<ElementBalance>, st: Status): (r: seq<Element>)
    ensures |r| <= |balance|
    ensures forall e :: e in r <==> exists b :: b in balance && b.element == e && b.status == st
  {
    if balance == [] then []
    else (if balance[0].status == st then [balance[0].element] else []) + ElementsWithStatus(balance[1..], st)
  }

  /** The elements among `es` whose count has status `st`, straight from the counts. */
  function Classified(es: seq<Element>, counts: map<Element, int>, st: Status): (r: seq<Element>)
    requires IsCountTable(counts)
    ensures forall e :: e in r <==> e in es && Classify(counts[e], TotalCount(counts)) == st
  {
    if es == [] then []
    else
      (if Classify(counts[es[0]], TotalCount(counts)) == st then [es[0]] else [])
        + Classified(es[1..], counts, st)
  }

  /** Strictly increasing in the canonical order 木 火 土 金 水. */
  predicate InCanonicalOrder(es: seq<Element>)
  {
    forall i, j :: 0 <= i < j < |es| ==> ElementIndex(es[i]) < ElementIndex(es[j])
  }

  /** Classifying keeps the canonical order. */
  lemma {:induction false} ClassifiedInOrder(es: seq<Element>, counts: map<Element, int>, st: Status)
    requires IsCountTable(counts) && InCanonicalOrder(es)
    ensures InCanonicalOrder(Classified(es, counts, st))
  {
    if es != [] {
      var tail := es[1..];
      assert InCanonicalOrder(tail) by {
        forall i, j | 0 <= i < j < |tail|
          ensures ElementIndex(tail[i]) < ElementIndex(tail[j])
        {
          assert tail[i] == es[i + 1] && tail[j] == es[j + 1];
        }
      }
      ClassifiedInOrder(tail, counts, st);
      var rest := Classified(tail, counts, st);
      if Classify(counts[es[0]], TotalCount(counts)) == st {
        forall k | 0 <= k < |rest|
          ensures ElementIndex(es[0]) < ElementIndex(rest[k])
        {
          assert rest[k] in tail;
          var j :| 0 <= j < |tail| && tail[j] == rest[k];
          assert es[j + 1] == rest[k];
        }
        ConsInOrder(es[0], rest);
      }
    }
  }

  lemma ConsInOrder(x: Element, rest: seq<Element>)
    requires InCanonicalOrder(rest)
    requires forall k :: 0 <= k < |rest| ==> ElementIndex(x) < ElementIndex(rest[k])
    ensures InCanonicalOrder([x] + rest)
  {
    var r := [x] + rest;
    forall i, j | 0 <= i < j < |r|
      ensures ElementIndex(r[i]) < ElementIndex(r[j])
    {
      assert r[j] == rest[j - 1];
      if i > 0 {
        assert r[i] == rest[i - 1];
      }
    }
  }

  /** Filtering records that classify their elements by the counts finds what Classified finds. */
  lemma {:induction false} StatusFilterMatches(balance: seq<ElementBalance>, es: seq<Element>, counts: map<Element, int>, st: Status)
    requires IsCountTable(counts) && |balance| == |es|
    requires forall i :: 0 <= i < |es| ==>
      balance[i].element == es[i] && balance[i].status == Classify(counts[es[i]], TotalCount(counts))
    ensures ElementsWithStatus(balance, st) == Classified(es, counts, st)
  {
    if es != [] {
      StatusFilterMatches(balance[1..], es[1..], counts, st);
    }
  }

  /** An element is in excess (or lacking) exactly when the filtered list is not empty. */
  lemma ClassifiedNonEmpty(counts: map<Element, int>, st: Status)
    requires IsCountTable(counts)
    ensures Classified(FiveElements, counts, st) != [] <==> exists x :: Classify(counts[x], TotalCount(counts)) == st
  {
    EveryElementListed();
    if exists x :: Classify(counts[x], TotalCount(counts)) == st {
      var x :| Classify(counts[x], TotalCount(counts)) == st;
      assert x in Classified(FiveElements, counts, st);
    }
    var r := Classified(FiveElements, counts, st);
    if r != [] {
      assert r[0] in r;
    }
  }

  /** The elements listed between 「 and 」, separated by 、 (`join('、')`). */
  function JoinElements(es: seq<Element>): (s: string)
    ensures |es| > 0 ==> |s| == 2 * |es| - 1
    ensures |es| == 0 ==> s == ""
    ensures forall i :: 0 <= i < |es| ==> s[2 * i] == ElementSymbol(es[i]) && (i > 0 ==> s[2 * i - 1] == '、')
  {
    if es == [] then ""
    else if |es| == 1 then [ElementSymbol(es[0])]
    else
      var rest := JoinElements(es[1..]);
      var s := [ElementSymbol(es[0]), '、'] + rest;
      assert forall i :: 1 <= i < |es| ==> es[i] == es[1..][i - 1];
      s
  }

  function DayStemSentence(stem: Stem, e: Element): string
  {
    "あなたの日干は「" + [StemSymbol(stem)] + "（" + [ElementSymbol(e)] + "）」です。"
  }

  function ExcessParagraph(es: seq<Element>, dayElement: Element): string
  {
    "\n\n五行では「" + JoinElements(es) + "」が強く、" + [ElementSymbol(dayElement)] + "の性質が際立っています。"
  }

  function LackingParagraph(es: seq<Element>): string
  {
    "\n\n「" + JoinElements(es) + "」の要素を意識的に取り入れることで、" + "さらにバランスの取れた人生を送れるでしょう。"
  }

  const ClosingSentence: string := "\n\nあなたの持ち味を活かしながら、足りない部分を補うことで、より充実した日々が送れます。"

  /**
   * The advice text: the day-stem sentence, a paragraph naming the elements
   * in excess if there are any, one naming the lacking elements if there are
   * any, and the closing sentence.
   */
  function OverallAdvice(stem: Stem, e: Element, excess: seq<Element>, lacking: seq<Element>): (s: string)
    ensures var opening := DayStemSentence(stem, e);
      && |opening| <= |s| - |ClosingSentence|
      && s[..|opening|] == opening
      && s[|s| - |ClosingSentence|..] == ClosingSentence
  {
    var opening := DayStemSentence(stem, e);
    var middle :=
      (if |excess| > 0 then ExcessParagraph(excess, e) else "")
      + (if |lacking| > 0 then LackingParagraph(lacking) else "");
    var s := opening + middle + ClosingSentence;
    assert s[..|opening|] == opening;
    assert s[|s| - |ClosingSentence|..] == ClosingSentence;
    s
  }

  datatype PersonalityAnalysis = PersonalityAnalysis(
    dayStem: DayStemInterpretation, elementBalance: seq<ElementBalance>, overallAdvice: string)

  /** The day stem's entry, the element balance, and the advice text built from both. */
  function AnalyzePersonality(fp: FourPillars, counts: map<Element, int>): (r: PersonalityAnalysis)
    requires IsCountTable(counts)
    ensures r.dayStem.stem == fp.day.stem && r.dayStem.element == StemToElement(fp.day.stem)
    ensures r.elementBalance == AnalyzeElementBalance(counts)
    ensures var opening := DayStemSentence(fp.day.stem, StemToElement(fp.day.stem));
      && |opening| <= |r.overallAdvice| - |ClosingSentence|
      && r.overallAdvice[..|opening|] == opening
      && r.overallAdvice[|r.overallAdvice| - |ClosingSentence|..] == ClosingSentence
  {
    var dayStem := fp.day.stem;
    var dayStemInterpretation := DayStemInterpretations(dayStem);
    var elementBalance := AnalyzeElementBalance(counts);
    var excessElements := ElementsWithStatus(elementBalance, Excess);
    var lackingElements := ElementsWithStatus(elementBalance, Lacking);
    var overallAdvice := OverallAdvice(dayStem, dayStemInterpretation.element, excessElements, lackingElements);
    PersonalityAnalysis(dayStemInterpretation, elementBalance, overallAdvice)
  }

  /**
   * The advice is the day-stem sentence, then the excess paragraph exactly
   * when some element is in excess, then the lacking paragraph exactly when
   * some element is lacking, each listing its elements in canonical order,
   * then the closing sentence.
   */
  lemma OverallAdviceSections(fp: FourPillars, counts: map<Element, int>)
    requires IsCountTable(counts)
    ensures AnalyzePersonality(fp, counts).overallAdvice
         == OverallAdvice(fp.day.stem, StemToElement(fp.day.stem),
                          Classified(FiveElements, counts, Excess), Classified(FiveElements, counts, Lacking))
  {
    var balance := AnalyzeElementBalance(counts);
    StatusFilterMatches(balance, FiveElements, counts, Excess);
    StatusFilterMatches(balance, FiveElements, counts, Lacking);
  }

  /** The elements named in each paragraph appear in the order 木 火 土 金 水. */
  lemma AdviceListsInOrder(counts: map<Element, int>, st: Status)
    requires IsCountTable(counts)
    ensures InCanonicalOrder(Classified(FiveElements, counts, st))
  {
    ClassifiedInOrder(FiveElements, counts, st);
  }
}
