/**
 * The element tally of the result view: every stem and every branch of the
 * four pillars adds one to the count of its element.
 */
module Tally {

  import opened Cycles
  import opened Pillars

  /** The pillars in the order the view walks them: year, month, day, hour. */
  function PillarList(fp: FourPillars): (ps: seq<StemBranch>)
    ensures |ps| == 4
  {
    [fp.year, fp.month, fp.day, fp.hour]
  }

  function Occurs(x: Element, e: Element): nat
  {
    if x == e then 1 else 0
  }

  /** How many of the stems and branches of `ps` carry element `e`. */
  function ElementCount(ps: seq<StemBranch>, e: Element): (n: nat)
    ensures n <= 2 * |ps|
  {
    if ps == [] then 0
    else
      var last := ps[|ps| - 1];
      ElementCount(ps[..|ps| - 1], e) + Occurs(StemToElement(last.stem), e) + Occurs(BranchToElement(last.branch), e)
  }

  /** The counts of a chart, one entry per element. */
  function ElementCounts(fp: FourPillars): (counts: map<Element, int>)
    ensures IsCountTable(counts)
    ensures forall e :: counts[e] == ElementCount(PillarList(fp), e)
  {
    EveryElementListed();
    map e: Element | e in FiveElements :: ElementCount(PillarList(fp), e)
  }

  /** Every stem and every branch is counted exactly once. */
  lemma {:induction false} ElementCountsSum(ps: seq<StemBranch>)
    ensures ElementCount(ps, Wood) + ElementCount(ps, Fire) + ElementCount(ps, Earth)
      + ElementCount(ps, Metal) + ElementCount(ps, Water) == 2 * |ps|
  {
    if ps != [] {
      ElementCountsSum(ps[..|ps| - 1]);
    }
  }

  /** Each chart's counts add up to eight, and none exceeds eight. */
  lemma ChartCountsSumToEight(fp: FourPillars)
    ensures TotalCount(ElementCounts(fp)) == 8
    ensures forall e :: 0 <= ElementCounts(fp)[e] <= 8
  {
    EveryElementListed();
    ElementCountsSum(PillarList(fp));
  }

  /** Counting one more pillar adds its stem's and its branch's element. */
  lemma CountStep(ps: seq<StemBranch>, i: nat)
    requires i < |ps|
    ensures forall e :: ElementCount(ps[..i + 1], e) ==
                        ElementCount(ps[..i], e) + Occurs(StemToElement(ps[i].stem), e)
                        + Occurs(BranchToElement(ps[i].branch), e)
  {
    assert ps[..i + 1][..i] == ps[..i];
  }

  /**
   * The source's `elementCounts` table: all five elements start at zero,
   * then each pillar adds one for its stem's element and one for its
   * branch's element.
   */
  method TallyElements(fp: FourPillars) returns (counts: map<Element, int>)
    ensures IsCountTable(counts)
    ensures forall e :: counts[e] == ElementCount(PillarList(fp), e)
    ensures counts == ElementCounts(fp)
    ensures TotalCount(counts) == 8
    ensures forall e :: 0 <= counts[e] <= 8
  {
    counts := map[Wood := 0, Fire := 0, Earth := 0, Metal := 0, Water := 0];
    forall e: Element ensures e in counts {
      assert e == FiveElements[ElementIndex(e)];
    }
    var pillars := PillarList(fp);
    var i := 0;
    while i < |pillars|
      invariant 0 <= i <= |pillars|
      invariant IsCountTable(counts)
      invariant forall e :: counts[e] == ElementCount(pillars[..i], e)
    {
      var pillar := pillars[i];
      var stemElement := StemToElement(pillar.stem);
      var branchElement := BranchToElement(pillar.branch);
      counts := counts[stemElement := counts[stemElement] + 1];
      counts := counts[branchElement := counts[branchElement] + 1];
      CountStep(pillars, i);
      i := i + 1;
    }
    assert pillars[..i] == pillars;
    ElementCountsSum(pillars);
  }
}
