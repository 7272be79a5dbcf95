/**
 * The cycle tables of the four-pillars engine: the ten heavenly stems, the
 * twelve earthly branches, the five elements, and the element of each stem and
 * branch.
 *
 * A stem or branch is represented by its position in its cycle.  The source
 * keeps the symbols themselves and recovers the position with `indexOf`; the
 * symbol tables below are kept too, and `IndexOfSymbol` shows that `indexOf`
 * on the table inverts the table lookup, so the two representations agree.
 */
module Cycles {

  /** Position of a heavenly stem: 0 = 甲 ... 9 = 癸. */
  type Stem = i: int | 0 <= i < 10

  /** Position of an earthly branch: 0 = 子 ... 11 = 亥. */
  type Branch = i: int | 0 <= i < 12

  datatype Element = Wood | Fire | Earth | Metal | Water

  const HeavenlyStems: string := "甲乙丙丁戊己庚辛壬癸"
  const EarthlyBranches: string := "子丑寅卯辰巳午未申酉戌亥"

  /** The five elements in their canonical order 木 火 土 金 水. */
  const FiveElements: seq<Element> := [Wood, Fire, Earth, Metal, Water]

  function ElementIndex(e: Element): (i: nat)
    ensures i < 5 && FiveElements[i] == e
  {
    match e
    case Wood => 0
    case Fire => 1
    case Earth => 2
    case Metal => 3
    case Water => 4
  }

  lemma EveryElementListed()
    ensures forall e: Element :: e in FiveElements
  {
    forall e: Element ensures e in FiveElements {
      assert FiveElements[ElementIndex(e)] == e;
    }
  }

  function ElementSymbol(e: Element): char
  {
    match e
    case Wood => '木'
    case Fire => '火'
    case Earth => '土'
    case Metal => '金'
    case Water => '水'
  }

  function StemSymbol(s: Stem): char
  {
    HeavenlyStems[s]
  }

  function BranchSymbol(b: Branch): char
  {
    EarthlyBranches[b]
  }

  /** `Array.prototype.indexOf`: the first position holding `x`, or -1. */
  function IndexOf<T(==)>(xs: seq<T>, x: T): (r: int)
    ensures -1 <= r < |xs|
    ensures r == -1 <==> x !in xs
    ensures 0 <= r ==> xs[r] == x && x !in xs[..r]
  {
    if xs == [] then -1
    else if xs[0] == x then 0
    else
      var k := IndexOf(xs[1..], x);
      assert xs[1..] == xs[1..][..|xs| - 1];
      if k == -1 then -1
      else
        assert xs[..k + 1] == [xs[0]] + xs[1..][..k];
        k + 1
  }

  predicate Distinct<T(==)>(xs: seq<T>)
  {
    forall i, j :: 0 <= i < j < |xs| ==> xs[i] != xs[j]
  }

  /** In a table without repeated symbols, `indexOf` inverts the lookup. */
  lemma IndexOfSymbol<T>(xs: seq<T>, i: int)
    requires Distinct(xs) && 0 <= i < |xs|
    ensures IndexOf(xs, xs[i]) == i
  {
    var r := IndexOf(xs, xs[i]);
    assert xs[r] == xs[i];
  }

  lemma SymbolTablesDistinct()
    ensures |HeavenlyStems| == 10 && Distinct(HeavenlyStems)
    ensures |EarthlyBranches| == 12 && Distinct(EarthlyBranches)
    ensures Distinct(FiveElements)
  {
  }

  /** `HEAVENLY_STEMS.indexOf(stem)` recovers the stem's position. */
  lemma StemIndexOfSymbol(s: Stem)
    ensures IndexOf(HeavenlyStems, StemSymbol(s)) == s
  {
    SymbolTablesDistinct();
    IndexOfSymbol(HeavenlyStems, s);
  }

  /** `EARTHLY_BRANCHES.indexOf(branch)` recovers the branch's position. */
  lemma BranchIndexOfSymbol(b: Branch)
    ensures IndexOf(EarthlyBranches, BranchSymbol(b)) == b
  {
    SymbolTablesDistinct();
    IndexOfSymbol(EarthlyBranches, b);
  }

  /** The stems come in pairs, one pair per element in canonical order. */
  function StemToElement(s: Stem): (e: Element)
    ensures ElementIndex(e) == s / 2
  {
    if s == 0 || s == 1 then Wood
    else if s == 2 || s == 3 then Fire
    else if s == 4 || s == 5 then Earth
    else if s == 6 || s == 7 then Metal
    else Water
  }

  /**
   * The branches fall into four seasons of three, starting at 亥; the last
   * branch of every season is Earth and the other two carry the season's
   * element (winter Water, spring Wood, summer Fire, autumn Metal).
   */
  function BranchToElement(b: Branch): (e: Element)
    ensures b % 3 == 1 <==> e == Earth
    ensures b % 3 != 1 ==> e == [Water, Wood, Fire, Metal][((b + 1) % 12) / 3]
  {
    if b == 0 || b == 11 then Water
    else if b == 1 || b == 4 || b == 7 || b == 10 then Earth
    else if b == 2 || b == 3 then Wood
    else if b == 5 || b == 6 then Fire
    else Metal
  }

  /** How many of the first `n` branches carry element `e`. */
  function BranchCount(e: Element, n: nat): (c: nat)
    requires n <= 12
    ensures c <= n
  {
    if n == 0 then 0
    else BranchCount(e, n - 1) + (if BranchToElement(n - 1) == e then 1 else 0)
  }

  /** Earth is carried by four branches, every other element by two. */
  lemma BranchElementShares()
    ensures BranchCount(Earth, 12) == 4
    ensures BranchCount(Wood, 12) == 2 && BranchCount(Fire, 12) == 2
    ensures BranchCount(Metal, 12) == 2 && BranchCount(Water, 12) == 2
  {
    assert BranchCount(Earth, 6) == 2 && BranchCount(Wood, 6) == 2 && BranchCount(Fire, 6) == 1;
    assert BranchCount(Metal, 6) == 0 && BranchCount(Water, 6) == 1;
  }

  /** A count for each of the five elements, as in a `Record<FiveElement, number>`. */
  predicate IsCountTable(counts: map<Element, int>)
  {
    forall e: Element :: e in counts
  }

  /** The sum of the five counts. */
  function TotalCount(counts: map<Element, int>): int
    requires IsCountTable(counts)
  {
    counts[Wood] + counts[Fire] + counts[Earth] + counts[Metal] + counts[Water]
  }

  /** The remainder of JavaScript's `%`: it takes the sign of the dividend. */
  function JsRem(a: int, n: int): (r: int)
    requires n > 0
    ensures -n < r < n
    ensures a >= 0 ==> r == a % n
  {
    if a >= 0 then a % n else -((-a) % n)
  }

  /**
   * The source's normalisation `((x % n) + n) % n` with JavaScript's `%`;
   * it is the floored modulo, which is Dafny's `%` for a positive divisor.
   */
  function CycleIndex(x: int, n: int): (r: int)
    requires n > 0
    ensures 0 <= r < n && r == x % n
  {
    var t := JsRem(x, n);
    assert JsRem(t, n) + n >= 0;
    JsRemNormalizes(x, n);
    JsRem(JsRem(t, n) + n, n)
  }

  lemma JsRemNormalizes(x: int, n: int)
    requires n > 0
    ensures (JsRem(JsRem(x, n), n) + n) % n == x % n
  {
    var t := JsRem(x, n);
    if x >= 0 {
      assert JsRem(t, n) == t;
      ModUnique(t + n, n, 1, t);
    } else {
      var q, rem := (-x) / n, (-x) % n;
      assert t == -rem;
      assert JsRem(t, n) == t by {
        if rem > 0 {
          ModUnique(rem, n, 0, rem);
        }
      }
      if rem == 0 {
        ModUnique(x, n, -q, 0);
        ModUnique(t + n, n, 1, 0);
      } else {
        ModUnique(x, n, -q - 1, n - rem);
        ModUnique(t + n, n, 0, n - rem);
      }
    }
  }

  /** Euclidean division has exactly one quotient and remainder. */
  lemma ModUnique(x: int, n: int, q: int, r: int)
    requires n > 0 && x == q * n + r && 0 <= r < n
    ensures x % n == r && x / n == q
  {
    var q0, r0 := x / n, x % n;
    var k := q - q0;
    assert k * n == r0 - r;
  }

  /** Reducing the left summand first does not change the remainder. */
  lemma ModAddLeft(x: int, y: int, n: int)
    requires n > 0
    ensures (x % n + y) % n == (x + y) % n
  {
    var q, r := (x + y) / n, (x + y) % n;
    ModUnique(x % n + y, n, q - x / n, r);
  }

  /** An even modulus keeps the parity of the dividend. */
  lemma ParityOfRemainder(x: int, n: int)
    requires n > 0 && n % 2 == 0
    ensures (x % n) % 2 == x % 2
  {
    var q, r, h := x / n, x % n, n / 2;
    assert n == 2 * h;
    assert x == 2 * (q * h + r / 2) + r % 2;
    ModUnique(x, 2, q * h + r / 2, r % 2);
  }
}
