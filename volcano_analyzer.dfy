/**
 * The query layer of VolcanoAnalyzer: read-only questions about one ordered
 * sequence of eruption records, each a filter/map/count/max/group/distinct/
 * sort pipeline over that sequence.
 */
module VolcanoAnalyzer {
  import opened Wrappers
  import opened Streams
  import opened StableSort
  import opened JavaText
  import opened Volcanoes

  /** The unchecked faults the Java code raises on an empty collection. */
  datatype QueryError =
    | DivisionByZero  // ArithmeticException from a long division by size() == 0
    | NoSuchElement   // NoSuchElementException from Optional.get() on an empty max

  /** numbVolcanoes: the size of the collection. */
  function NumbVolcanoes(vs: seq<Volcano>): (n: nat)
    ensures n == |multiset(vs)|
    ensures n == 0 <==> vs == []
  {
    |vs|
  }

  function Names(vs: seq<Volcano>): seq<string> {
    Map(vs, NameOf)
  }

  function Types(vs: seq<Volcano>): seq<string> {
    Map(vs, TypeOf)
  }

  // ---------------------------------------------------------------- eruptedInEighties

  predicate InEighties(v: Volcano) {
    1980 <= v.year < 1990
  }

  /** The records from the 1980s: all of them, nothing else, in collection order. */
  function EruptedInEighties(vs: seq<Volcano>): (r: seq<Volcano>)
    ensures forall v :: v in r <==> v in vs && 1980 <= v.year < 1990
    ensures IsSubsequence(r, vs) && |r| == Count(vs, InEighties)
    ensures |r| <= NumbVolcanoes(vs)
  {
    Filter(vs, InEighties)
  }

  // ---------------------------------------------------------------- highVEI

  function VEIAtLeast(t: int): Volcano -> bool {
    (v: Volcano) => v.vei >= t
  }

  /** Names of the records with VEI at least `t`, in collection order. */
  function NamesWithVEIAtLeast(vs: seq<Volcano>, t: int): (r: seq<string>)
    ensures forall n :: n in r <==> exists v :: v in vs && v.vei >= t && v.name == n
    ensures IsSubsequence(r, Names(vs)) && |r| == Count(vs, VEIAtLeast(t))
    ensures |r| == |Filter(vs, VEIAtLeast(t))|
    ensures forall i :: 0 <= i < |r| ==> r[i] == Filter(vs, VEIAtLeast(t))[i].name
  {
    Select(vs, VEIAtLeast(t), NameOf)
  }

  /** highVEI: names of the records with VEI 6 or more, in collection order. */
  function HighVEI(vs: seq<Volcano>): (r: seq<string>)
    ensures forall n :: n in r <==> exists v :: v in vs && v.vei >= 6 && v.name == n
    ensures IsSubsequence(r, Names(vs)) && |r| == Count(vs, VEIAtLeast(6))
    ensures |r| == |Filter(vs, VEIAtLeast(6))|
    ensures forall i :: 0 <= i < |r| ==> r[i] == Filter(vs, VEIAtLeast(6))[i].name
  {
    NamesWithVEIAtLeast(vs, 6)
  }

  /** Raising the VEI threshold only removes names. */
  lemma HighVEIAntitone(vs: seq<Volcano>, t1: int, t2: int)
    requires t1 <= t2
    ensures IsSubsequence(NamesWithVEIAtLeast(vs, t2), NamesWithVEIAtLeast(vs, t1))
    ensures |NamesWithVEIAtLeast(vs, t2)| <= |NamesWithVEIAtLeast(vs, t1)|
  {
    var p, q := VEIAtLeast(t2), VEIAtLeast(t1);
    FilterWeaker(vs, p, q);
    MapSubsequence(Filter(vs, p), Filter(vs, q), NameOf);
    SubsequenceLength(Map(Filter(vs, p), NameOf), Map(Filter(vs, q), NameOf));
  }

  // ---------------------------------------------------------------- mostDeadly

  /** mostDeadly: the record with the most deaths, None (null) on an empty collection. */
  function MostDeadly(vs: seq<Volcano>): (r: Option<Volcano>)
    requires DeathsComparable(vs)
    ensures r.None? <==> vs == []
    ensures r.Some? ==> r.value in vs && forall v :: v in vs ==> Deaths(v) <= Deaths(r.value)
  {
    if vs == [] then None else Some(MaxBy(vs[0], vs[1..], Deaths))
  }

  /** On ties mostDeadly returns the earliest of the records with the most deaths. */
  lemma MostDeadlyIsFirstMaximum(vs: seq<Volcano>)
    requires DeathsComparable(vs) && vs != []
    ensures MostDeadly(vs).Some?
    ensures exists k :: FirstMaximumAt(vs, Deaths, MostDeadly(vs).value, k)
  {
    assert [vs[0]] + vs[1..] == vs;
    var k := MaxByIsFirst(vs[0], vs[1..], Deaths);
  }

  // ---------------------------------------------------------------- causedTsunami

  predicate HadTsunami(v: Volcano) {
    v.tsu == "tsu"
  }

  lemma TruncatedPercentage(c: nat, n: nat)
    requires 0 < n && c <= n
    ensures 0 <= c * 100 / n <= 100
    ensures (c * 100 / n) * n <= c * 100 < (c * 100 / n + 1) * n
  {
    var q := c * 100 / n;
    assert c * 100 == q * n + c * 100 % n;
  }

  /**
   * causedTsunami: `count * 100 / size` in long arithmetic, a whole number of
   * percent rounded down (the double it is widened to carries no fraction);
   * division by zero on an empty collection.
   */
  function CausedTsunami(vs: seq<Volcano>): (r: Result<int, QueryError>)
    ensures r.Failure? <==> vs == []
    ensures r.Failure? ==> r.error == DivisionByZero
    ensures r.Success? ==> 0 <= r.value <= 100
    ensures r.Success? ==>
      r.value * |vs| <= 100 * Count(vs, HadTsunami) < (r.value + 1) * |vs|
  {
    if vs == [] then Failure(DivisionByZero)
    else
      var tsunamis := |Filter(vs, HadTsunami)|;
      TruncatedPercentage(tsunamis, |vs|);
      Success(tsunamis * 100 / |vs|)
  }

  // ---------------------------------------------------------------- mostCommonType

  /** groupingBy(type, counting()): each type that occurs, with its number of records. */
  function TypeCounts(vs: seq<Volcano>): (m: map<string, nat>)
    ensures forall t :: t in m <==> t in Types(vs)
    ensures forall t :: t in m ==> m[t] == multiset(Types(vs))[t]
  {
    if vs == [] then map[]
    else
      var m := TypeCounts(vs[1..]);
      var t := vs[0].volcanoType;
      assert Types(vs) == [t] + Types(vs[1..]);
      m[t := if t in m then m[t] + 1 else 1]
  }

  /** The count of a key in the grouping map; the entry comparator of Map.Entry.comparingByValue. */
  function CountIn(m: map<string, nat>): string -> nat {
    t => if t in m then m[t] else 0
  }

  /** Whatever order the entries are visited in, the maximum by count is a most common type. */
  lemma MaxByCountIsMostCommon(vs: seq<Volcano>, keys: seq<string>)
    requires keys != [] && forall t :: t in keys <==> t in Types(vs)
    ensures MaxBy(keys[0], keys[1..], CountIn(TypeCounts(vs))) in Types(vs)
    ensures forall v :: v in vs ==>
      multiset(Types(vs))[v.volcanoType]
        <= multiset(Types(vs))[MaxBy(keys[0], keys[1..], CountIn(TypeCounts(vs)))]
  {
    var m := TypeCounts(vs);
    var count := CountIn(m);
    var r := MaxBy(keys[0], keys[1..], count);
    assert r in keys;
    assert count(r) == m[r] == multiset(Types(vs))[r];
    forall v | v in vs
      ensures multiset(Types(vs))[v.volcanoType] <= multiset(Types(vs))[r]
    {
      var t := v.volcanoType;
      MapMembership(vs, TypeOf, t);
      assert t in keys;
      var i :| 0 <= i < |keys| && keys[i] == t;
      if i > 0 {
        assert keys[1..][i - 1] == t;
      }
      assert count(t) <= count(r);
      assert count(t) == m[t] == multiset(Types(vs))[t];
    }
  }

  /**
   * mostCommonType: a type no other type outnumbers; NoSuchElement on an
   * empty collection. The HashMap's entry order decides among tied types in
   * Java; here the entries are visited in first-seen order.
   */
  function MostCommonType(vs: seq<Volcano>): (r: Result<string, QueryError>)
    ensures r.Failure? <==> vs == []
    ensures r.Failure? ==> r.error == NoSuchElement
    ensures r.Success? ==> exists v :: v in vs && v.volcanoType == r.value
    ensures r.Success? ==>
      forall v :: v in vs ==> multiset(Types(vs))[v.volcanoType] <= multiset(Types(vs))[r.value]
  {
    if vs == [] then Failure(NoSuchElement)
    else
      var keys := VolcanoTypes(vs);
      assert Types(vs)[0] in keys;
      MaxByCountIsMostCommon(vs, keys);
      var r := MaxBy(keys[0], keys[1..], CountIn(TypeCounts(vs)));
      MapMembership(vs, TypeOf, r);
      Success(r)
  }

  // ---------------------------------------------------------------- eruptionsByCountry

  function CountryIs(c: string): Volcano -> bool {
    (v: Volcano) => v.country == c
  }

  lemma {:induction false} CountryCount(vs: seq<Volcano>, c: string)
    ensures |Filter(vs, CountryIs(c))| == multiset(Map(vs, CountryOf))[c]
  {
    if vs != [] {
      CountryCount(vs[1..], c);
      assert Map(vs, CountryOf) == [vs[0].country] + Map(vs[1..], CountryOf);
    }
  }

  /**
   * eruptionsByCountry: how many records have exactly `country` as their
   * country (String.equals: no case folding, no substring match).
   */
  function EruptionsByCountry(vs: seq<Volcano>, country: string): (n: nat)
    ensures n == multiset(Map(vs, CountryOf))[country]
    ensures n <= NumbVolcanoes(vs)
  {
    CountryCount(vs, country);
    |Filter(vs, CountryIs(country))|
  }

  // ---------------------------------------------------------------- volcanoTypes

  /** volcanoTypes: every type once, in the order of first appearance. */
  function VolcanoTypes(vs: seq<Volcano>): (r: seq<string>)
    ensures NoDuplicates(r)
    ensures forall t :: t in r <==> t in Types(vs)
    ensures forall t :: t in r <==> exists v :: v in vs && v.volcanoType == t
    ensures forall i, j :: 0 <= i < j < |r| ==> IndexOf(Types(vs), r[i]) < IndexOf(Types(vs), r[j])
  {
    forall t ensures t in Types(vs) <==> exists v :: v in vs && v.volcanoType == t {
      MapMembership(vs, TypeOf, t);
    }
    Distinct(Types(vs))
  }

  // ---------------------------------------------------------------- percentNorth

  predicate InNorth(v: Volcano) {
    v.latitude > 0.0
  }

  /**
   * The numerator of percentNorth: records strictly north of the equator
   * (latitude 0 is not north).
   */
  function NorthernCount(vs: seq<Volcano>): (n: nat)
    ensures n == Count(vs, InNorth) <= |vs|
    ensures n == 0 <==> forall v :: v in vs ==> v.latitude <= 0.0
    ensures n == |vs| <==> forall v :: v in vs ==> v.latitude > 0.0
  {
    var north := Filter(vs, InNorth);
    CountAll(vs, InNorth);
    assert (forall v :: v in vs ==> v.latitude > 0.0) <==> (forall i :: 0 <= i < |vs| ==> InNorth(vs[i]));
    assert |north| == 0 <==> forall v :: v in vs ==> v.latitude <= 0.0 by {
      if |north| > 0 { assert north[0] in north; }
    }
    |north|
  }

  // ---------------------------------------------------------------- manyFilters

  predicate ManyFiltersMatch(v: Volcano) {
    v.year > 1800 && v.tsu == "" && v.latitude < 0.0 && v.vei == 5
  }

  /**
   * manyFilters: names of the records after 1800, without tsunami, south of
   * the equator and of VEI exactly 5, in collection order.
   */
  function ManyFilters(vs: seq<Volcano>): (r: seq<string>)
    ensures forall n :: n in r <==>
      exists v :: v in vs && v.year > 1800 && v.tsu == "" && v.latitude < 0.0 && v.vei == 5 && v.name == n
    ensures IsSubsequence(r, Names(vs)) && |r| == Count(vs, ManyFiltersMatch)
    ensures |r| == |Filter(vs, ManyFiltersMatch)|
    ensures forall i :: 0 <= i < |r| ==> r[i] == Filter(vs, ManyFiltersMatch)[i].name
  {
    Select(vs, ManyFiltersMatch, NameOf)
  }

  // ---------------------------------------------------------------- elevatedVolcanoes

  function ElevationAtLeast(e: int): Volcano -> bool {
    (v: Volcano) => v.elevation >= e as real
  }

  /** elevatedVolcanoes: names of the records at least `elevation` high, in collection order. */
  function ElevatedVolcanoes(vs: seq<Volcano>, elevation: int): (r: seq<string>)
    ensures forall n :: n in r <==> exists v :: v in vs && v.elevation >= elevation as real && v.name == n
    ensures IsSubsequence(r, Names(vs)) && |r| == Count(vs, ElevationAtLeast(elevation))
    ensures |r| == |Filter(vs, ElevationAtLeast(elevation))|
    ensures forall i :: 0 <= i < |r| ==> r[i] == Filter(vs, ElevationAtLeast(elevation))[i].name
  {
    Select(vs, ElevationAtLeast(elevation), NameOf)
  }

  /** A higher threshold only removes names. */
  lemma ElevatedVolcanoesAntitone(vs: seq<Volcano>, e1: int, e2: int)
    requires e1 <= e2
    ensures IsSubsequence(ElevatedVolcanoes(vs, e2), ElevatedVolcanoes(vs, e1))
    ensures |ElevatedVolcanoes(vs, e2)| <= |ElevatedVolcanoes(vs, e1)|
  {
    var p, q := ElevationAtLeast(e2), ElevationAtLeast(e1);
    FilterWeaker(vs, p, q);
    MapSubsequence(Filter(vs, p), Filter(vs, q), NameOf);
    SubsequenceLength(Map(Filter(vs, p), NameOf), Map(Filter(vs, q), NameOf));
  }

  // ---------------------------------------------------------------- topAgentsOfDeath

  /** limit(10) */
  const TopLimit: nat := 10

  /**
   * The first ten records of the stable sort by deaths, largest first: the
   * records with the most deaths, and among equal deaths the earliest ones.
   */
  function TopRanked(vs: seq<Volcano>): (top: seq<Volcano>)
    requires DeathsComparable(vs)
    ensures |top| == if |vs| < TopLimit then |vs| else TopLimit
    ensures multiset(top) <= multiset(vs)
    ensures SortedDescending(top, Deaths)
    ensures forall v, w :: v in top && w in multiset(vs) - multiset(top) ==> Deaths(w) <= Deaths(v)
    ensures forall k: nat :: Filter(top, KeyIs(Deaths, k)) <= Filter(vs, KeyIs(Deaths, k))
  {
    var ranked := SortDescending(vs, Deaths);
    var n := if |ranked| < TopLimit then |ranked| else TopLimit;
    TakeOfSorted(vs, ranked, Deaths, n);
    ranked[..n]
  }

  /** The agent tokens of the records `top`, record after record (flatMap). */
  function TokensOf(top: seq<Volcano>): seq<string> {
    Flatten(Map(top, AgentTokensOf))
  }

  /**
   * The tokens of `top` are those of its records, record after record: the
   * tokens of record i follow directly those of the records before it, and
   * the last record's tokens end the list.
   */
  lemma TokensOfOrder(top: seq<Volcano>)
    ensures forall a :: a in TokensOf(top) <==> exists i :: 0 <= i < |top| && a in AgentTokens(top[i].agent)
    ensures forall i :: 0 <= i < |top| ==> TokensOf(top[..i]) + AgentTokens(top[i].agent) <= TokensOf(top)
    ensures top == [] ==> TokensOf(top) == []
    ensures top != [] ==> TokensOf(top) == TokensOf(top[..|top| - 1]) + AgentTokens(top[|top| - 1].agent)
  {
    var tokens := Map(top, AgentTokensOf);
    assert forall i :: 0 <= i < |top| ==> tokens[i] == AgentTokens(top[i].agent);
    FlattenOrder(tokens);
    forall i | 0 <= i <= |top|
      ensures tokens[..i] == Map(top[..i], AgentTokensOf)
    {
    }
    assert tokens[..|top|] == tokens;
  }

  /** The agent tokens of the ranked records, record after record, in split order. */
  function RankedTokens(vs: seq<Volcano>): (r: seq<string>)
    requires DeathsComparable(vs)
    ensures forall a :: a in r <==>
      exists i :: 0 <= i < |TopRanked(vs)| && a in AgentTokens(TopRanked(vs)[i].agent)
    ensures forall i :: 0 <= i < |TopRanked(vs)| ==>
      TokensOf(TopRanked(vs)[..i]) + AgentTokens(TopRanked(vs)[i].agent) <= r
    ensures TopRanked(vs) == [] ==> r == []
    ensures TopRanked(vs) != [] ==>
      r == TokensOf(TopRanked(vs)[..|TopRanked(vs)| - 1]) + AgentTokens(TopRanked(vs)[|TopRanked(vs)| - 1].agent)
  {
    var top := TopRanked(vs);
    TokensOfOrder(top);
    TokensOf(top)
  }

  /**
   * topAgentsOfDeath: the distinct agent tokens of the ten deadliest records,
   * each once, in order of first appearance along the ranking.
   */
  function TopAgentsOfDeath(vs: seq<Volcano>): (r: seq<string>)
    requires DeathsComparable(vs)
    ensures NoDuplicates(r)
    ensures forall a :: a in r <==>
      exists i :: 0 <= i < |TopRanked(vs)| && a in AgentTokens(TopRanked(vs)[i].agent)
    ensures forall a :: a in r ==> a in RankedTokens(vs)
    ensures forall i, j :: 0 <= i < j < |r| ==>
      IndexOf(RankedTokens(vs), r[i]) < IndexOf(RankedTokens(vs), r[j])
  {
    Distinct(RankedTokens(vs))
  }
}
