/** Concrete collections on which the queries' answers are worked out in full. */
module AnalyzerExamples {
  import opened Wrappers
  import opened Streams
  import opened StableSort
  import opened JavaText
  import opened Volcanoes
  import opened VolcanoAnalyzer

  function Eruption(name: string, country: string, volcanoType: string, deaths: string, tsu: string, agent: string): Volcano {
    Volcano(name, country, volcanoType, 1900, 3, 10.0, 1000.0, deaths, tsu, agent)
  }

  /** One tsunami among four records is 25 percent. */
  lemma TsunamiQuarter()
    ensures CausedTsunami([
      Eruption("A", "Japan", "Caldera", "", "tsu", ""),
      Eruption("B", "Japan", "Caldera", "", "", ""),
      Eruption("C", "Japan", "Caldera", "", "", ""),
      Eruption("D", "Japan", "Caldera", "", "", "")]) == Success(25)
  {
  }

  /** An empty collection is a division by zero, not 0 percent. */
  lemma TsunamiEmpty()
    ensures CausedTsunami([]) == Failure(DivisionByZero)
  {
  }

  /** Country matching is exact: "Japanese Empire" does not count as "Japan". */
  lemma CountryExactMatch()
    ensures EruptionsByCountry([
      Eruption("A", "Japan", "Caldera", "", "", ""),
      Eruption("B", "Japanese Empire", "Caldera", "", "", ""),
      Eruption("C", "Japan", "Caldera", "", "", "")], "Japan") == 2
  {
    var vs := [
      Eruption("A", "Japan", "Caldera", "", "", ""),
      Eruption("B", "Japanese Empire", "Caldera", "", "", ""),
      Eruption("C", "Japan", "Caldera", "", "", "")];
    assert "Japanese Empire" != "Japan" by { assert |"Japanese Empire"| != |"Japan"|; }
    assert Map(vs, CountryOf) == ["Japan", "Japanese Empire", "Japan"];
  }

  /** A type with three records beats one with two, whatever the records are. */
  lemma ThreeBeatTwo(vs: seq<Volcano>, x: string, y: string)
    requires x != y && Types(vs) == [x, y, x, y, x]
    ensures MostCommonType(vs) == Success(x)
  {
    assert multiset(Types(vs))[x] == 3 && multiset(Types(vs))[y] == 2;
    assert vs[0].volcanoType == x;
    var r := MostCommonType(vs);
    var v :| v in vs && v.volcanoType == r.value;
    MapMembership(vs, TypeOf, r.value);
    assert r.value in [x, y, x, y, x];
  }

  /** Three stratovolcanoes outnumber two calderas. */
  lemma StratovolcanoMostCommon(vs: seq<Volcano>)
    requires vs == [
      Eruption("A", "Japan", "Stratovolcano", "", "", ""),
      Eruption("B", "Japan", "Caldera", "", "", ""),
      Eruption("C", "Japan", "Stratovolcano", "", "", ""),
      Eruption("D", "Japan", "Caldera", "", "", ""),
      Eruption("E", "Japan", "Stratovolcano", "", "", "")]
    ensures MostCommonType(vs) == Success("Stratovolcano")
  {
    assert "Caldera" != "Stratovolcano" by { assert "Caldera"[0] != "Stratovolcano"[0]; }
    assert Types(vs) == ["Stratovolcano", "Caldera", "Stratovolcano", "Caldera", "Stratovolcano"];
    ThreeBeatTwo(vs, "Stratovolcano", "Caldera");
  }

  /** "100" deaths beat an empty field, which counts as none. */
  lemma HundredBeatsUnknown(vs: seq<Volcano>)
    requires vs == [
      Eruption("A", "Japan", "Caldera", "", "", ""),
      Eruption("B", "Japan", "Caldera", "100", "", "")]
    ensures DeathsComparable(vs) && MostDeadly(vs) == Some(vs[1])
  {
    assert vs[1].deaths == DecimalString(100);
    DeathsOfPrinted(vs[1], 100);
    ParseDecimalString(100);
  }

  /** Split keeps leading and interior empty pieces and drops trailing ones. */
  lemma SplitTwoTokens()
    ensures Split("Ash,Lava", ',') == ["Ash", "Lava"]
  {
    assert "Ash,Lava" == Join(["Ash", "Lava"], ',');
    PiecesJoin(["Ash", "Lava"], ',');
  }

  lemma SplitKeepsLeadingEmpty()
    ensures Split(",Ash", ',') == ["", "Ash"]
  {
    assert ",Ash" == Join(["", "Ash"], ',');
    PiecesJoin(["", "Ash"], ',');
  }

  lemma SplitKeepsInteriorEmpty()
    ensures Split("Ash,,Lava", ',') == ["Ash", "", "Lava"]
  {
    assert "Ash,,Lava" == Join(["Ash", "", "Lava"], ',');
    PiecesJoin(["Ash", "", "Lava"], ',');
  }

  /** "x,y,," splits into x and y, for any tokens x and y without a comma. */
  lemma SplitDropsTrailingEmpty(x: string, y: string)
    requires x != "" && y != "" && ',' !in x && ',' !in y
    ensures Split(x + [','] + y + [','] + [','], ',') == [x, y]
  {
    var s := x + [','] + y + [','] + [','];
    var ps := [x, y, "", ""];
    assert Join(ps[2..], ',') == [','] by {
      assert ps[2..] == ["", ""] && ["", ""][1..] == [""];
    }
    assert Join(ps[1..], ',') == y + [','] + [','] by {
      assert ps[1..][0] == y && ps[1..][1..] == ps[2..];
    }
    assert s == Join(ps, ',');
    assert s[|x|] == ',';
    PiecesJoin(ps, ',');
    assert ps[..3] == [x, y, ""] && ps[..3][..2] == [x, y];
  }

  lemma SplitOnlySeparator()
    ensures Split(",", ',') == []
  {
    assert "," == Join(["", ""], ',');
    PiecesJoin(["", ""], ',');
    assert ["", ""][..1] == [""];
  }

  /**
   * With a repeated name, highVEI lists the names of the kept records in list
   * order: the VEI 3 record's name is not counted, the VEI 7 one's is.
   */
  lemma RepeatedNameHighVEI(a: Volcano, b: Volcano, c: Volcano)
    requires a.vei == 3 && b.vei == 7 && c.vei == 7
    ensures HighVEI([a, b, c]) == [b.name, c.name]
  {
    var vs := [a, b, c];
    assert Filter(vs, VEIAtLeast(6)) == [b, c] by {
      assert vs[1..] == [b, c] && [b, c][1..] == [c] && [c][1..] == [];
    }
  }

  lemma SortedThree(a: Volcano, b: Volcano, c: Volcano)
    requires Deaths(a) > Deaths(b) > Deaths(c)
    ensures SortDescending([a, b, c], Deaths) == [a, b, c]
  {
    assert SortedDescending([a, b, c], Deaths);
    SortOfSorted([a, b, c], Deaths);
  }

  lemma DistinctOfRepeat(x: string, y: string)
    requires x != y
    ensures Distinct([x, y, x]) == [x, y]
  {
    assert [x, y, x][..2] == [x, y] && [x, y][..1] == [x] && [x][..0] == [];
    assert Distinct([x]) == [x];
    assert Distinct([x, y]) == [x, y];
  }

  lemma FlattenThree(p: seq<string>, q: seq<string>, r: seq<string>)
    ensures Flatten([p, q, r]) == p + q + r
  {
    assert Flatten([r]) == r + Flatten([]);
    assert Flatten([q, r]) == q + Flatten([r]);
    assert [p, q, r][1..] == [q, r] && [q, r][1..] == [r] && [r][1..] == [];
  }

  lemma AgentsOfThree(top: seq<Volcano>, x: string, y: string)
    requires |top| == 3 && x != y
    requires AgentTokens(top[0].agent) == [x, y] && AgentTokens(top[1].agent) == [x]
    requires AgentTokens(top[2].agent) == []
    ensures Distinct(Flatten(Map(top, AgentTokensOf))) == [x, y]
  {
    var tokens := Map(top, AgentTokensOf);
    assert tokens == [[x, y], [x], []];
    FlattenThree([x, y], [x], []);
    assert [x, y] + [x] + [] == [x, y, x];
    DistinctOfRepeat(x, y);
  }

  lemma TopRankedOfThree(a: Volcano, b: Volcano, c: Volcano)
    requires DeathsComparable([a, b, c])
    requires Deaths(a) > Deaths(b) > Deaths(c)
    ensures TopRanked([a, b, c]) == [a, b, c]
  {
    SortedThree(a, b, c);
  }

  /**
   * Three records already in descending order of deaths, with agents
   * "x,y", "x" and none, give the agents x then y.
   */
  lemma RankedAgentsOfThree(a: Volcano, b: Volcano, c: Volcano, x: string, y: string)
    requires DeathsComparable([a, b, c])
    requires Deaths(a) > Deaths(b) > Deaths(c)
    requires AgentTokens(a.agent) == [x, y] && AgentTokens(b.agent) == [x] && AgentTokens(c.agent) == []
    requires x != y
    ensures TopAgentsOfDeath([a, b, c]) == [x, y]
  {
    var vs := [a, b, c];
    TopRankedOfThree(a, b, c);
    AgentsOfThree(vs, x, y);
  }

  /** A deaths field printed from `n` is valid and worth `n`. */
  lemma PrintedDeathsValid(v: Volcano, n: nat)
    requires n <= MaxInt && v.deaths == DecimalString(n)
    ensures ValidDeaths(v.deaths) && Deaths(v) == n
  {
    DeathsOfPrinted(v, n);
    ParseDecimalString(n);
  }

  lemma ExampleDeaths(a: Volcano, b: Volcano, c: Volcano)
    requires a.deaths == "500" && b.deaths == "300" && c.deaths == "100"
    ensures AllDeathsValid([a, b, c])
    ensures Deaths(a) == 500 && Deaths(b) == 300 && Deaths(c) == 100
  {
    assert a.deaths == DecimalString(500);
    assert b.deaths == DecimalString(300);
    assert c.deaths == DecimalString(100);
    PrintedDeathsValid(a, 500);
    PrintedDeathsValid(b, 300);
    PrintedDeathsValid(c, 100);
    assert forall v :: v in [a, b, c] ==> v == a || v == b || v == c;
  }

  lemma ExampleAgents(a: Volcano, b: Volcano, c: Volcano)
    requires a.agent == "Ash,Lava" && b.agent == "Ash" && c.agent == ""
    ensures AgentTokens(a.agent) == ["Ash", "Lava"] && AgentTokens(b.agent) == ["Ash"]
    ensures AgentTokens(c.agent) == []
  {
    SplitTwoTokens();
    assert ',' !in "Ash";
  }

  /**
   * Deaths 500, 300 and 100 with agents "Ash,Lava", "Ash" and "" give the
   * agents "Ash" then "Lava", whatever the other fields hold.
   */
  lemma TopAgentsExample(a: Volcano, b: Volcano, c: Volcano)
    requires a.deaths == "500" && a.agent == "Ash,Lava"
    requires b.deaths == "300" && b.agent == "Ash"
    requires c.deaths == "100" && c.agent == ""
    ensures DeathsComparable([a, b, c]) && TopAgentsOfDeath([a, b, c]) == ["Ash", "Lava"]
  {
    ExampleDeaths(a, b, c);
    ExampleAgents(a, b, c);
    assert "Ash" != "Lava" by { assert "Ash"[0] != "Lava"[0]; }
    RankedAgentsOfThree(a, b, c, "Ash", "Lava");
  }
}
