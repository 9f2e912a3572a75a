/** The eruption record and the per-record conversions the queries share. */
module Volcanoes {
  import opened JavaText

  /** One eruption, as the loader hands it over (the `type` field is `volcanoType` here). */
  datatype Volcano = Volcano(
    name: string,
    country: string,
    volcanoType: string,
    year: int,
    vei: int,
    latitude: real,
    elevation: real,
    deaths: string,
    tsu: string,
    agent: string)

  function NameOf(v: Volcano): string { v.name }

  function CountryOf(v: Volcano): string { v.country }

  function TypeOf(v: Volcano): string { v.volcanoType }

  /**
   * A deaths field Integer.parseInt accepts once "" is replaced by "0":
   * empty, or decimal digits whose value fits in an int.
   */
  predicate ValidDeaths(d: string) {
    d == "" || (IsDecimal(d) && ParseDecimal(d) <= MaxInt)
  }

  predicate AllDeathsValid(vs: seq<Volcano>) {
    forall v :: v in vs ==> ValidDeaths(v.deaths)
  }

  /**
   * What the deaths comparator of mostDeadly and topAgentsOfDeath needs:
   * with two or more records every record is compared, so every deaths
   * field is parsed; with fewer the comparator is never called.
   */
  predicate DeathsComparable(vs: seq<Volcano>) {
    |vs| < 2 || AllDeathsValid(vs)
  }

  /** `Integer.parseInt(deaths.isEmpty() ? "0" : deaths)`. */
  function Deaths(v: Volcano): (n: nat)
    ensures v.deaths == "" ==> n == 0
    ensures ValidDeaths(v.deaths) ==> n <= MaxInt
  {
    assert "0"[..0] == [];
    ParseDecimal(if v.deaths == "" then "0" else v.deaths)
  }

  /** A record whose deaths field is the printed form of `n` has `n` deaths. */
  lemma DeathsOfPrinted(v: Volcano, n: nat)
    requires v.deaths == DecimalString(n)
    ensures Deaths(v) == n
  {
    ParseDecimalString(n);
  }

  /** `agent.isEmpty() ? new String[0] : agent.split(",")`. */
  function AgentTokens(agent: string): (r: seq<string>)
    ensures agent == "" ==> r == []
    ensures agent != "" && ',' !in agent ==> r == [agent]
    ensures ',' in agent ==> r <= Pieces(agent, ',') && (r == [] || r[|r| - 1] != "")
    ensures ',' in agent ==> forall i :: |r| <= i < |Pieces(agent, ',')| ==> Pieces(agent, ',')[i] == ""
    ensures forall i :: 0 <= i < |r| ==> ',' !in r[i] && r[i] in Pieces(agent, ',')
  {
    if agent == "" then []
    else
      assert ',' !in agent ==> Pieces(agent, ',') == [agent] by {
        if ',' !in agent { PiecesWithoutSeparator(agent, ','); }
      }
      Split(agent, ',')
  }

  function AgentTokensOf(v: Volcano): seq<string> { AgentTokens(v.agent) }
}
