/**
 * The per-cell rules of `Terrain.generate` (modules/terrain-generator.js):
 * the thresholds, the first-match classification into codes 1..7, and the
 * wetland and dune refinements.
 */
module TerrainRules {
  import opened Wrappers
  import opened TerrainCodes

  /** `Terrain.defaults()`: orography, wetness and ice thresholds. */
  datatype Options = Options(H1: real, H0: real, S1: real, S0: real, R1: real, R0: real, W1: real, iceTemp: real)

  function Defaults(): Options {
    Options(75.0, 55.0, 10.0, 4.0, 20.0, 10.0, 28.0, -8.0)
  }

  /** What the classifier reads for one cell. */
  datatype CellInputs = CellInputs(h: int, lake: bool, ice: bool, slope: real, relief: real)

  /**
   * The classification loop body: hard overrides (water, lake, ice), then
   * orography, the first rule that applies winning.
   */
  function Classify(x: CellInputs, o: Options): (r: int)
    ensures Ocean <= r <= Plains
  {
    if x.h < LandHeight then Ocean
    else if x.lake then Lake
    else if x.ice then GlacierIce
    else if x.h as real >= o.H1 || (x.slope >= o.S1 && x.relief >= o.R1) then Mountains
    else if x.h as real >= o.H0 || x.relief >= o.R0 then Highlands
    else if x.slope >= o.S0 || x.relief >= o.R0 / 2.0 then Hills
    else Plains
  }

  // ---------------------------------------------------------------------
  // The rule table, as data

  /** The tests of the rule table. */
  datatype Condition = Water | InLake | Frozen | Steep | Elevated | Rolling | Always

  datatype Rule = Rule(cond: Condition, code: int)

  predicate Holds(c: Condition, x: CellInputs, o: Options) {
    match c
    case Water => x.h < LandHeight
    case InLake => x.lake
    case Frozen => x.ice
    case Steep => x.h as real >= o.H1 || (x.slope >= o.S1 && x.relief >= o.R1)
    case Elevated => x.h as real >= o.H0 || x.relief >= o.R0
    case Rolling => x.slope >= o.S0 || x.relief >= o.R0 / 2.0
    case Always => true
  }

  /** The rules in the order the classifier tries them. */
  function RuleTable(): seq<Rule> {
    [Rule(Water, Ocean), Rule(InLake, Lake), Rule(Frozen, GlacierIce), Rule(Steep, Mountains),
     Rule(Elevated, Highlands), Rule(Rolling, Hills), Rule(Always, Plains)]
  }

  /** The code of the first rule whose test holds. */
  function FirstMatch(rules: seq<Rule>, x: CellInputs, o: Options): Option<int> {
    if rules == [] then None
    else if Holds(rules[0].cond, x, o) then Some(rules[0].code)
    else FirstMatch(rules[1..], x, o)
  }

  /** A first match is the code of a rule that holds and after which no earlier rule holds. */
  lemma {:induction false} FirstMatchIsFirst(rules: seq<Rule>, x: CellInputs, o: Options)
    ensures FirstMatch(rules, x, o).None? <==> forall k :: 0 <= k < |rules| ==> !Holds(rules[k].cond, x, o)
    ensures FirstMatch(rules, x, o).Some? ==>
      exists k :: 0 <= k < |rules| && Holds(rules[k].cond, x, o) && rules[k].code == FirstMatch(rules, x, o).value
        && forall m :: 0 <= m < k ==> !Holds(rules[m].cond, x, o)
  {
    if rules != [] && !Holds(rules[0].cond, x, o) {
      FirstMatchIsFirst(rules[1..], x, o);
      if FirstMatch(rules[1..], x, o).Some? {
        var k :| 0 <= k < |rules[1..]| && Holds(rules[1..][k].cond, x, o)
          && rules[1..][k].code == FirstMatch(rules[1..], x, o).value
          && forall m :: 0 <= m < k ==> !Holds(rules[1..][m].cond, x, o);
        assert rules[k + 1] == rules[1..][k];
        forall m | 0 <= m < k + 1 ensures !Holds(rules[m].cond, x, o) {
          if m > 0 {
            assert rules[m] == rules[1..][m - 1];
          }
        }
      } else {
        forall k | 0 <= k < |rules| ensures !Holds(rules[k].cond, x, o) {
          if k > 0 {
            assert rules[k] == rules[1..][k - 1];
          }
        }
      }
    }
  }

  /** The classifier is the first match of the rule table, which always matches. */
  lemma ClassifyIsFirstMatch(x: CellInputs, o: Options)
    ensures FirstMatch(RuleTable(), x, o) == Some(Classify(x, o))
  {
    var t := RuleTable();
    var t1 := [Rule(InLake, Lake), Rule(Frozen, GlacierIce), Rule(Steep, Mountains),
               Rule(Elevated, Highlands), Rule(Rolling, Hills), Rule(Always, Plains)];
    var t2 := [Rule(Frozen, GlacierIce), Rule(Steep, Mountains), Rule(Elevated, Highlands),
               Rule(Rolling, Hills), Rule(Always, Plains)];
    var t3 := [Rule(Steep, Mountains), Rule(Elevated, Highlands), Rule(Rolling, Hills), Rule(Always, Plains)];
    var t4 := [Rule(Elevated, Highlands), Rule(Rolling, Hills), Rule(Always, Plains)];
    var t5 := [Rule(Rolling, Hills), Rule(Always, Plains)];
    var t6 := [Rule(Always, Plains)];
    assert t[1..] == t1 && t1[1..] == t2 && t2[1..] == t3 && t3[1..] == t4 && t4[1..] == t5 && t5[1..] == t6;
    assert FirstMatch(t6, x, o) == Some(Plains);
    assert FirstMatch(t5, x, o) == if Holds(Rolling, x, o) then Some(Hills) else Some(Plains);
    assert FirstMatch(t4, x, o) == if Holds(Elevated, x, o) then Some(Highlands) else FirstMatch(t5, x, o);
    assert FirstMatch(t3, x, o) == if Holds(Steep, x, o) then Some(Mountains) else FirstMatch(t4, x, o);
    assert FirstMatch(t2, x, o) == if x.ice then Some(GlacierIce) else FirstMatch(t3, x, o);
    assert FirstMatch(t1, x, o) == if x.lake then Some(Lake) else FirstMatch(t2, x, o);
  }

  /** Water wins over every other input; a land cell is never classified as ocean. */
  lemma ClassifyWater(x: CellInputs, o: Options)
    ensures Classify(x, o) == Ocean <==> x.h < LandHeight
    ensures x.h >= LandHeight && x.lake ==> Classify(x, o) == Lake
    ensures x.h >= LandHeight && !x.lake && x.ice ==> Classify(x, o) == GlacierIce
  {
  }

  // ---------------------------------------------------------------------
  // Refinements

  /** The wetland pass: plains, hills and highlands with a hydric index of at least `W1` become wetland. */
  function WetlandRefine(code: int, hydric: real, o: Options): (r: int)
    ensures r == code || r == Wetland
    ensures r != code <==> (code == Plains || code == Hills || code == Highlands) && hydric >= o.W1
  {
    if (code == Plains || code == Hills || code == Highlands) && hydric >= o.W1 then Wetland else code
  }

  /** The dune pass: flat plains and highlands in a desert biome (1 or 2) become dunes. */
  function DuneRefine(code: int, biome: int, slope: real, o: Options): (r: int)
    ensures r == code || r == Dunes
    ensures r != code <==> (code == Plains || code == Highlands) && (biome == 1 || biome == 2) && slope < o.S0
  {
    if (code == Plains || code == Highlands) && (biome == 1 || biome == 2) && slope < o.S0 then Dunes else code
  }
}
