/** The experiment-configuration generator: six EDA runs per problem, at
    three population sizes and two restart thresholds each. */
module ExperimentConfigs {

  /** One run of the EDA, as the JSON object the generator writes. */
  datatype Config = Config(
    problemName: string,
    problemSize: int,
    populationSize: int,
    selectionSize: int,
    offspringSize: int,
    nIter: int,
    selectionFunction: string,
    restartAfterCentralFix: int,
    seed: int,
    series: string)

  const FixedSeed: int := 42
  const Iterations: int := 100_000
  const Restarts: seq<int> := [100, 250]
  const Letters: seq<string> := ["A", "B", "C", "D", "E", "F", "G", "H", "I", "J"]

  function Pow10(e: nat): (p: nat)
    ensures p >= 1
  {
    if e == 0 then 1 else 10 * Pow10(e - 1)
  }

  /** `generate_config`: every argument is copied into its field, except
      `seed`, which is ignored in favour of 42. */
  function GenerateConfig(problemName: string, problemSize: int, populationSize: int, selectionSize: int,
                          offspringSize: int, nIter: int, restartAfterCentralFix: int, seed: int,
                          series: string, selectionFunction: string := "top_k_selection"): (c: Config)
    ensures c.seed == FixedSeed
    ensures c.problemName == problemName && c.problemSize == problemSize && c.series == series
    ensures c.populationSize == populationSize && c.selectionSize == selectionSize
    ensures c.offspringSize == offspringSize && c.nIter == nIter
    ensures c.restartAfterCentralFix == restartAfterCentralFix && c.selectionFunction == selectionFunction
  {
    Config(problemName, problemSize, populationSize, selectionSize, offspringSize, nIter,
           selectionFunction, restartAfterCentralFix, 42, series)
  }

  /** The seed argument has no effect on the configuration. */
  lemma SeedIgnored(problemName: string, problemSize: int, populationSize: int, selectionSize: int,
                    offspringSize: int, nIter: int, restart: int, s1: int, s2: int, series: string)
    ensures GenerateConfig(problemName, problemSize, populationSize, selectionSize, offspringSize, nIter, restart, s1, series)
         == GenerateConfig(problemName, problemSize, populationSize, selectionSize, offspringSize, nIter, restart, s2, series)
  {
  }

  /** What the `k`-th configuration of an experiment holds: population
      `size * 10^(k/2 + 1)`, the first and second restart threshold in
      turn, series letter `k` of the alphabet. */
  predicate IsExperimentConfig(problemName: string, problemSize: int, k: nat, c: Config)
    requires k < 6
  {
    && c.problemName == problemName
    && c.problemSize == problemSize
    && c.populationSize == problemSize * Pow10(k / 2 + 1)
    && c.selectionSize == problemSize * Pow10(k / 2)
    && c.selectionSize == FloorDiv10(c.populationSize)
    && c.offspringSize == c.populationSize - 1
    && c.nIter == Iterations
    && c.selectionFunction == "top_k_selection"
    && c.restartAfterCentralFix == (if k % 2 == 0 then 100 else 250)
    && c.seed == FixedSeed
    && c.series == Letters[k]
  }

  /** `population_size // 10` with Python's floor division: the divisor is
      positive, where it agrees with Dafny's `/`. */
  function FloorDiv10(x: int): int {
    x / 10
  }

  /** `generate_experiment(problem_name, problem_size)`, loop for loop. */
  method GenerateExperiment(problemName: string, problemSize: int) returns (configs: seq<Config>)
    ensures |configs| == 6
    ensures forall k :: 0 <= k < 6 ==> IsExperimentConfig(problemName, problemSize, k, configs[k])
    ensures forall k :: 0 <= k < 6 ==> configs[k].offspringSize + 1 == configs[k].populationSize
    ensures forall k :: 0 <= k < 6 ==> configs[k].selectionSize == FloorDiv10(configs[k].populationSize)
  {
    configs := [];
    for i := 0 to 3
      invariant |configs| == 2 * i
      invariant forall k :: 0 <= k < 2 * i ==> IsExperimentConfig(problemName, problemSize, k, configs[k])
    {
      var populationSize := problemSize * Pow10(i + 1);
      var selectionSize := FloorDiv10(populationSize);
      var offspringSize := populationSize - 1;
      for j := 0 to |Restarts|
        invariant |configs| == 2 * i + j
        invariant forall k :: 0 <= k < 2 * i + j ==> IsExperimentConfig(problemName, problemSize, k, configs[k])
      {
        var c := GenerateConfig(problemName, problemSize, populationSize, selectionSize,
                                offspringSize, Iterations, Restarts[j], 42, Letters[2 * i + j]);
        ConfigAtStage(problemName, problemSize, i, j, c);
        configs := configs + [c];
      }
    }
  }

  /** The configuration built at outer stage `i`, restart `j` is
      configuration `2i + j` of the experiment. */
  lemma ConfigAtStage(problemName: string, problemSize: int, i: nat, j: nat, c: Config)
    requires i < 3 && j < 2
    requires c == GenerateConfig(problemName, problemSize, problemSize * Pow10(i + 1), FloorDiv10(problemSize * Pow10(i + 1)),
                                 problemSize * Pow10(i + 1) - 1, Iterations, Restarts[j], 42, Letters[2 * i + j])
    ensures IsExperimentConfig(problemName, problemSize, 2 * i + j, c)
  {
    assert (2 * i + j) / 2 == i && (2 * i + j) % 2 == j;
    PopulationTenth(problemSize, i);
  }

  /** A tenth of `size * 10^(i+1)` is exactly `size * 10^i`, also for a
      negative size. */
  lemma PopulationTenth(size: int, i: nat)
    ensures FloorDiv10(size * Pow10(i + 1)) == size * Pow10(i)
  {
    var p := Pow10(i);
    assert size * Pow10(i + 1) == (size * p) * 10;
  }
}
