/** The generational loop of the genetic algorithm: evaluation, the
    best-so-far record, the per-generation report, selection and
    reproduction, with every random draw passed in as a value. */
module Optimizer {
  import opened Objective
  import opened Ranking
  import opened Genetics

  datatype Option<T> = None | Some(value: T)

  /** One row of the generation table: the 1-based number, the score and
      the genes of one individual. */
  datatype Row = Row(number: int, score: real, genes: Individual)

  /** The best-so-far record (best_solution, best_score). */
  datatype Best = Best(solution: Individual, score: real)

  /** The numpy errors that end a run early. */
  datatype Error =
    | NegativePopulationSize  // uniform() refuses a negative shape
    | EmptyPopulation         // argmin() of an empty score array
    | TooFewParents           // choice(len(selected), 2, replace=False) with fewer than 2 selected

  /** The parameters read from the input fields. */
  datatype Config = Config(mutationRate: real, populationSize: int, generations: int, minGene: real, maxGene: real)

  /** What a run leaves behind: the rows it inserted into the table, one
      report per generation in generation order; the best-so-far record
      shown after each generation; and the error that stopped it, if any. */
  datatype RunResult = RunResult(reports: seq<seq<Row>>, bests: seq<Best>, error: Option<Error>)

  /** v lies between the two bounds given to uniform(). */
  predicate Between(v: real, lo: real, hi: real) {
    (lo <= v <= hi) || (hi <= v <= lo)
  }

  /** Every gene of x lies between the two bounds. */
  predicate InitialGenes(x: Individual, lo: real, hi: real) {
    Between(x.x0, lo, hi) && Between(x.x1, lo, hi) && Between(x.x2, lo, hi)
  }

  /** The individuals of a report, in row order. */
  function Genes(rows: seq<Row>): seq<Individual> {
    seq(|rows|, i requires 0 <= i < |rows| => rows[i].genes)
  }

  /** A record that holds the score of its own solution. */
  predicate Consistent(best: Option<Best>) {
    best.Some? ==> best.value.score == Target(best.value.solution)
  }

  /** The best-so-far record after evaluating one more generation: the
      first individual with the generation's minimum score, when that
      minimum is strictly below the previous record (or there is none). */
  function NextBest(prev: Option<Best>, population: seq<Individual>): Best
    requires |population| > 0
  {
    var scores := Scores(population);
    var k := FirstArgMin(scores);
    if prev.None? || scores[k] < prev.value.score then Best(population[k], scores[k]) else prev.value
  }

  /** The new record is at most every score of the generation and at most
      the previous record; it keeps the previous record on a tie; it holds
      the score of its own solution; and when it changes, it is the first
      individual of the generation with the minimum score. */
  lemma NextBestFacts(prev: Option<Best>, population: seq<Individual>)
    requires |population| > 0
    ensures var b := NextBest(prev, population);
      (forall i :: 0 <= i < |population| ==> b.score <= Target(population[i])) &&
      (prev.Some? ==> b.score <= prev.value.score) &&
      (prev.Some? && b.score == prev.value.score ==> b == prev.value) &&
      (Consistent(prev) ==> Consistent(Some(b))) &&
      (prev.None? || b != prev.value ==>
        exists k :: 0 <= k < |population| && b == Best(population[k], Target(population[k])) &&
          forall j :: 0 <= j < k ==> b.score < Target(population[j]))
  {
    var scores := Scores(population);
    FirstArgMinIsFirstMinimum(scores);
    assert forall i :: 0 <= i < |population| ==> scores[i] == Target(population[i]);
  }

  /** The report loop: one row per individual, numbered from 1, in
      population order, with the individual's score. */
  method Report(population: seq<Individual>, scores: seq<real>) returns (rows: seq<Row>)
    requires |scores| == |population|
    ensures |rows| == |population|
    ensures forall i :: 0 <= i < |rows| ==> rows[i] == Row(i + 1, scores[i], population[i])
  {
    rows := [];
    var i := 0;
    while i < |population|
      invariant i <= |population| && |rows| == i
      invariant forall j :: 0 <= j < i ==> rows[j] == Row(j + 1, scores[j], population[j])
    {
      rows := rows + [Row(i + 1, scores[i], population[i])];
      i := i + 1;
    }
  }

  /** The rows the report loop produces for one generation. */
  function Rows(population: seq<Individual>): seq<Row> {
    seq(|population|, i requires 0 <= i < |population| => Row(i + 1, Target(population[i]), population[i]))
  }

  /** The individuals of a population's report rows are that population. */
  lemma GenesOfRows(population: seq<Individual>)
    ensures |Rows(population)| == |population|
    ensures Genes(Rows(population)) == population
  {
  }

  /** One pass of the generation loop: score the population, update the
      best record, report every individual, select the lower half and breed
      as many children from it as the population has individuals. ok is
      false when fewer than two individuals are selected: there the parent
      draw fails, after the record and the report are made. */
  method Generation(population: seq<Individual>, best: Option<Best>, draws: seq<ChildDraw>, mutationRate: real)
    returns (rows: seq<Row>, newBest: Best, next: seq<Individual>, ok: bool)
    requires |population| > 0
    requires |population| >= 4 ==> DrawsFit(draws, |population|)
    ensures rows == Rows(population)
    ensures newBest == NextBest(best, population)
    ensures ok <==> |population| >= 4
    ensures ok ==> next == NextGeneration(population, draws, mutationRate)
    ensures !ok ==> next == population
  {
    var scores := Scores(population);
    var k := FirstArgMin(scores);
    newBest := if best.None? || scores[k] < best.value.score then Best(population[k], scores[k]) else best.value;
    rows := Report(population, scores);
    var selected := Select(population, ArgSort(scores));
    if |selected| < 2 {
      return rows, newBest, population, false;
    }
    next := Reproduce(selected, draws, mutationRate, |population|);
    ok := true;
  }

  /** Every report's scores are the scores of its individuals. */
  ghost predicate ScoredRows(reports: seq<seq<Row>>) {
    forall g, j :: 0 <= g < |reports| && 0 <= j < |reports[g]| ==> reports[g][j].score == Target(reports[g][j].genes)
  }

  /** The number of times the generation loop runs: range(generations) is
      empty when generations is not positive. */
  function Rounds(generations: int): nat {
    if generations > 0 then generations else 0
  }

  /** The population of generation h: the initial population bred h
      times, each time with the draws of the generation being bred. */
  function PopulationAt(initial: seq<Individual>, draws: seq<seq<ChildDraw>>, mutationRate: real, h: nat)
    : (population: seq<Individual>)
    requires |initial| >= 4 && h <= |draws|
    requires forall k :: 0 <= k < |draws| ==> DrawsFit(draws[k], |initial|)
    ensures |population| == |initial|
  {
    if h == 0 then initial
    else NextGeneration(PopulationAt(initial, draws, mutationRate, h - 1), draws[h - 1], mutationRate)
  }

  /** Generation h + 1 is bred from generation h with the draws of
      generation h. */
  lemma PopulationAtNext(initial: seq<Individual>, draws: seq<seq<ChildDraw>>, mutationRate: real, h: nat)
    requires |initial| >= 4 && h < |draws|
    requires forall k :: 0 <= k < |draws| ==> DrawsFit(draws[k], |initial|)
    ensures PopulationAt(initial, draws, mutationRate, h + 1) ==
      NextGeneration(PopulationAt(initial, draws, mutationRate, h), draws[h], mutationRate)
  {
  }

  /** The populations the generation loop evaluates in count generations:
      one per generation, or only the first when it is too small to breed
      from. */
  function Lineage(initial: seq<Individual>, draws: seq<seq<ChildDraw>>, mutationRate: real, count: nat)
    : seq<seq<Individual>>
    requires count <= |draws|
    requires |initial| >= 4 ==> forall k :: 0 <= k < |draws| ==> DrawsFit(draws[k], |initial|)
  {
    if count == 0 then []
    else if |initial| < 4 then [initial]
    else seq(count, h requires 0 <= h < count => PopulationAt(initial, draws, mutationRate, h))
  }

  /** A lineage starts with the initial population, keeps its size, and
      has one population per generation unless the population is too small
      to breed from. */
  lemma LineageShape(initial: seq<Individual>, draws: seq<seq<ChildDraw>>, mutationRate: real, count: nat)
    requires count <= |draws|
    requires |initial| >= 4 ==> forall k :: 0 <= k < |draws| ==> DrawsFit(draws[k], |initial|)
    ensures var pops := Lineage(initial, draws, mutationRate, count);
      |pops| == (if count == 0 then 0 else if |initial| < 4 then 1 else count) &&
      (|pops| > 0 ==> pops[0] == initial) &&
      (forall h :: 0 <= h < |pops| ==> |pops[h]| == |initial|)
  {
  }

  /** Each population of a lineage is the population of its generation. */
  lemma LineageAt(initial: seq<Individual>, draws: seq<seq<ChildDraw>>, mutationRate: real, count: nat)
    requires count <= |draws|
    requires |initial| >= 4 ==> forall k :: 0 <= k < |draws| ==> DrawsFit(draws[k], |initial|)
    ensures var pops := Lineage(initial, draws, mutationRate, count);
      |initial| >= 4 ==> forall h :: 0 <= h < |pops| ==> pops[h] == PopulationAt(initial, draws, mutationRate, h)
  {
  }

  /** Each population of a lineage after the first is the next generation
      of the one before it, bred with that one's draws. */
  lemma LineageStep(initial: seq<Individual>, draws: seq<seq<ChildDraw>>, mutationRate: real, count: nat, f: nat)
    requires count <= |draws|
    requires |initial| >= 4 ==> forall k :: 0 <= k < |draws| ==> DrawsFit(draws[k], |initial|)
    requires f + 1 < |Lineage(initial, draws, mutationRate, count)|
    ensures var pops := Lineage(initial, draws, mutationRate, count);
      |initial| >= 4 && f < |draws| && |pops[f]| == |initial| &&
      pops[f + 1] == NextGeneration(pops[f], draws[f], mutationRate)
  {
    LineageShape(initial, draws, mutationRate, count);
    LineageAt(initial, draws, mutationRate, count);
    PopulationAtNext(initial, draws, mutationRate, f);
  }

  /** The reports, best-so-far records and error of the generation loop
      over the given populations, starting from the record best. The loop
      stops with a numpy error at the first population it cannot evaluate
      or breed from. */
  function Continue(pops: seq<seq<Individual>>, best: Option<Best>): RunResult
    decreases |pops|
  {
    if pops == [] then RunResult([], [], None)
    else if |pops[0]| == 0 then RunResult([], [], Some(EmptyPopulation))
    else
      var rows, b := Rows(pops[0]), NextBest(best, pops[0]);
      if |pops[0]| < 4 then RunResult([rows], [b], Some(TooFewParents))
      else Join([rows], [b], Continue(pops[1..], Some(b)))
  }

  /** The end of a run: the reports, records and error of the generations
      still to come, joined after those already shown. */
  function Join(reports: seq<seq<Row>>, bests: seq<Best>, rest: RunResult): RunResult {
    RunResult(reports + rest.reports, bests + rest.bests, rest.error)
  }

  /** A whole run: the initial population drawn by uniform(), or the error
      uniform() raises for a negative population size. */
  function RunOf(config: Config, initial: seq<Individual>, draws: seq<seq<ChildDraw>>): RunResult
    requires config.populationSize >= 0 ==> |initial| == config.populationSize
    requires config.generations <= |draws|
    requires config.populationSize >= 4 ==> forall g :: 0 <= g < |draws| ==> DrawsFit(draws[g], config.populationSize)
  {
    if config.populationSize < 0 then RunResult([], [], Some(NegativePopulationSize))
    else Continue(Lineage(initial, draws, config.mutationRate, Rounds(config.generations)), None)
  }

  /** How the loop over populations of one size ends: how many reports it
      shows, with one record per report, and which numpy error stops it. */
  lemma {:induction false} ContinueOutcome(pops: seq<seq<Individual>>, best: Option<Best>, size: nat)
    requires forall h :: 0 <= h < |pops| ==> |pops[h]| == size
    ensures var r := Continue(pops, best);
      |r.bests| == |r.reports| &&
      |r.reports| == (if pops == [] || size == 0 then 0 else if size < 4 then 1 else |pops|) &&
      (r.error == Some(EmptyPopulation) <==> pops != [] && size == 0) &&
      (r.error == Some(TooFewParents) <==> pops != [] && 1 <= size < 4) &&
      (r.error == None <==> pops == [] || size >= 4)
    decreases |pops|
  {
    if pops != [] && size >= 4 {
      var tail := pops[1..];
      assert forall h :: 0 <= h < |tail| ==> tail[h] == pops[h + 1];
      ContinueOutcome(tail, Some(NextBest(best, pops[0])), size);
    }
  }

  /** The loop shows the report rows of its populations, in order. */
  lemma {:induction false} ContinueRows(pops: seq<seq<Individual>>, best: Option<Best>)
    ensures var r := Continue(pops, best);
      |r.reports| <= |pops| &&
      forall h :: 0 <= h < |r.reports| ==> r.reports[h] == Rows(pops[h])
    decreases |pops|
  {
    if pops != [] && |pops[0]| >= 4 {
      var tail, b := pops[1..], NextBest(best, pops[0]);
      ContinueRows(tail, Some(b));
      var rest := Continue(tail, Some(b));
      var reports := [Rows(pops[0])] + rest.reports;
      assert Continue(pops, best).reports == reports;
      forall h | 0 < h < |reports|
        ensures reports[h] == Rows(pops[h])
      {
        assert reports[h] == rest.reports[h - 1];
        assert tail[h - 1] == pops[h];
      }
    }
  }

  /** The best-so-far records shown after each generation, starting from
      the record prev: each one is NextBest of the one before and that
      generation's population. */
  function Records(prev: Option<Best>, pops: seq<seq<Individual>>): (bests: seq<Best>)
    requires forall g :: 0 <= g < |pops| ==> |pops[g]| > 0
    ensures |bests| == |pops|
    decreases |pops|
  {
    if pops == [] then []
    else
      var b := NextBest(prev, pops[0]);
      [b] + Records(Some(b), pops[1..])
  }

  /** The loop shows the records Records computes for the populations it
      reports, none of which is empty. */
  lemma {:induction false} ContinueRecords(pops: seq<seq<Individual>>, best: Option<Best>)
    ensures var r := Continue(pops, best);
      |r.reports| <= |pops| &&
      (forall h :: 0 <= h < |r.reports| ==> |pops[h]| > 0) &&
      r.bests == Records(best, pops[..|r.reports|])
    decreases |pops|
  {
    ContinueRows(pops, best);
    if pops != [] && |pops[0]| > 0 {
      var b := NextBest(best, pops[0]);
      if |pops[0]| < 4 {
        assert pops[..1][1..] == [];
      } else {
        var tail := pops[1..];
        ContinueRecords(tail, Some(b));
        var k := |Continue(tail, Some(b)).reports|;
        assert pops[..k + 1][1..] == tail[..k];
        forall h | 0 < h < k + 1
          ensures |pops[h]| > 0
        {
          assert tail[h - 1] == pops[h];
        }
      }
    }
  }

  /** The bounds the best-so-far records keep: each record's score is the
      score of its solution, the best score never increases, and it is at
      most every score seen so far. */
  ghost predicate RecordBounds(pops: seq<seq<Individual>>, bests: seq<Best>) {
    |bests| <= |pops| &&
    (forall g :: 0 <= g < |bests| ==> bests[g].score == Target(bests[g].solution)) &&
    (forall g1, g2 :: 0 <= g1 <= g2 < |bests| ==> bests[g2].score <= bests[g1].score) &&
    (forall g, h, j :: 0 <= h <= g < |bests| && 0 <= j < |pops[h]| ==> bests[g].score <= Target(pops[h][j]))
  }

  /** Every record is the record prev the run started from, or an
      individual of a population seen by then. */
  ghost predicate RecordsSeen(prev: Option<Best>, pops: seq<seq<Individual>>, bests: seq<Best>) {
    |bests| <= |pops| &&
    forall g :: 0 <= g < |bests| ==>
      (prev.Some? && bests[g] == prev.value) ||
      exists h, j :: 0 <= h <= g && 0 <= j < |pops[h]| && bests[g].solution == pops[h][j]
  }

  /** What the best-so-far records promise about the populations they were
      taken from, starting from the record prev: each record is the lowest
      scoring individual seen so far (or prev, when nothing seen is lower),
      with its own score. */
  ghost predicate BestRecordsHold(prev: Option<Best>, pops: seq<seq<Individual>>, bests: seq<Best>) {
    RecordBounds(pops, bests) && RecordsSeen(prev, pops, bests)
  }

  /** The records Records computes keep their bounds, and none of them is
      above the record they start from. */
  lemma {:induction false} RecordBoundsHold(prev: Option<Best>, pops: seq<seq<Individual>>)
    requires forall g :: 0 <= g < |pops| ==> |pops[g]| > 0
    requires Consistent(prev)
    ensures RecordBounds(pops, Records(prev, pops))
    ensures prev.Some? ==> forall g :: 0 <= g < |pops| ==> Records(prev, pops)[g].score <= prev.value.score
    decreases |pops|
  {
    if pops != [] {
      var pop, tail := pops[0], pops[1..];
      var b := NextBest(prev, pop);
      NextBestFacts(prev, pop);
      RecordBoundsHold(Some(b), tail);
      var later := Records(Some(b), tail);
      var bests := Records(prev, pops);
      assert bests == [b] + later;
      assert b.score == Target(b.solution);
      forall g1, g2 | 0 <= g1 <= g2 < |bests|
        ensures bests[g2].score <= bests[g1].score
      {
        if 0 < g1 {
          assert later[g2 - 1].score <= later[g1 - 1].score;
        } else if 0 < g2 {
          assert later[g2 - 1].score <= b.score;
        }
      }
      forall g, h, j | 0 <= h <= g < |bests| && 0 <= j < |pops[h]|
        ensures bests[g].score <= Target(pops[h][j])
      {
        if h == 0 {
          assert bests[g].score <= b.score;
        } else {
          assert tail[h - 1] == pops[h];
          assert later[g - 1].score <= Target(tail[h - 1][j]);
        }
      }
    }
  }


  /** Every record Records computes is prev or an individual seen by
      then. */
  lemma {:induction false} RecordsAreSeen(prev: Option<Best>, pops: seq<seq<Individual>>)
    requires forall g :: 0 <= g < |pops| ==> |pops[g]| > 0
    ensures RecordsSeen(prev, pops, Records(prev, pops))
    decreases |pops|
  {
    if pops != [] {
      var pop, tail := pops[0], pops[1..];
      var b := NextBest(prev, pop);
      NextBestFacts(prev, pop);
      var first := prev.Some? && b == prev.value;
      if !first {
        var k :| 0 <= k < |pop| && b == Best(pop[k], Target(pop[k])) &&
          forall j :: 0 <= j < k ==> b.score < Target(pop[j]);
        assert b.solution == pops[0][k];
      }
      RecordsAreSeen(Some(b), tail);
      var later := Records(Some(b), tail);
      var bests := Records(prev, pops);
      assert bests == [b] + later;
      forall g | 0 < g < |bests| && !(prev.Some? && bests[g] == prev.value)
        ensures exists h, j :: 0 <= h <= g && 0 <= j < |pops[h]| && bests[g].solution == pops[h][j]
      {
        assert bests[g] == later[g - 1];
        if later[g - 1] != b {
          var h, j :| 0 <= h <= g - 1 && 0 <= j < |tail[h]| && later[g - 1].solution == tail[h][j];
          assert tail[h] == pops[h + 1];
        }
      }
    }
  }

  /** The records Records computes keep all the promises of
      BestRecordsHold, and none of them is above the record they start
      from. */
  lemma RecordsHold(prev: Option<Best>, pops: seq<seq<Individual>>)
    requires forall g :: 0 <= g < |pops| ==> |pops[g]| > 0
    requires Consistent(prev)
    ensures BestRecordsHold(prev, pops, Records(prev, pops))
    ensures prev.Some? ==> forall g :: 0 <= g < |pops| ==> Records(prev, pops)[g].score <= prev.value.score
  {
    RecordBoundsHold(prev, pops);
    RecordsAreSeen(prev, pops);
  }

  /** Joining in two steps is joining once. */
  lemma JoinTwice(reports: seq<seq<Row>>, bests: seq<Best>, more: seq<seq<Row>>, moreBests: seq<Best>, rest: RunResult)
    ensures Join(reports, bests, Join(more, moreBests, rest)) == Join(reports + more, bests + moreBests, rest)
  {
    assert reports + (more + rest.reports) == (reports + more) + rest.reports;
    assert bests + (moreBests + rest.bests) == (bests + moreBests) + rest.bests;
  }

  /** Resuming the loop at generation g after the reports and records
      already shown: the run goes on by showing that generation's report
      and record and, unless its population is too small to breed from,
      by resuming at the next generation from the updated record. */
  lemma ContinueFrom(pops: seq<seq<Individual>>, best: Option<Best>, g: nat, reports: seq<seq<Row>>, bests: seq<Best>)
    requires g < |pops| && |pops[g]| > 0
    ensures var shown, b := Join(reports, bests, Continue(pops[g..], best)), NextBest(best, pops[g]);
      if |pops[g]| < 4 then shown == RunResult(reports + [Rows(pops[g])], bests + [b], Some(TooFewParents))
      else shown == Join(reports + [Rows(pops[g])], bests + [b], Continue(pops[g + 1..], Some(b)))
  {
    assert pops[g..][1..] == pops[g + 1..];
    var b := NextBest(best, pops[g]);
    if |pops[g]| >= 4 {
      JoinTwice(reports, bests, [Rows(pops[g])], [b], Continue(pops[g + 1..], Some(b)));
    }
  }

  /** One pass of the generation loop in a run: from the reports and
      records shown before generation g, showing that generation's report
      and record either ends the run, when its population cannot breed,
      or leaves the next population of the lineage to resume from. */
  lemma GenerationShown(initial: seq<Individual>, draws: seq<seq<ChildDraw>>, mutationRate: real, count: nat, g: nat,
                        whole: RunResult, reports: seq<seq<Row>>, bests: seq<Best>, best: Option<Best>, next: seq<Individual>)
    requires count <= |draws|
    requires |initial| >= 4 ==> forall k :: 0 <= k < |draws| ==> DrawsFit(draws[k], |initial|)
    requires g < |Lineage(initial, draws, mutationRate, count)| && |initial| > 0
    requires var pops := Lineage(initial, draws, mutationRate, count);
      whole == Join(reports, bests, Continue(pops[g..], best)) &&
      (|initial| >= 4 ==> |pops[g]| == |initial| && g < |draws| && next == NextGeneration(pops[g], draws[g], mutationRate))
    ensures var pops, b := Lineage(initial, draws, mutationRate, count), NextBest(best, Lineage(initial, draws, mutationRate, count)[g]);
      |pops[g]| == |initial| &&
      (|initial| < 4 ==> whole == RunResult(reports + [Rows(pops[g])], bests + [b], Some(TooFewParents))) &&
      (|initial| >= 4 ==> whole == Join(reports + [Rows(pops[g])], bests + [b], Continue(pops[g + 1..], Some(b)))) &&
      (|initial| >= 4 && g + 1 < |pops| ==> next == pops[g + 1])
  {
    var pops := Lineage(initial, draws, mutationRate, count);
    LineageShape(initial, draws, mutationRate, count);
    ContinueFrom(pops, best, g, reports, bests);
    if |initial| >= 4 && g + 1 < |pops| {
      LineageStep(initial, draws, mutationRate, count, g);
    }
  }

  /** How a run ends: the error that stops it, if any, and how many
      generations it reports. */
  lemma RunOutcome(config: Config, initial: seq<Individual>, draws: seq<seq<ChildDraw>>)
    requires config.populationSize >= 0 ==> |initial| == config.populationSize
    requires config.generations <= |draws|
    requires config.populationSize >= 4 ==> forall g :: 0 <= g < |draws| ==> DrawsFit(draws[g], config.populationSize)
    ensures var r, n, gens := RunOf(config, initial, draws), config.populationSize, config.generations;
      (r.error == Some(NegativePopulationSize) <==> n < 0) &&
      (r.error == Some(EmptyPopulation) <==> n == 0 && gens > 0) &&
      (r.error == Some(TooFewParents) <==> 1 <= n < 4 && gens > 0) &&
      (r.error == None <==> n >= 4 || (n >= 0 && gens <= 0)) &&
      |r.bests| == |r.reports| &&
      |r.reports| == (if n <= 0 || gens <= 0 then 0 else if n < 4 then 1 else gens)
  {
    var n := config.populationSize;
    if n >= 0 {
      var count := Rounds(config.generations);
      LineageShape(initial, draws, config.mutationRate, count);
      ContinueOutcome(Lineage(initial, draws, config.mutationRate, count), None, n);
    }
  }

  /** What a run reports: a full, numbered, scored table per generation,
      starting with the initial population, each generation bred from the
      one before with its own draws. */
  lemma RunReports(config: Config, initial: seq<Individual>, draws: seq<seq<ChildDraw>>)
    requires config.populationSize >= 0 ==> |initial| == config.populationSize
    requires config.generations <= |draws|
    requires config.populationSize >= 4 ==> forall g :: 0 <= g < |draws| ==> DrawsFit(draws[g], config.populationSize)
    ensures var r, n := RunOf(config, initial, draws), config.populationSize;
      |r.reports| <= Rounds(config.generations) &&
      (forall g :: 0 <= g < |r.reports| ==> |r.reports[g]| == n) &&
      (forall g, j :: 0 <= g < |r.reports| && 0 <= j < |r.reports[g]| ==> r.reports[g][j].number == j + 1) &&
      ScoredRows(r.reports) &&
      (|r.reports| > 0 ==> Genes(r.reports[0]) == initial) &&
      (n >= 4 ==> forall g :: 0 <= g < |r.reports| ==>
        Genes(r.reports[g]) == PopulationAt(initial, draws, config.mutationRate, g))
  {
    var n := config.populationSize;
    if n >= 0 {
      var count := Rounds(config.generations);
      var pops := Lineage(initial, draws, config.mutationRate, count);
      LineageShape(initial, draws, config.mutationRate, count);
      LineageAt(initial, draws, config.mutationRate, count);
      ContinueRows(pops, None);
      var r := Continue(pops, None);
      forall g | 0 <= g < |r.reports|
        ensures |r.reports[g]| == n && Genes(r.reports[g]) == pops[g]
        ensures n >= 4 ==> pops[g] == PopulationAt(initial, draws, config.mutationRate, g)
      {
        GenesOfRows(pops[g]);
      }
    }
  }

  /** The individuals of every report, in report order. */
  function Generations(reports: seq<seq<Row>>): seq<seq<Individual>> {
    seq(|reports|, g requires 0 <= g < |reports| => Genes(reports[g]))
  }

  /** The best-so-far records of a run follow NextBest report by report:
      each record is an individual reported so far, with its own score; the
      best score never increases, and it is at most every score reported so
      far. */
  lemma RunRecords(config: Config, initial: seq<Individual>, draws: seq<seq<ChildDraw>>)
    requires config.populationSize >= 0 ==> |initial| == config.populationSize
    requires config.generations <= |draws|
    requires config.populationSize >= 4 ==> forall g :: 0 <= g < |draws| ==> DrawsFit(draws[g], config.populationSize)
    ensures var r := RunOf(config, initial, draws);
      (forall g :: 0 <= g < |r.reports| ==> |r.reports[g]| > 0) &&
      r.bests == Records(None, Generations(r.reports)) &&
      BestRecordsHold(None, Generations(r.reports), r.bests)
  {
    if config.populationSize >= 0 {
      var count := Rounds(config.generations);
      var pops := Lineage(initial, draws, config.mutationRate, count);
      ContinueRows(pops, None);
      ContinueRecords(pops, None);
      var r := Continue(pops, None);
      var shown := pops[..|r.reports|];
      forall g | 0 <= g < |r.reports|
        ensures |r.reports[g]| > 0 && Generations(r.reports)[g] == shown[g]
      {
        GenesOfRows(pops[g]);
      }
      assert Generations(r.reports) == shown;
      RecordsHold(None, shown);
    }
  }

  /** When uniform() drew every initial gene between the two bounds, every
      individual of the first report has its genes between those bounds. */
  lemma FirstReportInBounds(config: Config, initial: seq<Individual>, draws: seq<seq<ChildDraw>>)
    requires config.populationSize >= 0 ==> |initial| == config.populationSize
    requires config.generations <= |draws|
    requires config.populationSize >= 4 ==> forall g :: 0 <= g < |draws| ==> DrawsFit(draws[g], config.populationSize)
    requires forall i :: 0 <= i < |initial| ==> InitialGenes(initial[i], config.minGene, config.maxGene)
    ensures var r := RunOf(config, initial, draws);
      |r.reports| > 0 ==> forall j :: 0 <= j < |r.reports[0]| ==> InitialGenes(r.reports[0][j].genes, config.minGene, config.maxGene)
  {
    RunReports(config, initial, draws);
    var r := RunOf(config, initial, draws);
    if |r.reports| > 0 {
      forall j | 0 <= j < |r.reports[0]|
        ensures InitialGenes(r.reports[0][j].genes, config.minGene, config.maxGene)
      {
        assert r.reports[0][j].genes == Genes(r.reports[0])[j];
      }
    }
  }

  /** The whole run: draw the initial population, then run the generation
      loop, stopping at the first numpy error. initial holds the individuals
      uniform() drew, and draws[g] the draws of generation g. */
  method Run(config: Config, initial: seq<Individual>, draws: seq<seq<ChildDraw>>) returns (result: RunResult)
    requires config.populationSize >= 0 ==> |initial| == config.populationSize
    requires config.generations <= |draws|
    requires config.populationSize >= 4 ==> forall g :: 0 <= g < |draws| ==> DrawsFit(draws[g], config.populationSize)
    ensures result == RunOf(config, initial, draws)
  {
    var n := config.populationSize;
    if n < 0 {
      return RunResult([], [], Some(NegativePopulationSize));
    }
    var rate := config.mutationRate;
    var population := initial;
    var best: Option<Best> := None;
    var reports: seq<seq<Row>> := [];
    var bests: seq<Best> := [];
    var g := 0;
    ghost var count := Rounds(config.generations);
    ghost var pops := Lineage(initial, draws, rate, count);
    LineageShape(initial, draws, rate, count);
    assert pops[0..] == pops;
    ghost var whole := RunOf(config, initial, draws);
    while g < config.generations
      invariant g <= count && (g > 0 ==> n >= 4) && |population| == n
      invariant g < |pops| ==> population == pops[g]
      invariant whole == Join(reports, bests, Continue(pops[g..], best))
    {
      if n == 0 {
        assert reports + [] == reports && bests + [] == bests;
        return RunResult(reports, bests, Some(EmptyPopulation));
      }
      var rows, b, next, ok := Generation(population, best, draws[g], rate);
      GenerationShown(initial, draws, rate, count, g, whole, reports, bests, best, next);
      reports := reports + [rows];
      bests := bests + [b];
      best := Some(b);
      if !ok {
        return RunResult(reports, bests, Some(TooFewParents));
      }
      population := next;
      g := g + 1;
    }
    result := RunResult(reports, bests, None);
  }
}
