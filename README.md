# Genetic algorithm optimizer — a verified Dafny model

`genetic_algoritm_gui.py` is a small tkinter program. It minimises the fixed
objective 3·(x0 − 4)² + 5·(x1 + 3)² + 7·(2·x2 + 1)² over three real genes,
using a generational genetic algorithm:

1. It draws an initial population with `numpy.random.uniform`.
2. Each generation, it:
   - scores every individual;
   - keeps a best-so-far record (individual and score) that changes only on a
     strict improvement;
   - appends one table row per individual;
   - keeps the lower-scoring half as the breeding pool, ranked by `argsort`;
   - breeds exactly `pop_size` children, each the gene-by-gene mean of two
     distinct pool members, and with probability `mutation_rate / 100`
     shifts the child by a vector drawn from [−1, 1) per gene.

This project models that algorithm and proves what it promises. Genes and
scores are exact reals. Every random draw is a parameter.

- `objective.dfy` (module `Objective`): the objective `Target`, which is
  never negative and is zero exactly at (4, −3, −0.5).
- `ranking.dfy` (module `Ranking`): the first-minimum index numpy's `argmin`
  returns, and `argsort`.
  - `argsort` is modelled by an insertion sort, `ArgSort`. It is proved to
    return a sorting permutation whose ties are in index order, which is
    what a stable sort returns.
  - The run (`Selected`, `NextGeneration`, `PopulationAt`, `RunOf`, `Run`)
    ranks every generation with `ArgSort`, so it breaks ties in index order.
  - The selection lemmas `SelectionKeepsLowestHalf` and `KeptScoresAreLowest`
    are stated for any sorting permutation, so they also cover the other
    tie orders numpy's default `argsort` may return.
- `genetics.dfy` (module `Genetics`): the random draws of one child, crossover
  (`Mean`), mutation (`Breed`), truncation selection (`Select`, `Selected`),
  the offspring loop (`Reproduce`, an imperative method proved equal to
  `Offspring`) and `NextGeneration`.
- `optimizer.dfy` (module `Optimizer`): the generation loop, as listed below.
  - The best-so-far update is `NextBest`.
  - One pass of the loop is the method `Generation`.
  - The whole run is the method `Run`, whose loop mirrors the source's `for`
    loop. It is proved equal to the function `RunOf`, which describes a run
    as the populations of successive generations (`PopulationAt`, `Lineage`)
    fed through the loop (`Continue`).
  - A run yields one report (a sequence of `Row`s) per generation, the record
    shown after each generation, and the numpy error that stopped it, if any.

Randomness enters as follows:

- `initial` stands for the individuals `uniform(min_gene, max_gene, (pop_size, 3))` drew.
- `draws[g][i]` is a `ChildDraw` for child `i` of generation `g`. It holds:
  - the two distinct pool positions `choice(len(selected), 2, replace=False)` drew;
  - the number `rand()` drew;
  - the perturbation `uniform(-1, 1, 3)` drew.

  Their contracts state only their ranges (`ValidDraw`, `DrawsFit`, `InitialGenes`).

The model follows the code on these points:

- The code validates nothing before the run.
  - A negative population size makes `uniform` fail: `NegativePopulationSize`.
  - A population of 0 with at least one generation makes `argmin` of an empty
    array fail: `EmptyPopulation`.
  - A population of 1 to 3 reports the first generation and updates the
    record. Then `choice` fails for a pool of fewer than two:
    `TooFewParents`.
  - `min_gene > max_gene` and a mutation rate outside [0, 100] are accepted
    as they are.
- The table is cleared once before a run and never between generations, so
  the rows of all generations accumulate. The model keeps one report per
  generation, in order.
- The run uses one fixed tie order in the ranking: index order, through
  `ArgSort`. numpy's default `argsort` is not stable and does not promise
  any particular tie order.

## Model

| member | source | states |
|---|---|---|
| `Objective.TargetSign` | genetic_algoritm_gui.py:13-15 | the objective is never negative, and it is zero exactly at (4, −3, −0.5) |
| `Objective.OptimumIsMinimum` | genetic_algoritm_gui.py:13-15 | (4, −3, −0.5) scores at most every individual |
| `Objective.MinimumIsOptimum` | genetic_algoritm_gui.py:13-15 | any individual scoring as low as (4, −3, −0.5) is that point |
| `Ranking.FirstArgMinIsFirstMinimum` | genetic_algoritm_gui.py:47 | the argmin index scores at most every score, and every earlier index scores strictly more (the first minimum) |
| `Ranking.ArgSortSorts` | genetic_algoritm_gui.py:67 | the argsort model lists every index exactly once, in non-decreasing score order |
| `Ranking.ArgSortStable` | genetic_algoritm_gui.py:67 | the argsort model puts indices with equal scores in index order |
| `Ranking.PermutationIndices` | genetic_algoritm_gui.py:67 | any sorting permutation contains every index of the scores, and no index twice |
| `Ranking.KeptTiesComeFirst` | genetic_algoritm_gui.py:67 | with ties in index order, an index left out of the first k positions that ties with a kept index is larger than it |
| `Ranking.KeptScoresAreLowest` | genetic_algoritm_gui.py:67 | the first k positions of any sorting permutation are distinct indices whose scores are at most every score left out |
| `Genetics.MeanIsMidpoint` | genetic_algoritm_gui.py:75 | the crossover child is equally far from both parents in every gene, symmetric in the parents, and equal to a parent crossed with itself |
| `Genetics.BreedNearMean` | genetic_algoritm_gui.py:73-79 | a child lies within [−1, 1] per gene of its parents' mean, and is exactly the mean without mutation; rate ≤ 0 never mutates, rate ≥ 100 always does |
| `Genetics.SelectionKeepsLowestHalf` | genetic_algoritm_gui.py:67 | selection keeps pop_size // 2 members of the population, at distinct positions, each scoring at most every individual left out, under any tie order |
| `Genetics.SelectedKeepsLowestHalf` | genetic_algoritm_gui.py:67 | the pool the run breeds from holds the individuals at the first pop_size // 2 argsort positions, each scoring at most every individual left out; a left-out individual tying with a kept one comes later in the population |
| `Genetics.OffspringChild` | genetic_algoritm_gui.py:70-79 | child i of the offspring is bred from draw i |
| `Genetics.NextGeneration` | genetic_algoritm_gui.py:67-80 | the next population has exactly as many individuals as the current one |
| `Genetics.ChildOfTwoSelectedParents` | genetic_algoritm_gui.py:67-80 | every child of the next population comes from two distinct positions of the selected pool, within [−1, 1] per gene of their mean, and is exactly the mean when not mutated |
| `Genetics.Reproduce` | genetic_algoritm_gui.py:70-79 | the while loop stops with exactly pop_size children, each bred from its own draw in order (equal to `Offspring`) |
| `Optimizer.NextBestFacts` | genetic_algoritm_gui.py:47-50 | the new record is at most every score of the generation and at most the old record; a tie keeps the old record; a changed record is the first minimum individual with its own score |
| `Optimizer.Report` | genetic_algoritm_gui.py:60-64 | one row per individual in population order, numbered i + 1, with that individual's score |
| `Optimizer.Generation` | genetic_algoritm_gui.py:44-80 | one pass yields the generation's rows, the updated record and, for at least 4 individuals, the next generation; for fewer the parent draw fails |
| `Optimizer.LineageShape` | genetic_algoritm_gui.py:37-80 | the loop evaluates one population per generation (only the first when it cannot breed), starting with the initial one, all of the same size |
| `Optimizer.LineageStep` | genetic_algoritm_gui.py:67-80 | each evaluated population after the first is the next generation of the one before, bred with that one's draws |
| `Optimizer.ContinueOutcome` | genetic_algoritm_gui.py:42-80 | the loop shows one record per report, reports every generation when it can breed and only one when it cannot, and stops with exactly the matching numpy error |
| `Optimizer.ContinueRows` | genetic_algoritm_gui.py:42-64 | the h-th report is the rows of the h-th population |
| `Optimizer.ContinueRecords` | genetic_algoritm_gui.py:42-50 | the records shown are the records computed generation by generation from the reported populations |
| `Optimizer.RecordsAreSeen` | genetic_algoritm_gui.py:47-50 | every record is the starting record or an individual of a population seen by then |
| `Optimizer.RecordsHold` | genetic_algoritm_gui.py:47-50 | successive records hold their solution's score, never increase, are at most every score seen so far, and are each the starting record or an individual seen by then: the lowest-scoring individual observed |
| `Optimizer.RunOutcome` | genetic_algoritm_gui.py:37-80 | a run fails with NegativePopulationSize iff pop_size < 0, EmptyPopulation iff pop_size = 0 with generations > 0, TooFewParents iff 1 ≤ pop_size < 4 with generations > 0, and otherwise reports every generation |
| `Optimizer.RunReports` | genetic_algoritm_gui.py:37-64 | every report has pop_size rows numbered from 1, each scored by the objective; the first is the initial population and the g-th is the population bred g times |
| `Optimizer.RunRecords` | genetic_algoritm_gui.py:37-50 | a run's records follow the best-so-far update report by report: each is an individual reported so far with its own score, never increasing, and at most every score reported so far |
| `Optimizer.FirstReportInBounds` | genetic_algoritm_gui.py:37 | when the initial genes lie between min_gene and max_gene, so do those of every individual in the first report |
| `Optimizer.Run` | genetic_algoritm_gui.py:37-80 | the imperative generation loop produces exactly the reports, records and error `RunOf` describes |

## Left out

- The tkinter window, entries, button, label and table widgets, and `mainloop`: they are user interface only.
- Parsing the entry texts with `float`/`int`, and the error message shown on a `ValueError`: they belong to Python's string conversion and the widgets.
- The `:.2f` text of the result label and of the table cells. Rows and records are kept as values.
- Clearing the table before a run is not modelled: a run's result starts with no reports.
- numpy's random generator. Its draws are parameters, constrained only by their ranges.
- Floating-point rounding and overflow. Genes and scores are exact reals.
- `float("inf")` as the starting record is modelled as "no record yet" (`None`). It compares the same way: every finite score is below it.
- The population bred in the last generation is never scored, shown or recorded by the source. No result of the model mentions it.
- `InitialGenes` is stated as a closed interval between the two bounds, in either order; `uniform` draws from a half-open one.
- `InUnitBox` is stated as the closed box [−1, 1] per gene; `uniform(-1, 1, 3)` draws from [−1, 1). The closed box only admits more draws, so every proof covers the real ones.
- `ArgSort` fixes ties in index order. A run in which numpy's unstable `argsort` orders ties differently is not modelled. Only the selection lemmas over any sorting permutation (`SelectionKeepsLowestHalf`, `KeptScoresAreLowest`) cover such orders.
- Nothing is claimed about convergence to the optimum: the run is stochastic.
