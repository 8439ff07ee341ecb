/** Selection, crossover and mutation: how one generation's individuals
    become the next generation's, with numpy's random draws passed in. */
module Genetics {
  import opened Objective
  import opened Ranking

  /** The random draws numpy makes for one child: the two positions in the
      selected pool (choice without replacement), the uniform number in
      [0, 1) compared with the mutation rate, and the perturbation vector
      drawn uniformly from [-1, 1] per gene. */
  datatype ChildDraw = ChildDraw(first: nat, second: nat, trial: real, shift: Individual)

  /** Every gene of v lies in [-1, 1]. */
  predicate InUnitBox(v: Individual) {
    -1.0 <= v.x0 <= 1.0 && -1.0 <= v.x1 <= 1.0 && -1.0 <= v.x2 <= 1.0
  }

  /** What the random source guarantees for one child drawn from a pool of
      poolSize selected individuals. */
  predicate ValidDraw(d: ChildDraw, poolSize: nat) {
    d.first < poolSize && d.second < poolSize && d.first != d.second &&
    0.0 <= d.trial < 1.0 && InUnitBox(d.shift)
  }

  /** Draws for a whole generation of size children, whose pool is the
      size / 2 selected individuals. */
  predicate DrawsFit(draws: seq<ChildDraw>, size: nat) {
    |draws| == size && forall i :: 0 <= i < |draws| ==> ValidDraw(draws[i], size / 2)
  }

  /** The score of every individual, in population order. */
  function Scores(population: seq<Individual>): seq<real> {
    seq(|population|, i requires 0 <= i < |population| => Target(population[i]))
  }

  /** Gene by gene difference a - b. */
  function Difference(a: Individual, b: Individual): Individual {
    Individual(a.x0 - b.x0, a.x1 - b.x1, a.x2 - b.x2)
  }

  /** Gene by gene sum. */
  function Add(a: Individual, b: Individual): Individual {
    Individual(a.x0 + b.x0, a.x1 + b.x1, a.x2 + b.x2)
  }

  /** Crossover: the gene by gene mean of two parents. */
  function Mean(p: Individual, q: Individual): Individual {
    Individual((p.x0 + q.x0) / 2.0, (p.x1 + q.x1) / 2.0, (p.x2 + q.x2) / 2.0)
  }

  /** The child of crossover is equally far from both parents in every
      gene, and the mean of two equal parents is that parent. */
  lemma MeanIsMidpoint(p: Individual, q: Individual)
    ensures Difference(Mean(p, q), p) == Difference(q, Mean(p, q))
    ensures Mean(p, q) == Mean(q, p)
    ensures Mean(p, p) == p
  {
  }

  /** The single Bernoulli trial per child: mutate when the uniform draw is
      below mutationRate / 100. */
  predicate Mutates(trial: real, mutationRate: real) {
    trial < mutationRate / 100.0
  }

  /** One child: the mean of two distinct pool members, shifted by the
      drawn perturbation when the trial succeeds. */
  function Breed(pool: seq<Individual>, d: ChildDraw, mutationRate: real): Individual
    requires ValidDraw(d, |pool|)
  {
    var child := Mean(pool[d.first], pool[d.second]);
    if Mutates(d.trial, mutationRate) then Add(child, d.shift) else child
  }

  /** A child lies within [-1, 1] per gene of its parents' mean, and is
      exactly that mean when its trial does not mutate; a rate of 0 never
      mutates and a rate of 100 or more always does. */
  lemma BreedNearMean(pool: seq<Individual>, d: ChildDraw, mutationRate: real)
    requires ValidDraw(d, |pool|)
    ensures InUnitBox(Difference(Breed(pool, d, mutationRate), Mean(pool[d.first], pool[d.second])))
    ensures !Mutates(d.trial, mutationRate) ==> Breed(pool, d, mutationRate) == Mean(pool[d.first], pool[d.second])
    ensures mutationRate <= 0.0 ==> !Mutates(d.trial, mutationRate)
    ensures mutationRate >= 100.0 ==> Mutates(d.trial, mutationRate)
  {
  }

  /** Truncation selection: the individuals at the first |population| / 2
      positions of a ranking order. */
  function Select(population: seq<Individual>, order: seq<nat>): seq<Individual>
    requires |population| / 2 <= |order| && IndicesBelow(order, |population|)
  {
    seq(|population| / 2, i requires 0 <= i < |population| / 2 => population[order[i]])
  }

  /** The pool the source breeds from: the population ranked by argsort. */
  function Selected(population: seq<Individual>): seq<Individual> {
    Select(population, ArgSort(Scores(population)))
  }

  /** Whatever sorting permutation argsort returns, selection keeps
      |population| / 2 distinct members of the population, and each kept
      individual scores at most every individual left out. */
  lemma SelectionKeepsLowestHalf(population: seq<Individual>, order: seq<nat>)
    requires IsSortingPermutation(order, Scores(population))
    ensures |Select(population, order)| == |population| / 2
    ensures forall i :: 0 <= i < |population| / 2 ==> Select(population, order)[i] in population
    ensures forall i, j :: 0 <= i < j < |population| / 2 ==> order[i] != order[j]
    ensures forall i, q :: 0 <= i < |population| / 2 && 0 <= q < |population| && q !in order[..|population| / 2] ==>
      Target(Select(population, order)[i]) <= Target(population[q])
  {
    var s, k := Scores(population), |population| / 2;
    KeptScoresAreLowest(order, s, k);
    forall i, q | 0 <= i < k && 0 <= q < |population| && q !in order[..k]
      ensures Target(Select(population, order)[i]) <= Target(population[q])
    {
      assert s[order[i]] <= s[q];
    }
  }

  /** The pool the run breeds from keeps the individuals at the first
      |population| / 2 positions of the argsort order, each scoring at most
      every individual left out; of two individuals with equal scores on
      either side of the cut, the one kept comes earlier in the
      population. */
  lemma SelectedKeepsLowestHalf(population: seq<Individual>)
    ensures var s, k := Scores(population), |population| / 2;
      var order := ArgSort(s);
      |Selected(population)| == k &&
      (forall i :: 0 <= i < k ==> Selected(population)[i] == population[order[i]]) &&
      (forall i, q :: 0 <= i < k && 0 <= q < |s| && q !in order[..k] ==>
        s[order[i]] <= s[q] && (s[order[i]] == s[q] ==> order[i] < q))
  {
    var s, k := Scores(population), |population| / 2;
    var order := ArgSort(s);
    assert |s| == |population|;
    ArgSortSorts(s);
    ArgSortStable(s);
    KeptScoresAreLowest(order, s, k);
    KeptTiesComeFirst(order, s, k);
  }

  /** The children bred from pool, one per draw, in draw order. */
  function Offspring(pool: seq<Individual>, draws: seq<ChildDraw>, mutationRate: real): (children: seq<Individual>)
    requires forall i :: 0 <= i < |draws| ==> ValidDraw(draws[i], |pool|)
    ensures |children| == |draws|
  {
    if draws == [] then []
    else Offspring(pool, draws[..|draws| - 1], mutationRate) + [Breed(pool, draws[|draws| - 1], mutationRate)]
  }

  /** The i-th child is bred from the i-th draw. */
  lemma {:induction false} OffspringChild(pool: seq<Individual>, draws: seq<ChildDraw>, mutationRate: real, i: nat)
    requires forall k :: 0 <= k < |draws| ==> ValidDraw(draws[k], |pool|)
    requires i < |draws|
    ensures Offspring(pool, draws, mutationRate)[i] == Breed(pool, draws[i], mutationRate)
  {
    var prefix := draws[..|draws| - 1];
    if i < |prefix| {
      OffspringChild(pool, prefix, mutationRate, i);
      assert prefix[i] == draws[i];
    }
  }

  /** The next population: one child per draw, bred from the selected pool.
      It has as many individuals as the current one. */
  function NextGeneration(population: seq<Individual>, draws: seq<ChildDraw>, mutationRate: real): (next: seq<Individual>)
    requires |population| >= 4 && DrawsFit(draws, |population|)
    ensures |next| == |population|
  {
    Offspring(Selected(population), draws, mutationRate)
  }

  /** Every child of the next population lies within [-1, 1] per gene of
      the mean of two distinct members of the selected pool, and is exactly
      that mean when its trial does not mutate. */
  lemma ChildOfTwoSelectedParents(population: seq<Individual>, draws: seq<ChildDraw>, mutationRate: real, i: nat)
    requires |population| >= 4 && DrawsFit(draws, |population|) && i < |population|
    ensures var d, pool, child := draws[i], Selected(population), NextGeneration(population, draws, mutationRate)[i];
      d.first != d.second && d.first < |pool| && d.second < |pool| &&
      InUnitBox(Difference(child, Mean(pool[d.first], pool[d.second]))) &&
      (!Mutates(d.trial, mutationRate) ==> child == Mean(pool[d.first], pool[d.second]))
  {
    OffspringChild(Selected(population), draws, mutationRate, i);
    BreedNearMean(Selected(population), draws[i], mutationRate);
  }

  /** The offspring loop: appends one child per draw until there are
      exactly size children. */
  method Reproduce(pool: seq<Individual>, draws: seq<ChildDraw>, mutationRate: real, size: nat)
    returns (offspring: seq<Individual>)
    requires |draws| == size
    requires forall i :: 0 <= i < size ==> ValidDraw(draws[i], |pool|)
    ensures offspring == Offspring(pool, draws, mutationRate)
  {
    offspring := [];
    while |offspring| < size
      invariant |offspring| <= size
      invariant offspring == Offspring(pool, draws[..|offspring|], mutationRate)
      decreases size - |offspring|
    {
      var d := draws[|offspring|];
      var child := Mean(pool[d.first], pool[d.second]);
      if d.trial < mutationRate / 100.0 {
        child := Add(child, d.shift);
      }
      assert draws[..|offspring| + 1][..|offspring|] == draws[..|offspring|];
      offspring := offspring + [child];
    }
    assert draws[..size] == draws;
  }
}
