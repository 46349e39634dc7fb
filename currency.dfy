/** The estimated-GDP formula of utils/currency.go, with the random draw as a parameter. */
module Currency {

  /** A value of `rng.Intn(1001)`: an integer in [0, 1000]. */
  type Draw = d: int | 0 <= d <= 1000

  /** The multiplier `rng.Intn(1001) + 1000`. */
  function Multiplier(d: Draw): (f: int)
    ensures 1000 <= f <= 2000
  {
    d + 1000
  }

  /** `population * multiplier / exchangeRate`. The only caller passes a positive rate. */
  function ComputeEstimatedGdp(population: int, exchangeRate: real, d: Draw): (gdp: real)
    requires exchangeRate > 0.0
  {
    population as real * Multiplier(d) as real / exchangeRate
  }

  /** The estimate times the rate is the population times the multiplier; it is 0 for a
      population of 0, positive for a positive one, and for a population that is not
      negative it lies between the estimates the smallest and the largest multiplier give. */
  lemma EstimateBounds(population: int, exchangeRate: real, d: Draw)
    requires exchangeRate > 0.0
    ensures var gdp := ComputeEstimatedGdp(population, exchangeRate, d);
      && gdp * exchangeRate == (population * Multiplier(d)) as real
      && (population == 0 ==> gdp == 0.0)
      && (population > 0 ==> gdp > 0.0)
      && (population >= 0 ==>
           (population * 1000) as real / exchangeRate <= gdp <= (population * 2000) as real / exchangeRate)
  {
    BoundsOfQuotient(population, Multiplier(d), exchangeRate);
  }

  /** The quotient grows with the multiplier when the population is not negative. */
  lemma BoundsOfQuotient(population: int, f: int, rate: real)
    requires 1000 <= f <= 2000 && rate > 0.0
    ensures population >= 0 ==>
      (population * 1000) as real / rate <= population as real * f as real / rate <= (population * 2000) as real / rate
  {
    if population >= 0 {
      MultiplyKeepsOrder(population, 1000, f);
      MultiplyKeepsOrder(population, f, 2000);
      DivideKeepsOrder((population * 1000) as real, (population * f) as real, rate);
      DivideKeepsOrder((population * f) as real, (population * 2000) as real, rate);
      assert population as real * f as real == (population * f) as real;
    }
  }

  lemma MultiplyKeepsOrder(p: int, a: int, b: int)
    requires p >= 0 && a <= b
    ensures p * a <= p * b
  {
    assert p * b - p * a == p * (b - a);
  }

  lemma DivideKeepsOrder(a: real, b: real, rate: real)
    requires a <= b && rate > 0.0
    ensures a / rate <= b / rate
  {
    assert b / rate - a / rate == (b - a) / rate;
  }

  /** For a fixed draw and rate the estimate is additive in the population. */
  lemma AdditiveInPopulation(p: int, q: int, rate: real, d: Draw)
    requires rate > 0.0
    ensures ComputeEstimatedGdp(p + q, rate, d) == ComputeEstimatedGdp(p, rate, d) + ComputeEstimatedGdp(q, rate, d)
  {
  }

  /** For a fixed draw and rate the estimate scales with the population: k·p gives k times as much. */
  lemma ScalesWithPopulation(p: int, k: int, rate: real, d: Draw)
    requires rate > 0.0
    ensures ComputeEstimatedGdp(k * p, rate, d) == k as real * ComputeEstimatedGdp(p, rate, d)
  {
  }

  /** For a fixed draw the estimate is inversely proportional to the rate. */
  lemma InverseInRate(p: int, rate: real, k: real, d: Draw)
    requires rate > 0.0 && k > 0.0
    ensures ComputeEstimatedGdp(p, k * rate, d) * k == ComputeEstimatedGdp(p, rate, d)
  {
  }
}
