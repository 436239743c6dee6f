/** `sample(lines, sampling_method, **kwargs)`: picks a sampler by name and hands it the
    keyword arguments it needs. */
module Sampler {
  import opened Outcomes
  import opened Text
  import opened Subsequences
  import opened RandomSampling
  import opened HashSampling
  import opened ReservoirSampling

  /** The keyword arguments `sample` reads; a missing one is `None`. */
  datatype Kwargs = Kwargs(sampleRate: Option<real>, col: Option<string>, sampleSize: Option<int>, seed: U64)

  /** What the seeded `random.Random` yields: `draws[i]` from `random()` for row `i`
      (Bernoulli sampling), `picks[k]` from `randint(0, k)` for arrival index `k`
      (reservoir sampling). */
  datatype Randomness = Randomness(draws: seq<real>, picks: seq<int>)

  /** The generator yields as many values as a source of `n` lines asks of it. */
  ghost predicate Enough(rng: Randomness, n: int)
  {
    |rng.draws| >= n - 1 && ValidPicks(rng.picks, n - 1)
  }

  predicate IsKnownMethod(name: string)
  {
    name == "random" || name == "hash" || name == "reservoir"
  }

  /** The dispatcher.  An unknown name raises ValueError and a missing keyword argument
      KeyError, before any line is read; otherwise the named sampler runs, and whatever it
      yields begins with the stripped header.  After the header, Bernoulli and hash-keyed
      sampling yield an order-preserving selection of the stripped rows. */
  function Sample(lines: seq<string>, name: string, kwargs: Kwargs, rng: Randomness, digest: Digest): (out: Outcome)
    requires Enough(rng, |lines|)
    ensures !IsKnownMethod(name) ==> out == Raised([], UnknownMethod(name))
    ensures (name == "random" || name == "hash") && kwargs.sampleRate.None? ==>
              out == Raised([], MissingArgument("sample_rate"))
    ensures name == "hash" && kwargs.sampleRate.Some? && kwargs.col.None? ==>
              out == Raised([], MissingArgument("col"))
    ensures name == "reservoir" && kwargs.sampleSize.None? ==>
              out == Raised([], MissingArgument("sample_size"))
    ensures name == "random" && kwargs.sampleRate.Some? ==>
              out == RandomSample(lines, kwargs.sampleRate.value, rng.draws)
    ensures name == "hash" && kwargs.sampleRate.Some? && kwargs.col.Some? ==>
              out == HashSample(lines, kwargs.sampleRate.value, kwargs.col.value, kwargs.seed, digest)
    ensures name == "reservoir" && kwargs.sampleSize.Some? ==>
              out == ReservoirOutput(lines, kwargs.sampleSize.value, rng.picks)
    ensures Produced(out) != [] ==> |lines| > 0 && Produced(out)[0] == Strip(lines[0])
    ensures (name == "random" || name == "hash") && Produced(out) != [] ==>
              IsSubseq(Produced(out)[1..], StripAll(lines[1..]))
  {
    if name == "random" then
      match kwargs.sampleRate
      case None => Raised([], MissingArgument("sample_rate"))
      case Some(rate) => RandomSample(lines, rate, rng.draws)
    else if name == "hash" then
      match kwargs.sampleRate
      case None => Raised([], MissingArgument("sample_rate"))
      case Some(rate) =>
        match kwargs.col
        case None => Raised([], MissingArgument("col"))
        case Some(col) => HashSample(lines, rate, col, kwargs.seed, digest)
    else if name == "reservoir" then
      match kwargs.sampleSize
      case None => Raised([], MissingArgument("sample_size"))
      case Some(size) => ReservoirOutput(lines, size, rng.picks)
    else
      Raised([], UnknownMethod(name))
  }
}
