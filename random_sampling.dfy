/** `random_sample`: Bernoulli sampling.  The header is passed through; every row then costs
    one uniform draw `rnd.random()` from the seeded generator, and is kept iff that draw is
    below the sample rate.  The generator is abstracted as the sequence of its draws:
    `draws[i]` is the value `rnd.random()` returns for row `i`. */
module RandomSampling {
  import opened Outcomes
  import opened Text
  import opened Subsequences

  /** Python's `random()` returns floats in [0, 1). */
  ghost predicate UnitDraws(draws: seq<real>)
  {
    forall i :: 0 <= i < |draws| ==> 0.0 <= draws[i] < 1.0
  }

  /** The row loop of `random_sample` (csvsample/csvsample.py:84-86): each row, in order,
      takes the next draw and is yielded iff that draw is below the sample rate. */
  function Bernoulli(rows: seq<string>, draws: seq<real>, sampleRate: real): (kept: seq<string>)
    requires |draws| >= |rows|
    ensures |kept| <= |rows|
    decreases |rows|
  {
    if rows == [] then []
    else (if draws[0] < sampleRate then [rows[0]] else []) + Bernoulli(rows[1..], draws[1..], sampleRate)
  }

  /** The sampled rows are some of the rows, in their original order. */
  lemma {:induction false} BernoulliIsSubseq(rows: seq<string>, draws: seq<real>, sampleRate: real)
    requires |draws| >= |rows|
    ensures IsSubseq(Bernoulli(rows, draws, sampleRate), rows)
    decreases |rows|
  {
    if rows != [] {
      var rest := Bernoulli(rows[1..], draws[1..], sampleRate);
      BernoulliIsSubseq(rows[1..], draws[1..], sampleRate);
      SubseqCons(rows[0], rest, rows[1..], draws[0] < sampleRate);
      assert rows == [rows[0]] + rows[1..];
      assert [] + rest == rest;
    }
  }

  /** The whole run of `random_sample(lines, sample_rate, seed)`. */
  function RandomSample(lines: seq<string>, sampleRate: real, draws: seq<real>): (out: Outcome)
    requires |draws| >= |lines| - 1
    ensures |lines| == 0 ==> out == Raised([], NoHeader)
    ensures |lines| > 0 ==> out.Emitted? && out.lines != [] && out.lines[0] == Strip(lines[0])
    ensures |lines| > 0 ==> IsSubseq(out.lines[1..], StripAll(lines[1..]))
  {
    if lines == [] then Raised([], NoHeader)
    else
      var kept := Bernoulli(StripAll(lines[1..]), draws, sampleRate);
      BernoulliIsSubseq(StripAll(lines[1..]), draws, sampleRate);
      assert ([Strip(lines[0])] + kept)[1..] == kept;
      Emitted([Strip(lines[0])] + kept)
  }

  /** Sampling a concatenation of rows is sampling each part, the second part starting at the
      draw after the last one the first part used: one draw per row, in row order. */
  lemma {:induction false} BernoulliAppend(a: seq<string>, b: seq<string>, draws: seq<real>, sampleRate: real)
    requires |draws| >= |a| + |b|
    ensures Bernoulli(a + b, draws, sampleRate)
         == Bernoulli(a, draws, sampleRate) + Bernoulli(b, draws[|a|..], sampleRate)
    decreases |a|
  {
    if a == [] {
      assert a + b == b;
    } else {
      var h := if draws[0] < sampleRate then [a[0]] else [];
      assert (a + b)[0] == a[0] && (a + b)[1..] == a[1..] + b;
      assert Bernoulli(a + b, draws, sampleRate) == h + Bernoulli(a[1..] + b, draws[1..], sampleRate);
      assert Bernoulli(a, draws, sampleRate) == h + Bernoulli(a[1..], draws[1..], sampleRate);
      BernoulliAppend(a[1..], b, draws[1..], sampleRate);
      assert draws[1..][|a[1..]|..] == draws[|a|..];
      assert h + (Bernoulli(a[1..], draws[1..], sampleRate) + Bernoulli(b, draws[|a|..], sampleRate))
          == (h + Bernoulli(a[1..], draws[1..], sampleRate)) + Bernoulli(b, draws[|a|..], sampleRate);
    }
  }

  /** Row `i` appears in the output, between what the earlier and the later rows yield,
      iff its own draw is below the sample rate. */
  lemma BernoulliRowDecision(rows: seq<string>, draws: seq<real>, sampleRate: real, i: nat)
    requires |draws| >= |rows| && i < |rows|
    ensures Bernoulli(rows, draws, sampleRate)
         == Bernoulli(rows[..i], draws, sampleRate)
          + (if draws[i] < sampleRate then [rows[i]] else [])
          + Bernoulli(rows[i + 1..], draws[i + 1..], sampleRate)
  {
    var tail := [rows[i]] + rows[i + 1..];
    assert rows == rows[..i] + tail;
    BernoulliAppend(rows[..i], tail, draws, sampleRate);
    var d := draws[i..];
    assert tail[0] == rows[i] && tail[1..] == rows[i + 1..];
    assert d[0] == draws[i] && d[1..] == draws[i + 1..];
    var h := if draws[i] < sampleRate then [rows[i]] else [];
    var later := Bernoulli(rows[i + 1..], draws[i + 1..], sampleRate);
    assert Bernoulli(tail, d, sampleRate) == h + later;
    assert Bernoulli(rows[..i], draws, sampleRate) + (h + later)
        == Bernoulli(rows[..i], draws, sampleRate) + h + later;
  }

  /** Only the first `|rows|` draws matter: draws beyond the last row are never taken. */
  lemma {:induction false} BernoulliUsesRowsDraws(rows: seq<string>, d1: seq<real>, d2: seq<real>, sampleRate: real)
    requires |d1| >= |rows| && |d2| >= |rows|
    requires d1[..|rows|] == d2[..|rows|]
    ensures Bernoulli(rows, d1, sampleRate) == Bernoulli(rows, d2, sampleRate)
    decreases |rows|
  {
    if rows != [] {
      assert d1[0] == d1[..|rows|][0] && d2[0] == d2[..|rows|][0];
      assert d1[1..][..|rows| - 1] == d1[..|rows|][1..];
      assert d2[1..][..|rows| - 1] == d2[..|rows|][1..];
      BernoulliUsesRowsDraws(rows[1..], d1[1..], d2[1..], sampleRate);
    }
  }

  /** A rate no draw is below keeps no row; a rate every draw is below keeps them all. */
  lemma {:induction false} BernoulliExtremes(rows: seq<string>, draws: seq<real>, sampleRate: real)
    requires |draws| >= |rows| && UnitDraws(draws)
    ensures sampleRate <= 0.0 ==> Bernoulli(rows, draws, sampleRate) == []
    ensures sampleRate >= 1.0 ==> Bernoulli(rows, draws, sampleRate) == rows
    decreases |rows|
  {
    if rows != [] {
      assert UnitDraws(draws[1..]) by {
        forall i | 0 <= i < |draws[1..]| ensures 0.0 <= draws[1..][i] < 1.0 {
          assert draws[1..][i] == draws[i + 1];
        }
      }
      BernoulliExtremes(rows[1..], draws[1..], sampleRate);
      assert rows == [rows[0]] + rows[1..];
    }
  }

  /** `random_sample` at rate 0 yields the header only; at rate 1 it yields every stripped
      line.  Either way one draw is still taken per row. */
  lemma RandomSampleExtremes(lines: seq<string>, sampleRate: real, draws: seq<real>)
    requires |lines| > 0 && |draws| >= |lines| - 1 && UnitDraws(draws)
    ensures sampleRate <= 0.0 ==> RandomSample(lines, sampleRate, draws) == Emitted([Strip(lines[0])])
    ensures sampleRate >= 1.0 ==> RandomSample(lines, sampleRate, draws) == Emitted(StripAll(lines))
  {
    BernoulliExtremes(StripAll(lines[1..]), draws, sampleRate);
    assert StripAll(lines) == [Strip(lines[0])] + StripAll(lines[1..]);
  }
}
