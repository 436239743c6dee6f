/** `reservoir_sample`: Algorithm R.  The header is passed through; the first `sample_size`
    rows fill a list of `(arrival_index, line)` buckets; each later row with arrival index
    `k` draws `position = randint(0, k)` and replaces bucket `position` when
    `position < sample_size`; at the end the buckets are emitted sorted by arrival index.
    When the rows run out during the fill, the filled buckets are yielded at once and
    control still reaches the final sorted emission, so those rows come out twice.

    The generator's `randint` results are abstracted as `picks`: `picks[k]` is the value
    `randint(0, k)` returns for the row with arrival index `k` (each `k` draws at most once,
    in increasing order, so this loses nothing). */
module ReservoirSampling {
  import opened Outcomes
  import opened Text
  import opened Subsequences

  /** One bucket: the row's arrival index and its stripped line. */
  datatype Slot = Slot(tag: nat, line: string)

  /** The sampler's state: the bucket list and the number `k` of rows consumed. */
  datatype Reservoir = Reservoir(buckets: seq<Slot>, k: nat)

  /** The number of buckets once the fill phase is complete. */
  function Cap(sampleSize: int): nat
  {
    if sampleSize > 0 then sampleSize else 0
  }

  /** The lines of the buckets, in bucket order (csvsample/csvsample.py:148, 157). */
  function Values(bs: seq<Slot>): (r: seq<string>)
    ensures |r| == |bs|
    ensures forall i :: 0 <= i < |bs| ==> r[i] == bs[i].line
  {
    seq(|bs|, i requires 0 <= i < |bs| => bs[i].line)
  }

  /** No two buckets carry the same arrival index. */
  ghost predicate DistinctTags(bs: seq<Slot>)
  {
    forall i, j :: 0 <= i < |bs| && 0 <= j < |bs| && i != j ==> bs[i].tag != bs[j].tag
  }

  /** Every bucket holds the stripped row at its tag, the tags are below `k`, and no two
      buckets carry the same tag. */
  ghost predicate Faithful(bs: seq<Slot>, rows: seq<string>, k: nat)
  {
    k <= |rows| &&
    (forall i :: 0 <= i < |bs| ==> bs[i].tag < k && bs[i].line == rows[bs[i].tag]) &&
    DistinctTags(bs)
  }

  /** The invariant of the update phase: the reservoir is full and faithful to the rows. */
  ghost predicate Inv(st: Reservoir, rows: seq<string>, sampleSize: int)
  {
    st.k <= |rows| && Cap(sampleSize) <= st.k && |st.buckets| == Cap(sampleSize) &&
    Faithful(st.buckets, rows, st.k)
  }

  /** `randint(0, k)` returns an integer in [0, k]. */
  ghost predicate ValidPicks(picks: seq<int>, n: int)
  {
    |picks| >= n && forall k :: 0 <= k < |picks| ==> 0 <= picks[k] <= k
  }

  /** The buckets after the fill phase has taken the first `k` rows. */
  function Filled(rows: seq<string>, k: nat): (r: seq<Slot>)
    requires k <= |rows|
    ensures |r| == k
    ensures forall i :: 0 <= i < k ==> r[i] == Slot(i, rows[i])
  {
    seq(k, i requires 0 <= i < k => Slot(i, rows[i]))
  }

  /** The fill loop's step: taking one more row appends its bucket. */
  lemma FilledGrows(rows: seq<string>, k: nat)
    requires k < |rows|
    ensures Filled(rows, k + 1) == Filled(rows, k) + [Slot(k, rows[k])]
  {
  }

  lemma FilledIsFaithful(rows: seq<string>, k: nat)
    requires k <= |rows|
    ensures Faithful(Filled(rows, k), rows, k)
    ensures Values(Filled(rows, k)) == rows[..k]
  {
  }

  /** One step of the update loop for the row `line` with arrival index `st.k`: only bucket
      `position` can change, and only when `position < sampleSize`; `k` grows by one. */
  function UpdateStep(st: Reservoir, line: string, position: int, sampleSize: int): (r: Reservoir)
    requires 0 <= position
    requires position < sampleSize ==> position < |st.buckets|
    ensures r.k == st.k + 1 && |r.buckets| == |st.buckets|
    ensures forall i :: 0 <= i < |st.buckets| && i != position ==> r.buckets[i] == st.buckets[i]
    ensures position < sampleSize ==> r.buckets[position] == Slot(st.k, line)
    ensures position >= sampleSize ==> r.buckets == st.buckets
  {
    if position < sampleSize then Reservoir(st.buckets[position := Slot(st.k, line)], st.k + 1)
    else Reservoir(st.buckets, st.k + 1)
  }

  /** The update step keeps the reservoir full and faithful. */
  lemma UpdateStepKeepsInv(st: Reservoir, rows: seq<string>, position: int, sampleSize: int)
    requires Inv(st, rows, sampleSize) && st.k < |rows| && 0 <= position <= st.k
    ensures position < sampleSize ==> position < |st.buckets|
    ensures Inv(UpdateStep(st, rows[st.k], position, sampleSize), rows, sampleSize)
  {
    var r := UpdateStep(st, rows[st.k], position, sampleSize);
    forall i, j | 0 <= i < |r.buckets| && 0 <= j < |r.buckets| && i != j
      ensures r.buckets[i].tag != r.buckets[j].tag
    {
      if position < sampleSize && (i == position || j == position) {
        var o := if i == position then j else i;
        assert r.buckets[o] == st.buckets[o];
      }
    }
  }

  /** The update loop (csvsample/csvsample.py:151-155) run over the remaining rows. */
  function UpdatePhase(st: Reservoir, rows: seq<string>, picks: seq<int>, sampleSize: int): (r: Reservoir)
    requires Inv(st, rows, sampleSize) && ValidPicks(picks, |rows|)
    ensures Inv(r, rows, sampleSize) && r.k == |rows|
    decreases |rows| - st.k
  {
    if st.k == |rows| then st
    else
      UpdateStepKeepsInv(st, rows, picks[st.k], sampleSize);
      UpdatePhase(UpdateStep(st, rows[st.k], picks[st.k], sampleSize), rows, picks, sampleSize)
  }

  /** Unfolding the update loop by one row. */
  lemma UpdatePhaseStep(st: Reservoir, rows: seq<string>, picks: seq<int>, sampleSize: int)
    requires Inv(st, rows, sampleSize) && st.k < |rows| && ValidPicks(picks, |rows|)
    ensures 0 <= picks[st.k] && (picks[st.k] < sampleSize ==> picks[st.k] < |st.buckets|)
    ensures Inv(UpdateStep(st, rows[st.k], picks[st.k], sampleSize), rows, sampleSize)
    ensures UpdatePhase(UpdateStep(st, rows[st.k], picks[st.k], sampleSize), rows, picks, sampleSize)
         == UpdatePhase(st, rows, picks, sampleSize)
  {
    UpdateStepKeepsInv(st, rows, picks[st.k], sampleSize);
  }

  ghost predicate Ascending(bs: seq<Slot>)
  {
    forall i, j :: 0 <= i < j < |bs| ==> bs[i].tag <= bs[j].tag
  }

  ghost predicate StrictlyAscending(bs: seq<Slot>)
  {
    forall i, j :: 0 <= i < j < |bs| ==> bs[i].tag < bs[j].tag
  }

  /** A bucket whose tag is at most (below) every tag of an ascending (strictly ascending)
      list can go in front of it. */
  lemma ConsAscending(x: Slot, s: seq<Slot>)
    requires Ascending(s) && forall y :: y in s ==> x.tag <= y.tag
    ensures Ascending([x] + s)
    ensures StrictlyAscending(s) && (forall y :: y in s ==> x.tag < y.tag) ==> StrictlyAscending([x] + s)
  {
    var r := [x] + s;
    forall i, j | 0 <= i < j < |r| ensures r[i].tag <= r[j].tag {
      assert r[j] == s[j - 1] && r[j] in s;
      if i > 0 {
        assert r[i] == s[i - 1];
      }
    }
    if StrictlyAscending(s) && (forall y :: y in s ==> x.tag < y.tag) {
      forall i, j | 0 <= i < j < |r| ensures r[i].tag < r[j].tag {
        assert r[j] == s[j - 1] && r[j] in s;
        if i > 0 {
          assert r[i] == s[i - 1];
        }
      }
    }
  }

  /** Every bucket of an ascending list has a tag at least that of its head. */
  lemma HeadIsLeast(s: seq<Slot>)
    requires Ascending(s) && s != []
    ensures forall y :: y in s ==> s[0].tag <= y.tag
  {
    forall y | y in s ensures s[0].tag <= y.tag {
      var j :| 0 <= j < |s| && s[j] == y;
    }
  }

  /** The buckets of a permutation of `s + [b]` are `b` and those of `s`. */
  lemma MembersOfInsertion(b: Slot, s: seq<Slot>, rest: seq<Slot>)
    requires multiset(rest) == multiset(s) + multiset{b}
    ensures forall x :: x in rest ==> x == b || x in s
  {
    forall x | x in rest ensures x == b || x in s {
      assert x in multiset(rest);
    }
  }

  /** The head of a strictly ascending list is below every bucket of its tail. */
  lemma HeadBelowTail(s: seq<Slot>)
    requires StrictlyAscending(s) && s != []
    ensures forall y :: y in s[1..] ==> s[0].tag < y.tag
  {
    forall y | y in s[1..] ensures s[0].tag < y.tag {
      var j :| 0 <= j < |s[1..]| && s[1..][j] == y;
      assert s[j + 1] == y;
    }
  }

  /** An ascending list is its head in front of its (ascending) tail. */
  lemma AscendingTail(s: seq<Slot>)
    requires Ascending(s) && s != []
    ensures Ascending(s[1..])
    ensures StrictlyAscending(s) ==> StrictlyAscending(s[1..])
  {
    forall i, j | 0 <= i < j < |s[1..]| ensures s[1..][i].tag <= s[1..][j].tag {
      assert s[1..][i] == s[i + 1] && s[1..][j] == s[j + 1];
    }
    if StrictlyAscending(s) {
      forall i, j | 0 <= i < j < |s[1..]| ensures s[1..][i].tag < s[1..][j].tag {
        assert s[1..][i] == s[i + 1] && s[1..][j] == s[j + 1];
      }
    }
  }

  /** The step of `Insert` that keeps the head in front and inserts into the tail. */
  lemma InsertBehindHead(b: Slot, s: seq<Slot>, rest: seq<Slot>)
    requires Ascending(s) && s != [] && s[0].tag < b.tag
    requires Ascending(rest) && multiset(rest) == multiset(s[1..]) + multiset{b}
    requires StrictlyAscending(s[1..]) && (forall x :: x in s[1..] ==> x.tag != b.tag) ==> StrictlyAscending(rest)
    ensures Ascending([s[0]] + rest)
    ensures multiset([s[0]] + rest) == multiset(s) + multiset{b}
    ensures StrictlyAscending(s) && (forall x :: x in s ==> x.tag != b.tag) ==> StrictlyAscending([s[0]] + rest)
  {
    assert multiset([s[0]] + rest) == multiset(s) + multiset{b} by {
      assert s == [s[0]] + s[1..];
    }
    MembersOfInsertion(b, s[1..], rest);
    assert forall y :: y in rest ==> s[0].tag <= y.tag by {
      HeadIsLeast(s);
      assert forall x :: x in s[1..] ==> x in s;
    }
    ConsAscending(s[0], rest);
    if StrictlyAscending(s) && (forall x :: x in s ==> x.tag != b.tag) {
      assert StrictlyAscending(rest) by {
        AscendingTail(s);
        assert forall x :: x in s[1..] ==> x in s;
      }
      assert forall y :: y in rest ==> s[0].tag < y.tag by {
        HeadBelowTail(s);
      }
    }
  }

  /** Inserting a bucket into a list ascending by tag, before any bucket with an equal tag. */
  function Insert(b: Slot, s: seq<Slot>): (r: seq<Slot>)
    requires Ascending(s)
    ensures Ascending(r)
    ensures multiset(r) == multiset(s) + multiset{b}
    ensures StrictlyAscending(s) && (forall x :: x in s ==> x.tag != b.tag) ==> StrictlyAscending(r)
    decreases |s|
  {
    if s == [] then [b]
    else if b.tag <= s[0].tag then
      HeadIsLeast(s);
      ConsAscending(b, s);
      [b] + s
    else
      var rest := Insert(b, s[1..]);
      InsertBehindHead(b, s, rest);
      [s[0]] + rest
  }

  /** `sorted(buckets, key=lambda x: x[0])`: a stable sort by arrival index. */
  function SortByTag(bs: seq<Slot>): (r: seq<Slot>)
    ensures Ascending(r)
    ensures multiset(r) == multiset(bs)
    ensures DistinctTags(bs) ==> StrictlyAscending(r)
    decreases |bs|
  {
    if bs == [] then []
    else
      var rest := SortByTag(bs[1..]);
      assert bs == [bs[0]] + bs[1..];
      TailTagsDiffer(bs, rest);
      Insert(bs[0], rest)
  }

  /** With distinct tags, the head's tag occurs nowhere in (a permutation of) the tail. */
  lemma TailTagsDiffer(bs: seq<Slot>, rest: seq<Slot>)
    requires bs != [] && multiset(rest) == multiset(bs[1..])
    ensures DistinctTags(bs) ==> DistinctTags(bs[1..]) && forall x :: x in rest ==> x.tag != bs[0].tag
  {
    if !DistinctTags(bs) {
      return;
    }
    forall i, j | 0 <= i < |bs[1..]| && 0 <= j < |bs[1..]| && i != j
      ensures bs[1..][i].tag != bs[1..][j].tag
    {
      assert bs[1..][i] == bs[i + 1] && bs[1..][j] == bs[j + 1];
    }
    forall x | x in rest ensures x.tag != bs[0].tag {
      assert x in multiset(bs[1..]);
      var j :| 0 <= j < |bs[1..]| && bs[1..][j] == x;
      assert bs[j + 1] == x;
    }
  }

  /** Sorting a list that is already in order leaves it alone. */
  lemma {:induction false} SortByTagSorted(bs: seq<Slot>)
    requires Ascending(bs)
    ensures SortByTag(bs) == bs
    decreases |bs|
  {
    if bs != [] {
      SortByTagSorted(bs[1..]);
      assert bs == [bs[0]] + bs[1..];
    }
  }

  /** Buckets in strictly increasing tag order, each holding the row at its tag, are an
      order-preserving selection of the rows. */
  lemma {:induction false} AscendingIsSubseq(bs: seq<Slot>, rows: seq<string>, lo: nat)
    requires lo <= |rows|
    requires StrictlyAscending(bs)
    requires forall i :: 0 <= i < |bs| ==> lo <= bs[i].tag < |rows| && bs[i].line == rows[bs[i].tag]
    ensures IsSubseq(Values(bs), rows[lo..])
    decreases |rows| - lo
  {
    if bs == [] {
      EmptyIsSubseq(rows[lo..]);
    } else {
      assert lo <= bs[0].tag < |rows|;
      assert rows[lo..][1..] == rows[lo + 1..];
      if bs[0].tag == lo {
        AscendingIsSubseq(bs[1..], rows, lo + 1);
        assert Values(bs)[1..] == Values(bs[1..]);
      } else {
        AscendingIsSubseq(bs, rows, lo + 1);
      }
    }
  }

  /** The whole run of `reservoir_sample(lines, sample_size, seed)`. */
  function ReservoirOutput(lines: seq<string>, sampleSize: int, picks: seq<int>): (out: Outcome)
    requires ValidPicks(picks, |lines| - 1)
    ensures |lines| == 0 ==> out == Raised([], NoHeader)
    ensures |lines| > 0 ==> out.Emitted? && out.lines != [] && out.lines[0] == Strip(lines[0])
  {
    if lines == [] then Raised([], NoHeader)
    else
      var rows := StripAll(lines[1..]);
      if |rows| < sampleSize then
        // the fill phase runs out of rows: yield them, then the (unchanged) sorted buckets
        var filled := Filled(rows, |rows|);
        Emitted([Strip(lines[0])] + Values(filled) + Values(SortByTag(filled)))
      else
        Emitted([Strip(lines[0])] + Sampled(rows, sampleSize, picks))
  }

  /** What the final `yield from` emits when the fill phase completes: the buckets left by
      the update loop, sorted by arrival index.  That is `max(sample_size, 0)` of the rows,
      in their original order. */
  function Sampled(rows: seq<string>, sampleSize: int, picks: seq<int>): (kept: seq<string>)
    requires sampleSize <= |rows| && ValidPicks(picks, |rows|)
    ensures |kept| == Cap(sampleSize)
    ensures IsSubseq(kept, rows)
  {
    FilledIsFaithful(rows, Cap(sampleSize));
    var final := UpdatePhase(Reservoir(Filled(rows, Cap(sampleSize)), Cap(sampleSize)), rows, picks, sampleSize);
    SortedReservoirIsSubseq(final, rows, sampleSize);
    Values(SortByTag(final.buckets))
  }

  /** Phase 1, the fill loop (csvsample/csvsample.py:142-148): appends each next row, tagged
      with its arrival index, until `sample_size` buckets are in or the rows run out
      (`exhausted`, where fetching the next row raises StopIteration).  The loop counter `i` always equals
      `k`, so `k` alone drives the loop. */
  method FillReservoir(source: seq<string>, sampleSize: int) returns (buckets: seq<Slot>, k: nat, exhausted: bool)
    ensures exhausted <==> |source| < sampleSize
    ensures k == if exhausted then |source| else Cap(sampleSize)
    ensures buckets == Filled(StripAll(source), k)
  {
    ghost var rows := StripAll(source);
    buckets, k, exhausted := [], 0, false;
    while k < sampleSize
      invariant k <= |source| && (k > 0 ==> k <= sampleSize)
      invariant buckets == Filled(rows, k)
      invariant !exhausted
      decreases sampleSize - k
    {
      if k == |source| {
        exhausted := true;
        break;
      }
      FilledGrows(rows, k);
      assert rows[k] == Strip(source[k]);
      buckets := buckets + [Slot(k, Strip(source[k]))];
      k := k + 1;
    }
  }

  /** Phase 2, the update loop (csvsample/csvsample.py:151-155): each remaining row, with
      arrival index `k`, draws a position in [0, k] and replaces that bucket when the
      position is below `sample_size`. */
  method UpdateReservoir(source: seq<string>, buckets0: seq<Slot>, k0: nat, picks: seq<int>, sampleSize: int)
    returns (buckets: seq<Slot>)
    requires Inv(Reservoir(buckets0, k0), StripAll(source), sampleSize)
    requires ValidPicks(picks, |source|)
    ensures buckets == UpdatePhase(Reservoir(buckets0, k0), StripAll(source), picks, sampleSize).buckets
  {
    ghost var rows := StripAll(source);
    ghost var final := UpdatePhase(Reservoir(buckets0, k0), rows, picks, sampleSize);
    buckets := buckets0;
    var k := k0;
    while k < |source|
      invariant Inv(Reservoir(buckets, k), rows, sampleSize)
      invariant UpdatePhase(Reservoir(buckets, k), rows, picks, sampleSize) == final
      decreases |source| - k
    {
      var position := picks[k];
      UpdatePhaseStep(Reservoir(buckets, k), rows, picks, sampleSize);
      ghost var next := UpdateStep(Reservoir(buckets, k), rows[k], position, sampleSize);
      if position < sampleSize {
        buckets := buckets[position := Slot(k, Strip(source[k]))];
      }
      k := k + 1;
      assert Reservoir(buckets, k) == next;
    }
  }

  /** The imperative sampler, phase by phase as the source runs it. */
  method ReservoirSample(lines: seq<string>, sampleSize: int, picks: seq<int>) returns (out: Outcome)
    requires ValidPicks(picks, |lines| - 1)
    ensures out == ReservoirOutput(lines, sampleSize, picks)
  {
    if |lines| == 0 {
      return Raised([], NoHeader);
    }
    var emitted := [Strip(lines[0])];
    var source := lines[1..];
    var buckets, k, exhausted := FillReservoir(source, sampleSize);
    FilledIsFaithful(StripAll(source), k);
    if exhausted {
      // the rows ran out during the fill: the filled buckets are yielded at once (line 148)
      emitted := emitted + Values(buckets);
      // the update loop finds the rows exhausted and changes nothing
    } else {
      buckets := UpdateReservoir(source, buckets, k, picks, sampleSize);
      assert Values(SortByTag(buckets)) == Sampled(StripAll(source), sampleSize, picks);
    }
    emitted := emitted + Values(SortByTag(buckets));
    return Emitted(emitted);
  }

  /** Fewer rows than `sample_size`: the header, then the rows in arrival order, then the
      same rows again from the sorted buckets. */
  lemma ReservoirShortInput(lines: seq<string>, sampleSize: int, picks: seq<int>)
    requires |lines| > 0 && |lines| - 1 < sampleSize && ValidPicks(picks, |lines| - 1)
    ensures ReservoirOutput(lines, sampleSize, picks)
         == Emitted([Strip(lines[0])] + StripAll(lines[1..]) + StripAll(lines[1..]))
  {
    var rows := StripAll(lines[1..]);
    var filled := Filled(rows, |rows|);
    FilledIsFaithful(rows, |rows|);
    assert rows[..|rows|] == rows;
    assert Ascending(filled);
    SortByTagSorted(filled);
    assert Values(filled) == rows;
    assert ReservoirOutput(lines, sampleSize, picks)
        == Emitted([Strip(lines[0])] + Values(filled) + Values(SortByTag(filled)));
  }

  /** A `sample_size` of zero or less yields the header only: no bucket exists, and no
      draw `position >= 0` satisfies `position < sample_size`. */
  lemma ReservoirNoCapacity(lines: seq<string>, sampleSize: int, picks: seq<int>)
    requires |lines| > 0 && sampleSize <= 0 && ValidPicks(picks, |lines| - 1)
    ensures ReservoirOutput(lines, sampleSize, picks) == Emitted([Strip(lines[0])])
  {
    var kept := Sampled(StripAll(lines[1..]), sampleSize, picks);
    assert kept == [];
    assert [Strip(lines[0])] + kept == [Strip(lines[0])];
  }

  /** A faithful reservoir at the end of the rows, once sorted, is an order-preserving
      selection of the rows with one line per bucket. */
  lemma SortedReservoirIsSubseq(st: Reservoir, rows: seq<string>, sampleSize: int)
    requires Inv(st, rows, sampleSize) && st.k == |rows|
    ensures |Values(SortByTag(st.buckets))| == Cap(sampleSize)
    ensures IsSubseq(Values(SortByTag(st.buckets)), rows)
  {
    var sorted := SortByTag(st.buckets);
    assert DistinctTags(st.buckets);
    assert |sorted| == |multiset(sorted)| == |multiset(st.buckets)| == |st.buckets|;
    forall i | 0 <= i < |sorted| ensures 0 <= sorted[i].tag < |rows| && sorted[i].line == rows[sorted[i].tag] {
      assert sorted[i] in multiset(st.buckets);
    }
    AscendingIsSubseq(sorted, rows, 0);
    assert rows[0..] == rows;
  }

  /** At least `sample_size > 0` rows: the header, then exactly `sample_size` rows, taken
      from the stripped rows in their original order; with exactly `sample_size` rows,
      every row. */
  lemma ReservoirFullInput(lines: seq<string>, sampleSize: int, picks: seq<int>)
    requires |lines| > 0 && 0 < sampleSize <= |lines| - 1 && ValidPicks(picks, |lines| - 1)
    ensures var out := ReservoirOutput(lines, sampleSize, picks);
            |out.lines| == 1 + sampleSize &&
            IsSubseq(out.lines[1..], StripAll(lines[1..])) &&
            (|lines| - 1 == sampleSize ==> out.lines == StripAll(lines))
  {
    var rows := StripAll(lines[1..]);
    var kept := Sampled(rows, sampleSize, picks);
    var out := ReservoirOutput(lines, sampleSize, picks);
    assert out.lines == [Strip(lines[0])] + kept;
    HeaderThen(Strip(lines[0]), kept);
    if |rows| == sampleSize {
      SubseqSameLength(kept, rows);
      StripAllCons(lines);
    }
  }

  /** The lines after a header are the tail of the output. */
  lemma HeaderThen(header: string, rest: seq<string>)
    ensures |[header] + rest| == 1 + |rest| && ([header] + rest)[1..] == rest
  {
  }

  /** A header and a single row with `sample_size` 2: the stripped row is yielded twice. */
  lemma TwoLineShortInput(header: string, row: string, picks: seq<int>)
    requires ValidPicks(picks, 1)
    ensures ReservoirOutput([header, row], 2, picks) == Emitted([Strip(header), Strip(row), Strip(row)])
  {
    var lines := [header, row];
    var rows := StripAll(lines[1..]);
    assert rows == [Strip(row)] by {
      assert lines[1..] == [row];
    }
    assert ReservoirOutput(lines, 2, picks) == Emitted([Strip(lines[0])] + rows + rows) by {
      ReservoirShortInput(lines, 2, picks);
    }
    RowTwice(Strip(header), rows, Strip(row));
  }

  /** A line, then a one-row sequence twice, is the line followed by that row twice. */
  lemma RowTwice(first: string, rows: seq<string>, row: string)
    requires rows == [row]
    ensures [first] + rows + rows == [first, row, row]
  {
  }

  /** A two-line example of the double emission: with `sample_size` 2, the header "h" and
      the single row "a", the run yields "a" twice although the source holds it once. */
  lemma ShortInputRepeatsRows(picks: seq<int>)
    requires ValidPicks(picks, 1)
    ensures ReservoirOutput(["h", "a"], 2, picks) == Emitted(["h", "a", "a"])
  {
    TwoLineShortInput("h", "a", picks);
    StripKeepsWord("h");
    StripKeepsWord("a");
  }

  lemma StripKeepsWord(w: string)
    requires w != [] && !IsSpace(w[0]) && !IsSpace(w[|w| - 1])
    ensures Strip(w) == w
  {
    StripRemovesSurroundings([], w, []);
    assert [] + w + [] == w;
  }

  /** `reservoir_sample` as evidently intended: when the rows run out during the fill phase,
      the filled buckets are yielded once and the run ends. */
  function ReservoirIntended(lines: seq<string>, sampleSize: int, picks: seq<int>): (out: Outcome)
    requires ValidPicks(picks, |lines| - 1)
    ensures |lines| == 0 ==> out == Raised([], NoHeader)
    ensures |lines| > 0 ==> out.Emitted? && out.lines != [] && out.lines[0] == Strip(lines[0])
  {
    if lines == [] then Raised([], NoHeader)
    else
      var rows := StripAll(lines[1..]);
      if |rows| < sampleSize then
        Emitted([Strip(lines[0])] + Values(Filled(rows, |rows|)))
      else
        ReservoirOutput(lines, sampleSize, picks)
  }

  /** The intended sampler yields the header and then `min(sample_size, n)` of the `n`
      stripped rows, in their original order; when `sample_size >= n`, all of them. */
  lemma ReservoirIntendedCount(lines: seq<string>, sampleSize: int, picks: seq<int>)
    requires |lines| > 0 && ValidPicks(picks, |lines| - 1)
    ensures var out := ReservoirIntended(lines, sampleSize, picks);
            var n := |lines| - 1;
            |out.lines| == 1 + (if Cap(sampleSize) < n then Cap(sampleSize) else n) &&
            IsSubseq(out.lines[1..], StripAll(lines[1..])) &&
            (n <= sampleSize ==> out.lines == StripAll(lines))
  {
    var rows := StripAll(lines[1..]);
    var out := ReservoirIntended(lines, sampleSize, picks);
    StripAllCons(lines);
    if |rows| < sampleSize {
      FilledIsFaithful(rows, |rows|);
      assert rows[..|rows|] == rows;
      assert out.lines[1..] == rows;
      SubseqRefl(rows);
    } else if sampleSize <= 0 {
      ReservoirNoCapacity(lines, sampleSize, picks);
      assert out.lines[1..] == [];
      EmptyIsSubseq(rows);
    } else {
      ReservoirFullInput(lines, sampleSize, picks);
    }
  }
}
