/** `hash_sample`: hash-keyed sampling.  The header's fields are searched once for the
    column; each row is split into fields, the field at that column is hashed with the
    seeded 64-bit hash, and the row is kept iff the digest, as a fraction of 2^64 - 1, is
    below the sample rate.  The decision depends on the key alone, so rows sharing a key
    are kept or dropped together. */
module HashSampling {
  import opened Outcomes
  import opened Text
  import opened Subsequences

  const MaxU64: int := 0xFFFF_FFFF_FFFF_FFFF

  newtype U64 = x: int | 0 <= x <= MaxU64

  /** The per-row digest (csvsample/csvsample.py:115-117): the hasher is reset to its seed
      and fed the key alone, so the digest is the seeded 64-bit hash of the key.  The hash itself is a parameter of the model. */
  type Digest = (U64, string) -> U64

  /** `digest / 0xFFFFFFFFFFFFFFFF < sample_rate`, as an exact comparison. */
  predicate Keeps(digest: U64, sampleRate: real)
    ensures Keeps(digest, sampleRate) <==> (digest as real) < sampleRate * (MaxU64 as real)
  {
    (digest as real) / (MaxU64 as real) < sampleRate
  }

  /** `row[col_index]` for the fields `csv.reader` gives the row; `None` where it raises
      IndexError. */
  function RowKey(row: string, colIndex: nat): (r: Option<string>)
    ensures r.None? <==> |Fields(row)| <= colIndex
    ensures r.Some? ==> r.value == Fields(row)[colIndex]
  {
    var fields := Fields(row);
    if colIndex < |fields| then Some(fields[colIndex]) else None
  }

  /** The row loop of `hash_sample` (csvsample/csvsample.py:114-118): each row's parsed
      fields and its stripped line are taken together, in order. */
  function HashRows(rows: seq<string>, colIndex: nat, seed: U64, digest: Digest, sampleRate: real): (out: Outcome)
    ensures |Produced(out)| <= |rows|
    ensures out.Raised? ==> out.error == FieldMissing
    decreases |rows|
  {
    if rows == [] then Emitted([])
    else
      match RowKey(rows[0], colIndex)
      case None => Raised([], FieldMissing)
      case Some(key) =>
        Prepend(if Keeps(digest(seed, key), sampleRate) then [rows[0]] else [],
                HashRows(rows[1..], colIndex, seed, digest, sampleRate))
  }

  /** The yielded rows are some of the rows, in their original order. */
  lemma {:induction false} HashRowsIsSubseq(rows: seq<string>, colIndex: nat, seed: U64, digest: Digest, sampleRate: real)
    ensures IsSubseq(Produced(HashRows(rows, colIndex, seed, digest, sampleRate)), rows)
    decreases |rows|
  {
    if rows == [] {
      EmptyIsSubseq(rows);
    } else {
      match RowKey(rows[0], colIndex)
      case None => EmptyIsSubseq(rows);
      case Some(key) =>
        var rest := HashRows(rows[1..], colIndex, seed, digest, sampleRate);
        var keep := Keeps(digest(seed, key), sampleRate);
        HashRowsIsSubseq(rows[1..], colIndex, seed, digest, sampleRate);
        SubseqCons(rows[0], Produced(rest), rows[1..], keep);
        assert rows == [rows[0]] + rows[1..];
        assert [] + Produced(rest) == Produced(rest);
    }
  }

  /** The whole run of `hash_sample(lines, sample_rate, col, seed)`. */
  function HashSample(lines: seq<string>, sampleRate: real, col: string, seed: U64, digest: Digest): (out: Outcome)
    ensures |lines| == 0 ==> out == Raised([], NoHeader)
    ensures |lines| > 0 && col !in Fields(Strip(lines[0])) ==> out == Raised([], ColumnNotFound(col))
    ensures |lines| > 0 && col in Fields(Strip(lines[0])) ==>
              Produced(out) != [] && Produced(out)[0] == Strip(lines[0]) &&
              IsSubseq(Produced(out)[1..], StripAll(lines[1..])) &&
              (out.Raised? ==> out.error == FieldMissing)
  {
    if lines == [] then Raised([], NoHeader)
    else
      match IndexOf(Fields(Strip(lines[0])), col)
      case None => Raised([], ColumnNotFound(col))
      case Some(colIndex) =>
        var rest := HashRows(StripAll(lines[1..]), colIndex, seed, digest, sampleRate);
        HashRowsIsSubseq(StripAll(lines[1..]), colIndex, seed, digest, sampleRate);
        assert ([Strip(lines[0])] + Produced(rest))[1..] == Produced(rest);
        Prepend([Strip(lines[0])], rest)
  }

  /** Hashing a concatenation of rows is running over the first part and then, unless it
      raised, over the second. */
  lemma {:induction false} HashRowsAppend(a: seq<string>, b: seq<string>, colIndex: nat, seed: U64, digest: Digest, sampleRate: real)
    ensures HashRows(a + b, colIndex, seed, digest, sampleRate)
         == Then(HashRows(a, colIndex, seed, digest, sampleRate), HashRows(b, colIndex, seed, digest, sampleRate))
    decreases |a|
  {
    if a == [] {
      assert a + b == b;
      var o := HashRows(b, colIndex, seed, digest, sampleRate);
      match o
      case Emitted(l) => assert [] + l == l;
      case Raised(p, _) => assert [] + p == p;
    } else {
      assert (a + b)[0] == a[0] && (a + b)[1..] == a[1..] + b;
      match RowKey(a[0], colIndex)
      case None =>
      case Some(key) =>
        HashRowsAppend(a[1..], b, colIndex, seed, digest, sampleRate);
        var keep := Keeps(digest(seed, key), sampleRate);
        ThenAssociative(Emitted(if keep then [a[0]] else []),
                        HashRows(a[1..], colIndex, seed, digest, sampleRate),
                        HashRows(b, colIndex, seed, digest, sampleRate));
    }
  }

  /** The run raises iff some row has no field at the key column (IndexError). */
  lemma {:induction false} HashRowsRaises(rows: seq<string>, colIndex: nat, seed: U64, digest: Digest, sampleRate: real)
    ensures HashRows(rows, colIndex, seed, digest, sampleRate).Raised?
        <==> exists i :: 0 <= i < |rows| && RowKey(rows[i], colIndex).None?
    decreases |rows|
  {
    if rows != [] {
      HashRowsRaises(rows[1..], colIndex, seed, digest, sampleRate);
      if exists i :: 0 <= i < |rows[1..]| && RowKey(rows[1..][i], colIndex).None? {
        var i :| 0 <= i < |rows[1..]| && RowKey(rows[1..][i], colIndex).None?;
        assert rows[1..][i] == rows[i + 1];
      }
      if exists i :: 0 <= i < |rows| && RowKey(rows[i], colIndex).None? {
        var i :| 0 <= i < |rows| && RowKey(rows[i], colIndex).None?;
        if i > 0 {
          assert rows[i] == rows[1..][i - 1];
        }
      }
    }
  }

  /** A row without the key field ends the run: what was yielded before it is exactly what
      the rows before it yield, and the error is IndexError. */
  lemma {:induction false} HashRowsStopsAtBadRow(rows: seq<string>, colIndex: nat, seed: U64, digest: Digest, sampleRate: real, j: nat)
    requires j < |rows| && RowKey(rows[j], colIndex).None?
    requires forall i {:trigger RowKey(rows[i], colIndex)} :: 0 <= i < j ==> RowKey(rows[i], colIndex).Some?
    ensures HashRows(rows[..j], colIndex, seed, digest, sampleRate).Emitted?
    ensures HashRows(rows, colIndex, seed, digest, sampleRate)
         == Raised(HashRows(rows[..j], colIndex, seed, digest, sampleRate).lines, FieldMissing)
    decreases j
  {
    if j == 0 {
      assert rows[..0] == [];
    } else {
      var key := RowKey(rows[0], colIndex).value;
      var h := if Keeps(digest(seed, key), sampleRate) then [rows[0]] else [];
      var tail := rows[1..];
      assert forall i :: 0 <= i < j - 1 ==> RowKey(tail[i], colIndex).Some? by {
        assert forall i :: 0 <= i < j - 1 ==> tail[i] == rows[i + 1];
      }
      assert tail[j - 1] == rows[j];
      HashRowsStopsAtBadRow(tail, colIndex, seed, digest, sampleRate, j - 1);
      var inner := HashRows(tail[..j - 1], colIndex, seed, digest, sampleRate);
      assert rows[..j][0] == rows[0] && rows[..j][1..] == tail[..j - 1];
      assert HashRows(rows[..j], colIndex, seed, digest, sampleRate) == Prepend(h, inner);
      assert HashRows(rows, colIndex, seed, digest, sampleRate)
          == Prepend(h, Raised(inner.lines, FieldMissing));
    }
  }

  /** A run over rows that all have the key field completes. */
  lemma {:induction false} HashRowsCompletes(rows: seq<string>, colIndex: nat, seed: U64, digest: Digest, sampleRate: real)
    requires forall i :: 0 <= i < |rows| ==> RowKey(rows[i], colIndex).Some?
    ensures HashRows(rows, colIndex, seed, digest, sampleRate).Emitted?
    decreases |rows|
  {
    if rows != [] {
      assert RowKey(rows[0], colIndex).Some?;
      assert forall i :: 0 <= i < |rows[1..]| ==> rows[1..][i] == rows[i + 1];
      HashRowsCompletes(rows[1..], colIndex, seed, digest, sampleRate);
    }
  }

  /** Row `i`, when it has the key field, is yielded, between what the earlier and the later
      rows yield, iff the digest of its key is below the rate. */
  lemma HashRowsRowDecision(rows: seq<string>, colIndex: nat, seed: U64, digest: Digest, sampleRate: real, i: nat)
    requires i < |rows| && RowKey(rows[i], colIndex).Some?
    ensures HashRows(rows, colIndex, seed, digest, sampleRate)
         == Then(HashRows(rows[..i], colIndex, seed, digest, sampleRate),
                 Prepend(if Keeps(digest(seed, RowKey(rows[i], colIndex).value), sampleRate) then [rows[i]] else [],
                         HashRows(rows[i + 1..], colIndex, seed, digest, sampleRate)))
  {
    assert rows == rows[..i] + rows[i..];
    HashRowsAppend(rows[..i], rows[i..], colIndex, seed, digest, sampleRate);
    assert rows[i..][0] == rows[i] && rows[i..][1..] == rows[i + 1..];
  }

  /** How many of `xs` have `key` in the key column. */
  function CountKey(xs: seq<string>, colIndex: nat, key: string): nat
    decreases |xs|
  {
    if xs == [] then 0
    else (if RowKey(xs[0], colIndex) == Some(key) then 1 else 0) + CountKey(xs[1..], colIndex, key)
  }

  /** All-or-nothing groups: in a completed run, the rows with a given key are either all
      there or all absent. */
  lemma {:induction false} HashRowsKeepsGroups(rows: seq<string>, colIndex: nat, seed: U64, digest: Digest, sampleRate: real, key: string)
    requires HashRows(rows, colIndex, seed, digest, sampleRate).Emitted?
    ensures CountKey(HashRows(rows, colIndex, seed, digest, sampleRate).lines, colIndex, key)
         == if Keeps(digest(seed, key), sampleRate) then CountKey(rows, colIndex, key) else 0
    decreases |rows|
  {
    if rows != [] {
      var k0 := RowKey(rows[0], colIndex).value;
      var rest := HashRows(rows[1..], colIndex, seed, digest, sampleRate);
      HashRowsKeepsGroups(rows[1..], colIndex, seed, digest, sampleRate, key);
      if Keeps(digest(seed, k0), sampleRate) {
        var ls := [rows[0]] + rest.lines;
        assert ls[0] == rows[0] && ls[1..] == rest.lines;
      } else {
        assert [] + rest.lines == rest.lines;
      }
    }
  }

  /** The digest fraction lies in [0, 1], and is 1 only for the largest digest: rate 0
      keeps nothing, a rate above 1 keeps everything, and rate 1 drops that one digest. */
  lemma KeepsBounds(d: U64, sampleRate: real)
    ensures sampleRate <= 0.0 ==> !Keeps(d, sampleRate)
    ensures sampleRate > 1.0 ==> Keeps(d, sampleRate)
    ensures Keeps(d, 1.0) <==> d as int < MaxU64
  {
    var m := MaxU64 as real;
    var f := (d as real) / m;
    assert f * m == d as real;
    assert 0.0 <= d as real <= m;
    assert 0.0 <= f <= 1.0;
    assert f == 1.0 <==> d as real == m;
  }

  /** At rate 0 a run yields no row; above rate 1 a completed run yields every row. */
  lemma {:induction false} HashRowsExtremes(rows: seq<string>, colIndex: nat, seed: U64, digest: Digest, sampleRate: real)
    ensures sampleRate <= 0.0 ==> Produced(HashRows(rows, colIndex, seed, digest, sampleRate)) == []
    ensures sampleRate > 1.0 && HashRows(rows, colIndex, seed, digest, sampleRate).Emitted? ==>
              HashRows(rows, colIndex, seed, digest, sampleRate).lines == rows
    decreases |rows|
  {
    if rows != [] {
      HashRowsExtremes(rows[1..], colIndex, seed, digest, sampleRate);
      match RowKey(rows[0], colIndex)
      case None =>
      case Some(key) =>
        KeepsBounds(digest(seed, key), sampleRate);
        var rest := HashRows(rows[1..], colIndex, seed, digest, sampleRate);
        if sampleRate > 1.0 {
          assert HashRows(rows, colIndex, seed, digest, sampleRate) == Prepend([rows[0]], rest);
          if rest.Emitted? {
            assert rows == [rows[0]] + rows[1..];
          }
        } else if sampleRate <= 0.0 {
          assert HashRows(rows, colIndex, seed, digest, sampleRate) == Prepend([], rest);
        }
    }
  }

  /** Above rate 1, a run that meets a row without the key field yields every row before
      the first such row, then raises IndexError. */
  lemma HashRowsAboveOneStops(rows: seq<string>, colIndex: nat, seed: U64, digest: Digest, sampleRate: real, j: nat)
    requires sampleRate > 1.0
    requires j < |rows| && RowKey(rows[j], colIndex).None?
    requires forall i {:trigger RowKey(rows[i], colIndex)} :: 0 <= i < j ==> RowKey(rows[i], colIndex).Some?
    ensures HashRows(rows, colIndex, seed, digest, sampleRate) == Raised(rows[..j], FieldMissing)
  {
    HashRowsStopsAtBadRow(rows, colIndex, seed, digest, sampleRate, j);
    HashRowsExtremes(rows[..j], colIndex, seed, digest, sampleRate);
  }

  /** `hash_sample` when the column exists: it raises iff some row lacks the column; and
      a completed run keeps or drops each key's rows as a group. */
  lemma HashSampleGroups(lines: seq<string>, sampleRate: real, col: string, seed: U64, digest: Digest, key: string)
    requires |lines| > 0 && col in Fields(Strip(lines[0]))
    ensures var colIndex := IndexOf(Fields(Strip(lines[0])), col).value;
            var out := HashSample(lines, sampleRate, col, seed, digest);
            var rows := StripAll(lines[1..]);
            (out.Raised? <==> exists i :: 0 <= i < |rows| && |Fields(rows[i])| <= colIndex) &&
            (out.Emitted? ==>
               CountKey(out.lines[1..], colIndex, key)
                 == if Keeps(digest(seed, key), sampleRate) then CountKey(rows, colIndex, key) else 0)
  {
    var colIndex := IndexOf(Fields(Strip(lines[0])), col).value;
    var rows := StripAll(lines[1..]);
    HashRowsRaises(rows, colIndex, seed, digest, sampleRate);
    var o := HashRows(rows, colIndex, seed, digest, sampleRate);
    if o.Emitted? {
      HashRowsKeepsGroups(rows, colIndex, seed, digest, sampleRate, key);
      assert ([Strip(lines[0])] + o.lines)[1..] == o.lines;
    }
  }
}
