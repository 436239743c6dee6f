/** The string handling the samplers rely on: Python's `str.strip()`, the way `csv.reader`
    splits one line into fields, and `list.index` on the header's fields. */
module Text {
  import opened Outcomes

  /** The characters for which Python's `str.isspace()` holds; `str.strip()` removes these. */
  predicate IsSpace(c: char)
    ensures IsSpace(c) ==> c == ' ' || c < ' ' || c >= '\U{85}'
    ensures ' ' < c <= '~' ==> !IsSpace(c)
  {
    c == ' ' || ('\t' <= c <= '\r') || ('\U{1c}' <= c <= '\U{1f}') ||
    c == '\U{85}' || c == '\U{a0}' || c == '\U{1680}' || ('\U{2000}' <= c <= '\U{200a}') ||
    c == '\U{2028}' || c == '\U{2029}' || c == '\U{202f}' || c == '\U{205f}' || c == '\U{3000}'
  }

  ghost predicate AllSpace(s: string)
  {
    forall i :: 0 <= i < |s| ==> IsSpace(s[i])
  }

  /** `s.lstrip()`: drops the leading run of whitespace. */
  function TrimLeft(s: string): (r: string)
    ensures |r| <= |s| && r == s[|s| - |r|..]
    ensures forall i :: 0 <= i < |s| - |r| ==> IsSpace(s[i])
    ensures r == [] || !IsSpace(r[0])
    decreases |s|
  {
    if s != [] && IsSpace(s[0]) then
      var r := TrimLeft(s[1..]);
      assert r == s[1..][|s| - 1 - |r|..] == s[|s| - |r|..];
      assert forall i :: 1 <= i < |s| - |r| ==> s[i] == s[1..][i - 1];
      r
    else
      s
  }

  /** `s.rstrip()`: drops the trailing run of whitespace. */
  function TrimRight(s: string): (r: string)
    ensures |r| <= |s| && r == s[..|r|]
    ensures forall i :: |r| <= i < |s| ==> IsSpace(s[i])
    ensures r == [] || !IsSpace(r[|r| - 1])
    decreases |s|
  {
    if s != [] && IsSpace(s[|s| - 1]) then
      var r := TrimRight(s[..|s| - 1]);
      assert r == s[..|s| - 1][..|r|] == s[..|r|];
      assert forall i :: |r| <= i < |s| - 1 ==> s[i] == s[..|s| - 1][i];
      r
    else
      s
  }

  /** `s.strip()`: the part of `s` between its leading and its trailing whitespace. */
  function Strip(s: string): (r: string)
    ensures r == [] || (!IsSpace(r[0]) && !IsSpace(r[|r| - 1]))
    ensures r == [] <==> AllSpace(s)
    ensures |r| <= |s|
  {
    TrimBoth(s);
    TrimRight(TrimLeft(s))
  }

  lemma TrimBoth(s: string)
    ensures var r := TrimRight(TrimLeft(s));
            (r == [] || (!IsSpace(r[0]) && !IsSpace(r[|r| - 1]))) && (r == [] <==> AllSpace(s))
  {
    var l := TrimLeft(s);
    var r := TrimRight(l);
    var n := |s| - |l|;
    if r != [] {
      assert r[0] == l[0];
      assert s[n] == l[0];
    } else {
      assert l == [];
      assert forall i :: 0 <= i < |s| ==> IsSpace(s[i]);
    }
  }

  /** The stripped-line stream every sampler reads, every line stripped in place. */
  function StripAll(lines: seq<string>): (r: seq<string>)
    ensures |r| == |lines|
    ensures forall i :: 0 <= i < |lines| ==> r[i] == Strip(lines[i])
  {
    seq(|lines|, i requires 0 <= i < |lines| => Strip(lines[i]))
  }

  lemma StripAllCons(lines: seq<string>)
    requires lines != []
    ensures StripAll(lines) == [Strip(lines[0])] + StripAll(lines[1..])
  {
  }

  lemma {:induction false} TrimLeftSkips(a: string, t: string)
    requires AllSpace(a)
    requires t == [] || !IsSpace(t[0])
    ensures TrimLeft(a + t) == t
    decreases |a|
  {
    if a != [] {
      assert (a + t)[1..] == a[1..] + t;
      TrimLeftSkips(a[1..], t);
    } else {
      assert a + t == t;
    }
  }

  lemma {:induction false} TrimRightSkips(t: string, b: string)
    requires AllSpace(b)
    requires t == [] || !IsSpace(t[|t| - 1])
    ensures TrimRight(t + b) == t
    decreases |b|
  {
    if b != [] {
      assert (t + b)[..|t + b| - 1] == t + b[..|b| - 1];
      TrimRightSkips(t, b[..|b| - 1]);
    } else {
      assert t + b == t;
    }
  }

  /** `Strip` is characterised by its result: whatever surrounds a core that neither
      starts nor ends with whitespace, when the surroundings are all whitespace, is removed. */
  lemma {:induction false} StripRemovesSurroundings(a: string, m: string, b: string)
    requires AllSpace(a) && AllSpace(b)
    requires m == [] || (!IsSpace(m[0]) && !IsSpace(m[|m| - 1]))
    ensures Strip(a + m + b) == m
  {
    if m == [] {
      assert a + m + b == (a + b) + [];
      TrimLeftSkips(a + b, []);
    } else {
      assert a + m + b == a + (m + b);
      TrimLeftSkips(a, m + b);
      TrimRightSkips(m, b);
    }
  }

  /** Stripping twice is stripping once; in particular every input line of a sampler is
      re-emitted exactly as stripped. */
  lemma StripIdempotent(s: string)
    ensures Strip(Strip(s)) == Strip(s)
  {
    StripRemovesSurroundings([], Strip(s), []);
    assert [] + Strip(s) + [] == Strip(s);
  }

  /** The inverse of splitting: fields joined back with commas. */
  function Join(fields: seq<string>): string
    decreases |fields|
  {
    if fields == [] then []
    else if |fields| == 1 then fields[0]
    else fields[0] + [','] + Join(fields[1..])
  }

  /** Splitting a (quote-free) line at every comma. */
  function Split(s: string): (r: seq<string>)
    ensures |r| >= 1
    ensures forall i :: 0 <= i < |r| ==> ',' !in r[i]
    ensures Join(r) == s
    decreases |s|
  {
    if s == [] then [[]]
    else
      var rest := Split(s[1..]);
      if s[0] == ',' then
        assert Join([[]] + rest) == [','] + Join(rest) by {
          assert ([[]] + rest)[1..] == rest;
        }
        [[]] + rest
      else
        var r := [[s[0]] + rest[0]] + rest[1..];
        assert Join(r) == [s[0]] + Join(rest) by {
          if |rest| > 1 {
            assert r[1..] == rest[1..];
          }
        }
        r
  }

  lemma {:induction false} SplitPrefix(f: string, t: string)
    requires ',' !in f
    ensures Split(f + t) == [f + Split(t)[0]] + Split(t)[1..]
    decreases |f|
  {
    if f != [] {
      assert (f + t)[0] == f[0] && (f + t)[1..] == f[1..] + t;
      SplitPrefix(f[1..], t);
      assert [f[0]] + (f[1..] + Split(t)[0]) == f + Split(t)[0];
    } else {
      assert f + t == t;
      assert f + Split(t)[0] == Split(t)[0];
      assert Split(t) == [Split(t)[0]] + Split(t)[1..];
    }
  }

  /** Splitting a comma-joined list of comma-free fields gives the fields back. */
  lemma {:induction false} SplitJoin(fields: seq<string>)
    requires |fields| >= 1
    requires forall i :: 0 <= i < |fields| ==> ',' !in fields[i]
    ensures Split(Join(fields)) == fields
    decreases |fields|
  {
    if |fields| == 1 {
      SplitPrefix(fields[0], []);
      assert fields[0] + [] == fields[0];
    } else {
      var j := Join(fields[1..]);
      SplitJoin(fields[1..]);
      assert fields[0] + [','] + j == fields[0] + ([','] + j);
      SplitPrefix(fields[0], [','] + j);
      assert ([','] + j)[1..] == j;
      assert Split([','] + j) == [[]] + Split(j);
      assert fields[0] + [] == fields[0];
      assert Split(Join(fields)) == [fields[0]] + fields[1..];
      assert fields == [fields[0]] + fields[1..];
    }
  }

  /** The row `csv.reader` produces for one line without quotes: an empty line is the empty
      row, any other line is split at every comma. */
  function Fields(line: string): (r: seq<string>)
    ensures line == [] <==> r == []
    ensures line != [] ==> Join(r) == line
    ensures forall i :: 0 <= i < |r| ==> ',' !in r[i]
  {
    if line == [] then [] else Split(line)
  }

  /** `xs.index(x)`: the position of the first element equal to `x`, or `None` where
      Python raises ValueError. */
  function IndexOf(xs: seq<string>, x: string): (r: Option<nat>)
    ensures r.None? <==> x !in xs
    ensures r.Some? ==> r.value < |xs| && xs[r.value] == x && x !in xs[..r.value]
    decreases |xs|
  {
    if xs == [] then None
    else if xs[0] == x then Some(0)
    else
      match IndexOf(xs[1..], x)
      case None => None
      case Some(i) =>
        assert xs[..i + 1] == [xs[0]] + xs[1..][..i];
        Some(i + 1)
  }
}
