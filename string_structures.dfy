/** Quote-aware text handling: cutting a line into free text and Python
    string literals, and replacing or counting a substring only outside the
    literals.

    The two regular expressions the utility module scans with are written out
    as matchers that give the end of the match Python's engine finds at a
    position (first alternative first, greedy repetition, backtracking), and
    `re.finditer` becomes a scan that tries every position from the left and
    continues after each match. */
module StringStructures {
  import opened Results
  import opened PyStrings

  predicate IsQuote(c: char)
  {
    c == '\'' || c == '"'
  }

  /** A piece the utility treats as a string literal: it starts and ends
      with a quotation mark (not necessarily the same one). */
  predicate IsQuoted(x: string)
  {
    |x| > 0 && IsQuote(x[0]) && IsQuote(x[|x| - 1])
  }

  const TripleSingle: string := "'''"
  const TripleDouble: string := "\"\"\""

  // ---------------------------------------------------------------------
  // The two regular expressions

  /** First position at or after `i` holding `c`, or `|s|`. */
  function NextChar(s: string, c: char, i: nat): (r: nat)
    requires i <= |s|
    decreases |s| - i
    ensures i <= r <= |s| && (r < |s| ==> s[r] == c)
    ensures forall k :: i <= k < r ==> s[k] != c
  {
    if i == |s| || s[i] == c then i else NextChar(s, c, i + 1)
  }

  /** First position at or after `i` holding a quotation mark, or `|s|`. */
  function NextQuote(s: string, i: nat): (r: nat)
    requires i <= |s|
    decreases |s| - i
    ensures i <= r <= |s| && (r < |s| ==> IsQuote(s[r]))
    ensures forall k :: i <= k < r ==> !IsQuote(s[k])
  {
    if i == |s| || IsQuote(s[i]) then i else NextQuote(s, i + 1)
  }

  /** What the matcher accepts: `'...'` or `"..."` with no inner copy of the
      opening mark, or text opened and closed by the same triple mark. */
  predicate IsMatch(x: string, triple: bool)
  {
    if triple then
      |x| >= 6 && (x[..3] == TripleSingle || x[..3] == TripleDouble) && x[|x| - 3..] == x[..3]
    else
      |x| >= 2 && IsQuote(x[0]) && x[|x| - 1] == x[0] && forall k :: 0 < k < |x| - 1 ==> x[k] != x[0]
  }

  /** `'[^']*'|"[^"]*"` tried at `p`: the end of the match, if any. */
  function SingleMatchAt(s: string, p: nat): (r: Option<nat>)
    requires p < |s|
    ensures r.Some? ==> p < r.value <= |s| && IsMatch(s[p..r.value], false)
    ensures r.None? <==> !IsQuote(s[p]) || forall k :: p < k < |s| ==> s[k] != s[p]
  {
    if IsQuote(s[p]) then
      var q := NextChar(s, s[p], p + 1);
      if q < |s| then Some(q + 1) else None
    else None
  }

  /** `[^'"]*['"]{1,2}[^'"]*` followed by `delim`, tried from `i`: the run
      before the first mark is forced, two marks are tried before one, and
      the run after them must end at `delim`. */
  function TripleBody(s: string, i: nat, delim: string): (r: Option<nat>)
    requires i <= |s|
    ensures r.Some? ==> i + |delim| < r.value <= |s| && s[r.value - |delim|..r.value] == delim
  {
    var a := NextQuote(s, i);
    if a == |s| then None
    else
      var two := if a + 1 < |s| && IsQuote(s[a + 1]) then CloseAt(s, a + 2, delim) else None;
      if two.Some? then two else CloseAt(s, a + 1, delim)
  }

  /** `[^'"]*` from `b` followed by `delim`. */
  function CloseAt(s: string, b: nat, delim: string): (r: Option<nat>)
    requires b <= |s|
    ensures r.Some? ==> b + |delim| <= r.value <= |s| && s[r.value - |delim|..r.value] == delim
  {
    var c := NextQuote(s, b);
    if OccursAt(s, c, delim) then Some(c + |delim|) else None
  }

  /** The triple-quote expression tried at `p`:
      `'''[^']*'''`, then `'''[^'"]*['"]{1,2}[^'"]*'''`, then `"""[^"]"""`,
      then `"""[^'"]*['"]{1,2}[^'"]*"""`. */
  function TripleMatchAt(s: string, p: nat): (r: Option<nat>)
    requires p < |s|
    ensures r.Some? ==> p < r.value <= |s| && IsMatch(s[p..r.value], true)
  {
    if OccursAt(s, p, TripleSingle) then
      var q := NextChar(s, '\'', p + 3);
      var r := if OccursAt(s, q, TripleSingle) then Some(q + 3) else TripleBody(s, p + 3, TripleSingle);
      TripleEnclosed(s, p, r, TripleSingle);
      r
    else if OccursAt(s, p, TripleDouble) then
      var r := if p + 7 <= |s| && s[p + 3] != '"' && OccursAt(s, p + 4, TripleDouble) then Some(p + 7)
               else TripleBody(s, p + 3, TripleDouble);
      TripleEnclosed(s, p, r, TripleDouble);
      r
    else None
  }

  /** Text that opens at `p` with a triple mark and whose end closes with
      the same mark is a triple-quote match. */
  lemma TripleEnclosed(s: string, p: nat, r: Option<nat>, d: string)
    requires d == TripleSingle || d == TripleDouble
    requires OccursAt(s, p, d)
    requires r.Some? ==> p + 6 <= r.value <= |s| && s[r.value - 3..r.value] == d
    ensures r.Some? ==> IsMatch(s[p..r.value], true)
  {
    if r.Some? {
      var x := s[p..r.value];
      assert x[..3] == s[p..p + 3];
      assert x[|x| - 3..] == s[r.value - 3..r.value];
    }
  }

  function MatchAt(s: string, p: nat, triple: bool): (r: Option<nat>)
    requires p < |s|
    ensures r.Some? ==> p < r.value <= |s| && IsMatch(s[p..r.value], triple)
  {
    if triple then TripleMatchAt(s, p) else SingleMatchAt(s, p)
  }

  // ---------------------------------------------------------------------
  // finditer

  /** The pieces the finditer loop appends once the previous match ended
      at `last` and positions `last..p` have been tried: the text before
      each match, the match, and finally the rest of the text. */
  function ScanFrom(s: string, last: nat, p: nat, triple: bool): seq<string>
    requires last <= p <= |s|
    decreases |s| - p
  {
    if p == |s| then [s[last..]]
    else
      match MatchAt(s, p, triple)
      case Some(e) => [s[last..p], s[p..e]] + ScanFrom(s, e, e, triple)
      case None => ScanFrom(s, last, p + 1, triple)
  }

  /** The pieces one finditer loop produces for the whole text. */
  function Pieces(s: string, triple: bool): seq<string>
  {
    ScanFrom(s, 0, 0, triple)
  }

  /** One finditer loop: alternately the text before a match and the match,
      then the text after the last match. */
  method FinditerSplit(s: string, triple: bool) returns (pieces: seq<string>)
    ensures pieces == Pieces(s, triple)
  {
    pieces := [];
    var last: nat, p: nat := 0, 0;
    while p < |s|
      invariant last <= p <= |s|
      invariant pieces + ScanFrom(s, last, p, triple) == Pieces(s, triple)
      decreases |s| - p
    {
      var m := MatchAt(s, p, triple);
      if m.Some? {
        var found := [s[last..p], s[p..m.value]];
        var rest := ScanFrom(s, m.value, m.value, triple);
        assert ScanFrom(s, last, p, triple) == found + rest;
        assert pieces + (found + rest) == (pieces + found) + rest;
        pieces := pieces + found;
        last, p := m.value, m.value;
      } else {
        assert ScanFrom(s, last, p, triple) == ScanFrom(s, last, p + 1, triple);
        p := p + 1;
      }
    }
    pieces := pieces + [s[last..]];
  }

  /** Concatenating the pieces of a scan gives back the text it covers. */
  lemma {:induction false} ScanConcat(s: string, last: nat, p: nat, triple: bool)
    requires last <= p <= |s|
    ensures Concat(ScanFrom(s, last, p, triple)) == s[last..]
    decreases |s| - p
  {
    if p < |s| {
      match MatchAt(s, p, triple)
      case Some(e) =>
        ScanConcat(s, e, e, triple);
        var rest := ScanFrom(s, e, e, triple);
        assert ScanFrom(s, last, p, triple) == [s[last..p], s[p..e]] + rest;
        ConcatPair(s[last..p], s[p..e], rest);
        SuffixSplit(s, last, p, e);
      case None =>
        ScanConcat(s, last, p + 1, triple);
    } else {
      assert Concat([s[last..]]) == s[last..] + Concat([]);
    }
  }

  lemma SuffixSplit(s: string, a: nat, b: nat, c: nat)
    requires a <= b <= c <= |s|
    ensures s[a..] == s[a..b] + s[b..c] + s[c..]
  {
  }

  lemma ConcatPair(a: string, b: string, rest: seq<string>)
    ensures Concat([a, b] + rest) == a + b + Concat(rest)
  {
    var r := [a, b] + rest;
    assert r[1..] == [b] + rest && r[1..][1..] == rest;
  }

  /** A scan yields an odd number of pieces and every second piece is a
      match. */
  lemma {:induction false} ScanShape(s: string, last: nat, p: nat, triple: bool)
    requires last <= p <= |s|
    ensures Alternates(ScanFrom(s, last, p, triple), triple)
    decreases |s| - p
  {
    if p < |s| {
      match MatchAt(s, p, triple)
      case Some(e) =>
        ScanShape(s, e, e, triple);
        PrependMatch(s[last..p], s[p..e], ScanFrom(s, e, e, triple), triple);
      case None =>
        ScanShape(s, last, p + 1, triple);
    }
  }

  /** An odd number of pieces, every second one a match. */
  predicate Alternates(r: seq<string>, triple: bool)
  {
    |r| % 2 == 1 && forall k :: 0 <= k < |r| && k % 2 == 1 ==> IsMatch(r[k], triple)
  }

  /** A free piece and a match put in front of pieces that alternate keep
      them alternating. */
  lemma PrependMatch(a: string, b: string, rest: seq<string>, triple: bool)
    requires IsMatch(b, triple) && Alternates(rest, triple)
    ensures Alternates([a, b] + rest, triple)
  {
    var r := [a, b] + rest;
    forall k | 0 <= k < |r| && k % 2 == 1 ensures IsMatch(r[k], triple) {
      if k > 1 {
        assert r[k] == rest[k - 2];
      }
    }
  }

  /** Every quotation mark in a free (even-numbered) piece has no copy
      after it, in that piece or any later one. */
  predicate UnpairedInFreeText(r: seq<string>)
  {
    forall k, j :: 0 <= k < |r| && k % 2 == 0 && 0 <= j < |r[k]| && IsQuote(r[k][j]) ==>
      r[k][j] !in Concat(r[k..])[j + 1..]
  }

  /** In the single-quote scan, a quotation mark left in free text has no
      partner anywhere after it: the same mark occurs neither later in its
      own piece nor in any later piece. */
  lemma {:induction false} ScanFreeQuotes(s: string, last: nat, p: nat)
    requires last <= p <= |s|
    requires forall q :: last <= q < p ==> SingleMatchAt(s, q).None?
    ensures UnpairedInFreeText(ScanFrom(s, last, p, false))
    decreases |s| - p
  {
    var r := ScanFrom(s, last, p, false);
    if p == |s| {
      forall j | 0 <= j < |r[0]| && IsQuote(r[0][j])
        ensures r[0][j] !in Concat(r[0..])[j + 1..]
      {
        NoPartner(s, last, j);
        ScanConcat(s, last, p, false);
        assert r[0..] == r;
      }
    } else {
      match MatchAt(s, p, false)
      case Some(e) =>
        ScanFreeQuotes(s, e, e);
        var rest := ScanFrom(s, e, e, false);
        assert r == [s[last..p], s[p..e]] + rest;
        ScanConcat(s, last, p, false);
        forall j | 0 <= j < |r[0]| && IsQuote(r[0][j])
          ensures r[0][j] !in Concat(r[0..])[j + 1..]
        {
          NoPartner(s, last, j);
          assert r[0..] == r;
          assert r[0][j] == s[last..][j];
          assert Concat(r[0..]) == s[last..];
          assert Concat(r[0..])[j + 1..] == s[last..][j + 1..];
        }
        forall k, j | 2 <= k < |r| && k % 2 == 0 && 0 <= j < |r[k]| && IsQuote(r[k][j])
          ensures r[k][j] !in Concat(r[k..])[j + 1..]
        {
          var k' := k - 2;
          assert r[k..] == rest[k'..];
          assert r[k] == rest[k'];
          assert 0 <= k' < |rest| && k' % 2 == 0 && 0 <= j < |rest[k']| && IsQuote(rest[k'][j]);
          assert rest[k'][j] !in Concat(rest[k'..])[j + 1..];
        }
      case None =>
        ScanFreeQuotes(s, last, p + 1);
        assert r == ScanFrom(s, last, p + 1, false);
    }
  }

  /** A mark at `last + j` where the single-quote expression does not match
      has no copy after it. */
  lemma NoPartner(s: string, last: nat, j: nat)
    requires last + j < |s| && IsQuote(s[last + j]) && SingleMatchAt(s, last + j).None?
    ensures s[last..][j] !in s[last..][j + 1..]
  {
    assert s[last..][j + 1..] == s[last + j + 1..];
  }

  /** Text without quotation marks is a single free piece. */
  lemma {:induction false} ScanNoQuotes(s: string, last: nat, p: nat, triple: bool)
    requires last <= p <= |s|
    requires forall k :: 0 <= k < |s| ==> !IsQuote(s[k])
    ensures ScanFrom(s, last, p, triple) == [s[last..]]
    decreases |s| - p
  {
    if p < |s| {
      if triple {
        if p + 3 <= |s| {
          assert s[p..p + 3][0] == s[p];
        }
      }
      ScanNoQuotes(s, last, p + 1, triple);
    }
  }

  // ---------------------------------------------------------------------
  // split_string_structures

  /** The triple-quote pass runs when `'''` or `"""` occurs more than
      once. */
  predicate TripleBranch(s: string)
  {
    Count(s, TripleSingle) > 1 || Count(s, TripleDouble) > 1
  }

  /** The second pass over the pieces of the triple-quote scan: a quoted
      piece is kept, any other piece is split again with the single-quote
      expression, and an empty piece raises `IndexError` at `obj[0]`. */
  function Refine(ps: seq<string>): Result<seq<string>>
  {
    if ps == [] then Ok([])
    else if ps[0] == [] then Err(IndexError)
    else Prepend(if IsQuoted(ps[0]) then [ps[0]] else Pieces(ps[0], false), Refine(ps[1..]))
  }

  /** `split_string_structures(s)`. */
  function SplitStructures(s: string): Result<seq<string>>
  {
    if TripleBranch(s) then Refine(Pieces(s, true)) else Ok(Pieces(s, false))
  }

  /** `Err` passes through; otherwise `done` goes in front. */
  function Prepend(done: seq<string>, r: Result<seq<string>>): Result<seq<string>>
  {
    if r.Err? then r else Ok(done + r.value)
  }

  /** `split_string_structures(string)`. */
  method SplitStringStructures(s: string) returns (r: Result<seq<string>>)
    ensures r == SplitStructures(s)
    ensures !TripleBranch(s) ==> r == Ok(Pieces(s, false))
  {
    if Count(s, TripleSingle) > 1 || Count(s, TripleDouble) > 1 {
      var ps := FinditerSplit(s, true);
      var list: seq<string> := [];
      assert ps[0..] == ps;
      PrependNothing(Refine(ps));
      for i := 0 to |ps|
        invariant Refine(ps) == Prepend(list, Refine(ps[i..]))
      {
        assert ps[i..][1..] == ps[i + 1..];
        if ps[i] == [] {
          assert ps[i..][0] == [];
          return Err(IndexError);
        }
        ghost var old_list := list;
        var head := if IsQuoted(ps[i]) then [ps[i]] else Pieces(ps[i], false);
        if IsQuoted(ps[i]) {
          list := list + [ps[i]];
        } else {
          var sub := FinditerSplit(ps[i], false);
          list := list + sub;
        }
        assert Refine(ps) == Prepend(list, Refine(ps[i + 1..])) by {
          RefineStep(ps, i);
          PrependTwice(old_list, head, Refine(ps[i + 1..]));
        }
      }
      assert ps[|ps|..] == [];
      assert list + [] == list;
      r := Ok(list);
    } else {
      var ps := FinditerSplit(s, false);
      r := Ok(ps);
    }
  }

  lemma PrependNothing(r: Result<seq<string>>)
    ensures Prepend([], r) == r
  {
    if r.Ok? {
      assert [] + r.value == r.value;
    }
  }

  lemma PrependTwice(a: seq<string>, b: seq<string>, r: Result<seq<string>>)
    ensures Prepend(a, Prepend(b, r)) == Prepend(a + b, r)
  {
    if r.Ok? {
      assert a + (b + r.value) == a + b + r.value;
    }
  }

  lemma RefineStep(ps: seq<string>, i: nat)
    requires i < |ps| && ps[i] != []
    ensures Refine(ps[i..]) ==
            Prepend(if IsQuoted(ps[i]) then [ps[i]] else Pieces(ps[i], false), Refine(ps[i + 1..]))
  {
    assert ps[i..][0] == ps[i];
    assert ps[i..][1..] == ps[i + 1..];
  }

  /** The second pass fails exactly when the first produced an empty piece. */
  lemma {:induction false} RefineFails(ps: seq<string>)
    ensures Refine(ps).Err? <==> [] in ps
    ensures Refine(ps).Err? ==> Refine(ps).error == IndexError
  {
    if ps != [] {
      RefineFails(ps[1..]);
      assert [] in ps <==> ps[0] == [] || [] in ps[1..];
    }
  }

  lemma {:induction false} RefineConcat(ps: seq<string>)
    requires Refine(ps).Ok?
    ensures Concat(Refine(ps).value) == Concat(ps)
  {
    if ps != [] {
      RefineConcat(ps[1..]);
      var head := if IsQuoted(ps[0]) then [ps[0]] else Pieces(ps[0], false);
      ConcatAppend(head, Refine(ps[1..]).value);
      if !IsQuoted(ps[0]) {
        ScanConcat(ps[0], 0, 0, false);
      }
    }
  }

  /** The pieces of a successful split concatenate to the input. */
  lemma SplitConcat(s: string)
    requires SplitStructures(s).Ok?
    ensures Concat(SplitStructures(s).value) == s
  {
    if TripleBranch(s) {
      RefineConcat(Pieces(s, true));
      ScanConcat(s, 0, 0, true);
    } else {
      ScanConcat(s, 0, 0, false);
    }
  }

  /** In the triple-quote branch the split raises `IndexError` exactly when
      the triple-quote scan leaves an empty piece, which it does whenever the
      text begins or ends with a triple-quoted literal or two of them
      touch. */
  lemma TripleBranchFails(s: string)
    requires TripleBranch(s)
    ensures SplitStructures(s).Err? <==> [] in Pieces(s, true)
    ensures SplitStructures(s).Err? ==> SplitStructures(s).error == IndexError
    ensures |s| > 0 && MatchAt(s, 0, true).Some? ==> SplitStructures(s) == Err(IndexError)
  {
    RefineFails(Pieces(s, true));
    if |s| > 0 && MatchAt(s, 0, true).Some? {
      assert Pieces(s, true)[0] == [];
    }
  }

  /** Text without quotation marks is never cut. */
  lemma SplitNoQuotes(s: string)
    requires forall k :: 0 <= k < |s| ==> !IsQuote(s[k])
    ensures SplitStructures(s) == Ok([s])
  {
    NoTriple(s, TripleSingle);
    NoTriple(s, TripleDouble);
    ScanNoQuotes(s, 0, 0, false);
  }

  /** Every quotation mark has a neighbour that is not one. */
  predicate Lonely(s: string)
  {
    forall k {:trigger s[k]} :: 0 <= k < |s| && IsQuote(s[k]) ==>
      (k + 1 < |s| && !IsQuote(s[k + 1])) || (0 < k && !IsQuote(s[k - 1]))
  }

  /** A text whose quotation marks all have a neighbour that is not one has
      no triple quote, so it is split by the single-quote scan. */
  lemma LonelySplit(s: string)
    requires Lonely(s)
    ensures SplitStructures(s) == Ok(Pieces(s, false))
  {
    forall k | 0 <= k <= |s| - 3
      ensures !OccursAt(s, k, TripleSingle) && !OccursAt(s, k, TripleDouble)
    {
      assert s[k..k + 3][0] == s[k] && s[k..k + 3][1] == s[k + 1] && s[k..k + 3][2] == s[k + 2];
    }
    ContainsIffOccurs(s, TripleSingle);
    ContainsIffOccurs(s, TripleDouble);
    CountAbsent(s, TripleSingle);
    CountAbsent(s, TripleDouble);
  }

  lemma LonelyAppend(a: string, b: string)
    requires Lonely(a) && Lonely(b)
    ensures Lonely(a + b)
  {
    var s := a + b;
    forall k | 0 <= k < |s| && IsQuote(s[k])
      ensures (k + 1 < |s| && !IsQuote(s[k + 1])) || (0 < k && !IsQuote(s[k - 1]))
    {
      if k < |a| {
        assert IsQuote(a[k]);
        assert (k + 1 < |a| && !IsQuote(a[k + 1])) || (0 < k && !IsQuote(a[k - 1]));
        if k + 1 < |a| && !IsQuote(a[k + 1]) {
          assert s[k + 1] == a[k + 1];
        } else {
          assert s[k - 1] == a[k - 1];
        }
      } else {
        var i := k - |a|;
        assert IsQuote(b[i]);
        assert (i + 1 < |b| && !IsQuote(b[i + 1])) || (0 < i && !IsQuote(b[i - 1]));
        if i + 1 < |b| && !IsQuote(b[i + 1]) {
          assert s[k + 1] == b[i + 1];
        } else {
          assert s[k - 1] == b[i - 1];
        }
      }
    }
  }

  /** Text without quotation marks. */
  predicate FreeText(f: string)
  {
    '\'' !in f && '"' !in f
  }

  /** A single-quoted literal with some text and no quotation mark inside. */
  predicate PlainLiteral(q: string)
  {
    |q| >= 3 && q[0] == '\'' && q[|q| - 1] == '\'' && FreeText(q[1..|q| - 1])
  }

  /** Free text and plain literals by turns, starting and ending with free
      text: the shape of what the single-quote scan returns. */
  predicate Alternating(parts: seq<string>)
  {
    |parts| % 2 == 1 &&
    forall i :: 0 <= i < |parts| ==> if i % 2 == 0 then FreeText(parts[i]) else PlainLiteral(parts[i])
  }

  /** One piece of free text alternates. */
  lemma AlternatingOne(f: string)
    requires FreeText(f)
    ensures Alternating([f]) && Concat([f]) == f
  {
    assert Concat([f]) == f + Concat([]);
  }

  /** Free text and a literal in front of alternating parts alternate. */
  lemma AlternatingCons(f: string, q: string, parts: seq<string>)
    requires FreeText(f) && PlainLiteral(q) && Alternating(parts)
    ensures Alternating([f, q] + parts) && Concat([f, q] + parts) == f + q + Concat(parts)
  {
    var all := [f, q] + parts;
    forall i | 0 <= i < |all|
      ensures if i % 2 == 0 then FreeText(all[i]) else PlainLiteral(all[i])
    {
      if i >= 2 {
        assert all[i] == parts[i - 2];
      }
    }
    ConcatTwo(all);
    assert all[2..] == parts;
  }

  lemma AlternatingTail(parts: seq<string>)
    requires Alternating(parts) && |parts| > 1
    ensures FreeText(parts[0]) && PlainLiteral(parts[1]) && Alternating(parts[2..])
  {
    assert forall i :: 0 <= i < |parts[2..]| ==> parts[2..][i] == parts[i + 2];
  }

  lemma LonelyParts(parts: seq<string>)
    requires Alternating(parts)
    ensures Lonely(Concat(parts))
    decreases |parts|
  {
    var f := parts[0];
    assert FreeText(f);
    assert Lonely(f) by {
      forall k | 0 <= k < |f| ensures !IsQuote(f[k]) {
        assert f[k] in f;
      }
    }
    if |parts| == 1 {
      assert Concat(parts) == f + Concat([]);
      assert f + [] == f;
    } else {
      AlternatingTail(parts);
      var q := parts[1];
      assert Lonely(q) by {
        var w := q[1..|q| - 1];
        forall k | 0 < k < |q| - 1 ensures !IsQuote(q[k]) {
          assert q[k] == w[k - 1] && w[k - 1] in w;
        }
      }
      LonelyParts(parts[2..]);
      LonelyAppend(q, Concat(parts[2..]));
      LonelyAppend(f, q + Concat(parts[2..]));
      assert parts[1..][0] == q && parts[1..][1..] == parts[2..];
      assert Concat(parts) == f + (q + Concat(parts[2..]));
    }
  }

  /** The single-quote scan of free text and plain literals by turns, after
      any text already scanned, returns exactly those parts. */
  lemma ScanParts(pre: string, parts: seq<string>)
    requires Alternating(parts)
    ensures ScanFrom(pre + Concat(parts), |pre|, |pre|, false) == parts
    decreases |parts|, 1
  {
    if |parts| == 1 {
      assert Concat(parts) == parts[0] by {
        assert Concat(parts) == parts[0] + Concat([]);
      }
      ScanLastPart(pre, parts[0]);
    } else {
      ScanMoreParts(pre, parts);
    }
  }

  /** The step of `ScanParts`: free text and a literal, then the rest. */
  lemma ScanMoreParts(pre: string, parts: seq<string>)
    requires Alternating(parts) && |parts| > 1
    ensures ScanFrom(pre + Concat(parts), |pre|, |pre|, false) == parts
    decreases |parts|, 0
  {
    AlternatingTail(parts);
    var f, q := parts[0], parts[1];
    var rest := Concat(parts[2..]);
    var mid := pre + f + q;
    assert pre + Concat(parts) == mid + rest by {
      ConcatTwo(parts);
    }
    ScanPartStep(pre, f, q, rest);
    ScanParts(mid, parts[2..]);
    assert parts == [f, q] + parts[2..];
  }

  lemma ConcatTwo(parts: seq<string>)
    requires |parts| > 1
    ensures Concat(parts) == parts[0] + (parts[1] + Concat(parts[2..]))
  {
    assert parts[1..][0] == parts[1] && parts[1..][1..] == parts[2..];
  }

  /** Free text at the end is the last piece. */
  lemma ScanLastPart(pre: string, f: string)
    requires FreeText(f)
    ensures ScanFrom(pre + f, |pre|, |pre|, false) == [f]
  {
    var s := pre + f;
    forall k | |pre| <= k < |s| ensures !IsQuote(s[k]) {
      assert s[k] == f[k - |pre|] && f[k - |pre|] in f;
    }
    ScanRest(s, |pre|);
    assert s[|pre|..] == f;
  }

  /** Free text and a plain literal are the next two pieces. */
  lemma ScanPartStep(pre: string, f: string, q: string, rest: string)
    requires FreeText(f) && PlainLiteral(q)
    ensures ScanFrom((pre + f + q) + rest, |pre|, |pre|, false) ==
      [f, q] + ScanFrom((pre + f + q) + rest, |pre + f + q|, |pre + f + q|, false)
  {
    var s := (pre + f + q) + rest;
    var p := |pre| + |f|;
    var e := p + |q|;
    var w := q[1..|q| - 1];
    forall k | |pre| <= k < p ensures !IsQuote(s[k]) {
      assert s[k] == f[k - |pre|] && f[k - |pre|] in f;
    }
    assert s[p] == q[0] && s[e - 1] == q[|q| - 1];
    forall k | p < k < e - 1 ensures s[k] != s[p] {
      assert s[k] == w[k - p - 1] && w[k - p - 1] in w;
    }
    ScanQuoted(s, |pre|, p, e);
    assert s[|pre|..p] == f && s[p..e] == q;
  }

  /** A text made of free text and plain literals by turns is split into
      exactly those parts. */
  lemma SplitParts(parts: seq<string>)
    requires Alternating(parts)
    ensures SplitStructures(Concat(parts)) == Ok(parts)
  {
    LonelyParts(parts);
    LonelySplit(Concat(parts));
    ScanParts([], parts);
    assert [] + Concat(parts) == Concat(parts);
  }

  /** The scan passes over positions where no match starts. */
  lemma {:induction false} ScanSkip(s: string, last: nat, p: nat, q: nat, triple: bool)
    requires last <= p <= q <= |s|
    requires forall k :: p <= k < q ==> MatchAt(s, k, triple).None?
    ensures ScanFrom(s, last, p, triple) == ScanFrom(s, last, q, triple)
    decreases q - p
  {
    if p < q {
      ScanSkip(s, last, p + 1, q, triple);
    }
  }

  /** From `last`, quote-free text up to a quotation mark at `p` whose
      partner closes at `e - 1` gives that text and that literal, and the
      scan goes on after the literal. */
  lemma ScanQuoted(s: string, last: nat, p: nat, e: nat)
    requires last <= p && p + 2 <= e <= |s|
    requires forall k :: last <= k < p ==> !IsQuote(s[k])
    requires IsQuote(s[p]) && s[e - 1] == s[p]
    requires forall k :: p < k < e - 1 ==> s[k] != s[p]
    ensures ScanFrom(s, last, last, false) == [s[last..p], s[p..e]] + ScanFrom(s, e, e, false)
  {
    ScanSkip(s, last, last, p, false);
    assert NextChar(s, s[p], p + 1) == e - 1;
    assert SingleMatchAt(s, p) == Some(e);
  }

  /** Quote-free text from `last` to the end is the last piece. */
  lemma ScanRest(s: string, last: nat)
    requires last <= |s|
    requires forall k :: last <= k < |s| ==> !IsQuote(s[k])
    ensures ScanFrom(s, last, last, false) == [s[last..]]
  {
    ScanSkip(s, last, last, |s|, false);
  }

  lemma NoTriple(s: string, d: string)
    requires forall k :: 0 <= k < |s| ==> !IsQuote(s[k])
    requires d == TripleSingle || d == TripleDouble
    ensures Count(s, d) == 0
  {
    ContainsIffOccurs(s, d);
    forall i | 0 <= i <= |s| - 3 ensures !OccursAt(s, i, d) {
      assert s[i..i + 3][0] == s[i];
    }
    CountAbsent(s, d);
  }

  // ---------------------------------------------------------------------
  // replace_ignore_in_quotationmarks

  /** The first pass: non-empty pieces are collected into a running chunk
      (`temp`), except that a quoted piece containing `sub` closes the chunk
      and is placed on its own after it. */
  function Group(ps: seq<string>, temp: seq<string>, sub: string): seq<string>
  {
    if ps == [] then (if temp != [] then [Concat(temp)] else [])
    else if ps[0] == [] then Group(ps[1..], temp, sub)
    else if IsQuoted(ps[0]) && Contains(ps[0], sub) then [Concat(temp), ps[0]] + Group(ps[1..], [], sub)
    else Group(ps[1..], temp + [ps[0]], sub)
  }

  /** The second pass: empty chunks are dropped, quoted chunks kept, and
      `sub` is replaced in all others. */
  function Finish(chunks: seq<string>, sub: string, rep: string): seq<string>
  {
    if chunks == [] then [] else Finished(chunks[0], sub, rep) + Finish(chunks[1..], sub, rep)
  }

  /** What the second pass makes of one chunk. */
  function Finished(c: string, sub: string, rep: string): seq<string>
  {
    if c == [] then [] else if IsQuoted(c) then [c] else [Replace(c, sub, rep)]
  }

  /** `replace_ignore_in_quotationmarks(s, sub, rep)`. */
  function ReplaceIgnore(s: string, sub: string, rep: string): Result<string>
  {
    if !Contains(s, sub) then Ok(s)
    else if Count(s, "'") < 2 && Count(s, "\"") < 2 then Ok(Replace(s, sub, rep))
    else
      var ps :- SplitStructures(s);
      Ok(Concat(Finish(Group(ps, [], sub), sub, rep)))
  }

  /** `replace_ignore_in_quotationmarks(mainstring, substring,
      replacement)`. */
  method ReplaceIgnoreInQuotationmarks(s: string, sub: string, rep: string) returns (r: Result<string>)
    ensures r == ReplaceIgnore(s, sub, rep)
    ensures !Contains(s, sub) ==> r == Ok(s)
    ensures Contains(s, sub) && Count(s, "'") < 2 && Count(s, "\"") < 2 ==> r == Ok(Replace(s, sub, rep))
  {
    if !Contains(s, sub) {
      return Ok(s);
    }
    if Count(s, "'") < 2 && Count(s, "\"") < 2 {
      return Ok(Replace(s, sub, rep));
    }
    var split := SplitStringStructures(s);
    if split.Err? {
      return Err(split.error);
    }
    var chunks := GroupPieces(split.value, sub);
    var final := FinishChunks(chunks, sub, rep);
    return Ok(Concat(final));
  }

  /** The first loop of `replace_ignore_in_quotationmarks`. */
  method GroupPieces(ps: seq<string>, sub: string) returns (appended: seq<string>)
    ensures appended == Group(ps, [], sub)
  {
    appended := [];
    var temp: seq<string> := [];
    for i := 0 to |ps|
      invariant appended + Group(ps[i..], temp, sub) == Group(ps, [], sub)
    {
      assert ps[i..][1..] == ps[i + 1..];
      var x := ps[i];
      if x != [] {
        if IsQuoted(x) {
          if !Contains(x, sub) {
            temp := temp + [x];
          } else {
            appended := appended + [Concat(temp)];
            temp := [];
            appended := appended + [x];
          }
        } else {
          temp := temp + [x];
        }
      }
    }
    assert ps[|ps|..] == [];
    if |temp| != 0 {
      appended := appended + [Concat(temp)];
    }
  }

  /** The second loop of `replace_ignore_in_quotationmarks`. */
  method FinishChunks(chunks: seq<string>, sub: string, rep: string) returns (final: seq<string>)
    ensures final == Finish(chunks, sub, rep)
  {
    final := [];
    for i := 0 to |chunks|
      invariant final + Finish(chunks[i..], sub, rep) == Finish(chunks, sub, rep)
    {
      var c := chunks[i];
      ghost var head := Finished(c, sub, rep);
      ghost var prev := final;
      FinishStep(chunks, i, sub, rep, prev);
      if c != [] {
        if !IsQuoted(c) {
          final := final + [Replace(c, sub, rep)];
        } else {
          final := final + [c];
        }
      } else {
        assert prev + head == prev;
      }
      assert final == prev + head;
    }
    assert chunks[|chunks|..] == [];
  }

  /** One step of the second loop: the chunk at `i` moves from the rest
      of the chunks to what is already produced. */
  lemma FinishStep(chunks: seq<string>, i: nat, sub: string, rep: string, done: seq<string>)
    requires i < |chunks|
    requires done + Finish(chunks[i..], sub, rep) == Finish(chunks, sub, rep)
    ensures done + Finished(chunks[i], sub, rep) + Finish(chunks[i + 1..], sub, rep) == Finish(chunks, sub, rep)
  {
    FinishFrom(chunks, i, sub, rep);
    MoveFront(done, Finish(chunks[i..], sub, rep), Finished(chunks[i], sub, rep), Finish(chunks[i + 1..], sub, rep), Finish(chunks, sub, rep));
  }

  lemma FinishFrom(chunks: seq<string>, i: nat, sub: string, rep: string)
    requires i < |chunks|
    ensures Finish(chunks[i..], sub, rep) == Finished(chunks[i], sub, rep) + Finish(chunks[i + 1..], sub, rep)
  {
    assert chunks[i..][0] == chunks[i] && chunks[i..][1..] == chunks[i + 1..];
  }

  /** A quoted piece that contains `sub` becomes its own chunk. */
  lemma {:induction false} GroupKeeps(ps: seq<string>, temp: seq<string>, sub: string, x: string)
    requires x in ps && IsQuoted(x) && Contains(x, sub)
    ensures x in Group(ps, temp, sub)
  {
    if ps[0] == x {
      assert Group(ps, temp, sub) == [Concat(temp), x] + Group(ps[1..], [], sub);
    } else {
      assert x in ps[1..];
      if ps[0] == [] {
        GroupKeeps(ps[1..], temp, sub, x);
      } else if IsQuoted(ps[0]) && Contains(ps[0], sub) {
        GroupKeeps(ps[1..], [], sub, x);
      } else {
        GroupKeeps(ps[1..], temp + [ps[0]], sub, x);
      }
    }
  }

  lemma {:induction false} FinishKeeps(chunks: seq<string>, sub: string, rep: string, x: string)
    requires x in chunks && IsQuoted(x)
    ensures x in Finish(chunks, sub, rep)
  {
    if chunks[0] != x {
      assert x in chunks[1..];
      FinishKeeps(chunks[1..], sub, rep, x);
    }
  }

  /** Every piece that starts and ends with a quotation mark and contains
      `sub` is carried into the output unchanged, as one of the chunks the
      output is joined from. */
  lemma ReplaceIgnoreKeepsQuoted(s: string, sub: string, rep: string, x: string)
    requires Contains(s, sub) && (Count(s, "'") >= 2 || Count(s, "\"") >= 2)
    requires SplitStructures(s).Ok? && x in SplitStructures(s).value
    requires IsQuoted(x) && Contains(x, sub)
    ensures var chunks := Finish(Group(SplitStructures(s).value, [], sub), sub, rep);
            x in chunks && ReplaceIgnore(s, sub, rep) == Ok(Concat(chunks))
  {
    GroupKeeps(SplitStructures(s).value, [], sub, x);
    FinishKeeps(Group(SplitStructures(s).value, [], sub), sub, rep, x);
  }

  /** Grouping only re-joins pieces: no text is lost or reordered. */
  lemma {:induction false} GroupConcat(ps: seq<string>, temp: seq<string>, sub: string)
    ensures Concat(Group(ps, temp, sub)) == Concat(temp) + Concat(ps)
  {
    if ps == [] {
      if temp != [] {
        assert Group(ps, temp, sub) == [Concat(temp)];
        assert Concat([Concat(temp)]) == Concat(temp) + Concat([]);
      }
    } else {
      var x, tail := ps[0], Concat(ps[1..]);
      assert Concat(ps) == x + tail;
      if x == [] {
        GroupConcat(ps[1..], temp, sub);
        assert x + tail == tail;
      } else if IsQuoted(x) && Contains(x, sub) {
        GroupConcat(ps[1..], [], sub);
        ConcatPair(Concat(temp), x, Group(ps[1..], [], sub));
        assert Concat(Group(ps[1..], [], sub)) == tail by {
          assert Concat([]) + tail == tail;
        }
        assert Concat(temp) + x + tail == Concat(temp) + (x + tail);
      } else {
        GroupConcat(ps[1..], temp + [x], sub);
        ConcatAppend(temp, [x]);
        assert Concat([x]) == x by {
          assert [x][1..] == [] && x + [] == x;
        }
        assert Concat(temp) + x + tail == Concat(temp) + (x + tail);
      }
    }
  }

  /** When no quoted piece contains `sub`, the pieces all go into one chunk:
      the whole text. */
  lemma {:induction false} GroupOneChunk(ps: seq<string>, temp: seq<string>, sub: string)
    requires forall x :: x in temp ==> x != []
    requires forall x :: x in ps && IsQuoted(x) ==> !Contains(x, sub)
    ensures var whole := Concat(temp) + Concat(ps);
            Group(ps, temp, sub) == if whole == [] then [] else [whole]
  {
    if ps == [] {
      assert Concat(temp) + Concat(ps) == Concat(temp);
      if temp != [] {
        assert temp[0] in temp;
        assert Concat(temp) == temp[0] + Concat(temp[1..]);
        assert Concat(temp) != [];
      }
    } else {
      assert ps[0] in ps;
      assert Concat(ps) == ps[0] + Concat(ps[1..]);
      if ps[0] == [] {
        GroupOneChunk(ps[1..], temp, sub);
        assert Concat(ps) == Concat(ps[1..]);
        assert Group(ps, temp, sub) == Group(ps[1..], temp, sub);
        assert Concat(temp) + Concat(ps) == Concat(temp) + Concat(ps[1..]);
      } else {
        GroupOneChunk(ps[1..], temp + [ps[0]], sub);
        ConcatAppend(temp, [ps[0]]);
        assert Concat([ps[0]]) == ps[0] + Concat([]);
        assert !(IsQuoted(ps[0]) && Contains(ps[0], sub));
        assert Group(ps, temp, sub) == Group(ps[1..], temp + [ps[0]], sub);
        assert Concat(temp + [ps[0]]) + Concat(ps[1..]) == Concat(temp) + Concat(ps);
      }
    }
  }

  /** Replacing `sub` by itself changes nothing, wherever the quotes are. */
  lemma ReplaceIgnoreIdentity(s: string, sub: string)
    requires SplitStructures(s).Ok?
    ensures ReplaceIgnore(s, sub, sub) == Ok(s)
  {
    ReplaceSelf(s, sub);
    if Contains(s, sub) && !(Count(s, "'") < 2 && Count(s, "\"") < 2) {
      var ps := SplitStructures(s).value;
      var g := Group(ps, [], sub);
      GroupConcat(ps, [], sub);
      FinishSelf(g, sub);
      SplitConcat(s);
      assert Concat(g) == s;
      assert ReplaceIgnore(s, sub, sub) == Ok(Concat(Finish(g, sub, sub)));
    }
  }

  lemma {:induction false} FinishSelf(chunks: seq<string>, sub: string)
    ensures Concat(Finish(chunks, sub, sub)) == Concat(chunks)
  {
    if chunks != [] {
      FinishSelf(chunks[1..], sub);
      ReplaceSelf(chunks[0], sub);
      ConcatAppend(Finished(chunks[0], sub, sub), Finish(chunks[1..], sub, sub));
    }
  }

  /** When no quoted piece contains `sub`, the text is treated as one chunk:
      if the whole line happens to start and end with a quotation mark
      nothing is replaced, not even outside the literals; otherwise `sub` is
      replaced everywhere, inside the literals too. */
  lemma ReplaceIgnoreOneChunk(s: string, sub: string, rep: string)
    requires Contains(s, sub) && (Count(s, "'") >= 2 || Count(s, "\"") >= 2)
    requires SplitStructures(s).Ok?
    requires forall x :: x in SplitStructures(s).value && IsQuoted(x) ==> !Contains(x, sub)
    ensures ReplaceIgnore(s, sub, rep) == Ok(if IsQuoted(s) then s else Replace(s, sub, rep))
  {
    var ps := SplitStructures(s).value;
    GroupOneChunk(ps, [], sub);
    SplitConcat(s);
    assert Count([], "'") == 0 && Count([], "\"") == 0;
    assert s != [];
    assert Concat([]) + Concat(ps) == s;
    assert Group(ps, [], sub) == [s];
    var chunk := if IsQuoted(s) then s else Replace(s, sub, rep);
    assert Finish([s], sub, rep) == [chunk];
    assert Concat([chunk]) == chunk + Concat([]) == chunk;
    assert ReplaceIgnore(s, sub, rep) == Ok(Concat(Finish(Group(ps, [], sub), sub, rep)));
  }

  /** A line made of free text and one literal holding `sub`: the line is
      cut in front of the literal, and only the text is rewritten. */
  lemma ReplaceIgnoreBeforeLiteral(f: string, q: string, sub: string, rep: string)
    requires SplitStructures(f + q) == Ok([f, q, ""])
    requires f != [] && !IsQuoted(f) && IsQuoted(q) && Contains(q, sub)
    requires Contains(f + q, sub) && Count(f + q, "'") >= 2
    ensures ReplaceIgnore(f + q, sub, rep) == Ok(Replace(f, sub, rep) + q)
  {
    var ps := [f, q, ""];
    assert Group(ps, [], sub) == [f, q] by {
      assert ps[1..] == [q, ""] && [q, ""][1..] == [""] && [""][1..] == [];
      assert [] + [f] == [f];
      assert Group(ps, [], sub) == Group([q, ""], [f], sub);
      assert Concat([f]) == f by {
        assert Concat([f]) == f + Concat([]);
      }
      assert Group([""], [], sub) == [];
      assert Group([q, ""], [f], sub) == [f, q] + Group([""], [], sub);
    }
    var g := Replace(f, sub, rep);
    assert Finish([f, q], sub, rep) == [g, q] by {
      assert [f, q][1..] == [q] && [q][1..] == [];
      assert Finished(f, sub, rep) == [g] && Finished(q, sub, rep) == [q];
      assert Finish([q], sub, rep) == [q] + Finish([], sub, rep);
    }
    assert Concat([g, q]) == g + q by {
      assert [g, q][1..] == [q] && [q][1..] == [];
      assert Concat([q]) == q + Concat([]);
    }
  }

  // ---------------------------------------------------------------------
  // count_ignore_in_quotationmarks

  /** Occurrences of `sub` summed over the non-empty pieces that are not
      quoted. */
  function FreeCount(ps: seq<string>, sub: string): nat
  {
    if ps == [] then 0
    else (if ps[0] != [] && !IsQuoted(ps[0]) then Count(ps[0], sub) else 0) + FreeCount(ps[1..], sub)
  }

  /** `count_ignore_in_quotationmarks(s, sub)`. */
  function CountIgnore(s: string, sub: string): Result<nat>
  {
    var ps :- SplitStructures(s);
    Ok(FreeCount(ps, sub))
  }

  /** `count_ignore_in_quotationmarks(string, substring)`. */
  method CountIgnoreInQuotationmarks(s: string, sub: string) returns (r: Result<nat>)
    ensures r == CountIgnore(s, sub)
  {
    var split := SplitStringStructures(s);
    if split.Err? {
      return Err(split.error);
    }
    var ps := split.value;
    var combined := 0;
    for i := 0 to |ps|
      invariant combined + FreeCount(ps[i..], sub) == FreeCount(ps, sub)
    {
      assert ps[i..][1..] == ps[i + 1..];
      if ps[i] != [] && !IsQuoted(ps[i]) {
        combined := combined + Count(ps[i], sub);
      }
    }
    return Ok(combined);
  }

  lemma {:induction false} FreeCountBound(ps: seq<string>, c: char)
    ensures FreeCount(ps, [c]) <= multiset(Concat(ps))[c]
  {
    if ps != [] {
      FreeCountBound(ps[1..], c);
      CountOneChar(ps[0], c);
      assert multiset(Concat(ps)) == multiset(ps[0]) + multiset(Concat(ps[1..]));
    }
  }

  /** Counting one character outside the literals never finds more than
      counting it everywhere. */
  lemma CountIgnoreAtMostCount(s: string, c: char)
    requires CountIgnore(s, [c]).Ok?
    ensures CountIgnore(s, [c]).value <= multiset(s)[c]
  {
    FreeCountBound(SplitStructures(s).value, c);
    SplitConcat(s);
  }

  /** Text without quotation marks is counted as `str.count` counts it. */
  lemma CountIgnoreNoQuotes(s: string, sub: string)
    requires s != [] && forall k :: 0 <= k < |s| ==> !IsQuote(s[k])
    ensures CountIgnore(s, sub) == Ok(Count(s, sub))
  {
    SplitNoQuotes(s);
    assert FreeCount([s], sub) == Count(s, sub) + FreeCount([], sub);
  }
}
