/** The two regular expressions the translator uses to pick command names
    and `$` variables out of the free text of a line, and the name part of
    a whole call.

    Each expression is written out as a matcher giving the end of the match
    Python's engine finds at a position, and `re.findall` as a scan that
    tries every position from the left and continues after each match. */
module NameFinder {
  import opened Results
  import opened PyStrings
  import opened StringStructures

  // ---------------------------------------------------------------------
  // Character classes

  /** A character `[^().,\-+"'#*'\s]` admits. */
  predicate NameChar(c: char)
  {
    c !in {'(', ')', '.', ',', '-', '+', '"', '\'', '#', '*'} && !IsPySpace(c)
  }

  /** A character `[^'".,()\-+\s=;:]` admits. */
  predicate VarChar(c: char)
  {
    c !in {'\'', '"', '.', ',', '(', ')', '-', '+', '=', ';', ':'} && !IsPySpace(c)
  }

  /** End of the longest run of characters satisfying `ok` from `i`. */
  function RunEnd(s: string, i: nat, ok: char -> bool): (r: nat)
    requires i <= |s|
    decreases |s| - i
    ensures i <= r <= |s| && (r < |s| ==> !ok(s[r]))
    ensures forall k :: i <= k < r ==> ok(s[k])
  {
    if i == |s| || !ok(s[i]) then i else RunEnd(s, i + 1, ok)
  }

  // ---------------------------------------------------------------------
  // Command names: [^().,\-+"'#*'\s]*\(

  /** Where a match of the name expression starting at `p` ends. The greedy
      run of name characters has to be followed by `(`; giving characters
      back cannot help, since `(` is not a name character. */
  function NameMatchAt(s: string, p: nat): (r: Option<nat>)
    requires p <= |s|
    ensures r.Some? ==> p < r.value <= |s|
  {
    var q := RunEnd(s, p, NameChar);
    if q < |s| && s[q] == '(' then Some(q + 1) else None
  }

  /** `re.findall` of the name expression over `s[p..]`. */
  function NamesFrom(s: string, p: nat): seq<string>
    requires p <= |s|
    decreases |s| - p
  {
    if p == |s| then []
    else
      match NameMatchAt(s, p)
      case Some(e) => [s[p..e]] + NamesFrom(s, e)
      case None => NamesFrom(s, p + 1)
  }

  /** A match of the name expression: name characters, then `(`. */
  predicate NameMatch(m: string)
  {
    |m| > 0 && m[|m| - 1] == '(' && forall j :: 0 <= j < |m| - 1 ==> NameChar(m[j])
  }

  lemma MultisetSplit(s: string, p: nat, e: nat)
    requires p <= e <= |s|
    ensures multiset(s[p..]) == multiset(s[p..e]) + multiset(s[e..])
  {
    assert s[p..] == s[p..e] + s[e..];
  }

  /** A match holds one `(`: its last character. */
  lemma NameMatchOpening(s: string, p: nat, e: nat)
    requires p < |s| && NameMatchAt(s, p) == Some(e)
    ensures NameMatch(s[p..e]) && multiset(s[p..e])['('] == 1
  {
    var m := s[p..e];
    assert m == s[p..e - 1] + ['('];
    assert '(' !in s[p..e - 1] by {
      forall j | p <= j < e - 1 ensures s[j] != '(' {
        assert NameChar(s[j]);
      }
    }
  }

  /** Where the scan finds no match, the character is not `(`. */
  lemma NoNameMatch(s: string, p: nat)
    requires p < |s| && NameMatchAt(s, p).None?
    ensures s[p] != '('
  {
    assert !NameChar('(');
  }

  /** The scan finds exactly one match per `(`, each a name followed by
      its `(`. */
  lemma {:induction false} NamesFromCount(s: string, p: nat)
    requires p <= |s|
    ensures |NamesFrom(s, p)| == multiset(s[p..])['(']
    ensures forall k :: 0 <= k < |NamesFrom(s, p)| ==> NameMatch(NamesFrom(s, p)[k])
    decreases |s| - p
  {
    if p < |s| {
      match NameMatchAt(s, p)
      case Some(e) =>
        NamesFromCount(s, e);
        MultisetSplit(s, p, e);
        NameMatchOpening(s, p, e);
        var rest := NamesFrom(s, e);
        assert NamesFrom(s, p) == [s[p..e]] + rest;
        assert forall k :: 0 <= k < |rest| ==> ([s[p..e]] + rest)[k + 1] == rest[k];
      case None =>
        NamesFromCount(s, p + 1);
        MultisetSplit(s, p, p + 1);
        NoNameMatch(s, p);
        assert s[p..p + 1] == [s[p]];
    }
  }

  /** `x.replace(" ", "").replace("(", "")` on a match. */
  function Strip(m: string): string
  {
    Replace(Replace(m, " ", ""), "(", "")
  }

  lemma {:induction false} DropLastChar(a: string, c: char)
    requires c !in a
    ensures Replace(a + [c], [c], []) == a
    decreases |a|
  {
    if a == [] {
      assert [c][1..] == [];
    } else {
      assert (a + [c])[0] == a[0] != c;
      assert (a + [c])[1..] == a[1..] + [c];
      DropLastChar(a[1..], c);
      assert a == [a[0]] + a[1..];
    }
  }

  /** Stripping a match drops its `(` and nothing else. */
  lemma StripMatch(m: string)
    requires NameMatch(m)
    ensures Strip(m) == m[..|m| - 1]
  {
    assert !NameChar(' ');
    assert ' ' !in m by {
      forall j | 0 <= j < |m| ensures m[j] != ' ' {
        if j < |m| - 1 {
          assert NameChar(m[j]);
        }
      }
    }
    ReplaceMissingChar(m, ' ', []);
    var a := m[..|m| - 1];
    assert m == a + ['('];
    assert '(' !in a by {
      forall j | 0 <= j < |a| ensures a[j] != '(' {
        assert NameChar(m[j]);
      }
    }
    DropLastChar(a, '(');
  }

  /** The matches of the name expression over the pieces of the split: an
      empty piece raises at `string[0]`; quoted pieces are skipped. */
  function NameMatchesOf(ps: seq<string>): Result<seq<string>>
  {
    if ps == [] then Ok([])
    else if ps[0] == [] then Err(IndexError)
    else Prepend(if IsQuoted(ps[0]) then [] else NamesFrom(ps[0], 0), NameMatchesOf(ps[1..]))
  }

  /** `_find_command_names(s)`. */
  function CommandNames(s: string): Result<seq<string>>
  {
    var ps :- SplitStructures(s);
    var ms :- NameMatchesOf(ps);
    Ok(seq(|ms|, k requires 0 <= k < |ms| => Strip(ms[k])))
  }

  /** The matches over the pieces are one per `(` outside the literals,
      the quantity `count_ignore_in_quotationmarks` counts. */
  lemma {:induction false} NameMatchesCount(ps: seq<string>)
    requires NameMatchesOf(ps).Ok?
    ensures |NameMatchesOf(ps).value| == FreeCount(ps, "(")
    ensures forall k :: 0 <= k < |NameMatchesOf(ps).value| ==> NameMatch(NameMatchesOf(ps).value[k])
  {
    if ps != [] {
      NameMatchesCount(ps[1..]);
      var p := ps[0];
      if !IsQuoted(p) {
        NamesFromCount(p, 0);
        CountOneChar(p, '(');
        assert p[0..] == p;
      }
      var head := if IsQuoted(p) then [] else NamesFrom(p, 0);
      var rest := NameMatchesOf(ps[1..]).value;
      assert NameMatchesOf(ps).value == head + rest;
      assert forall k :: 0 <= k < |rest| ==> (head + rest)[|head| + k] == rest[k];
    }
  }

  /** `_find_command_names` gives one name per `(` outside the string
      literals, each the run of name characters in front of it. */
  lemma CommandNamesCount(s: string)
    requires CommandNames(s).Ok?
    ensures CountIgnore(s, "(") == Ok(|CommandNames(s).value|)
    ensures forall k, j :: 0 <= k < |CommandNames(s).value| && 0 <= j < |CommandNames(s).value[k]| ==>
      NameChar(CommandNames(s).value[k][j])
  {
    var ps := SplitStructures(s).value;
    NameMatchesCount(ps);
    var ms := NameMatchesOf(ps).value;
    forall k | 0 <= k < |ms| ensures Strip(ms[k]) == ms[k][..|ms[k]| - 1] {
      StripMatch(ms[k]);
    }
  }

  /** `_find_command_names(input_str)`. */
  method FindCommandNames(s: string) returns (r: Result<seq<string>>)
    ensures r == CommandNames(s)
  {
    var split := SplitStringStructures(s);
    if split.Err? {
      return Err(split.error);
    }
    var ps := split.value;
    var matches: seq<string> := [];
    PrependNothing(NameMatchesOf(ps));
    for i := 0 to |ps|
      invariant NameMatchesOf(ps) == Prepend(matches, NameMatchesOf(ps[i..]))
    {
      var p := ps[i];
      assert ps[i..][0] == p && ps[i..][1..] == ps[i + 1..];
      if p == [] {
        return Err(IndexError);
      }
      var found := if IsQuoted(p) then [] else NamesFrom(p, 0);
      PrependTwice(matches, found, NameMatchesOf(ps[i + 1..]));
      matches := matches + found;
    }
    assert ps[|ps|..] == [];
    assert NameMatchesOf(ps) == Ok(matches + []);
    assert matches + [] == matches;
    var names := [];
    for i := 0 to |matches|
      invariant names == seq(i, k requires 0 <= k < i => Strip(matches[k]))
    {
      names := names + [Strip(matches[i])];
    }
    return Ok(names);
  }

  // ---------------------------------------------------------------------
  // Environment variables: \$[^'".,()\-+\s=;:]+

  /** Where a match of the variable expression starting at `p` ends: a `$`
      and the longest non-empty run of variable characters after it. */
  function VarMatchAt(s: string, p: nat): (r: Option<nat>)
    requires p < |s|
    ensures r.Some? ==> p + 1 < r.value <= |s|
  {
    if s[p] == '$' && p + 1 < |s| && VarChar(s[p + 1]) then Some(RunEnd(s, p + 1, VarChar)) else None
  }

  /** `re.findall` of the variable expression over `s[p..]`. */
  function VarsFrom(s: string, p: nat): seq<string>
    requires p <= |s|
    decreases |s| - p
  {
    if p == |s| then []
    else
      match VarMatchAt(s, p)
      case Some(e) => [s[p..e]] + VarsFrom(s, e)
      case None => VarsFrom(s, p + 1)
  }

  /** A match of the variable expression: `$` and at least one variable
      character. */
  predicate VarMatch(v: string)
  {
    |v| >= 2 && v[0] == '$' && forall j :: 1 <= j < |v| ==> VarChar(v[j])
  }

  /** Every match has the variable shape, and each uses up a `$` of the
      text. */
  lemma {:induction false} VarsFromShape(s: string, p: nat)
    requires p <= |s|
    ensures |VarsFrom(s, p)| <= multiset(s[p..])['$']
    ensures forall k :: 0 <= k < |VarsFrom(s, p)| ==> VarMatch(VarsFrom(s, p)[k])
    decreases |s| - p
  {
    if p < |s| {
      match VarMatchAt(s, p)
      case Some(e) =>
        VarsFromShape(s, e);
        MultisetSplit(s, p, e);
        assert s[p..e][0] == '$';
      case None =>
        VarsFromShape(s, p + 1);
        MultisetSplit(s, p, p + 1);
    }
  }

  /** The variable matches over the non-empty free pieces of the split;
      empty and quoted pieces are skipped. */
  function VarsOf(ps: seq<string>): seq<string>
  {
    if ps == [] then [] else FreeVars(ps[0]) + VarsOf(ps[1..])
  }

  /** The variable scan passes over positions that hold no `$`. */
  lemma {:induction false} VarsSkip(s: string, p: nat, q: nat)
    requires p <= q <= |s|
    requires forall k :: p <= k < q ==> s[k] != '$'
    ensures VarsFrom(s, p) == VarsFrom(s, q)
    decreases q - p
  {
    if p < q {
      VarsSkip(s, p + 1, q);
    }
  }

  /** The run of characters satisfying `ok` is found alike in `y` and in
      `y` behind any `x`. */
  lemma {:induction false} RunEndShift(x: string, y: string, i: nat, ok: char -> bool)
    requires i <= |y|
    ensures RunEnd(x + y, |x| + i, ok) == |x| + RunEnd(y, i, ok)
    decreases |y| - i
  {
    if i < |y| {
      assert (x + y)[|x| + i] == y[i];
      RunEndShift(x, y, i + 1, ok);
    }
  }

  /** The variable scan of `y` is unchanged by text put in front of it. */
  lemma {:induction false} VarsShift(x: string, y: string, p: nat)
    requires p <= |y|
    ensures VarsFrom(x + y, |x| + p) == VarsFrom(y, p)
    decreases |y| - p
  {
    if p < |y| {
      var s := x + y;
      assert s[|x| + p] == y[p];
      if p + 1 < |y| {
        assert s[|x| + p + 1] == y[p + 1];
        RunEndShift(x, y, p + 1, VarChar);
      }
      match VarMatchAt(y, p)
      case Some(e) =>
        assert VarMatchAt(s, |x| + p) == Some(|x| + e);
        assert s[|x| + p..|x| + e] == y[p..e];
        VarsShift(x, y, e);
      case None =>
        assert VarMatchAt(s, |x| + p) == None;
        VarsShift(x, y, p + 1);
    }
  }

  /** A variable name: not empty, made of characters a variable may hold,
      and without `$`. */
  predicate PlainName(n: string)
  {
    n != [] && forall k :: 0 <= k < |n| ==> VarChar(n[k]) && n[k] != '$'
  }

  /** Two names put together make a name. */
  lemma PlainNameAppend(a: string, b: string)
    requires PlainName(a) && PlainName(b)
    ensures PlainName(a + b)
  {
    assert forall k :: 0 <= k < |a + b| ==> (a + b)[k] == if k < |a| then a[k] else b[k - |a|];
  }

  /** A name holds no quotation mark, no `$` and no space. */
  lemma PlainNameChars(n: string)
    requires PlainName(n)
    ensures '\'' !in n && '"' !in n && '$' !in n && ' ' !in n
  {
    forall c | c in n ensures VarChar(c) && c != '$' {
      var k :| 0 <= k < |n| && n[k] == c;
    }
  }

  /** `$n` in front of text that does not go on with the name is found as
      a variable, and the scan goes on with that text. */
  lemma VarsLead(n: string, y: string)
    requires PlainName(n) && (y == [] || !VarChar(y[0]))
    ensures VarsFrom("$" + n + y, 0) == ["$" + n] + VarsFrom(y, 0)
  {
    var s := "$" + n + y;
    var e := 1 + |n|;
    assert forall k :: 1 <= k < e ==> s[k] == n[k - 1];
    assert e < |s| ==> s[e] == y[0];
    var r := RunEnd(s, 1, VarChar);
    assert r == e;
    assert VarMatchAt(s, 0) == Some(e);
    assert s[0..e] == "$" + n;
    VarsShift("$" + n, y, 0);
  }

  /** Text without `$` in front adds no variable. */
  lemma VarsNoDollar(x: string, y: string)
    requires '$' !in x
    ensures VarsFrom(x + y, 0) == VarsFrom(y, 0)
  {
    assert forall k :: 0 <= k < |x| ==> (x + y)[k] == x[k];
    VarsSkip(x + y, 0, |x|);
    VarsShift(x, y, 0);
  }

  /** The variable matches of one piece: none in an empty or quoted one. */
  function FreeVars(p: string): seq<string>
  {
    if p != [] && !IsQuoted(p) then VarsFrom(p, 0) else []
  }

  /** `_find_environmental_variables(s)`. */
  function EnvVars(s: string): Result<seq<string>>
  {
    var ps :- SplitStructures(s);
    Ok(VarsOf(ps))
  }

  lemma {:induction false} VarsOfShape(ps: seq<string>)
    ensures |VarsOf(ps)| <= multiset(Concat(ps))['$']
    ensures forall k :: 0 <= k < |VarsOf(ps)| ==> VarMatch(VarsOf(ps)[k])
  {
    if ps != [] {
      VarsOfShape(ps[1..]);
      var p := ps[0];
      VarsFromShape(p, 0);
      assert p[0..] == p;
      assert Concat(ps) == p + Concat(ps[1..]);
      assert multiset(Concat(ps)) == multiset(p) + multiset(Concat(ps[1..]));
      var head := FreeVars(p);
      assert VarsOf(ps) == head + VarsOf(ps[1..]);
      AllVarMatchAppend(head, VarsOf(ps[1..]));
    }
  }

  lemma AllVarMatchAppend(head: seq<string>, rest: seq<string>)
    requires forall k :: 0 <= k < |head| ==> VarMatch(head[k])
    requires forall k :: 0 <= k < |rest| ==> VarMatch(rest[k])
    ensures forall k :: 0 <= k < |head + rest| ==> VarMatch((head + rest)[k])
  {
    forall k | 0 <= k < |head + rest| ensures VarMatch((head + rest)[k]) {
      if k >= |head| {
        assert (head + rest)[k] == rest[k - |head|];
      }
    }
  }

  /** `_find_environmental_variables` yields only `$` followed by a run of
      variable characters, at most one per `$` of the line; a line without
      `$` has none. */
  lemma EnvVarsShape(s: string)
    requires EnvVars(s).Ok?
    ensures |EnvVars(s).value| <= multiset(s)['$']
    ensures forall k :: 0 <= k < |EnvVars(s).value| ==> VarMatch(EnvVars(s).value[k])
  {
    VarsOfShape(SplitStructures(s).value);
    SplitConcat(s);
  }

  /** One step of the loop: the piece at `i` moves from the pieces still
      to scan to the matches already found. */
  lemma VarsOfStep(ps: seq<string>, i: nat, done: seq<string>)
    requires i < |ps| && done + VarsOf(ps[i..]) == VarsOf(ps)
    ensures done + FreeVars(ps[i]) + VarsOf(ps[i + 1..]) == VarsOf(ps)
  {
    VarsOfFrom(ps, i);
    MoveFront(done, VarsOf(ps[i..]), FreeVars(ps[i]), VarsOf(ps[i + 1..]), VarsOf(ps));
  }

  lemma VarsOfFrom(ps: seq<string>, i: nat)
    requires i < |ps|
    ensures VarsOf(ps[i..]) == FreeVars(ps[i]) + VarsOf(ps[i + 1..])
  {
    assert ps[i..][0] == ps[i] && ps[i..][1..] == ps[i + 1..];
  }

  /** `_find_environmental_variables(input_string)`. */
  method FindEnvironmentalVariables(s: string) returns (r: Result<seq<string>>)
    ensures r == EnvVars(s)
  {
    var split := SplitStringStructures(s);
    if split.Err? {
      return Err(split.error);
    }
    var ps := split.value;
    var vars: seq<string> := [];
    for i := 0 to |ps|
      invariant vars + VarsOf(ps[i..]) == VarsOf(ps)
    {
      var p := ps[i];
      ghost var prev := vars;
      VarsOfStep(ps, i, prev);
      if |p| > 0 && !IsQuoted(p) {
        vars := vars + VarsFrom(p, 0);
      } else {
        assert prev + [] == prev;
      }
    }
    assert ps[|ps|..] == [];
    assert vars + [] == vars;
    return Ok(vars);
  }

  // ---------------------------------------------------------------------
  // _get_commandname

  /** `x.find("(")` is the first `(`, or -1 when there is none. */
  lemma FindOpening(x: string)
    ensures '(' in x ==> 0 <= Find(x, "(") < |x| && x[Find(x, "(")] == '(' && '(' !in x[..Find(x, "(")]
    ensures '(' !in x ==> Find(x, "(") == -1
  {
    var i := Find(x, "(");
    forall k | 0 <= k < |x| ensures OccursAt(x, k, "(") <==> x[k] == '(' {
      assert x[k..k + 1] == [x[k]];
    }
    if '(' in x {
      var j :| 0 <= j < |x| && x[j] == '(';
      assert OccursAt(x, j, "(");
    }
  }

  /** `command_string[:command_string.find("(")]`: the text before the
      first `(`; without a `(` the slice ends at -1, dropping the last
      character. */
  function GetCommandname(x: string): (r: string)
    ensures r <= x
    ensures '(' in x ==> |r| < |x| && x[|r|] == '(' && '(' !in r
    ensures '(' !in x ==> |r| == if x == [] then 0 else |x| - 1
  {
    FindOpening(x);
    Slice(x, 0, Find(x, "("))
  }
}
