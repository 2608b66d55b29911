/** The translator: rewriting a line of shell input into Python source.
    `$name` variables become keys of the `EnV` container, and calls of
    registered commands become calls of the `main` function of the
    command's module, preceded by the import lines they need. The command
    registry is a map from command name to module name. */
module Translate {
  import opened Results
  import opened PyStrings
  import opened StringStructures
  import opened CommandFinder
  import opened NameFinder

  // ---------------------------------------------------------------------
  // Helpers about replace_ignore_in_quotationmarks

  /** A line with fewer than two of each quotation mark is rewritten with
      plain `str.replace`. */
  lemma ReplaceIgnorePlain(s: string, sub: string, rep: string)
    requires sub != [] && Count(s, "'") < 2 && Count(s, "\"") < 2
    ensures ReplaceIgnore(s, sub, rep) == Ok(Replace(s, sub, rep))
  {
    if !Contains(s, sub) {
      ReplaceAbsent(s, sub, rep);
    }
  }

  /** A line without quotation marks is rewritten with plain
      `str.replace`. */
  lemma ReplaceIgnoreQuoteFree(s: string, sub: string, rep: string)
    requires sub != []
    ensures (forall k :: 0 <= k < |s| ==> !IsQuote(s[k])) ==>
      ReplaceIgnore(s, sub, rep) == Ok(Replace(s, sub, rep))
  {
    if forall k :: 0 <= k < |s| ==> !IsQuote(s[k]) {
      NoQuoteCount(s);
      ReplaceIgnorePlain(s, sub, rep);
    }
  }

  /** A line without quotation marks has fewer than two of each. */
  lemma NoQuoteCount(s: string)
    requires forall k :: 0 <= k < |s| ==> !IsQuote(s[k])
    ensures Count(s, "'") == 0 && Count(s, "\"") == 0
  {
    CountOneChar(s, '\'');
    CountOneChar(s, '"');
    assert '\'' !in s && '"' !in s;
  }

  // ---------------------------------------------------------------------
  // _translate_environmental_variables

  /** `variable_name.replace('$', '')`: the name with every `$` deleted and
      every other character kept. */
  function EnvName(v: string): (r: string)
    ensures multiset(r) == multiset(v)['$' := 0]
    ensures '$' !in r
  {
    ReplaceCharByNothing(v, '$');
    var r := Replace(v, "$", "");
    assert multiset(r)['$'] == 0;
    r
  }

  /** `"EnV['{}']".format(name)`. */
  function EnvKey(v: string): string
  {
    "EnV['" + EnvName(v) + "']"
  }

  /** The loop over the variables found: each is replaced, outside the
      string literals, by its key; any replacement may raise. */
  function ReplaceVars(t: string, vars: seq<string>): Result<string>
    decreases vars
  {
    if vars == [] then Ok(t)
    else
      var t' :- ReplaceIgnore(t, vars[0], EnvKey(vars[0]));
      ReplaceVars(t', vars[1..])
  }

  /** `_translate_environmental_variables(input_string)`. */
  function TranslateEnv(s: string): Result<string>
  {
    var vars :- EnvVars(s);
    ReplaceVars(s, vars)
  }

  /** A line without `$` is left as it is. */
  lemma TranslateEnvNoDollar(s: string)
    requires SplitStructures(s).Ok? && '$' !in s
    ensures TranslateEnv(s) == Ok(s)
  {
    EnvVarsShape(s);
  }

  /** A line without quotation marks and with one variable has that
      variable replaced everywhere by `EnV['name']`, the `$` dropped. */
  lemma TranslateEnvOneVar(s: string, v: string)
    requires forall k :: 0 <= k < |s| ==> !IsQuote(s[k])
    requires EnvVars(s) == Ok([v])
    ensures TranslateEnv(s) == Ok(Replace(s, v, "EnV['" + EnvName(v) + "']"))
  {
    var vars := EnvVars(s).value;
    EnvVarsShape(s);
    assert vars[0] == v;
    assert |v| >= 2;
    NoQuoteCount(s);
    ReplaceIgnorePlain(s, v, EnvKey(v));
    OneVar(s, v);
  }

  lemma OneVar(t: string, v: string)
    requires ReplaceIgnore(t, v, EnvKey(v)).Ok?
    ensures ReplaceVars(t, [v]) == ReplaceIgnore(t, v, EnvKey(v))
  {
    assert [v][1..] == [];
  }

  /** `_translate_environmental_variables(input_string)`. */
  method TranslateEnvironmentalVariables(s: string) returns (r: Result<string>)
    ensures r == TranslateEnv(s)
  {
    var found := FindEnvironmentalVariables(s);
    if found.Err? {
      return Err(found.error);
    }
    var vars := found.value;
    var t := s;
    for i := 0 to |vars|
      invariant ReplaceVars(s, vars) == ReplaceVars(t, vars[i..])
    {
      var v := vars[i];
      assert vars[i..][0] == v && vars[i..][1..] == vars[i + 1..];
      var next := ReplaceIgnoreInQuotationmarks(t, v, "EnV['" + EnvName(v) + "']");
      if next.Err? {
        return Err(next.error);
      }
      t := next.value;
    }
    assert vars[|vars|..] == [];
    return Ok(t);
  }

  // ---------------------------------------------------------------------
  // Lines with several variables

  /** The key of `$name`, for a name without `$`, is `EnV['name']`. */
  lemma EnvKeyOf(n: string)
    requires '$' !in n
    ensures EnvKey("$" + n) == "EnV['" + n + "']"
  {
    ReplaceHere("$", n, "");
    ReplaceMissingChar(n, '$', "");
  }

  /** `$n` does not start `$m` followed by a character that ends a name,
      unless `n` starts `m`. */
  lemma DollarNotPrefix(n: string, m: string, tail: string)
    requires PlainName(n) && !(n <= m)
    requires tail != [] && !VarChar(tail[0])
    ensures !("$" + n <= "$" + m + tail)
  {
    if |n| <= |m| {
      assert n != m[..|n|];
      var k :| 0 <= k < |n| && n[k] != m[k];
      assert ("$" + n)[k + 1] == n[k] && ("$" + m + tail)[k + 1] == m[k];
    } else {
      assert ("$" + n)[|m| + 1] == n[|m|] && ("$" + m + tail)[|m| + 1] == tail[0];
    }
  }

  /** The line of the documentation of `_translate_environmental_variables`,
      `$n = $m and '$n'`, for any two names neither of which starts the
      other: the two variables outside the literal are rewritten, the one
      inside it is kept. */
  lemma TranslateEnvDocLine(n: string, m: string)
    requires PlainName(n) && PlainName(m) && !(n <= m) && !(m <= n)
    ensures TranslateEnv("$" + n + " = $" + m + " and '$" + n + "'") ==
      Ok("EnV['" + n + "'] = EnV['" + m + "'] and '$" + n + "'")
  {
    var s := "$" + n + " = $" + m + " and '$" + n + "'";
    var t1 := "EnV['" + n + "'] = $" + m + " and '$" + n + "'";
    var t2 := "EnV['" + n + "'] = EnV['" + m + "'] and '$" + n + "'";
    DocLineVars(n, m);
    EnvKeyOf(n);
    EnvKeyOf(m);
    DocLineFirst(n, m);
    DocLineSecond(n, m);
    assert ["$" + n, "$" + m][1..] == ["$" + m];
    assert ["$" + m][1..] == [];
    assert ReplaceVars(t1, ["$" + m]) == Ok(t2);
  }

  /** The documentation line splits into the text before the literal, the
      literal and nothing. */
  lemma DocLinePieces(n: string, m: string)
    requires PlainName(n) && PlainName(m)
    ensures var f := "$" + n + " = $" + m + " and ";
      SplitStructures(f + ("'$" + n + "'")) == Ok([f, "'$" + n + "'", ""])
  {
    var f := "$" + n + " = $" + m + " and ";
    var q := "'$" + n + "'";
    PlainNameChars(n);
    PlainNameChars(m);
    assert FreeText(f);
    assert PlainLiteral(q) by {
      assert q[1..|q| - 1] == "$" + n;
    }
    AlternatingOne("");
    AlternatingCons(f, q, [""]);
    assert [f, q] + [""] == [f, q, ""];
    assert f + q + "" == f + q;
    SplitParts([f, q, ""]);
  }

  /** The variables of the documentation line are `$n` and `$m`. */
  lemma DocLineVars(n: string, m: string)
    requires PlainName(n) && PlainName(m)
    ensures EnvVars("$" + n + " = $" + m + " and '$" + n + "'") == Ok(["$" + n, "$" + m])
  {
    var f := "$" + n + " = $" + m + " and ";
    var q := "'$" + n + "'";
    DocLinePieces(n, m);
    assert "$" + n + " = $" + m + " and '$" + n + "'" == f + q;
    DocLineFreeVars(n, m);
    var ps := [f, q, ""];
    assert ps[1..] == [q, ""] && ps[2..] == [""] && ps[3..] == [];
    assert FreeVars(f) == ["$" + n, "$" + m];
    assert IsQuoted(q) && FreeVars(q) == [] && FreeVars("") == [];
    assert VarsOf(ps[2..]) == [];
    assert VarsOf(ps[1..]) == [];
    assert VarsOf(ps) == ["$" + n, "$" + m];
  }

  /** The text before the literal holds the variables `$n` and `$m`. */
  lemma DocLineFreeVars(n: string, m: string)
    requires PlainName(n) && PlainName(m)
    ensures VarsFrom("$" + n + " = $" + m + " and ", 0) == ["$" + n, "$" + m]
  {
    var r1 := " and ";
    var r2 := "$" + m + r1;
    var r3 := " = " + r2;
    assert "$" + n + " = $" + m + " and " == "$" + n + r3;
    VarsLead(n, r3);
    VarsNoDollar(" = ", r2);
    VarsLead(m, r1);
    VarsNoDollar(r1, []);
    assert r1 + [] == r1;
  }

  /** `$n` also occurs inside the literal, so the line is cut in front of
      the literal and only the text before it is rewritten. */
  lemma DocLineFirst(n: string, m: string)
    requires PlainName(n) && PlainName(m) && !(n <= m)
    ensures ReplaceIgnore("$" + n + " = $" + m + " and '$" + n + "'", "$" + n, "EnV['" + n + "']") ==
      Ok("EnV['" + n + "'] = $" + m + " and '$" + n + "'")
  {
    var sub := "$" + n;
    var key := "EnV['" + n + "']";
    var f := "$" + n + " = $" + m + " and ";
    var q := "'$" + n + "'";
    var s := f + q;
    DocLineFirstShape(n, m);
    assert ReplaceIgnore(s, sub, key) == Ok(Replace(f, sub, key) + q) by {
      DocLinePieces(n, m);
      assert f == sub + (" = $" + m + " and ") && q == "'" + sub + "'";
      SubBeforeAndInLiteral(sub, " = $" + m + " and ", "'", "'");
      ReplaceIgnoreBeforeLiteral(f, q, sub, key);
    }
    DocFirstReplace(n, m);
  }

  /** `sub` at the start of a line and inside its closing literal. */
  lemma SubBeforeAndInLiteral(sub: string, x: string, o: string, c: string)
    requires sub != [] && !IsQuote(sub[0]) && o == "'" && c == "'"
    ensures var f := sub + x;
      var q := o + sub + c;
      f != [] && !IsQuoted(f) && IsQuoted(q) && Contains(q, sub) &&
      Contains(f + q, sub) && Count(f + q, "'") >= 2
  {
    var f := sub + x;
    var q := o + sub + c;
    var s := f + q;
    assert OccursAt(s, 0, sub) && OccursAt(q, 1, sub);
    ContainsIffOccurs(s, sub);
    ContainsIffOccurs(q, sub);
    CountTwo(s, '\'', |f|, |s| - 1);
  }

  /** The documentation line before and after the first step, cut at the
      literal. */
  lemma DocLineFirstShape(n: string, m: string)
    ensures "$" + n + " = $" + m + " and '$" + n + "'" == ("$" + n + " = $" + m + " and ") + ("'$" + n + "'")
    ensures "EnV['" + n + "'] = $" + m + " and '$" + n + "'" == ("EnV['" + n + "']" + " = $" + m + " and ") + ("'$" + n + "'")
  {
  }

  /** `str.replace` of `$n` in the text before the literal. */
  lemma DocFirstReplace(n: string, m: string)
    requires PlainName(n) && PlainName(m) && !(n <= m)
    ensures Replace("$" + n + " = $" + m + " and ", "$" + n, "EnV['" + n + "']") ==
      "EnV['" + n + "']" + " = $" + m + " and "
  {
    var sub := "$" + n;
    var key := "EnV['" + n + "']";
    var rest := "$" + m + " and ";
    DocFirstRest(n, m);
    ReplaceLeading(sub, " = ", rest, key);
    DocFirstShape(n, m);
  }

  /** The text before the literal, before and after the first step, cut
      around `$n` and its key. */
  lemma DocFirstShape(n: string, m: string)
    ensures "$" + n + " = $" + m + " and " == ("$" + n) + " = " + ("$" + m + " and ")
    ensures "EnV['" + n + "']" + " = $" + m + " and " == ("EnV['" + n + "']") + (" = " + ("$" + m + " and "))
  {
  }

  /** `$n` does not occur in `$m and `. */
  lemma DocFirstRest(n: string, m: string)
    requires PlainName(n) && PlainName(m) && !(n <= m)
    ensures Replace("$" + m + " and ", "$" + n, "EnV['" + n + "']") == "$" + m + " and "
  {
    var sub := "$" + n;
    var key := "EnV['" + n + "']";
    var t := m + " and ";
    PlainNameChars(m);
    assert Replace(t, sub, key) == t by {
      ReplaceSkip(t, [], sub, key);
      assert t + [] == t;
    }
    DollarNotPrefix(n, m, " and ");
    assert "$" + m + " and " == "$" + t;
    assert ("$" + t)[1..] == t;
  }

  /** After the first step the line holds two literals, `'n'` and `'$n'`,
      neither containing `$m`, so `$m` is replaced as by `str.replace`. */
  lemma DocLineSecond(n: string, m: string)
    requires PlainName(n) && PlainName(m) && !(m <= n)
    ensures ReplaceIgnore("EnV['" + n + "'] = $" + m + " and '$" + n + "'", "$" + m, "EnV['" + m + "']") ==
      Ok("EnV['" + n + "'] = EnV['" + m + "'] and '$" + n + "'")
  {
    var sub := "$" + m;
    var key := "EnV['" + m + "']";
    var a := "EnV[";
    var q1 := "'" + n + "'";
    var b := "] = $" + m + " and ";
    var q2 := "'$" + n + "'";
    var t := a + q1 + b + q2;
    DocLineSecondShape(n, m);
    assert ReplaceIgnore(t, sub, key) == Ok(Replace(t, sub, key)) by {
      DocSecondPieces(n, m);
      DocSecondLiterals(n, m);
      assert a[0] == 'E' && b[0] == ']';
      assert forall x :: x in [a, q1, b, q2, ""] && IsQuoted(x) ==> !Contains(x, sub);
      DocSecondCounts(n, m);
      ReplaceIgnoreOneChunk(t, sub, key);
    }
    DocSecondReplace(n, m);
  }

  /** The line after the first step, cut into its pieces. */
  lemma DocLineSecondShape(n: string, m: string)
    ensures "EnV['" + n + "'] = $" + m + " and '$" + n + "'" ==
      "EnV[" + ("'" + n + "'") + ("] = $" + m + " and ") + ("'$" + n + "'")
  {
  }

  /** Neither literal of the line after the first step holds `$m`. */
  lemma DocSecondLiterals(n: string, m: string)
    requires PlainName(n) && PlainName(m) && !(m <= n)
    ensures !Contains("'" + n + "'", "$" + m) && !Contains("'$" + n + "'", "$" + m)
  {
    var sub := "$" + m;
    var q1 := "'" + n + "'";
    var q2 := "'$" + n + "'";
    PlainNameChars(n);
    assert !Contains(q1, sub) by {
      assert '$' !in q1;
      ContainsFirst(q1, sub);
    }
    assert !Contains(q2, sub) by {
      var z := "$" + n + "'";
      assert q2[1..] == z && z[1..] == n + "'";
      DollarNotPrefix(m, n, "'");
      assert '$' !in n + "'";
      ContainsFirst(n + "'", sub);
      assert !Contains(z, sub);
    }
  }

  /** The line after the first step holds `$m`, two single quotation
      marks, and does not end with one. */
  lemma DocSecondCounts(n: string, m: string)
    requires PlainName(m)
    ensures var t := "EnV[" + ("'" + n + "'") + ("] = $" + m + " and ") + ("'$" + n + "'");
      Contains(t, "$" + m) && Count(t, "'") >= 2 && !IsQuoted(t)
  {
    var sub := "$" + m;
    var a := "EnV[";
    var q1 := "'" + n + "'";
    var b := "] = " + sub + " and ";
    var q2 := "'$" + n + "'";
    var t := a + q1 + b + q2;
    assert "] = $" + m + " and " == b;
    var i := |a + q1| + 4;
    assert t[i..i + |sub|] == sub;
    assert OccursAt(t, i, sub);
    ContainsIffOccurs(t, sub);
    CountTwo(t, '\'', 4, |a + q1| - 1);
    assert t[0] == 'E';
  }

  /** The line after the first step splits into `EnV[`, `'n'`, the text up
      to the second literal, `'$n'` and nothing. */
  lemma DocSecondPieces(n: string, m: string)
    requires PlainName(n) && PlainName(m)
    ensures SplitStructures("EnV[" + ("'" + n + "'") + ("] = $" + m + " and ") + ("'$" + n + "'")) ==
      Ok(["EnV[", "'" + n + "'", "] = $" + m + " and ", "'$" + n + "'", ""])
  {
    var a := "EnV[";
    var q1 := "'" + n + "'";
    var b := "] = $" + m + " and ";
    var q2 := "'$" + n + "'";
    var parts := [a, q1, b, q2, ""];
    assert Alternating(parts) && Concat(parts) == a + q1 + b + q2 by {
      PlainNameChars(n);
      PlainNameChars(m);
      assert FreeText(a) && FreeText(b);
      assert PlainLiteral(q1) by {
        assert q1[1..|q1| - 1] == n;
      }
      assert PlainLiteral(q2) by {
        assert q2[1..|q2| - 1] == "$" + n;
      }
      AlternatingOne("");
      AlternatingCons(b, q2, [""]);
      AlternatingCons(a, q1, [b, q2] + [""]);
      assert [a, q1] + ([b, q2] + [""]) == parts;
      assert a + q1 + (b + q2 + "") == a + q1 + b + q2;
    }
    SplitParts(parts);
  }

  /** `str.replace` of `$m` in the line after the first step. */
  lemma DocSecondReplace(n: string, m: string)
    requires PlainName(n) && PlainName(m) && !(m <= n)
    ensures Replace("EnV['" + n + "'] = $" + m + " and '$" + n + "'", "$" + m, "EnV['" + m + "']") ==
      "EnV['" + n + "'] = EnV['" + m + "'] and '$" + n + "'"
  {
    var sub := "$" + m;
    var key := "EnV['" + m + "']";
    var x := "EnV['" + n + "'] = ";
    var w := " and '$" + n + "'";
    PlainNameChars(n);
    DocSecondTail(n, m);
    ReplaceOnce(x, sub, w, key);
    DocSecondShape(n, m);
  }

  /** The line after the first step and after the second, cut around
      `$m` and its key. */
  lemma DocSecondShape(n: string, m: string)
    ensures "EnV['" + n + "'] = $" + m + " and '$" + n + "'" ==
      "EnV['" + n + "'] = " + ("$" + m) + (" and '$" + n + "'")
    ensures "EnV['" + n + "'] = EnV['" + m + "'] and '$" + n + "'" ==
      "EnV['" + n + "'] = " + ("EnV['" + m + "']" + (" and '$" + n + "'"))
  {
  }

  /** `$m` does not occur in ` and '$n'`. */
  lemma DocSecondTail(n: string, m: string)
    requires PlainName(n) && PlainName(m) && !(m <= n)
    ensures Replace(" and '$" + n + "'", "$" + m, "EnV['" + m + "']") == " and '$" + n + "'"
  {
    var sub := "$" + m;
    var key := "EnV['" + m + "']";
    var z := "$" + (n + "'");
    PlainNameChars(n);
    assert Replace(n + "'", sub, key) == n + "'" by {
      ReplaceSkip(n + "'", [], sub, key);
      assert n + "'" + [] == n + "'";
    }
    assert Replace(z, sub, key) == z by {
      DollarNotPrefix(m, n, "'");
      assert z == "$" + n + "'" && z[1..] == n + "'";
    }
    ReplaceSkip(" and '", z, sub, key);
    assert " and '" + z == " and '$" + n + "'";
  }

  /** Variables are replaced one after the other with plain substring
      replacement: when one name starts another, rewriting the shorter
      also rewrites the front of the longer, which is then no longer found.
      `$a + $ab` becomes `EnV['a'] + EnV['a']b`. */
  lemma TranslateEnvPrefixVariable(a: string, b: string)
    requires PlainName(a) && PlainName(b)
    ensures TranslateEnv("$" + a + " + $" + a + b) == Ok("EnV['" + a + "'] + EnV['" + a + "']" + b)
  {
    var sub := "$" + a;
    var key := "EnV['" + a + "']";
    var s := sub + (" + " + (sub + b));
    var t := key + (" + " + (key + b));
    PrefixShape(a, b);
    PrefixVars(a, b);
    EnvKeyOf(a);
    PrefixFirst(a, b);
    PrefixSecond(a, b);
    assert ["$" + a, "$" + (a + b)][1..] == ["$" + (a + b)];
  }

  /** Rewriting `$a` in `$a + $ab` rewrites both occurrences. */
  lemma PrefixFirst(a: string, b: string)
    requires PlainName(a) && PlainName(b)
    ensures ReplaceIgnore(("$" + a) + (" + " + (("$" + a) + b)), "$" + a, "EnV['" + a + "']") ==
      Ok("EnV['" + a + "']" + (" + " + ("EnV['" + a + "']" + b)))
  {
    var sub := "$" + a;
    var s := sub + (" + " + (sub + b));
    PlainNameChars(a);
    PlainNameChars(b);
    assert forall k :: 0 <= k < |s| ==> !IsQuote(s[k]);
    NoQuoteCount(s);
    ReplaceIgnorePlain(s, sub, "EnV['" + a + "']");
    ReplaceTwice(sub, " + ", b, "EnV['" + a + "']");
  }

  /** After the first step `$ab` no longer occurs. */
  lemma PrefixSecond(a: string, b: string)
    requires PlainName(a) && PlainName(b)
    ensures var t := "EnV['" + a + "']" + (" + " + ("EnV['" + a + "']" + b));
      ReplaceVars(t, ["$" + (a + b)]) == Ok(t)
  {
    var t := "EnV['" + a + "']" + (" + " + ("EnV['" + a + "']" + b));
    var v := "$" + (a + b);
    PlainNameChars(a);
    PlainNameChars(b);
    assert '$' !in t;
    ContainsFirst(t, v);
    ReplaceAbsent(t, v, EnvKey(v));
    assert [v][1..] == [];
  }

  /** The line and its result, cut around the two occurrences of `$a`. */
  lemma PrefixShape(a: string, b: string)
    ensures "$" + a + " + $" + a + b == ("$" + a) + (" + " + (("$" + a) + b))
    ensures "EnV['" + a + "'] + EnV['" + a + "']" + b == ("EnV['" + a + "']") + (" + " + ("EnV['" + a + "']" + b))
  {
  }

  /** The variables of `$a + $ab` are `$a` and `$ab`. */
  lemma PrefixVars(a: string, b: string)
    requires PlainName(a) && PlainName(b)
    ensures EnvVars(("$" + a) + (" + " + (("$" + a) + b))) == Ok(["$" + a, "$" + (a + b)])
  {
    var s := ("$" + a) + (" + " + (("$" + a) + b));
    assert SplitStructures(s) == Ok([s]) by {
      PlainNameChars(a);
      PlainNameChars(b);
      assert forall k :: 0 <= k < |s| ==> !IsQuote(s[k]);
      SplitNoQuotes(s);
    }
    PrefixVarsFrom(a, b);
    assert FreeVars(s) == VarsFrom(s, 0) by {
      assert s[0] == '$';
    }
    assert VarsOf([s]) == FreeVars(s) by {
      assert [s][1..] == [];
      assert VarsOf([s]) == FreeVars(s) + VarsOf([]);
    }
  }

  /** The scan of `$a + $ab` for names. */
  lemma PrefixVarsFrom(a: string, b: string)
    requires PlainName(a) && PlainName(b)
    ensures VarsFrom(("$" + a) + (" + " + (("$" + a) + b)), 0) == ["$" + a, "$" + (a + b)]
  {
    var y := ("$" + a) + b;
    assert VarsFrom(y, 0) == ["$" + (a + b)] by {
      PlainNameAppend(a, b);
      assert y == "$" + (a + b) + [];
      VarsLead(a + b, []);
      assert VarsFrom([], 0) == [];
    }
    VarsNoDollar(" + ", y);
    VarsLead(a, " + " + y);
  }

  /** A line that begins and ends with a quotation mark is kept whole when
      it is reassembled, so a variable between two literals is not
      rewritten: `'x' + $a + 'y'` stays as it is. */
  lemma TranslateEnvQuotedEnds(x: string, a: string, y: string)
    requires PlainName(a) && x != [] && y != []
    requires forall k :: 0 <= k < |x| ==> !IsQuote(x[k])
    requires forall k :: 0 <= k < |y| ==> !IsQuote(y[k])
    requires '$' !in x && '$' !in y
    ensures TranslateEnv("'" + x + "' + $" + a + " + '" + y + "'") == Ok("'" + x + "' + $" + a + " + '" + y + "'")
  {
    var q1 := "'" + x + "'";
    var f := " + $" + a + " + ";
    var q2 := "'" + y + "'";
    var s := q1 + f + q2;
    var ps := ["", q1, f, q2, ""];
    var sub := "$" + a;
    QuotedEndsShape(x, a, y);
    QuotedEndsPieces(x, a, y);
    QuotedEndsVars(x, a, y);
    assert EnvVars(s) == Ok([sub]);
    assert ReplaceIgnore(s, sub, EnvKey(sub)) == Ok(s) by {
      assert !Contains(q1, sub) && !Contains(q2, sub) by {
        assert '$' !in q1 && '$' !in q2;
        ContainsFirst(q1, sub);
        ContainsFirst(q2, sub);
      }
      assert !IsQuoted("") && !IsQuoted(f);
      assert forall w | w in ps && IsQuoted(w) :: !Contains(w, sub);
      QuotedEndsCounts(x, a, y);
      ReplaceIgnoreOneChunk(s, sub, EnvKey(sub));
    }
    assert ReplaceVars(s, [sub]) == Ok(s) by {
      assert [sub][1..] == [];
    }
  }

  /** The line cut into its two literals and the text between them. */
  lemma QuotedEndsShape(x: string, a: string, y: string)
    ensures "'" + x + "' + $" + a + " + '" + y + "'" == ("'" + x + "'") + (" + $" + a + " + ") + ("'" + y + "'")
  {
  }

  /** `'x' + $a + 'y'` holds `$a` and two single quotation marks, and is
      quoted as a whole. */
  lemma QuotedEndsCounts(x: string, a: string, y: string)
    ensures var s := ("'" + x + "'") + (" + $" + a + " + ") + ("'" + y + "'");
      Contains(s, "$" + a) && Count(s, "'") >= 2 && IsQuoted(s)
  {
    var q1 := "'" + x + "'";
    var s := q1 + (" + $" + a + " + ") + ("'" + y + "'");
    var sub := "$" + a;
    assert s[|q1| + 3..|q1| + 3 + |sub|] == sub;
    assert OccursAt(s, |q1| + 3, sub);
    ContainsIffOccurs(s, sub);
    CountTwo(s, '\'', 0, |q1| - 1);
  }

  /** `'x' + $a + 'y'` splits into nothing, `'x'`, ` + $a + `, `'y'` and
      nothing. */
  lemma QuotedEndsPieces(x: string, a: string, y: string)
    requires PlainName(a) && x != [] && y != []
    requires forall k :: 0 <= k < |x| ==> !IsQuote(x[k])
    requires forall k :: 0 <= k < |y| ==> !IsQuote(y[k])
    ensures SplitStructures(("'" + x + "'") + (" + $" + a + " + ") + ("'" + y + "'")) ==
      Ok(["", "'" + x + "'", " + $" + a + " + ", "'" + y + "'", ""])
  {
    var q1 := "'" + x + "'";
    var f := " + $" + a + " + ";
    var q2 := "'" + y + "'";
    PlainNameChars(a);
    assert FreeText(x) && FreeText(y) by {
      forall c | c in x + y ensures !IsQuote(c) {
        if c in x {
          var k :| 0 <= k < |x| && x[k] == c;
        } else {
          var k :| 0 <= k < |y| && y[k] == c;
        }
      }
    }
    assert FreeText(f) && FreeText("");
    assert PlainLiteral(q1) by {
      assert q1[1..|q1| - 1] == x;
    }
    assert PlainLiteral(q2) by {
      assert q2[1..|q2| - 1] == y;
    }
    AlternatingOne("");
    AlternatingCons(f, q2, [""]);
    AlternatingCons("", q1, [f, q2] + [""]);
    assert ["", q1] + ([f, q2] + [""]) == ["", q1, f, q2, ""];
    assert "" + q1 + (f + q2 + "") == q1 + f + q2;
    SplitParts(["", q1, f, q2, ""]);
  }

  /** The only variable of `'x' + $a + 'y'` is `$a`. */
  lemma QuotedEndsVars(x: string, a: string, y: string)
    requires PlainName(a)
    ensures VarsOf(["", "'" + x + "'", " + $" + a + " + ", "'" + y + "'", ""]) == ["$" + a]
  {
    var q1 := "'" + x + "'";
    var f := " + $" + a + " + ";
    var q2 := "'" + y + "'";
    var ps := ["", q1, f, q2, ""];
    assert FreeVars(f) == ["$" + a] by {
      assert f == " + " + ("$" + a + " + ");
      VarsNoDollar(" + ", "$" + a + " + ");
      VarsLead(a, " + ");
      VarsNoDollar(" + ", []);
      assert " + " + [] == " + ";
      assert VarsFrom([], 0) == [];
      assert f[0] == ' ';
    }
    assert IsQuoted(q1) && IsQuoted(q2);
    assert VarsOf([""]) == [] by {
      assert [""][1..] == [];
    }
    assert VarsOf([q2, ""]) == [] by {
      assert [q2, ""][1..] == [""];
    }
    assert VarsOf([f, q2, ""]) == ["$" + a] by {
      assert [f, q2, ""][1..] == [q2, ""];
    }
    assert VarsOf([q1, f, q2, ""]) == ["$" + a] by {
      assert [q1, f, q2, ""][1..] == [f, q2, ""];
    }
    assert ps[1..] == [q1, f, q2, ""];
  }

  // ---------------------------------------------------------------------
  // _translate_commands

  /** `"import JTSv2.commands." + module + " as " + module + "\n"`. */
  function ImportLine(m: string): string
  {
    "import JTSv2.commands." + m + " as " + m + "\n"
  }

  /** The registry key a call is looked up under: its name with every `!`
      and `?` deleted. */
  function CallName(c: string): (r: string)
    ensures '!' !in r && '?' !in r
    ensures multiset(r) == multiset(GetCommandname(c))['!' := 0]['?' := 0]
  {
    var n := GetCommandname(c);
    ReplaceCharByNothing(n, '!');
    var a := Replace(n, "!", "");
    ReplaceCharByNothing(a, '?');
    var r := Replace(a, "?", "");
    assert multiset(r)['!'] == 0 && multiset(r)['?'] == 0;
    r
  }

  /** The text a registered call `c` is replaced by, given its key `name`
      and its module `m`: a `!` call runs `main` in the background after
      importing the module under the command's own name, a `?` call shows
      the module's help, any other call runs `main` in the foreground. An
      empty call raises at `command[0]`. */
  function Translated(c: string, name: string, m: string): (r: Result<string>)
    ensures r.Err? ==> r.error == IndexError
    ensures c != [] && c[0] == '!' && (forall k :: 0 <= k < |c| ==> !IsQuote(c[k])) ==>
      r == Ok("background(shell, ('''" + ImportLine(name) + Replace(c, "!" + name + "(", m + ".main(bg_com,") + "'''))")
    ensures c != [] && c[0] == '?' ==> r == Ok("help('''" + m + "''')") && Contains(r.value, m)
    ensures c != [] && c[0] != '!' && c[0] != '?' && (forall k :: 0 <= k < |c| ==> !IsQuote(c[k])) ==>
      r == Ok(Replace(c, name + "(", m + ".main(fg_com,"))
  {
    if c == [] then Err(IndexError)
    else if c[0] == '!' then
      SplitErr(c);
      ReplaceIgnoreQuoteFree(c, "!" + name + "(", m + ".main(bg_com,");
      var body :- ReplaceIgnore(c, "!" + name + "(", m + ".main(bg_com,");
      Ok("background(shell, ('''" + ImportLine(name) + body + "'''))")
    else if c[0] == '?' then
      var r := "help('''" + m + "''')";
      assert OccursAt(r, 8, m);
      ContainsIffOccurs(r, m);
      Ok(r)
    else
      SplitErr(c);
      ReplaceIgnoreQuoteFree(c, name + "(", m + ".main(fg_com,");
      ReplaceIgnore(c, name + "(", m + ".main(fg_com,")
  }

  /** The translated line and the import lines gathered so far. */
  datatype Rewriting = Rewriting(text: string, imports: seq<string>)

  /** One iteration of the loop over the calls found: a call whose key is
      not registered is skipped; otherwise its import line is gathered and
      every occurrence of the call outside the literals is rewritten. */
  function RewriteStep(c: string, reg: map<string, string>, acc: Rewriting): Result<Rewriting>
  {
    var name := CallName(c);
    if name !in reg then Ok(acc)
    else
      var m := reg[name];
      var tc :- Translated(c, name, m);
      var text :- ReplaceIgnore(acc.text, c, tc);
      Ok(Rewriting(text, acc.imports + [ImportLine(m)]))
  }

  /** The loop over the calls `cs`, from the state `acc`. */
  function Rewrite(cs: seq<string>, reg: map<string, string>, acc: Rewriting): Result<Rewriting>
  {
    if cs == [] then Ok(acc)
    else
      var acc' :- RewriteStep(cs[0], reg, acc);
      Rewrite(cs[1..], reg, acc')
  }

  /** `_translate_commands(input_string, registry)`: the de-duplicated,
      sorted import lines, then the rewritten line. */
  function TranslateCommands(s: string, reg: map<string, string>): Result<string>
  {
    var cs :- AsResult(WholeCalls(s));
    var done :- Rewrite(cs, reg, Rewriting(s, []));
    Ok(Concat(SortDistinct(done.imports)) + done.text)
  }

  /** The import lines of the registered calls among `cs`. */
  function ImportsOf(cs: seq<string>, reg: map<string, string>): set<string>
  {
    set c | c in cs && CallName(c) in reg :: ImportLine(reg[CallName(c)])
  }

  /** The loop gathers exactly the import lines of the registered calls. */
  lemma {:induction false} RewriteImports(cs: seq<string>, reg: map<string, string>, acc: Rewriting)
    requires Rewrite(cs, reg, acc).Ok?
    ensures Elems(Rewrite(cs, reg, acc).value.imports) == Elems(acc.imports) + ImportsOf(cs, reg)
  {
    if cs != [] {
      var c := cs[0];
      var acc' := RewriteStep(c, reg, acc).value;
      RewriteImports(cs[1..], reg, acc');
      StepImports(c, reg, acc);
      ImportsOfFirst(cs, reg);
    }
  }

  /** One step gathers the import line of its call when the call is
      registered, and nothing otherwise. */
  lemma StepImports(c: string, reg: map<string, string>, acc: Rewriting)
    requires RewriteStep(c, reg, acc).Ok?
    ensures Elems(RewriteStep(c, reg, acc).value.imports) ==
      Elems(acc.imports) + if CallName(c) in reg then {ImportLine(reg[CallName(c)])} else {}
  {
    if CallName(c) in reg {
      var line := ImportLine(reg[CallName(c)]);
      var imports := RewriteStep(c, reg, acc).value.imports;
      assert imports == acc.imports + [line];
      assert forall y :: y in imports <==> y in acc.imports || y == line;
    }
  }

  /** The import lines of a list of calls: those of its first call and
      those of the rest. */
  lemma ImportsOfFirst(cs: seq<string>, reg: map<string, string>)
    requires cs != []
    ensures ImportsOf(cs, reg) ==
      ImportsOf(cs[1..], reg) + if CallName(cs[0]) in reg then {ImportLine(reg[CallName(cs[0])])} else {}
  {
    assert forall y :: y in cs <==> y == cs[0] || y in cs[1..] by {
      assert cs == [cs[0]] + cs[1..];
    }
  }

  /** Calls none of which is registered leave the text as it is and gather
      no import. */
  lemma {:induction false} RewriteUnregistered(cs: seq<string>, reg: map<string, string>, acc: Rewriting)
    requires forall c :: c in cs ==> CallName(c) !in reg
    ensures Rewrite(cs, reg, acc) == Ok(acc)
  {
    if cs != [] {
      assert cs[0] in cs;
      assert forall c :: c in cs[1..] ==> c in cs;
      RewriteUnregistered(cs[1..], reg, acc);
    }
  }

  /** The translation begins with each needed import line once, in
      ascending order, and only those. */
  lemma TranslateCommandsImports(s: string, reg: map<string, string>)
    requires TranslateCommands(s, reg).Ok?
    ensures exists imports, text :: (StrictlySorted(imports) &&
      Elems(imports) == ImportsOf(AsResult(WholeCalls(s)).value, reg) &&
      TranslateCommands(s, reg).value == Concat(imports) + text)
  {
    var cs := AsResult(WholeCalls(s)).value;
    var done := Rewrite(cs, reg, Rewriting(s, [])).value;
    RewriteImports(cs, reg, Rewriting(s, []));
    assert Elems([]) == {};
    var imports := SortDistinct(done.imports);
    assert TranslateCommands(s, reg).value == Concat(imports) + done.text;
  }

  /** A line whose calls are all unregistered (built-ins and the like) is
      passed through unchanged. */
  lemma TranslateCommandsUnregistered(s: string, reg: map<string, string>)
    requires AsResult(WholeCalls(s)).Ok?
    requires forall c :: c in AsResult(WholeCalls(s)).value ==> CallName(c) !in reg
    ensures TranslateCommands(s, reg) == Ok(s)
  {
    RewriteUnregistered(AsResult(WholeCalls(s)).value, reg, Rewriting(s, []));
    assert SortDistinct([]) == [];
    assert Concat([]) + s == s;
  }

  /** A line without quotation marks that calls one registered command `c`
      becomes the import line of the command's module followed by the line
      with every occurrence of `c` replaced by its translation `t`. */
  lemma TranslateCommandsOneCall(s: string, reg: map<string, string>, c: string, t: string)
    requires forall k :: 0 <= k < |s| ==> !IsQuote(s[k])
    requires AsResult(WholeCalls(s)) == Ok([c])
    requires CallName(c) in reg && Translated(c, CallName(c), reg[CallName(c)]) == Ok(t)
    ensures TranslateCommands(s, reg) == Ok(ImportLine(reg[CallName(c)]) + Replace(s, c, t))
  {
    var line := ImportLine(reg[CallName(c)]);
    assert c != [];
    NoQuoteCount(s);
    ReplaceIgnorePlain(s, c, t);
    var done := Rewriting(Replace(s, c, t), [line]);
    assert ReplaceIgnore(s, c, t) == Ok(Replace(s, c, t));
    assert [] + [line] == [line];
    assert RewriteStep(c, reg, Rewriting(s, [])) == Ok(done);
    assert [c][1..] == [];
    assert Rewrite([c], reg, Rewriting(s, [])) == Ok(done);
    assert SortDistinct([line]) == [line];
    assert Concat([line]) == line;
  }

  /** The body of the loop of `_translate_commands` for one registered
      call: what the call is replaced by. */
  method TranslateCall(c: string, name: string, m: string) returns (r: Result<string>)
    ensures r == Translated(c, name, m)
  {
    if c == [] {
      return Err(IndexError);
    }
    if c[0] == '!' {
      var body := ReplaceIgnoreInQuotationmarks(c, "!" + name + "(", m + ".main(bg_com,");
      if body.Err? {
        return Err(body.error);
      }
      return Ok("background(shell, ('''" + ImportLine(name) + body.value + "'''))");
    } else if c[0] == '?' {
      return Ok("help('''" + m + "''')");
    } else {
      r := ReplaceIgnoreInQuotationmarks(c, name + "(", m + ".main(fg_com,");
    }
  }

  /** `_translate_commands(input_string, commandreferencedictionary)`. */
  method TranslateCommandCalls(s: string, reg: map<string, string>) returns (r: Result<string>)
    ensures r == TranslateCommands(s, reg)
  {
    var found := FindWholeCommands(s);
    if found.Err? {
      return Err(found.error);
    }
    var cs := found.value;
    var text := s;
    var imports: seq<string> := [];
    for i := 0 to |cs|
      invariant Rewrite(cs, reg, Rewriting(s, [])) == Rewrite(cs[i..], reg, Rewriting(text, imports))
    {
      var c := cs[i];
      assert cs[i..][0] == c && cs[i..][1..] == cs[i + 1..];
      var name := CallName(c);
      if name !in reg {
        continue;
      }
      var m := reg[name];
      imports := imports + [ImportLine(m)];
      var translated := TranslateCall(c, name, m);
      if translated.Err? {
        return Err(translated.error);
      }
      var tc := translated.value;
      var next := ReplaceIgnoreInQuotationmarks(text, c, tc);
      if next.Err? {
        return Err(next.error);
      }
      text := next.value;
    }
    assert cs[|cs|..] == [];
    return Ok(Concat(SortDistinct(imports)) + text);
  }

  // ---------------------------------------------------------------------
  // translate

  /** `translate(input_str, registry)`: variables first, then calls. */
  function TranslateLine(s: string, reg: map<string, string>): Result<string>
  {
    var t :- TranslateEnv(s);
    TranslateCommands(t, reg)
  }

  /** A translated line begins with each import line its calls need once,
      in ascending order, where the calls are those found after the
      variables were rewritten; an error of either stage is the error of
      the whole translation. */
  lemma TranslateLineImports(s: string, reg: map<string, string>)
    ensures TranslateEnv(s).Err? ==> TranslateLine(s, reg) == Err(TranslateEnv(s).error)
    ensures TranslateLine(s, reg).Ok? ==> (TranslateEnv(s).Ok? &&
      exists imports, text :: (StrictlySorted(imports) &&
        Elems(imports) == ImportsOf(AsResult(WholeCalls(TranslateEnv(s).value)).value, reg) &&
        TranslateLine(s, reg).value == Concat(imports) + text))
  {
    if TranslateLine(s, reg).Ok? {
      TranslateCommandsImports(TranslateEnv(s).value, reg);
    }
  }

  /** A line without variables is translated by the command stage alone. */
  lemma TranslateLineNoVariables(s: string, reg: map<string, string>)
    requires SplitStructures(s).Ok? && '$' !in s
    ensures TranslateLine(s, reg) == TranslateCommands(s, reg)
  {
    TranslateEnvNoDollar(s);
  }

  /** A line without variables and quotation marks that calls one
      registered command `c` becomes that command's import line followed by
      the line with every occurrence of `c` replaced by its translation. */
  lemma TranslateLineOneCall(s: string, reg: map<string, string>, c: string, t: string)
    requires forall k :: 0 <= k < |s| ==> !IsQuote(s[k]) && s[k] != '$'
    requires AsResult(WholeCalls(s)) == Ok([c])
    requires CallName(c) in reg && Translated(c, CallName(c), reg[CallName(c)]) == Ok(t)
    ensures TranslateLine(s, reg) == Ok(ImportLine(reg[CallName(c)]) + Replace(s, c, t))
  {
    SplitNoQuotes(s);
    TranslateLineNoVariables(s, reg);
    TranslateCommandsOneCall(s, reg, c, t);
  }

  /** `translate(input_str, commandreferencedictionary)`. */
  method TranslateInput(s: string, reg: map<string, string>) returns (r: Result<string>)
    ensures r == TranslateLine(s, reg)
  {
    var t := TranslateEnvironmentalVariables(s);
    if t.Err? {
      return Err(t.error);
    }
    r := TranslateCommandCalls(t.value, reg);
  }
}
