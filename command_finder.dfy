/** Finding command calls in a line of shell input: the character
    scanners of the translator, which collect whole calls `name(...)`
    together with the calls nested in their arguments. */
module CommandFinder {
  import opened Results
  import opened PyStrings
  import opened StringStructures

  /** Characters that cannot be part of a command name. */
  const Illegal: set<char> := {' ', ',', '.', '-', '+'}

  /** Opening minus closing round brackets in `t`. */
  function Depth(t: string): int
  {
    (multiset(t)['('] as int) - (multiset(t)[')'] as int)
  }

  /** Position of the first `c` in `s`. */
  function IndexOfChar(s: string, c: char): (r: nat)
    requires c in s
    ensures r < |s| && s[r] == c && c !in s[..r]
  {
    if s[0] == c then 0
    else
      var r := 1 + IndexOfChar(s[1..], c);
      assert s[..r] == [s[0]] + s[1..][..r - 1];
      r
  }

  lemma IndexOfCharStable(s: string, t: string, c: char)
    requires c in s
    ensures IndexOfChar(s + t, c) == IndexOfChar(s, c)
  {
    var i, j := IndexOfChar(s + t, c), IndexOfChar(s, c);
    assert (s + t)[j] == c;
    assert forall m :: j < m <= |s + t| ==> (s + t)[..m][j] == c;
    assert i <= j;
    assert (s + t)[i] == s[i];
    assert forall m :: 0 <= m < j ==> s[..j][m] == s[m];
  }

  /** A text that may stand in front of the opening bracket of a call. */
  predicate NameOk(n: string)
  {
    forall k :: 0 <= k < |n| ==> n[k] !in Illegal && n[k] != '(' && n[k] != ')'
  }

  /** The shape of every call the scanner reports: a name free of illegal
      characters and brackets, the first `(`, and a body after which the
      brackets balance, ending with `)`. */
  predicate CallShape(y: string)
  {
    |y| > 0 && '(' in y && y[|y| - 1] == ')' && Depth(y) == 0 && NameOk(y[..IndexOfChar(y, '(')])
  }

  // ---------------------------------------------------------------------
  // _find_commands_without_string_parameters: the scan

  /** The scanner's variables: the characters gathered so far, whether they
      are inside a call, the bracket balance and the calls found. */
  datatype ScanState = ScanState(temp: string, isCommand: bool, balance: int, found: seq<string>)

  const ScanStart := ScanState([], false, 0, [])

  /** One iteration of the scanner's loop on character `c`. */
  function Step(st: ScanState, c: char): ScanState
  {
    var temp := st.temp + [c];
    if c in Illegal && !st.isCommand then st.(temp := [])
    else if c == '(' then
      if st.isCommand then st.(temp := temp, balance := st.balance - 1)
      else st.(temp := temp, isCommand := true)
    else if c == ')' then
      if !st.isCommand then st.(temp := [])
      else if st.balance == 0 then st.(temp := [], isCommand := false, found := st.found + [temp])
      else st.(temp := temp, balance := st.balance + 1)
    else st.(temp := temp)
  }

  /** The scanner's variables after it has read all of `s`. */
  function Run(s: string): ScanState
  {
    if s == [] then ScanStart else Step(Run(s[..|s| - 1]), s[|s| - 1])
  }

  /** `t` is a suffix of `s`. */
  ghost predicate Ends(s: string, t: string)
  {
    |t| <= |s| && t == s[|s| - |t|..]
  }

  /** What holds of the gathered characters `temp` after reading `s`: they
      end `s`; outside a call they could still be a name; inside one they
      are a name, the first `(` and a body with `1 - balance` unclosed
      brackets. */
  ghost predicate TempInv(s: string, temp: string, isCommand: bool, balance: int)
  {
    Ends(s, temp) &&
    (!isCommand ==> balance == 0 && NameOk(temp)) &&
    (isCommand ==>
      '(' in temp && NameOk(temp[..IndexOfChar(temp, '(')]) &&
      balance <= 0 && Depth(temp) == 1 - balance)
  }

  /** Every call found so far has the call shape and occurs in `s`. */
  ghost predicate FoundInv(s: string, found: seq<string>)
  {
    forall k :: 0 <= k < |found| ==> CallShape(found[k]) && Contains(s, found[k]) && |found[k]| <= |s|
  }

  ghost predicate ScanInv(s: string, st: ScanState)
  {
    TempInv(s, st.temp, st.isCommand, st.balance) && FoundInv(s, st.found)
  }

  lemma ContainsExtend(s: string, t: string, y: string)
    requires Contains(s, y)
    ensures Contains(s + t, y)
  {
    ContainsIffOccurs(s, y);
    var i :| OccursAt(s, i, y);
    assert (s + t)[i..i + |y|] == s[i..i + |y|];
    assert OccursAt(s + t, i, y);
    ContainsIffOccurs(s + t, y);
  }

  lemma ContainsSuffix(s: string, n: nat)
    requires n <= |s|
    ensures Contains(s, s[|s| - n..])
  {
    assert OccursAt(s, |s| - n, s[|s| - n..]);
    ContainsIffOccurs(s, s[|s| - n..]);
  }

  lemma EndsExtend(s: string, t: string, c: char)
    requires Ends(s, t)
    ensures Ends(s + [c], t + [c])
  {
    var s' := s + [c];
    assert t + [c] == s'[|s'| - |t| - 1..];
  }

  lemma FoundExtend(s: string, c: char, found: seq<string>)
    requires FoundInv(s, found)
    ensures FoundInv(s + [c], found)
  {
    forall k | 0 <= k < |found|
      ensures Contains(s + [c], found[k])
    {
      ContainsExtend(s, [c], found[k]);
    }
  }

  lemma FoundAppend(s: string, found: seq<string>, y: string)
    requires FoundInv(s, found) && CallShape(y) && Contains(s, y) && |y| <= |s|
    ensures FoundInv(s, found + [y])
  {
    var f := found + [y];
    forall k | 0 <= k < |f|
      ensures CallShape(f[k]) && Contains(s, f[k]) && |f[k]| <= |s|
    {
      if k < |found| {
        assert f[k] == found[k];
      }
    }
  }

  /** A character read inside a call leaves its name alone and moves the
      bracket depth. */
  lemma InCall(t: string, c: char)
    requires '(' in t
    ensures '(' in t + [c] && IndexOfChar(t + [c], '(') == IndexOfChar(t, '(')
    ensures (t + [c])[..IndexOfChar(t, '(')] == t[..IndexOfChar(t, '(')]
    ensures Depth(t + [c]) == Depth(t) + (if c == '(' then 1 else if c == ')' then -1 else 0)
  {
    IndexOfCharStable(t, [c], '(');
    assert multiset(t + [c]) == multiset(t) + multiset{c};
  }

  /** The first `(` after a name opens a call. */
  lemma OpenCall(t: string)
    requires NameOk(t)
    ensures '(' in t + ['('] && IndexOfChar(t + ['('], '(') == |t|
    ensures (t + ['('])[..|t|] == t && Depth(t + ['(']) == 1
  {
    FirstOpenAfterName(t);
    assert (t + ['('])[..|t|] == t;
    assert '(' !in t && ')' !in t;
    assert multiset(t + ['(']) == multiset(t) + multiset{'('};
  }

  lemma FirstOpenAfterName(t: string)
    requires NameOk(t)
    ensures '(' in t + ['('] && IndexOfChar(t + ['('], '(') == |t|
  {
    var u := t + ['('];
    assert u[|t|] == '(';
    var r := IndexOfChar(u, '(');
    assert forall j :: 0 <= j < |t| ==> u[j] != '(' by {
      forall j | 0 <= j < |t| ensures u[j] != '(' {
        assert u[j] == t[j];
      }
    }
    assert forall j :: 0 <= j < r ==> u[j] != '(' by {
      forall j | 0 <= j < r ensures u[j] != '(' {
        assert u[..r][j] == u[j];
      }
    }
  }

  /** The `)` that brings the depth of a call back to zero completes it,
      and the call ends the text read so far. */
  lemma CloseCall(s: string, t: string)
    requires TempInv(s, t, true, 0)
    ensures CallShape(t + [')']) && Contains(s + [')'], t + [')']) && |t + [')']| <= |s + [')']|
  {
    CloseShape(t);
    CloseEnds(s, t);
  }

  /** A call whose body has one bracket open is closed by a `)`. */
  lemma CloseShape(t: string)
    requires '(' in t && NameOk(t[..IndexOfChar(t, '(')]) && Depth(t) == 1
    ensures CallShape(t + [')'])
  {
    InCall(t, ')');
  }

  /** The gathered text, with the closing `)`, ends the text read so far. */
  lemma CloseEnds(s: string, t: string)
    requires Ends(s, t)
    ensures Contains(s + [')'], t + [')']) && |t + [')']| <= |s + [')']|
  {
    var s', u := s + [')'], t + [')'];
    EndsExtend(s, t, ')');
    assert u == s'[|s'| - |u|..];
    ContainsSuffix(s', |u|);
  }

  lemma StepInCall(s: string, c: char, st: ScanState)
    requires ScanInv(s, st) && st.isCommand && !(c == ')' && st.balance == 0)
    ensures ScanInv(s + [c], Step(st, c))
  {
    var temp := st.temp + [c];
    var b := if c == '(' then st.balance - 1 else if c == ')' then st.balance + 1 else st.balance;
    assert Step(st, c) == ScanState(temp, true, b, st.found);
    EndsExtend(s, st.temp, c);
    InCall(st.temp, c);
    FoundExtend(s, c, st.found);
  }

  lemma StepClose(s: string, st: ScanState)
    requires ScanInv(s, st) && st.isCommand && st.balance == 0
    ensures ScanInv(s + [')'], Step(st, ')'))
  {
    var temp := st.temp + [')'];
    assert Step(st, ')') == ScanState([], false, 0, st.found + [temp]);
    CloseCall(s, st.temp);
    FoundExtend(s, ')', st.found);
    FoundAppend(s + [')'], st.found, temp);
  }

  lemma StepOpen(s: string, st: ScanState)
    requires ScanInv(s, st) && !st.isCommand
    ensures ScanInv(s + ['('], Step(st, '('))
  {
    assert Step(st, '(') == ScanState(st.temp + ['('], true, 0, st.found);
    EndsExtend(s, st.temp, '(');
    OpenCall(st.temp);
    FoundExtend(s, '(', st.found);
  }

  lemma StepKeeps(s: string, c: char, st: ScanState)
    requires ScanInv(s, st)
    ensures ScanInv(s + [c], Step(st, c))
  {
    if st.isCommand && c == ')' && st.balance == 0 {
      StepClose(s, st);
    } else if st.isCommand {
      StepInCall(s, c, st);
    } else if c == '(' {
      StepOpen(s, st);
    } else {
      FoundExtend(s, c, st.found);
      EndsExtend(s, st.temp, c);
    }
  }

  lemma {:induction false} RunInv(s: string)
    ensures ScanInv(s, Run(s))
    decreases |s|
  {
    if s == [] {
      assert Run(s) == ScanStart;
      assert TempInv(s, [], false, 0);
    } else {
      var p, c := s[..|s| - 1], s[|s| - 1];
      assert p + [c] == s;
      var st := Run(p);
      assert Run(s) == Step(st, c);
      RunInv(p);
      StepKeeps(p, c, st);
    }
  }

  /** The calls the scan itself reports, before nested calls are added. */
  function ScanCalls(s: string): (r: seq<string>)
    ensures forall k :: 0 <= k < |r| ==> |r[k]| <= |s|
  {
    RunInv(s);
    Run(s).found
  }

  /** Every call the scan reports is a piece of the text with the call
      shape. */
  lemma ScanCallsShape(s: string)
    ensures forall y :: y in ScanCalls(s) ==> CallShape(y) && Contains(s, y)
  {
    RunInv(s);
  }

  /** Text after the last `)` adds no call: an unclosed call at the end of
      the text is not reported. */
  lemma {:induction false} ScanCallsIgnoreTail(s: string, t: string)
    requires ')' !in t
    ensures ScanCalls(s + t) == ScanCalls(s)
    decreases |t|
  {
    if t == [] {
      assert s + t == s;
    } else {
      var t' := t[..|t| - 1];
      ScanCallsIgnoreTail(s, t');
      assert (s + t)[..|s + t| - 1] == s + t';
      assert (s + t)[|s + t| - 1] != ')';
    }
  }

  // ---------------------------------------------------------------------
  // _find_commands_without_string_parameters: nested calls

  /** `command[command.find("(") + 1:len(command) - 1]`: the text between
      the first `(` and the last character. */
  function Inner(x: string): (r: string)
    ensures |x| > 0 ==> |r| < |x|
  {
    Slice(x, Find(x, "(") + 1, |x| - 1)
  }

  lemma ContainsTransitive(a: string, b: string, c: string)
    requires Contains(a, b) && Contains(b, c)
    ensures Contains(a, c)
  {
    ContainsIffOccurs(a, b);
    ContainsIffOccurs(b, c);
    var i :| OccursAt(a, i, b);
    var j :| OccursAt(b, j, c);
    forall m | 0 <= m < |c|
      ensures a[i + j + m] == c[m]
    {
      assert c[m] == b[j + m];
    }
    assert a[i + j..i + j + |c|] == c;
    assert OccursAt(a, i + j, c);
    ContainsIffOccurs(a, c);
  }

  lemma SliceContained(x: string, a: int, b: int)
    ensures Contains(x, Slice(x, a, b))
  {
    var i, j := SliceBound(a, |x|), SliceBound(b, |x|);
    if i < j {
      assert OccursAt(x, i, x[i..j]);
    } else {
      assert OccursAt(x, 0, []);
    }
    ContainsIffOccurs(x, Slice(x, a, b));
  }

  /** One more than the longest item of `L`, or 0 when `L` is empty. */
  function Size(L: seq<string>): (r: nat)
    ensures forall k :: 0 <= k < |L| ==> |L[k]| < r
  {
    if L == [] then 0
    else
      var t := Size(L[1..]);
      if |L[0]| + 1 > t then |L[0]| + 1 else t
  }

  lemma {:induction false} SizeBound(L: seq<string>, b: nat)
    requires forall k :: 0 <= k < |L| ==> |L[k]| < b
    ensures Size(L) <= b
  {
    if L != [] {
      SizeBound(L[1..], b);
    }
  }

  /** Whether a found call is scanned again for the calls in its
      arguments. */
  predicate HasNested(x: string)
  {
    Count(x, ")") > 1 && Count(x, "(") > 1
  }

  /** `_find_commands_without_string_parameters(s)`: the calls the scan
      reports, then the calls nested in them as the loop over the growing
      list appends them. */
  function CallsWithoutStrings(s: string): (r: seq<string>)
    decreases |s| + 1, 3
    ensures forall k :: 0 <= k < |r| ==> |r[k]| <= |s|
  {
    var calls := ScanCalls(s);
    SizeBound(calls, |s| + 1);
    Expand(calls)
  }

  /** The list `L`, then the calls nested in its items, then those nested in
      these, level by level. */
  function Expand(L: seq<string>): (r: seq<string>)
    decreases Size(L), 2
    ensures forall k :: 0 <= k < |r| ==> |r[k]| < Size(L)
  {
    if L == [] then []
    else
      var n := Nested(L);
      SizeBound(n, Size(L) - 1);
      L + Expand(n)
  }

  /** What the recursive calls return for the items of `L`, in order. */
  function Nested(L: seq<string>): (r: seq<string>)
    decreases Size(L), 1, |L|
    ensures forall k :: 0 <= k < |r| ==> |r[k]| + 1 < Size(L)
  {
    if L == [] then [] else NestedOf(L[0]) + Nested(L[1..])
  }

  /** What the recursive call returns for one found call. */
  function NestedOf(x: string): (r: seq<string>)
    decreases |x| + 1, 0
    ensures forall k :: 0 <= k < |r| ==> |r[k]| < |x|
  {
    if HasNested(x) then CallsWithoutStrings(Inner(x)) else []
  }

  lemma {:induction false} NestedAppend(a: seq<string>, b: seq<string>)
    ensures Nested(a + b) == Nested(a) + Nested(b)
    decreases |a|
  {
    if a == [] {
      assert a + b == b;
    } else {
      NestedAppend(a[1..], b);
      assert (a + b)[1..] == a[1..] + b;
    }
  }

  /** The growing list is closed under the recursion: it is the scan's list
      followed by what the recursive calls return for its own items. */
  lemma {:induction false} ExpandFixpoint(L: seq<string>)
    ensures Expand(L) == L + Nested(Expand(L))
    decreases Size(L)
  {
    if L != [] {
      var n := Nested(L);
      SizeBound(n, Size(L) - 1);
      ExpandFixpoint(n);
      NestedAppend(L, Expand(n));
    }
  }

  lemma NestedShrinks(T: seq<string>)
    ensures T != [] ==> Size(Nested(T)) < Size(T)
  {
    if T != [] {
      SizeBound(Nested(T), Size(T) - 1);
    }
  }

  /** One round of the loop over the growing list keeps it a prefix of the
      fixpoint and accounts for one more item. */
  lemma GrowStep(base: seq<string>, calls: seq<string>, all: seq<string>, k: nat)
    requires k < |calls| && calls <= all && all == base + Nested(all)
    requires calls == base + Nested(calls[..k])
    ensures var calls' := calls + NestedOf(calls[k]);
      calls' <= all && calls' == base + Nested(calls'[..k + 1])
  {
    var front, more := calls[..k + 1], NestedOf(calls[k]);
    assert (calls + more)[..k + 1] == front;
    NestedOneMore(calls, k);
    assert all[..k + 1] == front;
    PrefixRest(base, front, all);
    ExtendWithin(base, Nested(calls[..k]), more, calls, all);
  }

  /** `calls == base + a` grown by `more` is `base + (a + more)`, and stays
      a prefix of `all` when that is one. */
  lemma ExtendWithin(base: seq<string>, a: seq<string>, more: seq<string>, calls: seq<string>, all: seq<string>)
    requires calls == base + a && base + (a + more) <= all
    ensures calls + more == base + (a + more) && calls + more <= all
  {
  }

  lemma NestedOneMore(calls: seq<string>, k: nat)
    requires k < |calls|
    ensures Nested(calls[..k + 1]) == Nested(calls[..k]) + NestedOf(calls[k])
  {
    var x := calls[k];
    assert calls[..k + 1] == calls[..k] + [x];
    NestedAppend(calls[..k], [x]);
    assert [x][1..] == [];
  }

  lemma PrefixRest(base: seq<string>, front: seq<string>, all: seq<string>)
    requires front <= all && all == base + Nested(all)
    ensures base + Nested(front) <= all
  {
    var tail := all[|front|..];
    assert all == front + tail;
    NestedAppend(front, tail);
  }

  /** A list that starts a fixpoint of `base + Nested(_)` and is itself
      one is the whole fixpoint: nothing remains to be appended. */
  lemma GrowingListComplete(base: seq<string>, calls: seq<string>, all: seq<string>)
    requires all == base + Nested(all) && calls <= all && calls == base + Nested(calls)
    ensures calls == all
  {
    var rest := all[|calls|..];
    assert all == calls + rest;
    NestedAppend(calls, rest);
    SameTail(base, Nested(calls), Nested(rest), rest);
    NestedShrinks(rest);
  }

  /** The calls of `_find_commands_without_string_parameters(s)` are the
      scan's calls followed by, for each call in order that has more than
      one `(` and more than one `)`, the calls found in its inner text. */
  lemma CallsWithoutStringsNesting(s: string)
    ensures CallsWithoutStrings(s) == ScanCalls(s) + Nested(CallsWithoutStrings(s))
  {
    ExpandFixpoint(ScanCalls(s));
  }

  lemma {:induction false} CallsShape(s: string)
    ensures forall y :: y in CallsWithoutStrings(s) ==> CallShape(y) && Contains(s, y)
    decreases |s| + 1, 3
  {
    var calls := ScanCalls(s);
    SizeBound(calls, |s| + 1);
    ScanCallsShape(s);
    ExpandShape(calls, s);
  }

  lemma {:induction false} ExpandShape(L: seq<string>, s: string)
    requires forall x :: x in L ==> CallShape(x) && Contains(s, x)
    ensures forall y :: y in Expand(L) ==> CallShape(y) && Contains(s, y)
    decreases Size(L), 2
  {
    if L != [] {
      var n := Nested(L);
      SizeBound(n, Size(L) - 1);
      NestedShape(L, s);
      ExpandShape(n, s);
    }
  }

  lemma {:induction false} NestedShape(L: seq<string>, s: string)
    requires forall x :: x in L ==> CallShape(x) && Contains(s, x)
    ensures forall y :: y in Nested(L) ==> CallShape(y) && Contains(s, y)
    decreases Size(L), 1, |L|
  {
    if L != [] {
      NestedOfShape(L[0], s);
      NestedShape(L[1..], s);
    }
  }

  lemma {:induction false} NestedOfShape(x: string, s: string)
    requires Contains(s, x)
    ensures forall y :: y in NestedOf(x) ==> CallShape(y) && Contains(s, y)
    decreases |x| + 1, 0
  {
    if HasNested(x) {
      CallsShape(Inner(x));
      SliceContained(x, Find(x, "(") + 1, |x| - 1);
      ContainsTransitive(s, x, Inner(x));
      forall y | y in NestedOf(x)
        ensures Contains(s, y)
      {
        ContainsTransitive(s, Inner(x), y);
      }
    }
  }

  /** The character loop of `_find_commands_without_string_parameters`. */
  method ScanForCalls(s: string) returns (calls: seq<string>)
    ensures calls == ScanCalls(s)
  {
    var temp: string, isCommand, balance: int := [], false, 0;
    calls := [];
    for i := 0 to |s|
      invariant ScanState(temp, isCommand, balance, calls) == Run(s[..i])
    {
      var c := s[i];
      assert s[..i + 1][..i] == s[..i];
      temp := temp + [c];
      if c in Illegal && !isCommand {
        temp := [];
        continue;
      }
      if c == '(' {
        if isCommand {
          balance := balance - 1;
        } else {
          isCommand := true;
        }
      } else if c == ')' {
        if isCommand {
          if balance == 0 {
            calls := calls + [temp];
            temp := [];
            isCommand := false;
            continue;
          } else {
            balance := balance + 1;
          }
        } else {
          temp := [];
          continue;
        }
      }
    }
    assert s[..|s|] == s;
  }

  /** `_find_commands_without_string_parameters(string)`. */
  method FindCommandsWithoutStringParameters(s: string) returns (calls: seq<string>)
    ensures calls == CallsWithoutStrings(s)
    decreases |s|
  {
    calls := ScanForCalls(s);
    ghost var all := CallsWithoutStrings(s);
    CallsWithoutStringsNesting(s);
    var k := 0;
    while k < |calls|
      invariant k <= |calls| && calls <= all
      invariant calls == ScanCalls(s) + Nested(calls[..k])
      decreases |all| - k
    {
      var x := calls[k];
      assert x == all[k];
      ghost var before := calls;
      if Count(x, ")") > 1 && Count(x, "(") > 1 {
        var nested := FindCommandsWithoutStringParameters(Inner(x));
        calls := calls + nested;
      } else {
        assert calls == calls + NestedOf(x);
      }
      GrowStep(ScanCalls(s), before, all, k);
      k := k + 1;
    }
    assert calls[..k] == calls;
    GrowingListComplete(ScanCalls(s), calls, all);
  }

  // ---------------------------------------------------------------------
  // _find_whole_commands: calls whose arguments hold string literals

  lemma DepthSplit(p: string, j: nat)
    requires j <= |p|
    ensures Depth(p[j..]) == Depth(p) - Depth(p[..j])
  {
    assert p == p[..j] + p[j..];
    assert multiset(p) == multiset(p[..j]) + multiset(p[j..]);
  }

  lemma DepthStep(p: string, i: nat)
    requires i < |p|
    ensures Depth(p[..i + 1]) == Depth(p[..i]) + (if p[i] == '(' then 1 else if p[i] == ')' then -1 else 0)
  {
    assert p[..i + 1] == p[..i] + [p[i]];
    assert multiset(p[..i + 1]) == multiset(p[..i]) + multiset{p[i]};
  }

  /** The forward scan over a free piece while `excess` brackets are open:
      the length of the prefix whose `)` brings the closing-minus-opening
      balance up to `excess`, if there is one. Before that point the balance
      stays below `excess`. */
  function ForwardClose(p: string, excess: int, i: nat): (r: Option<nat>)
    requires i <= |p| && Depth(p[..i]) > -excess
    decreases |p| - i
    ensures r.Some? ==> i < r.value <= |p| && p[r.value - 1] == ')' && Depth(p[..r.value]) == -excess
    ensures r.Some? ==> forall b :: i <= b < r.value ==> Depth(p[..b]) > -excess
    ensures r.None? ==> forall b :: i <= b <= |p| ==> Depth(p[..b]) > -excess
  {
    if i == |p| then None
    else
      DepthStep(p, i);
      if p[i] == ')' && Depth(p[..i + 1]) == -excess then Some(i + 1)
      else ForwardClose(p, excess, i + 1)
  }

  /** The backward scan over a free piece that leaves `excess` brackets
      open: going from the end, the first position where the
      opening-minus-closing balance of the suffix equals `excess` at an
      illegal character (the piece resumes after it) or at the first
      character (the whole piece). */
  function BackwardStart(p: string, excess: int, j: nat): (r: Option<nat>)
    requires j <= |p|
    ensures r.Some? ==> r.value <= j
    ensures r.Some? && r.value == 0 ==> Depth(p) == excess
    ensures r.Some? && r.value > 0 ==> Depth(p[r.value - 1..]) == excess
  {
    if j == 0 then None
    else
      var k := j - 1;
      assert p[0..] == p;
      if Depth(p[k..]) == excess && p[k] in Illegal then Some(k + 1)
      else if Depth(p[k..]) == excess && k == 0 then Some(0)
      else BackwardStart(p, excess, k)
  }

  /** When the forward scan closes the pending call, the tail the backward
      scan keeps starts after the closing prefix. */
  lemma ForwardBackwardDisjoint(p: string, carry: int, a: nat)
    requires carry > 0 && ForwardClose(p, carry, 0) == Some(a)
    ensures var b := BackwardStart(p, Depth(p) + carry, |p|); b.Some? ==> b.value >= a
  {
    forall k | 0 <= k < a
      ensures Depth(p[k..]) < Depth(p) + carry
    {
      DepthSplit(p, k);
    }
    assert p[0..] == p;
  }

  /** When the forward scan does not close the pending call, the backward
      scan keeps nothing. */
  lemma NoCloseNoTail(p: string, carry: int)
    requires carry > 0 && ForwardClose(p, carry, 0).None?
    ensures BackwardStart(p, Depth(p) + carry, |p|).None?
  {
    forall k | 0 <= k <= |p|
      ensures Depth(p[k..]) < Depth(p) + carry
    {
      DepthSplit(p, k);
    }
    assert p[0..] == p;
  }

  /** The loop variables of `_find_whole_commands` between pieces. */
  datatype WholeState = WholeState(calls: seq<string>, incomplete: seq<string>, excess: int)

  /** One iteration of the loop over the pieces of the split: an empty
      piece raises at `string[0]`; a quoted piece is added to a pending
      call; a free piece is scanned for calls and then forward and
      backward for the brackets left open around quoted pieces. */
  function PieceStep(st: WholeState, p: string): Result<WholeState>
  {
    if p == [] then Err(IndexError)
    else if IsQuoted(p) then
      Ok(if st.excess > 0 then st.(incomplete := st.incomplete + [p]) else st)
    else Ok(BackwardPart(ForwardPart(st, p), p, st.excess))
  }

  /** The calls of a free piece, and the forward scan while brackets are
      open: a prefix that closes them completes the pending call, and is
      also kept as the start of the next pending call; otherwise the whole
      piece joins the pending call. */
  function ForwardPart(st: WholeState, p: string): WholeState
  {
    var calls := st.calls + CallsWithoutStrings(p);
    if st.excess <= 0 then st.(calls := calls)
    else
      match ForwardClose(p, st.excess, 0)
      case Some(a) => WholeState(calls + [Concat(st.incomplete + [p[..a]])], [p[..a]], st.excess)
      case None => WholeState(calls, st.incomplete + [p], st.excess)
  }

  /** The new count of open brackets, and the backward scan when some are
      open: the tail that begins the pending call joins it. */
  function BackwardPart(st: WholeState, p: string, carry: int): WholeState
  {
    var excess := Count(p, "(") - Count(p, ")") + carry;
    var tail := if excess > 0 then TailOf(p, excess) else None;
    WholeState(st.calls, if tail.Some? then st.incomplete + [tail.value] else st.incomplete, excess)
  }

  /** The tail of the piece the backward scan keeps. */
  function TailOf(p: string, excess: int): Option<string>
  {
    match BackwardStart(p, excess, |p|)
    case Some(b) => Some(p[b..])
    case None => None
  }

  /** The loop variables after the pieces `ps`. */
  function FoldPieces(ps: seq<string>): Result<WholeState>
  {
    if ps == [] then Ok(WholeState([], [], 0))
    else
      var st :- FoldPieces(ps[..|ps| - 1]);
      PieceStep(st, ps[|ps| - 1])
  }

  /** Everything gathered so far fits in the text read so far: the parts of
      a pending call come from disjoint places in order. */
  ghost predicate Bounded(st: WholeState, n: nat)
  {
    (forall k :: 0 <= k < |st.calls| ==> |st.calls[k]| <= n) && |Concat(st.incomplete)| <= n
  }

  lemma ConcatOne(x: string)
    ensures Concat([x]) == x
  {
    assert [x][1..] == [];
  }

  lemma PieceStepBounded(st: WholeState, p: string, n: nat)
    requires Bounded(st, n) && PieceStep(st, p).Ok?
    ensures Bounded(PieceStep(st, p).value, n + |p|)
  {
    if IsQuoted(p) {
      ConcatAppend(st.incomplete, [p]);
      ConcatOne(p);
    } else if st.excess <= 0 {
      ShutPieceBounded(st, p, n);
    } else if ForwardClose(p, st.excess, 0).Some? {
      ClosingPieceBounded(st, p, n);
    } else {
      OpenPieceBounded(st, p, n);
    }
  }

  /** A free piece read with no bracket open keeps the bound. */
  lemma ShutPieceBounded(st: WholeState, p: string, n: nat)
    requires Bounded(st, n) && st.excess <= 0
    ensures Bounded(BackwardPart(ForwardPart(st, p), p, st.excess), n + |p|)
  {
    var fp := ForwardPart(st, p);
    ForwardCallsBounded(st, p, n);
    assert fp.incomplete == st.incomplete;
    BackwardBounded(fp, p, st.excess, n + |p|, |p|);
  }

  /** A free piece that closes the pending call keeps the bound: the tail
      the backward scan keeps lies after the closing prefix. */
  lemma ClosingPieceBounded(st: WholeState, p: string, n: nat)
    requires Bounded(st, n) && st.excess > 0 && ForwardClose(p, st.excess, 0).Some?
    ensures Bounded(BackwardPart(ForwardPart(st, p), p, st.excess), n + |p|)
  {
    var carry, a := st.excess, ForwardClose(p, st.excess, 0).value;
    var fp := ForwardPart(st, p);
    ForwardCallsBounded(st, p, n);
    assert fp.incomplete == [p[..a]];
    ConcatOne(p[..a]);
    ClosingTailRoom(p, carry, a);
    BackwardBounded(fp, p, carry, n + |p|, |p| - a);
  }

  /** When the forward scan closes the pending call after `a` characters,
      the tail the backward scan keeps fits in the rest of the piece. */
  lemma ClosingTailRoom(p: string, carry: int, a: nat)
    requires carry > 0 && ForwardClose(p, carry, 0) == Some(a)
    ensures a <= |p|
    ensures var e := Count(p, "(") - Count(p, ")") + carry;
      e > 0 && TailOf(p, e).Some? ==> |TailOf(p, e).value| <= |p| - a
  {
    CountDepth(p);
    var e := Depth(p) + carry;
    ForwardBackwardDisjoint(p, carry, a);
    var b := BackwardStart(p, e, |p|);
    assert b.Some? ==> b.value >= a;
    TailRoom(p, e, a);
  }

  /** A tail that starts at or after `a` is no longer than `|p| - a`. */
  lemma TailRoom(p: string, e: int, a: nat)
    requires a <= |p|
    requires var b := BackwardStart(p, e, |p|); b.Some? ==> b.value >= a
    ensures TailOf(p, e).Some? ==> |TailOf(p, e).value| <= |p| - a
  {
  }

  /** Counting the brackets with `count` gives the depth. */
  lemma CountDepth(p: string)
    ensures Count(p, "(") - Count(p, ")") == Depth(p)
  {
    CountOneChar(p, '(');
    CountOneChar(p, ')');
  }

  /** A free piece that leaves the pending call open keeps the bound: the
      backward scan keeps nothing. */
  lemma OpenPieceBounded(st: WholeState, p: string, n: nat)
    requires Bounded(st, n) && st.excess > 0 && ForwardClose(p, st.excess, 0).None?
    ensures Bounded(BackwardPart(ForwardPart(st, p), p, st.excess), n + |p|)
  {
    var carry := st.excess;
    CountOneChar(p, '(');
    CountOneChar(p, ')');
    assert Count(p, "(") - Count(p, ")") + carry == Depth(p) + carry;
    var fp := ForwardPart(st, p);
    ForwardCallsBounded(st, p, n);
    assert fp.incomplete == st.incomplete + [p];
    ConcatAppend(st.incomplete, [p]);
    ConcatOne(p);
    NoCloseNoTail(p, carry);
    BackwardBounded(fp, p, carry, n + |p|, 0);
  }

  /** The calls after the forward scan of a free piece are no longer than
      the text seen so far. */
  lemma ForwardCallsBounded(st: WholeState, p: string, n: nat)
    requires Bounded(st, n)
    ensures forall k :: 0 <= k < |ForwardPart(st, p).calls| ==> |ForwardPart(st, p).calls[k]| <= n + |p|
  {
    var calls := st.calls + CallsWithoutStrings(p);
    assert forall k :: 0 <= k < |calls| ==> |calls[k]| <= n + |p| by {
      forall k | 0 <= k < |calls| ensures |calls[k]| <= n + |p| {
        if k >= |st.calls| {
          assert calls[k] == CallsWithoutStrings(p)[k - |st.calls|];
        }
      }
    }
    if st.excess > 0 {
      match ForwardClose(p, st.excess, 0)
      case Some(a) =>
        var last := Concat(st.incomplete + [p[..a]]);
        ConcatAppend(st.incomplete, [p[..a]]);
        ConcatOne(p[..a]);
        assert forall k :: 0 <= k < |calls + [last]| ==> |(calls + [last])[k]| <= n + |p| by {
          forall k | 0 <= k < |calls + [last]| ensures |(calls + [last])[k]| <= n + |p| {
            if k < |calls| {
              assert (calls + [last])[k] == calls[k];
            }
          }
        }
      case None =>
    }
  }

  /** The backward scan keeps the bound when the pending call leaves `room`
      for the tail it may add. */
  lemma BackwardBounded(fp: WholeState, p: string, carry: int, n: nat, room: nat)
    requires forall k :: 0 <= k < |fp.calls| ==> |fp.calls[k]| <= n
    requires |Concat(fp.incomplete)| + room <= n
    requires var e := Count(p, "(") - Count(p, ")") + carry;
             e > 0 && TailOf(p, e).Some? ==> |TailOf(p, e).value| <= room
    ensures Bounded(BackwardPart(fp, p, carry), n)
  {
    var e := Count(p, "(") - Count(p, ")") + carry;
    if e > 0 && TailOf(p, e).Some? {
      var t := TailOf(p, e).value;
      assert BackwardPart(fp, p, carry) == WholeState(fp.calls, fp.incomplete + [t], e);
      ConcatAppend(fp.incomplete, [t]);
      ConcatOne(t);
    } else {
      assert BackwardPart(fp, p, carry) == WholeState(fp.calls, fp.incomplete, e);
    }
  }

  lemma {:induction false} FoldPiecesBounded(ps: seq<string>)
    requires FoldPieces(ps).Ok?
    ensures Bounded(FoldPieces(ps).value, |Concat(ps)|)
    decreases |ps|
  {
    if ps != [] {
      var front, p := ps[..|ps| - 1], ps[|ps| - 1];
      FoldPiecesBounded(front);
      PieceStepBounded(FoldPieces(front).value, p, |Concat(front)|);
      assert ps == front + [p];
      ConcatAppend(front, [p]);
      ConcatOne(p);
    }
  }

  /** The calls the loop over the pieces collects, before nested calls are
      added; no call is longer than the text. */
  function PieceCalls(s: string): (r: Result<seq<string>>)
    ensures r.Ok? ==> forall k :: 0 <= k < |r.value| ==> |r.value[k]| <= |s|
    ensures r.Err? ==> r.error == IndexError
  {
    SplitErr(s);
    var ps :- SplitStructures(s);
    FoldPiecesErr(ps);
    var st :- FoldPieces(ps);
    SplitConcat(s);
    FoldPiecesBounded(ps);
    Ok(st.calls)
  }

  /** Calls gathered, and whether an exception was raised on the way. */
  datatype Found = Found(calls: seq<string>, failed: bool)

  /** Whether a gathered call is searched again: `count_ignore_in_quotationmarks(command, "(") > 1`,
      which may itself raise. */
  function Recount(x: string): (r: Result<bool>)
    ensures r == Ok(true) ==> x != []
    ensures r.Err? <==> SplitStructures(x).Err?
  {
    match CountIgnore(x, "(")
    case Err(e) => Err(e)
    case Ok(n) =>
      CountIgnoreAtMostCount(x, '(');
      Ok(n > 1)
  }

  /** `_find_whole_commands(s)`: the calls the pieces give, then the calls
      nested in them as the loop over the growing list appends them. */
  function WholeCalls(s: string): (r: Found)
    decreases |s| + 1, 3
    ensures forall k :: 0 <= k < |r.calls| ==> |r.calls[k]| <= |s|
  {
    match PieceCalls(s)
    case Err(_) => Found([], true)
    case Ok(calls) =>
      SizeBound(calls, |s| + 1);
      ExpandWhole(calls)
  }

  function ExpandWhole(L: seq<string>): (r: Found)
    decreases Size(L), 2
    ensures forall k :: 0 <= k < |r.calls| ==> |r.calls[k]| < Size(L)
  {
    if L == [] then Found([], false)
    else
      var n := NestedWhole(L);
      SizeBound(n.calls, Size(L) - 1);
      var e := ExpandWhole(n.calls);
      Found(L + e.calls, n.failed || e.failed)
  }

  function NestedWhole(L: seq<string>): (r: Found)
    decreases Size(L), 1, |L|
    ensures forall k :: 0 <= k < |r.calls| ==> |r.calls[k]| + 1 < Size(L)
  {
    if L == [] then Found([], false)
    else
      var a, b := NestedWholeOf(L[0]), NestedWhole(L[1..]);
      Found(a.calls + b.calls, a.failed || b.failed)
  }

  function NestedWholeOf(x: string): (r: Found)
    decreases |x| + 1, 0
    ensures forall k :: 0 <= k < |r.calls| ==> |r.calls[k]| < |x|
  {
    match Recount(x)
    case Err(_) => Found([], true)
    case Ok(again) => if again then WholeCalls(Inner(x)) else Found([], false)
  }

  /** How Python reports a run of `_find_whole_commands`: every exception
      on its way is an `IndexError`. */
  function AsResult(f: Found): Result<seq<string>>
  {
    if f.failed then Err(IndexError) else Ok(f.calls)
  }

  // The loop over the growing list, for any per-item step `f`: the
  // lemmas below do not depend on what `f` computes.

  /** What the loop appends for the items of `L`, in order, and whether any
      of them raised. */
  function Gather(f: string -> Found, L: seq<string>): Found
  {
    if L == [] then Found([], false)
    else
      var a, b := f(L[0]), Gather(f, L[1..]);
      Found(a.calls + b.calls, a.failed || b.failed)
  }

  lemma {:induction false} GatherAppend(f: string -> Found, a: seq<string>, b: seq<string>)
    ensures var x, y := Gather(f, a), Gather(f, b);
      Gather(f, a + b) == Found(x.calls + y.calls, x.failed || y.failed)
    decreases |a|
  {
    if a == [] {
      assert a + b == b;
    } else {
      GatherAppend(f, a[1..], b);
      assert (a + b)[1..] == a[1..] + b;
    }
  }

  lemma GatherOneMore(f: string -> Found, calls: seq<string>, k: nat)
    requires k < |calls|
    ensures var a, b := Gather(f, calls[..k]), f(calls[k]);
      Gather(f, calls[..k + 1]) == Found(a.calls + b.calls, a.failed || b.failed)
  {
    var x := calls[k];
    assert calls[..k + 1] == calls[..k] + [x];
    GatherAppend(f, calls[..k], [x]);
    assert [x][1..] == [];
  }

  /** A prefix of a fixpoint of `base + Gather(f, _)` gathers a prefix of
      it, and a failure in the prefix is a failure of the fixpoint. */
  lemma GatherPrefix(f: string -> Found, base: seq<string>, front: seq<string>, all: seq<string>)
    requires front <= all && all == base + Gather(f, all).calls
    ensures base + Gather(f, front).calls <= all
    ensures Gather(f, front).failed ==> Gather(f, all).failed
  {
    var tail := all[|front|..];
    assert all == front + tail;
    GatherAppend(f, front, tail);
  }

  /** One round of the loop over the growing list keeps it a prefix of the
      fixpoint and accounts for one more item. */
  lemma GatherStep(f: string -> Found, base: seq<string>, calls: seq<string>, all: seq<string>, k: nat)
    requires k < |calls| && calls <= all && all == base + Gather(f, all).calls
    requires calls == base + Gather(f, calls[..k]).calls
    ensures var calls' := calls + f(calls[k]).calls;
      calls' <= all && calls' == base + Gather(f, calls'[..k + 1]).calls &&
      Gather(f, calls'[..k + 1]).failed == (Gather(f, calls[..k]).failed || f(calls[k]).failed)
  {
    var front := calls[..k + 1];
    var calls' := calls + f(calls[k]).calls;
    assert calls'[..k + 1] == front;
    GatherOneMore(f, calls, k);
    var a, b := Gather(f, calls[..k]), f(calls[k]);
    assert base + (a.calls + b.calls) == (base + a.calls) + b.calls;
    assert all[..k + 1] == front;
    GatherPrefix(f, base, front, all);
  }

  /** An item that raises makes the whole fixpoint raise. */
  lemma GatherFails(f: string -> Found, base: seq<string>, calls: seq<string>, all: seq<string>, k: nat)
    requires k < |calls| && calls <= all && all == base + Gather(f, all).calls
    requires f(calls[k]).failed
    ensures Gather(f, all).failed
  {
    GatherOneMore(f, calls, k);
    assert calls[..k + 1] <= all;
    GatherPrefix(f, base, calls[..k + 1], all);
  }

  /** When every item's results are shorter than the item, each gathered
      call is shorter than the longest item. */
  lemma {:induction false} GatherShorter(f: string -> Found, L: seq<string>)
    requires forall x, k :: 0 <= k < |f(x).calls| ==> |f(x).calls[k]| < |x|
    ensures forall k :: 0 <= k < |Gather(f, L).calls| ==> |Gather(f, L).calls[k]| + 1 < Size(L)
    decreases |L|
  {
    if L != [] {
      GatherShorter(f, L[1..]);
    }
  }

  /** A list that starts a fixpoint of `base + Gather(f, _)` and is itself
      one is the whole fixpoint: nothing remains to be appended. */
  lemma GrowComplete(f: string -> Found, base: seq<string>, calls: seq<string>, all: seq<string>)
    requires forall x, k :: 0 <= k < |f(x).calls| ==> |f(x).calls[k]| < |x|
    requires all == base + Gather(f, all).calls && calls <= all
    requires calls == base + Gather(f, calls).calls
    ensures calls == all
  {
    var rest := all[|calls|..];
    RestGathered(f, base, calls, all);
    NothingNew(f, rest);
  }

  /** What a fixpoint holds beyond a prefix that is itself one is what the
      items beyond the prefix contribute. */
  lemma RestGathered(f: string -> Found, base: seq<string>, calls: seq<string>, all: seq<string>)
    requires all == base + Gather(f, all).calls && calls <= all
    requires calls == base + Gather(f, calls).calls
    ensures all == calls + all[|calls|..] && all[|calls|..] == Gather(f, all[|calls|..]).calls
  {
    var rest := all[|calls|..];
    assert all == calls + rest;
    GatherAppend(f, calls, rest);
    var x, n := Gather(f, calls).calls, Gather(f, rest).calls;
    assert Gather(f, all).calls == x + n;
    SameTail(base, x, n, rest);
  }

  /** Two lists that extend the same front are equal when the results are. */
  lemma SameTail(base: seq<string>, x: seq<string>, n: seq<string>, rest: seq<string>)
    requires base + (x + n) == base + x + rest
    ensures rest == n
  {
    var front := base + x;
    assert base + (x + n) == front + n;
    assert (front + n)[|front|..] == n;
    assert (front + rest)[|front|..] == rest;
  }

  /** Items whose results are shorter than themselves cannot contribute
      themselves back: such a list is empty. */
  lemma NothingNew(f: string -> Found, rest: seq<string>)
    requires forall x, k :: 0 <= k < |f(x).calls| ==> |f(x).calls[k]| < |x|
    requires rest == Gather(f, rest).calls
    ensures rest == []
  {
    if rest != [] {
      GatherShorter(f, rest);
      SizeBound(rest, Size(rest) - 1);
    }
  }

  lemma {:induction false} NestedWholeIsGather(L: seq<string>)
    ensures NestedWhole(L) == Gather(NestedWholeOf, L)
    decreases |L|
  {
    if L != [] {
      NestedWholeIsGather(L[1..]);
    }
  }

  /** The expansion is the fixpoint the loop over the growing list reaches:
      the given calls, then what each item of the result contributes. */
  lemma {:induction false} ExpandWholeFixpoint(L: seq<string>)
    ensures var e := ExpandWhole(L);
      e.calls == L + Gather(NestedWholeOf, e.calls).calls && e.failed == Gather(NestedWholeOf, e.calls).failed
    decreases Size(L)
  {
    if L != [] {
      var n := NestedWhole(L);
      SizeBound(n.calls, Size(L) - 1);
      ExpandWholeFixpoint(n.calls);
      NestedWholeIsGather(L);
      GatherAppend(NestedWholeOf, L, ExpandWhole(n.calls).calls);
    }
  }

  lemma {:induction false} FoldPiecesErrStays(ps: seq<string>, j: nat)
    requires j <= |ps| && FoldPieces(ps[..j]).Err?
    ensures FoldPieces(ps) == FoldPieces(ps[..j])
    decreases |ps|
  {
    if j < |ps| {
      var front := ps[..|ps| - 1];
      assert front[..j] == ps[..j];
      FoldPiecesErrStays(front, j);
    } else {
      assert ps[..j] == ps;
    }
  }

  lemma {:induction false} FoldPiecesErr(ps: seq<string>)
    ensures FoldPieces(ps).Err? ==> FoldPieces(ps).error == IndexError
    decreases |ps|
  {
    if ps != [] {
      FoldPiecesErr(ps[..|ps| - 1]);
    }
  }

  lemma SplitErr(s: string)
    ensures SplitStructures(s).Err? ==> SplitStructures(s).error == IndexError
  {
    if TripleBranch(s) {
      TripleBranchFails(s);
    }
  }

  /** An empty piece anywhere in the split makes the loop raise. */
  lemma {:induction false} FoldPiecesEmptyPiece(ps: seq<string>)
    requires [] in ps
    ensures FoldPieces(ps) == Err(IndexError)
    decreases |ps|
  {
    var front := ps[..|ps| - 1];
    FoldPiecesErr(front);
    if ps[|ps| - 1] != [] {
      assert ps == front + [ps[|ps| - 1]];
      FoldPiecesEmptyPiece(front);
    }
  }

  /** `_find_whole_commands` raises `IndexError` when the split has an
      empty piece (a line that starts or ends with a string literal). */
  lemma WholeCallsEmptyPiece(s: string)
    requires SplitStructures(s).Ok? && [] in SplitStructures(s).value
    ensures AsResult(WholeCalls(s)) == Err(IndexError)
  {
    FoldPiecesEmptyPiece(SplitStructures(s).value);
  }

  /** In particular the empty line raises. */
  lemma WholeCallsEmpty()
    ensures AsResult(WholeCalls([])) == Err(IndexError)
  {
    SplitNoQuotes([]);
    WholeCallsEmptyPiece([]);
  }

  /** One free piece on its own gives the calls the plain scanner finds. */
  lemma FoldOneFreePiece(p: string)
    requires p != [] && !IsQuoted(p)
    ensures FoldPieces([p]).Ok? && FoldPieces([p]).value.calls == CallsWithoutStrings(p)
  {
    assert [p][..0] == [];
    var st := WholeState([], [], 0);
    assert FoldPieces([p]) == PieceStep(st, p);
    assert ForwardPart(st, p).calls == CallsWithoutStrings(p);
  }

  /** On a non-empty line without quotation marks the loop over the pieces
      finds exactly what the plain scanner finds, and the result of
      `_find_whole_commands` begins with those calls. */
  lemma WholeCallsNoQuotes(s: string)
    requires s != [] && forall k :: 0 <= k < |s| ==> !IsQuote(s[k])
    ensures PieceCalls(s) == Ok(CallsWithoutStrings(s))
    ensures CallsWithoutStrings(s) <= WholeCalls(s).calls
  {
    SplitNoQuotes(s);
    assert !IsQuote(s[0]);
    FoldOneFreePiece(s);
    assert PieceCalls(s) == Ok(CallsWithoutStrings(s));
    assert WholeCalls(s) == ExpandWhole(CallsWithoutStrings(s));
  }

  /** The calls of the pieces come first; after them, the nested calls of
      every call in the result, in order. */
  lemma WholeCallsFixpoint(s: string)
    requires PieceCalls(s).Ok?
    ensures var w := WholeCalls(s);
      w.calls == PieceCalls(s).value + Gather(NestedWholeOf, w.calls).calls &&
      w.failed == Gather(NestedWholeOf, w.calls).failed
  {
    ExpandWholeFixpoint(PieceCalls(s).value);
  }

  lemma DepthStepBack(p: string, k: nat)
    requires k < |p|
    ensures p[k..] == [p[k]] + p[k + 1..]
    ensures Depth(p[k..]) == Depth(p[k + 1..]) + (if p[k] == '(' then 1 else if p[k] == ')' then -1 else 0)
  {
    assert p[k..] == [p[k]] + p[k + 1..];
    assert multiset(p[k..]) == multiset{p[k]} + multiset(p[k + 1..]);
  }

  /** The balance of the suffix of `p` from `j`, as the backward loop
      counts it. */
  function Balance(p: string, j: nat): int
    requires j <= |p|
  {
    Depth(p[j..])
  }

  /** One step of the backward loop at position `j - 1`: the balance takes
      in the character, and the search either stops there or goes on to
      the left. */
  lemma BackStep(p: string, excess: int, j: nat)
    requires 0 < j <= |p|
    ensures Balance(p, j - 1) == Balance(p, j) + (if p[j - 1] == '(' then 1 else if p[j - 1] == ')' then -1 else 0)
    ensures BackwardStart(p, excess, j) ==
      if Balance(p, j - 1) == excess && p[j - 1] in Illegal then Some(j)
      else if Balance(p, j - 1) == excess && j == 1 then Some(0)
      else BackwardStart(p, excess, j - 1)
  {
    DepthStepBack(p, j - 1);
  }

  /** The gathered suffix grows by one character at the front. */
  lemma SuffixFront(p: string, j: nat)
    requires 0 < j <= |p|
    ensures [p[j - 1]] + p[j..] == p[j - 1..] && p[j - 1..][1..] == p[j..] && p[0..] == p
  {
  }

  /** The forward loop of `_find_whole_commands` over a free piece while
      `excess` brackets are open: whether the pending call closes, and the
      characters gathered (the closing prefix, or the whole piece). */
  method ForwardScan(p: string, excess: int) returns (closed: bool, temp: string)
    requires excess > 0
    ensures closed == ForwardClose(p, excess, 0).Some?
    ensures temp == if closed then p[..ForwardClose(p, excess, 0).value] else p
  {
    var balance := 0;
    temp := [];
    closed := false;
    var i := 0;
    while i < |p|
      invariant i <= |p| && temp == p[..i] && balance == -Depth(p[..i]) && Depth(p[..i]) > -excess
      invariant ForwardClose(p, excess, i) == ForwardClose(p, excess, 0)
    {
      var c := p[i];
      DepthStep(p, i);
      temp := temp + [c];
      assert temp == p[..i + 1];
      if c == '(' {
        balance := balance - 1;
      } else if c == ')' {
        balance := balance + 1;
        if balance == excess {
          closed := true;
          return;
        }
      }
      i := i + 1;
    }
    assert p[..i] == p;
  }

  /** The backward loop of `_find_whole_commands` over a free piece that
      leaves `excess` brackets open: the tail of the piece that begins the
      pending call, if one is found. `j - 1` is the position `len(string) +
      index` of the negative index; characters are put in front of the
      gathered text, which is what appending and reversing at the end
      gives. */
  method BackwardScan(p: string, excess: int) returns (tail: Option<string>)
    ensures tail == TailOf(p, excess)
  {
    var temp: string := [];
    var balance := 0;
    var j := |p|;
    assert p[j..] == [];
    while j > 0
      invariant j <= |p| && temp == p[j..] && balance == Balance(p, j)
      invariant BackwardStart(p, excess, j) == BackwardStart(p, excess, |p|)
    {
      var c := p[j - 1];
      BackStep(p, excess, j);
      SuffixFront(p, j);
      temp := [c] + temp;
      if c == ')' {
        balance := balance - 1;
      } else if c == '(' {
        balance := balance + 1;
      }
      if balance == excess {
        if c in Illegal {
          return Some(temp[1..]);
        } else if j == 1 {
          return Some(temp);
        }
      }
      j := j - 1;
    }
    return None;
  }

  /** One iteration of the loop over the pieces, on a non-empty piece. */
  method ScanPiece(st: WholeState, p: string) returns (st': WholeState)
    requires p != []
    ensures PieceStep(st, p) == Ok(st')
  {
    if !IsQuoted(p) {
      var forward := ScanForward(st, p);
      st' := ScanBackward(forward, p, st.excess);
    } else if st.excess > 0 {
      st' := st.(incomplete := st.incomplete + [p]);
    } else {
      st' := st;
    }
  }

  /** The first half of the loop body on a free piece. */
  method ScanForward(st: WholeState, p: string) returns (st': WholeState)
    ensures st' == ForwardPart(st, p)
  {
    var calls, incomplete, excess := st.calls, st.incomplete, st.excess;
    var found := FindCommandsWithoutStringParameters(p);
    calls := calls + found;
    if excess > 0 {
      var closed, temp := ForwardScan(p, excess);
      if closed {
        incomplete := incomplete + [temp];
        calls := calls + [Concat(incomplete)];
        incomplete := [];
      }
      incomplete := incomplete + [temp];
    }
    return WholeState(calls, incomplete, excess);
  }

  /** The second half of the loop body on a free piece. */
  method ScanBackward(st: WholeState, p: string, carry: int) returns (st': WholeState)
    ensures st' == BackwardPart(st, p, carry)
  {
    var incomplete := st.incomplete;
    var excess := Count(p, "(") - Count(p, ")") + carry;
    if excess > 0 {
      var tail := BackwardScan(p, excess);
      if tail.Some? {
        incomplete := incomplete + [tail.value];
      }
    }
    return WholeState(st.calls, incomplete, excess);
  }

  /** The loop of `_find_whole_commands` over the pieces of the split. */
  method ScanPieces(ps: seq<string>) returns (r: Result<WholeState>)
    ensures r == FoldPieces(ps)
  {
    var st := WholeState([], [], 0);
    for i := 0 to |ps|
      invariant FoldPieces(ps[..i]) == Ok(st)
    {
      var p := ps[i];
      assert ps[..i + 1][..i] == ps[..i];
      if p == [] {
        FoldPiecesErrStays(ps, i + 1);
        return Err(IndexError);
      }
      st := ScanPiece(st, p);
    }
    assert ps[..|ps|] == ps;
    return Ok(st);
  }

  /** The split and the loop over its pieces. */
  method FindPieceCalls(s: string) returns (r: Result<seq<string>>)
    ensures r == PieceCalls(s)
  {
    var split := SplitStringStructures(s);
    if split.Err? {
      return Err(split.error);
    }
    var st := ScanPieces(split.value);
    if st.Err? {
      return Err(st.error);
    }
    return Ok(st.value.calls);
  }

  /** One round of the loop over the growing list: the calls to append for
      `command`, or the exception raised. */
  method NestedCallsOf(x: string) returns (r: Result<seq<string>>)
    ensures r == AsResult(NestedWholeOf(x))
    decreases |x| + 1, 0
  {
    var n := CountIgnoreInQuotationmarks(x, "(");
    if n.Err? {
      SplitErr(x);
      return Err(n.error);
    }
    if n.value > 1 {
      assert Recount(x) == Ok(true);
      r := FindWholeCommands(Inner(x));
    } else {
      r := Ok([]);
    }
  }

  /** `_find_whole_commands(input_str)`. */
  method FindWholeCommands(s: string) returns (r: Result<seq<string>>)
    ensures r == AsResult(WholeCalls(s))
    decreases |s| + 1, 3
  {
    var raw := FindPieceCalls(s);
    if raw.Err? {
      return Err(raw.error);
    }
    SizeBound(raw.value, |s| + 1);
    r := ExpandCalls(raw.value);
  }

  /** The loop of `_find_whole_commands` over the list it appends to. */
  method ExpandCalls(base: seq<string>) returns (r: Result<seq<string>>)
    ensures r == AsResult(ExpandWhole(base))
    decreases Size(base), 2
  {
    var calls := base;
    ghost var all := ExpandWhole(base);
    ghost var f := NestedWholeOf;
    ExpandWholeFixpoint(base);
    var k := 0;
    while k < |calls|
      invariant k <= |calls| && calls <= all.calls
      invariant calls == base + Gather(f, calls[..k]).calls && !Gather(f, calls[..k]).failed
      decreases |all.calls| - k
    {
      var x := calls[k];
      assert x == all.calls[k];
      GatherStep(f, base, calls, all.calls, k);
      var nested := NestedCallsOf(x);
      if nested.Err? {
        GatherFails(f, base, calls, all.calls, k);
        return Err(nested.error);
      }
      calls := calls + nested.value;
      k := k + 1;
    }
    assert calls[..k] == calls;
    GrowComplete(f, base, calls, all.calls);
    return Ok(calls);
  }
}
