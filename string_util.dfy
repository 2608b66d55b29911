/** The small string helpers of the shell's utility module: inclusive cuts,
    division at a separator, searches for markers, indentation, counting a
    character and escaping text for LaTeX. */
module StringUtil {
  import opened Results
  import opened PyStrings

  // ---------------------------------------------------------------------
  // cut

  /** `cut(s, a, b)`: the slice from `a` to `b` with both ends included. */
  function Cut<T>(s: seq<T>, a: int, b: int): (r: seq<T>)
    ensures 0 <= a <= b < |s| ==> r == s[a..b + 1]
    ensures 0 <= b < a ==> r == []
    ensures |r| <= |s|
  {
    Slice(s, a, b + 1)
  }

  // ---------------------------------------------------------------------
  // divide_by_custom

  /** The marker a multi-character separator is rewritten to before the
      text is divided. */
  const Degree: char := '\U{B0}'

  /** The text with `c` added at the end unless it already ends with `c`. */
  function Terminated(s: string, c: char): (r: string)
    requires |s| > 0
    ensures r == s || r == s + [c]
    ensures |r| > 0 && r[|r| - 1] == c
  {
    if s[|s| - 1] != c then s + [c] else s
  }

  /** What `divide_by_custom(s, custom)` returns; `None` stands for the
      implicit `return None` when the text is empty or a separator that is
      not one character long does not occur. */
  function DivideByCustomSpec(s: string, custom: string): Option<seq<string>>
  {
    if |s| == 0 then None
    else if |custom| == 1 then
      var parts := SplitOn(Terminated(s, custom[0]), custom[0]);
      Some(parts[..|parts| - 1])
    else if Contains(s, custom) then Some(SplitOn(Replace(s, custom, [Degree]), Degree))
    else None
  }

  /** The character loop shared by both branches of `divide_by_custom`: the
      list of finished pieces with the piece still being collected at its
      end. */
  method SplitChars(text: string, c: char) returns (pieces: seq<string>)
    ensures pieces == SplitOn(text, c)
  {
    var divided: seq<string> := [];
    var temp: string := [];
    for i := 0 to |text|
      invariant divided + [temp] == SplitOn(text[..i], c)
    {
      assert text[..i + 1][..i] == text[..i];
      var init := SplitOn(text[..i], c);
      if text[i] == c {
        divided := divided + [temp];
        temp := [];
      } else {
        assert init[..|init| - 1] == divided;
        temp := temp + [text[i]];
      }
    }
    assert text[..|text|] == text;
    pieces := divided + [temp];
  }

  /** `divide_by_custom(string, custom)`. */
  method DivideByCustom(s: string, custom: string) returns (r: Option<seq<string>>)
    ensures r == DivideByCustomSpec(s, custom)
  {
    if |s| >= 1 {
      if |custom| == 1 {
        var n := if s[|s| - 1] != custom[0] then s + custom else s;
        var parts := SplitChars(n, custom[0]);
        return Some(parts[..|parts| - 1]);
      } else if Contains(s, custom) {
        var parts := SplitChars(Replace(s, custom, [Degree]), Degree);
        return Some(parts);
      }
    }
    return None;
  }

  /** With a one-character separator, the pieces are free of the separator,
      there is one piece per separator once the text is made to end with one,
      and writing each piece followed by the separator gives that text back. */
  lemma DivideOneChar(s: string, c: char)
    requires |s| > 0
    ensures DivideByCustomSpec(s, [c]).Some?
    ensures var ps := DivideByCustomSpec(s, [c]).value;
            var n := Terminated(s, c);
            && |ps| == multiset(n)[c]
            && (forall k :: 0 <= k < |ps| ==> c !in ps[k])
            && JoinWith(ps + [[]], [c]) == n
  {
    var n := Terminated(s, c);
    var parts := SplitOn(n, c);
    assert n == n[..|n| - 1] + [c];
    assert parts == SplitOn(n[..|n| - 1], c) + [[]];
    assert parts[..|parts| - 1] + [[]] == parts;
    JoinSplitOn(n, c);
  }

  /** With a longer (or empty) separator the text is divided at the marker
      character it is rewritten to; nothing is returned when it is absent. */
  lemma DivideLongSeparator(s: string, custom: string)
    requires |s| > 0 && |custom| != 1
    ensures DivideByCustomSpec(s, custom).Some? <==> Contains(s, custom)
    ensures Contains(s, custom) ==>
              JoinWith(DivideByCustomSpec(s, custom).value, [Degree]) == Replace(s, custom, [Degree])
  {
    if Contains(s, custom) {
      JoinSplitOn(Replace(s, custom, [Degree]), Degree);
    }
  }

  // ---------------------------------------------------------------------
  // get_substring_before, get_substring_between

  /** `get_substring_before(s, before)`: the text before the first
      occurrence of `before`, or all of `s` when it does not occur. */
  function GetSubstringBefore(s: string, before: string): (r: string)
    ensures r <= s
    ensures Contains(s, before) ==>
              OccursAt(s, |r|, before) && forall j :: 0 <= j < |r| ==> !OccursAt(s, j, before)
    ensures !Contains(s, before) ==> r == s
  {
    FindPresent(s, before);
    if Contains(s, before) then Slice(s, 0, Find(s, before)) else s
  }

  /** `get_substring_between(s, start, end)`, for any inputs. */
  function GetSubstringBetween(s: string, start: string, end: string): string
  {
    var i := Find(s, start);
    Cut(s, i + 1 + |start| - 1, FindFrom(s, end, i + 1) - 1)
  }

  /** When `start` first occurs at `i` and `end` first occurs after `i` at
      `j`, past the end of `start`, the result is the text between the two
      markers: `s` is rebuilt from the text before `start`, `start`, the
      result, `end` and the rest. */
  lemma SubstringBetweenMarkers(s: string, start: string, end: string, i: nat, j: nat)
    requires OccursAt(s, i, start) && forall k :: 0 <= k < i ==> !OccursAt(s, k, start)
    requires OccursAt(s, j, end) && forall k :: i < k < j ==> !OccursAt(s, k, end)
    requires i < j && i + |start| <= j
    ensures GetSubstringBetween(s, start, end) == s[i + |start|..j]
    ensures s == s[..i] + start + GetSubstringBetween(s, start, end) + end + s[j + |end|..]
  {
    assert Find(s, start) == i;
    assert FindFrom(s, end, i + 1) == j;
    assert s == s[..i] + s[i..i + |start|] + s[i + |start|..j] + s[j..j + |end|] + s[j + |end|..];
  }

  // ---------------------------------------------------------------------
  // get_sublist_between

  /** `l.index(x, start)`: the first position at or after `start` holding
      `x`, or `ValueError`. */
  function ListIndex(l: seq<string>, x: string, start: int): (r: Result<nat>)
    ensures r.Ok? ==> NormalizeStart(start, |l|) <= r.value < |l| && l[r.value] == x
    ensures r.Ok? ==> forall k :: NormalizeStart(start, |l|) <= k < r.value ==> l[k] != x
    ensures r.Err? ==> r.error == ValueError
    ensures r.Err? ==> forall k :: NormalizeStart(start, |l|) <= k < |l| ==> l[k] != x
  {
    IndexOfFrom(l, x, NormalizeStart(start, |l|))
  }

  function IndexOfFrom(l: seq<string>, x: string, i: nat): (r: Result<nat>)
    decreases |l| - i
    ensures r.Ok? ==> i <= r.value < |l| && l[r.value] == x
    ensures r.Ok? ==> forall k :: i <= k < r.value ==> l[k] != x
    ensures r.Err? ==> r.error == ValueError && forall k :: i <= k < |l| ==> l[k] != x
  {
    if i >= |l| then Err(ValueError)
    else if l[i] == x then Ok(i)
    else IndexOfFrom(l, x, i + 1)
  }

  /** The items compared against the markers: with `whitespace` off, each
      item with its blanks removed. */
  function Keys(l: seq<string>, whitespace: bool): (r: seq<string>)
    ensures |r| == |l|
  {
    if whitespace then l else seq(|l|, k requires 0 <= k < |l| => Replace(l[k], " ", ""))
  }

  /** What `get_sublist_between(l, item_start, item_end, ind_start,
      whitespace)` returns for a list of strings. */
  function SublistBetween(l: seq<string>, itemStart: string, itemEnd: string, indStart: int,
                          whitespace: bool): Result<seq<string>>
  {
    if !whitespace && |l| == 0 then Err(IndexError)
    else
      var keys := Keys(l, whitespace);
      var a :- ListIndex(keys, itemStart, indStart);
      var b :- ListIndex(keys, itemEnd, a + 1);
      Ok(Cut(l, a + 1, b - 1))
  }

  /** `get_sublist_between`, building the blank-free copy of the list in a
      loop as the utility does. */
  method GetSublistBetween(l: seq<string>, itemStart: string, itemEnd: string, indStart: int,
                           whitespace: bool) returns (r: Result<seq<string>>)
    ensures r == SublistBetween(l, itemStart, itemEnd, indStart, whitespace)
  {
    if !whitespace && |l| == 0 {
      return Err(IndexError);
    }
    var keys := l;
    if !whitespace {
      var nowhite: seq<string> := [];
      for i := 0 to |l|
        invariant nowhite == Keys(l, false)[..i]
      {
        nowhite := nowhite + [Replace(l[i], " ", "")];
      }
      keys := nowhite;
    }
    assert keys == Keys(l, whitespace);
    var a := ListIndex(keys, itemStart, indStart);
    if a.Err? {
      return Err(a.error);
    }
    var b := ListIndex(keys, itemEnd, a.value + 1);
    if b.Err? {
      return Err(b.error);
    }
    return Ok(Cut(l, a.value + 1, b.value - 1));
  }

  /** With both markers present, the result is exactly the items strictly
      between the first start marker at or after `indStart` and the first end
      marker after it. */
  lemma SublistBetweenMarkers(l: seq<string>, itemStart: string, itemEnd: string, indStart: int,
                              whitespace: bool, a: nat, b: nat)
    requires whitespace || |l| > 0
    requires NormalizeStart(indStart, |l|) <= a < b < |l|
    requires Keys(l, whitespace)[a] == itemStart
    requires forall k :: NormalizeStart(indStart, |l|) <= k < a ==> Keys(l, whitespace)[k] != itemStart
    requires Keys(l, whitespace)[b] == itemEnd
    requires forall k :: a < k < b ==> Keys(l, whitespace)[k] != itemEnd
    ensures SublistBetween(l, itemStart, itemEnd, indStart, whitespace) == Ok(l[a + 1..b])
  {
    var keys := Keys(l, whitespace);
    assert ListIndex(keys, itemStart, indStart) == Ok(a);
    assert ListIndex(keys, itemEnd, a + 1) == Ok(b);
    assert Cut(l, a + 1, b - 1) == l[a + 1..b];
  }

  /** A start marker absent from the searched part raises `ValueError`. */
  lemma SublistBetweenMissingStart(l: seq<string>, itemStart: string, itemEnd: string, indStart: int,
                                   whitespace: bool)
    requires whitespace || |l| > 0
    requires forall k :: NormalizeStart(indStart, |l|) <= k < |l| ==> Keys(l, whitespace)[k] != itemStart
    ensures SublistBetween(l, itemStart, itemEnd, indStart, whitespace) == Err(ValueError)
  {
  }

  // ---------------------------------------------------------------------
  // get_indendation, remove_indendation

  /** The run of blanks the text starts with: the longest prefix made only
      of `' '`. */
  function Indentation(s: string): (r: string)
    ensures r <= s
    ensures forall k :: 0 <= k < |r| ==> r[k] == ' '
    ensures |r| == |s| || s[|r|] != ' '
  {
    if s != [] && s[0] == ' ' then
      var t := Indentation(s[1..]);
      assert s == [s[0]] + s[1..];
      assert |t| < |s| - 1 ==> s[1 + |t|] == s[1..][|t|];
      [' '] + t
    else []
  }

  /** `get_indendation(s)`: collects blanks until the first other
      character. */
  method GetIndendation(s: string) returns (indent: string)
    ensures indent == Indentation(s)
  {
    indent := [];
    var i := 0;
    while i < |s| && s[i] == ' '
      invariant 0 <= i <= |s|
      invariant indent == s[..i] && forall k :: 0 <= k < i ==> s[k] == ' '
    {
      indent := indent + [' '];
      i := i + 1;
    }
    IndentationUnique(s, indent);
  }

  /** A blank prefix that cannot be extended is the indentation. */
  lemma {:induction false} IndentationUnique(s: string, p: string)
    requires p <= s && (forall k :: 0 <= k < |p| ==> p[k] == ' ') && (|p| == |s| || s[|p|] != ' ')
    ensures p == Indentation(s)
    decreases |s|
  {
    if p != [] {
      IndentationUnique(s[1..], p[1..]);
    }
  }

  /** `remove_indendation(s)`: every occurrence of the indentation is
      deleted. */
  function RemoveIndendation(s: string): string
  {
    Replace(s, Indentation(s), [])
  }

  /** Without indentation the text is unchanged; otherwise the leading
      indentation goes and the same run of blanks is also deleted wherever it
      occurs in the rest of the text, not only at its start. */
  lemma RemoveIndendationEffect(s: string)
    ensures Indentation(s) == [] ==> RemoveIndendation(s) == s
    ensures Indentation(s) != [] ==>
              RemoveIndendation(s) == Replace(s[|Indentation(s)|..], Indentation(s), [])
  {
    if Indentation(s) == [] {
      InterleaveNothing(s);
    }
  }

  // ---------------------------------------------------------------------
  // latex_compatible

  /** `latex_compatible(s)`: paragraph breaks become `\\` line ends and the
      characters `_ % $ & #` are escaped with a backslash. */
  function LatexCompatible(s: string): string
  {
    var t0 := Replace(s, "\n\n", "\\\\\n");
    var t1 := Replace(t0, "_", "\\_");
    var t2 := Replace(t1, "%", "\\%");
    var t3 := Replace(t2, "$", "\\$");
    var t4 := Replace(t3, "&", "\\&");
    Replace(t4, "#", "\\#")
  }

  /** Reference escaping: each character of `cs` is preceded by a
      backslash, every other character is kept. */
  function Escape(s: string, cs: set<char>): (r: string)
    ensures |r| >= |s|
  {
    if s == [] then [] else EscapeChar(s[0], cs) + Escape(s[1..], cs)
  }

  function EscapeChar(x: char, cs: set<char>): string
  {
    if x in cs then ['\\', x] else [x]
  }

  /** Replacing one character distributes over concatenation. */
  lemma {:induction false} ReplaceCharAppend(a: string, b: string, c: char, r: string)
    ensures Replace(a + b, [c], r) == Replace(a, [c], r) + Replace(b, [c], r)
    decreases |a|
  {
    if a == [] {
      assert a + b == b;
    } else {
      ReplaceCharAppend(a[1..], b, c, r);
      assert (a + b)[1..] == a[1..] + b;
      assert [c] <= a + b <==> [c] <= a;
    }
  }

  /** One more escaping replace turns the escaping of `cs` into the escaping
      of `cs + {c}`. */
  lemma {:induction false} EscapeStep(s: string, cs: set<char>, c: char)
    requires c != '\\' && c !in cs
    ensures Replace(Escape(s, cs), [c], ['\\', c]) == Escape(s, cs + {c})
    decreases |s|
  {
    if s != [] {
      EscapeStep(s[1..], cs, c);
      ReplaceCharAppend(EscapeChar(s[0], cs), Escape(s[1..], cs), c, ['\\', c]);
      var e := EscapeChar(s[0], cs);
      if s[0] in cs {
        assert e == [e[0]] + [e[1]];
        assert Replace([e[1]], [c], ['\\', c]) == [e[1]];
      }
    }
  }

  /** `latex_compatible` first turns every paragraph break into a LaTeX line
      break and then escapes `_ % $ & #` exactly as the reference escaping
      prescribes; text without paragraph breaks is only escaped. */
  lemma LatexEscapes(s: string)
    ensures LatexCompatible(s) == Escape(Replace(s, "\n\n", "\\\\\n"), {'_', '%', '$', '&', '#'})
    ensures !Contains(s, "\n\n") ==> LatexCompatible(s) == Escape(s, {'_', '%', '$', '&', '#'})
  {
    var t0 := Replace(s, "\n\n", "\\\\\n");
    EscapeNothing(t0);
    EscapeStep(t0, {}, '_');
    EscapeStep(t0, {'_'}, '%');
    EscapeStep(t0, {'_', '%'}, '$');
    EscapeStep(t0, {'_', '%', '$'}, '&');
    EscapeStep(t0, {'_', '%', '$', '&'}, '#');
    assert {'_'} == {} + {'_'};
    assert {'_', '%'} == {'_'} + {'%'};
    assert {'_', '%', '$'} == {'_', '%'} + {'$'};
    assert {'_', '%', '$', '&'} == {'_', '%', '$'} + {'&'};
    assert {'_', '%', '$', '&', '#'} == {'_', '%', '$', '&'} + {'#'};
    if !Contains(s, "\n\n") {
      ReplaceAbsent(s, "\n\n", "\\\\\n");
    }
  }

  lemma {:induction false} EscapeNothing(s: string)
    ensures Escape(s, {}) == s
    decreases |s|
  {
    if s != [] {
      EscapeNothing(s[1..]);
      assert s == [s[0]] + s[1..];
    }
  }

  // ---------------------------------------------------------------------
  // count_chars

  /** `count_chars(s, ch)`: the number of characters of `s` equal to the
      string `ch`, which only a one-character `ch` can be. */
  method CountChars(s: string, ch: string) returns (amount: nat)
    ensures |ch| == 1 ==> amount == multiset(s)[ch[0]] == Count(s, ch)
    ensures |ch| != 1 ==> amount == 0
  {
    amount := 0;
    for i := 0 to |s|
      invariant amount == if |ch| == 1 then multiset(s[..i])[ch[0]] else 0
    {
      assert s[..i + 1] == s[..i] + [s[i]];
      if [s[i]] == ch {
        amount := amount + 1;
      }
    }
    assert s[..|s|] == s;
    if |ch| == 1 {
      CountOneChar(s, ch[0]);
      assert ch == [ch[0]];
    }
  }
}
