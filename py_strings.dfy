/** Python's built-in operations on `str` and `list` that the shell's text
    front end is written with, given the meaning CPython gives them:
    `in`, `count`, `replace`, `find`, slicing, `split`, `join`, `str(int)`,
    string comparison and the character classes used by its regular
    expressions. */
module PyStrings {

  // ---------------------------------------------------------------------
  // Searching

  /** `sub in s`. */
  predicate Contains(s: string, sub: string)
    decreases |s|
  {
    sub <= s || (|s| > 0 && Contains(s[1..], sub))
  }

  /** `s[i:i + len(sub)] == sub`, with the whole window inside `s`. */
  predicate OccursAt(s: string, i: int, sub: string)
  {
    0 <= i && i + |sub| <= |s| && s[i..i + |sub|] == sub
  }

  lemma {:induction false} ContainsIffOccurs(s: string, sub: string)
    ensures Contains(s, sub) <==> exists i :: OccursAt(s, i, sub)
    decreases |s|
  {
    if sub <= s {
      assert OccursAt(s, 0, sub);
    } else if |s| > 0 {
      ContainsIffOccurs(s[1..], sub);
      forall i | OccursAt(s[1..], i, sub) ensures OccursAt(s, i + 1, sub) {
        TailWindow(s, i, |sub|);
      }
      forall i | OccursAt(s, i, sub) ensures OccursAt(s[1..], i - 1, sub) {
        assert i != 0;
        TailWindow(s, i - 1, |sub|);
      }
    }
  }

  /** A window of the tail of `s` is the window of `s` one further on. */
  lemma TailWindow(s: string, i: nat, n: nat)
    requires i + n < |s|
    ensures s[1..][i..i + n] == s[i + 1..i + 1 + n]
  {
    var a, b := s[1..][i..i + n], s[i + 1..i + 1 + n];
    assert forall k :: 0 <= k < n ==> a[k] == b[k];
  }

  /** First `j >= i` at which `sub` occurs in `s`, or -1. */
  function IndexFrom(s: string, sub: string, i: nat): (r: int)
    decreases |s| - i
    ensures r == -1 || (i <= r && OccursAt(s, r, sub))
    ensures r != -1 ==> forall j :: i <= j < r ==> !OccursAt(s, j, sub)
    ensures r == -1 ==> forall j :: i <= j ==> !OccursAt(s, j, sub)
  {
    if i + |sub| > |s| then -1
    else if sub <= s[i..] then i
    else IndexFrom(s, sub, i + 1)
  }

  /** How Python reads the `start` argument of `find` and `index`. */
  function NormalizeStart(start: int, n: nat): nat
  {
    if start >= 0 then start else if start + n < 0 then 0 else start + n
  }

  /** `s.find(sub)`. */
  function Find(s: string, sub: string): int
  {
    IndexFrom(s, sub, 0)
  }

  /** `s.find(sub, start)`. */
  function FindFrom(s: string, sub: string, start: int): int
  {
    IndexFrom(s, sub, NormalizeStart(start, |s|))
  }

  lemma FindPresent(s: string, sub: string)
    ensures Contains(s, sub) <==> Find(s, sub) != -1
  {
    ContainsIffOccurs(s, sub);
    if i :| OccursAt(s, i, sub) {
      assert 0 <= i;
    }
  }

  // ---------------------------------------------------------------------
  // Counting and replacing

  /** `s.count(sub)`: non-overlapping occurrences taken from the left; the
      empty string occurs `len(s) + 1` times. */
  function Count(s: string, sub: string): nat
  {
    if sub == [] then |s| + 1 else CountNonEmpty(s, sub)
  }

  function CountNonEmpty(s: string, sub: string): nat
    requires sub != []
    decreases |s|
  {
    if |s| < |sub| then 0
    else if sub <= s then 1 + CountNonEmpty(s[|sub|..], sub)
    else CountNonEmpty(s[1..], sub)
  }

  /** Counting a one-character string is counting that character. */
  lemma {:induction false} CountOneChar(s: string, c: char)
    ensures Count(s, [c]) == multiset(s)[c]
    decreases |s|
  {
    if |s| > 0 {
      CountOneChar(s[1..], c);
      assert s == [s[0]] + s[1..];
      assert [c] <= s <==> s[0] == c;
    }
  }

  /** Two occurrences of a character count at least twice. */
  lemma CountTwo(s: string, c: char, i: nat, j: nat)
    requires i < j < |s| && s[i] == c && s[j] == c
    ensures Count(s, [c]) >= 2
  {
    CountOneChar(s, c);
    assert s == s[..i] + [s[i]] + s[i + 1..j] + [s[j]] + s[j + 1..];
  }

  lemma {:induction false} CountAbsent(s: string, sub: string)
    requires sub != [] && !Contains(s, sub)
    ensures Count(s, sub) == 0
    decreases |s|
  {
    if |s| >= |sub| {
      CountAbsent(s[1..], sub);
    }
  }

  /** Text holding `sub` holds its first character. */
  lemma ContainsFirst(s: string, sub: string)
    requires sub != []
    ensures Contains(s, sub) ==> sub[0] in s
  {
    if Contains(s, sub) {
      ContainsIffOccurs(s, sub);
      var k :| OccursAt(s, k, sub);
      assert s[k..k + |sub|][0] == s[k];
    }
  }

  /** `s.replace(sub, r)`: every non-overlapping occurrence, taken from the
      left, is replaced; an empty `sub` puts `r` before every character and
      at the end. */
  function Replace(s: string, sub: string, r: string): string
    decreases |s|
  {
    if sub == [] then Interleave(s, r)
    else if sub <= s then r + Replace(s[|sub|..], sub, r)
    else if s == [] then []
    else [s[0]] + Replace(s[1..], sub, r)
  }

  function Interleave(s: string, r: string): string
  {
    if s == [] then r else r + [s[0]] + Interleave(s[1..], r)
  }

  lemma {:induction false} ReplaceAbsent(s: string, sub: string, r: string)
    requires sub != [] && !Contains(s, sub)
    ensures Replace(s, sub, r) == s
    decreases |s|
  {
    if s != [] {
      ReplaceAbsent(s[1..], sub, r);
    }
  }

  /** Text in which the first character of `sub` does not occur is copied
      unchanged in front of the rewritten rest. */
  lemma {:induction false} ReplaceSkip(x: string, y: string, sub: string, r: string)
    requires sub != [] && sub[0] !in x
    ensures Replace(x + y, sub, r) == x + Replace(y, sub, r)
    decreases |x|
  {
    if x == [] {
      assert x + y == y;
    } else {
      var rest := Replace(y, sub, r);
      assert sub[0] !in x[1..];
      ReplaceSkip(x[1..], y, sub, r);
      assert x + y == [x[0]] + (x[1..] + y);
      ReplaceCons(x[0], x[1..] + y, sub, r);
      assert x + rest == [x[0]] + (x[1..] + rest);
    }
  }

  /** A character that cannot start `sub` is copied. */
  lemma {:induction false} ReplaceCons(c: char, t: string, sub: string, r: string)
    requires sub != [] && c != sub[0]
    ensures Replace([c] + t, sub, r) == [c] + Replace(t, sub, r)
  {
    assert ([c] + t)[1..] == t;
  }

  /** An occurrence of `sub` at the front is replaced by `r`. */
  lemma {:induction false} ReplaceHere(sub: string, y: string, r: string)
    requires sub != []
    ensures Replace(sub + y, sub, r) == r + Replace(y, sub, r)
  {
    assert sub <= sub + y;
    assert (sub + y)[|sub|..] == y;
  }

  /** `sub`, then text that cannot start it, then text already free of it:
      only the leading occurrence is replaced. */
  lemma {:induction false} ReplaceLeading(sub: string, sep: string, rest: string, r: string)
    requires sub != [] && sub[0] !in sep && Replace(rest, sub, r) == rest
    ensures Replace(sub + sep + rest, sub, r) == r + (sep + rest)
  {
    assert sub + sep + rest == sub + (sep + rest);
    ReplaceHere(sub, sep + rest, r);
    ReplaceSkip(sep, rest, sub, r);
  }

  /** Text that cannot start `sub`, one occurrence of `sub`, then text
      already free of it: that one occurrence is replaced. */
  lemma {:induction false} ReplaceOnce(x: string, sub: string, w: string, r: string)
    requires sub != [] && sub[0] !in x && Replace(w, sub, r) == w
    ensures Replace(x + sub + w, sub, r) == x + (r + w)
  {
    assert x + sub + w == x + (sub + w);
    ReplaceSkip(x, sub + w, sub, r);
    ReplaceHere(sub, w, r);
  }

  /** `sub`, a separator, `sub` again and a tail, with neither separator
      nor tail able to start `sub`: both occurrences are replaced. */
  lemma {:induction false} ReplaceTwice(sub: string, sep: string, b: string, r: string)
    requires sub != [] && sub[0] !in sep && sub[0] !in b
    ensures Replace(sub + (sep + (sub + b)), sub, r) == r + (sep + (r + b))
  {
    ReplaceNoStart(b, sub, r);
    ReplaceFront(sub, b, r, b);
    ReplaceSkip(sep, sub + b, sub, r);
    ReplaceFront(sub, sep + (sub + b), r, sep + (r + b));
  }

  /** `sub` in front of text whose rewriting is known. */
  lemma {:induction false} ReplaceFront(sub: string, w: string, r: string, u: string)
    requires sub != [] && Replace(w, sub, r) == u
    ensures Replace(sub + w, sub, r) == r + u
  {
    ReplaceHere(sub, w, r);
  }

  /** Text in which the first character of `sub` does not occur is left
      as it is. */
  lemma {:induction false} ReplaceNoStart(s: string, sub: string, r: string)
    requires sub != [] && sub[0] !in s
    ensures Replace(s, sub, r) == s
  {
    ReplaceSkip(s, [], sub, r);
    assert s + [] == s;
  }

  /** Inserting nothing between the characters changes nothing. */
  lemma {:induction false} InterleaveNothing(s: string)
    ensures Interleave(s, []) == s
    decreases |s|
  {
    if s != [] {
      InterleaveNothing(s[1..]);
      assert s == [s[0]] + s[1..];
    }
  }

  /** Replacing a substring by itself changes nothing. */
  lemma {:induction false} ReplaceSelf(s: string, sub: string)
    ensures Replace(s, sub, sub) == s
    decreases |s|
  {
    if sub == [] {
      InterleaveNothing(s);
    } else if sub <= s {
      ReplaceSelf(s[|sub|..], sub);
      assert s == sub + s[|sub|..];
    } else if s != [] {
      ReplaceSelf(s[1..], sub);
      assert s == [s[0]] + s[1..];
    }
  }

  /** Replacing a character that does not occur changes nothing. */
  lemma {:induction false} ReplaceMissingChar(s: string, c: char, r: string)
    requires c !in s
    ensures Replace(s, [c], r) == s
    decreases |s|
  {
    if s != [] {
      assert s[0] != c;
      ReplaceMissingChar(s[1..], c, r);
    }
  }

  /** Replacing a character by nothing deletes every occurrence of it and
      keeps every other character. */
  lemma {:induction false} ReplaceCharByNothing(s: string, c: char)
    ensures multiset(Replace(s, [c], [])) == multiset(s)[c := 0]
    decreases |s|
  {
    if s != [] {
      ReplaceCharByNothing(s[1..], c);
      assert s == [s[0]] + s[1..];
      assert [c] <= s <==> s[0] == c;
    }
  }

  // ---------------------------------------------------------------------
  // Slicing, joining and splitting

  /** How Python clamps one bound of a slice of a sequence of length `n`. */
  function SliceBound(i: int, n: nat): (r: nat)
    ensures r <= n
  {
    if i < 0 then (if i + n < 0 then 0 else i + n) else if i > n then n else i
  }

  /** `s[a:b]` for any integers `a` and `b`. */
  function Slice<T>(s: seq<T>, a: int, b: int): seq<T>
  {
    var i, j := SliceBound(a, |s|), SliceBound(b, |s|);
    if i < j then s[i..j] else []
  }

  /** `''.join(pieces)`. */
  function Concat(pieces: seq<string>): string
  {
    if pieces == [] then [] else pieces[0] + Concat(pieces[1..])
  }

  lemma {:induction false} ConcatAppend(a: seq<string>, b: seq<string>)
    ensures Concat(a + b) == Concat(a) + Concat(b)
    decreases |a|
  {
    if a != [] {
      ConcatAppend(a[1..], b);
      calc {
        Concat(a + b);
        (a + b)[0] + Concat((a + b)[1..]);
        { assert (a + b)[1..] == a[1..] + b; }
        a[0] + Concat(a[1..] + b);
        a[0] + (Concat(a[1..]) + Concat(b));
      }
    } else {
      assert a + b == b;
    }
  }

  /** `sep.join(pieces)`. */
  function JoinWith(pieces: seq<string>, sep: string): string
  {
    if pieces == [] then []
    else if |pieces| == 1 then pieces[0]
    else JoinWith(pieces[..|pieces| - 1], sep) + sep + pieces[|pieces| - 1]
  }

  /** `s.split(c)` for a one-character separator: the runs of text between
      occurrences of `c`, read from the left. */
  function SplitOn(s: string, c: char): (r: seq<string>)
    ensures |r| == multiset(s)[c] + 1
    ensures forall k :: 0 <= k < |r| ==> c !in r[k]
  {
    if s == [] then [[]]
    else
      var init := SplitOn(s[..|s| - 1], c);
      assert s == s[..|s| - 1] + [s[|s| - 1]];
      if s[|s| - 1] == c then init + [[]]
      else init[..|init| - 1] + [init[|init| - 1] + [s[|s| - 1]]]
  }

  /** Joining the pieces of a split with the separator gives the text back. */
  lemma {:induction false} JoinSplitOn(s: string, c: char)
    ensures JoinWith(SplitOn(s, c), [c]) == s
    decreases |s|
  {
    if s != [] {
      var front := s[..|s| - 1];
      JoinSplitOn(front, c);
      var init := SplitOn(front, c);
      var x := s[|s| - 1];
      assert s == front + [x];
      if x == c {
        assert SplitOn(s, c) == init + [[]];
        JoinAppendEmpty(init, [c]);
        assert front + [c] + [] == front + [x];
      } else {
        assert SplitOn(s, c) == init[..|init| - 1] + [init[|init| - 1] + [x]];
        JoinExtendLast(init, x, [c]);
      }
    }
  }

  /** An empty last piece adds only a separator. */
  lemma JoinAppendEmpty(init: seq<string>, sep: string)
    requires init != []
    ensures JoinWith(init + [[]], sep) == JoinWith(init, sep) + sep + []
  {
    assert (init + [[]])[..|init|] == init;
  }

  /** Extending the last piece extends the joined text. */
  lemma JoinExtendLast(init: seq<string>, x: char, sep: string)
    requires init != []
    ensures JoinWith(init[..|init| - 1] + [init[|init| - 1] + [x]], sep) == JoinWith(init, sep) + [x]
  {
    var r := init[..|init| - 1] + [init[|init| - 1] + [x]];
    assert r[..|r| - 1] == init[..|init| - 1];
    if |init| > 1 {
      assert JoinWith(init, sep) == JoinWith(init[..|init| - 1], sep) + sep + init[|init| - 1];
    }
  }

  // ---------------------------------------------------------------------
  // Numbers as text

  /** `str(n)` for a non-negative integer. */
  function IntToString(n: nat): (r: string)
    ensures |r| >= 1
    ensures forall k :: 0 <= k < |r| ==> '0' <= r[k] <= '9'
  {
    if n < 10 then ["0123456789"[n]] else IntToString(n / 10) + ["0123456789"[n % 10]]
  }

  // ---------------------------------------------------------------------
  // Character classes

  /** The characters Python's `str.isspace` and the regular expression class
      `\s` accept. */
  predicate IsPySpace(c: char)
  {
    ('\t' <= c <= '\r') || ('\U{1C}' <= c <= ' ') || c == '\U{85}' || c == '\U{A0}'
    || c == '\U{1680}' || ('\U{2000}' <= c <= '\U{200A}') || c == '\U{2028}' || c == '\U{2029}'
    || c == '\U{202F}' || c == '\U{205F}' || c == '\U{3000}'
  }

  /** `c.islower()` for the characters up to U+00FF. */
  predicate IsLowerChar(c: char)
  {
    ('a' <= c <= 'z') || c == '\U{AA}' || c == '\U{B5}' || c == '\U{BA}'
    || ('\U{DF}' <= c <= '\U{F6}') || ('\U{F8}' <= c <= '\U{FF}')
  }

  // ---------------------------------------------------------------------
  // Ordering and sorting

  /** Python's `a < b` on strings: code points compared from the left, a
      proper prefix before the longer string. */
  predicate Below(a: string, b: string)
    decreases |a|
  {
    |b| > 0 && (|a| == 0 || a[0] < b[0] || (a[0] == b[0] && Below(a[1..], b[1..])))
  }

  lemma {:induction false} BelowIrreflexive(a: string)
    ensures !Below(a, a)
    decreases |a|
  {
    if |a| > 0 {
      BelowIrreflexive(a[1..]);
    }
  }

  lemma {:induction false} BelowTransitive(a: string, b: string, c: string)
    requires Below(a, b) && Below(b, c)
    ensures Below(a, c)
    decreases |a|
  {
    if |a| > 0 && a[0] == b[0] && b[0] == c[0] {
      BelowTransitive(a[1..], b[1..], c[1..]);
    }
  }

  lemma {:induction false} BelowTotal(a: string, b: string)
    ensures a == b || Below(a, b) || Below(b, a)
    decreases |a|
  {
    if |a| > 0 && |b| > 0 && a[0] == b[0] {
      BelowTotal(a[1..], b[1..]);
      if a[1..] == b[1..] {
        assert a == [a[0]] + a[1..] && b == [b[0]] + b[1..];
      }
    }
  }

  lemma BelowAsymmetric(a: string, b: string)
    requires Below(a, b)
    ensures !Below(b, a)
  {
    if Below(b, a) {
      BelowTransitive(a, b, a);
      BelowIrreflexive(a);
    }
  }

  /** The elements of a list, as a set. */
  function Elems(xs: seq<string>): set<string>
  {
    set x | x in xs
  }

  /** Ascending with no repeats. */
  predicate StrictlySorted(xs: seq<string>)
  {
    forall i, j :: 0 <= i < j < |xs| ==> Below(xs[i], xs[j])
  }

  /** Inserts `x` into an ascending list unless it is already there. */
  function Insert(x: string, xs: seq<string>): (r: seq<string>)
    requires StrictlySorted(xs)
    ensures StrictlySorted(r)
    ensures Elems(r) == Elems(xs) + {x}
  {
    if xs == [] then [x]
    else if x == xs[0] then xs
    else if Below(x, xs[0]) then
      var r := [x] + xs;
      forall i, j | 0 <= i < j < |r| ensures Below(r[i], r[j]) {
        if i == 0 && j > 1 {
          BelowTransitive(x, xs[0], xs[j - 1]);
        }
      }
      assert Elems(r) == Elems(xs) + {x} by {
        forall y ensures y in Elems(r) <==> y in Elems(xs) + {x} {
          assert y in r <==> y == x || y in xs;
        }
      }
      r
    else
      BelowTotal(x, xs[0]);
      var tail := Insert(x, xs[1..]);
      var r := [xs[0]] + tail;
      assert forall y :: y in tail ==> Below(xs[0], y) by {
        forall y | y in tail ensures Below(xs[0], y) {
          assert y in Elems(tail);
          if y != x {
            assert y in Elems(xs[1..]);
            var k :| 0 <= k < |xs[1..]| && xs[1..][k] == y;
            assert xs[k + 1] == y;
          }
        }
      }
      forall i, j | 0 <= i < j < |r| ensures Below(r[i], r[j]) {
        if i == 0 {
          assert r[j] == tail[j - 1];
          assert r[j] in tail;
        }
      }
      assert Elems(r) == Elems(xs) + {x} by {
        assert xs == [xs[0]] + xs[1..];
        forall y ensures y in Elems(r) <==> y in Elems(xs) + {x} {
          assert y in r <==> y == xs[0] || y in Elems(tail);
          assert y in xs <==> y == xs[0] || y in Elems(xs[1..]);
        }
      }
      r
  }

  /** `sorted(set(xs))`: the distinct elements of a list in ascending order. */
  function SortDistinct(xs: seq<string>): (r: seq<string>)
    ensures StrictlySorted(r)
    ensures Elems(r) == Elems(xs)
  {
    if xs == [] then []
    else
      var r := Insert(xs[0], SortDistinct(xs[1..]));
      assert Elems(xs) == Elems(xs[1..]) + {xs[0]} by {
        assert xs == [xs[0]] + xs[1..];
        assert forall y :: y in xs <==> y == xs[0] || y in xs[1..];
      }
      r
  }

  /** `sorted(s)` for a set of strings. */
  ghost function SortSet(s: set<string>): (r: seq<string>)
    ensures StrictlySorted(r)
    ensures Elems(r) == s
    decreases s
  {
    if s == {} then []
    else
      var x :| x in s;
      Insert(x, SortSet(s - {x}))
  }

  /** A strictly ascending list holds no element twice, so it has as many
      entries as distinct elements. */
  lemma {:induction false} SortedLength(xs: seq<string>)
    requires StrictlySorted(xs)
    ensures |Elems(xs)| == |xs|
    decreases |xs|
  {
    if xs != [] {
      SortedLength(xs[1..]);
      assert xs == [xs[0]] + xs[1..];
      assert Elems(xs) == Elems(xs[1..]) + {xs[0]} by {
        assert forall y :: y in xs <==> y == xs[0] || y in xs[1..];
      }
      if xs[0] in xs[1..] {
        var k :| 0 <= k < |xs[1..]| && xs[1..][k] == xs[0];
        assert Below(xs[0], xs[k + 1]);
        BelowIrreflexive(xs[0]);
      }
    }
  }

  /** Two strictly ascending lists with the same elements are equal: the sorted
      form of a set is unique. */
  lemma {:induction false} SortedUnique(a: seq<string>, b: seq<string>)
    requires StrictlySorted(a) && StrictlySorted(b) && Elems(a) == Elems(b)
    ensures a == b
    decreases |a|
  {
    SortedLength(a);
    SortedLength(b);
    if a != [] {
      assert a[0] in Elems(b) && b[0] in Elems(a);
      var i :| 0 <= i < |b| && b[i] == a[0];
      var j :| 0 <= j < |a| && a[j] == b[0];
      if a[0] != b[0] {
        assert i > 0 && j > 0;
        assert Below(b[0], a[0]) && Below(a[0], b[0]);
        BelowAsymmetric(a[0], b[0]);
      }
      assert Elems(a[1..]) == Elems(b[1..]) by {
        forall y | y in Elems(a[1..]) ensures y in Elems(b[1..]) {
          var k :| 0 <= k < |a[1..]| && a[1..][k] == y;
          assert Below(a[0], a[k + 1]);
          if y == b[0] {
            BelowIrreflexive(y);
          }
          assert y in Elems(b);
          var m :| 0 <= m < |b| && b[m] == y;
          assert m > 0;
          assert b[1..][m - 1] == y;
        }
        forall y | y in Elems(b[1..]) ensures y in Elems(a[1..]) {
          var k :| 0 <= k < |b[1..]| && b[1..][k] == y;
          assert Below(b[0], b[k + 1]);
          if y == a[0] {
            BelowIrreflexive(y);
          }
          assert y in Elems(a);
          var m :| 0 <= m < |a| && a[m] == y;
          assert m > 0;
          assert a[1..][m - 1] == y;
        }
      }
      SortedUnique(a[1..], b[1..]);
      assert a == [a[0]] + a[1..] && b == [b[0]] + b[1..];
    }
  }

  /** Moving the front of what is left onto what is done keeps the whole. */
  lemma MoveFront<T>(done: seq<T>, left: seq<T>, head: seq<T>, tail: seq<T>, whole: seq<T>)
    requires done + left == whole && left == head + tail
    ensures done + head + tail == whole
  {
    assert done + head + tail == done + (head + tail);
  }
}
