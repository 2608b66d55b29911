/** The text side of the `help` command: the short description cut from a
    command's doc string, the sorted list of command names, and the two
    layouts of the help text. The doc strings themselves come from
    importing each command's module, which is not part of this model; they
    are given here as `Option<string>`, `None` standing for a `main`
    function without a doc string. */
module Help {
  import opened Results
  import opened PyStrings
  import DataManage
  import CommandRegistry

  // ---------------------------------------------------------------------
  // get_description_string

  /** The section headers of a Google style doc string. */
  const Keywords: seq<string> :=
    ["Args:", "Returns:", "Raises:", "Notes:", "See Also:", "Attributes:", "Warnings:"]

  /** A line that ends the description: not empty, not starting with a
      lower-case letter, and holding a colon. Whether it also starts with
      one of `Keywords` makes no difference, because the return that
      follows the keyword loop sits inside the line loop. */
  predicate IsStop(line: string)
  {
    line != [] && !IsLowerChar(line[0]) && ':' in line
  }

  /** Some line of `lines` is a stop line. */
  predicate HasStop(lines: seq<string>)
  {
    exists k :: 0 <= k < |lines| && IsStop(lines[k])
  }

  /** `s` put in front of the text of `o`, if there is one. */
  function After(s: string, o: Option<string>): Option<string>
  {
    match o
    case None => None
    case Some(d) => Some(s + d)
  }

  /** The description read off a list of lines: the lines before the
      first stop line, joined with no separator, or `None` when no line
      stops the description. */
  function Described(lines: seq<string>): (r: Option<string>)
    ensures r.Some? <==> HasStop(lines)
    ensures r.Some? && (forall k :: 0 <= k < |lines| ==> '\n' !in lines[k]) ==> '\n' !in r.value
  {
    if lines == [] then None
    else if IsStop(lines[0]) then Some([])
    else
      var rest := Described(lines[1..]);
      assert forall k :: 0 < k < |lines| ==> lines[k] == lines[1..][k - 1];
      assert HasStop(lines[1..]) ==> HasStop(lines) by {
        if HasStop(lines[1..]) {
          var k :| 0 <= k < |lines[1..]| && IsStop(lines[1..][k]);
          assert IsStop(lines[k + 1]);
        }
      }
      assert HasStop(lines) ==> HasStop(lines[1..]) by {
        if HasStop(lines) {
          var k :| 0 <= k < |lines| && IsStop(lines[k]);
          assert IsStop(lines[1..][k - 1]);
        }
      }
      After(lines[0], rest)
  }

  /** The description is exactly the lines before the first stop line,
      joined; empty lines among them add nothing. */
  lemma {:induction false} DescribedIsJoinBeforeStop(lines: seq<string>, k: nat)
    requires k < |lines| && IsStop(lines[k])
    requires forall j :: 0 <= j < k ==> !IsStop(lines[j])
    ensures Described(lines) == Some(Concat(lines[..k]))
  {
    if k > 0 {
      DescribedIsJoinBeforeStop(lines[1..], k - 1);
      assert lines[1..][..k - 1] == lines[..k][1..];
    }
  }

  /** `get_description_string(doc_string)` as a value. */
  function DescriptionOf(doc: string): (r: Option<string>)
    ensures r.Some? ==> '\n' !in r.value
    ensures r.Some? <==> HasStop(SplitOn(doc, '\n'))
  {
    var lines := SplitOn(doc, '\n');
    Described(lines)
  }

  lemma AfterAfter(s: string, t: string, o: Option<string>)
    ensures After(s, After(t, o)) == After(s + t, o)
  {
    if o.Some? {
      assert s + (t + o.value) == (s + t) + o.value;
    }
  }

  lemma DescribedStep(lines: seq<string>, i: nat)
    requires i < |lines| && !IsStop(lines[i])
    ensures Described(lines[i..]) == After(lines[i], Described(lines[i + 1..]))
  {
    assert lines[i..][1..] == lines[i + 1..];
  }

  /** A line that does not stop the description moves from the lines
      still to read to the collected ones; an empty line adds nothing. */
  lemma DescribedAdvance(lines: seq<string>, i: nat, collected: seq<string>)
    requires i < |lines| && !IsStop(lines[i])
    requires Described(lines) == After(Concat(collected), Described(lines[i..]))
    ensures Described(lines) == After(Concat(collected + [lines[i]]), Described(lines[i + 1..]))
    ensures lines[i] == [] ==> Described(lines) == After(Concat(collected), Described(lines[i + 1..]))
  {
    var line := lines[i];
    DescribedStep(lines, i);
    AfterAfter(Concat(collected), line, Described(lines[i + 1..]));
    ConcatAppend(collected, [line]);
    assert Concat([line]) == line by {
      assert [line][1..] == [];
      assert line + [] == line;
    }
    if line == [] {
      assert Concat(collected) + line == Concat(collected);
    }
  }

  /** `get_description_string(doc_string)`: scans the lines, collecting
      them until the first stop line, and returns what it collected; runs
      off the end, returning `None`, when there is no stop line. */
  method GetDescriptionString(doc: string) returns (r: Option<string>)
    ensures r == DescriptionOf(doc)
  {
    var lines := SplitOn(doc, '\n');
    var collected: seq<string> := [];
    assert lines[0..] == lines;
    assert Described(lines).Some? ==> [] + Described(lines).value == Described(lines).value;
    for i := 0 to |lines|
      invariant Described(lines) == After(Concat(collected), Described(lines[i..]))
    {
      var line := lines[i];
      if |line| == 0 {
        DescribedAdvance(lines, i, collected);
        continue;
      }
      if IsLowerChar(line[0]) {
        DescribedAdvance(lines, i, collected);
        collected := collected + [line];
        continue;
      }
      if ':' !in line {
        DescribedAdvance(lines, i, collected);
        collected := collected + [line];
        continue;
      }
      assert Described(lines[i..]) == Some([]);
      assert Concat(collected) + [] == Concat(collected);
      for k := 0 to |Keywords| {
        var keyword := Keywords[k];
        if Contains(line, keyword) && Slice(line, 0, |keyword|) == keyword {
          return Some(Concat(collected));
        }
      }
      return Some(Concat(collected));
    }
    r := None;
  }

  /** `get_description_string_list`, given the doc strings in the order
      of the command list: one entry per command, the text `None` for a
      command without a doc string. */
  method GetDescriptionStringList(docs: seq<Option<string>>) returns (r: seq<Option<string>>)
    ensures |r| == |docs|
    ensures forall i :: 0 <= i < |docs| ==>
      r[i] == if docs[i].None? then Some("None") else DescriptionOf(docs[i].value)
  {
    r := [];
    for i := 0 to |docs|
      invariant |r| == i
      invariant forall j :: 0 <= j < i ==>
        r[j] == if docs[j].None? then Some("None") else DescriptionOf(docs[j].value)
    {
      if docs[i].Some? {
        var d := GetDescriptionString(docs[i].value);
        r := r + [d];
      } else {
        r := r + [Some("None")];
      }
    }
  }

  // ---------------------------------------------------------------------
  // get_command_list

  /** `get_command_list(command_reference_dict)`: the keys of the registry,
      listed in its iteration order as `keys`, sorted ascending. */
  function GetCommandList(dict: map<string, string>, keys: seq<string>): (r: seq<string>)
    requires CommandRegistry.Distinct(keys) && forall k :: k in dict <==> k in keys
    ensures StrictlySorted(r) && Elems(r) == dict.Keys && |r| == |dict|
  {
    var r := SortDistinct(keys);
    assert Elems(r) == dict.Keys;
    SortedLength(r);
    r
  }

  /** The sorted list does not depend on the order the registry keeps its
      keys in. */
  lemma CommandListOrderFree(dict: map<string, string>, keys1: seq<string>, keys2: seq<string>)
    requires CommandRegistry.Distinct(keys1) && forall k :: k in dict <==> k in keys1
    requires CommandRegistry.Distinct(keys2) && forall k :: k in dict <==> k in keys2
    ensures GetCommandList(dict, keys1) == GetCommandList(dict, keys2)
  {
    SortedUnique(GetCommandList(dict, keys1), GetCommandList(dict, keys2));
  }

  // ---------------------------------------------------------------------
  // Joining a list that may hold None

  /** `''.join(pieces)` on a list whose entries may be `None`: a
      `TypeError` if one is. */
  function JoinStrings(pieces: seq<Option<string>>): (r: Result<string>)
    ensures r.Err? <==> exists i :: 0 <= i < |pieces| && pieces[i].None?
    ensures r.Err? ==> r.error == TypeError
  {
    if pieces == [] then Ok([])
    else if pieces[0].None? then Err(TypeError)
    else
      var rest := JoinStrings(pieces[1..]);
      assert forall i :: 0 < i < |pieces| ==> pieces[i] == pieces[1..][i - 1];
      if rest.Err? then Err(rest.error) else Ok(pieces[0].value + rest.value)
  }

  /** Joining two lists one after the other: the join fails if either part
      does, and otherwise joins the two texts. */
  lemma {:induction false} JoinStringsAppend(a: seq<Option<string>>, b: seq<Option<string>>)
    ensures JoinStrings(a + b).Err? <==> JoinStrings(a).Err? || JoinStrings(b).Err?
    ensures JoinStrings(a).Ok? && JoinStrings(b).Ok? ==>
      JoinStrings(a + b) == Ok(JoinStrings(a).value + JoinStrings(b).value)
    decreases |a|
  {
    if a == [] {
      assert a + b == b;
      assert JoinStrings(a) == Ok([]);
      assert JoinStrings(b).Ok? ==> [] + JoinStrings(b).value == JoinStrings(b).value;
    } else {
      assert (a + b)[1..] == a[1..] + b;
      JoinStringsAppend(a[1..], b);
      if a[0].Some? && JoinStrings(a[1..]).Ok? && JoinStrings(b).Ok? {
        var x, y, z := a[0].value, JoinStrings(a[1..]).value, JoinStrings(b).value;
        assert x + (y + z) == (x + y) + z;
      }
    }
  }

  lemma JoinOne(x: string)
    ensures JoinStrings([Some(x)]) == Ok(x)
  {
    assert [Some(x)][1..] == [];
    assert x + [] == x;
  }

  /** The join of a four-piece list whose third piece may be `None`. */
  lemma JoinFour(a: string, b: string, c: Option<string>, d: string)
    ensures JoinStrings([Some(a), Some(b), c, Some(d)]) ==
      if c.None? then Err(TypeError) else Ok(a + b + c.value + d)
  {
    var xs := [Some(a), Some(b), c, Some(d)];
    assert xs[1..] == [Some(b), c, Some(d)];
    assert xs[1..][1..] == [c, Some(d)];
    assert [c, Some(d)][1..] == [Some(d)];
    JoinOne(d);
    if c.Some? {
      assert JoinStrings([c, Some(d)]) == Ok(c.value + d);
      assert JoinStrings(xs[1..]) == Ok(b + (c.value + d));
      assert a + (b + (c.value + d)) == a + b + c.value + d;
    } else {
      assert JoinStrings([c, Some(d)]) == Err(TypeError);
      assert JoinStrings(xs[1..]).Err?;
    }
  }

  // ---------------------------------------------------------------------
  // get_help_string_listing_format and get_help_string_single_format

  /** The first line of the listing. */
  const Header: string := "THE COMMAND DESCRIPTIONS\n"

  /** A command name in kivy colour markup. */
  function Colored(name: string, code: string): string
  {
    "[color=" + code + "]" + name + "[/color]"
  }

  /** The command name as it is shown: plain, or coloured with the colour
      looked up by name (help.py keeps its own copy of the message colour
      table). */
  function Label(name: string, color: string, plain: bool): (r: Result<string>)
    ensures r.Err? <==> !plain && color !in DataManage.ColorTable
    ensures r.Err? ==> r.error == KeyError
    ensures r.Ok? ==> Contains(r.value, name)
  {
    if plain then
      assert OccursAt(name, 0, name);
      ContainsIffOccurs(name, name);
      Ok(name)
    else if color in DataManage.ColorTable then
      var t := Colored(name, DataManage.ColorTable[color]);
      assert OccursAt(t, |"[color=" + DataManage.ColorTable[color] + "]"|, name);
      ContainsIffOccurs(t, name);
      Ok(t)
    else Err(KeyError)
  }

  /** `for i in range(0, spacing)`: as many line breaks as `spacing`, none
      when it is not positive. */
  function Breaks(spacing: int): (r: seq<Option<string>>)
    ensures |r| == if spacing <= 0 then 0 else spacing
    ensures forall i :: 0 <= i < |r| ==> r[i] == Some("\n")
  {
    if spacing <= 0 then [] else Breaks(spacing - 1) + [Some("\n")]
  }

  /** The pieces one command adds to the listing. */
  function Block(shown: string, desc: Option<string>, spacing: int): seq<Option<string>>
  {
    [Some(shown), Some("\n"), desc, Some("\n")] + Breaks(spacing)
  }

  /** The pieces of the first `n` commands. */
  function Blocks(cmds: seq<string>, descs: seq<Option<string>>, spacing: int, color: string, plain: bool, n: nat): seq<Option<string>>
    requires n <= |cmds| == |descs|
    requires n == 0 || plain || color in DataManage.ColorTable
  {
    if n == 0 then []
    else Blocks(cmds, descs, spacing, color, plain, n - 1) + Block(Label(cmds[n - 1], color, plain).value, descs[n - 1], spacing)
  }

  /** `get_help_string_listing_format` as a value. */
  function ListingFormat(cmds: seq<string>, descs: seq<Option<string>>, spacing: int, color: string, plain: bool): Result<string>
  {
    if |cmds| != |descs| then Err(IndexError)
    else if !plain && |cmds| > 0 && color !in DataManage.ColorTable then Err(KeyError)
    else JoinStrings([Some(Header)] + Blocks(cmds, descs, spacing, color, plain, |cmds|))
  }

  /** The text of one command's entry. */
  function EntryText(shown: string, desc: string): string
  {
    shown + "\n" + desc + "\n"
  }

  /** `n` line breaks. */
  function NewLines(n: int): (r: string)
    ensures JoinStrings(Breaks(n)) == Ok(r)
  {
    if n <= 0 then []
    else
      JoinStringsAppend(Breaks(n - 1), [Some("\n")]);
      JoinOne("\n");
      NewLines(n - 1) + "\n"
  }

  /** One command's block joins to its entry and its spacing, unless its
      description is `None`. */
  lemma BlockJoin(shown: string, desc: Option<string>, spacing: int)
    ensures JoinStrings(Block(shown, desc, spacing)) ==
      if desc.None? then Err(TypeError) else Ok(EntryText(shown, desc.value) + NewLines(spacing))
  {
    JoinFour(shown, "\n", desc, "\n");
    JoinStringsAppend([Some(shown), Some("\n"), desc, Some("\n")], Breaks(spacing));
  }

  /** The text of the first `n` entries of a listing whose descriptions
      are all present. */
  function ListingText(cmds: seq<string>, descs: seq<Option<string>>, spacing: int, color: string, plain: bool, n: nat): string
    requires n <= |cmds| == |descs|
    requires n == 0 || plain || color in DataManage.ColorTable
    requires forall j :: 0 <= j < |descs| ==> descs[j].Some?
  {
    if n == 0 then []
    else
      ListingText(cmds, descs, spacing, color, plain, n - 1)
        + EntryText(Label(cmds[n - 1], color, plain).value, descs[n - 1].value) + NewLines(spacing)
  }

  /** The blocks of the first `n` commands fail to join exactly when one of
      their descriptions is `None`, and otherwise join to their entries. */
  lemma {:induction false} BlocksJoin(cmds: seq<string>, descs: seq<Option<string>>, spacing: int, color: string, plain: bool, n: nat)
    requires n <= |cmds| == |descs|
    requires n == 0 || plain || color in DataManage.ColorTable
    ensures JoinStrings(Blocks(cmds, descs, spacing, color, plain, n)).Err? <==>
      exists j :: 0 <= j < n && descs[j].None?
    ensures (forall j :: 0 <= j < |descs| ==> descs[j].Some?) ==>
      JoinStrings(Blocks(cmds, descs, spacing, color, plain, n)) == Ok(ListingText(cmds, descs, spacing, color, plain, n))
  {
    if n > 0 {
      BlocksJoin(cmds, descs, spacing, color, plain, n - 1);
      var shown := Label(cmds[n - 1], color, plain).value;
      BlockJoin(shown, descs[n - 1], spacing);
      JoinStringsAppend(Blocks(cmds, descs, spacing, color, plain, n - 1), Block(shown, descs[n - 1], spacing));
      MissingStep(descs, n);
      if forall j :: 0 <= j < |descs| ==> descs[j].Some? {
        var a := ListingText(cmds, descs, spacing, color, plain, n - 1);
        var e := EntryText(shown, descs[n - 1].value);
        assert a + (e + NewLines(spacing)) == a + e + NewLines(spacing);
      }
    }
  }

  lemma MissingStep(descs: seq<Option<string>>, n: nat)
    requires 0 < n <= |descs|
    ensures (exists j :: 0 <= j < n && descs[j].None?) <==>
      (exists j :: 0 <= j < n - 1 && descs[j].None?) || descs[n - 1].None?
  {
  }

  /** Each entry follows, whole, the text of the entries before it. */
  lemma {:induction false} ListingTextPrefix(cmds: seq<string>, descs: seq<Option<string>>, spacing: int, color: string, plain: bool, j: nat, n: nat)
    requires j < n <= |cmds| == |descs|
    requires plain || color in DataManage.ColorTable
    requires forall i :: 0 <= i < |descs| ==> descs[i].Some?
    ensures ListingText(cmds, descs, spacing, color, plain, j)
      + EntryText(Label(cmds[j], color, plain).value, descs[j].value) <= ListingText(cmds, descs, spacing, color, plain, n)
    decreases n
  {
    if j < n - 1 {
      ListingTextPrefix(cmds, descs, spacing, color, plain, j, n - 1);
    }
  }

  /** The errors of the listing, in the order the code meets them: lists of
      different lengths, then an unknown colour (only once there is a
      command to colour), then a command whose description is `None`. */
  lemma ListingErrors(cmds: seq<string>, descs: seq<Option<string>>, spacing: int, color: string, plain: bool)
    ensures ListingFormat(cmds, descs, spacing, color, plain) == Err(IndexError) <==> |cmds| != |descs|
    ensures ListingFormat(cmds, descs, spacing, color, plain) == Err(KeyError) <==>
      |cmds| == |descs| && !plain && |cmds| > 0 && color !in DataManage.ColorTable
    ensures ListingFormat(cmds, descs, spacing, color, plain) == Err(TypeError) <==>
      |cmds| == |descs| && (plain || |cmds| == 0 || color in DataManage.ColorTable) &&
      exists j :: 0 <= j < |descs| && descs[j].None?
  {
    if |cmds| == |descs| && (plain || |cmds| == 0 || color in DataManage.ColorTable) {
      var bs := Blocks(cmds, descs, spacing, color, plain, |cmds|);
      BlocksJoin(cmds, descs, spacing, color, plain, |cmds|);
      JoinStringsAppend([Some(Header)], bs);
      JoinOne(Header);
    }
  }

  /** Every command appears in the listing with its description under it,
      each line ended by a line break. */
  lemma ListingHasEveryEntry(cmds: seq<string>, descs: seq<Option<string>>, spacing: int, color: string, plain: bool)
    requires ListingFormat(cmds, descs, spacing, color, plain).Ok?
    ensures |descs| == |cmds| && (plain || |cmds| == 0 || color in DataManage.ColorTable)
    ensures forall j :: 0 <= j < |cmds| ==>
      descs[j].Some? && Label(cmds[j], color, plain).Ok? &&
      Contains(ListingFormat(cmds, descs, spacing, color, plain).value,
        EntryText(Label(cmds[j], color, plain).value, descs[j].value))
  {
    ListingErrors(cmds, descs, spacing, color, plain);
    ListingIsText(cmds, descs, spacing, color, plain);
    var out := ListingFormat(cmds, descs, spacing, color, plain).value;
    forall j | 0 <= j < |cmds|
      ensures Contains(out, EntryText(Label(cmds[j], color, plain).value, descs[j].value))
    {
      EntryInListing(cmds, descs, spacing, color, plain, j);
    }
  }

  /** With every description present and the colour known, the listing is
      the header followed by the entries. */
  lemma ListingIsText(cmds: seq<string>, descs: seq<Option<string>>, spacing: int, color: string, plain: bool)
    requires |cmds| == |descs| && (plain || |cmds| == 0 || color in DataManage.ColorTable)
    requires forall j :: 0 <= j < |descs| ==> descs[j].Some?
    ensures ListingFormat(cmds, descs, spacing, color, plain) ==
      Ok(Header + ListingText(cmds, descs, spacing, color, plain, |cmds|))
  {
    var bs := Blocks(cmds, descs, spacing, color, plain, |cmds|);
    BlocksJoin(cmds, descs, spacing, color, plain, |cmds|);
    JoinOne(Header);
    JoinStringsAppend([Some(Header)], bs);
  }

  lemma EntryInListing(cmds: seq<string>, descs: seq<Option<string>>, spacing: int, color: string, plain: bool, j: nat)
    requires j < |cmds| == |descs| && (plain || color in DataManage.ColorTable)
    requires forall i :: 0 <= i < |descs| ==> descs[i].Some?
    ensures Contains(Header + ListingText(cmds, descs, spacing, color, plain, |cmds|),
      EntryText(Label(cmds[j], color, plain).value, descs[j].value))
  {
    var out := Header + ListingText(cmds, descs, spacing, color, plain, |cmds|);
    var s := ListingText(cmds, descs, spacing, color, plain, j);
    var e := EntryText(Label(cmds[j], color, plain).value, descs[j].value);
    ListingTextPrefix(cmds, descs, spacing, color, plain, j, |cmds|);
    WindowAfterPrefix(Header, s, e, ListingText(cmds, descs, spacing, color, plain, |cmds|));
    ContainsIffOccurs(out, e);
  }

  /** Text `e` that follows `s` at the start of `t` occurs in `h + t` right
      after `h + s`. */
  lemma WindowAfterPrefix(h: string, s: string, e: string, t: string)
    requires s + e <= t
    ensures OccursAt(h + t, |h| + |s|, e)
  {
    var out := h + t;
    var w := out[|h| + |s|..|h| + |s| + |e|];
    forall k | 0 <= k < |e| ensures w[k] == e[k] {
      assert w[k] == t[|s| + k] == (s + e)[|s| + k];
    }
  }

  /** `get_help_string_listing_format(command_list, description_string_list,
      spacing, color, plain)`. */
  method GetHelpStringListingFormat(cmds: seq<string>, descs: seq<Option<string>>, spacing: int, color: string, plain: bool)
    returns (r: Result<string>)
    ensures r == ListingFormat(cmds, descs, spacing, color, plain)
  {
    if |cmds| != |descs| {
      return Err(IndexError);
    }
    var pieces := [Some(Header)];
    for index := 0 to |cmds|
      invariant index == 0 || plain || color in DataManage.ColorTable
      invariant pieces == [Some(Header)] + Blocks(cmds, descs, spacing, color, plain, index)
    {
      var name := cmds[index];
      if !plain {
        if color !in DataManage.ColorTable {
          return Err(KeyError);
        }
        name := Colored(name, DataManage.ColorTable[color]);
      }
      ghost var before := pieces;
      pieces := pieces + [Some(name), Some("\n")];
      pieces := pieces + [descs[index], Some("\n")];
      ghost var entry := [Some(name), Some("\n"), descs[index], Some("\n")];
      assert pieces == before + entry;
      var i := 0;
      while i < spacing
        invariant spacing <= 0 ==> i == 0
        invariant spacing > 0 ==> i <= spacing
        invariant pieces == before + entry + Breaks(i)
      {
        pieces := pieces + [Some("\n")];
        i := i + 1;
      }
      assert Breaks(i) == Breaks(spacing);
      assert Label(cmds[index], color, plain).value == name;
      BlocksStep(cmds, descs, spacing, color, plain, index, before, entry);
    }
    r := JoinStrings(pieces);
  }

  lemma BlocksStep(cmds: seq<string>, descs: seq<Option<string>>, spacing: int, color: string, plain: bool,
                   index: nat, before: seq<Option<string>>, entry: seq<Option<string>>)
    requires index < |cmds| == |descs| && (plain || color in DataManage.ColorTable)
    requires before == [Some(Header)] + Blocks(cmds, descs, spacing, color, plain, index)
    requires entry == [Some(Label(cmds[index], color, plain).value), Some("\n"), descs[index], Some("\n")]
    ensures before + entry + Breaks(spacing) == [Some(Header)] + Blocks(cmds, descs, spacing, color, plain, index + 1)
  {
  }

  /** `get_help_string_single_format(command_name, doc_string, color, plain)`. */
  function SingleFormat(name: string, doc: Option<string>, color: string, plain: bool): (r: Result<string>)
    ensures r.Err? <==> (!plain && color !in DataManage.ColorTable) || doc.None?
    ensures r.Err? && (plain || color in DataManage.ColorTable) ==> r.error == TypeError
    ensures r.Err? && !plain && color !in DataManage.ColorTable ==> r.error == KeyError
    ensures r.Ok? ==> r.value == EntryText(Label(name, color, plain).value, doc.value)
  {
    var shown :- Label(name, color, plain);
    JoinFour(shown, "\n", doc, "\n");
    JoinStrings([Some(shown), Some("\n"), doc, Some("\n")])
  }

  /** A single command shown in the single format is the listing of that
      one command without spacing, less the listing's header; both fail
      alike. */
  lemma ListingOfOne(name: string, doc: Option<string>, color: string, plain: bool)
    ensures ListingFormat([name], [doc], 0, color, plain) ==
      match SingleFormat(name, doc, color, plain)
      case Ok(t) => Ok(Header + t)
      case Err(e) => Err(e)
  {
    ListingErrors([name], [doc], 0, color, plain);
    if plain || color in DataManage.ColorTable {
      BlocksJoin([name], [doc], 0, color, plain, 1);
      if doc.Some? {
        JoinOne(Header);
        JoinStringsAppend([Some(Header)], Blocks([name], [doc], 0, color, plain, 1));
        assert ListingText([name], [doc], 0, color, plain, 1) == EntryText(Label(name, color, plain).value, doc.value);
      }
    }
  }
}
