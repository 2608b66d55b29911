/** The data side of the shell: the container of environment variables,
    whose entries are also kept as durable records (one pickled file per
    variable), and the messages the shell shows, with their prefixes,
    colours and two renderings (plain text and kivy markup). */
module DataManage {
  import opened Results
  import opened PyStrings

  /** `EnvironmentalVariableContainer`. `dict` is the in-memory map;
      `records` stands for the directory of pickled files, one per variable,
      named after it. A record is written only when its key is assigned for
      the first time, so a later assignment changes the map and leaves the
      record as it was. */
  class EnvironmentalVariableContainer<V> {
    var dict: map<string, V>
    var records: map<string, V>

    /** Every variable in memory has a record, and every record is loaded. */
    ghost predicate Valid()
      reads this
    {
      dict.Keys == records.Keys
    }

    /** `__init__`: starts from an empty map and loads every record. */
    constructor(stored: map<string, V>)
      ensures Valid()
      ensures dict == stored && records == stored
    {
      dict := map[];
      records := stored;
      new;
      Load();
    }

    /** `load()`: every record becomes a map entry under the record's name,
        overriding what the map held under that name. */
    method Load()
      modifies this`dict
      ensures dict == old(dict) + records
    {
      var todo := records.Keys;
      while todo != {}
        invariant todo <= records.Keys
        invariant forall k :: k in dict <==> k in old(dict) || (k in records && k !in todo)
        invariant forall k :: k in dict ==>
          dict[k] == if k in records && k !in todo then records[k] else old(dict)[k]
        decreases todo
      {
        var k :| k in todo;
        dict := dict[k := records[k]];
        todo := todo - {k};
      }
    }

    /** `__setitem__(key, value)`: the record is created with `value` only
        when the key is new; the map is updated in every case. */
    method SetItem(key: string, value: V)
      requires Valid()
      modifies this`dict, this`records
      ensures Valid()
      ensures dict == old(dict)[key := value]
      ensures records == if key in old(dict) then old(records) else old(records)[key := value]
    {
      if key !in dict {
        records := records[key := value];
      }
      dict := dict[key := value];
    }

    /** `__getitem__(item)`: the stored value, or a `KeyError`. */
    method GetItem(key: string) returns (r: Result<V>)
      ensures key in dict ==> r == Ok(dict[key])
      ensures key !in dict ==> r == Err(KeyError)
    {
      if key in dict {
        r := Ok(dict[key]);
      } else {
        r := Err(KeyError);
      }
    }
  }

  /** `Message.message_color_dict`: colour names and their hex codes. */
  const ColorTable: map<string, string> :=
    map["white" := "DEDEDE", "red" := "D61818", "green" := "3AD126",
        "blue" := "397AD4", "magenta" := "D439B7"]

  /** The colour of a message: its name (empty for a hex code given
      verbatim) and the code written into the markup. */
  datatype Colour = Colour(name: string, code: string)

  /** The colour selection of `Message.__init__`. The test `color[0] == "#"`
      runs before the length test, so an empty colour raises `IndexError`. */
  function ResolveColour(color: string): (r: Result<Colour>)
    ensures r.Err? <==> color == []
    ensures r.Err? ==> r.error == IndexError
    ensures r.Ok? ==>
      (r.value.name in ColorTable && r.value.code == ColorTable[r.value.name]) ||
      (r.value.name == [] && r.value.code == color && |color| == 7 && color[0] == '#')
    ensures color in ColorTable ==> r == Ok(Colour(color, ColorTable[color]))
    ensures color !in ColorTable && color != [] && !(color[0] == '#' && |color| == 7) ==>
      r == Ok(Colour("white", "DEDEDE"))
  {
    if color in ColorTable then Ok(Colour(color, ColorTable[color]))
    else if color == [] then Err(IndexError)
    else if color[0] == '#' && |color| == 7 then Ok(Colour([], color))
    else Ok(Colour("white", ColorTable["white"]))
  }

  /** `Message._add_prefix_brackets`. */
  function AddPrefixBrackets(p: string): (r: string)
    ensures |r| == |p| + 2 && r[0] == '[' && r[|r| - 1] == ']'
    ensures r[1..|r| - 1] == p
  {
    "[" + p + "]"
  }

  /** The subclass of a message; an error also keeps the name of the
      exception's type. */
  datatype Kind =
    | InfoMessage
    | ErrorMessage(exceptionName: string)
    | ResultMessage
    | InputPromptMessage

  /** A constructed message: content, both bracketed prefixes and colour. */
  datatype Message = Message(kind: Kind, content: string, prefix: string, shortPrefix: string, colour: Colour)

  /** `Message.__init__(string, prefix, short_prefix, color)`. */
  function NewMessage(kind: Kind, content: string, prefix: string, shortPrefix: string, color: string): (r: Result<Message>)
    ensures r.Err? <==> color == []
    ensures r.Ok? ==> r.value.kind == kind && r.value.content == content && r.value.colour == ResolveColour(color).value
    ensures r.Ok? ==> r.value.prefix == AddPrefixBrackets(prefix) && r.value.shortPrefix == AddPrefixBrackets(shortPrefix)
  {
    var c :- ResolveColour(color);
    Ok(Message(kind, content, AddPrefixBrackets(prefix), AddPrefixBrackets(shortPrefix), c))
  }

  /** `InfoMessage(string)`. */
  function Info(content: string): (r: Message)
    ensures r.kind == InfoMessage && r.content == content
    ensures r.prefix == "[INFO]" && r.shortPrefix == "[*]" && r.colour == Colour("white", "DEDEDE")
  {
    assert AddPrefixBrackets("INFO") == "[INFO]" && AddPrefixBrackets("*") == "[*]";
    assert ColorTable["white"] == "DEDEDE";
    NewMessage(InfoMessage, content, "INFO", "*", "white").value
  }

  /** `ErrorMessage(exception)`, given `str(exception)` and the name of the
      exception's type. */
  function Error(content: string, exceptionName: string): (r: Message)
    ensures r.kind == ErrorMessage(exceptionName) && r.content == content
    ensures r.prefix == "[ERROR]" && r.shortPrefix == "[!]" && r.colour == Colour("red", "D61818")
  {
    assert AddPrefixBrackets("ERROR") == "[ERROR]" && AddPrefixBrackets("!") == "[!]";
    assert ColorTable["red"] == "D61818";
    NewMessage(ErrorMessage(exceptionName), content, "ERROR", "!", "red").value
  }

  /** `ResultMessage(string)`. */
  function ResultOf(content: string): (r: Message)
    ensures r.kind == ResultMessage && r.content == content
    ensures r.prefix == "[RESULT]" && r.shortPrefix == "[+]" && r.colour == Colour("green", "3AD126")
  {
    assert AddPrefixBrackets("RESULT") == "[RESULT]" && AddPrefixBrackets("+") == "[+]";
    assert ColorTable["green"] == "3AD126";
    NewMessage(ResultMessage, content, "RESULT", "+", "green").value
  }

  /** `InputPromptMessage(string)`. */
  function InputPrompt(content: string): (r: Message)
    ensures r.kind == InputPromptMessage && r.content == content
    ensures r.prefix == "[INPUT]" && r.shortPrefix == "[IN]" && r.colour == Colour("blue", "397AD4")
  {
    assert AddPrefixBrackets("INPUT") == "[INPUT]" && AddPrefixBrackets("IN") == "[IN]";
    assert ColorTable["blue"] == "397AD4";
    NewMessage(InputPromptMessage, content, "INPUT", "IN", "blue").value
  }

  /** The prefix a rendering starts with. */
  function PrefixOf(m: Message, short: bool): string
  {
    if short then m.shortPrefix else m.prefix
  }

  /** `get_string(short_prefix, newline)` of each subclass. An error puts
      the exception's name on the first line; a result or an input prompt
      breaks the line after the prefix when `newline` is set; an info
      message and an error take no `newline` argument. */
  function GetString(m: Message, short: bool, newline: bool): (r: string)
    ensures |r| >= |PrefixOf(m, short)| + 1 + |m.content|
    ensures r[..|PrefixOf(m, short)| + 1] == PrefixOf(m, short) + " "
    ensures r[|r| - |m.content|..] == m.content
    ensures m.kind.ErrorMessage? ==> Contains(r, m.kind.exceptionName + "\n")
    ensures !m.kind.ErrorMessage? ==>
      |r| == |PrefixOf(m, short)| + 1 + |m.content| + (if newline && !m.kind.InfoMessage? then 1 else 0)
  {
    var p := PrefixOf(m, short);
    match m.kind
    case InfoMessage => p + " " + m.content
    case ErrorMessage(e) =>
      var r := p + " " + e + "\n" + m.content;
      assert OccursAt(r, |p| + 1, e + "\n");
      ContainsIffOccurs(r, e + "\n");
      r
    case _ => p + " " + (if newline then "\n" else "") + m.content
  }

  /** `__str__`: the plain rendering with the long prefix. */
  function Str(m: Message): (r: string)
    ensures |r| >= |m.prefix| + 1 + |m.content|
    ensures r[..|m.prefix| + 1] == m.prefix + " "
    ensures r[|r| - |m.content|..] == m.content
  {
    GetString(m, false, false)
  }

  /** The opening markup of the kivy rendering: colour, then bold prefix. */
  function KivyOpening(m: Message, short: bool): string
  {
    "[color=" + m.colour.code + "][b]" + PrefixOf(m, short) + "[/b]"
  }

  /** What follows the bold prefix in the kivy rendering of each subclass:
      a space, then the exception's name on its own line for an error, or a
      line break for a result or an input prompt when `newline` is set, and
      then the content. */
  function KivyBody(m: Message, newline: bool): string
  {
    match m.kind
    case InfoMessage => " " + m.content
    case ErrorMessage(e) => " " + e + "\n" + m.content
    case _ => " " + (if newline then "\n" else "") + m.content
  }

  /** `get_kivy(short_prefix, newline)` of each subclass. */
  function GetKivy(m: Message, short: bool, newline: bool): (r: string)
    ensures |r| >= |KivyOpening(m, short)| + 8
    ensures r[..|KivyOpening(m, short)|] == KivyOpening(m, short)
    ensures r[|r| - 8..] == "[/color]"
  {
    KivyOpening(m, short) + KivyBody(m, newline) + "[/color]"
  }

  /** The kivy rendering is the plain one with the prefix made bold, the
      whole wrapped in the message's colour. */
  lemma KivyMarksUpString(m: Message, short: bool, newline: bool)
    ensures GetKivy(m, short, newline) ==
      KivyOpening(m, short) + GetString(m, short, newline)[|PrefixOf(m, short)|..] + "[/color]"
  {
    var p, t := PrefixOf(m, short), KivyBody(m, newline);
    StringIsPrefixAndBody(m, short, newline);
    assert (p + t)[|p|..] == t;
  }

  /** The plain rendering is the prefix followed by the text the kivy
      rendering puts after the bold prefix. */
  lemma StringIsPrefixAndBody(m: Message, short: bool, newline: bool)
    ensures GetString(m, short, newline) == PrefixOf(m, short) + KivyBody(m, newline)
  {
    if m.kind.ErrorMessage? {
      ErrorIsPrefixAndBody(m, short, newline);
    } else if !m.kind.InfoMessage? {
      BrokenIsPrefixAndBody(m, short, newline);
    }
  }

  /** An error puts its exception name between the prefix and the content. */
  lemma ErrorIsPrefixAndBody(m: Message, short: bool, newline: bool)
    requires m.kind.ErrorMessage?
    ensures GetString(m, short, newline) == PrefixOf(m, short) + KivyBody(m, newline)
  {
    var p, c, e := PrefixOf(m, short), m.content, m.kind.exceptionName;
    assert GetString(m, short, newline) == p + " " + e + "\n" + c;
    assert KivyBody(m, newline) == " " + e + "\n" + c;
    RegroupFour(p, " ", e, "\n", c);
  }

  /** A result or an input prompt may break the line after the prefix. */
  lemma BrokenIsPrefixAndBody(m: Message, short: bool, newline: bool)
    requires !m.kind.ErrorMessage? && !m.kind.InfoMessage?
    ensures GetString(m, short, newline) == PrefixOf(m, short) + KivyBody(m, newline)
  {
    var p, c, n := PrefixOf(m, short), m.content, if newline then "\n" else "";
    assert GetString(m, short, newline) == p + " " + n + c;
    assert KivyBody(m, newline) == " " + n + c;
    Regroup(p, " ", n, c);
  }

  lemma Regroup(p: string, a: string, b: string, c: string)
    ensures p + a + b + c == p + (a + b + c)
  {
  }

  lemma RegroupFour(p: string, a: string, b: string, c: string, d: string)
    ensures p + a + b + c + d == p + (a + b + c + d)
  {
  }
}
