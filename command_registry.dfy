/** The command registry of the translator: command names mapped to the
    names of the modules that implement them. */
module CommandRegistry {
  import opened Results

  /** No key is listed twice. */
  predicate Distinct(ks: seq<string>)
  {
    forall i, j :: 0 <= i < j < |ks| ==> ks[i] != ks[j]
  }

  /** The first key of a list of distinct keys does not occur again. */
  lemma HeadNotInTail(ks: seq<string>)
    requires Distinct(ks) && ks != []
    ensures Distinct(ks[1..]) && ks[0] !in ks[1..]
  {
    forall j | 0 <= j < |ks| - 1 ensures ks[1..][j] != ks[0] {
      assert ks[1..][j] == ks[j + 1];
    }
  }

  /** `ks` without the key `k`, in the same order. */
  function Without(ks: seq<string>, k: string): (r: seq<string>)
    ensures forall x :: x in r <==> x in ks && x != k
    ensures Distinct(ks) ==> Distinct(r)
    ensures Distinct(ks) && k in ks ==> |r| == |ks| - 1
    ensures k !in ks ==> r == ks
  {
    if ks == [] then []
    else
      var rest := Without(ks[1..], k);
      assert forall x :: x in ks <==> x == ks[0] || x in ks[1..] by {
        assert ks == [ks[0]] + ks[1..];
      }
      if ks[0] == k then
        assert Distinct(ks) ==> k !in ks[1..] by {
          if Distinct(ks) {
            HeadNotInTail(ks);
          }
        }
        rest
      else
        var r := [ks[0]] + rest;
        assert Distinct(ks) ==> Distinct(r) by {
          if Distinct(ks) {
            HeadNotInTail(ks);
            forall i, j | 0 <= i < j < |r| ensures r[i] != r[j] {
              if i == 0 {
                assert r[j] in rest;
              }
            }
          }
        }
        r
  }

  /** The keys of a list, as a set. */
  function KeySet(ks: seq<string>): set<string>
  {
    set x | x in ks
  }

  /** A list of distinct keys is as long as the set of its keys. */
  lemma {:induction false} DistinctCard(ks: seq<string>)
    requires Distinct(ks)
    ensures |KeySet(ks)| == |ks|
  {
    if ks != [] {
      var a, rest := ks[0], ks[1..];
      HeadNotInTail(ks);
      DistinctCard(rest);
      assert KeySet(ks) == KeySet(rest) + {a} by {
        assert ks == [a] + rest;
        assert forall x :: x in ks <==> x in rest || x == a;
      }
      assert a !in KeySet(rest);
    }
  }

  /** `CommandReferenceDictionary`. The dictionary keeps its keys in
      insertion order, as a Python dictionary does. The reference file is
      the field `file`; `section` is the `[Commands]` section of the parser
      the file was read with. `save` writes that section back, and nothing
      ever changes it, so a command added later is not what gets saved. */
  class CommandReferenceDictionary {
    var dict: map<string, string>
    var order: seq<string>
    const section: map<string, string>
    var file: map<string, string>

    /** The keys in `order` are those of `dict`, each once. */
    ghost predicate Valid()
      reads this
    {
      Distinct(order) && forall k :: k in dict <==> k in order
    }

    /** `__init__`, given the `[Commands]` section read from the reference
        file, in the file's order. */
    constructor(keys: seq<string>, commands: map<string, string>)
      requires Distinct(keys) && forall k :: k in commands <==> k in keys
      ensures Valid()
      ensures dict == commands && order == keys && section == commands && file == commands
    {
      dict := commands;
      order := keys;
      section := commands;
      file := commands;
    }

    /** `add(command_name, module_name)`: sets one key, then saves. */
    method Add(name: string, m: string)
      requires Valid()
      modifies this`dict, this`order, this`file
      ensures Valid()
      ensures dict == old(dict)[name := m]
      ensures order == if name in old(dict) then old(order) else old(order) + [name]
      ensures file == section
    {
      SetItem(name, m);
      Save();
    }

    /** `get_modulename(command_name)`. */
    method GetModulename(name: string) returns (r: Result<string>)
      ensures name in dict ==> r == Ok(dict[name])
      ensures name !in dict ==> r == Err(KeyError)
    {
      r := GetItem(name);
    }

    /** `is_command(command_name)`. */
    method IsCommand(name: string) returns (b: bool)
      requires Valid()
      ensures b <==> name in dict
      ensures b <==> name in order
    {
      b := name in dict;
    }

    /** `save()`: the parser's section goes to the file. */
    method Save()
      modifies this`file
      ensures file == section
    {
      file := section;
    }

    /** `clear()`. */
    method Clear()
      modifies this`dict, this`order
      ensures Valid() && dict == map[] && order == []
    {
      dict := map[];
      order := [];
    }

    /** `__len__()`: the number of commands, one per key in order. */
    method Len() returns (n: nat)
      requires Valid()
      ensures n == |dict| && n == |order|
    {
      n := |dict|;
      assert dict.Keys == KeySet(order);
      DistinctCard(order);
    }

    /** `__getitem__(key)`. */
    method GetItem(key: string) returns (r: Result<string>)
      ensures key in dict ==> r == Ok(dict[key])
      ensures key !in dict ==> r == Err(KeyError)
    {
      if key in dict {
        r := Ok(dict[key]);
      } else {
        r := Err(KeyError);
      }
    }

    /** `__delitem__(key)`. */
    method DelItem(key: string) returns (r: Result<()>)
      requires Valid()
      modifies this`dict, this`order
      ensures Valid()
      ensures key in old(dict) ==> r == Ok(()) && dict == old(dict) - {key} && order == Without(old(order), key)
      ensures key !in old(dict) ==> r == Err(KeyError) && dict == old(dict) && order == old(order)
    {
      if key !in dict {
        return Err(KeyError);
      }
      dict := dict - {key};
      order := Without(order, key);
      return Ok(());
    }

    /** `__setitem__(key, value)`. */
    method SetItem(key: string, value: string)
      requires Valid()
      modifies this`dict, this`order
      ensures Valid()
      ensures dict == old(dict)[key := value]
      ensures order == if key in old(dict) then old(order) else old(order) + [key]
    {
      if key !in dict {
        order := order + [key];
      }
      dict := dict[key := value];
    }

    /** `__iter__()`: the module names, in the order their commands were
        added. */
    method Iter() returns (modules: seq<string>)
      requires Valid()
      ensures |modules| == |order|
      ensures forall i :: 0 <= i < |order| ==> modules[i] == dict[order[i]]
    {
      modules := [];
      for i := 0 to |order|
        invariant |modules| == i
        invariant forall j :: 0 <= j < i ==> modules[j] == dict[order[j]]
      {
        assert order[i] in dict;
        modules := modules + [dict[order[i]]];
      }
    }
  }
}
