/** The bounded table of user variables that hold saved SQL modes. */
module SqlModeTable {
  import opened CStrings
  import opened SqlModeText

  const TABLE_CAPACITY: nat := 32

  datatype Variable = Variable(name: string, modes: Modes)

  /** The entry for a name, or |table|. */
  function IndexOf(table: seq<Variable>, name: string): (k: nat)
    ensures k <= |table|
    ensures k < |table| ==> table[k].name == name
    ensures forall i :: 0 <= i < k ==> table[i].name != name
  {
    if table == [] || table[0].name == name then 0 else 1 + IndexOf(table[1..], name)
  }

  /** Overwrites the entry for a name, or adds one while there is room. */
  function Saved(table: seq<Variable>, v: Variable): seq<Variable> {
    var k := IndexOf(table, v.name);
    if k < |table| then table[k := v]
    else if |table| >= TABLE_CAPACITY then table
    else table + [v]
  }

  function Loaded(table: seq<Variable>, name: string): Option<Modes> {
    var k := IndexOf(table, name);
    if k < |table| then Just(table[k].modes) else Nothing
  }

  // ----- what the table is, in terms of the saves made

  /** The table after a history of saves. */
  function TableAfter(saves: seq<Variable>): seq<Variable> {
    if saves == [] then [] else Saved(TableAfter(saves[..|saves| - 1]), saves[|saves| - 1])
  }

  /** The distinct names saved, in the order of their first save. */
  ghost function FirstNames(saves: seq<Variable>): seq<string> {
    if saves == [] then []
    else
      var names := FirstNames(saves[..|saves| - 1]);
      var name := saves[|saves| - 1].name;
      if name in names then names else names + [name]
  }

  /** The value of the last save of a name. */
  ghost function LastWrite(saves: seq<Variable>, name: string): Option<Modes> {
    if saves == [] then Nothing
    else if saves[|saves| - 1].name == name then Just(saves[|saves| - 1].modes)
    else LastWrite(saves[..|saves| - 1], name)
  }

  ghost predicate DistinctNames(names: seq<string>) {
    forall i, j :: 0 <= i < j < |names| ==> names[i] != names[j]
  }

  lemma {:induction false} FirstNamesDistinct(saves: seq<Variable>)
    ensures DistinctNames(FirstNames(saves))
  {
    if saves != [] {
      FirstNamesDistinct(saves[..|saves| - 1]);
    }
  }

  ghost function Kept(saves: seq<Variable>): (n: nat)
    ensures n <= |FirstNames(saves)|
  {
    if |FirstNames(saves)| <= TABLE_CAPACITY then |FirstNames(saves)| else TABLE_CAPACITY
  }

  /** The table has room for 32 names. */
  lemma KeptExactly(saves: seq<Variable>)
    ensures Kept(saves) == if |FirstNames(saves)| < 32 then |FirstNames(saves)| else 32
  {
  }

  ghost predicate Mirrors(table: seq<Variable>, saves: seq<Variable>) {
    && |table| == Kept(saves)
    && forall i :: 0 <= i < |table| ==>
         table[i].name == FirstNames(saves)[i] && Just(table[i].modes) == LastWrite(saves, table[i].name)
  }

  lemma {:induction false} OneMoreSave(saves: seq<Variable>, v: Variable)
    ensures FirstNames(saves + [v]) ==
              if v.name in FirstNames(saves) then FirstNames(saves) else FirstNames(saves) + [v.name]
    ensures forall name :: LastWrite(saves + [v], name) ==
              if v.name == name then Just(v.modes) else LastWrite(saves, name)
  {
    assert (saves + [v])[..|saves|] == saves;
  }

  lemma {:induction false} OverwriteMirrors(table: seq<Variable>, saves: seq<Variable>, v: Variable, k: nat)
    requires Mirrors(table, saves) && k < |table| && table[k].name == v.name
    ensures Mirrors(table[k := v], saves + [v])
  {
    assert FirstNames(saves)[k] == v.name;
    OneMoreSave(saves, v);
    FirstNamesDistinct(saves);
  }

  lemma {:induction false} AddMirrors(table: seq<Variable>, saves: seq<Variable>, v: Variable)
    requires Mirrors(table, saves) && |table| < TABLE_CAPACITY && IndexOf(table, v.name) == |table|
    ensures Mirrors(table + [v], saves + [v])
  {
    assert v.name !in FirstNames(saves);
    OneMoreSave(saves, v);
  }

  lemma {:induction false} FullMirrors(table: seq<Variable>, saves: seq<Variable>, v: Variable)
    requires Mirrors(table, saves) && |table| == TABLE_CAPACITY && IndexOf(table, v.name) == |table|
    ensures Mirrors(table, saves + [v])
  {
    OneMoreSave(saves, v);
    assert forall i :: 0 <= i < |table| ==> FirstNames(saves + [v])[i] == FirstNames(saves)[i];
  }

  lemma SavedMirrors(table: seq<Variable>, saves: seq<Variable>, v: Variable)
    requires Mirrors(table, saves)
    ensures Mirrors(Saved(table, v), saves + [v])
  {
    var k := IndexOf(table, v.name);
    if k < |table| {
      OverwriteMirrors(table, saves, v, k);
    } else if |table| < TABLE_CAPACITY {
      AddMirrors(table, saves, v);
    } else {
      FullMirrors(table, saves, v);
    }
  }

  /** The table always holds the first 32 distinct names saved, each with the value of its last save. */
  lemma {:induction false} TableExactly(saves: seq<Variable>)
    ensures Mirrors(TableAfter(saves), saves)
  {
    if saves != [] {
      var prefix, last := saves[..|saves| - 1], saves[|saves| - 1];
      TableExactly(prefix);
      SavedMirrors(TableAfter(prefix), prefix, last);
      assert prefix + [last] == saves;
    }
  }

  /** So it never holds two entries for a name, and loading a name gives its last saved value exactly
      when the name is among the first 32. */
  lemma LoadedExactly(saves: seq<Variable>, name: string)
    ensures |TableAfter(saves)| <= TABLE_CAPACITY
    ensures forall i, j :: 0 <= i < j < |TableAfter(saves)| ==> TableAfter(saves)[i].name != TableAfter(saves)[j].name
    ensures Loaded(TableAfter(saves), name) ==
            if name in FirstNames(saves)[..Kept(saves)] then LastWrite(saves, name) else Nothing
  {
    var table := TableAfter(saves);
    TableExactly(saves);
    FirstNamesDistinct(saves);
    var k := IndexOf(table, name);
    var kept := FirstNames(saves)[..Kept(saves)];
    if k < |table| {
      assert kept[k] == name;
    }
    if name in kept {
      var i :| 0 <= i < |kept| && kept[i] == name;
      assert table[i].name == name;
    }
  }
}
