/**
 * The shell-variable table `varTableGl` (ush/ush.c): an ordered list of
 * name/value entries.  These functions state what `lookupTable`, `set` and
 * `unset` do to the list; the class in shell.dfy applies them in place.
 */
module VarTable {
  import opened Wrappers

  type Table = seq<(string, string)>

  /** No two entries share a name. */
  ghost predicate UniqueNames(t: Table) {
    forall i, j :: 0 <= i < j < |t| ==> t[i].0 != t[j].0
  }

  /** `lookupTable(name)`: the first entry, front to back, with that name. */
  function Lookup(t: Table, name: string): (r: Option<nat>)
    ensures r.Some? ==> r.value < |t| && t[r.value].0 == name
    ensures r.Some? ==> forall k :: 0 <= k < r.value ==> t[k].0 != name
    ensures r.None? <==> forall k :: 0 <= k < |t| ==> t[k].0 != name
  {
    if t == [] then None
    else if t[0].0 == name then Some(0)
    else match Lookup(t[1..], name)
      case None => None
      case Some(i) => Some(i + 1)
  }

  /** The first entry with the name is the one `Lookup` finds. */
  lemma LookupAt(t: Table, name: string, i: nat)
    requires i < |t| && t[i].0 == name && forall k :: 0 <= k < i ==> t[k].0 != name
    ensures Lookup(t, name) == Some(i)
  {
    var j := Lookup(t, name).value;
    assert !(j < i);
  }

  /** The value a variable has, if it is defined. */
  function ValueOf(t: Table, name: string): Option<string>
  {
    match Lookup(t, name)
    case None => None
    case Some(i) => Some(t[i].1)
  }

  /** `set(name, value)`: overwrite the value of an existing entry, else append one. */
  function SetEntry(t: Table, name: string, value: string): (r: Table)
    ensures ValueOf(r, name) == Some(value)
    ensures |r| == if Lookup(t, name).Some? then |t| else |t| + 1
  {
    match Lookup(t, name)
    case Some(i) =>
      LookupAt(t[i := (name, value)], name, i);
      t[i := (name, value)]
    case None =>
      LookupAt(t + [(name, value)], name, |t|);
      t + [(name, value)]
  }

  /** `unset(name)`: unlink the entry with that name, if there is one. */
  function UnsetEntry(t: Table, name: string): (r: Table)
    ensures |r| == if Lookup(t, name).Some? then |t| - 1 else |t|
    ensures UniqueNames(t) ==> Lookup(r, name).None?
  {
    match Lookup(t, name)
    case Some(i) =>
      RemoveAt(t, i);
      t[..i] + t[i + 1..]
    case None => t
  }

  /** Setting an existing name changes only that entry's value and adds no entry. */
  lemma SetExisting(t: Table, name: string, value: string)
    requires Lookup(t, name).Some?
    ensures var i := Lookup(t, name).value;
            |SetEntry(t, name, value)| == |t| &&
            SetEntry(t, name, value)[i] == (name, value) &&
            forall k :: 0 <= k < |t| && k != i ==> SetEntry(t, name, value)[k] == t[k]
  {
  }

  /** Setting a new name appends exactly one entry. */
  lemma SetNew(t: Table, name: string, value: string)
    requires Lookup(t, name).None?
    ensures SetEntry(t, name, value) == t + [(name, value)]
  {
  }

  /** Names stay unique under `set`. */
  lemma SetKeepsUnique(t: Table, name: string, value: string)
    requires UniqueNames(t)
    ensures UniqueNames(SetEntry(t, name, value))
  {
  }

  /** After `set`, the name has the new value and every other name keeps its own. */
  lemma SetThenValue(t: Table, name: string, value: string, other: string)
    requires UniqueNames(t)
    ensures ValueOf(SetEntry(t, name, value), name) == Some(value)
    ensures other != name ==> ValueOf(SetEntry(t, name, value), other) == ValueOf(t, other)
  {
    var t' := SetEntry(t, name, value);
    match Lookup(t, name)
    case Some(i) =>
      assert t'[i] == (name, value);
      if other != name && Lookup(t, other).Some? {
        var j := Lookup(t, other).value;
        assert t'[j] == t[j];
        assert Lookup(t', other) == Some(j);
      }
    case None =>
      assert t'[|t|] == (name, value);
      if other != name && Lookup(t, other).Some? {
        assert t'[Lookup(t, other).value] == t[Lookup(t, other).value];
      }
  }

  /** Unsetting an absent name changes nothing. */
  lemma UnsetAbsent(t: Table, name: string)
    requires Lookup(t, name).None?
    ensures UnsetEntry(t, name) == t
  {
  }

  /**
   * Unsetting a present name removes exactly that entry and keeps the others in
   * order; with unique names, the name is then undefined.
   */
  lemma UnsetPresent(t: Table, name: string)
    requires UniqueNames(t) && Lookup(t, name).Some?
    ensures var i := Lookup(t, name).value;
            UnsetEntry(t, name) == t[..i] + t[i + 1..] &&
            |UnsetEntry(t, name)| == |t| - 1 &&
            UniqueNames(UnsetEntry(t, name)) &&
            Lookup(UnsetEntry(t, name), name) == None
  {
    var i := Lookup(t, name).value;
    var t' := UnsetEntry(t, name);
    RemoveAt(t, i);
    forall a, b | 0 <= a < b < |t'| ensures t'[a].0 != t'[b].0 {
      var a', b' := if a < i then a else a + 1, if b < i then b else b + 1;
      assert t'[a] == t[a'] && t'[b] == t[b'];
    }
    forall k | 0 <= k < |t'| ensures t'[k].0 != name {
      var k' := if k < i then k else k + 1;
      assert t'[k] == t[k'];
    }
  }

  /** Where each entry of a list with one entry removed comes from. */
  lemma RemoveAt(t: Table, i: nat)
    requires i < |t|
    ensures |t[..i] + t[i + 1..]| == |t| - 1
    ensures forall k :: 0 <= k < |t| - 1 ==> (t[..i] + t[i + 1..])[k] == if k < i then t[k] else t[k + 1]
  {
  }

  /** Unsetting one name leaves the value of every other name as it was. */
  lemma UnsetOthers(t: Table, name: string, other: string)
    requires UniqueNames(t) && other != name
    ensures ValueOf(UnsetEntry(t, name), other) == ValueOf(t, other)
  {
    if Lookup(t, name).Some? {
      var i := Lookup(t, name).value;
      var t' := UnsetEntry(t, name);
      RemoveAt(t, i);
      match Lookup(t, other)
      case None =>
      case Some(j) =>
        var j' := if j < i then j else j - 1;
        assert t'[j'] == t[j];
        assert Lookup(t', other) == Some(j');
    }
  }
}
