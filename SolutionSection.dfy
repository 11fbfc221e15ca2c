/** A list of key/value pairs within a solution file, with a section name and
    a section type. The `Changed` event is represented by the ghost counter
    `changeCount`: every raise of the event adds one to it. */
module Project {
  import opened Wrappers
  import opened SectionSpec

  class SolutionSection {
    var sectionName: string
    var sectionType: string
    var entries: seq<Entry>
    /** How many times `Changed` has been raised since construction. */
    ghost var changeCount: nat

    /** Every stored string passed validation when it was stored. */
    ghost predicate Valid()
      reads this
    {
      IsValidText(sectionName) && IsValidText(sectionType) && AllValid(entries)
    }

    /** Stores already-validated name and type; callers go through Create. */
    constructor Init(name: string, sectionType: string)
      requires IsValidText(name) && IsValidText(sectionType)
      ensures Valid()
      ensures this.sectionName == name && this.sectionType == sectionType
      ensures entries == [] && changeCount == 0
    {
      this.sectionName := name;
      this.sectionType := sectionType;
      entries := [];
      changeCount := 0;
    }

    /** `new SolutionSection(sectionName, sectionType)`: validates both strings
        (the name in the "key" position) and then builds an empty section. */
    static method Create(name: Option<string>, sectionType: Option<string>)
      returns (r: Result<SolutionSection, ArgError>)
      ensures r.Failure? <==> Validate(name, sectionType).Fail?
      ensures r.Failure? ==> r.error == Validate(name, sectionType).error
      ensures r.Success? ==> fresh(r.value) && r.value.Valid()
      ensures r.Success? ==> r.value.sectionName == name.value && r.value.sectionType == sectionType.value
      ensures r.Success? ==> r.value.entries == [] && r.value.changeCount == 0
    {
      var outcome := Validate(name, sectionType);
      if outcome.Fail? {
        return Failure(outcome.error);
      }
      var section := new SolutionSection.Init(name.value, sectionType.value);
      r := Success(section);
    }

    /** The `SectionName` setter. Assigning the current name does nothing.
        Otherwise the new name is validated together with the unchanged type;
        on success only the name changes and `Changed` is raised once. */
    method SetSectionName(value: Option<string>) returns (outcome: Outcome<ArgError>)
      requires Valid()
      modifies this
      ensures Valid()
      ensures value == Some(old(sectionName)) ==> outcome == Pass && unchanged(this)
      ensures value != Some(old(sectionName)) ==> outcome == Validate(value, Some(old(sectionType)))
      ensures value != Some(old(sectionName)) && outcome.Pass? ==>
        sectionName == value.value && changeCount == old(changeCount) + 1
      ensures outcome.Fail? ==> unchanged(this)
      ensures sectionType == old(sectionType) && entries == old(entries)
    {
      outcome := Pass;
      if value != Some(sectionName) {
        outcome := Validate(value, Some(sectionType));
        if outcome.Fail? {
          return;
        }
        sectionName := value.value;
        changeCount := changeCount + 1;
      }
    }

    /** The `SectionType` setter: as SetSectionName, with the new type in the
        "value" position of the validation. */
    method SetSectionType(value: Option<string>) returns (outcome: Outcome<ArgError>)
      requires Valid()
      modifies this
      ensures Valid()
      ensures value == Some(old(sectionType)) ==> outcome == Pass && unchanged(this)
      ensures value != Some(old(sectionType)) ==> outcome == Validate(Some(old(sectionName)), value)
      ensures value != Some(old(sectionType)) && outcome.Pass? ==>
        sectionType == value.value && changeCount == old(changeCount) + 1
      ensures outcome.Fail? ==> unchanged(this)
      ensures sectionName == old(sectionName) && entries == old(entries)
    {
      outcome := Pass;
      if value != Some(sectionType) {
        outcome := Validate(Some(sectionName), value);
        if outcome.Fail? {
          return;
        }
        sectionType := value.value;
        changeCount := changeCount + 1;
      }
    }

    /** The number of entries, duplicate keys included; the `Keys` and
        `Values` views have this length too. */
    function Count(): (n: nat)
      reads this
      ensures n == |Keys()| && n == |Values()|
    {
      |entries|
    }

    /** The `Keys` view, in enumeration order. */
    function Keys(): seq<string>
      reads this
    {
      KeysOf(entries)
    }

    /** The `Values` view, in enumeration order. */
    function Values(): seq<string>
      reads this
    {
      ValuesOf(entries)
    }

    /** Appends the pair even when the key is already present, then raises
        `Changed` once. Invalid input is refused before anything changes. */
    method Add(key: Option<string>, value: Option<string>) returns (outcome: Outcome<ArgError>)
      requires Valid()
      modifies this
      ensures Valid()
      ensures outcome == Validate(key, value)
      ensures outcome.Pass? ==> entries == old(entries) + [Entry(key.value, value.value)]
      ensures outcome.Pass? ==> changeCount == old(changeCount) + 1
      ensures outcome.Fail? ==> unchanged(this)
      ensures sectionName == old(sectionName) && sectionType == old(sectionType)
    {
      outcome := Validate(key, value);
      if outcome.Fail? {
        return;
      }
      entries := entries + [Entry(key.value, value.value)];
      changeCount := changeCount + 1;
    }

    /** Removes every entry with key `key`, keeping the others in order.
        Reports whether anything was removed, and raises `Changed` only then. */
    method Remove(key: Option<string>) returns (removed: bool)
      requires Valid()
      modifies this
      ensures Valid()
      ensures removed <==> HasKey(old(entries), key)
      ensures entries == WithoutKey(old(entries), key)
      ensures !HasKey(entries, key)
      ensures changeCount == old(changeCount) + (if removed then 1 else 0)
      ensures !removed ==> unchanged(this)
      ensures sectionName == old(sectionName) && sectionType == old(sectionType)
    {
      var kept := WithoutKey(entries, key);
      var removedCount := |entries| - |kept|;
      WithoutKeyIdempotent(entries, key);
      entries := kept;
      if removedCount > 0 {
        changeCount := changeCount + 1;
        removed := true;
      } else {
        removed := false;
      }
    }

    /** Empties the section and raises `Changed`, even when it was already empty. */
    method Clear()
      requires Valid()
      modifies this
      ensures Valid()
      ensures entries == [] && Count() == 0
      ensures changeCount == old(changeCount) + 1
      ensures sectionName == old(sectionName) && sectionType == old(sectionType)
    {
      entries := [];
      changeCount := changeCount + 1;
    }

    /** Scans the entries in order for one with key `key`. */
    method ContainsKey(key: Option<string>) returns (found: bool)
      ensures found <==> key.Some? && exists i :: 0 <= i < |entries| && entries[i].key == key.value
      ensures found == HasKey(entries, key)
    {
      var i := 0;
      while i < |entries|
        invariant 0 <= i <= |entries|
        invariant forall j :: 0 <= j < i ==> !Matches(entries[j], key)
      {
        if Matches(entries[i], key) {
          return true;
        }
        i := i + 1;
      }
      return false;
    }

    /** Scans the entries in order and yields the value of the first one with
        key `key`; absence is signalled by `false` and a null value. */
    method TryGetValue(key: Option<string>) returns (found: bool, value: Option<string>)
      ensures found <==> HasKey(entries, key)
      ensures !found ==> value.None?
      ensures found ==> exists i :: (0 <= i < |entries| && Matches(entries[i], key) &&
        value == Some(entries[i].value) &&
        forall j :: 0 <= j < i ==> !Matches(entries[j], key))
      ensures value == Lookup(entries, key)
    {
      var i := 0;
      while i < |entries|
        invariant 0 <= i <= |entries|
        invariant forall j :: 0 <= j < i ==> !Matches(entries[j], key)
      {
        if Matches(entries[i], key) {
          FirstIndexUnique(entries, key, i);
          return true, Some(entries[i].value);
        }
        i := i + 1;
      }
      return false, None;
    }

    /** The indexer read `this[key]`: the value of the first entry with key
        `key`, or null when there is none (not an error). */
    method GetItem(key: Option<string>) returns (value: Option<string>)
      ensures value.None? <==> !HasKey(entries, key)
      ensures value.Some? ==> exists i :: (0 <= i < |entries| && Matches(entries[i], key) &&
        value.value == entries[i].value &&
        forall j :: 0 <= j < i ==> !Matches(entries[j], key))
      ensures value == Lookup(entries, key)
    {
      var i := 0;
      while i < |entries|
        invariant 0 <= i <= |entries|
        invariant forall j :: 0 <= j < i ==> !Matches(entries[j], key)
      {
        if Matches(entries[i], key) {
          FirstIndexUnique(entries, key, i);
          return Some(entries[i].value);
        }
        i := i + 1;
      }
      return None;
    }

    /** The indexer write `this[key] = value`: after validation, the first
        entry with that key is overwritten where it stands; with no such entry
        the pair is added at the end. Either way `Changed` is raised once. */
    method SetItem(key: Option<string>, value: Option<string>) returns (outcome: Outcome<ArgError>)
      requires Valid()
      modifies this
      ensures Valid()
      ensures outcome == Validate(key, value)
      ensures outcome.Pass? && HasKey(old(entries), key) ==>
        var i := FirstIndexOf(old(entries), key).value;
        |entries| == |old(entries)| && entries[i] == Entry(key.value, value.value) &&
        forall j :: 0 <= j < |entries| && j != i ==> entries[j] == old(entries)[j]
      ensures outcome.Pass? && !HasKey(old(entries), key) ==>
        entries == old(entries) + [Entry(key.value, value.value)]
      ensures outcome.Pass? ==> entries == Upsert(old(entries), key.value, value.value)
      ensures outcome.Pass? ==> changeCount == old(changeCount) + 1
      ensures outcome.Fail? ==> unchanged(this)
      ensures sectionName == old(sectionName) && sectionType == old(sectionType)
    {
      outcome := Validate(key, value);
      if outcome.Fail? {
        return;
      }
      var i := 0;
      while i < |entries|
        invariant 0 <= i <= |entries|
        invariant entries == old(entries) && changeCount == old(changeCount)
        invariant forall j :: 0 <= j < i ==> !Matches(entries[j], key)
      {
        if Matches(entries[i], key) {
          FirstIndexUnique(entries, key, i);
          entries := entries[i := Entry(key.value, value.value)];
          changeCount := changeCount + 1;
          return;
        }
        i := i + 1;
      }
      outcome := Add(key, value);
    }
  }
  /** Clients of the section below are proved from the contracts alone. */

  /** Add keeps duplicate keys in insertion order; reads return the first match. */
  method AddScenario(s: SolutionSection, k: string, j: string, v1: string, v2: string, v3: string)
    requires s.Valid() && s.entries == []
    requires k != j
    requires IsValidText(k) && IsValidText(j)
    requires IsValidText(v1) && IsValidText(v2) && IsValidText(v3)
    modifies s
  {
    var outcome := s.Add(Some(k), Some(v1));
    outcome := s.Add(Some(j), Some(v2));
    outcome := s.Add(Some(k), Some(v3));
    assert s.entries == [Entry(k, v1), Entry(j, v2), Entry(k, v3)];
    assert s.changeCount == old(s.changeCount) + 3;
    var v := s.GetItem(Some(k));
    FirstIndexUnique(s.entries, Some(k), 0);
    assert v == Some(v1);
  }

  /** The indexer write keeps the entry's position; a refused key changes nothing. */
  method SetItemScenario(s: SolutionSection, a: string, b: string, c: string, v: string, bad: string)
    requires s.Valid() && s.entries == []
    requires a != b && b != c && a != c
    requires IsValidText(a) && IsValidText(b) && IsValidText(c) && IsValidText(v)
    requires !IsValidText(bad)
    modifies s
  {
    var outcome := s.Add(Some(a), Some(a));
    outcome := s.Add(Some(b), Some(b));
    outcome := s.Add(Some(c), Some(c));
    assert s.entries == [Entry(a, a), Entry(b, b), Entry(c, c)];
    FirstIndexUnique(s.entries, Some(b), 1);
    outcome := s.SetItem(Some(b), Some(v));
    assert s.entries == [Entry(a, a), Entry(b, v), Entry(c, c)];
    assert s.changeCount == old(s.changeCount) + 4;
    outcome := s.SetItem(Some(bad), Some(v));
    assert outcome == Fail(InvalidCharacters("key"));
    assert s.entries == [Entry(a, a), Entry(b, v), Entry(c, c)];
  }

  /** Remove takes out every match, once; Clear always raises Changed. */
  method RemoveScenario(s: SolutionSection, k: string, j: string, v1: string, v2: string, v3: string)
    requires s.Valid() && s.entries == []
    requires k != j
    requires IsValidText(k) && IsValidText(j)
    requires IsValidText(v1) && IsValidText(v2) && IsValidText(v3)
    modifies s
  {
    var outcome := s.Add(Some(k), Some(v1));
    outcome := s.Add(Some(j), Some(v2));
    outcome := s.Add(Some(k), Some(v3));
    assert s.entries == [Entry(k, v1)] + [Entry(j, v2)] + [Entry(k, v3)];
    assert Matches(s.entries[0], Some(k));
    WithoutKeyAppend([Entry(k, v1)] + [Entry(j, v2)], [Entry(k, v3)], Some(k));
    WithoutKeyAppend([Entry(k, v1)], [Entry(j, v2)], Some(k));
    assert WithoutKey([Entry(k, v1)], Some(k)) == [];
    assert WithoutKey([Entry(j, v2)], Some(k)) == [Entry(j, v2)];
    assert WithoutKey([Entry(k, v3)], Some(k)) == [];
    var removed := s.Remove(Some(k));
    assert removed;
    assert s.entries == [Entry(j, v2)];
    removed := s.Remove(Some(k));
    assert !removed && s.changeCount == old(s.changeCount) + 4;
    s.Clear();
    s.Clear();
    assert s.Count() == 0 && s.changeCount == old(s.changeCount) + 6;
  }
}
