/** The value-level meaning of a solution section: its entries as a sequence of
    key/value pairs, the character rule every stored string obeys, and the
    first-match, remove-all and projection views that the class in module
    Project is proved against. */
module SectionSpec {
  import opened Wrappers

  /** One key/value pair of a section (a .NET KeyValuePair<string, string>). */
  datatype Entry = Entry(key: string, value: string)

  /** The error a validation raises. `param` is the parameter name the
      exception reports: "key" for the first string Validate checks, "value"
      for the second. */
  datatype ArgError =
    | ArgumentNull(param: string)
    | InvalidCharacters(param: string)

  /** Characters that are structural in a solution file's `key = value` lines. */
  const ForbiddenChars: seq<char> := ['\n', '\r', '\0', '=']

  predicate IsForbidden(c: char)
  {
    c in ForbiddenChars
  }

  /** String.IndexOfAny: the index of the first character of `s` that occurs
      in `anyOf`, or -1 when there is none. */
  function IndexOfAny(s: string, anyOf: seq<char>): (r: int)
    ensures -1 <= r < |s|
    ensures r >= 0 ==> s[r] in anyOf && forall j :: 0 <= j < r ==> s[j] !in anyOf
    ensures r == -1 <==> forall j :: 0 <= j < |s| ==> s[j] !in anyOf
  {
    if s == [] then -1
    else if s[0] in anyOf then 0
    else
      var k := IndexOfAny(s[1..], anyOf);
      if k < 0 then -1 else k + 1
  }

  /** A string may be stored in a section: IndexOfAny finds no forbidden character. */
  predicate IsValidText(s: string)
  {
    IndexOfAny(s, ForbiddenChars) < 0
  }

  /** A string passes validation exactly when it holds none of
      newline, carriage return, NUL and '='. */
  lemma ValidTextIff(s: string)
    ensures IsValidText(s) <==>
      forall i :: 0 <= i < |s| ==> s[i] != '\n' && s[i] != '\r' && s[i] != '\0' && s[i] != '='
  {
  }

  predicate ValidEntry(e: Entry)
  {
    IsValidText(e.key) && IsValidText(e.value)
  }

  predicate AllValid(s: seq<Entry>)
  {
    forall i :: 0 <= i < |s| ==> ValidEntry(s[i])
  }

  /** SolutionSection.Validate: null key, null value, bad key, bad value are
      checked in that order and the first failure is reported. */
  function Validate(key: Option<string>, value: Option<string>): (r: Outcome<ArgError>)
    ensures r.Pass? <==> key.Some? && value.Some? && IsValidText(key.value) && IsValidText(value.value)
    ensures key.None? ==> r == Fail(ArgumentNull("key"))
    ensures key.Some? && value.None? ==> r == Fail(ArgumentNull("value"))
    ensures key.Some? && value.Some? && !IsValidText(key.value) ==> r == Fail(InvalidCharacters("key"))
    ensures key.Some? && value.Some? && IsValidText(key.value) && !IsValidText(value.value) ==>
      r == Fail(InvalidCharacters("value"))
  {
    if key.None? then Fail(ArgumentNull("key"))
    else if value.None? then Fail(ArgumentNull("value"))
    else if IndexOfAny(key.value, ForbiddenChars) >= 0 then Fail(InvalidCharacters("key"))
    else if IndexOfAny(value.value, ForbiddenChars) >= 0 then Fail(InvalidCharacters("value"))
    else Pass
  }

  /** A string containing a forbidden character is refused whichever side it is on. */
  lemma ForbiddenCharRejected(s: string, i: nat, other: Option<string>)
    requires i < |s| && IsForbidden(s[i])
    ensures Validate(Some(s), other).Fail?
    ensures Validate(other, Some(s)).Fail?
  {
  }

  /** The comparison `e.Key == key`: a null key matches no stored entry. */
  predicate Matches(e: Entry, key: Option<string>)
  {
    key == Some(e.key)
  }

  /** Some entry of `s` has key `key`. */
  predicate HasKey(s: seq<Entry>, key: Option<string>)
  {
    exists i :: 0 <= i < |s| && Matches(s[i], key)
  }

  /** The index of the first entry with key `key`, if any. */
  function FirstIndexOf(s: seq<Entry>, key: Option<string>): (r: Option<nat>)
    ensures r.Some? ==> r.value < |s| && Matches(s[r.value], key)
    ensures r.Some? ==> forall j :: 0 <= j < r.value ==> !Matches(s[j], key)
    ensures r.None? <==> !HasKey(s, key)
  {
    if s == [] then None
    else if Matches(s[0], key) then Some(0)
    else
      match FirstIndexOf(s[1..], key)
      case None => assert forall j :: 1 <= j < |s| ==> s[j] == s[1..][j - 1]; None
      case Some(k) => Some(k + 1)
  }

  /** The value of the first entry with key `key`, or null. */
  function Lookup(s: seq<Entry>, key: Option<string>): Option<string>
  {
    match FirstIndexOf(s, key)
    case Some(i) => Some(s[i].value)
    case None => None
  }

  /** Any index that matches and has no match before it is the first index. */
  lemma FirstIndexUnique(s: seq<Entry>, key: Option<string>, i: nat)
    requires i < |s| && Matches(s[i], key)
    requires forall j :: 0 <= j < i ==> !Matches(s[j], key)
    ensures FirstIndexOf(s, key) == Some(i)
    ensures Lookup(s, key) == Some(s[i].value)
  {
  }

  /** Indexer write: overwrite the first entry with key `k` where it stands,
      or append when there is none. */
  function Upsert(s: seq<Entry>, k: string, v: string): seq<Entry>
  {
    match FirstIndexOf(s, Some(k))
    case Some(i) => s[i := Entry(k, v)]
    case None => s + [Entry(k, v)]
  }

  /** List.RemoveAll(e => e.Key == key): the entries whose key is not `key`,
      in their original order. */
  function WithoutKey(s: seq<Entry>, key: Option<string>): (r: seq<Entry>)
    ensures |r| <= |s|
    ensures forall e :: e in r <==> e in s && !Matches(e, key)
    ensures |r| == |s| <==> !HasKey(s, key)
    ensures !HasKey(s, key) ==> r == s
  {
    if s == [] then []
    else
      var rest := WithoutKey(s[1..], key);
      assert HasKey(s, key) <==> Matches(s[0], key) || HasKey(s[1..], key) by {
        if HasKey(s, key) && !Matches(s[0], key) {
          var i :| 0 <= i < |s| && Matches(s[i], key);
          assert s[1..][i - 1] == s[i];
        }
        if HasKey(s[1..], key) {
          var i :| 0 <= i < |s[1..]| && Matches(s[1..][i], key);
          assert s[i + 1] == s[1..][i];
        }
      }
      assert s == [s[0]] + s[1..];
      if Matches(s[0], key) then rest else [s[0]] + rest
  }

  /** RemoveAll keeps relative order: it distributes over concatenation. */
  lemma {:induction false} WithoutKeyAppend(s: seq<Entry>, t: seq<Entry>, key: Option<string>)
    ensures WithoutKey(s + t, key) == WithoutKey(s, key) + WithoutKey(t, key)
  {
    if s == [] {
      assert s + t == t;
    } else {
      assert (s + t)[1..] == s[1..] + t;
      WithoutKeyAppend(s[1..], t, key);
    }
  }

  /** Removing the same key twice removes nothing the second time. */
  lemma WithoutKeyIdempotent(s: seq<Entry>, key: Option<string>)
    ensures !HasKey(WithoutKey(s, key), key)
    ensures WithoutKey(WithoutKey(s, key), key) == WithoutKey(s, key)
  {
  }

  /** After RemoveAll no lookup finds the removed key; every other key is
      looked up as before. */
  lemma {:induction false} LookupWithoutKey(s: seq<Entry>, key: Option<string>, q: Option<string>)
    ensures Lookup(WithoutKey(s, key), q) == if q == key then None else Lookup(s, q)
  {
    if s == [] {
    } else if q == key {
      WithoutKeyIdempotent(s, key);
    } else {
      LookupWithoutKey(s[1..], key, q);
      var rest := WithoutKey(s[1..], key);
      if Matches(s[0], q) {
        assert !Matches(s[0], key);
        FirstIndexUnique([s[0]] + rest, q, 0);
        FirstIndexUnique(s, q, 0);
      } else {
        LookupUncons(s, q);
        if !Matches(s[0], key) {
          LookupUncons([s[0]] + rest, q);
          assert ([s[0]] + rest)[1..] == rest;
        }
      }
    }
  }

  /** A lookup skips a first entry that does not match. */
  lemma LookupUncons(s: seq<Entry>, q: Option<string>)
    requires s != [] && !Matches(s[0], q)
    ensures Lookup(s, q) == Lookup(s[1..], q)
  {
  }

  /** Appending keeps earlier matches first: a duplicate key added later is
      never what a lookup returns. */
  lemma LookupAppend(s: seq<Entry>, e: Entry, q: Option<string>)
    ensures Lookup(s + [e], q) ==
      if HasKey(s, q) then Lookup(s, q)
      else if Matches(e, q) then Some(e.value)
      else None
  {
    var t := s + [e];
    match FirstIndexOf(s, q)
    case Some(i) =>
      assert t[i] == s[i];
      FirstIndexUnique(t, q, i);
    case None =>
      if Matches(e, q) {
        FirstIndexUnique(t, q, |s|);
      }
  }

  /** After `this[k] = v` the key reads back as `v` and every other key reads
      as before. */
  lemma LookupUpsert(s: seq<Entry>, k: string, v: string, q: Option<string>)
    ensures Lookup(Upsert(s, k, v), q) == if q == Some(k) then Some(v) else Lookup(s, q)
  {
    match FirstIndexOf(s, Some(k))
    case None =>
      LookupAppend(s, Entry(k, v), q);
    case Some(i) =>
      var t := s[i := Entry(k, v)];
      if q == Some(k) {
        FirstIndexUnique(t, q, i);
      } else {
        match FirstIndexOf(s, q)
        case Some(m) =>
          assert m != i;
          FirstIndexUnique(t, q, m);
        case None =>
      }
  }

  /** The `Keys` view: the key of every entry, in order, duplicates included. */
  function KeysOf(s: seq<Entry>): (ks: seq<string>)
    ensures |ks| == |s|
    ensures forall i :: 0 <= i < |s| ==> ks[i] == s[i].key
  {
    if s == [] then [] else [s[0].key] + KeysOf(s[1..])
  }

  /** The `Values` view: the value of every entry, in order, duplicates included. */
  function ValuesOf(s: seq<Entry>): (vs: seq<string>)
    ensures |vs| == |s|
    ensures forall i :: 0 <= i < |s| ==> vs[i] == s[i].value
  {
    if s == [] then [] else [s[0].value] + ValuesOf(s[1..])
  }

  /** Pairs up keys and values position by position. */
  function Zip(ks: seq<string>, vs: seq<string>): seq<Entry>
    requires |ks| == |vs|
  {
    if ks == [] then [] else [Entry(ks[0], vs[0])] + Zip(ks[1..], vs[1..])
  }

  /** The `Keys` and `Values` views line up with enumeration order: pairing
      them back gives exactly the entries. */
  lemma {:induction false} ZipKeysValues(s: seq<Entry>)
    ensures Zip(KeysOf(s), ValuesOf(s)) == s
  {
    if s != [] {
      ZipKeysValues(s[1..]);
      assert KeysOf(s)[1..] == KeysOf(s[1..]);
      assert ValuesOf(s)[1..] == ValuesOf(s[1..]);
    }
  }

  /** A key is present exactly when it occurs in the `Keys` view. */
  lemma HasKeyIffInKeys(s: seq<Entry>, k: string)
    ensures HasKey(s, Some(k)) <==> k in KeysOf(s)
  {
  }
}
