/** The search-type registry of SearchManager (SearchManager.cpp:62-64 and
    816-960): named lists of file extensions kept in a std::map ordered by
    name. The map is an association list sorted by std::string's ordering,
    because the positional lookup walks it in that order. The functions
    here state what the registry operations compute; the class
    SearchManager (manager.dfy) holds the table and performs them. */
module SearchTypes {
  import opened Strings

  type Table = seq<(string, seq<string>)>

  /** Why a registry operation throws SearchTypeException. */
  datatype TypeError = InvalidName | AlreadyExists | NoSuchType

  datatype Status = Ok | Fail(error: TypeError)

  /** The numeric type codes: TYPE_ANY, TYPE_DIRECTORY and TYPE_TTH. */
  const TypeAny: int := 0
  const TypeDirectory: int := 7
  const TypeTth: int := 8

  /** `getTypeStr(type)` for TYPE_ANY up to TYPE_TTH, with the English
      resource strings. */
  const TypeStrings: seq<string> :=
    ["Any", "Audio", "Compressed", "Document", "Executable", "Picture", "Video", "Directory", "TTH"]

  // ---------------------------------------------------------------- ordering

  /** std::string's `<`: character by character, a proper prefix first. */
  predicate Less(a: string, b: string)
    decreases |a|
  {
    if a == [] then b != []
    else if b == [] then false
    else if a[0] != b[0] then a[0] < b[0]
    else Less(a[1..], b[1..])
  }

  lemma {:induction false} LessIrreflexive(a: string)
    ensures !Less(a, a)
    decreases |a|
  {
    if a != [] {
      LessIrreflexive(a[1..]);
    }
  }

  lemma {:induction false} LessTransitive(a: string, b: string, c: string)
    requires Less(a, b) && Less(b, c)
    ensures Less(a, c)
    decreases |a|
  {
    if a != [] && a[0] == b[0] && b[0] == c[0] {
      LessTransitive(a[1..], b[1..], c[1..]);
    }
  }

  lemma {:induction false} LessTotal(a: string, b: string)
    requires a != b
    ensures Less(a, b) || Less(b, a)
    decreases |a|
  {
    if a != [] && b != [] && a[0] == b[0] {
      assert a == [a[0]] + a[1..] && b == [b[0]] + b[1..];
      LessTotal(a[1..], b[1..]);
    }
  }

  // ---------------------------------------------------------------- the table

  /** The map's invariant: names strictly increasing, hence distinct. */
  predicate Sorted(t: Table) {
    forall i, j :: 0 <= i < j < |t| ==> Less(t[i].0, t[j].0)
  }

  /** Every name in the table comes after x. */
  predicate Below(x: string, t: Table) {
    forall j :: 0 <= j < |t| ==> Less(x, t[j].0)
  }

  /** The std::map the table stands for. */
  function ToMap(t: Table): map<string, seq<string>> {
    if t == [] then map[] else ToMap(t[1..])[t[0].0 := t[0].1]
  }

  lemma {:induction false} ToMapKeys(t: Table, name: string)
    ensures name in ToMap(t) <==> exists j :: 0 <= j < |t| && t[j].0 == name
    decreases |t|
  {
    if t != [] {
      ToMapKeys(t[1..], name);
      if name != t[0].0 && name in ToMap(t[1..]) {
        var j :| 0 <= j < |t[1..]| && t[1..][j].0 == name;
        assert t[j + 1].0 == name;
      }
    }
  }

  lemma {:induction false} ToMapAt(t: Table, i: nat)
    requires Sorted(t) && i < |t|
    ensures t[i].0 in ToMap(t) && ToMap(t)[t[i].0] == t[i].1
    decreases |t|
  {
    if i > 0 {
      ToMapAt(t[1..], i - 1);
      assert Less(t[0].0, t[i].0);
      LessIrreflexive(t[0].0);
    }
  }

  /** `searchTypes[name] = exts`: overwrite the entry or insert it in order. */
  function Assign(t: Table, name: string, exts: seq<string>): Table
    decreases |t|
  {
    if t == [] then [(name, exts)]
    else if name == t[0].0 then [(name, exts)] + t[1..]
    else if Less(name, t[0].0) then [(name, exts)] + t
    else [t[0]] + Assign(t[1..], name, exts)
  }

  /** Assigning maps the name to the extensions and leaves every other
      entry of the map as it was. */
  lemma {:induction false} AssignMap(t: Table, name: string, exts: seq<string>)
    ensures ToMap(Assign(t, name, exts)) == ToMap(t)[name := exts]
    decreases |t|
  {
    if t != [] && name != t[0].0 && !Less(name, t[0].0) {
      var rest := Assign(t[1..], name, exts);
      assert ([t[0]] + rest)[1..] == rest;
      AssignMap(t[1..], name, exts);
    }
  }

  /** Assigning keeps the table sorted and keeps every lower bound that the
      name also respects. */
  lemma {:induction false} AssignSorted(t: Table, name: string, exts: seq<string>)
    requires Sorted(t)
    ensures Sorted(Assign(t, name, exts))
    ensures forall x :: Below(x, t) && Less(x, name) ==> Below(x, Assign(t, name, exts))
    decreases |t|
  {
    if t == [] {
    } else if name == t[0].0 {
      AssignReplaceSorted(t, name, exts);
    } else if Less(name, t[0].0) {
      AssignFrontSorted(t, name, exts);
    } else {
      AssignSorted(t[1..], name, exts);
      AssignSkipSorted(t, name, exts);
    }
  }

  /** Replacing the first entry keeps the rest, so the order and the bounds. */
  lemma AssignReplaceSorted(t: Table, name: string, exts: seq<string>)
    requires Sorted(t) && t != [] && name == t[0].0
    ensures Sorted(Assign(t, name, exts))
    ensures forall x :: Below(x, t) && Less(x, name) ==> Below(x, Assign(t, name, exts))
  {
    var r := Assign(t, name, exts);
    assert forall j :: 0 < j < |r| ==> r[j] == t[j];
  }

  /** A name before the first entry goes in front. */
  lemma AssignFrontSorted(t: Table, name: string, exts: seq<string>)
    requires Sorted(t) && t != [] && name != t[0].0 && Less(name, t[0].0)
    ensures Sorted(Assign(t, name, exts))
    ensures forall x :: Below(x, t) && Less(x, name) ==> Below(x, Assign(t, name, exts))
  {
    var r := Assign(t, name, exts);
    forall j | 0 < j < |r|
      ensures Less(name, r[j].0)
    {
      if j > 1 {
        LessTransitive(name, t[0].0, t[j - 1].0);
      }
    }
  }

  /** A name after the first entry goes into the rest, which stays sorted
      and above the first entry. */
  lemma AssignSkipSorted(t: Table, name: string, exts: seq<string>)
    requires Sorted(t) && t != [] && name != t[0].0 && !Less(name, t[0].0)
    requires Sorted(Assign(t[1..], name, exts))
    requires forall x :: Below(x, t[1..]) && Less(x, name) ==> Below(x, Assign(t[1..], name, exts))
    ensures Sorted(Assign(t, name, exts))
    ensures forall x :: Below(x, t) && Less(x, name) ==> Below(x, Assign(t, name, exts))
  {
    var rest := Assign(t[1..], name, exts);
    LessTotal(name, t[0].0);
    assert Below(t[0].0, t[1..]);
    assert Below(t[0].0, rest);
    var r := [t[0]] + rest;
    assert forall j :: 0 < j < |r| ==> r[j] == rest[j - 1];
  }

  /** `searchTypes.erase(name)`: the entry goes, if there is one. */
  function Erase(t: Table, name: string): (r: Table)
    ensures |r| <= |t|
    decreases |t|
  {
    if t == [] then []
    else if t[0].0 == name then Erase(t[1..], name)
    else [t[0]] + Erase(t[1..], name)
  }

  /** Erasing removes the name from the map and nothing else. */
  lemma {:induction false} EraseMap(t: Table, name: string)
    ensures ToMap(Erase(t, name)) == ToMap(t) - {name}
    decreases |t|
  {
    if t != [] {
      EraseMap(t[1..], name);
      if t[0].0 != name {
        var rest := Erase(t[1..], name);
        assert ([t[0]] + rest)[1..] == rest;
      }
    }
  }

  /** Erasing keeps the table sorted and keeps every lower bound. */
  lemma {:induction false} EraseSorted(t: Table, name: string)
    requires Sorted(t)
    ensures Sorted(Erase(t, name))
    ensures forall x :: Below(x, t) ==> Below(x, Erase(t, name))
    decreases |t|
  {
    if t != [] {
      EraseSorted(t[1..], name);
      forall x | Below(x, t)
        ensures Below(x, t[1..])
      {
        assert forall j :: 0 <= j < |t[1..]| ==> t[1..][j] == t[j + 1];
      }
      if t[0].0 != name {
        var rest := Erase(t[1..], name);
        assert Below(t[0].0, t[1..]);
        var r := [t[0]] + rest;
        assert forall j :: 0 < j < |r| ==> r[j] == rest[j - 1];
      }
    }
  }

  // ---------------------------------------------------------------- names

  /** `isDefaultTypeStr`: a single character '0'..'8', the name form of a
      built-in type code. */
  predicate IsDefaultTypeStr(name: string) {
    |name| == 1 && '0' <= name[0] <= '8'
  }

  /** The default names are exactly the nine one-digit strings. */
  lemma DefaultTypeStrings(name: string)
    ensures IsDefaultTypeStr(name) <==> name in ["0", "1", "2", "3", "4", "5", "6", "7", "8"]
  {
    if IsDefaultTypeStr(name) {
      assert name == [name[0]];
    }
  }

  /** `validateSearchTypeName`: empty and one-digit names are invalid, and
      the built-in type strings already exist. */
  function NameCheck(name: string): Status {
    if name == [] || IsDefaultTypeStr(name) then Fail(InvalidName)
    else if name in TypeStrings then Fail(AlreadyExists)
    else Ok
  }

  /** A name passes exactly when it is non-empty, not a single digit '0' to
      '8', and none of the built-in type strings. */
  lemma NameCheckIff(name: string)
    ensures NameCheck(name) == Ok <==>
              name != [] && !(|name| == 1 && '0' <= name[0] <= '8') &&
              forall k :: 0 <= k < |TypeStrings| ==> TypeStrings[k] != name
  {
  }

  // ---------------------------------------------------------------- operations

  /** `addSearchType(name, exts, validated)`: the outcome, checked in order. */
  function AddStatus(t: Table, name: string, validated: bool): Status {
    if !validated && NameCheck(name) != Ok then NameCheck(name)
    else if name in ToMap(t) then Fail(AlreadyExists)
    else Ok
  }

  /** `renameSearchType(oldName, newName)`: the new name is validated, the
      old one must exist, and the new one must not. */
  function RenameStatus(t: Table, oldName: string, newName: string): Status {
    if NameCheck(newName) != Ok then NameCheck(newName)
    else if oldName !in ToMap(t) then Fail(NoSuchType)
    else if newName in ToMap(t) then Fail(AlreadyExists)
    else Ok
  }

  /** The table after a successful rename: the old extensions under the new
      name, the old name gone. */
  function Renamed(t: Table, oldName: string, newName: string): Table
    requires oldName in ToMap(t)
  {
    Erase(Assign(t, newName, ToMap(t)[oldName]), oldName)
  }

  /** Renaming moves the extensions and touches no other entry. */
  lemma RenameMoves(t: Table, oldName: string, newName: string)
    requires RenameStatus(t, oldName, newName) == Ok
    ensures var m := ToMap(Renamed(t, oldName, newName));
            && oldName !in m && newName in m && m[newName] == ToMap(t)[oldName]
            && (forall n :: n != oldName && n != newName ==> (n in m <==> n in ToMap(t)))
            && |m| == |ToMap(t)|
  {
    var m0 := ToMap(t);
    assert newName != oldName;
    AssignMap(t, newName, m0[oldName]);
    EraseMap(Assign(t, newName, m0[oldName]), oldName);
    var m := ToMap(Renamed(t, oldName, newName));
    assert m == m0[newName := m0[oldName]] - {oldName};
    assert m.Keys == m0.Keys - {oldName} + {newName};
  }

  /** The name of a table entry as a type code: "1" to "6" are the default
      types AUDIO to VIDEO, everything else is custom (TYPE_ANY). An empty
      name reads its terminating '\0', which is custom too. */
  function PosCode(name: string): int {
    if |name| > 1 || name == [] || name[0] < '1' || name[0] > '6' then TypeAny
    else name[0] as int - '0' as int
  }

  /** Only the names "1" to "6" are default types by position, with their
      digit as the code; every other name is TYPE_ANY. */
  lemma PosCodeIff(name: string)
    ensures PosCode(name) != TypeAny <==> |name| == 1 && '1' <= name[0] <= '6'
    ensures PosCode(name) != TypeAny ==> PosCode(name) == name[0] as int - '0' as int
  {
  }

  /** The outputs of the positional getSearchType. */
  datatype ByPos = ByPos(typ: int, exts: seq<string>, name: string)

  /** `getSearchType(pos, type, extList, name)`: positions 0 to 2 are ANY,
      DIRECTORY and TTH (the extension list is left as it was); below 0
      nothing is assigned; from 3 on, the entries of the table in order.
      `prior` holds the values the output variables had. */
  function TypeByPos(t: Table, pos: int, prior: ByPos): (r: Option<ByPos>)
    ensures r.None? <==> pos >= 3 + |t|
  {
    if pos < 3 then
      Some(if pos == 0 then ByPos(TypeAny, prior.exts, "0")
           else if pos == 1 then ByPos(TypeDirectory, prior.exts, "7")
           else if pos == 2 then ByPos(TypeTth, prior.exts, "8")
           else prior)
    else if pos - 3 < |t| then
      Some(ByPos(PosCode(t[pos - 3].0), t[pos - 3].1, t[pos - 3].0))
    else None
  }

  /** The outputs of the named getSearchType. */
  datatype ByName = ByName(typ: int, exts: seq<string>)

  /** `getSearchType(name, type, extList)`: a name starting with '0', '7'
      or '8' gives that type code without a lookup (extensions as they
      were); otherwise the name must be in the table, and its first
      character alone decides between a default type and TYPE_ANY. */
  function TypeByName(t: Table, name: string, priorExts: seq<string>): Option<ByName> {
    if name == [] then None
    else if name[0] == '0' || name[0] == '7' || name[0] == '8' then
      Some(ByName(name[0] as int - '0' as int, priorExts))
    else if name in ToMap(t) then
      Some(ByName(if name[0] < '1' || name[0] > '6' then TypeAny else name[0] as int - '0' as int,
                  ToMap(t)[name]))
    else None
  }

  /** The named lookup throws exactly for the empty name, and for a name
      that neither starts with '0', '7' or '8' nor is in the table. */
  lemma ByNameFailsIff(t: Table, name: string, priorExts: seq<string>)
    ensures TypeByName(t, name, priorExts).None? <==>
              name == [] || (name[0] != '0' && name[0] != '7' && name[0] != '8' && name !in ToMap(t))
  {
  }

  /** The two lookups disagree on a custom name whose first character is a
      default digit: "3foo" is type 3 by name but TYPE_ANY by position. */
  lemma OverloadsDisagree(t: Table, exts: seq<string>, prior: ByPos)
    requires Sorted(t)
    requires 0 < |t| && t[0] == ("3foo", exts)
    ensures TypeByName(t, "3foo", prior.exts) == Some(ByName(3, exts))
    ensures TypeByPos(t, 3, prior) == Some(ByPos(TypeAny, exts, "3foo"))
  {
    ToMapAt(t, 0);
  }

  /** By position, every entry of the table is reached, with its own
      extensions and its name, in the table's order. */
  lemma ByPosCoversTable(t: Table, i: nat, prior: ByPos)
    requires Sorted(t) && i < |t|
    ensures t[i].0 in ToMap(t) && ToMap(t)[t[i].0] == t[i].1
    ensures var r := TypeByPos(t, i + 3, prior);
            r.Some? && r.value.name == t[i].0 && r.value.exts == t[i].1
  {
    ToMapAt(t, i);
  }

  /** By name, a table entry whose name avoids the leading '0', '7' and '8'
      is found with its own extensions. */
  lemma ByNameFindsEntry(t: Table, name: string, priorExts: seq<string>)
    requires name in ToMap(t) && name != []
    requires name[0] != '0' && name[0] != '7' && name[0] != '8'
    ensures TypeByName(t, name, priorExts).Some?
    ensures TypeByName(t, name, priorExts).value.exts == ToMap(t)[name]
    ensures 0 <= TypeByName(t, name, priorExts).value.typ <= 6
  {
    ToMapKeys(t, name);
  }

  /** By name, a leading '7' answers TYPE_DIRECTORY whatever the table
      holds, even for a custom type such as "7zip" that was added under
      that name. */
  lemma ByNameShortCircuits(t: Table, priorExts: seq<string>)
    ensures TypeByName(t, "7zip", priorExts) == Some(ByName(TypeDirectory, priorExts))
    ensures NameCheck("7zip") == Ok
  {
    assert "7zip" != "Any" && "7zip"[0] != "Directory"[0];
  }

  // ---------------------------------------------------------------- defaults

  /** The name of the i-th default type: `string(1, '1' + i)`, a char, so
      the code wraps modulo 256. */
  function DefaultName(i: nat): string {
    [((49 + i) % 256) as char]
  }

  /** The table `setSearchTypeDefaults` builds from the hub's extension lists. */
  function Defaults(exts: seq<seq<string>>): Table
    decreases |exts|
  {
    if exts == [] then []
    else Assign(Defaults(exts[..|exts| - 1]), DefaultName(|exts| - 1), exts[|exts| - 1])
  }

  /** The first 256 default names are distinct characters. */
  lemma DefaultNamesDistinct(i: nat, n: nat)
    requires i < n < 256
    ensures DefaultName(i) != DefaultName(n)
  {
    var a := (49 + i) % 256;
    var b := (49 + n) % 256;
    assert a == if 49 + i < 256 then 49 + i else 49 + i - 256;
    assert b == if 49 + n < 256 then 49 + n else 49 + n - 256;
    assert DefaultName(i)[0] != DefaultName(n)[0];
  }

  /** For up to 256 lists, list i sits under the character '1' + i, and
      nothing else is in the table. */
  lemma {:induction false} DefaultsDigits(exts: seq<seq<string>>)
    requires |exts| <= 256
    ensures ToMap(Defaults(exts)).Keys == set i | 0 <= i < |exts| :: DefaultName(i)
    ensures forall i :: 0 <= i < |exts| ==> ToMap(Defaults(exts))[DefaultName(i)] == exts[i]
    decreases |exts|
  {
    if exts != [] {
      var n := |exts| - 1;
      var prev := exts[..n];
      DefaultsDigits(prev);
      AssignMap(Defaults(prev), DefaultName(n), exts[n]);
      var m := ToMap(Defaults(exts));
      assert m == ToMap(Defaults(prev))[DefaultName(n) := exts[n]];
      forall i | 0 <= i < n
        ensures m[DefaultName(i)] == exts[i]
      {
        DefaultNamesDistinct(i, n);
        assert prev[i] == exts[i];
      }
      assert (set i | 0 <= i < |exts| :: DefaultName(i)) ==
             (set i | 0 <= i < n :: DefaultName(i)) + {DefaultName(n)};
    }
  }

  /** The six default lists of a hub become the types "1" to "6", which the
      lookups map to the codes 1 to 6. */
  lemma DefaultsAreDefaultTypes(exts: seq<seq<string>>, i: nat)
    requires |exts| == 6 && i < 6
    ensures DefaultName(i) in ToMap(Defaults(exts))
    ensures IsDefaultTypeStr(DefaultName(i))
    ensures TypeByName(Defaults(exts), DefaultName(i), []) == Some(ByName(i + 1, exts[i]))
  {
    DefaultNameStored(exts, i);
    DefaultNameDigit(i);
  }

  /** Default list i is stored under its default name. */
  lemma DefaultNameStored(exts: seq<seq<string>>, i: nat)
    requires |exts| <= 256 && i < |exts|
    ensures DefaultName(i) in ToMap(Defaults(exts))
    ensures ToMap(Defaults(exts))[DefaultName(i)] == exts[i]
  {
    DefaultsDigits(exts);
    assert DefaultName(i) in set k | 0 <= k < |exts| :: DefaultName(k);
  }

  /** The first six default names are the digits '1' to '6'. */
  lemma DefaultNameDigit(i: nat)
    requires i < 6
    ensures IsDefaultTypeStr(DefaultName(i)) && DefaultName(i)[0] as int - '0' as int == i + 1
  {
  }
}
