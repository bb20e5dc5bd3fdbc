/** The state SearchManager keeps and the operations that change it or walk
    it step by step (SearchManager.cpp): the stored search keys and the
    decryption loop over them, the token table that search fills and the
    minute timer sweeps, and the search-type registry. Each method is
    proved against the specification function of its module. */
module Manager {
  import opened Strings
  import opened PacketDecoder
  import opened Correlator
  import opened SearchTypes

  class SearchManager {
    /** One 16-byte key per search ever issued, oldest first. */
    var searchKeys: seq<Key>
    /** Hub token to (send time, caller's token, hub). */
    var searches: map<string, SearchItem>
    /** Search-type name to extensions, in name order. */
    var searchTypes: Table

    ghost predicate Valid()
      reads this
    {
      Sorted(searchTypes)
    }

    /** The constructor installs the default search types. */
    constructor(exts: seq<seq<string>>)
      ensures Valid()
      ensures searchKeys == [] && searches == map[] && searchTypes == Defaults(exts)
    {
      searchKeys := [];
      searches := map[];
      new;
      SetSearchTypeDefaults(exts);
    }

    // ------------------------------------------------------------ receiving

    /** The decryption loop of onData (SearchManager.cpp:225-259): try the
        keys in order, take the first whose last decrypted byte is 1..16,
        zero its padding in place and read the C string at offset 16. */
    method DecodePacket(buf: seq<Byte>, decrypt: Cipher) returns (p: Payload)
      requires FitsAll(searchKeys, buf, decrypt)
      ensures p == Decode(searchKeys, buf, decrypt)
    {
      p := Raw(buf);
      if !(|buf| >= 32 && |buf| % 16 == 0) {
        return;
      }
      var i := 0;
      while i < |searchKeys|
        invariant i <= |searchKeys|
        invariant forall j :: 0 <= j < i ==> !PadAccepted(decrypt(searchKeys[j], buf))
        decreases |searchKeys| - i
      {
        var plain := decrypt(searchKeys[i], buf);
        var padlen := plain[|buf| - 1];
        if padlen < 1 || padlen > 16 {
          i := i + 1;
          continue;
        }
        assert FirstAccepted(searchKeys, buf, decrypt, 0) == Some(i);
        var out := new Byte[|buf|](k requires 0 <= k < |buf| => plain[k]);
        assert out[..] == plain;
        ClearPadding(out);
        var payload := CString(out[16..]);
        if payload.None? {
          p := Unterminated;
        } else {
          p := Decrypted(payload.value);
        }
        return;
      }
      assert FirstAccepted(searchKeys, buf, decrypt, 0).None?;
    }

    // ------------------------------------------------------------ searching

    /** The bookkeeping of `search` (SearchManager.cpp:104-131): store the
        new key, enter every hub under its freshly drawn token, and hand each
        hub its request, with the Base32 key for adcs:// hubs. `tokens` are
        the drawn random tokens, `keyStr` the key's Base32 text. */
    method Search(who: seq<string>, aToken: string, tick: int, key: Key, keyStr: string,
                  tokens: seq<string>) returns (requests: seq<SearchRequest>)
      requires |tokens| == |who|
      modifies this
      ensures searchKeys == old(searchKeys) + [key]
      ensures searches == Issue(old(searches), who, tokens, tick, aToken)
      ensures searchTypes == old(searchTypes)
      ensures requests == Requests(who, tokens, keyStr)
    {
      searchKeys := searchKeys + [key];
      var tokenHubList: seq<(string, string)> := [];
      for i := 0 to |who|
        invariant searches == Issue(old(searches), who[..i], tokens[..i], tick, aToken)
        invariant searchKeys == old(searchKeys) + [key] && searchTypes == old(searchTypes)
        invariant |tokenHubList| == i
        invariant forall k :: 0 <= k < i ==> tokenHubList[k] == (tokens[k], who[k])
      {
        assert who[..i + 1][..i] == who[..i] && tokens[..i + 1][..i] == tokens[..i];
        searches := searches[tokens[i] := SearchItem(tick, aToken, who[i])];
        tokenHubList := tokenHubList + [(tokens[i], who[i])];
      }
      assert who[..|who|] == who && tokens[..|who|] == tokens;
      requests := [];
      for j := 0 to |tokenHubList|
        invariant |requests| == j
        invariant forall k :: 0 <= k < j ==> requests[k] == Requests(who, tokens, keyStr)[k]
      {
        var hub := tokenHubList[j].1;
        requests := requests + [SearchRequest(tokenHubList[j].0, hub, if IsAdcs(hub) then Some(keyStr) else None)];
      }
    }

    /** The minute timer (SearchManager.cpp:530-540): erase an expired entry
        and start over from the beginning, until none is left. */
    method OnMinute(tick: int)
      modifies this
      ensures searches == Sweep(old(searches), tick)
      ensures searchKeys == old(searchKeys) && searchTypes == old(searchTypes)
    {
      while exists k :: k in searches && Expired(searches[k], tick)
        invariant searches.Keys <= old(searches).Keys
        invariant forall k :: k in searches ==> searches[k] == old(searches)[k]
        invariant forall k :: k in old(searches) && !Expired(old(searches)[k], tick) ==> k in searches
        invariant searchKeys == old(searchKeys) && searchTypes == old(searchTypes)
        decreases |searches|
      {
        var k :| k in searches && Expired(searches[k], tick);
        searches := searches - {k};
      }
    }

    // ------------------------------------------------------------ search types

    /** `validateSearchTypeName` with its loop over the built-in types. */
    method ValidateSearchTypeName(name: string) returns (st: Status)
      ensures st == NameCheck(name)
    {
      if name == [] || (|name| == 1 && '0' <= name[0] <= '8') {
        return Fail(InvalidName);
      }
      for t := 0 to |TypeStrings|
        invariant forall k :: 0 <= k < t ==> TypeStrings[k] != name
      {
        if TypeStrings[t] == name {
          return Fail(AlreadyExists);
        }
      }
      st := Ok;
    }

    /** `setSearchTypeDefaults`: clear the table and enter the hub's
        extension lists under '1', '2', ... */
    method SetSearchTypeDefaults(exts: seq<seq<string>>)
      modifies this
      ensures Valid()
      ensures searchTypes == Defaults(exts)
      ensures searchKeys == old(searchKeys) && searches == old(searches)
    {
      searchTypes := [];
      for i := 0 to |exts|
        invariant searchTypes == Defaults(exts[..i]) && Sorted(searchTypes)
        invariant searchKeys == old(searchKeys) && searches == old(searches)
      {
        assert exts[..i + 1][..i] == exts[..i];
        AssignSorted(searchTypes, DefaultName(i), exts[i]);
        searchTypes := Assign(searchTypes, DefaultName(i), exts[i]);
      }
      assert exts[..|exts|] == exts;
    }

    /** `addSearchType(name, exts, validated)`: validate unless told not
        to, refuse an existing name, else enter it. */
    method AddSearchType(name: string, exts: seq<string>, validated: bool) returns (st: Status)
      requires Valid()
      modifies this
      ensures Valid()
      ensures st == AddStatus(old(searchTypes), name, validated)
      ensures st == Ok ==> searchTypes == Assign(old(searchTypes), name, exts)
      ensures st != Ok ==> searchTypes == old(searchTypes)
      ensures searchKeys == old(searchKeys) && searches == old(searches)
    {
      if !validated {
        st := ValidateSearchTypeName(name);
        if st != Ok {
          return;
        }
      }
      if name in ToMap(searchTypes) {
        return Fail(AlreadyExists);
      }
      AssignSorted(searchTypes, name, exts);
      searchTypes := Assign(searchTypes, name, exts);
      st := Ok;
    }

    /** `delSearchType(name)`: validate, then erase (a missing name is not
        an error). */
    method DelSearchType(name: string) returns (st: Status)
      requires Valid()
      modifies this
      ensures Valid()
      ensures st == NameCheck(name)
      ensures st == Ok ==> searchTypes == Erase(old(searchTypes), name)
      ensures st != Ok ==> searchTypes == old(searchTypes)
      ensures searchKeys == old(searchKeys) && searches == old(searches)
    {
      st := ValidateSearchTypeName(name);
      if st == Ok {
        EraseSorted(searchTypes, name);
        searchTypes := Erase(searchTypes, name);
      }
    }

    /** `renameSearchType(oldName, newName)`: validate the new name, look up
        the old one, add the new one with the old extensions, erase the old
        one. */
    method RenameSearchType(oldName: string, newName: string) returns (st: Status)
      requires Valid()
      modifies this
      ensures Valid()
      ensures st == RenameStatus(old(searchTypes), oldName, newName)
      ensures st == Ok ==> searchTypes == Renamed(old(searchTypes), oldName, newName)
      ensures st != Ok ==> searchTypes == old(searchTypes)
      ensures searchKeys == old(searchKeys) && searches == old(searches)
    {
      st := ValidateSearchTypeName(newName);
      if st != Ok {
        return;
      }
      if oldName !in ToMap(searchTypes) {
        return Fail(NoSuchType);
      }
      var exts := ToMap(searchTypes)[oldName];
      st := AddSearchType(newName, exts, true);
      if st != Ok {
        return;
      }
      EraseSorted(searchTypes, oldName);
      searchTypes := Erase(searchTypes, oldName);
    }

    /** `modSearchType(name, exts)`: replace the extensions of an existing
        type. */
    method ModSearchType(name: string, exts: seq<string>) returns (st: Status)
      requires Valid()
      modifies this
      ensures Valid()
      ensures st == (if name in ToMap(old(searchTypes)) then Ok else Fail(NoSuchType))
      ensures st == Ok ==> ToMap(searchTypes) == ToMap(old(searchTypes))[name := exts]
      ensures st != Ok ==> searchTypes == old(searchTypes)
      ensures searchKeys == old(searchKeys) && searches == old(searches)
    {
      if name !in ToMap(searchTypes) {
        return Fail(NoSuchType);
      }
      AssignSorted(searchTypes, name, exts);
      AssignMap(searchTypes, name, exts);
      searchTypes := Assign(searchTypes, name, exts);
      st := Ok;
    }

    /** The positional `getSearchType` (SearchManager.cpp:899-929): the
        fixed types below 3, then a walk over the table with a counter. */
    method GetSearchTypeByPos(pos: int, prior: ByPos) returns (r: Option<ByPos>)
      ensures r == TypeByPos(searchTypes, pos, prior)
    {
      if pos < 3 {
        var out := prior;
        if pos == 0 {
          out := ByPos(TypeAny, out.exts, "0");
        } else if pos == 1 {
          out := ByPos(TypeDirectory, out.exts, "7");
        } else if pos == 2 {
          out := ByPos(TypeTth, out.exts, "8");
        }
        return Some(out);
      }
      var want := pos - 3;
      var counter := 0;
      while counter < |searchTypes|
        // no entry before counter is at the wanted position
        invariant counter <= |searchTypes| && counter <= want
      {
        if counter == want {
          var name := searchTypes[counter].0;
          var typ := if |name| > 1 || name == [] || name[0] < '1' || name[0] > '6' then TypeAny
                     else name[0] as int - '0' as int;
          return Some(ByPos(typ, searchTypes[counter].1, name));
        }
        counter := counter + 1;
      }
      r := None;
    }
  }

  /** Zero the run of padding bytes equal to the last byte p, from position
      |out| - p upward, stopping at the first byte that differs. */
  method ClearPadding(out: array<Byte>)
    requires PadAccepted(out[..]) && out.Length >= 32
    modifies out
    ensures out[..] == ZeroPadding(old(out[..]))
  {
    ghost var o := out[..];
    var n := out.Length;
    var p := out[n - 1];
    var r := 0;
    while r < p
      invariant r <= p
      invariant forall q :: n - p <= q < n - p + r ==> o[q] == p
      invariant MatchedRun(o, p, r) == MatchedRun(o, p, 0)
      invariant out[..] == seq(n, q requires 0 <= q < n => if n - p <= q < n - p + r then 0 else o[q])
    {
      if out[n - p + r] != p {
        break;
      }
      out[n - p + r] := 0;
      r := r + 1;
    }
    assert MatchedRun(o, p, r) == r;
  }

  /** `normalizeWhitespace`: every tab, line feed and carriage return
      becomes a space. */
  function Normalized(s: string): (r: string)
    ensures |r| == |s|
    ensures forall k :: 0 <= k < |s| ==> r[k] == if s[k] in "\t\n\r" then ' ' else s[k]
  {
    seq(|s|, k requires 0 <= k < |s| => if s[k] in "\t\n\r" then ' ' else s[k])
  }

  /** The loop of normalizeWhitespace (SearchManager.cpp:88-96): find the
      next tab, line feed or carriage return and overwrite it. */
  method NormalizeWhitespace(s: string) returns (normalized: string)
    ensures normalized == Normalized(s)
  {
    normalized := s;
    var found := 0;
    while found < |normalized|
      invariant found <= |normalized| == |s|
      invariant forall k :: 0 <= k < found ==> normalized[k] == Normalized(s)[k]
      invariant forall k :: found <= k < |s| ==> normalized[k] == s[k]
    {
      if normalized[found] in "\t\n\r" {
        normalized := normalized[found := ' '];
      }
      found := found + 1;
    }
  }

  /** Normalizing leaves no tab, line feed or carriage return, keeps every
      other character, and a second pass changes nothing. */
  lemma NormalizedProperties(s: string)
    ensures forall k :: 0 <= k < |s| ==> Normalized(s)[k] !in "\t\n\r"
    ensures forall k :: 0 <= k < |s| && s[k] !in "\t\n\r" ==> Normalized(s)[k] == s[k]
    ensures Normalized(Normalized(s)) == Normalized(s)
  {
  }
}
