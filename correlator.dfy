/** The table that correlates search replies with the searches that asked
    for them (the `searches` map of SearchManager, SearchManager.cpp:104-117
    and 530-540): every search stores, under a fresh random token per hub,
    the time it was sent, the caller's own token and the hub's address; the
    minute timer forgets entries older than a minute. The imperative loops
    are SearchManager.Search and SearchManager.OnMinute (manager.dfy); the
    functions here state what they compute. */
module Correlator {
  import opened Strings

  /** (SEARCHTIME, LOCALTOKEN, HUBURL) of one issued search. */
  datatype SearchItem = SearchItem(time: int, localToken: string, hubUrl: string)

  /** What ClientManager::search is handed per hub: the hub token, the hub,
      and the Base32 search key when the hub address is adcs://. */
  datatype SearchRequest = SearchRequest(token: string, hub: string, key: Option<string>)

  /** The entry lifetime: 1000*60 milliseconds. */
  const EntryLifetime: int := 60000

  /** `get<SEARCHTIME>(e) + 1000*60 < aTick`. */
  predicate Expired(item: SearchItem, tick: int) {
    item.time + EntryLifetime < tick
  }

  /** The table after the minute sweep: every entry that has not expired,
      unchanged. */
  function Sweep(m: map<string, SearchItem>, tick: int): (r: map<string, SearchItem>)
    ensures forall k :: k in r <==> k in m && !Expired(m[k], tick)
    ensures forall k :: k in r ==> r[k] == m[k]
  {
    map k | k in m && !Expired(m[k], tick) :: m[k]
  }

  /** The table after `searches[hubToken] = (tick, aToken, hub)` for every
      hub in turn; a token drawn twice keeps the later hub. */
  function Issue(m: map<string, SearchItem>, who: seq<string>, tokens: seq<string>,
                 tick: int, aToken: string): map<string, SearchItem>
    requires |tokens| == |who|
  {
    if who == [] then m
    else Issue(m, who[..|who| - 1], tokens[..|who| - 1], tick, aToken)
           [tokens[|who| - 1] := SearchItem(tick, aToken, who[|who| - 1])]
  }

  /** ASCII tolower, as strnicmp compares in the "C" locale. */
  function Lower(c: char): char {
    if 'A' <= c <= 'Z' then (c as int - 'A' as int + 'a' as int) as char else c
  }

  /** `strnicmp("adcs://", hub, 7) == 0`. */
  predicate IsAdcs(hub: string) {
    |hub| >= 7 && forall k :: 0 <= k < 7 ==> Lower(hub[k]) == "adcs://"[k]
  }

  /** The requests handed to the hubs, in the order of the hub list. */
  function Requests(who: seq<string>, tokens: seq<string>, keyStr: string): (rs: seq<SearchRequest>)
    requires |tokens| == |who|
    ensures |rs| == |who|
  {
    seq(|who|, k requires 0 <= k < |who| =>
      SearchRequest(tokens[k], who[k], if IsAdcs(who[k]) then Some(keyStr) else None))
  }

  /** Issuing only adds or overwrites the entries under the drawn tokens. */
  lemma {:induction false} IssueFrame(m: map<string, SearchItem>, who: seq<string>, tokens: seq<string>,
                                      tick: int, aToken: string, k: string)
    requires |tokens| == |who|
    requires k !in tokens
    ensures k in Issue(m, who, tokens, tick, aToken) <==> k in m
    ensures k in m ==> Issue(m, who, tokens, tick, aToken)[k] == m[k]
    decreases |who|
  {
    if who != [] {
      var n := |who| - 1;
      assert k != tokens[n];
      IssueFrame(m, who[..n], tokens[..n], tick, aToken, k);
    }
  }

  /** Every drawn token is a key afterwards, and the keys are the old keys
      plus the drawn tokens. */
  lemma {:induction false} IssueKeys(m: map<string, SearchItem>, who: seq<string>, tokens: seq<string>,
                                     tick: int, aToken: string)
    requires |tokens| == |who|
    ensures Issue(m, who, tokens, tick, aToken).Keys == m.Keys + set k | k in tokens
    decreases |who|
  {
    if who != [] {
      var n := |who| - 1;
      IssueKeys(m, who[..n], tokens[..n], tick, aToken);
      assert tokens == tokens[..n] + [tokens[n]];
      assert (set k | k in tokens) == (set k | k in tokens[..n]) + {tokens[n]};
    }
  }

  /** With distinct tokens, every hub gets its own entry holding the send
      time, the caller's token and that hub. */
  lemma {:induction false} IssueEntry(m: map<string, SearchItem>, who: seq<string>, tokens: seq<string>,
                                      tick: int, aToken: string, i: nat)
    requires |tokens| == |who| && i < |who|
    requires forall a, b :: 0 <= a < b < |tokens| ==> tokens[a] != tokens[b]
    ensures tokens[i] in Issue(m, who, tokens, tick, aToken)
    ensures Issue(m, who, tokens, tick, aToken)[tokens[i]] == SearchItem(tick, aToken, who[i])
    decreases |who|
  {
    var n := |who| - 1;
    if i < n {
      assert tokens[i] != tokens[n];
      IssueEntry(m, who[..n], tokens[..n], tick, aToken, i);
    }
  }

  /** The sweep is strict: an entry exactly a minute old survives, one a
      millisecond older is erased. */
  lemma SweepBoundary(m: map<string, SearchItem>, k: string, tick: int)
    requires k in m
    ensures m[k].time + 60000 == tick ==> k in Sweep(m, tick) && Sweep(m, tick)[k] == m[k]
    ensures m[k].time + 60001 == tick ==> k !in Sweep(m, tick)
  {
  }

  /** Sweeping twice at the same tick changes nothing more, and a later
      sweep never brings an entry back. */
  lemma SweepIdempotentMonotone(m: map<string, SearchItem>, t1: int, t2: int)
    requires t1 <= t2
    ensures Sweep(Sweep(m, t1), t1) == Sweep(m, t1)
    ensures Sweep(m, t2).Keys <= Sweep(m, t1).Keys
  {
  }

  /** Two hubs searched with distinct tokens: both entries exist, each
      pointing at its hub, both with the caller's token, and the minute
      sweep keeps them while they are at most a minute old. */
  lemma TwoHubSearch(m: map<string, SearchItem>, h1: string, h2: string, t1: string, t2: string,
                     tick: int, aToken: string, later: int)
    requires t1 != t2
    requires tick <= later <= tick + 60000
    ensures var s := Issue(m, [h1, h2], [t1, t2], tick, aToken);
            && t1 in s && s[t1] == SearchItem(tick, aToken, h1)
            && t2 in s && s[t2] == SearchItem(tick, aToken, h2)
            && t1 in Sweep(s, later) && t2 in Sweep(s, later)
  {
    IssueEntry(m, [h1, h2], [t1, t2], tick, aToken, 0);
    IssueEntry(m, [h1, h2], [t1, t2], tick, aToken, 1);
  }

  /** A request carries the key exactly when its hub address starts with
      "adcs://" in any letter case. */
  lemma RequestKeyIff(who: seq<string>, tokens: seq<string>, keyStr: string, i: nat)
    requires |tokens| == |who| && i < |who|
    ensures var r := Requests(who, tokens, keyStr)[i];
            && r.token == tokens[i] && r.hub == who[i]
            && (r.key.Some? <==> IsAdcs(who[i]))
            && (r.key.Some? ==> r.key.value == keyStr)
  {
  }

  lemma AdcsAnyCase()
    ensures IsAdcs("ADCS://hub.example:1511")
    ensures IsAdcs("adcs://hub.example:1511")
    ensures !IsAdcs("adc://hub.example:1511")
    ensures !IsAdcs("adcs:/")
  {
    assert "adc://hub.example:1511"[3] == ':';
  }
}
