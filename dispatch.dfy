/** The receive path of SearchManager::onData (SearchManager.cpp:221-437):
    the datagram is first run through the encrypted-packet gate
    (PacketDecoder), then routed by its prefix to the legacy `$SR` parser
    or to one of the structured-command handlers. The structured command's
    own parser (AdcCommand) and the user lookup by CID are collaborators
    and come in as function parameters. */
module Dispatch {
  import opened Strings
  import opened PacketDecoder
  import opened LegacyReply

  /** What `ClientManager::findUser(CID)` answers. */
  datatype UserFound = Unknown | Myself | Peer

  /** Where a datagram goes. The parameter lists are those left once the
      sender's CID (the first parameter) is removed. */
  datatype Route =
    | LegacyRoute(record: Option<SrRecord>)
    | ResRoute(params: seq<string>)
    | DsrRoute(params: seq<string>)
    | PsrRoute(adcUser: bool, params: seq<string>)
    | PbdRoute(params: seq<string>)
    | UbnRoute(params: seq<string>)
    | UbdRoute(params: seq<string>)
    | Ignored
    | OutOfRange
    | UnterminatedRead

  /** `x.compare(1, 4, verb) == 0` with a four-character verb: the text has
      the verb at positions 1..4. */
  predicate Verb(x: string, verb: string) {
    |verb| == 4 && |x| >= 5 && x[1..5] == verb
  }

  /** The structured-command branches also need the last byte to be '\n'. */
  predicate IsCommand(x: string, verb: string) {
    Verb(x, verb) && x[|x| - 1] == '\n'
  }

  /** The bytes as the characters of a std::string. */
  function Chars(b: seq<Byte>): (s: string)
    ensures |s| == |b| && forall k :: 0 <= k < |b| ==> s[k] as int == b[k]
  {
    seq(|b|, k requires 0 <= k < |b| => b[k] as char)
  }

  /** A command with at least one parameter whose first is a 39-character
      CID: the parameters after it. */
  function AfterCid(ps: seq<string>): (r: Option<seq<string>>)
    ensures r.Some? <==> ps != [] && |ps[0]| == 39
    ensures r.Some? ==> r.value == ps[1..]
  {
    if ps == [] || |ps[0]| != 39 then None else Some(ps[1..])
  }

  /** The prefix dispatch of onData (SearchManager.cpp:263-437). `parse` is
      the AdcCommand parser applied to the text without its final '\n',
      `lookup` resolves a CID, and `partialSharing` is the
      USE_PARTIAL_SHARING setting. An empty text makes the first
      `compare(1, ...)` throw out_of_range. */
  function Dispatch(x: string, parse: string -> seq<string>, lookup: string -> UserFound,
                    partialSharing: bool): Route
  {
    if |x| >= 4 && x[..4] == "$SR " then LegacyRoute(ParseSr(x))
    else if x == [] then OutOfRange
    else
      var ps := if x[|x| - 1] == '\n' then parse(x[..|x| - 1]) else [];
      if IsCommand(x, "RES ") then
        match AfterCid(ps)
        case None => Ignored
        case Some(rest) => if lookup(ps[0]) == Unknown then Ignored else ResRoute(rest)
      else if IsCommand(x, "DSR ") then
        match AfterCid(ps)
        case None => Ignored
        case Some(rest) => DsrRoute(rest)
      else if IsCommand(x, "PSR ") then
        match AfterCid(ps)
        case None => Ignored
        case Some(rest) => PsrRoute(lookup(ps[0]) == Peer, rest)
      else if IsCommand(x, "PBD ") then
        if !partialSharing then Ignored
        else match AfterCid(ps)
          case None => Ignored
          case Some(rest) => if lookup(ps[0]) == Unknown then Ignored else PbdRoute(rest)
      else if IsCommand(x, "UBD ") || IsCommand(x, "UBN ") then
        if ps == [] then Ignored
        else if IsCommand(x, "UBN ") then UbnRoute(ps[1..]) else UbdRoute(ps[1..])
      else Ignored
  }

  /** onData: the payload chosen by the decoder, then the dispatch. */
  function Receive(keys: seq<Key>, buf: seq<Byte>, decrypt: Cipher, parse: string -> seq<string>,
                   lookup: string -> UserFound, partialSharing: bool): Route
    requires FitsAll(keys, buf, decrypt)
  {
    match Decode(keys, buf, decrypt)
    case Raw(b) => Dispatch(Chars(b), parse, lookup, partialSharing)
    case Decrypted(b) => Dispatch(Chars(b), parse, lookup, partialSharing)
    case Unterminated => UnterminatedRead
  }

  /** Every structured-command route needs its verb at positions 1..4 and a
      final '\n'; all but UBD and UBN also need a 39-character CID first,
      and the handler gets the parameters after it. */
  lemma CommandRoutesNeedShape(x: string, parse: string -> seq<string>, lookup: string -> UserFound,
                               partialSharing: bool)
    ensures var r := Dispatch(x, parse, lookup, partialSharing);
            && (r.ResRoute? ==> IsCommand(x, "RES ") && lookup(parse(x[..|x| - 1])[0]) != Unknown)
            && (r.DsrRoute? ==> IsCommand(x, "DSR "))
            && (r.PsrRoute? ==> IsCommand(x, "PSR "))
            && (r.PbdRoute? ==> IsCommand(x, "PBD ") && partialSharing)
            && (r.UbnRoute? ==> IsCommand(x, "UBN "))
            && (r.UbdRoute? ==> IsCommand(x, "UBD "))
            && ((r.ResRoute? || r.DsrRoute? || r.PsrRoute? || r.PbdRoute?) ==>
                  var ps := parse(x[..|x| - 1]);
                  ps != [] && |ps[0]| == 39 && r.params == ps[1..])
  {
    var r := Dispatch(x, parse, lookup, partialSharing);
    if r.ResRoute? || r.DsrRoute? || r.PsrRoute? || r.PbdRoute? || r.UbnRoute? || r.UbdRoute? {
      assert x[..4] != "$SR " by {
        assert x[1] != "$SR "[1];
      }
    }
  }

  /** A text starting with "$SR " always goes to the legacy parser. */
  lemma LegacyFirst(x: string, parse: string -> seq<string>, lookup: string -> UserFound, partialSharing: bool)
    requires |x| >= 4 && x[..4] == "$SR "
    ensures Dispatch(x, parse, lookup, partialSharing) == LegacyRoute(ParseSr(x))
  {
  }

  /** With partial sharing off, a PBD command reaches no handler. */
  lemma PbdNeedsSharing(x: string, parse: string -> seq<string>, lookup: string -> UserFound)
    requires IsCommand(x, "PBD ")
    ensures Dispatch(x, parse, lookup, false) == Ignored
  {
    assert x[..4] != "$SR " by {
      assert x[1] == 'P';
    }
  }

  /** A PSR from a CID that does not resolve to another user is still
      handed on, marked for the NMDC lookup by nick. */
  lemma PsrUnknownSenderKept(x: string, parse: string -> seq<string>, lookup: string -> UserFound,
                             partialSharing: bool)
    requires IsCommand(x, "PSR ")
    requires var ps := parse(x[..|x| - 1]); ps != [] && |ps[0]| == 39 && lookup(ps[0]) != Peer
    ensures Dispatch(x, parse, lookup, partialSharing) == PsrRoute(false, parse(x[..|x| - 1])[1..])
  {
    assert x[..4] != "$SR " by {
      assert x[1] == 'P';
    }
    assert !IsCommand(x, "RES ") && !IsCommand(x, "DSR ") by {
      assert x[1] == 'P';
    }
  }

  /** Conversely, a RES command with a 39-character CID naming a known
      user reaches the RES handler with the parameters after the CID. */
  lemma ResShapeRoutes(x: string, parse: string -> seq<string>, lookup: string -> UserFound,
                       partialSharing: bool)
    requires IsCommand(x, "RES ")
    requires var ps := parse(x[..|x| - 1]); ps != [] && |ps[0]| == 39 && lookup(ps[0]) != Unknown
    ensures Dispatch(x, parse, lookup, partialSharing) == ResRoute(parse(x[..|x| - 1])[1..])
  {
    assert x[..4] != "$SR " by {
      assert x[1] == 'R';
    }
  }

  /** A DSR command with a 39-character CID reaches the DSR handler with the
      parameters after the CID, whoever the CID names. */
  lemma DsrShapeRoutes(x: string, parse: string -> seq<string>, lookup: string -> UserFound,
                       partialSharing: bool)
    requires IsCommand(x, "DSR ")
    requires var ps := parse(x[..|x| - 1]); ps != [] && |ps[0]| == 39
    ensures Dispatch(x, parse, lookup, partialSharing) == DsrRoute(parse(x[..|x| - 1])[1..])
  {
    assert x[..4] != "$SR " && !IsCommand(x, "RES ") by {
      assert x[1] == 'D';
    }
  }

  /** UBD and UBN take the first parameter off without checking it. */
  lemma UbnSkipsCidCheck(x: string, parse: string -> seq<string>, lookup: string -> UserFound,
                         partialSharing: bool)
    requires IsCommand(x, "UBN ")
    requires parse(x[..|x| - 1]) != []
    ensures Dispatch(x, parse, lookup, partialSharing) == UbnRoute(parse(x[..|x| - 1])[1..])
  {
    assert x[1] == 'U';
    assert x[..4] != "$SR ";
  }

  /** The empty datagram reaches the first `compare(1, ...)` and throws. */
  lemma EmptyDatagramThrows(keys: seq<Key>, decrypt: Cipher, parse: string -> seq<string>,
                            lookup: string -> UserFound, partialSharing: bool)
    requires FitsAll(keys, [], decrypt)
    ensures Receive(keys, [], decrypt, parse, lookup, partialSharing) == OutOfRange
  {
  }

  /** A taken decryption whose byte 16 is zero leaves an empty string, which
      throws at the first `compare(1, ...)`. */
  lemma EmptyDecryptionThrows(keys: seq<Key>, buf: seq<Byte>, decrypt: Cipher, parse: string -> seq<string>,
                              lookup: string -> UserFound, partialSharing: bool, i: nat)
    requires FitsAll(keys, buf, decrypt) && LooksEncrypted(|buf|)
    requires i < |keys| && PadAccepted(decrypt(keys[i], buf))
    requires forall j :: 0 <= j < i ==> !PadAccepted(decrypt(keys[j], buf))
    requires decrypt(keys[i], buf)[16] == 0
    ensures Receive(keys, buf, decrypt, parse, lookup, partialSharing) == OutOfRange
  {
    assert keys + [] == keys;
    FirstAcceptedKeyDecides(keys, [], buf, decrypt, i);
    ZeroAtSixteenGivesEmpty(decrypt(keys[i], buf));
    assert Chars([]) == [];
  }
}
