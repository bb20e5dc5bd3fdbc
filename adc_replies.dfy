/** The tag logic of the structured (ADC) UDP replies: onRES, onDSR, onPSR
    and onPBD (SearchManager.cpp:446-670). Each handler scans the command's
    parameters once, overwriting a variable per tag, and then decides what
    to report. The scans are methods with loops; each is proved equal to a
    specification function stated with LastTagged (the last parameter with
    a tag wins), and the decisions are functions of the scanned fields and
    of what the collaborators answer (user and hub lookups, the download
    queue), which are passed in. */
module AdcReplies {
  import opened Strings
  import opened Numbers
  import opened AdcTags
  import opened LegacyReply
  import opened Correlator
  import opened PartsCodec

  function ValueOr(v: Option<string>, d: string): string {
    match v
    case None => d
    case Some(s) => s
  }

  // ---------------------------------------------------------------- RES

  /** The variables of onRES after its scan. The numeric ones start at -1,
      which marks a missing tag. */
  datatype ResTags = ResTags(file: string, freeSlots: int, size: int, tth: string, token: string)

  function NumberOr(v: Option<string>, d: int): int {
    match v
    case None => d
    case Some(s) => Atoi(s)
  }

  /** FN is stored converted by Util::toNmdcFile. */
  function FileField(v: Option<string>): string {
    match v
    case None => ""
    case Some(s) => NmdcFile(s)
  }

  function ResTagsOf(ps: seq<string>): ResTags {
    ResTags(FileField(LastTagged(ps, "FN")), NumberOr(LastTagged(ps, "SL"), -1),
            NumberOr(LastTagged(ps, "SI"), -1), ValueOr(LastTagged(ps, "TR"), ""),
            ValueOr(LastTagged(ps, "TO"), ""))
  }

  /** The scan loop of onRES (SearchManager.cpp:478-491). */
  method ScanRes(ps: seq<string>) returns (t: ResTags)
    ensures t == ResTagsOf(ps)
  {
    var file, freeSlots, size, tth, token := "", -1, -1, "", "";
    for i := 0 to |ps|
      invariant ResTags(file, freeSlots, size, tth, token) == ResTagsOf(ps[..i])
    {
      var str := ps[i];
      LastTaggedStep(ps, i, "FN");
      LastTaggedStep(ps, i, "SL");
      LastTaggedStep(ps, i, "SI");
      LastTaggedStep(ps, i, "TR");
      LastTaggedStep(ps, i, "TO");
      if HasTag(str, "FN") {
        file := NmdcFile(str[2..]);
      } else if HasTag(str, "SL") {
        freeSlots := Atoi(str[2..]);
      } else if HasTag(str, "SI") {
        size := Atoi(str[2..]);
      } else if HasTag(str, "TR") {
        tth := str[2..];
      } else if HasTag(str, "TO") {
        token := str[2..];
      }
    }
    assert ps[..|ps|] == ps;
    t := ResTags(file, freeSlots, size, tth, token);
  }

  /** Where the result's hash comes from: a Tiger hash of the name and size
      (directories, and everything in LAN mode; the hash itself is not part
      of this model), or the TR value. */
  datatype HashSource = Derived | Given(tth: string)

  /** A RES result as handed to the listeners. `freeSlots` is cast to uint8_t. */
  datatype ResResult = ResResult(kind: Kind, file: string, size: int, freeSlots: int,
                                 hubUrl: string, localToken: string, hash: HashSource)

  /** The decision of onRES (SearchManager.cpp:493-526), given the search
      table for the token lookup. */
  function ResOutcome(t: ResTags, searches: map<string, SearchItem>, lanMode: bool): Option<ResResult> {
    if t.file == "" || t.freeSlots == -1 || t.size == -1 then None
    else
      var kind := if t.file[|t.file| - 1] == '\\' then Directory else File;
      if kind == File && t.tth == "" then None
      else
        var localToken := if t.token in searches then searches[t.token].localToken else "";
        var hub := if t.token in searches then searches[t.token].hubUrl else "";
        Some(ResResult(kind, t.file, t.size, U8(t.freeSlots), hub, localToken,
                       if kind == Directory || lanMode then Derived else Given(t.tth)))
  }

  /** The FN value names a directory: it ends in '/' or '\\'. */
  predicate NamesDirectory(v: string) {
    |v| >= 2 && (v[|v| - 1] == '/' || v[|v| - 1] == '\\')
  }

  /** A RES reply yields a result exactly when its last FN value holds a
      name after the leading '/', its last SL and SI values are present and
      are not -1, and it is a directory or carries a non-empty TR value. */
  lemma ResKeptIff(ps: seq<string>, searches: map<string, SearchItem>, lanMode: bool)
    ensures var fn := LastTagged(ps, "FN");
            var sl := LastTagged(ps, "SL");
            var si := LastTagged(ps, "SI");
            var tr := LastTagged(ps, "TR");
            ResOutcome(ResTagsOf(ps), searches, lanMode).Some? <==>
              && fn.Some? && |fn.value| >= 2
              && sl.Some? && Atoi(sl.value) != -1
              && si.Some? && Atoi(si.value) != -1
              && (NamesDirectory(fn.value) || (tr.Some? && tr.value != ""))
  {
    var t := ResTagsOf(ps);
    var fn := LastTagged(ps, "FN");
    if fn.Some? && |fn.value| >= 2 {
      assert t.file[|t.file| - 1] == '\\' <==> NamesDirectory(fn.value);
    }
  }

  /** A result is a directory exactly when its FN value ends in '/' or '\\',
      and its name is that value without the leading character, with every
      '/' turned into '\\'. */
  lemma ResKindAndName(ps: seq<string>, searches: map<string, SearchItem>, lanMode: bool)
    requires ResOutcome(ResTagsOf(ps), searches, lanMode).Some?
    ensures var r := ResOutcome(ResTagsOf(ps), searches, lanMode).value;
            var fn := LastTagged(ps, "FN").value;
            && (r.kind == Directory <==> NamesDirectory(fn))
            && r.file == NmdcFile(fn)
            && (r.hash.Given? <==> r.kind == File && !lanMode)
            && (r.hash.Given? ==> r.hash.tth == LastTagged(ps, "TR").value && r.hash.tth != "")
  {
  }

  /** The token is only looked up: a token that is not in the table keeps
      the result, with an empty local token and hub. */
  lemma ResUnknownTokenKept(t: ResTags, searches: map<string, SearchItem>, lanMode: bool)
    requires t.token !in searches
    ensures ResOutcome(t, searches, lanMode) == ResOutcome(t, map[], lanMode)
    ensures ResOutcome(t, searches, lanMode).Some? ==>
              ResOutcome(t, searches, lanMode).value.hubUrl == "" &&
              ResOutcome(t, searches, lanMode).value.localToken == ""
  {
  }

  /** A known token ties the result to the search that issued it. */
  lemma ResKnownToken(t: ResTags, searches: map<string, SearchItem>, lanMode: bool)
    requires t.token in searches
    requires ResOutcome(t, searches, lanMode).Some?
    ensures ResOutcome(t, searches, lanMode).value.hubUrl == searches[t.token].hubUrl
    ensures ResOutcome(t, searches, lanMode).value.localToken == searches[t.token].localToken
  {
  }

  /** "SL-1" is indistinguishable from a missing SL: the reply is dropped
      whatever else it carries. */
  lemma ResSlotsMinusOneDrops(ps: seq<string>, searches: map<string, SearchItem>, lanMode: bool)
    requires LastTagged(ps, "SL") == Some("-1")
    ensures ResOutcome(ResTagsOf(ps), searches, lanMode).None?
  {
    assert Atoi("-1") == -1 by {
      AtoiToDecimal(1);
      assert "-1"[1..] == ToDecimal(1);
    }
  }

  // ---------------------------------------------------------------- DSR

  /** What onDSR reports. */
  datatype DsrOutcome = DirectSearchEnd(token: string) | DirectResult(folder: string, token: string) | NoDsr

  /** The decision of onDSR (SearchManager.cpp:446-469): an ED1 flag anywhere
      ends the direct search with the first TO value from the second
      parameter on; otherwise a result needs the last FN and TO values both
      non-empty. */
  function DsrOutcomeOf(ps: seq<string>): DsrOutcome {
    if HasFlag(ps, "ED", 0) then DirectSearchEnd(ValueOr(FirstTaggedFrom(ps, "TO", 1), ""))
    else
      var folder := ValueOr(LastTagged(ps, "FN"), "");
      var token := ValueOr(LastTagged(ps, "TO"), "");
      if folder != "" && token != "" then DirectResult(folder, token) else NoDsr
  }

  /** onDSR with its scan loop. */
  method OnDsr(ps: seq<string>) returns (o: DsrOutcome)
    ensures o == DsrOutcomeOf(ps)
  {
    if HasFlag(ps, "ED", 0) {
      o := DirectSearchEnd(ValueOr(FirstTaggedFrom(ps, "TO", 1), ""));
      return;
    }
    var folderName, token := "", "";
    for i := 0 to |ps|
      invariant folderName == ValueOr(LastTagged(ps[..i], "FN"), "")
      invariant token == ValueOr(LastTagged(ps[..i], "TO"), "")
    {
      var str := ps[i];
      LastTaggedStep(ps, i, "FN");
      LastTaggedStep(ps, i, "TO");
      if HasTag(str, "FN") {
        folderName := str[2..];
      } else if HasTag(str, "TO") {
        token := str[2..];
      }
    }
    assert ps[..|ps|] == ps;
    if folderName != "" && token != "" {
      o := DirectResult(folderName, token);
    } else {
      o := NoDsr;
    }
  }

  /** A direct result is reported exactly when there is no ED1 flag and the
      last FN and TO values are both present and non-empty. */
  lemma DsrResultIff(ps: seq<string>)
    ensures DsrOutcomeOf(ps).DirectResult? <==>
              !HasFlag(ps, "ED", 0) &&
              LastTagged(ps, "FN").Some? && LastTagged(ps, "FN").value != "" &&
              LastTagged(ps, "TO").Some? && LastTagged(ps, "TO").value != ""
    ensures DsrOutcomeOf(ps).DirectSearchEnd? <==> HasFlag(ps, "ED", 0)
  {
  }

  /** The end marker's token is searched for from the second parameter on,
      so a TO in the first position is not seen. */
  lemma DsrEndSkipsFirstParameter()
    ensures DsrOutcomeOf(["TOabc", "ED1"]) == DirectSearchEnd("")
    ensures DsrOutcomeOf(["ED1", "TOabc"]) == DirectSearchEnd("abc")
  {
    var a := ["TOabc", "ED1"];
    assert HasTag(a[1], "ED") && |a[1]| == 3 && a[1][2] == '1';
    assert !HasTag(a[1], "TO");
    assert FirstTaggedFrom(a, "TO", 2).None?;
    var b := ["ED1", "TOabc"];
    assert HasTag(b[0], "ED") && |b[0]| == 3 && b[0][2] == '1';
    assert HasTag(b[1], "TO");
  }

  // ---------------------------------------------------------------- PSR

  /** The variables of onPSR after its scan. The port is kept as its
      decimal text (PortText), not as the single character the source
      stores (PortField). */
  datatype PsrTags = PsrTags(udpPort: string, partialCount: int, tth: string,
                             hubIpPort: string, nick: string, parts: seq<nat>)

  /** `udpPort = static_cast<uint16_t>(Util::toInt(v))` assigns the number to
      a std::string, which takes it as a single char: the port's low byte. */
  function PortField(v: Option<string>): string {
    match v
    case None => ""
    case Some(s) => [U8(U16(Atoi(s))) as char]
  }

  /** As written, the recorded port keeps only the low byte of the number,
      as one character: port 1511 is recorded as the single character 231,
      which reads back as 0. */
  lemma PortFieldLosesPort(v: string)
    requires v == ToDecimal(1511)
    ensures PortField(Some(v)) == [231 as char]
    ensures Atoi(PortField(Some(v))) == 0
  {
    AtoiToDecimal(1511);
    var c := PortField(Some(v));
    assert LeadingDigits(c) == [];
  }

  /** The port as the decimal text of its uint16_t value, which is what
      setIPUser and the partial source expect. */
  function PortText(v: Option<string>): string {
    match v
    case None => ""
    case Some(s) => ToDecimal(U16(Atoi(s)))
  }

  /** The decimal text keeps the port: it is present exactly when U4 is,
      and reads back as the port that was sent. */
  lemma PortTextKeepsPort(n: nat)
    requires n < Two16
    ensures PortText(Some(ToDecimal(n))) != ""
    ensures Atoi(PortText(Some(ToDecimal(n)))) == n
    ensures PortText(None) == ""
  {
    AtoiToDecimal(n);
    AtoiToDecimal(U16(n));
  }

  /** Both forms are empty exactly when U4 is missing, so the decisions of
      onPSR, which only test the port for emptiness, are the same. */
  lemma PortFormsAgreeOnPresence(v: Option<string>)
    ensures PortField(v) == "" <==> PortText(v) == ""
  {
  }

  /** `Util::toUInt32(v) * 2`, computed in uint32_t; 0 when PC is missing. */
  function CountField(v: Option<string>): int {
    match v
    case None => 0
    case Some(s) => U32(U32(Atoi(s)) * 2)
  }

  /** The part values of one PI parameter, each cast to uint16_t. */
  function PartValues(toks: seq<string>): (vs: seq<nat>)
    ensures |vs| == |toks|
    ensures forall k :: 0 <= k < |vs| ==> vs[k] == U16(Atoi(toks[k]))
  {
    seq(|toks|, k requires 0 <= k < |toks| => U16(Atoi(toks[k])) as nat)
  }

  /** Every PI parameter adds its values: PI is not last-wins. */
  function PiValues(ps: seq<string>): seq<nat> {
    if ps == [] then []
    else PiValues(ps[..|ps| - 1]) +
         (if HasTag(ps[|ps| - 1], "PI") then PartValues(Tokens(ps[|ps| - 1][2..], ',')) else [])
  }

  function PsrTagsOf(ps: seq<string>): PsrTags {
    PsrTags(PortText(LastTagged(ps, "U4")), CountField(LastTagged(ps, "PC")),
            ValueOr(LastTagged(ps, "TR"), ""), ValueOr(LastTagged(ps, "HI"), ""),
            ValueOr(LastTagged(ps, "NI"), ""), PiValues(ps))
  }

  /** One more parameter adds its values when it is a PI parameter. */
  lemma PiValuesStep(ps: seq<string>, i: nat)
    requires i < |ps|
    ensures PiValues(ps[..i + 1]) ==
              PiValues(ps[..i]) + if HasTag(ps[i], "PI") then PartValues(Tokens(ps[i][2..], ',')) else []
  {
    assert ps[..i + 1][..i] == ps[..i];
  }

  /** The inner loop of onPSR: every token of a PI value, cast to uint16_t,
      is appended to the part list. */
  method AppendParts(parts: seq<nat>, toks: seq<string>) returns (r: seq<nat>)
    ensures r == parts + PartValues(toks)
  {
    r := parts;
    var j := 0;
    while j < |toks|
      invariant j <= |toks|
      invariant r == parts + PartValues(toks[..j])
    {
      assert PartValues(toks[..j + 1]) == PartValues(toks[..j]) + [U16(Atoi(toks[j]))];
      r := r + [U16(Atoi(toks[j]))];
      j := j + 1;
    }
    assert toks[..j] == toks;
  }

  /** The scan loop of onPSR (SearchManager.cpp:626-644), with the port
      recorded as decimal text. */
  method ScanPsr(ps: seq<string>) returns (t: PsrTags)
    ensures t == PsrTagsOf(ps)
  {
    var udpPort, partialCount, tth, hubIpPort, nick := "", 0, "", "", "";
    var parts: seq<nat> := [];
    for i := 0 to |ps|
      invariant udpPort == PortText(LastTagged(ps[..i], "U4"))
      invariant partialCount == CountField(LastTagged(ps[..i], "PC"))
      invariant tth == ValueOr(LastTagged(ps[..i], "TR"), "")
      invariant hubIpPort == ValueOr(LastTagged(ps[..i], "HI"), "")
      invariant nick == ValueOr(LastTagged(ps[..i], "NI"), "")
      invariant parts == PiValues(ps[..i])
    {
      var str := ps[i];
      LastTaggedStep(ps, i, "U4");
      LastTaggedStep(ps, i, "NI");
      LastTaggedStep(ps, i, "HI");
      LastTaggedStep(ps, i, "TR");
      LastTaggedStep(ps, i, "PC");
      PiValuesStep(ps, i);
      if HasTag(str, "U4") {
        udpPort := ToDecimal(U16(Atoi(str[2..])));
      } else if HasTag(str, "NI") {
        nick := str[2..];
      } else if HasTag(str, "HI") {
        hubIpPort := str[2..];
      } else if HasTag(str, "TR") {
        tth := str[2..];
      } else if HasTag(str, "PC") {
        partialCount := U32(U32(Atoi(str[2..])) * 2);
      } else if HasTag(str, "PI") {
        parts := AppendParts(parts, Tokens(str[2..], ','));
      }
    }
    assert ps[..|ps|] == ps;
    t := PsrTags(udpPort, partialCount, tth, hubIpPort, nick, parts);
  }

  /** What onPSR does with a scanned reply. `PsrDropped(ipRecorded)` says
      whether the sender's address was recorded before the drop. */
  datatype PsrAction = PsrDropped(ipRecorded: bool) | PsrHandled(parts: seq<nat>, reply: Option<UdpCommand>)

  /** The decision of onPSR (SearchManager.cpp:646-669). `adcUser`: the CID
      named a user other than ourselves; otherwise the sender is looked up
      as an NMDC user by nick and hub (`nmdcUserFound`). `senderIsNmdc` is
      `from->isNMDC()` for the sender finally resolved. `outParts` are the
      parts the download queue offers back and `myNick` our nick on that
      hub, both answered by collaborators; the reply carries our nick only
      to an NMDC sender. */
  function PsrOutcome(t: PsrTags, adcUser: bool, nmdcUserFound: bool, senderIsNmdc: bool,
                      outParts: seq<nat>, myNick: string): PsrAction
    requires |outParts| % 2 == 0
  {
    var replyNick := if senderIsNmdc then myNick else "";
    if !adcUser && (t.nick == "" || t.hubIpPort == "") then PsrDropped(false)
    else if !adcUser && !nmdcUserFound then PsrDropped(false)
    else if |t.parts| != t.partialCount then PsrDropped(true)
    else PsrHandled(t.parts,
                    if t.udpPort != "" && outParts != []
                    then Some(ToPsr(false, false, "", replyNick, t.hubIpPort, t.tth, outParts))
                    else None)
  }

  /** The part list is accepted exactly when the number of values is twice
      the PC value (in uint32_t) and the sender is known; a reply goes back
      only when U4 was present and the queue offered parts, and it never
      asks for a response (U4 is "0"). The reply opens with NI and our
      nick only for an NMDC sender with a nick on that hub, and with HI
      otherwise. */
  lemma PsrHandledIff(t: PsrTags, adcUser: bool, nmdcUserFound: bool, senderIsNmdc: bool,
                      outParts: seq<nat>, myNick: string)
    requires |outParts| % 2 == 0
    ensures var a := PsrOutcome(t, adcUser, nmdcUserFound, senderIsNmdc, outParts, myNick);
            && (a.PsrHandled? <==>
                  (adcUser || (t.nick != "" && t.hubIpPort != "" && nmdcUserFound)) &&
                  |t.parts| == t.partialCount)
            && (a.PsrHandled? ==> a.parts == t.parts)
            && (a.PsrHandled? ==> (a.reply.Some? <==> t.udpPort != "" && outParts != []))
            && (a.PsrHandled? && a.reply.Some? ==> "U40" in a.reply.value.params)
            && (a.PsrHandled? && a.reply.Some? ==>
                  a.reply.value.params[0] ==
                    (if senderIsNmdc && myNick != "" then "NI" + myNick else "HI" + t.hubIpPort))
  {
    var a := PsrOutcome(t, adcUser, nmdcUserFound, senderIsNmdc, outParts, myNick);
    if a.PsrHandled? && a.reply.Some? {
      var ps := a.reply.value.params;
      var k := if senderIsNmdc && myNick != "" then 2 else 1;
      assert ps[k] == "U40";
    }
  }

  // ---------------------------------------------------------------- PBD

  /** The variables of onPBD after its scan. */
  datatype PbdTags = PbdTags(hubIpPort: string, remoteBundle: string, tth: string,
                             update: bool, add: bool, reply: bool, notify: bool, remove: bool)

  function PbdTagsOf(ps: seq<string>): PbdTags {
    PbdTags(ValueOr(LastTagged(ps, "HI"), ""), ValueOr(LastTagged(ps, "BU"), ""),
            ValueOr(LastTagged(ps, "TH"), ""),
            LastTagged(ps, "UP").Some?, LastTagged(ps, "AD").Some?, LastTagged(ps, "RE").Some?,
            LastTagged(ps, "NO").Some?, LastTagged(ps, "RM").Some?)
  }

  /** The scan loop of onPBD (SearchManager.cpp:548-570): the flags are set
      by the tag alone, whatever follows it. */
  method ScanPbd(ps: seq<string>) returns (t: PbdTags)
    ensures t == PbdTagsOf(ps)
  {
    var hubIpPort, remoteBundle, tth := "", "", "";
    var update, add, reply, notify, remove := false, false, false, false, false;
    for i := 0 to |ps|
      invariant PbdTags(hubIpPort, remoteBundle, tth, update, add, reply, notify, remove) == PbdTagsOf(ps[..i])
    {
      var str := ps[i];
      PbdTagsStep(ps, i);
      if HasTag(str, "HI") {
        hubIpPort := str[2..];
      } else if HasTag(str, "BU") {
        remoteBundle := str[2..];
      } else if HasTag(str, "TH") {
        tth := str[2..];
      } else if HasTag(str, "UP") {
        update := true;
      } else if HasTag(str, "AD") {
        add := true;
      } else if HasTag(str, "RE") {
        reply := true;
      } else if HasTag(str, "NO") {
        notify := true;
      } else if HasTag(str, "RM") {
        remove := true;
      }
    }
    assert ps[..|ps|] == ps;
    t := PbdTags(hubIpPort, remoteBundle, tth, update, add, reply, notify, remove);
  }

  /** One more parameter changes the one field its tag names; the tags are
      tried in the order of onPBD, so each parameter sets at most one field. */
  lemma PbdTagsStep(ps: seq<string>, i: nat)
    requires i < |ps|
    ensures var t, str := PbdTagsOf(ps[..i]), ps[i];
            PbdTagsOf(ps[..i + 1]) ==
              if HasTag(str, "HI") then t.(hubIpPort := str[2..])
              else if HasTag(str, "BU") then t.(remoteBundle := str[2..])
              else if HasTag(str, "TH") then t.(tth := str[2..])
              else if HasTag(str, "UP") then t.(update := true)
              else if HasTag(str, "AD") then t.(add := true)
              else if HasTag(str, "RE") then t.(reply := true)
              else if HasTag(str, "NO") then t.(notify := true)
              else if HasTag(str, "RM") then t.(remove := true)
              else t
  {
    LastTaggedStep(ps, i, "HI");
    LastTaggedStep(ps, i, "BU");
    LastTaggedStep(ps, i, "TH");
    LastTaggedStep(ps, i, "UP");
    LastTaggedStep(ps, i, "AD");
    LastTaggedStep(ps, i, "RE");
    LastTaggedStep(ps, i, "NO");
    LastTaggedStep(ps, i, "RM");
  }

  /** The download queue's answer to checkPBDReply when it accepts: our
      bundle, and the notify and add flags to send back. */
  datatype PbdCheck = PbdCheck(localBundle: string, notify: bool, add: bool)

  /** The calls onPBD makes, in order. The hub hint of each is the user
      together with the hub found for `hubIpPort`. */
  datatype PbdEvent =
    | RemoveBundleNotify(bundle: string)
    | UpdatePbd(hubIpPort: string, tth: string)
    | AddFinishedNotify(hubIpPort: string, tth: string, bundle: string)
    | CheckPbdReply(hubIpPort: string, tth: string, bundle: string)
    | SendPbd(cmd: UdpCommand)
    | AddBundleTthList(hubIpPort: string, bundle: string, tth: string)

  /** The decisions of onPBD (SearchManager.cpp:572-614). `check` is the
      queue's answer to checkPBDReply: None when it declines. */
  function PbdEffects(t: PbdTags, check: Option<PbdCheck>): seq<PbdEvent> {
    var removal := if t.remove && t.remoteBundle != "" then [RemoveBundleNotify(t.remoteBundle)] else [];
    if t.tth == "" then removal
    else if t.update then removal + [UpdatePbd(t.hubIpPort, t.tth)]
    else if t.remoteBundle == "" then removal
    else
      removal +
      (if t.notify then [AddFinishedNotify(t.hubIpPort, t.tth, t.remoteBundle)]
       else if t.reply then
         [CheckPbdReply(t.hubIpPort, t.tth, t.remoteBundle)] +
         (match check
          case None => []
          case Some(c) => [SendPbd(ToPbd(t.hubIpPort, c.localBundle, t.tth, false, c.add, c.notify))])
       else []) +
      (if t.add then [AddBundleTthList(t.hubIpPort, t.remoteBundle, t.tth)] else [])
  }

  /** Without a TH value, at most the notification removal happens. */
  lemma PbdWithoutTth(t: PbdTags, check: Option<PbdCheck>)
    requires t.tth == ""
    ensures PbdEffects(t, check) == if t.remove && t.remoteBundle != "" then [RemoveBundleNotify(t.remoteBundle)] else []
  {
  }

  /** UP takes precedence over every other flag: only the update follows
      the optional removal, even when AD, NO or RE are present. */
  lemma PbdUpdateExclusive(t: PbdTags, check: Option<PbdCheck>)
    requires t.tth != "" && t.update
    ensures var e := PbdEffects(t, check);
            && e[|e| - 1] == UpdatePbd(t.hubIpPort, t.tth)
            && forall k :: 0 <= k < |e| ==> !e[k].AddBundleTthList? && !e[k].SendPbd? && !e[k].AddFinishedNotify?
  {
  }

  /** A reply sent back carries the queue's add and notify flags, while the
      TTH list is added according to the incoming AD flag. */
  lemma PbdReplyFlags(t: PbdTags, c: PbdCheck)
    requires t.tth != "" && !t.update && t.remoteBundle != "" && !t.notify && t.reply
    ensures var e := PbdEffects(t, Some(c));
            && SendPbd(ToPbd(t.hubIpPort, c.localBundle, t.tth, false, c.add, c.notify)) in e
            && (AddBundleTthList(t.hubIpPort, t.remoteBundle, t.tth) in e <==> t.add)
  {
    var e := PbdEffects(t, Some(c));
    var removal := if t.remove then [RemoveBundleNotify(t.remoteBundle)] else [];
    var send := SendPbd(ToPbd(t.hubIpPort, c.localBundle, t.tth, false, c.add, c.notify));
    assert e == removal + ([CheckPbdReply(t.hubIpPort, t.tth, t.remoteBundle)] + [send]) +
                (if t.add then [AddBundleTthList(t.hubIpPort, t.remoteBundle, t.tth)] else []);
    assert e[|removal| + 1] == send;
  }
}
