/** Round trips between the outbound partial-sharing commands (PartsCodec)
    and the scans of their receiving handlers (AdcReplies): what toPSR and
    toPBD put into a command is what onPSR and onPBD read back out of it. */
module RoundTrip {
  import opened Strings
  import opened Numbers
  import opened AdcTags
  import opened PartsCodec
  import opened AdcReplies

  /** A parameter built as tag + value carries the tag and the value. */
  lemma Tagged(tag: string, v: string)
    requires |tag| == 2
    ensures |tag + v| >= 2 && (tag + v)[0] == tag[0] && (tag + v)[1] == tag[1] && (tag + v)[2..] == v
  {
  }

  /** The only parameter with a tag gives the last value of that tag. */
  lemma LastTaggedAt(ps: seq<string>, i: nat, tag: string)
    requires i < |ps| && HasTag(ps[i], tag)
    requires forall k :: i < k < |ps| ==> !HasTag(ps[k], tag)
    ensures LastTagged(ps, tag) == Some(ps[i][2..])
  {
  }

  /** No parameter with a tag: the tag has no value. */
  lemma UntaggedNone(ps: seq<string>, tag: string)
    requires forall k :: 0 <= k < |ps| ==> !HasTag(ps[k], tag)
    ensures LastTagged(ps, tag).None?
  {
  }

  lemma {:induction false} PiValuesAbsent(ps: seq<string>)
    requires forall k :: 0 <= k < |ps| ==> !HasTag(ps[k], "PI")
    ensures PiValues(ps) == []
    decreases |ps|
  {
    if ps != [] {
      PiValuesAbsent(ps[..|ps| - 1]);
    }
  }

  /** A decimal number holds no comma. */
  lemma DecimalHasNoComma(n: nat)
    ensures ',' !in ToDecimal(n)
  {
  }

  /** Splitting the part list text at the commas gives the decimal text of
      every value back. */
  lemma PartsTokens(parts: seq<nat>)
    requires |parts| % 2 == 0
    ensures Tokens(PartsString(parts), ',') == Decimals(parts)
  {
    var ds := Decimals(parts);
    forall k | 0 <= k < |ds|
      ensures ds[k] != [] && ',' !in ds[k]
    {
      DecimalHasNoComma(parts[k]);
    }
    TokensJoin(ds, ',');
  }

  /** Reading the part list text back, with the uint16_t cast of onPSR, gives
      the values that were written, as long as each fits in 16 bits. */
  lemma PartsRoundTrip(parts: seq<nat>)
    requires |parts| % 2 == 0
    requires forall k :: 0 <= k < |parts| ==> parts[k] < Two16
    ensures PartValues(Tokens(PartsString(parts), ',')) == parts
  {
    PartsTokens(parts);
    var vs := PartValues(Decimals(parts));
    forall k | 0 <= k < |parts|
      ensures vs[k] == parts[k]
    {
      AtoiToDecimal(parts[k]);
    }
  }

  /** Where toPSR puts each parameter: NI first when there is a nick, then
      HI, U4, TR, PC and PI. */
  lemma PsrLayout(wantResponse: bool, active: bool, port: string, myNick: string,
                  hubIpPort: string, tth: string, parts: seq<nat>)
    requires |parts| % 2 == 0
    ensures var ps := ToPsr(wantResponse, active, port, myNick, hubIpPort, tth, parts).params;
            var o := if myNick != "" then 1 else 0;
            && |ps| == 5 + o
            && (myNick != "" ==> HasTag(ps[0], "NI") && ps[0][2..] == myNick)
            && HasTag(ps[o], "HI") && ps[o][2..] == hubIpPort
            && HasTag(ps[o + 1], "U4") && ps[o + 1][2..] == (if wantResponse && active then port else "0")
            && HasTag(ps[o + 2], "TR") && ps[o + 2][2..] == tth
            && HasTag(ps[o + 3], "PC") && ps[o + 3][2..] == ToDecimal(|parts| / 2)
            && HasTag(ps[o + 4], "PI") && ps[o + 4][2..] == PartsString(parts)
  {
    var ps := ToPsr(wantResponse, active, port, myNick, hubIpPort, tth, parts).params;
    var o := if myNick != "" then 1 else 0;
    assert ps[o] == "HI" + hubIpPort && ps[o + 1] == "U4" + (if wantResponse && active then port else "0");
    assert ps[o + 2] == "TR" + tth && ps[o + 3] == "PC" + ToDecimal(|parts| / 2);
    assert ps[o + 4] == "PI" + PartsString(parts);
    if myNick != "" {
      Tagged("NI", myNick);
    }
    Tagged("HI", hubIpPort);
    Tagged("U4", if wantResponse && active then port else "0");
    Tagged("TR", tth);
    Tagged("PC", ToDecimal(|parts| / 2));
    Tagged("PI", PartsString(parts));
  }

  /** toPSR then the scan of onPSR: the nick (empty when none was sent), the
      hub address and the TTH come back. */
  lemma PsrNamesBack(wantResponse: bool, active: bool, port: string, myNick: string,
                     hubIpPort: string, tth: string, parts: seq<nat>)
    requires |parts| % 2 == 0
    ensures var t := PsrTagsOf(ToPsr(wantResponse, active, port, myNick, hubIpPort, tth, parts).params);
            t.nick == myNick && t.hubIpPort == hubIpPort && t.tth == tth
  {
    var ps := ToPsr(wantResponse, active, port, myNick, hubIpPort, tth, parts).params;
    var o := if myNick != "" then 1 else 0;
    PsrLayout(wantResponse, active, port, myNick, hubIpPort, tth, parts);
    LastTaggedAt(ps, o, "HI");
    LastTaggedAt(ps, o + 2, "TR");
    if myNick != "" {
      LastTaggedAt(ps, 0, "NI");
    } else {
      assert LastTagged(ps, "NI").None?;
    }
  }

  /** toPSR then the scan of onPSR: U4 and PC are read back. */
  lemma PsrCountsBack(wantResponse: bool, active: bool, port: string, myNick: string,
                      hubIpPort: string, tth: string, parts: seq<nat>)
    requires |parts| % 2 == 0 && |parts| < Two32
    ensures var t := PsrTagsOf(ToPsr(wantResponse, active, port, myNick, hubIpPort, tth, parts).params);
            && t.partialCount == |parts|
            && t.udpPort == PortText(Some(if wantResponse && active then port else "0"))
  {
    PsrPortBack(wantResponse, active, port, myNick, hubIpPort, tth, parts);
    PsrCountBack(wantResponse, active, port, myNick, hubIpPort, tth, parts);
  }

  /** The U4 parameter toPSR writes is the port read back. */
  lemma PsrPortBack(wantResponse: bool, active: bool, port: string, myNick: string,
                    hubIpPort: string, tth: string, parts: seq<nat>)
    requires |parts| % 2 == 0
    ensures PsrTagsOf(ToPsr(wantResponse, active, port, myNick, hubIpPort, tth, parts).params).udpPort
            == PortText(Some(if wantResponse && active then port else "0"))
  {
    var ps := ToPsr(wantResponse, active, port, myNick, hubIpPort, tth, parts).params;
    PsrLayout(wantResponse, active, port, myNick, hubIpPort, tth, parts);
    LastTaggedAt(ps, (if myNick != "" then 1 else 0) + 1, "U4");
  }

  /** The PC parameter toPSR writes, doubled, is the number of values. */
  lemma PsrCountBack(wantResponse: bool, active: bool, port: string, myNick: string,
                     hubIpPort: string, tth: string, parts: seq<nat>)
    requires |parts| % 2 == 0 && |parts| < Two32
    ensures PsrTagsOf(ToPsr(wantResponse, active, port, myNick, hubIpPort, tth, parts).params).partialCount
            == |parts|
  {
    var ps := ToPsr(wantResponse, active, port, myNick, hubIpPort, tth, parts).params;
    PsrLayout(wantResponse, active, port, myNick, hubIpPort, tth, parts);
    LastTaggedAt(ps, (if myNick != "" then 1 else 0) + 3, "PC");
    AtoiToDecimal(|parts| / 2);
  }

  /** toPSR then the scan of onPSR: the parts come back and their number
      passes the size check, as long as every value fits in 16 bits and the
      count in 32; the nick (empty when none was sent), the hub address and
      the TTH come back too, and a port is always present, "0" when no
      response is wanted. */
  lemma PsrRoundTrip(wantResponse: bool, active: bool, port: string, myNick: string,
                     hubIpPort: string, tth: string, parts: seq<nat>)
    requires |parts| % 2 == 0 && |parts| < Two32
    requires forall k :: 0 <= k < |parts| ==> parts[k] < Two16
    ensures var t := PsrTagsOf(ToPsr(wantResponse, active, port, myNick, hubIpPort, tth, parts).params);
            && t.nick == myNick && t.hubIpPort == hubIpPort && t.tth == tth
            && t.parts == parts && t.partialCount == |parts|
            && t.udpPort == PortText(Some(if wantResponse && active then port else "0"))
  {
    PsrNamesBack(wantResponse, active, port, myNick, hubIpPort, tth, parts);
    PsrCountsBack(wantResponse, active, port, myNick, hubIpPort, tth, parts);
    PsrPiBack(wantResponse, active, port, myNick, hubIpPort, tth, parts);
  }

  /** The PI parameter toPSR writes reads back as the parts. */
  lemma PsrPiBack(wantResponse: bool, active: bool, port: string, myNick: string,
                  hubIpPort: string, tth: string, parts: seq<nat>)
    requires |parts| % 2 == 0
    requires forall k :: 0 <= k < |parts| ==> parts[k] < Two16
    ensures PsrTagsOf(ToPsr(wantResponse, active, port, myNick, hubIpPort, tth, parts).params).parts == parts
  {
    var ps := ToPsr(wantResponse, active, port, myNick, hubIpPort, tth, parts).params;
    PsrLayout(wantResponse, active, port, myNick, hubIpPort, tth, parts);
    PsrPartsBack(ps, if myNick != "" then 1 else 0, parts);
  }

  /** Only the last parameter is a PI parameter, so the parts are its values. */
  lemma PsrPartsBack(ps: seq<string>, o: nat, parts: seq<nat>)
    requires |parts| % 2 == 0
    requires forall k :: 0 <= k < |parts| ==> parts[k] < Two16
    requires |ps| == 5 + o
    requires forall k :: 0 <= k < 4 + o ==> !HasTag(ps[k], "PI")
    requires HasTag(ps[o + 4], "PI") && ps[o + 4][2..] == PartsString(parts)
    ensures PiValues(ps) == parts
  {
    assert ps[..4 + o] == ps[..|ps| - 1];
    PiValuesAbsent(ps[..4 + o]);
    PartsRoundTrip(parts);
  }

  /** Where toPBD puts each parameter: HI, BU and TH, then at most one of
      NO1 and RE1, then AD1 when adding. */
  lemma PbdLayout(hubIpPort: string, bundle: string, tth: string, reply: bool, add: bool, notify: bool)
    ensures var ps := ToPbd(hubIpPort, bundle, tth, reply, add, notify).params;
            var f := if notify || reply then 1 else 0;
            && |ps| == 3 + f + (if add then 1 else 0)
            && HasTag(ps[0], "HI") && ps[0][2..] == hubIpPort
            && HasTag(ps[1], "BU") && ps[1][2..] == bundle
            && HasTag(ps[2], "TH") && ps[2][2..] == tth
            && (notify ==> ps[3] == "NO1")
            && (!notify && reply ==> ps[3] == "RE1")
            && (add ==> ps[3 + f] == "AD1")
  {
    var ps := ToPbd(hubIpPort, bundle, tth, reply, add, notify).params;
    assert ps[0] == "HI" + hubIpPort && ps[1] == "BU" + bundle && ps[2] == "TH" + tth;
    Tagged("HI", hubIpPort);
    Tagged("BU", bundle);
    Tagged("TH", tth);
  }

  /** toPBD then the scan of onPBD: hub, bundle and TTH come back. */
  lemma PbdNamesBack(hubIpPort: string, bundle: string, tth: string, reply: bool, add: bool, notify: bool)
    ensures var t := PbdTagsOf(ToPbd(hubIpPort, bundle, tth, reply, add, notify).params);
            t.hubIpPort == hubIpPort && t.remoteBundle == bundle && t.tth == tth
  {
    var ps := ToPbd(hubIpPort, bundle, tth, reply, add, notify).params;
    PbdLayout(hubIpPort, bundle, tth, reply, add, notify);
    LastTaggedAt(ps, 0, "HI");
    LastTaggedAt(ps, 1, "BU");
    LastTaggedAt(ps, 2, "TH");
  }

  /** toPBD then the scan of onPBD: NO is set exactly for a notification, RE
      only for a reply that is not a notification, AD exactly when requested,
      and never UP or RM. */
  lemma PbdFlagsBack(hubIpPort: string, bundle: string, tth: string, reply: bool, add: bool, notify: bool)
    ensures var t := PbdTagsOf(ToPbd(hubIpPort, bundle, tth, reply, add, notify).params);
            && !t.update && !t.remove
            && t.notify == notify && t.reply == (reply && !notify) && t.add == add
  {
    var ps := ToPbd(hubIpPort, bundle, tth, reply, add, notify).params;
    var f := if notify || reply then 1 else 0;
    PbdLayout(hubIpPort, bundle, tth, reply, add, notify);
    assert forall k :: 3 <= k < |ps| ==> ps[k] == (if k == 3 + f then "AD1" else if notify then "NO1" else "RE1");
    UntaggedNone(ps, "UP");
    UntaggedNone(ps, "RM");
    if notify {
      LastTaggedAt(ps, 3, "NO");
    } else {
      UntaggedNone(ps, "NO");
    }
    if reply && !notify {
      LastTaggedAt(ps, 3, "RE");
    } else {
      UntaggedNone(ps, "RE");
    }
    if add {
      LastTaggedAt(ps, 3 + f, "AD");
    } else {
      UntaggedNone(ps, "AD");
    }
  }

  /** toPBD then the scan of onPBD gives back what was sent. */
  lemma PbdRoundTrip(hubIpPort: string, bundle: string, tth: string, reply: bool, add: bool, notify: bool)
    ensures PbdTagsOf(ToPbd(hubIpPort, bundle, tth, reply, add, notify).params) ==
              PbdTags(hubIpPort, bundle, tth, false, add, reply && !notify, notify, false)
  {
    PbdNamesBack(hubIpPort, bundle, tth, reply, add, notify);
    PbdFlagsBack(hubIpPort, bundle, tth, reply, add, notify);
  }

  /** A PC value is doubled in uint32_t, so a peer announcing 2^31 + 2
      pairs passes the size check with four part values. */
  lemma PartialCountWraps(n: nat)
    requires n == 2147483650
    ensures CountField(Some(ToDecimal(n))) == 4
  {
    AtoiToDecimal(n);
    assert U32(n) * 2 == 4294967300;
    assert U32(4294967300) == 4294967300 - Two32;
  }
}
