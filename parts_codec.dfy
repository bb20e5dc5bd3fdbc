/** The outbound partial-sharing commands of SearchManager
    (SearchManager.cpp:772-814): the comma-separated part list, and the
    parameters of the PSR (partial search result) and PBD (partial bundle)
    UDP commands. Their decoding is in AdcReplies; the round trips are
    proved in RoundTrip. */
module PartsCodec {
  import opened Numbers
  import opened AdcTags

  /** A command as built by `AdcCommand(cmd, TYPE_UDP)` and `addParam`: its
      three-letter verb and its parameters in order. Escaping and the wire
      form belong to AdcCommand, which is not part of this model. */
  datatype UdpCommand = UdpCommand(verb: string, params: seq<string>)

  /** The decimal text of every part value. */
  function Decimals(parts: seq<nat>): (ds: seq<string>)
    ensures |ds| == |parts|
    ensures forall k :: 0 <= k < |ds| ==> ds[k] == ToDecimal(parts[k])
  {
    seq(|parts|, k requires 0 <= k < |parts| => ToDecimal(parts[k]))
  }

  /** `getPartsString`: the values in decimal, separated by commas, with no
      trailing comma; "" for no parts. The loop reads the values two at a
      time, so the list must have even length. */
  function PartsString(parts: seq<nat>): string
    requires |parts| % 2 == 0
  {
    Join(Decimals(parts), ',')
  }

  /** The loop of getPartsString: append "a,b," for every pair, then drop the
      last character (for an empty string, `substr(0, npos)` keeps it empty). */
  method GetPartsString(parts: seq<nat>) returns (s: string)
    requires |parts| % 2 == 0
    ensures s == PartsString(parts)
  {
    var ret: string := [];
    var i := 0;
    while i < |parts|
      invariant i <= |parts| && i % 2 == 0
      invariant i == 0 ==> ret == []
      invariant i > 0 ==> ret == Join(Decimals(parts[..i]), ',') + ","
    {
      var a := ToDecimal(parts[i]);
      var b := ToDecimal(parts[i + 1]);
      PairStep(parts, i);
      ret := ret + a + "," + b + ",";
      i := i + 2;
    }
    assert parts[..i] == parts;
    if ret == [] {
      s := ret;
    } else {
      s := ret[..|ret| - 1];
    }
  }

  /** One more pair extends the joined text by ",a,b" (or starts it as "a,b"). */
  lemma PairStep(parts: seq<nat>, i: nat)
    requires i + 1 < |parts|
    ensures var j := Join(Decimals(parts[..i + 2]), ',');
            var a := ToDecimal(parts[i]);
            var b := ToDecimal(parts[i + 1]);
            && (i == 0 ==> j == a + "," + b)
            && (i > 0 ==> j == Join(Decimals(parts[..i]), ',') + "," + a + "," + b)
  {
    var ds := Decimals(parts[..i]);
    var a := ToDecimal(parts[i]);
    var b := ToDecimal(parts[i + 1]);
    assert Decimals(parts[..i + 2]) == ds + [a] + [b];
    if i == 0 {
      assert Decimals(parts[..i + 2]) == [a, b];
      assert Join([b], ',') == b;
    } else {
      JoinSnoc(ds, a, ',');
      JoinSnoc(ds + [a], b, ',');
    }
  }

  /** `toPSR(wantResponse, myNick, hubIpPort, tth, partialInfo)`. NI only for
      a non-empty nick; U4 is our UDP port only when a response is wanted and
      the hub sees us as active (`active`, a ClientManager query), else "0";
      PC is the number of part pairs. The nick's charset conversion is not
      part of this model. */
  function ToPsr(wantResponse: bool, active: bool, port: string, myNick: string,
                 hubIpPort: string, tth: string, parts: seq<nat>): (c: UdpCommand)
    requires |parts| % 2 == 0
    ensures c.verb == "PSR"
  {
    UdpCommand("PSR",
      (if myNick != "" then ["NI" + myNick] else []) +
      ["HI" + hubIpPort,
       "U4" + (if wantResponse && active then port else "0"),
       "TR" + tth,
       "PC" + ToDecimal(|parts| / 2),
       "PI" + PartsString(parts)])
  }

  /** `toPBD(hubIpPort, bundle, tth, reply, add, notify)`: NO1 wins over RE1;
      AD1 is independent of both. */
  function ToPbd(hubIpPort: string, bundle: string, tth: string,
                 reply: bool, add: bool, notify: bool): (c: UdpCommand)
    ensures c.verb == "PBD"
  {
    UdpCommand("PBD",
      ["HI" + hubIpPort, "BU" + bundle, "TH" + tth] +
      (if notify then ["NO1"] else if reply then ["RE1"] else []) +
      (if add then ["AD1"] else []))
  }
}
