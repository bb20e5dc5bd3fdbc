/** Reading the named parameters of a structured (ADC) command. A parameter
    carries a two-letter tag followed by its value ("FNfoo.txt" has tag "FN"
    and value "foo.txt"). The command's parameters arrive already split into
    a sequence; the command parser itself (AdcCommand) is not part of this
    model, and neither are StringTokenizer and Util::toNmdcFile, whose
    behaviour is stated here as the search code relies on it. */
module AdcTags {
  import opened Strings

  /** `str.compare(0, 2, tag) == 0` for a two-letter tag: p has at least two
      characters and begins with the tag. */
  predicate HasTag(p: string, tag: string) {
    |tag| == 2 && |p| >= 2 && p[0] == tag[0] && p[1] == tag[1]
  }

  /** The index of the last parameter carrying `tag`. */
  function LastIndex(ps: seq<string>, tag: string): (r: Option<nat>)
    ensures r.Some? ==> r.value < |ps| && HasTag(ps[r.value], tag)
    ensures r.Some? ==> forall k :: r.value < k < |ps| ==> !HasTag(ps[k], tag)
    ensures r.None? ==> forall k :: 0 <= k < |ps| ==> !HasTag(ps[k], tag)
  {
    if ps == [] then None
    else if HasTag(ps[|ps| - 1], tag) then Some(|ps| - 1)
    else LastIndex(ps[..|ps| - 1], tag)
  }

  /** The value of the last parameter carrying `tag`: what a scan that
      overwrites a variable at every match leaves behind. */
  function LastTagged(ps: seq<string>, tag: string): Option<string> {
    match LastIndex(ps, tag)
    case None => None
    case Some(i) => Some(ps[i][2..])
  }

  /** A scan step: one more parameter either carries the tag, and its value
      becomes the last one, or leaves the last value as it was. */
  lemma LastTaggedStep(ps: seq<string>, i: nat, tag: string)
    requires i < |ps|
    ensures LastTagged(ps[..i + 1], tag) ==
              if HasTag(ps[i], tag) then Some(ps[i][2..]) else LastTagged(ps[..i], tag)
  {
    assert ps[..i + 1][..i] == ps[..i];
    assert ps[..i + 1][i] == ps[i];
  }

  /** Appending a parameter with the tag makes its value the last one. */
  lemma LastTaggedAppend(ps: seq<string>, p: string, tag: string)
    ensures LastTagged(ps + [p], tag) == if HasTag(p, tag) then Some(p[2..]) else LastTagged(ps, tag)
  {
    assert (ps + [p])[..|ps|] == ps;
  }

  /** `AdcCommand::getParam(tag, from, ret)`: the value of the first
      parameter at index `from` or later carrying `tag`. */
  function FirstTaggedFrom(ps: seq<string>, tag: string, from: nat): (r: Option<string>)
    ensures r.Some? <==> exists k :: from <= k < |ps| && HasTag(ps[k], tag)
    ensures r.Some? ==> exists k :: && from <= k < |ps| && HasTag(ps[k], tag) && r.value == ps[k][2..]
                                     && forall j :: from <= j < k ==> !HasTag(ps[j], tag)
    decreases |ps| - from
  {
    if from >= |ps| then None
    else if HasTag(ps[from], tag) then Some(ps[from][2..])
    else FirstTaggedFrom(ps, tag, from + 1)
  }

  /** `AdcCommand::hasFlag(tag + "1", from)`: a parameter at index `from` or
      later is exactly the tag followed by '1'. */
  predicate HasFlag(ps: seq<string>, tag: string, from: nat) {
    exists k :: from <= k < |ps| && HasTag(ps[k], tag) && |ps[k]| == 3 && ps[k][2] == '1'
  }

  /** StringTokenizer(s, sep): the pieces between separators. Empty pieces
      between two separators are kept; a piece after the last separator is
      kept only when it is non-empty. */
  function Tokens(s: string, sep: char): (ts: seq<string>)
    ensures forall k :: 0 <= k < |ts| ==> sep !in ts[k]
    decreases |s|
  {
    match Find(s, sep, 0)
    case None => if s == [] then [] else [s]
    case Some(i) => [s[..i]] + Tokens(s[i + 1..], sep)
  }

  /** The pieces joined with sep between them. */
  function Join(ts: seq<string>, sep: char): string {
    if ts == [] then []
    else if |ts| == 1 then ts[0]
    else ts[0] + [sep] + Join(ts[1..], sep)
  }

  lemma {:induction false} JoinSnoc(ts: seq<string>, t: string, sep: char)
    requires ts != []
    ensures Join(ts + [t], sep) == Join(ts, sep) + [sep] + t
    decreases |ts|
  {
    if |ts| == 1 {
      assert ts + [t] == [ts[0], t];
    } else {
      assert (ts + [t])[1..] == ts[1..] + [t];
      JoinSnoc(ts[1..], t, sep);
    }
  }

  /** Round trip: splitting what Join produced gives the pieces back, as long
      as no piece holds the separator and none is empty. */
  lemma {:induction false} TokensJoin(ts: seq<string>, sep: char)
    requires forall k :: 0 <= k < |ts| ==> ts[k] != [] && sep !in ts[k]
    ensures Tokens(Join(ts, sep), sep) == ts
    decreases |ts|
  {
    if |ts| == 1 {
      assert Find(ts[0], sep, 0).None?;
    } else if |ts| > 1 {
      var t := ts[0];
      var s := Join(ts, sep);
      var rest := Join(ts[1..], sep);
      assert s == t + [sep] + rest;
      assert s[|t|] == sep;
      forall k | 0 <= k < |t|
        ensures s[k] != sep
      {
        assert s[k] == t[k];
      }
      FindIs(s, sep, 0, |t|);
      assert s[..|t|] == t;
      assert s[|t| + 1..] == rest;
      TokensJoin(ts[1..], sep);
    }
  }

  /** `Util::toNmdcFile`: the leading character (the root '/') is dropped and
      every '/' becomes '\\'. */
  function NmdcFile(f: string): (r: string)
    ensures f == [] ==> r == []
    ensures f != [] ==> |r| == |f| - 1
    ensures forall k :: 0 <= k < |r| ==> r[k] == if f[k + 1] == '/' then '\\' else f[k + 1]
  {
    if f == [] then [] else seq(|f| - 1, k requires 0 <= k < |f| - 1 => if f[k + 1] == '/' then '\\' else f[k + 1])
  }
}
