/** The legacy `$SR` search-result record of SearchManager::onData
    (SearchManager.cpp:264-361):

      directory: $SR <nick> <directory> <free>/<total>0x05<hub name> (<hub ip:port>)
      file:      $SR <nick> <file>0x05<size> <free>/<total>0x05<hub name> (<hub ip:port>)

    The record is classified by the number of 0x05 bytes from the space that
    ends the nick, and every field is cut at a delimiter found with find or
    rfind; a missing delimiter ends processing with no result. */
module LegacyReply {
  import opened Strings
  import opened Numbers

  const Sep5: char := 5 as char

  datatype Kind = File | Directory

  /** The fields cut out of a `$SR` record, before any lookup of the user or hub. */
  datatype SrRecord = SrRecord(nick: string, kind: Kind, file: string, size: int,
                               freeSlots: int, slots: int, hubName: string, hubIpPort: string)

  /** The name part: the branch taken by the count test, the name and size
      it cut, and the position of its last delimiter. */
  datatype Head = Head(kind: Kind, file: string, size: int, end: nat)

  /** One 0x05: a directory, named up to the last space before the last 0x05
      (names may hold spaces), and given a trailing backslash. */
  function DirectoryHead(x: string, i: nat): (h: Option<Head>)
    requires 0 < i <= |x|
    ensures h.Some? ==> i < h.value.end < |x|
    ensures h.Some? ==> h.value.kind == Directory && h.value.size == 0
    ensures h.Some? ==> h.value.file == x[i..h.value.end] + "\\"
    ensures h.Some? ==> x[h.value.end] == ' ' && RFind(x, Sep5).Some?
    ensures h.Some? && RFind(x, Sep5).value > 0 ==>
              h.value.end < RFind(x, Sep5).value &&
              forall k :: h.value.end < k < RFind(x, Sep5).value ==> x[k] != ' '
    ensures h.Some? && RFind(x, Sep5).value == 0 ==> Some(h.value.end) == RFind(x, ' ')
    ensures (RFind(x, Sep5).Some? && RFind(x, Sep5).value > 0 &&
             exists k :: i < k < RFind(x, Sep5).value && x[k] == ' ') ==> h.Some?
  {
    match RFind(x, Sep5)
    case None => None
    case Some(j5) =>
      match RFindUpTo(x, ' ', j5 - 1)
      case None => None
      case Some(j) =>
        if j < i + 1 then None
        else Some(Head(Directory, x[i..j] + "\\", 0, j))
  }

  /** Two 0x05: a file, named up to the first 0x05, its size up to the next space. */
  function FileHead(x: string, i: nat): (h: Option<Head>)
    ensures h.Some? ==> i < h.value.end < |x|
    ensures h.Some? ==> h.value.kind == File && i + |h.value.file| < |x|
    ensures h.Some? ==> h.value.file == x[i..i + |h.value.file|] && x[i + |h.value.file|] == Sep5
    ensures h.Some? ==> forall k :: i <= k < i + |h.value.file| ==> x[k] != Sep5
  {
    match Find(x, Sep5, i)
    case None => None
    case Some(j) =>
      match Find(x, ' ', j + 1)
      case None => None
      case Some(j2) => Some(Head(File, x[i..j], Atoi(x[j + 1..j2]), j2))
  }

  /** The delimiters of the part after the name: the '/' between the slot
      counts, the 0x05 that ends them, the last " (" of the whole record,
      which ends the hub name, and its last ')', which ends the address. */
  datatype Delims = Delims(slash: nat, sep: nat, paren: nat, close: nat)

  function TailDelims(x: string, i: nat): (d: Option<Delims>)
    ensures d.Some? ==> i <= d.value.slash < d.value.sep < |x|
    ensures d.Some? ==> d.value.paren + 1 < |x| && d.value.close < |x|
  {
    match Find(x, '/', i)
    case None => None
    case Some(j) =>
      match Find(x, Sep5, j + 1)
      case None => None
      case Some(j2) =>
        match RFindPair(x, ' ', '(')
        case None => None
        case Some(j3) =>
          match RFind(x, ')')
          case None => None
          case Some(j4) => Some(Delims(j, j2, j3, j4))
  }

  /** The slot counts and the hub, read after the name part. Both slot counts
      are truncated to uint8_t. */
  function Tail(x: string, nick: string, h: Head): (r: Option<SrRecord>)
    requires h.end < |x|
    ensures r.Some? ==> r.value.nick == nick && r.value.kind == h.kind
    ensures r.Some? ==> r.value.file == h.file && r.value.size == h.size
  {
    match TailDelims(x, h.end + 1)
    case None => None
    case Some(d) => Some(TailRecord(x, nick, h, d))
  }

  /** The record cut at the tail delimiters d: the free slots before the '/',
      the total slots up to the 0x05, the hub name up to the " (" and the
      address up to the ')'. */
  function TailRecord(x: string, nick: string, h: Head, d: Delims): SrRecord
    requires h.end + 1 <= d.slash < d.sep < |x| && d.paren + 1 < |x| && d.close < |x|
  {
    SrRecord(nick, h.kind, h.file, h.size,
             U8(Atoi(x[h.end + 1..d.slash])), U8(Atoi(x[d.slash + 1..d.sep])),
             SubstrTo(x, d.sep + 1, d.paren), SubstrTo(x, d.paren + 2, d.close))
  }

  /** The name part after the nick, which ends at the space at j: the number
      of 0x05 bytes counted from j decides. 1 means a directory, 2 a file;
      any other count takes neither branch, and parsing goes on from the end
      of the nick as a file with an empty name and size 0. */
  function NameHead(x: string, j: nat): (h: Option<Head>)
    requires j < |x|
    ensures h.Some? ==> j <= h.value.end < |x|
  {
    var cnt := CountFrom(x, Sep5, j);
    if cnt == 1 then DirectoryHead(x, j + 1)
    else if cnt == 2 then FileHead(x, j + 1)
    else Some(Head(File, "", 0, j))
  }

  /** The whole record: the nick runs from offset 4 to the next space. */
  function ParseSr(x: string): Option<SrRecord>
    requires StartsWith(x, "$SR ")
  {
    match Find(x, ' ', 4)
    case None => None
    case Some(j) =>
      match NameHead(x, j)
      case None => None
      case Some(h) => Tail(x, x[4..j], h)
  }

  /** A legacy result as handed to the listeners. `tth` is None in LAN mode,
      where an empty hash value is used. When the hub-name field carried the
      hash, the hub name shown is looked up from the user's hubs instead
      (`hubNameLookedUp`); that lookup is not part of this model. */
  datatype LegacyResult = LegacyResult(kind: Kind, file: string, size: int, freeSlots: int, slots: int,
                                       hubName: string, hubNameLookedUp: bool, hubIpPort: string,
                                       tth: Option<string>)

  /** The hub-name field carries the TTH when it starts with "TTH:". */
  predicate CarriesTth(hubName: string) {
    StartsWith(hubName, "TTH:")
  }

  /** After the fields are cut (SearchManager.cpp:338-361): `userFound` is
      whether the nick resolves to a user, on its hub or as a legacy user. */
  function SrOutcome(r: SrRecord, userFound: bool, lanMode: bool): Option<LegacyResult> {
    if !userFound then None
    else
      var tth := if CarriesTth(r.hubName) then r.hubName[4..] else "";
      if tth == "" && r.kind == File && !lanMode then None
      else Some(LegacyResult(r.kind, r.file, r.size, r.freeSlots, r.slots,
                             r.hubName, CarriesTth(r.hubName), r.hubIpPort,
                             if lanMode then None else Some(tth)))
  }

  /** A record of a found user is kept exactly when it is a directory, LAN
      mode is on, or its hub-name field carries a non-empty "TTH:" value. */
  lemma SrKeptIff(r: SrRecord, lanMode: bool)
    ensures SrOutcome(r, true, lanMode).Some? <==>
              r.kind == Directory || lanMode || (CarriesTth(r.hubName) && |r.hubName| > 4)
    ensures SrOutcome(r, false, lanMode).None?
  {
  }

  /** The directory name f (backslash included) was cut from right after
      the nick's space at j: it is non-empty before its backslash. */
  predicate DirectoryNameAt(x: string, j: nat, f: string) {
    |f| >= 2 && f[|f| - 1] == '\\' && j + |f| <= |x| && f[..|f| - 1] == x[j + 1..j + |f|]
  }

  /** Position e holds the last space before the last 0x05, which comes
      later in x. */
  predicate LastSpaceBeforeLastSep(x: string, e: nat) {
    && RFind(x, Sep5).Some? && e < RFind(x, Sep5).value && x[e] == ' '
    && forall k :: e < k < RFind(x, Sep5).value ==> x[k] != ' '
  }

  /** The file name f was cut from right after the nick's space at j up to
      the first 0x05, so it holds no 0x05 itself. */
  predicate FileNameAt(x: string, j: nat, f: string) {
    && j + 1 + |f| < |x| && x[j + 1..j + 1 + |f|] == f && x[j + 1 + |f|] == Sep5
    && forall k :: 0 <= k < |f| ==> f[k] != Sep5
  }

  /** One 0x05 from the space after the nick: a directory whose name is
      non-empty, is cut from the record right after that space up to the
      last space before the last 0x05, and gets a trailing backslash. */
  lemma ParseSrDirectory(x: string, j: nat, r: SrRecord)
    requires StartsWith(x, "$SR ")
    requires Find(x, ' ', 4) == Some(j)
    requires CountFrom(x, Sep5, j) == 1
    requires ParseSr(x) == Some(r)
    ensures r.nick == x[4..j] && r.kind == Directory && r.size == 0
    ensures DirectoryNameAt(x, j, r.file) && LastSpaceBeforeLastSep(x, j + |r.file|)
  {
    ParseSrThroughHead(x, j);
    CommandNotSep(x);
    NameHeadDirectory(x, j);
    DirectoryRecordFields(x, j, r, DirectoryHead(x, j + 1).value);
  }

  /** One 0x05 from the nick's space at j selects the directory head. */
  lemma NameHeadDirectory(x: string, j: nat)
    requires j < |x| && CountFrom(x, Sep5, j) == 1
    ensures NameHead(x, j) == DirectoryHead(x, j + 1)
  {
  }

  /** A record whose name part is the directory head h after the nick's
      space at j has the name that head cut. */
  lemma DirectoryRecordFields(x: string, j: nat, r: SrRecord, h: Head)
    requires j < |x| && x[0] != Sep5
    requires DirectoryHead(x, j + 1) == Some(h)
    requires r.kind == h.kind && r.file == h.file && r.size == h.size
    ensures r.kind == Directory && r.size == 0
    ensures DirectoryNameAt(x, j, r.file) && LastSpaceBeforeLastSep(x, j + |r.file|)
  {
    assert h.file[..|h.file| - 1] == x[j + 1..h.end];
  }

  /** A `$SR ` record does not start with 0x05. */
  lemma CommandNotSep(x: string)
    requires StartsWith(x, "$SR ")
    ensures x[0] != Sep5
  {
    assert x[0] == "$SR "[0];
  }

  /** A result comes from the tail of a located name part. */
  lemma ParseSrThroughHead(x: string, j: nat)
    requires StartsWith(x, "$SR ")
    requires Find(x, ' ', 4) == Some(j)
    requires ParseSr(x).Some?
    ensures NameHead(x, j).Some?
    ensures var h := NameHead(x, j).value;
            && ParseSr(x).value.nick == x[4..j] && ParseSr(x).value.kind == h.kind
            && ParseSr(x).value.file == h.file && ParseSr(x).value.size == h.size
  {
  }

  /** Two 0x05: a file whose name is cut from right after the nick's space
      up to the first 0x05, and whose size is read from the digits after
      that 0x05 up to the next space, at e. */
  lemma ParseSrFile(x: string, j: nat, e: nat, r: SrRecord)
    requires StartsWith(x, "$SR ")
    requires Find(x, ' ', 4) == Some(j)
    requires CountFrom(x, Sep5, j) == 2
    requires ParseSr(x) == Some(r)
    requires Find(x, ' ', j + 2 + |r.file|) == Some(e)
    ensures r.nick == x[4..j] && r.kind == File && FileNameAt(x, j, r.file)
    ensures j + 2 + |r.file| <= e && r.size == Atoi(x[j + 2 + |r.file|..e])
  {
    ParseSrThroughHead(x, j);
    NameHeadFile(x, j);
    FileRecordFields(x, j, e, r, FileHead(x, j + 1).value);
  }

  /** A record whose name part is the file head h after the nick's space at
      j has the name and size that head cut. */
  lemma FileRecordFields(x: string, j: nat, e: nat, r: SrRecord, h: Head)
    requires FileHead(x, j + 1) == Some(h)
    requires r.kind == h.kind && r.file == h.file && r.size == h.size
    requires Find(x, ' ', j + 2 + |r.file|) == Some(e)
    ensures r.kind == File && FileNameAt(x, j, r.file)
    ensures j + 2 + |r.file| <= e && r.size == Atoi(x[j + 2 + |r.file|..e])
  {
    FileNameAtHead(x, j, h);
    FileSizeAtHead(x, j, h, e);
  }

  /** Two 0x05 from the nick's space at j select the file head. */
  lemma NameHeadFile(x: string, j: nat)
    requires j < |x| && CountFrom(x, Sep5, j) == 2
    ensures NameHead(x, j) == FileHead(x, j + 1)
  {
  }

  /** The file head after the nick's space at j holds the name cut up to
      the first 0x05. */
  lemma FileNameAtHead(x: string, j: nat, h: Head)
    requires FileHead(x, j + 1) == Some(h)
    ensures h.kind == File && FileNameAt(x, j, h.file)
  {
    FileHeadEnds(x, j + 1);
  }

  /** The size of the file head after the nick's space at j is read up to
      the first space after the 0x05 that ends the name. */
  lemma FileSizeAtHead(x: string, j: nat, h: Head, e: nat)
    requires FileHead(x, j + 1) == Some(h)
    requires Find(x, ' ', j + 2 + |h.file|) == Some(e)
    ensures j + 2 + |h.file| <= e && h.size == Atoi(x[j + 2 + |h.file|..e])
  {
    var i := j + 1;
    FileHeadEnds(x, i);
    assert i + |h.file| + 1 == j + 2 + |h.file|;
  }

  /** A file name part runs up to the first 0x05 and holds none, and its
      size is read from the digits up to the next space. */
  lemma FileHeadEnds(x: string, i: nat)
    requires FileHead(x, i).Some?
    ensures var h := FileHead(x, i).value;
            && i + |h.file| < |x| && x[i..i + |h.file|] == h.file && x[i + |h.file|] == Sep5
            && (forall k :: 0 <= k < |h.file| ==> h.file[k] != Sep5)
            && Find(x, ' ', i + |h.file| + 1) == Some(h.end)
            && h.size == Atoi(x[i + |h.file| + 1..h.end])
  {
    var h := FileHead(x, i).value;
    forall k | 0 <= k < |h.file|
      ensures h.file[k] != Sep5
    {
      assert h.file[k] == x[i + k];
    }
  }

  /** Any other count runs neither branch: parsing goes on as a file with
      an empty name and size 0, not a dropped record. */
  lemma ParseSrOtherCount(x: string, j: nat)
    requires StartsWith(x, "$SR ")
    requires Find(x, ' ', 4) == Some(j)
    requires CountFrom(x, Sep5, j) != 1 && CountFrom(x, Sep5, j) != 2
    requires ParseSr(x).Some?
    ensures var r := ParseSr(x).value;
            r.nick == x[4..j] && r.kind == File && r.file == "" && r.size == 0
  {
  }

  /** Every delimiter is required: with no ')' or no " (" anywhere, or no
      '/' after the nick, there is no result. */
  lemma MissingDelimiterDrops(x: string)
    requires StartsWith(x, "$SR ")
    requires RFind(x, ')').None? || RFindPair(x, ' ', '(').None? || Find(x, '/', 4).None?
    ensures ParseSr(x).None?
  {
    if Find(x, ' ', 4).Some? {
      var j := Find(x, ' ', 4).value;
      var head := NameHead(x, j);
      if head.Some? && Find(x, '/', 4).None? {
        assert Find(x, '/', head.value.end + 1).None?;
        assert TailDelims(x, head.value.end + 1).None?;
      }
    }
  }

  /** FileHead once its two delimiters are located. */
  lemma FileHeadAt(x: string, i: nat, j: nat, j2: nat)
    requires Find(x, Sep5, i) == Some(j)
    requires Find(x, ' ', j + 1) == Some(j2)
    ensures FileHead(x, i) == Some(Head(File, x[i..j], Atoi(x[j + 1..j2]), j2))
  {
  }

  /** TailDelims once its four delimiters are located. */
  lemma TailDelimsAt(x: string, i: nat, j: nat, j2: nat, j3: nat, j4: nat)
    requires Find(x, '/', i) == Some(j)
    requires Find(x, Sep5, j + 1) == Some(j2)
    requires RFindPair(x, ' ', '(') == Some(j3)
    requires RFind(x, ')') == Some(j4)
    ensures TailDelims(x, i) == Some(Delims(j, j2, j3, j4))
  {
  }

  /** ParseSr of a two-0x05 record, once the nick's space is located. */
  lemma ParseSrFileAt(x: string, j: nat, h: Head)
    requires StartsWith(x, "$SR ")
    requires Find(x, ' ', 4) == Some(j)
    requires CountFrom(x, Sep5, j) == 2
    requires FileHead(x, j + 1) == Some(h)
    ensures h.end < |x| && ParseSr(x) == Tail(x, x[4..j], h)
  {
    assert NameHead(x, j) == Some(h);
  }

  /** A sample `$SR` file record: a file of 12345 bytes from "alice", 3 of 5
      slots free, on hub "TestHub" at 1.2.3.4:411. */
  function ExampleFileRecord(): string {
    "$SR alice path/to/file.txt" + [Sep5] + "12345 3/5" + [Sep5] + "TestHub (1.2.3.4:411)"
  }

  /** The example record is parsed as a file named "path/to/file.txt" of
      size 12345 from user "alice", with 3 of 5 slots free on hub "TestHub"
      at 1.2.3.4:411; as its hub field carries no TTH, it is kept only in
      LAN mode. */
  lemma ExampleFileParsed()
    ensures ParseSr(ExampleFileRecord()) == Tail(ExampleFileRecord(), "alice", ExampleHead())
    ensures var r := Tail(ExampleFileRecord(), "alice", ExampleHead());
            && r.Some? && r.value.freeSlots == 3 && r.value.slots == 5
            && r.value.hubName == "TestHub" && r.value.hubIpPort == "1.2.3.4:411"
    ensures SrOutcome(ParseSr(ExampleFileRecord()).value, true, true).Some?
    ensures SrOutcome(ParseSr(ExampleFileRecord()).value, true, false).None?
  {
    ExampleNick();
    ExampleNameParsed();
    ExampleTailParsed();
    var r := Tail(ExampleFileRecord(), "alice", ExampleHead()).value;
    assert r.kind == File;
    ExampleHubCarriesNoTth();
  }

  lemma ExampleHubCarriesNoTth()
    ensures !CarriesTth("TestHub")
  {
    assert "TestHub"[..4][1] != "TTH:"[1];
  }

  function ExampleHead(): Head {
    Head(File, "path/to/file.txt", 12345, 32)
  }

  lemma ExampleNameParsed()
    ensures ParseSr(ExampleFileRecord()) == Tail(ExampleFileRecord(), "alice", ExampleHead())
  {
    var x := ExampleFileRecord();
    ExampleNick();
    ExampleCount();
    ExampleNameDelimiters();
    ExampleFields();
    AtoiExample("12345", 12345);
    FileHeadAt(x, 10, 26, 32);
    ParseSrFileAt(x, 9, ExampleHead());
  }

  lemma ExampleTailParsed()
    ensures var r := Tail(ExampleFileRecord(), "alice", ExampleHead());
            && r.Some? && r.value.freeSlots == 3 && r.value.slots == 5
            && r.value.hubName == "TestHub" && r.value.hubIpPort == "1.2.3.4:411"
  {
    var x := ExampleFileRecord();
    ExampleTailDelimiters();
    TailDelimsAt(x, 33, 34, 36, 44, 57);
    ExampleSlotFields();
    ExampleHubFields();
    AtoiExample("3", 3);
    AtoiExample("5", 5);
  }

  lemma ExampleNick()
    ensures StartsWith(ExampleFileRecord(), "$SR ")
    ensures Find(ExampleFileRecord(), ' ', 4) == Some(9)
    ensures ExampleFileRecord()[4..9] == "alice"
  {
    var x := ExampleFileRecord();
    assert x[..4] == "$SR ";
    FindIs(x, ' ', 4, 9);
    assert x[4..9] == "alice";
  }

  lemma ExampleCount()
    ensures CountFrom(ExampleFileRecord(), Sep5, 9) == 2
  {
    ExampleCountName();
    ExampleCountSlots();
    ExampleCountHub();
  }

  lemma ExampleCountName()
    ensures CountFrom(ExampleFileRecord(), Sep5, 9) == 1 + CountFrom(ExampleFileRecord(), Sep5, 27)
  {
    var x := ExampleFileRecord();
    assert x[26] == Sep5;
    CountSkip(x, Sep5, 9, 26);
  }

  lemma ExampleCountSlots()
    ensures CountFrom(ExampleFileRecord(), Sep5, 27) == 1 + CountFrom(ExampleFileRecord(), Sep5, 37)
  {
    var x := ExampleFileRecord();
    assert x[36] == Sep5;
    CountSkip(x, Sep5, 27, 36);
  }

  lemma ExampleCountHub()
    ensures CountFrom(ExampleFileRecord(), Sep5, 37) == 0
  {
    var x := ExampleFileRecord();
    assert |x| == 58;
    CountSkip(x, Sep5, 37, 58);
  }

  lemma ExampleNameDelimiters()
    ensures Find(ExampleFileRecord(), Sep5, 10) == Some(26)
    ensures Find(ExampleFileRecord(), ' ', 27) == Some(32)
  {
    ExampleNameEnd();
    ExampleSizeEnd();
  }

  lemma ExampleNameEnd()
    ensures Find(ExampleFileRecord(), Sep5, 10) == Some(26)
  {
    var x := ExampleFileRecord();
    assert |x| == 58 && x[26] == Sep5;
    FindIs(x, Sep5, 10, 26);
  }

  lemma ExampleSizeEnd()
    ensures Find(ExampleFileRecord(), ' ', 27) == Some(32)
  {
    var x := ExampleFileRecord();
    assert |x| == 58 && x[32] == ' ';
    FindIs(x, ' ', 27, 32);
  }

  lemma ExampleTailDelimiters()
    ensures Find(ExampleFileRecord(), '/', 33) == Some(34)
    ensures Find(ExampleFileRecord(), Sep5, 35) == Some(36)
    ensures RFindPair(ExampleFileRecord(), ' ', '(') == Some(44)
    ensures RFind(ExampleFileRecord(), ')') == Some(57)
  {
    var x := ExampleFileRecord();
    assert |x| == 58 && x[34] == '/' && x[36] == Sep5 && x[44] == ' ' && x[57] == ')';
    FindIs(x, '/', 33, 34);
    FindIs(x, Sep5, 35, 36);
    RFindPairIs(x, ' ', '(', 44);
    RFindIs(x, ')', 57);
  }

  lemma ExampleFields()
    ensures |ExampleFileRecord()| == 58
    ensures ExampleFileRecord()[10..26] == "path/to/file.txt"
    ensures ExampleFileRecord()[27..32] == "12345"
  {
    ExampleNameField();
    ExampleSizeField();
  }

  lemma ExampleNameField()
    ensures |ExampleFileRecord()| == 58
    ensures ExampleFileRecord()[10..26] == "path/to/file.txt"
  {
  }

  lemma ExampleSizeField()
    ensures |ExampleFileRecord()| == 58
    ensures ExampleFileRecord()[27..32] == "12345"
  {
  }

  lemma ExampleSlotFields()
    ensures ExampleFileRecord()[33..34] == "3"
    ensures ExampleFileRecord()[35..36] == "5"
  {
  }

  lemma ExampleHubFields()
    ensures ExampleFileRecord()[37..44] == "TestHub"
    ensures ExampleFileRecord()[46..57] == "1.2.3.4:411"
  {
  }

  lemma AtoiExample(s: string, n: nat)
    requires s == ToDecimal(n)
    ensures Atoi(s) == n
  {
    AtoiToDecimal(n);
  }
}
