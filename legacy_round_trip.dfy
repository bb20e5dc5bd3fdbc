/** Building a legacy `$SR` record from its fields and cutting it again
    (SearchManager.cpp:264-330) gives the fields back, for every nick, name,
    size, slot counts, hub name and hub address the record format can carry:

      file:      $SR <nick> <name>0x05<size> <free>/<total>0x05<hub> (<address>)
      directory: $SR <nick> <name> <free>/<total>0x05<hub> (<address>)

    The nick holds no space, name, hub and address hold no 0x05, and the
    address holds no " (". Names and hub names may hold spaces. */
module LegacyRoundTrip {
  import opened Strings
  import opened Numbers
  import opened LegacyReply

  /** No position of s holds c. */
  predicate Lacks(s: string, c: char) {
    forall k :: 0 <= k < |s| ==> s[k] != c
  }

  /** No position of s starts " (". */
  predicate LacksOpen(s: string) {
    forall k :: 0 <= k < |s| ==> !PairAt(s, k, ' ', '(')
  }

  /** "<free>/<total>0x05<hub> (<address>)", the slot counts given as text. */
  function SlotsText(fd: string, td: string, hub: string, addr: string): string {
    fd + "/" + td + [Sep5] + hub + " (" + addr + ")"
  }

  /** "$SR <nick> <name>0x05<size> ", the size given as text. */
  function FilePrefix(nick: string, name: string, sd: string): string {
    "$SR " + nick + " " + name + [Sep5] + sd + " "
  }

  /** "$SR <nick> <name> ". */
  function DirectoryPrefix(nick: string, name: string): string {
    "$SR " + nick + " " + name + " "
  }

  /** The file record a peer sends, with its numbers written by Util::toString. */
  function FileRecord(nick: string, name: string, size: nat, free: nat, total: nat,
                      hub: string, addr: string): string {
    FilePrefix(nick, name, ToDecimal(size)) + SlotsText(ToDecimal(free), ToDecimal(total), hub, addr)
  }

  /** The directory record a peer sends. */
  function DirectoryRecord(nick: string, name: string, free: nat, total: nat,
                           hub: string, addr: string): string {
    DirectoryPrefix(nick, name) + SlotsText(ToDecimal(free), ToDecimal(total), hub, addr)
  }

  /** The fields a file record was built from read back, with the slot
      counts truncated to uint8_t as onData stores them. */
  lemma FileRoundTrip(nick: string, name: string, size: nat, free: nat, total: nat,
                      hub: string, addr: string)
    requires Lacks(nick, ' ') && Lacks(name, Sep5) && Lacks(hub, Sep5) && Lacks(addr, Sep5)
    requires LacksOpen(addr)
    ensures StartsWith(FileRecord(nick, name, size, free, total, hub, addr), "$SR ")
    ensures ParseSr(FileRecord(nick, name, size, free, total, hub, addr))
            == Some(SrRecord(nick, File, name, size, U8(free), U8(total), hub, addr))
  {
    var sd, fd, td := ToDecimal(size), ToDecimal(free), ToDecimal(total);
    var x := FileRecord(nick, name, size, free, total, hub, addr);
    var j := 4 + |nick|;
    var n := j + 1 + |name|;
    var e := n + 1 + |sd|;
    var a := e + 1;
    var f := a + |fd|;
    var s := f + 1 + |td|;
    var o := s + 1 + |hub|;
    FileRecordLayout(nick, name, sd, fd, td, hub, addr, j, n, e, a, f, s, o);
    FileParsesAt(x, nick, name, sd, fd, td, hub, addr, j, n, e, a, f, s, o);
    AtoiToDecimal(size);
    AtoiToDecimal(free);
    AtoiToDecimal(total);
  }

  /** The fields a directory record was built from read back: the name,
      which may hold spaces, gets its trailing backslash, and the size is 0. */
  lemma DirectoryRoundTrip(nick: string, name: string, free: nat, total: nat,
                           hub: string, addr: string)
    requires name != []
    requires Lacks(nick, ' ') && Lacks(name, Sep5) && Lacks(hub, Sep5) && Lacks(addr, Sep5)
    requires LacksOpen(addr)
    ensures StartsWith(DirectoryRecord(nick, name, free, total, hub, addr), "$SR ")
    ensures ParseSr(DirectoryRecord(nick, name, free, total, hub, addr))
            == Some(SrRecord(nick, Directory, name + "\\", 0, U8(free), U8(total), hub, addr))
  {
    var fd, td := ToDecimal(free), ToDecimal(total);
    var x := DirectoryRecord(nick, name, free, total, hub, addr);
    var j := 4 + |nick|;
    var e := j + 1 + |name|;
    var a := e + 1;
    var f := a + |fd|;
    var s := f + 1 + |td|;
    var o := s + 1 + |hub|;
    DirectoryRecordLayout(nick, name, fd, td, hub, addr, j, e, a, f, s, o);
    DirectoryParsesAt(x, nick, name, fd, td, hub, addr, j, e, a, f, s, o);
    AtoiToDecimal(free);
    AtoiToDecimal(total);
  }

  // Layout of a record. The positions are the delimiters: j the space after
  // the nick, n the 0x05 after a file name, e the space before the slots,
  // a the start of the slots, f the '/', s the last 0x05, o the space of " (".

  /** w sits in x from position a on, one character at a time. */
  predicate Piece(x: string, a: nat, w: string)
    decreases |w|
  {
    a + |w| <= |x| && (|w| == 0 || (x[a] == w[0] && Piece(x, a + 1, w[1..])))
  }

  /** "$SR <nick> " opens x. */
  predicate NickAt(x: string, j: nat, nick: string) {
    && j == 4 + |nick| && j < |x|
    && x[0] == '$' && x[1] == 'S' && x[2] == 'R' && x[3] == ' '
    && Piece(x, 4, nick) && x[j] == ' '
  }

  /** "<name>0x05<size> " follows position j. */
  predicate FileNameAndSizeAt(x: string, j: nat, n: nat, e: nat, name: string, sd: string) {
    && n == j + 1 + |name| && e == n + 1 + |sd| && e < |x|
    && Piece(x, j + 1, name) && x[n] == Sep5 && Piece(x, n + 1, sd) && x[e] == ' '
  }

  /** "<name> " follows position j. */
  predicate DirectoryNameAndSpaceAt(x: string, j: nat, e: nat, name: string) {
    e == j + 1 + |name| && e < |x| && Piece(x, j + 1, name) && x[e] == ' '
  }

  /** The slots part "<free>/<total>0x05<hub> (<address>)" runs from a to
      the end of x. */
  predicate SlotsAt(x: string, a: nat, f: nat, s: nat, o: nat,
                    fd: string, td: string, hub: string, addr: string) {
    && f == a + |fd| && s == f + 1 + |td| && o == s + 1 + |hub| && |x| == o + 3 + |addr|
    && Piece(x, a, fd) && x[f] == '/'
    && Piece(x, f + 1, td) && x[s] == Sep5
    && Piece(x, s + 1, hub) && x[o] == ' ' && x[o + 1] == '('
    && Piece(x, o + 2, addr) && x[|x| - 1] == ')'
  }

  /** A text laid out as a file record parses to its fields. */
  lemma FileParsesAt(x: string, nick: string, name: string, sd: string, fd: string, td: string,
                     hub: string, addr: string, j: nat, n: nat, e: nat, a: nat, f: nat, s: nat, o: nat)
    requires AllDigits(sd) && AllDigits(fd) && AllDigits(td)
    requires Lacks(nick, ' ') && Lacks(name, Sep5) && Lacks(hub, Sep5) && Lacks(addr, Sep5)
    requires LacksOpen(addr)
    requires NickAt(x, j, nick) && FileNameAndSizeAt(x, j, n, e, name, sd)
    requires a == e + 1 && SlotsAt(x, a, f, s, o, fd, td, hub, addr)
    ensures StartsWith(x, "$SR ")
    ensures ParseSr(x) == Some(SrRecord(nick, File, name, Atoi(sd), U8(Atoi(fd)), U8(Atoi(td)), hub, addr))
  {
    var h := Head(File, name, Atoi(sd), e);
    FileHeadFound(x, nick, name, sd, fd, td, hub, addr, j, n, e, a, f, s, o);
    TailBack(x, nick, h, a, f, s, o, fd, td, hub, addr);
  }

  /** A text laid out as a file record parses through its file head. */
  lemma FileHeadFound(x: string, nick: string, name: string, sd: string, fd: string, td: string,
                      hub: string, addr: string, j: nat, n: nat, e: nat, a: nat, f: nat, s: nat, o: nat)
    requires AllDigits(sd) && AllDigits(fd) && AllDigits(td)
    requires Lacks(nick, ' ') && Lacks(name, Sep5) && Lacks(hub, Sep5) && Lacks(addr, Sep5)
    requires NickAt(x, j, nick) && FileNameAndSizeAt(x, j, n, e, name, sd)
    requires a == e + 1 && SlotsAt(x, a, f, s, o, fd, td, hub, addr)
    ensures StartsWith(x, "$SR ")
    ensures ParseSr(x) == Tail(x, nick, Head(File, name, Atoi(sd), e))
  {
    NickFound(x, j, nick);
    FileCount(x, j, n, e, a, f, s, o, name, sd, fd, td, hub, addr);
    FileHeadBack(x, j, n, e, name, sd);
    ParseSrFileAt(x, j, Head(File, name, Atoi(sd), e));
  }

  /** A text laid out as a directory record parses to its fields. */
  lemma DirectoryParsesAt(x: string, nick: string, name: string, fd: string, td: string,
                          hub: string, addr: string, j: nat, e: nat, a: nat, f: nat, s: nat, o: nat)
    requires name != []
    requires AllDigits(fd) && AllDigits(td)
    requires Lacks(nick, ' ') && Lacks(name, Sep5) && Lacks(hub, Sep5) && Lacks(addr, Sep5)
    requires LacksOpen(addr)
    requires NickAt(x, j, nick) && DirectoryNameAndSpaceAt(x, j, e, name)
    requires a == e + 1 && SlotsAt(x, a, f, s, o, fd, td, hub, addr)
    ensures StartsWith(x, "$SR ")
    ensures ParseSr(x) == Some(SrRecord(nick, Directory, name + "\\", 0, U8(Atoi(fd)), U8(Atoi(td)), hub, addr))
  {
    var h := Head(Directory, name + "\\", 0, e);
    DirectoryHeadFound(x, nick, name, fd, td, hub, addr, j, e, a, f, s, o);
    TailBack(x, nick, h, a, f, s, o, fd, td, hub, addr);
  }

  /** A text laid out as a directory record parses through its directory head. */
  lemma DirectoryHeadFound(x: string, nick: string, name: string, fd: string, td: string,
                           hub: string, addr: string, j: nat, e: nat, a: nat, f: nat, s: nat, o: nat)
    requires name != []
    requires AllDigits(fd) && AllDigits(td)
    requires Lacks(nick, ' ') && Lacks(name, Sep5) && Lacks(hub, Sep5) && Lacks(addr, Sep5)
    requires NickAt(x, j, nick) && DirectoryNameAndSpaceAt(x, j, e, name)
    requires a == e + 1 && SlotsAt(x, a, f, s, o, fd, td, hub, addr)
    ensures StartsWith(x, "$SR ")
    ensures ParseSr(x) == Tail(x, nick, Head(Directory, name + "\\", 0, e))
  {
    NickFound(x, j, nick);
    DirectoryHeadBack(x, j, e, a, f, s, o, name, fd, td, hub, addr);
    ParseSrThroughName(x, j, nick, Head(Directory, name + "\\", 0, e));
  }

  /** ParseSr once the nick's space and the name part are located. */
  lemma ParseSrThroughName(x: string, j: nat, nick: string, h: Head)
    requires StartsWith(x, "$SR ") && Find(x, ' ', 4) == Some(j) && x[4..j] == nick
    requires NameHead(x, j) == Some(h)
    ensures ParseSr(x) == Tail(x, nick, h)
  {
  }

  /** The nick runs from offset 4 to its first space. */
  lemma NickFound(x: string, j: nat, nick: string)
    requires Lacks(nick, ' ') && NickAt(x, j, nick)
    ensures StartsWith(x, "$SR ") && Find(x, ' ', 4) == Some(j) && x[4..j] == nick
  {
    PieceFound(x, ' ', 4, j, nick);
    assert x[..4] == "$SR ";
  }

  /** A piece read back as a slice. */
  lemma {:induction false} PieceSlice(x: string, a: nat, b: nat, w: string)
    requires b == a + |w| && Piece(x, a, w)
    ensures b <= |x| && x[a..b] == w
    decreases |w|
  {
    if |w| > 0 {
      PieceSlice(x, a + 1, b, w[1..]);
      assert x[a..b] == [x[a]] + x[a + 1..b];
    }
  }

  /** A slice equal to w makes w a piece. */
  lemma {:induction false} PieceOf(x: string, a: nat, b: nat, w: string)
    requires b == a + |w| && b <= |x| && x[a..b] == w
    ensures Piece(x, a, w)
    decreases |w|
  {
    if |w| > 0 {
      assert x[a] == w[0] by {
        assert x[a..b][0] == x[a];
      }
      assert x[a + 1..b] == w[1..];
      PieceOf(x, a + 1, b, w[1..]);
    }
  }

  /** A piece of p is a piece of p + t at the same place. */
  lemma {:induction false} PieceExtend(p: string, t: string, a: nat, w: string)
    requires Piece(p, a, w)
    ensures Piece(p + t, a, w)
    decreases |w|
  {
    if |w| > 0 {
      PieceExtend(p, t, a + 1, w[1..]);
    }
  }

  /** A piece of t at a0 is a piece of p + t at b, |p| further on. */
  lemma {:induction false} PieceShift(p: string, t: string, a0: nat, b: nat, w: string)
    requires b == |p| + a0 && Piece(t, a0, w)
    ensures Piece(p + t, b, w)
    decreases |w|
  {
    if |w| > 0 {
      PieceShift(p, t, a0 + 1, b + 1, w[1..]);
    }
  }

  /** A character of t at k0 is a character of p + t at k, |p| further on. */
  lemma CharShift(p: string, t: string, k0: nat, k: nat)
    requires k == |p| + k0 && k0 < |t|
    ensures k < |p + t| && (p + t)[k] == t[k0]
  {
  }

  /** No position of a piece w holds a character w lacks. */
  lemma LacksAt(x: string, a: nat, b: nat, w: string, c: char)
    requires b == a + |w| && Piece(x, a, w) && Lacks(w, c)
    ensures forall m :: a <= m < b ==> x[m] != c
  {
    PieceSlice(x, a, b, w);
    forall m | a <= m < b
      ensures x[m] != c
    {
      assert x[m] == x[a..b][m - a];
    }
  }

  /** A digit string holds no '/', 0x05 or space. */
  lemma DigitsLack(d: string)
    requires AllDigits(d)
    ensures Lacks(d, '/') && Lacks(d, Sep5) && Lacks(d, ' ')
  {
  }

  /** The built file record is laid out as NickAt, FileNameAndSizeAt and SlotsAt say. */
  lemma FileRecordLayout(nick: string, name: string, sd: string, fd: string, td: string,
                         hub: string, addr: string, j: nat, n: nat, e: nat, a: nat, f: nat, s: nat, o: nat)
    requires j == 4 + |nick| && n == j + 1 + |name| && e == n + 1 + |sd| && a == e + 1
    requires f == a + |fd| && s == f + 1 + |td| && o == s + 1 + |hub|
    ensures var x := FilePrefix(nick, name, sd) + SlotsText(fd, td, hub, addr);
            && NickAt(x, j, nick) && FileNameAndSizeAt(x, j, n, e, name, sd)
            && SlotsAt(x, a, f, s, o, fd, td, hub, addr)
  {
    var p := FilePrefix(nick, name, sd);
    var t := SlotsText(fd, td, hub, addr);
    FilePrefixAt(nick, name, sd, j, n, e);
    FilePrefixBack(p, t, nick, name, sd, j, n, e);
    SlotsBack(p, t, fd, td, hub, addr, a, f, s, o);
  }

  /** The built directory record is laid out as NickAt,
      DirectoryNameAndSpaceAt and SlotsAt say. */
  lemma DirectoryRecordLayout(nick: string, name: string, fd: string, td: string,
                              hub: string, addr: string, j: nat, e: nat, a: nat, f: nat, s: nat, o: nat)
    requires j == 4 + |nick| && e == j + 1 + |name| && a == e + 1
    requires f == a + |fd| && s == f + 1 + |td| && o == s + 1 + |hub|
    ensures var x := DirectoryPrefix(nick, name) + SlotsText(fd, td, hub, addr);
            && NickAt(x, j, nick) && DirectoryNameAndSpaceAt(x, j, e, name)
            && SlotsAt(x, a, f, s, o, fd, td, hub, addr)
  {
    var p := DirectoryPrefix(nick, name);
    var t := SlotsText(fd, td, hub, addr);
    DirectoryPrefixAt(nick, name, j, e);
    DirectoryPrefixBack(p, t, nick, name, j, e);
    SlotsBack(p, t, fd, td, hub, addr, a, f, s, o);
  }

  /** The file prefix on its own is laid out as NickAt and FileNameAndSizeAt say. */
  lemma FilePrefixAt(nick: string, name: string, sd: string, j: nat, n: nat, e: nat)
    requires j == 4 + |nick| && n == j + 1 + |name| && e == n + 1 + |sd|
    ensures var p := FilePrefix(nick, name, sd);
            |p| == e + 1 && NickAt(p, j, nick) && FileNameAndSizeAt(p, j, n, e, name, sd)
  {
    var p := FilePrefix(nick, name, sd);
    FilePrefixLayout(nick, name, sd, j, n, e);
    PieceOf(p, 4, j, nick);
    PieceOf(p, j + 1, n, name);
    PieceOf(p, n + 1, e, sd);
  }

  /** The directory prefix on its own is laid out as NickAt and
      DirectoryNameAndSpaceAt say. */
  lemma DirectoryPrefixAt(nick: string, name: string, j: nat, e: nat)
    requires j == 4 + |nick| && e == j + 1 + |name|
    ensures var p := DirectoryPrefix(nick, name);
            |p| == e + 1 && NickAt(p, j, nick) && DirectoryNameAndSpaceAt(p, j, e, name)
  {
    var p := DirectoryPrefix(nick, name);
    DirectoryPrefixLayout(nick, name, j, e);
    PieceOf(p, 4, j, nick);
    PieceOf(p, j + 1, e, name);
  }

  /** The file prefix keeps its layout with the slots part after it. */
  lemma FilePrefixBack(p: string, t: string, nick: string, name: string, sd: string,
                       j: nat, n: nat, e: nat)
    requires |p| == e + 1 && NickAt(p, j, nick) && FileNameAndSizeAt(p, j, n, e, name, sd)
    ensures NickAt(p + t, j, nick) && FileNameAndSizeAt(p + t, j, n, e, name, sd)
  {
    PieceExtend(p, t, 4, nick);
    PieceExtend(p, t, j + 1, name);
    PieceExtend(p, t, n + 1, sd);
  }

  /** The directory prefix keeps its layout with the slots part after it. */
  lemma DirectoryPrefixBack(p: string, t: string, nick: string, name: string, j: nat, e: nat)
    requires |p| == e + 1 && NickAt(p, j, nick) && DirectoryNameAndSpaceAt(p, j, e, name)
    ensures NickAt(p + t, j, nick) && DirectoryNameAndSpaceAt(p + t, j, e, name)
  {
    PieceExtend(p, t, 4, nick);
    PieceExtend(p, t, j + 1, name);
  }

  /** The slots part placed after a prefix p is where SlotsAt says. */
  lemma SlotsBack(p: string, t: string, fd: string, td: string, hub: string, addr: string,
                  a: nat, f: nat, s: nat, o: nat)
    requires t == SlotsText(fd, td, hub, addr)
    requires a == |p| && f == a + |fd| && s == f + 1 + |td| && o == s + 1 + |hub|
    ensures SlotsAt(p + t, a, f, s, o, fd, td, hub, addr)
  {
    var f0 := |fd|;
    var s0 := f0 + 1 + |td|;
    var o0 := s0 + 1 + |hub|;
    SlotsTextAt(fd, td, hub, addr, f0, s0, o0);
    SlotsPiecesBack(p, t, fd, td, hub, addr, a, f, s, o, f0, s0, o0);
    SlotsCharsBack(p, t, |t| - 1, |p + t| - 1, f, s, o, f0, s0, o0);
  }

  /** The four pieces of the slots part, moved behind p. */
  lemma SlotsPiecesBack(p: string, t: string, fd: string, td: string, hub: string, addr: string,
                        a: nat, f: nat, s: nat, o: nat, f0: nat, s0: nat, o0: nat)
    requires a == |p| && f == a + f0 && s == a + s0 && o == a + o0
    requires Piece(t, 0, fd) && Piece(t, f0 + 1, td) && Piece(t, s0 + 1, hub) && Piece(t, o0 + 2, addr)
    ensures Piece(p + t, a, fd) && Piece(p + t, f + 1, td)
    ensures Piece(p + t, s + 1, hub) && Piece(p + t, o + 2, addr)
  {
    PieceShift(p, t, 0, a, fd);
    PieceShift(p, t, f0 + 1, f + 1, td);
    PieceShift(p, t, s0 + 1, s + 1, hub);
    PieceShift(p, t, o0 + 2, o + 2, addr);
  }

  /** The five delimiter characters of the slots part, moved behind p. */
  lemma SlotsCharsBack(p: string, t: string, c0: nat, c: nat, f: nat, s: nat, o: nat,
                       f0: nat, s0: nat, o0: nat)
    requires f == |p| + f0 && s == |p| + s0 && o == |p| + o0
    requires f0 < s0 < o0 && o0 + 1 < c0 && c0 == |t| - 1 && c == |p + t| - 1
    requires t[f0] == '/' && t[s0] == Sep5 && t[o0] == ' ' && t[o0 + 1] == '(' && t[c0] == ')'
    ensures c < |p + t| && (p + t)[f] == '/' && (p + t)[s] == Sep5
    ensures (p + t)[o] == ' ' && (p + t)[o + 1] == '(' && (p + t)[c] == ')'
  {
    CharShift(p, t, f0, f);
    CharShift(p, t, s0, s);
    CharShift(p, t, o0, o);
    CharShift(p, t, o0 + 1, o + 1);
    CharShift(p, t, c0, c);
  }

  /** The slots text on its own is laid out as SlotsAt says from 0. */
  lemma SlotsTextAt(fd: string, td: string, hub: string, addr: string, f: nat, s: nat, o: nat)
    requires f == |fd| && s == f + 1 + |td| && o == s + 1 + |hub|
    ensures SlotsAt(SlotsText(fd, td, hub, addr), 0, f, s, o, fd, td, hub, addr)
  {
    var t := SlotsText(fd, td, hub, addr);
    SlotsTextLayout(fd, td, hub, addr, f, s, o);
    PieceOf(t, 0, f, fd);
    PieceOf(t, f + 1, s, td);
    PieceOf(t, s + 1, o, hub);
    PieceOf(t, o + 2, |t| - 1, addr);
  }

  /** Where the pieces of "$SR <nick> <name>0x05<size> " sit. */
  lemma FilePrefixLayout(nick: string, name: string, sd: string, j: nat, n: nat, e: nat)
    requires j == 4 + |nick| && n == j + 1 + |name| && e == n + 1 + |sd|
    ensures var p := FilePrefix(nick, name, sd);
            && |p| == e + 1
            && p[0] == '$' && p[1] == 'S' && p[2] == 'R' && p[3] == ' '
            && p[4..j] == nick && p[j] == ' '
            && p[j + 1..n] == name && p[n] == Sep5
            && p[n + 1..e] == sd && p[e] == ' '
  {
    var a := "$SR " + nick;
    var b := a + " " + name;
    var c := b + [Sep5] + sd;
    assert FilePrefix(nick, name, sd) == c + " ";
    assert c[..|b|] == b;
    assert b[..|a|] == a;
  }

  /** Where the pieces of "$SR <nick> <name> " sit. */
  lemma DirectoryPrefixLayout(nick: string, name: string, j: nat, e: nat)
    requires j == 4 + |nick| && e == j + 1 + |name|
    ensures var p := DirectoryPrefix(nick, name);
            && |p| == e + 1
            && p[0] == '$' && p[1] == 'S' && p[2] == 'R' && p[3] == ' '
            && p[4..j] == nick && p[j] == ' '
            && p[j + 1..e] == name && p[e] == ' '
  {
    var a := "$SR " + nick;
    assert DirectoryPrefix(nick, name) == a + " " + name + " ";
  }

  /** Where the pieces of "<free>/<total>0x05<hub> (<address>)" sit. */
  lemma SlotsTextLayout(fd: string, td: string, hub: string, addr: string, f: nat, s: nat, o: nat)
    requires f == |fd| && s == f + 1 + |td| && o == s + 1 + |hub|
    ensures var t := SlotsText(fd, td, hub, addr);
            && |t| == o + 3 + |addr|
            && t[0..f] == fd && t[f] == '/'
            && t[f + 1..s] == td && t[s] == Sep5
            && t[s + 1..o] == hub && t[o] == ' ' && t[o + 1] == '('
            && t[o + 2..|t| - 1] == addr && t[|t| - 1] == ')'
  {
    var a := fd + "/" + td;
    var b := a + [Sep5] + hub;
    assert SlotsText(fd, td, hub, addr) == b + " (" + addr + ")";
    assert b[..|a|] == a;
    assert a[0..f] == fd;
  }

  /** A piece w of x at a, lacking c, adds nothing to the count of c. */
  lemma CountPiece(x: string, c: char, a: nat, b: nat, w: string)
    requires b == a + |w| && Piece(x, a, w) && Lacks(w, c)
    ensures CountFrom(x, c, a) == CountFrom(x, c, b)
  {
    LacksAt(x, a, b, w, c);
    CountSkip(x, c, a, b);
  }

  /** An occurrence of c at k adds one to the count from k. */
  lemma CountHit(x: string, c: char, k: nat, k1: nat)
    requires k < |x| && x[k] == c && k1 == k + 1
    ensures CountFrom(x, c, k) == 1 + CountFrom(x, c, k1)
  {
  }

  /** Another character at k adds nothing. */
  lemma CountMiss(x: string, c: char, k: nat, k1: nat)
    requires k < |x| && x[k] != c && k1 == k + 1
    ensures CountFrom(x, c, k) == CountFrom(x, c, k1)
  {
  }

  /** A piece w of x at a, lacking c and followed by c at b: find reaches b. */
  lemma FindPiece(x: string, c: char, a: nat, b: nat, w: string)
    requires b == a + |w| && Piece(x, a, w) && b < |x| && Lacks(w, c) && x[b] == c
    ensures Find(x, c, a) == Some(b)
  {
    LacksAt(x, a, b, w, c);
    FindIs(x, c, a, b);
  }

  /** As FindPiece, and the text find passes over is w. */
  lemma PieceFound(x: string, c: char, a: nat, b: nat, w: string)
    requires b == a + |w| && Piece(x, a, w) && b < |x| && Lacks(w, c) && x[b] == c
    ensures Find(x, c, a) == Some(b) && x[a..b] == w
  {
    FindPiece(x, c, a, b, w);
    PieceSlice(x, a, b, w);
  }

  /** From the start a of the slots part exactly one 0x05 follows. */
  lemma SlotsCount(x: string, a: nat, f: nat, s: nat, o: nat,
                   fd: string, td: string, hub: string, addr: string)
    requires AllDigits(fd) && AllDigits(td) && Lacks(hub, Sep5) && Lacks(addr, Sep5)
    requires SlotsAt(x, a, f, s, o, fd, td, hub, addr)
    ensures CountFrom(x, Sep5, a) == 1
  {
    SlotCountsCount(x, a, f, s, fd, td);
    CountHit(x, Sep5, s, s + 1);
    HubCount(x, s, o, hub, addr);
  }

  /** The slot counts and the '/' between them hold no 0x05. */
  lemma SlotCountsCount(x: string, a: nat, f: nat, s: nat, fd: string, td: string)
    requires AllDigits(fd) && AllDigits(td)
    requires f == a + |fd| && s == f + 1 + |td| && s <= |x|
    requires Piece(x, a, fd) && x[f] == '/' && Piece(x, f + 1, td)
    ensures CountFrom(x, Sep5, a) == CountFrom(x, Sep5, s)
  {
    DigitsLack(fd);
    DigitsLack(td);
    CountPiece(x, Sep5, a, f, fd);
    CountMiss(x, Sep5, f, f + 1);
    CountPiece(x, Sep5, f + 1, s, td);
  }

  /** After the last 0x05, " <hub> (<address>)" holds none. */
  lemma HubCount(x: string, s: nat, o: nat, hub: string, addr: string)
    requires Lacks(hub, Sep5) && Lacks(addr, Sep5)
    requires o == s + 1 + |hub| && |x| == o + 3 + |addr|
    requires Piece(x, s + 1, hub) && x[o] == ' ' && x[o + 1] == '('
    requires Piece(x, o + 2, addr) && x[|x| - 1] == ')'
    ensures CountFrom(x, Sep5, s + 1) == 0
  {
    CountPiece(x, Sep5, s + 1, o, hub);
    CountMiss(x, Sep5, o, o + 1);
    CountMiss(x, Sep5, o + 1, o + 2);
    CountPiece(x, Sep5, o + 2, |x| - 1, addr);
    CountMiss(x, Sep5, |x| - 1, |x|);
  }

  /** The 0x05 after the slot counts is the last one of the record. */
  lemma SlotsLastSep(x: string, a: nat, f: nat, s: nat, o: nat,
                     fd: string, td: string, hub: string, addr: string)
    requires Lacks(hub, Sep5) && Lacks(addr, Sep5)
    requires SlotsAt(x, a, f, s, o, fd, td, hub, addr)
    ensures RFind(x, Sep5) == Some(s)
  {
    LacksAt(x, s + 1, o, hub, Sep5);
    LacksAt(x, o + 2, |x| - 1, addr, Sep5);
    RFindIs(x, Sep5, s);
  }

  /** In a file record the 0x05 after the name and the one after the slots
      are the only two counted from the nick's space at j. */
  lemma FileCount(x: string, j: nat, n: nat, e: nat, a: nat, f: nat, s: nat, o: nat,
                  name: string, sd: string, fd: string, td: string, hub: string, addr: string)
    requires AllDigits(sd) && AllDigits(fd) && AllDigits(td)
    requires Lacks(name, Sep5) && Lacks(hub, Sep5) && Lacks(addr, Sep5)
    requires j < |x| && x[j] == ' ' && FileNameAndSizeAt(x, j, n, e, name, sd)
    requires a == e + 1 && SlotsAt(x, a, f, s, o, fd, td, hub, addr)
    ensures CountFrom(x, Sep5, j) == 2
  {
    NameCount(x, j, n, name);
    CountHit(x, Sep5, n, n + 1);
    SizeCount(x, n, e, a, sd);
    SlotsCount(x, a, f, s, o, fd, td, hub, addr);
  }

  /** The space at j and the name after it hold no 0x05. */
  lemma NameCount(x: string, j: nat, n: nat, name: string)
    requires j < |x| && x[j] == ' ' && n == j + 1 + |name| && Piece(x, j + 1, name)
    requires Lacks(name, Sep5)
    ensures CountFrom(x, Sep5, j) == CountFrom(x, Sep5, n)
  {
    CountMiss(x, Sep5, j, j + 1);
    CountPiece(x, Sep5, j + 1, n, name);
  }

  /** The size after the 0x05 at n and the space after it hold no 0x05. */
  lemma SizeCount(x: string, n: nat, e: nat, a: nat, sd: string)
    requires AllDigits(sd) && e == n + 1 + |sd| && a == e + 1 && e < |x|
    requires Piece(x, n + 1, sd) && x[e] == ' '
    ensures CountFrom(x, Sep5, n + 1) == CountFrom(x, Sep5, a)
  {
    DigitsLack(sd);
    CountPiece(x, Sep5, n + 1, e, sd);
    CountMiss(x, Sep5, e, a);
  }

  /** The file head of a laid-out record: the name up to the 0x05, the size
      up to the next space. */
  lemma FileHeadBack(x: string, j: nat, n: nat, e: nat, name: string, sd: string)
    requires AllDigits(sd) && Lacks(name, Sep5) && FileNameAndSizeAt(x, j, n, e, name, sd)
    ensures FileHead(x, j + 1) == Some(Head(File, name, Atoi(sd), e))
  {
    PieceFound(x, Sep5, j + 1, n, name);
    DigitsLack(sd);
    PieceFound(x, ' ', n + 1, e, sd);
    FileHeadAt(x, j + 1, n, e);
  }

  /** The directory head of a laid-out record: the name runs to the space
      before the slots, the last space before the last 0x05. */
  lemma DirectoryHeadBack(x: string, j: nat, e: nat, a: nat, f: nat, s: nat, o: nat,
                          name: string, fd: string, td: string, hub: string, addr: string)
    requires name != [] && AllDigits(fd) && AllDigits(td)
    requires Lacks(name, Sep5) && Lacks(hub, Sep5) && Lacks(addr, Sep5)
    requires j < |x| && x[j] == ' ' && DirectoryNameAndSpaceAt(x, j, e, name)
    requires a == e + 1 && SlotsAt(x, a, f, s, o, fd, td, hub, addr)
    ensures NameHead(x, j) == Some(Head(Directory, name + "\\", 0, e))
  {
    DirectoryCount(x, j, e, a, f, s, o, name, fd, td, hub, addr);
    DirectoryNameBack(x, j, e, a, f, s, o, name, fd, td, hub, addr);
  }

  /** In a directory record only the 0x05 after the slots is counted from
      the nick's space at j. */
  lemma DirectoryCount(x: string, j: nat, e: nat, a: nat, f: nat, s: nat, o: nat,
                       name: string, fd: string, td: string, hub: string, addr: string)
    requires AllDigits(fd) && AllDigits(td)
    requires Lacks(name, Sep5) && Lacks(hub, Sep5) && Lacks(addr, Sep5)
    requires j < |x| && x[j] == ' ' && DirectoryNameAndSpaceAt(x, j, e, name)
    requires a == e + 1 && SlotsAt(x, a, f, s, o, fd, td, hub, addr)
    ensures CountFrom(x, Sep5, j) == 1
  {
    NameCount(x, j, e, name);
    CountMiss(x, Sep5, e, a);
    SlotsCount(x, a, f, s, o, fd, td, hub, addr);
  }

  /** DirectoryHead from just after the nick's space finds the name. */
  lemma DirectoryNameBack(x: string, j: nat, e: nat, a: nat, f: nat, s: nat, o: nat,
                          name: string, fd: string, td: string, hub: string, addr: string)
    requires name != [] && AllDigits(fd) && AllDigits(td)
    requires Lacks(hub, Sep5) && Lacks(addr, Sep5)
    requires j < |x| && DirectoryNameAndSpaceAt(x, j, e, name)
    requires a == e + 1 && SlotsAt(x, a, f, s, o, fd, td, hub, addr)
    ensures DirectoryHead(x, j + 1) == Some(Head(Directory, name + "\\", 0, e))
  {
    SlotsLastSep(x, a, f, s, o, fd, td, hub, addr);
    SpaceBeforeSlots(x, e, a, f, s, fd, td);
    PieceSlice(x, j + 1, e, name);
    DirectoryHeadIs(x, j + 1, e, s, name);
  }

  /** The space before the slots part is the last space before the 0x05 at s. */
  lemma SpaceBeforeSlots(x: string, e: nat, a: nat, f: nat, s: nat, fd: string, td: string)
    requires AllDigits(fd) && AllDigits(td)
    requires a == e + 1 && f == a + |fd| && s == f + 1 + |td| && s <= |x| && x[e] == ' '
    requires Piece(x, a, fd) && x[f] == '/' && Piece(x, f + 1, td)
    ensures RFindBefore(x, ' ', s) == Some(e)
  {
    DigitsLack(fd);
    DigitsLack(td);
    LacksAt(x, a, f, fd, ' ');
    LacksAt(x, f + 1, s, td, ' ');
    RFindBeforeIs(x, ' ', s, e);
  }

  /** DirectoryHead once the last 0x05 and the last space before it are located. */
  lemma DirectoryHeadIs(x: string, i: nat, e: nat, s: nat, name: string)
    requires 0 < i < e < s < |x| && RFind(x, Sep5) == Some(s)
    requires RFindBefore(x, ' ', s) == Some(e) && x[i..e] == name
    ensures DirectoryHead(x, i) == Some(Head(Directory, name + "\\", 0, e))
  {
    assert s - 1 + 1 == s;
  }

  lemma {:induction false} RFindBeforeIs(s: string, c: char, end: nat, k: nat)
    requires k < end <= |s| && s[k] == c
    requires forall m :: k < m < end ==> s[m] != c
    ensures RFindBefore(s, c, end) == Some(k)
    decreases end
  {
    if end - 1 != k {
      RFindBeforeIs(s, c, end - 1, k);
    }
  }

  /** The slots part after a located name part reads back as the slot
      counts, truncated to uint8_t, the hub name and the hub address. */
  lemma TailBack(x: string, nick: string, h: Head, a: nat, f: nat, s: nat, o: nat,
                 fd: string, td: string, hub: string, addr: string)
    requires AllDigits(fd) && AllDigits(td) && LacksOpen(addr)
    requires h.end < |x| && a == h.end + 1 && SlotsAt(x, a, f, s, o, fd, td, hub, addr)
    ensures Tail(x, nick, h)
            == Some(SrRecord(nick, h.kind, h.file, h.size, U8(Atoi(fd)), U8(Atoi(td)), hub, addr))
  {
    TailDelimsBack(x, a, f, s, o, fd, td, hub, addr);
    TailFields(x, nick, h, Delims(f, s, o, |x| - 1), fd, td, hub, addr);
  }

  /** The four tail delimiters of a laid-out slots part. */
  lemma TailDelimsBack(x: string, a: nat, f: nat, s: nat, o: nat,
                       fd: string, td: string, hub: string, addr: string)
    requires AllDigits(fd) && AllDigits(td) && LacksOpen(addr)
    requires SlotsAt(x, a, f, s, o, fd, td, hub, addr)
    ensures TailDelims(x, a) == Some(Delims(f, s, o, |x| - 1))
  {
    SlashAndSep(x, a, f, s, fd, td);
    LastOpen(x, o, addr);
    RFindIs(x, ')', |x| - 1);
    TailDelimsAt(x, a, f, s, o, |x| - 1);
  }

  /** The '/' and the 0x05 after the slot counts are found from a. */
  lemma SlashAndSep(x: string, a: nat, f: nat, s: nat, fd: string, td: string)
    requires AllDigits(fd) && AllDigits(td)
    requires f == a + |fd| && s == f + 1 + |td| && s < |x|
    requires Piece(x, a, fd) && x[f] == '/' && Piece(x, f + 1, td) && x[s] == Sep5
    ensures Find(x, '/', a) == Some(f) && Find(x, Sep5, f + 1) == Some(s)
  {
    DigitsLack(fd);
    DigitsLack(td);
    FindPiece(x, '/', a, f, fd);
    FindPiece(x, Sep5, f + 1, s, td);
  }

  /** The record cut at located delimiters, with the fields between them known. */
  lemma TailFields(x: string, nick: string, h: Head, d: Delims, fd: string, td: string,
                   hub: string, addr: string)
    requires h.end + 1 <= d.slash < d.sep < |x| && d.paren + 1 < |x| && d.close < |x|
    requires d.slash == h.end + 1 + |fd| && Piece(x, h.end + 1, fd)
    requires d.sep == d.slash + 1 + |td| && Piece(x, d.slash + 1, td)
    requires d.paren == d.sep + 1 + |hub| && Piece(x, d.sep + 1, hub)
    requires d.close == d.paren + 2 + |addr| && Piece(x, d.paren + 2, addr)
    ensures TailRecord(x, nick, h, d)
            == SrRecord(nick, h.kind, h.file, h.size, U8(Atoi(fd)), U8(Atoi(td)), hub, addr)
  {
    TailFree(x, nick, h, d, fd);
    TailTotal(x, nick, h, d, td);
    TailHub(x, nick, h, d, hub);
    TailAddress(x, nick, h, d, addr);
  }

  /** The free slots are read from the text before the '/'. */
  lemma TailFree(x: string, nick: string, h: Head, d: Delims, fd: string)
    requires h.end + 1 <= d.slash < d.sep < |x| && d.paren + 1 < |x| && d.close < |x|
    requires d.slash == h.end + 1 + |fd| && Piece(x, h.end + 1, fd)
    ensures TailRecord(x, nick, h, d).freeSlots == U8(Atoi(fd))
  {
    PieceSlice(x, h.end + 1, d.slash, fd);
  }

  /** The total slots are read from the text between the '/' and the 0x05. */
  lemma TailTotal(x: string, nick: string, h: Head, d: Delims, td: string)
    requires h.end + 1 <= d.slash < d.sep < |x| && d.paren + 1 < |x| && d.close < |x|
    requires d.sep == d.slash + 1 + |td| && Piece(x, d.slash + 1, td)
    ensures TailRecord(x, nick, h, d).slots == U8(Atoi(td))
  {
    PieceSlice(x, d.slash + 1, d.sep, td);
  }

  /** The hub name is the text between the 0x05 and the " (". */
  lemma TailHub(x: string, nick: string, h: Head, d: Delims, hub: string)
    requires h.end + 1 <= d.slash < d.sep < |x| && d.paren + 1 < |x| && d.close < |x|
    requires d.paren == d.sep + 1 + |hub| && Piece(x, d.sep + 1, hub)
    ensures TailRecord(x, nick, h, d).hubName == hub
  {
    PieceSlice(x, d.sep + 1, d.paren, hub);
  }

  /** The hub address is the text between the " (" and the ')'. */
  lemma TailAddress(x: string, nick: string, h: Head, d: Delims, addr: string)
    requires h.end + 1 <= d.slash < d.sep < |x| && d.paren + 1 < |x| && d.close < |x|
    requires d.close == d.paren + 2 + |addr| && Piece(x, d.paren + 2, addr)
    ensures TailRecord(x, nick, h, d).hubIpPort == addr
  {
    PieceSlice(x, d.paren + 2, d.close, addr);
  }

  /** " (" followed by an address free of " (" and a final ')' makes the
      opening at o the last one. */
  lemma LastOpen(x: string, o: nat, addr: string)
    requires LacksOpen(addr)
    requires o + 3 + |addr| == |x| && x[o] == ' ' && x[o + 1] == '('
    requires Piece(x, o + 2, addr) && x[|x| - 1] == ')'
    ensures RFindPair(x, ' ', '(') == Some(o)
  {
    PieceSlice(x, o + 2, |x| - 1, addr);
    forall m | o < m < |x| - 1
      ensures !PairAt(x, m, ' ', '(')
    {
      if m >= o + 2 && m + 1 < |x| - 1 {
        assert x[m] == addr[m - o - 2] && x[m + 1] == addr[m - o - 1];
        assert !PairAt(addr, m - o - 2, ' ', '(');
      }
    }
    RFindPairIs(x, ' ', '(', o);
  }
}
