/** The bounded chat/log history of a hub or private chat
    (airdcpp/MessageCache.h): a double-ended queue of messages, each with a
    read flag, that drops its oldest entry once it grows past the limit
    held in a settings entry. */
module Messages {
  const Two31: int := 0x8000_0000
  const Two63: int := 0x8000_0000_0000_0000
  const Two64: int := 0x1_0000_0000_0000_0000

  /** Message::TYPE_CHAT or Message::TYPE_LOG. */
  datatype MessageType = Chat | Log

  /** A cached message: its type, its text and whether it has been read. */
  datatype Message = Message(kind: MessageType, text: string, read: bool)

  /** The value of an int setting. */
  predicate IsInt32(x: int) {
    -Two31 <= x < Two31
  }

  /** The limit as `messages.size() > limit` sees it: the int is converted
      to the unsigned size type, so a negative limit becomes a huge one. */
  function AsSize(limit: int): (n: nat)
    requires IsInt32(limit)
    ensures limit >= 0 ==> n == limit
    ensures limit < 0 ==> n >= Two64 - Two31
  {
    if limit < 0 then limit + Two64 else limit
  }

  // ------------------------------------------------------------ adding

  /** The cache after `add`: the message goes to the back, and the front
      one goes when the cache then holds more than the limit. */
  function Added(ms: seq<Message>, m: Message, limit: int): seq<Message>
    requires IsInt32(limit)
  {
    var pushed := ms + [m];
    if |pushed| > AsSize(limit) then pushed[1..] else pushed
  }

  /** A series of adds, oldest first. */
  function AddAll(ms: seq<Message>, ns: seq<Message>, limit: int): seq<Message>
    requires IsInt32(limit)
    decreases |ns|
  {
    if ns == [] then ms
    else Added(AddAll(ms, ns[..|ns| - 1], limit), ns[|ns| - 1], limit)
  }

  /** The last n entries of s, or all of s when it is shorter. */
  function Newest(s: seq<Message>, n: nat): (r: seq<Message>)
    ensures |r| == if |s| <= n then |s| else n
    ensures r == s[|s| - |r|..]
  {
    if |s| <= n then s else s[|s| - n..]
  }

  /** One add removes at most one message, the oldest, and only when the
      cache would otherwise exceed the limit; the new message is last. */
  lemma AddDropsAtMostOldest(ms: seq<Message>, m: Message, limit: int)
    requires IsInt32(limit)
    ensures var r := Added(ms, m, limit);
            && (|ms| + 1 > AsSize(limit) ==> if ms == [] then r == [] else r == ms[1..] + [m])
            && (|ms| + 1 <= AsSize(limit) ==> r == ms + [m])
  {
    if ms != [] {
      assert (ms + [m])[1..] == ms[1..] + [m];
    }
  }

  /** A cache within the limit stays within it. */
  lemma AddKeepsBound(ms: seq<Message>, m: Message, limit: int)
    requires 0 <= limit < Two31
    requires |ms| <= limit
    ensures |Added(ms, m, limit)| <= limit
  {
  }

  /** Starting within the limit, any series of adds leaves exactly the
      newest `limit` messages, in the order they were added: eviction is
      first in, first out. */
  lemma {:induction false} AddAllKeepsNewest(ms: seq<Message>, ns: seq<Message>, limit: int)
    requires 0 <= limit < Two31
    requires |ms| <= limit
    ensures AddAll(ms, ns, limit) == Newest(ms + ns, limit)
  {
    if ns == [] {
      assert ms + ns == ms;
    } else {
      var p := ns[..|ns| - 1];
      var x := ns[|ns| - 1];
      AddAllKeepsNewest(ms, p, limit);
      var r := Newest(ms + p, limit);
      assert ms + ns == (ms + p) + [x];
      if |ms + p| < limit {
        assert r == ms + p;
      } else {
        assert |r| == limit;
        assert (r + [x])[1..] == (ms + ns)[|ms + ns| - limit..];
      }
    }
  }

  /** With limit 0 every message is dropped as soon as it is added. */
  lemma ZeroLimitStaysEmpty(ns: seq<Message>)
    ensures AddAll([], ns, 0) == []
  {
    AddAllKeepsNewest([], ns, 0);
  }

  /** A negative limit never evicts anything (below 2^63 messages). */
  lemma {:induction false} NegativeLimitKeepsAll(ms: seq<Message>, ns: seq<Message>, limit: int)
    requires -Two31 <= limit < 0
    requires |ms| + |ns| < Two63
    ensures AddAll(ms, ns, limit) == ms + ns
  {
    if ns != [] {
      var p := ns[..|ns| - 1];
      NegativeLimitKeepsAll(ms, p, limit);
      assert ms + ns == (ms + p) + [ns[|ns| - 1]];
    }
  }

  // ------------------------------------------------------------ read flags

  /** Whether m counts as unread for `countUnread(t)`. */
  predicate UnreadOf(m: Message, t: MessageType) {
    m.kind == t && !m.read
  }

  /** The number of unread messages of type t. */
  function UnreadOfType(ms: seq<Message>, t: MessageType): nat
    decreases |ms|
  {
    if ms == [] then 0
    else UnreadOfType(ms[..|ms| - 1], t) + (if UnreadOf(ms[|ms| - 1], t) then 1 else 0)
  }

  /** The number of unread messages of either type. */
  function UnreadAll(ms: seq<Message>): nat
    decreases |ms|
  {
    if ms == [] then 0
    else UnreadAll(ms[..|ms| - 1]) + (if ms[|ms| - 1].read then 0 else 1)
  }

  /** Every message with its flag set; nothing else changes. */
  function MarkedRead(ms: seq<Message>): (r: seq<Message>)
    ensures |r| == |ms|
    ensures forall k :: 0 <= k < |ms| ==> r[k] == ms[k].(read := true)
  {
    seq(|ms|, k requires 0 <= k < |ms| => ms[k].(read := true))
  }

  /** The `std::accumulate` of countUnread: a left fold that adds one per
      unread message of type t. */
  function Accumulate(ms: seq<Message>, t: MessageType, acc: int): int
    decreases |ms|
  {
    if ms == [] then acc
    else Accumulate(ms[1..], t, if UnreadOf(ms[0], t) then acc + 1 else acc)
  }

  /** Counting from the front gives the same as counting from the back. */
  lemma {:induction false} UnreadOfTypeFront(ms: seq<Message>, t: MessageType)
    requires ms != []
    ensures UnreadOfType(ms, t) == (if UnreadOf(ms[0], t) then 1 else 0) + UnreadOfType(ms[1..], t)
    decreases |ms|
  {
    if |ms| > 1 {
      var p := ms[..|ms| - 1];
      UnreadOfTypeFront(p, t);
      assert p[1..] == ms[1..][..|ms[1..]| - 1];
      assert p[0] == ms[0];
    } else {
      assert ms[1..] == [];
      assert ms[..0] == [];
    }
  }

  /** The fold counts exactly the unread messages of type t. */
  lemma {:induction false} AccumulateCounts(ms: seq<Message>, t: MessageType, acc: int)
    ensures Accumulate(ms, t, acc) == acc + UnreadOfType(ms, t)
    decreases |ms|
  {
    if ms != [] {
      UnreadOfTypeFront(ms, t);
      AccumulateCounts(ms[1..], t, if UnreadOf(ms[0], t) then acc + 1 else acc);
    }
  }

  /** No unread message of type t is left exactly when every message of
      that type has been read. */
  lemma {:induction false} NoUnreadIff(ms: seq<Message>, t: MessageType)
    ensures UnreadOfType(ms, t) == 0 <==> forall k :: 0 <= k < |ms| && ms[k].kind == t ==> ms[k].read
    decreases |ms|
  {
    if ms != [] {
      var p := ms[..|ms| - 1];
      NoUnreadIff(p, t);
      assert forall k :: 0 <= k < |p| ==> p[k] == ms[k];
    }
  }

  /** The count setRead returns is the chat count plus the log count. */
  lemma {:induction false} UnreadAllSplits(ms: seq<Message>)
    ensures UnreadAll(ms) == UnreadOfType(ms, Chat) + UnreadOfType(ms, Log)
    decreases |ms|
  {
    if ms != [] {
      UnreadAllSplits(ms[..|ms| - 1]);
    }
  }

  /** After setRead nothing is unread: a second setRead returns 0 and
      countUnread is 0 for both types. */
  lemma {:induction false} NothingUnreadAfterMarking(ms: seq<Message>)
    ensures UnreadAll(MarkedRead(ms)) == 0
    ensures UnreadOfType(MarkedRead(ms), Chat) == 0 && UnreadOfType(MarkedRead(ms), Log) == 0
    decreases |ms|
  {
    if ms != [] {
      var p := ms[..|ms| - 1];
      NothingUnreadAfterMarking(p);
      assert MarkedRead(ms)[..|ms| - 1] == MarkedRead(p);
    }
  }

  class MessageCache {
    /** The cached messages, oldest first. */
    var messages: seq<Message>

    constructor()
      ensures messages == []
    {
      messages := [];
    }

    /** The copy constructor takes the other cache's messages. */
    constructor Copy(other: MessageCache)
      ensures messages == other.messages
    {
      messages := other.messages;
    }

    /** `add` (also reached through addMessage): push at the back, then pop
        the front if the size exceeds the current value of the setting. */
    method Add(m: Message, limit: int)
      requires IsInt32(limit)
      modifies this
      ensures messages == Added(old(messages), m, limit)
    {
      messages := messages + [m];
      if |messages| > AsSize(limit) {
        messages := messages[1..];
      }
    }

    /** `getMessages`: a copy of the queue, in order. */
    function GetMessages(): (ms: seq<Message>)
      reads this
      ensures ms == messages
    {
      messages
    }

    /** `size`: the number of cached messages. */
    function Size(): (n: int)
      reads this
      ensures n == |GetMessages()| && n >= UnreadAll(messages)
    {
      UnreadAtMost(messages);
      |messages|
    }

    /** `setRead`: walk the queue, count each unread message and mark it
        read; return the count. */
    method SetRead() returns (updated: int)
      modifies this
      ensures updated == UnreadAll(old(messages))
      ensures messages == MarkedRead(old(messages))
    {
      updated := 0;
      var i := 0;
      while i < |messages|
        invariant i <= |messages| == |old(messages)|
        invariant updated == UnreadAll(old(messages)[..i])
        invariant forall k :: 0 <= k < i ==> messages[k] == old(messages)[k].(read := true)
        invariant forall k :: i <= k < |messages| ==> messages[k] == old(messages)[k]
      {
        assert old(messages)[..i + 1][..i] == old(messages)[..i];
        if !messages[i].read {
          updated := updated + 1;
          messages := messages[i := messages[i].(read := true)];
        }
        i := i + 1;
      }
      assert old(messages)[..i] == old(messages);
    }

    /** `countUnread(t)`: the number of unread messages of type t. */
    function CountUnread(t: MessageType): (n: int)
      reads this
      ensures n == UnreadOfType(messages, t)
    {
      AccumulateCounts(messages, t, 0);
      Accumulate(messages, t, 0)
    }
  }

  /** No more messages are unread than there are messages. */
  lemma {:induction false} UnreadAtMost(ms: seq<Message>)
    ensures UnreadAll(ms) <= |ms|
    decreases |ms|
  {
    if ms != [] {
      UnreadAtMost(ms[..|ms| - 1]);
    }
  }
}
