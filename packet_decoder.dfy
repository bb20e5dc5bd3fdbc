/** The encrypted-datagram gate of SearchManager::onData
    (SearchManager.cpp:221-261) as specification functions: which datagrams
    are tried against the search keys, which key is taken, which padding
    bytes are zeroed, and where the C-string payload ends. The imperative
    loop that computes this is SearchManager.DecodePacket (manager.dfy),
    proved equal to Decode. */
module PacketDecoder {
  import opened Strings

  type Byte = b: int | 0 <= b < 0x100

  /** A 16-byte AES-128 search key. */
  type Key = k: seq<Byte> | |k| == 16 witness seq(16, i => 0)

  /** AES-128-CBC decryption with an all-zero IV under a key, byte for byte
      (OpenSSL's EVP calls, which are not part of this model). */
  type Cipher = (Key, seq<Byte>) -> seq<Byte>

  /** What onData goes on to parse. `Raw`: the datagram itself. `Decrypted`:
      the bytes from offset 16 of a decryption up to its first zero byte.
      `Unterminated`: a decryption was taken but holds no zero byte from
      offset 16 on, so reading it as a C string runs past the buffer. */
  datatype Payload = Raw(bytes: seq<Byte>) | Decrypted(bytes: seq<Byte>) | Unterminated

  /** `aLen >= 32 && (aLen & 15) == 0`: at least two AES blocks, and whole blocks. */
  predicate LooksEncrypted(n: nat) {
    n >= 32 && n % 16 == 0
  }

  /** Every stored key turns the datagram into a block of its own length. */
  predicate FitsAll(keys: seq<Key>, buf: seq<Byte>, decrypt: Cipher) {
    forall k :: k in keys ==> |decrypt(k, buf)| == |buf|
  }

  /** The padding byte p = out[aLen - 1] is in 1..16, which is all it takes
      for a key to be taken. */
  predicate PadAccepted(out: seq<Byte>) {
    |out| > 0 && 1 <= out[|out| - 1] <= 16
  }

  /** The length of the run of padding bytes equal to p, counted from
      position |out| - p upward and stopping at the first mismatch: the
      bytes the inner loop zeroes before its `break`. */
  function MatchedRun(out: seq<Byte>, p: nat, r: nat): (n: nat)
    requires p <= |out| && r <= p
    requires forall q :: |out| - p <= q < |out| - p + r ==> out[q] == p
    ensures r <= n <= p
    ensures forall q :: |out| - p <= q < |out| - p + n ==> out[q] == p
    ensures n < p ==> out[|out| - p + n] != p
    decreases p - r
  {
    if r == p || out[|out| - p + r] != p then r else MatchedRun(out, p, r + 1)
  }

  /** The decrypted block after the padding loop: the matched run is zeroed,
      every other byte is as decrypted. */
  function ZeroPadding(out: seq<Byte>): (z: seq<Byte>)
    requires PadAccepted(out) && out[|out| - 1] as int <= |out|
    ensures |z| == |out|
  {
    var p := out[|out| - 1];
    var n := MatchedRun(out, p, 0);
    seq(|out|, i requires 0 <= i < |out| => if |out| - p <= i < |out| - p + n then 0 else out[i])
  }

  /** The bytes of a C string starting at s[0]: up to the first zero byte;
      None when s holds no zero byte at all. */
  function CString(s: seq<Byte>): (r: Option<seq<Byte>>)
    ensures r.Some? ==> |r.value| < |s| && r.value == s[..|r.value|] && s[|r.value|] == 0
    ensures r.Some? ==> forall k :: 0 <= k < |r.value| ==> s[k] != 0
    ensures r.None? ==> forall k :: 0 <= k < |s| ==> s[k] != 0
  {
    if s == [] then None
    else if s[0] == 0 then Some([])
    else match CString(s[1..])
      case None => None
      case Some(t) => Some([s[0]] + t)
  }

  /** The first key at or after `from` whose decryption has an accepted padding byte. */
  function FirstAccepted(keys: seq<Key>, buf: seq<Byte>, decrypt: Cipher, from: nat): (r: Option<nat>)
    ensures r.Some? ==> from <= r.value < |keys| && PadAccepted(decrypt(keys[r.value], buf))
    ensures r.Some? ==> forall j :: from <= j < r.value ==> !PadAccepted(decrypt(keys[j], buf))
    ensures r.None? ==> forall j :: from <= j < |keys| ==> !PadAccepted(decrypt(keys[j], buf))
    decreases |keys| - from
  {
    if from >= |keys| then None
    else if PadAccepted(decrypt(keys[from], buf)) then Some(from)
    else FirstAccepted(keys, buf, decrypt, from + 1)
  }

  /** The payload of one taken decryption: offset 16 of the zero-padded block, read as a C string. */
  function TakenPayload(out: seq<Byte>): Payload
    requires PadAccepted(out) && |out| >= 32
  {
    match CString(ZeroPadding(out)[16..])
    case None => Unterminated
    case Some(t) => Decrypted(t)
  }

  /** What onData parses for datagram `buf`, given the stored search keys. */
  function Decode(keys: seq<Key>, buf: seq<Byte>, decrypt: Cipher): Payload
    requires FitsAll(keys, buf, decrypt)
  {
    if !LooksEncrypted(|buf|) then Raw(buf)
    else match FirstAccepted(keys, buf, decrypt, 0)
      case None => Raw(buf)
      case Some(i) => TakenPayload(decrypt(keys[i], buf))
  }

  /** A datagram without the encrypted shape is parsed as it came, whatever the keys. */
  lemma RawUnlessEncryptedShape(keys: seq<Key>, buf: seq<Byte>, decrypt: Cipher)
    requires FitsAll(keys, buf, decrypt)
    requires !LooksEncrypted(|buf|)
    ensures Decode(keys, buf, decrypt) == Raw(buf)
  {
  }

  /** No accepted padding byte under any key: the raw bytes are parsed unchanged. */
  lemma RawWhenNoKeyAccepted(keys: seq<Key>, buf: seq<Byte>, decrypt: Cipher)
    requires FitsAll(keys, buf, decrypt)
    requires forall j :: 0 <= j < |keys| ==> !PadAccepted(decrypt(keys[j], buf))
    ensures Decode(keys, buf, decrypt) == Raw(buf)
  {
    assert FirstAccepted(keys, buf, decrypt, 0).None?;
  }

  lemma {:induction false} FirstAcceptedPrefix(keys: seq<Key>, more: seq<Key>, buf: seq<Byte>, decrypt: Cipher, from: nat, i: nat)
    requires FirstAccepted(keys, buf, decrypt, from) == Some(i)
    ensures FirstAccepted(keys + more, buf, decrypt, from) == Some(i)
    decreases |keys| - from
  {
    assert (keys + more)[from] == keys[from];
    if from < i {
      FirstAcceptedPrefix(keys, more, buf, decrypt, from + 1, i);
    }
  }

  /** The first key whose padding byte is in 1..16 decides the payload:
      keys stored after it are never tried. */
  lemma FirstAcceptedKeyDecides(keys: seq<Key>, more: seq<Key>, buf: seq<Byte>, decrypt: Cipher, i: nat)
    requires FitsAll(keys + more, buf, decrypt)
    requires LooksEncrypted(|buf|)
    requires i < |keys| && PadAccepted(decrypt(keys[i], buf))
    requires forall j :: 0 <= j < i ==> !PadAccepted(decrypt(keys[j], buf))
    ensures Decode(keys + more, buf, decrypt) == TakenPayload(decrypt(keys[i], buf))
  {
    assert FirstAccepted(keys, buf, decrypt, 0) == Some(i);
    FirstAcceptedPrefix(keys, more, buf, decrypt, 0, i);
    assert (keys + more)[i] == keys[i];
  }

  /** When all p padding bytes equal p, they are all zeroed, so the payload
      is terminated: it is the longest zero-free prefix of the bytes between
      the discarded first block and the padding. */
  lemma FullPaddingTerminates(out: seq<Byte>)
    requires PadAccepted(out) && |out| >= 32
    requires forall q :: |out| - out[|out| - 1] <= q < |out| ==> out[q] == out[|out| - 1]
    ensures TakenPayload(out).Decrypted?
    ensures var t := TakenPayload(out).bytes;
            16 + |t| <= |out| - out[|out| - 1] && t == out[16..16 + |t|]
  {
    var p := out[|out| - 1];
    var z := ZeroPadding(out);
    assert MatchedRun(out, p, 0) == p;
    assert z[|out| - p] == 0;
    var body := z[16..];
    assert body[|out| - p - 16] == 0;
    if CString(body).None? {
      assert false;
    }
    var t := CString(body).value;
    forall k | 0 <= k < |t|
      ensures t[k] == out[16 + k]
    {
      assert t[k] == body[k] == z[16 + k];
    }
  }

  /** A first padding byte that differs from p stops the loop before it
      zeroes anything: the key is still taken, and with no zero byte from
      offset 16 on, the payload is an unterminated read. */
  lemma MismatchStillTaken(out: seq<Byte>)
    requires PadAccepted(out) && |out| >= 32
    requires out[|out| - out[|out| - 1]] != out[|out| - 1]
    requires forall q :: 16 <= q < |out| ==> out[q] != 0
    ensures TakenPayload(out) == Unterminated
  {
    var p := out[|out| - 1];
    assert MatchedRun(out, p, 0) == 0;
    var z := ZeroPadding(out);
    assert z == out;
    assert forall k :: 0 <= k < |z[16..]| ==> z[16..][k] == out[16 + k];
  }

  /** A zero at offset 16 of the taken block yields an empty payload. */
  lemma ZeroAtSixteenGivesEmpty(out: seq<Byte>)
    requires PadAccepted(out) && |out| >= 32
    requires out[16] == 0
    ensures TakenPayload(out) == Decrypted([])
  {
    var z := ZeroPadding(out);
    assert z[16] == 0;
    assert z[16..][0] == 0;
  }
}
