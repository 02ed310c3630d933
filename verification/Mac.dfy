/** Key schedule inputs and tag computation around the foreign primitives (PROTOCOL.md 7.2, 9.2). */
module Mac {
  import opened Basics

  type Bytes8 = s: seq<byte> | |s| == 8 witness [0, 0, 0, 0, 0, 0, 0, 0]
  type Bytes16 = s: seq<byte> | |s| == 16 witness seq(16, _ => 0)
  type Bytes32 = s: seq<byte> | |s| == 32 witness seq(32, _ => 0)

  /**
   * The primitives of the foreign crates, as uninterpreted functions: HKDF-Expand of a 32-byte
   * key, HMAC-SHA256, SipHash-2-4, and the tag of AEAD_CHACHA20_POLY1305 on an empty plaintext.
   */
  datatype Crypto = Crypto(
    hkdf: (Bytes32, seq<byte>) -> Bytes32,
    hmac: (Bytes32, seq<byte>) -> Bytes32,
    sip: (Bytes16, seq<byte>) -> Bytes8,
    aead: (Bytes32, seq<byte>, seq<byte>) -> Bytes16)

  /** The HKDF info input of an epoch key: `"CATP1" || sender_id || epoch_id || direction`. */
  function EpochKeyInfo(senderId: u32, epochId: u32, dir: Direction): (info: seq<byte>)
    ensures |info| == 14
  {
    [0x43, 0x41, 0x54, 0x50, 0x31] + BE4(senderId) + BE4(epochId) + [dir.ToU8()]
  }

  function EpochKey(cr: Crypto, secret: Bytes32, senderId: u32, epochId: u32, dir: Direction): Bytes32 {
    cr.hkdf(secret, EpochKeyInfo(senderId, epochId, dir))
  }

  /** Every sender, epoch and direction derives its key from an info string of its own. */
  lemma EpochKeyInfoInjective(s1: u32, e1: u32, d1: Direction, s2: u32, e2: u32, d2: Direction)
    requires EpochKeyInfo(s1, e1, d1) == EpochKeyInfo(s2, e2, d2)
    ensures s1 == s2 && e1 == e2 && d1 == d2
  {
    var i1, i2 := EpochKeyInfo(s1, e1, d1), EpochKeyInfo(s2, e2, d2);
    assert BE4(s1) == i1[5..9] == i2[5..9] == BE4(s2);
    assert BE4(e1) == i1[9..13] == i2[9..13] == BE4(e2);
    assert d1.ToU8() == i1[13] == i2[13] == d2.ToU8();
    BE4RoundTrip(s1);
    BE4RoundTrip(s2);
    BE4RoundTrip(e1);
    BE4RoundTrip(e2);
  }

  /** 8 zero bytes, then the offset as a 4-byte integer (section 2.8 of RFC 8439 takes 12 bytes). */
  function Nonce(offset: u32): (n: seq<byte>)
    ensures |n| == 12
  {
    [0, 0, 0, 0, 0, 0, 0, 0] + BE4(offset)
  }

  function Tag(cr: Crypto, cipher: CipherId, key: Bytes32, msg: seq<byte>, offset: u32): (t: seq<byte>)
    ensures |t| == cipher.TagLen()
  {
    match cipher
    case HmacSha256T64 => cr.hmac(key, msg)[..8]
    case HmacSha256T32 => cr.hmac(key, msg)[..4]
    case SipHash24 => cr.sip(key[..16], msg)
    case ChaCha20Poly1305 => cr.aead(key, Nonce(offset), msg)
  }

  /** Suite 0x03 stages the whole message in 512 bytes and refuses a longer one. */
  predicate Stageable(cipher: CipherId, len: nat) {
    cipher.ChaCha20Poly1305? ==> len <= MAX_DATAGRAM_IPV4
  }

  function MacOf(cr: Crypto, cipher: CipherId, key: Bytes32, msg: seq<byte>, offset: u32): Result<seq<byte>> {
    if Stageable(cipher, |msg|) then Ok(Tag(cr, cipher, key, msg, offset)) else Err(Oversize(|msg|))
  }

  /** The message length up to and including the first part that no longer fits the stage. */
  function OverflowLen(parts: seq<seq<byte>>, used: nat): nat
    requires used <= MAX_DATAGRAM_IPV4 < used + |Flatten(parts)|
    decreases |parts|
  {
    if used + |parts[0]| > MAX_DATAGRAM_IPV4 then used + |parts[0]|
    else OverflowLen(parts[1..], used + |parts[0]|)
  }

  /** That is, the parts before it fit, it does not, and the length is that of all of them. */
  lemma {:induction false} OverflowMeans(parts: seq<seq<byte>>, used: nat) returns (i: nat)
    requires used <= 512 < used + |Flatten(parts)|
    ensures i < |parts| && used + |Flatten(parts[..i])| <= 512
    ensures OverflowLen(parts, used) == used + |Flatten(parts[..i])| + |parts[i]| > 512
    decreases |parts|
  {
    if used + |parts[0]| > 512 {
      i := 0;
    } else {
      i := OverflowMeans(parts[1..], used + |parts[0]|);
      assert parts[..i + 1][1..] == parts[1..][..i];
      i := i + 1;
    }
  }

  lemma {:induction false} FlattenSplit(parts: seq<seq<byte>>, i: nat)
    requires i <= |parts|
    ensures Flatten(parts) == Flatten(parts[..i]) + Flatten(parts[i..])
  {
    if i == 0 {
      assert parts[0..] == parts;
    } else {
      FlattenSplit(parts[1..], i - 1);
      assert parts[1..][..i - 1] == parts[..i][1..];
      assert parts[1..][i - 1..] == parts[i..];
    }
  }

  /** Copy the parts into the fixed stage, or refuse at the first one that does not fit. */
  method StageParts(parts: seq<seq<byte>>) returns (r: Result<seq<byte>>)
    ensures r == if |Flatten(parts)| <= MAX_DATAGRAM_IPV4 then Ok(Flatten(parts))
                 else Err(Oversize(OverflowLen(parts, 0)))
  {
    var stage := new byte[MAX_DATAGRAM_IPV4](_ => 0);
    var used := 0;
    for i := 0 to |parts|
      invariant used == |Flatten(parts[..i])| <= MAX_DATAGRAM_IPV4
      invariant stage[..used] == Flatten(parts[..i])
      invariant |Flatten(parts)| > MAX_DATAGRAM_IPV4 ==>
        && used + |Flatten(parts[i..])| > MAX_DATAGRAM_IPV4
        && OverflowLen(parts, 0) == OverflowLen(parts[i..], used)
    {
      FlattenSplit(parts, i);
      assert parts[i..][1..] == parts[i + 1..];
      FlattenSnoc(parts[..i], parts[i]);
      assert parts[..i] + [parts[i]] == parts[..i + 1];
      if |parts[i]| > MAX_DATAGRAM_IPV4 - used {
        return Err(Oversize(used + |parts[i]|));
      }
      CopyInto(stage, used, parts[i]);
      used := used + |parts[i]|;
    }
    assert parts[..|parts|] == parts && parts[|parts|..] == [];
    r := Ok(stage[..used]);
  }

  /** Feed the parts one by one to a streaming primitive, which sees their concatenation. */
  method FeedParts(parts: seq<seq<byte>>) returns (fed: seq<byte>)
    ensures fed == Flatten(parts)
  {
    fed := [];
    for i := 0 to |parts|
      invariant fed == Flatten(parts[..i])
    {
      fed := fed + parts[i];
      FlattenSnoc(parts[..i], parts[i]);
      assert parts[..i] + [parts[i]] == parts[..i + 1];
    }
    assert parts[..|parts|] == parts;
  }

  /**
   * A tag over a message given as disjoint parts, written to `out[lo..lo + tag_len]`. However the
   * message is split, the tag is the tag of the concatenation and suite 0x03 refuses it exactly
   * when the total exceeds the stage.
   */
  method MacParts(cr: Crypto, cipher: CipherId, key: Bytes32, parts: seq<seq<byte>>, offset: u32,
                  out: array<byte>, lo: nat, hi: nat)
    returns (r: Result<()>)
    requires lo <= hi <= out.Length
    modifies out
    ensures hi - lo < cipher.TagLen() ==> r == Err(BufferTooSmall(hi - lo, cipher.TagLen()))
    ensures hi - lo >= cipher.TagLen() ==>
      r == if Stageable(cipher, |Flatten(parts)|) then Ok(()) else Err(Oversize(OverflowLen(parts, 0)))
    ensures r.Err? ==> out[..] == old(out[..])
    ensures r.Ok? ==> out[..] == Overwrite(old(out[..]), lo, Tag(cr, cipher, key, Flatten(parts), offset))
  {
    hide Overwrite;
    var tagLen := cipher.TagLen();
    if hi - lo < tagLen {
      return Err(BufferTooSmall(hi - lo, tagLen));
    }
    match cipher {
      case ChaCha20Poly1305 =>
        var staged := StageParts(parts);
        if staged.Err? { return Err(staged.error); }
        CopyInto(out, lo, cr.aead(key, Nonce(offset), staged.value));
      case SipHash24 =>
        var fed := FeedParts(parts);
        CopyInto(out, lo, cr.sip(key[..16], fed));
      case _ =>
        var fed := FeedParts(parts);
        CopyInto(out, lo, cr.hmac(key, fed)[..tagLen]);
    }
    r := Ok(());
  }

  /** `mac`: one contiguous message, a freshly allocated tag. */
  method MacVec(cr: Crypto, cipher: CipherId, key: Bytes32, msg: seq<byte>, offset: u32) returns (r: Result<seq<byte>>)
    ensures r == MacOf(cr, cipher, key, msg, offset)
  {
    hide Tag, Overwrite;
    var tag := new byte[cipher.TagLen()](_ => 0);
    ghost var zeros := tag[..];
    FlattenOne(msg);
    var done := MacParts(cr, cipher, key, [msg], offset, tag, 0, tag.Length);
    if done.Err? {
      return Err(done.error);
    }
    OverwriteAll(zeros, Tag(cr, cipher, key, msg, offset));
    r := Ok(tag[..]);
  }

  lemma FlattenOne(msg: seq<byte>)
    ensures Flatten([msg]) == msg
    ensures |msg| > MAX_DATAGRAM_IPV4 ==> OverflowLen([msg], 0) == |msg|
  {
    assert [msg][1..] == [];
    assert Flatten([msg]) == msg + Flatten<byte>([]);
  }
}
