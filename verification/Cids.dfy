/** Content identifiers: CIDv1, SHA-256, codec DRISL or raw. */
module Cids {
  import opened Wrappers
  import opened Bytes

  datatype Codec = Drisl | Raw {
    function Code(): byte {
      if Drisl? then 0x71 else 0x55
    }
  }

  type Digest = h: seq<byte> | |h| == 32 witness Be(0, 32)

  datatype Cid = Cid(codec: Codec, hash: Digest)

  datatype CidError = MissingPrefix | WrongLength | UnsupportedVersion | UnsupportedCodec | UnsupportedHash | UnsupportedCid

  const CID_LEN: nat := 36

  /** `Cid::to_bytes`. */
  function ToBytes(c: Cid): (b: seq<byte>)
    ensures |b| == CID_LEN
  {
    [0x01, c.codec.Code(), 0x12, 0x20] + c.hash
  }

  /** `Cid::from_bytes`. */
  function FromBytes(b: seq<byte>): Result<Cid, CidError> {
    if |b| != CID_LEN then Err(WrongLength)
    else if b[0] != 0x01 then Err(UnsupportedVersion)
    else if b[1] != 0x71 && b[1] != 0x55 then Err(UnsupportedCodec)
    else if b[2] != 0x12 || b[3] != 0x20 then Err(UnsupportedHash)
    else Ok(Cid(if b[1] == 0x71 then Drisl else Raw, b[4..]))
  }

  /** Only the bytes a CID writes read back as that CID. */
  lemma CidBytes(b: seq<byte>, c: Cid)
    ensures FromBytes(b) == Ok(c) <==> b == ToBytes(c)
  {
    if |b| == CID_LEN {
      assert b == b[..4] + b[4..];
      assert ToBytes(c)[4..] == c.hash;
      assert b[..4] == [b[0], b[1], b[2], b[3]];
    }
  }

  /** Some CID starts with the first `k` bytes of `b`. */
  ghost predicate Begun(b: seq<byte>, k: nat) {
    k <= |b| && exists c :: k <= |ToBytes(c)| && ToBytes(c)[..k] == b[..k]
  }

  /** The error names the first part of the bytes that no CID has. */
  lemma CidErrors(b: seq<byte>)
    ensures FromBytes(b) == Err(WrongLength) <==> |b| != 36
    ensures FromBytes(b) == Err(UnsupportedVersion) <==> |b| == 36 && !Begun(b, 1)
    ensures FromBytes(b) == Err(UnsupportedCodec) <==> |b| == 36 && Begun(b, 1) && !Begun(b, 2)
    ensures FromBytes(b) == Err(UnsupportedHash) <==> |b| == 36 && Begun(b, 2) && !Begun(b, 4)
  {
    if |b| == 36 {
      BegunIs(b);
    }
  }

  lemma BegunIs(b: seq<byte>)
    requires |b| == 36
    ensures Begun(b, 1) <==> b[0] == 0x01
    ensures Begun(b, 2) <==> b[0] == 0x01 && (b[1] == 0x71 || b[1] == 0x55)
    ensures Begun(b, 4) <==> b[0] == 0x01 && (b[1] == 0x71 || b[1] == 0x55) && b[2] == 0x12 && b[3] == 0x20
  {
    var drisl, raw := ToBytes(Cid(Drisl, b[4..])), ToBytes(Cid(Raw, b[4..]));
    assert b[..1] == [b[0]] && b[..2] == [b[0], b[1]] && b[..4] == [b[0], b[1], b[2], b[3]];
    assert drisl[..1] == [0x01] && drisl[..2] == [0x01, 0x71] && drisl[..4] == [0x01, 0x71, 0x12, 0x20];
    assert raw[..2] == [0x01, 0x55] && raw[..4] == [0x01, 0x55, 0x12, 0x20];
    forall c, k | 1 <= k <= 4 && ToBytes(c)[..k] == b[..k]
      ensures ToBytes(c)[0] == b[0] && (k > 1 ==> ToBytes(c)[1] == b[1]) && (k > 3 ==> ToBytes(c)[2] == b[2] && ToBytes(c)[3] == b[3])
    {
      assert ToBytes(c)[..k][0] == b[..k][0];
      assert k > 1 ==> ToBytes(c)[..k][1] == b[..k][1];
      assert k > 3 ==> ToBytes(c)[..k][2] == b[..k][2] && ToBytes(c)[..k][3] == b[..k][3];
    }
  }

  /** The body of CBOR tag 42: a zero byte, then the CID (`to_tag42_bytes`). */
  function ToTag42(c: Cid): seq<byte> {
    [0x00] + ToBytes(c)
  }

  /** `Cid::from_tag42_bytes`. */
  function FromTag42(b: seq<byte>): Result<Cid, CidError> {
    if b == [] || b[0] != 0x00 then Err(MissingPrefix) else FromBytes(b[1..])
  }

  lemma Tag42Bytes(b: seq<byte>, c: Cid)
    ensures FromTag42(b) == Ok(c) <==> b == ToTag42(c)
  {
    if b != [] {
      CidBytes(b[1..], c);
      assert b == [b[0]] + b[1..];
    }
    assert ToTag42(c)[1..] == ToBytes(c);
  }
}
