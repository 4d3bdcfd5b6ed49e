/** The TMQP wire codec: the fixed 32-byte frame header, its big-endian
    encoding and its validating decoder (broker/src/protocol.rs). */
module Protocol {
  import opened Wrappers
  import opened Bytes

  const HEADER_SIZE: nat := 32
  const MAGIC_NUMBER: u32 := 0x544D5150

  datatype ProtocolError =
    | Incomplete(needed: nat, available: nat)
    | InvalidMagic(magic: u32)
    | UnknownMsgType(code: u8)

  datatype MsgType =
    | Connect | Subscribe | Publish | TensorMeta | TensorChunk | Ack | Heartbeat | Error

  /** The `#[repr(u8)]` discriminant, i.e. `t as u8`. */
  function Code(t: MsgType): (c: u8)
    ensures 1 <= c <= 8
  {
    match t
    case Connect => 1
    case Subscribe => 2
    case Publish => 3
    case TensorMeta => 4
    case TensorChunk => 5
    case Ack => 6
    case Heartbeat => 7
    case Error => 8
  }

  /** `MsgType::try_from(u8)`: accepts exactly the codes 1..8, each naming the
      variant whose discriminant it is. */
  function TryFrom(value: u8): (r: Result<MsgType, ProtocolError>)
    ensures r.Ok? <==> 1 <= value <= 8
    ensures r.Ok? ==> Code(r.value) == value
    ensures r.Err? ==> r.error == UnknownMsgType(value)
  {
    match value
    case 1 => Ok(Connect)
    case 2 => Ok(Subscribe)
    case 3 => Ok(Publish)
    case 4 => Ok(TensorMeta)
    case 5 => Ok(TensorChunk)
    case 6 => Ok(Ack)
    case 7 => Ok(Heartbeat)
    case 8 => Ok(Error)
    case _ => Err(UnknownMsgType(value))
  }

  /** Every variant survives the trip through its discriminant. */
  lemma TryFromCode(t: MsgType)
    ensures TryFrom(Code(t)) == Ok(t)
  {
  }

  datatype Header = Header(
    version: u16,
    msgType: MsgType,
    flags: u8,
    streamId: u64,
    topicLen: u32,
    metaLen: u32,
    dataLen: u64)

  /** The 32 bytes that `Header::encode` appends. */
  function HeaderBytes(h: Header): (r: seq<u8>)
    ensures |r| == HEADER_SIZE
  {
    Pow256Widths();
    ToBigEndian(4, MAGIC_NUMBER) + ToBigEndian(2, h.version) + [Code(h.msgType), h.flags]
      + ToBigEndian(8, h.streamId) + ToBigEndian(4, h.topicLen) + ToBigEndian(4, h.metaLen)
      + ToBigEndian(8, h.dataLen)
  }

  /** What a decode produced and how many bytes it advanced the buffer by. */
  datatype Decoded = Decoded(result: Result<Header, ProtocolError>, consumed: nat)

  /** The meaning of `Header::decode` on the unread bytes `s`: the length check,
      then the magic (4 bytes read), then every field (all 32 bytes read), then
      the type code. */
  function ParseHeader(s: seq<u8>): (d: Decoded)
    ensures d.consumed <= |s|
  {
    Pow256Widths();
    if |s| < HEADER_SIZE then Decoded(Err(Incomplete(HEADER_SIZE, |s|)), 0)
    else
      var magic := FromBigEndian(s[0..4]);
      if magic != MAGIC_NUMBER then Decoded(Err(InvalidMagic(magic)), 4)
      else
        match TryFrom(s[6])
        case Err(e) => Decoded(Err(e), HEADER_SIZE)
        case Ok(t) =>
          var h := Header(FromBigEndian(s[4..6]), t, s[7], FromBigEndian(s[8..16]),
                          FromBigEndian(s[16..20]), FromBigEndian(s[20..24]),
                          FromBigEndian(s[24..32]));
          Decoded(Ok(h), HEADER_SIZE)
  }

  /** The magic number on the wire: the ASCII bytes "TMQP". */
  function MagicBytes(): (r: seq<u8>)
    ensures r == [0x54, 0x4D, 0x51, 0x50]
    ensures FromBigEndian(r) == MAGIC_NUMBER
  {
    Pow256Widths();
    var r := ToBigEndian(4, MAGIC_NUMBER);
    assert r == ToBigEndian(3, 0x544D51) + [0x50];
    assert ToBigEndian(3, 0x544D51) == ToBigEndian(2, 0x544D) + [0x51];
    assert ToBigEndian(2, 0x544D) == ToBigEndian(1, 0x54) + [0x4D];
    OneByte(0x54);
    FromToBigEndian(4, MAGIC_NUMBER);
    r
  }

  /** The encoded fields, slice by slice. */
  lemma HeaderSlices(h: Header)
    ensures var r := HeaderBytes(h);
      && r[0..4] == ToBigEndian(4, MAGIC_NUMBER)
      && r[4..6] == ToBigEndian(2, h.version)
      && r[6] == Code(h.msgType)
      && r[7] == h.flags
      && r[8..16] == ToBigEndian(8, h.streamId)
      && r[16..20] == ToBigEndian(4, h.topicLen)
      && r[20..24] == ToBigEndian(4, h.metaLen)
      && r[24..32] == ToBigEndian(8, h.dataLen)
  {
    Pow256Widths();
    var r := HeaderBytes(h);
    var magic, ver := ToBigEndian(4, MAGIC_NUMBER), ToBigEndian(2, h.version);
    var sid, tl := ToBigEndian(8, h.streamId), ToBigEndian(4, h.topicLen);
    var ml, dl := ToBigEndian(4, h.metaLen), ToBigEndian(8, h.dataLen);
    var cf: seq<u8> := [Code(h.msgType), h.flags];
    // r == p_k + s_k: the first k fields, then the others
    var p2, p3 := magic + ver, magic + ver + cf;
    var p4, p5, p6 := p3 + sid, p3 + sid + tl, p3 + sid + tl + ml;
    var s6 := ml + dl;
    var s5 := tl + s6;
    var s4 := sid + s5;
    var s3 := cf + s4;
    assert r == p6 + dl;
    Middle(p5, ml, dl);
    Middle(p6, dl, []);
    assert p6 + dl + [] == r;
    AppendAssoc(p5, ml, dl);
    Middle(p4, tl, s6);
    AppendAssoc(p4, tl, s6);
    Middle(p3, sid, s5);
    AppendAssoc(p3, sid, s5);
    Middle(p2, cf, s4);
    AppendAssoc(p2, cf, s4);
    Middle(magic, ver, s3);
    AppendAssoc(magic, ver, s3);
    Middle([], magic, ver + s3);
    assert [] + magic + (ver + s3) == r;
    assert r[6..8] == cf;
    assert r[6] == r[6..8][0] && r[7] == r[6..8][1];
  }

  /** Two 32-byte strings that agree on every field's slice are equal. */
  lemma SameFields(a: seq<u8>, b: seq<u8>)
    requires |a| == HEADER_SIZE && |b| == HEADER_SIZE
    requires a[0..4] == b[0..4] && a[4..6] == b[4..6] && a[6] == b[6] && a[7] == b[7]
    requires a[8..16] == b[8..16] && a[16..20] == b[16..20]
    requires a[20..24] == b[20..24] && a[24..32] == b[24..32]
    ensures a == b
  {
    forall i | 0 <= i < HEADER_SIZE
      ensures a[i] == b[i]
    {
      if i < 4 { assert a[i] == a[0..4][i]; }
      else if i < 6 { assert a[i] == a[4..6][i - 4]; }
      else if i < 8 { }
      else if i < 16 { assert a[i] == a[8..16][i - 8]; }
      else if i < 20 { assert a[i] == a[16..20][i - 16]; }
      else if i < 24 { assert a[i] == a[20..24][i - 20]; }
      else { assert a[i] == a[24..32][i - 24]; }
    }
  }

  /** The wire table: where each field of an encoded header sits. */
  lemma {:induction false} HeaderLayout(h: Header)
    ensures var r := HeaderBytes(h);
      && r[0..4] == MagicBytes()
      && FromBigEndian(r[4..6]) == h.version
      && r[6] == Code(h.msgType)
      && r[7] == h.flags
      && FromBigEndian(r[8..16]) == h.streamId
      && FromBigEndian(r[16..20]) == h.topicLen
      && FromBigEndian(r[20..24]) == h.metaLen
      && FromBigEndian(r[24..32]) == h.dataLen
  {
    Pow256Widths();
    HeaderSlices(h);
    FromToBigEndian(2, h.version);
    FromToBigEndian(8, h.streamId);
    FromToBigEndian(4, h.topicLen);
    FromToBigEndian(4, h.metaLen);
    FromToBigEndian(8, h.dataLen);
  }

  /** Round trip: decoding what `encode` wrote gives the header back, consumes
      exactly 32 bytes and leaves whatever follows unread. */
  lemma {:induction false} RoundTrip(h: Header, following: seq<u8>)
    ensures ParseHeader(HeaderBytes(h) + following) == Decoded(Ok(h), HEADER_SIZE)
  {
    var s := HeaderBytes(h) + following;
    HeaderLayout(h);
    assert s[..HEADER_SIZE] == HeaderBytes(h);
    assert s[0..4] == MagicBytes();
    assert s[4..6] == HeaderBytes(h)[4..6] && s[8..16] == HeaderBytes(h)[8..16];
    assert s[16..20] == HeaderBytes(h)[16..20] && s[20..24] == HeaderBytes(h)[20..24];
    assert s[24..32] == HeaderBytes(h)[24..32];
    TryFromCode(h.msgType);
  }

  /** Only the first 32 bytes decide a decode: following bytes are not read. */
  lemma ParseReadsOnlyHeader(s: seq<u8>, following: seq<u8>)
    requires |s| >= HEADER_SIZE
    ensures ParseHeader(s + following) == ParseHeader(s)
  {
    var t := s + following;
    assert t[0..4] == s[0..4] && t[4..6] == s[4..6] && t[8..16] == s[8..16];
    assert t[16..20] == s[16..20] && t[20..24] == s[20..24] && t[24..32] == s[24..32];
  }

  /** A successful decode is undone by `encode`: the 32 bytes consumed are
      exactly the encoding of the header produced. With RoundTrip this makes
      the codec a bijection between headers and accepted 32-byte strings. */
  lemma {:induction false} ParseInverse(s: seq<u8>)
    requires ParseHeader(s).result.Ok?
    ensures ParseHeader(s).consumed == HEADER_SIZE
    ensures s[..HEADER_SIZE] == HeaderBytes(ParseHeader(s).result.value)
  {
    var h := ParseHeader(s).result.value;
    Pow256Widths();
    var r := HeaderBytes(h);
    HeaderSlices(h);
    var a := s[..HEADER_SIZE];
    ToFromBigEndian(s[0..4]);
    assert r[0..4] == s[0..4] == a[0..4];
    ToFromBigEndian(s[4..6]);
    assert r[4..6] == s[4..6] == a[4..6];
    assert r[6] == Code(h.msgType) == s[6] == a[6];
    assert r[7] == s[7] == a[7];
    ToFromBigEndian(s[8..16]);
    assert r[8..16] == s[8..16] == a[8..16];
    ToFromBigEndian(s[16..20]);
    assert r[16..20] == s[16..20] == a[16..20];
    ToFromBigEndian(s[20..24]);
    assert r[20..24] == s[20..24] == a[20..24];
    ToFromBigEndian(s[24..32]);
    assert r[24..32] == s[24..32] == a[24..32];
    SameFields(a, r);
  }

  /** Exactly which inputs decode: at least 32 bytes, the magic bytes first,
      and a type byte in 1..8. The version, flags, stream id and lengths are
      never validated. */
  lemma {:induction false} ParseAccepts(s: seq<u8>)
    ensures ParseHeader(s).result.Ok? <==>
      |s| >= HEADER_SIZE && s[0..4] == MagicBytes() && 1 <= s[6] <= 8
  {
    if |s| >= HEADER_SIZE {
      ToFromBigEndian(s[0..4]);
      Pow256Widths();
    }
  }

  /** The three error cases, in the order the decoder checks them, and how far
      each one has advanced the buffer. */
  lemma {:induction false} ParseErrors(s: seq<u8>)
    ensures |s| < HEADER_SIZE ==>
      ParseHeader(s) == Decoded(Err(Incomplete(HEADER_SIZE, |s|)), 0)
    ensures |s| >= HEADER_SIZE && s[0..4] != MagicBytes() ==>
      ParseHeader(s) == Decoded(Err(InvalidMagic(FromBigEndian(s[0..4]))), 4)
    ensures |s| >= HEADER_SIZE && s[0..4] == MagicBytes() && !(1 <= s[6] <= 8) ==>
      ParseHeader(s) == Decoded(Err(UnknownMsgType(s[6])), HEADER_SIZE)
  {
    if |s| >= HEADER_SIZE {
      ToFromBigEndian(s[0..4]);
      Pow256Widths();
    }
  }

  /** A wrong magic is reported with its own value whatever the other 28 bytes
      hold. */
  lemma {:induction false} InvalidMagicIgnoresRest(s: seq<u8>, t: seq<u8>)
    requires |s| >= HEADER_SIZE && |t| >= HEADER_SIZE
    requires s[0..4] == t[0..4] && s[0..4] != MagicBytes()
    ensures ParseHeader(s) == ParseHeader(t)
    ensures ParseHeader(s).result == Err(InvalidMagic(FromBigEndian(s[0..4])))
  {
    ParseErrors(s);
    ParseErrors(t);
  }

  /** The header bytes as the eight writes of `encode` produce them. */
  lemma HeaderFields(h: Header)
    ensures HeaderBytes(h) == ToBigEndian(4, MAGIC_NUMBER) + ToBigEndian(2, h.version)
      + [Code(h.msgType)] + [h.flags] + ToBigEndian(8, h.streamId) + ToBigEndian(4, h.topicLen)
      + ToBigEndian(4, h.metaLen) + ToBigEndian(8, h.dataLen)
  {
  }

  /** `Header::encode`: append the header to `buf` field by field. */
  method Encode(h: Header, buf: WriteBuf)
    modifies buf
    ensures buf.data == old(buf.data) + HeaderBytes(h)
  {
    Pow256Widths();
    ghost var start := buf.data;
    ghost var sofar := ToBigEndian(4, MAGIC_NUMBER);
    buf.PutUint(4, MAGIC_NUMBER);
    ghost var piece := ToBigEndian(2, h.version);
    buf.PutUint(2, h.version);
    AppendAssoc(start, sofar, piece);
    sofar := sofar + piece;
    piece := [Code(h.msgType)];
    buf.PutByte(Code(h.msgType));
    AppendAssoc(start, sofar, piece);
    sofar := sofar + piece;
    piece := [h.flags];
    buf.PutByte(h.flags);
    AppendAssoc(start, sofar, piece);
    sofar := sofar + piece;
    piece := ToBigEndian(8, h.streamId);
    buf.PutUint(8, h.streamId);
    AppendAssoc(start, sofar, piece);
    sofar := sofar + piece;
    piece := ToBigEndian(4, h.topicLen);
    buf.PutUint(4, h.topicLen);
    AppendAssoc(start, sofar, piece);
    sofar := sofar + piece;
    piece := ToBigEndian(4, h.metaLen);
    buf.PutUint(4, h.metaLen);
    AppendAssoc(start, sofar, piece);
    sofar := sofar + piece;
    piece := ToBigEndian(8, h.dataLen);
    buf.PutUint(8, h.dataLen);
    AppendAssoc(start, sofar, piece);
    sofar := sofar + piece;
    HeaderFields(h);
  }

  /** `Header::decode`: check the length, read and check the magic, read every
      field, then map the type byte. */
  method Decode(buf: ByteReader) returns (r: Result<Header, ProtocolError>)
    modifies buf
    ensures var d := ParseHeader(old(buf.rest));
      r == d.result && buf.rest == old(buf.rest)[d.consumed..]
  {
    ghost var s := buf.rest;
    if buf.Remaining() < HEADER_SIZE {
      return Err(Incomplete(HEADER_SIZE, buf.Remaining()));
    }
    Pow256Widths();
    var magic := buf.GetUint(4);
    assert magic == FromBigEndian(s[0..4]);
    if magic != MAGIC_NUMBER {
      return Err(InvalidMagic(magic));
    }
    var version := buf.GetUint(2);
    assert buf.rest == s[6..];
    var msgTypeRaw := buf.GetUint(1);
    var flags := buf.GetUint(1);
    assert buf.rest == s[8..] && buf.rest[..8] == s[8..16];
    var streamId := buf.GetUint(8);
    assert buf.rest == s[16..] && buf.rest[..4] == s[16..20];
    var topicLen := buf.GetUint(4);
    assert buf.rest == s[20..] && buf.rest[..4] == s[20..24];
    var metaLen := buf.GetUint(4);
    assert buf.rest == s[24..] && buf.rest[..8] == s[24..32];
    var dataLen := buf.GetUint(8);
    assert buf.rest == s[HEADER_SIZE..];
    assert version == FromBigEndian(s[4..6]);
    assert s[6..7] == [s[6]] && s[7..8] == [s[7]];
    ToFromBigEndian([s[6]]);
    ToFromBigEndian([s[7]]);
    assert msgTypeRaw == s[6] && flags == s[7];
    assert streamId == FromBigEndian(s[8..16]);
    assert topicLen == FromBigEndian(s[16..20]);
    assert metaLen == FromBigEndian(s[20..24]);
    assert dataLen == FromBigEndian(s[24..32]);
    var msgType := TryFrom(msgTypeRaw);
    if msgType.Err? {
      return Err(msgType.error);
    }
    r := Ok(Header(version, msgType.value, flags, streamId, topicLen, metaLen, dataLen));
  }
}
