/** The frame codec, `Communication.Pack` and `Communication.unPack`: a
    little-endian signed 32-bit header length, the UTF-8 header, a little-endian
    signed 32-bit payload length, then the payload. */
module Frame {
  import opened Wrappers
  import opened Bytes
  import Utf8
  import Decimal
  import Header
  import Seqs

  /** What `unPack` returns: the header split on '/', and the payload. */
  datatype Message = Message(header: seq<string>, payload: seq<byte>)

  /** `struct.pack` refuses a length that does not fit the `i` format. */
  datatype PackError = LengthOutOfRange

  /** Why `unPack` raises: `struct.error` for a buffer of the wrong size or for a
      negative count in the format string, UnicodeDecodeError for the header. */
  datatype FrameError = WrongBufferSize | BadFormat | InvalidUtf8

  /** `"/".join(...).encode("utf-8")` for the sender's identity and the data type. */
  function HeaderBytes(host: string, port: int, dataType: string): seq<byte> {
    Utf8.Encode(Header.HeaderText(host, port, dataType))
  }

  /** `Pack(datatype, payload)` on a node whose address is host:port: it fails
      exactly when a length does not fit the signed 32-bit `i` format, and a
      frame is 8 bytes longer than its header and payload together. */
  function Pack(host: string, port: int, dataType: string, payload: seq<byte>): (r: Result<seq<byte>, PackError>)
    ensures r.Ok? <==> |HeaderBytes(host, port, dataType)| <= Int32Max && |payload| <= Int32Max
    ensures r.Ok? ==> |r.value| == 8 + |HeaderBytes(host, port, dataType)| + |payload|
  {
    var hb := HeaderBytes(host, port, dataType);
    if |hb| <= Int32Max && |payload| <= Int32Max then
      Ok(EncodeInt32(|hb|) + hb + EncodeInt32(|payload|) + payload)
    else
      Err(LengthOutOfRange)
  }

  /** The layout of a packed frame: bytes [0, 4) read back as the header length,
      then the header, then four bytes that read back as the payload length,
      then the payload. */
  lemma PackLayout(host: string, port: int, dataType: string, payload: seq<byte>)
    requires Pack(host, port, dataType, payload).Ok?
    ensures
      var hb, f := HeaderBytes(host, port, dataType), Pack(host, port, dataType, payload).value;
      var h := |hb|;
      && DecodeInt32(f[..4]) == h
      && f[4..4 + h] == hb
      && DecodeInt32(f[4 + h..8 + h]) == |payload|
      && f[8 + h..] == payload
  {
    var hb := HeaderBytes(host, port, dataType);
    var f := Pack(host, port, dataType, payload).value;
    DecodeEncodeInt32(|hb|);
    DecodeEncodeInt32(|payload|);
    assert f[..4] == EncodeInt32(|hb|);
    assert f[4..4 + |hb|] == hb;
    assert f[4 + |hb|..8 + |hb|] == EncodeInt32(|payload|);
  }

  /** Lines 53 to 55 and 57 of `unPack`: the header length, the header split on
      '/', and the declared payload length, in the order Python evaluates them. */
  function ReadHeader(frame: seq<byte>): (r: Result<(seq<string>, int), FrameError>)
    ensures |frame| < 8 ==> r.Err?
    ensures r.Ok? ==> |frame| >= 8 && |r.value.0| >= 1
  {
    if |frame| < 4 then Err(WrongBufferSize)
    else
      var h := DecodeInt32(frame[..4]);
      if h < 0 then Err(BadFormat)
      else if |frame| < 4 + h then Err(WrongBufferSize)
      else match Utf8.Decode(frame[4..4 + h])
        case None => Err(InvalidUtf8)
        case Some(text) =>
          if |frame| < 8 + h then Err(WrongBufferSize)
          else Ok((Header.Split(text, Header.Separator), DecodeInt32(frame[4 + h..8 + h])))
  }

  /** `unPack(frame)` as written: the payload is `frame[-payloadsize:]`, which for
      a payload size of 0 is the whole frame, so unpacking it as 0 bytes fails. */
  function UnPack(frame: seq<byte>): (r: Result<Message, FrameError>)
    ensures |frame| < 8 ==> r.Err?
    ensures r.Ok? ==>
      && |r.value.header| >= 1
      && 0 < |r.value.payload| <= |frame|
      && r.value.payload == frame[|frame| - |r.value.payload|..]
  {
    match ReadHeader(frame)
    case Err(e) => Err(e)
    case Ok((fields, p)) =>
      if p < 0 then Err(BadFormat)
      else if p == 0 || p > |frame| then Err(WrongBufferSize)
      else Ok(Message(fields, frame[|frame| - p..]))
  }

  /** `unPack` with the payload taken as `frame[len(frame) - payloadsize:]`, so an
      empty payload comes back empty; everything else is as in UnPack. */
  function UnPackFixed(frame: seq<byte>): (r: Result<Message, FrameError>)
    ensures |frame| < 8 ==> r.Err?
    ensures r.Ok? ==>
      && |r.value.header| >= 1
      && |r.value.payload| <= |frame|
      && r.value.payload == frame[|frame| - |r.value.payload|..]
  {
    match ReadHeader(frame)
    case Err(e) => Err(e)
    case Ok((fields, p)) =>
      if p < 0 then Err(BadFormat)
      else if p > |frame| then Err(WrongBufferSize)
      else Ok(Message(fields, frame[|frame| - p..]))
  }

  /** What unPack reads back from a packed frame. */
  lemma ReadPackedHeader(host: string, port: int, dataType: string, payload: seq<byte>)
    requires Pack(host, port, dataType, payload).Ok?
    ensures ReadHeader(Pack(host, port, dataType, payload).value)
            == Ok((Header.Split(Header.HeaderText(host, port, dataType), Header.Separator), |payload|))
  {
    var text := Header.HeaderText(host, port, dataType);
    PackLayout(host, port, dataType, payload);
    Utf8.DecodeEncode(text);
    ReadHeaderOf(Pack(host, port, dataType, payload).value, |HeaderBytes(host, port, dataType)|, text);
  }

  /** ReadHeader on a buffer whose fields are all well-formed. */
  lemma ReadHeaderOf(frame: seq<byte>, h: nat, text: string)
    requires 8 + h <= |frame| && DecodeInt32(frame[..4]) == h && Utf8.Decode(frame[4..4 + h]) == Some(text)
    ensures ReadHeader(frame) == Ok((Header.Split(text, Header.Separator), DecodeInt32(frame[4 + h..8 + h])))
  {
  }

  /** Round trip of the codec as written: any non-empty payload and any host and
      data type free of '/' come back as sent, with the port as its decimal text. */
  lemma PackUnPack(host: string, port: int, dataType: string, payload: seq<byte>)
    requires Header.Separator !in host && Header.Separator !in dataType
    requires |payload| > 0
    requires Pack(host, port, dataType, payload).Ok?
    ensures UnPack(Pack(host, port, dataType, payload).value)
            == Ok(Message([host, Decimal.IntText(port), dataType], payload))
  {
    ReadPackedHeader(host, port, dataType, payload);
    Header.SplitHeaderText(host, port, dataType);
  }

  /** The codec as written cannot carry an empty payload: the frame packs, but
      unpacking it always fails. */
  lemma UnPackRejectsEmptyPayload(host: string, port: int, dataType: string)
    requires Pack(host, port, dataType, []).Ok?
    ensures UnPack(Pack(host, port, dataType, []).value) == Err(WrongBufferSize)
  {
    ReadPackedHeader(host, port, dataType, []);
  }

  /** Round trip of the corrected codec, for every payload including the empty one. */
  lemma PackUnPackFixed(host: string, port: int, dataType: string, payload: seq<byte>)
    requires Header.Separator !in host && Header.Separator !in dataType
    requires Pack(host, port, dataType, payload).Ok?
    ensures UnPackFixed(Pack(host, port, dataType, payload).value)
            == Ok(Message([host, Decimal.IntText(port), dataType], payload))
  {
    ReadPackedHeader(host, port, dataType, payload);
    Header.SplitHeaderText(host, port, dataType);
  }

  /** The correction changes nothing but the empty payload. */
  lemma UnPackFixedExtends(frame: seq<byte>)
    ensures UnPack(frame).Ok? ==> UnPackFixed(frame) == UnPack(frame)
    ensures UnPackFixed(frame).Ok? && UnPack(frame).Err? ==> UnPackFixed(frame).value.payload == []
  {
  }

  /** A '/' in host or data type is not detected: the header splits into more
      than three fields and the message is still delivered. */
  lemma PackUnPackExtraFields(host: string, port: int, dataType: string, payload: seq<byte>)
    requires Header.Separator in host || Header.Separator in dataType
    requires |payload| > 0
    requires Pack(host, port, dataType, payload).Ok?
    ensures UnPack(Pack(host, port, dataType, payload).value).Ok?
    ensures |UnPack(Pack(host, port, dataType, payload).value).value.header| > 3
  {
    ReadPackedHeader(host, port, dataType, payload);
    Header.SplitHeaderTextExtra(host, port, dataType);
  }

  /** ReadHeader looks no further than the end of the payload-length field:
      two buffers that agree up to there read the same header. */
  lemma ReadHeaderPrefix(f: seq<byte>, g: seq<byte>, k: nat)
    requires 4 <= k <= |f| && k <= |g| && f[..k] == g[..k]
    requires 0 <= DecodeInt32(f[..4]) && 8 + DecodeInt32(f[..4]) <= k
    ensures ReadHeader(f) == ReadHeader(g)
  {
    var h := DecodeInt32(f[..4]);
    Seqs.PrefixOfPrefix(f, 4, k);
    Seqs.PrefixOfPrefix(g, 4, k);
    assert f[..4] == g[..4];
    Seqs.SliceOfPrefix(f, 4, 4 + h, k);
    Seqs.SliceOfPrefix(g, 4, 4 + h, k);
    assert f[4..4 + h] == g[4..4 + h];
    Seqs.SliceOfPrefix(f, 4 + h, 8 + h, k);
    Seqs.SliceOfPrefix(g, 4 + h, 8 + h, k);
    assert f[4 + h..8 + h] == g[4 + h..8 + h];
  }

  /** The payload is the tail of the frame whatever lies between the payload-length
      field and it: bytes inserted there are skipped. */
  lemma UnPackSkipsPadding(host: string, port: int, dataType: string, payload: seq<byte>, padding: seq<byte>)
    requires |payload| > 0
    requires Pack(host, port, dataType, payload).Ok?
    ensures
      var f := Pack(host, port, dataType, payload).value;
      var k := 8 + |HeaderBytes(host, port, dataType)|;
      UnPack(f[..k] + padding + payload) == UnPack(f)
  {
    var f := Pack(host, port, dataType, payload).value;
    var k := 8 + |HeaderBytes(host, port, dataType)|;
    var g := f[..k] + padding + payload;
    PackLayout(host, port, dataType, payload);
    ReadPackedHeader(host, port, dataType, payload);
    assert g[..k] == f[..k];
    ReadHeaderPrefix(f, g, k);
    assert g[|g| - |payload|..] == payload;
    UnPackOfHeader(g);
    UnPackOfHeader(f);
  }

  /** UnPack once the header has been read. */
  lemma UnPackOfHeader(frame: seq<byte>)
    requires ReadHeader(frame).Ok? && 0 < ReadHeader(frame).value.1 <= |frame|
    ensures UnPack(frame) == Ok(Message(ReadHeader(frame).value.0, frame[|frame| - ReadHeader(frame).value.1..]))
  {
  }

  /** A frame cut short anywhere before its payload fails to unpack. */
  lemma UnPackRejectsTruncatedHeader(host: string, port: int, dataType: string, payload: seq<byte>, n: nat)
    requires Pack(host, port, dataType, payload).Ok?
    requires n < 8 + |HeaderBytes(host, port, dataType)|
    ensures UnPack(Pack(host, port, dataType, payload).value[..n]).Err?
    ensures UnPackFixed(Pack(host, port, dataType, payload).value[..n]).Err?
  {
    var f := Pack(host, port, dataType, payload).value;
    var h := |HeaderBytes(host, port, dataType)|;
    var g := f[..n];
    PackLayout(host, port, dataType, payload);
    if n >= 4 {
      assert g[..4] == f[..4];
      if n >= 4 + h {
        assert g[4..4 + h] == f[4..4 + h];
      }
    }
  }

  /** A frame cut short inside its payload is not detected as long as what
      arrived is at least as long as the declared payload: unPack returns the
      last bytes that did arrive, which end before the payload does. */
  lemma UnPackTruncatedPayload(host: string, port: int, dataType: string, payload: seq<byte>, n: nat)
    requires |payload| > 0
    requires Pack(host, port, dataType, payload).Ok?
    requires 8 + |HeaderBytes(host, port, dataType)| <= n < |Pack(host, port, dataType, payload).value|
    requires |payload| <= n
    ensures
      var f := Pack(host, port, dataType, payload).value;
      UnPack(f[..n]) == Ok(Message(Header.Split(Header.HeaderText(host, port, dataType), Header.Separator),
                                   f[n - |payload|..n]))
  {
    var f := Pack(host, port, dataType, payload).value;
    var k := 8 + |HeaderBytes(host, port, dataType)|;
    var g := f[..n];
    ReadPackedHeader(host, port, dataType, payload);
    PackLayout(host, port, dataType, payload);
    Seqs.PrefixOfPrefix(f, k, n);
    ReadHeaderPrefix(f, g, k);
    Seqs.SuffixOfPrefix(f, n - |payload|, n);
    UnPackOfHeader(g);
  }

  /** Exactly when `unPack` succeeds, on any buffer at all: the header length is
      not negative, the header and the payload-length field fit the buffer, the
      header is well-formed UTF-8, and the declared payload length is positive
      and no more than the whole buffer. The message is then the split header
      and exactly the last `payloadsize` bytes. */
  lemma UnPackOutcome(frame: seq<byte>)
    ensures UnPack(frame).Ok? <==>
      && |frame| >= 8
      && (var h := DecodeInt32(frame[..4]);
          && 0 <= h && 8 + h <= |frame|
          && Utf8.Decode(frame[4..4 + h]).Some?
          && 0 < DecodeInt32(frame[4 + h..8 + h]) <= |frame|)
    ensures UnPack(frame).Ok? ==>
      var h := DecodeInt32(frame[..4]);
      var p := DecodeInt32(frame[4 + h..8 + h]);
      && |UnPack(frame).value.payload| == p
      && UnPack(frame).value
         == Message(Header.Split(Utf8.Decode(frame[4..4 + h]).value, Header.Separator), frame[|frame| - p..])
  {
  }

  /** The same for the corrected `unPack`, where a declared length of 0 is allowed. */
  lemma UnPackFixedOutcome(frame: seq<byte>)
    ensures UnPackFixed(frame).Ok? <==>
      && |frame| >= 8
      && (var h := DecodeInt32(frame[..4]);
          && 0 <= h && 8 + h <= |frame|
          && Utf8.Decode(frame[4..4 + h]).Some?
          && 0 <= DecodeInt32(frame[4 + h..8 + h]) <= |frame|)
    ensures UnPackFixed(frame).Ok? ==>
      var h := DecodeInt32(frame[..4]);
      var p := DecodeInt32(frame[4 + h..8 + h]);
      && |UnPackFixed(frame).value.payload| == p
      && UnPackFixed(frame).value
         == Message(Header.Split(Utf8.Decode(frame[4..4 + h]).value, Header.Separator), frame[|frame| - p..])
  {
  }

  /** A packed frame cut inside its payload to fewer bytes than the payload has
      fails to unpack: the declared length exceeds what arrived. */
  lemma UnPackRejectsShortPayload(host: string, port: int, dataType: string, payload: seq<byte>, n: nat)
    requires Pack(host, port, dataType, payload).Ok?
    requires 8 + |HeaderBytes(host, port, dataType)| <= n < |payload|
    ensures UnPack(Pack(host, port, dataType, payload).value[..n]).Err?
    ensures UnPackFixed(Pack(host, port, dataType, payload).value[..n]).Err?
  {
    var f := Pack(host, port, dataType, payload).value;
    var k := 8 + |HeaderBytes(host, port, dataType)|;
    ReadPackedHeader(host, port, dataType, payload);
    PackLayout(host, port, dataType, payload);
    Seqs.PrefixOfPrefix(f, k, n);
    ReadHeaderPrefix(f, f[..n], k);
  }
}
