/** The JKS timestamp normalizer (docker/scripts/normalize_jks.py). */
module Jks {
  import opened Wrappers
  import opened Bytes

  const MAGIC: nat := 0xFEEDFEED
  const VERSION: nat := 2
  const DIGEST_SIZE: nat := 20
  /** ASCII "Mighty Aphrodite". */
  const WHITENER: seq<byte> := [77, 105, 103, 104, 116, 121, 32, 65, 112, 104, 114, 111, 100, 105, 116, 101]

  type Digest = s: seq<byte> | |s| == DIGEST_SIZE witness seq(DIGEST_SIZE, _ => 0)
  type Stamp = s: seq<byte> | |s| == 8 witness seq(8, _ => 0)

  datatype Role = Alias(index: nat) | CertificateType | CertificateBody | EncryptedKey

  datatype JksError =
    | TruncatedField(width: nat)
    | Truncated(role: Role)
    | TruncatedHeader
    | UnexpectedMagic(observed: nat)
    | UnsupportedVersion(observed: nat)
    | TruncatedTimestamp(index: nat)
    | UnsupportedTag(tag: nat, index: nat)
    | BytesAfterFinalEntry(count: int)
    | FileTooSmall
    | EpochOutOfRange
    | UnencodablePassword
    | DigestMismatch
    | PostWriteMismatch

  predicate IsParseError(e: JksError) {
    && !e.FileTooSmall? && !e.EpochOutOfRange? && !e.UnencodablePassword?
    && !e.DigestMismatch? && !e.PostWriteMismatch?
  }

  // ---- The parser's pure helpers -------------------------------------------

  function ReadField(data: seq<byte>, offset: nat, width: nat): Result<(nat, nat), JksError> {
    if offset + width > |data| then Err(TruncatedField(width))
    else Ok((Value(data[offset..offset + width]), offset + width))
  }

  function Skip(data: seq<byte>, offset: nat, length: nat, role: Role): Result<nat, JksError> {
    if offset + length > |data| then Err(Truncated(role)) else Ok(offset + length)
  }

  function SkipUtf(data: seq<byte>, offset: nat, role: Role): Result<nat, JksError> {
    var (length, next) :- ReadField(data, offset, 2);
    Skip(data, next, length, role)
  }

  function SkipCertificate(data: seq<byte>, offset: nat): Result<nat, JksError> {
    var afterType :- SkipUtf(data, offset, CertificateType);
    var (length, next) :- ReadField(data, afterType, 4);
    Skip(data, next, length, CertificateBody)
  }

  // ---- What the two loops compute ------------------------------------------

  function SkipChain(data: seq<byte>, offset: nat, count: nat): (r: Result<nat, JksError>)
    ensures r.Err? ==> IsParseError(r.error)
    decreases count
  {
    if count == 0 then Ok(offset)
    else
      var next :- SkipCertificate(data, offset);
      SkipChain(data, next, count - 1)
  }

  function SkipPayload(data: seq<byte>, offset: nat, tag: nat, index: nat): Result<nat, JksError> {
    if tag == 1 then
      var (keyLength, afterLength) :- ReadField(data, offset, 4);
      var afterKey :- Skip(data, afterLength, keyLength, EncryptedKey);
      var (chainLength, chain) :- ReadField(data, afterKey, 4);
      SkipChain(data, chain, chainLength)
    else if tag == 2 then SkipCertificate(data, offset)
    else Err(UnsupportedTag(tag, index))
  }

  /** The timestamp offset of one entry and the offset after it. */
  function ParseEntry(data: seq<byte>, offset: nat, index: nat): Result<(nat, nat), JksError> {
    var (tag, afterTag) :- ReadField(data, offset, 4);
    var stamp :- SkipUtf(data, afterTag, Alias(index));
    if stamp + 8 > |data| then Err(TruncatedTimestamp(index))
    else
      var end :- SkipPayload(data, stamp + 8, tag, index);
      Ok((stamp, end))
  }

  function ParseEntries(data: seq<byte>, offset: nat, index: nat, count: nat): (r: Result<(seq<nat>, nat), JksError>)
    ensures r.Err? ==> IsParseError(r.error)
    decreases count
  {
    if count == 0 then Ok(([], offset))
    else
      var (stamp, next) :- ParseEntry(data, offset, index);
      var (stamps, end) :- ParseEntries(data, next, index + 1, count - 1);
      Ok(([stamp] + stamps, end))
  }

  function TimestampOffsets(body: seq<byte>): (r: Result<seq<nat>, JksError>)
    ensures r.Err? ==> IsParseError(r.error)
  {
    if |body| < 12 then Err(TruncatedHeader)
    else if Value(body[0..4]) != MAGIC then Err(UnexpectedMagic(Value(body[0..4])))
    else if Value(body[4..8]) != VERSION then Err(UnsupportedVersion(Value(body[4..8])))
    else
      var (stamps, end) :- ParseEntries(body, 12, 0, Value(body[8..12]));
      if end != |body| then Err(BytesAfterFinalEntry(|body| - end)) else Ok(stamps)
  }

  function Prepend(stamps: seq<nat>, rest: Result<(seq<nat>, nat), JksError>): Result<(seq<nat>, nat), JksError> {
    match rest
    case Err(e) => Err(e)
    case Ok((more, end)) => Ok((stamps + more, end))
  }

  method FindChainEnd(data: seq<byte>, start: nat, count: nat) returns (r: Result<nat, JksError>)
    ensures r == SkipChain(data, start, count)
  {
    var offset := start;
    for done := 0 to count
      invariant SkipChain(data, start, count) == SkipChain(data, offset, count - done)
    {
      var next := SkipCertificate(data, offset);
      if next.Err? {
        return Err(next.error);
      }
      offset := next.value;
    }
    return Ok(offset);
  }

  method FindTimestampOffsets(buffer: array<byte>) returns (r: Result<seq<nat>, JksError>)
    ensures r == TimestampOffsets(buffer[..])
  {
    hide Value, SkipChain, SkipCertificate, SkipUtf, ReadField, Skip;
    var body := buffer[..];
    if |body| < 12 {
      return Err(TruncatedHeader);
    }
    if Value(body[0..4]) != MAGIC {
      return Err(UnexpectedMagic(Value(body[0..4])));
    }
    if Value(body[4..8]) != VERSION {
      return Err(UnsupportedVersion(Value(body[4..8])));
    }
    var count := Value(body[8..12]);
    var offset: nat := 12;
    var stamps: seq<nat> := [];
    assert forall more: seq<nat> :: stamps + more == more;
    for index := 0 to count
      invariant ParseEntries(body, 12, 0, count) == Prepend(stamps, ParseEntries(body, offset, index, count - index))
    {
      var field := ReadField(body, offset, 4);
      if field.Err? {
        return Err(field.error);
      }
      var tag, afterTag := field.value.0, field.value.1;
      var aliasEnd := SkipUtf(body, afterTag, Alias(index));
      if aliasEnd.Err? {
        return Err(aliasEnd.error);
      }
      var stamp := aliasEnd.value;
      if stamp + 8 > |body| {
        return Err(TruncatedTimestamp(index));
      }
      var end: Result<nat, JksError>;
      if tag == 1 {
        var keyField := ReadField(body, stamp + 8, 4);
        if keyField.Err? {
          return Err(keyField.error);
        }
        var keyEnd := Skip(body, keyField.value.1, keyField.value.0, EncryptedKey);
        if keyEnd.Err? {
          return Err(keyEnd.error);
        }
        var chainField := ReadField(body, keyEnd.value, 4);
        if chainField.Err? {
          return Err(chainField.error);
        }
        end := FindChainEnd(body, chainField.value.1, chainField.value.0);
      } else if tag == 2 {
        end := SkipCertificate(body, stamp + 8);
      } else {
        end := Err(UnsupportedTag(tag, index));
      }
      assert end == SkipPayload(body, stamp + 8, tag, index);
      if end.Err? {
        return Err(end.error);
      }
      ghost var before := stamps;
      stamps := stamps + [stamp];
      offset := end.value;
      assert forall more: seq<nat> :: before + ([stamp] + more) == stamps + more;
    }
    assert stamps + [] == stamps;
    if offset != |body| {
      return Err(BytesAfterFinalEntry(|body| - offset));
    }
    return Ok(stamps);
  }

  // ---- The format the parser recognizes ------------------------------------

  datatype Certificate = Certificate(kind: seq<byte>, body: seq<byte>)
  datatype Payload = PrivateKey(key: seq<byte>, chain: seq<Certificate>) | Trusted(certificate: Certificate)
  datatype Entry = Entry(alias: seq<byte>, stamp: Stamp, payload: Payload)

  ghost predicate Fits(bytes: seq<byte>, width: nat) {
    |bytes| < Pow256(width)
  }

  ghost predicate FitsCertificate(c: Certificate) {
    Fits(c.kind, 2) && Fits(c.body, 4)
  }

  ghost predicate FitsEntry(e: Entry) {
    && Fits(e.alias, 2)
    && match e.payload {
         case PrivateKey(key, chain) =>
           Fits(key, 4) && |chain| < Pow256(4) && forall c | c in chain :: FitsCertificate(c)
         case Trusted(certificate) => FitsCertificate(certificate)
       }
  }

  ghost predicate FitsStore(es: seq<Entry>) {
    |es| < Pow256(4) && forall e | e in es :: FitsEntry(e)
  }

  function Block(width: nat, bytes: seq<byte>): (r: seq<byte>)
    ensures |r| == width + |bytes|
  {
    BigEndian(|bytes|, width) + bytes
  }

  function EncodeCertificate(c: Certificate): seq<byte> {
    Block(2, c.kind) + Block(4, c.body)
  }

  function EncodeChain(chain: seq<Certificate>): seq<byte> {
    if chain == [] then [] else EncodeCertificate(chain[0]) + EncodeChain(chain[1..])
  }

  function Tag(p: Payload): nat {
    if p.PrivateKey? then 1 else 2
  }

  function EncodePayload(p: Payload): seq<byte> {
    match p
    case PrivateKey(key, chain) => Block(4, key) + (BigEndian(|chain|, 4) + EncodeChain(chain))
    case Trusted(certificate) => EncodeCertificate(certificate)
  }

  function EncodeEntry(e: Entry): seq<byte> {
    BigEndian(Tag(e.payload), 4) + (Block(2, e.alias) + (e.stamp + EncodePayload(e.payload)))
  }

  function EncodeEntries(es: seq<Entry>): seq<byte> {
    if es == [] then [] else EncodeEntry(es[0]) + EncodeEntries(es[1..])
  }

  function Header(count: nat): (r: seq<byte>)
    ensures |r| == 12
  {
    [0xFE, 0xED, 0xFE, 0xED] + ([0, 0, 0, 2] + BigEndian(count, 4))
  }

  function EncodeStore(es: seq<Entry>): seq<byte> {
    Header(|es|) + EncodeEntries(es)
  }

  /** Where the encoder puts the timestamps of entries laid out from `offset`. */
  function StampPositions(es: seq<Entry>, offset: nat): (ps: seq<nat>)
    ensures |ps| == |es|
  {
    if es == [] then []
    else [offset + 6 + |es[0].alias|] + StampPositions(es[1..], offset + |EncodeEntry(es[0])|)
  }

  // ---- Reading at an offset ------------------------------------------------

  ghost predicate At(data: seq<byte>, offset: nat, piece: seq<byte>) {
    offset + |piece| <= |data| && data[offset..offset + |piece|] == piece
  }

  lemma AtSplit(data: seq<byte>, offset: nat, left: seq<byte>, right: seq<byte>)
    ensures At(data, offset, left + right) <==> At(data, offset, left) && At(data, offset + |left|, right)
  {
    var whole := left + right;
    if At(data, offset, whole) {
      assert data[offset..offset + |whole|][..|left|] == data[offset..offset + |left|];
      assert data[offset..offset + |whole|][|left|..] == data[offset + |left|..offset + |whole|];
      assert whole[..|left|] == left && whole[|left|..] == right;
    }
    if At(data, offset, left) && At(data, offset + |left|, right) {
      assert data[offset..offset + |whole|] == data[offset..offset + |left|] + data[offset + |left|..offset + |whole|];
    }
  }

  lemma AtBounds(data: seq<byte>, offset: nat, piece: seq<byte>)
    requires At(data, offset, piece)
    ensures offset + |piece| <= |data|
  {
  }

  lemma AtSame(data: seq<byte>, offset: nat, x: seq<byte>, y: seq<byte>)
    requires |x| == |y| && At(data, offset, x) && At(data, offset, y)
    ensures x == y
  {
  }

  lemma FieldAt(data: seq<byte>, offset: nat, v: nat, width: nat)
    requires v < Pow256(width)
    requires At(data, offset, BigEndian(v, width))
    ensures ReadField(data, offset, width) == Ok((v, offset + width))
  {
    ValueOfBigEndian(v, width);
  }

  lemma BlockAt(data: seq<byte>, offset: nat, width: nat, bytes: seq<byte>)
    requires Fits(bytes, width)
    requires At(data, offset, Block(width, bytes))
    ensures ReadField(data, offset, width) == Ok((|bytes|, offset + width))
    ensures At(data, offset + width, bytes)
  {
    AtSplit(data, offset, BigEndian(|bytes|, width), bytes);
    FieldAt(data, offset, |bytes|, width);
  }

  /** The converse: a length field that leaves room for its bytes is a block. */
  lemma BlockThere(data: seq<byte>, offset: nat, width: nat, length: nat) returns (bytes: seq<byte>)
    requires ReadField(data, offset, width) == Ok((length, offset + width))
    requires offset + width + length <= |data|
    ensures |bytes| == length && Fits(bytes, width) && At(data, offset, Block(width, bytes))
  {
    bytes := data[offset + width..offset + width + length];
    BigEndianOfValue(data[offset..offset + width]);
    AtSplit(data, offset, BigEndian(length, width), bytes);
  }

  // ---- Every encoding is accepted ------------------------------------------

  lemma CertificateAccepted(data: seq<byte>, offset: nat, c: Certificate)
    requires FitsCertificate(c) && At(data, offset, EncodeCertificate(c))
    ensures SkipCertificate(data, offset) == Ok(offset + |EncodeCertificate(c)|)
  {
    AtSplit(data, offset, Block(2, c.kind), Block(4, c.body));
    BlockAt(data, offset, 2, c.kind);
    BlockAt(data, offset + |Block(2, c.kind)|, 4, c.body);
  }

  lemma {:induction false} ChainAccepted(data: seq<byte>, offset: nat, chain: seq<Certificate>)
    requires forall c | c in chain :: FitsCertificate(c)
    requires At(data, offset, EncodeChain(chain))
    ensures SkipChain(data, offset, |chain|) == Ok(offset + |EncodeChain(chain)|)
    decreases |chain|
  {
    hide At, EncodeCertificate, SkipCertificate, FitsCertificate;
    if chain != [] {
      AtSplit(data, offset, EncodeCertificate(chain[0]), EncodeChain(chain[1..]));
      CertificateAccepted(data, offset, chain[0]);
      ChainAccepted(data, offset + |EncodeCertificate(chain[0])|, chain[1..]);
    }
  }

  lemma PayloadAccepted(data: seq<byte>, offset: nat, e: Entry, index: nat)
    requires FitsEntry(e) && At(data, offset, EncodePayload(e.payload))
    ensures SkipPayload(data, offset, Tag(e.payload), index) == Ok(offset + |EncodePayload(e.payload)|)
  {
    hide At, EncodeCertificate, SkipCertificate, EncodeChain, SkipChain, BigEndian, Value, Pow256, ReadField;
    match e.payload
    case PrivateKey(key, chain) =>
      var tail := BigEndian(|chain|, 4) + EncodeChain(chain);
      AtSplit(data, offset, Block(4, key), tail);
      BlockAt(data, offset, 4, key);
      var after := offset + |Block(4, key)|;
      AtSplit(data, after, BigEndian(|chain|, 4), EncodeChain(chain));
      FieldAt(data, after, |chain|, 4);
      ChainAccepted(data, after + 4, chain);
    case Trusted(certificate) =>
      CertificateAccepted(data, offset, certificate);
  }

  lemma EntryParts(data: seq<byte>, offset: nat, e: Entry)
    ensures At(data, offset, EncodeEntry(e)) <==>
            && At(data, offset, BigEndian(Tag(e.payload), 4))
            && At(data, offset + 4, Block(2, e.alias))
            && At(data, offset + 6 + |e.alias|, e.stamp)
            && At(data, offset + 14 + |e.alias|, EncodePayload(e.payload))
  {
    hide At, BigEndian, Value, Pow256, EncodePayload;
    var afterStamp := EncodePayload(e.payload);
    var afterAlias := e.stamp + afterStamp;
    AtSplit(data, offset, BigEndian(Tag(e.payload), 4), Block(2, e.alias) + afterAlias);
    AtSplit(data, offset + 4, Block(2, e.alias), afterAlias);
    AtSplit(data, offset + 6 + |e.alias|, e.stamp, afterStamp);
  }

  lemma EntryAccepted(data: seq<byte>, offset: nat, e: Entry, index: nat)
    requires FitsEntry(e) && At(data, offset, EncodeEntry(e))
    ensures ParseEntry(data, offset, index) == Ok((offset + 6 + |e.alias|, offset + |EncodeEntry(e)|))
  {
    hide At, BigEndian, Value, EncodePayload, SkipPayload, FitsCertificate, ReadField;
    Widths();
    EntryParts(data, offset, e);
    FieldAt(data, offset, Tag(e.payload), 4);
    BlockAt(data, offset + 4, 2, e.alias);
    AtBounds(data, offset + 6, e.alias);
    AtBounds(data, offset + 6 + |e.alias|, e.stamp);
    PayloadAccepted(data, offset + 14 + |e.alias|, e, index);
  }

  lemma {:induction false} EntriesAccepted(data: seq<byte>, offset: nat, es: seq<Entry>, index: nat)
    requires forall e | e in es :: FitsEntry(e)
    requires At(data, offset, EncodeEntries(es))
    ensures ParseEntries(data, offset, index, |es|)
         == Ok((StampPositions(es, offset), offset + |EncodeEntries(es)|))
    decreases |es|
  {
    hide At, EncodeEntry, ParseEntry, FitsEntry;
    if es != [] {
      AtSplit(data, offset, EncodeEntry(es[0]), EncodeEntries(es[1..]));
      EntryAccepted(data, offset, es[0], index);
      EntriesAccepted(data, offset + |EncodeEntry(es[0])|, es[1..], index + 1);
    }
  }

  lemma HeaderIsFields(count: nat)
    ensures Header(count) == BigEndian(MAGIC, 4) + (BigEndian(VERSION, 4) + BigEndian(count, 4))
  {
    FixedFields();
  }

  lemma FixedFields()
    ensures BigEndian(MAGIC, 4) == [0xFE, 0xED, 0xFE, 0xED] && BigEndian(VERSION, 4) == [0, 0, 0, 2]
  {
    BigEndianSteps(0xFEEDFE, 0xED, 3);
    BigEndianSteps(0xFEED, 0xFE, 2);
    BigEndianSteps(0xFE, 0xED, 1);
    BigEndianSteps(0, 0xFE, 0);
    BigEndianSteps(0, 2, 3);
    BigEndianSteps(0, 0, 2);
    BigEndianSteps(0, 0, 1);
    BigEndianSteps(0, 0, 0);
  }

  lemma BigEndianSteps(front: nat, last: byte, width: nat)
    ensures BigEndian(front * 256 + last, width + 1) == BigEndian(front, width) + [last]
  {
    assert (front * 256 + last) / 256 == front && (front * 256 + last) % 256 == last;
  }

  lemma HeaderParts(body: seq<byte>, count: nat)
    requires |body| >= 12 && count < Pow256(4)
    ensures At(body, 0, Header(count)) <==>
            Value(body[0..4]) == MAGIC && Value(body[4..8]) == VERSION && Value(body[8..12]) == count
  {
    Widths();
    HeaderIsFields(count);
    hide Header;
    AtSplit(body, 0, BigEndian(MAGIC, 4), BigEndian(VERSION, 4) + BigEndian(count, 4));
    AtSplit(body, 4, BigEndian(VERSION, 4), BigEndian(count, 4));
    ValueOfBigEndian(MAGIC, 4);
    ValueOfBigEndian(VERSION, 4);
    ValueOfBigEndian(count, 4);
    BigEndianOfValue(body[0..4]);
    BigEndianOfValue(body[4..8]);
    BigEndianOfValue(body[8..12]);
  }

  /** Every encoding is accepted, with the offsets the encoder used. */
  lemma StoreAccepted(es: seq<Entry>)
    requires FitsStore(es)
    ensures TimestampOffsets(EncodeStore(es)) == Ok(StampPositions(es, 12))
  {
    var body := EncodeStore(es);
    assert At(body, 0, body);
    AtSplit(body, 0, Header(|es|), EncodeEntries(es));
    HeaderParts(body, |es|);
    EntriesAccepted(body, 12, es, 0);
  }

  // ---- Everything accepted is an encoding ----------------------------------

  lemma CertificateDecoded(data: seq<byte>, offset: nat) returns (c: Certificate)
    requires SkipCertificate(data, offset).Ok?
    ensures FitsCertificate(c) && At(data, offset, EncodeCertificate(c))
    ensures SkipCertificate(data, offset) == Ok(offset + |EncodeCertificate(c)|)
  {
    var kind := BlockThere(data, offset, 2, ReadField(data, offset, 2).value.0);
    var middle := offset + |Block(2, kind)|;
    var body := BlockThere(data, middle, 4, ReadField(data, middle, 4).value.0);
    c := Certificate(kind, body);
    AtSplit(data, offset, Block(2, kind), Block(4, body));
  }

  lemma {:induction false} ChainDecoded(data: seq<byte>, offset: nat, count: nat) returns (chain: seq<Certificate>)
    requires SkipChain(data, offset, count).Ok? && offset <= |data|
    ensures |chain| == count && forall c | c in chain :: FitsCertificate(c)
    ensures At(data, offset, EncodeChain(chain))
    ensures SkipChain(data, offset, count) == Ok(offset + |EncodeChain(chain)|)
    decreases count
  {
    hide EncodeCertificate, SkipCertificate, FitsCertificate;
    chain := [];
    if count > 0 {
      var first := CertificateDecoded(data, offset);
      var rest := ChainDecoded(data, offset + |EncodeCertificate(first)|, count - 1);
      chain := [first] + rest;
      assert chain[1..] == rest;
      AtSplit(data, offset, EncodeCertificate(first), EncodeChain(rest));
    }
  }

  lemma PayloadDecoded(data: seq<byte>, offset: nat, tag: nat, index: nat) returns (p: Payload)
    requires SkipPayload(data, offset, tag, index).Ok?
    ensures Tag(p) == tag && FitsEntry(Entry([], seq(8, _ => 0), p)) && At(data, offset, EncodePayload(p))
    ensures SkipPayload(data, offset, tag, index) == Ok(offset + |EncodePayload(p)|)
  {
    hide BigEndian, Value, Pow256, EncodeCertificate, SkipCertificate, EncodeChain, SkipChain, FitsCertificate;
    if tag == 1 {
      var key := BlockThere(data, offset, 4, ReadField(data, offset, 4).value.0);
      var after := offset + |Block(4, key)|;
      var count := ReadField(data, after, 4).value.0;
      var chain := ChainDecoded(data, after + 4, count);
      BigEndianOfValue(data[after..after + 4]);
      AtSplit(data, after, BigEndian(count, 4), EncodeChain(chain));
      AtSplit(data, offset, Block(4, key), BigEndian(count, 4) + EncodeChain(chain));
      p := PrivateKey(key, chain);
    } else {
      var certificate := CertificateDecoded(data, offset);
      p := Trusted(certificate);
    }
  }

  lemma EntryDecoded(data: seq<byte>, offset: nat, index: nat) returns (e: Entry)
    requires ParseEntry(data, offset, index).Ok?
    ensures FitsEntry(e) && At(data, offset, EncodeEntry(e))
  {
    hide BigEndian, Value, Pow256, EncodePayload, SkipPayload;
    var (tag, afterTag) := ReadField(data, offset, 4).value;
    var alias := BlockThere(data, afterTag, 2, ReadField(data, afterTag, 2).value.0);
    var stamp := afterTag + 2 + |alias|;
    var payload := PayloadDecoded(data, stamp + 8, tag, index);
    e := Entry(alias, data[stamp..stamp + 8], payload);
    BigEndianOfValue(data[offset..offset + 4]);
    EntryParts(data, offset, e);
  }

  lemma {:induction false} EntriesDecoded(data: seq<byte>, offset: nat, index: nat, count: nat)
    returns (es: seq<Entry>)
    requires ParseEntries(data, offset, index, count).Ok? && offset <= |data|
    ensures |es| == count && forall e | e in es :: FitsEntry(e)
    ensures At(data, offset, EncodeEntries(es))
    decreases count
  {
    hide EncodeEntry, ParseEntry, FitsEntry;
    es := [];
    if count > 0 {
      var first := EntryDecoded(data, offset, index);
      EntryAccepted(data, offset, first, index);
      var rest := EntriesDecoded(data, offset + |EncodeEntry(first)|, index + 1, count - 1);
      es := [first] + rest;
      assert es[1..] == rest;
      AtSplit(data, offset, EncodeEntry(first), EncodeEntries(rest));
    }
  }

  lemma StoreDecoded(body: seq<byte>) returns (es: seq<Entry>)
    requires TimestampOffsets(body).Ok?
    ensures FitsStore(es) && body == EncodeStore(es)
  {
    hide BigEndian, Pow256, EncodeEntries, StampPositions, Header;
    var count := Value(body[8..12]);
    BigEndianOfValue(body[8..12]);
    es := EntriesDecoded(body, 12, 0, count);
    EntriesAccepted(body, 12, es, 0);
    HeaderParts(body, count);
    AtSplit(body, 0, Header(count), EncodeEntries(es));
    assert body[0..|body|] == body;
  }

  /** The parser recognizes exactly the encodings. */
  lemma AcceptsExactlyEncodings(body: seq<byte>)
    ensures TimestampOffsets(body).Ok? <==> exists es :: FitsStore(es) && body == EncodeStore(es)
  {
    if TimestampOffsets(body).Ok? {
      var es := StoreDecoded(body);
    }
    if es :| FitsStore(es) && body == EncodeStore(es) {
      StoreAccepted(es);
    }
  }

  // ---- An encoding has one reading -----------------------------------------

  lemma BlockUnique(data: seq<byte>, offset: nat, width: nat, x: seq<byte>, y: seq<byte>)
    requires Fits(x, width) && Fits(y, width)
    requires At(data, offset, Block(width, x)) && At(data, offset, Block(width, y))
    ensures x == y
  {
    BlockAt(data, offset, width, x);
    BlockAt(data, offset, width, y);
  }

  lemma CertificateUnique(data: seq<byte>, offset: nat, x: Certificate, y: Certificate)
    requires FitsCertificate(x) && FitsCertificate(y)
    requires At(data, offset, EncodeCertificate(x)) && At(data, offset, EncodeCertificate(y))
    ensures x == y
  {
    AtSplit(data, offset, Block(2, x.kind), Block(4, x.body));
    AtSplit(data, offset, Block(2, y.kind), Block(4, y.body));
    BlockUnique(data, offset, 2, x.kind, y.kind);
    BlockUnique(data, offset + |Block(2, x.kind)|, 4, x.body, y.body);
  }

  lemma {:induction false} ChainUnique(data: seq<byte>, offset: nat, x: seq<Certificate>, y: seq<Certificate>)
    requires |x| == |y|
    requires forall c | c in x + y :: FitsCertificate(c)
    requires At(data, offset, EncodeChain(x)) && At(data, offset, EncodeChain(y))
    ensures x == y
    decreases |x|
  {
    hide At, EncodeCertificate, FitsCertificate;
    if x != [] {
      AtSplit(data, offset, EncodeCertificate(x[0]), EncodeChain(x[1..]));
      AtSplit(data, offset, EncodeCertificate(y[0]), EncodeChain(y[1..]));
      assert x[0] in x + y && y[0] in x + y;
      CertificateUnique(data, offset, x[0], y[0]);
      assert forall c | c in x[1..] + y[1..] :: c in x + y;
      ChainUnique(data, offset + |EncodeCertificate(x[0])|, x[1..], y[1..]);
      assert x == [x[0]] + x[1..] && y == [y[0]] + y[1..];
    }
  }

  lemma PayloadUnique(data: seq<byte>, offset: nat, x: Entry, y: Entry)
    requires FitsEntry(x) && FitsEntry(y) && Tag(x.payload) == Tag(y.payload)
    requires At(data, offset, EncodePayload(x.payload)) && At(data, offset, EncodePayload(y.payload))
    ensures x.payload == y.payload
  {
    hide At, BigEndian, Value, Pow256, EncodeChain, EncodeCertificate, ReadField, FitsCertificate;
    match (x.payload, y.payload)
    case (PrivateKey(keyX, chainX), PrivateKey(keyY, chainY)) =>
      AtSplit(data, offset, Block(4, keyX), BigEndian(|chainX|, 4) + EncodeChain(chainX));
      AtSplit(data, offset, Block(4, keyY), BigEndian(|chainY|, 4) + EncodeChain(chainY));
      BlockUnique(data, offset, 4, keyX, keyY);
      var after := offset + |Block(4, keyX)|;
      AtSplit(data, after, BigEndian(|chainX|, 4), EncodeChain(chainX));
      AtSplit(data, after, BigEndian(|chainY|, 4), EncodeChain(chainY));
      FieldAt(data, after, |chainX|, 4);
      FieldAt(data, after, |chainY|, 4);
      ChainUnique(data, after + 4, chainX, chainY);
    case (Trusted(certificateX), Trusted(certificateY)) =>
      CertificateUnique(data, offset, certificateX, certificateY);
  }

  lemma EntryUnique(data: seq<byte>, offset: nat, x: Entry, y: Entry)
    requires FitsEntry(x) && FitsEntry(y)
    requires At(data, offset, EncodeEntry(x)) && At(data, offset, EncodeEntry(y))
    ensures x == y
  {
    hide At, BigEndian, Value, EncodePayload, EncodeEntry, ReadField, FitsCertificate;
    Widths();
    EntryParts(data, offset, x);
    EntryParts(data, offset, y);
    FieldAt(data, offset, Tag(x.payload), 4);
    FieldAt(data, offset, Tag(y.payload), 4);
    BlockUnique(data, offset + 4, 2, x.alias, y.alias);
    AtSame(data, offset + 6 + |x.alias|, x.stamp, y.stamp);
    PayloadUnique(data, offset + 14 + |x.alias|, x, y);
  }

  lemma {:induction false} EntriesUnique(data: seq<byte>, offset: nat, x: seq<Entry>, y: seq<Entry>)
    requires |x| == |y|
    requires forall e | e in x + y :: FitsEntry(e)
    requires At(data, offset, EncodeEntries(x)) && At(data, offset, EncodeEntries(y))
    ensures x == y
    decreases |x|
  {
    hide At, EncodeEntry, FitsEntry;
    if x != [] {
      AtSplit(data, offset, EncodeEntry(x[0]), EncodeEntries(x[1..]));
      AtSplit(data, offset, EncodeEntry(y[0]), EncodeEntries(y[1..]));
      assert x[0] in x + y && y[0] in x + y;
      EntryUnique(data, offset, x[0], y[0]);
      assert forall e | e in x[1..] + y[1..] :: e in x + y;
      EntriesUnique(data, offset + |EncodeEntry(x[0])|, x[1..], y[1..]);
      assert x == [x[0]] + x[1..] && y == [y[0]] + y[1..];
    }
  }

  lemma EncodingIsUnique(x: seq<Entry>, y: seq<Entry>)
    requires FitsStore(x) && FitsStore(y)
    requires EncodeStore(x) == EncodeStore(y)
    ensures x == y
  {
    hide BigEndian, Value, Pow256, EncodeEntries, Header;
    var body := EncodeStore(x);
    assert At(body, 0, EncodeStore(x)) && At(body, 0, EncodeStore(y));
    AtSplit(body, 0, Header(|x|), EncodeEntries(x));
    AtSplit(body, 0, Header(|y|), EncodeEntries(y));
    HeaderParts(body, |x|);
    HeaderParts(body, |y|);
    EntriesUnique(body, 12, x, y);
  }

  // ---- Where the timestamps are --------------------------------------------

  /** Disjoint increasing eight-byte windows of a sequence of length `length`, none before `from`. */
  ghost predicate Windows(offsets: seq<nat>, from: nat, length: nat) {
    && (forall k | 0 <= k < |offsets| :: from <= offsets[k] && offsets[k] + 8 <= length)
    && (forall j, k | 0 <= j < k < |offsets| :: offsets[j] + 8 <= offsets[k])
  }

  lemma {:induction false} PositionsAreWindows(es: seq<Entry>, offset: nat)
    ensures Windows(StampPositions(es, offset), offset, offset + |EncodeEntries(es)|)
    decreases |es|
  {
    hide BigEndian, Block, EncodePayload;
    if es != [] {
      var next := offset + |EncodeEntry(es[0])|;
      PositionsAreWindows(es[1..], next);
      assert next >= offset + 6 + |es[0].alias| + 8;
      var rest := StampPositions(es[1..], next);
      var all := StampPositions(es, offset);
      assert all == [offset + 6 + |es[0].alias|] + rest;
      forall k | 1 <= k < |all| ensures all[k] == rest[k - 1] && all[0] + 8 <= all[k] {}
    }
  }

  /** The offsets the parser returns are the encoder's, one eight-byte window per entry. */
  lemma OffsetsAreTheEncoders(body: seq<byte>)
    requires TimestampOffsets(body).Ok?
    ensures Windows(TimestampOffsets(body).value, 12, |body|)
    ensures |TimestampOffsets(body).value| == Value(body[8..12])
    ensures forall es | FitsStore(es) && body == EncodeStore(es) ::
              TimestampOffsets(body).value == StampPositions(es, 12)
  {
    hide BigEndian, Value, Pow256, EncodeEntries, ParseEntries, StampPositions, Windows, FitsEntry, Header;
    var es := StoreDecoded(body);
    StoreAccepted(es);
    PositionsAreWindows(es, 12);
    HeaderParts(body, |es|);
    AtSplit(body, 0, Header(|es|), EncodeEntries(es));
    assert At(body, 0, body);
    forall other | FitsStore(other) && body == EncodeStore(other) {
      StoreAccepted(other);
    }
  }

  // ---- Rewriting the windows -----------------------------------------------

  predicate InBounds(offsets: seq<nat>, length: nat) {
    forall k | 0 <= k < |offsets| :: offsets[k] + 8 <= length
  }

  function Splice(body: seq<byte>, offset: nat, stamp: Stamp): (r: seq<byte>)
    requires offset + 8 <= |body|
    ensures |r| == |body|
  {
    body[..offset] + stamp + body[offset + 8..]
  }

  /** Each window replaced by its own stamp, in order. */
  function Rewrite(body: seq<byte>, offsets: seq<nat>, stamps: seq<Stamp>): (r: seq<byte>)
    requires |offsets| == |stamps|
    requires InBounds(offsets, |body|)
    ensures |r| == |body|
    decreases |offsets|
  {
    if offsets == [] then body
    else
      assert forall k | 0 <= k < |offsets[1..]| :: offsets[1..][k] == offsets[k + 1];
      Rewrite(Splice(body, offsets[0], stamps[0]), offsets[1..], stamps[1..])
  }

  function Same(stamp: Stamp, count: nat): (r: seq<Stamp>)
    ensures |r| == count
  {
    seq(count, _ => stamp)
  }

  method PackInto(body: array<byte>, offset: nat, stamp: Stamp)
    requires offset + 8 <= body.Length
    modifies body
    ensures body[..] == Splice(old(body[..]), offset, stamp)
  {
    for i := 0 to 8
      invariant forall j | 0 <= j < i :: body[offset + j] == stamp[j]
      invariant forall j | 0 <= j < body.Length && !(offset <= j < offset + i) :: body[j] == old(body[j])
    {
      body[offset + i] := stamp[i];
    }
  }

  method WriteTimestamps(body: array<byte>, offsets: seq<nat>, stamp: Stamp)
    requires InBounds(offsets, body.Length)
    modifies body
    ensures body[..] == Rewrite(old(body[..]), offsets, Same(stamp, |offsets|))
  {
    ghost var all := Same(stamp, |offsets|);
    assert offsets[0..] == offsets && all[0..] == all;
    for k := 0 to |offsets|
      invariant Rewrite(old(body[..]), offsets, all) == Rewrite(body[..], offsets[k..], all[k..])
    {
      PackInto(body, offsets[k], stamp);
      assert offsets[k..][1..] == offsets[k + 1..] && all[k..][1..] == all[k + 1..];
    }
  }

  predicate InWindow(offset: nat, i: nat) {
    offset <= i < offset + 8
  }

  ghost predicate Outside(offsets: seq<nat>, i: nat) {
    forall k | 0 <= k < |offsets| :: !InWindow(offsets[k], i)
  }

  /** Rewriting changes the windows to their stamps and nothing else. */
  lemma {:induction false} RewriteAt(body: seq<byte>, offsets: seq<nat>, stamps: seq<Stamp>, from: nat)
    requires |offsets| == |stamps| && Windows(offsets, from, |body|)
    ensures forall i | 0 <= i < |body| && Outside(offsets, i) :: Rewrite(body, offsets, stamps)[i] == body[i]
    ensures forall k | 0 <= k < |offsets| :: At(Rewrite(body, offsets, stamps), offsets[k], stamps[k])
    decreases |offsets|
  {
    if offsets != [] {
      var first := Splice(body, offsets[0], stamps[0]);
      var rest, restStamps := offsets[1..], stamps[1..];
      RewriteAt(first, rest, restStamps, offsets[0] + 8);
      var r := Rewrite(body, offsets, stamps);
      forall i | 0 <= i < |body| && Outside(offsets, i) ensures r[i] == body[i] {
        assert !InWindow(offsets[0], i);
        forall k | 0 <= k < |rest| ensures !InWindow(rest[k], i) { assert rest[k] == offsets[k + 1]; }
        assert first[i] == body[i];
      }
      forall k | 0 <= k < |offsets| ensures At(r, offsets[k], stamps[k]) {
        if k == 0 {
          forall i | offsets[0] <= i < offsets[0] + 8 ensures r[i] == stamps[0][i - offsets[0]] {
            forall j | 0 <= j < |rest| ensures !InWindow(rest[j], i) { assert rest[j] == offsets[j + 1]; }
            assert Outside(rest, i);
          }
        } else {
          assert rest[k - 1] == offsets[k] && restStamps[k - 1] == stamps[k];
        }
      }
    }
  }

  function WithStamps(es: seq<Entry>, stamps: seq<Stamp>): (r: seq<Entry>)
    requires |es| == |stamps|
    ensures |r| == |es|
  {
    seq(|es|, k requires 0 <= k < |es| => es[k].(stamp := stamps[k]))
  }

  lemma StampsFit(es: seq<Entry>, stamps: seq<Stamp>)
    requires |es| == |stamps| && FitsStore(es)
    ensures FitsStore(WithStamps(es, stamps))
  {
    var changed := WithStamps(es, stamps);
    forall e | e in changed ensures FitsEntry(e) {
      var k :| 0 <= k < |changed| && changed[k] == e;
      assert es[k] in es;
    }
  }

  lemma SpliceReplacesStamp(prefix: seq<byte>, e: Entry, stamp: Stamp, rest: seq<byte>)
    ensures |EncodeEntry(e.(stamp := stamp))| == |EncodeEntry(e)|
    ensures |prefix| + 14 + |e.alias| <= |prefix + (EncodeEntry(e) + rest)|
    ensures Splice(prefix + (EncodeEntry(e) + rest), |prefix| + 6 + |e.alias|, stamp)
         == prefix + EncodeEntry(e.(stamp := stamp)) + rest
  {
    hide BigEndian, Value, Pow256, EncodePayload, Block;
    var head := BigEndian(Tag(e.payload), 4) + Block(2, e.alias);
    var tail := EncodePayload(e.payload);
    assert EncodeEntry(e) == head + e.stamp + tail;
    assert EncodeEntry(e.(stamp := stamp)) == head + stamp + tail;
    var body := prefix + (EncodeEntry(e) + rest);
    assert body == (prefix + head) + e.stamp + (tail + rest);
    assert Splice(body, |prefix + head|, stamp) == (prefix + head) + stamp + (tail + rest);
  }

  /** At the level of the format, rewriting the windows replaces the stamps. */
  lemma {:induction false} RewriteReplacesStamps(prefix: seq<byte>, es: seq<Entry>, stamps: seq<Stamp>)
    requires |es| == |stamps|
    requires InBounds(StampPositions(es, |prefix|), |prefix + EncodeEntries(es)|)
    ensures Rewrite(prefix + EncodeEntries(es), StampPositions(es, |prefix|), stamps)
         == prefix + EncodeEntries(WithStamps(es, stamps))
    ensures StampPositions(WithStamps(es, stamps), |prefix|) == StampPositions(es, |prefix|)
    decreases |es|
  {
    hide EncodeEntry, Splice;
    if es != [] {
      var changed := es[0].(stamp := stamps[0]);
      var rest := EncodeEntries(es[1..]);
      var longer := prefix + EncodeEntry(changed);
      var positions := StampPositions(es, |prefix|);
      SpliceReplacesStamp(prefix, es[0], stamps[0], rest);
      assert positions[1..] == StampPositions(es[1..], |longer|);
      forall k | 0 <= k < |es| - 1 ensures positions[1..][k] + 8 <= |longer + rest| {
        assert positions[1..][k] == positions[k + 1];
      }
      RewriteReplacesStamps(longer, es[1..], stamps[1..]);
      var all := WithStamps(es, stamps);
      assert all[1..] == WithStamps(es[1..], stamps[1..]);
      assert longer + EncodeEntries(all[1..]) == prefix + (EncodeEntry(changed) + EncodeEntries(all[1..]));
    }
  }

  ghost predicate SameOutside(x: seq<byte>, y: seq<byte>, offsets: seq<nat>) {
    |x| == |y| && forall i | 0 <= i < |x| && Outside(offsets, i) :: x[i] == y[i]
  }

  lemma EqualBySplit(x: seq<byte>, y: seq<byte>, offsets: seq<nat>)
    requires SameOutside(x, y, offsets) && Windows(offsets, 0, |x|)
    requires forall k | 0 <= k < |offsets| :: x[offsets[k]..offsets[k] + 8] == y[offsets[k]..offsets[k] + 8]
    ensures x == y
  {
    forall i | 0 <= i < |x| ensures x[i] == y[i] {
      if !Outside(offsets, i) {
        var k :| 0 <= k < |offsets| && InWindow(offsets[k], i);
        assert x[i] == x[offsets[k]..offsets[k] + 8][i - offsets[k]];
        assert y[i] == y[offsets[k]..offsets[k] + 8][i - offsets[k]];
      }
    }
  }

  /** The frame of the parser: it never reads a byte inside a timestamp window. */
  lemma ParserIgnoresTimestamps(x: seq<byte>, y: seq<byte>)
    requires TimestampOffsets(x).Ok? && SameOutside(x, y, TimestampOffsets(x).value)
    ensures TimestampOffsets(y) == TimestampOffsets(x)
  {
    hide BigEndian, Value, EncodeEntries, ParseEntries, StampPositions, Rewrite, TimestampOffsets, Header, FitsEntry;
    var offsets := TimestampOffsets(x).value;
    var es := StoreDecoded(x);
    OffsetsAreTheEncoders(x);
    StoreAccepted(es);
    var stamps: seq<Stamp> := seq(|offsets|, k requires 0 <= k < |offsets| => y[offsets[k]..offsets[k] + 8]);
    RewriteAt(x, offsets, stamps, 12);
    var r := Rewrite(x, offsets, stamps);
    EqualBySplit(r, y, offsets);
    RewriteReplacesStamps(Header(|es|), es, stamps);
    var changed := WithStamps(es, stamps);
    assert y == EncodeStore(changed);
    StampsFit(es, stamps);
    StoreAccepted(changed);
  }

  // ---- Normalization -------------------------------------------------------

  const MAX_EPOCH: int := 0x7FFF_FFFF_FFFF_FFFF / 1000

  /** A big-endian two's-complement eight-byte integer. */
  function Signed(s: Stamp): int {
    if Value(s) < 0x8000_0000_0000_0000 then Value(s) else Value(s) - 0x1_0000_0000_0000_0000
  }

  function Millis(epoch: int): Stamp
    requires 0 <= epoch <= MAX_EPOCH
  {
    BigEndian(epoch * 1000, 8)
  }

  function DigestOf(sha: seq<byte> -> Digest, password: seq<byte>, body: seq<byte>): Digest {
    sha(password + WHITENER + body)
  }

  predicate AllStamped(body: seq<byte>, offsets: seq<nat>, millis: int)
    requires InBounds(offsets, |body|)
  {
    forall k | 0 <= k < |offsets| :: Signed(body[offsets[k]..offsets[k] + 8]) == millis
  }

  lemma OffsetsInBounds(body: seq<byte>)
    ensures TimestampOffsets(body).Ok? ==> InBounds(TimestampOffsets(body).value, |body|)
  {
    if TimestampOffsets(body).Ok? {
      OffsetsAreTheEncoders(body);
    }
  }

  /** `password` is the UTF-16-BE form of the password, absent when it has none. */
  function Normalized(data: seq<byte>, epoch: int, password: Option<seq<byte>>, sha: seq<byte> -> Digest)
    : Result<seq<byte>, JksError>
  {
    if |data| < DIGEST_SIZE then Err(FileTooSmall)
    else if epoch < 0 || epoch > MAX_EPOCH then Err(EpochOutOfRange)
    else if password.None? then Err(UnencodablePassword)
    else
      var cut := |data| - DIGEST_SIZE;
      var body := data[..cut];
      if DigestOf(sha, password.value, body) != data[cut..] then Err(DigestMismatch)
      else
        OffsetsInBounds(body);
        var offsets :- TimestampOffsets(body);
        var rewritten := Rewrite(body, offsets, Same(Millis(epoch), |offsets|));
        OffsetsInBounds(rewritten);
        var again :- TimestampOffsets(rewritten);
        if AllStamped(rewritten, again, epoch * 1000)
        then Ok(rewritten + DigestOf(sha, password.value, rewritten))
        else Err(PostWriteMismatch)
  }

  method CheckTimestamps(body: seq<byte>, offsets: seq<nat>, millis: int) returns (ok: bool)
    requires InBounds(offsets, |body|)
    ensures ok == AllStamped(body, offsets, millis)
  {
    for k := 0 to |offsets|
      invariant forall j | 0 <= j < k :: Signed(body[offsets[j]..offsets[j] + 8]) == millis
    {
      if Signed(body[offsets[k]..offsets[k] + 8]) != millis {
        return false;
      }
    }
    return true;
  }

  method NormalizeJks(data: seq<byte>, epoch: int, password: Option<seq<byte>>, sha: seq<byte> -> Digest)
    returns (r: Result<seq<byte>, JksError>)
    ensures r == Normalized(data, epoch, password, sha)
  {
    if |data| < DIGEST_SIZE {
      return Err(FileTooSmall);
    }
    if epoch < 0 || epoch > MAX_EPOCH {
      return Err(EpochOutOfRange);
    }
    var cut := |data| - DIGEST_SIZE;
    var body := new byte[cut](i requires 0 <= i < |data| => data[i]);
    assert body[..] == data[..cut];
    if password.None? {
      return Err(UnencodablePassword);
    }
    if DigestOf(sha, password.value, body[..]) != data[cut..] {
      return Err(DigestMismatch);
    }
    var offsets := FindTimestampOffsets(body);
    if offsets.Err? {
      return Err(offsets.error);
    }
    OffsetsInBounds(body[..]);
    WriteTimestamps(body, offsets.value, Millis(epoch));
    var rewritten := body[..];
    var again := FindTimestampOffsets(body);
    if again.Err? {
      return Err(again.error);
    }
    OffsetsInBounds(rewritten);
    var stamped := CheckTimestamps(rewritten, again.value, epoch * 1000);
    if !stamped {
      return Err(PostWriteMismatch);
    }
    return Ok(rewritten + DigestOf(sha, password.value, rewritten));
  }

  /** `s` as bytes, one for each character. */
  function Ascii(s: string): seq<byte>
    requires forall i | 0 <= i < |s| :: s[i] as int < 128
  {
    seq(|s|, i requires 0 <= i < |s| => s[i] as int as byte)
  }

  /** A store as it is kept in a file: its bytes and their whitened digest. */
  function Digested(sha: seq<byte> -> Digest, password: seq<byte>, body: seq<byte>): seq<byte> {
    body + sha(password + Ascii("Mighty Aphrodite") + body)
  }

  lemma DigestIsWhitened(sha: seq<byte> -> Digest, password: seq<byte>)
    ensures forall body :: Digested(sha, password, body) == body + DigestOf(sha, password, body)
  {
    assert Ascii("Mighty Aphrodite") == WHITENER;
  }

  /** What normalization accepts, stated without reference to what it does. */
  ghost predicate Normalizable(data: seq<byte>, epoch: int, password: Option<seq<byte>>, sha: seq<byte> -> Digest) {
    && 0 <= epoch * 1000 < 0x8000_0000_0000_0000 && password.Some?
    && exists es :: FitsStore(es) && data == Digested(sha, password.value, EncodeStore(es))
  }

  /** The bytes written for an accepted epoch read back as it, and parse as before. */
  lemma RewrittenBodyIsAccepted(body: seq<byte>, epoch: int)
    requires TimestampOffsets(body).Ok? && 0 <= epoch <= MAX_EPOCH
    requires Windows(TimestampOffsets(body).value, 12, |body|)
    ensures var offsets := TimestampOffsets(body).value;
            var r := Rewrite(body, offsets, Same(Millis(epoch), |offsets|));
            && SameOutside(body, r, offsets)
            && TimestampOffsets(r) == TimestampOffsets(body)
            && AllStamped(r, offsets, epoch * 1000)
  {
    hide TimestampOffsets, Rewrite, BigEndian, Pow256, Outside;
    var offsets := TimestampOffsets(body).value;
    var stamps := Same(Millis(epoch), |offsets|);
    RewriteAt(body, offsets, stamps, 12);
    ParserIgnoresTimestamps(body, Rewrite(body, offsets, stamps));
    Widths();
    ValueOfBigEndian(epoch * 1000, 8);
  }

  lemma NormalizedIsStore(data: seq<byte>, epoch: int, password: Option<seq<byte>>, sha: seq<byte> -> Digest)
    requires Normalized(data, epoch, password, sha).Ok?
    ensures Normalizable(data, epoch, password, sha)
  {
    DigestIsWhitened(sha, password.value);
    hide Digested, DigestOf, AllStamped, Millis, TimestampOffsets, EncodeStore, Rewrite, FitsStore;
    var body := data[..|data| - DIGEST_SIZE];
    var es := StoreDecoded(body);
    assert data == body + data[|data| - DIGEST_SIZE..];
  }

  lemma WriteNeverMismatches(data: seq<byte>, epoch: int, password: Option<seq<byte>>, sha: seq<byte> -> Digest)
    ensures Normalized(data, epoch, password, sha) != Err(PostWriteMismatch)
  {
    hide DigestOf, AllStamped, Millis, TimestampOffsets, Rewrite;
    if |data| >= DIGEST_SIZE && 0 <= epoch <= MAX_EPOCH {
      var body := data[..|data| - DIGEST_SIZE];
      if TimestampOffsets(body).Ok? {
        OffsetsAreTheEncoders(body);
        RewrittenBodyIsAccepted(body, epoch);
      }
    }
  }

  lemma StoreIsNormalized(es: seq<Entry>, epoch: int, password: seq<byte>, sha: seq<byte> -> Digest)
    requires FitsStore(es) && 0 <= epoch <= MAX_EPOCH
    ensures var stamped := EncodeStore(WithStamps(es, Same(Millis(epoch), |es|)));
            Normalized(EncodeStore(es) + DigestOf(sha, password, EncodeStore(es)), epoch, Some(password), sha)
            == Ok(stamped + DigestOf(sha, password, stamped))
  {
    hide DigestOf, Millis, BigEndian, Value, Pow256, EncodeEntries, StampPositions, Rewrite, FitsStore, Header;
    var body := EncodeStore(es);
    var data := body + DigestOf(sha, password, body);
    assert data[..|data| - DIGEST_SIZE] == body && data[|data| - DIGEST_SIZE..] == DigestOf(sha, password, body);
    StoreAccepted(es);
    OffsetsAreTheEncoders(body);
    RewrittenBodyIsAccepted(body, epoch);
    PositionsAreWindows(es, 12);
    RewriteReplacesStamps(Header(|es|), es, Same(Millis(epoch), |es|));
  }

  /**
   * Normalization succeeds exactly on correctly digested encodings; the output is the same
   * store with every timestamp replaced, redigested. The post-write check never fires.
   */
  lemma NormalizesExactlyStores(data: seq<byte>, epoch: int, password: Option<seq<byte>>, sha: seq<byte> -> Digest)
    ensures Normalized(data, epoch, password, sha).Ok? <==> Normalizable(data, epoch, password, sha)
    ensures Normalized(data, epoch, password, sha) != Err(PostWriteMismatch)
    ensures forall es | FitsStore(es) && 0 <= epoch * 1000 < 0x8000_0000_0000_0000 && password.Some?
              && data == Digested(sha, password.value, EncodeStore(es)) ::
              var stamped := EncodeStore(WithStamps(es, Same(BigEndian(epoch * 1000, 8), |es|)));
              Normalized(data, epoch, password, sha) == Ok(Digested(sha, password.value, stamped))
  {
    hide Normalized, Digested, EncodeStore, FitsStore, WithStamps, Same;
    if Normalized(data, epoch, password, sha).Ok? {
      NormalizedIsStore(data, epoch, password, sha);
    }
    WriteNeverMismatches(data, epoch, password, sha);
    if password.Some? {
      DigestIsWhitened(sha, password.value);
    }
    forall es | FitsStore(es) && 0 <= epoch * 1000 < 0x8000_0000_0000_0000 && password.Some?
              && data == Digested(sha, password.value, EncodeStore(es))
      ensures var stamped := EncodeStore(WithStamps(es, Same(BigEndian(epoch * 1000, 8), |es|)));
              Normalized(data, epoch, password, sha) == Ok(Digested(sha, password.value, stamped))
    {
      StoreIsNormalized(es, epoch, password.value, sha);
    }
  }

  /** A refusal names the first check that fails: the size, the epoch, the password, the digest, or the format. */
  lemma RefusalsAreExact(data: seq<byte>, epoch: int, password: Option<seq<byte>>, sha: seq<byte> -> Digest)
    ensures var r := Normalized(data, epoch, password, sha);
            var inRange := 0 <= epoch * 1000 < 0x8000_0000_0000_0000;
            && (r == Err(FileTooSmall) <==> |data| < 20)
            && (r == Err(EpochOutOfRange) <==> |data| >= 20 && !inRange)
            && (r == Err(UnencodablePassword) <==> |data| >= 20 && inRange && password.None?)
            && (|data| >= 20 && inRange && password.Some? ==>
                  (r == Err(DigestMismatch) <==> data != Digested(sha, password.value, data[..|data| - 20])))
  {
    hide TimestampOffsets, Rewrite, AllStamped, Millis;
    if |data| >= 20 {
      assert data == data[..|data| - 20] + data[|data| - 20..];
    }
    if password.Some? {
      DigestIsWhitened(sha, password.value);
    }
  }

  /** Only the windows and the trailing digest change. */
  lemma NormalizationPreservesEverythingElse(data: seq<byte>, epoch: int, password: Option<seq<byte>>,
                                             sha: seq<byte> -> Digest)
    requires Normalized(data, epoch, password, sha).Ok?
    ensures var r := Normalized(data, epoch, password, sha).value;
            var cut := |data| - DIGEST_SIZE;
            && |r| == |data|
            && TimestampOffsets(r[..cut]) == TimestampOffsets(data[..cut])
            && SameOutside(data[..cut], r[..cut], TimestampOffsets(data[..cut]).value)
  {
    var body := data[..|data| - DIGEST_SIZE];
    OffsetsAreTheEncoders(body);
    RewrittenBodyIsAccepted(body, epoch);
    var r := Normalized(data, epoch, password, sha).value;
    var offsets := TimestampOffsets(body).value;
    assert r[..|data| - DIGEST_SIZE] == Rewrite(body, offsets, Same(Millis(epoch), |offsets|));
  }

  /** Two keystores differing only in timestamps and digest normalize to the same bytes. */
  lemma NormalizationIsCanonical(x: seq<byte>, y: seq<byte>, epoch: int, password: Option<seq<byte>>,
                                 sha: seq<byte> -> Digest)
    requires Normalized(x, epoch, password, sha).Ok?
    requires |y| == |x|
    requires var cut := |x| - DIGEST_SIZE;
             && SameOutside(x[..cut], y[..cut], TimestampOffsets(x[..cut]).value)
             && y[cut..] == DigestOf(sha, password.value, y[..cut])
    ensures Normalized(y, epoch, password, sha) == Normalized(x, epoch, password, sha)
  {
    hide BigEndian, Value, TimestampOffsets, Rewrite;
    var cut := |x| - DIGEST_SIZE;
    var bodyX, bodyY := x[..cut], y[..cut];
    ParserIgnoresTimestamps(bodyX, bodyY);
    OffsetsAreTheEncoders(bodyX);
    OffsetsAreTheEncoders(bodyY);
    var offsets := TimestampOffsets(bodyX).value;
    var stamps := Same(Millis(epoch), |offsets|);
    RewriteAt(bodyX, offsets, stamps, 12);
    RewriteAt(bodyY, offsets, stamps, 12);
    EqualBySplit(Rewrite(bodyX, offsets, stamps), Rewrite(bodyY, offsets, stamps), offsets);
    RewrittenBodyIsAccepted(bodyX, epoch);
  }

  /** Normalizing again, even to another epoch, is the last normalization alone. */
  lemma LastNormalizationWins(data: seq<byte>, first: int, second: int, password: Option<seq<byte>>,
                              sha: seq<byte> -> Digest)
    requires Normalized(data, first, password, sha).Ok?
    ensures Normalized(Normalized(data, first, password, sha).value, second, password, sha)
         == Normalized(data, second, password, sha)
  {
    var cut := |data| - DIGEST_SIZE;
    var once := Normalized(data, first, password, sha).value;
    NormalizationPreservesEverythingElse(data, first, password, sha);
    assert once[cut..] == DigestOf(sha, password.value, once[..cut]);
    if 0 <= second <= MAX_EPOCH {
      OffsetsAreTheEncoders(data[..cut]);
      RewrittenBodyIsAccepted(data[..cut], second);
      NormalizationIsCanonical(data, once, second, password, sha);
    }
  }
}
