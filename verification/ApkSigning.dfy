/**
 APK Signature Scheme v2: the block the shortcut builder writes, the reader that looks for
 the signing certificate in any APK, and a verifier written from the public format.
 SHA-256 and RSA are function parameters.
 */
module ApkSigning {
  import opened Wrappers
  import opened Bytes

  const EOCD_MAGIC: bytes := [0x50, 0x4B, 0x05, 0x06]
  const EOCD_SIZE: nat := 22
  const BLOCK_MAGIC: bytes :=
    [0x41, 0x50, 0x4B, 0x20, 0x53, 0x69, 0x67, 0x20, 0x42, 0x6C, 0x6F, 0x63, 0x6B, 0x20, 0x34, 0x32]
  const V2_ID: nat := 0x7109871A
  const V3_ID: nat := 0xF05368C0
  const RSA_PKCS1_SHA256: nat := 0x0103
  const CHUNK: nat := 1024 * 1024

  type Hash = bytes -> bytes

  datatype SigningKey = SigningKey(certificateDer: bytes, publicKeyDer: bytes, sign: bytes -> bytes)

  /** UnexpectedEndRecord is the builder's own error; StructError is Python's `struct.error`. */
  datatype SignError = UnexpectedEndRecord | StructError

  // ------------------------------------------------------------------ writing

  function Lp(data: bytes): (b: bytes)
    ensures |b| == 4 + |data|
  {
    U32(|data|) + data
  }

  /** The pieces `range(start, len(section), _CHUNK)` cuts. */
  function Pieces(section: bytes, start: nat): (pieces: seq<bytes>)
    decreases |section| - start
  {
    if start >= |section| then []
    else [Slice(section, start, start + CHUNK)] + Pieces(section, start + CHUNK)
  }

  function AllPieces(sections: seq<bytes>): seq<bytes> {
    if sections == [] then [] else Pieces(sections[0], 0) + AllPieces(sections[1..])
  }

  function PieceDigest(sha: Hash, piece: bytes): bytes {
    sha([0xA5] + U32(|piece|) + piece)
  }

  function PieceDigests(sha: Hash, pieces: seq<bytes>): (d: bytes) {
    if pieces == [] then [] else PieceDigest(sha, pieces[0]) + PieceDigests(sha, pieces[1..])
  }

  function TopDigest(sha: Hash, pieces: seq<bytes>): bytes {
    sha([0x5A] + U32(|pieces|) + PieceDigests(sha, pieces))
  }

  lemma PieceDigestsSnoc(sha: Hash, pieces: seq<bytes>, last: bytes)
    ensures PieceDigests(sha, pieces + [last]) == PieceDigests(sha, pieces) + PieceDigest(sha, last)
  {
    if pieces == [] {
      assert PieceDigests(sha, [last]) == PieceDigest(sha, last) + PieceDigests(sha, []);
    } else {
      assert (pieces + [last])[1..] == pieces[1..] + [last];
      PieceDigestsSnoc(sha, pieces[1..], last);
    }
  }

  lemma AllPiecesSnoc(sections: seq<bytes>, last: bytes)
    ensures AllPieces(sections + [last]) == AllPieces(sections) + Pieces(last, 0)
  {
    if sections == [] {
      assert AllPieces([last]) == Pieces(last, 0) + AllPieces([]);
    } else {
      assert (sections + [last])[1..] == sections[1..] + [last];
      AllPiecesSnoc(sections[1..], last);
    }
  }

  lemma PiecesStep(section: bytes, start: nat, pieces: seq<bytes>)
    requires start < |section|
    ensures pieces + Pieces(section, start) ==
              (pieces + [Slice(section, start, start + CHUNK)]) + Pieces(section, start + CHUNK)
  {
    hide Slice;
  }

  lemma NoPieces(sha: Hash, none: seq<bytes>)
    requires none == []
    ensures AllPieces(none) == [] && PieceDigests(sha, []) == []
  {
  }

  lemma PiecesEnd(section: bytes, start: nat, pieces: seq<bytes>)
    requires start >= |section|
    ensures pieces + Pieces(section, start) == pieces
  {
  }

  /** `_top_digest`: both loops, with the running list of chunk digests kept joined. */
  method ComputeTopDigest(sha: Hash, sections: seq<bytes>) returns (digest: Result<bytes, SignError>)
    ensures digest == if |AllPieces(sections)| < U32_LIMIT then Ok(TopDigest(sha, AllPieces(sections)))
      else Err(StructError)
  {
    hide Pieces, PieceDigest, PieceDigests, AllPieces, Slice;
    NoPieces(sha, sections[..0]);
    var joined: bytes, count := [], 0;
    ghost var pieces: seq<bytes> := [];
    for k := 0 to |sections|
      invariant pieces == AllPieces(sections[..k])
      invariant joined == PieceDigests(sha, pieces) && count == |pieces|
    {
      var section := sections[k];
      ghost var before := pieces;
      var start := 0;
      while start < |section|
        invariant pieces + Pieces(section, start) == before + Pieces(section, 0)
        invariant joined == PieceDigests(sha, pieces) && count == |pieces|
        decreases |section| - start
      {
        var piece := Slice(section, start, start + CHUNK);
        PieceDigestsSnoc(sha, pieces, piece);
        joined, count := joined + PieceDigest(sha, piece), count + 1;
        PiecesStep(section, start, pieces);
        pieces, start := pieces + [piece], start + CHUNK;
      }
      PiecesEnd(section, start, pieces);
      assert sections[..k + 1] == sections[..k] + [section];
      AllPiecesSnoc(sections[..k], section);
    }
    assert sections[..|sections|] == sections;
    digest := if count < U32_LIMIT then Ok(sha([0x5A] + U32(count) + joined)) else Err(StructError);
  }

  function SignedData(key: SigningKey, digest: bytes): bytes {
    Lp(Lp(U32(RSA_PKCS1_SHA256) + Lp(digest))) + Lp(Lp(key.certificateDer)) + Lp([])
  }

  function Signer(key: SigningKey, signedData: bytes): bytes {
    Lp(signedData) + Lp(Lp(U32(RSA_PKCS1_SHA256) + Lp(key.sign(signedData)))) + Lp(key.publicKeyDer)
  }

  function SigningBlock(value: bytes): (block: bytes)
    ensures |block| == 44 + |value|
  {
    U64(36 + |value|) + (U64(4 + |value|) + U32(V2_ID) + value) + U64(36 + |value|) + BLOCK_MAGIC
  }

  /** What a zip's end record says, and the three sections it cuts the file into. */
  datatype Sections = Sections(entries: bytes, central: bytes, end: bytes, offset: nat)

  function Cut(apk: bytes): (s: Sections)
    requires |apk| >= EOCD_SIZE
    ensures s.end == apk[|apk| - EOCD_SIZE..]
    ensures s.offset <= |apk| ==> |s.entries| == s.offset
  {
    var eocd := |apk| - EOCD_SIZE;
    var size, offset := U32At(apk, eocd + 12), U32At(apk, eocd + 16);
    Sections(Slice(apk, 0, offset), Slice(apk, offset, offset + size), apk[eocd..], offset)
  }

  function Patched(data: bytes, at: nat, n: nat): (b: bytes)
    requires at + 4 <= |data|
    ensures |b| == |data|
  {
    data[..at] + U32(n) + data[at + 4..]
  }

  function ContentDigest(sha: Hash, s: Sections): bytes {
    TopDigest(sha, AllPieces([s.entries, s.central, s.end]))
  }

  /** The signing block for three sections. */
  function BlockFor(sha: Hash, key: SigningKey, s: Sections): bytes {
    SigningBlock(Lp(Lp(Signer(key, SignedData(key, ContentDigest(sha, s))))))
  }

  function Assembled(s: Sections, block: bytes): bytes
    requires |s.end| == EOCD_SIZE
  {
    s.entries + block + s.central + Patched(s.end, 16, s.offset + |block|)
  }

  predicate EndsWithItsOnlyEndRecord(apk: bytes) {
    |apk| >= EOCD_SIZE && RFind(apk, EOCD_MAGIC, 0) == |apk| - EOCD_SIZE
  }

  /** `struct.pack("<I", …)` must hold every length and the moved directory offset. */
  predicate Packable(sha: Hash, key: SigningKey, s: Sections) {
    && |AllPieces([s.entries, s.central, s.end])| < U32_LIMIT
    && |Lp(Signer(key, SignedData(key, ContentDigest(sha, s))))| < U32_LIMIT
    && s.offset + |BlockFor(sha, key, s)| < U32_LIMIT
  }

  function Signed(sha: Hash, key: SigningKey, apk: bytes): Result<bytes, SignError> {
    if !EndsWithItsOnlyEndRecord(apk) then Err(UnexpectedEndRecord)
    else if !Packable(sha, key, Cut(apk)) then Err(StructError)
    else Ok(Assembled(Cut(apk), BlockFor(sha, key, Cut(apk))))
  }

  /** `struct.pack_into("<I", buffer, at, n)`, in place. */
  method PackInto(buffer: array<byte>, at: nat, n: nat)
    requires at + 4 <= buffer.Length
    modifies buffer
    ensures buffer[..] == Patched(old(buffer[..]), at, n)
  {
    var packed := U32(n);
    buffer[at], buffer[at + 1], buffer[at + 2], buffer[at + 3] := packed[0], packed[1], packed[2], packed[3];
  }

  /** The signing block, or the `struct.error` of a length that does not fit. */
  method MakeBlock(sha: Hash, key: SigningKey, s: Sections) returns (block: Result<bytes, SignError>)
    ensures block ==
            if |AllPieces([s.entries, s.central, s.end])| < U32_LIMIT
               && |Lp(Signer(key, SignedData(key, ContentDigest(sha, s))))| < U32_LIMIT
            then Ok(BlockFor(sha, key, s)) else Err(StructError)
  {
    var digest :- ComputeTopDigest(sha, [s.entries, s.central, s.end]);
    var lists := Lp(Signer(key, SignedData(key, digest)));
    block := if |lists| < U32_LIMIT then Ok(SigningBlock(Lp(lists))) else Err(StructError);
  }

  /** `sign_v2`. */
  method SignV2(sha: Hash, key: SigningKey, apk: bytes) returns (r: Result<bytes, SignError>)
    ensures r == Signed(sha, key, apk)
  {
    hide RFind, AllPieces, Signer, SignedData, ContentDigest, SigningBlock, U32At, U32, Slice;
    var eocd := RFind(apk, EOCD_MAGIC, 0);
    if eocd < 0 || |apk| - eocd != EOCD_SIZE {
      return Err(UnexpectedEndRecord);
    }
    var s := Cut(apk);
    var block :- MakeBlock(sha, key, s);
    if s.offset + |block| >= U32_LIMIT {
      return Err(StructError);
    }
    var newEnd := new byte[EOCD_SIZE](i requires 0 <= i < EOCD_SIZE => s.end[i]);
    assert newEnd[..] == s.end;
    PackInto(newEnd, 16, s.offset + |block|);
    assert newEnd[..] == Patched(s.end, 16, s.offset + |block|);
    r := Ok(s.entries + block + s.central + newEnd[..]);
  }

  // ------------------------------------------------------------------ finding an end record

  /** The end record whose comment is `comment` bytes or longer and reaches exactly the end of the file. */
  function RecordWithComment(data: bytes, comment: nat): (at: Option<nat>)
    ensures at.Some? ==> at.value + EOCD_SIZE + comment <= |data|
    decreases |data| - comment
  {
    if comment >= U16_LIMIT || comment + EOCD_SIZE > |data| then None
    else
      var at := |data| - EOCD_SIZE - comment;
      if data[at..at + 4] == [0x50, 0x4B, 0x05, 0x06] && U16At(data, at + 20) == comment then Some(at)
      else RecordWithComment(data, comment + 1)
  }

  /** The search of section 4.3.16 of APPNOTE.TXT, shortest comment first; ATLAS's own reader is laxer. */
  function FindEndRecord(data: bytes): (at: Option<nat>)
    ensures at.Some? ==> at.value + EOCD_SIZE <= |data|
  {
    RecordWithComment(data, 0)
  }

  // ------------------------------------------------------------------ reading

  datatype ReadError = NoEndRecord | BlockOutOfRange | ShortRead

  datatype Scheme = V1 | V2 | V3

  datatype Signature = Signature(certificateSha256: bytes, scheme: Scheme)

  /** `_length_prefixed_items`: stops at an empty item as well as at an overrun. */
  function Items(payload: bytes): seq<bytes>
    decreases |payload|
  {
    if |payload| < 4 then []
    else
      var length := U32At(payload, 0);
      if length == 0 || 4 + length > |payload| then []
      else [payload[4..4 + length]] + Items(payload[4 + length..])
  }

  /** One turn of the loop in `_length_prefixed_items`, seen from position `at`. */
  lemma ItemsAt(payload: bytes, at: nat)
    requires at + 4 <= |payload|
    ensures var length := U32At(payload, at);
            Items(payload[at..]) ==
            if length == 0 || at + 4 + length > |payload| then []
            else [payload[at + 4..at + 4 + length]] + Items(payload[at + 4 + length..])
  {
    var rest, length := payload[at..], U32At(payload, at);
    assert U32At(rest, 0) == length;
    if length != 0 && at + 4 + length <= |payload| {
      assert rest[4..4 + length] == payload[at + 4..at + 4 + length];
      assert rest[4 + length..] == payload[at + 4 + length..];
    }
  }

  lemma TakeItem(payload: bytes, at: nat, items: seq<bytes>)
    requires at + 4 <= |payload|
    ensures at + 4 + U32At(payload, at) <= |payload| ==>
            var next := at + 4 + U32At(payload, at);
            var item := payload[at + 4..next];
            items + ([item] + Items(payload[next..])) == (items + [item]) + Items(payload[next..])
  {
    hide U32At, Items;
  }

  /** Too little is left for another length. */
  lemma ItemsEnd(payload: bytes, at: nat)
    requires at <= |payload| < at + 4
    ensures Items(payload[at..]) == []
  {
  }

  method LengthPrefixedItems(payload: bytes) returns (items: seq<bytes>)
    ensures items == Items(payload)
  {
    hide U32At, Items;
    items := [];
    var position := 0;
    assert payload[0..] == payload;
    while position + 4 <= |payload|
      invariant position <= |payload|
      invariant items + Items(payload[position..]) == Items(payload)
      decreases |payload| - position
    {
      ItemsAt(payload, position);
      TakeItem(payload, position, items);
      var length := U32At(payload, position);
      position := position + 4;
      if length == 0 || position + length > |payload| {
        return;
      }
      items := items + [payload[position..position + length]];
      position := position + length;
    }
    ItemsEnd(payload, position);
  }

  /** The id-value pairs of a signing block's body; a repeated id keeps its last value. */
  function Pairs(body: bytes): map<nat, bytes>
    decreases |body|
  {
    if |body| < 12 then map[]
    else
      var length := U64At(body, 0);
      if length < 4 || 8 + length > |body| then map[]
      else map[U32At(body, 8) := body[12..8 + length]] + Pairs(body[8 + length..])
  }

  function EndRecordOffset(data: bytes): int {
    RFind(data, EOCD_MAGIC, if |data| > EOCD_SIZE + 0xFFFF then |data| - (EOCD_SIZE + 0xFFFF) else 0)
  }

  /** `_extract_signing_block`'s bytes between the two size fields; None when there is no block. */
  function BlockBody(data: bytes): Result<Option<bytes>, ReadError> {
    var eocd := EndRecordOffset(data);
    if eocd < 0 then Err(NoEndRecord)
    else if eocd + 20 > |data| then Err(ShortRead)
    else
      var directory := U32At(data, eocd + 16);
      if directory < 24 || Slice(data, directory - 16, directory) != BLOCK_MAGIC then Ok(None)
      else
        var size := U64At(data, directory - 24);
        if directory - size - 8 < 0 then Err(BlockOutOfRange)
        else Ok(Some(Slice(data, directory - size, directory - 24)))
  }

  function SchemeBlocks(data: bytes): Result<map<nat, bytes>, ReadError> {
    var body :- BlockBody(data);
    Ok(if body.None? then map[] else Pairs(body.value))
  }

  /** One turn of the loop in `_extract_signing_block`, seen from position `at`. */
  lemma PairsAt(body: bytes, at: nat)
    requires at + 12 <= |body|
    ensures var length := U64At(body, at);
            Pairs(body[at..]) ==
            if length < 4 || at + 8 + length > |body| then map[]
            else map[U32At(body, at + 8) := body[at + 12..at + 8 + length]] + Pairs(body[at + 8 + length..])
  {
    var rest, length := body[at..], U64At(body, at);
    assert U64At(rest, 0) == length && U32At(rest, 8) == U32At(body, at + 8);
    if length >= 4 && at + 8 + length <= |body| {
      assert rest[12..8 + length] == body[at + 12..at + 8 + length];
      assert rest[8 + length..] == body[at + 8 + length..];
    }
  }

  method ExtractSigningBlock(data: bytes) returns (r: Result<map<nat, bytes>, ReadError>)
    ensures r == SchemeBlocks(data)
  {
    var found := BlockBody(data);
    if found.Err? {
      return Err(found.error);
    }
    if found.value.None? {
      return Ok(map[]);
    }
    var pairs := ReadPairs(found.value.value);
    r := Ok(pairs);
  }

  method ReadPairs(body: bytes) returns (pairs: map<nat, bytes>)
    ensures pairs == Pairs(body)
  {
    hide U32At, U64At, Pairs;
    pairs := map[];
    var position := 0;
    assert body[0..] == body && map[] + Pairs(body) == Pairs(body);
    while position + 12 <= |body|
      invariant position <= |body|
      invariant pairs + Pairs(body[position..]) == Pairs(body)
      decreases |body| - position
    {
      PairsAt(body, position);
      var length := U64At(body, position);
      position := position + 8;
      if length < 4 || position + length > |body| {
        NoMorePairs(pairs);
        return;
      }
      MorePairs(pairs, U32At(body, position), body[position + 4..position + length], Pairs(body[position + length..]));
      pairs := pairs[U32At(body, position) := body[position + 4..position + length]];
      position := position + length;
    }
    PairsEnd(body[position..]);
    NoMorePairs(pairs);
  }

  lemma PairsEnd(rest: bytes)
    requires |rest| < 12
    ensures Pairs(rest) == map[]
  {
  }

  lemma NoMorePairs(pairs: map<nat, bytes>)
    ensures pairs + map[] == pairs
  {
  }

  lemma MorePairs(pairs: map<nat, bytes>, id: nat, value: bytes, rest: map<nat, bytes>)
    ensures pairs + (map[id := value] + rest) == pairs[id := value] + rest
  {
  }

  /** The first certificate of the first signer that has one. */
  function FirstCertificate(signers: seq<bytes>): Option<bytes> {
    if signers == [] then None
    else
      var sections := Items(signers[0]);
      var signedData := if sections == [] then [] else Items(sections[0]);
      var certificates := if |signedData| < 2 then [] else Items(signedData[1]);
      if certificates == [] then FirstCertificate(signers[1..]) else Some(certificates[0])
  }

  function CertificateOf(block: bytes): Option<bytes> {
    var outer := Items(block);
    if outer == [] then None else FirstCertificate(Items(outer[0]))
  }

  /** `_certificate_from_scheme_block`. */
  method CertificateFromSchemeBlock(block: bytes) returns (certificate: Option<bytes>)
    ensures certificate == CertificateOf(block)
  {
    var outer := LengthPrefixedItems(block);
    if outer == [] {
      return None;
    }
    var signers := LengthPrefixedItems(outer[0]);
    for k := 0 to |signers|
      invariant FirstCertificate(signers) == FirstCertificate(signers[k..])
    {
      assert signers[k..][0] == signers[k] && signers[k..][1..] == signers[k + 1..];
      var sections := LengthPrefixedItems(signers[k]);
      if sections != [] {
        var signedData := LengthPrefixedItems(sections[0]);
        if |signedData| >= 2 {
          var certificates := LengthPrefixedItems(signedData[1]);
          if certificates != [] {
            return Some(certificates[0]);
          }
        }
      }
    }
    return None;
  }

  function SchemeSignature(sha: Hash, blocks: map<nat, bytes>, id: nat, scheme: Scheme): Option<Signature> {
    if id !in blocks || blocks[id] == [] then None
    else
      var certificate := CertificateOf(blocks[id]);
      if certificate.None? || certificate.value == [] then None
      else Some(Signature(sha(certificate.value), scheme))
  }

  /** `extract_signature`; `v1` is what the META-INF fallback would find. */
  function ReadSignature(sha: Hash, data: bytes, v1: Option<bytes>): Result<Option<Signature>, ReadError> {
    var blocks :- SchemeBlocks(data);
    var v3, v2 := SchemeSignature(sha, blocks, V3_ID, V3), SchemeSignature(sha, blocks, V2_ID, V2);
    Ok(if v3.Some? then v3
       else if v2.Some? then v2
       else if v1.None? || v1.value == [] then None
       else Some(Signature(sha(v1.value), V1)))
  }

  method ExtractSignature(sha: Hash, data: bytes, v1: Option<bytes>)
    returns (r: Result<Option<Signature>, ReadError>)
    ensures r == ReadSignature(sha, data, v1)
  {
    var blocks :- ExtractSigningBlock(data);
    var schemes := [(V3_ID, V3), (V2_ID, V2)];
    for k := 0 to 2
      invariant forall i :: 0 <= i < k ==> SchemeSignature(sha, blocks, schemes[i].0, schemes[i].1).None?
    {
      var (id, scheme) := schemes[k];
      if id in blocks && blocks[id] != [] {
        var certificate := CertificateFromSchemeBlock(blocks[id]);
        if certificate.Some? && certificate.value != [] {
          assert k == 1 ==> SchemeSignature(sha, blocks, schemes[0].0, schemes[0].1).None?;
          return Ok(Some(Signature(sha(certificate.value), scheme)));
        }
      }
    }
    assert SchemeSignature(sha, blocks, schemes[0].0, schemes[0].1).None?;
    assert SchemeSignature(sha, blocks, schemes[1].0, schemes[1].1).None?;
    if v1.Some? && v1.value != [] {
      return Ok(Some(Signature(sha(v1.value), V1)));
    }
    return Ok(None);
  }
}
