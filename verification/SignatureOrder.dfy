/** Reading any signing block: every pair by its id, every signer in order, and the newest scheme first. */
module SignatureOrder {
  import opened Wrappers
  import opened Bytes
  import opened ApkSigning
  import opened ApkSigningTheorems

  // ------------------------------------------------------- pairs

  datatype IdValue = IdValue(id: nat, value: bytes)

  predicate Printable(pairs: seq<IdValue>) {
    forall p :: p in pairs ==> p.id < U32_LIMIT && |p.value| < U64_LIMIT - 4
  }

  function PrintedPairs(pairs: seq<IdValue>): bytes {
    if pairs == [] then []
    else U64(4 + |pairs[0].value|) + U32(pairs[0].id) + pairs[0].value + PrintedPairs(pairs[1..])
  }

  /** The value of the last pair with this id. */
  function LastValue(pairs: seq<IdValue>, id: nat): Option<bytes> {
    if pairs == [] then None
    else
      var last := pairs[|pairs| - 1];
      if last.id == id then Some(last.value) else LastValue(pairs[..|pairs| - 1], id)
  }

  lemma FirstPairReads(id: nat, value: bytes, rest: bytes)
    requires id < U32_LIMIT && |value| < U64_LIMIT - 4
    ensures Pairs(U64(4 + |value|) + U32(id) + value + rest) == map[id := value] + Pairs(rest)
  {
    hide U64At, U64, U32, U32At;
    var body := U64(4 + |value|) + U32(id) + value + rest;
    assert body == [] + U64(4 + |value|) + (U32(id) + value + rest);
    U64Reads([], 4 + |value|, U32(id) + value + rest);
    assert body == U64(4 + |value|) + U32(id) + (value + rest);
    U32Reads(U64(4 + |value|), id, value + rest);
    assert body[12..12 + |value|] == value && body[12 + |value|..] == rest;
  }

  lemma {:induction false} LastValueFromFront(pairs: seq<IdValue>, id: nat)
    requires pairs != []
    ensures LastValue(pairs, id) ==
            if LastValue(pairs[1..], id).Some? then LastValue(pairs[1..], id)
            else if pairs[0].id == id then Some(pairs[0].value) else None
    decreases |pairs|
  {
    if |pairs| > 1 {
      var before := pairs[..|pairs| - 1];
      assert before[1..] == pairs[1..][..|pairs| - 2];
      LastValueFromFront(before, id);
    } else {
      assert pairs[..0] == [] && pairs[1..] == [];
    }
  }

  /** Every id of a printed list has its last value, and no other id has one. */
  lemma {:induction false} PairsRead(pairs: seq<IdValue>, id: nat)
    requires Printable(pairs)
    ensures id in Pairs(PrintedPairs(pairs)) <==> LastValue(pairs, id).Some?
    ensures LastValue(pairs, id).Some? ==> Pairs(PrintedPairs(pairs))[id] == LastValue(pairs, id).value
    decreases |pairs|
  {
    hide U64, U32, Pairs;
    if pairs == [] {
      NoPairs();
    } else {
      FirstPairReads(pairs[0].id, pairs[0].value, PrintedPairs(pairs[1..]));
      PairsRead(pairs[1..], id);
      LastValueFromFront(pairs, id);
    }
  }

  lemma NoPairs()
    ensures Pairs([]) == map[]
  {
  }

  // ------------------------------------------------------- signers

  /** A signer: its digests and certificates, and whatever follows them in its signed data and after it. */
  datatype SignerParts = SignerParts(digests: bytes, certificates: seq<bytes>, more: bytes, tail: bytes)

  function Joined(items: seq<bytes>): bytes {
    if items == [] then [] else Lp(items[0]) + Joined(items[1..])
  }

  function PrintedSigner(s: SignerParts): bytes {
    Lp(Lp(s.digests) + Lp(Joined(s.certificates)) + s.more) + s.tail
  }

  function PrintedSigners(signers: seq<SignerParts>): (items: seq<bytes>)
    ensures |items| == |signers|
  {
    seq(|signers|, i requires 0 <= i < |signers| => PrintedSigner(signers[i]))
  }

  function PrintedScheme(signers: seq<SignerParts>): bytes {
    Lp(Joined(PrintedSigners(signers)))
  }

  /** Lengths fit, and no digests or certificate are empty. */
  predicate Plausible(s: SignerParts) {
    && 0 < |s.digests| < U32_LIMIT && |Joined(s.certificates)| < U32_LIMIT
    && |Lp(s.digests) + Lp(Joined(s.certificates)) + s.more| < U32_LIMIT && |PrintedSigner(s)| < U32_LIMIT
    && forall c :: c in s.certificates ==> 0 < |c| < U32_LIMIT
  }

  /** The first certificate of the first signer that has one. */
  function FirstOf(signers: seq<SignerParts>): Option<bytes> {
    if signers == [] then None
    else if signers[0].certificates != [] then Some(signers[0].certificates[0])
    else FirstOf(signers[1..])
  }

  lemma {:induction false} JoinedReads(items: seq<bytes>)
    requires forall item :: item in items ==> 0 < |item| < U32_LIMIT
    ensures Items(Joined(items)) == items
    decreases |items|
  {
    hide Lp, Items;
    if items == [] {
      NoItems();
    } else {
      JoinedReads(items[1..]);
      ItemsOfLp(items[0], Joined(items[1..]));
      assert items == [items[0]] + items[1..];
    }
  }

  lemma NoItems()
    ensures Items([]) == []
  {
  }

  /** What the reader takes from one printed signer. */
  lemma SignerReads(s: SignerParts, rest: seq<bytes>)
    requires Plausible(s)
    ensures FirstCertificate([PrintedSigner(s)] + rest) ==
            if s.certificates != [] then Some(s.certificates[0]) else FirstCertificate(rest)
  {
    hide Items, U32;
    var signedData, certificates := Lp(s.digests) + Lp(Joined(s.certificates)) + s.more, Joined(s.certificates);
    ItemsOfLp(signedData, s.tail);
    assert signedData == Lp(s.digests) + (Lp(certificates) + s.more);
    ItemsOfLp(s.digests, Lp(certificates) + s.more);
    JoinedReads(s.certificates);
    if s.certificates == [] {
      ItemsStopAtEmpty(s.more);
    } else {
      ItemsOfLp(certificates, s.more);
    }
    assert ([PrintedSigner(s)] + rest)[1..] == rest;
  }

  lemma {:induction false} SignersRead(signers: seq<SignerParts>)
    requires forall s :: s in signers ==> Plausible(s)
    ensures FirstCertificate(PrintedSigners(signers)) == FirstOf(signers)
    decreases |signers|
  {
    hide PrintedSigner, Plausible, FirstCertificate;
    if signers == [] {
      NoSigners();
    } else {
      SignersRead(signers[1..]);
      assert PrintedSigners(signers) == [PrintedSigner(signers[0])] + PrintedSigners(signers[1..]);
      SignerReads(signers[0], PrintedSigners(signers[1..]));
    }
  }

  lemma NoSigners()
    ensures FirstCertificate([]) == None
  {
  }

  ghost predicate PlausibleScheme(signers: seq<SignerParts>) {
    |Joined(PrintedSigners(signers))| < U32_LIMIT && forall s :: s in signers ==> Plausible(s)
  }

  /** Through all nested layers: the first certificate of the first signer that has one. */
  lemma SchemeReads(signers: seq<SignerParts>)
    requires PlausibleScheme(signers)
    ensures CertificateOf(PrintedScheme(signers)) == FirstOf(signers)
  {
    hide Items, PrintedSigner, FirstCertificate, Lp;
    var items := PrintedSigners(signers);
    SignersRead(signers);
    forall item | item in items ensures 0 < |item| < U32_LIMIT {
      var i :| 0 <= i < |items| && items[i] == item;
      PrintedIsSomething(signers[i]);
    }
    JoinedReads(items);
    if signers == [] {
      assert items == [];
      EmptyLpReads();
      NoSigners();
    } else {
      JoinedIsSomething(items);
      ItemsOfOne(Joined(items));
    }
  }

  lemma PrintedIsSomething(s: SignerParts)
    requires Plausible(s)
    ensures 0 < |PrintedSigner(s)| < U32_LIMIT
  {
  }

  lemma JoinedIsSomething(items: seq<bytes>)
    requires items != []
    ensures |Joined(items)| >= 4
  {
  }

  lemma EmptyLpReads()
    ensures Joined([]) == [] && Items(Lp([])) == []
  {
    ItemsStopAtEmpty([]);
    assert Lp([]) + [] == Lp([]);
  }

  // ------------------------------------------------------- a whole file

  /** A block of pairs between its two sizes, ended by its magic. */
  function PrintedBlock(pairs: seq<IdValue>): bytes {
    var body := PrintedPairs(pairs);
    U64(|body| + 24) + body + U64(|body| + 24) + SCHEME_MAGIC
  }

  /** The end record holds one magic, at its start, and the directory begins where the block ends. */
  predicate PointsPast(end: bytes, at: nat) {
    |end| == EOCD_SIZE && RFind(end, EOCD_MAGIC, 0) == 0 && U32At(end, 16) == at
  }

  /** Where the parts of a block lie in the file, seen from the directory after it. */
  lemma BlockLies(entries: bytes, body: bytes, after: bytes)
    requires |body| < U64_LIMIT - 24
    ensures var block := U64(|body| + 24) + body + U64(|body| + 24) + SCHEME_MAGIC;
            var data, directory := entries + block + after, |entries| + |block|;
            && |block| == |body| + 32 && directory <= |data| && U64At(data, directory - 24) == |body| + 24
            && data[directory - 16..directory] == SCHEME_MAGIC && data[directory - 24 - |body|..directory - 24] == body
  {
    hide U64At, U64;
    var size := U64(|body| + 24);
    var block := size + body + size + SCHEME_MAGIC;
    var data := entries + block + after;
    assert data == (entries + size + body) + size + (SCHEME_MAGIC + after);
    U64Reads(entries + size + body, |body| + 24, SCHEME_MAGIC + after);
  }

  /** The four bytes an end record begins with. */
  predicate MagicAt(data: bytes, i: int) {
    0 <= i && i + 4 <= |data| && data[i] == 0x50 && data[i + 1] == 0x4B && data[i + 2] == 0x05 && data[i + 3] == 0x06
  }

  /**
   In every byte string the reader takes the last magic, but only among the last 65,557 bytes: 22
   for a record and 65,535 for its comment.
   */
  lemma RecordIsSought(data: bytes)
    ensures var r := EndRecordOffset(data);
            && (r < 0 <==> forall i :: i >= |data| - 65557 ==> !MagicAt(data, i))
            && (r >= 0 ==> r >= |data| - 65557 && MagicAt(data, r) && forall i :: i > r ==> !MagicAt(data, i))
  {
    hide RFind;
    forall i: int ensures MagicAt(data, i) <==> MatchesAt(data, EOCD_MAGIC, i) {
      if 0 <= i && i + 4 <= |data| {
        assert data[i..i + 4] == [data[i], data[i + 1], data[i + 2], data[i + 3]];
      }
    }
    hide MatchesAt, MagicAt;
  }

  lemma EndIsFound(before: bytes, end: bytes)
    requires |end| == EOCD_SIZE && RFind(end, EOCD_MAGIC, 0) == 0
    ensures EndRecordOffset(before + end) == |before| && U32At(before + end, |before| + 16) == U32At(end, 16)
  {
    hide RFind, U32At;
    var data := before + end;
    RFindInSuffix(before, end, EOCD_MAGIC,
                  if |data| > EOCD_SIZE + 0xFFFF then |data| - (EOCD_SIZE + 0xFFFF) else 0);
    assert data[|before|..|before| + |end|] == end;
    ReadsInside(data, |before|, end, 16);
  }

  lemma BlockReads(entries: bytes, pairs: seq<IdValue>, central: bytes, end: bytes)
    requires |PrintedPairs(pairs)| < U64_LIMIT - 24
    requires PointsPast(end, |entries| + |PrintedBlock(pairs)|)
    ensures BlockBody(entries + PrintedBlock(pairs) + central + end) == Ok(Some(PrintedPairs(pairs)))
  {
    hide RFind, U32At, U64At, U64, PrintedPairs, EndRecordOffset;
    var body, block := PrintedPairs(pairs), PrintedBlock(pairs);
    var data, before := entries + block + central + end, entries + block + central;
    EndIsFound(before, end);
    BlockLies(entries, body, central + end);
    assert data == entries + block + (central + end);
    hide PrintedBlock;
  }

  /** The signature a certificate of this scheme makes. */
  function SignatureBy(sha: Hash, certificate: bytes, scheme: Scheme): Option<Signature> {
    Some(Signature(sha(certificate), scheme))
  }

  /**
   Of a file that carries several schemes the reader reports the certificate of v3 if that scheme
   has one, else that of v2, else the v1 certificate; of several pairs with one id the last counts.
   */
  lemma NewestSchemeIsRead(sha: Hash, entries: bytes, pairs: seq<IdValue>, central: bytes, end: bytes,
                           v3: seq<SignerParts>, v2: seq<SignerParts>, v1: Option<bytes>)
    requires Printable(pairs) && |PrintedPairs(pairs)| < U64_LIMIT - 24 && PlausibleScheme(v3) && PlausibleScheme(v2)
    requires PointsPast(end, |entries| + |PrintedBlock(pairs)|)
    requires LastValue(pairs, 0xF053_68C0) == if v3 == [] then None else Some(PrintedScheme(v3))
    requires LastValue(pairs, 0x7109_871A) == if v2 == [] then None else Some(PrintedScheme(v2))
    ensures ReadSignature(sha, entries + PrintedBlock(pairs) + central + end, v1) ==
            Ok(if FirstOf(v3).Some? then SignatureBy(sha, FirstOf(v3).value, V3)
               else if FirstOf(v2).Some? then SignatureBy(sha, FirstOf(v2).value, V2)
               else FromV1(sha, v1))
  {
    hide BlockBody, PrintedPairs, PrintedBlock, Pairs, CertificateOf, PrintedScheme, PointsPast, LastValue;
    BlockReads(entries, pairs, central, end);
    PairsRead(pairs, 0xF053_68C0);
    PairsRead(pairs, 0x7109_871A);
    SchemeReads(v3);
    SchemeReads(v2);
    FirstIsSomething(v3);
    FirstIsSomething(v2);
    SchemeIsSomething(v3);
    SchemeIsSomething(v2);
  }

  lemma SchemeIsSomething(signers: seq<SignerParts>)
    ensures PrintedScheme(signers) != []
  {
  }

  lemma {:induction false} FirstIsSomething(signers: seq<SignerParts>)
    requires forall s :: s in signers ==> Plausible(s)
    ensures FirstOf(signers).Some? ==> FirstOf(signers).value != []
    decreases |signers|
  {
    hide PrintedSigner;
    if signers != [] {
      FirstIsSomething(signers[1..]);
      var s := signers[0];
      assert Plausible(s) && (s.certificates != [] ==> s.certificates[0] in s.certificates);
    }
  }
}
