/** Archives at which signing meets its limits: one the reader of signatures trips over, and one `sign_v2` refuses. */
module SigningExamples {
  import opened Wrappers
  import opened Bytes
  import opened ApkSigning
  import opened ApkSigningTheorems
  import opened AlignedZip
  import opened AlignedZipTheorems

  // ------------------------------------------------------- a signed file that is not read

  /** All digests and all signatures have one length, as SHA-256's and an RSA key's have. */
  ghost predicate FixedLengths(sha: Hash, key: SigningKey, digest: nat, signature: nat) {
    (forall m :: |sha(m)| == digest) && forall m :: |key.sign(m)| == signature
  }

  /** An archive of one stored file of `size` zero bytes. */
  function OneFile(size: nat): seq<Entry> {
    [Entry([0x61], true, Zeros(size))]
  }

  lemma OneFileLengths(codec: Codec, size: nat)
    ensures |Locals(codec, OneFile(size), 0)| == 40 + size
    ensures |Centrals(codec, OneFile(size), 0)| == 56
  {
    hide Common;
    var entry := OneFile(size)[0];
    assert |Extra(entry, 0)| == 9;
    assert OneFile(size)[1..] == [];
    assert Locals(codec, [], |Local(codec, entry, 0)|) == [] && Centrals(codec, [], |Local(codec, entry, 0)|) == [];
  }

  /** The file size that moves the directory of `OneFile` to the end-record magic. */
  function FatalSize(key: SigningKey, digest: nat, signature: nat): int {
    0x0605_4B50 - (104 + digest + |key.certificateDer| + signature + |key.publicKeyDer|) - 40
  }

  /**
   For every key and hash there is an archive of one file that is signed, verifies and still
   unpacks, and whose signature ATLAS itself cannot read.
   */
  lemma SignedButNotRead(sha: Hash, rsa: Rsa, key: SigningKey, zip: Unpacker, codec: Codec, digest: nat,
                         signature: nat)
    requires FixedLengths(sha, key, digest, signature) && Genuine(rsa, key) && key.certificateDer != []
    requires Unpacks(zip, codec)
    requires FatalSize(key, digest, signature) >= 0
    ensures var entries := OneFile(FatalSize(key, digest, signature));
            var signed := Signed(sha, key, Written(codec, entries));
            && signed.Ok? && VerifiesV2(sha, rsa, signed.value)
            && ReadZip(zip, signed.value) == Some(Expected(codec, entries, 0))
            && forall v1 :: ReadSignature(sha, signed.value, v1) == Err(ShortRead)
  {
    hide EndRecord, Locals, Centrals, U32At, U16At, U32, Cut, Assembled, BlockFor, ReadZip, ReadSignature, VerifiesV2,
         Expected, Written, Packable, NewEnd, EndsWithItsOnlyEndRecord, Genuine, Unambiguous, Zeros, Unpacks;
    var size := FatalSize(key, digest, signature);
    var entries := OneFile(size);
    var apk := Written(codec, entries);
    OneFileLengths(codec, size);
    WrittenParts(codec, entries);
    assert entries == [Entry([0x61], true, Zeros(size))];
    UnambiguousExactlyWhen(codec, entries);
    WrittenEndsWithItsEndRecord(codec, entries);
    WrittenIsCut(codec, entries);
    DirectorySizeIsWritten(codec, entries);
    BlockLength(sha, key, Cut(apk));
    SigningSucceeds(sha, key, apk);
    WrittenRecordIsFound(codec, entries);
    forall v1 ensures ReadSignature(sha, Signed(sha, key, apk).value, v1) == Err(ShortRead) {
      SignedCertificateIsRead(sha, key, apk, v1);
    }
    SignedFileVerifies(sha, rsa, key, apk);
    SigningMovesNoData(sha, key, zip, codec, entries);
    WrittenReadsBack(zip, codec, entries);
  }

  // ------------------------------------------------------- an archive that is not signed

  const CROWD: nat := 0x4B50

  /** A name of three base-64 digits; the first file's goes on with letters. */
  function CrowdName(i: nat): (name: bytes)
    requires i < CROWD
    ensures |name| == if i == 0 then 39864 else 3
    ensures forall k :: 0 <= k < |name| ==> 0x30 <= name[k] < 0x80
  {
    [48 + i / 4096, 48 + i / 64 % 64, 48 + i % 64] + if i == 0 then seq(39861, _ => 0x61) else []
  }

  function Crowd(): (entries: seq<Entry>)
    ensures |entries| == CROWD
  {
    seq(CROWD, i requires 0 <= i < CROWD => Entry(CrowdName(i), false, []))
  }

  function NameBytes(entries: seq<Entry>): nat {
    if entries == [] then 0 else |entries[0].name| + NameBytes(entries[1..])
  }

  /** Empty, unaligned entries take a fixed length and their names. */
  lemma {:induction false} PlainLengths(codec: Codec, entries: seq<Entry>, offset: nat)
    requires |codec.deflate([])| <= 16
    requires forall e :: e in entries ==> !e.stored && e.data == []
    ensures |Centrals(codec, entries, offset)| == 46 * |entries| + NameBytes(entries)
    ensures |Locals(codec, entries, offset)| <= 46 * |entries| + NameBytes(entries)
    decreases |entries|
  {
    hide LocalHeader, CentralHeader;
    if entries != [] {
      PlainLengths(codec, entries[1..], offset + |Local(codec, entries[0], offset)|);
    }
  }

  lemma {:induction false} ThreeBytesEach(entries: seq<Entry>)
    requires forall e :: e in entries ==> |e.name| == 3
    ensures NameBytes(entries) == 3 * |entries|
  {
    if entries != [] {
      ThreeBytesEach(entries[1..]);
    }
  }

  lemma CrowdNamesDiffer(i: nat, j: nat)
    requires i < CROWD && j < CROWD && CrowdName(i) == CrowdName(j)
    ensures i == j
  {
    CrowdNameSays(i);
    CrowdNameSays(j);
    hide CrowdName;
  }

  lemma CrowdNameSays(i: nat)
    requires i < CROWD
    ensures var name := CrowdName(i);
            i == 4096 * (name[0] as int - 48) + 64 * (name[1] as int - 48) + (name[2] as int - 48)
  {
    ThreeDigits(i);
  }

  lemma ThreeDigits(i: nat)
    ensures i == 4096 * (i / 4096) + 64 * (i / 64 % 64) + i % 64
  {
    var high := i / 64;
    assert i == 64 * high + i % 64 && high == 64 * (high / 64) + high % 64 && high / 64 == i / 4096;
  }

  lemma CrowdLengths(codec: Codec)
    requires |codec.deflate([])| <= 16
    ensures |Centrals(codec, Crowd(), 0)| == 46 * CROWD + 3 * CROWD + 39861
    ensures |Locals(codec, Crowd(), 0)| <= 46 * CROWD + 3 * CROWD + 39861
  {
    hide Centrals, Locals;
    var entries := Crowd();
    assert entries[0].name == CrowdName(0);
    ThreeBytesEach(entries[1..]);
    PlainLengths(codec, entries, 0);
  }

  lemma CrowdIsClassic(codec: Codec)
    requires |codec.deflate([])| <= 16
    ensures Classic(codec, Crowd()) && |Written(codec, Crowd())| < 0x20_0000
  {
    CrowdLengths(codec);
    WrittenParts(codec, Crowd());
    hide Written, Centrals, Locals;
    forall e | e in Crowd() ensures |e.name| < U16_LIMIT && e.data == [] {
    }
    hide Crowd;
  }

  /** An archive of 0x4B50 empty files with names of their own, below 2 MiB, that `sign_v2` refuses for every key. */
  lemma WrittenButNotSigned(codec: Codec)
    requires |codec.deflate([])| <= 16
    ensures Classic(codec, Crowd()) && |Written(codec, Crowd())| < 0x20_0000
    ensures forall i, j :: 0 <= i < j < CROWD ==> Crowd()[i].name != Crowd()[j].name
    ensures forall i, k :: 0 <= i < CROWD && 0 <= k < |Crowd()[i].name| ==> 0x30 <= Crowd()[i].name[k] < 0x80
    ensures !Unambiguous(codec, Crowd())
    ensures forall sha, key :: Signed(sha, key, Written(codec, Crowd())) == Err(UnexpectedEndRecord)
  {
    hide Written, Signed, Unambiguous, Centrals, Locals, Classic, CrowdName;
    CrowdLengths(codec);
    CrowdIsClassic(codec);
    SmallArchivesAreUnambiguous(codec, Crowd());
    forall i, j | 0 <= i < j < CROWD ensures Crowd()[i].name != Crowd()[j].name {
      if CrowdName(i) == CrowdName(j) {
        CrowdNamesDiffer(i, j);
      }
    }
  }
}
