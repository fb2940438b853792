/** The whole build of one shortcut: the template's entries edited, laid out and signed. */
module ShortcutBuild {
  import opened Wrappers
  import opened Bytes
  import opened ApkSigning
  import opened ApkSigningTheorems
  import opened AlignedZip
  import opened AlignedZipTheorems
  import opened Axml
  import opened ManifestRewrite
  import opened ManifestTheorems

  datatype BuildError =
    | NoManifestEntry
    | BadManifest(reason: RewriteError)
    | NotOneImage(found: nat)
    | NeedsZip64
    | NotSigned(cause: SignError)

  function Ascii(text: string): (b: bytes)
    ensures |b| == |text|
  {
    seq(|text|, i requires 0 <= i < |text| => text[i] as int % 0x80)
  }

  const MANIFEST_ENTRY: bytes := Ascii("AndroidManifest.xml")
  const IMAGE_SUFFIX: bytes := Ascii(".png")

  predicate IsImage(e: Entry) {
    |e.name| >= |IMAGE_SUFFIX| && e.name[|e.name| - |IMAGE_SUFFIX|..] == IMAGE_SUFFIX
  }

  /** Where the first entry of this name is. */
  function FindEntry(entries: seq<Entry>, name: bytes): (at: Option<nat>)
    ensures at.Some? ==> at.value < |entries| && entries[at.value].name == name
    ensures at.None? ==> forall e :: e in entries ==> e.name != name
  {
    if entries == [] then None
    else if entries[0].name == name then Some(0)
    else
      var rest := FindEntry(entries[1..], name);
      if rest.None? then None else Some(rest.value + 1)
  }

  /** Where the images are. */
  function Images(entries: seq<Entry>): (at: seq<nat>)
    ensures forall i: nat :: i in at <==> i < |entries| && IsImage(entries[i])
    ensures forall k :: 0 <= k < |at| ==> at[k] < |entries|
  {
    if entries == [] then []
    else
      var last := |entries| - 1;
      Images(entries[..last]) + if IsImage(entries[last]) then [last] else []
  }

  /** The template's entries with the manifest rewritten and the one image replaced by the icon, stored. */
  function Edited(template: seq<Entry>, replacements: Replacements, version: nat,
                  icon: bytes): Result<seq<Entry>, BuildError> {
    hide Images, Rewritten, FindEntry;
    var at := FindEntry(template, MANIFEST_ENTRY);
    if at.None? then Err(NoManifestEntry)
    else
      var manifest := Rewritten(template[at.value].data, replacements, version);
      if manifest.Err? then Err(BadManifest(manifest.error))
      else
        var entries := template[at.value := template[at.value].(data := manifest.value)];
        var images := Images(entries);
        if |images| != 1 then Err(NotOneImage(|images|))
        else Ok(entries[images[0] := Entry(entries[images[0]].name, true, icon)])
  }

  /** `build` after validation; `template` is what `_read_entries` returns. */
  function Built(sha: Hash, key: SigningKey, codec: Codec, template: seq<Entry>, replacements: Replacements,
                 version: nat, icon: bytes): Result<bytes, BuildError>
  {
    var entries :- Edited(template, replacements, version, icon);
    if !Classic(codec, entries) then Err(NeedsZip64)
    else
      var signed := Signed(sha, key, Written(codec, entries));
      if signed.Err? then Err(NotSigned(signed.error)) else Ok(signed.value)
  }

  method BuildShortcut(sha: Hash, key: SigningKey, codec: Codec, template: seq<Entry>, replacements: Replacements,
                       version: nat, icon: bytes)
    returns (r: Result<bytes, BuildError>)
    ensures r == Built(sha, key, codec, template, replacements, version, icon)
  {
    hide Rewritten, Signed, Written, Classic, Images, FindEntry;
    var at := FindEntry(template, MANIFEST_ENTRY);
    if at.None? {
      return Err(NoManifestEntry);
    }
    var manifest := RewriteManifest(template[at.value].data, replacements, version);
    if manifest.Err? {
      return Err(BadManifest(manifest.error));
    }
    var entries := template[at.value := template[at.value].(data := manifest.value)];
    var images := Images(entries);
    if |images| != 1 {
      return Err(NotOneImage(|images|));
    }
    entries := entries[images[0] := Entry(entries[images[0]].name, true, icon)];
    var zip := WriteAligned(codec, entries);
    if zip.None? {
      return Err(NeedsZip64);
    }
    var signed := SignV2(sha, key, zip.value);
    if signed.Err? {
      return Err(NotSigned(signed.error));
    }
    return Ok(signed.value);
  }

  // ------------------------------------------------------- what a build guarantees

  /** The classic records hold the archive, and the signed file stays below 4 GiB. */
  ghost predicate IsSignable(sha: Hash, key: SigningKey, codec: Codec, entries: seq<Entry>) {
    && Classic(codec, entries)
    && |Written(codec, entries)| >= EOCD_SIZE
    && |Written(codec, entries)| + BlockBytes(sha, key, Written(codec, entries)) + EOCD_SIZE < U32_LIMIT
  }

  /** Neither the written end record nor the signed one spells a second magic. */
  ghost predicate SpellsNoMagic(sha: Hash, key: SigningKey, codec: Codec, entries: seq<Entry>)
    requires |Written(codec, entries)| >= EOCD_SIZE
  {
    var size, offset := |Centrals(codec, entries, 0)|, |Locals(codec, entries, 0)|;
    && !RecordSpellsMagic(|entries|, size, offset)
    && !SpellsMagic(size, offset + BlockBytes(sha, key, Written(codec, entries)), 0)
  }

  /** What everybody who receives the file can rely on. */
  ghost predicate IsSoundApk(sha: Hash, rsa: Rsa, key: SigningKey, zip: Unpacker, codec: Codec, entries: seq<Entry>,
                             apk: bytes) {
    && (forall v1 :: ReadSignature(sha, apk, v1) == Ok(Some(Signature(sha(key.certificateDer), V2))))
    && VerifiesV2(sha, rsa, apk)
    && ReadZip(zip, apk) == Some(Expected(codec, entries, 0))
    && Aligned(Expected(codec, entries, 0))
  }

  /** Laid out and signed, any entries give a sound file exactly when no second magic is spelled. */
  lemma LaidOutAndSigned(sha: Hash, rsa: Rsa, key: SigningKey, zip: Unpacker, codec: Codec, entries: seq<Entry>)
    requires Unpacks(zip, codec) && Genuine(rsa, key) && key.certificateDer != [] &&
             IsSignable(sha, key, codec, entries)
    ensures var signed := Signed(sha, key, Written(codec, entries));
            signed.Ok? && IsSoundApk(sha, rsa, key, zip, codec, entries, signed.value) <==>
            SpellsNoMagic(sha, key, codec, entries)
  {
    hide Unpacks, Written, Signed, ReadZip, ReadSignature, VerifiesV2, Expected, Aligned, Classic, Genuine, SpellsMagic,
         RecordSpellsMagic, Locals, Centrals, BlockBytes;
    SignedExactlyWhen(sha, key, codec, entries);
    if Signed(sha, key, Written(codec, entries)).Ok? {
      ReadExactlyWhen(sha, key, codec, entries);
      SignedVerifiesAndUnpacks(sha, rsa, key, zip, codec, entries);
    }
  }

  lemma SignedExactlyWhen(sha: Hash, key: SigningKey, codec: Codec, entries: seq<Entry>)
    requires IsSignable(sha, key, codec, entries)
    ensures Signed(sha, key, Written(codec, entries)).Ok? <==>
            !RecordSpellsMagic(|entries|, |Centrals(codec, entries, 0)|, |Locals(codec, entries, 0)|)
  {
    hide Written, Locals, Centrals, Cut, Assembled, BlockBytes, Packable, Classic, RecordSpellsMagic, Unambiguous,
         EndsWithItsOnlyEndRecord, EndRecord;
    UnambiguousExactlyWhen(codec, entries);
    WrittenEndsWithItsEndRecord(codec, entries);
    if Unambiguous(codec, entries) {
      WrittenIsCut(codec, entries);
      WrittenParts(codec, entries);
      SigningSucceeds(sha, key, Written(codec, entries));
    }
  }

  /** Whatever the numbers spell. */
  lemma SignedVerifiesAndUnpacks(sha: Hash, rsa: Rsa, key: SigningKey, zip: Unpacker, codec: Codec, entries: seq<Entry>)
    requires Unpacks(zip, codec) && Genuine(rsa, key) && Classic(codec, entries) &&
             Signed(sha, key, Written(codec, entries)).Ok?
    ensures var out := Signed(sha, key, Written(codec, entries)).value;
            && VerifiesV2(sha, rsa, out) && ReadZip(zip, out) == Some(Expected(codec, entries, 0))
            && Aligned(Expected(codec, entries, 0))
  {
    hide Unpacks, Written, Signed, Locals, Centrals, ReadZip, VerifiesV2, Expected, Aligned, Classic, Genuine,
         EndRecord,
         Cut;
    WrittenIsCut(codec, entries);
    WrittenParts(codec, entries);
    DirectorySizeIsWritten(codec, entries);
    WrittenRecordIsFound(codec, entries);
    SignedFileVerifies(sha, rsa, key, Written(codec, entries));
    SigningMovesNoData(sha, key, zip, codec, entries);
    WrittenReadsBack(zip, codec, entries);
  }

  lemma ReadExactlyWhen(sha: Hash, key: SigningKey, codec: Codec, entries: seq<Entry>)
    requires key.certificateDer != [] && IsSignable(sha, key, codec, entries)
    requires Signed(sha, key, Written(codec, entries)).Ok?
    ensures var out := Signed(sha, key, Written(codec, entries)).value;
            var block := BlockBytes(sha, key, Written(codec, entries));
            (forall v1 :: ReadSignature(sha, out, v1) == Ok(Some(Signature(sha(key.certificateDer), V2)))) <==>
            !SpellsMagic(|Centrals(codec, entries, 0)|, |Locals(codec, entries, 0)| + block, 0)
  {
    hide EndRecord, Locals, Centrals, Cut, Assembled, BlockFor, ReadSignature, Written, Packable, Classic, SpellsMagic,
         EndsWithItsOnlyEndRecord;
    var apk := Written(codec, entries);
    var size, directory := |Centrals(codec, entries, 0)|, |Locals(codec, entries, 0)| + BlockBytes(sha, key, apk);
    WrittenIsCut(codec, entries);
    WrittenParts(codec, entries);
    DirectorySizeIsWritten(codec, entries);
    WrittenRecordIsFound(codec, entries);
    SignedCertificateIsRead(sha, key, apk, None);
    forall v1: Option<bytes>
      ensures !SpellsMagic(size, directory, 0) ==>
                ReadSignature(sha, Signed(sha, key, apk).value, v1) ==
                Ok(Some(Signature(sha(key.certificateDer), V2)))
    {
      SignedCertificateIsRead(sha, key, apk, v1);
    }
  }

  /** Digests and signatures stay within these lengths. */
  ghost predicate ShortOutputs(sha: Hash, key: SigningKey, digest: nat, signature: nat) {
    (forall m :: |sha(m)| <= digest) && forall m :: |key.sign(m)| <= signature
  }

  /** Below 16 MiB only the count 0x4B50 can spell one, whatever the key. */
  lemma SmallSpellsNoMagic(sha: Hash, key: SigningKey, codec: Codec, entries: seq<Entry>, digest: nat, signature: nat)
    requires Classic(codec, entries) && ShortOutputs(sha, key, digest, signature)
    requires |Written(codec, entries)| + 126 + digest + signature + |key.certificateDer| + |key.publicKeyDer|
             < 0x100_0000
    requires !(|entries| == 0x4B50 && |Centrals(codec, entries, 0)| % 0x1_0000 == 0x0605)
    ensures IsSignable(sha, key, codec, entries) && SpellsNoMagic(sha, key, codec, entries)
  {
    hide EndRecord, Locals, Centrals, U32At, U16At, U32, Cut, BlockFor, Written, Classic, EndsWithItsOnlyEndRecord,
         Unambiguous;
    var apk := Written(codec, entries);
    WrittenParts(codec, entries);
    BlockLength(sha, key, Cut(apk));
    CentralsLength(codec, entries, 0);
  }

  /**
   From template to file: when the template can be edited, the build gives a sound file exactly
   when no second magic is spelled. The entries laid out are the template's but for the icon and
   the manifest, and the manifest means what the template's meant, edited as asked.
   */
  lemma BuiltApkIsSound(sha: Hash, rsa: Rsa, key: SigningKey, zip: Unpacker, codec: Codec, template: seq<Entry>,
                        replacements: Replacements, version: nat, icon: bytes)
    requires Unpacks(zip, codec) && Genuine(rsa, key) && key.certificateDer != []
    requires Edited(template, replacements, version, icon).Ok?
    requires IsSignable(sha, key, codec, Edited(template, replacements, version, icon).value)
    requires WellFormedManifest(template[FindEntry(template, MANIFEST_ENTRY).value].data, replacements)
    ensures var entries, built := Edited(template, replacements, version, icon).value,
                                  Built(sha, key, codec, template, replacements, version, icon);
            var at := FindEntry(template, MANIFEST_ENTRY).value;
            && (built.Ok? && IsSoundApk(sha, rsa, key, zip, codec, entries, built.value) <==>
                SpellsNoMagic(sha, key, codec, entries))
            && |entries| == |template|
            && (forall i :: 0 <= i < |entries| ==> entries[i].name == template[i].name)
            && (forall i :: 0 <= i < |entries| && i != at ==>
                  entries[i] == if IsImage(template[i]) then Entry(template[i].name, true, icon) else template[i])
            && entries[at].stored == template[at].stored
            && Parsed(template[at].data).Ok? && Parsed(entries[at].data).Ok?
            && SameMeaning(replacements, version, Parsed(template[at].data).value, Parsed(entries[at].data).value)
  {
    hide Rewritten, Signed, Written, Classic, Images, FindEntry, WellFormedManifest, SameMeaning, Parsed, IsSoundApk,
         IsSignable, SpellsNoMagic, Genuine, Rewritten, IsImage;
    var at := FindEntry(template, MANIFEST_ENTRY).value;
    RewritePreservesMeaning(template[at].data, replacements, version);
    var entries := Edited(template, replacements, version, icon).value;
    LaidOutAndSigned(sha, rsa, key, zip, codec, entries);
    SignableIsClassic(sha, key, codec, entries);
    ManifestIsNoImage(template[at]);
    OnlyTheImageChanges(template, at, Rewritten(template[at].data, replacements, version).value);
  }

  lemma SignableIsClassic(sha: Hash, key: SigningKey, codec: Codec, entries: seq<Entry>)
    requires IsSignable(sha, key, codec, entries)
    ensures Classic(codec, entries) && |Written(codec, entries)| >= EOCD_SIZE
  {
    hide Classic, Written;
  }

  lemma ManifestIsNoImage(e: Entry)
    requires e.name == MANIFEST_ENTRY
    ensures !IsImage(e)
  {
    var text, suffix := "AndroidManifest.xml", ".png";
    assert e.name[|e.name| - 1] == Ascii(text)[18] == 'l' as int;
    assert IMAGE_SUFFIX[3] == Ascii(suffix)[3] == 'g' as int;
    assert |e.name| >= 4 ==> e.name[|e.name| - 4..][3] == e.name[|e.name| - 1];
  }

  /** Replacing the manifest's data leaves the images where they were; a single one is the only one. */
  lemma OnlyTheImageChanges(template: seq<Entry>, at: nat, manifest: bytes)
    requires at < |template| && !IsImage(template[at])
    ensures var entries := template[at := template[at].(data := manifest)];
            |Images(entries)| == 1 ==>
              && Images(entries)[0] != at
              && forall i :: 0 <= i < |template| && i != at ==> (IsImage(template[i]) <==> i == Images(entries)[0])
  {
    var entries := template[at := template[at].(data := manifest)];
    var images := Images(entries);
    forall i | 0 <= i < |template| ensures IsImage(entries[i]) <==> IsImage(template[i]) {
    }
    hide Images, IsImage;
    assert |images| == 1 ==> images[0] in images && forall i :: i in images ==> i == images[0];
  }
}
