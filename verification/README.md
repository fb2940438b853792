# ATLAS in Dafny

ATLAS is an Android device-management server. This project models its self-contained
algorithms and proves what they promise. `dafny verify dfyconfig.toml` checks it.

| modules | models |
|---|---|
| `ApkSigning`, `ApkSigningTheorems`, `SignatureOrder` | the APK Signature Scheme v2 writer, ATLAS's reader of signing blocks, and a verifier written from the public scheme |
| `AlignedZip`, `AlignedZipTheorems` | the aligned zip writer (sections 4.3.7, 4.3.12 and 4.3.16 of PKWARE APPNOTE.TXT) and an independent zip reader that checks sizes, checksums and both headers |
| `ShortcutBuild`, `SigningExamples` | the whole build of a shortcut, and the archives at which signing meets its limits |
| `Unicode`, `StringPools`, `StringPoolTheorems`, `ForeignPools` | UTF-8 (section 3 of RFC 3629), UTF-16 (section 2 of RFC 2781), the writer and both readers of string pools, and pools that others wrote |
| `Axml`, `ElementTree`, `ManifestRewrite`, `ManifestTheorems` | the binary XML parser, document trees, and the manifest rewrite |
| `AxmlDocuments`, `AxmlDocumentTheorems` | a printer of binary XML documents and what reading one must give |
| `ManifestLoop`, `ManifestRefusals`, `ManifestExamples` | when the rewrite's search for versionCode ends, what it refuses, and two small manifests |
| `Arsc`, `ArscTheorems`, `TableDocuments`, `TableDocumentTheorems` | the resource table parser over hostile tables, a printer of tables and what reading one must give |
| `IconSearch`, `IconTheorems`, `IconChoice` | the bounded icon search |
| `Json`, `JsonTheorems`, `JsonDocuments`, `JsonGrammar`, `Templates`, `TemplateTheorems`, `TemplateValues`, `TemplateExample` | JSON reading (RFC 8259) over text with holes, and template rendering |
| `Strategies`, `StrategyTheorems`, `Resolver`, `ResolverTheorems`, `PrecedenceTheorems`, `PolicyDiff` | policy stacking with provenance, and the pre-publish preview |
| `WebFilter`, `WebFilterTheorems`, `WebFilterNames` | web-filter rules and the decision |
| `Storage`, `StorageRuns` | the blob store, one caller at a time and in any interleaving |
| `MissionPackage`, `MissionPackageTheorems`, `BuiltPackages`, `FolderPackages`, `PackageRules` | ATAK data packages |
| `Dted`, `DtedTheorems`, `TerrainNames` | terrain archive layouts |
| `EntryPaths` | where the entries of packages and terrain archives lie when they are unpacked |
| `Bytes`, `Lists`, `Sorting`, `Texts`, `Wrappers` | shared helpers |

Code that loops or updates an object is a method or a class here, proved equal to a function;
the theorems are about those functions. Bytes are integers 0 to 255 and fields are packed and
clamped as `struct` and Python slices do. SHA-256, RSA, CRC, deflate, the zip and XML libraries
of the package code, IDNA, address recognition and full Unicode case mapping are function
parameters; what a theorem needs of them is a `requires`.

## Findings

Where a promise does not hold for every input, the project proves exactly when it does.

- `sign_v2` adds the block's length to the directory offset. ATLAS's own signature reader takes the
  last end-record magic there is, without looking at the comment length, so for every file whose
  directory offset lies in it the read fails if and only if the directory size, the moved offset
  and the comment length spell a second magic. `sign_v2` also accepts an offset beyond the file;
  the block it adds there is never found (`SignedCertificateIsRead`). Below 0x054B5000 bytes, some 84 MiB, they cannot
  (`SmallFilesAreUnambiguous`); every key and hash of fixed output lengths has an archive of one
  100 MB file for which they do (`SignedButNotRead`). A reader that checks the comment length is not
  affected: it verifies and unpacks that file (`SignedFileVerifies`, `SigningMovesNoData`).
- `sign_v2` refuses what `_write_aligned` wrote if and only if the entry count, directory size and
  offset spell a second magic (`UnambiguousExactlyWhen`). Below 16 MiB that is 0x4B50 entries with
  a directory size ending in 0x0605 (`SmallArchivesAreUnambiguous`), and there is such an archive
  under 2 MiB (`WrittenButNotSigned`).
- `_set_version_code` advances by the chunk size, so it loops for ever if and only if it passes
  chunks of non-zero size up to one of size zero (`HangsExactlyWhen`, `RewriteHangsExactlyWhen`).
  `ManifestThatHangs` is such a manifest; a well-formed one never is (`WellFormedNeverHangs`).
- `StringPool` refuses pools over its character budget that the builder can write
  (`TolerantRoundTrip`).
- `_within` on its own also accepts the element right after a layer's last descendant; the
  caller's depth comparison makes the pair exact (`WithinAloneIsTooWide`, `InLayerIsDescendant`).
- `_MAX_LOOKUPS` is 4,096, but the budget's last unit is never spent: at most 4,095 lookups
  happen (`FoundIconIsGenuine`).
- A template judged JSON can render to text that is not JSON when a variable is the last digit of
  a `\u` escape: the stand-in begins with the hexadecimal digit A
  (`JsonBreaksExactlyWhenAnEscapeIsSplit`, `SplitTextBreaks`). The module's documentation says JSON
  stays JSON; the model follows the code.
- `normalize` looks for an IP address before IDNA encoding, so a name written in full-width digits
  is stored as an address that `normalize` itself refuses (`NormalizesOnceUnlessAnAddress`,
  `AddressSlipsIn`).
- `_safe_entry` strips white space before it drops slashes and dots, so a safe name can keep a
  leading or trailing space which `inspect` strips; the built package then misses a file
  (`SpacedFileIsMissing`), or is refused when nothing else is left (`BlankFileIsRefused`).
- `build` lets the caller's parameters replace the package's name and uid, also under keys with white
  space around them, and `inspect` refuses the result when one is empty (`BuiltPackageIsReadBack`).
- INTERSECT keeps repeats of the first list, unlike UNION (`IntersectMeans`).

## Model

| member | source | states |
|---|---|---|
| ApkSigning.SignV2 | app/artifacts/shortcut_builder.py:413-449 | for every byte string: refuses a zip whose last 22 bytes are not its end record and lengths that do not fit, else writes entries, signing block, directory and the end record with the moved offset |
| ApkSigning.PackInto | app/artifacts/shortcut_builder.py:447-448 | packs four bytes in place at a position and leaves every other byte of the buffer alone |
| ApkSigning.MakeBlock | app/artifacts/shortcut_builder.py:426-445 | the signing block nests signer, signed data, digests and certificate as length-prefixed items over the digest of the three sections, or fails on a length that does not fit 32 bits |
| ApkSigning.ComputeTopDigest | app/artifacts/shortcut_builder.py:456-464 | both loops give the digest of the prefixed list of chunk digests, chunks taken section by section |
| ApkSigning.LengthPrefixedItems | app/artifacts/apk.py:279-290 | the cursor loop yields the items up to the first empty or overlong one |
| ApkSigning.ExtractSigningBlock | app/artifacts/apk.py:293-323 | for every byte string: the id-value pairs between the block sizes before the directory, or the error of a read outside the file |
| ApkSigning.ReadPairs | app/artifacts/apk.py:311-322 | the pair loop keeps the last value of a repeated id and stops at a pair that does not fit |
| ApkSigning.CertificateFromSchemeBlock | app/artifacts/apk.py:326-352 | the first certificate of the first signer that has one, through all nested layers |
| ApkSigning.ExtractSignature | app/artifacts/apk.py:373-389 | v3 block before v2 block before the v1 certificate, as a digest and a scheme name |
| SignatureOrder.NewestSchemeIsRead | app/artifacts/apk.py:373-389 | of a file that carries several schemes the reader reports the certificate of v3 if that has one, else of v2, else the v1 certificate; of several pairs with one id the last counts |
| SignatureOrder.RecordIsSought | app/artifacts/apk.py:270-276 | the end record the reader takes is the last place that holds the four magic bytes, not further from the end than a record with the longest comment; there is none exactly when no such place holds them |
| SignatureOrder.PairsRead | app/artifacts/apk.py:311-322 | of a printed list of pairs every id has its last value, and no other id has one |
| SignatureOrder.SchemeReads | app/artifacts/apk.py:326-352 | through all nested layers of a printed scheme block the certificate is the first one of the first signer that has one |
| ApkSigningTheorems.ItemsStopAtEmpty | app/artifacts/apk.py:279-290 | an empty attributes item ends the reader's list: nothing after it is ever seen |
| ApkSigningTheorems.SignedCertificateIsRead | app/artifacts/shortcut_builder.py:413-449 | for every file `sign_v2` accepts: the read fails if the directory size, moved offset and comment length spell a second end-record magic; else it gives exactly the certificate's digest and scheme v2 if the directory offset lay in the file; else, with the offset beyond the file, it finds no v2 block, or fails where the new end record spells the block's magic |
| ApkSigningTheorems.SmallFilesAreUnambiguous | app/artifacts/apk.py:270-276 | for a zip whose directory ends where its end record begins, they never do below 0x054B5000 bytes |
| ApkSigningTheorems.SecondMagicIsSpelled | app/artifacts/shortcut_builder.py:447-449 | a magic found after the first in the moved end record is exactly what those three numbers spell, window by window |
| ApkSigningTheorems.SignedFileVerifies | app/artifacts/shortcut_builder.py:413-449 | every file `sign_v2` accepts verifies under the public APK Signature Scheme v2 from the record it wrote if and only if the directory it cut lies in the file, and that record is the one a verifier finds if and only if it announces no comment |
| ApkSigningTheorems.LastRecordIsFound | app/artifacts/shortcut_builder.py:416-420 | the search of APPNOTE.TXT finds the record that ends the file exactly when it announces no comment, whatever else the record spells |
| ApkSigningTheorems.SigningSucceeds | app/artifacts/shortcut_builder.py:413-449 | a file that ends in its only end record is signed whenever file and block stay below 4 GiB together |
| SigningExamples.SignedButNotRead | app/artifacts/shortcut_builder.py:447-449 | for every key and hash of fixed output lengths an archive of one file is signed, verifies and unpacks, and ATLAS's reader fails on it |
| ApkSigningTheorems.SectionsAreRecovered | app/artifacts/shortcut_builder.py:413-449 | the verifier, putting the block's start in place of the directory offset, recovers exactly the three sections that were digested |
| ApkSigningTheorems.PiecesAreChunks | app/artifacts/shortcut_builder.py:456-464 | the builder's loop cuts the same chunks as the scheme's definition |
| ApkSigningTheorems.ChunksCoverTheSection | app/artifacts/shortcut_builder.py:456-464 | chunks are at most 1 MiB, only the last is shorter, and joined they are the section |
| AlignedZip.WriteAligned | app/artifacts/shortcut_builder.py:204-223 | for any entries: local headers with alignment fields, data, central directory and end record at the offsets the headers name; nothing when ZIP64 records would be needed |
| AlignedZip.LayOut | app/artifacts/shortcut_builder.py:213-222 | the writing loop keeps the joined local and central records of what it has written |
| AlignedZipTheorems.WrittenReadsBack | app/artifacts/shortcut_builder.py:204-223 | a reader that inflates and accepts an entry only when size and CRC are right and both its headers agree gets back every entry's own name and data, with its method, time stamp, UTF-8 flag and permissions, and every stored entry's data starts on a multiple of four |
| AlignedZipTheorems.ExpectedIsAligned | app/artifacts/shortcut_builder.py:204-223 | what that reader must find is the entries one by one: name, data and whether it is stored |
| AlignedZipTheorems.WrittenEndsWithItsEndRecord | app/artifacts/shortcut_builder.py:204-223 | the written file ends in its only end record exactly when that record holds no second magic |
| AlignedZipTheorems.UnambiguousExactlyWhen | app/artifacts/shortcut_builder.py:204-223 | for every archive the classic records hold, the record spells a second magic exactly for the counts, sizes and offsets of `RecordSpellsMagic` |
| AlignedZipTheorems.SmallArchivesAreUnambiguous | app/artifacts/shortcut_builder.py:204-223 | below 16 MiB the record spells a second magic, and `sign_v2` refuses the file, if and only if there are 0x4B50 entries and the directory size ends in 0x0605 |
| SigningExamples.WrittenButNotSigned | app/artifacts/shortcut_builder.py:204-223 | 0x4B50 empty files with different names of letters, digits and punctuation make such an archive, below 2 MiB, which `sign_v2` refuses for every key |
| AlignedZipTheorems.SigningMovesNoData | app/artifacts/shortcut_builder.py:413-449 | reading any signed archive gives the same entries with the same data at the same offsets as before signing |
| ShortcutBuild.BuiltApkIsSound | app/artifacts/shortcut_builder.py:163-186 | the whole build, for a well-formed template manifest: it succeeds with a file that verifies, reads its certificate back and unpacks aligned if and only if neither end record spells a second magic; the entries are the template's but for icon and manifest, and the manifest means what the template's meant, edited as asked |
| ShortcutBuild.BuildShortcut | app/artifacts/shortcut_builder.py:163-186 | rewrites the manifest entry, replaces the single image, lays out and signs, or fails with the first step that does |
| ShortcutBuild.LaidOutAndSigned | app/artifacts/shortcut_builder.py:186-223 | any entries, laid out and signed, give such a file if and only if neither the written nor the signed end record spells a second magic |
| ShortcutBuild.SignedVerifiesAndUnpacks | app/artifacts/shortcut_builder.py:413-449 | every archive that is laid out and signed verifies and unpacks aligned, whatever its end record spells |
| ShortcutBuild.SmallSpellsNoMagic | app/artifacts/shortcut_builder.py:204-223 | below 16 MiB, given bounds on the lengths of digest, signature, certificate and key, only 0x4B50 entries with a directory size ending in 0x0605 stand in the way |
| StringPools.EncodePool | app/artifacts/shortcut_builder.py:297-327 | the loop writes the whole pool chunk, or fails on a string whose length does not fit 15 bits |
| StringPools.ReadPool | app/artifacts/shortcut_builder.py:259-294 | the builder's reader gives the strings, encoding and size of a pool, or the first error |
| StringPools.StringPool.Build | app/artifacts/axml.py:117-159 | on success the object holds exactly the strings, encoding and chunk size of the pool; the shrinking budget refuses what is too large |
| StringPoolTheorems.StrictRoundTrip | app/artifacts/shortcut_builder.py:259-327 | for all strings within the length limits, in both encodings and wherever the pool lies, the builder reads back exactly what it wrote, and the pool's size is a multiple of four |
| StringPoolTheorems.TolerantRoundTrip | app/artifacts/axml.py:117-187 | the parser reads back the same list exactly when it stays within its character budget, and refuses it otherwise |
| StringPoolTheorems.ReadersAgree | app/artifacts/axml.py:117-187 | any pool with a 28-byte header that the builder can read, the parser reads the same way |
| ForeignPools.ForeignPoolIsRead | app/artifacts/axml.py:117-187 | a pool of another writer is read as its strings wherever they lie, with any header length, flags and styles, and UTF-16 lengths of one or two words |
| ForeignPools.TooLongExactlyWhen | app/artifacts/shortcut_builder.py:297-310 | a pool is refused for a string exactly when one has over 32,767 UTF-16 code units, or bytes of UTF-8 |
| Unicode.DecodesWhatWasEncoded | app/artifacts/shortcut_builder.py:274-294 | UTF-8 and UTF-16 decoding, strict and replacing, gives back every encoded string |
| Unicode.ReplacingAgrees | app/artifacts/axml.py:161-179 | where strict decoding succeeds, replacing decoding gives the same string |
| Axml.ParseElements | app/artifacts/axml.py:196-247 | for every byte string the parser gives the elements with depths, or the error of the first bad chunk |
| Axml.WalkChunks | app/artifacts/axml.py:221-247 | the chunk loop with its running depth and resource ids turns the events read into elements |
| Axml.ParseStartElement | app/artifacts/axml.py:250-281 | the attribute loop fills the dictionary: names by pool or resource id, typed values, later attributes not replacing earlier keys |
| AxmlDocumentTheorems.PrintedDocumentIsRead | app/artifacts/axml.py:196-300 | for every forest printed as binary XML, with strings, decimal, hexadecimal and boolean values, references and others, named from the pool or by resource id, in any namespace: reading it gives the preorder with true depths and exactly the keys and values meant, the first of a key counting; a boolean is 1 exactly when true |
| AxmlDocumentTheorems.AttributeReads | app/artifacts/axml.py:259-300 | a printed attribute reads as its name, its namespace and the meaning of its value |
| AxmlDocuments.SymbolicIsText | app/artifacts/axml.py:293-297 | a reference reads as `@0x` and its eight hexadecimal digits |
| ManifestRewrite.SetVersionCode | app/artifacts/shortcut_builder.py:330-352 | finds the first start element named manifest and packs the version into its versionCode in place, changing no other byte; a chunk of size zero makes the source loop for ever and is the error `Hangs` here |
| ManifestRewrite.ScanAttributes | app/artifacts/shortcut_builder.py:341-351 | the attribute scan finds the first attribute named or numbered versionCode and its position |
| ManifestRewrite.RewriteManifest | app/artifacts/shortcut_builder.py:231-256 | refuses a placeholder not held exactly once and a package named elsewhere; otherwise header, re-encoded pool and patched chunks |
| ManifestRefusals.RefusedForItsStrings | app/artifacts/shortcut_builder.py:231-256 | of a readable manifest: refused if some placeholder does not stand exactly once in the pool, else if the package stands inside another string, and for these reasons only then |
| ManifestLoop.HangsExactlyWhen | app/artifacts/shortcut_builder.py:330-352 | the search answers `Hangs` if and only if the loop takes a turn after every turn, and that is if and only if it passes chunks of non-zero size up to one of size zero |
| ManifestLoop.RewriteHangsExactlyWhen | app/artifacts/shortcut_builder.py:231-256 | `rewrite_manifest` loops for ever exactly when the pool and its strings pass every check and the chunks after it get the search stuck |
| ManifestLoop.WellFormedNeverHangs | app/artifacts/shortcut_builder.py:231-256 | a well-formed manifest is rewritten or refused in finitely many turns |
| ManifestExamples.ManifestThatHangs | app/artifacts/shortcut_builder.py:330-352 | one chunk of size zero after an empty pool keeps the loop going for ever |
| ManifestExamples.ManifestThatIsRewritten | app/artifacts/shortcut_builder.py:231-256 | a manifest with a package and a versionCode is well formed and is rewritten for every 32-bit version |
| ManifestTheorems.RewritePreservesMeaning | app/artifacts/shortcut_builder.py:231-256 | for a well-formed manifest, parsing the rewritten one gives the original's elements one by one with the same depths, only replaced string values and the root's versionCode differing, and the outer size is the file's length |
| ManifestTheorems.EventsRewritten | app/artifacts/shortcut_builder.py:330-352 | chunk by chunk: patching the version and replacing pool strings changes exactly those values in the events read |
| ManifestTheorems.EventsOfSuffix | app/artifacts/axml.py:221-247 | the events read do not depend on where in a file the chunks lie |
| ElementTree.ElementsArePreorder | app/artifacts/axml.py:221-247 | for the event stream of any forest, the parsed elements are its preorder with true depths |
| ElementTree.PreorderIsInjective | app/artifacts/axml.py:221-247 | names, attributes and depths in order determine the tree |
| ElementTree.DescendantsAreDeeper | app/artifacts/app_icon.py:165-177 | an element lies below another exactly when everything from there to it is deeper |
| Arsc.Parse | app/artifacts/arsc.py:218-252 | for every byte string `parse` ends with a table or an `ArscError`, and the table is the one the chunks describe |
| TableDocumentTheorems.PrintedTableIsRead | app/artifacts/arsc.py:218-477 | for every table printed from packages, types, configurations, plain values and arrays, with dense, 16-bit and sparse indexes and chunks to skip: each id has exactly its values, with density, language, kind, text and datum, in order, and its first array with all its members; a table without values is refused |
| TableDocumentTheorems.SlotsRead | app/artifacts/arsc.py:332-380 | the slots of a printed chunk are read one by one, each entry under the id of its package, type and index |
| TableDocumentTheorems.ConfigReads | app/artifacts/arsc.py:428-458 | a configuration says its density and language as far as its length goes |
| Arsc.TableBuilder.ReadPackage | app/artifacts/arsc.py:255-286 | the package loop fills the tables from its type chunks, in order |
| Arsc.TableBuilder.ReadType | app/artifacts/arsc.py:289-380 | the slot loop with its seen offsets and bag budget fills the tables as the chunk describes |
| Arsc.TableBuilder.ReadOne | app/artifacts/arsc.py:345-380 | one entry is a bag within the budget, or one plain value, or nothing when it does not fit |
| Arsc.ReadBag | app/artifacts/arsc.py:383-425 | bag members in declaration order, as many as are declared, fit, and both limits allow |
| ArscTheorems.ParsedTableIsBounded | app/artifacts/arsc.py:218-252 | whatever the bytes, plain values are at most half the file length in all, and bag members at most 2,500 a byte |
| ArscTheorems.TypeChunkCost | app/artifacts/arsc.py:289-380 | one type chunk adds at most half its size in plain values and at most 20,000 bag members |
| ArscTheorems.SlotsCost | app/artifacts/arsc.py:332-364 | each slot reads at most one new offset, and no offset is read twice |
| ArscTheorems.SlotsAppend | app/artifacts/arsc.py:335-380 | a chunk appends to each id exactly the values of the first slot at each offset, in slot order |
| ArscTheorems.ValuesAreBestFirst | app/artifacts/arsc.py:195-197 | values are exactly what the table has: the default locale first, then real densities before the rest, then the higher density, and equally good ones in the table's order |
| ArscTheorems.StringIsFoundIfItCanBe | app/artifacts/arsc.py:199-215 | on any cyclic table `string` ends, and finds a string exactly when a chain of at most five ids reaches one |
| Arsc.ResolveArray | app/artifacts/arsc.py:165-187 | the loop gives one result per member of the array, in order |
| ArscTheorems.ArrayKeepsPositions | app/artifacts/arsc.py:165-187 | the result has one place per member, and a place is None exactly where neither the member nor a chain of at most five ids from it reaches a string |
| IconSearch.Resolve | app/artifacts/app_icon.py:198-276 | the recursive search with its shared, decreasing budget computes the icon and counts every lookup |
| IconSearch.ResolveValues | app/artifacts/app_icon.py:228-276 | the loop over configurations keeps the largest raster so far and returns at the first one behind a reference |
| IconSearch.ResolveReferences | app/artifacts/app_icon.py:269-274 | the loop over a drawable's references returns the first icon found |
| IconTheorems.SearchIsPaid | app/artifacts/app_icon.py:180-195 | the budget only shrinks, and every table lookup the search makes is paid for by one unit of it, whatever the table |
| IconTheorems.FoundIconIsGenuine | app/artifacts/app_icon.py:198-276 | for any cyclic or wide table: fewer than 4,096 lookups, and an icon returned is a recognised raster of at most 1 MiB at the end of a repeat-free chain of at most seven ids, adaptive exactly when the chain passes through an adaptive-icon document |
| IconTheorems.IconIsFoundIfItCanBe | app/artifacts/app_icon.py:198-276 | with budget left, an icon is found exactly when such a chain exists |
| IconTheorems.SmallTablesAreSearchedWhole | app/artifacts/app_icon.py:180-276 | in a table with fewer than 4,096 walks of at most seven ids from the icon's, and in every table where no id leads to more than three, an icon is found exactly when such a chain exists |
| IconTheorems.SearchCosts | app/artifacts/app_icon.py:180-276 | a search takes no more from the budget than there are walks within the depth limit |
| IconChoice.LookupIsFirstElseBest | app/artifacts/app_icon.py:228-276 | whatever the budget: of an id looked up, the icon behind its first value that leads to one, and when none does the first of its longest rasters |
| IconChoice.BestIconIsFound | app/artifacts/app_icon.py:198-276 | with budget enough for the table, the same all the way down, said without the search: what an image, a document and a reference are, and that no longer raster was passed over |
| IconChoice.DocumentIdsMean | app/artifacts/app_icon.py:135-162 | an adaptive icon's references are those of its foreground and everything inside it, then of its background, and nothing else's; any other document's are all, in order |
| IconChoice.NamedMeans | app/artifacts/app_icon.py:123-132 | an attribute names an id exactly when its text is `@0x` and hexadecimal digits, and then their value |
| IconChoice.RasterMeans | app/artifacts/app_icon.py:108-116 | a raster is a named file that begins as PNG, WebP or JPEG do and has at most 1 MiB |
| IconTheorems.SearchIsComplete | app/artifacts/app_icon.py:198-276 | while the budget lasts no chain within the depth limit is missed |
| IconTheorems.WithinMeans | app/artifacts/app_icon.py:165-177 | `_within` holds exactly when everything strictly between layer and child is deeper than the layer |
| IconTheorems.InLayerIsDescendant | app/artifacts/app_icon.py:135-177 | with the caller's depth guard it selects exactly the strict descendants of the layer |
| IconTheorems.WithinAloneIsTooWide | app/artifacts/app_icon.py:165-177 | without the guard it also takes the element right after the layer's last descendant |
| IconTheorems.ReferenceRoundTrip | app/artifacts/app_icon.py:123-132 | the id the manifest parser writes as text is the id the search reads back |
| Templates.ScanReferences | app/policies/config_variables.py:101-114 | the scanning loop gives every variable from left to right, or the first thing wrong with the template |
| TemplateValues.ReferenceMeans | app/policies/config_variables.py:89-89 | a reference is `${`, a name without braces, dollars and line breaks, and `}` |
| TemplateValues.VariablesAre | app/policies/config_variables.py:117-128 | the variables are the four device fields and `attribute.` before a name that is not empty and has no white space at its ends |
| TemplateValues.UsableMeans | app/policies/config_variables.py:170-176 | a value is used, unchanged, exactly if it has 1 to 256 characters and no control character |
| TemplateValues.PlainTextStays | app/policies/config_variables.py:181-182 | a text in which `${` does not occur is rendered as it stands |
| TemplateValues.UnclosedIsShown | app/policies/config_variables.py:105-112 | the error of a variable that is never closed shows the text from its opening on, up to 24 characters |
| TemplateValues.ValuesAddNoControl | app/policies/config_variables.py:170-195 | whatever the values, a rendered text holds no control character that the template does not hold |
| TemplateTheorems.ScannerAndSubstitutionAgree | app/policies/config_variables.py:89-128 | the scanner accepts a template exactly when the substitution leaves no `${` as plain text and meets only valid names, and both visit the same names in the same order |
| TemplateTheorems.PiecesAreTheTemplate | app/policies/config_variables.py:192-192 | the substitution's pieces put back together are the template: nothing lost, added or moved |
| TemplateTheorems.MissingIsExact | app/policies/config_variables.py:187-190 | the variables reported missing are exactly those without a usable value, each once, and nothing is rendered then |
| TemplateTheorems.RenderedTextIsPiecesAndValues | app/policies/config_variables.py:179-195 | with every value usable, the result is the literal pieces unchanged with each encoded value in its variable's place |
| TemplateTheorems.NoLookupFails | app/policies/config_variables.py:187-192 | for every text and values no lookup in the substitution fails |
| JsonTheorems.EncodedReads | app/policies/config_variables.py:202-203 | inside a JSON string, an encoded value is read back as exactly its characters |
| JsonGrammar.ExactlyDocumentsAreRead | app/policies/config_variables.py:213-219 | a text is read as JSON if and only if it is a document of the grammar, with any blanks between its tokens and every spelling of characters and numbers, and then as what that document means |
| JsonTheorems.RunFills | app/policies/config_variables.py:191-192 | reading a text with its holes filled is filling what reading the text with holes gives |
| JsonTheorems.StandInPlaces | app/policies/config_variables.py:206-219 | the stand-in can be read only inside a string or as the last digit of a `\u` escape |
| JsonTheorems.JsonStaysJson | app/policies/config_variables.py:213-219 | a text judged JSON whose variables complete no `\u` escape is a document with holes, and with any values escaped it is that document with the raw values in its strings |
| JsonTheorems.AlwaysJsonExactlyWhenNoEscapeIsSplit | app/policies/config_variables.py:213-219 | for a text judged JSON, every choice of values gives JSON if and only if no variable completes a `\u` escape |
| TemplateExample.SplitTextBreaks | app/policies/config_variables.py:213-219 | the exception is real: a well-formed template text is judged JSON, and the device name Z makes `render` put out text that is not JSON |
| TemplateTheorems.RenderedJsonMeansTheDocument | app/policies/config_variables.py:179-195 | what `render` puts out for such a template parses to the template's document with the raw values, whatever quotes or backslashes they hold |
| TemplateTheorems.JsonBreaksExactlyWhenAnEscapeIsSplit | app/policies/config_variables.py:179-219 | some values make `render` put out broken JSON if and only if a variable completes a `\u` escape and some rendering is short enough |
| Strategies.ApplyStrategy | app/policies/strategies.py:302-310 | dispatches to the strategy's merge; an empty list is refused |
| Strategies.MergeUnion | app/policies/strategies.py:206-221 | the nested loops with their seen-set keep each item once, in the order first seen |
| Strategies.MergeIntersect | app/policies/strategies.py:224-242 | the set loop and the filter keep the first list's items that every list has, and the contributions it shrank |
| Strategies.MergeItemsByKey | app/policies/strategies.py:245-274 | the dictionary loop keeps the first item of each entity and records every later item that differs |
| StrategyTheorems.MergingRegroups | app/policies/strategies.py:140-288 | for all seven strategies: cut the contributions in two, merge both parts and then the results, and the value and the failures are those of merging at once |
| StrategyTheorems.UnionMeans | app/policies/strategies.py:206-221 | a union holds exactly the items of all lists, each once, in the order first seen |
| StrategyTheorems.IntersectMeans | app/policies/strategies.py:224-242 | an intersection is the first list at the rising positions whose items every list has: same order, same repeats |
| StrategyTheorems.ByKeyMeans | app/policies/strategies.py:245-274 | a merge by key keeps the first item of each entity, and fails on anything but lists of keyed items |
| StrategyTheorems.ScalarsMean | app/policies/strategies.py:140-178 | MAX and MIN are a contributed number that none exceeds or undercuts, MOST_RESTRICTIVE allows exactly when every flag does, and other kinds of values are refused |
| StrategyTheorems.WinnerIsFirst | app/policies/strategies.py:140-188 | a winner is named by exactly four strategies, and is the first contributor whose own value is the result |
| StrategyTheorems.OverriddenAreTheDiffering | app/policies/strategies.py:134-137 | overridden are the contributions, in order and each once, whose value (for an intersection, whose set of items) is not the result |
| StrategyTheorems.DisplacedAre | app/policies/strategies.py:255-266 | a merge by key overrides the items, in order and each once, that differ from an earlier item of their entity |
| StrategyTheorems.ConflictIsExact | app/policies/strategies.py:245-288 | a conflict is flagged exactly when HIGHEST_RANK or MERGE_BY_KEY dropped a differing value; contributors are all sources in order |
| Resolver.Resolve | app/policies/resolver.py:168-211 | the grouping and merging loops give the effective policy of the ordered assignments, or the first error |
| Resolver.Collect | app/policies/resolver.py:133-150 | the loop collects the contributions of the assignments that set a field to something, in order |
| Resolver.GroupByType | app/policies/resolver.py:182-184 | the grouping loop lists each type once, in the order met, with its assignments in order |
| Resolver.MergeFields | app/policies/resolver.py:191-199 | the field loop merges each field somebody set and records its conflict |
| ResolverTheorems.OrderNeverMatters | app/policies/resolver.py:121-211 | with ids unique within each type, values, provenance and conflicts (or the error) are the same for every permutation of the input |
| ResolverTheorems.TypesDoNotMix | app/policies/resolver.py:182-203 | taking away all other types' assignments changes nothing about a type's values, provenance and conflicts |
| ResolverTheorems.ProvenanceIsExact | app/policies/resolver.py:133-199 | a field is present exactly when some assignment of its type sets it; its contributors are those assignments in precedence order, its value its own merge's, its conflict recorded exactly when that merge has one |
| ResolverTheorems.ResolvesExactlyWhen | app/policies/resolver.py:168-211 | a device has an effective policy if and only if every assigned type is known and every field that some assignment sets can be merged |
| PrecedenceTheorems.ContributorsFollowPrecedence | app/policies/resolver.py:121-150 | a field's contributors are exactly the assignments that set it, by falling rank, then from device to group to the rest, then by rising id |
| PrecedenceTheorems.ConsideredFollowPrecedence | app/policies/resolver.py:121-211 | all assignments are listed as considered, in that order |
| PrecedenceTheorems.TopSetterDecides | app/policies/resolver.py:121-211 | a HIGHEST_RANK value is that of a setter no other setter comes before; UNION and MERGE_BY_KEY lists begin with that setter's items, and an INTERSECT list has its order |
| PrecedenceTheorems.PrecedenceMeans | app/policies/resolver.py:121-130 | the sort key compares ranks downwards, then scopes, then ids by code points |
| ResolverTheorems.OneTypeInOrder | app/policies/resolver.py:121-130 | ordering all assignments and selecting a type is selecting the type and ordering it |
| PolicyDiff.DiffValues | app/policies/resolver.py:214-248 | the preview lists every field that moves, once, in order, with both values, and nothing else |
| PolicyDiff.PreviewIsFaithful | app/policies/resolver.py:214-248 | carrying the listed changes out on the old policy gives the new one field by field |
| PolicyDiff.PreviewIsExact | app/policies/resolver.py:214-248 | the preview is empty exactly when nothing moves, and lists no field twice |
| WebFilterTheorems.EvaluateIsTheWalk | app/policies/web_filter_rules.py:140-177 | for lists of rules `evaluate` equals trying the host's label suffixes from longest to shortest, then `*`, block before allow |
| WebFilterTheorems.MatchesAreTries | app/policies/web_filter_rules.py:140-147 | a rule matches a host exactly when it is one of the rules the walk tries |
| WebFilterTheorems.TriesFall | app/policies/web_filter_rules.py:154-157 | the walk goes strictly from most to least specific |
| WebFilterTheorems.SameSpecificitySameRule | app/policies/web_filter_rules.py:140-157 | two rules that match one host and are equally specific are the same rule |
| WebFilterTheorems.OnlyTheRulesMatter | app/policies/web_filter_rules.py:169-177 | order and repetition in the lists never matter |
| WebFilterTheorems.RulesNeverBackfire | app/policies/web_filter_rules.py:169-177 | more allow rules never block an allowed host and more block rules never free a blocked one |
| WebFilter.NormalizeAll | app/policies/web_filter_rules.py:117-122 | the loop gives every rule's stored form once, in order, or the first rule's error |
| WebFilterTheorems.NormalizedIsStored | app/policies/web_filter_rules.py:61-114 | whatever `normalize` accepts is `*`, a name, `.name` or `*.name` of valid labels, the last with a dot in it |
| WebFilterNames.TypedRuleIsStored | app/policies/web_filter_rules.py:61-114 | a rule typed in ASCII, with any blanks around it and dots after it, is refused exactly when its name is an address, is longer than 253 characters, has a label that is not 1 to 63 letters, digits and inner hyphens, or is one label after `*.`; any other is stored in lower case in its own form |
| WebFilterTheorems.NormalizesOnceUnlessAnAddress | app/policies/web_filter_rules.py:61-114 | normalising again changes nothing if and only if the stored name is not an IP address |
| WebFilterTheorems.AsciiNormalizesOnce | app/policies/web_filter_rules.py:61-114 | for patterns typed in ASCII normalising is idempotent |
| WebFilterTheorems.AddressSlipsIn | app/policies/web_filter_rules.py:66-85 | the exception is real wherever IDNA turns full-width digits into ASCII ones: four of them are stored as an address, which is refused when normalised again |
| Storage.LocalArtifactStorage.Put | app/artifacts/storage.py:121-148 | streams to a temporary file while hashing, then stores the bytes at their digest's address unless they are there; nothing else changes and no temporary file stays |
| Storage.LocalArtifactStorage.Open | app/artifacts/storage.py:150-154 | the blob at the digest's address, which hashes to it, or not found, or not a digest |
| Storage.LocalArtifactStorage.Exists | app/artifacts/storage.py:156-160 | true exactly when some blob in the store hashes to the digest, in whatever case its letters are |
| Storage.LocalArtifactStorage.Size | app/artifacts/storage.py:162-166 | the length of every blob that hashes to the digest, and an error exactly when there is none, telling a digest from other text |
| Storage.LocalArtifactStorage.Delete | app/artifacts/storage.py:168-173 | removes exactly that blob and says whether it was there |
| Storage.LocalArtifactStorage.ReadAll | app/artifacts/storage.py:66-86 | chunks of at most 1 MiB, all but the last full, that join to the blob |
| Storage.LocalArtifactStorage.ReadRange | app/artifacts/storage.py:88-98 | chunks of at most 1 MiB that join to exactly the requested slice clipped to the blob |
| Storage.PathsAreDigests | app/artifacts/storage.py:113-119 | two digests share a file exactly when they spell the same digest, and no path leaves the root |
| Storage.AddressesAre | app/artifacts/storage.py:113-119 | a digest is accepted exactly when it is 64 hexadecimal digits of either case, and its file is their small form under the first two and the next two |
| Storage.RangeMeans | app/artifacts/storage.py:88-98 | a range is the bytes from its start to its end inclusive, as far as the blob has them |
| StorageRuns.BlobsAreWhole | app/artifacts/storage.py:121-173 | in every interleaving of puts, deletes, failures and crashes a blob hashes to its address and is the whole stream of a finished put |
| StorageRuns.FinishedPutsStayReadable | app/artifacts/storage.py:121-173 | a finished put's blob stays readable unless that digest was deleted after the put began, and is exactly its bytes or the stream of another finished put with the same digest |
| StorageRuns.NothingDeletedNothingLost | app/artifacts/storage.py:121-173 | with nothing deleted from the moment a put found or stored its blob, it is there after any further steps |
| StorageRuns.OnlyCrashesLeaveTemps | app/artifacts/storage.py:128-148 | a temporary file belongs to a put that is running or has crashed |
| StorageRuns.NextKeepsInvariant | app/artifacts/storage.py:121-173 | every single file-system step of any caller keeps what all uploads and blobs rely on |
| MissionPackage.Inspect | app/artifacts/mission_package.py:242-340 | reads a zip as a package through every check in order, or gives the first failure |
| FolderPackages.FolderPackageIsRead | app/artifacts/mission_package.py:242-340 | a package in any folder of its archive: its name, uid, folder and rows as their author meant them, and as missing exactly the rows not ignored for which no entry lies at their place under that folder, in order |
| FolderPackages.RefusedForItsSize | app/artifacts/mission_package.py:242-340 | over 2 GiB, no zip, over 10,000 entries, over 4 MiB of manifest: each with its own error, in this order |
| PackageRules.AcceptedExactlyWhen | app/artifacts/mission_package.py:272-330 | a parsed manifest is accepted if and only if its root has the right tag and version 2, its first Configuration gives a name and a uid that are not empty (the last parameter of a name counting), and every Content row of its first Contents names an entry |
| PackageRules.ParametersMean | app/artifacts/mission_package.py:208-215 | a parameter has a value exactly when the last `Parameter` of that stripped name gives it |
| PackageRules.BuiltParametersAre | app/artifacts/mission_package.py:494-498 | a built manifest gives every parameter of the caller's dictionary, the package's name and uid where that has none, and no others |
| PackageRules.OverlaysAre | app/artifacts/mission_package.py:111-119 | an overlay is a row that is not ignored, not marked as an event and not named `.cot` in letters of any case |
| EntryPaths.SafeEntryMeans | app/artifacts/mission_package.py:468-480 | a file's name is what is left of its parts when every part that would not lead one folder deeper is dropped, or the refusal |
| EntryPaths.SafeEntryStaysInside | app/artifacts/mission_package.py:468-480 | walked part by part, a safe name leads exactly to where it says, below the package's root and outside its manifest folder |
| FolderPackages.RowReads | app/artifacts/mission_package.py:194-205 | a written row is read with its entry, ignored when it says true in any case, visible unless it says `false`, and marked as a map item when it says so |
| MissionPackage.ReadParameters | app/artifacts/mission_package.py:208-215 | the loop keeps the last value of each stripped, non-empty name |
| MissionPackage.SetVisibility | app/artifacts/mission_package.py:391-439 | the package with its manifest rewritten and every entry copied, checked by inspecting it again |
| MissionPackage.ContentsElement.SetVisible | app/artifacts/mission_package.py:414-425 | the loop changes the rows in place: exactly the overlays, each with the visibility asked for |
| MissionPackage.CopyEntries | app/artifacts/mission_package.py:432-436 | copies every entry in order with the manifest's data replaced |
| MissionPackage.Build | app/artifacts/mission_package.py:343-388 | manifest first, then every file under its safe name, or the first refusal |
| MissionPackage.NameFiles | app/artifacts/mission_package.py:365-375 | the naming loop gives each file its safe name and refuses a repeated one |
| MissionPackageTheorems.VisibilityKeepsThePackage | app/artifacts/mission_package.py:391-439 | inspecting the result gives the same name, uid, base directory, parameters and rows with every overlay's visibility as asked; in the archive only the manifest's data changes |
| MissionPackageTheorems.LaterVisibilityWins | app/artifacts/mission_package.py:391-439 | setting visibility twice gives, byte for byte, what the later setting alone gives |
| MissionPackageTheorems.SetRowReads | app/artifacts/mission_package.py:194-205 | a row is read back with the visibility set if it is an overlay and unchanged otherwise |
| MissionPackageTheorems.SetRowTwice | app/artifacts/mission_package.py:414-425 | a later setting of a row replaces an earlier one completely, indentation included |
| MissionPackageTheorems.AddedParameterIsIndented | app/artifacts/mission_package.py:452-465 | a parameter added to a row stands like its neighbour and leaves the closing tag where it was |
| BuiltPackages.BuiltPackageIsReadBack | app/artifacts/mission_package.py:343-388 | for every name, files and parameters: the package is read back with its rows naming the files and none missing exactly when no safe file name begins or ends with white space and no parameter empties the name or the uid; both are as given unless a parameter replaces them |
| BuiltPackages.PackageHoldsItsFiles | app/artifacts/mission_package.py:343-388 | a package is built if and only if it has a name and files whose safe names exist and differ, and then holds the manifest and every file's own bytes under its safe name, in order |
| BuiltPackages.SpacedFileIsMissing | app/artifacts/mission_package.py:343-388 | the first exception is real: a file named `/ x` is built into a package that reads as missing it |
| BuiltPackages.BlankFileIsRefused | app/artifacts/mission_package.py:343-388 | so is the second: a file named `/ /` is built into a package that `inspect` refuses |
| Dted.PlanLayout | app/artifacts/dted.py:174-242 | the loop's moves, cells, levels, wrappers and claims give the layout, or the first refusal |
| TerrainNames.TerrainIsRecognised | app/artifacts/dted.py:183-206 | a path is terrain exactly when it ends in a cell and a file of a cell and no folder is an archiver's; cell, file and outermost folder are those of the path |
| TerrainNames.CellsAreColumns | app/artifacts/dted.py:70-70 | the cells are w or e, in either case, and every number of degrees from 000 to 999 |
| TerrainNames.FilesAreNamed | app/artifacts/dted.py:73-73 | the files are n or s, in either case, every number of degrees from 00 to 99, a copy's number or none, and every level from .dt0 to .dt3, which is the level reported |
| TerrainNames.JunkMeans | app/artifacts/dted.py:112-127 | an archiver's entries are those in a folder `__MACOSX`, and files called `.DS_Store` or beginning with `._` |
| DtedTheorems.AcceptedExactlyWhen | app/artifacts/dted.py:174-242 | a layout is accepted exactly when nothing kept would escape, no two cells share a destination ignoring case, and there is a cell |
| DtedTheorems.AcceptedLayoutIsSafe | app/artifacts/dted.py:183-219 | every entry but junk is kept in order; nothing shares a cell's destination ignoring case; no destination leaves the target; the counts are right |
| EntryPaths.EscapesMeans | app/artifacts/dted.py:156-171 | refused are exactly the paths from a root or a drive and those with a step back, with slashes of either kind |
| EntryPaths.LayoutStaysInside | app/artifacts/dted.py:174-242 | walked part by part, every destination of an accepted layout stays inside the target |
| DtedTheorems.LayoutReportsItsTerrain | app/artifacts/dted.py:233-242 | the cells, levels and wrapping folders reported are exactly those of the terrain kept, in order |
| DtedTheorems.ReplanningChangesNothing | app/artifacts/dted.py:146-242 | planning a layout's own destinations finds the same terrain, moves nothing and needs no repack |
| DtedTheorems.RepackExactlyWhen | app/artifacts/dted.py:146-153 | a repack is needed exactly when some kept entry does not lie where it lands |
| DtedTheorems.OthersKeepOffTerrain | app/artifacts/dted.py:188-219 | an entry that is not a cell never lands on a cell, whatever the case of its letters |
| Sorting.SortFilters | app/policies/resolver.py:121-130 | Python's stable sort commutes with selecting |
| Sorting.SortForgetsOrder | app/policies/resolver.py:121-130 | a sort whose keys tell elements apart forgets the input order |
| Lists.DistinctRegroups | app/policies/strategies.py:206-221 | keeping the first of each kind in two parts and then in their join is keeping it in the whole |

## Left out

- AxmlDocumentTheorems.PrintedDocumentIsRead: printed with a 28-byte pool header, 16-byte chunk headers and 20-byte attributes; other layouts the parser takes are covered by `ParseElements` only.
- TableDocumentTheorems.PrintedTableIsRead: within the reader's limits of 512 members an array and 20,000 a chunk, each entry at an offset of its own; beyond them `SlotsAppend` and `TypeChunkCost` say what is kept.
- ApkSigning.ExtractSignature: the digest is returned as bytes, not as hexadecimal text, and the v1 (PKCS#7) certificate is a parameter, because certificate parsing is a library's work.
- AlignedZip.WriteAligned: archives that need ZIP64 records are not laid out; entry names are bytes, and deflate and CRC are parameters; names that hold NUL, which `zipfile` cuts there and never reads back, are written whole.
- ManifestTheorems.RewritePreservesMeaning: manifests are those of `WellFormedManifest`, spelled out above it (28-byte pool header, chunks that follow each other, replaced strings used as values, one versionCode attribute on the root); placeholders are not empty and do not begin with `@`, and the strings before and after stay within the parser's character budget.
- StrategyTheorems.ExtremumRegroups: MAX and MIN are modelled over integers; Python also compares other values of one kind.
- Strategies.MergeUnion: the items of all lists of a field have one type with equality, so the JSON stand-in for unhashable items and `True == 1` are not modelled.
- Json.Parse: object members keep their order and repeats, numbers stay text, two escaped surrogates stay two units, and the recursion limit is not modelled.
- Axml.ReferenceText: integers in attribute text are read in the form the parser writes; the other spellings Python's `int` accepts, such as underscores, are not.
- WebFilter.Normalize: lower-casing, IDNA and address recognition are parameters; `host_of`, which takes URLs apart, is not modelled.
- Dted.IsCell: names are ASCII, so other scripts' digits and case pairs are not modelled.
- StorageRuns.Next: a crash ends callers but loses no written file; power loss and disks without atomic rename are not modelled.
- Storage.LocalArtifactStorage.Put: the stream is read to its end; a stream that fails midway is the step `Fail` of `StorageRuns`.
- MissionPackage.Build: the manifest written by hand is represented by the tree it denotes; the uid is a parameter.
- MissionPackageTheorems.VisibilityKeepsThePackage: that the zip and XML libraries give back what they wrote is required of this archive and this tree, because XML text syntax and deflate are outside the model.
- BuiltPackages.BuiltPackageIsReadBack: the package is within `inspect`'s size limits, and the zip and XML libraries give back what they wrote.
- ShortcutBuild.BuildShortcut: `validate` and the reading of the template's zip come before it; the entries read and the replacements are parameters.
- MissionPackage.ContentsElement.SetVisible: rows are values in a list field, so aliasing between ElementTree nodes is not captured.
- The application, its API, settings, database models, key storage, certificate creation and the other policy and artifact modules are not modelled; most are I/O or thin layers over libraries.
- `has_manifest`, `looks_like_dted`, `check_setting`, `problems`, `png_size`, `validate_url` and `native_abis` would add only easy members.
