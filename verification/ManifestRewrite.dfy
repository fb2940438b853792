/** The builder's edit of a compiled manifest: whole strings replaced, versionCode set. */
module ManifestRewrite {
  import opened Wrappers
  import opened Bytes
  import opened ApkSigning
  import opened StringPools
  import opened Axml

  const VERSION_CODE_ATTR: nat := 0x0101021B
  const TEMPLATE_PACKAGE := "com.taksolutions.atlaslink.template"

  /**
   Hangs marks a chunk of size zero before the root element: the source's loop never moves on.
   ShortRead stands for `struct.error` and `IndexError`.
   */
  datatype RewriteError =
    | ManifestNotXml
    | BadManifestPool(cause: PoolError)
    | NotExactlyOnce
    | StrayPackage
    | VersionNotAnInteger
    | NoVersionCode
    | NoManifestElement
    | ShortRead
    | Hangs

  /** The position of the versionCode value among attributes `i` to `count - 1` of the root. */
  function FindAttribute(chunks: bytes, at: nat, size: nat, i: nat, count: nat,
                         ids: seq<nat>): Result<nat, RewriteError>
    decreases count - i
  {
    if i >= count then Err(NoVersionCode)
    else
      var base := AttributeBase(at, size, i);
      if base + 8 > |chunks| then Err(RewriteError.ShortRead)
      else
        var name := U32At(chunks, base + 4);
        if name < |ids| && ids[name] == VERSION_CODE_ATTR then
          if base + 16 > |chunks| then Err(RewriteError.ShortRead)
          else if Byte(chunks, base + 15) != TYPE_INT_DEC then Err(VersionNotAnInteger)
          else if base + 20 > |chunks| then Err(RewriteError.ShortRead)
          else Ok(base + 16)
        else FindAttribute(chunks, at, size, i + 1, count, ids)
  }

  /** Where `_set_version_code` writes, searching from the chunk at `position`. */
  function FindVersionCode(chunks: bytes, position: nat, strings: seq<string>, ids: seq<nat>): Result<nat, RewriteError>
    decreases |chunks| - position
  {
    if position + 8 > |chunks| then Err(NoManifestElement)
    else
      var kind, header, size := U16At(chunks, position), U16At(chunks, position + 2), U32At(chunks, position + 4);
      if kind == RES_XML_RESOURCE_MAP then
        var read := ReadIds(chunks, position, header, size);
        if read.Err? then Err(RewriteError.ShortRead)
        else if size == 0 then Err(Hangs)
        else FindVersionCode(chunks, position + size, strings, read.value)
      else if kind == RES_XML_START_ELEMENT && position + header + 14 > |chunks| then Err(RewriteError.ShortRead)
      else if kind == RES_XML_START_ELEMENT && U32At(chunks, position + header + 4) >= |strings| then
        Err(RewriteError.ShortRead)
      else if kind == RES_XML_START_ELEMENT && strings[U32At(chunks, position + header + 4)] == "manifest" then
        FindAttribute(chunks, position + header + U16At(chunks, position + header + 8),
                      U16At(chunks, position + header + 10), 0, U16At(chunks, position + header + 12), ids)
      else if size == 0 then Err(Hangs)
      else FindVersionCode(chunks, position + size, strings, ids)
  }

  lemma FoundAttributeFits(chunks: bytes, at: nat, size: nat, i: nat, count: nat, ids: seq<nat>)
    requires FindAttribute(chunks, at, size, i, count, ids).Ok?
    ensures FindAttribute(chunks, at, size, i, count, ids).value + 4 <= |chunks|
    decreases count - i
  {
  }

  lemma FoundVersionFits(chunks: bytes, position: nat, strings: seq<string>, ids: seq<nat>)
    requires FindVersionCode(chunks, position, strings, ids).Ok?
    ensures FindVersionCode(chunks, position, strings, ids).value + 4 <= |chunks|
    decreases |chunks| - position
  {
    hide U16At, U32At, ReadIds, FindAttribute;
    var kind, header, size := U16At(chunks, position), U16At(chunks, position + 2), U32At(chunks, position + 4);
    if kind == RES_XML_RESOURCE_MAP {
      FoundVersionFits(chunks, position + size, strings, ReadIds(chunks, position, header, size).value);
    } else if kind == RES_XML_START_ELEMENT && strings[U32At(chunks, position + header + 4)] == "manifest" {
      FoundAttributeFits(chunks, position + header + U16At(chunks, position + header + 8),
                         U16At(chunks, position + header + 10), 0, U16At(chunks, position + header + 12), ids);
    } else {
      FoundVersionFits(chunks, position + size, strings, ids);
    }
  }

  /** The loop over the root's attributes. */
  method ScanAttributes(chunks: array<byte>, at: nat, size: nat, count: nat, ids: seq<nat>)
    returns (r: Result<nat, RewriteError>)
    ensures r == FindAttribute(chunks[..], at, size, 0, count, ids)
  {
    hide AttributeBase, U32At;
    ghost var data := chunks[..];
    for i := 0 to count
      invariant FindAttribute(data, at, size, 0, count, ids) == FindAttribute(data, at, size, i, count, ids)
    {
      var base := AttributeBase(at, size, i);
      if base + 8 > chunks.Length {
        return Err(RewriteError.ShortRead);
      }
      var name := U32At(chunks[..], base + 4);
      if name < |ids| && ids[name] == VERSION_CODE_ATTR {
        if base + 16 > chunks.Length {
          return Err(RewriteError.ShortRead);
        }
        if chunks[base + 15] != TYPE_INT_DEC {
          return Err(VersionNotAnInteger);
        }
        return if base + 20 > chunks.Length then Err(RewriteError.ShortRead) else Ok(base + 16);
      }
    }
    return Err(NoVersionCode);
  }

  /** `_set_version_code`: four bytes of `chunks` change, in place, or nothing does. */
  method SetVersionCode(chunks: array<byte>, strings: seq<string>, versionCode: nat)
    returns (r: Result<nat, RewriteError>)
    modifies chunks
    ensures r == var found := FindVersionCode(old(chunks[..]), 0, strings, []);
                 if found.Ok? && versionCode >= U32_LIMIT then Err(RewriteError.ShortRead) else found
    ensures r.Ok? ==> r.value + 4 <= chunks.Length && chunks[..] == Patched(old(chunks[..]), r.value, versionCode)
    ensures r.Err? ==> chunks[..] == old(chunks[..])
  {
    hide U16At, U32At, ReadIds, FindAttribute, AttributeBase, Patched;
    ghost var data := chunks[..];
    var ids: seq<nat>, position := [], 0;
    while position + 8 <= chunks.Length
      invariant chunks[..] == data
      invariant FindVersionCode(data, 0, strings, []) == FindVersionCode(data, position, strings, ids)
      decreases chunks.Length - position
    {
      var kind, header, size := U16At(chunks[..], position), U16At(chunks[..], position + 2),
          U32At(chunks[..], position + 4);
      if kind == RES_XML_RESOURCE_MAP {
        var read := ReadIds(chunks[..], position, header, size);
        if read.Err? {
          return Err(RewriteError.ShortRead);
        }
        ids := read.value;
      } else if kind == RES_XML_START_ELEMENT {
        var element := position + header;
        if element + 14 > chunks.Length {
          return Err(RewriteError.ShortRead);
        }
        var name := U32At(chunks[..], element + 4);
        if name >= |strings| {
          return Err(RewriteError.ShortRead);
        }
        if strings[name] == "manifest" {
          var at, width, count := element + U16At(chunks[..], element + 8), U16At(chunks[..], element + 10),
              U16At(chunks[..], element + 12);
          r := ScanAttributes(chunks, at, width, count, ids);
          if r.Err? {
            return;
          }
          if versionCode >= U32_LIMIT {
            return Err(RewriteError.ShortRead);
          }
          FoundAttributeFits(data, at, width, 0, count, ids);
          PackInto(chunks, r.value, versionCode);
          return;
        }
      }
      if size == 0 {
        return Err(Hangs);
      }
      position := position + size;
    }
    return Err(NoManifestElement);
  }

  // ------------------------------------------------------------------ the whole rewrite

  type Replacements = map<string, string>

  function Count(strings: seq<string>, s: string): nat {
    if strings == [] then 0 else Count(strings[1..], s) + if strings[0] == s then 1 else 0
  }

  predicate OccursAt(whole: string, part: string, i: nat) {
    i + |part| <= |whole| && whole[i..i + |part|] == part
  }

  /** `part in whole` */
  predicate Contains(whole: string, part: string) {
    exists i :: 0 <= i <= |whole| && OccursAt(whole, part, i)
  }

  /** `replacements.get(s, s)` */
  function Replace(replacements: Replacements, s: string): string {
    if s in replacements then replacements[s] else s
  }

  function ReplaceAll(replacements: Replacements, strings: seq<string>): (r: seq<string>)
    ensures |r| == |strings|
  {
    seq(|strings|, i requires 0 <= i < |strings| => Replace(replacements, strings[i]))
  }

  predicate EachExactlyOnce(replacements: Replacements, strings: seq<string>) {
    forall s :: s in replacements ==> Count(strings, s) == 1
  }

  predicate NamesPackageElsewhere(strings: seq<string>) {
    exists s :: s in strings && Contains(s, TEMPLATE_PACKAGE) && s != TEMPLATE_PACKAGE
  }

  /** The pool and the chunks after it, both already edited, under a new outer header. */
  function Reassembled(data: bytes, newPool: bytes, chunks: bytes): bytes
    requires |data| >= 8
  {
    var header := U16At(data, 2);
    U16(RES_XML) + U16(header) + U32(header + |newPool| + |chunks|) + Slice(data, 8, header) + newPool + chunks
  }

  /** `rewrite_manifest` */
  function Rewritten(data: bytes, replacements: Replacements, versionCode: nat): Result<bytes, RewriteError> {
    if |data| < 8 then Err(RewriteError.ShortRead)
    else if U16At(data, 0) != RES_XML then Err(ManifestNotXml)
    else
      var header, pool := U16At(data, 2), StrictPool(data, U16At(data, 2));
      if pool.Err? then Err(BadManifestPool(pool.error))
      else if !EachExactlyOnce(replacements, pool.value.strings) then Err(NotExactlyOnce)
      else if NamesPackageElsewhere(pool.value.strings) then Err(StrayPackage)
      else
        var newPool := Encoded(ReplaceAll(replacements, pool.value.strings), pool.value.utf8);
        if newPool.Err? then Err(BadManifestPool(newPool.error))
        else
          var chunks := Slice(data, header + pool.value.chunkSize, |data|);
          var at :- FindVersionCode(chunks, 0, pool.value.strings, []);
          FoundVersionFits(chunks, 0, pool.value.strings, []);
          if versionCode >= U32_LIMIT || header + |newPool.value| + |chunks| >= U32_LIMIT then
            Err(RewriteError.ShortRead)
          else Ok(Reassembled(data, newPool.value, Patched(chunks, at, versionCode)))
  }

  method RewriteManifest(data: bytes, replacements: Replacements, versionCode: nat)
    returns (r: Result<bytes, RewriteError>)
    ensures r == Rewritten(data, replacements, versionCode)
  {
    hide U16At, U32At, StrictPool, Encoded, FindVersionCode, EachExactlyOnce, NamesPackageElsewhere, Reassembled,
         Patched, ReplaceAll;
    if |data| < 8 {
      return Err(RewriteError.ShortRead);
    }
    if U16At(data, 0) != RES_XML {
      return Err(ManifestNotXml);
    }
    var header := U16At(data, 2);
    var pool := ReadPool(data, header);
    if pool.Err? {
      return Err(BadManifestPool(pool.error));
    }
    var strings := pool.value.strings;
    if !EachExactlyOnce(replacements, strings) {
      return Err(NotExactlyOnce);
    }
    if NamesPackageElsewhere(strings) {
      return Err(StrayPackage);
    }
    var newPool := EncodePool(ReplaceAll(replacements, strings), pool.value.utf8);
    if newPool.Err? {
      return Err(BadManifestPool(newPool.error));
    }
    var chunks := Slice(data, header + pool.value.chunkSize, |data|);
    var rest := new byte[|chunks|](i requires 0 <= i < |chunks| => chunks[i]);
    assert rest[..] == chunks;
    var written := SetVersionCode(rest, strings, versionCode);
    if written.Err? {
      return Err(written.error);
    }
    if header + |newPool.value| + |chunks| >= U32_LIMIT {
      return Err(RewriteError.ShortRead);
    }
    r := Ok(Reassembled(data, newPool.value, rest[..]));
  }
}
