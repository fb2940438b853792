/** When the search for the root's versionCode ends: the loop of `_set_version_code`, turn by turn. */
module ManifestLoop {
  import opened Wrappers
  import opened Bytes
  import opened StringPools
  import opened Axml
  import opened ManifestRewrite
  import opened ManifestTheorems

  /**
   One turn at `position` neither raises, nor returns, nor leaves the loop; the next is at `position`
   plus the size.
   */
  predicate Passes(chunks: bytes, position: nat, strings: seq<string>): (passes: bool)
    ensures passes ==> position + 8 <= |chunks|
  {
    position + 8 <= |chunks| &&
    var kind, header, size := U16At(chunks, position), U16At(chunks, position + 2), U32At(chunks, position + 4);
    && (kind == RES_XML_RESOURCE_MAP ==> ReadIds(chunks, position, header, size).Ok?)
    && (kind == RES_XML_START_ELEMENT ==>
          && position + header + 14 <= |chunks|
          && U32At(chunks, position + header + 4) < |strings|
          && strings[U32At(chunks, position + header + 4)] != "manifest")
  }

  /** The next `turns` turns from `position` all pass. */
  predicate Runs(chunks: bytes, position: nat, strings: seq<string>, turns: nat)
    decreases turns
  {
    turns > 0 ==>
      Passes(chunks, position, strings) && Runs(chunks, position + U32At(chunks, position + 4), strings, turns - 1)
  }

  /** After `turns` chunks of non-zero size, all passed, comes a passed chunk of size zero. */
  predicate StuckAfter(chunks: bytes, position: nat, strings: seq<string>, turns: nat)
    decreases turns
  {
    Passes(chunks, position, strings) &&
    var size := U32At(chunks, position + 4);
    if turns == 0 then size == 0 else size != 0 && StuckAfter(chunks, position + size, strings, turns - 1)
  }

  ghost predicate RunsForever(chunks: bytes, position: nat, strings: seq<string>) {
    forall turns: nat :: Runs(chunks, position, strings, turns)
  }

  ghost predicate GetsStuck(chunks: bytes, position: nat, strings: seq<string>) {
    exists turns: nat :: StuckAfter(chunks, position, strings, turns)
  }

  lemma {:induction false} StandingStill(chunks: bytes, position: nat, strings: seq<string>, turns: nat)
    requires Passes(chunks, position, strings) && U32At(chunks, position + 4) == 0
    ensures Runs(chunks, position, strings, turns)
    decreases turns
  {
    hide Passes;
    if turns > 0 {
      StandingStill(chunks, position, strings, turns - 1);
    }
  }

  /** What holds of a chunk's turn holds of the whole loop from there. */
  lemma OneTurn(chunks: bytes, position: nat, strings: seq<string>)
    ensures !Passes(chunks, position, strings) ==>
              !RunsForever(chunks, position, strings) && !GetsStuck(chunks, position, strings)
    ensures Passes(chunks, position, strings) ==>
              var size := U32At(chunks, position + 4);
              if size == 0 then RunsForever(chunks, position, strings) && GetsStuck(chunks, position, strings)
              else && (RunsForever(chunks, position, strings) <==> RunsForever(chunks, position + size, strings))
                   && (GetsStuck(chunks, position, strings) <==> GetsStuck(chunks, position + size, strings))
  {
    hide Passes;
    if !Passes(chunks, position, strings) {
      assert !Runs(chunks, position, strings, 1);
    } else if U32At(chunks, position + 4) == 0 {
      assert StuckAfter(chunks, position, strings, 0);
      forall turns: nat ensures Runs(chunks, position, strings, turns) {
        StandingStill(chunks, position, strings, turns);
      }
    } else {
      var next := position + U32At(chunks, position + 4);
      forall turns: nat ensures Runs(chunks, position, strings, turns + 1) <==> Runs(chunks, next, strings, turns) {
      }
      if RunsForever(chunks, next, strings) {
        forall turns: nat ensures Runs(chunks, position, strings, turns) {
          assert turns > 0 ==> Runs(chunks, next, strings, turns - 1);
        }
      }
      if RunsForever(chunks, position, strings) {
        forall turns: nat ensures Runs(chunks, next, strings, turns) {
          assert Runs(chunks, position, strings, turns + 1);
        }
      }
      if turns: nat :| StuckAfter(chunks, next, strings, turns) {
        assert StuckAfter(chunks, position, strings, turns + 1);
      }
      if turns: nat :| StuckAfter(chunks, position, strings, turns) {
        assert StuckAfter(chunks, next, strings, turns - 1);
      }
    }
  }

  lemma {:induction false} AttributesNeverHang(chunks: bytes, at: nat, size: nat, i: nat, count: nat, ids: seq<nat>)
    ensures FindAttribute(chunks, at, size, i, count, ids) != Err(Hangs)
    decreases count - i
  {
    hide AttributeBase, U32At, Byte;
    if i < count {
      AttributesNeverHang(chunks, at, size, i + 1, count, ids);
    }
  }

  /**
   `Hangs` is the loop that takes a turn after every turn, and that is exactly the loop that
   passes chunks of non-zero size up to one of size zero.
   */
  lemma {:induction false} HangsExactlyWhen(chunks: bytes, position: nat, strings: seq<string>, ids: seq<nat>)
    ensures FindVersionCode(chunks, position, strings, ids) == Err(Hangs) <==> RunsForever(chunks, position, strings)
    ensures RunsForever(chunks, position, strings) <==> GetsStuck(chunks, position, strings)
    decreases |chunks| - position
  {
    hide U16At, U32At, ReadIds, FindAttribute, RunsForever, GetsStuck;
    OneTurn(chunks, position, strings);
    if position + 8 <= |chunks| {
      var kind, header, size := U16At(chunks, position), U16At(chunks, position + 2), U32At(chunks, position + 4);
      if Passes(chunks, position, strings) && size != 0 {
        var next := if kind == RES_XML_RESOURCE_MAP then ReadIds(chunks, position, header, size).value else ids;
        HangsExactlyWhen(chunks, position + size, strings, next);
      } else if kind == RES_XML_START_ELEMENT && position + header + 14 <= |chunks| {
        AttributesNeverHang(chunks, position + header + U16At(chunks, position + header + 8),
                            U16At(chunks, position + header + 10), 0, U16At(chunks, position + header + 12), ids);
      }
    }
  }

  /** `rewrite_manifest` loops for ever exactly when nothing stops it before and its chunks get it stuck. */
  lemma RewriteHangsExactlyWhen(data: bytes, replacements: Replacements, version: nat)
    ensures Rewritten(data, replacements, version) == Err(Hangs) <==>
            && |data| >= 8 && U16At(data, 0) == RES_XML && StrictPool(data, U16At(data, 2)).Ok?
            && var pool := StrictPool(data, U16At(data, 2)).value;
            && EachExactlyOnce(replacements, pool.strings) && !NamesPackageElsewhere(pool.strings)
            && Encoded(ReplaceAll(replacements, pool.strings), pool.utf8).Ok?
            && GetsStuck(Slice(data, U16At(data, 2) + pool.chunkSize, |data|), 0, pool.strings)
  {
    hide U16At, StrictPool, Encoded, FindVersionCode, EachExactlyOnce, NamesPackageElsewhere, ReplaceAll, Reassembled,
         GetsStuck, RunsForever;
    if |data| >= 8 && StrictPool(data, U16At(data, 2)).Ok? {
      var pool := StrictPool(data, U16At(data, 2)).value;
      var chunks := Slice(data, U16At(data, 2) + pool.chunkSize, |data|);
      HangsExactlyWhen(chunks, 0, pool.strings, []);
    }
  }

  lemma {:induction false} GoodChunksNeverStick(chunks: bytes, position: nat, strings: seq<string>,
                                                replacements: Replacements, turns: nat)
    requires ChunksOk(chunks, position, strings, replacements)
    ensures !StuckAfter(chunks, position, strings, turns)
    decreases turns
  {
    hide StartFits, NamesKept, U16At, U32At;
    if turns > 0 && Passes(chunks, position, strings) {
      GoodChunksNeverStick(chunks, position + U32At(chunks, position + 4), strings, replacements, turns - 1);
    }
  }

  /** A well-formed manifest is rewritten or refused in finitely many turns. */
  lemma WellFormedNeverHangs(data: bytes, replacements: Replacements, version: nat)
    requires WellFormedManifest(data, replacements)
    ensures Rewritten(data, replacements, version) != Err(Hangs)
  {
    RewriteHangsExactlyWhen(data, replacements, version);
    hide U16At, U32At, StrictPool, Encoded, EachExactlyOnce, NamesPackageElsewhere, ReplaceAll, Rewritten, ChunksOk,
         RootIsClear, FindVersionCode, PlainPlaceholders, StuckAfter;
    var pool := StrictPool(data, U16At(data, 2)).value;
    var chunks := data[U16At(data, 2) + pool.chunkSize..];
    assert Slice(data, U16At(data, 2) + pool.chunkSize, |data|) == chunks;
    forall turns: nat ensures !StuckAfter(chunks, 0, pool.strings, turns) {
      GoodChunksNeverStick(chunks, 0, pool.strings, replacements, turns);
    }
  }
}
