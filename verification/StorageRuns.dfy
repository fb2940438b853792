/** Any interleaving of puts, deletes and crashes over one blob directory. */
module StorageRuns {
  import opened Bytes
  import opened Storage

  /** Where one upload stands. `since` counts the deletions carried out before it. */
  datatype Phase =
    | Writing(written: nat)
    | Written
    | FoundThere(since: nat)
    | FoundAbsent
    | Finished(digest: string, size: nat, since: nat)
    | Gone
    | Crashed

  datatype Upload = Upload(source: bytes, started: nat, phase: Phase)

  /** Files on disk, what every caller is doing, and the digests deleted so far. */
  datatype System = System(
    blobs: map<string, bytes>,
    temps: map<nat, bytes>,
    uploads: map<nat, Upload>,
    deleting: map<nat, string>,
    deleted: seq<string>)

  const EMPTY := System(map[], map[], map[], map[], [])

  /** One caller's next file-system operation; a step that is not possible does nothing. */
  datatype Step =
    | Begin(caller: nat, source: bytes)
    | WriteChunk(caller: nat, count: nat)
    | EndOfStream(caller: nat)
    | LookUp(caller: nat)
    | Discard(caller: nat)
    | MoveIn(caller: nat)
    | Fail(caller: nat)
    | Crash(caller: nat)
    | LookToDelete(caller: nat, digest: string)
    | Unlink(caller: nat)

  function Set(s: System, caller: nat, phase: Phase): System
    requires caller in s.uploads
  {
    s.(uploads := s.uploads[caller := s.uploads[caller].(phase := phase)])
  }

  /** `put` up to the digest: a new temporary file, chunks written as they are hashed. */
  function WriteStep(s: System, step: Step): System
    requires step.Begin? || step.WriteChunk? || step.EndOfStream?
  {
    var caller := step.caller;
    match step
    case Begin(_, source) =>
      if caller in s.uploads then s
      else s.(temps := s.temps[caller := []], uploads := s.uploads[caller := Upload(source, |s.deleted|, Writing(0))])
    case WriteChunk(_, count) =>
      if caller in s.uploads && caller in s.temps && s.uploads[caller].phase.Writing? &&
         1 <= count <= CHUNK && s.uploads[caller].phase.written + count <= |s.uploads[caller].source|
      then
        var written := s.uploads[caller].phase.written;
        var chunk := s.uploads[caller].source[written..written + count];
        Set(s.(temps := s.temps[caller := s.temps[caller] + chunk]), caller, Writing(written + count))
      else s
    case EndOfStream(_) =>
      if caller in s.uploads && s.uploads[caller].phase == Writing(|s.uploads[caller].source|) then
        Set(s, caller, Written) else s
  }

  /** `put` from the digest on: look, then drop the temporary file or rename it into place. */
  function StoreStep(s: System, step: Step, hash: Hash): System
    requires step.LookUp? || step.Discard? || step.MoveIn?
  {
    var caller := step.caller;
    if caller !in s.uploads || caller !in s.temps then s
    else
      var source := s.uploads[caller].source;
      match step
      case LookUp(_) =>
        if s.uploads[caller].phase != Written then s
        else Set(s, caller, if hash(source) in s.blobs then FoundThere(|s.deleted|) else FoundAbsent)
      case Discard(_) =>
        if !s.uploads[caller].phase.FoundThere? then s
        else Set(s.(temps := s.temps - {caller}), caller,
                 Finished(hash(source), |source|, s.uploads[caller].phase.since))
      case MoveIn(_) =>
        if s.uploads[caller].phase != FoundAbsent then s
        else
          Set(s.(temps := s.temps - {caller}, blobs := s.blobs[hash(source) := s.temps[caller]]), caller,
              Finished(hash(source), |source|, |s.deleted|))
  }

  predicate Running(phase: Phase) {
    phase.Writing? || phase.Written? || phase.FoundThere? || phase.FoundAbsent?
  }

  /** An exception removes the temporary file; a crash leaves it. */
  function StopStep(s: System, step: Step): System
    requires step.Fail? || step.Crash?
  {
    var caller := step.caller;
    if caller !in s.uploads || !Running(s.uploads[caller].phase) then s
    else if step.Fail? then Set(s.(temps := s.temps - {caller}), caller, Gone)
    else Set(s, caller, Crashed)
  }

  /** `delete`: look, then unlink. */
  function DeleteStep(s: System, step: Step): System
    requires step.LookToDelete? || step.Unlink?
  {
    var caller := step.caller;
    match step
    case LookToDelete(_, digest) =>
      if digest in s.blobs && caller !in s.deleting then s.(deleting := s.deleting[caller := digest]) else s
    case Unlink(_) =>
      if caller !in s.deleting then s
      else
        var digest := s.deleting[caller];
        s.(blobs := s.blobs - {digest}, deleting := s.deleting - {caller},
           deleted := if digest in s.blobs then s.deleted + [digest] else s.deleted)
  }

  function Next(s: System, step: Step, hash: Hash): System {
    match step
    case Begin(_, _) => WriteStep(s, step)
    case WriteChunk(_, _) => WriteStep(s, step)
    case EndOfStream(_) => WriteStep(s, step)
    case LookUp(_) => StoreStep(s, step, hash)
    case Discard(_) => StoreStep(s, step, hash)
    case MoveIn(_) => StoreStep(s, step, hash)
    case Fail(_) => StopStep(s, step)
    case Crash(_) => StopStep(s, step)
    case LookToDelete(_, _) => DeleteStep(s, step)
    case Unlink(_) => DeleteStep(s, step)
  }

  function Run(s: System, steps: seq<Step>, hash: Hash): System
    decreases |steps|
  {
    if steps == [] then s else Run(Next(s, steps[0], hash), steps[1..], hash)
  }

  // ------------------------------------------------------- what every run keeps

  /** The blob is there, or has been deleted since. */
  predicate Kept(s: System, digest: string, since: nat) {
    since <= |s.deleted| && (digest in s.blobs || digest in s.deleted[since..])
  }

  /** What an upload's phase says about the disk. */
  predicate UploadHolds(s: System, caller: nat, hash: Hash)
    requires caller in s.uploads
  {
    var u := s.uploads[caller];
    && u.started <= |s.deleted|
    && match u.phase
       case Writing(written) => caller in s.temps && written <= |u.source| && s.temps[caller] == u.source[..written]
       case Written => caller in s.temps && s.temps[caller] == u.source
       case FoundThere(since) => caller in s.temps && s.temps[caller] == u.source && u.started <= since &&
            Kept(s, hash(u.source), since)
       case FoundAbsent => caller in s.temps && s.temps[caller] == u.source
       case Finished(digest, size, since) =>
         caller !in s.temps && digest == hash(u.source) && size == |u.source| && u.started <= since &&
           Kept(s, digest, since)
       case Gone => caller !in s.temps
       case Crashed => true
  }

  /** A blob is the whole stream of an upload that finished, stored under its digest. */
  ghost predicate BlobHolds(s: System, digest: string, hash: Hash)
    requires digest in s.blobs
  {
    hash(s.blobs[digest]) == digest &&
    exists caller: nat :: caller in s.uploads && s.uploads[caller].phase.Finished? &&
           s.uploads[caller].source == s.blobs[digest]
  }

  ghost predicate Invariant(s: System, hash: Hash) {
    && (forall digest :: digest in s.blobs ==> BlobHolds(s, digest, hash))
    && (forall caller :: caller in s.uploads ==> UploadHolds(s, caller, hash))
    && (forall caller :: caller in s.temps ==> caller in s.uploads)
  }

  /** What one caller's step leaves alone: everybody else, and all it needs of the blobs. */
  ghost predicate LeavesOthers(s: System, t: System, caller: nat) {
    && (forall c :: c != caller ==> (c in t.uploads <==> c in s.uploads) && (c in t.temps <==> c in s.temps))
    && (forall c :: c != caller && c in s.uploads ==> t.uploads[c] == s.uploads[c])
    && (forall c :: c != caller && c in s.temps ==> t.temps[c] == s.temps[c])
    && |s.deleted| <= |t.deleted| && t.deleted[..|s.deleted|] == s.deleted
    && (forall d :: d in s.blobs ==> d in t.blobs || d in t.deleted[|s.deleted|..])
  }

  lemma KeptStays(s: System, t: System, caller: nat, digest: string, since: nat)
    requires LeavesOthers(s, t, caller) && Kept(s, digest, since)
    ensures Kept(t, digest, since)
  {
    var n := |s.deleted|;
    assert t.deleted[since..] == s.deleted[since..] + t.deleted[n..] by {
      assert t.deleted == s.deleted + t.deleted[n..];
    }
  }

  lemma OthersHold(s: System, t: System, caller: nat, other: nat, hash: Hash)
    requires LeavesOthers(s, t, caller) && other != caller && other in s.uploads && UploadHolds(s, other, hash)
    ensures other in t.uploads && UploadHolds(t, other, hash)
  {
    hide Kept;
    match s.uploads[other].phase
    case FoundThere(since) => KeptStays(s, t, caller, hash(s.uploads[other].source), since);
    case Finished(digest, _, since) => KeptStays(s, t, caller, digest, since);
    case _ =>
  }

  /** A step that deletes nothing leaves the list of deletions alone. */
  lemma NothingForgotten(s: System, t: System)
    ensures t.deleted == s.deleted ==> t.deleted[..|s.deleted|] == s.deleted
  {
  }

  lemma DeleteLeavesOthers(s: System, step: Step)
    requires step.LookToDelete? || step.Unlink?
    ensures LeavesOthers(s, DeleteStep(s, step), step.caller)
  {
    var t := DeleteStep(s, step);
    assert t.deleted[..|s.deleted|] == s.deleted;
    assert t.deleted != s.deleted ==> t.deleted[|s.deleted|..] == [s.deleting[step.caller]];
  }

  lemma NextLeavesOthers(s: System, step: Step, hash: Hash)
    ensures LeavesOthers(s, Next(s, step, hash), step.caller)
  {
    NothingForgotten(s, Next(s, step, hash));
    if step.LookToDelete? || step.Unlink? {
      DeleteLeavesOthers(s, step);
    }
    hide DeleteStep;
  }

  /** The steps before the digest is known. */
  lemma WriterHolds(s: System, step: Step, hash: Hash)
    requires Invariant(s, hash) && (step.Begin? || step.WriteChunk? || step.EndOfStream?)
    ensures var t := WriteStep(s, step);
            step.caller in t.uploads ==> UploadHolds(t, step.caller, hash)
  {
    var caller := step.caller;
    if caller in s.uploads {
      var u := s.uploads[caller];
      assert UploadHolds(s, caller, hash);
      hide Kept;
      if step.WriteChunk? && u.phase.Writing? && u.phase.written + step.count <= |u.source| {
        var w := u.phase.written;
        assert u.source[..w] + u.source[w..w + step.count] == u.source[..w + step.count];
      }
      assert u.source[..|u.source|] == u.source;
    }
  }

  lemma StorerHolds(s: System, step: Step, hash: Hash)
    requires Invariant(s, hash) && (step.LookUp? || step.Discard? || step.MoveIn?)
    ensures var t := StoreStep(s, step, hash);
            step.caller in t.uploads ==> UploadHolds(t, step.caller, hash)
  {
    var caller := step.caller;
    assert caller in s.uploads ==> UploadHolds(s, caller, hash);
  }

  lemma StopperHolds(s: System, step: Step, hash: Hash)
    requires Invariant(s, hash) && (step.Fail? || step.Crash?)
    ensures var t := StopStep(s, step);
            step.caller in t.uploads ==> UploadHolds(t, step.caller, hash)
  {
    assert step.caller in s.uploads ==> UploadHolds(s, step.caller, hash);
  }

  lemma DeleterHolds(s: System, step: Step, hash: Hash)
    requires Invariant(s, hash) && (step.LookToDelete? || step.Unlink?)
    ensures var t := DeleteStep(s, step);
            step.caller in t.uploads ==> UploadHolds(t, step.caller, hash)
  {
    DeleteLeavesOthers(s, step);
    var t, caller := DeleteStep(s, step), step.caller;
    assert t.uploads == s.uploads && t.temps == s.temps && |s.deleted| <= |t.deleted|;
    hide Kept, DeleteStep, LeavesOthers;
    if caller in s.uploads {
      var u := s.uploads[caller];
      assert UploadHolds(s, caller, hash);
      if u.phase.FoundThere? {
        KeptStays(s, t, caller, hash(u.source), u.phase.since);
      } else if u.phase.Finished? {
        KeptStays(s, t, caller, u.phase.digest, u.phase.since);
      }
    }
  }

  lemma OwnerHolds(s: System, step: Step, hash: Hash)
    requires Invariant(s, hash)
    ensures var t := Next(s, step, hash);
            step.caller in t.uploads ==> UploadHolds(t, step.caller, hash)
  {
    hide Invariant, UploadHolds, WriteStep, StoreStep, StopStep, DeleteStep;
    match step
    case Begin(_, _) => WriterHolds(s, step, hash);
    case WriteChunk(_, _) => WriterHolds(s, step, hash);
    case EndOfStream(_) => WriterHolds(s, step, hash);
    case LookUp(_) => StorerHolds(s, step, hash);
    case Discard(_) => StorerHolds(s, step, hash);
    case MoveIn(_) => StorerHolds(s, step, hash);
    case Fail(_) => StopperHolds(s, step, hash);
    case Crash(_) => StopperHolds(s, step, hash);
    case LookToDelete(_, _) => DeleterHolds(s, step, hash);
    case Unlink(_) => DeleterHolds(s, step, hash);
  }

  lemma BlobsHold(s: System, step: Step, hash: Hash)
    requires Invariant(s, hash)
    ensures var t := Next(s, step, hash);
            forall digest :: digest in t.blobs ==> BlobHolds(t, digest, hash)
  {
    var t, caller := Next(s, step, hash), step.caller;
    forall digest | digest in t.blobs ensures BlobHolds(t, digest, hash) {
      if digest in s.blobs && t.blobs[digest] == s.blobs[digest] {
        var c: nat :| c in s.uploads && s.uploads[c].phase.Finished? && s.uploads[c].source == s.blobs[digest];
        assert t.uploads[c] == s.uploads[c];
      } else {
        assert step.MoveIn? && t.uploads[caller].phase.Finished? && t.uploads[caller].source == t.blobs[digest];
      }
    }
  }

  lemma NextKeepsInvariant(s: System, step: Step, hash: Hash)
    requires Invariant(s, hash)
    ensures Invariant(Next(s, step, hash), hash)
  {
    var t := Next(s, step, hash);
    NextLeavesOthers(s, step, hash);
    OwnerHolds(s, step, hash);
    BlobsHold(s, step, hash);
    TempsHaveOwners(s, step, hash);
    hide Next, UploadHolds, BlobHolds;
    forall caller | caller in t.uploads ensures UploadHolds(t, caller, hash) {
      if caller != step.caller {
        OthersHold(s, t, step.caller, caller, hash);
      }
    }
  }

  lemma TempsHaveOwners(s: System, step: Step, hash: Hash)
    requires Invariant(s, hash)
    ensures var t := Next(s, step, hash);
            forall caller :: caller in t.temps ==> caller in t.uploads
  {
  }

  lemma {:induction false} RunKeepsInvariant(s: System, steps: seq<Step>, hash: Hash)
    requires Invariant(s, hash)
    ensures Invariant(Run(s, steps, hash), hash)
    decreases |steps|
  {
    hide Next, Invariant;
    if steps != [] {
      NextKeepsInvariant(s, steps[0], hash);
      RunKeepsInvariant(Next(s, steps[0], hash), steps[1..], hash);
    }
  }

  lemma {:induction false} RunAppend(s: System, a: seq<Step>, b: seq<Step>, hash: Hash)
    ensures Run(s, a + b, hash) == Run(Run(s, a, hash), b, hash)
    decreases |a|
  {
    hide Next;
    if a == [] {
      assert a + b == b;
    } else {
      assert (a + b)[0] == a[0] && (a + b)[1..] == a[1..] + b;
      RunAppend(Next(s, a[0], hash), a[1..], b, hash);
    }
  }

  /** Uploads are never forgotten, and a finished one stays finished; the list of deletions only grows. */
  lemma {:induction false} FinishedStays(s: System, steps: seq<Step>, hash: Hash, caller: nat)
    requires caller in s.uploads && s.uploads[caller].phase.Finished?
    ensures caller in Run(s, steps, hash).uploads && Run(s, steps, hash).uploads[caller] == s.uploads[caller]
    decreases |steps|
  {
    if steps != [] {
      assert caller in Next(s, steps[0], hash).uploads && Next(s, steps[0], hash).uploads[caller] == s.uploads[caller];
      hide Next;
      FinishedStays(Next(s, steps[0], hash), steps[1..], hash, caller);
    }
  }

  // ------------------------------------------------------- what callers may rely on

  /**
   In every interleaving, whatever lies at a digest's address hashes to it and is the whole
   stream of some finished upload: never a partial blob, never another's bytes.
   */
  lemma BlobsAreWhole(steps: seq<Step>, hash: Hash, digest: string)
    requires digest in Run(EMPTY, steps, hash).blobs
    ensures BlobHolds(Run(EMPTY, steps, hash), digest, hash)
  {
    RunKeepsInvariant(EMPTY, steps, hash);
  }

  /** Another finished put's stream is not this one, and has its digest. */
  ghost predicate CollidesWith(s: System, hash: Hash, source: bytes, other: nat) {
    && other in s.uploads && s.uploads[other].phase.Finished?
    && s.uploads[other].source != source && hash(s.uploads[other].source) == hash(source)
  }

  /**
   A finished put's blob stays readable unless that digest was deleted after the put began. It is
   exactly the bytes put, or the stream of another put that collides with it.
   */
  lemma FinishedPutsStayReadable(steps: seq<Step>, hash: Hash, caller: nat)
    requires caller in Run(EMPTY, steps, hash).uploads && Run(EMPTY, steps, hash).uploads[caller].phase.Finished?
    ensures var s := Run(EMPTY, steps, hash);
            var u := s.uploads[caller];
            && u.phase.digest == hash(u.source) && u.phase.size == |u.source|
            && u.started <= u.phase.since <= |s.deleted|
            && (u.phase.digest in s.blobs || u.phase.digest in s.deleted[u.phase.since..])
            && (u.phase.digest in s.blobs && s.blobs[u.phase.digest] != u.source ==>
                  exists other: nat :: CollidesWith(s, hash, u.source, other)
                                       && s.uploads[other].source == s.blobs[u.phase.digest])
  {
    hide Run;
    RunKeepsInvariant(EMPTY, steps, hash);
    var s := Run(EMPTY, steps, hash);
    var u := s.uploads[caller];
    assert UploadHolds(s, caller, hash);
    if u.phase.digest in s.blobs && s.blobs[u.phase.digest] != u.source {
      assert BlobHolds(s, u.phase.digest, hash);
      var other: nat :| other in s.uploads && s.uploads[other].phase.Finished?
                        && s.uploads[other].source == s.blobs[u.phase.digest];
      assert CollidesWith(s, hash, u.source, other);
    }
  }

  /** With nothing deleted from the moment a put found or stored its blob, it is readable after any further steps. */
  lemma NothingDeletedNothingLost(before: seq<Step>, after: seq<Step>, hash: Hash, caller: nat)
    requires var s := Run(EMPTY, before, hash);
             && caller in s.uploads && s.uploads[caller].phase.Finished?
             && s.uploads[caller].phase.since == |Run(EMPTY, before + after, hash).deleted|
    ensures hash(Run(EMPTY, before, hash).uploads[caller].source) in Run(EMPTY, before + after, hash).blobs
  {
    hide Run;
    RunAppend(EMPTY, before, after, hash);
    FinishedStays(Run(EMPTY, before, hash), after, hash, caller);
    FinishedPutsStayReadable(before + after, hash, caller);
  }

  /** Uploads that are over leave no temporary file; only a crash does. */
  lemma OnlyCrashesLeaveTemps(steps: seq<Step>, hash: Hash, caller: nat)
    requires caller in Run(EMPTY, steps, hash).temps
    ensures var s := Run(EMPTY, steps, hash);
            caller in s.uploads && (Running(s.uploads[caller].phase) || s.uploads[caller].phase.Crashed?)
  {
    RunKeepsInvariant(EMPTY, steps, hash);
    var s := Run(EMPTY, steps, hash);
    hide Run;
    assert UploadHolds(s, caller, hash);
  }
}
