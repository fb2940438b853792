/** Blobs on disk under the SHA-256 of their bytes, one caller at a time. */
module Storage {
  import opened Wrappers
  import opened Bytes
  import opened Texts

  /** How much is read or written at a time. */
  const CHUNK: nat := 1024 * 1024

  datatype StorageError = NotADigest | NotFound | NegativeSeek

  /** SHA-256 in hexadecimal. */
  type Hash = bytes -> string

  predicate IsHex(c: char) {
    '0' <= c <= '9' || 'a' <= c <= 'f'
  }

  predicate IsDigest(s: string) {
    |s| == 64 && forall i :: 0 <= i < |s| ==> IsHex(s[i])
  }

  /** The path components below the storage root. */
  type Address = seq<string>

  /** `_path` */
  function PathOf(digest: string): Result<Address, StorageError> {
    var lower := LowerAll(digest);
    if !IsDigest(lower) then Err(NotADigest) else Ok([lower[..2], lower[2..4], lower])
  }

  /** Two digests share a file exactly when they spell the same digest; no path leaves the root. */
  lemma PathsAreDigests(a: string, b: string)
    requires PathOf(a).Ok? && PathOf(b).Ok?
    ensures PathOf(a) == PathOf(b) <==> LowerAll(a) == LowerAll(b)
    ensures forall i, j :: 0 <= i < 3 && 0 <= j < |PathOf(a).value[i]| ==> IsHex(PathOf(a).value[i][j])
    ensures forall i :: 0 <= i < 3 ==> PathOf(a).value[i] != ""
  {
    assert PathOf(a).value[2] == LowerAll(a) && PathOf(b).value[2] == LowerAll(b);
  }

  predicate IsHexDigit(c: char) {
    '0' <= c <= '9' || c in "abcdef" || c in "ABCDEF"
  }

  /** The small letter for a capital one. */
  predicate IsSmallFor(given: char, stored: char) {
    if given in "ABCDEF" then stored as int == given as int + 32 else stored == given
  }

  lemma SmallDigit(c: char)
    ensures IsHex(Lower(c)) <==> IsHexDigit(c)
    ensures IsHexDigit(c) ==> IsSmallFor(c, Lower(c))
  {
  }

  /** An address is 64 hexadecimal digits made small, in folders of the first two and the next two of them. */
  lemma AddressesAre(digest: string)
    ensures PathOf(digest).Ok? <==> |digest| == 64 && forall i :: 0 <= i < 64 ==> IsHexDigit(digest[i])
    ensures PathOf(digest).Ok? ==>
              var a := PathOf(digest).value;
              && |a| == 3 && |a[2]| == 64 && a[0] == a[2][..2] && a[1] == a[2][2..4]
              && forall i :: 0 <= i < 64 ==> IsSmallFor(digest[i], a[2][i])
  {
    forall i | 0 <= i < |digest|
      ensures IsHex(LowerAll(digest)[i]) <==> IsHexDigit(digest[i])
      ensures IsHexDigit(digest[i]) ==> IsSmallFor(digest[i], LowerAll(digest)[i])
    {
      SmallDigit(digest[i]);
    }
    hide IsHex, LowerAll, IsHexDigit, IsSmallFor;
  }

  /** What SHA-256's hexadecimal form always is. */
  ghost predicate GivesDigests(hash: Hash) {
    forall data :: IsDigest(hash(data))
  }

  function AddressOf(digest: string): Address
    requires IsDigest(digest)
  {
    [digest[..2], digest[2..4], digest]
  }

  lemma DigestIsItsPath(digest: string)
    requires IsDigest(digest)
    ensures PathOf(digest) == Ok(AddressOf(digest))
  {
    forall i | 0 <= i < |digest| ensures Lower(digest[i]) == digest[i] {
      assert IsHex(digest[i]);
    }
    assert LowerAll(digest) == digest;
  }

  /** Every file lies at the address of its own digest. */
  ghost predicate ContentAddressed(files: map<Address, bytes>, hash: Hash) {
    forall a :: a in files ==> IsDigest(hash(files[a])) && a == AddressOf(hash(files[a]))
  }

  /** The whole of a blob in chunks. */
  predicate AreChunksOf(chunks: seq<bytes>, data: bytes) {
    && Flatten(chunks) == data
    && (forall i :: 0 <= i < |chunks| ==> 1 <= |chunks[i]| <= 1024 * 1024)
    && (forall i :: 0 <= i < |chunks| - 1 ==> |chunks[i]| == 1024 * 1024)
  }

  function Clip(i: int, data: bytes): nat {
    if i < 0 then 0 else if i > |data| then |data| else i
  }

  /** Bytes `start` to `end` inclusive, as far as there are any. */
  function Range(data: bytes, start: nat, end: int): bytes {
    if end < start then [] else data[Clip(start, data)..Clip(end + 1, data)]
  }

  /** Exactly the bytes at `start` to `end` that there are. */
  lemma RangeMeans(data: bytes, start: nat, end: int)
    ensures var r := Range(data, start, end);
            && |r| == (if end < start || start >= |data| then 0
                       else if end < |data| then end - start + 1 else |data| - start)
            && (forall k :: 0 <= k < |r| ==> r[k] == data[start + k])
  {
  }

  lemma ChunksSnoc(chunks: seq<bytes>, data: bytes, from: nat, to: nat)
    requires from < to <= |data| && to - from <= CHUNK
    requires AreChunksOf(chunks, data[..from]) && forall i :: 0 <= i < |chunks| ==> |chunks[i]| == CHUNK
    ensures AreChunksOf(chunks + [data[from..to]], data[..to])
  {
    FlattenSnoc(chunks, data[from..to]);
    assert data[..from] + data[from..to] == data[..to];
  }

  class LocalArtifactStorage {
    const hash: Hash
    var files: map<Address, bytes>
    var temps: map<nat, bytes>
    var nextTemp: nat

    ghost predicate Valid()
      reads this
    {
      GivesDigests(hash) && ContentAddressed(files, hash) && forall t :: t in temps ==> t < nextTemp
    }

    constructor (hash: Hash)
      requires GivesDigests(hash)
      ensures Valid() && this.hash == hash && files == map[] && temps == map[]
    {
      this.hash := hash;
      files, temps, nextTemp := map[], map[], 0;
    }

    /** `put`, of a stream that can be read to its end. */
    method Put(source: bytes) returns (digest: string, size: nat)
      requires Valid()
      modifies this
      ensures Valid()
      ensures digest == hash(source) && size == |source|
      ensures var a := AddressOf(digest);
              files == if a in old(files) then old(files) else old(files)[a := source]
      ensures temps == old(temps)
    {
      var temp := nextTemp;
      nextTemp := nextTemp + 1;
      temps := temps[temp := []];
      var hashed: bytes := [];
      size := 0;
      var position := 0;
      while position < |source|
        invariant position <= |source| && size == position && hashed == source[..position]
        invariant temps == old(temps)[temp := source[..position]]
        invariant files == old(files) && nextTemp == old(nextTemp) + 1
      {
        var end := if position + CHUNK <= |source| then position + CHUNK else |source|;
        var chunk := source[position..end];
        assert source[..position] + chunk == source[..end];
        hashed := hashed + chunk;
        size := size + |chunk|;
        temps := temps[temp := temps[temp] + chunk];
        position := end;
      }
      assert source[..|source|] == source;
      digest := hash(hashed);
      assert IsDigest(digest);
      DigestIsItsPath(digest);
      var destination := PathOf(digest);
      if destination.value !in files {
        files := files[destination.value := temps[temp]];
      }
      temps := temps - {temp};
    }

    /** `open`: the handle's bytes. */
    method Open(digest: string) returns (r: Result<bytes, StorageError>)
      requires Valid()
      ensures PathOf(digest).Err? ==> r == Err(NotADigest)
      ensures PathOf(digest).Ok? && PathOf(digest).value !in files ==> r == Err(NotFound)
      ensures PathOf(digest).Ok? && PathOf(digest).value in files ==>
                r == Ok(files[PathOf(digest).value]) && hash(r.value) == LowerAll(digest)
    {
      var path := PathOf(digest);
      if path.Err? {
        return Err(path.error);
      }
      if path.value !in files {
        return Err(NotFound);
      }
      assert path.value[2] == LowerAll(digest) && AddressOf(hash(files[path.value]))[2] == hash(files[path.value]);
      return Ok(files[path.value]);
    }

    /** A blob hashes to the digest exactly when it lies at the digest's address. */
    lemma BlobsWith(digest: string)
      requires Valid()
      ensures forall a :: a in files && hash(files[a]) == LowerAll(digest) <==> PathOf(digest) == Ok(a) && a in files
    {
      forall a | a in files ensures hash(files[a]) == LowerAll(digest) <==> PathOf(digest) == Ok(a) {
        assert a == AddressOf(hash(files[a])) && a[2] == hash(files[a]);
      }
    }

    /** `exists`: whether some blob hashes to the digest, in whatever case its letters are. */
    method Exists(digest: string) returns (there: bool)
      requires Valid()
      ensures there <==> exists a :: a in files && hash(files[a]) == LowerAll(digest)
    {
      BlobsWith(digest);
      var path := PathOf(digest);
      there := path.Ok? && path.value in files;
    }

    /** `size`: the length of every blob that hashes to the digest; an error exactly when there is none. */
    method Size(digest: string) returns (r: Result<nat, StorageError>)
      requires Valid()
      ensures forall a :: a in files && hash(files[a]) == LowerAll(digest) ==> r == Ok(|files[a]|)
      ensures r.Ok? ==> exists a :: a in files && hash(files[a]) == LowerAll(digest)
      ensures r.Err? ==> r.error == if IsDigest(LowerAll(digest)) then NotFound else NotADigest
    {
      BlobsWith(digest);
      var path := PathOf(digest);
      if path.Err? {
        return Err(path.error);
      }
      if path.value !in files {
        return Err(NotFound);
      }
      return Ok(|files[path.value]|);
    }

    /** `delete` */
    method Delete(digest: string) returns (r: Result<bool, StorageError>)
      requires Valid()
      modifies this`files
      ensures Valid()
      ensures PathOf(digest).Err? ==> r == Err(NotADigest) && files == old(files)
      ensures PathOf(digest).Ok? ==>
                r == Ok(PathOf(digest).value in old(files)) && files == old(files) - {PathOf(digest).value}
    {
      var path := PathOf(digest);
      if path.Err? {
        return Err(path.error);
      }
      if path.value !in files {
        assert files - {path.value} == files;
        return Ok(false);
      }
      files := files - {path.value};
      return Ok(true);
    }

    /** `read_all` */
    method ReadAll(digest: string) returns (r: Result<seq<bytes>, StorageError>)
      requires Valid()
      ensures PathOf(digest).Err? ==> r == Err(NotADigest)
      ensures PathOf(digest).Ok? && PathOf(digest).value !in files ==> r == Err(NotFound)
      ensures PathOf(digest).Ok? && PathOf(digest).value in files ==>
                r.Ok? && AreChunksOf(r.value, files[PathOf(digest).value])
    {
      hide IsDigest, Flatten;
      var handle := Open(digest);
      if handle.Err? {
        return Err(handle.error);
      }
      var data := handle.value;
      var chunks: seq<bytes> := [];
      var position := 0;
      assert AreChunksOf([], data[..0]) by { NoChunks(data); }
      while position < |data|
        invariant position <= |data| && AreChunksOf(chunks, data[..position])
        invariant position < |data| ==> forall i :: 0 <= i < |chunks| ==> |chunks[i]| == CHUNK
      {
        var end := if position + CHUNK <= |data| then position + CHUNK else |data|;
        ChunksSnoc(chunks, data, position, end);
        chunks := chunks + [data[position..end]];
        position := end;
      }
      assert data[..|data|] == data;
      return Ok(chunks);
    }

    /** `read_range`: what the generator yields; a negative start cannot be sought. */
    method ReadRange(digest: string, start: int, end: int) returns (r: Result<seq<bytes>, StorageError>)
      requires Valid()
      ensures PathOf(digest).Err? ==> r == Err(NotADigest)
      ensures PathOf(digest).Ok? && PathOf(digest).value !in files ==> r == Err(NotFound)
      ensures PathOf(digest).Ok? && PathOf(digest).value in files ==>
                if start < 0 then r == Err(NegativeSeek)
                else r.Ok? && AreChunksOf(r.value, Range(files[PathOf(digest).value], start, end))
    {
      hide IsDigest, Flatten;
      var remaining := end - start + 1;
      var handle := Open(digest);
      if handle.Err? {
        return Err(handle.error);
      }
      if start < 0 {
        return Err(NegativeSeek);
      }
      var data := handle.value;
      ghost var wanted := Range(data, start, end);
      var chunks: seq<bytes> := [];
      var position := start;
      assert AreChunksOf([], wanted[..0]) by { NoChunks(wanted); }
      ghost var done := 0;
      while remaining > 0
        invariant position >= start && done == position - start && remaining == end + 1 - position
        invariant done > 0 ==> position <= |data|
        invariant done <= |wanted| && AreChunksOf(chunks, wanted[..done])
        invariant remaining > 0 && position < |data| ==> forall i :: 0 <= i < |chunks| ==> |chunks[i]| == CHUNK
        decreases remaining
      {
        var want := if CHUNK <= remaining then CHUNK else remaining;
        var from := if position <= |data| then position else |data|;
        var chunk := data[from..if from + want <= |data| then from + want else |data|];
        if chunk == [] {
          break;
        }
        RangePiece(data, start, end, done, |chunk|);
        ChunksSnoc(chunks, wanted, done, done + |chunk|);
        remaining := remaining - |chunk|;
        chunks := chunks + [chunk];
        position := position + |chunk|;
        done := done + |chunk|;
      }
      assert wanted[..|wanted|] == wanted;
      return Ok(chunks);
    }
  }

  lemma RangePiece(data: bytes, start: nat, end: int, done: nat, count: nat)
    requires start + done + count <= |data| && start + done + count <= end + 1 && count > 0
    ensures done + count <= |Range(data, start, end)|
    ensures Range(data, start, end)[done..done + count] == data[start + done..start + done + count]
  {
  }

  lemma NoChunks(data: bytes)
    ensures AreChunksOf([], data[..0])
  {
  }
}
