/**
  The LFS converter, `convertLfsTask`: where the blob is staged and cached,
  and the pointer text that replaces it.  The SHA-256 digest is given as its
  hex string; the HTTP upload is not part of this model.
*/
module Lfs {
  import opened Objects
  import opened Wrappers
  import opened Store
  import opened Text

  const PointerVersion: string := "version https://git-lfs.github.com/spec/v1\n"
  const OidPrefix: string := "oid sha256:"
  const SizePrefix: string := "size "

  predicate IsHexDigit(c: char)
  {
    '0' <= c <= '9' || 'a' <= c <= 'f'
  }

  /** What `Hex.encodeHex(digest, true)` gives for a SHA-256 digest: 64 lower-case hex digits. */
  predicate IsSha256Hex(h: string)
  {
    |h| == 64 && forall i :: 0 <= i < |h| ==> IsHexDigit(h[i])
  }

  predicate IsDigit(c: char)
  {
    '0' <= c <= '9'
  }

  predicate AllDigits(s: string)
  {
    forall i :: 0 <= i < |s| ==> IsDigit(s[i])
  }

  function DigitChar(d: nat): (c: char)
    requires d < 10
    ensures IsDigit(c)
  {
    ('0' as int + d) as char
  }

  /** The decimal form a `long` size takes in string concatenation. */
  function DecimalString(n: nat): (s: string)
    ensures |s| > 0 && AllDigits(s)
  {
    if n < 10 then [DigitChar(n)] else DecimalString(n / 10) + [DigitChar(n % 10)]
  }

  /** The number a string of decimal digits denotes. */
  function DecimalValue(s: string): nat
    requires AllDigits(s)
  {
    if s == [] then 0 else DecimalValue(s[..|s| - 1]) * 10 + (s[|s| - 1] as int - '0' as int)
  }

  lemma {:induction false} DecimalRoundTrip(n: nat)
    ensures DecimalValue(DecimalString(n)) == n
  {
    if n >= 10 {
      DecimalRoundTrip(n / 10);
      var s := DecimalString(n);
      assert s[..|s| - 1] == DecimalString(n / 10);
    }
  }

  /** The pointer file that replaces the blob's content. */
  function Pointer(hash: string, size: nat): (p: string)
    ensures |p| > |PointerVersion| + |OidPrefix| + |hash|
    ensures p[..|PointerVersion| + |OidPrefix|] == PointerVersion + OidPrefix
    ensures p[|PointerVersion| + |OidPrefix|..|PointerVersion| + |OidPrefix| + |hash|] == hash
    ensures p[|p| - 1] == '\n'
  {
    PointerVersion + OidPrefix + hash + "\n" + SizePrefix + DecimalString(size) + "\n"
  }

  /** Reads a pointer back: the partner of `Pointer`. */
  function ParsePointer(text: string): Option<(string, nat)>
  {
    var head := PointerVersion + OidPrefix;
    var sizeLine := "\n" + SizePrefix;
    var n := |head| + 64 + |sizeLine|;
    if |text| < n + 2 || text[..|head|] != head || text[|head| + 64..n] != sizeLine || text[|text| - 1] != '\n' then None
    else
      var hash := text[|head|..|head| + 64];
      var digits := text[n..|text| - 1];
      if IsSha256Hex(hash) && AllDigits(digits) then Some((hash, DecimalValue(digits))) else None
  }

  /** A pointer records exactly the hash and size it was written for. */
  lemma PointerRoundTrip(hash: string, size: nat)
    requires IsSha256Hex(hash)
    ensures ParsePointer(Pointer(hash, size)) == Some((hash, size))
  {
    var text := Pointer(hash, size);
    var head := PointerVersion + OidPrefix;
    var sizeLine := "\n" + SizePrefix;
    var digits := DecimalString(size);
    assert text == head + hash + sizeLine + digits + "\n";
    var n := |head| + 64 + |sizeLine|;
    assert text[..|head|] == head;
    assert text[|head|..|head| + 64] == hash;
    assert text[|head| + 64..n] == sizeLine;
    assert text[n..|text| - 1] == digits;
    DecimalRoundTrip(size);
  }

  /** The pointer is ASCII, so its UTF-8 bytes are its characters. */
  lemma PointerIsAscii(hash: string, size: nat)
    requires IsSha256Hex(hash)
    ensures IsAscii(Pointer(hash, size))
    ensures |Utf8(Pointer(hash, size))| == |Pointer(hash, size)|
  {
    var digits := DecimalString(size);
    assert IsAscii(PointerVersion + OidPrefix);
    assert IsAscii(hash);
    assert IsAscii("\n" + SizePrefix);
    assert IsAscii(digits);
    AsciiConcat(PointerVersion + OidPrefix, hash);
    AsciiConcat(PointerVersion + OidPrefix + hash, "\n" + SizePrefix);
    AsciiConcat(PointerVersion + OidPrefix + hash + ("\n" + SizePrefix), digits);
    AsciiConcat(PointerVersion + OidPrefix + hash + ("\n" + SizePrefix) + digits, "\n");
    assert Pointer(hash, size) == PointerVersion + OidPrefix + hash + ("\n" + SizePrefix) + digits + "\n";
    Utf8OfAscii(Pointer(hash, size));
  }

  /** The blob inserted in place of the content. */
  function PointerBlob(hash: string, size: nat): GitObject
  {
    BlobObject(Utf8(Pointer(hash, size)))
  }

  /** The staging file, named after the source blob's id. */
  function TmpPath(id: ObjectId): (p: string)
    ensures |p| == 8 + |id.name| && p[..8] == "lfs/tmp/" && p[8..] == id.name
  {
    "lfs/tmp/" + id.name
  }

  /** The cache file: two fan-out directories of two hex digits each, then the full hash. */
  function CachePath(hash: string): (p: string)
    requires |hash| >= 4
    ensures |p| == 18 + |hash| && p[..12] == "lfs/objects/" && p[18..] == hash
  {
    "lfs/objects/" + hash[..2] + "/" + hash[2..4] + "/" + hash
  }

  /** Reads the hash back from a cache path: the partner of `CachePath`. */
  function CachedHash(path: string): string
  {
    if |path| < 18 then "" else path[18..]
  }

  lemma CachePathRoundTrip(hash: string)
    requires |hash| >= 4
    ensures CachedHash(CachePath(hash)) == hash
    ensures CachePath(hash)[12..14] == hash[..2] && CachePath(hash)[15..17] == hash[2..4]
  {
    var p := CachePath(hash);
    assert p == "lfs/objects/" + hash[..2] + "/" + hash[2..4] + "/" + hash;
    assert p[18..] == hash;
  }

  /** Different contents are cached in different files. */
  lemma CachePathInjective(h1: string, h2: string)
    requires |h1| >= 4 && |h2| >= 4 && CachePath(h1) == CachePath(h2)
    ensures h1 == h2
  {
    CachePathRoundTrip(h1);
    CachePathRoundTrip(h2);
  }

  /** Different source blobs are staged in different files. */
  lemma TmpPathInjective(id1: ObjectId, id2: ObjectId)
    requires TmpPath(id1) == TmpPath(id2)
    ensures id1 == id2
  {
    assert id1.name == TmpPath(id1)[8..];
    assert id2.name == TmpPath(id2)[8..];
  }

  /** The staging file is never the cache file, so deleting it never touches the cache. */
  lemma TmpIsNotCache(id: ObjectId, hash: string)
    requires |hash| >= 4
    ensures TmpPath(id) != CachePath(hash)
  {
    assert TmpPath(id)[4] == 't';
    assert CachePath(hash)[4] == 'o';
  }

  /** The files after a successful staging step: keep an existing cache file, else move the staging file there. */
  function Staged(files: map<string, seq<byte>>, tmp: string, cache: string): (r: map<string, seq<byte>>)
    requires tmp in files
    ensures tmp != cache ==> r.Keys == files.Keys - {tmp} + {cache}
    ensures tmp != cache ==> r[cache] == if cache in files then files[cache] else files[tmp]
  {
    if cache in files then files - {tmp} else (files - {tmp})[cache := files[tmp]]
  }

  /**
    After staging the cache file exists, the staging file is gone, an
    existing cache file is untouched, and no other file changes.
  */
  lemma StagingOutcome(files: map<string, seq<byte>>, tmp: string, cache: string, other: string)
    requires tmp in files && tmp != cache
    ensures var r := Staged(files, tmp, cache);
            cache in r && tmp !in r &&
            r[cache] == (if cache in files then files[cache] else files[tmp]) &&
            (other != tmp && other != cache ==> (other in r <==> other in files) &&
                                                (other in files ==> r[other] == files[other]))
  {
  }

  /** Staging the same content again leaves the files exactly as the first staging did. */
  lemma StagingIdempotent(files: map<string, seq<byte>>, tmp: string, cache: string, data: seq<byte>)
    requires tmp != cache
    ensures var once := Staged(files[tmp := data], tmp, cache);
            Staged(once[tmp := data], tmp, cache) == once
  {
    var once := Staged(files[tmp := data], tmp, cache);
    assert cache in once;
    assert (once[tmp := data]) - {tmp} == once;
  }

  /**
    The LFS converter's `convert`: copy the blob to its staging file,
    upload it, move it into the cache unless the cache already has it, and
    insert the pointer.  `hash` is the SHA-256 of the blob's bytes;
    `uploaded` is the outcome of the exchange with the LFS server (true
    when no server is configured, the server already has the object, or
    the upload completed).
  */
  method ConvertLfs(dst: Repository, src: map<ObjectId, GitObject>, id: ObjectId, hash: string, uploaded: bool)
    returns (r: Result<ObjectId, Error>)
    requires IsSha256Hex(hash)
    modifies dst
    ensures id !in src ==> r == Failure(MissingObject(id)) && unchanged(dst)
    ensures id in src && !src[id].BlobObject? ==> r == Failure(IncorrectObjectType(id)) && unchanged(dst)
    ensures id in src && src[id].BlobObject? && !uploaded ==>
              r == Failure(UploadFailed(hash)) &&
              dst.files == old(dst.files)[TmpPath(id) := src[id].data] && dst.objects == old(dst.objects)
    ensures id in src && src[id].BlobObject? && uploaded ==>
              var written := old(dst.files)[TmpPath(id) := src[id].data];
              var pointer := PointerBlob(hash, |src[id].data|);
              (r.Failure? ==>
                 r.error == RenameFailed(TmpPath(id), CachePath(hash)) && CachePath(hash) !in old(dst.files) &&
                 dst.files == written && dst.objects == old(dst.objects)) &&
              (r.Success? ==>
                 dst.files == Staged(written, TmpPath(id), CachePath(hash)) &&
                 r.value == dst.hashOf(pointer) && dst.objects == old(dst.objects)[r.value := pointer])
  {
    if id !in src {
      return Failure(MissingObject(id));
    }
    if !src[id].BlobObject? {
      return Failure(IncorrectObjectType(id));
    }
    var data := src[id].data;
    var tmpFile := TmpPath(id);
    dst.WriteFile(tmpFile, data);
    if !uploaded {
      return Failure(UploadFailed(hash));
    }
    var lfsFile := CachePath(hash);
    TmpIsNotCache(id, hash);
    if lfsFile in dst.files {
      dst.DeleteFile(tmpFile);
    } else {
      var renamed := dst.RenameFile(tmpFile, lfsFile);
      if !renamed {
        return Failure(RenameFailed(tmpFile, lfsFile));
      }
    }
    var newId := dst.Insert(PointerBlob(hash, |data|));
    r := Success(newId);
  }
}
