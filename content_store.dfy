/** The raw artifact directory and `download_if_new` (scripts/isp_bot.py): a fetched file is
    stored under `{stamp}__{first ten digest characters}__{filename}` unless some stored name
    already ends with `__{first ten digest characters}__{filename}`. The HTTP response, the
    SHA-256 hex digest and the UTC stamp are inputs. */
module ContentStore {
  import opened Outcomes
  import opened Text

  type Bytes = seq<bv8>

  /** The contents of the raw directory: file name to file bytes. */
  type Directory = map<string, Bytes>

  /** `h[:10]` of the hex digest. */
  function Fingerprint(hexDigest: string): (fp: string)
    ensures StartsWith(hexDigest, fp)
    ensures |fp| == if |hexDigest| < 10 then |hexDigest| else 10
  {
    if |hexDigest| <= 10 then hexDigest else hexDigest[..10]
  }

  /** What the glob `*__{fp}__{filename}` asks a stored name to end with. */
  function DedupKey(fp: string, filename: string): string
  {
    "__" + fp + "__" + filename
  }

  /** The name of a new artifact, `{stamp}__{fp}__{filename}`. */
  function ArtifactName(stamp: string, fp: string, filename: string): string
  {
    stamp + DedupKey(fp, filename)
  }

  /** The glob at the dedup check finds something. */
  predicate HasArtifact(dir: Directory, key: string)
  {
    exists name :: name in dir && EndsWith(name, key)
  }

  /** What one call leaves behind: the name it returns (None for a skip) and the directory. */
  datatype Stored = Stored(saved: Option<string>, dir: Directory)

  /** The dedup decision and write of `download_if_new` once the content is in hand. */
  function Store(dir: Directory, filename: string, fp: string, stamp: string, content: Bytes): Stored
  {
    if HasArtifact(dir, DedupKey(fp, filename)) then Stored(None, dir)
    else
      var name := ArtifactName(stamp, fp, filename);
      Stored(Some(name), dir[name := content])
  }

  /** The name of a new artifact is itself caught by its own dedup glob. */
  lemma ArtifactNameHasKey(stamp: string, fp: string, filename: string)
    ensures EndsWith(ArtifactName(stamp, fp, filename), DedupKey(fp, filename))
  {
    var name, key := ArtifactName(stamp, fp, filename), DedupKey(fp, filename);
    assert name[|name| - |key|..] == key;
  }

  /** When a stored name already ends with the key, nothing is written and nothing returned. */
  lemma StoreSkips(dir: Directory, filename: string, fp: string, stamp: string, content: Bytes)
    requires exists name :: name in dir && EndsWith(name, DedupKey(fp, filename))
    ensures Store(dir, filename, fp, stamp, content) == Stored(None, dir)
  {
  }

  /** Otherwise exactly one name is added, `{stamp}__{fp}__{filename}`, holding the content;
      it is returned, it was not there before, and every other file is unchanged. */
  lemma StoreAdds(dir: Directory, filename: string, fp: string, stamp: string, content: Bytes)
    requires forall name :: name in dir ==> !EndsWith(name, DedupKey(fp, filename))
    ensures var st, name := Store(dir, filename, fp, stamp, content), ArtifactName(stamp, fp, filename);
      && st.saved == Some(name)
      && name !in dir
      && st.dir.Keys == dir.Keys + {name}
      && st.dir[name] == content
      && (forall n :: n in dir ==> st.dir[n] == dir[n])
  {
    ArtifactNameHasKey(stamp, fp, filename);
  }

  /** After any call, the directory holds a name the dedup glob finds, keeps every earlier
      file, and gains at most the returned name. */
  lemma StoreEstablishesKey(dir: Directory, filename: string, fp: string, stamp: string, content: Bytes)
    ensures var st := Store(dir, filename, fp, stamp, content);
      && HasArtifact(st.dir, DedupKey(fp, filename))
      && dir.Keys <= st.dir.Keys
      && (forall n :: n in dir ==> st.dir[n] == dir[n])
      && (st.saved.None? ==> st.dir == dir)
      && (st.saved.Some? ==> st.dir.Keys == dir.Keys + {st.saved.value})
  {
    var name := ArtifactName(stamp, fp, filename);
    ArtifactNameHasKey(stamp, fp, filename);
    if !HasArtifact(dir, DedupKey(fp, filename)) {
      assert name in Store(dir, filename, fp, stamp, content).dir;
    }
  }

  /** Idempotence: a second call for the same file name and digest prefix adds nothing,
      whatever its stamp and content. */
  lemma StoreIdempotent(dir: Directory, filename: string, fp: string, stamp1: string, stamp2: string,
                        content1: Bytes, content2: Bytes)
    ensures var first := Store(dir, filename, fp, stamp1, content1);
      Store(first.dir, filename, fp, stamp2, content2) == Stored(None, first.dir)
  {
    StoreEstablishesKey(dir, filename, fp, stamp1, content1);
  }

  /** Store applied once per stamp, in order, to the same file name and digest prefix. */
  function StoreRepeatedly(dir: Directory, filename: string, fp: string, stamps: seq<string>, content: Bytes): Directory
    decreases |stamps|
  {
    if stamps == [] then dir
    else StoreRepeatedly(Store(dir, filename, fp, stamps[0], content).dir, filename, fp, stamps[1..], content)
  }

  /** Content addressing: however many times the same file is fetched with the same
      content, at most one artifact is added, and none if the glob already found one. */
  lemma {:induction false} StoreRepeatedlyAddsAtMostOne(dir: Directory, filename: string, fp: string,
                                                         stamps: seq<string>, content: Bytes)
    ensures var after := StoreRepeatedly(dir, filename, fp, stamps, content);
      && dir.Keys <= after.Keys
      && |after.Keys - dir.Keys| <= 1
      && (HasArtifact(dir, DedupKey(fp, filename)) ==> after == dir)
  {
    if stamps != [] {
      var first := Store(dir, filename, fp, stamps[0], content).dir;
      StoreEstablishesKey(dir, filename, fp, stamps[0], content);
      SkipsForever(first, filename, fp, stamps[1..], content);
      if !HasArtifact(dir, DedupKey(fp, filename)) {
        var name := ArtifactName(stamps[0], fp, filename);
        assert first.Keys - dir.Keys == {name};
      }
    }
  }

  /** Once the glob finds a name, repeated calls leave the directory as it is. */
  lemma {:induction false} SkipsForever(dir: Directory, filename: string, fp: string, stamps: seq<string>, content: Bytes)
    requires HasArtifact(dir, DedupKey(fp, filename))
    ensures StoreRepeatedly(dir, filename, fp, stamps, content) == dir
  {
    if stamps != [] {
      SkipsForever(dir, filename, fp, stamps[1..], content);
    }
  }

  /** The raw directory, `data/raw`. */
  class RawDir {
    var files: Directory

    constructor (files: Directory)
      ensures this.files == files
    {
      this.files := files;
    }

    /** `download_if_new(url, raw_dir)`, given the HTTP response for `url`, the hex-digest
        function and the stamp: a failed fetch raises and writes nothing; otherwise the
        directory and the returned name are those of Store. */
    method DownloadIfNew(url: string, response: Result<Bytes>, sha256: Bytes -> string, stamp: string)
      returns (r: Result<Option<string>>)
      modifies this
      ensures response.Failure? ==> r == Failure(response.error) && files == old(files)
      ensures response.Success? ==>
        var st := Store(old(files), LastSegment(url), Fingerprint(sha256(response.value)), stamp, response.value);
        r == Success(st.saved) && files == st.dir
    {
      if response.Failure? {
        return Failure(response.error);
      }
      var content := response.value;
      var h := sha256(content);
      var filename := LastSegment(url);
      var target := ArtifactName(stamp, Fingerprint(h), filename);
      var key := DedupKey(Fingerprint(h), filename);
      var existing := exists name :: name in files && EndsWith(name, key);
      if existing {
        return Success(None);
      }
      files := files[target := content];
      return Success(Some(target));
    }
  }
}
