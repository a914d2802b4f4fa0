/** `update_all` (scripts/isp_bot.py): discover the links, download each one if new, normalize
    each new artifact, consolidate every normalized file, and report a summary. The page's
    anchors (or the failure to fetch it), the HTTP responses, the digest, the clock, the CSV
    reader and the read-back of normalized files are parameters. */
module Orchestrator {
  import opened Outcomes
  import opened Text
  import opened LinkDiscovery
  import opened ContentStore
  import opened Normalizer
  import opened Consolidator

  /** The dictionary `update_all` returns. */
  datatype Summary = Summary(foundLinks: nat, downloaded: seq<string>, processed: seq<string>, masterRows: nat)

  /** The HTTP response for each URL: its body, or the error `raise_for_status` or the
      request raises. */
  type Web = string -> Result<Bytes>

  /** The UTC stamp `%Y%m%dT%H%M%SZ` read by the i-th call of `download_if_new`. */
  type Clock = nat -> string

  /** The URLs of the links, in order (`for _, url in links`). */
  function Urls(links: seq<Link>): seq<string>
  {
    seq(|links|, i requires 0 <= i < |links| => links[i].url)
  }

  /** Where the download loop stands: the result of each call made so far, the raw
      directory, and the error that ended the loop, if any. */
  datatype Batch = Batch(results: seq<Option<string>>, dir: Directory, error: Option<string>)

  /** The download loop of `update_all` over `urls`: one `download_if_new` per URL, in
      order, until one raises; the exception is not caught and ends the run. */
  function DownloadRun(dir: Directory, urls: seq<string>, web: Web, sha256: Bytes -> string, clock: Clock): Batch
    decreases |urls|
  {
    if urls == [] then Batch([], dir, None)
    else
      var b := DownloadRun(dir, urls[..|urls| - 1], web, sha256, clock);
      if b.error.Some? then b
      else
        var url := urls[|urls| - 1];
        match web(url)
        case Failure(e) => Batch(b.results, b.dir, Some(e))
        case Success(content) =>
          var st := Store(b.dir, LastSegment(url), Fingerprint(sha256(content)), clock(|urls| - 1), content);
          Batch(b.results + [st.saved], st.dir, None)
  }

  /** The dedup key `download_if_new` uses for a URL whose fetch succeeds. */
  function KeyOf(url: string, web: Web, sha256: Bytes -> string): string
    requires web(url).Success?
  {
    DedupKey(Fingerprint(sha256(web(url).value)), LastSegment(url))
  }

  /** Where the processing loop stands: the normalized names so far and the processed
      directory. */
  datatype Processing = Processing(outs: seq<string>, dir: map<string, Table>)

  /** Whether `process_csv` succeeds on the raw artifact `name` (a missing file parses under
      no attempt). */
  predicate Recovers(raw: Directory, name: string, parse: Parser)
  {
    name in raw && Recover(parse, raw[name]).Some?
  }

  /** The processing loop of `update_all`: `process_csv` on each downloaded artifact, in
      order; a failure is logged and skipped. */
  function ProcessRun(dir: map<string, Table>, names: seq<string>, raw: Directory, parse: Parser): Processing
  {
    if names == [] then Processing([], dir)
    else
      var pr := ProcessRun(dir, names[..|names| - 1], raw, parse);
      var name := names[|names| - 1];
      if Recovers(raw, name, parse) then
        var out := NormalizedName(name);
        Processing(pr.outs + [out], pr.dir[out := Normalize(Recover(parse, raw[name]).value)])
      else pr
  }

  /** What each `process_csv` call of the loop returns: its normalized name, or None where
      it raises. */
  function ProcessOutcomes(names: seq<string>, raw: Directory, parse: Parser): seq<Option<string>>
  {
    seq(|names|, i requires 0 <= i < |names| =>
      if Recovers(raw, names[i], parse) then Some(NormalizedName(names[i])) else None)
  }

  /** `update_all(base_dir)` on the raw and processed directories. A failed page fetch or a
      failed artifact fetch raises out of it; the artifacts stored before that failure stay. */
  method UpdateAll(raw: RawDir, processed: ProcessedDir, page: Result<seq<Anchor>>, join: string -> string,
                   web: Web, sha256: Bytes -> string, clock: Clock, parse: Parser, read: Reader)
    returns (r: Result<Summary>)
    modifies raw, processed
    ensures page.Failure? ==>
      r == Failure(page.error) && raw.files == old(raw.files) && processed.files == old(processed.files)
    ensures page.Success? ==>
      var links := CsvLinks(page.value, join);
      var b := DownloadRun(old(raw.files), Urls(links), web, sha256, clock);
      && raw.files == b.dir
      && (b.error.Some? ==> r == Failure(b.error.value) && processed.files == old(processed.files))
      && (b.error.None? ==>
            var pr := ProcessRun(old(processed.files), Somes(b.results), b.dir, parse);
            && processed.files == pr.dir
            && r == Success(Summary(|links|, Somes(b.results), pr.outs, RowTotal(NormalizedFiles(pr.dir), read))))
    ensures r.Success? ==> |r.value.processed| <= |r.value.downloaded| <= r.value.foundLinks
  {
    if page.Failure? {
      return Failure(page.error);
    }
    var links := ListCsvLinks(page.value, join);
    ghost var raw0 := raw.files;
    var downloaded := DownloadAll(raw, links, web, sha256, clock);
    if downloaded.Failure? {
      return Failure(downloaded.error);
    }
    ghost var b := DownloadRun(raw0, Urls(links), web, sha256, clock);
    DownloadRunFacts(raw0, Urls(links), web, sha256, clock);
    var processedNames := ProcessAll(processed, raw.files, downloaded.value, parse);
    ProcessRunFacts(old(processed.files), downloaded.value, raw.files, parse);

    var listing := ListNormalized(processed.files);
    var master := Consolidate(listing, read);
    MasterRowsAnyOrder(listing, NormalizedFiles(processed.files), read);
    if master.None? {
      FramesEmpty(listing, read);
    }
    SomesProperties(b.results);
    DownloadRunLength(raw0, Urls(links), web, sha256, clock);
    r := Success(Summary(|links|, downloaded.value, processedNames, MasterRows(master)));
  }

  /** The download loop of `update_all`: the names of the new artifacts, in link order, or
      the error of the first fetch that fails, which the loop does not catch. */
  method DownloadAll(raw: RawDir, links: seq<Link>, web: Web, sha256: Bytes -> string, clock: Clock)
    returns (r: Result<seq<string>>)
    modifies raw
    ensures var b := DownloadRun(old(raw.files), Urls(links), web, sha256, clock);
      && raw.files == b.dir
      && r == if b.error.Some? then Failure(b.error.value) else Success(Somes(b.results))
  {
    ghost var urls := Urls(links);
    ghost var raw0 := raw.files;
    var downloaded: seq<string> := [];
    var i := 0;
    while i < |links|
      invariant 0 <= i <= |links|
      invariant DownloadRun(raw0, urls[..i], web, sha256, clock).error.None?
      invariant raw.files == DownloadRun(raw0, urls[..i], web, sha256, clock).dir
      invariant downloaded == Somes(DownloadRun(raw0, urls[..i], web, sha256, clock).results)
    {
      ghost var before := DownloadRun(raw0, urls[..i], web, sha256, clock);
      DownloadRunStep(raw0, urls, i, web, sha256, clock);
      var url := links[i].url;
      var p := raw.DownloadIfNew(url, web(url), sha256, clock(i));
      if p.Failure? {
        ErrorSticks(raw0, urls, i + 1, web, sha256, clock);
        return Failure(p.error);
      }
      SomesSnoc(before.results, p.value);
      if p.value.Some? {
        downloaded := downloaded + [p.value.value];
      }
      i := i + 1;
    }
    assert urls[..i] == urls;
    return Success(downloaded);
  }

  /** The processing loop of `update_all`: `process_csv` on each downloaded artifact, whose
      bytes are in `rawFiles`; the names of the calls that succeed, in order. */
  method ProcessAll(processed: ProcessedDir, rawFiles: Directory, names: seq<string>, parse: Parser)
    returns (outs: seq<string>)
    requires forall n :: n in names ==> n in rawFiles
    modifies processed
    ensures var pr := ProcessRun(old(processed.files), names, rawFiles, parse);
      outs == pr.outs && processed.files == pr.dir
  {
    ghost var processed0 := processed.files;
    outs := [];
    var j := 0;
    while j < |names|
      invariant 0 <= j <= |names|
      invariant outs == ProcessRun(processed0, names[..j], rawFiles, parse).outs
      invariant processed.files == ProcessRun(processed0, names[..j], rawFiles, parse).dir
    {
      assert names[..j + 1][..j] == names[..j];
      var p := names[j];
      var out := processed.ProcessCsv(p, rawFiles[p], parse);
      if out.Success? {
        outs := outs + [out.value];
      }
      j := j + 1;
    }
    assert names[..j] == names;
  }

  /** One more URL, when nothing has raised yet: a failed fetch ends the loop with its
      error; otherwise Store's outcome is appended and its directory taken. */
  lemma DownloadRunStep(dir: Directory, urls: seq<string>, i: nat, web: Web, sha256: Bytes -> string, clock: Clock)
    requires i < |urls| && DownloadRun(dir, urls[..i], web, sha256, clock).error.None?
    ensures var b0, b := DownloadRun(dir, urls[..i], web, sha256, clock), DownloadRun(dir, urls[..i + 1], web, sha256, clock);
      && (web(urls[i]).Failure? ==> b == Batch(b0.results, b0.dir, Some(web(urls[i]).error)))
      && (web(urls[i]).Success? ==>
            var content := web(urls[i]).value;
            var st := Store(b0.dir, LastSegment(urls[i]), Fingerprint(sha256(content)), clock(i), content);
            b == Batch(b0.results + [st.saved], st.dir, None))
  {
    assert urls[..i + 1][..i] == urls[..i];
  }

  /** Once the loop has raised, later URLs change nothing. */
  lemma {:induction false} ErrorSticks(dir: Directory, urls: seq<string>, k: nat, web: Web, sha256: Bytes -> string, clock: Clock)
    requires k <= |urls|
    requires DownloadRun(dir, urls[..k], web, sha256, clock).error.Some?
    ensures DownloadRun(dir, urls, web, sha256, clock) == DownloadRun(dir, urls[..k], web, sha256, clock)
    decreases |urls|
  {
    if k < |urls| {
      var init := urls[..|urls| - 1];
      assert init[..k] == urls[..k];
      ErrorSticks(dir, init, k, web, sha256, clock);
    } else {
      assert urls[..k] == urls;
    }
  }

  /** The loop makes at most one call per URL, and one per URL when nothing raises. */
  lemma {:induction false} DownloadRunLength(dir: Directory, urls: seq<string>, web: Web, sha256: Bytes -> string, clock: Clock)
    ensures var b := DownloadRun(dir, urls, web, sha256, clock);
      && |b.results| <= |urls|
      && (b.error.None? ==> |b.results| == |urls|)
      && (b.error.Some? ==> |b.results| < |urls|)
  {
    if urls != [] {
      DownloadRunLength(dir, urls[..|urls| - 1], web, sha256, clock);
    }
  }

  /** The download loop only adds files: every earlier file keeps its bytes, and the new
      files are exactly the names reported as downloaded, none of which existed before. */
  lemma {:induction false} DownloadRunFacts(dir: Directory, urls: seq<string>, web: Web, sha256: Bytes -> string, clock: Clock)
    ensures var b := DownloadRun(dir, urls, web, sha256, clock);
      && (forall n :: n in dir ==> n in b.dir && b.dir[n] == dir[n])
      && (forall n :: n in b.dir <==> n in dir || n in Somes(b.results))
      && (forall n :: n in Somes(b.results) ==> n !in dir)
  {
    if urls != [] {
      var init := urls[..|urls| - 1];
      DownloadRunFacts(dir, init, web, sha256, clock);
      var b0 := DownloadRun(dir, init, web, sha256, clock);
      var url := urls[|urls| - 1];
      if b0.error.None? && web(url).Success? {
        var content := web(url).value;
        var fp := Fingerprint(sha256(content));
        var st := Store(b0.dir, LastSegment(url), fp, clock(|urls| - 1), content);
        StoreEstablishesKey(b0.dir, LastSegment(url), fp, clock(|urls| - 1), content);
        assert (b0.results + [st.saved])[..|b0.results|] == b0.results;
        if st.saved.Some? {
          StoreAdds(b0.dir, LastSegment(url), fp, clock(|urls| - 1), content);
        }
      }
    }
  }

  /** The loop raises exactly when the fetch of some URL fails. */
  lemma {:induction false} DownloadRunFails(dir: Directory, urls: seq<string>, web: Web, sha256: Bytes -> string, clock: Clock)
    ensures DownloadRun(dir, urls, web, sha256, clock).error.None? <==> forall j :: 0 <= j < |urls| ==> web(urls[j]).Success?
  {
    if urls != [] {
      var init := urls[..|urls| - 1];
      var url := urls[|urls| - 1];
      DownloadRunFails(dir, init, web, sha256, clock);
      assert forall j :: 0 <= j < |init| ==> init[j] == urls[j];
      var b0 := DownloadRun(dir, init, web, sha256, clock);
      var b := DownloadRun(dir, urls, web, sha256, clock);
      if b0.error.Some? {
        assert b == b0;
      } else if web(url).Failure? {
        assert b.error.Some?;
      } else {
        assert b.error.None?;
        assert forall j :: 0 <= j < |urls| ==> j < |init| || urls[j] == url;
      }
    }
  }

  /** A raised fetch ends the loop at the first URL whose fetch fails, with that error; every
      URL before it was fetched. */
  lemma {:induction false} DownloadRunStopsAtFirstFailure(dir: Directory, urls: seq<string>, web: Web, sha256: Bytes -> string, clock: Clock)
    requires DownloadRun(dir, urls, web, sha256, clock).error.Some?
    ensures var b := DownloadRun(dir, urls, web, sha256, clock);
      && |b.results| < |urls|
      && web(urls[|b.results|]).Failure?
      && b.error == Some(web(urls[|b.results|]).error)
      && forall j :: 0 <= j < |b.results| ==> web(urls[j]).Success?
  {
    DownloadRunLength(dir, urls, web, sha256, clock);
    var init := urls[..|urls| - 1];
    var b0 := DownloadRun(dir, init, web, sha256, clock);
    DownloadRunLength(dir, init, web, sha256, clock);
    if b0.error.Some? {
      DownloadRunStopsAtFirstFailure(dir, init, web, sha256, clock);
      assert urls[|b0.results|] == init[|b0.results|];
      assert forall j :: 0 <= j < |b0.results| ==> init[j] == urls[j];
    } else {
      DownloadRunFails(dir, init, web, sha256, clock);
      assert forall j :: 0 <= j < |init| ==> init[j] == urls[j];
    }
  }

  /** A name the dedup glob finds stays findable when files are added. */
  lemma HasArtifactGrows(d1: Directory, d2: Directory, key: string)
    requires HasArtifact(d1, key) && d1.Keys <= d2.Keys
    ensures HasArtifact(d2, key)
  {
  }

  /** After a run that raised nothing, the directory holds a name the dedup glob of every
      URL of the run finds. */
  lemma {:induction false} DownloadRunCoversKeys(dir: Directory, urls: seq<string>, web: Web, sha256: Bytes -> string, clock: Clock)
    requires DownloadRun(dir, urls, web, sha256, clock).error.None?
    ensures forall j :: 0 <= j < |urls| ==>
      web(urls[j]).Success? && HasArtifact(DownloadRun(dir, urls, web, sha256, clock).dir, KeyOf(urls[j], web, sha256))
  {
    if urls != [] {
      var init := urls[..|urls| - 1];
      DownloadRunCoversKeys(dir, init, web, sha256, clock);
      var b0 := DownloadRun(dir, init, web, sha256, clock);
      var url := urls[|urls| - 1];
      var content := web(url).value;
      var fp := Fingerprint(sha256(content));
      var b := DownloadRun(dir, urls, web, sha256, clock);
      StoreEstablishesKey(b0.dir, LastSegment(url), fp, clock(|urls| - 1), content);
      forall j | 0 <= j < |urls|
        ensures web(urls[j]).Success? && HasArtifact(b.dir, KeyOf(urls[j], web, sha256))
      {
        if j < |init| {
          assert init[j] == urls[j];
          HasArtifactGrows(b0.dir, b.dir, KeyOf(urls[j], web, sha256));
        }
      }
    }
  }

  /** When every URL's glob already finds a name, the loop downloads nothing and leaves the
      directory as it is. */
  lemma {:induction false} NothingNew(dir: Directory, urls: seq<string>, web: Web, sha256: Bytes -> string, clock: Clock)
    requires forall j :: 0 <= j < |urls| ==> web(urls[j]).Success? && HasArtifact(dir, KeyOf(urls[j], web, sha256))
    ensures var b := DownloadRun(dir, urls, web, sha256, clock);
      b.error.None? && b.dir == dir && Somes(b.results) == []
  {
    if urls != [] {
      var init := urls[..|urls| - 1];
      NothingNew(dir, init, web, sha256, clock);
      var b0 := DownloadRun(dir, init, web, sha256, clock);
      assert (b0.results + [None])[..|b0.results|] == b0.results;
    }
  }

  /** Idempotence: running again against the same page and the same file contents, at any
      later time, downloads nothing and adds no artifact. */
  lemma RerunDownloadsNothing(dir: Directory, urls: seq<string>, web: Web, sha256: Bytes -> string,
                              clock1: Clock, clock2: Clock)
    requires DownloadRun(dir, urls, web, sha256, clock1).error.None?
    ensures var first := DownloadRun(dir, urls, web, sha256, clock1);
      var second := DownloadRun(first.dir, urls, web, sha256, clock2);
      second.error.None? && second.dir == first.dir && Somes(second.results) == []
  {
    DownloadRunCoversKeys(dir, urls, web, sha256, clock1);
    NothingNew(DownloadRun(dir, urls, web, sha256, clock1).dir, urls, web, sha256, clock2);
  }

  /** Within one run, a URL whose file name and digest prefix repeat those of an earlier URL
      (the same CSV linked twice, say) is skipped: its call returns None. */
  lemma LaterSameKeySkipped(dir: Directory, urls: seq<string>, web: Web, sha256: Bytes -> string, clock: Clock,
                            i: nat, j: nat)
    requires i < j < |urls| && DownloadRun(dir, urls, web, sha256, clock).error.None?
    requires web(urls[i]).Success? && web(urls[j]).Success?
    requires KeyOf(urls[i], web, sha256) == KeyOf(urls[j], web, sha256)
    ensures var b := DownloadRun(dir, urls[..j + 1], web, sha256, clock);
      |b.results| == j + 1 && b.results[j] == None
  {
    var init := urls[..j];
    if DownloadRun(dir, init, web, sha256, clock).error.Some? {
      ErrorSticks(dir, urls, j, web, sha256, clock);
      assert false;
    }
    DownloadRunCoversKeys(dir, init, web, sha256, clock);
    assert init[i] == urls[i];
    DownloadRunLength(dir, init, web, sha256, clock);
    DownloadRunStep(dir, urls, j, web, sha256, clock);
  }

  /** The processing loop keeps, in order, the names of the calls that succeeded and skips
      the failures; each name it keeps is in the processed directory, where the
      consolidation glob finds it, and no earlier file is removed. */
  lemma {:induction false} ProcessRunFacts(dir: map<string, Table>, names: seq<string>, raw: Directory, parse: Parser)
    ensures var pr := ProcessRun(dir, names, raw, parse);
      && pr.outs == Somes(ProcessOutcomes(names, raw, parse))
      && |pr.outs| <= |names|
      && dir.Keys <= pr.dir.Keys
      && (forall n :: n in pr.outs ==> n in NormalizedFiles(pr.dir))
  {
    SomesProperties(ProcessOutcomes(names, raw, parse));
    if names != [] {
      var init := names[..|names| - 1];
      ProcessRunFacts(dir, init, raw, parse);
      var os := ProcessOutcomes(names, raw, parse);
      assert os[..|init|] == ProcessOutcomes(init, raw, parse);
      var name := names[|names| - 1];
      if Recovers(raw, name, parse) {
        NormalizedNameFound(name);
      }
    }
  }
}
