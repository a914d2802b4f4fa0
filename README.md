# ISP CSV ingestion bot, modelled in Dafny

This project models the decision logic of `scripts/isp_bot.py`. That script is a bot that:

- collects the CSV links published on the statistics page of the ISP open-data portal;
- stores a file unless some stored name already ends with `__{fingerprint}__{filename}`;
- recovers each new file's encoding and delimiter;
- canonicalises the column names;
- concatenates every normalised file into a master table;
- reports a summary of the run.

The network, the HTML parser, `urljoin`, SHA-256, the clock and pandas are parameters of
the model. The bot's decisions over their results are modelled exactly, and the properties
it relies on are proved.

Modules, one file each:

- `Outcomes` (`outcomes.dfy`): `Option`, `Result`, and `Somes`, which keeps the present
  values of a sequence of options in order.
- `Text` (`text.dfy`): the Python `str` operations the bot uses.
  - `endswith` and `startswith`.
  - `strip`, with Python's `isspace` characters.
  - `lower`, on ASCII and the Latin-1 capitals.
  - `split("/")[-1]`.
  - `rfind`.
- `LinkDiscovery` (`link_discovery.dfy`): `CSV_WHITELIST`, `_matches_whitelist` and the
  filtering loop of `list_csv_links`.
  - The page is given as its anchors (`href` and text) in document order.
  - `urljoin(BASE_URL, ·)` is given as a function.
  - Regular-expression case-insensitivity is modelled by `Fold`, the simple case folding of
    `re.IGNORECASE`. This covers ASCII, long s, dotless i, dotted capital I and the Kelvin sign.
  - `$` is modelled as matching at the end of the string or before a final newline.
- `ContentStore` (`content_store.dfy`): `download_if_new`, with the raw directory as a class
  `RawDir` whose `files` map is updated in place.
  - `Store` is the naming and dedup decision once the bytes are in hand.
  - The glob `*__{h[:10]}__{filename}` is modelled as "some stored name ends with that key".
- `Normalizer` (`normalizer.dfy`): `process_csv`.
  - `FindTable` is the nested encoding × delimiter search, specified by `Recover`.
  - The column-name canonicalisation.
  - The output name `stem + "__normalized.csv"`.
  - `ProcessedDir.ProcessCsv` writes the table into the processed directory.
  - `pd.read_csv` is a parser function that returns a table, or None where it raises.
- `Consolidator` (`consolidator.dfy`): the consolidation part of `update_all`.
  - Listing the `*__normalized.csv` files.
  - Reading each one back; a reader function returns None where pandas raises.
  - Skipping the failures.
  - Concatenating the rows.
  - The total `RowTotal`, which does not depend on listing order.
- `Orchestrator` (`orchestrator.dfy`): `update_all`.
  - `UpdateAll` and its download and processing loops, specified by `DownloadRun` and
    `ProcessRun`.
  - The returned summary.

Behaviour of the code that the model keeps as written:

- The code does not deduplicate links by URL (`DuplicatesKept`). A CSV linked twice is
  fetched twice. When both fetches return the same content, the glob skips the second
  call (`LaterSameKeySkipped`).
- A failing download is not caught inside `update_all`. It ends the run with its error, and
  the artifacts stored before it remain (`UpdateAll`, `DownloadRunStopsAtFirstFailure`).
- When no encoding and delimiter pair gives more than one column, no parse error is raised
  unless the last attempt (cp1252, `,`) fails. A one-column table from that attempt is
  accepted (`RecoverFallback`, `RecoverFails`).
- Each space inside a column name becomes one underscore. So `" Município  Nome "` becomes
  `"município__nome"`, with two underscores (`CanonicalNameExample`).
- The dedup glob is a suffix test on stored names. A file can therefore also be skipped
  because another file's artifact name happens to end with its `__{fingerprint}__{filename}`
  (`StoreSkips`).

## Model

| member | source | states |
|---|---|---|
| Outcomes.SomesProperties | scripts/isp_bot.py:107-111 | keeping only the present results never lengthens the list, and a value is kept exactly when some result holds it |
| Text.TrimStart | scripts/isp_bot.py:50 | the result is a suffix that does not start with whitespace, and every character removed is whitespace |
| Text.TrimEnd | scripts/isp_bot.py:50 | the result is a prefix that does not end with whitespace, and every character removed is whitespace |
| Text.Strip | scripts/isp_bot.py:50 | `strip()` is the infix between the leading and trailing whitespace; it neither starts nor ends with whitespace |
| Text.StripKeepsTrimmed | scripts/isp_bot.py:95 | a string with no whitespace at either end is its own strip |
| Text.LastSegment | scripts/isp_bot.py:57 | `split("/")[-1]` is a suffix with no slash, preceded by a slash whenever it is not the whole string |
| Text.LowerCharFacts | scripts/isp_bot.py:95 | lowering a character keeps it whitespace or not, maps exactly the space to a space, and is idempotent |
| Text.RFind | scripts/isp_bot.py:97 | the index found holds the character and no later index does; -1 when the character is absent |
| LinkDiscovery.WhitelistCases | scripts/isp_bot.py:15-18 | `_matches_whitelist` holds exactly when the historical-file pattern or the `.csv` pattern matches |
| LinkDiscovery.WhitelistIsCsvSuffix | scripts/isp_bot.py:39-40 | a name passes the whitelist exactly when it ends with `.csv` in any case, optionally before one final newline; the historical-file pattern is subsumed |
| LinkDiscovery.EndsWithFoldedSuffix | scripts/isp_bot.py:15-18 | a case-insensitive suffix match also matches every shorter suffix of the pattern |
| LinkDiscovery.ListCsvLinks | scripts/isp_bot.py:47-60 | the loop returns exactly `CsvLinks` of the anchors |
| LinkDiscovery.CsvLinksInPageOrder | scripts/isp_bot.py:47-60 | the links are those of the kept anchors, one per kept anchor and none for the others, in page order; never more links than anchors |
| LinkDiscovery.CsvLinksAreCsv | scripts/isp_bot.py:51-58 | every link comes from an href ending in `.csv` (any case), and its file name passes the whitelist |
| LinkDiscovery.CsvHrefPassesWhitelist | scripts/isp_bot.py:51-58 | an href that lowers to `….csv` always yields a file name that passes the whitelist |
| LinkDiscovery.LastSegmentKeepsTail | scripts/isp_bot.py:57 | a slash-free tail of the URL survives in its last segment |
| LinkDiscovery.CsvTailChar | scripts/isp_bot.py:51 | the last four characters of a `.csv` href are not slashes and fold to `.csv` |
| LinkDiscovery.HttpAnchor | scripts/isp_bot.py:51-58 | an `http…` href is used unchanged as the URL, and it is kept exactly when it ends in `.csv` in any case |
| LinkDiscovery.LinkFields | scripts/isp_bot.py:50-59 | the URL is the href or its join; the label is the stripped text, or the URL's last segment when that is empty |
| LinkDiscovery.DuplicatesKept | scripts/isp_bot.py:47-60 | a kept anchor that appears twice gives two identical links, so nothing is deduplicated |
| LinkDiscovery.SelectCount | scripts/isp_bot.py:47-60 | the filter yields one item per kept position |
| LinkDiscovery.PositionsSound | scripts/isp_bot.py:47-60 | the kept positions are in range, strictly increasing, and hold kept anchors |
| LinkDiscovery.PositionsComplete | scripts/isp_bot.py:47-60 | every kept anchor's position is listed |
| LinkDiscovery.SelectAt | scripts/isp_bot.py:47-60 | the k-th item is built from the anchor at the k-th kept position |
| ContentStore.Fingerprint | scripts/isp_bot.py:69 | `h[:10]` is a prefix of the digest with length min(10, len(h)) |
| ContentStore.ArtifactNameHasKey | scripts/isp_bot.py:69-70 | a new artifact's name `stamp__fp__filename` is itself found by the dedup glob |
| ContentStore.StoreSkips | scripts/isp_bot.py:70-73 | when a stored name ends with `__fp__filename`, nothing is written and None is returned |
| ContentStore.StoreAdds | scripts/isp_bot.py:69-76 | otherwise exactly the new name `stamp__fp__filename` is added with the content and returned, and every other file is unchanged |
| ContentStore.StoreEstablishesKey | scripts/isp_bot.py:69-76 | after any call the key is present, earlier files are kept, and at most the returned name is added |
| ContentStore.StoreIdempotent | scripts/isp_bot.py:69-73 | a second call for the same file name and fingerprint adds nothing, whatever the stamp or content |
| ContentStore.StoreRepeatedlyAddsAtMostOne | scripts/isp_bot.py:69-76 | any number of calls for one file name and content add at most one artifact, and none if one already exists |
| ContentStore.SkipsForever | scripts/isp_bot.py:70-73 | once the key is present, repeated calls leave the directory unchanged |
| ContentStore.RawDir.DownloadIfNew | scripts/isp_bot.py:62-76 | a failed fetch returns its error and writes nothing; otherwise the directory and the returned name are those of `Store` |
| Normalizer.FirstWide | scripts/isp_bot.py:82-91 | finds the first attempt at or after k with more than one column, or reports that none has one |
| Normalizer.FindTable | scripts/isp_bot.py:79-93 | the nested search with its breaks returns exactly `Recover` |
| Normalizer.RecoverTakesFirstWide | scripts/isp_bot.py:82-91 | the first attempt in utf-8/latin1/cp1252 × `;`/`,` order with more than one column is the result |
| Normalizer.RecoverIgnoresLater | scripts/isp_bot.py:82-91 | attempts after the first wide one are never consulted |
| Normalizer.RecoverWide | scripts/isp_bot.py:82-91 | the result has more than one column exactly when some attempt does |
| Normalizer.RecoverFallback | scripts/isp_bot.py:84-92 | when no attempt is wide, the result is that of the last attempt (cp1252, `,`), which may be a one-column table |
| Normalizer.FallbackIgnoresEarlier | scripts/isp_bot.py:84-92 | when no attempt is wide, the earlier attempts do not affect the result |
| Normalizer.RecoverFails | scripts/isp_bot.py:84-93 | the parse error is raised exactly when no attempt is wide and the last attempt fails |
| Normalizer.CanonicalNameChars | scripts/isp_bot.py:95 | the canonical name has the stripped name's length; each character is `_` for a space and otherwise lowered |
| Normalizer.CanonicalNameLowerNoSpace | scripts/isp_bot.py:95 | no canonical name holds a space, and every character is already lower case |
| Normalizer.CanonicalNameTrimmed | scripts/isp_bot.py:95 | a canonical name has no surrounding whitespace |
| Normalizer.CanonicalSpaceRun | scripts/isp_bot.py:95 | a run of n spaces inside the stripped name becomes a run of n underscores |
| Normalizer.CanonicalNameIdempotent | scripts/isp_bot.py:95 | canonicalising a canonical name changes nothing |
| Normalizer.CanonicalNameExample | scripts/isp_bot.py:95 | `" Município  Nome "` becomes `"município__nome"` |
| Normalizer.ExampleStrip | scripts/isp_bot.py:95 | `" Município  Nome "` strips to `"Município  Nome"` |
| Normalizer.ExampleLower | scripts/isp_bot.py:95 | `"Município  Nome"` lowers to `"município  nome"` |
| Normalizer.ExampleUnderscored | scripts/isp_bot.py:95 | `"município  nome"` becomes `"município__nome"` |
| Normalizer.CanonicalColumnsShape | scripts/isp_bot.py:95 | the column list keeps its length and order; each name is canonical, space-free and as long as its stripped form; the map is idempotent |
| Normalizer.NormalizedNameFound | scripts/isp_bot.py:97 | every output name ends with `__normalized.csv`, so the consolidation glob finds it |
| Normalizer.NormalizedNameOfArtifact | scripts/isp_bot.py:97 | for an artifact whose file name ends in `.csv` in any case, the output name replaces exactly that extension |
| Normalizer.ProcessedDir.ProcessCsv | scripts/isp_bot.py:78-100 | raises "Could not parse CSV: name" and writes nothing when nothing is recovered; otherwise writes the table with canonical columns under the output name and returns that name |
| Consolidator.Consolidate | scripts/isp_bot.py:123-131 | no master exactly when no listed file loads; otherwise the master's rows are the loaded frames' rows in listing order |
| Consolidator.FramesSnoc | scripts/isp_bot.py:124-129 | reading one more file appends its frame only if it loads |
| Consolidator.FramesEmpty | scripts/isp_bot.py:124-130 | no frame is collected exactly when every listed file fails to load |
| Consolidator.ConcatCount | scripts/isp_bot.py:131 | the concatenation has the rows of the earlier frames plus those of the last file, if it loads |
| Consolidator.RowTotalRemove | scripts/isp_bot.py:122-131 | the total is any one file's loaded rows plus the total of the others |
| Consolidator.MasterRowsAnyOrder | scripts/isp_bot.py:122-145 | whatever order the glob lists the files in, the master has the total of the loaded files' row counts |
| Consolidator.RowTotalNoneLoad | scripts/isp_bot.py:121-145 | `master_rows` is 0 when no normalised file exists or none loads |
| Consolidator.RowTotalSameReads | scripts/isp_bot.py:126-129 | the total depends only on each file's loaded row count |
| Consolidator.CorruptFileSkipped | scripts/isp_bot.py:126-129 | a file that fails to load is skipped, and the total loses exactly its rows |
| Consolidator.ListNormalized | scripts/isp_bot.py:122 | the listing holds each `*__normalized.csv` file of the directory exactly once |
| Orchestrator.UpdateAll | scripts/isp_bot.py:102-146 | covers the page-fetch failure, the first download failure (raw writes so far kept) and the full run (summary of link count, downloaded names, processed names and master rows); processed ≤ downloaded ≤ found links |
| Orchestrator.DownloadAll | scripts/isp_bot.py:107-111 | the loop returns the non-None results in link order, or the first error, and leaves the directory of `DownloadRun` |
| Orchestrator.ProcessAll | scripts/isp_bot.py:113-119 | the loop returns the names of the successful calls in order, and leaves the directory of `ProcessRun` |
| Orchestrator.DownloadRunStep | scripts/isp_bot.py:108-111 | one more URL either ends the run with its fetch error or appends `Store`'s outcome |
| Orchestrator.ErrorSticks | scripts/isp_bot.py:108-111 | after a fetch fails, later URLs change nothing |
| Orchestrator.DownloadRunLength | scripts/isp_bot.py:107-111 | one result per URL when nothing fails, and fewer when a fetch fails |
| Orchestrator.DownloadRunFacts | scripts/isp_bot.py:107-111 | earlier files are kept; the directory gains exactly the downloaded names, none of which was there before |
| Orchestrator.DownloadRunFails | scripts/isp_bot.py:108-111 | the run raises exactly when some URL's fetch fails |
| Orchestrator.DownloadRunStopsAtFirstFailure | scripts/isp_bot.py:108-111 | the error is that of the first failing URL, and every earlier fetch succeeded |
| Orchestrator.HasArtifactGrows | scripts/isp_bot.py:70 | a key found in a directory is still found after files are added |
| Orchestrator.DownloadRunCoversKeys | scripts/isp_bot.py:69-73 | after a run that raised nothing, every URL's dedup key is present |
| Orchestrator.NothingNew | scripts/isp_bot.py:107-111 | when every URL's key is already present, nothing is downloaded and the directory is unchanged |
| Orchestrator.LaterSameKeySkipped | scripts/isp_bot.py:107-111 | within one run, a URL with the same file name and digest prefix as an earlier URL is skipped: its call returns None |
| Orchestrator.RerunDownloadsNothing | scripts/isp_bot.py:107-111 | a second run against the same page and contents, at any time, downloads nothing and adds no artifact |
| Orchestrator.ProcessRunFacts | scripts/isp_bot.py:113-119 | the processed names are the successful outcomes in order, never more than the downloads; no file is removed, and each output is found by the consolidation glob |

## Left out

- HTTP: the session, the request headers, timeouts and `raise_for_status`. A fetch is a
  function from URL to bytes or an error message, and a fetch of the page is given as its
  anchors or an error. The model assumes that each URL gives the same response for the
  whole run.
- HTML parsing with BeautifulSoup: the anchors with an `href` are the input, in document
  order.
- `requests.compat.urljoin` is a function parameter.
- `hashlib.sha256` is a function parameter.
- `datetime.utcnow()`: the stamp read by the i-th call of `download_if_new`, skipped calls
  included, is a parameter.
- pandas and pyarrow:
  - `read_csv` is a parser function on bytes, encoding and delimiter that returns a table,
    or None where it raises.
  - The read-back of a normalised file is a second function, not tied to the table that
    was written.
  - `to_csv` of the normalised table is a map update in the processed directory.
  - Writing the master (`to_parquet`, and the CSV fallback) is not modelled; only the row
    count of the master is.
  - `pd.concat` is modelled on rows only. Its union of columns is not modelled.
- Logging, `_setup` (directory creation and logging configuration), `BASE_URL`, `TIMEOUT`,
  and the `__main__` block.
- `scripts/iso_bot3.py` is not part of this model. It is a standalone download script
  without decision logic.
- Text.LowerChar: lowers ASCII and the Latin-1 capitals only. Python's `str.lower` handles
  all of Unicode, and for `İ` it yields two characters, so the length property of column
  names is proved for this partial lowering. The `.csv` test on hrefs is exact under it,
  because only ASCII capitals lower to `.`, `c`, `s` or `v`.
- LinkDiscovery.Fold: the `re.IGNORECASE` folding is exact for the two ASCII patterns. The
  folds of other characters, which cannot match them, are not modelled.
- Normalizer.CanonicalName: works on string column names. `str(c)` of a non-string column
  label is not modelled.
- ContentStore.HasArtifact: treats the file name inside the glob literally. Glob
  metacharacters (`*`, `?`, `[`) in a downloaded file name are not interpreted, and the
  file system is taken to be case-sensitive.
- Failures while writing files (a full disk, permissions) are not modelled. Writes always
  succeed.
