# Novelty and plagiarism bookkeeping of the Academic Peer Review Assistant

This project models the decision logic of the peer-review assistant. The
embedding model, the TF-IDF vectoriser, the cosine kernels and the FAISS
search are not modelled. They are treated as opaque producers of scores and
distances. Everything the Python code decides around them is modelled and
proved:

- **Plagiarism check** (`utils/plagiarism_check.py`, module `Plagiarism`).
  `chunk_text` splits the text on `.`, strips the pieces and keeps those
  longer than ten characters. It then groups the survivors into windows of
  `chunk_size` and joins each window with single spaces. Both detectors apply
  one flag rule to a score matrix: a chunk is flagged when its row maximum is
  `>=` the threshold (0.8 for exact overlap, 0.75 for paraphrase overlap). The
  report merger loads every text, pools the reference chunks, runs both
  detectors and counts their findings.
- **Novelty query** (`novelty_check.py`, module `Novelty`). It checks that
  both artifacts exist, index first. It returns early when no text was
  extracted. It turns `(distance, id)` pairs into ranked records with
  `similarity = 1 - distance` and metadata looked up under `str(id)`. Each
  match is classified against 0.40. The result file is named
  `data/results/<basename without extension>_similar.json`.
- **Corpus index builder** (`faiss_index.py`, module `CorpusIndex`). It locates
  each paper's parsed text (`.pdf` replaced by `.txt` under
  `data/parsed_text`, with `""` when the file or `pdf_path` is missing). Its
  loop keeps the text list and the id mapping aligned with the paper list.
  The mapping's integer keys become decimal strings in JSON. The flat L2
  index stores one vector per embedding row.
- **Citation alerts** (`grobid_citation_alerts.py`, module `CitationAlerts`).
  Reference records are built from already-parsed `(title, when)` pairs. The
  outdated filter uses a strict age comparison, with the current year as a
  parameter.

Supporting modules model the Python built-ins this code uses: `PyStr`
(`strip`, `split`, `join`, `replace`, `isdigit`, `int`, `str`), `PyPath`
(`basename`, `splitext`, `join`), `Json` (JSON values, `dict.get`), plus
`Seqs` (subsequence, flatten, map) and `Wrappers` (Option, Result).

Three behaviours of the code are easy to miss; the model follows the code in
each:

- An empty subject or reference chunk list makes the exact-overlap
  detector's TF-IDF/cosine pipeline raise.
  `Plagiarism.PlagiarismCheck` returns `Err(EmptyChunkList)` in that case; it
  does not treat the input as "no comparable content".
- A query with no extracted text only prints a message and returns. No
  distinct error is raised; this is `Novelty.QueryOutcome.NoTextExtracted`.
- The builder never stores `pdf_path` in the mapping. So every record built
  against the builder's own mapping has path `""` (`Novelty.BuilderRecord`).

## Model

| member | source | states |
|---|---|---|
| `PyStr.StripSpec` | utils/plagiarism_check.py:17 | `strip()` returns the slice of the input between a whitespace prefix and a whitespace suffix, and the result neither starts nor ends with whitespace |
| `PyStr.JoinSplit` | utils/plagiarism_check.py:17 | `split(sep)` cuts at every separator and nowhere else: no piece holds the separator, and joining the pieces with `sep` gives back the original string |
| `Plagiarism.LongUnitsSpec` | utils/plagiarism_check.py:17 | the long-unit filter keeps a unit iff it is longer than 10 characters, keeps each such unit as many times as it occurs, and keeps the survivors in input order |
| `Plagiarism.StrippedPieceMember` | utils/plagiarism_check.py:17 | a stripped piece is exactly the strip of some `.`-separated piece of the text |
| `Plagiarism.SentenceUnitsSpec` | utils/plagiarism_check.py:17 | a unit survives iff it is the stripped form of a `.`-separated piece and has stripped length > 10; it survives once per such piece; survivors keep the pieces' order |
| `Plagiarism.WindowsFlatten` | utils/plagiarism_check.py:18 | concatenating the windows in order gives back the unit list exactly, each unit once |
| `Plagiarism.WindowsSizes` | utils/plagiarism_check.py:18 | there are ceil(n / size) windows; every window except the last has exactly `size` units; the last has 1 to `size` |
| `Plagiarism.ChunkTextSpec` | utils/plagiarism_check.py:15-18 | of `ChunkText` (chunk_text): chunk size 0 raises; a negative size gives no chunks; for a positive size chunk i joins window i with spaces, the windows partition the units, no units give `[]`, and at most `size` units give one chunk |
| `Plagiarism.RowMax` | utils/plagiarism_check.py:29 | `np.max` of a non-empty row is an element of the row that no element exceeds |
| `Plagiarism.FlaggedRowsMember` | utils/plagiarism_check.py:28-30 | row i is flagged iff it exists and its maximum is `>=` the threshold, so a score equal to the threshold is flagged |
| `Plagiarism.FlaggedRowsAscending` | utils/plagiarism_check.py:28-35 | flagged rows are listed in strictly increasing row order |
| `Plagiarism.FindingsSpec` | utils/plagiarism_check.py:28-35 | finding j is the chunk of the j-th flagged row, with that row's maximum as its score and the detector's type tag |
| `Plagiarism.FindingsIff` | utils/plagiarism_check.py:28-35 | every finding has the detector's kind, a score `>=` the threshold, and the score equals the max of its chunk's row; chunk i is reported iff its row maximum reaches the threshold |
| `Plagiarism.FindingsOrdered` | utils/plagiarism_check.py:27-35 | the findings' chunks form a subsequence of the subject chunks; an empty subject list gives no findings |
| `Plagiarism.FlagChunks` | utils/plagiarism_check.py:27-36 | the flag loop returns exactly the specified findings, or the `np.max` error when some score row is empty |
| `Plagiarism.DetectExactOverlap` | utils/plagiarism_check.py:20-36 | the exact detector flags by the shared rule, and every finding's type tag is "exact_overlap" |
| `Plagiarism.DetectParaphraseOverlap` | utils/plagiarism_check.py:38-53 | the paraphrase detector flags by the shared rule, and every finding's type tag is "paraphrase_overlap" |
| `Plagiarism.ScoreMatrix` | utils/plagiarism_check.py:22-26 | the score matrix has one row per subject chunk and one column per reference chunk; no row is empty iff there are no subject chunks or some reference chunk; entry (i, j) is the kernel's score of subject chunk i against reference chunk j, computed over this call's pooled subject and reference chunks |
| `Plagiarism.ReadAllSpec` | utils/plagiarism_check.py:61-63 | loading succeeds iff every path is readable and then yields the texts in path order; otherwise the error names the first unreadable path |
| `Plagiarism.ReadAllKeepsError` | utils/plagiarism_check.py:61-63 | once a prefix of the paths fails to read, loading all of them fails with the same error |
| `Plagiarism.LoadReferenceTexts` | utils/plagiarism_check.py:61-63 | the reference-loading loop returns the specified load result |
| `Plagiarism.PooledChunksMember` | utils/plagiarism_check.py:64-66 | a chunk is in the pool iff some reference text produces it; which reference it came from is not kept |
| `Plagiarism.PoolReferenceChunks` | utils/plagiarism_check.py:64-66 | the pooled reference chunks are the in-order concatenation of `chunk_text` of each reference text |
| `Plagiarism.PlagiarismCheck` | utils/plagiarism_check.py:55-82 | an unreadable file or an empty chunk list aborts; otherwise the report echoes the paper and reference paths, holds both detectors' findings over the same chunk sets, and its summary counts equal the two lists' lengths |
| `Json.Get` | faiss_index.py:47 | `dict.get(key)` gives the stored value when the key is present and `None` otherwise |
| `Json.GetOr` | novelty_check.py:55-57 | `dict.get(key, default)` uses the default only when the key is absent |
| `PyStr.IntToStringMatches` | novelty_check.py:55 | `str(i)` equals the decimal string of a natural n iff i == n, so a negative id never names a mapping key |
| `Novelty.MissingArtifact` | novelty_check.py:17-22 | the index file is checked first: a missing index is reported whatever the mapping's state; a missing mapping is reported only when the index exists |
| `Novelty.Record` | novelty_check.py:55-74 | a record keeps the id and has similarity `1 - distance`; title, url and path fall back to "Unknown title", "No URL" and "" exactly when the id or that field is absent |
| `Novelty.Classify` | novelty_check.py:62-65 | a match is "not novel" iff its similarity is `>=` 0.40 |
| `Novelty.AssembleResults` | novelty_check.py:53-74 | one record per zipped (distance, id) pair, in search order, shown with ranks 1, 2, … |
| `Novelty.SimilaritiesDescend` | novelty_check.py:49-58 | ascending distances give descending similarities |
| `PyPath.SplitExtRoot` | novelty_check.py:79 | for a `/`-free name, `splitext` cuts the name at its last `.` unless only dots precede it, and the root is a prefix of the name |
| `PyPath.BasenameSpec` | novelty_check.py:79 | the base name is the longest `/`-free suffix of the path |
| `Novelty.ResultsPathOfPdf` | novelty_check.py:79 | of `ResultsPath`: a query `<dir>/<stem>.pdf`, for a `/`-free stem that is not all dots, is saved as `data/results/<stem>_similar.json`, whatever the directory |
| `Novelty.FindSimilarPapers` | novelty_check.py:30-82 | no text returns before any artifact is checked; a missing artifact aborts next; otherwise the records are assembled and saved under the query's result path |
| `Novelty.BuilderLookup` | novelty_check.py:55 | against the builder's mapping, id i finds paper i's entry when 0 <= i < number of papers, and nothing otherwise |
| `Novelty.BuilderRecord` | novelty_check.py:55-73 | against the builder's mapping, a hit on paper i carries that paper's title and url, any other id gets the defaults, and the path is always "" |
| `PyStr.ReplacePdfSuffix` | faiss_index.py:20 | a name ending in ".pdf" is renamed to end in ".txt" |
| `PyPath.JoinPath` | faiss_index.py:21 | `os.path.join` returns an absolute second part alone, appends it directly when the first part is empty or ends in `/`, and otherwise joins with one `/` |
| `CorpusIndex.LoadTextForPaperSpec` | faiss_index.py:19-25 | of `LoadTextForPaper`: `<stem>.pdf` is read from `data/parsed_text/<stem'>.txt`, where stem' is the stem with each of its own `.pdf` renamed to `.txt` (the stem itself when it holds none), and a missing file yields "" |
| `CorpusIndex.CorpusMapping` | faiss_index.py:44-55 | the mapping's keys are exactly 0 .. n-1, and key i holds paper i's title and url |
| `CorpusIndex.CorpusMappingSize` | faiss_index.py:46-55 | the mapping has exactly one entry per paper |
| `CorpusIndex.AlignCorpus` | faiss_index.py:43-55 | after the loop, the numbers of texts, mapping entries and papers are equal; text i is paper i's text, and it is "" without a truthy `pdf_path`; mapping i is paper i's `{title, url}` in both branches |
| `CorpusIndex.StoredMappingSpec` | faiss_index.py:70-71 | the saved mapping holds entry i under key `str(i)`, and every saved key is the decimal string of an id |
| `CorpusIndex.IdStringsSize` | faiss_index.py:70-71 | distinct ids serialise to distinct keys, so a set of ids yields as many keys as ids |
| `CorpusIndex.StoredMappingSize` | faiss_index.py:70-71 | serialising the mapping keeps exactly one entry per id |
| `CorpusIndex.StoredCorpusSize` | faiss_index.py:46-71 | the mapping file the builder writes holds exactly one entry per paper |
| `CorpusIndex.FlatL2Index.constructor` | faiss_index.py:30 | a new flat index has the given dimension, no vectors, and its invariant (every vector has the index's dimension) |
| `CorpusIndex.FlatL2Index.Add` | faiss_index.py:31 | adding rows of the index's width appends them all in order; otherwise the index is unchanged; the width invariant is kept |
| `CorpusIndex.BuildFaissIndex` | faiss_index.py:28-32 | the index's dimension is the row width, it stores exactly the embedding rows, and it keeps the width invariant |
| `CorpusIndex.BuildCorpusIndex` | faiss_index.py:34-71 | vector i embeds paper i's text, the index holds one vector per paper, the stored mapping is the aligned mapping, and its entry count equals the index size |
| `CitationAlerts.YearOf` | grobid_citation_alerts.py:31-33 | the year is the first 4 characters of `when` (all of it when shorter), or absent without a `when` attribute |
| `CitationAlerts.KeptReferencesSpec` | grobid_citation_alerts.py:25-46 | of `KeptReferences`: a record is produced iff its entry's title or year is truthy, once per such entry, and records keep the entries' order |
| `CitationAlerts.KeptReferencesCount` | grobid_citation_alerts.py:40-44 | each record is produced as often as there are entries with a truthy title or year that yield it |
| `CitationAlerts.ExtractReferences` | grobid_citation_alerts.py:25-46 | the record-building loop returns exactly the kept references |
| `PyStr.DigitsRoundTrip` | grobid_citation_alerts.py:53 | `int(str(n)) == n` for every natural n |
| `CitationAlerts.OutdatedSpec` | grobid_citation_alerts.py:48-55 | of `Outdated`: a reference is outdated iff its year is non-empty, all digits and `current_year - int(year) > threshold`; each outdated reference is kept as many times as it occurs; the result is an order-preserving subsequence of the input |
| `CitationAlerts.OutdatedBoundary` | grobid_citation_alerts.py:52-54 | an age equal to the threshold is not flagged and one more year is; a missing, empty or non-digit year is never flagged |
| `CitationAlerts.CheckOutdatedReferences` | grobid_citation_alerts.py:48-55 | the filter loop returns exactly the outdated references in input order |
| `CitationAlerts.CitationAlerts` | grobid_citation_alerts.py:63-69 | `total_references` is the number of kept records, and the outdated list filters those same records |

## Left out

- Embedding and similarity maths: `SentenceTransformer.encode`, TF-IDF weighting, `cosine_similarity`, `util.cos_sim` and the FAISS L2 search are foreign libraries over floating point. The score matrices come from opaque kernel parameters, and the search output (distances, ids) is an input.
- The TF-IDF vectoriser also raises when the pooled chunks hold no token of two or more word characters (an empty vocabulary). The model does not capture that error.
- A dimension mismatch between the query vector and the index is not modelled, because the search itself is not.
- Floating point: scores, distances and `1 - distance` are exact reals. float32 rounding is not modelled.
- File and JSON I/O (`open`, `json.dump`/`load`, `os.makedirs`, `faiss.read_index`/`write_index`). The file system is a map from path to contents, or a set of existing paths. The saved reports are represented by the returned value. The novelty result file also has its path modelled; the plagiarism report's output path is not modelled.
- `CorpusIndex.BuildFaissIndex`: the dimension is a parameter. `embeddings.shape[1]` on an empty paper list (which raises in numpy) is not modelled.
- JSON values are modelled as strings or `null` only. A non-string `title`, `url` or `pdf_path` in the paper list is not modelled.
- Network and service calls: `utils/data_fetch.py` (arXiv and Semantic Scholar requests, PDF download), the GROBID request and TEI XML parsing in `grobid_citation_alerts.py:10-22`, and `utils/pdf_parse.py` (PyMuPDF extraction, GROBID upload, directory walk) are not part of this model. The citation builder takes already-parsed `(title, when)` pairs. The novelty query takes the extracted text as an input.
- The wall clock: `datetime.now().year` is the `currentYear` parameter.
- Console output and command-line parsing (`print`, `argparse`, `sys.argv`). The only printed information that matters (rank, title, url, similarity, verdict) is returned as `shown` by `Novelty.AssembleResults`.
- Unicode detail: `str.isspace` and `str.isdigit` are modelled on ASCII (space, tab to carriage return, 0x1C to 0x1F; the digits 0 to 9).
