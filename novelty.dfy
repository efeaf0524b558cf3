/**
 * The novelty query: the early exits of find_similar_papers (no extracted
 * text, a missing index artifact), the loop that turns the search output
 * into ranked records, the novelty verdict of each match and the name of
 * the saved result file.
 *
 * The nearest-neighbour search is not modelled: its distances and ids are
 * inputs. The file system is the set of existing paths plus the mapping
 * already read from the mapping file.
 */
module Novelty {
  import opened Wrappers
  import opened Seqs
  import opened PyStr
  import opened PyPath
  import opened Json
  import CorpusIndex

  const FaissIndexPath: string := "data/faiss_index.bin"
  const FaissMappingPath: string := "data/faiss_mapping.json"
  const ResultsDir: string := "data/results"
  const ResultsSuffix: string := "_similar.json"
  const SimilarityThreshold: real := 0.40
  const UnknownTitle: string := "Unknown title"
  const NoUrl: string := "No URL"

  // ------------------------------------------------------------- artifacts

  datatype Artifact = FaissIndexFile | MappingFile

  /** load_faiss_index_and_mapping's existence checks: the first missing artifact, the index being checked first. */
  function MissingArtifact(existing: set<string>): (missing: Option<Artifact>)
    ensures missing == None <==> FaissIndexPath in existing && FaissMappingPath in existing
    ensures missing == Some(FaissIndexFile) <==> FaissIndexPath !in existing
    ensures missing == Some(MappingFile) <==> FaissIndexPath in existing && FaissMappingPath !in existing
  {
    if FaissIndexPath !in existing then Some(FaissIndexFile)
    else if FaissMappingPath !in existing then Some(MappingFile)
    else None
  }

  // ---------------------------------------------------------------- records

  /** The mapping as json.load reads it back: decimal-string keys. */
  type LoadedMapping = map<string, Object>

  /** The metadata stored under the id's decimal string, or the empty object when there is none. */
  function PaperInfo(mapping: LoadedMapping, id: int): Object
  {
    GetOr(mapping, IntToString(id), map[])
  }

  /** One saved result record. */
  datatype SimilarPaper = SimilarPaper(index: int, title: Value, url: Value, similarity: real, pdfPath: string)

  /**
   * The record of one search hit. It keeps the id and turns the distance into
   * `1 - distance`; the title, url and path fall back to "Unknown title",
   * "No URL" and "" exactly when the id or that field is absent, so a stored
   * null stays a null (and prints as "None" for the path).
   */
  function Record(mapping: LoadedMapping, distance: real, id: int): (r: SimilarPaper)
    ensures r.index == id
    ensures r.similarity == 1.0 - distance
    ensures IntToString(id) !in mapping ==> r == SimilarPaper(id, Str(UnknownTitle), Str(NoUrl), 1.0 - distance, "")
    ensures IntToString(id) in mapping ==>
              var info := mapping[IntToString(id)];
              && r.title == (if "title" in info then info["title"] else Str(UnknownTitle))
              && r.url == (if "url" in info then info["url"] else Str(NoUrl))
              && r.pdfPath == (if "pdf_path" !in info then "" else if info["pdf_path"].Null? then "None" else info["pdf_path"].s)
  {
    var info := PaperInfo(mapping, id);
    SimilarPaper(id, GetOr(info, "title", Str(UnknownTitle)), GetOr(info, "url", Str(NoUrl)),
                 1.0 - distance, ToStr(GetOr(info, "pdf_path", Str(""))))
  }

  datatype Verdict = NotNovel | LikelyNovel

  /** The verdict printed for one match: not novel iff the similarity reaches the threshold (a tie is not novel). */
  function Classify(similarity: real): (v: Verdict)
    ensures v == NotNovel <==> similarity >= SimilarityThreshold
  {
    if similarity >= SimilarityThreshold then NotNovel else LikelyNovel
  }

  /** What the loop prints for one match: its rank, title, url, similarity and verdict. */
  datatype ShownMatch = ShownMatch(rank: nat, title: Value, url: Value, similarity: real, verdict: Verdict)

  function Shown(rank: nat, r: SimilarPaper): ShownMatch
  {
    ShownMatch(rank, r.title, r.url, r.similarity, Classify(r.similarity))
  }

  /**
   * The enumerate loop over `zip(distances, ids)`: one record per pair (the
   * shorter list bounds the pairs), in search order, shown with ranks 1, 2, ….
   */
  method AssembleResults(distances: seq<real>, ids: seq<int>, mapping: LoadedMapping)
    returns (results: seq<SimilarPaper>, shown: seq<ShownMatch>)
    ensures |results| == |shown| == Min(|distances|, |ids|)
    ensures forall i :: 0 <= i < |results| ==> results[i] == Record(mapping, distances[i], ids[i])
    ensures forall i :: 0 <= i < |shown| ==> shown[i] == Shown(i + 1, results[i])
  {
    results, shown := [], [];
    var n := Min(|distances|, |ids|);
    var i := 0;
    while i < n
      invariant 0 <= i <= n
      invariant |results| == |shown| == i
      invariant forall k :: 0 <= k < i ==> results[k] == Record(mapping, distances[k], ids[k])
      invariant forall k :: 0 <= k < i ==> shown[k] == Shown(k + 1, results[k])
    {
      var rank := i + 1;
      var record := Record(mapping, distances[i], ids[i]);
      var line := ShownMatch(rank, record.title, record.url, record.similarity, Classify(record.similarity));
      assert line == Shown(rank, record);
      shown := shown + [line];
      results := results + [record];
      i := i + 1;
    }
  }

  /** Ascending distances, as the search returns them, give descending similarities. */
  lemma {:induction false} SimilaritiesDescend(distances: seq<real>, ids: seq<int>, mapping: LoadedMapping,
                                               results: seq<SimilarPaper>)
    requires forall a, b :: 0 <= a < b < |distances| ==> distances[a] <= distances[b]
    requires |results| <= |distances| && |results| <= |ids|
    requires forall i :: 0 <= i < |results| ==> results[i] == Record(mapping, distances[i], ids[i])
    ensures forall a, b :: 0 <= a < b < |results| ==> results[a].similarity >= results[b].similarity
  {
    forall a, b | 0 <= a < b < |results|
      ensures results[a].similarity >= results[b].similarity
    {
      assert results[a].similarity == 1.0 - distances[a];
      assert results[b].similarity == 1.0 - distances[b];
    }
  }

  // -------------------------------------------------------- the result file

  /** `data/results/<basename without its last extension>_similar.json`. */
  function ResultsPath(pdfPath: string): string
  {
    ResultsDir + "/" + SplitExtRoot(Basename(pdfPath)) + ResultsSuffix
  }

  /**
   * The result file is named after the query's base name only: a query
   * `<dir>/<stem>.pdf` writes `data/results/<stem>_similar.json`, whatever
   * the directory.
   */
  lemma ResultsPathOfPdf(dir: string, stem: string)
    requires dir == [] || dir[|dir| - 1] == '/'
    requires '/' !in stem && !AllDots(stem)
    ensures ResultsPath(dir + stem + ".pdf") == ResultsDir + "/" + stem + ResultsSuffix
  {
    assert '/' !in stem + ".pdf";
    assert dir + stem + ".pdf" == dir + (stem + ".pdf");
    BasenameAfterDir(dir, stem + ".pdf");
    assert stem + ".pdf" == stem + "." + "pdf";
    SplitExtOfExtension(stem, "pdf");
  }

  // ------------------------------------------------------------ the query

  datatype QueryOutcome =
    | NoTextExtracted                 // extraction gave None or ""
    | Missing(artifact: Artifact)     // FileNotFoundError from load_faiss_index_and_mapping
    | Saved(path: string, results: seq<SimilarPaper>, shown: seq<ShownMatch>)

  /** `if not text`: no text, or the empty text. */
  predicate HasText(extracted: Option<string>)
  {
    extracted.Some? && extracted.value != ""
  }

  /**
   * find_similar_papers over a given search output: a query without text
   * returns before anything is loaded, a missing artifact aborts next, and
   * otherwise every hit becomes a record saved under the query's result path.
   */
  method FindSimilarPapers(pdfPath: string, extracted: Option<string>, existing: set<string>,
                           mapping: LoadedMapping, distances: seq<real>, ids: seq<int>)
    returns (outcome: QueryOutcome)
    ensures !HasText(extracted) ==> outcome == NoTextExtracted
    ensures HasText(extracted) && MissingArtifact(existing).Some? ==> outcome == Missing(MissingArtifact(existing).value)
    ensures HasText(extracted) && MissingArtifact(existing).None? ==>
              && outcome.Saved?
              && outcome.path == ResultsPath(pdfPath)
              && |outcome.results| == |outcome.shown| == Min(|distances|, |ids|)
              && (forall i :: 0 <= i < |outcome.results| ==>
                    outcome.results[i] == Record(mapping, distances[i], ids[i]))
              && (forall i :: 0 <= i < |outcome.shown| ==> outcome.shown[i] == Shown(i + 1, outcome.results[i]))
  {
    if !HasText(extracted) {
      return NoTextExtracted;
    }
    var missing := MissingArtifact(existing);
    if missing.Some? {
      return Missing(missing.value);
    }
    var results, shown := AssembleResults(distances, ids, mapping);
    return Saved(ResultsPath(pdfPath), results, shown);
  }

  // --------------------------------------------- reading the builder's mapping

  /**
   * Looking up a search id in the mapping the builder wrote finds paper id's
   * entry when 0 <= id < |papers|, and nothing otherwise (FAISS's -1 filler
   * id included).
   */
  lemma BuilderLookup(papers: seq<CorpusIndex.Paper>, id: int)
    ensures 0 <= id < |papers| ==>
              PaperInfo(CorpusIndex.StoredMapping(CorpusIndex.CorpusMapping(papers)), id)
              == CorpusIndex.EntryObject(CorpusIndex.Metadata(papers[id]))
    ensures !(0 <= id < |papers|) ==>
              PaperInfo(CorpusIndex.StoredMapping(CorpusIndex.CorpusMapping(papers)), id) == map[]
  {
    var mapping := CorpusIndex.CorpusMapping(papers);
    var stored := CorpusIndex.StoredMapping(mapping);
    CorpusIndex.StoredMappingSpec(mapping);
    if 0 <= id < |papers| {
      assert IntToString(id) == NatToDigits(id);
    } else if IntToString(id) in stored {
      var n :| n in mapping && IntToString(id) == NatToDigits(n);
      IntToStringMatches(id, n);
      assert false;
    }
  }

  /**
   * Against the builder's mapping, a hit on paper id carries that paper's
   * title and url (null when the paper has none), any other id the defaults,
   * and the path is always "": the builder never stores a "pdf_path".
   */
  lemma BuilderRecord(papers: seq<CorpusIndex.Paper>, distance: real, id: int)
    ensures var r := Record(CorpusIndex.StoredMapping(CorpusIndex.CorpusMapping(papers)), distance, id);
            && r.pdfPath == ""
            && (0 <= id < |papers| ==> r.title == Get(papers[id], "title") && r.url == Get(papers[id], "url"))
            && (!(0 <= id < |papers|) ==> r.title == Str(UnknownTitle) && r.url == Str(NoUrl))
  {
    BuilderLookup(papers, id);
    if 0 <= id < |papers| {
      var info := CorpusIndex.EntryObject(CorpusIndex.Metadata(papers[id]));
      assert "pdf_path" !in info;
    }
  }
}
