/**
 * The corpus index builder: where each paper's parsed text is looked up,
 * the loop that keeps the text list and the id mapping aligned with the
 * paper list, the JSON form of the mapping, and the flat L2 index that
 * stores one vector per embedding row.
 *
 * The file system is a map from path to contents; the embedding model is a
 * function from a text to its vector.
 */
module CorpusIndex {
  import opened Seqs
  import opened PyStr
  import opened PyPath
  import opened Json

  const ParsedTextDir: string := "data/parsed_text"

  /** One record of the paper list: a JSON object with "title", "url" and "pdf_path" fields. */
  type Paper = Object

  // ------------------------------------------------------------ text lookup

  /** The parsed-text file name: every ".pdf" in the PDF file name becomes ".txt". */
  function TextFileName(pdfFilename: string): string
  {
    Replace(pdfFilename, ".pdf", ".txt")
  }

  /** The parsed-text file's path: its renamed file name joined under the parsed-text directory. */
  function TextPath(pdfFilename: string): string
  {
    JoinPath(ParsedTextDir, TextFileName(pdfFilename))
  }

  /** load_text_for_paper: the parsed text file's contents, or "" when the file does not exist. */
  function LoadTextForPaper(pdfFilename: string, files: map<string, string>): string
  {
    var path := TextPath(pdfFilename);
    if path in files then files[path] else ""
  }

  /**
   * A '/'-free PDF file name stem + ".pdf" is looked up as
   * "data/parsed_text/" + stem' + ".txt", where stem' is the stem with its
   * own ".pdf" occurrences renamed (none, for an ordinary stem); the text
   * is that file's contents, or "" when it is missing.
   */
  lemma LoadTextForPaperSpec(stem: string, files: map<string, string>)
    requires '/' !in stem
    ensures TextPath(stem + ".pdf") == ParsedTextDir + "/" + TextFileName(stem) + ".txt"
    ensures '/' !in TextFileName(stem) + ".txt"
    ensures (forall i :: !OccursAt(stem, ".pdf", i)) ==> TextFileName(stem) == stem
    ensures LoadTextForPaper(stem + ".pdf", files)
            == var path := ParsedTextDir + "/" + TextFileName(stem) + ".txt";
               if path in files then files[path] else ""
  {
    ReplacePdfSuffix(stem);
    ReplaceAvoids(stem, ".pdf", ".txt", '/');
    var name := TextFileName(stem) + ".txt";
    assert name == TextFileName(stem + ".pdf");
    assert name[0] != '/' by {
      if |TextFileName(stem)| == 0 {
        assert name == ".txt";
      } else {
        assert name[0] == TextFileName(stem)[0];
      }
    }
    assert ParsedTextDir[|ParsedTextDir| - 1] != '/';
    if forall i :: !OccursAt(stem, ".pdf", i) {
      ReplaceAbsent(stem, ".pdf", ".txt");
    }
  }

  /** The text of one paper: "" when its "pdf_path" is missing, null or empty, else its parsed text by base name. */
  function PaperText(paper: Paper, files: map<string, string>): string
  {
    var pdfPath := Get(paper, "pdf_path");
    if !Truthy(pdfPath) then "" else LoadTextForPaper(Basename(pdfPath.s), files)
  }

  /** A mapping entry `{"title": ..., "url": ...}`. */
  datatype Entry = Entry(title: Value, url: Value)

  /** The mapping entry of one paper: its title and url, null when absent. */
  function Metadata(paper: Paper): Entry
  {
    Entry(Get(paper, "title"), Get(paper, "url"))
  }

  /** An entry as a JSON object: exactly the keys "title" and "url". */
  function EntryObject(e: Entry): (obj: Object)
    ensures obj.Keys == {"title", "url"}
    ensures obj["title"] == e.title && obj["url"] == e.url
  {
    map["title" := e.title, "url" := e.url]
  }

  // ------------------------------------------------------------- alignment

  /** The id mapping the builder promises: vector id i names paper i. */
  function CorpusMapping(papers: seq<Paper>): (mapping: map<nat, Entry>)
    ensures forall i: nat :: i in mapping <==> i < |papers|
    ensures forall i :: 0 <= i < |papers| ==> mapping[i] == Metadata(papers[i])
  {
    map i: nat | i < |papers| :: Metadata(papers[i])
  }

  /** The mapping has exactly one entry per paper. */
  lemma CorpusMappingSize(papers: seq<Paper>)
    ensures |CorpusMapping(papers)| == |papers|
  {
    var keys := CorpusMapping(papers).Keys;
    IdsSpec(|papers|);
    assert keys == Ids(|papers|);
  }

  /** The ids 0 .. n-1. */
  function Ids(n: nat): set<nat>
    decreases n
  {
    if n == 0 then {} else Ids(n - 1) + {n - 1}
  }

  lemma {:induction false} IdsSpec(n: nat)
    ensures forall i: nat :: i in Ids(n) <==> i < n
    ensures |Ids(n)| == n
    decreases n
  {
    if n > 0 {
      IdsSpec(n - 1);
      assert n - 1 !in Ids(n - 1);
      assert |Ids(n - 1) + {n - 1}| == |Ids(n - 1)| + 1;
    }
  }

  /**
   * The loop of main: one text and one mapping entry per paper, both at the
   * paper's position; a paper without a usable "pdf_path" gets "" as its
   * text but still its entry.
   */
  method AlignCorpus(papers: seq<Paper>, files: map<string, string>)
    returns (texts: seq<string>, mapping: map<nat, Entry>)
    ensures |texts| == |papers| && |mapping| == |papers|
    ensures forall i :: 0 <= i < |papers| ==> texts[i] == PaperText(papers[i], files)
    ensures mapping == CorpusMapping(papers)
  {
    texts := [];
    mapping := map[];
    var idx := 0;
    while idx < |papers|
      invariant 0 <= idx <= |papers|
      invariant |texts| == idx
      invariant forall i :: 0 <= i < idx ==> texts[i] == PaperText(papers[i], files)
      invariant forall i: nat :: i in mapping <==> i < idx
      invariant forall i :: 0 <= i < idx ==> mapping[i] == Metadata(papers[i])
    {
      var paper := papers[idx];
      var pdfPath := Get(paper, "pdf_path");
      var text := "";
      if Truthy(pdfPath) {
        text := LoadTextForPaper(Basename(pdfPath.s), files);
      }
      assert text == PaperText(paper, files);
      texts := texts + [text];
      mapping := mapping[idx := Metadata(paper)];
      idx := idx + 1;
    }
    assert mapping.Keys == CorpusMapping(papers).Keys;
    assert mapping == CorpusMapping(papers);
    CorpusMappingSize(papers);
  }

  /**
   * The mapping as json.dump writes it: each integer key becomes its decimal
   * string, and the entries are unchanged.
   */
  function StoredMapping(mapping: map<nat, Entry>): map<string, Object>
  {
    NatToDigitsInjective();
    map i | i in mapping :: NatToDigits(i) := EntryObject(mapping[i])
  }

  /** Key str(i) holds entry i as an object, and every stored key is the decimal string of some id. */
  lemma StoredMappingSpec(mapping: map<nat, Entry>)
    ensures forall i :: i in mapping ==>
              NatToDigits(i) in StoredMapping(mapping) && StoredMapping(mapping)[NatToDigits(i)] == EntryObject(mapping[i])
    ensures forall key :: key in StoredMapping(mapping) ==> exists i :: i in mapping && key == NatToDigits(i)
  {
    NatToDigitsInjective();
  }

  /** The decimal strings of a set of ids. */
  function IdStrings(ids: set<nat>): set<string>
  {
    set i | i in ids :: NatToDigits(i)
  }

  /** Distinct ids have distinct decimal strings, so a set of ids has as many strings as ids. */
  lemma {:induction false} IdStringsSize(ids: set<nat>)
    ensures |IdStrings(ids)| == |ids|
    decreases |ids|
  {
    if ids != {} {
      var i :| i in ids;
      var rest := ids - {i};
      IdStringsSize(rest);
      NatToDigitsInjective();
      assert IdStrings(ids) == IdStrings(rest) + {NatToDigits(i)};
      assert NatToDigits(i) !in IdStrings(rest);
    }
  }

  /** Serialising keeps one entry per id. */
  lemma StoredMappingSize(mapping: map<nat, Entry>)
    ensures |StoredMapping(mapping)| == |mapping|
  {
    StoredMappingSpec(mapping);
    assert StoredMapping(mapping).Keys == IdStrings(mapping.Keys);
    IdStringsSize(mapping.Keys);
  }

  /** The mapping file the builder writes holds exactly one entry per paper. */
  lemma StoredCorpusSize(papers: seq<Paper>)
    ensures |StoredMapping(CorpusMapping(papers))| == |papers|
  {
    StoredMappingSize(CorpusMapping(papers));
    CorpusMappingSize(papers);
  }

  // ------------------------------------------------------------ flat L2 index

  /** IndexFlatL2: every added vector is stored as it is, in order. */
  class FlatL2Index {
    const dim: nat
    var vectors: seq<seq<real>>

    /** Every stored vector has the index's dimension. */
    ghost predicate Valid()
      reads this
    {
      forall k :: 0 <= k < |vectors| ==> |vectors[k]| == dim
    }

    constructor (dim: nat)
      ensures Valid() && this.dim == dim && vectors == []
    {
      this.dim := dim;
      vectors := [];
    }

    /** `index.add(rows)`: appends every row when all have the index's width, and refuses the batch otherwise. */
    method Add(rows: seq<seq<real>>) returns (ok: bool)
      requires Valid()
      modifies this
      ensures Valid()
      ensures ok <==> forall k :: 0 <= k < |rows| ==> |rows[k]| == dim
      ensures vectors == if ok then old(vectors) + rows else old(vectors)
    {
      ok := forall k :: 0 <= k < |rows| ==> |rows[k]| == dim;
      if ok {
        vectors := vectors + rows;
      }
    }
  }

  /** build_faiss_index: an index whose dimension is the row width, holding one vector per embedding row. */
  method BuildFaissIndex(width: nat, embeddings: seq<seq<real>>) returns (index: FlatL2Index)
    requires forall k :: 0 <= k < |embeddings| ==> |embeddings[k]| == width
    ensures fresh(index) && index.Valid()
    ensures index.dim == width && index.vectors == embeddings
  {
    index := new FlatL2Index(width);
    var ok := index.Add(embeddings);
    assert ok;
  }

  /**
   * main without its I/O: align the corpus, embed every text, build the
   * index and serialise the mapping. Vector i embeds paper i's text and
   * stored key str(i) holds paper i's metadata.
   */
  method BuildCorpusIndex(papers: seq<Paper>, files: map<string, string>, embed: string -> seq<real>, width: nat)
    returns (index: FlatL2Index, stored: map<string, Object>)
    requires forall t :: |embed(t)| == width
    ensures fresh(index) && index.Valid() && index.dim == width
    ensures |index.vectors| == |papers| && |stored| == |index.vectors|
    ensures forall i :: 0 <= i < |papers| ==> index.vectors[i] == embed(PaperText(papers[i], files))
    ensures stored == StoredMapping(CorpusMapping(papers))
  {
    var texts, mapping := AlignCorpus(papers, files);
    var embeddings := Map(embed, texts);
    index := BuildFaissIndex(width, embeddings);
    stored := StoredMapping(mapping);
    StoredCorpusSize(papers);
  }
}
