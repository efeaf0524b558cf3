/**
 * The plagiarism check: sentence-unit chunking of a text, the flagging rule
 * shared by the exact-overlap (TF-IDF) and paraphrase-overlap (embedding)
 * detectors, and the report that merges both detectors' findings.
 *
 * Similarity scores are opaque reals. The score kernels stand for the
 * TF-IDF cosine and the embedding cosine; each is handed the pooled chunk
 * list of the call, which is what the TF-IDF vocabulary is fitted on.
 */
module Plagiarism {
  import opened Wrappers
  import opened Seqs
  import opened PyStr

  const DefaultChunkSize: nat := 5
  /** A unit must be longer than this many characters after stripping. */
  const MinUnitLength: nat := 10
  const ExactThreshold: real := 0.8
  const ParaphraseThreshold: real := 0.75

  // ------------------------------------------------------------------ chunking

  predicate IsLongUnit(u: string)
  {
    |u| > MinUnitLength
  }

  /** The whitespace-stripped pieces of `text.split(".")`, in order. */
  function StrippedPieces(text: string): seq<string>
  {
    Map(Strip, Split(text, '.'))
  }

  /** The long units of `units`, in their order. */
  function LongUnits(units: seq<string>): seq<string>
    decreases |units|
  {
    if |units| == 0 then []
    else
      var last := units[|units| - 1];
      LongUnits(units[..|units| - 1]) + (if IsLongUnit(last) then [last] else [])
  }

  lemma {:induction false} LongUnitsSpec(units: seq<string>)
    ensures forall u :: u in LongUnits(units) <==> u in units && IsLongUnit(u)
    ensures forall u :: multiset(LongUnits(units))[u] == if IsLongUnit(u) then multiset(units)[u] else 0
    ensures IsSubsequence(LongUnits(units), units)
    decreases |units|
  {
    if |units| > 0 {
      var n := |units| - 1;
      var init := units[..n];
      LongUnitsSpec(init);
      assert units == init + [units[n]];
      var kept := LongUnits(units);
      assert multiset(units) == multiset(init) + multiset{units[n]};
      if IsLongUnit(units[n]) {
        assert kept == LongUnits(init) + [units[n]];
        assert kept[..|kept| - 1] == LongUnits(init);
        assert multiset(kept) == multiset(LongUnits(init)) + multiset{units[n]};
      } else {
        assert kept == LongUnits(init);
      }
    }
  }

  /** The `sentences` list of chunk_text. */
  function SentenceUnits(text: string): seq<string>
  {
    LongUnits(StrippedPieces(text))
  }

  /** `u` is the strip of one of the `.`-separated pieces of `text`. */
  ghost predicate IsStrippedPiece(text: string, u: string)
  {
    exists k :: 0 <= k < |Split(text, '.')| && u == Strip(Split(text, '.')[k])
  }

  /**
   * A surviving unit is exactly a stripped `.`-separated piece whose length
   * exceeds ten; every such piece survives as often as it occurs, and the
   * survivors keep the order of the pieces.
   */
  lemma SentenceUnitsSpec(text: string)
    ensures forall u :: u in SentenceUnits(text) <==> IsLongUnit(u) && IsStrippedPiece(text, u)
    ensures forall u :: multiset(SentenceUnits(text))[u] == if IsLongUnit(u) then multiset(StrippedPieces(text))[u] else 0
    ensures IsSubsequence(SentenceUnits(text), StrippedPieces(text))
  {
    var stripped := StrippedPieces(text);
    LongUnitsSpec(stripped);
    forall u ensures u in SentenceUnits(text) <==> IsLongUnit(u) && IsStrippedPiece(text, u)
    {
      StrippedPieceMember(text, u);
    }
  }

  /** A stripped piece is the strip of some piece of the split. */
  lemma StrippedPieceMember(text: string, u: string)
    ensures u in StrippedPieces(text) <==> IsStrippedPiece(text, u)
  {
    var pieces := Split(text, '.');
    var stripped := StrippedPieces(text);
    if u in stripped {
      var k :| 0 <= k < |stripped| && stripped[k] == u;
      assert u == Strip(pieces[k]);
    }
    if IsStrippedPiece(text, u) {
      var k :| 0 <= k < |pieces| && u == Strip(pieces[k]);
      assert |stripped| == |pieces| && stripped[k] == u;
      assert u in stripped;
    }
  }

  /** `[units[i:i+size] for i in range(0, len(units), size)]`. */
  function Windows(units: seq<string>, size: nat): seq<seq<string>>
    requires size > 0
    decreases |units|
  {
    if |units| == 0 then []
    else if |units| <= size then [units]
    else [units[..size]] + Windows(units[size..], size)
  }

  /** Concatenated in order, the windows give the units back. */
  lemma {:induction false} WindowsFlatten(units: seq<string>, size: nat)
    requires size > 0
    ensures Flatten(Windows(units, size)) == units
    decreases |units|
  {
    if |units| > size {
      var rest := units[size..];
      WindowsFlatten(rest, size);
      var w := Windows(units, size);
      assert w == [units[..size]] + Windows(rest, size);
      assert w[1..] == Windows(rest, size);
      assert units == units[..size] + rest;
    }
  }

  /**
   * Every window but the last holds exactly `size` units and the last
   * between 1 and `size`; there are `ceil(|units| / size)` windows.
   */
  lemma {:induction false} WindowsSizes(units: seq<string>, size: nat)
    requires size > 0
    ensures forall i :: 0 <= i < |Windows(units, size)| - 1 ==> |Windows(units, size)[i]| == size
    ensures |Windows(units, size)| > 0 ==> 1 <= |Windows(units, size)[|Windows(units, size)| - 1]| <= size
    ensures |Windows(units, size)| == (|units| + size - 1) / size
    decreases |units|
  {
    if |units| > size {
      var rest := units[size..];
      WindowsSizes(rest, size);
      var w := Windows(units, size);
      assert w == [units[..size]] + Windows(rest, size);
      assert forall i :: 1 <= i < |w| ==> w[i] == Windows(rest, size)[i - 1];
      DivShift(|rest| + size - 1, size);
    } else if |units| > 0 {
      DivOne(|units| + size - 1, size);
    }
  }

  lemma DivShift(x: nat, k: nat)
    requires k > 0
    ensures (x + k) / k == x / k + 1
  {
    var q, r := x / k, x % k;
    var q', r' := (x + k) / k, (x + k) % k;
    assert (q' - q - 1) * k == r - r';
    if q' - q - 1 >= 1 {
      MulAtLeast(q' - q - 1, k);
    } else if q' - q - 1 <= -1 {
      MulAtLeast(q + 1 - q', k);
    }
  }

  lemma {:induction false} MulAtLeast(d: int, k: nat)
    requires d >= 1
    ensures d * k >= k
    decreases d
  {
    if d > 1 {
      MulAtLeast(d - 1, k);
      assert d * k == (d - 1) * k + k;
    }
  }

  lemma DivOne(x: nat, k: nat)
    requires 0 < k <= x < 2 * k
    ensures x / k == 1
  {
    assert x == 1 * k + (x - k);
  }

  /** chunk_text for a positive chunk size: each window of units joined with single spaces. */
  function Chunks(text: string, size: nat): seq<string>
    requires size > 0
  {
    var windows := Windows(SentenceUnits(text), size);
    seq(|windows|, i requires 0 <= i < |windows| => Join(windows[i], " "))
  }

  /**
   * chunk_text with any integer chunk size: zero makes `range` raise
   * (`None` here), a negative size gives an empty range and so no chunks.
   */
  function ChunkText(text: string, chunkSize: int): Option<seq<string>>
  {
    if chunkSize == 0 then None
    else if chunkSize < 0 then Some([])
    else Some(Chunks(text, chunkSize))
  }

  /**
   * What chunk_text promises: `ceil(n / size)` chunks for n surviving units,
   * chunk i joining window i, the windows partitioning the units in order;
   * no units give no chunks, and at most `size` units give one chunk.
   */
  lemma ChunkTextSpec(text: string, chunkSize: int)
    ensures ChunkText(text, chunkSize).None? <==> chunkSize == 0
    ensures chunkSize < 0 ==> ChunkText(text, chunkSize) == Some([])
    ensures chunkSize > 0 ==>
              var units := SentenceUnits(text);
              var w := Windows(units, chunkSize);
              var chunks := ChunkText(text, chunkSize).value;
              && |chunks| == |w| == (|units| + chunkSize - 1) / chunkSize
              && (forall i :: 0 <= i < |chunks| ==> chunks[i] == Join(w[i], " "))
              && Flatten(w) == units
              && (forall i :: 0 <= i < |w| - 1 ==> |w[i]| == chunkSize)
              && (|w| > 0 ==> 1 <= |w[|w| - 1]| <= chunkSize)
              && (|units| == 0 ==> chunks == [])
              && (0 < |units| <= chunkSize ==> chunks == [Join(units, " ")])
  {
    if chunkSize > 0 {
      WindowsFlatten(SentenceUnits(text), chunkSize);
      WindowsSizes(SentenceUnits(text), chunkSize);
    }
  }

  // --------------------------------------------------------------- detectors

  datatype OverlapKind = ExactOverlap | ParaphraseOverlap

  /** The "type" field of a finding. */
  function TypeTag(kind: OverlapKind): string
  {
    match kind
    case ExactOverlap => "exact_overlap"
    case ParaphraseOverlap => "paraphrase_overlap"
  }

  /** One flagged subject chunk: its text, its best score and the detector's tag. */
  datatype Finding = Finding(chunk: string, score: real, kind: OverlapKind)

  datatype CheckError =
    | Unreadable(path: string)   // open() fails on the file
    | EmptyChunkList             // the exact detector's TF-IDF/cosine pipeline raises on an empty chunk list
    | EmptyScoreRow              // np.max of a row with no reference chunk raises

  /** `np.max(row)`: an element of the row that no element exceeds. */
  function RowMax(row: seq<real>): (m: real)
    requires |row| > 0
    ensures m in row
    ensures forall k :: 0 <= k < |row| ==> row[k] <= m
    decreases |row|
  {
    if |row| == 1 then row[0]
    else
      var best := RowMax(row[..|row| - 1]);
      assert forall k :: 0 <= k < |row| - 1 ==> row[k] == row[..|row| - 1][k];
      if row[|row| - 1] > best then row[|row| - 1] else best
  }

  predicate NoEmptyRow(scores: seq<seq<real>>)
  {
    forall i :: 0 <= i < |scores| ==> |scores[i]| > 0
  }

  /** The indices of the rows whose maximum reaches the threshold, in increasing order. */
  function FlaggedRows(scores: seq<seq<real>>, threshold: real): seq<nat>
    requires NoEmptyRow(scores)
    decreases |scores|
  {
    if |scores| == 0 then []
    else
      var n := |scores| - 1;
      FlaggedRows(scores[..n], threshold) + (if RowMax(scores[n]) >= threshold then [n] else [])
  }

  /** Row i is flagged iff it exists and its maximum is at least the threshold (a tie is flagged). */
  lemma {:induction false} FlaggedRowsMember(scores: seq<seq<real>>, threshold: real, i: int)
    requires NoEmptyRow(scores)
    ensures i in FlaggedRows(scores, threshold) <==> 0 <= i < |scores| && RowMax(scores[i]) >= threshold
    decreases |scores|
  {
    if |scores| > 0 {
      var n := |scores| - 1;
      var init := scores[..n];
      FlaggedRowsMember(init, threshold, i);
      assert FlaggedRows(scores, threshold)
             == FlaggedRows(init, threshold) + (if RowMax(scores[n]) >= threshold then [n] else []);
      if 0 <= i < n {
        assert init[i] == scores[i];
      }
    }
  }

  /** The flagged rows are listed in strictly increasing order. */
  lemma {:induction false} FlaggedRowsAscending(scores: seq<seq<real>>, threshold: real)
    requires NoEmptyRow(scores)
    ensures forall a, b :: 0 <= a < b < |FlaggedRows(scores, threshold)| ==>
              FlaggedRows(scores, threshold)[a] < FlaggedRows(scores, threshold)[b]
    decreases |scores|
  {
    if |scores| > 0 {
      var n := |scores| - 1;
      var init := scores[..n];
      FlaggedRowsAscending(init, threshold);
      var prev := FlaggedRows(init, threshold);
      forall a | 0 <= a < |prev|
        ensures prev[a] < n
      {
        FlaggedRowsMember(init, threshold, prev[a]);
      }
      assert FlaggedRows(scores, threshold) == prev + (if RowMax(scores[n]) >= threshold then [n] else []);
    }
  }

  /** The findings of one detector: one per flagged row, in row order. */
  function Findings(chunks: seq<string>, scores: seq<seq<real>>, threshold: real, kind: OverlapKind): seq<Finding>
    requires |scores| == |chunks| && NoEmptyRow(scores)
    decreases |chunks|
  {
    if |chunks| == 0 then []
    else
      var n := |chunks| - 1;
      var best := RowMax(scores[n]);
      Findings(chunks[..n], scores[..n], threshold, kind)
        + (if best >= threshold then [Finding(chunks[n], best, kind)] else [])
  }

  /** Finding j is the chunk of the j-th flagged row, scored with that row's maximum and tagged with the kind. */
  lemma {:induction false} FindingsSpec(chunks: seq<string>, scores: seq<seq<real>>, threshold: real, kind: OverlapKind)
    requires |scores| == |chunks| && NoEmptyRow(scores)
    ensures |Findings(chunks, scores, threshold, kind)| == |FlaggedRows(scores, threshold)|
    ensures forall j :: 0 <= j < |Findings(chunks, scores, threshold, kind)| ==>
              FlaggedRows(scores, threshold)[j] < |chunks| &&
              Findings(chunks, scores, threshold, kind)[j]
              == Finding(chunks[FlaggedRows(scores, threshold)[j]], RowMax(scores[FlaggedRows(scores, threshold)[j]]), kind)
    decreases |chunks|
  {
    if |chunks| > 0 {
      var n := |chunks| - 1;
      var c, sc := chunks[..n], scores[..n];
      FindingsSpec(c, sc, threshold, kind);
      var prevF, prevR := Findings(c, sc, threshold, kind), FlaggedRows(sc, threshold);
      var fs, rows := Findings(chunks, scores, threshold, kind), FlaggedRows(scores, threshold);
      var best := RowMax(scores[n]);
      assert fs == prevF + (if best >= threshold then [Finding(chunks[n], best, kind)] else []);
      assert rows == prevR + (if best >= threshold then [n] else []);
      forall j | 0 <= j < |fs|
        ensures rows[j] < |chunks| && fs[j] == Finding(chunks[rows[j]], RowMax(scores[rows[j]]), kind)
      {
        if j < |prevF| {
          var x := prevR[j];
          assert rows[j] == x && fs[j] == prevF[j];
          assert c[x] == chunks[x] && sc[x] == scores[x];
        }
      }
    }
  }

  /**
   * A finding for chunk i with score s exists iff s is the maximum of row i
   * and s >= threshold; every finding carries the detector's kind.
   */
  lemma FindingsIff(chunks: seq<string>, scores: seq<seq<real>>, threshold: real, kind: OverlapKind)
    requires |scores| == |chunks| && NoEmptyRow(scores)
    ensures forall f :: f in Findings(chunks, scores, threshold, kind) ==>
              f.kind == kind && f.score >= threshold &&
              exists i :: 0 <= i < |chunks| && f.chunk == chunks[i] && f.score == RowMax(scores[i])
    ensures forall i :: 0 <= i < |chunks| ==>
              (Finding(chunks[i], RowMax(scores[i]), kind) in Findings(chunks, scores, threshold, kind)
               <==> RowMax(scores[i]) >= threshold)
  {
    var rows := FlaggedRows(scores, threshold);
    var fs := Findings(chunks, scores, threshold, kind);
    FindingsSpec(chunks, scores, threshold, kind);
    forall f | f in fs
      ensures f.kind == kind && f.score >= threshold &&
              exists i :: 0 <= i < |chunks| && f.chunk == chunks[i] && f.score == RowMax(scores[i])
    {
      var j :| 0 <= j < |fs| && fs[j] == f;
      FlaggedRowsMember(scores, threshold, rows[j]);
    }
    forall i | 0 <= i < |chunks| && RowMax(scores[i]) >= threshold
      ensures Finding(chunks[i], RowMax(scores[i]), kind) in fs
    {
      FlaggedRowsMember(scores, threshold, i);
      var j :| 0 <= j < |rows| && rows[j] == i;
      assert fs[j] == Finding(chunks[i], RowMax(scores[i]), kind);
    }
  }

  /** The chunk text of every finding, in order. */
  function FindingChunks(fs: seq<Finding>): seq<string>
  {
    Map((f: Finding) => f.chunk, fs)
  }

  /** Findings keep the subject chunks' order: their chunks are a subsequence of the subject chunks, and no chunks give no findings. */
  lemma {:induction false} FindingsOrdered(chunks: seq<string>, scores: seq<seq<real>>, threshold: real, kind: OverlapKind)
    requires |scores| == |chunks| && NoEmptyRow(scores)
    ensures IsSubsequence(FindingChunks(Findings(chunks, scores, threshold, kind)), chunks)
    ensures |chunks| == 0 ==> Findings(chunks, scores, threshold, kind) == []
    decreases |chunks|
  {
    if |chunks| > 0 {
      var n := |chunks| - 1;
      var prev := Findings(chunks[..n], scores[..n], threshold, kind);
      FindingsOrdered(chunks[..n], scores[..n], threshold, kind);
      var best := RowMax(scores[n]);
      if best >= threshold {
        var f := Finding(chunks[n], best, kind);
        assert Findings(chunks, scores, threshold, kind) == prev + [f];
        MapAppend((f: Finding) => f.chunk, prev, f);
        var a := FindingChunks(prev + [f]);
        assert a[|a| - 1] == chunks[n] && a[..|a| - 1] == FindingChunks(prev);
      } else {
        assert Findings(chunks, scores, threshold, kind) == prev;
      }
    }
  }

  /** The flag loop of both detectors: keep the chunks whose best score reaches the threshold. */
  method FlagChunks(chunks: seq<string>, scores: seq<seq<real>>, threshold: real, kind: OverlapKind)
    returns (r: Result<seq<Finding>, CheckError>)
    requires |scores| == |chunks|
    ensures r == if NoEmptyRow(scores) then Ok(Findings(chunks, scores, threshold, kind)) else Err(EmptyScoreRow)
  {
    var flagged: seq<Finding> := [];
    var i := 0;
    while i < |chunks|
      invariant 0 <= i <= |chunks|
      invariant NoEmptyRow(scores[..i])
      invariant flagged == Findings(chunks[..i], scores[..i], threshold, kind)
    {
      if |scores[i]| == 0 {
        return Err(EmptyScoreRow);
      }
      var maxSim := RowMax(scores[i]);
      assert chunks[..i + 1][..i] == chunks[..i] && scores[..i + 1][..i] == scores[..i];
      if maxSim >= threshold {
        flagged := flagged + [Finding(chunks[i], maxSim, kind)];
      }
      i := i + 1;
    }
    assert chunks[..i] == chunks && scores[..i] == scores;
    return Ok(flagged);
  }

  /** detect_exact_overlap over its cosine-similarity matrix, one row per subject chunk. */
  method DetectExactOverlap(paperChunks: seq<string>, simMatrix: seq<seq<real>>, threshold: real)
    returns (r: Result<seq<Finding>, CheckError>)
    requires |simMatrix| == |paperChunks|
    ensures r == if NoEmptyRow(simMatrix) then Ok(Findings(paperChunks, simMatrix, threshold, ExactOverlap))
                 else Err(EmptyScoreRow)
    ensures r.Ok? ==> forall f :: f in r.value ==> TypeTag(f.kind) == "exact_overlap"
  {
    r := FlagChunks(paperChunks, simMatrix, threshold, ExactOverlap);
    if r.Ok? {
      FindingsIff(paperChunks, simMatrix, threshold, ExactOverlap);
    }
  }

  /** detect_paraphrase_overlap over its embedding cosine matrix, one row per subject chunk. */
  method DetectParaphraseOverlap(paperChunks: seq<string>, cosScores: seq<seq<real>>, threshold: real)
    returns (r: Result<seq<Finding>, CheckError>)
    requires |cosScores| == |paperChunks|
    ensures r == if NoEmptyRow(cosScores) then Ok(Findings(paperChunks, cosScores, threshold, ParaphraseOverlap))
                 else Err(EmptyScoreRow)
    ensures r.Ok? ==> forall f :: f in r.value ==> TypeTag(f.kind) == "paraphrase_overlap"
  {
    r := FlagChunks(paperChunks, cosScores, threshold, ParaphraseOverlap);
    if r.Ok? {
      FindingsIff(paperChunks, cosScores, threshold, ParaphraseOverlap);
    }
  }

  // ------------------------------------------------------------ report merger

  /** A similarity kernel: the pooled chunks of the call, a subject chunk and a reference chunk. */
  type Kernel = (seq<string>, string, string) -> real

  /** The subject-by-reference score matrix one detector computes. */
  function ScoreMatrix(paperChunks: seq<string>, refChunks: seq<string>, sim: Kernel): (m: seq<seq<real>>)
    ensures |m| == |paperChunks|
    ensures forall i :: 0 <= i < |m| ==> |m[i]| == |refChunks|
    ensures NoEmptyRow(m) <==> |paperChunks| == 0 || |refChunks| > 0
    ensures forall i, j :: 0 <= i < |m| && 0 <= j < |refChunks| ==>
              m[i][j] == sim(paperChunks + refChunks, paperChunks[i], refChunks[j])
  {
    var pool := paperChunks + refChunks;
    var m := seq(|paperChunks|, i requires 0 <= i < |paperChunks| =>
               seq(|refChunks|, j requires 0 <= j < |refChunks| => sim(pool, paperChunks[i], refChunks[j])));
    assert |paperChunks| > 0 ==> |m[0]| == |refChunks|;
    m
  }

  /** Reading every path in order; the first unreadable one aborts. */
  function ReadAll(paths: seq<string>, files: map<string, string>): Result<seq<string>, CheckError>
    decreases |paths|
  {
    if |paths| == 0 then Ok([])
    else
      var n := |paths| - 1;
      match ReadAll(paths[..n], files)
      case Err(e) => Err(e)
      case Ok(texts) => if paths[n] in files then Ok(texts + [files[paths[n]]]) else Err(Unreadable(paths[n]))
  }

  /** All readable gives the texts in path order; otherwise the error names the first unreadable path. */
  lemma {:induction false} ReadAllSpec(paths: seq<string>, files: map<string, string>)
    ensures ReadAll(paths, files).Ok? <==> forall k :: 0 <= k < |paths| ==> paths[k] in files
    ensures ReadAll(paths, files).Ok? ==>
              |ReadAll(paths, files).value| == |paths| &&
              forall k :: 0 <= k < |paths| ==> ReadAll(paths, files).value[k] == files[paths[k]]
    ensures ReadAll(paths, files).Err? ==>
              exists k :: 0 <= k < |paths| && paths[k] !in files && ReadAll(paths, files).error == Unreadable(paths[k])
                          && forall j :: 0 <= j < k ==> paths[j] in files
    decreases |paths|
  {
    if |paths| > 0 {
      var n := |paths| - 1;
      ReadAllSpec(paths[..n], files);
      assert forall k :: 0 <= k < n ==> paths[..n][k] == paths[k];
    }
  }

  /** Once a prefix of the paths fails to read, reading all of them fails the same way. */
  lemma {:induction false} ReadAllKeepsError(paths: seq<string>, files: map<string, string>, i: nat)
    requires i <= |paths| && ReadAll(paths[..i], files).Err?
    ensures ReadAll(paths, files) == ReadAll(paths[..i], files)
    decreases |paths| - i
  {
    if i < |paths| {
      var n := |paths| - 1;
      assert paths[..n][..i] == paths[..i];
      ReadAllKeepsError(paths[..n], files, i);
    } else {
      assert paths[..i] == paths;
    }
  }

  /** The loop that loads every reference text. */
  method LoadReferenceTexts(refPaths: seq<string>, files: map<string, string>)
    returns (r: Result<seq<string>, CheckError>)
    ensures r == ReadAll(refPaths, files)
  {
    var texts: seq<string> := [];
    var i := 0;
    while i < |refPaths|
      invariant 0 <= i <= |refPaths|
      invariant ReadAll(refPaths[..i], files) == Ok(texts)
    {
      assert refPaths[..i + 1][..i] == refPaths[..i];
      if refPaths[i] !in files {
        ReadAllKeepsError(refPaths, files, i + 1);
        return Err(Unreadable(refPaths[i]));
      }
      texts := texts + [files[refPaths[i]]];
      i := i + 1;
    }
    assert refPaths[..i] == refPaths;
    return Ok(texts);
  }

  /** The chunks of one reference text. */
  function ReferenceChunks(text: string): seq<string>
  {
    Chunks(text, DefaultChunkSize)
  }

  /** The pooled reference chunks: every reference's chunks, concatenated in reference order. */
  function PooledChunks(refTexts: seq<string>): seq<string>
  {
    Flatten(Map(ReferenceChunks, refTexts))
  }

  /** A chunk is pooled iff some reference produces it (which one is not kept). */
  lemma PooledChunksMember(refTexts: seq<string>, c: string)
    ensures c in PooledChunks(refTexts) <==> exists k :: 0 <= k < |refTexts| && c in Chunks(refTexts[k], DefaultChunkSize)
  {
    var per := Map(ReferenceChunks, refTexts);
    FlattenMember(per, c);
    if exists k :: 0 <= k < |refTexts| && c in Chunks(refTexts[k], DefaultChunkSize) {
      var k :| 0 <= k < |refTexts| && c in Chunks(refTexts[k], DefaultChunkSize);
      assert c in per[k];
    }
  }

  /** The loop that extends the pooled reference chunks with each text's chunks. */
  method PoolReferenceChunks(refTexts: seq<string>) returns (pooled: seq<string>)
    ensures pooled == PooledChunks(refTexts)
  {
    pooled := [];
    var i := 0;
    while i < |refTexts|
      invariant 0 <= i <= |refTexts|
      invariant pooled == Flatten(Map(ReferenceChunks, refTexts[..i]))
    {
      var chunks := Chunks(refTexts[i], DefaultChunkSize);
      MapExtend(ReferenceChunks, refTexts, i);
      FlattenAppend(Map(ReferenceChunks, refTexts[..i]), chunks);
      pooled := pooled + chunks;
      i := i + 1;
    }
    assert refTexts[..i] == refTexts;
  }

  datatype Summary = Summary(exactOverlapCount: nat, paraphraseOverlapCount: nat)

  /** The saved report: the paths as given, both finding lists and their counts. */
  datatype Report = Report(
    paper: string,
    references: seq<string>,
    exactOverlap: seq<Finding>,
    paraphraseOverlap: seq<Finding>,
    summary: Summary)

  /**
   * plagiarism_check: chunk the subject once, pool every reference's chunks,
   * run both detectors over the same chunk sets and merge the findings with
   * their counts. An unreadable file aborts the check, and so does an empty
   * subject or reference chunk list, on which the exact detector raises
   * before any row is flagged.
   */
  method PlagiarismCheck(paperPath: string, refPaths: seq<string>, files: map<string, string>,
                         exactSim: Kernel, paraphraseSim: Kernel)
    returns (r: Result<Report, CheckError>)
    ensures paperPath !in files ==> r == Err(Unreadable(paperPath))
    ensures paperPath in files && ReadAll(refPaths, files).Err? ==> r == Err(ReadAll(refPaths, files).error)
    ensures paperPath in files && ReadAll(refPaths, files).Ok? ==>
              var paperChunks := Chunks(files[paperPath], DefaultChunkSize);
              var refChunks := PooledChunks(ReadAll(refPaths, files).value);
              if |paperChunks| == 0 || |refChunks| == 0 then r == Err(EmptyChunkList)
              else
                && r.Ok?
                && r.value.paper == paperPath
                && r.value.references == refPaths
                && r.value.exactOverlap
                   == Findings(paperChunks, ScoreMatrix(paperChunks, refChunks, exactSim), ExactThreshold, ExactOverlap)
                && r.value.paraphraseOverlap
                   == Findings(paperChunks, ScoreMatrix(paperChunks, refChunks, paraphraseSim),
                               ParaphraseThreshold, ParaphraseOverlap)
                && r.value.summary == Summary(|r.value.exactOverlap|, |r.value.paraphraseOverlap|)
  {
    if paperPath !in files {
      return Err(Unreadable(paperPath));
    }
    var paperChunks := Chunks(files[paperPath], DefaultChunkSize);
    var loaded := LoadReferenceTexts(refPaths, files);
    if loaded.Err? {
      return Err(loaded.error);
    }
    var refChunks := PoolReferenceChunks(loaded.value);
    if |paperChunks| == 0 || |refChunks| == 0 {
      return Err(EmptyChunkList);
    }
    // With chunks on both sides every score row is non-empty, so neither detector fails.
    var exact := DetectExactOverlap(paperChunks, ScoreMatrix(paperChunks, refChunks, exactSim), ExactThreshold);
    var paraphrase := DetectParaphraseOverlap(paperChunks, ScoreMatrix(paperChunks, refChunks, paraphraseSim),
                                              ParaphraseThreshold);
    assert exact.Ok? && paraphrase.Ok?;
    var summary := Summary(|exact.value|, |paraphrase.value|);
    return Ok(Report(paperPath, refPaths, exact.value, paraphrase.value, summary));
  }
}
