/** The FAQ-to-chunks step of build_vectorstore.py: every question/answer row
    of the FAQ table becomes one labelled text, and the chunks of all row
    texts are collected, in row order, into one list. */
module FaqChunks {
  import opened Chunking

  datatype Option<T> = None | Some(value: T)

  /** One row of the FAQ table: the customer's question and the customer
      service's answer, both as text. */
  datatype FaqRow = FaqRow(question: string, answer: string)

  const QuestionLabel: string := "Vraag: "
  const AnswerLabel: string := "\nAntwoord: "

  /** The answer label occurs in `s` at offset `j`. */
  predicate LabelAt(s: string, j: int) {
    0 <= j && j + |AnswerLabel| <= |s| && s[j..j + |AnswerLabel|] == AnswerLabel
  }

  predicate HasLabel(s: string) {
    exists j :: 0 <= j < |s| && LabelAt(s, j)
  }

  /** The text of one row (the "tekst" column): the question label, the
      question, the answer label and the answer. */
  function RowText(row: FaqRow): (r: string)
    ensures |r| == |QuestionLabel| + |row.question| + |AnswerLabel| + |row.answer|
    ensures r[..|QuestionLabel|] == QuestionLabel
    ensures r[|QuestionLabel|..|QuestionLabel| + |row.question|] == row.question
    ensures LabelAt(r, |QuestionLabel| + |row.question|)
    ensures r[|QuestionLabel| + |row.question| + |AnswerLabel|..] == row.answer
  {
    QuestionLabel + row.question + AnswerLabel + row.answer
  }

  /** The first offset at or after `i` where the answer label occurs. */
  function FindLabel(s: string, i: nat): (r: Option<nat>)
    ensures r.Some? ==> i <= r.value && LabelAt(s, r.value)
    ensures r.Some? ==> forall j :: i <= j < r.value ==> !LabelAt(s, j)
    ensures r.None? ==> forall j :: i <= j ==> !LabelAt(s, j)
    decreases |s| - i
  {
    if |s| < i + |AnswerLabel| then None
    else if LabelAt(s, i) then Some(i)
    else FindLabel(s, i + 1)
  }

  /** Reads a row back from its text, splitting at the first answer label. */
  function ParseRow(s: string): Option<FaqRow> {
    if |s| < |QuestionLabel| || s[..|QuestionLabel|] != QuestionLabel then None
    else
      match FindLabel(s, |QuestionLabel|)
      case None => None
      case Some(j) => Some(FaqRow(s[|QuestionLabel|..j], s[j + |AnswerLabel|..]))
  }

  /** The answer label holds one newline, its first character. */
  lemma AnswerLabelNewlineFirst()
    ensures AnswerLabel[0] == '\n'
    ensures forall d :: 0 < d < |AnswerLabel| ==> AnswerLabel[d] != '\n'
  {
  }

  lemma LabelNewlineFirst(s: string, j: int)
    requires LabelAt(s, j)
    ensures s[j] == '\n'
  {
    assert s[j] == s[j..j + |AnswerLabel|][0];
  }

  /** Inside an occurrence of the answer label, only its first character is
      a newline. */
  lemma LabelNoLaterNewline(s: string, j: int, i: int)
    requires LabelAt(s, j) && j < i < j + |AnswerLabel|
    ensures s[i] != '\n'
  {
    AnswerLabelNewlineFirst();
    assert s[i] == s[j..j + |AnswerLabel|][i - j];
  }

  /** A row whose question does not contain the answer label is recovered
      from its text. */
  lemma ParseRowText(row: FaqRow)
    requires !HasLabel(row.question)
    ensures ParseRow(RowText(row)) == Some(row)
  {
    var s := RowText(row);
    var p := |QuestionLabel|;
    var j0 := p + |row.question|;
    var found := FindLabel(s, p);
    assert found.Some? && found.value <= j0;
    var j := found.value;
    if j + |AnswerLabel| <= j0 {
      // a label wholly inside the question
      assert s[j..j + |AnswerLabel|] == row.question[j - p..j - p + |AnswerLabel|];
      assert LabelAt(row.question, j - p);
      assert false;
    } else if j < j0 {
      // a label straddling the end of the question: the newline that starts
      // the label at j0 would have to be a later character of the label at j
      LabelNewlineFirst(s, j0);
      LabelNoLaterNewline(s, j, j0);
      assert false;
    }
    assert s == QuestionLabel + row.question + AnswerLabel + row.answer;
  }

  /** A label inside a part of `s` is a label of `s` at the shifted offset. */
  lemma LabelInside(s: string, p: nat, part: string, i: int)
    requires p + |part| <= |s| && s[p..p + |part|] == part
    ensures LabelAt(part, i) ==> LabelAt(s, p + i)
  {
    if LabelAt(part, i) {
      var n := |AnswerLabel|;
      var inS, inPart := s[p + i..p + i + n], part[i..i + n];
      forall k | 0 <= k < n
        ensures inS[k] == inPart[k]
      {
        assert part[i + k] == s[p..p + |part|][i + k];
      }
      assert inS == inPart;
    }
  }

  /** Whatever `ParseRow` accepts is the text of the row it returns, and
      that row's question does not contain the answer label. */
  lemma ParsedRowText(s: string, row: FaqRow)
    requires ParseRow(s) == Some(row)
    ensures RowText(row) == s
    ensures !HasLabel(row.question)
  {
    var p := |QuestionLabel|;
    var j := FindLabel(s, p).value;
    assert row.question == s[p..j] && row.answer == s[j + |AnswerLabel|..];
    assert s == s[..p] + s[p..j] + s[j..j + |AnswerLabel|] + s[j + |AnswerLabel|..];
    forall i | 0 <= i < |row.question|
      ensures !LabelAt(row.question, i)
    {
      LabelInside(s, p, row.question, i);
    }
  }

  /** A question that contains the answer label makes the row text
      ambiguous: two different rows share one text. */
  lemma RowTextAmbiguous(q: string, m: string, a: string)
    ensures RowText(FaqRow(q + AnswerLabel + m, a)) == RowText(FaqRow(q, m + AnswerLabel + a))
  {
  }

  /** The "tekst" column: one row text per FAQ row, in row order. */
  function TextColumn(rows: seq<FaqRow>): (texts: seq<string>)
    ensures |texts| == |rows|
    ensures forall i :: 0 <= i < |rows| ==> texts[i] == RowText(rows[i])
  {
    seq(|rows|, i requires 0 <= i < |rows| => RowText(rows[i]))
  }

  /** `split_text` with its default parameters, as the index builder calls it. */
  function DefaultChunks(text: string): seq<string> {
    Chunks(text, DefaultChunkSize, DefaultOverlap)
  }

  /** The sum over the texts of ceil(|text| / (500 - 50)): the per-text chunk
      counts added up. */
  function ChunkTotal(texts: seq<string>): nat {
    if texts == [] then 0
    else ChunkTotal(texts[..|texts| - 1]) + CeilDiv(|texts[|texts| - 1]|, DefaultChunkSize - DefaultOverlap)
  }

  /** The chunk list of the index builder: the chunks of every text, in
      order. */
  function AllChunks(texts: seq<string>): (r: seq<string>)
    ensures |r| == ChunkTotal(texts)
  {
    if texts == [] then []
    else AllChunks(texts[..|texts| - 1]) + DefaultChunks(texts[|texts| - 1])
  }

  /** The loop over the "tekst" column that extends one list with the
      chunks of each text. */
  method CollectChunks(texts: seq<string>) returns (chunks: seq<string>)
    ensures chunks == AllChunks(texts)
  {
    chunks := [];
    for i := 0 to |texts|
      invariant chunks == AllChunks(texts[..i])
    {
      var part := SplitText(texts[i], DefaultChunkSize, DefaultOverlap);
      assert texts[..i + 1][..i] == texts[..i];
      chunks := chunks + part;
    }
    assert texts[..|texts|] == texts;
  }

  /** Chunk k of text j sits in the collected list right after the chunks of
      the texts before it. */
  lemma {:induction false} AllChunksAt(texts: seq<string>, j: nat, k: nat)
    requires j < |texts|
    requires k < |DefaultChunks(texts[j])|
    ensures ChunkTotal(texts[..j]) + k < |AllChunks(texts)|
    ensures AllChunks(texts)[ChunkTotal(texts[..j]) + k] == DefaultChunks(texts[j])[k]
  {
    var init := texts[..|texts| - 1];
    if j < |texts| - 1 {
      assert init[..j] == texts[..j];
      AllChunksAt(init, j, k);
    } else {
      assert init == texts[..j];
    }
  }

  /** Every collected chunk is a chunk of one of the texts, and so non-empty
      and at most 500 characters long. */
  lemma {:induction false} AllChunksOrigin(texts: seq<string>, c: string)
    requires c in AllChunks(texts)
    ensures exists j :: 0 <= j < |texts| && c in DefaultChunks(texts[j])
    ensures 0 < |c| <= DefaultChunkSize
  {
    var init := texts[..|texts| - 1];
    var last := texts[|texts| - 1];
    if c in AllChunks(init) {
      AllChunksOrigin(init, c);
      var j :| 0 <= j < |init| && c in DefaultChunks(init[j]);
      assert texts[j] == init[j];
    } else {
      assert c in DefaultChunks(last);
      ChunkLengths(last, DefaultChunkSize, DefaultOverlap);
    }
  }

  /** The number of chunks a row contributes: its text is the question and
      the answer plus the two labels, cut every 450 characters. */
  function RowChunkTotal(rows: seq<FaqRow>): nat {
    if rows == [] then 0
    else
      var row := rows[|rows| - 1];
      RowChunkTotal(rows[..|rows| - 1])
        + CeilDiv(|QuestionLabel| + |row.question| + |AnswerLabel| + |row.answer|, DefaultChunkSize - DefaultOverlap)
  }

  /** The chunk list built from a FAQ table has, per row, ceil((|question| +
      |answer| + 18) / 450) chunks. */
  lemma {:induction false} RowsChunkCount(rows: seq<FaqRow>)
    ensures |AllChunks(TextColumn(rows))| == RowChunkTotal(rows)
  {
    if rows != [] {
      var init := rows[..|rows| - 1];
      RowsChunkCount(init);
      var texts := TextColumn(rows);
      assert texts[..|texts| - 1] == TextColumn(init);
    }
  }
}
