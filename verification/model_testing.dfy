/** The scoring part of `model_testing`. For every model and every category of
    questions, each question (A, B, C, D) asks the model for the words closest
    to A + D - C and counts as correct when B is among the first candidates,
    trying several case combinations; on a miss or a failure the query is
    repeated with lower-cased words and only the first four candidates are
    looked at. A question whose words cannot be queried at all is not present.
    Each (model, category) pair gives one result row.

    The embedding library is not modelled: `most_similar` is an oracle that
    returns the ranked candidate words or `None` when it raises (a word missing
    from the vocabulary), and lower-casing is an uninterpreted function. */
module ModelTesting {
  import opened Wrappers
  import opened PyStrings
  import opened OrderedDicts

  /** How a version of the script turns a question word into a query word, and
      a lower-cased question word into one, and how it lower-cases returned
      candidates. Turning a question word into a query word can raise (`None`):
      Python 2 decodes bytes as UTF-8 there. */
  datatype Casing = Casing(
    word: string -> Option<string>,
    lowerWord: string -> Option<string>,
    lowerCandidate: string -> string)

  /** Python 3 queries question words as they are and lower-cases with `str.lower`. */
  function Python3Casing(lower: string -> string): (c: Casing)
    ensures forall a, top :: FirstAttemptTest(c, a, top).Some? && FallbackTest(c, a, top).Some?
  {
    Casing(w => Some(w), w => Some(lower(w)), lower)
  }

  /** Python 2 reads byte strings: it queries `unicode(w, "utf-8")`, which
      raises on bytes that are not UTF-8, lower-cases the bytes before decoding
      (`unicode(w.lower(), "utf-8")`) and lower-cases the returned text
      candidates. */
  function Python2Casing(decode: string -> Option<string>, lowerBytes: string -> string,
                         lowerText: string -> string): (c: Casing)
    ensures forall a, top :: decode(a).None? ==> FirstAttemptTest(c, a, top).None?
    ensures forall a, top :: FallbackTest(c, a, top).None? <==> decode(lowerBytes(a)).None?
  {
    Casing(decode, w => decode(lowerBytes(w)), lowerText)
  }

  /** A loaded model: the name it is reported under and its vectors. */
  datatype Model<V> = Model(name: string, vectors: V)

  /** What the scoring depends on: the library's `most_similar(vectors,
      positive, negative)`, the casing of the script version, and `first_n`. */
  datatype Evaluator<!V> = Evaluator(
    mostSimilar: (V, seq<string>, seq<string>) -> Option<seq<string>>,
    casing: Casing,
    firstN: int)

  /** The number of candidates the lower-cased retry looks at, whatever `first_n` is. */
  const FallbackDepth: int := 4

  /** `[s.lower() for s in sim]` */
  function Lowered(lower: string -> string, words: seq<string>): (r: seq<string>)
    ensures |r| == |words|
  {
    seq(|words|, i requires 0 <= i < |words| => lower(words[i]))
  }

  /** The first attempt's test: B, or B lower-cased, is among the candidates or
      among the lower-cased candidates. The four alternatives are tried in
      order and the first that holds ends the test, so the lower-cased B is
      only converted when B itself is not among the candidates; `None` is a
      conversion that raised. */
  function FirstAttemptTest(c: Casing, answer: string, top: seq<string>): (hit: Option<bool>)
  {
    match c.word(answer)
    case None => None
    case Some(w) =>
      if w in top then Some(true)
      else
        match c.lowerWord(answer)
        case None => None
        case Some(lw) => Some(lw in top || w in Lowered(c.lowerCandidate, top) || lw in Lowered(c.lowerCandidate, top))
  }

  /** The retry's test: B lower-cased is among the candidates or among the
      lower-cased candidates; `None` when converting B raised. */
  function FallbackTest(c: Casing, answer: string, top: seq<string>): (hit: Option<bool>)
  {
    match c.lowerWord(answer)
    case None => None
    case Some(lw) => Some(lw in top || lw in Lowered(c.lowerCandidate, top))
  }

  /** A query to `most_similar`, or `None` when converting one of its words
      raised or the library raised. */
  function Query<V>(e: Evaluator<V>, vectors: V, convert: string -> Option<string>,
                    a: string, d: string, c: string): (ranked: Option<seq<string>>)
  {
    var a', d', c' := convert(a), convert(d), convert(c);
    if a'.None? || d'.None? || c'.None? then None
    else e.mostSimilar(vectors, [a'.value, d'.value], [c'.value])
  }

  /** The first query, as written: positive A and D, negative C. */
  function FirstQuery<V>(e: Evaluator<V>, vectors: V, q: seq<string>): (ranked: Option<seq<string>>)
    requires |q| >= 4
  {
    Query(e, vectors, e.casing.word, q[0], q[3], q[2])
  }

  /** The retry: the same query with lower-cased words. */
  function RetryQuery<V>(e: Evaluator<V>, vectors: V, q: seq<string>): (ranked: Option<seq<string>>)
    requires |q| >= 4
  {
    Query(e, vectors, e.casing.lowerWord, q[0], q[3], q[2])
  }

  /** The candidate column `pd.DataFrame(ranked)[:k][0]`: an empty ranking
      gives a frame without column 0, and selecting it raises (`None`). */
  function Column(ranked: Option<seq<string>>, k: int): (top: Option<seq<string>>)
    ensures top.Some? <==> ranked.Some? && ranked.value != []
    ensures top.Some? ==> top.value <= ranked.value
    ensures top.Some? && 0 <= k ==> |top.value| == if k <= |ranked.value| then k else |ranked.value|
  {
    if ranked.None? || |ranked.value| == 0 then None else Some(SliceTo(ranked.value, k))
  }

  /** The effect of one question on the counters: `n` goes up (Correct), `m`
      goes down (Absent), or neither changes (Missed). */
  datatype Outcome = Correct | Missed | Absent

  /** The outcome of one question. A question with fewer than four fields makes
      `questions[i][3]` raise in the first attempt and again in the retry. The
      first attempt raising, at the query, at the column or at the test, leads
      to the same retry as a miss; the retry raising makes the question
      absent. */
  function Judge<V>(e: Evaluator<V>, vectors: V, q: seq<string>): (o: Outcome)
  {
    if |q| < 4 then Absent
    else
      var first := Column(FirstQuery(e, vectors, q), e.firstN);
      var hit := if first.Some? then FirstAttemptTest(e.casing, q[1], first.value) else None;
      if hit == Some(true) then Correct
      else
        var retry := Column(RetryQuery(e, vectors, q), FallbackDepth);
        var fallback := if retry.Some? then FallbackTest(e.casing, q[1], retry.value) else None;
        if fallback.None? then Absent
        else if fallback.value then Correct
        else Missed
  }

  /** How many of `questions` have outcome `o`. */
  function Count<V>(e: Evaluator<V>, vectors: V, questions: seq<seq<string>>, o: Outcome): (count: nat)
  {
    if |questions| == 0 then 0
    else
      var n := |questions| - 1;
      Count(e, vectors, questions[..n], o) + if Judge(e, vectors, questions[n]) == o then 1 else 0
  }

  /** Every question has exactly one outcome. */
  lemma {:induction false} OutcomesPartition<V>(e: Evaluator<V>, vectors: V, questions: seq<seq<string>>)
    ensures Count(e, vectors, questions, Correct) + Count(e, vectors, questions, Missed)
            + Count(e, vectors, questions, Absent) == |questions|
  {
    if |questions| > 0 {
      OutcomesPartition(e, vectors, questions[..|questions| - 1]);
    }
  }

  /** The counting loop of `model_testing` for one model and one category: `n`
      counts the correct questions and `m` starts at the number of questions and
      loses the ones that could not be queried. */
  method ScoreCategory<V>(e: Evaluator<V>, vectors: V, questions: seq<seq<string>>) returns (n: int, m: int)
    ensures n == Count(e, vectors, questions, Correct)
    ensures m == |questions| - Count(e, vectors, questions, Absent)
    ensures 0 <= n <= m <= |questions|
  {
    n := 0;
    m := |questions|;
    for i := 0 to |questions|
      invariant n == Count(e, vectors, questions[..i], Correct)
      invariant m == |questions| - Count(e, vectors, questions[..i], Absent)
    {
      var q := questions[i];
      // `None` stands for the IndexError raised by a question with fewer than four fields.
      var first := if |q| >= 4 then Column(FirstQuery(e, vectors, q), e.firstN) else None;
      var hit := if first.Some? then FirstAttemptTest(e.casing, q[1], first.value) else None;
      if hit == Some(true) {
        n := n + 1;
      } else {
        // A miss and a raised first attempt both run the same lower-cased retry.
        var retry := if |q| >= 4 then Column(RetryQuery(e, vectors, q), FallbackDepth) else None;
        var fallback := if retry.Some? then FallbackTest(e.casing, q[1], retry.value) else None;
        if fallback.None? {
          m := m - 1;
        } else if fallback.value {
          n := n + 1;
        }
      }
      assert questions[..i + 1][..i] == questions[..i];
    }
    assert questions[..|questions|] == questions;
    OutcomesPartition(e, vectors, questions);
  }

  /** An accuracy cell of the result: empty, or a percentage. */
  datatype Accuracy = Blank | Percent(value: real)

  /** One result row: model, type of questions, accuracy over present questions,
      accuracy over all questions, the "no words in vocabulary" mark, number of
      questions, number of present questions. */
  datatype Row = Row(
    model: string,
    kind: string,
    accuracy1: Accuracy,
    accuracy2: Accuracy,
    noWords: string,
    total: nat,
    present: int)

  /** The row of one category: `key.split(" ")[1]` names the type of questions,
      and raises (`None`) when the key has no space. Without present questions
      both accuracies are empty and the row is marked "+", so nothing is divided
      by zero. */
  function CategoryRow(name: string, key: string, n: int, m: int, total: nat): (r: Option<Row>)
    requires 0 <= n <= m <= total
    ensures r.Some? <==> ' ' in key
    ensures r.Some? ==> r.value.model == name && r.value.kind == Split(key, ' ')[1]
    ensures r.Some? ==> r.value.total == total && r.value.present == m
    ensures r.Some? ==> (r.value.noWords == "+" <==> m == 0)
    ensures r.Some? && m == 0 ==> r.value.accuracy1 == Blank && r.value.accuracy2 == Blank
    ensures r.Some? && m != 0 ==>
      && r.value.accuracy1.Percent? && r.value.accuracy2.Percent?
      && r.value.accuracy1.value * (m as real) == (n as real) * 100.0
      && r.value.accuracy2.value * (total as real) == (n as real) * 100.0
      && 0.0 <= r.value.accuracy2.value <= r.value.accuracy1.value <= 100.0
  {
    SplitHead(key, ' ');
    var parts := Split(key, ' ');
    if |parts| < 2 then None
    else if m != 0 then
      var acc := (n as real) / (m as real) * 100.0;
      var accGeneral := (n as real) / (total as real) * 100.0;
      AccuracyBounds(n, m, total);
      Some(Row(name, parts[1], Percent(acc), Percent(accGeneral), "", total, m))
    else
      Some(Row(name, parts[1], Blank, Blank, "+", total, m))
  }

  /** Correct over present is at most 100%, and correct over all is at most
      correct over present. */
  lemma AccuracyBounds(n: int, m: int, total: int)
    requires 0 <= n <= m <= total && m != 0
    ensures (n as real) / (m as real) * 100.0 * (m as real) == (n as real) * 100.0
    ensures (n as real) / (total as real) * 100.0 * (total as real) == (n as real) * 100.0
    ensures 0.0 <= (n as real) / (total as real) * 100.0 <= (n as real) / (m as real) * 100.0 <= 100.0
  {
    var a := (n as real) / (m as real);
    var b := (n as real) / (total as real);
    assert a * (m as real) == n as real;
    assert b * (total as real) == n as real;
    assert (1.0 - a) * (m as real) == (m as real) - (n as real);
    assert a <= 1.0;
    assert 0.0 <= b;
    assert (a - b) * (m as real) == b * ((total as real) - (m as real));
    assert b * ((total as real) - (m as real)) >= 0.0;
    assert b <= a;
  }

  /** The row `model_testing` emits for one model and one category. */
  function RowOf<V>(e: Evaluator<V>, model: Model<V>, category: Entry<string, seq<seq<string>>>): (row: Option<Row>)
  {
    OutcomesPartition(e, model.vectors, category.value);
    CategoryRow(model.name, category.key,
      Count(e, model.vectors, category.value, Correct),
      |category.value| - Count(e, model.vectors, category.value, Absent),
      |category.value|)
  }

  /** Every category key has a space, so every row names its type of questions. */
  predicate SpacedKeys(categories: Dict<string, seq<seq<string>>>)
  {
    forall j :: 0 <= j < |categories| ==> ' ' in categories[j].key
  }

  /** `SpacedKeys` depends only on the keys. */
  lemma SpacedKeysByKeys(categories: Dict<string, seq<seq<string>>>)
    ensures SpacedKeys(categories) <==> forall k :: k in Keys(categories) ==> ' ' in k
  {
    if SpacedKeys(categories) {
      forall k | k in Keys(categories)
        ensures ' ' in k
      {
        var j :| 0 <= j < |categories| && Keys(categories)[j] == k;
      }
    } else {
      var j :| 0 <= j < |categories| && ' ' !in categories[j].key;
      assert Keys(categories)[j] == categories[j].key;
    }
  }

  /** The values of `cells` in order, or `None` when one of them is missing. */
  function Present<T>(cells: seq<Option<T>>): (values: Option<seq<T>>)
  {
    if |cells| == 0 then Some([])
    else
      var n := |cells| - 1;
      var earlier := Present(cells[..n]);
      if earlier.Some? && cells[n].Some? then Some(earlier.value + [cells[n].value]) else None
  }

  /** `Present` fails exactly when a cell is missing, and otherwise keeps every
      cell at its position. */
  lemma {:induction false} PresentShape<T>(cells: seq<Option<T>>)
    ensures Present(cells).None? <==> exists j :: 0 <= j < |cells| && cells[j].None?
    ensures Present(cells).Some? ==> |Present(cells).value| == |cells|
    ensures Present(cells).Some? ==> forall j :: 0 <= j < |cells| ==> Some(Present(cells).value[j]) == cells[j]
  {
    if |cells| > 0 {
      var n := |cells| - 1;
      PresentShape(cells[..n]);
      assert forall j :: 0 <= j < n ==> cells[..n][j] == cells[j];
    }
  }

  /** The blocks end to end, or `None` when one of them is missing. */
  function Joined<T>(blocks: seq<Option<seq<T>>>): (joined: Option<seq<T>>)
  {
    if |blocks| == 0 then Some([])
    else
      var n := |blocks| - 1;
      var earlier := Joined(blocks[..n]);
      if earlier.Some? && blocks[n].Some? then Some(earlier.value + blocks[n].value) else None
  }

  /** Blocks that are all `width` long join into `|blocks| * width` elements,
      unless one of them is missing. */
  lemma {:induction false} JoinedShape<T>(blocks: seq<Option<seq<T>>>, width: nat)
    requires forall i :: 0 <= i < |blocks| && blocks[i].Some? ==> |blocks[i].value| == width
    ensures Joined(blocks).None? <==> exists i :: 0 <= i < |blocks| && blocks[i].None?
    ensures Joined(blocks).Some? ==> |Joined(blocks).value| == |blocks| * width
  {
    if |blocks| > 0 {
      var n := |blocks| - 1;
      JoinedShape(blocks[..n], width);
      assert forall i :: 0 <= i < n ==> blocks[..n][i] == blocks[i];
      if Joined(blocks).Some? {
        assert n * width + width == (n + 1) * width;
      }
    }
  }

  /** One more present block extends the joined elements by that block. */
  lemma JoinedNext<T>(blocks: seq<Option<seq<T>>>, i: nat)
    requires i < |blocks| && Joined(blocks[..i]).Some? && blocks[i].Some?
    ensures Joined(blocks[..i + 1]) == Some(Joined(blocks[..i]).value + blocks[i].value)
  {
    assert blocks[..i + 1][..i] == blocks[..i];
  }

  /** Element `j` of block `i` is element `i * width + j` of the joined blocks. */
  lemma {:induction false} JoinedCell<T>(blocks: seq<Option<seq<T>>>, width: nat, i: nat, j: nat)
    requires forall i :: 0 <= i < |blocks| && blocks[i].Some? ==> |blocks[i].value| == width
    requires Joined(blocks).Some? && i < |blocks| && j < width
    ensures blocks[i].Some?
    ensures i * width + j < |Joined(blocks).value|
    ensures Joined(blocks).value[i * width + j] == blocks[i].value[j]
  {
    var n := |blocks| - 1;
    var earlier := Joined(blocks[..n]);
    JoinedShape(blocks[..n], width);
    assert forall i :: 0 <= i < n ==> blocks[..n][i] == blocks[i];
    if i < n {
      JoinedCell(blocks[..n], width, i, j);
      CellBeforeRow(i, j, n, width);
    } else {
      assert i * width + j == |earlier.value| + j;
    }
  }

  /** A cell of an earlier row of a table `width` wide comes before row `n`. */
  lemma CellBeforeRow(i: nat, j: nat, n: nat, width: nat)
    requires i < n && j < width
    ensures i * width + j < n * width
  {
    assert (i + 1) * width <= n * width;
  }

  /** The row of every category for one model, in dictionary order. */
  function RowCells<V>(e: Evaluator<V>, model: Model<V>, categories: Dict<string, seq<seq<string>>>): (cells: seq<Option<Row>>)
    ensures |cells| == |categories|
  {
    seq(|categories|, j requires 0 <= j < |categories| => RowOf(e, model, categories[j]))
  }

  /** The rows of one model, or `None` when some row raises. */
  function CategoryRows<V>(e: Evaluator<V>, model: Model<V>, categories: Dict<string, seq<seq<string>>>): (rows: Option<seq<Row>>)
  {
    Present(RowCells(e, model, categories))
  }

  /** The rows of all models, model after model, or `None` when some row raises. */
  function AllRows<V>(e: Evaluator<V>, models: seq<Model<V>>, categories: Dict<string, seq<seq<string>>>): (rows: Option<seq<Row>>)
  {
    Joined(seq(|models|, i requires 0 <= i < |models| => CategoryRows(e, models[i], categories)))
  }

  /** One model's rows fail exactly when some category key has no space;
      otherwise the row of category `j` is at position `j`. */
  lemma CategoryRowsShape<V>(e: Evaluator<V>, model: Model<V>, categories: Dict<string, seq<seq<string>>>)
    ensures CategoryRows(e, model, categories).None? <==> !SpacedKeys(categories)
    ensures CategoryRows(e, model, categories).Some? ==>
              && |CategoryRows(e, model, categories).value| == |categories|
              && forall j :: 0 <= j < |categories| ==>
                   Some(CategoryRows(e, model, categories).value[j]) == RowOf(e, model, categories[j])
  {
    var cells := RowCells(e, model, categories);
    PresentShape(cells);
    assert forall j :: 0 <= j < |categories| ==> (cells[j].None? <==> ' ' !in categories[j].key);
  }

  /** All rows fail exactly when there is a model and some category key has
      no space; otherwise there is one row per model and category. */
  lemma AllRowsShape<V>(e: Evaluator<V>, models: seq<Model<V>>, categories: Dict<string, seq<seq<string>>>)
    ensures AllRows(e, models, categories).None? <==> |models| > 0 && !SpacedKeys(categories)
    ensures AllRows(e, models, categories).Some? ==>
              |AllRows(e, models, categories).value| == |models| * |categories|
  {
    var blocks := seq(|models|, i requires 0 <= i < |models| => CategoryRows(e, models[i], categories));
    CategoryRowsLengths(e, models, categories, blocks);
    JoinedShape(blocks, |categories|);
    if |models| > 0 {
      CategoryRowsShape(e, models[0], categories);
      assert blocks[0] == CategoryRows(e, models[0], categories);
    }
  }

  lemma CategoryRowsLengths<V>(e: Evaluator<V>, models: seq<Model<V>>, categories: Dict<string, seq<seq<string>>>,
                               blocks: seq<Option<seq<Row>>>)
    requires blocks == seq(|models|, i requires 0 <= i < |models| => CategoryRows(e, models[i], categories))
    ensures forall i :: 0 <= i < |blocks| && blocks[i].Some? ==> |blocks[i].value| == |categories|
    ensures forall i :: 0 <= i < |blocks| ==> (blocks[i].None? <==> !SpacedKeys(categories))
  {
    forall i | 0 <= i < |blocks|
      ensures blocks[i].Some? ==> |blocks[i].value| == |categories|
      ensures blocks[i].None? <==> !SpacedKeys(categories)
    {
      CategoryRowsShape(e, models[i], categories);
    }
  }

  /** The row of model `i` and category `j` is at position
      `i * |categories| + j`: models in order, and within a model the
      categories in dictionary order. */
  lemma AllRowsCell<V>(e: Evaluator<V>, models: seq<Model<V>>, categories: Dict<string, seq<seq<string>>>,
                       i: nat, j: nat)
    requires AllRows(e, models, categories).Some?
    requires i < |models| && j < |categories|
    ensures i * |categories| + j < |AllRows(e, models, categories).value|
    ensures Some(AllRows(e, models, categories).value[i * |categories| + j]) == RowOf(e, models[i], categories[j])
  {
    var blocks := seq(|models|, i requires 0 <= i < |models| => CategoryRows(e, models[i], categories));
    CategoryRowsLengths(e, models, categories, blocks);
    JoinedCell(blocks, |categories|, i, j);
    CategoryRowsShape(e, models[i], categories);
  }

  /** The inner loop of `model_testing`: score every category with one model
      and emit its row. The first category key without a space raises. */
  method ModelRows<V>(model: Model<V>, categories: Dict<string, seq<seq<string>>>, e: Evaluator<V>)
    returns (rows: Option<seq<Row>>)
    ensures rows == CategoryRows(e, model, categories)
    ensures rows.None? <==> !SpacedKeys(categories)
  {
    ghost var cells := RowCells(e, model, categories);
    var emitted: seq<Row> := [];
    for j := 0 to |categories|
      invariant Some(emitted) == Present(cells[..j])
    {
      var n, m := ScoreCategory(e, model.vectors, categories[j].value);
      var row := CategoryRow(model.name, categories[j].key, n, m, |categories[j].value|);
      assert row == cells[j];
      if row.None? {
        PresentMissing(cells, j);
        CategoryRowsShape(e, model, categories);
        return None;
      }
      PresentNext(cells, j);
      emitted := emitted + [row.value];
    }
    assert cells[..|categories|] == cells;
    rows := Some(emitted);
    CategoryRowsShape(e, model, categories);
  }

  /** One more present cell extends the values by that cell. */
  lemma PresentNext<T>(cells: seq<Option<T>>, j: nat)
    requires j < |cells| && Present(cells[..j]).Some? && cells[j].Some?
    ensures Present(cells[..j + 1]) == Some(Present(cells[..j]).value + [cells[j].value])
  {
    assert cells[..j + 1][..j] == cells[..j];
  }

  /** One missing cell makes the whole `Present` fail. */
  lemma PresentMissing<T>(cells: seq<Option<T>>, j: nat)
    requires j < |cells| && cells[j].None?
    ensures Present(cells).None?
  {
    PresentShape(cells);
  }

  /** `model_testing` after the models are loaded: one row per model and
      category, models in order and categories in dictionary order. A category
      key without a space makes the row construction raise, which ends the whole
      run (`None`); that happens exactly when there is a model and some key has
      no space. */
  method ModelTesting<V>(models: seq<Model<V>>, categories: Dict<string, seq<seq<string>>>, e: Evaluator<V>)
    returns (result: Option<seq<Row>>)
    ensures result == AllRows(e, models, categories)
    ensures result.None? <==> |models| > 0 && !SpacedKeys(categories)
    ensures result.Some? ==> |result.value| == |models| * |categories|
  {
    ghost var blocks := seq(|models|, i requires 0 <= i < |models| => CategoryRows(e, models[i], categories));
    var rows: seq<Row> := [];
    for i := 0 to |models|
      invariant Some(rows) == Joined(blocks[..i])
    {
      var modelRows := ModelRows(models[i], categories, e);
      assert modelRows == blocks[i];
      if modelRows.None? {
        AllRowsShape(e, models, categories);
        return None;
      }
      JoinedNext(blocks, i);
      rows := rows + modelRows.value;
    }
    assert blocks[..|models|] == blocks;
    result := Some(rows);
    AllRowsShape(e, models, categories);
  }

  /** Every query the questions make raises, or the question is too short to
      make one. */
  predicate Unanswerable<V>(e: Evaluator<V>, vectors: V, questions: seq<seq<string>>)
  {
    forall i :: 0 <= i < |questions| ==>
      |questions[i]| < 4 || (FirstQuery(e, vectors, questions[i]).None? && RetryQuery(e, vectors, questions[i]).None?)
  }

  /** A category none of whose questions the model can answer, because every
      query they make raises, has no present question: its row has empty
      accuracies and the "+" mark, and no division by zero takes place. */
  lemma UnknownVocabularyRow<V>(e: Evaluator<V>, model: Model<V>, category: Entry<string, seq<seq<string>>>)
    requires Unanswerable(e, model.vectors, category.value)
    requires ' ' in category.key
    ensures RowOf(e, model, category).Some?
    ensures RowOf(e, model, category).value.present == 0
    ensures RowOf(e, model, category).value.noWords == "+"
    ensures RowOf(e, model, category).value.accuracy1 == Blank
    ensures RowOf(e, model, category).value.accuracy2 == Blank
  {
    AllAbsent(e, model.vectors, category.value);
  }

  lemma {:induction false} AllAbsent<V>(e: Evaluator<V>, vectors: V, questions: seq<seq<string>>)
    requires Unanswerable(e, vectors, questions)
    ensures Count(e, vectors, questions, Absent) == |questions|
  {
    if |questions| > 0 {
      var n := |questions| - 1;
      assert Unanswerable(e, vectors, questions[..n]) by {
        forall i | 0 <= i < n
          ensures |questions[..n][i]| < 4 ||
                  (FirstQuery(e, vectors, questions[..n][i]).None? && RetryQuery(e, vectors, questions[..n][i]).None?)
        {
          assert questions[..n][i] == questions[i];
        }
      }
      AllAbsent(e, vectors, questions[..n]);
    }
  }

  /** A question with fewer than four fields is not present. A question whose
      lower-cased retry raises, or whose lower-cased answer cannot be converted,
      is never missed: it is correct when the first attempt hits and otherwise
      not present. */
  lemma NotPresentQuestions<V>(e: Evaluator<V>, vectors: V, q: seq<string>)
    ensures |q| < 4 ==> Judge(e, vectors, q) == Absent
    ensures |q| >= 4 && (RetryQuery(e, vectors, q).None? || RetryQuery(e, vectors, q).value == []
                         || e.casing.lowerWord(q[1]).None?) ==>
              && Judge(e, vectors, q) != Missed
              && (Judge(e, vectors, q) == Correct <==>
                    && FirstQuery(e, vectors, q).Some? && FirstQuery(e, vectors, q).value != []
                    && FirstAttemptTest(e.casing, q[1], SliceTo(FirstQuery(e, vectors, q).value, e.firstN)) == Some(true))
  {
  }

  /** An answer B that cannot be converted, neither as it is nor lower-cased
      (bytes that are not UTF-8, for Python 2), makes both tests raise: the
      question is not present, whatever the model returns. */
  lemma UndecodableAnswer<V>(e: Evaluator<V>, vectors: V, q: seq<string>)
    requires |q| >= 4 && e.casing.word(q[1]).None? && e.casing.lowerWord(q[1]).None?
    ensures Judge(e, vectors, q) == Absent
  {
  }

  /** `first_n` bounds the first attempt only: when the first query raises,
      the outcome is the same for every `first_n`. */
  lemma RetryIgnoresFirstN<V>(e: Evaluator<V>, vectors: V, q: seq<string>, a: int, b: int)
    requires |q| >= 4 && FirstQuery(e, vectors, q).None?
    ensures Judge(e.(firstN := a), vectors, q) == Judge(e.(firstN := b), vectors, q)
  {
    assert FirstQuery(e.(firstN := a), vectors, q) == FirstQuery(e, vectors, q);
    assert FirstQuery(e.(firstN := b), vectors, q) == FirstQuery(e, vectors, q);
    assert RetryQuery(e.(firstN := a), vectors, q) == RetryQuery(e.(firstN := b), vectors, q);
  }

  /** `candidate` matches the answer `w` (lower-cased `lw`) as it is or
      lower-cased. */
  predicate Matches(lower: string -> string, candidate: string, w: string, lw: string)
  {
    candidate == w || candidate == lw || lower(candidate) == w || lower(candidate) == lw
  }

  /** The retry sees only the first four candidates: B at position four or
      later of the retry's ranking does not make the question correct. The
      test raises exactly when the lower-cased B cannot be converted. */
  lemma RetryDepth(c: Casing, answer: string, ranked: seq<string>)
    ensures FallbackTest(c, answer, SliceTo(ranked, FallbackDepth)).None? <==> c.lowerWord(answer).None?
    ensures FallbackTest(c, answer, SliceTo(ranked, FallbackDepth)) == Some(true) <==>
      c.lowerWord(answer).Some? &&
      exists k :: 0 <= k < |ranked| && k < FallbackDepth &&
        (ranked[k] == c.lowerWord(answer).value || c.lowerCandidate(ranked[k]) == c.lowerWord(answer).value)
  {
    if c.lowerWord(answer).Some? {
      var top := SliceTo(ranked, FallbackDepth);
      var low := Lowered(c.lowerCandidate, top);
      var w := c.lowerWord(answer).value;
      if w in top {
        var k :| 0 <= k < |top| && top[k] == w;
        assert ranked[k] == top[k];
      }
      if w in low {
        var k :| 0 <= k < |low| && low[k] == w;
        assert ranked[k] == top[k];
      }
      if exists k :: 0 <= k < |ranked| && k < FallbackDepth &&
           (ranked[k] == w || c.lowerCandidate(ranked[k]) == w) {
        var k :| 0 <= k < |ranked| && k < FallbackDepth &&
           (ranked[k] == w || c.lowerCandidate(ranked[k]) == w);
        assert ranked[k] == top[k] && low[k] == c.lowerCandidate(top[k]);
      }
    }
  }

  /** The Python 3 first-attempt test never raises, and it hits exactly when
      one of the first `first_n` candidates, as it is or lower-cased, equals B
      or B lower-cased. */
  lemma Python3FirstAttempt(lower: string -> string, answer: string, ranked: seq<string>, firstN: int)
    requires 0 <= firstN
    ensures FirstAttemptTest(Python3Casing(lower), answer, SliceTo(ranked, firstN)).Some?
    ensures FirstAttemptTest(Python3Casing(lower), answer, SliceTo(ranked, firstN)).value <==>
      exists k :: 0 <= k < |ranked| && k < firstN && Matches(lower, ranked[k], answer, lower(answer))
  {
    FirstAttemptOnRanking(Python3Casing(lower), answer, ranked, firstN);
  }

  /** The Python 2 first-attempt test raises when B is not UTF-8. When B
      decodes but its lower-cased bytes do not, it hits when the decoded B is
      one of the first `first_n` candidates and raises otherwise. When both
      decode, it hits exactly when one of the first `first_n` candidates, as it
      is or lower-cased, equals one of them. */
  lemma Python2FirstAttempt(decode: string -> Option<string>, lowerBytes: string -> string,
                            lowerText: string -> string, answer: string, ranked: seq<string>, firstN: int)
    requires 0 <= firstN
    ensures decode(answer).None? ==>
      FirstAttemptTest(Python2Casing(decode, lowerBytes, lowerText), answer, SliceTo(ranked, firstN)).None?
    ensures decode(answer).Some? && decode(lowerBytes(answer)).None? ==>
      FirstAttemptTest(Python2Casing(decode, lowerBytes, lowerText), answer, SliceTo(ranked, firstN)) ==
        if exists k :: 0 <= k < |ranked| && k < firstN && ranked[k] == decode(answer).value then Some(true) else None
    ensures decode(answer).Some? && decode(lowerBytes(answer)).Some? ==>
      && FirstAttemptTest(Python2Casing(decode, lowerBytes, lowerText), answer, SliceTo(ranked, firstN)).Some?
      && (FirstAttemptTest(Python2Casing(decode, lowerBytes, lowerText), answer, SliceTo(ranked, firstN)).value <==>
            exists k :: 0 <= k < |ranked| && k < firstN &&
              Matches(lowerText, ranked[k], decode(answer).value, decode(lowerBytes(answer)).value))
  {
    var c := Python2Casing(decode, lowerBytes, lowerText);
    FirstAttemptOnRanking(c, answer, ranked, firstN);
    assert c.word(answer) == decode(answer) && c.lowerWord(answer) == decode(lowerBytes(answer));
    assert c.lowerCandidate == lowerText;
  }

  /** `FirstAttemptRule` for the first `firstN` candidates of a ranking. */
  lemma FirstAttemptOnRanking(c: Casing, answer: string, ranked: seq<string>, firstN: int)
    requires 0 <= firstN
    ensures c.word(answer).None? ==> FirstAttemptTest(c, answer, SliceTo(ranked, firstN)).None?
    ensures c.word(answer).Some? && c.lowerWord(answer).None? ==>
      FirstAttemptTest(c, answer, SliceTo(ranked, firstN)) ==
        if exists k :: 0 <= k < |ranked| && k < firstN && ranked[k] == c.word(answer).value then Some(true) else None
    ensures c.word(answer).Some? && c.lowerWord(answer).Some? ==>
      && FirstAttemptTest(c, answer, SliceTo(ranked, firstN)).Some?
      && (FirstAttemptTest(c, answer, SliceTo(ranked, firstN)).value <==>
            exists k :: 0 <= k < |ranked| && k < firstN &&
              Matches(c.lowerCandidate, ranked[k], c.word(answer).value, c.lowerWord(answer).value))
  {
    var top := SliceTo(ranked, firstN);
    FirstAttemptRule(c, answer, top);
    if c.word(answer).Some? && c.lowerWord(answer).None? {
      var w := c.word(answer).value;
      if w in top {
        var k :| 0 <= k < |top| && top[k] == w;
        assert ranked[k] == w;
      }
      if exists k :: 0 <= k < |ranked| && k < firstN && ranked[k] == w {
        var k :| 0 <= k < |ranked| && k < firstN && ranked[k] == w;
        assert top[k] == w;
      }
    }
  }

  /** The four-way first test, tried in order: it raises when B cannot be
      converted, hits at once when B is among the candidates, raises next when
      the lower-cased B cannot be converted, and otherwise hits exactly when
      some candidate, as it is or lower-cased, equals B or lower-cased B. */
  lemma FirstAttemptRule(c: Casing, answer: string, top: seq<string>)
    ensures c.word(answer).None? ==> FirstAttemptTest(c, answer, top).None?
    ensures c.word(answer).Some? && c.lowerWord(answer).None? ==>
      FirstAttemptTest(c, answer, top) == if c.word(answer).value in top then Some(true) else None
    ensures c.word(answer).Some? && c.lowerWord(answer).Some? ==>
      && FirstAttemptTest(c, answer, top).Some?
      && (FirstAttemptTest(c, answer, top).value <==>
            exists k :: 0 <= k < |top| &&
              Matches(c.lowerCandidate, top[k], c.word(answer).value, c.lowerWord(answer).value))
  {
    if c.word(answer).Some? && c.lowerWord(answer).Some? {
      var w, lw := c.word(answer).value, c.lowerWord(answer).value;
      var low := Lowered(c.lowerCandidate, top);
      if w in top {
        var k :| 0 <= k < |top| && top[k] == w;
        assert Matches(c.lowerCandidate, top[k], w, lw);
      }
      if lw in top {
        var k :| 0 <= k < |top| && top[k] == lw;
        assert Matches(c.lowerCandidate, top[k], w, lw);
      }
      if w in low {
        var k :| 0 <= k < |low| && low[k] == w;
        assert Matches(c.lowerCandidate, top[k], w, lw);
      }
      if lw in low {
        var k :| 0 <= k < |low| && low[k] == lw;
        assert Matches(c.lowerCandidate, top[k], w, lw);
      }
      if exists k :: 0 <= k < |top| && Matches(c.lowerCandidate, top[k], w, lw) {
        var k :| 0 <= k < |top| && Matches(c.lowerCandidate, top[k], w, lw);
        assert low[k] == c.lowerCandidate(top[k]);
      }
    }
  }
}
