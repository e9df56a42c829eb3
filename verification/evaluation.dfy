/** What the two halves of the script give together: the categories that
    `questions_reading` makes of a file, scored by `model_testing`. */
module Evaluation {
  import opened Wrappers
  import opened PyStrings
  import opened OrderedDicts
  import opened QuestionsReading
  import opened ModelTesting

  /** The run ends with an exception exactly when there is a model and some
      header of the file has a key without a space: the key of ": all
      questions" has one, and every other key is a header key. */
  lemma HeaderWithoutSpaceAborts<V>(lines: seq<string>, models: seq<Model<V>>, e: Evaluator<V>)
    ensures AllRows(e, models, Categorize(lines)).None? <==>
              |models| > 0 && exists i :: 0 <= i < |lines| && IsHeader(lines[i]) && ' ' !in HeaderKey(lines[i])
  {
    AllRowsShape(e, models, Categorize(lines));
    SpacedKeysOfFile(lines);
  }

  /** Every key of the result has a space exactly when every header key does. */
  lemma SpacedKeysOfFile(lines: seq<string>)
    ensures SpacedKeys(Categorize(lines)) <==>
              forall i :: 0 <= i < |lines| && IsHeader(lines[i]) ==> ' ' in HeaderKey(lines[i])
  {
    forall k
      ensures k in Keys(Categorize(lines)) <==>
                k == AllQuestionsKey || exists i :: 0 <= i < |lines| && IsHeader(lines[i]) && HeaderKey(lines[i]) == k
    {
      ResultKeys(lines, k);
    }
    SpacedKeysFromHeaders(Categorize(lines), lines);
  }

  /** `SpacedKeys` of a dictionary whose keys are ": all questions" and the
      header keys of `lines`. */
  lemma SpacedKeysFromHeaders(cq: Dict<string, seq<seq<string>>>, lines: seq<string>)
    requires forall k :: k in Keys(cq) <==>
               k == AllQuestionsKey || exists i :: 0 <= i < |lines| && IsHeader(lines[i]) && HeaderKey(lines[i]) == k
    ensures SpacedKeys(cq) <==>
              forall i :: 0 <= i < |lines| && IsHeader(lines[i]) ==> ' ' in HeaderKey(lines[i])
  {
    SpacedKeysByKeys(cq);
    assert AllQuestionsKey[1] == ' ';
    if SpacedKeys(cq) {
      forall i | 0 <= i < |lines| && IsHeader(lines[i])
        ensures ' ' in HeaderKey(lines[i])
      {
        assert HeaderKey(lines[i]) in Keys(cq);
      }
    }
  }

  /** The type of questions reported for ": all questions". */
  lemma AllQuestionsKind()
    ensures |Split(AllQuestionsKey, ' ')| == 3 && Split(AllQuestionsKey, ' ')[1] == "all"
  {
    var parts := [":", "all", "questions"];
    assert Join(parts, ' ') == AllQuestionsKey;
    SplitJoin(parts, ' ');
  }

  /** The row of any model for ": all questions" has the type "all" and
      counts every question of every category; `ModelTesting.AllRowsCell`
      places it among the rows. The result always has that key (see
      `QuestionsReading.AllQuestionsEntry`). */
  lemma AllQuestionsRow<V>(lines: seq<string>, model: Model<V>, e: Evaluator<V>, j: nat)
    requires j < |Categorize(lines)| && Categorize(lines)[j].key == AllQuestionsKey
    ensures RowOf(e, model, Categorize(lines)[j]).Some?
    ensures RowOf(e, model, Categorize(lines)[j]).value.kind == "all"
    ensures RowOf(e, model, Categorize(lines)[j]).value.total == TotalQuestions(Categories(lines))
  {
    var cq := Categorize(lines);
    AllQuestionsEntry(lines);
    CategorizeDistinct(lines);
    GetAt(cq, j);
    AllQuestionsKind();
  }
}
