/** `LearnosityQti\Converter`: the entry points between Learnosity JSON and QTI XML. Modelled
    here are the classification of Learnosity JSON, the splitting of an item into its item JSON
    and question JSONs, the rewrite of schema-validation errors raised while reading QTI, and
    the per-file policy of converting a whole content-package directory. The mappers, writers
    and the XML reader are parameters. */
module Converter {
  import opened Wrappers
  import opened Sequences
  import opened PhpArrays
  import opened PhpStrings
  import opened StringUtil
  import opened PreProcessing

  /** The exceptions a conversion can end in. */
  datatype Failure =
    | MappingFailure(message: string)
    | InvalidQtiFailure(message: string)
    | StorageFailure(message: string)
    | TypeFailure(message: string)
    | OtherFailure(message: string)

  const ITEM: string := "item"
  const QUESTION: string := "question"
  const QUESTION_DATA: string := "questiondata"

  const INVALID_JSON: string := "Invalid JSON"
  const ITEM_NEEDS_REFERENCE_OR_CONTENT: string :=
    "Invalid `item` JSON. Neither `reference` nor `content` shall not be empty"
  const QUESTION_NEEDS_REFERENCE: string := "Invalid `item` JSON. Key `reference` shall not be empty"
  const UNKNOWN_JSON_FORMAT: string := "Unknown JSON format"

  const TYPE_KEY: Key := StrKey("type")
  const DATA_KEY: Key := StrKey("data")
  const REFERENCE_KEY: Key := StrKey("reference")
  const CONTENT_KEY: Key := StrKey("content")
  const QUESTIONS_KEY: Key := StrKey("questions")
  const QUESTION_REFERENCES_KEY: Key := StrKey("questionReferences")

  // ---------------------------------------------------------------------------------------
  // guessLearnosityJsonDataType and convertLearnosityToQtiItem
  // ---------------------------------------------------------------------------------------

  /** `guessLearnosityJsonDataType`: the empty array (which PHP finds `== null`) is invalid; data
      without `type` is an item when it has a `reference` or a `content`; data with `type` and
      `data` is a question when it has a `reference`; data with `type` alone is question data. */
  function GuessJsonDataType(data: PhpArray): (r: Result<string, Failure>)
    ensures data == [] ==> r == Failure(MappingFailure(INVALID_JSON))
    ensures data != [] && !IssetAt(data, TYPE_KEY) ==>
              (r.Success? <==> IssetAt(data, REFERENCE_KEY) || IssetAt(data, CONTENT_KEY)) &&
              (r.Success? ==> r.value == ITEM) &&
              (r.Failure? ==> r.error == MappingFailure(ITEM_NEEDS_REFERENCE_OR_CONTENT))
    ensures data != [] && IssetAt(data, TYPE_KEY) && IssetAt(data, DATA_KEY) ==>
              (r.Success? <==> IssetAt(data, REFERENCE_KEY)) &&
              (r.Success? ==> r.value == QUESTION) &&
              (r.Failure? ==> r.error == MappingFailure(QUESTION_NEEDS_REFERENCE))
    ensures data != [] && IssetAt(data, TYPE_KEY) && !IssetAt(data, DATA_KEY) ==>
              r == Success(QUESTION_DATA)
  {
    if data == [] then Failure(MappingFailure(INVALID_JSON))
    else if !IssetAt(data, TYPE_KEY) then
      if !IssetAt(data, REFERENCE_KEY) && !IssetAt(data, CONTENT_KEY) then
        Failure(MappingFailure(ITEM_NEEDS_REFERENCE_OR_CONTENT))
      else Success(ITEM)
    else if IssetAt(data, DATA_KEY) then
      if !IssetAt(data, REFERENCE_KEY) then Failure(MappingFailure(QUESTION_NEEDS_REFERENCE))
      else Success(QUESTION)
    else Success(QUESTION_DATA)
  }

  /** The classifier only ever answers one of the three kinds. */
  lemma {:induction false} GuessGivesKnownKind(data: PhpArray)
    ensures GuessJsonDataType(data).Success? ==>
              GuessJsonDataType(data).value in {ITEM, QUESTION, QUESTION_DATA}
  {
  }

  /** Without a `type` key the `data` key plays no part in the classification. */
  lemma {:induction false} ItemCheckedBeforeData(data: PhpArray, v: Value)
    requires data != [] && !IssetAt(data, TYPE_KEY)
    ensures GuessJsonDataType(Set(data, DATA_KEY, v)) == GuessJsonDataType(data)
  {
    var d := Set(data, DATA_KEY, v);
    assert d != [] by {
      assert Lookup(d, DATA_KEY).Some?;
    }
    assert IssetAt(d, TYPE_KEY) == IssetAt(data, TYPE_KEY) by {
      assert Lookup(d, TYPE_KEY) == Lookup(data, TYPE_KEY);
    }
    assert IssetAt(d, REFERENCE_KEY) == IssetAt(data, REFERENCE_KEY) by {
      assert Lookup(d, REFERENCE_KEY) == Lookup(data, REFERENCE_KEY);
    }
    assert IssetAt(d, CONTENT_KEY) == IssetAt(data, CONTENT_KEY) by {
      assert Lookup(d, CONTENT_KEY) == Lookup(data, CONTENT_KEY);
    }
  }

  /** An item JSON separated into what the item mapper and the question mapper are given. */
  datatype ItemSplit = ItemSplit(item: PhpArray, questions: seq<Value>)

  /** A row `array_column` takes a value from: an array holding the key. */
  predicate KeyedRow(row: Value, k: Key) {
    row.Arr? && Lookup(row.entries, k).Some?
  }

  /** The value such a row contributes. */
  function RowValue(row: Value, k: Key): Value
    requires KeyedRow(row, k)
  {
    Lookup(row.entries, k).value
  }

  /** `array_column($rows, $key)`: the value under `key` of every array row that has it. */
  function Column(rows: seq<Value>, k: Key): (r: seq<Value>)
    ensures |r| <= |rows|
    decreases |rows|
  {
    if rows == [] then []
    else
      ColumnStep(Column(rows[..|rows| - 1], k), rows[|rows| - 1], k)
  }

  /** One row of `array_column`: a keyed row adds its value at the end, any other row nothing. */
  function ColumnStep(column: seq<Value>, row: Value, k: Key): (r: seq<Value>)
    ensures |r| <= |column| + 1
  {
    if KeyedRow(row, k) then column + [RowValue(row, k)] else column
  }

  lemma {:induction false} ColumnStepAt(column: seq<Value>, row: Value, k: Key, i: nat)
    requires KeyedRow(row, k) && i <= |column|
    ensures |ColumnStep(column, row, k)| == |column| + 1
    ensures ColumnStep(column, row, k)[i] == if i < |column| then column[i] else RowValue(row, k)
  {
  }

  /** When every row is an array holding the key, the column has one value per row, in order. */
  lemma {:induction false} ColumnOfKeyedRows(rows: seq<Value>, k: Key)
    requires forall i :: 0 <= i < |rows| ==> KeyedRow(rows[i], k)
    ensures |Column(rows, k)| == |rows|
    ensures forall i :: 0 <= i < |rows| ==> Column(rows, k)[i] == RowValue(rows[i], k)
  {
    ColumnLength(rows, k);
    forall i | 0 <= i < |rows| ensures Column(rows, k)[i] == RowValue(rows[i], k) {
      ColumnAt(rows, k, i);
    }
  }

  lemma {:induction false} ColumnLength(rows: seq<Value>, k: Key)
    requires forall i :: 0 <= i < |rows| ==> KeyedRow(rows[i], k)
    ensures |Column(rows, k)| == |rows|
    decreases |rows|
  {
    if rows != [] {
      var front := rows[..|rows| - 1];
      forall i | 0 <= i < |front| ensures KeyedRow(front[i], k) {
        assert front[i] == rows[i];
      }
      assert KeyedRow(rows[|rows| - 1], k);
      ColumnLength(front, k);
    }
  }

  lemma {:induction false} ColumnAt(rows: seq<Value>, k: Key, i: nat)
    requires forall j :: 0 <= j < |rows| ==> KeyedRow(rows[j], k)
    requires i < |rows|
    ensures i < |Column(rows, k)| && Column(rows, k)[i] == RowValue(rows[i], k)
    decreases |rows|
  {
    var front := rows[..|rows| - 1];
    var last := rows[|rows| - 1];
    forall j | 0 <= j < |front| ensures KeyedRow(front[j], k) {
      assert front[j] == rows[j];
    }
    assert KeyedRow(last, k);
    ColumnLength(front, k);
    ColumnStepAt(Column(front, k), last, k, i);
    if i < |front| {
      ColumnAt(front, k, i);
      assert front[i] == rows[i];
    }
  }

  const SKIPPED_TYPES: seq<string> := ["audioplayer", "videoplayer", "sharedpassage"]

  /** `$question['data']['type']`, null when missing. */
  function QuestionType(q: Value): Value {
    LookupPath(q, [DATA_KEY, TYPE_KEY]).GetOr(Null)
  }

  /** The questions handed to the question mapper: all but audio players, video players and
      shared passages (compared loosely, as `in_array` does), in order. */
  function MappedQuestions(qs: seq<Value>): (r: seq<Value>)
    ensures |r| <= |qs|
    ensures forall i :: 0 <= i < |r| ==> r[i] in qs && !LooselyIn(QuestionType(r[i]), SKIPPED_TYPES)
    ensures forall i :: 0 <= i < |qs| && !LooselyIn(QuestionType(qs[i]), SKIPPED_TYPES) ==> qs[i] in r
    decreases |qs|
  {
    if qs == [] then []
    else
      var rest := MappedQuestions(qs[..|qs| - 1]);
      var q := qs[|qs| - 1];
      assert forall i :: 0 <= i < |qs| - 1 ==> qs[..|qs| - 1][i] == qs[i];
      if LooselyIn(QuestionType(q), SKIPPED_TYPES) then rest else rest + [q]
  }

  /** The question filter works piecewise: it keeps the relative order of what it keeps. */
  lemma {:induction false} MappedQuestionsConcat(a: seq<Value>, b: seq<Value>)
    ensures MappedQuestions(a + b) == MappedQuestions(a) + MappedQuestions(b)
    decreases |b|
  {
    if b == [] {
      assert a + b == a;
    } else {
      var b' := b[..|b| - 1];
      assert (a + b)[..|a + b| - 1] == a + b';
      assert (a + b)[|a + b| - 1] == b[|b| - 1];
      MappedQuestionsConcat(a, b');
    }
  }

  /** `convertLearnosityItem` up to the mappers: the question references are recorded under
      `questionReferences`, the `questions` key is dropped, and item and questions both go
      through `processJson` with the widget index built from the questions. The questions must
      be an array: the preprocessing constructor accepts nothing else. */
  function SplitItem(itemJson: PhpArray, processHtml: PhpArray -> string -> string): (r: Result<ItemSplit, Failure>)
    ensures r.Success? <==> Lookup(itemJson, QUESTIONS_KEY).Some? && Lookup(itemJson, QUESTIONS_KEY).value.Arr?
    ensures r.Success? ==> Lookup(r.value.item, QUESTIONS_KEY).None?
  {
    match Lookup(itemJson, QUESTIONS_KEY)
    case Some(Arr(qs)) =>
      var references := Column(Values(qs), REFERENCE_KEY);
      var item := Remove(Set(itemJson, QUESTION_REFERENCES_KEY, Arr(List(references))), QUESTIONS_KEY);
      var html := processHtml(IndexWidgets(Values(qs)));
      var processedQuestions := ProcessJson(Arr(qs), html).entries;
      var processedItem := ProcessJson(Arr(item), html).entries;
      LookupProcessed(item, html, QUESTIONS_KEY);
      Success(ItemSplit(processedItem, MappedQuestions(Values(processedQuestions))))
    case _ => Failure(TypeFailure("questions must be an array"))
  }

  /** What the item mapper sees: the processed list of question references, no `questions`, and
      every other key of the item as processing leaves it. */
  lemma {:induction false} SplitItemContents(itemJson: PhpArray, processHtml: PhpArray -> string -> string, k: Key)
    requires Lookup(itemJson, QUESTIONS_KEY).Some? && Lookup(itemJson, QUESTIONS_KEY).value.Arr?
    ensures var qs := Lookup(itemJson, QUESTIONS_KEY).value.entries;
      var html := processHtml(IndexWidgets(Values(qs)));
      var split := SplitItem(itemJson, processHtml).value;
      Lookup(split.item, QUESTION_REFERENCES_KEY)
        == Some(ProcessJson(Arr(List(Column(Values(qs), REFERENCE_KEY))), html)) &&
      (k != QUESTIONS_KEY && k != QUESTION_REFERENCES_KEY ==>
        Lookup(split.item, k) == (match Lookup(itemJson, k)
                                  case None => None
                                  case Some(w) => Some(ProcessJson(w, html))))
  {
    var qs := Lookup(itemJson, QUESTIONS_KEY).value.entries;
    var html := processHtml(IndexWidgets(Values(qs)));
    var references := Column(Values(qs), REFERENCE_KEY);
    var item := Remove(Set(itemJson, QUESTION_REFERENCES_KEY, Arr(List(references))), QUESTIONS_KEY);
    LookupProcessed(item, html, QUESTION_REFERENCES_KEY);
    LookupProcessed(item, html, k);
  }

  /** The questions handed to the mapper are, in order, the processed questions that are not
      audio players, video players or shared passages. */
  lemma {:induction false} SplitItemQuestions(itemJson: PhpArray, processHtml: PhpArray -> string -> string)
    requires Lookup(itemJson, QUESTIONS_KEY).Some? && Lookup(itemJson, QUESTIONS_KEY).value.Arr?
    ensures var qs := Lookup(itemJson, QUESTIONS_KEY).value.entries;
      var html := processHtml(IndexWidgets(Values(qs)));
      SplitItem(itemJson, processHtml).value.questions
        == MappedQuestions(Values(ProcessJson(Arr(qs), html).entries))
  {
  }

  /** `convertLearnosityToQtiItem` up to the writers, which are parameters: the classification
      picks the item path, the question path or the question-data path; the final XML check
      only logs, so the writer's result is returned as it is. */
  function ConvertLearnosityToQti<X>(data: PhpArray, processHtml: PhpArray -> string -> string,
                                     writeItem: ItemSplit -> Result<X, Failure>,
                                     writeQuestion: PhpArray -> Result<X, Failure>,
                                     writeQuestionData: PhpArray -> Result<X, Failure>): (r: Result<X, Failure>)
    ensures GuessJsonDataType(data).Failure? ==> r == Failure(GuessJsonDataType(data).error)
    ensures GuessJsonDataType(data) == Success(ITEM) ==>
              r == (match SplitItem(data, processHtml)
                    case Failure(e) => Failure(e)
                    case Success(split) => writeItem(split))
    ensures GuessJsonDataType(data) == Success(QUESTION) ==>
              r == writeQuestion(ProcessJson(Arr(data), processHtml([])).entries)
    ensures GuessJsonDataType(data) == Success(QUESTION_DATA) ==>
              r == writeQuestionData(ProcessJson(Arr(data), processHtml([])).entries)
  {
    match GuessJsonDataType(data)
    case Failure(e) => Failure(e)
    case Success(kind) =>
      if kind == ITEM then
        match SplitItem(data, processHtml)
        case Failure(e) => Failure(e)
        case Success(split) => writeItem(split)
      else if kind == QUESTION then writeQuestion(ProcessJson(Arr(data), processHtml([])).entries)
      else if kind == QUESTION_DATA then writeQuestionData(ProcessJson(Arr(data), processHtml([])).entries)
      else Failure(OtherFailure(UNKNOWN_JSON_FORMAT))
  }

  /** The "Unknown JSON format" branch is dead: the failure only appears when a writer itself
      reports it. */
  lemma {:induction false} UnknownFormatUnreachable<X>(data: PhpArray, processHtml: PhpArray -> string -> string,
                                                       writeItem: ItemSplit -> Result<X, Failure>,
                                                       writeQuestion: PhpArray -> Result<X, Failure>,
                                                       writeQuestionData: PhpArray -> Result<X, Failure>)
    requires forall s :: writeItem(s) != Failure(OtherFailure(UNKNOWN_JSON_FORMAT))
    requires forall a :: writeQuestion(a) != Failure(OtherFailure(UNKNOWN_JSON_FORMAT))
    requires forall a :: writeQuestionData(a) != Failure(OtherFailure(UNKNOWN_JSON_FORMAT))
    ensures ConvertLearnosityToQti(data, processHtml, writeItem, writeQuestion, writeQuestionData)
            != Failure(OtherFailure(UNKNOWN_JSON_FORMAT))
  {
    GuessGivesKnownKind(data);
  }

  // ---------------------------------------------------------------------------------------
  // convertQtiItemToLearnosity: schema errors
  // ---------------------------------------------------------------------------------------

  const SCHEMA_ERROR_PREFIX: string := "The document could not be validated with schema"
  const SCHEMA_ERROR_REPLACEMENT: string := "The document could not be validated with standard QTI schema: "

  /** The end of the line holding position `k`: the next newline at or after `k`, or the end. */
  function LineEnd(s: string, k: nat): (e: nat)
    requires k <= |s|
    ensures k <= e <= |s|
    ensures e < |s| ==> s[e] == '\n'
    ensures forall j :: k <= j < e ==> s[j] != '\n'
    decreases |s| - k
  {
    if k == |s| || s[k] == '\n' then k else LineEnd(s, k + 1)
  }

  /** `preg_replace('/PREFIX(.*)/', REPLACEMENT, s)` from position `i` on: each occurrence of the
      prefix, together with the rest of its line (`.` does not match a newline), is replaced,
      and the search resumes at the end of that line. */
  function RewriteSchemaMessage(s: string, i: nat): (r: string)
    requires i <= |s|
    decreases |s| - i
  {
    match Strpos(s, SCHEMA_ERROR_PREFIX, i)
    case None => s[i..]
    case Some(j) =>
      s[i..j] + SCHEMA_ERROR_REPLACEMENT + RewriteSchemaMessage(s, LineEnd(s, j + |SCHEMA_ERROR_PREFIX|))
  }

  /** A message without the prefix comes back unchanged. */
  lemma {:induction false} RewriteWithoutPrefix(s: string)
    requires forall j :: !OccursAt(s, SCHEMA_ERROR_PREFIX, j)
    ensures RewriteSchemaMessage(s, 0) == s
  {
    assert s[0..] == s;
  }

  /** A message that starts with the prefix: its first line becomes the replacement, and the
      lines after it are left alone when they do not mention the prefix. */
  lemma {:induction false} RewriteFirstLine(s: string)
    requires SCHEMA_ERROR_PREFIX <= s
    requires forall j :: !OccursAt(s[LineEnd(s, |SCHEMA_ERROR_PREFIX|)..], SCHEMA_ERROR_PREFIX, j)
    ensures RewriteSchemaMessage(s, 0)
            == SCHEMA_ERROR_REPLACEMENT + s[LineEnd(s, |SCHEMA_ERROR_PREFIX|)..]
  {
    var e := LineEnd(s, |SCHEMA_ERROR_PREFIX|);
    FoundAtStart(s, SCHEMA_ERROR_PREFIX);
    assert RewriteSchemaMessage(s, 0) == s[0..0] + SCHEMA_ERROR_REPLACEMENT + RewriteSchemaMessage(s, e);
    NotInSuffix(s, SCHEMA_ERROR_PREFIX, e);
    assert RewriteSchemaMessage(s, e) == s[e..];
    assert s[0..0] == "";
  }

  /** A non-empty prefix is found at position 0. */
  lemma {:induction false} FoundAtStart(s: string, n: string)
    requires n != [] && n <= s
    ensures Strpos(s, n, 0) == Some(0)
  {
    assert s[0..|n|] == n;
  }

  /** A string absent from a suffix is not found by a search starting at that suffix. */
  lemma {:induction false} NotInSuffix(s: string, n: string, e: nat)
    requires e <= |s|
    requires forall j :: !OccursAt(s[e..], n, j)
    ensures Strpos(s, n, e).None?
  {
    forall j | e <= j ensures !OccursAt(s, n, j) {
      assert !OccursAt(s[e..], n, j - e);
      if j + |n| <= |s| {
        assert s[e..][j - e..j - e + |n|] == s[j..j + |n|];
      }
    }
  }

  /** A one-line message starting with the prefix becomes exactly the replacement. */
  lemma {:induction false} RewriteSingleLine(s: string)
    requires SCHEMA_ERROR_PREFIX <= s
    requires forall j :: 0 <= j < |s| ==> s[j] != '\n'
    ensures RewriteSchemaMessage(s, 0) == SCHEMA_ERROR_REPLACEMENT
  {
    var e := LineEnd(s, |SCHEMA_ERROR_PREFIX|);
    assert e == |s|;
    assert forall j :: !OccursAt(s[e..], SCHEMA_ERROR_PREFIX, j);
    RewriteFirstLine(s);
    assert s[e..] == "";
  }

  /** What the reader of QTI XML can raise. */
  datatype ReadError = XmlStorageError(message: string) | OtherReadError(message: string)

  /** The `catch (XmlStorageException)` of `convertQtiItemToLearnosity`: a schema-validation
      error becomes an invalid-QTI failure with its message rewritten; any other storage error
      is rethrown as it is. */
  function StorageErrorToFailure(message: string): (f: Failure)
    ensures StartsWith(message, SCHEMA_ERROR_PREFIX) ==>
              f == InvalidQtiFailure(RewriteSchemaMessage(message, 0))
    ensures !StartsWith(message, SCHEMA_ERROR_PREFIX) ==> f == StorageFailure(message)
  {
    if StartsWith(message, SCHEMA_ERROR_PREFIX) then InvalidQtiFailure(RewriteSchemaMessage(message, 0))
    else StorageFailure(message)
  }

  /** `convertQtiItemToLearnosity` around its reader (a parameter): the reader's result, with
      its storage errors translated; other exceptions pass through. */
  function ConvertQtiItemToLearnosity<X>(xml: string, read: string -> Result<X, ReadError>): (r: Result<X, Failure>)
    ensures read(xml).Success? ==> r == Success(read(xml).value)
    ensures read(xml).Failure? && read(xml).error.XmlStorageError? ==>
              r == Failure(StorageErrorToFailure(read(xml).error.message))
    ensures read(xml).Failure? && read(xml).error.OtherReadError? ==>
              r == Failure(OtherFailure(read(xml).error.message))
  {
    match read(xml)
    case Success(x) => Success(x)
    case Failure(XmlStorageError(m)) => Failure(StorageErrorToFailure(m))
    case Failure(OtherReadError(m)) => Failure(OtherFailure(m))
  }

  /** A schema error whose message is one line is reported as exactly the replacement text. */
  lemma {:induction false} SchemaErrorReported(message: string)
    requires SCHEMA_ERROR_PREFIX <= message
    requires forall j :: 0 <= j < |message| ==> message[j] != '\n'
    ensures StorageErrorToFailure(message) == InvalidQtiFailure(SCHEMA_ERROR_REPLACEMENT)
  {
    StartsWithIsPrefix(message, SCHEMA_ERROR_PREFIX);
    RewriteSingleLine(message);
  }

  // ---------------------------------------------------------------------------------------
  // convertImscpDirectoryToLearnosityDirectory
  // ---------------------------------------------------------------------------------------

  const MANIFEST_FILE_NAME: string := "imsmanifest.xml"

  datatype XmlFile = XmlFile(filename: string, contents: string)

  /** What one successful conversion yields. */
  datatype ConvertedItem = ConvertedItem(item: PhpArray, questions: seq<Value>, manifest: Value)

  /** The JSON written for one file: the converted item or the failure message. */
  datatype FileResult = Succeeded(converted: ConvertedItem) | Failed(message: string)

  datatype DirectoryOutcome = DirectoryOutcome(
    references: seq<Value>,
    written: seq<(string, FileResult)>,
    failedFiles: seq<string>)

  /** `basename($filename, '.xml')` for a bare file name: the suffix goes unless it is the whole
      name. */
  function XmlBasename(filename: string): (r: string)
    ensures r <= filename
    ensures |filename| > 4 && filename[|filename| - 4..] == ".xml" ==> r + ".xml" == filename
    ensures !(|filename| > 4 && filename[|filename| - 4..] == ".xml") ==> r == filename
  {
    if |filename| > 4 && filename[|filename| - 4..] == ".xml" then filename[..|filename| - 4] else filename
  }

  /** Where the JSON for `filename` is written. */
  function ResultPath(learnosityDirectory: string, filename: string): (p: string)
    ensures |p| >= 5 && p[|p| - 5..] == ".json"
  {
    learnosityDirectory + "/Json" + "/" + XmlBasename(filename) + ".json"
  }

  /** The JSON for `NAME.xml` is written to `Json/NAME.json` under the output directory; a file
      named just ".xml" keeps its whole name. */
  lemma {:induction false} ResultPathOfXml(learnosityDirectory: string, name: string)
    ensures name != "" ==> ResultPath(learnosityDirectory, name + ".xml") == learnosityDirectory + "/Json/" + name + ".json"
    ensures ResultPath(learnosityDirectory, ".xml") == learnosityDirectory + "/Json/.xml.json"
  {
    var f := name + ".xml";
    assert f[|f| - 4..] == ".xml";
    assert f[..|f| - 4] == name;
    ConcatAssoc(learnosityDirectory, "/Json", "/");
  }

  /** `$item['reference']`, null when missing. */
  function ItemReference(c: ConvertedItem): Value {
    Lookup(c.item, REFERENCE_KEY).GetOr(Null)
  }

  /** The loop over the package's XML files, in the order the finder yields them: the manifest
      is skipped, every other file gets a JSON result, a failure is recorded and the loop goes
      on, and the references of the successful items are returned in order. */
  function ConvertDirectory(files: seq<XmlFile>, learnosityDirectory: string,
                            convert: string -> Result<ConvertedItem, string>): (r: DirectoryOutcome)
    ensures |r.references| + |r.failedFiles| == |r.written|
    ensures |r.written| <= |files|
    ensures forall i :: 0 <= i < |r.failedFiles| ==> r.failedFiles[i] != MANIFEST_FILE_NAME
    decreases |files|
  {
    if files == [] then DirectoryOutcome([], [], [])
    else AddFile(ConvertDirectory(files[..|files| - 1], learnosityDirectory, convert), files[|files| - 1],
                 learnosityDirectory, convert)
  }

  /** One pass of the loop over the directory: the manifest is skipped, any other file writes its
      result and is either referenced or listed as failed. */
  function AddFile(prev: DirectoryOutcome, f: XmlFile, learnosityDirectory: string,
                   convert: string -> Result<ConvertedItem, string>): DirectoryOutcome
  {
    if f.filename == MANIFEST_FILE_NAME then prev
    else
      var path := ResultPath(learnosityDirectory, f.filename);
      match convert(f.contents)
      case Success(c) =>
        DirectoryOutcome(prev.references + [ItemReference(c)], prev.written + [(path, Succeeded(c))], prev.failedFiles)
      case Failure(m) =>
        DirectoryOutcome(prev.references, prev.written + [(path, Failed(m))], prev.failedFiles + [f.filename])
  }

  /** The outcome of converting two runs of files one after the other. */
  function Combine(a: DirectoryOutcome, b: DirectoryOutcome): DirectoryOutcome {
    DirectoryOutcome(a.references + b.references, a.written + b.written, a.failedFiles + b.failedFiles)
  }

  /** Files are converted independently: a failure in the first run does not change what
      happens to the second. */
  lemma {:induction false} ConvertDirectoryConcat(f1: seq<XmlFile>, f2: seq<XmlFile>, dir: string,
                                                  convert: string -> Result<ConvertedItem, string>)
    ensures ConvertDirectory(f1 + f2, dir, convert)
         == Combine(ConvertDirectory(f1, dir, convert), ConvertDirectory(f2, dir, convert))
    decreases |f2|
  {
    if f2 == [] {
      assert f1 + f2 == f1;
    } else {
      var f2' := f2[..|f2| - 1];
      assert (f1 + f2)[..|f1 + f2| - 1] == f1 + f2';
      assert (f1 + f2)[|f1 + f2| - 1] == f2[|f2| - 1];
      ConvertDirectoryConcat(f1, f2', dir, convert);
      AddFileCombine(ConvertDirectory(f1, dir, convert), ConvertDirectory(f2', dir, convert), f2[|f2| - 1], dir, convert);
    }
  }

  lemma {:induction false} AddFileCombine(a: DirectoryOutcome, b: DirectoryOutcome, f: XmlFile, dir: string,
                                          convert: string -> Result<ConvertedItem, string>)
    ensures AddFile(Combine(a, b), f, dir, convert) == Combine(a, AddFile(b, f, dir, convert))
  {
    if f.filename != MANIFEST_FILE_NAME {
      var path := ResultPath(dir, f.filename);
      match convert(f.contents)
      case Success(c) =>
        ConcatAssoc(a.references, b.references, [ItemReference(c)]);
        ConcatAssoc(a.written, b.written, [(path, Succeeded(c))]);
      case Failure(m) =>
        ConcatAssoc(a.written, b.written, [(path, Failed(m))]);
        ConcatAssoc(a.failedFiles, b.failedFiles, [f.filename]);
    }
  }

  /** One file on its own: the manifest produces nothing; any other file writes one result,
      and contributes its reference exactly when its conversion succeeds. */
  lemma {:induction false} SingleFileOutcome(f: XmlFile, dir: string, convert: string -> Result<ConvertedItem, string>)
    ensures var r := ConvertDirectory([f], dir, convert);
      (f.filename == MANIFEST_FILE_NAME ==> r == DirectoryOutcome([], [], [])) &&
      (f.filename != MANIFEST_FILE_NAME && convert(f.contents).Success? ==>
         r.references == [ItemReference(convert(f.contents).value)] && r.failedFiles == [] &&
         r.written == [(ResultPath(dir, f.filename), Succeeded(convert(f.contents).value))]) &&
      (f.filename != MANIFEST_FILE_NAME && convert(f.contents).Failure? ==>
         r.references == [] && r.failedFiles == [f.filename] &&
         r.written == [(ResultPath(dir, f.filename), Failed(convert(f.contents).error))])
  {
    assert [f][..0] == [];
  }

  /** The references returned are exactly those of the successful files, in order. */
  function SuccessfulReferences(files: seq<XmlFile>, convert: string -> Result<ConvertedItem, string>): seq<Value>
    decreases |files|
  {
    if files == [] then []
    else
      var head := files[0];
      (if head.filename != MANIFEST_FILE_NAME && convert(head.contents).Success?
       then [ItemReference(convert(head.contents).value)] else [])
      + SuccessfulReferences(files[1..], convert)
  }

  lemma {:induction false} ConvertDirectoryReferences(files: seq<XmlFile>, dir: string,
                                                      convert: string -> Result<ConvertedItem, string>)
    ensures ConvertDirectory(files, dir, convert).references == SuccessfulReferences(files, convert)
    decreases |files|
  {
    if files != [] {
      assert files == [files[0]] + files[1..];
      ConvertDirectoryConcat([files[0]], files[1..], dir, convert);
      SingleFileOutcome(files[0], dir, convert);
      ConvertDirectoryReferences(files[1..], dir, convert);
    }
  }
}
