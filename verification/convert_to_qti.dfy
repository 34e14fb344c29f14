/** The pure part of `ConvertToQtiService`: which questions and features of a Learnosity item
    are converted to QTI, how a question finds the feature (shared passage) it sits next to in
    the item's content, and the file entries added to the content-package manifest. Tag
    stripping and the conversion itself are parameters. */
module ConvertToQti {
  import opened Wrappers
  import opened PhpArrays
  import opened PhpStrings
  import opened Converter

  // ---------------------------------------------------------------------------------------
  // getReferenceArray
  // ---------------------------------------------------------------------------------------

  const SPAN_CLOSE: string := "</span>"

  /** The markup `getReferenceArray` looks for: the word that marks a feature or question
      segment, the opening of its span, and the end of the opening tag. */
  datatype SpanMarkup = SpanMarkup(featureWord: string, featureOpen: string, questionWord: string,
                                   questionOpen: string, tagEnd: string)

  /** The spans Learnosity content uses: `<span class="learnosity-feature feature-REF">` and
      `<span class="learnosity-response question-REF">`. */
  const FEATURE_SPAN_HEAD: string := "<span class=\"learnosity-feature "
  const QUESTION_SPAN_HEAD: string := "<span class=\"learnosity-response "

  const LEARNOSITY_SPANS: SpanMarkup :=
    SpanMarkup("feature", FEATURE_SPAN_HEAD + "feature" + "-",
               "question", QUESTION_SPAN_HEAD + "question" + "-", "\">")

  /** A row of the reference array: the segment it came from, the question reference, and
      the feature reference in force at that point, if one has been seen. */
  datatype ReferenceEntry = ReferenceEntry(index: nat, questionReference: string, featureReference: Option<string>)

  /** `strpos($s, $word)` used as a condition: found, and not at position 0 (which PHP reads
      as false). */
  predicate FoundPastStart(s: string, word: string) {
    Strpos(s, word, 0).Some? && Strpos(s, word, 0).value > 0
  }

  /** The reference text of a span segment: the opening markup removed, then the tag end,
      trimming after each step. */
  function CleanReference(segment: string, open: string, tagEnd: string): string {
    Trim(StrReplace(Trim(StrReplace(segment, open, "")), tagEnd, ""))
  }

  /** What one segment contributes: the feature reference it sets, if it mentions the feature
      word past its start, and the question reference it files, if it mentions the question
      word past its start. */
  datatype SegmentMarks = SegmentMarks(feature: Option<string>, question: Option<string>)

  function Classify(segment: string, m: SpanMarkup): SegmentMarks {
    SegmentMarks(
      if FoundPastStart(segment, m.featureWord) then Some(CleanReference(segment, m.featureOpen, m.tagEnd)) else None,
      if FoundPastStart(segment, m.questionWord) then Some(CleanReference(segment, m.questionOpen, m.tagEnd)) else None)
  }

  /** A subject whose first part lacks the search string's first character is scanned past
      that part unchanged. */
  lemma {:induction false} StrReplacePastPlainPrefix(x: string, y: string, search: string, replace: string)
    requires search != []
    requires forall i :: 0 <= i < |x| ==> x[i] != search[0]
    ensures StrReplace(x + y, search, replace) == x + StrReplace(y, search, replace)
    decreases |x|
  {
    if x == [] {
      assert x + y == y;
    } else {
      var t := x[1..];
      assert x + y == [x[0]] + (t + y);
      StrReplaceMismatch(x[0], t + y, search, replace);
      StrReplacePastPlainPrefix(t, y, search, replace);
      assert [x[0]] + (t + StrReplace(y, search, replace)) == x + StrReplace(y, search, replace);
    }
  }

  /** A character that cannot start the search string is kept and the scan moves on. */
  lemma {:induction false} StrReplaceMismatch(c: char, t: string, search: string, replace: string)
    requires search != [] && c != search[0]
    ensures StrReplace([c] + t, search, replace) == [c] + StrReplace(t, search, replace)
  {
    var s := [c] + t;
    assert s[1..] == t;
    if |s| >= |search| {
      assert s[..|search|][0] == c;
    }
  }

  /** The opening markup of a span is removed when nothing after it can start another copy. */
  lemma {:induction false} OpeningRemoved(open: string, tail: string)
    requires open != []
    requires forall i :: 0 <= i < |tail| ==> tail[i] != open[0]
    ensures StrReplace(open + tail, open, "") == tail
  {
    StrReplaceLeading(open, tail, "");
    forall j ensures !OccursAt(tail, open, j) {
      if 0 <= j && j + |open| <= |tail| {
        assert tail[j..j + |open|][0] == tail[j];
      }
    }
    StrReplaceWithoutOccurrence(tail, open, "");
  }

  /** A closing tag end is removed when the text before it cannot start one. */
  lemma {:induction false} TagEndRemoved(ref: string, tagEnd: string)
    requires tagEnd != []
    requires forall i :: 0 <= i < |ref| ==> ref[i] != tagEnd[0]
    ensures StrReplace(ref + tagEnd, tagEnd, "") == ref
  {
    StrReplacePastPlainPrefix(ref, tagEnd, tagEnd, "");
    StrReplaceLeading(tagEnd, [], "");
    assert tagEnd + [] == tagEnd;
  }

  lemma {:induction false} ConcatLacks(a: string, b: string, c: char)
    requires forall i :: 0 <= i < |a| ==> a[i] != c
    requires forall i :: 0 <= i < |b| ==> b[i] != c
    ensures forall i :: 0 <= i < |a + b| ==> (a + b)[i] != c
  {
    forall i | 0 <= i < |a + b| ensures (a + b)[i] != c {
      if i < |a| { assert (a + b)[i] == a[i]; } else { assert (a + b)[i] == b[i - |a|]; }
    }
  }

  /** The reference of a span segment that is just the opening, the reference and the tag
      end comes out whole, when the reference cannot start either markup and has no
      surrounding white space. */
  lemma {:induction false} CleanSpan(open: string, ref: string, tagEnd: string)
    requires open != [] && tagEnd != [] && !IsTrimChar(tagEnd[|tagEnd| - 1])
    requires ref != [] && !IsTrimChar(ref[0]) && !IsTrimChar(ref[|ref| - 1])
    requires forall i :: 0 <= i < |ref| ==> ref[i] != open[0] && ref[i] != tagEnd[0]
    requires forall i :: 0 <= i < |tagEnd| ==> tagEnd[i] != open[0]
    ensures CleanReference(open + (ref + tagEnd), open, tagEnd) == ref
  {
    var tail := ref + tagEnd;
    TagEndRemoved(ref, tagEnd);
    TrimKeepsTrimmed(ref, ref[0], ref[|ref| - 1]);
    assert tail[0] == ref[0] && tail[|tail| - 1] == tagEnd[|tagEnd| - 1];
    TrimKeepsTrimmed(tail, ref[0], tagEnd[|tagEnd| - 1]);
    ConcatLacks(ref, tagEnd, open[0]);
    OpeningRemoved(open, tail);
  }

  lemma {:induction false} TrimKeepsTrimmed(s: string, first: char, last: char)
    requires s != [] && s[0] == first && s[|s| - 1] == last
    requires !IsTrimChar(first) && !IsTrimChar(last)
    ensures Trim(s) == s
  {
  }

  /** A word that follows a non-empty head starting with a different character is found past
      the start. */
  lemma {:induction false} FoundAfterHead(head: string, w: string, x: string)
    requires head != [] && w != [] && head[0] != w[0]
    ensures FoundPastStart(head + w + x, w)
  {
    var s := head + w + x;
    assert s[|head|..|head| + |w|] == w;
    assert OccursAt(s, w, |head|);
    assert !OccursAt(s, w, 0) by {
      assert s[0] == head[0];
      assert s[0..|w|][0] == s[0];
    }
  }

  /** A question span, as it stands once split at `</span>`, files its reference, provided the
      reference has no markup characters and no surrounding white space. */
  lemma {:induction false} QuestionSpanFilesReference(ref: string)
    requires ref != [] && !IsTrimChar(ref[0]) && !IsTrimChar(ref[|ref| - 1])
    requires forall i :: 0 <= i < |ref| ==> ref[i] != '<' && ref[i] != '"'
    ensures Classify(LEARNOSITY_SPANS.questionOpen + (ref + LEARNOSITY_SPANS.tagEnd), LEARNOSITY_SPANS).question == Some(ref)
  {
    var m := LEARNOSITY_SPANS;
    QuestionSpanFound(ref + m.tagEnd);
    CleanSpan(m.questionOpen, ref, m.tagEnd);
  }

  lemma {:induction false} QuestionSpanFound(rest: string)
    ensures FoundPastStart(LEARNOSITY_SPANS.questionOpen + rest, LEARNOSITY_SPANS.questionWord)
  {
    var w := LEARNOSITY_SPANS.questionWord;
    assert LEARNOSITY_SPANS.questionOpen + rest == QUESTION_SPAN_HEAD + w + ("-" + rest);
    FoundAfterHead(QUESTION_SPAN_HEAD, w, "-" + rest);
  }

  /** The feature reference in force once the first `n` segments are read: that of the last of
      them that sets one. */
  function FeatureReferenceAfter(marks: seq<SegmentMarks>, n: nat): (r: Option<string>)
    requires n <= |marks|
    ensures r.None? <==> forall i :: 0 <= i < n ==> marks[i].feature.None?
    decreases n
  {
    if n == 0 then None
    else if marks[n - 1].feature.Some? then marks[n - 1].feature
    else FeatureReferenceAfter(marks, n - 1)
  }

  /** A feature reference seen once stays in force until the next one. */
  lemma {:induction false} FeatureReferencePersists(marks: seq<SegmentMarks>, i: nat, n: nat)
    requires i < n <= |marks|
    requires marks[i].feature.Some?
    requires forall j :: i < j < n ==> marks[j].feature.None?
    ensures FeatureReferenceAfter(marks, n) == marks[i].feature
    decreases n
  {
    if n - 1 > i {
      FeatureReferencePersists(marks, i, n - 1);
    }
  }

  /** The rows built from the first `n` segments: one per segment that files a question
      reference, in segment order, with the feature reference in force at it. */
  function ReferenceArray(marks: seq<SegmentMarks>, n: nat): (r: seq<ReferenceEntry>)
    requires n <= |marks|
    ensures |r| <= n
    ensures forall k :: 0 <= k < |r| ==> r[k].index < n
    decreases n
  {
    if n == 0 then []
    else
      var prev := ReferenceArray(marks, n - 1);
      var q := marks[n - 1].question;
      if q.Some? then prev + [ReferenceEntry(n - 1, q.value, FeatureReferenceAfter(marks, n))]
      else prev
  }

  /** A row stands for a question segment: it carries that segment's question reference and
      the feature reference in force there. */
  predicate RowOf(marks: seq<SegmentMarks>, e: ReferenceEntry)
    requires e.index < |marks|
  {
    marks[e.index].question == Some(e.questionReference) &&
    e.featureReference == FeatureReferenceAfter(marks, e.index + 1)
  }

  /** Every row stands for its segment, and rows follow segment order. */
  lemma {:induction false} ReferenceArrayRows(marks: seq<SegmentMarks>, n: nat)
    requires n <= |marks|
    ensures forall k :: 0 <= k < |ReferenceArray(marks, n)| ==> RowOf(marks, ReferenceArray(marks, n)[k])
    ensures forall k, l :: 0 <= k < l < |ReferenceArray(marks, n)| ==>
              ReferenceArray(marks, n)[k].index < ReferenceArray(marks, n)[l].index
    decreases n
  {
    if n > 0 {
      ReferenceArrayRows(marks, n - 1);
    }
  }

  /** Every question segment has a row. */
  lemma {:induction false} ReferenceArrayComplete(marks: seq<SegmentMarks>, n: nat, i: nat)
    requires i < n <= |marks|
    requires marks[i].question.Some?
    ensures exists k :: 0 <= k < |ReferenceArray(marks, n)| && ReferenceArray(marks, n)[k].index == i
    decreases n
  {
    var r := ReferenceArray(marks, n);
    if i == n - 1 {
      assert r[|r| - 1].index == i;
    } else {
      ReferenceArrayComplete(marks, n - 1, i);
      var k :| 0 <= k < |ReferenceArray(marks, n - 1)| && ReferenceArray(marks, n - 1)[k].index == i;
      assert r[k] == ReferenceArray(marks, n - 1)[k];
    }
  }

  /** Each segment classified. */
  function ClassifyAll(segments: seq<string>, m: SpanMarkup): (marks: seq<SegmentMarks>)
    ensures |marks| == |segments|
    ensures forall i :: 0 <= i < |segments| ==> marks[i] == Classify(segments[i], m)
  {
    seq(|segments|, i requires 0 <= i < |segments| => Classify(segments[i], m))
  }

  /** The loop of `getReferenceArray` over the classified segments of the tag-stripped content
      split at `</span>`: it keeps the last feature reference it saw and files a row for
      every question. */
  method GetReferenceArray(marks: seq<SegmentMarks>) returns (rows: seq<ReferenceEntry>)
    ensures rows == ReferenceArray(marks, |marks|)
  {
    rows := [];
    var featureReference: Option<string> := None;
    var i := 0;
    while i < |marks|
      invariant 0 <= i <= |marks|
      invariant rows == ReferenceArray(marks, i)
      invariant featureReference == FeatureReferenceAfter(marks, i)
    {
      if marks[i].feature.Some? {
        featureReference := marks[i].feature;
      }
      if marks[i].question.Some? {
        rows := rows + [ReferenceEntry(i, marks[i].question.value, featureReference)];
      }
      i := i + 1;
    }
  }

  // ---------------------------------------------------------------------------------------
  // getFeatureReference and getFeature
  // ---------------------------------------------------------------------------------------

  /** A row that answers for `questionReference` and carries a feature reference. */
  predicate AnswersFor(e: ReferenceEntry, questionReference: Value) {
    Str(e.questionReference) == questionReference && e.featureReference.Some?
  }

  /** `getFeatureReference`: the feature reference of the last row for the question that has
      one, or "" when there is none; see `NoRowNoFeature` and `LastRowWins`. */
  function GetFeatureReference(questionReference: Value, rows: seq<ReferenceEntry>): (r: string)
    ensures r == "" || exists k :: 0 <= k < |rows| && rows[k].featureReference == Some(r)
    decreases |rows|
  {
    if rows == [] then ""
    else
      var e := rows[|rows| - 1];
      if AnswersFor(e, questionReference) then e.featureReference.value
      else
        var prev := rows[..|rows| - 1];
        var r := GetFeatureReference(questionReference, prev);
        assert r != "" ==> exists k :: 0 <= k < |prev| && prev[k] == rows[k] && rows[k].featureReference == Some(r);
        r
  }

  /** With no row answering for the question, the result is "". */
  lemma {:induction false} NoRowNoFeature(questionReference: Value, rows: seq<ReferenceEntry>)
    requires forall k :: 0 <= k < |rows| ==> !AnswersFor(rows[k], questionReference)
    ensures GetFeatureReference(questionReference, rows) == ""
    decreases |rows|
  {
    if rows != [] {
      var prev := rows[..|rows| - 1];
      assert forall k :: 0 <= k < |prev| ==> prev[k] == rows[k];
      NoRowNoFeature(questionReference, prev);
    }
  }

  /** The last row answering for the question decides, because `continue` does not end the
      scan. */
  lemma {:induction false} LastRowWins(questionReference: Value, rows: seq<ReferenceEntry>, k: nat)
    requires k < |rows| && AnswersFor(rows[k], questionReference)
    requires forall l :: k < l < |rows| ==> !AnswersFor(rows[l], questionReference)
    ensures GetFeatureReference(questionReference, rows) == rows[k].featureReference.value
    decreases |rows|
  {
    if k < |rows| - 1 {
      var prev := rows[..|rows| - 1];
      assert forall l :: 0 <= l < |prev| ==> prev[l] == rows[l];
      LastRowWins(questionReference, prev, k);
    }
  }

  /** Rows for other questions make no difference. */
  lemma {:induction false} OtherRowsIgnored(questionReference: Value, rows: seq<ReferenceEntry>, other: ReferenceEntry)
    requires Str(other.questionReference) != questionReference
    ensures GetFeatureReference(questionReference, rows + [other]) == GetFeatureReference(questionReference, rows)
  {
    assert (rows + [other])[..|rows|] == rows;
  }

  /** `$feature['reference']`, null when missing. */
  function FeatureReferenceOf(feature: Value): Value {
    LookupPath(feature, [REFERENCE_KEY]).GetOr(Null)
  }

  /** The elements of `s` that `keep` accepts, in order. */
  function Filter<T(!new)>(s: seq<T>, keep: T -> bool): (r: seq<T>)
    ensures |r| <= |s|
    decreases |s|
  {
    if s == [] then []
    else Filter(s[..|s| - 1], keep) + (if keep(s[|s| - 1]) then [s[|s| - 1]] else [])
  }

  lemma {:induction false} FilterMembers<T(!new)>(s: seq<T>, keep: T -> bool)
    ensures forall x :: x in Filter(s, keep) <==> x in s && keep(x)
    decreases |s|
  {
    if s != [] {
      var prev := s[..|s| - 1];
      assert s == prev + [s[|s| - 1]];
      FilterMembers(prev, keep);
    }
  }

  lemma {:induction false} FilterSnoc<T(!new)>(s: seq<T>, f: T, keep: T -> bool)
    ensures Filter(s + [f], keep) == Filter(s, keep) + (if keep(f) then [f] else [])
  {
    assert (s + [f])[..|s|] == s;
  }

  lemma {:induction false} FilterConcat<T(!new)>(a: seq<T>, b: seq<T>, keep: T -> bool)
    ensures Filter(a + b, keep) == Filter(a, keep) + Filter(b, keep)
    decreases |b|
  {
    if b == [] {
      assert a + b == a;
    } else {
      var b' := b[..|b| - 1];
      var f := b[|b| - 1];
      assert b == b' + [f];
      assert a + b == (a + b') + [f];
      FilterConcat(a, b', keep);
      FilterSnoc(a + b', f, keep);
      FilterSnoc(b', f, keep);
    }
  }

  /** `getFeature`: the features whose reference is the given one, in input order. */
  function GetFeature(featureReference: string, features: seq<Value>): (r: seq<Value>)
    ensures |r| <= |features|
    ensures forall x :: x in r <==> x in features && FeatureReferenceOf(x) == Str(featureReference)
  {
    FilterMembers(features, f => FeatureReferenceOf(f) == Str(featureReference));
    Filter(features, f => FeatureReferenceOf(f) == Str(featureReference))
  }

  /** `getFeature` works piecewise, so it keeps the input order. */
  lemma {:induction false} GetFeatureConcat(featureReference: string, a: seq<Value>, b: seq<Value>)
    ensures GetFeature(featureReference, a + b) == GetFeature(featureReference, a) + GetFeature(featureReference, b)
  {
    FilterConcat(a, b, f => FeatureReferenceOf(f) == Str(featureReference));
  }

  // ---------------------------------------------------------------------------------------
  // addAdditionalFileInfo
  // ---------------------------------------------------------------------------------------

  const ITEMBANK_PATH: string := "/vendor/learnosity/itembank/"

  /** A manifest `file` entry; an href of None stands for the `false` PHP 7's `substr` returns
      for a start past the end. */
  datatype ManifestFile = ManifestFile(href: Option<string>)

  /** `addAdditionalFileInfo`: one file per entry, in order, after the existing ones, each
      href being the entry with its first `strlen('/vendor/learnosity/itembank/')` characters
      cut off, whether or not they are that path. */
  function AddAdditionalFileInfo(infos: seq<string>, files: seq<ManifestFile>): (r: seq<ManifestFile>)
    ensures |r| == |files| + |infos|
    ensures r[..|files|] == files
    ensures forall i :: 0 <= i < |infos| ==> r[|files| + i] == ManifestFile(Substr(infos[i], |ITEMBANK_PATH|))
    decreases |infos|
  {
    if infos == [] then files
    else
      var prev := AddAdditionalFileInfo(infos[..|infos| - 1], files);
      assert forall i :: 0 <= i < |infos| - 1 ==> infos[..|infos| - 1][i] == infos[i];
      prev + [ManifestFile(Substr(infos[|infos| - 1], |ITEMBANK_PATH|))]
  }

  /** An entry under the item-bank path gets the path after it; a shorter entry gets false. */
  lemma {:induction false} AdditionalFileHref(info: string)
    ensures ITEMBANK_PATH <= info ==> AddAdditionalFileInfo([info], [])[0].href == Some(info[|ITEMBANK_PATH|..])
    ensures |info| < |ITEMBANK_PATH| ==> AddAdditionalFileInfo([info], [])[0].href.None?
  {
    assert [info][..0] == [];
  }

  // ---------------------------------------------------------------------------------------
  // convertAssessmentItem
  // ---------------------------------------------------------------------------------------

  const FEATURES_KEY: Key := StrKey("features")
  const FEATURE_KEY: Key := StrKey("feature")

  /** What `convertLearnosityToQtiItem` returns: the XML and its messages. */
  datatype Converted = Converted(xml: string, messages: Value)

  /** The result of `convertAssessmentItem`: the converted questions and features (an empty
      list standing for an absent key) and the item JSON as it came in. */
  datatype AssessmentResult = AssessmentResult(questionXml: seq<Converted>, featureXml: seq<Converted>, json: PhpArray)

  /** `$json[$k]`, null when missing. */
  function Field(json: PhpArray, k: Key): Value {
    Lookup(json, k).GetOr(Null)
  }

  /** What `foreach` visits: an array's values, nothing for anything else. */
  function Elements(v: Value): seq<Value> {
    if v.Arr? then Values(v.entries) else []
  }

  /** A question or feature as an array to write into: arrays as they are, anything else as the
      empty array (which is what a null becomes). */
  function AsArray(v: Value): PhpArray {
    if v.Arr? then v.entries else []
  }

  /** The conversion result with the item-bank path removed from its XML. */
  function StripItembankPath(c: Converted): Converted {
    Converted(StrReplace(c.xml, ITEMBANK_PATH, ""), c.messages)
  }

  /** The loop over questions (or features): each is prepared, and those whose
      `data.type` is supported are converted and collected in order; the first conversion
      that raises ends the whole item. */
  function ConvertEach(items: seq<Value>, prepare: Value -> PhpArray, supported: seq<string>,
                       convert: PhpArray -> Result<Converted, Failure>): (r: Result<seq<Converted>, Failure>)
    ensures r.Success? ==> |r.value| <= |items|
    decreases |items|
  {
    if items == [] then Success([])
    else
      match ConvertEach(items[..|items| - 1], prepare, supported, convert)
      case Failure(e) => Failure(e)
      case Success(prev) =>
        var q := prepare(items[|items| - 1]);
        if !LooselyIn(QuestionType(Arr(q)), supported) then Success(prev)
        else
          match convert(q)
          case Failure(e) => Failure(e)
          case Success(c) => Success(prev + [StripItembankPath(c)])
  }

  /** Whether an item is converted at all. */
  predicate IsSupported(item: Value, prepare: Value -> PhpArray, supported: seq<string>) {
    LooselyIn(QuestionType(Arr(prepare(item))), supported)
  }

  /** The number of supported items. */
  function SupportedCount(items: seq<Value>, prepare: Value -> PhpArray, supported: seq<string>): nat
    decreases |items|
  {
    if items == [] then 0
    else SupportedCount(items[..|items| - 1], prepare, supported)
         + (if IsSupported(items[|items| - 1], prepare, supported) then 1 else 0)
  }

  /** When no conversion raises, exactly one result per supported item comes back. */
  lemma {:induction false} ConvertEachCountsSupported(items: seq<Value>, prepare: Value -> PhpArray, supported: seq<string>,
                                                      convert: PhpArray -> Result<Converted, Failure>)
    requires forall a :: convert(a).Success?
    ensures ConvertEach(items, prepare, supported, convert).Success?
    ensures |ConvertEach(items, prepare, supported, convert).value| == SupportedCount(items, prepare, supported)
    decreases |items|
  {
    if items != [] {
      ConvertEachCountsSupported(items[..|items| - 1], prepare, supported, convert);
    }
  }

  /** An unsupported item contributes nothing. */
  lemma {:induction false} UnsupportedContributesNothing(items: seq<Value>, item: Value, prepare: Value -> PhpArray,
                                                         supported: seq<string>, convert: PhpArray -> Result<Converted, Failure>)
    requires !IsSupported(item, prepare, supported)
    ensures ConvertEach(items + [item], prepare, supported, convert) == ConvertEach(items, prepare, supported, convert)
  {
    assert (items + [item])[..|items|] == items;
  }

  /** A supported item adds its conversion, item-bank path removed, at the end. */
  lemma {:induction false} SupportedItemAppended(items: seq<Value>, item: Value, prepare: Value -> PhpArray,
                                                 supported: seq<string>, convert: PhpArray -> Result<Converted, Failure>)
    requires IsSupported(item, prepare, supported)
    requires ConvertEach(items, prepare, supported, convert).Success?
    requires convert(prepare(item)).Success?
    ensures ConvertEach(items + [item], prepare, supported, convert)
         == Success(ConvertEach(items, prepare, supported, convert).value + [StripItembankPath(convert(prepare(item)).value)])
  {
    assert (items + [item])[..|items|] == items;
  }

  /** A question of the first loop: the item's content, and the features its reference leads
      to (none when it leads to ""). */
  function PrepareWithFeatures(q: Value, content: Value, rows: seq<ReferenceEntry>, features: Value): (a: PhpArray)
    ensures Lookup(a, CONTENT_KEY) == Some(content)
    ensures Lookup(a, FEATURE_KEY).Some? && Lookup(a, FEATURE_KEY).value.Arr?
    ensures var fr := GetFeatureReference(Field(AsArray(q), REFERENCE_KEY), rows);
      Lookup(a, FEATURE_KEY) == Some(if fr == "" then Arr([]) else Arr(List(GetFeature(fr, Elements(features)))))
    ensures forall k :: k != CONTENT_KEY && k != FEATURE_KEY ==> Lookup(a, k) == Lookup(AsArray(q), k)
  {
    var a := Set(AsArray(q), CONTENT_KEY, content);
    assert Lookup(a, REFERENCE_KEY) == Lookup(AsArray(q), REFERENCE_KEY);
    var fr := GetFeatureReference(Field(a, REFERENCE_KEY), rows);
    var feature := if fr != "" then Arr(List(GetFeature(fr, Elements(features)))) else Arr([]);
    Set(a, FEATURE_KEY, feature)
  }

  /** A question of the second loop: the item's content and no features. */
  function PrepareWithoutFeatures(q: Value, content: Value): (a: PhpArray)
    ensures Lookup(a, CONTENT_KEY) == Some(content)
    ensures Lookup(a, FEATURE_KEY) == Some(Arr([]))
  {
    Set(Set(AsArray(q), CONTENT_KEY, content), FEATURE_KEY, Arr([]))
  }

  /** A feature of the third loop: the item's content. */
  function PrepareFeature(f: Value, content: Value): (a: PhpArray)
    ensures Lookup(a, CONTENT_KEY) == Some(content)
  {
    Set(AsArray(f), CONTENT_KEY, content)
  }

  /** The three guards of `convertAssessmentItem`. The first counts the features (`sizeof`),
      the second and third ask `empty()`. */
  predicate QuestionsWithFeatures(json: PhpArray) {
    !IsEmpty(Field(json, QUESTIONS_KEY)) && Count(Field(json, FEATURES_KEY)) >= 1
  }

  predicate QuestionsWithoutFeatures(json: PhpArray) {
    !IsEmpty(Field(json, QUESTIONS_KEY)) && IsEmpty(Field(json, FEATURES_KEY))
  }

  predicate FeaturesOnly(json: PhpArray) {
    !IsEmpty(Field(json, FEATURES_KEY)) && IsEmpty(Field(json, QUESTIONS_KEY))
  }

  /** `convertAssessmentItem`: the questions are converted (with their features when the item
      has some), or, when there are no questions, the features are; unsupported types are
      skipped; the JSON is returned unchanged. `stripTags` stands for `strip_tags($content,
      "<span>")`. */
  function ConvertAssessmentItem(json: PhpArray, stripTags: Value -> string,
                                 supportedQuestionTypes: seq<string>, supportedFeatureTypes: seq<string>,
                                 convert: PhpArray -> Result<Converted, Failure>): (r: Result<AssessmentResult, Failure>)
    ensures r.Success? ==> r.value.json == json
    ensures r.Success? && r.value.featureXml != [] ==> FeaturesOnly(json)
    ensures r.Success? && r.value.questionXml != [] ==> !IsEmpty(Field(json, QUESTIONS_KEY))
  {
    var content := Field(json, CONTENT_KEY);
    var features := Field(json, FEATURES_KEY);
    var questions := Elements(Field(json, QUESTIONS_KEY));
    var first: Result<seq<Converted>, Failure> :=
      if QuestionsWithFeatures(json) then
        var segments := Explode(stripTags(content), SPAN_CLOSE);
        var rows := ReferenceArray(ClassifyAll(segments, LEARNOSITY_SPANS), |segments|);
        ConvertEach(questions, q => PrepareWithFeatures(q, content, rows, features), supportedQuestionTypes, convert)
      else Success([]);
    match first
    case Failure(e) => Failure(e)
    case Success(withFeatures) =>
      var second: Result<seq<Converted>, Failure> :=
        if QuestionsWithoutFeatures(json) then
          ConvertEach(questions, q => PrepareWithoutFeatures(q, content), supportedQuestionTypes, convert)
        else Success([]);
      match second
      case Failure(e) => Failure(e)
      case Success(withoutFeatures) =>
        var third: Result<seq<Converted>, Failure> :=
          if FeaturesOnly(json) then
            ConvertEach(Elements(features), f => PrepareFeature(f, content), supportedFeatureTypes, convert)
          else Success([]);
        match third
        case Failure(e) => Failure(e)
        case Success(featureXml) => Success(AssessmentResult(withFeatures + withoutFeatures, featureXml, json))
  }

  /** With the features given as an array (or not at all), at most one of the question loops
      runs, so each question is converted at most once. */
  lemma {:induction false} OneQuestionLoop(json: PhpArray)
    requires Field(json, FEATURES_KEY).Arr? || Field(json, FEATURES_KEY).Null?
    ensures !(QuestionsWithFeatures(json) && QuestionsWithoutFeatures(json))
  {
  }

  /** The quirk behind the three guards: a features value that counts as one element yet is
      empty (the string "0", say) runs both question loops. */
  lemma {:induction false} BothQuestionLoops(json: PhpArray)
    requires !IsEmpty(Field(json, QUESTIONS_KEY)) && Field(json, FEATURES_KEY) == Str("0")
    ensures QuestionsWithFeatures(json) && QuestionsWithoutFeatures(json)
  {
  }

  /** An item with questions converts no features, whatever it holds. */
  lemma {:induction false} QuestionsSuppressFeatures(json: PhpArray, stripTags: Value -> string,
                                                     sq: seq<string>, sf: seq<string>,
                                                     convert: PhpArray -> Result<Converted, Failure>)
    requires !IsEmpty(Field(json, QUESTIONS_KEY))
    ensures ConvertAssessmentItem(json, stripTags, sq, sf, convert).Success? ==>
              ConvertAssessmentItem(json, stripTags, sq, sf, convert).value.featureXml == []
  {
  }
}
