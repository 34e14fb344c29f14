/** `LearnosityToQtiPreProcessingService`: the pass over Learnosity JSON that runs before it is
    mapped to QTI. It indexes the item's widgets by reference, rewrites every string leaf, turns
    void HTML tags into self-closing ones and decides what replaces each
    `span.learnosity-feature` node. HTML parsing and QTI marshalling are parameters. */
module PreProcessing {
  import opened Wrappers
  import opened PhpArrays
  import opened PhpStrings
  import opened StringUtil

  const REFERENCE: Key := StrKey("reference")
  const DATA: Key := StrKey("data")
  const TYPE: Key := StrKey("type")

  // ---------------------------------------------------------------------------------------
  // Widget index (the constructor)
  // ---------------------------------------------------------------------------------------

  /** The key `array_column($widgets, null, 'reference')` files a row under: a string reference
      through PHP's integer-string normalisation, an integer reference as it is; a row without
      a usable reference (or not an array) is appended instead. */
  function WidgetKey(row: Value): Option<Key> {
    if !row.Arr? then None
    else
      match Lookup(row.entries, REFERENCE)
      case Some(Str(s)) => Some(SymtableKey(s))
      case Some(Int(i)) => Some(IntKey(i))
      case _ => None
  }

  /** The widget index: every row under its reference, rows folded in order. */
  function IndexWidgets(widgets: seq<Value>): (r: PhpArray)
    ensures UniqueKeys(r)
    ensures |r| <= |widgets|
    decreases |widgets|
  {
    if widgets == [] then []
    else
      var acc := IndexWidgets(widgets[..|widgets| - 1]);
      var row := widgets[|widgets| - 1];
      match WidgetKey(row)
      case Some(k) =>
        if k in Keys(acc) then Set(acc, k, row)
        else
          assert |Keys(Set(acc, k, row))| == |Keys(acc)| + 1;
          Set(acc, k, row)
      case None => Append(acc, row)
  }

  /** The last row filed under `k`, if any: the reference meaning of "later wins". */
  function LastFiledUnder(widgets: seq<Value>, k: Key): (r: Option<Value>)
    ensures r.Some? ==> r.value in widgets && WidgetKey(r.value) == Some(k)
    ensures r.None? ==> forall i :: 0 <= i < |widgets| ==> WidgetKey(widgets[i]) != Some(k)
    decreases |widgets|
  {
    if widgets == [] then None
    else if WidgetKey(widgets[|widgets| - 1]) == Some(k) then Some(widgets[|widgets| - 1])
    else
      var r := LastFiledUnder(widgets[..|widgets| - 1], k);
      assert r.Some? ==> r.value in widgets[..|widgets| - 1];
      r
  }

  /** Under a string key the index holds exactly the last row with that reference; so does it
      under an integer key when every row carries a usable reference (no row is appended). */
  lemma {:induction false} IndexWidgetsLaterWins(widgets: seq<Value>, k: Key)
    requires k.StrKey? || forall i :: 0 <= i < |widgets| ==> WidgetKey(widgets[i]).Some?
    ensures Lookup(IndexWidgets(widgets), k) == LastFiledUnder(widgets, k)
    decreases |widgets|
  {
    if widgets != [] {
      var prefix := widgets[..|widgets| - 1];
      assert forall i :: 0 <= i < |prefix| ==> prefix[i] == widgets[i];
      IndexWidgetsLaterWins(prefix, k);
      var row := widgets[|widgets| - 1];
      if WidgetKey(row).None? {
        assert k != IntKey(NextIndex(IndexWidgets(prefix)));
      }
    }
  }

  /** Under any key some row is filed under, the index holds the last such row: a row without a
      usable reference is appended above every integer key already filed, so it never replaces
      a filed row. */
  lemma {:induction false} IndexWidgetsFiledRowWins(widgets: seq<Value>, k: Key)
    requires LastFiledUnder(widgets, k).Some?
    ensures Lookup(IndexWidgets(widgets), k) == LastFiledUnder(widgets, k)
    decreases |widgets|
  {
    var prefix := widgets[..|widgets| - 1];
    var row := widgets[|widgets| - 1];
    if WidgetKey(row) != Some(k) {
      IndexWidgetsFiledRowWins(prefix, k);
      if WidgetKey(row).None? {
        var acc := IndexWidgets(prefix);
        assert k in Keys(acc);
        assert k != IntKey(NextIndex(acc));
      }
    }
  }

  // ---------------------------------------------------------------------------------------
  // processJson
  // ---------------------------------------------------------------------------------------

  const NBSP: string := "&nbsp;"
  const NBSP_NUMERIC: string := "&#160;"

  /** What `processJson` makes of one string leaf: `&nbsp;` entities become `&#160;`, then the
      HTML pass `processHtml` (a parameter) runs on the result. */
  function ProcessString(s: string, processHtml: string -> string): string {
    processHtml(StrReplace(s, NBSP, NBSP_NUMERIC))
  }

  /** `array_walk_recursive` with the string-leaf rewrite: arrays keep their keys in order,
      strings are rewritten, every other leaf is left alone. */
  function ProcessJson(v: Value, processHtml: string -> string): (r: Value)
    ensures r.Arr? <==> v.Arr?
    ensures r.Str? <==> v.Str?
    ensures !v.Arr? && !v.Str? ==> r == v
    ensures v.Arr? ==> |r.entries| == |v.entries|
    ensures v.Arr? ==> forall i :: 0 <= i < |v.entries| ==> r.entries[i].key == v.entries[i].key
  {
    match v
    case Str(s) => Str(ProcessString(s, processHtml))
    case Arr(es) =>
      Arr(seq(|es|, i requires 0 <= i < |es| => Entry(es[i].key, ProcessJson(es[i].value, processHtml))))
    case _ => v
  }

  /** The processed array keeps the keys of the original. */
  lemma {:induction false} ProcessJsonKeepsKeys(es: seq<Entry>, processHtml: string -> string)
    ensures Keys(ProcessJson(Arr(es), processHtml).entries) == Keys(es)
  {
    var r := ProcessJson(Arr(es), processHtml).entries;
    assert forall i :: 0 <= i < |es| ==> Keys(r)[i] == r[i].key == es[i].key == Keys(es)[i];
  }

  /** Looking a key up in a processed array finds the processed value. */
  lemma {:induction false} LookupProcessed(es: seq<Entry>, processHtml: string -> string, k: Key)
    ensures Lookup(ProcessJson(Arr(es), processHtml).entries, k)
         == (match Lookup(es, k)
             case None => None
             case Some(w) => Some(ProcessJson(w, processHtml)))
    decreases |es|
  {
    if es != [] {
      var r := ProcessJson(Arr(es), processHtml).entries;
      var r1 := ProcessJson(Arr(es[1..]), processHtml).entries;
      assert r[0] == Entry(es[0].key, ProcessJson(es[0].value, processHtml));
      assert r[1..] == r1;
      LookupProcessed(es[1..], processHtml, k);
    }
  }

  /** Every path reaches in the output what it reaches in the input: nothing where there was
      nothing, the same value at a non-string leaf, and the rewritten string at a string leaf. */
  lemma {:induction false} ProcessJsonAlongPath(v: Value, processHtml: string -> string, path: seq<Key>)
    ensures LookupPath(ProcessJson(v, processHtml), path).None? <==> LookupPath(v, path).None?
    ensures LookupPath(v, path).Some? && LookupPath(v, path).value.Str? ==>
              LookupPath(ProcessJson(v, processHtml), path)
              == Some(Str(ProcessString(LookupPath(v, path).value.s, processHtml)))
    ensures LookupPath(v, path).Some? && !LookupPath(v, path).value.Str? && !LookupPath(v, path).value.Arr? ==>
              LookupPath(ProcessJson(v, processHtml), path) == LookupPath(v, path)
    decreases |path|
  {
    if path != [] && v.Arr? {
      assert v == Arr(v.entries);
      LookupProcessed(v.entries, processHtml, path[0]);
      match Lookup(v.entries, path[0])
      case None =>
      case Some(w) =>
        ProcessJsonAlongPath(w, processHtml, path[1..]);
    }
  }

  /** The string handed to `processHtml` holds no `&nbsp;` any more. */
  lemma {:induction false} NbspRemovedBeforeHtml(s: string)
    ensures !Contains(StrReplace(s, NBSP, NBSP_NUMERIC), NBSP)
  {
    assert forall i :: 1 <= i < |NBSP| ==> NBSP[i] != NBSP[0];
    assert forall i :: 1 <= i < |NBSP_NUMERIC| ==> NBSP_NUMERIC[i] != NBSP[0];
    forall j ensures !OccursAt(StrReplace(s, NBSP, NBSP_NUMERIC), NBSP, j) {
      ReplaceLeavesNoOccurrence(s, NBSP, NBSP_NUMERIC, j);
    }
    ContainsIffOccurs(StrReplace(s, NBSP, NBSP_NUMERIC), NBSP);
  }

  /** The shape of `&nbsp;` against `&#160;`: equally long, different, both starting with the
      search string's first character, which recurs in neither. */
  predicate FirstCharUnique(search: string, replace: string) {
    && search != [] && |replace| == |search| && replace != search && replace[0] == search[0]
    && (forall i :: 1 <= i < |search| ==> search[i] != search[0])
    && (forall i :: 1 <= i < |replace| ==> replace[i] != search[0])
  }

  /** `str_replace` leaves no occurrence of the search string behind when the search string's
      first character recurs neither in it nor after the first character of an equally long,
      different replacement that starts with that character. */
  lemma {:induction false} ReplaceLeavesNoOccurrence(t: string, search: string, replace: string, j: int)
    requires FirstCharUnique(search, replace)
    ensures !OccursAt(StrReplace(t, search, replace), search, j)
    decreases |t|
  {
    var n := |search|;
    if |t| >= n && t[..n] == search {
      var rest := StrReplace(t[n..], search, replace);
      assert StrReplace(t, search, replace) == replace + rest;
      if j < n {
        ReplacementBlocks(replace, rest, search, j);
      } else {
        ReplaceLeavesNoOccurrence(t[n..], search, replace, j - n);
        OccursPastPrefix(replace, rest, search, j);
      }
    } else if |t| >= n {
      var rest := StrReplace(t[1..], search, replace);
      assert StrReplace(t, search, replace) == [t[0]] + rest;
      if j <= 0 {
        ReplaceKeepsLeadingMismatch(t, search, replace);
      } else {
        ReplaceLeavesNoOccurrence(t[1..], search, replace, j - 1);
        OccursPastPrefix([t[0]], rest, search, j);
      }
    }
  }

  /** An occurrence past a prefix is an occurrence in what follows it. */
  lemma {:induction false} OccursPastPrefix(p: string, rest: string, n: string, j: int)
    requires j >= |p|
    ensures OccursAt(p + rest, n, j) ==> OccursAt(rest, n, j - |p|)
  {
    if OccursAt(p + rest, n, j) {
      assert (p + rest)[j..j + |n|] == rest[j - |p|..j - |p| + |n|];
    }
  }

  /** No occurrence of the search string starts inside a freshly written replacement. */
  lemma {:induction false} ReplacementBlocks(replace: string, rest: string, search: string, j: int)
    requires FirstCharUnique(search, replace) && j < |search|
    ensures !OccursAt(replace + rest, search, j)
  {
    var out := replace + rest;
    if 0 < j && j + |search| <= |out| {
      assert out[j] == replace[j];
      assert out[j..j + |search|][0] == out[j];
    } else if j == 0 && |search| <= |out| {
      assert out[..|search|] == replace;
    }
  }

  /** A string that does not begin with the search string does not begin with it after
      `str_replace` either. */
  lemma {:induction false} ReplaceKeepsLeadingMismatch(t: string, search: string, replace: string)
    requires FirstCharUnique(search, replace)
    requires |t| >= |search| && t[..|search|] != search
    ensures !OccursAt(StrReplace(t, search, replace), search, 0)
  {
    var n := |search|;
    var rest := StrReplace(t[1..], search, replace);
    ReplaceKeepsLength(t[1..], search, replace);
    assert StrReplace(t, search, replace) == [t[0]] + rest;
    assert ([t[0]] + rest)[..n] == [t[0]] + rest[..n - 1];
    if t[0] == search[0] {
      assert t[..n] == [t[0]] + t[1..][..n - 1];
      assert t[1..][..n - 1] != search[1..];
      ReplaceKeepsMismatch(t[1..], search, replace, search[1..]);
      assert rest[..n - 1] != search[1..];
    }
  }

  /** With an equally long replacement `str_replace` keeps the length. */
  lemma {:induction false} ReplaceKeepsLength(u: string, search: string, replace: string)
    requires |replace| == |search|
    ensures |StrReplace(u, search, replace)| == |u|
    decreases |u|
  {
    if search != [] && |u| >= |search| {
      if u[..|search|] == search {
        ReplaceKeepsLength(u[|search|..], search, replace);
      } else {
        ReplaceKeepsLength(u[1..], search, replace);
      }
    }
  }

  /** A string free of the search string's first character that does not begin `u` does not
      begin what `str_replace` makes of `u` either. */
  lemma {:induction false} ReplaceKeepsMismatch(u: string, search: string, replace: string, w: string)
    requires search != [] && |replace| == |search| && replace[0] == search[0]
    requires forall i :: 0 <= i < |w| ==> w[i] != search[0]
    requires !(w <= u)
    ensures !(w <= StrReplace(u, search, replace))
    decreases |u|
  {
    var out := StrReplace(u, search, replace);
    ReplaceKeepsLength(u, search, replace);
    if |w| <= |u| && |u| >= |search| {
      if u[..|search|] == search {
        assert out[0] == replace[0];
        assert out[0] != w[0];
      } else if u[0] != w[0] {
        assert out[0] == u[0];
      } else {
        var rest := StrReplace(u[1..], search, replace);
        assert out == [u[0]] + rest;
        assert !(w[1..] <= u[1..]);
        ReplaceKeepsMismatch(u[1..], search, replace, w[1..]);
      }
    }
  }

  // ---------------------------------------------------------------------------------------
  // processHtml, per node
  // ---------------------------------------------------------------------------------------

  /** The self-closing rewrite of a void tag's outer text: trailing `>` characters are stripped
      and `/>` is appended. */
  function SelfClose(outertext: string): (r: string)
    ensures |r| >= 2 && r[|r| - 2..] == "/>"
    ensures r[..|r| - 2] <= outertext
    ensures forall j :: |r| - 2 <= j < |outertext| ==> outertext[j] == '>'
    ensures |r| > 2 ==> r[|r| - 3] != '>'
  {
    TrimEndChar(outertext, '>') + "/>"
  }

  /** A tag already ending in `/>` keeps its slash and gains one more: `<br/>` becomes `<br//>`. */
  lemma {:induction false} SelfCloseOfSelfClosed(t: string)
    requires t != [] && t[|t| - 1] != '>'
    ensures SelfClose(t + "/>") == t + "//>"
  {
    var s := t + "/>";
    assert s[..|s| - 1] == t + "/";
    assert TrimEndChar(s[..|s| - 1], '>') == t + "/";
  }

  const FEATURE_PREFIX: string := "feature-"

  /** Whether some class token, lower-cased, starts with `feature-`. */
  predicate HasFeatureToken(parts: seq<string>) {
    exists i :: 0 <= i < |parts| && StartsWith(ToLower(parts[i]), FEATURE_PREFIX)
  }

  /** The loop of `getFeatureReferenceFromClassName` over the class tokens from `i` on. */
  function FirstFeatureToken(parts: seq<string>, i: nat): (r: Option<nat>)
    requires i <= |parts|
    ensures r.Some? ==> i <= r.value < |parts| && StartsWith(ToLower(parts[r.value]), FEATURE_PREFIX)
    ensures r.None? ==> forall j :: i <= j < |parts| ==> !StartsWith(ToLower(parts[j]), FEATURE_PREFIX)
    decreases |parts| - i
  {
    if i == |parts| then None
    else if StartsWith(ToLower(parts[i]), FEATURE_PREFIX) then Some(i)
    else FirstFeatureToken(parts, i + 1)
  }

  /** `getFeatureReferenceFromClassName`: null unless some white-space separated token starts
      with `feature-` in any case; then the SECOND token with every `feature-` (exact case)
      removed, whichever token matched, or the empty string when there is no second token
      (`$parts[1]` is null and `str_replace` turns it into ""). */
  function FeatureReferenceFromClassName(className: string): (r: Option<string>)
    ensures r.None? <==> !HasFeatureToken(SplitWhitespace(className))
    ensures r.Some? && |SplitWhitespace(className)| < 2 ==> r.value == ""
    ensures r.Some? && |SplitWhitespace(className)| >= 2 ==>
              r.value == StrReplace(SplitWhitespace(className)[1], FEATURE_PREFIX, "")
  {
    var parts := SplitWhitespace(className);
    match FirstFeatureToken(parts, 0)
    case None => None
    case Some(_) => Some(if |parts| >= 2 then StrReplace(parts[1], FEATURE_PREFIX, "") else "")
  }

  /** Two space-free words joined by one space split into those two words. */
  lemma {:induction false} SplitTwoWords(a: string, b: string)
    requires forall j :: 0 <= j < |a| ==> !IsSpace(a[j])
    requires forall j :: 0 <= j < |b| ==> !IsSpace(b[j])
    ensures SplitWhitespace(a + " " + b) == [a, b]
  {
    var s := a + " " + b;
    FirstWordOfTwo(a, b);
    SecondWordOfTwo(a, b);
    assert SplitWhitespace(s) == [s[..|a|]] + SplitWhitespace(s[|a| + 1..]);
  }

  lemma {:induction false} FirstWordOfTwo(a: string, b: string)
    requires forall j :: 0 <= j < |a| ==> !IsSpace(a[j])
    ensures IndexOfSpace(a + " " + b, 0) == |a| && (a + " " + b)[..|a|] == a
  {
    var s := a + " " + b;
    assert IsSpace(s[|a|]);
    forall j | 0 <= j < |a| ensures !IsSpace(s[j]) {
      assert s[j] == a[j];
    }
  }

  lemma {:induction false} SecondWordOfTwo(a: string, b: string)
    requires forall j :: 0 <= j < |b| ==> !IsSpace(b[j])
    ensures SkipSpaces(a + " " + b, |a|) == |a| + 1 && (a + " " + b)[|a| + 1..] == b
  {
    var s := a + " " + b;
    assert IsSpace(s[|a|]);
    assert s[|a| + 1..] == b;
    if b != [] {
      assert s[|a| + 1] == b[0];
    }
  }

  /** A lower-case prefix survives `strtolower`. */
  lemma {:induction false} LowerKeepsLowerPrefix(p: string, x: string)
    requires forall j :: 0 <= j < |p| ==> !('A' <= p[j] <= 'Z')
    ensures p <= ToLower(p + x)
  {
    var s := p + x;
    assert forall j :: 0 <= j < |p| ==> ToLower(s)[j] == LowerChar(s[j]) == p[j];
  }

  /** A token that starts with `feature-` matches in any case. */
  lemma {:induction false} PrefixedTokenMatches(x: string)
    ensures StartsWith(ToLower(FEATURE_PREFIX + x), FEATURE_PREFIX)
  {
    LowerKeepsLowerPrefix(FEATURE_PREFIX, x);
    StartsWithIsPrefix(ToLower(FEATURE_PREFIX + x), FEATURE_PREFIX);
  }

  /** Two space-free tokens, one of them matching: the second token, `feature-` removed. */
  lemma {:induction false} TwoTokenClass(first: string, second: string)
    requires forall j :: 0 <= j < |first| ==> !IsSpace(first[j])
    requires forall j :: 0 <= j < |second| ==> !IsSpace(second[j])
    requires StartsWith(ToLower(first), FEATURE_PREFIX) || StartsWith(ToLower(second), FEATURE_PREFIX)
    ensures FeatureReferenceFromClassName(first + " " + second) == Some(StrReplace(second, FEATURE_PREFIX, ""))
  {
    SplitTwoWords(first, second);
    var parts := [first, second];
    assert parts[0] == first && parts[1] == second;
    assert HasFeatureToken(parts);
  }

  /** The usual class attribute `learnosity-feature feature-REF` yields `REF`. */
  lemma {:induction false} FeatureClassYieldsReference(first: string, reference: string)
    requires forall j :: 0 <= j < |first| ==> !IsSpace(first[j])
    requires forall j :: 0 <= j < |reference| ==> !IsSpace(reference[j])
    requires forall j :: !OccursAt(reference, FEATURE_PREFIX, j)
    ensures FeatureReferenceFromClassName(first + " " + (FEATURE_PREFIX + reference)) == Some(reference)
  {
    var second := FEATURE_PREFIX + reference;
    assert forall j :: 0 <= j < |second| ==> !IsSpace(second[j]) by {
      assert forall j :: 0 <= j < |FEATURE_PREFIX| ==> second[j] == FEATURE_PREFIX[j];
      assert forall j :: |FEATURE_PREFIX| <= j < |second| ==> second[j] == reference[j - |FEATURE_PREFIX|];
    }
    PrefixedTokenMatches(reference);
    TwoTokenClass(first, second);
    StrReplaceLeading(FEATURE_PREFIX, reference, "");
    StrReplaceWithoutOccurrence(reference, FEATURE_PREFIX, "");
    assert "" + reference == reference;
  }

  /** The quirk: a matching FIRST token still yields the second token. */
  lemma {:induction false} SecondTokenWins(first: string, second: string)
    requires forall j :: 0 <= j < |first| ==> !IsSpace(first[j])
    requires forall j :: 0 <= j < |second| ==> !IsSpace(second[j])
    requires FEATURE_PREFIX <= first
    requires forall j :: !OccursAt(second, FEATURE_PREFIX, j)
    ensures FeatureReferenceFromClassName(first + " " + second) == Some(second)
  {
    assert first == FEATURE_PREFIX + first[|FEATURE_PREFIX|..];
    PrefixedTokenMatches(first[|FEATURE_PREFIX|..]);
    TwoTokenClass(first, second);
    StrReplaceWithoutOccurrence(second, FEATURE_PREFIX, "");
  }

  /** The attributes of a `span.learnosity-feature` node that the decision reads. */
  datatype FeatureNode = FeatureNode(dataType: Option<string>, dataSrc: Option<string>, className: Option<string>)

  /** What replaces a feature node: an `object` for inline media, or a shared-passage `div`
      holding an `object` that points at `sharedpassage/REF.html`. `featureType` is the feature's
      `data-type` (audioplayer or videoplayer), not a MIME type: the marshaller derives the
      object's MIME type from the base name of `src`, which is not part of this model. */
  datatype Replacement =
    | MediaObject(src: string, featureType: string)
    | SharedPassage(featureReference: string)

  /** The two `MappingException`s: "... not supported" and "...feature not supported". */
  datatype RejectReason = TypeNotSupported | FeatureNotSupported

  datatype FeatureDecision =
    | Replace(replacement: Replacement)
    | Reject(featureType: Value, reason: RejectReason)

  const AUDIOPLAYER: string := "audioplayer"
  const VIDEOPLAYER: string := "videoplayer"
  const SHAREDPASSAGE: string := "sharedpassage"

  /** The widget-index key a feature reference is looked up under; PHP turns a null key into "". */
  function ReferenceKey(reference: Option<string>): Key {
    match reference
    case None => StrKey("")
    case Some(s) => SymtableKey(s)
  }

  /** `isset($v[...path]) ? $v[...path] : ''`. */
  function IssetOrEmpty(v: Value, path: seq<Key>): (r: Value)
    ensures IssetPath(v, path) ==> r == LookupPath(v, path).value
    ensures !IssetPath(v, path) ==> r == Str("")
  {
    if IssetPath(v, path) then LookupPath(v, path).value else Str("")
  }

  /** The type of a class-referenced feature: `data.type` of the indexed widget, or, when the
      reference is not indexed, the `type` of whatever the index holds under key 1. */
  function ClassFeatureType(widgets: PhpArray, reference: Option<string>): (t: Value)
    ensures IssetAt(widgets, ReferenceKey(reference)) ==>
              t == IssetOrEmpty(Lookup(widgets, ReferenceKey(reference)).value, [DATA, TYPE])
    ensures !IssetAt(widgets, ReferenceKey(reference)) ==> t == IssetOrEmpty(Arr(widgets), [IntKey(1), TYPE])
  {
    var key := ReferenceKey(reference);
    if IssetAt(widgets, key) then IssetOrEmpty(Lookup(widgets, key).value, [DATA, TYPE])
    else IssetOrEmpty(Arr(widgets), [IntKey(1), TYPE])
  }

  /** `getFeatureReplacementString`: an inline feature (both `data-type` and `data-src` set) is
      replaced by a media object when its trimmed type is audioplayer or videoplayer; a
      class-referenced feature is replaced only when its widget is a shared passage. */
  function FeatureReplacement(node: FeatureNode, widgets: PhpArray): (d: FeatureDecision)
    ensures node.dataType.Some? && node.dataSrc.Some? ==>
              (d.Replace? <==> Trim(node.dataType.value) in {AUDIOPLAYER, VIDEOPLAYER})
    ensures node.dataType.Some? && node.dataSrc.Some? && d.Replace? ==>
              d.replacement == MediaObject(Trim(node.dataSrc.value), Trim(node.dataType.value))
    ensures !(node.dataType.Some? && node.dataSrc.Some?) ==>
              var reference := FeatureReferenceFromClassName(node.className.GetOr(""));
              (d.Replace? <==> ClassFeatureType(widgets, reference) == Str(SHAREDPASSAGE)) &&
              (d.Replace? ==> d.replacement == SharedPassage(reference.GetOr("")))
  {
    if node.dataType.Some? && node.dataSrc.Some? then
      var t := Trim(node.dataType.value);
      if t == AUDIOPLAYER || t == VIDEOPLAYER then Replace(MediaObject(Trim(node.dataSrc.value), t))
      else Reject(Str(t), TypeNotSupported)
    else
      var reference := FeatureReferenceFromClassName(node.className.GetOr(""));
      var t := ClassFeatureType(widgets, reference);
      if t == Str(AUDIOPLAYER) || t == Str(VIDEOPLAYER) then Reject(t, TypeNotSupported)
      else if t == Str(SHAREDPASSAGE) then Replace(SharedPassage(reference.GetOr("")))
      else Reject(t, FeatureNotSupported)
  }

  /** A class-referenced audio or video widget is rejected (its media object is built and then
      dropped), so only inline media ever becomes an `object`. */
  lemma {:induction false} ClassReferencedMediaRejected(node: FeatureNode, widgets: PhpArray)
    requires !(node.dataType.Some? && node.dataSrc.Some?)
    requires ClassFeatureType(widgets, FeatureReferenceFromClassName(node.className.GetOr("")))
             in {Str(AUDIOPLAYER), Str(VIDEOPLAYER)}
    ensures FeatureReplacement(node, widgets) == Reject(
              ClassFeatureType(widgets, FeatureReferenceFromClassName(node.className.GetOr(""))),
              TypeNotSupported)
  {
  }

  /** Media objects come only from inline features, and shared passages only from class ones. */
  lemma {:induction false} ReplacementMatchesNodeKind(node: FeatureNode, widgets: PhpArray)
    ensures FeatureReplacement(node, widgets).Replace? ==>
              (FeatureReplacement(node, widgets).replacement.MediaObject?
               <==> node.dataType.Some? && node.dataSrc.Some?)
  {
  }

  /** An inline feature's decision does not depend on the widgets. */
  lemma {:induction false} InlineIgnoresWidgets(node: FeatureNode, w1: PhpArray, w2: PhpArray)
    requires node.dataType.Some? && node.dataSrc.Some?
    ensures FeatureReplacement(node, w1) == FeatureReplacement(node, w2)
  {
  }

  /** What `processHtml` does to one feature node: the marshalled replacement, or the node left
      as it was when the decision raised (the exception is caught and logged). */
  function ProcessFeatureNode(outertext: string, node: FeatureNode, widgets: PhpArray,
                              marshal: Replacement -> string): (r: (string, Option<FeatureDecision>))
    ensures FeatureReplacement(node, widgets).Reject? ==>
              r == (outertext, Some(FeatureReplacement(node, widgets)))
    ensures FeatureReplacement(node, widgets).Replace? ==>
              r == (marshal(FeatureReplacement(node, widgets).replacement), None)
  {
    match FeatureReplacement(node, widgets)
    case Replace(rep) => (marshal(rep), None)
    case Reject(t, reason) => (outertext, Some(Reject(t, reason)))
  }
}
