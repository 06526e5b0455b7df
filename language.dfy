/**
 * The language heuristics of translate.js: the script-range fallback detector,
 * the short-text guard of `detectLanguage`, the language-name table and the
 * grouping and confidence filter of `scanPageForMultiLanguageContent`.
 * Characters are Unicode scalar values; JavaScript lengths count UTF-16 code
 * units, which `Utf16Length` computes.
 */
module Language {
  import opened Wrappers
  import Text
  import Grouping

  /** The page language `defaultPageLanguage`, also every "don't know" answer. */
  const PageLanguage: string := "en"

  /** `detectConfidenceThreshold`: detections below it are ignored. */
  const Threshold: real := 0.6

  /** The confidence `detectLanguage` reports for an answer of the fallback detector. */
  const FallbackConfidence: real := 0.7

  /** JavaScript's `length`: characters outside the basic plane take two code units. */
  function Utf16Length(s: string): (n: nat)
    ensures |s| <= n <= 2 * |s|
  {
    if s == [] then 0
    else Utf16Length(s[1..]) + (if s[0] as int >= 0x10000 then 2 else 1)
  }

  // ---------------------------------------------------------------------------
  // The fallback detector: a character-class run of a minimum length.

  /** One regular expression of the fallback table: `[ranges]{min,}` naming `language`. */
  datatype Pattern = Pattern(language: string, ranges: seq<(int, int)>, min: nat)

  /** The table of `fallbackLanguageDetection`, in the order it is tested. */
  const Patterns: seq<Pattern> := [
    Pattern("ru", [(0x0400, 0x04FF)], 4),
    Pattern("zh", [(0x4E00, 0x9FFF), (0x3400, 0x4DBF)], 2),
    Pattern("ja", [(0x3040, 0x309F), (0x30A0, 0x30FF), (0x4E00, 0x9FAF)], 2),
    Pattern("ko", [(0xAC00, 0xD7AF), (0x1100, 0x11FF), (0x3130, 0x318F)], 2),
    Pattern("ar", [(0x0600, 0x06FF), (0x0750, 0x077F), (0x08A0, 0x08FF)], 4),
    Pattern("he", [(0x0590, 0x05FF), (0xFB1D, 0xFB4F)], 4),
    Pattern("th", [(0x0E00, 0x0E7F)], 4),
    Pattern("el", [(0x0370, 0x03FF), (0x1F00, 0x1FFF)], 4)
  ]

  /** `c` falls in one of the inclusive `ranges`: the character class of a pattern. */
  predicate InClass(c: char, ranges: seq<(int, int)>)
  {
    ranges != [] && ((ranges[0].0 <= c as int <= ranges[0].1) || InClass(c, ranges[1..]))
  }

  /** `s[i..i + n]` lies inside the class. */
  ghost predicate RunAt(s: string, ranges: seq<(int, int)>, i: int, n: nat)
  {
    0 <= i && i + n <= |s| && forall k :: i <= k < i + n ==> InClass(s[k], ranges)
  }

  /** What `[ranges]{n,}` `.test(s)` means: somewhere `s` holds `n` class characters in a row. */
  ghost predicate HasRun(s: string, ranges: seq<(int, int)>, n: nat)
  {
    exists i :: RunAt(s, ranges, i, n)
  }

  /** No run of length `n` lies inside `s[..j]`. */
  ghost predicate NoRunBefore(s: string, ranges: seq<(int, int)>, n: nat, j: int)
  {
    forall i :: 0 <= i && i + n <= j ==> !RunAt(s, ranges, i, n)
  }

  /**
   * A left-to-right scan from position `j`, where `run` counts the class
   * characters that end just before `j`.
   */
  function ScanFrom(s: string, ranges: seq<(int, int)>, n: nat, j: nat, run: nat): bool
    requires j <= |s|
    decreases |s| - j
  {
    if run >= n then true
    else if j == |s| then false
    else if InClass(s[j], ranges) then ScanFrom(s, ranges, n, j + 1, run + 1)
    else ScanFrom(s, ranges, n, j + 1, 0)
  }

  /** The scan answers the regular expression's question, given a correct start state. */
  lemma {:induction false} ScanFromCorrect(s: string, ranges: seq<(int, int)>, n: nat, j: nat, run: nat)
    requires run <= j <= |s|
    requires RunAt(s, ranges, j - run, run)
    requires j - run == 0 || !InClass(s[j - run - 1], ranges)
    requires run < n ==> NoRunBefore(s, ranges, n, j)
    ensures ScanFrom(s, ranges, n, j, run) <==> HasRun(s, ranges, n)
    decreases |s| - j
  {
    if run >= n {
      assert RunAt(s, ranges, j - run, n);
    } else if j == |s| {
    } else if InClass(s[j], ranges) {
      assert RunAt(s, ranges, j - run, run + 1);
      if run + 1 < n {
        assert NoRunBefore(s, ranges, n, j + 1);
      }
      ScanFromCorrect(s, ranges, n, j + 1, run + 1);
    } else {
      assert NoRunBefore(s, ranges, n, j + 1);
      ScanFromCorrect(s, ranges, n, j + 1, 0);
    }
  }

  /** `pattern.test(s)` for one entry of the table. */
  function Matches(s: string, p: Pattern): (r: bool)
    ensures r <==> HasRun(s, p.ranges, p.min)
  {
    ScanFromCorrect(s, p.ranges, p.min, 0, 0);
    ScanFrom(s, p.ranges, p.min, 0, 0)
  }

  /** The index of the first entry of `table` whose pattern matches `s`. */
  function FirstMatch(s: string, table: seq<Pattern>): (r: Option<nat>)
    ensures r.None? <==> forall j :: 0 <= j < |table| ==> !Matches(s, table[j])
    ensures r.Some? ==> r.value < |table| && Matches(s, table[r.value])
    ensures r.Some? ==> forall k :: 0 <= k < r.value ==> !Matches(s, table[k])
  {
    if table == [] then None
    else if Matches(s, table[0]) then Some(0)
    else
      match FirstMatch(s, table[1..])
      case None => None
      case Some(j) => Some(j + 1)
  }

  /** `fallbackLanguageDetection`: the language of the first matching pattern, else the page language. */
  function Fallback(s: string): (r: string)
    ensures r == PageLanguage || r in Codes
  {
    PatternCodes();
    match FirstMatch(s, Patterns)
    case None => PageLanguage
    case Some(j) => Patterns[j].language
  }

  /** The language codes of the table, in its order. */
  const Codes: seq<string> := ["ru", "zh", "ja", "ko", "ar", "he", "th", "el"]

  lemma PatternCodes()
    ensures |Codes| == |Patterns|
    ensures forall a :: 0 <= a < |Patterns| ==> Patterns[a].language == Codes[a]
  {
  }

  /** The codes of the table are distinct, and none of them is the page language. */
  lemma PatternCodesDistinct()
    ensures forall a, b :: 0 <= a < b < |Patterns| ==> Patterns[a].language != Patterns[b].language
    ensures forall a :: 0 <= a < |Patterns| ==> Patterns[a].language != PageLanguage
  {
    PatternCodes();
    forall a, b | 0 <= a < b < |Codes| ensures Codes[a][0] != Codes[b][0] {}
    forall a | 0 <= a < |Codes| ensures Codes[a][1] != PageLanguage[1] {}
  }

  /** The table is tested in order: the answer is `ru`, `zh`, … exactly when that pattern is the first to match. */
  lemma FallbackIsFirstMatch(s: string)
    ensures Fallback(s) == PageLanguage <==> forall j :: 0 <= j < |Patterns| ==> !Matches(s, Patterns[j])
    ensures forall j :: 0 <= j < |Patterns| ==>
      (Fallback(s) == Patterns[j].language <==> Matches(s, Patterns[j]) && forall k :: 0 <= k < j ==> !Matches(s, Patterns[k]))
  {
    PatternCodesDistinct();
  }

  /**
   * Two unified ideographs in a row below U+9FB0 match both the Chinese and the
   * Japanese pattern; Chinese is tested first, so such text is never called
   * Japanese unless a Cyrillic run of four comes before it in the table.
   */
  lemma IdeographsAreChinese(s: string, i: int)
    requires 0 <= i && i + 1 < |s|
    requires 0x4E00 <= s[i] as int <= 0x9FAF && 0x4E00 <= s[i + 1] as int <= 0x9FAF
    ensures Fallback(s) == "ru" || Fallback(s) == "zh"
  {
    assert InClass(s[i], Patterns[1].ranges) && InClass(s[i + 1], Patterns[1].ranges);
    assert RunAt(s, Patterns[1].ranges, i, 2);
    assert Matches(s, Patterns[1]);
    PatternCodes();
    match FirstMatch(s, Patterns) {
      case Some(j) =>
        assert j <= 1;
        assert Fallback(s) == Codes[j];
      case None =>
    }
  }

  /** Kana: the hiragana and katakana blocks. */
  predicate IsKana(c: char)
  {
    0x3040 <= c as int <= 0x30FF
  }

  /** A character of the Japanese class that is not kana is in the Chinese class. */
  lemma JapaneseClassWithoutKana(c: char)
    requires InClass(c, Patterns[2].ranges) && !IsKana(c)
    ensures InClass(c, Patterns[1].ranges)
  {
    var ja := Patterns[2].ranges;
    assert ja[1..][1..][1..] == [];
    assert !(ja[0].0 <= c as int <= ja[0].1) && !(ja[1..][0].0 <= c as int <= ja[1..][0].1);
    assert InClass(c, ja[1..]);
    assert InClass(c, ja[1..][1..]);
    assert !InClass(c, ja[1..][1..][1..]);
    assert ja[1..][1..][0].0 <= c as int <= ja[1..][1..][0].1;
    assert Patterns[1].ranges[0] == (0x4E00, 0x9FFF);
  }

  /** An answer of Japanese needs at least one kana character in the text. */
  lemma JapaneseNeedsKana(s: string)
    requires Fallback(s) == "ja"
    ensures exists i :: 0 <= i < |s| && IsKana(s[i])
  {
    FallbackJapanese(s);
    var i :| RunAt(s, Patterns[2].ranges, i, 2);
    if !IsKana(s[i]) && !IsKana(s[i + 1]) {
      JapaneseClassWithoutKana(s[i]);
      JapaneseClassWithoutKana(s[i + 1]);
      assert RunAt(s, Patterns[1].ranges, i, 2);
    }
  }

  /** An answer of Japanese means the Japanese pattern matched and the Chinese one did not. */
  lemma FallbackJapanese(s: string)
    requires Fallback(s) == "ja"
    ensures Matches(s, Patterns[2]) && !Matches(s, Patterns[1])
  {
    var m := FirstMatch(s, Patterns);
    assert m.Some? && Patterns[m.value].language == Patterns[2].language;
    PatternCodesDistinct();
    assert m.value == 2;
  }

  // ---------------------------------------------------------------------------
  // detectLanguage

  /** A detection result: `{ language, confidence }`. */
  datatype Detection = Detection(language: string, confidence: real)

  /**
   * What the translation widget does when asked: it answers (a missing language
   * is written `""`, a missing confidence `0.0`), it throws, or it is not loaded.
   */
  datatype Detector = Widget(language: string, confidence: real) | WidgetThrows | NoWidget

  /** A character of the regular-expression class `\w`: an ASCII letter, digit or `_`. */
  predicate WordChar(c: char)
  {
    ('a' <= c <= 'z') || ('A' <= c <= 'Z') || ('0' <= c <= '9') || c == '_'
  }

  /** `/^[\d\s\W]+$/.test(text)`: a non-empty text with no ASCII letter and no `_`. */
  predicate OnlySymbols(text: string)
  {
    text != [] && forall k :: 0 <= k < |text| ==> !WordChar(text[k]) || ('0' <= text[k] <= '9')
  }

  /** The guard of `detectLanguage`: empty, shorter than ten code units, or digits, space and symbols only. */
  predicate Skipped(text: string)
  {
    text == [] || Utf16Length(text) < 10 || OnlySymbols(text)
  }

  /** `detectLanguage(text)`, with the widget's behaviour as a parameter. */
  function DetectLanguage(text: string, detector: Detector): (d: Detection)
    ensures d.language != ""
    ensures detector.NoWidget? ==> d.language == PageLanguage || d.language in Codes
    ensures detector.WidgetThrows? || (detector.Widget? && detector.language == "") ==> d.language == PageLanguage
    ensures Skipped(text) ==> d == Detection(PageLanguage, 1.0)
    ensures !Skipped(text) && detector.NoWidget? ==> d == Detection(Fallback(text), FallbackConfidence)
    ensures !Skipped(text) && detector.WidgetThrows? ==> d == Detection(PageLanguage, 0.0)
    ensures !Skipped(text) && detector.Widget? ==>
      d.confidence == detector.confidence && (detector.language != "" ==> d.language == detector.language)
  {
    if Skipped(text) then Detection(PageLanguage, 1.0)
    else
      match detector
      case Widget(language, confidence) => Detection(if language == "" then PageLanguage else language, confidence)
      case WidgetThrows => Detection(PageLanguage, 0.0)
      case NoWidget => Detection(Fallback(text), FallbackConfidence)
  }

  /** A detection `scanPageForMultiLanguageContent` keeps: confident enough and not the page language. */
  predicate Accepted(d: Detection)
  {
    d.confidence >= Threshold && d.language != PageLanguage
  }

  /**
   * Text without an ASCII letter or `_` passes the symbols guard, so however
   * long it is, and whatever the widget would say, it is reported as the page
   * language with full confidence and never kept by the scan.
   */
  lemma NonLatinTextIsPageLanguage(text: string, detector: Detector)
    requires text != []
    requires forall k :: 0 <= k < |text| ==> !('a' <= text[k] <= 'z') && !('A' <= text[k] <= 'Z') && text[k] != '_'
    ensures DetectLanguage(text, detector) == Detection(PageLanguage, 1.0)
    ensures !Accepted(DetectLanguage(text, detector))
  {
    assert OnlySymbols(text);
  }

  /** Without the widget, every non-default fallback answer clears the threshold. */
  lemma FallbackAnswerAccepted(text: string)
    requires !Skipped(text) && Fallback(text) != PageLanguage
    ensures Accepted(DetectLanguage(text, NoWidget))
  {
  }

  /** Which answers the scan can keep, per widget behaviour. */
  lemma AcceptedDetections(text: string, detector: Detector)
    ensures Accepted(DetectLanguage(text, detector)) <==>
      !Skipped(text) &&
      match detector
      case Widget(language, confidence) => language != "" && language != PageLanguage && confidence >= Threshold
      case WidgetThrows => false
      case NoWidget => Fallback(text) != PageLanguage
  {
  }

  // ---------------------------------------------------------------------------
  // getLanguageName

  /** The table of `getLanguageName`. */
  const LanguageNames: map<string, string> := map[
    "af" := "Afrikaans", "ar" := "Arabic", "bg" := "Bulgarian",
    "zh" := "Chinese", "cs" := "Czech", "da" := "Danish", "nl" := "Dutch",
    "en" := "English", "et" := "Estonian", "fi" := "Finnish", "fr" := "French",
    "de" := "German", "el" := "Greek", "he" := "Hebrew", "hi" := "Hindi",
    "hu" := "Hungarian", "id" := "Indonesian", "it" := "Italian", "ja" := "Japanese",
    "ko" := "Korean", "lv" := "Latvian", "lt" := "Lithuanian", "no" := "Norwegian",
    "pl" := "Polish", "pt" := "Portuguese", "ro" := "Romanian", "ru" := "Russian",
    "sk" := "Slovak", "sl" := "Slovenian", "es" := "Spanish", "sv" := "Swedish",
    "th" := "Thai", "tr" := "Turkish", "uk" := "Ukrainian", "vi" := "Vietnamese"
  ]

  /** `getLanguageName(code)`: the table's name, or the code itself when it is not listed. */
  function LanguageName(code: string): (r: string)
    ensures code in LanguageNames ==> r == LanguageNames[code]
    ensures code !in LanguageNames ==> r == code
    ensures r == code <==> code !in LanguageNames
    ensures code in LanguageNames ==> |r| > |code|
  {
    if code in LanguageNames then LanguageNames[code] else code
  }

  /** Every language the fallback detector can name has a human-readable name. */
  lemma FallbackLanguagesNamed(s: string)
    ensures Fallback(s) in LanguageNames
    ensures LanguageName(Fallback(s)) != Fallback(s)
  {
    PatternCodes();
    forall a | 0 <= a < |Codes| ensures Codes[a] in LanguageNames && LanguageNames[Codes[a]] != Codes[a] {}
  }

  // ---------------------------------------------------------------------------
  // scanPageForMultiLanguageContent

  /**
   * A content element: its text, and whether it is an ignored element or
   * contains or lies inside one.
   */
  datatype Element = Element(text: string, ignored: bool)

  /** Elements whose trimmed text is shorter than this many code units are skipped. */
  const MinScanLength: nat := 20

  /** The prefix that groups elements: `text.substring(0, 100)`. */
  function ContentHash(text: string): (h: string)
    ensures |h| <= 100 && Text.IsPrefix(h, text)
    ensures |text| >= 100 ==> |h| == 100
    ensures |text| < 100 ==> h == text
  {
    if |text| <= 100 then text else text[..100]
  }

  /** The group an element joins, or `None` when the scan skips it. */
  function ScanKey(e: Element): Option<string>
  {
    if e.ignored || e.text == [] || Utf16Length(Text.Trim(e.text, Text.JsSpace)) < MinScanLength then None
    else Some(ContentHash(e.text))
  }

  /** The detection of a group: `detect` applied to the text of its first element. */
  function GroupDetection(groups: map<string, seq<Element>>, h: string, detect: string -> Detection): Detection
    requires h in groups && groups[h] != []
  {
    detect(groups[h][0].text)
  }

  /**
   * The elements of the groups in `order` whose detection is accepted and names
   * `language`, group after group: what `languageGroups[language]` holds.
   */
  function Collected(order: seq<string>, groups: map<string, seq<Element>>, detect: string -> Detection, language: string): seq<Element>
    requires forall h :: h in order ==> h in groups && groups[h] != []
  {
    if order == [] then []
    else
      var last := order[|order| - 1];
      var d := GroupDetection(groups, last, detect);
      Collected(order[..|order| - 1], groups, detect, language) + (if Accepted(d) && d.language == language then groups[last] else [])
  }

  /** The accepted languages of the groups in `order`, each once, in order of first detection. */
  function LanguagesInOrder(order: seq<string>, groups: map<string, seq<Element>>, detect: string -> Detection): (r: seq<string>)
    requires forall h :: h in order ==> h in groups && groups[h] != []
    ensures Grouping.Distinct(r)
    ensures forall l :: l in r ==> l != PageLanguage
  {
    if order == [] then []
    else
      var r0 := LanguagesInOrder(order[..|order| - 1], groups, detect);
      var d := GroupDetection(groups, order[|order| - 1], detect);
      if Accepted(d) && d.language !in r0 then r0 + [d.language] else r0
  }

  /** The loop state after the groups `order` have been detected. */
  ghost predicate Scanned(order: seq<string>, groups: map<string, seq<Element>>, detect: string -> Detection,
                          languages: seq<string>, languageGroups: map<string, seq<Element>>)
    requires forall h :: h in order ==> h in groups && groups[h] != []
  {
    && languages == LanguagesInOrder(order, groups, detect)
    && (forall l :: l in languageGroups <==> l in languages)
    && (forall l :: l in languageGroups ==> languageGroups[l] == Collected(order, groups, detect, l))
  }

  /** A language no group has named yet has collected nothing. */
  lemma {:induction false} CollectedAbsent(order: seq<string>, groups: map<string, seq<Element>>, detect: string -> Detection, language: string)
    requires forall h :: h in order ==> h in groups && groups[h] != []
    requires language !in LanguagesInOrder(order, groups, detect)
    ensures Collected(order, groups, detect, language) == []
  {
    if order != [] {
      var init := order[..|order| - 1];
      assert forall h :: h in init ==> h in order;
      CollectedAbsent(init, groups, detect, language);
    }
  }

  /** One more group detected: the loop body keeps `Scanned`. */
  lemma ScannedStep(order: seq<string>, h: string, groups: map<string, seq<Element>>, detect: string -> Detection,
                    languages: seq<string>, languageGroups: map<string, seq<Element>>)
    requires forall k :: k in order + [h] ==> k in groups && groups[k] != []
    requires Scanned(order, groups, detect, languages, languageGroups)
    ensures
      var d := GroupDetection(groups, h, detect);
      if !Accepted(d) then Scanned(order + [h], groups, detect, languages, languageGroups)
      else if d.language in languageGroups then
        Scanned(order + [h], groups, detect, languages, languageGroups[d.language := languageGroups[d.language] + groups[h]])
      else
        Scanned(order + [h], groups, detect, languages + [d.language], languageGroups[d.language := groups[h]])
  {
    var o := order + [h];
    assert o[..|o| - 1] == order;
    var d := GroupDetection(groups, h, detect);
    if Accepted(d) && d.language !in languageGroups {
      CollectedAbsent(order, groups, detect, d.language);
    }
  }

  /**
   * The detection loop of `scanPageForMultiLanguageContent` over the content
   * groups in insertion order: a group whose first element's detection is
   * accepted has all its elements appended to `languageGroups[language]`.
   */
  method DetectGroups(order: seq<string>, groups: map<string, seq<Element>>, detect: string -> Detection)
    returns (languages: seq<string>, languageGroups: map<string, seq<Element>>)
    requires forall h :: h in order ==> h in groups && groups[h] != []
    ensures Scanned(order, groups, detect, languages, languageGroups)
  {
    languages, languageGroups := [], map[];
    for i := 0 to |order|
      invariant Scanned(order[..i], groups, detect, languages, languageGroups)
    {
      var h := order[i];
      assert order[..i + 1] == order[..i] + [h];
      var sample := groups[h][0];
      var d := detect(sample.text);
      ScannedStep(order[..i], h, groups, detect, languages, languageGroups);
      if d.confidence >= Threshold && d.language != PageLanguage {
        if d.language !in languageGroups {
          languageGroups := languageGroups[d.language := []];
          languages := languages + [d.language];
        }
        languageGroups := languageGroups[d.language := languageGroups[d.language] + groups[h]];
      }
    }
    assert order[..|order|] == order;
  }

  /** The content groups of `elements`: `textGroups` once every element has been read. */
  function ContentGroups(elements: seq<Element>): (g: map<string, seq<Element>>)
    ensures forall h :: h in g <==> h in Grouping.KeysInOrder(elements, ScanKey)
    ensures forall h :: h in g ==> g[h] == Grouping.Members(elements, ScanKey, h) && g[h] != []
  {
    var g := map h | h in Grouping.KeysInOrder(elements, ScanKey) :: Grouping.Members(elements, ScanKey, h);
    forall h | h in g ensures g[h] != [] {
      Grouping.MembersNonEmpty(elements, ScanKey, h);
    }
    g
  }

  /**
   * `scanPageForMultiLanguageContent`: elements that are neither ignored nor
   * short are grouped by their first hundred characters, each group is detected
   * once by its first element, and the groups of accepted detections are
   * collected per language. `detect` stands for the awaited `detectLanguage`.
   */
  method ScanPage(elements: seq<Element>, detect: string -> Detection)
    returns (languages: seq<string>, languageGroups: map<string, seq<Element>>)
    ensures Scanned(Grouping.KeysInOrder(elements, ScanKey), ContentGroups(elements), detect, languages, languageGroups)
  {
    if elements == [] {
      return [], map[];
    }
    var order, groups := Grouping.GroupBy(elements, ScanKey);
    assert groups == ContentGroups(elements);
    languages, languageGroups := DetectGroups(order, groups, detect);
  }

  /**
   * Every element the scan collects under `language` was kept by the filter,
   * and the group it shares its first hundred characters with was detected as
   * `language` with enough confidence.
   */
  lemma {:induction false} CollectedMeans(order: seq<string>, groups: map<string, seq<Element>>, detect: string -> Detection, language: string, e: Element)
    requires forall h :: h in order ==> h in groups && groups[h] != []
    requires e in Collected(order, groups, detect, language)
    ensures exists h :: (h in order && e in groups[h] && GroupDetection(groups, h, detect).language == language
                         && Accepted(GroupDetection(groups, h, detect)))
  {
    var init := order[..|order| - 1];
    var last := order[|order| - 1];
    assert forall h :: h in init ==> h in order;
    if e in Collected(init, groups, detect, language) {
      CollectedMeans(init, groups, detect, language, e);
    } else {
      assert e in groups[last];
    }
  }

  /** Conversely, every element of an accepted group of `language` is collected under it. */
  lemma {:induction false} CollectedComplete(order: seq<string>, groups: map<string, seq<Element>>, detect: string -> Detection, h: string, e: Element)
    requires forall k :: k in order ==> k in groups && groups[k] != []
    requires h in order && e in groups[h] && Accepted(GroupDetection(groups, h, detect))
    ensures e in Collected(order, groups, detect, GroupDetection(groups, h, detect).language)
  {
    var init := order[..|order| - 1];
    var last := order[|order| - 1];
    assert forall k :: k in init ==> k in order;
    if h != last {
      assert h in init;
      CollectedComplete(init, groups, detect, h, e);
    }
  }

  /** A collected element really passed the scan's filter: not ignored and at least twenty code units once trimmed. */
  lemma CollectedElementsKept(elements: seq<Element>, order: seq<string>, groups: map<string, seq<Element>>,
                              detect: string -> Detection, language: string, e: Element)
    requires forall h :: h in groups ==> groups[h] == Grouping.Members(elements, ScanKey, h) && groups[h] != []
    requires forall h :: h in order ==> h in groups
    requires e in Collected(order, groups, detect, language)
    ensures !e.ignored && Utf16Length(Text.Trim(e.text, Text.JsSpace)) >= MinScanLength
    ensures language != PageLanguage
  {
    CollectedMeans(order, groups, detect, language, e);
    var h :| h in order && e in groups[h] && GroupDetection(groups, h, detect).language == language
      && Accepted(GroupDetection(groups, h, detect));
    MemberHasKey(elements, h, e);
  }

  /** An element of a scan group carries that group's key. */
  lemma MemberHasKey(elements: seq<Element>, h: string, e: Element)
    requires e in Grouping.Members(elements, ScanKey, h)
    ensures ScanKey(e) == Some(h)
  {
    var g := Grouping.Members(elements, ScanKey, h);
    var i :| 0 <= i < |g| && g[i] == e;
  }
}
