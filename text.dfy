/**
 * String helpers shared by the three languages of the repository: code-point
 * lexicographic order (the model of `localeCompare` and of pandas' string sort),
 * substring search (Python's `in`), ASCII lower-casing, the whitespace classes of
 * `trim`/`strip`/`split`, and trimming.
 */
module Text {

  /** `a` sorts no later than `b` in code-point lexicographic order. */
  predicate LexLe(a: string, b: string)
  {
    if a == [] then true
    else if b == [] then false
    else if a[0] != b[0] then a[0] < b[0]
    else LexLe(a[1..], b[1..])
  }

  lemma {:induction false} LexLeReflexive(a: string)
    ensures LexLe(a, a)
  {
    if a != [] { LexLeReflexive(a[1..]); }
  }

  lemma {:induction false} LexLeTotal(a: string, b: string)
    ensures LexLe(a, b) || LexLe(b, a)
  {
    if a != [] && b != [] && a[0] == b[0] { LexLeTotal(a[1..], b[1..]); }
  }

  lemma {:induction false} LexLeAntisymmetric(a: string, b: string)
    ensures LexLe(a, b) && LexLe(b, a) ==> a == b
  {
    if a != [] && b != [] && a[0] == b[0] {
      LexLeAntisymmetric(a[1..], b[1..]);
      assert a == [a[0]] + a[1..] && b == [b[0]] + b[1..];
    }
  }

  lemma {:induction false} LexLeTransitive(a: string, b: string, c: string)
    ensures LexLe(a, b) && LexLe(b, c) ==> LexLe(a, c)
  {
    if a != [] && b != [] && c != [] && a[0] == b[0] && b[0] == c[0] {
      LexLeTransitive(a[1..], b[1..], c[1..]);
    }
  }

  /**
   * A three-way comparison in the shape of `localeCompare`: negative, zero or
   * positive as `a` sorts before, equal to or after `b`.
   */
  function Compare(a: string, b: string): (r: int)
    ensures -1 <= r <= 1
    ensures r == 0 <==> a == b
    ensures r <= 0 <==> LexLe(a, b)
    ensures r >= 0 <==> LexLe(b, a)
  {
    LexLeTotal(a, b);
    LexLeReflexive(a);
    LexLeAntisymmetric(a, b);
    if a == b then 0
    else if LexLe(a, b) then -1
    else 1
  }

  /** `p` is a prefix of `s`. */
  predicate IsPrefix(p: string, s: string)
  {
    |p| <= |s| && s[..|p|] == p
  }

  /** `sub` occurs in `s` at position `i`. */
  ghost predicate OccursAt(s: string, sub: string, i: int)
  {
    0 <= i && i + |sub| <= |s| && s[i..i + |sub|] == sub
  }

  /** Substring test, the model of Python's `sub in s` and of JavaScript's `s.includes(sub)`. */
  function Contains(s: string, sub: string): (r: bool)
    ensures r <==> exists i :: OccursAt(s, sub, i)
  {
    if IsPrefix(sub, s) then
      assert OccursAt(s, sub, 0);
      true
    else if s == [] then
      false
    else
      var r := Contains(s[1..], sub);
      assert forall i :: OccursAt(s[1..], sub, i) ==> OccursAt(s, sub, i + 1) by {
        forall i | OccursAt(s[1..], sub, i) ensures OccursAt(s, sub, i + 1) {
          assert s[i + 1..i + 1 + |sub|] == s[1..][i..i + |sub|];
        }
      }
      assert forall i :: OccursAt(s, sub, i) ==> OccursAt(s[1..], sub, i - 1) by {
        assert OccursAt(s, sub, 0) ==> IsPrefix(sub, s);
        forall i | OccursAt(s, sub, i) ensures OccursAt(s[1..], sub, i - 1) {
          assert i >= 1;
          var here, there := s[i..i + |sub|], s[1..][i - 1..i - 1 + |sub|];
          assert forall k :: 0 <= k < |sub| ==> here[k] == there[k];
          assert here == there;
        }
      }
      r
  }

  /** ASCII lower-casing of one character; every other character is left alone. */
  function LowerChar(c: char): char
  {
    if 'A' <= c <= 'Z' then (c as int + 32) as char else c
  }

  /** ASCII lower-casing of a string, the model of Python's `str.lower`. */
  function Lower(s: string): (r: string)
    ensures |r| == |s|
    ensures forall i :: 0 <= i < |s| ==> r[i] == LowerChar(s[i])
    ensures forall i :: 0 <= i < |r| ==> !('A' <= r[i] <= 'Z')
    ensures forall i :: 0 <= i < |s| && !('A' <= s[i] <= 'Z') ==> r[i] == s[i]
  {
    seq(|s|, i requires 0 <= i < |s| => LowerChar(s[i]))
  }

  /** Lower-casing an already lower-cased string changes nothing. */
  lemma LowerIdempotent(s: string)
    ensures Lower(Lower(s)) == Lower(s)
  {
    var t := Lower(s);
    assert forall i :: 0 <= i < |t| ==> Lower(t)[i] == t[i];
  }

  /** The characters PHP's `trim` removes by default. */
  predicate PhpSpace(c: char)
  {
    c == ' ' || c == '\t' || c == '\n' || c == '\r' || c == '\0' || c == '\U{0B}'
  }

  /** The characters Python's `str.isspace` accepts, which `strip()` and `split()` use. */
  predicate PySpace(c: char)
  {
    c == ' ' || ('\t' <= c <= '\r') || ('\U{1C}' <= c <= '\U{1F}') || c == '\U{85}' || c == '\U{A0}'
    || c == '\U{1680}' || ('\U{2000}' <= c <= '\U{200A}') || c == '\U{2028}' || c == '\U{2029}'
    || c == '\U{202F}' || c == '\U{205F}' || c == '\U{3000}'
  }

  /** The white space and line terminators JavaScript's `String.prototype.trim` removes. */
  predicate JsSpace(c: char)
  {
    c == ' ' || ('\t' <= c <= '\r') || c == '\U{A0}' || c == '\U{FEFF}'
    || c == '\U{1680}' || ('\U{2000}' <= c <= '\U{200A}') || c == '\U{2028}' || c == '\U{2029}'
    || c == '\U{202F}' || c == '\U{205F}' || c == '\U{3000}'
  }

  /** Every character of `s` is white space for `ws`. */
  ghost predicate AllSpace(s: string, ws: char -> bool)
  {
    forall k :: 0 <= k < |s| ==> ws(s[k])
  }

  /** The first position at or after `i` that does not hold a `ws` character (`|s|` when there is none). */
  function SkipSpace(s: string, ws: char -> bool, i: nat): (j: nat)
    requires i <= |s|
    ensures i <= j <= |s|
    ensures j == |s| || !ws(s[j])
    ensures forall k :: i <= k < j ==> ws(s[k])
    decreases |s| - i
  {
    if i == |s| || !ws(s[i]) then i else SkipSpace(s, ws, i + 1)
  }

  /** The end of `s[lo..j]` once its trailing `ws` characters are dropped. */
  function SkipSpaceBack(s: string, ws: char -> bool, lo: nat, j: nat): (e: nat)
    requires lo <= j <= |s|
    ensures lo <= e <= j
    ensures e == lo || !ws(s[e - 1])
    ensures forall k :: e <= k < j ==> ws(s[k])
    decreases j - lo
  {
    if j == lo || !ws(s[j - 1]) then j else SkipSpaceBack(s, ws, lo, j - 1)
  }

  /** `r` is the part of `s` that starts at position `i`. */
  ghost predicate SliceAt(s: string, r: string, i: int)
  {
    0 <= i <= |s| - |r| && r == s[i..i + |r|]
  }

  /** `r` is the part of `s` at position `i`, and everything before and after it is `ws` white space. */
  ghost predicate TrimmedAt(s: string, r: string, i: int, ws: char -> bool)
  {
    SliceAt(s, r, i) && AllSpace(s[..i], ws) && AllSpace(s[i + |r|..], ws)
  }

  /** `s` without leading and trailing `ws` characters: `trim` in PHP and JavaScript, `strip` in Python. */
  function Trim(s: string, ws: char -> bool): (r: string)
    ensures r == [] || (!ws(r[0]) && !ws(r[|r| - 1]))
    ensures exists i :: SliceAt(s, r, i)
    ensures exists i :: TrimmedAt(s, r, i, ws)
    ensures r == [] <==> AllSpace(s, ws)
  {
    var i := SkipSpace(s, ws, 0);
    var e := SkipSpaceBack(s, ws, i, |s|);
    assert SliceAt(s, s[i..e], i);
    assert TrimmedAt(s, s[i..e], i, ws) by {
      assert forall k :: 0 <= k < i ==> s[..i][k] == s[k];
      assert forall k :: 0 <= k < |s| - e ==> s[e..][k] == s[e + k];
    }
    assert e == i ==> AllSpace(s, ws);
    assert e != i ==> !ws(s[i]);
    s[i..e]
  }

  /** A string with no white space at either end is its own trim. */
  lemma TrimUnpadded(s: string, ws: char -> bool)
    requires s == [] || (!ws(s[0]) && !ws(s[|s| - 1]))
    ensures Trim(s, ws) == s
  {
    if s != [] {
      assert SkipSpace(s, ws, 0) == 0;
      assert SkipSpaceBack(s, ws, 0, |s|) == |s|;
    }
  }

  /** Trimming an already trimmed string changes nothing. */
  lemma TrimIdempotent(s: string, ws: char -> bool)
    ensures Trim(Trim(s, ws), ws) == Trim(s, ws)
  {
    TrimUnpadded(Trim(s, ws), ws);
  }

  /** The longest prefix of `s` free of `ws` characters. */
  function TakeWord(s: string, ws: char -> bool): (w: string)
    ensures |w| <= |s| && w == s[..|w|]
    ensures forall k :: 0 <= k < |w| ==> !ws(w[k])
    ensures |w| == |s| || ws(s[|w|])
  {
    if s == [] || ws(s[0]) then []
    else [s[0]] + TakeWord(s[1..], ws)
  }

  /** The strings of `xs` written one after the other. */
  function Concat(xs: seq<string>): string
  {
    if xs == [] then [] else xs[0] + Concat(xs[1..])
  }

  /** `s` with every `ws` character removed. */
  function NonSpace(s: string, ws: char -> bool): string
  {
    if s == [] then [] else (if ws(s[0]) then [] else [s[0]]) + NonSpace(s[1..], ws)
  }

  /** A prefix free of white space is kept whole by `NonSpace`. */
  lemma {:induction false} NonSpacePrefix(s: string, ws: char -> bool, n: nat)
    requires n <= |s| && forall k :: 0 <= k < n ==> !ws(s[k])
    ensures NonSpace(s, ws) == s[..n] + NonSpace(s[n..], ws)
    decreases n
  {
    if n > 0 {
      NonSpacePrefix(s[1..], ws, n - 1);
      assert s[1..][..n - 1] == s[1..n];
      assert s[1..][n - 1..] == s[n..];
      assert s[..n] == [s[0]] + s[1..n];
    }
  }

  /** `w` holds no `ws` character. */
  predicate Unspaced(w: string, ws: char -> bool)
  {
    forall m :: 0 <= m < |w| ==> !ws(w[m])
  }

  /** `gaps[0] + words[0] + gaps[1] + … + words[n - 1] + gaps[n]`. */
  function Interleave(gaps: seq<string>, words: seq<string>): string
    requires |gaps| == |words| + 1
    decreases |words|
  {
    if words == [] then gaps[0] else gaps[0] + words[0] + Interleave(gaps[1..], words[1..])
  }

  /**
   * `s` is white space, then `words[0]`, then white space, …, then the last
   * word, then white space, with at least one white-space character between
   * two consecutive words.
   */
  ghost predicate LaidOut(s: string, words: seq<string>, gaps: seq<string>, ws: char -> bool)
  {
    && |gaps| == |words| + 1
    && Interleave(gaps, words) == s
    && (forall i :: 0 <= i < |gaps| ==> AllSpace(gaps[i], ws))
    && (forall i :: 0 < i < |words| ==> gaps[i] != [])
  }

  /** Python's `str.split()` with no argument: the maximal runs of non-space characters, in order. */
  function Words(s: string, ws: char -> bool): (r: seq<string>)
    ensures forall k :: 0 <= k < |r| ==> r[k] != [] && Contains(s, r[k])
    ensures forall k :: 0 <= k < |r| ==> Unspaced(r[k], ws)
    ensures exists gaps :: LaidOut(s, r, gaps, ws)
    ensures Concat(r) == NonSpace(s, ws)
    decreases |s|
  {
    if s == [] then
      assert LaidOut(s, [], [[]], ws);
      []
    else if ws(s[0]) then
      var r := Words(s[1..], ws);
      WordsSpaceStep(s, r, ws);
      r
    else
      var w := TakeWord(s, ws);
      var r := Words(s[|w|..], ws);
      WordsWordStep(s, w, r, ws);
      [w] + r
  }

  /** The four facts `Words` promises about its result `r` for the text `s`. */
  ghost predicate SplitsInto(s: string, r: seq<string>, ws: char -> bool)
  {
    && (forall k :: 0 <= k < |r| ==> r[k] != [] && Contains(s, r[k]))
    && (forall k :: 0 <= k < |r| ==> Unspaced(r[k], ws))
    && (exists gaps :: LaidOut(s, r, gaps, ws))
    && Concat(r) == NonSpace(s, ws)
  }

  /** Whatever occurs in a suffix of `s` occurs in `s`. */
  lemma SuffixContains(s: string, n: nat)
    requires n <= |s|
    ensures forall u :: Contains(s[n..], u) ==> Contains(s, u)
  {
    forall u, i | OccursAt(s[n..], u, i) ensures OccursAt(s, u, i + n) {
      assert s[i + n..i + n + |u|] == s[n..][i..i + |u|];
    }
  }

  /** A leading white-space character adds no word. */
  lemma WordsSpaceStep(s: string, r: seq<string>, ws: char -> bool)
    requires s != [] && ws(s[0]) && SplitsInto(s[1..], r, ws)
    ensures SplitsInto(s, r, ws)
  {
    SuffixContains(s, 1);
    assert NonSpace(s, ws) == NonSpace(s[1..], ws) by {
      assert NonSpace(s, ws) == [] + NonSpace(s[1..], ws);
    }
    LaidOutSpace(s, r, ws);
  }

  /** A leading word is the first word, followed by the words of the rest. */
  lemma WordsWordStep(s: string, w: string, r: seq<string>, ws: char -> bool)
    requires s != [] && !ws(s[0]) && w == TakeWord(s, ws) && SplitsInto(s[|w|..], r, ws)
    ensures SplitsInto(s, [w] + r, ws)
  {
    assert w != [] && w == s[..|w|];
    WordFirstContained(s, w, r);
    WordFirstUnspaced(w, r, ws);
    assert Concat([w] + r) == NonSpace(s, ws) by {
      assert ([w] + r)[1..] == r;
      NonSpacePrefix(s, ws, |w|);
    }
    WordFirstLaidOut(s, w, r, ws);
  }

  /** The first word and the words of the rest all occur in the text. */
  lemma WordFirstContained(s: string, w: string, r: seq<string>)
    requires w != [] && |w| <= |s| && w == s[..|w|]
    requires forall k :: 0 <= k < |r| ==> r[k] != [] && Contains(s[|w|..], r[k])
    ensures forall k :: 0 <= k < |[w] + r| ==> ([w] + r)[k] != [] && Contains(s, ([w] + r)[k])
  {
    assert OccursAt(s, w, 0);
    SuffixContains(s, |w|);
  }

  /** The first word and the words of the rest are all free of white space. */
  lemma WordFirstUnspaced(w: string, r: seq<string>, ws: char -> bool)
    requires Unspaced(w, ws) && forall k :: 0 <= k < |r| ==> Unspaced(r[k], ws)
    ensures forall k :: 0 <= k < |[w] + r| ==> Unspaced(([w] + r)[k], ws)
  {
  }

  /** The layout of the rest, with the first word in front. */
  lemma WordFirstLaidOut(s: string, w: string, r: seq<string>, ws: char -> bool)
    requires w != [] && |w| <= |s| && w == s[..|w|] && Unspaced(w, ws) && (|w| == |s| || ws(s[|w|]))
    requires forall k :: 0 <= k < |r| ==> r[k] != [] && Unspaced(r[k], ws)
    requires exists gaps :: LaidOut(s[|w|..], r, gaps, ws)
    ensures exists gaps :: LaidOut(s, [w] + r, gaps, ws)
  {
    LaidOutWord(w, s[|w|..], r, ws);
    assert w + s[|w|..] == s;
  }

  /** Text put in front of the first gap stays in front of the whole layout. */
  lemma InterleaveFront(p: string, gaps: seq<string>, words: seq<string>)
    requires |gaps| == |words| + 1
    ensures Interleave([p + gaps[0]] + gaps[1..], words) == p + Interleave(gaps, words)
  {
    if words != [] {
      assert ([p + gaps[0]] + gaps[1..])[1..] == gaps[1..];
    }
  }

  /** A layout whose first gap is empty starts with the first letter of its first word. */
  lemma InterleaveHead(gaps: seq<string>, words: seq<string>)
    requires |gaps| == |words| + 1 && words != [] && words[0] != []
    ensures gaps[0] == [] ==> Interleave(gaps, words) != [] && Interleave(gaps, words)[0] == words[0][0]
  {
  }

  /** A white-space character in front of a laid-out text joins its first gap. */
  lemma LaidOutSpace(s: string, words: seq<string>, ws: char -> bool)
    requires s != [] && ws(s[0]) && exists gaps :: LaidOut(s[1..], words, gaps, ws)
    ensures exists gaps :: LaidOut(s, words, gaps, ws)
  {
    var gaps :| LaidOut(s[1..], words, gaps, ws);
    var gaps' := [[s[0]] + gaps[0]] + gaps[1..];
    InterleaveFront([s[0]], gaps, words);
    assert [s[0]] + s[1..] == s;
    assert AllSpace(gaps'[0], ws);
    assert LaidOut(s, words, gaps', ws);
  }

  /** A word followed by white space or the end, in front of a laid-out text, becomes its first word. */
  lemma LaidOutWord(w: string, t: string, words: seq<string>, ws: char -> bool)
    requires w != [] && Unspaced(w, ws) && (t == [] || ws(t[0]))
    requires forall k :: 0 <= k < |words| ==> words[k] != [] && Unspaced(words[k], ws)
    requires exists gaps :: LaidOut(t, words, gaps, ws)
    ensures exists gaps :: LaidOut(w + t, [w] + words, gaps, ws)
  {
    var gaps :| LaidOut(t, words, gaps, ws);
    if words != [] {
      InterleaveHead(gaps, words);
    }
    var gaps' := [[]] + gaps;
    assert Interleave(gaps', [w] + words) == w + t by {
      assert gaps'[1..] == gaps;
      assert ([w] + words)[1..] == words;
    }
    assert LaidOut(w + t, [w] + words, gaps', ws);
  }

  /** A white-space-only text has no words. */
  lemma {:induction false} AllSpaceNoWords(s: string, ws: char -> bool)
    requires AllSpace(s, ws)
    ensures Words(s, ws) == []
    decreases |s|
  {
    if s != [] {
      AllSpaceNoWords(s[1..], ws);
    }
  }

  /** A prefix without white space, followed by white space or the end, is the word `TakeWord` takes. */
  lemma {:induction false} TakeWordOf(s: string, w: string, ws: char -> bool)
    requires |w| <= |s| && w == s[..|w|] && Unspaced(w, ws) && (|w| == |s| || ws(s[|w|]))
    ensures TakeWord(s, ws) == w
    decreases |w|
  {
    if w != [] {
      assert s[1..][..|w| - 1] == w[1..];
      TakeWordOf(s[1..], w[1..], ws);
      assert w == [s[0]] + w[1..];
    }
  }

  /**
   * The converse of the layout clause of `Words`: any way of laying `s` out
   * as white space and non-empty words without white space is `Words(s)`,
   * so the words are exactly the maximal runs.
   */
  lemma {:induction false} LaidOutIsWords(s: string, words: seq<string>, gaps: seq<string>, ws: char -> bool)
    requires LaidOut(s, words, gaps, ws)
    requires forall k :: 0 <= k < |words| ==> words[k] != [] && Unspaced(words[k], ws)
    ensures words == Words(s, ws)
    decreases |s|
  {
    if words == [] {
      AllSpaceNoWords(s, ws);
    } else if gaps[0] != [] {
      LaidOutDropSpace(s, words, gaps, ws);
      LaidOutIsWords(s[1..], words, [gaps[0][1..]] + gaps[1..], ws);
    } else {
      var t := Interleave(gaps[1..], words[1..]);
      LaidOutDropWord(s, words, gaps, ws);
      TakeWordOf(s, words[0], ws);
      LaidOutIsWords(t, words[1..], gaps[1..], ws);
      WordsStep(s, ws);
      assert words == [words[0]] + words[1..];
    }
  }

  /** A layout whose first gap is not empty starts with white space, and the rest is laid out with that gap shortened. */
  lemma LaidOutDropSpace(s: string, words: seq<string>, gaps: seq<string>, ws: char -> bool)
    requires LaidOut(s, words, gaps, ws) && words != [] && gaps[0] != []
    ensures s != [] && ws(s[0]) && LaidOut(s[1..], words, [gaps[0][1..]] + gaps[1..], ws)
  {
    var gaps' := [gaps[0][1..]] + gaps[1..];
    InterleaveFront([gaps[0][0]], gaps', words);
    assert [gaps[0][0]] + gaps'[0] == gaps[0] && gaps'[1..] == gaps[1..];
    assert [[gaps[0][0]] + gaps'[0]] + gaps'[1..] == gaps;
    assert AllSpace(gaps'[0], ws);
    assert gaps[0][0] == s[0];
  }

  /** A layout whose first gap is empty starts with its first word, which white space or the end follows. */
  lemma LaidOutDropWord(s: string, words: seq<string>, gaps: seq<string>, ws: char -> bool)
    requires LaidOut(s, words, gaps, ws) && words != [] && gaps[0] == []
    requires forall k :: 0 <= k < |words| ==> words[k] != [] && Unspaced(words[k], ws)
    ensures |words[0]| <= |s| && words[0] == s[..|words[0]|]
    ensures s[|words[0]|..] == Interleave(gaps[1..], words[1..])
    ensures |words[0]| == |s| || ws(s[|words[0]|])
    ensures LaidOut(Interleave(gaps[1..], words[1..]), words[1..], gaps[1..], ws)
  {
    var t := Interleave(gaps[1..], words[1..]);
    assert s == words[0] + t;
    assert s[..|words[0]|] == words[0];
    if |words| > 1 {
      assert gaps[1] != [];
      InterleaveFront([], gaps[1..], words[1..]);
      assert t[0] == gaps[1][0];
    } else {
      assert t == gaps[1];
    }
  }

  /** A non-empty string without white space splits into itself alone. */
  lemma WordsOfSingleWord(s: string, ws: char -> bool)
    requires s != [] && forall k :: 0 <= k < |s| ==> !ws(s[k])
    ensures Words(s, ws) == [s]
  {
    var w := TakeWord(s, ws);
    WordsStep(s, ws);
    assert w == s by {
      assert |w| == |s|;
    }
    assert s[|w|..] == [];
  }

  /** One step of `Words` on a string that starts with a word. */
  lemma WordsStep(s: string, ws: char -> bool)
    requires s != [] && !ws(s[0])
    ensures Words(s, ws) == [TakeWord(s, ws)] + Words(s[|TakeWord(s, ws)|..], ws)
  {
  }
}
