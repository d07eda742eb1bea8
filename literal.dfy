/** The literal compiler: joining the static fragments of a tagged template with markers
    (es/index.js:918-1001) and the template cache key (es/index.js:1584). */
module Literal {
  import opened Strings

  /** The shape of the attribute-position marker: `{{lit-`, decimal digits, `}}`. */
  predicate IsMarkerToken(s: string)
  {
    |s| >= 8 && s[..6] == "{{lit-" && s[|s| - 2..] == "}}"
    && forall k :: 6 <= k < |s| - 2 ==> '0' <= s[k] <= '9'
  }

  type MarkerToken = s: string | IsMarkerToken(s) witness "{{lit-}}"

  /** The attribute-position marker.  The source draws its digits from `Math.random()` once
      per process, so the model fixes only its shape. */
  const Marker: MarkerToken

  /** The text-position marker: the same token wrapped in a comment. */
  const NodeMarker: string := "<!--" + Marker + "-->"

  /** No occurrence of `c` in `s` at or after position `from`. */
  predicate NoneFrom(s: string, c: char, from: int)
  {
    forall k :: from <= k < |s| && 0 <= k ==> s[k] != c
  }

  /** `str.lastIndexOf(c)` */
  function LastIndexOf(s: string, c: char): (r: int)
    ensures -1 <= r < |s|
    ensures r >= 0 ==> s[r] == c
    ensures NoneFrom(s, c, r + 1)
  {
    if |s| == 0 then -1 else if s[|s| - 1] == c then |s| - 1 else LastIndexOf(s[..|s| - 1], c)
  }

  /** `str.indexOf(c, from)` for `from >= 0` */
  function IndexOfFrom(s: string, c: char, from: nat): (r: int)
    ensures r == -1 || (from <= r < |s| && s[r] == c)
    ensures r == -1 ==> NoneFrom(s, c, from)
    ensures forall k :: from <= k < r ==> s[k] != c
    decreases |s| - from
  {
    if from >= |s| then -1 else if s[from] == c then from else IndexOfFrom(s, c, from + 1)
  }

  /** `findTagClose` (es/index.js:997-1001): the index of the last `>`, except that a `<`
      after it (an unclosed tag) gives `|s|`, and a fragment with no tag characters gives -1. */
  function FindTagClose(s: string): (r: int)
    ensures -1 <= r <= |s|
  {
    var close := LastIndexOf(s, '>');
    var open := IndexOfFrom(s, '<', close + 1);
    if open > -1 then |s| else close
  }

  /** What `findTagClose` reports: -1 exactly when the fragment has no tag characters, the
      length exactly when some `<` has no `>` after it, and otherwise the position of a `>`
      followed by neither tag character. */
  lemma FindTagCloseMeaning(s: string)
    ensures FindTagClose(s) == -1 <==> NoneFrom(s, '>', 0) && NoneFrom(s, '<', 0)
    ensures FindTagClose(s) == |s| <==> exists k :: 0 <= k < |s| && s[k] == '<' && NoneFrom(s, '>', k + 1)
    ensures 0 <= FindTagClose(s) < |s| ==>
      s[FindTagClose(s)] == '>' && NoneFrom(s, '>', FindTagClose(s) + 1) && NoneFrom(s, '<', FindTagClose(s) + 1)
  {
    var close := LastIndexOf(s, '>');
    var open := IndexOfFrom(s, '<', close + 1);
    if open > -1 {
      assert NoneFrom(s, '>', open + 1);
    } else {
      forall k | 0 <= k < |s| && s[k] == '<' ensures !NoneFrom(s, '>', k + 1) {
        assert k <= close;
      }
    }
  }

  /** The running "text position" flag of `getHTML` after fragment `i`
      (es/index.js:934-944): it starts true, a fragment whose tags are all closed makes it
      true, a fragment ending inside a tag makes it false, and a fragment with no tag
      characters leaves it as it was. */
  function TextPositionAfter(strings: seq<string>, i: nat): bool
    requires i < |strings|
  {
    var before := if i == 0 then true else TextPositionAfter(strings, i - 1);
    var closing := FindTagClose(strings[i]);
    if closing > -1 then closing < |strings[i]| else before
  }

  /** The flag before fragment `i`. */
  function TextPositionBefore(strings: seq<string>, i: nat): bool
    requires i < |strings|
  {
    if i == 0 then true else TextPositionAfter(strings, i - 1)
  }

  /** One step of the flag, for a caller holding the flag before fragment `i`. */
  lemma TextPositionStep(strings: seq<string>, i: nat, before: bool)
    requires i < |strings| && before == TextPositionBefore(strings, i)
    ensures TextPositionAfter(strings, i)
      == (if FindTagClose(strings[i]) > -1 then FindTagClose(strings[i]) < |strings[i]| else before)
  {
  }

  /** The marker `getHTML` places after fragment `i`. */
  function MarkerAfter(strings: seq<string>, i: nat): string
    requires i < |strings|
  {
    if TextPositionAfter(strings, i) then NodeMarker else Marker
  }

  /** The markers of the first `n` boundaries. */
  function MarkersUpTo(strings: seq<string>, n: nat): (r: seq<string>)
    requires n <= |strings|
    ensures |r| == n
  {
    if n == 0 then [] else MarkersUpTo(strings, n - 1) + [MarkerAfter(strings, n - 1)]
  }

  /** Marker `i` of the list is the one placed after fragment `i`. */
  lemma {:induction false} MarkerAt(strings: seq<string>, n: nat, i: nat)
    requires i < n <= |strings|
    ensures MarkersUpTo(strings, n)[i] == MarkerAfter(strings, i)
  {
    if i < n - 1 {
      MarkerAt(strings, n - 1, i);
    }
  }

  /** The markup up to and including the marker after fragment `n - 1`. */
  function HtmlBefore(strings: seq<string>, n: nat): string
    requires n <= |strings|
  {
    if n == 0 then "" else HtmlBefore(strings, n - 1) + strings[n - 1] + MarkerAfter(strings, n - 1)
  }

  /** One more fragment and its marker extend the markup. */
  lemma HtmlBeforeStep(strings: seq<string>, i: nat)
    requires i < |strings|
    ensures HtmlBefore(strings, i + 1) == HtmlBefore(strings, i) + strings[i] + MarkerAfter(strings, i)
  {
  }

  /** The compiled markup of a literal: every fragment, with the chosen marker between
      consecutive fragments. */
  function CompiledHtml(strings: seq<string>): string
    requires |strings| >= 1
  {
    HtmlBefore(strings, |strings| - 1) + strings[|strings| - 1]
  }

  /** `TemplateResult.getHTML` (es/index.js:930-946). */
  method GetHtml(strings: seq<string>) returns (html: string)
    requires |strings| >= 1
    ensures html == CompiledHtml(strings)
  {
    var l := |strings| - 1;
    html := "";
    var isTextBinding := true;
    var i := 0;
    while i < l
      invariant 0 <= i <= l
      invariant isTextBinding == TextPositionBefore(strings, i)
      invariant html == HtmlBefore(strings, i)
    {
      var s := strings[i];
      html := html + s;
      var closing := FindTagClose(s);
      TextPositionStep(strings, i, isTextBinding);
      isTextBinding := if closing > -1 then closing < |s| else isTextBinding;
      html := html + (if isTextBinding then NodeMarker else Marker);
      HtmlBeforeStep(strings, i);
      i := i + 1;
    }
    html := html + strings[l];
  }

  /** The compiled markup is the interleaving of the fragments with the chosen markers,
      the same shape as an attribute interpolation with the markers as values. */
  lemma {:induction false} CompiledHtmlIsInterleaving(strings: seq<string>, n: nat)
    requires n < |strings|
    ensures HtmlBefore(strings, n) + strings[n] == Interleave(strings[..n + 1], MarkersUpTo(strings, n))
  {
    if n > 0 {
      CompiledHtmlIsInterleaving(strings, n - 1);
      var before, m := MarkersUpTo(strings, n - 1), MarkerAfter(strings, n - 1);
      InterleaveSnoc(strings[..n], before, strings[n], m);
      FragmentsSnoc(strings, n);
      calc {
        HtmlBefore(strings, n) + strings[n];
        (HtmlBefore(strings, n - 1) + strings[n - 1]) + m + strings[n];
        Interleave(strings[..n], before) + m + strings[n];
        Interleave(strings[..n] + [strings[n]], before + [m]);
      }
    } else {
      assert strings[..1] == [strings[0]];
    }
  }

  /** The first `n + 1` fragments are the first `n` and fragment `n`. */
  lemma FragmentsSnoc(strings: seq<string>, n: nat)
    requires n < |strings|
    ensures strings[..n] + [strings[n]] == strings[..n + 1]
  {
  }

  /** A getHTML result holds exactly one marker per interpolation. */
  lemma MarkerCount(strings: seq<string>)
    requires |strings| >= 1
    ensures CompiledHtml(strings) == Interleave(strings, MarkersUpTo(strings, |strings| - 1))
    ensures |MarkersUpTo(strings, |strings| - 1)| == |strings| - 1
  {
    CompiledHtmlIsInterleaving(strings, |strings| - 1);
    assert strings[..|strings|] == strings;
  }

  /** A fragment with no `<` and no `>` inherits the classification of the one before:
      this is what makes both expressions of `attr="${a}-${b}"` attribute positions. */
  lemma InheritsWithoutTags(strings: seq<string>, i: nat)
    requires 0 < i < |strings|
    requires NoneFrom(strings[i], '<', 0) && NoneFrom(strings[i], '>', 0)
    ensures TextPositionAfter(strings, i) == TextPositionAfter(strings, i - 1)
  {
    FindTagCloseMeaning(strings[i]);
  }

  /** A fragment that opens a tag and leaves it open ends in attribute position. */
  lemma UnclosedTagIsAttributePosition(strings: seq<string>, i: nat, k: nat)
    requires i < |strings| && k < |strings[i]|
    requires strings[i][k] == '<' && NoneFrom(strings[i], '>', k + 1)
    ensures !TextPositionAfter(strings, i)
    ensures MarkerAfter(strings, i) == Marker
  {
    FindTagCloseMeaning(strings[i]);
  }

  /** A fragment whose last tag character is a `>` ends in text position. */
  lemma ClosedTagIsTextPosition(strings: seq<string>, i: nat, k: nat)
    requires i < |strings| && k < |strings[i]|
    requires strings[i][k] == '>' && NoneFrom(strings[i], '>', k + 1) && NoneFrom(strings[i], '<', k + 1)
    ensures TextPositionAfter(strings, i)
    ensures MarkerAfter(strings, i) == NodeMarker
  {
    FindTagCloseMeaning(strings[i]);
  }

  /** `getTemplateCacheKey` (es/index.js:1584): `${type}--${scopeName}`. */
  function TemplateCacheKey(kind: string, scopeName: string): (r: string)
    ensures HasPrefix(r, kind + "--") && r[|kind| + 2..] == scopeName
  {
    kind + "--" + scopeName
  }

  /** For one template type, distinct scope names get distinct caches. */
  lemma CacheKeyInjectiveInScope(kind: string, a: string, b: string)
    requires TemplateCacheKey(kind, a) == TemplateCacheKey(kind, b)
    ensures a == b
  {
    assert TemplateCacheKey(kind, a)[|kind| + 2..] == a;
  }
}
