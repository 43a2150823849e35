/**
 * The CodeRenderer component: decides how a Markdown code element is shown,
 * as a Mermaid diagram, as a highlighted block with a copy button, or as a
 * plain `code` element.
 */
module CodeRenderer {
  import opened Wrappers
  import opened Text

  const LanguagePrefix: string := "language-"

  /** `/language-(\w+)/` matches at index `i`: the prefix, then at least one word character. */
  predicate MatchesAt(s: string, i: int) {
    OccursAt(s, LanguagePrefix, i) && i + |LanguagePrefix| < |s| && IsWordChar(s[i + |LanguagePrefix|])
  }

  /** The longest run of word characters at the start of `s`, as `\w+` takes greedily. */
  function WordRun(s: string): (w: string)
    ensures |w| <= |s| && w == s[..|w|]
    ensures forall k :: 0 <= k < |w| ==> IsWordChar(w[k])
    ensures |w| == |s| || !IsWordChar(s[|w|])
  {
    if s != [] && IsWordChar(s[0]) then [s[0]] + WordRun(s[1..]) else []
  }

  /** The unanchored search: the leftmost match at or after `from`. */
  function FirstMatch(s: string, from: nat): (r: Option<nat>)
    decreases |s| - from
    ensures r.Some? ==> from <= r.value && MatchesAt(s, r.value)
    ensures r.Some? ==> forall j :: from <= j < r.value ==> !MatchesAt(s, j)
    ensures r.None? ==> forall j :: from <= j ==> !MatchesAt(s, j)
  {
    if from + |LanguagePrefix| >= |s| then None
    else if MatchesAt(s, from) then Some(from)
    else FirstMatch(s, from + 1)
  }

  /**
   * `match[1]` of `/language-(\w+)/.exec(className || '')`: the word run after
   * the first "language-" that is followed by a word character. A missing
   * class name searches the empty string and finds nothing.
   */
  function Language(className: Option<string>): (lang: Option<string>)
    ensures className.None? ==> lang.None?
    ensures className.Some? ==> (lang.Some? <==> exists i :: MatchesAt(className.value, i))
    ensures lang.Some? ==> |lang.value| >= 1 && forall k :: 0 <= k < |lang.value| ==> IsWordChar(lang.value[k])
    ensures lang.Some? ==> exists i :: OccursAt(className.value, LanguagePrefix + lang.value, i)
    ensures lang.Some? ==> exists i :: && MatchesAt(className.value, i)
                                       && (forall j :: 0 <= j < i ==> !MatchesAt(className.value, j))
                                       && lang.value == WordRun(className.value[i + |LanguagePrefix|..])
  {
    match className
    case None => None
    case Some(s) =>
      match FirstMatch(s, 0)
      case None => None
      case Some(i) =>
        var w := WordRun(s[i + |LanguagePrefix|..]);
        assert s[i..i + |LanguagePrefix| + |w|] == LanguagePrefix + w;
        assert OccursAt(s, LanguagePrefix + w, i);
        Some(w)
  }

  /** `String(children).replace(/\n$/, '')`: at most one newline, and only the very last character. */
  function StripTrailingNewline(s: string): (r: string)
    ensures EndsWith(s, "\n") ==> s == r + "\n"
    ensures !EndsWith(s, "\n") ==> r == s
  {
    if s != [] && s[|s| - 1] == '\n' then s[..|s| - 1] else s
  }

  /** A second trailing newline survives: only one is removed. */
  lemma StripRemovesOneNewline(s: string)
    ensures StripTrailingNewline(s + "\n\n") == s + "\n"
  {
    assert (s + "\n\n")[..|s| + 1] == s + "\n";
  }

  /** The three outcomes. */
  datatype Rendering =
    | Diagram(code: string)
      /** A highlighted block; the copy button copies the same `code`. */
    | Highlighted(language: string, code: string)
    | PlainCode(children: string, className: Option<string>)

  /** `CodeRenderer`: route one code element. */
  function Route(inline: bool, className: Option<string>, children: string): (r: Rendering)
    ensures r.Diagram? <==> Language(className) == Some("mermaid")
    ensures r.Highlighted? <==> !inline && Language(className).Some? && Language(className) != Some("mermaid")
    ensures r.PlainCode? <==> (inline || Language(className).None?) && Language(className) != Some("mermaid")
    ensures r.Highlighted? ==> Language(className) == Some(r.language)
    ensures (r.Diagram? || r.Highlighted?) ==> r.code == StripTrailingNewline(children)
    ensures r.PlainCode? ==> r.children == children && r.className == className
  {
    var lang := Language(className);
    var code := StripTrailingNewline(children);
    if lang == Some("mermaid") then Diagram(code)
    else if !inline && lang.Some? then Highlighted(lang.value, code)
    else PlainCode(children, className)
  }

  /** The code a diagram or a highlighted block shows gives back the element's text. */
  lemma RoutedCodeRestoresChildren(inline: bool, className: Option<string>, children: string)
    requires !Route(inline, className, children).PlainCode?
    ensures var code := Route(inline, className, children).code;
            children == code || children == code + "\n"
  {
  }

  /** A string of word characters is its own word run. */
  lemma {:induction false} WordRunWhole(s: string)
    requires forall k :: 0 <= k < |s| ==> IsWordChar(s[k])
    ensures WordRun(s) == s
  {
    if s != [] {
      WordRunWhole(s[1..]);
    }
  }

  /**
   * "mermaid" goes to the diagram even inside a sentence.
   * The input is fixed by `requires`, so the solver evaluates the literal only where the proof needs it.
   */
  lemma MermaidInline(className: string, children: string)
    requires className == "language-mermaid"
    ensures Route(true, Some(className), children) == Diagram(StripTrailingNewline(children))
  {
    assert MatchesAt(className, 0);
    assert FirstMatch(className, 0) == Some(0);
    assert className[|LanguagePrefix|..] == "mermaid";
    WordRunWhole("mermaid");
  }
}
