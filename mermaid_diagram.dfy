/**
 * The MermaidDiagram component: normalises the diagram source, hands it to
 * the Mermaid library, and shows either the rendered SVG or an error panel.
 * The library is a parameter: a function from the normalised source to the
 * outcome of parsing and rendering it.
 */
module MermaidDiagram {
  import opened Wrappers
  import opened Text

  /** The diagram types recognised at the start of the source. */
  const DiagramKeywords: seq<string> :=
    ["graph", "sequenceDiagram", "classDiagram", "stateDiagram", "erDiagram", "flowchart", "gantt", "pie"]

  /** Prepended when the source names no diagram type. */
  const DefaultHeader: string := "graph TD\n"

  /** Case-insensitive equality of two strings of the same length (the `i` flag). */
  predicate EqualIgnoringCase(a: string, b: string) {
    |a| == |b| && forall k :: 0 <= k < |a| ==> LowerAscii(a[k]) == LowerAscii(b[k])
  }

  /** `/^(graph|sequenceDiagram|...|pie)/i`: a bare prefix test, with no word boundary after it. */
  predicate StartsWithKeyword(s: string) {
    exists k :: 0 <= k < |DiagramKeywords| && |DiagramKeywords[k]| <= |s|
                && EqualIgnoringCase(s[..|DiagramKeywords[k]|], DiagramKeywords[k])
  }

  /** The source handed to the library: trimmed, with a flowchart header when it names no type. */
  function Preprocess(code: string): (processed: string)
    ensures StartsWithKeyword(processed)
    ensures StartsWithKeyword(Trim(code)) ==> processed == Trim(code)
    ensures !StartsWithKeyword(Trim(code)) ==> processed == DefaultHeader + Trim(code)
  {
    var trimmed := Trim(code);
    if StartsWithKeyword(trimmed) then trimmed
    else
      HeaderStartsWithKeyword(trimmed);
      DefaultHeader + trimmed
  }

  lemma HeaderStartsWithKeyword(rest: string)
    ensures StartsWithKeyword(DefaultHeader + rest)
  {
    var s := DefaultHeader + rest;
    assert s[..5] == "graph";
    assert EqualIgnoringCase(s[..|DiagramKeywords[0]|], DiagramKeywords[0]);
  }

  /** A trimmed source that names a diagram type is passed through as it is. */
  lemma PreprocessFixed(s: string)
    requires Trim(s) == s && StartsWithKeyword(s)
    ensures Preprocess(s) == s
  {
  }

  /** Preprocessing a preprocessed, non-blank source changes nothing more. */
  lemma PreprocessIdempotent(code: string)
    requires Trim(code) != ""
    ensures Preprocess(Preprocess(code)) == Preprocess(code)
  {
    var trimmed := Trim(code);
    var p := Preprocess(code);
    if StartsWithKeyword(trimmed) {
      assert p == trimmed;
      TrimIdempotent(code);
    } else {
      assert p == DefaultHeader + trimmed;
      assert p[0] == 'g' && p[|p| - 1] == trimmed[|trimmed| - 1];
      TrimUnchanged(p);
    }
    PreprocessFixed(p);
  }

  /** A blank source becomes the bare header, which trims to "graph TD" on a second pass. */
  lemma PreprocessBlank(code: string)
    requires Trim(code) == ""
    ensures Preprocess(code) == DefaultHeader
    ensures Preprocess(Preprocess(code)) == "graph TD"
  {
    BlankGetsHeader(code);
    HeaderPreprocessed();
  }

  lemma BlankGetsHeader(code: string)
    requires Trim(code) == ""
    ensures Preprocess(code) == DefaultHeader
  {
    BlankHasNoKeyword(Trim(code));
    HeaderWhenNoKeyword(code);
  }

  lemma BlankHasNoKeyword(t: string)
    requires t == ""
    ensures !StartsWithKeyword(t)
  {
    forall k | 0 <= k < |DiagramKeywords|
      ensures |DiagramKeywords[k]| > |t|
    {
    }
  }

  lemma HeaderWhenNoKeyword(code: string)
    requires !StartsWithKeyword(Trim(code))
    ensures Preprocess(code) == DefaultHeader + Trim(code)
  {
  }

  /** The header alone is trimmed to "graph TD", which is recognised. */
  lemma HeaderPreprocessed()
    ensures Preprocess(DefaultHeader) == "graph TD"
  {
    HeaderTrimmed();
    var bare := "graph TD";
    assert bare[..5] == "graph";
    assert EqualIgnoringCase(bare[..|DiagramKeywords[0]|], DiagramKeywords[0]);
    assert StartsWithKeyword(bare);
  }

  /** Trimming the header drops its newline. */
  lemma HeaderTrimmed()
    ensures Trim(DefaultHeader) == "graph TD"
  {
    assert TrimStart(DefaultHeader) == DefaultHeader;
    assert DefaultHeader[..|DefaultHeader| - 1] == "graph TD";
    assert TrimEnd("graph TD") == "graph TD";
  }

  /**
   * Recognition is by bare prefix: "pieces" counts as a pie chart and is left as it is.
   * The input is fixed by `requires`, so the solver evaluates the literal only where the proof needs it.
   */
  lemma BarePrefixRecognised(code: string)
    requires code == "pieces"
    ensures Preprocess(code) == code
  {
    assert code[..3] == DiagramKeywords[7];
    assert EqualIgnoringCase(code[..|DiagramKeywords[7]|], DiagramKeywords[7]);
    TrimUnchanged(code);
  }

  /**
   * "stateDiagram-v2" is recognised through its "stateDiagram" prefix.
   * The input is fixed by `requires`, so the solver evaluates the literal only where the proof needs it.
   */
  lemma VersionedStateDiagramRecognised(code: string)
    requires code == "stateDiagram-v2"
    ensures Preprocess(code) == code
  {
    assert code[..12] == DiagramKeywords[3];
    assert EqualIgnoringCase(code[..|DiagramKeywords[3]|], DiagramKeywords[3]);
    TrimUnchanged(code);
  }

  /** What the library does with the processed source. */
  datatype Outcome =
    | Rendered(svg: string)
    | ParseFailed(message: string)
    | RenderFailed(message: string)

  const SyntaxErrorPrefix: string := "Erreur de syntaxe : "
  const RenderErrorPrefix: string := "Erreur de rendu : "
  const UnknownError: string := "Erreur inconnue"

  const ShowLabel: string := "Afficher le code source"
  const HideLabel: string := "Masquer le code source"

  /** What the component shows. */
  datatype View =
    | ErrorPanel(error: string, source: string)
      /** The toggle, the source when it is open, the SVG when there is one. */
    | DiagramPanel(toggleLabel: string, shownSource: Option<string>, svg: Option<string>)

  class MermaidView {
    var svgContent: string
    var error: Option<string>
    var showCode: bool

    /** A stored error is never empty, so `if (error)` is the same as "an error is stored". */
    ghost predicate Valid()
      reads this
    {
      error.Some? ==> error.value != ""
    }

    constructor ()
      ensures Valid()
      ensures svgContent == "" && error == None && !showCode
    {
      svgContent := "";
      error := None;
      showCode := false;
    }

    /** `renderDiagram`, run whenever `code` changes. */
    method RenderDiagram(code: string, mermaid: string -> Outcome)
      requires Valid()
      modifies this
      ensures Valid()
      ensures showCode == old(showCode)
      ensures mermaid(Preprocess(code)).ParseFailed? ==>
                error == Some(SyntaxErrorPrefix + mermaid(Preprocess(code)).message)
                && svgContent == old(svgContent)
      ensures mermaid(Preprocess(code)).RenderFailed? ==>
                var m := mermaid(Preprocess(code)).message;
                error == Some(RenderErrorPrefix + (if m == "" then UnknownError else m))
                && svgContent == ""
      ensures mermaid(Preprocess(code)).Rendered? ==>
                svgContent == mermaid(Preprocess(code)).svg && error == None
    {
      var processed := Preprocess(code);
      var outcome := mermaid(processed);
      match outcome
      case ParseFailed(message) =>
        error := Some(SyntaxErrorPrefix + message);
      case RenderFailed(message) =>
        error := Some(RenderErrorPrefix + (if message == "" then UnknownError else message));
        svgContent := "";
      case Rendered(svg) =>
        svgContent := svg;
        error := None;
    }

    /** The show/hide source button. */
    method ToggleShowCode()
      modifies this
      ensures showCode == !old(showCode)
      ensures svgContent == old(svgContent) && error == old(error)
    {
      showCode := !showCode;
    }

    /** The component's output for the source `code`. */
    function Display(code: string): (v: View)
      reads this
      ensures v.ErrorPanel? <==> error.Some? && error.value != ""
      ensures v.ErrorPanel? ==> Some(v.error) == error && v.source == code
      ensures v.DiagramPanel? ==> v.toggleLabel == (if showCode then HideLabel else ShowLabel)
      ensures v.DiagramPanel? ==> (v.shownSource.Some? <==> showCode)
      ensures v.DiagramPanel? && v.shownSource.Some? ==> v.shownSource.value == code
      ensures v.DiagramPanel? ==> (v.svg.Some? <==> svgContent != "")
      ensures v.DiagramPanel? && v.svg.Some? ==> v.svg.value == svgContent
    {
      if error.Some? && error.value != "" then ErrorPanel(error.value, code)
      else
        DiagramPanel(
          if showCode then HideLabel else ShowLabel,
          if showCode then Some(code) else None,
          if svgContent != "" then Some(svgContent) else None)
    }
  }

  /** After any failure the error panel is shown, whatever SVG is kept. */
  method RenderThenDisplay(v: MermaidView, code: string, mermaid: string -> Outcome) returns (shown: View)
    requires v.Valid()
    modifies v
    ensures !mermaid(Preprocess(code)).Rendered? ==> shown.ErrorPanel?
    ensures mermaid(Preprocess(code)).Rendered? ==>
              shown.DiagramPanel? && (shown.svg.Some? <==> mermaid(Preprocess(code)).svg != "")
  {
    v.RenderDiagram(code, mermaid);
    shown := v.Display(code);
  }

  /** Toggling the source view twice restores it. */
  method ToggleTwice(v: MermaidView)
    modifies v
    ensures v.showCode == old(v.showCode)
    ensures v.svgContent == old(v.svgContent) && v.error == old(v.error)
  {
    v.ToggleShowCode();
    v.ToggleShowCode();
  }
}
