/**
 * The FileReader component: the user picks a `.txt` file, and "Generate
 * Component" turns its name into a PascalCase component name and wraps its
 * text in the source of a React component named after it.
 */
module FileReader {
  import opened Wrappers
  import opened Text

  /** `name.replace('.txt', '')`: a string pattern, so only its first occurrence goes. */
  function StripTxt(name: string): (r: string)
    ensures (forall j :: !OccursAt(name, ".txt", j)) ==> r == name
    ensures forall k :: OccursAt(name, ".txt", k) && (forall j :: 0 <= j < k ==> !OccursAt(name, ".txt", j))
                        ==> r == name[..k] + name[k + 4..]
  {
    match IndexOf(name, ".txt", 0)
    case None => name
    case Some(k) => name[..k] + name[k + 4..]
  }

  /** Every character outside `[a-zA-Z0-9]` separates words. */
  predicate IsSeparator(c: char) { !IsAsciiAlnum(c) }

  /** `word.charAt(0).toUpperCase() + word.slice(1).toLowerCase()`. */
  function Capitalize(word: string): (w: string)
    ensures |w| == |word|
    ensures word != [] ==> w[0] == UpperAscii(word[0])
    ensures forall k :: 1 <= k < |word| ==> w[k] == LowerAscii(word[k])
  {
    if word == [] then [] else [UpperAscii(word[0])] + LowerAll(word[1..])
  }

  function CapitalizeAll(words: seq<string>): (r: seq<string>)
    ensures |r| == |words|
  {
    if words == [] then [] else [Capitalize(words[0])] + CapitalizeAll(words[1..])
  }

  /**
   * The reference definition of the derived name, character by character:
   * separators are dropped, and a letter is upper-cased when it starts a
   * run of `[a-zA-Z0-9]` and lower-cased otherwise.
   */
  function PascalCase(s: string, atWordStart: bool): string {
    if s == [] then []
    else if IsSeparator(s[0]) then PascalCase(s[1..], true)
    else [if atWordStart then UpperAscii(s[0]) else LowerAscii(s[0])] + PascalCase(s[1..], false)
  }

  /**
   * The component name: the file name without its first ".txt", split on
   * every separator character, each word capitalised, joined without glue.
   */
  function ComponentName(selectedFile: string): (name: string)
    ensures name == PascalCase(StripTxt(selectedFile), true)
    ensures forall i :: 0 <= i < |name| ==> IsAsciiAlnum(name[i])
    ensures |name| == CountWhere(StripTxt(selectedFile), IsAsciiAlnum)
  {
    var stem := StripTxt(selectedFile);
    WordsArePascalCase(stem);
    PascalCaseShape(stem, true);
    Join(CapitalizeAll(SplitWhere(stem, IsSeparator)), "")
  }

  lemma JoinEmptyCons(head: string, tail: seq<string>)
    ensures Join([head] + tail, "") == head + Join(tail, "")
  {
    if tail == [] {
      assert [head] + tail == [head];
    } else {
      JoinCons(head, tail, "");
    }
  }

  /** The two facts `WordsArePascalCase` proves of `s`. */
  predicate WordsAgree(s: string) {
    var parts := SplitWhere(s, IsSeparator);
    && Join(CapitalizeAll(parts), "") == PascalCase(s, true)
    && LowerAll(parts[0]) + Join(CapitalizeAll(parts[1..]), "") == PascalCase(s, false)
  }

  lemma SeparatorStep(s: string)
    requires s != [] && IsSeparator(s[0]) && WordsAgree(s[1..])
    ensures WordsAgree(s)
  {
    var parts := SplitWhere(s, IsSeparator);
    var rest := SplitWhere(s[1..], IsSeparator);
    assert parts == [""] + rest;
    assert parts[1..] == rest;
    assert CapitalizeAll(parts) == [""] + CapitalizeAll(rest);
    JoinEmptyCons("", CapitalizeAll(rest));
    assert LowerAll(parts[0]) == "";
  }

  lemma LowerAllCons(c: char, s: string)
    ensures LowerAll([c] + s) == [LowerAscii(c)] + LowerAll(s)
  {
  }

  /** How the split of `s` looks when `s` starts with a letter or digit. */
  lemma WordCharSplit(s: string)
    requires s != [] && !IsSeparator(s[0])
    ensures var rest := SplitWhere(s[1..], IsSeparator);
            && SplitWhere(s, IsSeparator)[0] == [s[0]] + rest[0]
            && SplitWhere(s, IsSeparator)[1..] == rest[1..]
  {
  }

  lemma WordCharStep(s: string)
    requires s != [] && !IsSeparator(s[0]) && WordsAgree(s[1..])
    ensures WordsAgree(s)
  {
    WordCharStepAtStart(s);
    WordCharStepInside(s);
  }

  /** A word character at the start of a word is upper-cased and opens the first word. */
  lemma WordCharStepAtStart(s: string)
    requires s != [] && !IsSeparator(s[0]) && WordsAgree(s[1..])
    ensures Join(CapitalizeAll(SplitWhere(s, IsSeparator)), "") == PascalCase(s, true)
  {
    var parts := SplitWhere(s, IsSeparator);
    var rest := SplitWhere(s[1..], IsSeparator);
    var first := [s[0]] + rest[0];
    var tail := Join(CapitalizeAll(rest[1..]), "");
    WordCharSplit(s);
    assert parts == [first] + rest[1..];
    assert CapitalizeAll(parts) == [Capitalize(first)] + CapitalizeAll(rest[1..]);
    JoinEmptyCons(Capitalize(first), CapitalizeAll(rest[1..]));
    assert first[1..] == rest[0];
    PascalCaseAtWordChar(s, true);
    Regroup([UpperAscii(s[0])], LowerAll(rest[0]), tail);
  }

  /** A word character inside a word is lower-cased and extends the first word. */
  lemma WordCharStepInside(s: string)
    requires s != [] && !IsSeparator(s[0]) && WordsAgree(s[1..])
    ensures var parts := SplitWhere(s, IsSeparator);
            LowerAll(parts[0]) + Join(CapitalizeAll(parts[1..]), "") == PascalCase(s, false)
  {
    var rest := SplitWhere(s[1..], IsSeparator);
    var tail := Join(CapitalizeAll(rest[1..]), "");
    WordCharSplit(s);
    LowerAllCons(s[0], rest[0]);
    PascalCaseAtWordChar(s, false);
    Regroup([LowerAscii(s[0])], LowerAll(rest[0]), tail);
  }

  /**
   * Concatenation regrouped. As a lemma its use brings only this one fact
   * into a proof, where an inline assertion lets the solver explore the
   * surrounding sequence terms as well.
   */
  lemma Regroup(a: string, b: string, c: string)
    ensures a + b + c == a + (b + c)
  {
  }

  lemma PascalCaseAtWordChar(s: string, atWordStart: bool)
    requires s != [] && !IsSeparator(s[0])
    ensures PascalCase(s, atWordStart)
         == [if atWordStart then UpperAscii(s[0]) else LowerAscii(s[0])] + PascalCase(s[1..], false)
  {
  }



  /**
   * Splitting into words and capitalising each agrees with the character-by-
   * character definition, both at the start of a word and inside one.
   */
  lemma {:induction false} WordsArePascalCase(s: string)
    ensures Join(CapitalizeAll(SplitWhere(s, IsSeparator)), "") == PascalCase(s, true)
    ensures LowerAll(SplitWhere(s, IsSeparator)[0]) + Join(CapitalizeAll(SplitWhere(s, IsSeparator)[1..]), "")
            == PascalCase(s, false)
  {
    if s == [] {
      var parts := SplitWhere(s, IsSeparator);
      assert parts == [""];
      assert CapitalizeAll(parts) == [""];
      assert parts[1..] == [];
    } else {
      WordsArePascalCase(s[1..]);
      if IsSeparator(s[0]) {
        SeparatorStep(s);
      } else {
        WordCharStep(s);
      }
    }
  }

  /** The reference name holds only `[a-zA-Z0-9]`, one for each such character of the input. */
  lemma {:induction false} PascalCaseShape(s: string, atWordStart: bool)
    ensures forall i :: 0 <= i < |PascalCase(s, atWordStart)| ==> IsAsciiAlnum(PascalCase(s, atWordStart)[i])
    ensures |PascalCase(s, atWordStart)| == CountWhere(s, IsAsciiAlnum)
  {
    if s != [] {
      PascalCaseShape(s[1..], IsSeparator(s[0]));
    }
  }

  /** A ".txt" occurrence starts with a dot. */
  lemma OccurrenceStartsWithDot(name: string, j: int)
    requires OccursAt(name, ".txt", j)
    ensures name[j] == '.'
  {
    assert name[j..j + 4][0] == '.';
  }

  /** Worked examples: only the first ".txt" is removed, wherever it is. */
  lemma StripTxtExamples()
    ensures StripTxt("my-file_name.txt") == "my-file_name"
    ensures StripTxt("a.txt.txt") == "a.txt"
  {
    var n1 := "my-file_name.txt";
    assert OccursAt(n1, ".txt", 12);
    forall j | 0 <= j < 12 ensures !OccursAt(n1, ".txt", j) {
      if OccursAt(n1, ".txt", j) { OccurrenceStartsWithDot(n1, j); }
    }
    assert n1[..12] + n1[16..] == "my-file_name";
    var n2 := "a.txt.txt";
    assert OccursAt(n2, ".txt", 1);
    forall j | 0 <= j < 1 ensures !OccursAt(n2, ".txt", j) {
      if OccursAt(n2, ".txt", j) { OccurrenceStartsWithDot(n2, j); }
    }
    assert n2[..1] + n2[5..] == "a.txt";
  }

  /** Whether the character after `a` starts a word. */
  function FlagAfter(a: string, atWordStart: bool): bool {
    if a == [] then atWordStart else IsSeparator(a[|a| - 1])
  }

  /** What the first character of `s` contributes to the name. */
  function Head(c: char, atWordStart: bool): string {
    if IsSeparator(c) then [] else [if atWordStart then UpperAscii(c) else LowerAscii(c)]
  }

  lemma PascalCaseFront(s: string, atWordStart: bool)
    requires s != []
    ensures PascalCase(s, atWordStart) == Head(s[0], atWordStart) + PascalCase(s[1..], IsSeparator(s[0]))
  {
    if IsSeparator(s[0]) {
      assert Head(s[0], atWordStart) + PascalCase(s[1..], true) == PascalCase(s[1..], true);
    }
  }

  /** The derivation works piecewise: the name of `a + b` is the name of `a` followed by that of `b`. */
  lemma {:induction false} PascalCaseAppend(a: string, b: string, atWordStart: bool)
    ensures PascalCase(a + b, atWordStart) == PascalCase(a, atWordStart) + PascalCase(b, FlagAfter(a, atWordStart))
  {
    if a == [] {
      assert a + b == b;
    } else {
      var next := IsSeparator(a[0]);
      assert (a + b)[0] == a[0] && (a + b)[1..] == a[1..] + b;
      PascalCaseFront(a + b, atWordStart);
      PascalCaseFront(a, atWordStart);
      PascalCaseAppend(a[1..], b, next);
      if a[1..] != [] {
        assert a[1..][|a[1..]| - 1] == a[|a| - 1];
      }
      assert FlagAfter(a[1..], next) == FlagAfter(a, atWordStart);
      Regroup(Head(a[0], atWordStart), PascalCase(a[1..], next), PascalCase(b, FlagAfter(a, atWordStart)));
    }
  }




  /**
   * The names of the pieces the worked examples below are cut into, one
   * lemma each so that each example's proof sees only the facts it uses.
   */
  lemma ExampleMy()
    ensures PascalCase("my-", true) == "My"
  {
  }

  lemma ExampleFile()
    ensures PascalCase("file_", true) == "File"
  {
  }

  lemma ExampleName()
    ensures PascalCase("name", true) == "Name"
  {
  }

  lemma ExampleA()
    ensures PascalCase("a.", true) == "A"
  {
  }

  lemma ExampleTxt()
    ensures PascalCase("txt", true) == "Txt"
  {
  }

  /** Three pieces, the first two ending in a separator, each start a word. */
  lemma ThreePieces(s: string, a: string, b: string, c: string, na: string, nb: string, nc: string)
    requires s == a + (b + c)
    requires a != [] && IsSeparator(a[|a| - 1]) && b != [] && IsSeparator(b[|b| - 1])
    requires PascalCase(a, true) == na && PascalCase(b, true) == nb && PascalCase(c, true) == nc
    ensures PascalCase(s, true) == na + nb + nc
  {
    var bc := b + c;
    PascalCaseAppend(a, bc, true);
    assert FlagAfter(a, true);
    PascalCaseAppend(b, c, true);
    assert FlagAfter(b, true);
    assert PascalCase(bc, true) == nb + nc;
    Regroup(na, nb, nc);
  }

  /**
   * Worked example: runs separated by '-' and '_' become capitalised words.
   * The input is fixed by `requires`, so the solver evaluates the literal only where the proof needs it.
   */
  lemma ComponentNameExampleWords(s: string)
    requires s == "my-file_name"
    ensures PascalCase(s, true) == "MyFileName"
  {
    ExampleMy();
    ExampleFile();
    ExampleName();
    ThreePieces(s, "my-", "file_", "name", "My", "File", "Name");
    assert "My" + "File" + "Name" == "MyFileName";
  }

  /**
   * Worked example: the dot left by a second ".txt" separates a word.
   * The input is fixed by `requires`, so the solver evaluates the literal only where the proof needs it.
   */
  lemma ComponentNameExampleDots(s: string)
    requires s == "a.txt"
    ensures PascalCase(s, true) == "ATxt"
  {
    var a, txt := "a.", "txt";
    assert s == a + txt;
    PascalCaseAppend(a, txt, true);
    ExampleA();
    ExampleTxt();
  }



  /**
   * Worked examples of the whole derivation.
   * The input is fixed by `requires`, so the solver evaluates the literal only where the proof needs it.
   */
  lemma ComponentNameExamples(words: string, dots: string)
    requires words == "my-file_name.txt" && dots == "a.txt.txt"
    ensures ComponentName(words) == "MyFileName"
    ensures ComponentName(dots) == "ATxt"
  {
    StripTxtExamples();
    ComponentNameExampleWords("my-file_name");
    ComponentNameExampleDots("a.txt");
  }

  /** Text before the component name in the generated source. */
  const CodeHead: string := "\nimport React from 'react';\nimport './GeneratedComponent.css';\n\nconst "
  /** Text after the name in the declaration. */
  const CodeOpen: string := " = () => {"
  /** Text between the declaration and the file's content. */
  const CodeBody: string := "\n    return (\n        <div className=\"generated-component\">\n            "
  /** Text between the content and the export. */
  const CodeClose: string := "\n        </div>\n    );\n};\n\n"
  const CodeExport: string := "export default "

  /**
   * The generated component source: the name in the declaration and in the
   * default export, the file content verbatim inside the `div`.
   */
  function ComponentCode(name: string, content: string): (code: string)
    ensures StartsWith(code, CodeHead + name + CodeOpen)
    ensures OccursAt(code, content, |CodeHead| + |name| + |CodeOpen| + |CodeBody|)
    ensures EndsWith(code, CodeExport + name + ";")
  {
    var decl := CodeHead + name + CodeOpen;
    var exported := CodeExport + name + ";";
    FiveParts(decl, CodeBody, content, CodeClose, exported);
    decl + CodeBody + content + CodeClose + exported
  }

  /** Where the parts of a concatenation of five strings sit. */
  lemma FiveParts(a: string, b: string, c: string, d: string, e: string)
    ensures StartsWith(a + b + c + d + e, a)
    ensures OccursAt(a + b + c + d + e, c, |a| + |b|)
    ensures EndsWith(a + b + c + d + e, e)
  {
    var s := a + b + c + d + e;
    assert s == a + (b + c + d + e);
    assert s == (a + b) + c + (d + e);
    assert s == (a + b + c + d) + e;
  }

  /** What is handed to `onComponentGenerated`: the new file's name and its source. */
  datatype Generated = Generated(fileName: string, code: string)

  /** `generateComponentFromContent` followed by the `.js` file name. */
  function Generate(selectedFile: string, content: string): (g: Generated)
    ensures EndsWith(g.fileName, ".js")
    ensures g.fileName[..|g.fileName| - 3] == ComponentName(selectedFile)
    ensures g.code == ComponentCode(ComponentName(selectedFile), content)
  {
    var name := ComponentName(selectedFile);
    assert (name + ".js")[..|name|] == name;
    Generated(name + ".js", ComponentCode(name, content))
  }

  /** The component's state: the chosen file name and the last generated file name. */
  class FileReaderForm {
    var selectedFile: string
    var generatedComponent: Option<string>

    constructor ()
      ensures selectedFile == "" && generatedComponent == None
    {
      selectedFile := "";
      generatedComponent := None;
    }

    /** `handleFileChange`: `file` is the name of the first chosen file, if any. */
    method HandleFileChange(file: Option<string>)
      modifies this
      ensures file.Some? ==> selectedFile == file.value && generatedComponent == None
      ensures file.None? ==> selectedFile == old(selectedFile) && generatedComponent == old(generatedComponent)
    {
      if file.Some? {
        selectedFile := file.value;
        generatedComponent := None;
      }
    }

    /**
     * `handleValidateFile`: `read` is the text the browser read from the file,
     * or None when reading failed. Returns what is passed to the callback.
     */
    method HandleValidateFile(read: Option<string>) returns (emitted: Option<Generated>)
      modifies this
      ensures selectedFile == old(selectedFile)
      ensures old(selectedFile) == "" || read.None? ==> emitted == None && generatedComponent == old(generatedComponent)
      ensures old(selectedFile) != "" && read.Some? ==>
                emitted == Some(Generate(old(selectedFile), read.value))
                && generatedComponent == Some(emitted.value.fileName)
    {
      if selectedFile == "" {
        return None;
      }
      if read.None? {
        return None;
      }
      var g := Generate(selectedFile, read.value);
      generatedComponent := Some(g.fileName);
      return Some(g);
    }

    /** `handleReset`. */
    method HandleReset()
      modifies this
      ensures selectedFile == "" && generatedComponent == None
    {
      selectedFile := "";
      generatedComponent := None;
    }
  }
}
