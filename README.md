# A verified model of the chat application's React components

This project models, in Dafny, the self-contained pieces of logic found in seven React components of the chat
front end:

- **FileReader** turns the chosen `.txt` file's name into a PascalCase component name. It wraps the file's text in the source of a React component of that name. It keeps the chosen file name and the last generated file name as state (`FileReader` module; the state is the class `FileReaderForm`).
- **UserTable** holds a table of users and a two-field form. A submit with both fields filled in appends a user whose id is one past the largest id, or 1 for an empty table, then clears the form (`UserTable` module, class `Table`).
- **ConversationHistory** makes a display copy of every saved conversation, with fallbacks for the summary and the timestamp. It pushes each copy onto one of five date sections ("Récent", "Hier", "7 jours précédents", "30 jours précédents", "2024") and lists the non-empty sections. The bucketing loop is the method `GroupByDate`, proved against the specification function `GroupsOf`.
- **MermaidDiagram** trims the diagram source and prepends `graph TD\n` when the source does not start with a diagram type. It records the outcome of parsing and rendering in `svgContent`/`error`, and shows either an error panel or the diagram with a show/hide-source toggle (class `MermaidView`).
- **CodeRenderer** extracts the language from a code element's class name with `/language-(\w+)/`. It strips one trailing newline and routes the element to a diagram, a highlighted block or a plain `code` element.
- **DynamicContent** shows a text line by line, numbered from 1, under a header with the line count and the character count.
- **Compteur** is a counter with "+" and "-" buttons (class `Counter`).

Shared pieces:

- The `Text` module holds the JavaScript string built-ins these components use:
  - `String.prototype.indexOf`, for `replace` with a string pattern.
  - `trim`, with ECMAScript's white-space and line-terminator set.
  - `split` on a character class, and `join`.
  - ASCII case mapping.
- `Wrappers` holds `Option`.

How JavaScript values become Dafny values:

- Strings are `seq<char>`.
- Timestamps are integer milliseconds, as `Stamp = Absent | Unparsable | Millis(ms)`.
  - A conversation's falsy timestamp (undefined, null, 0, "") is `Absent`, so the first message's timestamp is used in its place.
  - A message's `null` or `0` timestamp is `Millis(0)`, since `new Date` reads both as the epoch.
  - A message's missing timestamp is `Absent`. A message's `""` or unreadable timestamp is `Unparsable`. Both make an Invalid Date, which fails every comparison.
- `now` and the local midnights that start today and yesterday are the inputs of `Clock`.
- The Mermaid library is a parameter `mermaid: string -> Outcome`.
- A file read is an `Option<string>`, where `None` is a read error.
- A missing class name is `None`.
- Conversations are values, so the display copies leave the input untouched, as the spread copies in the source do.

## Model

| member | source | states |
|---|---|---|
| Text.IndexOf | src/components/FileReader.js:24 | The result is the leftmost occurrence of the pattern at or after `from`; None exactly when there is none |
| Text.Trim | src/components/MermaidDiagram.js:17 | The result has no JavaScript white space or line terminator at either end |
| Text.TrimCutsEnds | src/components/MermaidDiagram.js:17 | The result is a contiguous part of the input, and only white space is cut off before and after it |
| Text.TrimIdempotent | src/components/MermaidDiagram.js:17 | Trimming twice is trimming once |
| Text.SplitWhere | src/components/DynamicContent.js:10 | `split` on a character class: one more piece than there are separators, and no piece holds a separator |
| Text.Join | src/components/FileReader.js:27 | `join`: the joined length is the pieces' total length plus one separator between each two |
| Text.JoinSplit | src/components/DynamicContent.js:15 | Splitting on a single separator character and joining with it gives the input back |
| Text.SplitJoin | src/components/DynamicContent.js:15 | Separator-free pieces, joined and split again, come back unchanged |
| FileReader.StripTxt | src/components/FileReader.js:24 | Only the leftmost ".txt" is removed, wherever it is; a name without ".txt" is unchanged |
| FileReader.Capitalize | src/components/FileReader.js:26 | The first character is upper-cased and every other one lower-cased; the length is kept |
| FileReader.StripTxtExamples | src/components/FileReader.js:24 | "my-file_name.txt" gives "my-file_name"; "a.txt.txt" gives "a.txt" |
| FileReader.WordsArePascalCase | src/components/FileReader.js:25-27 | Split on non-alphanumerics, capitalise each piece and join: equals the character-by-character reference `PascalCase` |
| FileReader.PascalCaseShape | src/components/FileReader.js:25-27 | The reference name keeps only `[A-Za-z0-9]` characters, one per alphanumeric input character |
| FileReader.ComponentName | src/components/FileReader.js:23-27 | The name is the reference PascalCase of the stripped file name, is made only of ASCII letters and digits, and is as long as the count of alphanumerics left after removing ".txt" |
| FileReader.ComponentNameExamples | src/components/FileReader.js:23-27 | "my-file_name.txt" gives "MyFileName"; "a.txt.txt" gives "ATxt" |
| FileReader.ComponentCode | src/components/FileReader.js:30-42 | The code opens with the imports and `const <name> = () => {`, holds the content verbatim at a fixed offset after the `div`, and ends with `export default <name>;` |
| FileReader.Generate | src/components/FileReader.js:58-61 | The file name is the component name followed by ".js"; the code is the template filled with that name and the content |
| FileReader.FileReaderForm.constructor | src/components/FileReader.js:5-6 | No file chosen, nothing generated |
| FileReader.FileReaderForm.HandleFileChange | src/components/FileReader.js:13-19 | Choosing a file stores its name and clears the generated name; no file changes nothing |
| FileReader.FileReaderForm.HandleValidateFile | src/components/FileReader.js:47-69 | With no file chosen, or a failed read, nothing is emitted and no state changes; otherwise the generated file is emitted and its name stored, the chosen file kept |
| FileReader.FileReaderForm.HandleReset | src/components/FileReader.js:79-83 | Clears the chosen file and the generated name |
| UserTable.InitialUsers | src/components/UserTable.js:4-15 | Ten users with ids 1..10 in table order |
| UserTable.MaxId | src/components/UserTable.js:35 | The largest id is one of the ids and bounds all of them |
| UserTable.NextId | src/components/UserTable.js:35 | The new id exceeds every id; 1 for an empty table; otherwise one past an existing id |
| UserTable.NextIdAfterConsecutive | src/components/UserTable.js:35-36 | On ids 1..n the new id is n + 1 |
| UserTable.AppendNextIdKeepsUnique | src/components/UserTable.js:35-36 | Appending a user with the new id keeps ids distinct |
| UserTable.ConsecutiveIsUnique | src/components/UserTable.js:4-15 | Ids 1..n are distinct |
| UserTable.Table.constructor | src/components/UserTable.js:18-22 | The initial users and an empty form; ids are 1..n |
| UserTable.Table.HandleInputChange | src/components/UserTable.js:24-30 | Overwrites only the named field; the other field and the users are unchanged |
| UserTable.Table.HandleSubmit | src/components/UserTable.js:32-39 | Adds exactly when both fields are non-empty: appends one user with id n + 1 and the form's names, keeps earlier users, clears the form, and keeps ids 1..n; otherwise nothing changes |
| ConversationHistory.Normalize | src/components/ConversationHistory.js:20-24 | The summary is the own summary, else the first message's text, else "Nouvelle conversation", never empty; an absent timestamp falls back to the first message's; id and messages kept |
| ConversationHistory.NormalizeIdempotent | src/components/ConversationHistory.js:20-24 | The display copy of a display copy is itself |
| ConversationHistory.Normalized | src/components/ConversationHistory.js:20-24 | One display copy per conversation, in order |
| ConversationHistory.Classify | src/components/ConversationHistory.js:27-40 | A missing or unreadable date is "2024". Otherwise each section is a plain time range: from today's start; from yesterday's start; under 7 days old; 7 to 30 days old; 30 days or older |
| ConversationHistory.ClassifyEdgeCases | src/components/ConversationHistory.js:27-31 | A future time is "Récent" |
| ConversationHistory.ClassifyMonotone | src/components/ConversationHistory.js:30-40 | A later time never lands in a later section |
| ConversationHistory.GroupByDate | src/components/ConversationHistory.js:5-44 | The loop's five lists are the sections of the display copies |
| ConversationHistory.SectionSizes | src/components/ConversationHistory.js:26-41 | The five section sizes add up to the number of conversations |
| ConversationHistory.SectionMembers | src/components/ConversationHistory.js:26-41 | A section holds exactly the conversations classified into it |
| ConversationHistory.Positions | src/components/ConversationHistory.js:26-40 | The positions of a section are increasing and are exactly the indices classified into it |
| ConversationHistory.SectionKeepsOrder | src/components/ConversationHistory.js:20-40 | A section is the input read at those increasing positions: input order is kept |
| ConversationHistory.Listed | src/components/ConversationHistory.js:61-63 | A section is listed exactly when it is non-empty |
| ConversationHistory.ListedKeepsRankOrder | src/components/ConversationHistory.js:61-63 | Leaving out empty sections keeps the given order |
| ConversationHistory.DisplayNewestFirst | src/components/ConversationHistory.js:6-12 | In the newest-first order, every dated conversation in an earlier listed section is strictly newer than any in a later one |
| ConversationHistory.Groups.Push | src/components/ConversationHistory.js:31-39 | `push` appends the conversation to the one section named and leaves the other four unchanged |
| ConversationHistory.TitleIndexKey | src/components/ConversationHistory.js:6-12 | Of the five section titles, only "2024" is an array index key |
| ConversationHistory.AsWrittenIsEntriesOrder | src/components/ConversationHistory.js:61 | The `Object.entries` order of the declared sections (array index keys first, then the others in creation order) is 2024, Récent, Hier, 7 jours précédents, 30 jours précédents |
| ConversationHistory.AsWrittenListsOlderFirst | src/components/ConversationHistory.js:61-63 | In enumeration order "2024" is listed before "Récent": a 50-day-old conversation above one from today |
| MermaidDiagram.Preprocess | src/components/MermaidDiagram.js:17-22 | The result starts with a diagram keyword; the trimmed source if it already does (case-insensitively), else "graph TD\n" + trimmed source |
| MermaidDiagram.HeaderStartsWithKeyword | src/components/MermaidDiagram.js:20-21 | The prepended header is itself recognised |
| MermaidDiagram.PreprocessIdempotent | src/components/MermaidDiagram.js:17-22 | A non-blank source preprocessed twice is preprocessed once |
| MermaidDiagram.PreprocessBlank | src/components/MermaidDiagram.js:17-22 | A blank source becomes "graph TD\n", which a second pass trims to "graph TD" |
| MermaidDiagram.BarePrefixRecognised | src/components/MermaidDiagram.js:20 | "pieces" is recognised by its "pie" prefix and left unchanged |
| MermaidDiagram.VersionedStateDiagramRecognised | src/components/MermaidDiagram.js:20 | "stateDiagram-v2" is recognised and left unchanged |
| MermaidDiagram.MermaidView.constructor | src/components/MermaidDiagram.js:7-9 | No SVG, no error, source hidden |
| MermaidDiagram.MermaidView.RenderDiagram | src/components/MermaidDiagram.js:14-53 | A parse failure stores the syntax error and keeps the SVG; a render failure stores the render error ("Erreur inconnue" for an empty message) and clears the SVG; success stores the SVG and clears the error; the toggle is untouched |
| MermaidDiagram.MermaidView.ToggleShowCode | src/components/MermaidDiagram.js:91 | Flips the source visibility and nothing else |
| MermaidDiagram.MermaidView.Display | src/components/MermaidDiagram.js:58-146 | The error panel exactly when an error is stored, whatever the SVG; otherwise the toggle label follows the visibility, the source is shown exactly when toggled on, the SVG exactly when non-empty |
| MermaidDiagram.RenderThenDisplay | src/components/MermaidDiagram.js:14-85 | After any failure the error panel is shown; after success the diagram, with the SVG shown exactly when it is non-empty |
| MermaidDiagram.ToggleTwice | src/components/MermaidDiagram.js:91 | Two toggles restore the visibility |
| CodeRenderer.WordRun | src/components/CodeRenderer.js:9 | `\w+` greedily: the longest word-character prefix |
| CodeRenderer.FirstMatch | src/components/CodeRenderer.js:9 | The leftmost index where "language-" is followed by a word character, or none |
| CodeRenderer.Language | src/components/CodeRenderer.js:9 | No class name, no language; a language exactly when some match exists; it is a non-empty word run following "language-" at the leftmost match |
| CodeRenderer.StripTrailingNewline | src/components/CodeRenderer.js:10 | Exactly one final newline is removed if present; otherwise the text is unchanged |
| CodeRenderer.StripRemovesOneNewline | src/components/CodeRenderer.js:10 | Of two final newlines only one goes |
| CodeRenderer.Route | src/components/CodeRenderer.js:12-32 | Diagram exactly for "mermaid" (inline or not); highlighted exactly for a non-inline other language, with that language; plain with the untouched children and class name otherwise; the stripped code goes to diagram, highlighter and copy button |
| CodeRenderer.RoutedCodeRestoresChildren | src/components/CodeRenderer.js:10-25 | The shown code is the children, or the children minus their final newline |
| CodeRenderer.WordRunWhole | src/components/CodeRenderer.js:9 | A run of word characters is taken whole |
| CodeRenderer.MermaidInline | src/components/CodeRenderer.js:12-13 | Inline code of class "language-mermaid" is still a diagram |
| DynamicContent.Lines | src/components/DynamicContent.js:15 | One line more than there are newlines, none containing a newline, joined with "\n" they give the content |
| DynamicContent.LineCount | src/components/DynamicContent.js:10 | Newlines plus one; 1 for empty content |
| DynamicContent.CharCount | src/components/DynamicContent.js:11 | UTF-16 length: the character count plus one for every character outside the Basic Multilingual Plane |
| DynamicContent.NumberedLines | src/components/DynamicContent.js:15-17 | Row k is numbered k + 1 and shows line k; as many rows as lines |
| DynamicContent.NumberedLinesRestoreContent | src/components/DynamicContent.js:15-18 | The shown lines joined with "\n" are the content |
| DynamicContent.LinesOfJoin | src/components/DynamicContent.js:15 | Newline-free lines joined and split again come back |
| DynamicContent.LinesExamples | src/components/DynamicContent.js:10-15 | "" is one empty line; "a\nb\n" is "a", "b", "" — three lines |
| Compteur.ReplayedNet | src/components/CompteurComponent.js:7-13 | After any clicks, in any order, the count moved by increments minus decrements |
| Compteur.IncrementThenDecrement | src/components/CompteurComponent.js:7-13 | "+" then "-", or "-" then "+", restores the count |
| Compteur.DecrementBelowZero | src/components/CompteurComponent.js:11-13 | "-" from 0 gives -1: no lower bound |
| Compteur.Counter.constructor | src/components/CompteurComponent.js:5 | The count starts at 0 |
| Compteur.Counter.HandleIncrement | src/components/CompteurComponent.js:7-9 | Adds exactly 1 |
| Compteur.Counter.HandleDecrement | src/components/CompteurComponent.js:11-13 | Subtracts exactly 1 |
| Compteur.Counter.HandleClicks | src/components/CompteurComponent.js:7-13 | Handling clicks one by one gives the replayed value: start plus increments minus decrements |

## Left out

- The chat controller, keyword extraction, topic clustering and conversation persistence have no code in these components, so they are not part of this model.
- CopyButton, SaveImageButton, MarkdownRenderer and App.js are not part of this model: they are clipboard, download and rendering plumbing and composition. App.js passes a `componentKey` rather than content to DynamicContent, so the content is taken as a given string.
- FileReader:
  - Opening the file dialog (`handleFileSelect`), `alert`, `console.error` and the input ref's reset are browser I/O.
  - The asynchronous `FileReader` read is the `read` parameter of `HandleValidateFile`.
  - The `onComponentGenerated` callback is the returned value.
  - An absent callback is not modelled.
- UserTable:
  - `preventDefault` and the inputs' `required` attribute are browser behaviour.
  - The spread argument limit of `Math.max` is not modelled.
  - Ids are exact integers; JavaScript numbers lose exactness past 2^53.
- UserTable.Table.HandleSubmit: states the new id as n + 1, under the invariant that the ids are 1..n. The general rule, max + 1, is stated by `NextId`.
- ConversationHistory:
  - Date parsing, time zones and the calendar arithmetic for today and yesterday are left to the caller: the `Clock` is an input. A message timestamp that `new Date` reads, including `null`, which it reads as 0, is a `Millis` value.
  - A conversation without a `messages` array is modelled as `messages == []` when its summary and timestamp are both truthy: the `||` fallbacks are then never evaluated. When one of them is falsy the source throws on `conv.messages[0]`, and that case is not modelled.
  - The markup, the click handlers, the visibility flag and the unused `messages` prop are left out.
- MermaidDiagram:
  - The Mermaid library (`initialize`, `parse`, `render`) is the `mermaid` oracle.
  - The random element id, console logging and the copy button are left out.
  - The interleaving of two overlapping asynchronous renders is not modelled: each render completes before the next.
  - An error's `message` is taken as a string. For a parse error without a message the source shows "Erreur de syntaxe : undefined", which is not modelled. A render error without a message is `message == ""` and shows "Erreur inconnue", as in the source.
- CodeRenderer: the highlighter's output, the forwarded props and `node` are left out. `String(children)` is modelled for string children only.
- Compteur.Counter.HandleIncrement: the count is an unbounded integer, and React's batching of `setCount(count + 1)` inside one render is not modelled: each click sees the previous click's value.

## Findings

| source | as written | input that shows it | evidently intended | confidence | as-written member | corrected member |
|---|---|---|---|---|---|---|
| src/components/ConversationHistory.js:61-63 | The sections are listed in `Object.entries` order. "2024" is an integer-like key, and such keys are enumerated before all string keys, so the oldest section comes first: 2024, Récent, Hier, 7 jours précédents, 30 jours précédents | one conversation from today and one 50 days old: "2024" is listed above "Récent" | newest first, in the order the sections are declared: Récent, Hier, 7 jours précédents, 30 jours précédents, 2024 | high; not executed | ConversationHistory.AsWrittenListsOlderFirst | ConversationHistory.DisplayNewestFirst |
