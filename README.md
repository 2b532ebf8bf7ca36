# A verified model of `render_diagrams.py`

`render_diagrams.py` turns the TikZ diagrams of a thesis chapter into PNG
files. It has three steps:

- `extract_tikz_figures` finds each `figure` environment that holds a
  `tikzpicture` and a `\label{fig:...}`, and returns (name, picture code)
  pairs in document order.
- `render_tikz_to_png` cleans `\eqref{...}` cross-references out of the
  picture code. It wraps the code in a standalone LaTeX document, compiles
  it with `pdflatex` and converts the PDF with `pdftoppm`. It reports
  success only when every step left its file behind.
- `main` renders every figure once, in order, and counts the successes.

The model has five modules:

- `Text` (`text.dfy`): the string operations the script uses. These are
  substring search, Python's `str.replace`, the class `\w`, emptiness
  after `str.strip()`, and `str.split("\n")`.
- `Extract` (`extract.dfy`): the extractor. The regular expression is built
  only from literal delimiters, lazy `.*?` gaps, and `\w+` before a `}`
  that `\w` cannot match. It is modelled as a first-occurrence scanner,
  `NextFigure`.
  - The model proves that the scanner returns a match of the pattern.
  - It also proves that this match lies at or before every other match,
    component by component. That least match is the one a leftmost,
    lazy-first matcher returns.
  - `finditer` becomes `MatchesFrom`: each match is followed by the next
    match from where the previous one ended. `ExtractTikzFigures` is the
    loop that appends each match's figure.
- `References` (`references.dfy`): the cleaning of picture code. It runs
  two literal `str.replace` calls, then the `re.sub` of
  `\\eqref\{[^}]*\}`. That `re.sub` is modelled as a left-to-right scan
  (`StripRefs`).
- `Render` (`render.dfy`): the document template, the tail of the
  compiler log printed on failure, and the success decision. The external
  programs are function parameters. `pdflatex` maps the file name and
  document text to its exit code, its output and whether the PDF exists.
  `pdftoppm` maps the file name, document and resolution to its exit code
  and whether the PNG exists.
- `Pipeline` (`pipeline.dfy`): the counting loop of `main`.

Two consequences of the code are worth stating:

- Reference stripping is not idempotent. One pass of the `re.sub` can
  splice a new `\eqref{...}` together out of the text around a deleted one
  (`StripRefsNotIdempotent`).
- `render_tikz_to_png` catches no exception. A `subprocess.TimeoutExpired`
  from either program propagates out of it, so the model has no
  catch-all error path.

Like the source, the pattern does not stop at the `\end{figure}` of the
environment where a match began. A figure whose picture has no
`fig:` label borrows the label and `\end{figure}` of a later figure. The
model reproduces this; no lemma is stated about it.

## Model

| member | source | states |
|---|---|---|
| `Text.FindFrom` | render_diagrams.py:37-45 | a found position is at or after the start and the pattern occurs there |
| `Text.FindFromNoLater` | render_diagrams.py:37-45 | the search succeeds no later than any occurrence at or after the start, so it finds the first one |
| `Text.FindFromBefore` | render_diagrams.py:37-45 | no occurrence lies between the start and the position found |
| `Text.FindFromNone` | render_diagrams.py:37-45 | a failed search means no occurrence at or after the start |
| `Text.OccursAtChars` | render_diagrams.py:37-45 | a literal occurs at a position exactly when it fits there and every character agrees |
| `Text.OccursAtSlice` | render_diagrams.py:37-45 | an occurrence inside a slice is exactly an occurrence in the whole text that fits in the slice |
| `Text.CountFromSplit` | render_diagrams.py:37-47 | an occurrence between two positions adds at least one to the count of occurrences |
| `Text.CountFromMonotone` | render_diagrams.py:37-47 | starting later never finds more occurrences |
| `Text.ReplaceAll` | render_diagrams.py:51-74 | definition of Python's `str.replace`, left to right and non-overlapping; its properties are the `ReplaceAll...` lemmas below |
| `Text.ReplaceAllSkips` | render_diagrams.py:69-74 | `str.replace` copies the text before the first occurrence unchanged |
| `Text.ReplaceAllAbsent` | render_diagrams.py:69-74 | `str.replace` of a pattern that does not occur leaves the text unchanged |
| `Text.ReplaceAllAt` | render_diagrams.py:69-74 | `str.replace` puts the replacement for the first occurrence and carries on after it |
| `Text.ReplaceAllAtFirst` | render_diagrams.py:69-74 | `str.replace` characterised by the first occurrence: none leaves the text as it is, one is replaced and the rest is processed after it |
| `Text.ReplaceAllOnce` | render_diagrams.py:69-74 | a single occurrence between two texts without other occurrences is the only thing replaced |
| `Text.ReplaceAllSelf` | render_diagrams.py:51 | replacing a pattern by itself (`.replace("_", "_")`) leaves any text unchanged |
| `Text.ReplaceAllShrinks` | render_diagrams.py:69-74 | replacing by a text no longer than the pattern never lengthens the text |
| `Text.WordRunEnd` | render_diagrams.py:41 | the greedy `\w` run ends within the text at a character that is not a word character |
| `Text.WordRunIsWords` | render_diagrams.py:41 | every character of the run is a word character |
| `Text.WordRunStops` | render_diagrams.py:41 | the run stops no later than the first non-word character |
| `Text.IsBlank` | render_diagrams.py:96 | definition of `not line.strip()` as `Strip(line) == []`; `IsBlankIff` characterises it |
| `Text.LStripEmpty` | render_diagrams.py:96 | `lstrip()` leaves nothing exactly when every character is whitespace |
| `Text.LStripFirst` | render_diagrams.py:96 | what `lstrip()` leaves does not start with whitespace |
| `Text.RStripNonEmpty` | render_diagrams.py:96 | `rstrip()` of a text starting with a non-whitespace character is not empty |
| `Text.IsBlankIff` | render_diagrams.py:96 | `line.strip()` is empty exactly when every character of the line is whitespace |
| `Text.SplitLines` | render_diagrams.py:94 | `str.split("\n")` yields at least one segment |
| `Text.SplitLinesNoNewline` | render_diagrams.py:94 | no segment of `split("\n")` contains a newline |
| `Text.JoinPrepend` | render_diagrams.py:94 | joining undoes one step of splitting |
| `Text.SplitLinesJoin` | render_diagrams.py:94 | `"\n".join(s.split("\n")) == s`: splitting loses nothing |
| `Text.SplitLinesAppend` | render_diagrams.py:94 | splitting text joined at a newline gives the segments of each part, in order |
| `Extract.SourceSeparated` | render_diagrams.py:37-45 | the delimiters of the pattern are separated: `\label{fig:` opens with a character that is neither a word character nor `}` and occurs nowhere else in it, and `\begin{tikzpicture}` and `\end{tikzpicture}` differ in their second character, with no later character of `\begin{tikzpicture}` a backslash |
| `Extract.LabelAt` | render_diagrams.py:41 | definition of `\label{(fig:\w+)}` matching at a position: the prefix, a non-empty `\w` run, then `}` |
| `Extract.IsMatch` | render_diagrams.py:37-45 | definition of the pattern matching with given component positions: each delimiter occurs at its position, in order, with any text in the lazy gaps; the scanner lemmas below are stated against it |
| `Extract.FindLabel` | render_diagrams.py:41 | a found label matches `\label{fig:\w+}` at or after the start |
| `Extract.FindLabelNoLater` | render_diagrams.py:41 | the label search finds the first label |
| `Extract.NextFigure` | render_diagrams.py:37-45 | the match found starts at or after the start, and its components are in order inside the text |
| `Extract.FigureFromSound` | render_diagrams.py:38-43 | after `\begin{figure}` the scanner finds a match whose picture ends at the first `\end{tikzpicture}` |
| `Extract.NextFigureSound` | render_diagrams.py:37-45 | what the scanner finds is a match of the pattern |
| `Extract.LabelsDoNotNest` | render_diagrams.py:41 | a label cannot start inside an earlier label or its word |
| `Extract.LabelFromIsLeast` | render_diagrams.py:40-43 | the label and `\end{figure}` found lie no later than any that could complete the match |
| `Extract.FigureFromIsLeast` | render_diagrams.py:38-43 | every component found after `\begin{figure}` lies no later than the same component of any match starting there or later |
| `Extract.NextFigureIsLeast` | render_diagrams.py:37-45 | whenever the pattern matches, the scanner finds a match lying component-wise at or before it: the leftmost, laziest match |
| `Extract.NoNextFigureMeansNoMatch` | render_diagrams.py:37-45 | when the scanner finds nothing, the pattern has no match from there on |
| `Extract.MatchesFrom` | render_diagrams.py:47 | every match `finditer` yields lies inside the text, at or after the start |
| `Extract.MatchesAreScanned` | render_diagrams.py:47 | each listed match is what the scanner finds after its own `\begin{figure}` |
| `Extract.MatchesAreMatches` | render_diagrams.py:37-47 | each listed match is a match of the pattern, with no `\end{tikzpicture}` inside its picture |
| `Extract.MatchesHaveLabels` | render_diagrams.py:41-49 | each listed match's label ends where the label's word ends |
| `Extract.MatchesInOrder` | render_diagrams.py:47 | the matches do not overlap and come in document order |
| `Extract.MatchesAtMostFigures` | render_diagrams.py:37-47 | there are no more matches than `\begin{figure}` occurrences |
| `Extract.MatchesSuffix` | render_diagrams.py:47 | resuming after the `i`-th match, `finditer` yields exactly the remaining matches |
| `Extract.MatchesComplete` | render_diagrams.py:37-47 | from each point where `finditer` resumes, the next listed match lies at or before every later match of the pattern, and nothing matches after the last one |
| `Extract.FigureOf` | render_diagrams.py:48-52 | definition of one match's `(filename, tikz_code)`: the word after `fig:` and group 1; `FigureOfMatch` proves the word is what group 2 becomes after the two `replace` calls |
| `Extract.FiguresOf` | render_diagrams.py:47-52 | one figure per match, in the matches' order |
| `Extract.Figures` | render_diagrams.py:29-54 | the figures of the chapter: never more than its `\begin{figure}` occurrences |
| `Extract.NameFromLabel` | render_diagrams.py:51 | for a captured `fig:<word>`, the two `replace` calls give exactly the word |
| `Extract.FileNameOfLabel` | render_diagrams.py:41-51 | the file name derived from a matched label is the word after `fig:` |
| `Extract.NoEndTikzInsideBegin` | render_diagrams.py:39 | no `\end{tikzpicture}` can start inside a `\begin{tikzpicture}` |
| `Extract.PictureBetween` | render_diagrams.py:39 | the code from `\begin{tikzpicture}` through the first `\end{tikzpicture}` opens and closes with those delimiters and holds no earlier `\end{tikzpicture}` |
| `Extract.FigureNameIsName` | render_diagrams.py:41-51 | a match's figure name is a non-empty run of word characters |
| `Extract.FigurePictureIsPicture` | render_diagrams.py:39-48 | a match's picture code is well formed |
| `Extract.FiguresWellFormed` | render_diagrams.py:29-54 | every extracted name is a non-empty word, and every body opens with `\begin{tikzpicture}`, closes with `\end{tikzpicture}` and holds no earlier `\end{tikzpicture}` |
| `Extract.NoFigureEnvironmentNoFigures` | render_diagrams.py:29-54 | text without `\begin{figure}` or without `\begin{tikzpicture}` yields no figures |
| `Extract.FigureOfMatch` | render_diagrams.py:48-52 | the name derived by the source and the picture code make up the match's figure |
| `Extract.FiguresOfSnoc` | render_diagrams.py:52 | appending one match's figure extends the figure list by exactly that figure |
| `Extract.ExtractFigure` | render_diagrams.py:48-52 | the loop body builds the figure of its match |
| `Extract.ExtractTikzFigures` | render_diagrams.py:29-54 | the figures returned are those of the matches `finditer` yields, in order, each with a word name and well-formed picture code |
| `References.RefAt` | render_diagrams.py:76 | definition of `\\eqref\{[^}]*\}` matching at a position: `\eqref{` there and a `}` somewhere after it |
| `References.RefEnd` | render_diagrams.py:76 | definition of where that match ends: just past the first `}` after `\eqref{`; `CloseBraceFirst` characterises it |
| `References.CloseBraceFirst` | render_diagrams.py:76 | `[^}]*\}` stops at the first closing brace |
| `References.StripRefs` | render_diagrams.py:76 | the deletion never lengthens the text |
| `References.CloseBraceNone` | render_diagrams.py:76 | no `}` lies between the scan's start and the brace it stops at |
| `References.RefInsideRef` | render_diagrams.py:76 | a reference starting inside another closes at the same brace, so matches of `[^}]*\}` cannot overlap past their end |
| `References.Covered` | render_diagrams.py:76 | one flag per character: whether it lies inside a complete `\eqref{...}` |
| `References.KeptSkips` | render_diagrams.py:76 | characters inside a match contribute nothing to what is kept |
| `References.KeptShift` | render_diagrams.py:76 | the characters kept from an index on are the same read in a suffix of the text |
| `References.InRefShiftIn` | render_diagrams.py:76 | a match covering a character of a suffix covers it in the whole text |
| `References.InRefShiftOut` | render_diagrams.py:76 | when no earlier match reaches past the cut, a match covering a character after the cut is a match of the suffix |
| `References.InRefShift` | render_diagrams.py:76 | under that condition a character is covered in the text exactly when it is covered in the suffix |
| `References.CoveredShift` | render_diagrams.py:76 | under that condition the flags of a suffix are the suffix of the flags |
| `References.StripRefsKeepsOutside` | render_diagrams.py:76 | the deletion keeps exactly the characters lying inside no complete `\eqref{...}`, in order: no match survives and nothing outside one is lost |
| `References.RefAtTail` | render_diagrams.py:76 | a reference one character further in is the same reference |
| `References.StripRefsSkips` | render_diagrams.py:76 | text before the first reference is copied unchanged |
| `References.StripRefsAt` | render_diagrams.py:76 | the first reference is deleted and the scan resumes after its closing brace |
| `References.StripRefsNoRef` | render_diagrams.py:76 | text without a complete reference comes out unchanged |
| `References.StripRefsShorter` | render_diagrams.py:76 | text with a complete reference comes out strictly shorter |
| `References.StripRefsIdentity` | render_diagrams.py:76 | the deletion leaves the text unchanged exactly when it holds no complete `\eqref{...}` |
| `References.RefAtBackslash` | render_diagrams.py:76 | every reference starts with a backslash followed by `eq` |
| `References.NoBackslashNoRef` | render_diagrams.py:76 | text without a backslash holds no reference |
| `References.StripRefsBlock` | render_diagrams.py:76 | a reference with no match before it is deleted alone; the text before it is kept |
| `References.StripRefsLone` | render_diagrams.py:76 | a lone `\eqref{...}` is deleted whole |
| `References.NoRefBeforeSplice` | render_diagrams.py:76 | no reference starts inside the leading `\eq` of the splice example |
| `References.StripRefsNotIdempotent` | render_diagrams.py:76 | `\eq\eqref{x}ref{y}` becomes `\eqref{y}`, which a second pass deletes: the deletion is not idempotent |
| `References.ReplaceAllDeletes` | render_diagrams.py:69-74 | deleting an occurring phrase shortens the text |
| `References.PhraseHoldsRef` | render_diagrams.py:69-73 | each special-cased phrase holds a complete `\eqref{...}` |
| `References.CleanCode` | render_diagrams.py:64-76 | cleaning never lengthens the picture code |
| `References.CleanCodeIdentity` | render_diagrams.py:64-76 | cleaning leaves the code unchanged exactly when it holds no complete `\eqref{...}` |
| `References.KeyFromBrace` | render_diagrams.py:69-76 | a brace-free word before `}` agrees with `key}` exactly when it is `key` |
| `References.PhraseKey` | render_diagrams.py:69-74 | a special-cased phrase whose reference is `\eqref{x}` carries the key `x` |
| `References.CleanCodeDeletesRef` | render_diagrams.py:69-76 | in any text where neither phrase occurs, the first reference is deleted alone: the text before it, such as an `Eq.~`, is kept and the generic deletion carries on after it |
| `References.CleanCodeDeletesPhrase` | render_diagrams.py:69-76 | a special phrase occurring once is deleted together with its `via Eq.~` lead-in, because the literal replacements run before the generic deletion. The standard phrase is deleted whatever else the text holds, and the gradient phrase is then removed from the rest. The gradient phrase is deleted alone in text without the standard phrase |
| `References.DeleteFirstPhrase` | render_diagrams.py:69-71 | the first `replace` deletes the standard phrase occurring once |
| `References.DeleteGradientAfter` | render_diagrams.py:72-74 | the second `replace` deletes the gradient phrase occurring once |
| `References.DeleteSecondPhrase` | render_diagrams.py:69-74 | the first `replace` finds nothing and the second deletes the gradient phrase |
| `References.CleanCodeDeletesBoth` | render_diagrams.py:69-76 | code holding both phrases, the standard one first, loses both with their lead-ins, and the generic deletion runs on the rest |
| `References.PictureBackslashes` | render_diagrams.py:39-76 | in `\begin{tikzpicture}a\eqref{x}b\end{tikzpicture}` with no other backslash, the backslashes are exactly those opening the three commands |
| `References.PictureNoRefBefore` | render_diagrams.py:76 | no reference starts in that picture code before `\eqref{x}` |
| `References.PicturePhraseAbsent` | render_diagrams.py:69-74 | a special phrase whose key differs from `x` does not occur in that picture code |
| `References.PictureTailNoRef` | render_diagrams.py:76 | no reference starts in `b\end{tikzpicture}` |
| `References.CleanPictureRef` | render_diagrams.py:64-76 | a picture whose only commands are the two delimiters and one reference to a key other than the two phrases' keys loses that reference alone and keeps both delimiters |
| `Render.LatexDocument` | render_diagrams.py:78 | the document is the preamble, the code and the postamble with two newlines between them, and no longer |
| `Render.LatexDocumentShape` | render_diagrams.py:78 | the document opens with the whole preamble and a newline, ends with a newline and the whole postamble, and the picture code can be read back from between them |
| `Render.LatexDocumentInjective` | render_diagrams.py:78 | different picture code gives different documents |
| `Render.LastN` | render_diagrams.py:95 | `xs[-30:]` is the suffix of length 30, or the whole list when it is shorter |
| `Render.NonBlank` | render_diagrams.py:95-97 | the filter never yields more lines than it is given |
| `Render.NonBlankSound` | render_diagrams.py:96 | only lines that are not all whitespace are kept, and only lines of the input |
| `Render.NonBlankKeepsAll` | render_diagrams.py:96 | every line that is not all whitespace is kept |
| `Render.NonBlankAppend` | render_diagrams.py:95-97 | the filter distributes over concatenation, so kept lines keep their order |
| `Render.SuffixOfAppend` | render_diagrams.py:95 | the last lines of a concatenation come from its second part when that part is long enough |
| `Render.LogTail` | render_diagrams.py:94-97 | at most 30 lines are printed |
| `Render.LogTailBounds` | render_diagrams.py:94-97 | at most 30 lines are printed; each is a whole newline-free, non-blank segment from the last 30, and every non-blank segment among the last 30 is printed |
| `Render.LogTailShort` | render_diagrams.py:94-97 | output of at most 30 segments is printed whole, less its blank lines |
| `Render.LogTailOfLongOutput` | render_diagrams.py:94-95 | segments before the last 30 never affect what is printed |
| `Render.PrintTail` | render_diagrams.py:94-97 | the printing loop prints exactly the log tail |
| `Render.JoinPath` | render_diagrams.py:119 | `os.path.join`: an absolute file name replaces the directory; otherwise the file name follows the directory, after a `/` unless the directory is empty or ends with one; the result always ends with the file name |
| `Render.OutputPath` | render_diagrams.py:119 | definition of `os.path.join(output_dir, f"{name}.png")`; `OutputPathInDir` and `JoinPath` characterise it |
| `Render.OutputPathInDir` | render_diagrams.py:119 | a figure is published as `<output_dir>/<name>.png`, inside the output directory |
| `Render.Render` | render_diagrams.py:91-123 | a published figure's path is its output path, and a failed compile prints at most 30 lines |
| `Render.RenderSucceedsIff` | render_diagrams.py:91-123 | a figure is published, at `<output_dir>/<name>.png`, exactly when the compiler exits with 0 and both the PDF and the PNG exist |
| `Render.RenderIgnoresConvertCode` | render_diagrams.py:104-116 | `pdftoppm`'s exit code is never read: converters leaving the same PNG give the same outcome |
| `Render.CompileFailureReport` | render_diagrams.py:91-98 | a failed compile is reported with exactly the log tail of the compiler's output, at most 30 non-blank lines, and the converter is not consulted: any other converter gives the same report |
| `Render.RenderTikzToPng` | render_diagrams.py:57-123 | the renderer returns the outcome of cleaning, wrapping, compiling and converting, and `True` exactly when the figure is published |
| `Pipeline.Reports` | render_diagrams.py:134-137 | one outcome per figure |
| `Pipeline.ReportsInOrder` | render_diagrams.py:134-137 | each figure is rendered once, in order: the `i`-th outcome is the rendering of the `i`-th figure |
| `Pipeline.ReportsSnoc` | render_diagrams.py:134-137 | rendering one more figure adds exactly its outcome |
| `Pipeline.CountPublished` | render_diagrams.py:133-137 | definition of the number of published outcomes; its properties are `CountPublishedSnoc` and `CountPublishedBounds` |
| `Pipeline.CountPublishedSnoc` | render_diagrams.py:136-137 | one more outcome adds one to the count exactly when it is a success |
| `Pipeline.CountPublishedBounds` | render_diagrams.py:133-139 | `0 <= success <= len(figures)`, with `success == len(figures)` exactly when every figure was published and `success == 0` exactly when none was |
| `Pipeline.NoFiguresNoRenders` | render_diagrams.py:130-137 | a chapter without figure environments renders nothing and counts 0 |
| `Pipeline.RunMain` | render_diagrams.py:126-139 | `main` renders every extracted figure once, in order, and `success` is the number published, never more than the number of figures |

## Left out

- `generate_exit_seminar.py` and `generate_viva_pdf.py` are not part of this model. They emit fixed documents through python-docx and reportlab and make no decisions.
- Reading the chapter file, the temporary directory, writing `<name>.tex`, `shutil.copy2`, `os.makedirs` and `os.path.exists` are file-system I/O. The chapter text is a parameter. The existence checks are the `pdfExists` and `pngExists` fields the external programs return. Overwriting on duplicate names (the last write wins) is not modelled.
- `pdflatex` and `pdftoppm` are foreign processes. They are function parameters, so the model assumes each is deterministic in the document it is given. Their command lines and the 60 and 30 second timeouts are not modelled. A `subprocess.TimeoutExpired` propagates out of the source uncaught, and so does the `UnicodeDecodeError` that `text=True` raises on output the locale cannot decode; the model has no path for either.
- Everything printed is left out, including the file-size report (`getsize / 1024` formatted with `:.0f`, floating point). The printed log lines are returned as `CompileFailed`'s list without their four-space indent.
- `Render.RenderTikzToPng`: returns a `Report` beside the source's Boolean. It does not state that the PNG is copied to the output path; the copy is file-system I/O.
- `References.CleanPictureRef`: is an instance only for pictures whose only commands are their two delimiters and one reference. Pictures with other commands such as `\draw` or `\node` are covered by `CleanCodeDeletesRef`, `CleanCodeDeletesPhrase` and `CleanCodeDeletesBoth`, whose conditions speak of references and phrases, not of backslashes.
- `Render.JoinPath`: models POSIX `os.path.join` of two components. More than two components and Windows drive letters are not modelled.
- `Text.IsWordChar` models `\w` as ASCII letters, digits and `_`. Python's Unicode word characters are not modelled.
- `Text.IsSpace` lists the characters Python's `str.isspace()` accepts. `str.strip()` is modelled as `RStrip(LStrip(line))`, and only its emptiness is used.
- Python's regular-expression engine is not modelled in general. Only the one figure pattern and the one `\eqref` pattern are, each by a scanner proved to find what the pattern matches.
