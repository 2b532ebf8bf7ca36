/** `render_tikz_to_png`: cleans the picture code, wraps it in a
    standalone LaTeX document, compiles it with `pdflatex`, converts the
    PDF with `pdftoppm`, and reports success only when the compiler exited
    with 0 and both the PDF and the PNG exist.

    The two external programs are parameters: `pdflatex` maps the file
    name and document text to its exit code, its standard output and
    whether the PDF appeared; `pdftoppm` maps the same document and the
    resolution to its exit code and whether the PNG appeared. */
module Render {
  import opened Text
  import opened References

  const NewLine: string := "\n"

  /** The standalone preamble, mirroring the thesis's packages. */
  const Preamble: string :=
    NewLine
    + @"\documentclass[border=10pt,varwidth=\maxdimen]{standalone}" + NewLine
    + @"\usepackage[T1]{fontenc}" + NewLine
    + @"\usepackage{amsmath,amssymb}" + NewLine
    + @"\usepackage{tikz}" + NewLine
    + @"\usetikzlibrary{shapes.geometric, arrows.meta, positioning, calc, fit, backgrounds}" + NewLine
    + @"\usepackage{enumitem}" + NewLine
    + @"\begin{document}" + NewLine

  const Postamble: string := NewLine + @"\end{document}" + NewLine

  /** The resolution `render_tikz_to_png` uses when none is given. */
  const DefaultDpi: nat := 300

  /** The number of compiler output lines kept for the error report. */
  const TailLines: nat := 30

  /** The document written to `<name>.tex`. */
  function LatexDocument(clean: string): (doc: string)
    ensures |doc| == |Preamble| + |clean| + |Postamble| + 2
  {
    Preamble + NewLine + clean + NewLine + Postamble
  }

  /** The picture code inside a document built by `LatexDocument`. */
  function BodyOf(doc: string): string
    requires |doc| >= |Preamble| + |Postamble| + 2
  {
    doc[|Preamble| + 1..|doc| - |Postamble| - 1]
  }

  /** The document opens with the whole preamble, ends with the whole
      postamble, and the code sits between them on lines of its own, so
      the code can be read back out of it. */
  lemma {:induction false} LatexDocumentShape(clean: string)
    ensures var doc := LatexDocument(clean);
      |doc| == |Preamble| + |clean| + |Postamble| + 2
      && doc[..|Preamble|] == Preamble
      && doc[|Preamble|] == '\n'
      && doc[|doc| - |Postamble| - 1] == '\n'
      && doc[|doc| - |Postamble|..] == Postamble
      && BodyOf(doc) == clean
  {
    var doc := LatexDocument(clean);
    var a := Preamble + NewLine;
    var b := a + clean;
    var c := b + NewLine;
    assert doc == c + Postamble;
    assert doc[..|Preamble|] == Preamble by {
      assert doc[..|Preamble|] == a[..|Preamble|];
    }
    assert doc[|doc| - |Postamble|..] == Postamble;
    assert BodyOf(doc) == clean by {
      assert BodyOf(doc) == b[|a|..];
    }
  }

  /** Different picture code gives different documents. */
  lemma {:induction false} LatexDocumentInjective(c1: string, c2: string)
    requires LatexDocument(c1) == LatexDocument(c2)
    ensures c1 == c2
  {
    LatexDocumentShape(c1);
    LatexDocumentShape(c2);
  }

  /** The last `n` items, all of them when there are fewer: Python's
      `xs[-n:]` for `n > 0`. */
  function LastN<T>(xs: seq<T>, n: nat): (r: seq<T>)
    requires n > 0
    ensures |r| <= n && |r| <= |xs| && (|r| == n || |r| == |xs|)
    ensures r == xs[|xs| - |r|..]
  {
    if |xs| <= n then xs else xs[|xs| - n..]
  }

  /** The lines that are not all whitespace, in order. */
  function NonBlank(lines: seq<string>): (r: seq<string>)
    ensures |r| <= |lines|
  {
    if lines == [] then []
    else
      var last := lines[|lines| - 1];
      NonBlank(lines[..|lines| - 1]) + (if IsBlank(last) then [] else [last])
  }

  /** Only lines that are not all whitespace are kept, and only lines of
      the input. */
  lemma {:induction false} NonBlankSound(lines: seq<string>)
    ensures forall k :: 0 <= k < |NonBlank(lines)| ==> !IsBlank(NonBlank(lines)[k]) && NonBlank(lines)[k] in lines
    decreases |lines|
  {
    if lines != [] {
      var init := lines[..|lines| - 1];
      NonBlankSound(init);
      forall k | 0 <= k < |NonBlank(init)|
        ensures NonBlank(init)[k] in lines
      {
        var j :| 0 <= j < |init| && init[j] == NonBlank(init)[k];
        assert lines[j] == init[j];
      }
    }
  }

  /** Every line that is not all whitespace is kept. */
  lemma {:induction false} NonBlankKeepsAll(lines: seq<string>, k: nat)
    requires k < |lines| && !IsBlank(lines[k])
    ensures lines[k] in NonBlank(lines)
    decreases |lines|
  {
    if k < |lines| - 1 {
      NonBlankKeepsAll(lines[..|lines| - 1], k);
    }
  }

  /** Filtering distributes over concatenation, so the kept lines keep
      their order. */
  lemma {:induction false} NonBlankAppend(a: seq<string>, b: seq<string>)
    ensures NonBlank(a + b) == NonBlank(a) + NonBlank(b)
    decreases |b|
  {
    if b == [] {
      assert a + b == a;
    } else {
      var b0 := b[..|b| - 1];
      assert (a + b)[..|a + b| - 1] == a + b0;
      NonBlankAppend(a, b0);
    }
  }

  /** The last `n` items of `a + b` are those of `b` when `b` has `n`. */
  lemma {:induction false} SuffixOfAppend<T>(a: seq<T>, b: seq<T>, n: nat)
    requires n <= |b|
    ensures (a + b)[|a + b| - n..] == b[|b| - n..]
  {
  }

  /** The lines printed after a failed compile: the non-blank ones among
      the last 30 newline-separated segments of the compiler's output. */
  function LogTail(stdout: string): (r: seq<string>)
    ensures |r| <= TailLines
  {
    NonBlank(LastN(SplitLines(stdout), TailLines))
  }

  /** At most 30 lines are printed; each is a whole segment of the output
      from among its last 30, holds no newline and is not all whitespace;
      and every non-blank segment among the last 30 is printed. */
  lemma {:induction false} LogTailBounds(stdout: string)
    ensures var tail, last := LogTail(stdout), LastN(SplitLines(stdout), TailLines);
      |tail| <= TailLines
      && (forall k :: 0 <= k < |tail| ==> tail[k] in last && '\n' !in tail[k] && !IsBlank(tail[k]))
      && (forall k :: 0 <= k < |last| && !IsBlank(last[k]) ==> last[k] in tail)
  {
    var lines := SplitLines(stdout);
    var last := LastN(lines, TailLines);
    var tail := LogTail(stdout);
    SplitLinesNoNewline(stdout);
    NonBlankSound(last);
    forall k | 0 <= k < |tail|
      ensures '\n' !in tail[k]
    {
      var j :| 0 <= j < |last| && last[j] == tail[k];
      assert last[j] == lines[|lines| - |last| + j];
    }
    forall k | 0 <= k < |last| && !IsBlank(last[k])
      ensures last[k] in tail
    {
      NonBlankKeepsAll(last, k);
    }
  }

  /** Output of at most 30 lines is printed whole, less its blank lines. */
  lemma {:induction false} LogTailShort(stdout: string)
    requires |SplitLines(stdout)| <= TailLines
    ensures LogTail(stdout) == NonBlank(SplitLines(stdout))
  {
  }

  /** The lines of a longer output before its last 30 are never printed:
      the tail depends only on those 30. */
  lemma {:induction false} LogTailOfLongOutput(head: string, rest: string)
    requires |SplitLines(rest)| >= TailLines
    ensures LogTail(head + "\n" + rest) == LogTail(rest)
  {
    var hs, rs := SplitLines(head), SplitLines(rest);
    SplitLinesAppend(head, rest);
    SuffixOfAppend(hs, rs, TailLines);
    assert LastN(hs + rs, TailLines) == LastN(rs, TailLines);
  }

  /** The loop at the head of a failed compile's report: walks the last
      30 output segments and prints each that is not all whitespace. */
  method PrintTail(stdout: string) returns (printed: seq<string>)
    ensures printed == LogTail(stdout)
  {
    var logLines := SplitLines(stdout);
    var last := LastN(logLines, TailLines);
    printed := [];
    for i := 0 to |last|
      invariant printed == NonBlank(last[..i])
    {
      var line := last[i];
      assert last[..i + 1][..i] == last[..i];
      if !IsBlank(line) {
        printed := printed + [line];
      }
    }
    assert last[..|last|] == last;
  }

  /** What `pdflatex` leaves behind: its exit code, its standard output
      and whether `<name>.pdf` exists afterwards. */
  datatype CompileRun = CompileRun(returncode: int, stdout: string, pdfExists: bool)

  /** What `pdftoppm` leaves behind: its exit code, which the source
      never reads, and whether `<name>.png` exists afterwards. */
  datatype ConvertRun = ConvertRun(returncode: int, pngExists: bool)

  /** How one rendering ended, with what it printed about it. */
  datatype Report =
    | Published(outputPath: string)
    | CompileFailed(logTail: seq<string>)
    | PdfMissing
    | PngMissing

  /** `os.path.join(dir, file)`: an absolute file name replaces the
      directory; otherwise a `/` is inserted unless the directory is empty
      or already ends with one. */
  function JoinPath(dir: string, file: string): (r: string)
    ensures |file| > 0 && file[0] == '/' ==> r == file
    ensures !(|file| > 0 && file[0] == '/') && |dir| > 0 && dir[|dir| - 1] != '/' ==> r == dir + "/" + file
    ensures !(|file| > 0 && file[0] == '/') && (dir == [] || dir[|dir| - 1] == '/') ==> r == dir + file
    ensures |r| >= |file| && r[|r| - |file|..] == file
  {
    if |file| > 0 && file[0] == '/' then file
    else if dir == [] || dir[|dir| - 1] == '/' then dir + file
    else dir + "/" + file
  }

  /** Where a rendered figure is published. */
  function OutputPath(outputDir: string, name: string): string {
    JoinPath(outputDir, name + ".png")
  }

  /** A figure named by its label is published as `<dir>/<name>.png`
      inside a directory named without a trailing `/`. */
  lemma {:induction false} OutputPathInDir(outputDir: string, name: string)
    requires |outputDir| > 0 && outputDir[|outputDir| - 1] != '/'
    requires |name| > 0 && name[0] != '/'
    ensures OutputPath(outputDir, name) == outputDir + "/" + name + ".png"
    ensures OutputPath(outputDir, name)[..|outputDir| + 1] == outputDir + "/"
  {
    var r := OutputPath(outputDir, name);
    assert (name + ".png")[0] == name[0];
    assert r == outputDir + ("/" + name + ".png");
  }

  /** The outcome of `render_tikz_to_png` for one figure, given the two
      programs' behaviour. */
  function Render(name: string, tikzCode: string, outputDir: string, dpi: nat,
                  pdflatex: (string, string) -> CompileRun,
                  pdftoppm: (string, string, nat) -> ConvertRun): (r: Report)
    ensures r.Published? ==> r.outputPath == OutputPath(outputDir, name)
    ensures r.CompileFailed? ==> |r.logTail| <= TailLines
  {
    var doc := LatexDocument(CleanCode(tikzCode));
    var run := pdflatex(name, doc);
    if run.returncode != 0 then CompileFailed(LogTail(run.stdout))
    else if !run.pdfExists then PdfMissing
    else if !pdftoppm(name, doc, dpi).pngExists then PngMissing
    else Published(OutputPath(outputDir, name))
  }

  /** A figure is published, at `<output_dir>/<name>.png`, exactly when
      the compiler exits with 0 and both the PDF and the PNG exist. */
  lemma {:induction false} RenderSucceedsIff(name: string, tikzCode: string, outputDir: string, dpi: nat,
                                             pdflatex: (string, string) -> CompileRun,
                                             pdftoppm: (string, string, nat) -> ConvertRun)
    ensures var doc := LatexDocument(CleanCode(tikzCode));
      var r := Render(name, tikzCode, outputDir, dpi, pdflatex, pdftoppm);
      (r.Published? <==>
        pdflatex(name, doc).returncode == 0 && pdflatex(name, doc).pdfExists
        && pdftoppm(name, doc, dpi).pngExists)
      && (r.Published? ==> r.outputPath == OutputPath(outputDir, name))
  {
  }

  /** `pdftoppm`'s exit code is never consulted: two converters that
      leave the same PNG behind give the same outcome. */
  lemma {:induction false} RenderIgnoresConvertCode(name: string, tikzCode: string, outputDir: string, dpi: nat,
                                                    pdflatex: (string, string) -> CompileRun,
                                                    convert1: (string, string, nat) -> ConvertRun,
                                                    convert2: (string, string, nat) -> ConvertRun)
    requires forall n, d, r :: convert1(n, d, r).pngExists == convert2(n, d, r).pngExists
    ensures Render(name, tikzCode, outputDir, dpi, pdflatex, convert1)
         == Render(name, tikzCode, outputDir, dpi, pdflatex, convert2)
  {
  }

  /** A failed compile is reported with the tail of the compiler's output,
      at most 30 non-blank lines, and the converter is not consulted: any
      other converter gives the same report. */
  lemma {:induction false} CompileFailureReport(name: string, tikzCode: string, outputDir: string, dpi: nat,
                                                pdflatex: (string, string) -> CompileRun,
                                                pdftoppm: (string, string, nat) -> ConvertRun,
                                                other: (string, string, nat) -> ConvertRun)
    requires pdflatex(name, LatexDocument(CleanCode(tikzCode))).returncode != 0
    ensures Render(name, tikzCode, outputDir, dpi, pdflatex, other)
         == Render(name, tikzCode, outputDir, dpi, pdflatex, pdftoppm)
    ensures var r := Render(name, tikzCode, outputDir, dpi, pdflatex, pdftoppm);
      r.CompileFailed? && r.logTail == LogTail(pdflatex(name, LatexDocument(CleanCode(tikzCode))).stdout)
      && |r.logTail| <= TailLines
      && forall k :: 0 <= k < |r.logTail| ==> !IsBlank(r.logTail[k])
  {
    LogTailBounds(pdflatex(name, LatexDocument(CleanCode(tikzCode))).stdout);
  }

  /** `render_tikz_to_png`: reassigns `clean_code` through the three
      cleaning steps, builds the document, runs the compiler, and returns
      early at the first missing result. */
  method RenderTikzToPng(name: string, tikzCode: string, outputDir: string, dpi: nat,
                         pdflatex: (string, string) -> CompileRun,
                         pdftoppm: (string, string, nat) -> ConvertRun)
    returns (ok: bool, report: Report)
    ensures report == Render(name, tikzCode, outputDir, dpi, pdflatex, pdftoppm)
    ensures ok <==> report.Published?
  {
    var cleanCode := tikzCode;
    cleanCode := ReplaceAll(cleanCode, StandardRef, "");
    cleanCode := ReplaceAll(cleanCode, GradientRef, "");
    cleanCode := StripRefs(cleanCode);
    var latexContent := Preamble + "\n" + cleanCode + "\n" + Postamble;
    var result := pdflatex(name, latexContent);
    if result.returncode != 0 {
      var printed := PrintTail(result.stdout);
      return false, CompileFailed(printed);
    }
    if !result.pdfExists {
      return false, PdfMissing;
    }
    var converted := pdftoppm(name, latexContent, dpi);
    if !converted.pngExists {
      return false, PngMissing;
    }
    return true, Published(OutputPath(outputDir, name));
  }
}
