/** `main` of `render_diagrams.py`: extracts the figures of the chapter,
    renders each once, in order, into the figures directory, and counts
    the ones that were published. */
module Pipeline {
  import opened Text
  import opened Extract
  import opened Render

  /** Where the rendered figures are published. */
  const FiguresDir: string := "/home/user/phd/figures"

  /** The outcome of rendering each figure, in order. */
  function Reports(figures: seq<Figure>,
                   pdflatex: (string, string) -> CompileRun,
                   pdftoppm: (string, string, nat) -> ConvertRun): (r: seq<Report>)
    ensures |r| == |figures|
  {
    if figures == [] then []
    else
      var last := figures[|figures| - 1];
      Reports(figures[..|figures| - 1], pdflatex, pdftoppm)
      + [Render.Render(last.name, last.tikzCode, FiguresDir, DefaultDpi, pdflatex, pdftoppm)]
  }

  /** Each figure is rendered once, in order: the `i`-th outcome is that
      of the `i`-th figure. */
  lemma {:induction false} ReportsInOrder(figures: seq<Figure>,
                                          pdflatex: (string, string) -> CompileRun,
                                          pdftoppm: (string, string, nat) -> ConvertRun, i: nat)
    requires i < |figures|
    ensures Reports(figures, pdflatex, pdftoppm)[i]
         == Render.Render(figures[i].name, figures[i].tikzCode, FiguresDir, DefaultDpi, pdflatex, pdftoppm)
    decreases |figures|
  {
    var init := figures[..|figures| - 1];
    if i < |figures| - 1 {
      ReportsInOrder(init, pdflatex, pdftoppm, i);
      assert init[i] == figures[i];
    }
  }

  /** The outcomes of one more figure. */
  lemma {:induction false} ReportsSnoc(figures: seq<Figure>,
                                       pdflatex: (string, string) -> CompileRun,
                                       pdftoppm: (string, string, nat) -> ConvertRun, i: nat, report: Report)
    requires i < |figures|
    requires report == Render.Render(figures[i].name, figures[i].tikzCode, FiguresDir, DefaultDpi, pdflatex, pdftoppm)
    ensures Reports(figures[..i + 1], pdflatex, pdftoppm) == Reports(figures[..i], pdflatex, pdftoppm) + [report]
  {
    assert figures[..i + 1][..i] == figures[..i];
  }

  /** The count of one more outcome. */
  lemma {:induction false} CountPublishedSnoc(reports: seq<Report>, report: Report)
    ensures CountPublished(reports + [report]) == CountPublished(reports) + (if report.Published? then 1 else 0)
  {
    assert (reports + [report])[..|reports|] == reports;
  }

  /** The number of published figures. */
  function CountPublished(reports: seq<Report>): nat {
    if reports == [] then 0
    else CountPublished(reports[..|reports| - 1]) + (if reports[|reports| - 1].Published? then 1 else 0)
  }

  /** The count lies between 0 and the number of figures; it reaches the
      number of figures exactly when every one was published, and is 0
      exactly when none was. */
  lemma {:induction false} CountPublishedBounds(reports: seq<Report>)
    ensures CountPublished(reports) <= |reports|
    ensures CountPublished(reports) == |reports| <==> forall i :: 0 <= i < |reports| ==> reports[i].Published?
    ensures CountPublished(reports) == 0 <==> forall i :: 0 <= i < |reports| ==> !reports[i].Published?
    decreases |reports|
  {
    if reports != [] {
      var init := reports[..|reports| - 1];
      CountPublishedBounds(init);
      assert forall i :: 0 <= i < |init| ==> init[i] == reports[i];
    }
  }

  /** Text with no figure environment renders nothing and counts 0. */
  lemma {:induction false} NoFiguresNoRenders(content: string,
                                              pdflatex: (string, string) -> CompileRun,
                                              pdftoppm: (string, string, nat) -> ConvertRun)
    requires Absent(content, Source.beginFigure) || Absent(content, Source.beginTikz)
    ensures Reports(Figures(content), pdflatex, pdftoppm) == []
    ensures CountPublished(Reports(Figures(content), pdflatex, pdftoppm)) == 0
  {
    NoFigureEnvironmentNoFigures(content);
  }

  /** `main`: renders every extracted figure once, in order, and counts
      the ones rendered. Returns the count, the number of figures and the
      outcome of each rendering. */
  method RunMain(content: string,
                 pdflatex: (string, string) -> CompileRun,
                 pdftoppm: (string, string, nat) -> ConvertRun)
    returns (success: nat, total: nat, reports: seq<Report>)
    ensures total == |Figures(content)|
    ensures reports == Reports(Figures(content), pdflatex, pdftoppm)
    ensures success == CountPublished(reports) && success <= total
  {
    var figures := ExtractTikzFigures(content);
    success := 0;
    reports := [];
    for i := 0 to |figures|
      invariant reports == Reports(figures[..i], pdflatex, pdftoppm)
      invariant success == CountPublished(reports)
    {
      var ok, report := RenderTikzToPng(figures[i].name, figures[i].tikzCode, FiguresDir, DefaultDpi,
                                        pdflatex, pdftoppm);
      if ok {
        success := success + 1;
      }
      ReportsSnoc(figures, pdflatex, pdftoppm, i, report);
      CountPublishedSnoc(reports, report);
      reports := reports + [report];
    }
    assert figures[..|figures|] == figures;
    total := |figures|;
    CountPublishedBounds(reports);
  }
}
