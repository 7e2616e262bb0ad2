/** `ocr_image`: the recognised lines of the first page are put in reading
    order by the top edge of their bounding polygons, joined with spaces, and
    the whitespace of the result is normalised. */
module LineAssembly {
  import opened Text

  /** One recognised text region: the y coordinate of the top-left corner of
      its bounding polygon (`x[0][0][1]`) and its text (`line[1][0]`). */
  datatype OcrLine = OcrLine(top: int, text: string)

  predicate SortedByTop(lines: seq<OcrLine>) {
    forall i, j :: 0 <= i < j < |lines| ==> lines[i].top <= lines[j].top
  }

  /** The lines whose top edge lies at `y`, in the order they come in. */
  function LinesAt(lines: seq<OcrLine>, y: int): seq<OcrLine> {
    if lines == [] then []
    else (if lines[0].top == y then [lines[0]] else []) + LinesAt(lines[1..], y)
  }

  /** Puts `x` in front of the first line that is not above it. */
  function InsertByTop(x: OcrLine, lines: seq<OcrLine>): seq<OcrLine> {
    if lines == [] || x.top <= lines[0].top then [x] + lines
    else [lines[0]] + InsertByTop(x, lines[1..])
  }

  /** `sorted(lines, key=lambda x: x[0][0][1])`. Python's sort is stable; the
      lemmas below show this definition sorts, permutes and is stable. */
  function SortByTop(lines: seq<OcrLine>): seq<OcrLine> {
    if lines == [] then [] else InsertByTop(lines[0], SortByTop(lines[1..]))
  }

  /** Inserting a line no higher than `b` among lines no higher than `b`
      keeps every line no higher than `b`. */
  lemma {:induction false} InsertByTopBelow(x: OcrLine, lines: seq<OcrLine>, b: int)
    requires b <= x.top && forall k :: 0 <= k < |lines| ==> b <= lines[k].top
    ensures forall k :: 0 <= k < |InsertByTop(x, lines)| ==> b <= InsertByTop(x, lines)[k].top
  {
    if lines != [] && x.top > lines[0].top {
      InsertByTopBelow(x, lines[1..], b);
      var r := InsertByTop(x, lines);
      forall k | 0 <= k < |r| ensures b <= r[k].top {
        if k > 0 { assert r[k] == InsertByTop(x, lines[1..])[k - 1]; }
      }
    }
  }

  /** Inserting adds `x` and loses nothing. */
  lemma {:induction false} InsertByTopCount(x: OcrLine, lines: seq<OcrLine>)
    ensures multiset(InsertByTop(x, lines)) == multiset(lines) + multiset{x}
  {
    if lines != [] && x.top > lines[0].top {
      InsertByTopCount(x, lines[1..]);
      assert lines == [lines[0]] + lines[1..];
    }
  }

  lemma {:induction false} InsertByTopSorted(x: OcrLine, lines: seq<OcrLine>)
    requires SortedByTop(lines)
    ensures SortedByTop(InsertByTop(x, lines))
  {
    if lines != [] && x.top > lines[0].top {
      var head, tail := lines[0], lines[1..];
      var rest := InsertByTop(x, tail);
      InsertByTopSorted(x, tail);
      assert lines == [head] + tail;
      assert forall k :: 0 <= k < |tail| ==> head.top <= tail[k].top by {
        forall k | 0 <= k < |tail| ensures head.top <= tail[k].top {
          assert tail[k] == lines[k + 1];
        }
      }
      InsertByTopBelow(x, tail, head.top);
      var r := [head] + rest;
      assert InsertByTop(x, lines) == r;
      forall i, j | 0 <= i < j < |r| ensures r[i].top <= r[j].top {
        assert r[j] == rest[j - 1];
        if i > 0 { assert r[i] == rest[i - 1]; }
      }
    }
  }

  lemma {:induction false} InsertByTopLinesAt(x: OcrLine, lines: seq<OcrLine>, y: int)
    requires SortedByTop(lines)
    ensures LinesAt(InsertByTop(x, lines), y) ==
            if x.top == y then [x] + LinesAt(lines, y) else LinesAt(lines, y)
  {
    if lines == [] || x.top <= lines[0].top {
      assert ([x] + lines)[1..] == lines;
    } else {
      var rest := InsertByTop(x, lines[1..]);
      InsertByTopLinesAt(x, lines[1..], y);
      assert ([lines[0]] + rest)[1..] == rest;
    }
  }

  /** The sorted lines are in ascending order of their top edge and are the
      same lines, each as often as before. */
  lemma {:induction false} SortByTopSorted(lines: seq<OcrLine>)
    ensures SortedByTop(SortByTop(lines))
    ensures multiset(SortByTop(lines)) == multiset(lines)
  {
    if lines != [] {
      SortByTopSorted(lines[1..]);
      InsertByTopSorted(lines[0], SortByTop(lines[1..]));
      InsertByTopCount(lines[0], SortByTop(lines[1..]));
      assert lines == [lines[0]] + lines[1..];
    }
  }

  /** Stability: lines with the same top edge keep their detection order. */
  lemma {:induction false} SortByTopStable(lines: seq<OcrLine>, y: int)
    ensures LinesAt(SortByTop(lines), y) == LinesAt(lines, y)
  {
    if lines != [] {
      var x, rest := lines[0], SortByTop(lines[1..]);
      SortByTopStable(lines[1..], y);
      SortByTopSorted(lines[1..]);
      InsertByTopLinesAt(x, rest, y);
      assert SortByTop(lines) == InsertByTop(x, rest);
      if x.top == y {
        assert LinesAt(lines, y) == [x] + LinesAt(lines[1..], y);
      } else {
        assert LinesAt(lines, y) == [] + LinesAt(lines[1..], y);
      }
    }
  }

  /** The text that `text += line_text + " "` builds over `lines`. */
  function Joined(lines: seq<OcrLine>): string {
    if lines == [] then [] else Joined(lines[..|lines| - 1]) + lines[|lines| - 1].text + " "
  }

  /** The line texts one after the other, with nothing between them. */
  function Texts(lines: seq<OcrLine>): string {
    if lines == [] then [] else Texts(lines[..|lines| - 1]) + lines[|lines| - 1].text
  }

  /** The separators the join adds are whitespace only. */
  lemma {:induction false} JoinedNonSpace(lines: seq<OcrLine>)
    ensures NonSpace(Joined(lines)) == NonSpace(Texts(lines))
  {
    if lines != [] {
      var init, last := lines[..|lines| - 1], lines[|lines| - 1];
      JoinedNonSpace(init);
      NonSpaceAppend(Joined(init) + last.text, " ");
      NonSpaceAppend(Joined(init), last.text);
      NonSpaceAppend(Texts(init), last.text);
      assert NonSpace(" ") == [];
    }
  }

  lemma {:induction false} TextsBlank(lines: seq<OcrLine>)
    ensures IsBlank(Texts(lines)) <==> forall l :: l in lines ==> IsBlank(l.text)
  {
    if lines != [] {
      var init, last := lines[..|lines| - 1], lines[|lines| - 1];
      TextsBlank(init);
      NonSpaceAppend(Texts(init), last.text);
      NonSpaceEmptyIffBlank(Texts(lines));
      NonSpaceEmptyIffBlank(Texts(init));
      NonSpaceEmptyIffBlank(last.text);
      assert lines == init + [last];
    }
  }

  /** The cleaned texts of the lines that are not blank, in order. */
  function Cleaned(lines: seq<OcrLine>): (texts: seq<string>)
    ensures forall i :: 0 <= i < |texts| ==> texts[i] != []
  {
    if lines == [] then []
    else
      var last := lines[|lines| - 1].text;
      NormalizeEmptyIffBlank(last);
      Cleaned(lines[..|lines| - 1]) + CleanedLine(last)
  }

  /** Cleaning the text the loop builds is joining the cleaned line texts
      with single spaces, blank lines left out. */
  lemma {:induction false} NormalizeJoined(lines: seq<OcrLine>)
    ensures Normalize(Joined(lines)) == Join(Cleaned(lines), " ")
  {
    if lines == [] {
      NormalizeEmptyIffBlank([]);
    } else {
      var init, t := lines[..|lines| - 1], lines[|lines| - 1].text;
      assert Cleaned(lines) == Cleaned(init) + CleanedLine(t);
      if init == [] {
        assert Joined(lines) == t + " ";
        NormalizeFirstLine(t);
      } else {
        var p := Joined(init[..|init| - 1]) + init[|init| - 1].text;
        assert Joined(init) == p + " ";
        assert Joined(lines) == p + " " + t + " ";
        NormalizeJoined(init);
        NormalizeNextLine(p, t, Cleaned(init));
      }
    }
  }

  /** What one line adds to the cleaned texts. */
  function CleanedLine(t: string): seq<string> {
    if IsBlank(t) then [] else [Normalize(t)]
  }

  /** The first line with the space the loop puts after it. */
  lemma NormalizeFirstLine(t: string)
    ensures Normalize(t + " ") == Join(CleanedLine(t), " ")
  {
    NormalizeSpaceAfter(t);
    NormalizeEmptyIffBlank(t);
  }

  /** One more line with the space the loop puts after it. */
  lemma NormalizeNextLine(p: string, t: string, done: seq<string>)
    requires forall i :: 0 <= i < |done| ==> done[i] != []
    requires Normalize(p + " ") == Join(done, " ")
    ensures Normalize(p + " " + t + " ") == Join(done + CleanedLine(t), " ")
  {
    NormalizeSpaceAfter(p);
    NormalizeSpaceAfter(p + " " + t);
    NormalizeSpaceJoin(p, t);
    NormalizeEmptyIffBlank(p);
    NormalizeEmptyIffBlank(t);
    JoinEmpty(done, " ");
    if IsBlank(p) {
      assert done == [];
      assert done + CleanedLine(t) == CleanedLine(t);
    } else if IsBlank(t) {
      assert done + CleanedLine(t) == done;
    } else {
      JoinSnoc(done, Normalize(t), " ");
    }
  }

  /** The text `ocr_image` returns for the recognised lines of a page. */
  function AssembledText(lines: seq<OcrLine>): string {
    Normalize(Joined(SortByTop(lines)))
  }

  /** The assembled text is trimmed, never has two whitespace characters in a
      row, and its only whitespace is the plain space. */
  lemma AssembledWellSpaced(lines: seq<OcrLine>)
    ensures WellSpaced(AssembledText(lines))
  {
    NormalizeWellSpaced(Joined(SortByTop(lines)));
  }

  /** The text of a page is the cleaned texts of its non-blank lines, in
      ascending order of their top edge, joined with single spaces. */
  lemma AssembledIsJoin(lines: seq<OcrLine>)
    ensures AssembledText(lines) == Join(Cleaned(SortByTop(lines)), " ")
  {
    NormalizeJoined(SortByTop(lines));
  }

  /** Apart from whitespace, the assembled text is the line texts in ascending
      order of their top edge. */
  lemma AssembledKeepsText(lines: seq<OcrLine>)
    ensures NonSpace(AssembledText(lines)) == NonSpace(Texts(SortByTop(lines)))
  {
    NormalizeKeepsText(Joined(SortByTop(lines)));
    JoinedNonSpace(SortByTop(lines));
  }

  /** The assembled text is empty exactly when every line is blank, in
      particular when there are no lines. */
  lemma AssembledEmptyIff(lines: seq<OcrLine>)
    ensures AssembledText(lines) == [] <==> forall l :: l in lines ==> IsBlank(l.text)
  {
    var sorted := SortByTop(lines);
    SortByTopSorted(lines);
    assert forall l :: l in sorted <==> l in lines by {
      forall l ensures l in sorted <==> l in lines {
        assert l in sorted <==> l in multiset(sorted);
      }
    }
    NormalizeEmptyIffBlank(Joined(sorted));
    JoinedNonSpace(sorted);
    NonSpaceEmptyIffBlank(Joined(sorted));
    NonSpaceEmptyIffBlank(Texts(sorted));
    TextsBlank(sorted);
  }

  lemma JoinedExample()
    ensures Joined([OcrLine(10, "Part"), OcrLine(50, "See")]) == "Part See "
  {
    var part, see := OcrLine(10, "Part"), OcrLine(50, "See");
    assert [part][..0] == [];
    assert Joined([part]) == "Part ";
    assert [part, see][..1] == [part];
  }

  /** Two lines detected bottom line first come out top line first. */
  lemma AssembledExample()
    ensures AssembledText([OcrLine(50, "See"), OcrLine(10, "Part")]) == "Part See"
  {
    var lines := [OcrLine(50, "See"), OcrLine(10, "Part")];
    var sorted := SortByTop(lines);
    assert sorted == [OcrLine(10, "Part"), OcrLine(50, "See")];
    var joined := Joined(sorted);
    JoinedExample();
    assert joined == "Part See ";
    NormalizeExample();
  }

  lemma NormalizeExample()
    ensures Normalize("Part See ") == "Part See"
  {
    var text := "Part See";
    assert text + " " == "Part See ";
    assert WellSpaced(text);
    NormalizeTrailingSpace(text);
  }

  // ------------------------------------------------------------ ocr_image

  /** What `ocr.ocr(img_np, cls=True)` gave: it raised, or it returned one
      entry per page, `None` for a page on which it found no text. A `None`
      or empty result is the empty page list. */
  datatype EngineOutput = EngineRaised | EngineReturned(pages: seq<Option<seq<OcrLine>>>)

  /** The outcome of `ocr_image`: the problem text, or the exception it raises
      ("OCR识别失败: ..."). */
  datatype OcrResult = Recognised(text: string) | OcrFailed

  /** What `ocr_image` returns for an engine output. Only the first page is
      read; `sorted(None)` on a page without text raises. */
  function OcrOutcome(out: EngineOutput): OcrResult {
    match out
    case EngineRaised => OcrFailed
    case EngineReturned(pages) =>
      if pages == [] then Recognised(Normalize(""))
      else if pages[0].None? then OcrFailed
      else Recognised(AssembledText(pages[0].value))
  }

  /** `ocr_image` from the engine call on: sort the first page's lines, build
      the text line by line, normalise it. */
  method OcrImage(out: EngineOutput) returns (r: OcrResult)
    ensures r == OcrOutcome(out)
  {
    if out.EngineRaised? {
      return OcrFailed;
    }
    var text := "";
    if |out.pages| > 0 {
      if out.pages[0].None? {
        return OcrFailed;
      }
      var lines := SortByTop(out.pages[0].value);
      for i := 0 to |lines|
        invariant text == Joined(lines[..i])
      {
        assert lines[..i + 1][..i] == lines[..i];
        text := text + lines[i].text + " ";
      }
      assert lines[..|lines|] == lines;
    }
    return Recognised(Normalize(text));
  }

  /** `ocr_image` yields the empty text exactly when the engine returned no
      page, or a first page whose lines are all blank. */
  lemma OcrEmptyIff(out: EngineOutput)
    ensures OcrOutcome(out) == Recognised("") <==>
            out.EngineReturned? &&
            (out.pages == [] ||
             (out.pages[0].Some? && forall l :: l in out.pages[0].value ==> IsBlank(l.text)))
  {
    NormalizeEmptyIffBlank("");
    if out.EngineReturned? && out.pages != [] && out.pages[0].Some? {
      AssembledEmptyIff(out.pages[0].value);
    }
  }
}
