/**
 * The two accumulation loops of the app: each uploaded file's extracted text
 * is appended to the document set's text, followed by "\n", in upload order;
 * then the teacher's and the student's texts are compared.
 */
module DocumentSet {
  import opened Wrappers
  import opened Text
  import opened Extract
  import opened Compare

  /**
   * The text of a document set whose files yielded texts, starting from "":
   * every text and one "\n" per file, the last text followed by its "\n".
   */
  function Combine(texts: seq<string>): (text: string)
    ensures |text| == TotalLength(texts) + |texts|
    ensures texts != [] ==> EndsWith(text, texts[|texts| - 1] + "\n")
  {
    if texts == [] then ""
    else
      var init, last := texts[..|texts| - 1], texts[|texts| - 1];
      assert init + [last] == texts;
      TotalLengthAppend(init, last);
      Combine(init) + last + "\n"
  }

  /** The lines of each file, in upload order; an empty text still gives one (empty) line. */
  function FileLines(texts: seq<string>): seq<string>
  {
    if texts == [] then [] else FileLines(texts[..|texts| - 1]) + Split(texts[|texts| - 1], '\n')
  }

  /** Extract every file in upload order; the first file whose extractor raises stops the run. */
  function ExtractAll(files: seq<Upload>, ex: Extractors): (r: Result<seq<string>, ExtractError>)
    ensures r.Ok? ==> |r.value| == |files|
    ensures r.Err? ==> files != []
  {
    if files == [] then Ok([])
    else
      match ExtractAll(files[..|files| - 1], ex)
      case Err(e) => Err(e)
      case Ok(texts) =>
        match ExtractText(files[|files| - 1], ex)
        case Err(e) => Err(e)
        case Ok(t) => Ok(texts + [t])
  }

  /** The text of a document set, or the error of the first file that could not be read. */
  function CombinedText(files: seq<Upload>, ex: Extractors): Result<string, ExtractError>
  {
    match ExtractAll(files, ex)
    case Ok(texts) => Ok(Combine(texts))
    case Err(e) => Err(e)
  }

  /** `text += extract_text_from_file(file) + "\n"` for every file. */
  method CombineTexts(files: seq<Upload>, ex: Extractors) returns (r: Result<string, ExtractError>)
    ensures r == CombinedText(files, ex)
  {
    var text := "";
    ghost var texts: seq<string> := [];
    for i := 0 to |files|
      invariant ExtractAll(files[..i], ex) == Ok(texts)
      invariant text == Combine(texts)
    {
      assert files[..i + 1][..i] == files[..i];
      var t := ExtractText(files[i], ex);
      if t.Err? {
        ExtractAllKeepsFirstError(files, i + 1, ex);
        return Err(t.error);
      }
      text := text + t.value + "\n";
      texts := texts + [t.value];
    }
    assert files[..|files|] == files;
    r := Ok(text);
  }

  lemma {:induction false} ExtractAllKeepsFirstError(files: seq<Upload>, n: nat, ex: Extractors)
    requires n <= |files| && ExtractAll(files[..n], ex).Err?
    ensures ExtractAll(files, ex) == ExtractAll(files[..n], ex)
    decreases |files| - n
  {
    if n < |files| {
      assert files[..n + 1][..n] == files[..n];
      ExtractAllKeepsFirstError(files, n + 1, ex);
    } else {
      assert files[..n] == files;
    }
  }

  /** On success there is one text per file, each what its file's extractor gave, in upload order. */
  lemma {:induction false} ExtractAllTexts(files: seq<Upload>, ex: Extractors)
    ensures ExtractAll(files, ex).Ok? <==> forall i :: 0 <= i < |files| ==> ExtractText(files[i], ex).Ok?
    ensures ExtractAll(files, ex).Ok? ==>
              var texts := ExtractAll(files, ex).value;
              |texts| == |files| && forall i :: 0 <= i < |files| ==> ExtractText(files[i], ex) == Ok(texts[i])
    decreases |files|
  {
    if files != [] {
      var init, last := files[..|files| - 1], files[|files| - 1];
      ExtractAllTexts(init, ex);
      assert forall i :: 0 <= i < |init| ==> init[i] == files[i];
      var head, tail := ExtractAll(init, ex), ExtractText(last, ex);
      if head.Ok? && tail.Ok? {
        var texts := head.value + [tail.value];
        assert ExtractAll(files, ex) == Ok(texts);
        forall i | 0 <= i < |files|
          ensures ExtractText(files[i], ex) == Ok(texts[i])
        {
          if i < |init| {
            assert files[i] == init[i];
          }
        }
      } else if head.Ok? {
        assert ExtractAll(files, ex).Err?;
        assert !ExtractText(files[|files| - 1], ex).Ok?;
      } else {
        assert ExtractAll(files, ex).Err?;
        var k :| 0 <= k < |init| && !ExtractText(init[k], ex).Ok?;
        assert !ExtractText(files[k], ex).Ok?;
      }
    }
  }

  /**
   * On failure the error is that of the first file whose extractor raised:
   * every file before it was read.
   */
  lemma {:induction false} ExtractAllFirstError(files: seq<Upload>, ex: Extractors)
    requires ExtractAll(files, ex).Err?
    ensures exists i :: && 0 <= i < |files|
                        && (forall j :: 0 <= j < i ==> ExtractText(files[j], ex).Ok?)
                        && ExtractText(files[i], ex) == Err(ExtractAll(files, ex).error)
    decreases |files|
  {
    var init := files[..|files| - 1];
    assert forall j :: 0 <= j < |init| ==> init[j] == files[j];
    if ExtractAll(init, ex).Err? {
      ExtractAllFirstError(init, ex);
      var i :| && 0 <= i < |init|
               && (forall j :: 0 <= j < i ==> ExtractText(init[j], ex).Ok?)
               && ExtractText(init[i], ex) == Err(ExtractAll(init, ex).error);
      assert ExtractText(files[i], ex) == Err(ExtractAll(files, ex).error);
    } else {
      ExtractAllTexts(init, ex);
      var i := |files| - 1;
      assert forall j :: 0 <= j < i ==> ExtractText(files[j], ex).Ok?;
    }
  }

  /** The accumulated text is the texts joined with "\n", plus a final "\n". */
  lemma {:induction false} CombineIsJoin(texts: seq<string>)
    ensures Combine(texts) == if texts == [] then "" else Join(texts, "\n") + "\n"
    decreases |texts|
  {
    if |texts| > 1 {
      var init := texts[..|texts| - 1];
      CombineIsJoin(init);
      JoinAppend(init, "\n", texts[|texts| - 1]);
      assert init + [texts[|texts| - 1]] == texts;
    }
  }

  lemma {:induction false} SplitAfterCombine(texts: seq<string>, t: string)
    ensures Split(Combine(texts) + t, '\n') == FileLines(texts) + Split(t, '\n')
    decreases |texts|
  {
    if texts != [] {
      var init, u := texts[..|texts| - 1], texts[|texts| - 1];
      SplitAfterCombine(init, u);
      assert Combine(texts) + t == (Combine(init) + u) + ['\n'] + t;
      SplitAround(Combine(init) + u, '\n', t);
    } else {
      assert Combine(texts) + t == t;
    }
  }

  /**
   * The lines compare_notes sees for a document set are the lines of its
   * files, file after file in upload order; each file starts on a line of its
   * own, and a file that yielded "" contributes one empty line.
   */
  lemma {:induction false} CombinedLines(texts: seq<string>)
    ensures SplitLines(Combine(texts)) == FileLines(texts)
  {
    if texts != [] {
      var init, u := texts[..|texts| - 1], texts[|texts| - 1];
      SplitAfterCombine(init, u);
      SplitLinesTerminated(Combine(init) + u);
    }
  }

  datatype CompareError = MissingUploads | ExtractionFailed(cause: ExtractError)

  /**
   * The "Compare Notes" action: both sides need at least one file; the
   * teacher's files are read first, then the student's, then the two texts
   * are compared.
   */
  method RunComparison(teacher: seq<Upload>, student: seq<Upload>, ex: Extractors, ndiff: Differ)
    returns (r: Result<string, CompareError>)
    ensures r == Err(MissingUploads) <==> teacher == [] || student == []
    ensures r.Ok? <==> (teacher != [] && student != []
                        && ExtractAll(teacher, ex).Ok? && ExtractAll(student, ex).Ok?)
    ensures r.Ok? ==> r.value == ReportOf(Annotations(ndiff(FileLines(ExtractAll(teacher, ex).value),
                                                             FileLines(ExtractAll(student, ex).value))))
    ensures r.Err? && r.error.ExtractionFailed? ==>
              r.error.cause == (if ExtractAll(teacher, ex).Err? then ExtractAll(teacher, ex).error
                                else ExtractAll(student, ex).error)
  {
    if teacher == [] || student == [] {
      return Err(MissingUploads);
    }
    var originalText := CombineTexts(teacher, ex);
    if originalText.Err? {
      return Err(ExtractionFailed(originalText.error));
    }
    var studentText := CombineTexts(student, ex);
    if studentText.Err? {
      return Err(ExtractionFailed(studentText.error));
    }
    var report := CompareNotes(originalText.value, studentText.value, ndiff);
    CombinedLines(ExtractAll(teacher, ex).value);
    CombinedLines(ExtractAll(student, ex).value);
    r := Ok(report);
  }
}
