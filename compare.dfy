/**
 * compare_notes: split both texts into lines, diff them line by line, and
 * turn every "- ", "+ " and "? " line of the diff into one report entry,
 * after a fixed header, joined with newlines.
 *
 * difflib.ndiff is a parameter: a function from the two line sequences to a
 * sequence of tagged operations, each rendered as the line ndiff yields.
 */
module Compare {
  import opened Text

  const Header: string := "\n--- Comparison Result ---\n"
  const MissingLabel: string := "\U{274C} Missing in student notes: "
  const ExtraLabel: string := "\U{26A0}\U{FE0F} Extra/Incorrect in student notes: "
  const HintLabel: string := "\U{1F50D} Possible spelling issue indicator: "

  /**
   * One operation of a line diff: a line common to both sides, a line only
   * the reference has, a line only the candidate has, or a hint line that
   * marks the characters in which the neighbouring changed lines differ.
   */
  datatype EditOp = Keep(line: string) | Delete(line: string) | Insert(line: string) | Hint(line: string)

  type Differ = (seq<string>, seq<string>) -> seq<EditOp>

  /**
   * The line ndiff yields for an operation: a two-character tag, then the
   * text. The tag tells the operations apart: "- " only for Delete, "+ " only
   * for Insert, "? " only for Hint ("  " for Keep).
   */
  function Render(op: EditOp): (r: string)
    ensures |r| == |op.line| + 2 && r[2..] == op.line
    ensures StartsWith(r, "- ") <==> op.Delete?
    ensures StartsWith(r, "+ ") <==> op.Insert?
    ensures StartsWith(r, "? ") <==> op.Hint?
  {
    match op
    case Keep(l) => "  " + l
    case Delete(l) => "- " + l
    case Insert(l) => "+ " + l
    case Hint(l) => "? " + l
  }

  /** The diff stream: one rendered line per operation, in order. */
  function Rendered(ops: seq<EditOp>): (diff: seq<string>)
    ensures |diff| == |ops|
    ensures forall i :: 0 <= i < |ops| ==> diff[i] == Render(ops[i])
  {
    seq(|ops|, i requires 0 <= i < |ops| => Render(ops[i]))
  }

  // ---------------------------------------------------------------------------
  // Classification of the diff stream, as compare_notes does it: on the prefix.
  // ---------------------------------------------------------------------------

  /** A diff line that gets a report entry. */
  predicate Flagged(line: string)
  {
    StartsWith(line, "- ") || StartsWith(line, "+ ") || StartsWith(line, "? ")
  }

  /** The entries one diff line contributes: none, or one. */
  function EntryOf(line: string): (e: seq<string>)
    ensures |e| == (if Flagged(line) then 1 else 0)
  {
    if StartsWith(line, "- ") then [MissingLabel + line[2..]]
    else if StartsWith(line, "+ ") then [ExtraLabel + line[2..]]
    else if StartsWith(line, "? ") then [HintLabel + line[2..]]
    else []
  }

  /** The entries of a whole diff stream, in stream order. */
  function Entries(diff: seq<string>): seq<string>
  {
    if diff == [] then [] else Entries(diff[..|diff| - 1]) + EntryOf(diff[|diff| - 1])
  }

  function CountFlagged(diff: seq<string>): nat
  {
    if diff == [] then 0
    else CountFlagged(diff[..|diff| - 1]) + (if Flagged(diff[|diff| - 1]) then 1 else 0)
  }

  /** The report text: the header and the entries, joined with "\n". */
  function ReportOf(entries: seq<string>): string
  {
    Join([Header] + entries, "\n")
  }

  /** The loop of compare_notes that builds the results list. */
  method ClassifyDiff(diff: seq<string>) returns (results: seq<string>)
    ensures results == [Header] + Entries(diff)
    ensures |results| == 1 + CountFlagged(diff)
  {
    results := [Header];
    for i := 0 to |diff|
      invariant results == [Header] + Entries(diff[..i])
    {
      var line := diff[i];
      if StartsWith(line, "- ") {
        results := results + [MissingLabel + line[2..]];
      } else if StartsWith(line, "+ ") {
        results := results + [ExtraLabel + line[2..]];
      } else if StartsWith(line, "? ") {
        results := results + [HintLabel + line[2..]];
      }
      assert diff[..i + 1][..i] == diff[..i];
    }
    assert diff[..|diff|] == diff;
    EntriesCount(diff);
  }

  /** compare_notes, with the differ as a parameter and lines split on '\n'. */
  method CompareNotes(original: string, student: string, ndiff: Differ) returns (report: string)
    ensures report == ReportOf(Annotations(ndiff(SplitLines(original), SplitLines(student))))
    ensures StartsWith(report, Header)
    ensures report == Header <==> forall op :: op in ndiff(SplitLines(original), SplitLines(student)) ==> op.Keep?
  {
    var originalLines := SplitLines(original);
    var studentLines := SplitLines(student);
    var ops := ndiff(originalLines, studentLines);
    var results := ClassifyDiff(Rendered(ops));
    report := Join(results, "\n");
    ClassifyRendered(ops);
    ReportStartsWithHeader(Annotations(ops));
    ReportIsHeader(Annotations(ops));
    NoAnnotationsIffKeepOnly(ops);
  }

  /** There is one entry per flagged line. */
  lemma {:induction false} EntriesCount(diff: seq<string>)
    ensures |Entries(diff)| == CountFlagged(diff)
    decreases |diff|
  {
    if diff != [] {
      EntriesCount(diff[..|diff| - 1]);
    }
  }

  lemma {:induction false} EntriesAppend(d1: seq<string>, d2: seq<string>)
    ensures Entries(d1 + d2) == Entries(d1) + Entries(d2)
    decreases |d2|
  {
    if d2 == [] {
      assert d1 + d2 == d1;
    } else {
      var init := d2[..|d2| - 1];
      EntriesAppend(d1, init);
      assert (d1 + d2)[..|d1 + d2| - 1] == d1 + init;
    }
  }

  /**
   * The flagged line at index i gives the entry at index "number of flagged
   * lines before i": its label followed by the line without its two-character
   * tag. Entries thus keep the order of the diff stream.
   */
  lemma {:induction false} EntriesAt(diff: seq<string>, i: nat)
    requires i < |diff| && Flagged(diff[i])
    ensures CountFlagged(diff[..i]) < |Entries(diff)|
    ensures var entry := Entries(diff)[CountFlagged(diff[..i])];
            && (StartsWith(diff[i], "- ") ==> entry == MissingLabel + diff[i][2..])
            && (StartsWith(diff[i], "+ ") ==> entry == ExtraLabel + diff[i][2..])
            && (StartsWith(diff[i], "? ") ==> entry == HintLabel + diff[i][2..])
  {
    var before, after := diff[..i], diff[i + 1..];
    assert diff == before + [diff[i]] + after;
    EntriesAppend(before + [diff[i]], after);
    EntriesAppend(before, [diff[i]]);
    EntriesCount(before);
    assert Entries([diff[i]]) == EntryOf(diff[i]) by {
      assert [diff[i]][..0] == [];
    }
  }

  /** Lines that are not flagged contribute nothing. */
  lemma {:induction false} UnflaggedContributeNothing(diff: seq<string>)
    requires forall k :: 0 <= k < |diff| ==> !Flagged(diff[k])
    ensures Entries(diff) == []
    decreases |diff|
  {
    if diff != [] {
      UnflaggedContributeNothing(diff[..|diff| - 1]);
    }
  }

  /** The report's first line is the header, whatever the entries. */
  lemma ReportStartsWithHeader(entries: seq<string>)
    ensures StartsWith(ReportOf(entries), Header)
  {
    if entries != [] {
      assert ReportOf(entries) == Header + "\n" + Join(entries, "\n");
    }
  }

  /**
   * The report is exactly the header if and only if there are no entries;
   * otherwise the entries follow the header after one "\n", with no
   * separator after the last one.
   */
  lemma ReportIsHeader(entries: seq<string>)
    ensures ReportOf(entries) == Header <==> entries == []
    ensures entries != [] ==> ReportOf(entries) == Header + "\n" + Join(entries, "\n")
  {
  }

  // ---------------------------------------------------------------------------
  // The same classification stated on the operations.
  // ---------------------------------------------------------------------------

  /** The report entry an operation calls for; Keep calls for none. */
  function Annotate(op: EditOp): seq<string>
  {
    match op
    case Keep(_) => []
    case Delete(l) => [MissingLabel + l]
    case Insert(l) => [ExtraLabel + l]
    case Hint(l) => [HintLabel + l]
  }

  function Annotations(ops: seq<EditOp>): seq<string>
  {
    if ops == [] then [] else Annotations(ops[..|ops| - 1]) + Annotate(ops[|ops| - 1])
  }

  /**
   * Classifying ndiff's lines on their prefix gives exactly the entry each
   * operation calls for: Missing for Delete, Extra/Incorrect for Insert,
   * spelling for Hint, nothing for Keep, in the order of the operations.
   */
  lemma {:induction false} ClassifyRendered(ops: seq<EditOp>)
    ensures Entries(Rendered(ops)) == Annotations(ops)
    decreases |ops|
  {
    if ops != [] {
      var init, op := ops[..|ops| - 1], ops[|ops| - 1];
      ClassifyRendered(init);
      assert Rendered(ops)[..|ops| - 1] == Rendered(init);
      var line := Render(op);
      assert line[..2] == Render(op)[..2];
      assert line[2..] == op.line;
    }
  }

  /** The report has no entries if and only if every operation is a Keep. */
  lemma {:induction false} NoAnnotationsIffKeepOnly(ops: seq<EditOp>)
    ensures Annotations(ops) == [] <==> forall op :: op in ops ==> op.Keep?
    decreases |ops|
  {
    if ops != [] {
      var init := ops[..|ops| - 1];
      NoAnnotationsIffKeepOnly(init);
      assert ops == init + [ops[|ops| - 1]];
    }
  }

  // ---------------------------------------------------------------------------
  // The reconstruction contract of an edit script (difflib.restore).
  // ---------------------------------------------------------------------------

  /** The lines of the operations that pick selects, in order. */
  function Lines(ops: seq<EditOp>, pick: EditOp -> bool): (lines: seq<string>)
    ensures |lines| <= |ops|
  {
    if ops == [] then []
    else Lines(ops[..|ops| - 1], pick) + (if pick(ops[|ops| - 1]) then [ops[|ops| - 1].line] else [])
  }

  /** Filtering distributes over concatenation: consecutive stretches of a script keep their lines apart. */
  lemma {:induction false} LinesAppend(a: seq<EditOp>, b: seq<EditOp>, pick: EditOp -> bool)
    ensures Lines(a + b, pick) == Lines(a, pick) + Lines(b, pick)
    decreases |b|
  {
    if b == [] {
      assert a + b == a;
    } else {
      var init := b[..|b| - 1];
      LinesAppend(a, init, pick);
      assert (a + b)[..|a + b| - 1] == a + init;
      assert (a + b)[|a + b| - 1] == b[|b| - 1];
    }
  }

  predicate OnReferenceSide(op: EditOp) { op.Keep? || op.Delete? }
  predicate OnCandidateSide(op: EditOp) { op.Keep? || op.Insert? }
  predicate IsDelete(op: EditOp) { op.Delete? }
  predicate IsInsert(op: EditOp) { op.Insert? }
  predicate IsKeep(op: EditOp) { op.Keep? }

  /** The reference lines an edit script restores: its Keep and Delete lines. */
  function Reference(ops: seq<EditOp>): seq<string> { Lines(ops, OnReferenceSide) }

  /** The candidate lines an edit script restores: its Keep and Insert lines. */
  function Candidate(ops: seq<EditOp>): seq<string> { Lines(ops, OnCandidateSide) }

  /** The lines of the Delete operations. */
  function Deleted(ops: seq<EditOp>): seq<string> { Lines(ops, IsDelete) }

  /** The lines of the Insert operations. */
  function Inserted(ops: seq<EditOp>): seq<string> { Lines(ops, IsInsert) }

  /** The lines of the Keep operations. */
  function Kept(ops: seq<EditOp>): seq<string> { Lines(ops, IsKeep) }

  /** The report entries that carry a given label, in report order. */
  function WithLabel(entries: seq<string>, marker: string): seq<string>
  {
    if entries == [] then []
    else
      var last := entries[|entries| - 1];
      WithLabel(entries[..|entries| - 1], marker) + (if StartsWith(last, marker) then [last] else [])
  }

  /** label + line for each line, in order. */
  function Labelled(marker: string, lines: seq<string>): (entries: seq<string>)
    ensures |entries| == |lines|
  {
    seq(|lines|, i requires 0 <= i < |lines| => marker + lines[i])
  }

  /**
   * The report's Missing entries are the Delete lines, each after the Missing
   * label, and its Extra/Incorrect entries the Insert lines after theirs, in
   * operation order.
   */
  lemma {:induction false} ReportedLines(ops: seq<EditOp>)
    ensures WithLabel(Annotations(ops), MissingLabel) == Labelled(MissingLabel, Deleted(ops))
    ensures WithLabel(Annotations(ops), ExtraLabel) == Labelled(ExtraLabel, Inserted(ops))
    decreases |ops|
  {
    if ops != [] {
      var init, op := ops[..|ops| - 1], ops[|ops| - 1];
      ReportedLines(init);
      if op.Keep? {
        assert Annotations(ops) == Annotations(init);
      } else {
        var entry := Annotate(op)[0];
        assert Annotations(ops) == Annotations(init) + [entry];
        EntryLabel(op);
        WithLabelAppend(Annotations(init), entry, MissingLabel);
        WithLabelAppend(Annotations(init), entry, ExtraLabel);
        LabelledAppend(MissingLabel, Deleted(init), op.line);
        LabelledAppend(ExtraLabel, Inserted(init), op.line);
      }
    }
  }

  /** The labels tell the entries apart: their first characters differ. */
  lemma EntryLabel(op: EditOp)
    requires !op.Keep?
    ensures StartsWith(Annotate(op)[0], MissingLabel) <==> op.Delete?
    ensures StartsWith(Annotate(op)[0], ExtraLabel) <==> op.Insert?
  {
    var entry := Annotate(op)[0];
    var first := if op.Delete? then MissingLabel[0] else if op.Insert? then ExtraLabel[0] else HintLabel[0];
    assert entry[0] == first;
    if op.Delete? {
      assert entry[..|MissingLabel|] == MissingLabel;
    } else if op.Insert? {
      assert entry[..|ExtraLabel|] == ExtraLabel;
    }
  }

  lemma WithLabelAppend(entries: seq<string>, e: string, marker: string)
    ensures WithLabel(entries + [e], marker) == WithLabel(entries, marker) + (if StartsWith(e, marker) then [e] else [])
  {
    assert (entries + [e])[..|entries|] == entries;
  }

  lemma LabelledAppend(marker: string, lines: seq<string>, l: string)
    ensures Labelled(marker, lines + [l]) == Labelled(marker, lines) + [marker + l]
  {
  }

  /** ops transforms the reference lines a into the candidate lines b. */
  predicate IsEditScript(a: seq<string>, b: seq<string>, ops: seq<EditOp>)
  {
    Reference(ops) == a && Candidate(ops) == b
  }

  /** Edit scripts compose: one for each hunk, concatenated, restore the concatenated hunks. */
  lemma EditScriptsConcat(a1: seq<string>, b1: seq<string>, ops1: seq<EditOp>,
                          a2: seq<string>, b2: seq<string>, ops2: seq<EditOp>)
    requires IsEditScript(a1, b1, ops1) && IsEditScript(a2, b2, ops2)
    ensures IsEditScript(a1 + a2, b1 + b2, ops1 + ops2)
  {
    LinesAppend(ops1, ops2, OnReferenceSide);
    LinesAppend(ops1, ops2, OnCandidateSide);
  }

  /** An empty report means that the two line sequences are equal. */
  lemma {:induction false} NoEntriesMeansSameLines(a: seq<string>, b: seq<string>, ops: seq<EditOp>)
    requires IsEditScript(a, b, ops)
    requires ReportOf(Annotations(ops)) == Header
    ensures a == b
  {
    ReportIsHeader(Annotations(ops));
    NoAnnotationsIffKeepOnly(ops);
    KeepOnlyRestoresSame(ops);
  }

  lemma {:induction false} KeepOnlyRestoresSame(ops: seq<EditOp>)
    requires forall op :: op in ops ==> op.Keep?
    ensures Reference(ops) == Candidate(ops)
    decreases |ops|
  {
    if ops != [] {
      var init := ops[..|ops| - 1];
      assert forall op :: op in init ==> op in ops;
      KeepOnlyRestoresSame(init);
      assert ops[|ops| - 1] in ops;
    }
  }

  /**
   * Every reference line is kept or reported missing, every candidate line
   * kept or reported extra: the report has |a| - |b| more Missing entries
   * than Extra/Incorrect entries.
   */
  lemma {:induction false} MissingMinusExtra(a: seq<string>, b: seq<string>, ops: seq<EditOp>)
    requires IsEditScript(a, b, ops)
    ensures |WithLabel(Annotations(ops), MissingLabel)| + |Kept(ops)| == |a|
    ensures |WithLabel(Annotations(ops), ExtraLabel)| + |Kept(ops)| == |b|
    ensures |WithLabel(Annotations(ops), MissingLabel)| - |WithLabel(Annotations(ops), ExtraLabel)| == |a| - |b|
  {
    RestoredSizes(ops);
    ReportedLines(ops);
  }

  lemma {:induction false} RestoredSizes(ops: seq<EditOp>)
    ensures |Reference(ops)| == |Deleted(ops)| + |Kept(ops)|
    ensures |Candidate(ops)| == |Inserted(ops)| + |Kept(ops)|
    decreases |ops|
  {
    if ops != [] {
      RestoredSizes(ops[..|ops| - 1]);
    }
  }

  /**
   * When the two sides share no line, nothing can be kept: every reference
   * line is reported missing and every candidate line extra, in order.
   */
  lemma {:induction false} DisjointSidesAllReported(a: seq<string>, b: seq<string>, ops: seq<EditOp>)
    requires IsEditScript(a, b, ops)
    requires forall x :: x in a ==> x !in b
    ensures WithLabel(Annotations(ops), MissingLabel) == Labelled(MissingLabel, a)
    ensures WithLabel(Annotations(ops), ExtraLabel) == Labelled(ExtraLabel, b)
    ensures Kept(ops) == []
  {
    DeletedAndInserted(a, b, ops);
    ReportedLines(ops);
  }

  lemma {:induction false} DeletedAndInserted(a: seq<string>, b: seq<string>, ops: seq<EditOp>)
    requires IsEditScript(a, b, ops)
    requires forall x :: x in a ==> x !in b
    ensures Deleted(ops) == a && Inserted(ops) == b
    ensures Kept(ops) == []
    decreases |ops|
  {
    if ops != [] {
      var init, op := ops[..|ops| - 1], ops[|ops| - 1];
      var a', b' := Reference(init), Candidate(init);
      assert forall x :: x in a' ==> x in a;
      assert forall x :: x in b' ==> x in b;
      DeletedAndInserted(a', b', init);
      assert op.Keep? ==> op.line in a && op.line in b;
    }
  }

  /** With no reference lines every candidate line is reported extra; with no candidate lines every reference line missing. */
  lemma EmptySide(a: seq<string>, b: seq<string>, ops: seq<EditOp>)
    requires IsEditScript(a, b, ops)
    requires a == [] || b == []
    ensures WithLabel(Annotations(ops), MissingLabel) == Labelled(MissingLabel, a)
    ensures WithLabel(Annotations(ops), ExtraLabel) == Labelled(ExtraLabel, b)
  {
    DisjointSidesAllReported(a, b, ops);
  }
}
