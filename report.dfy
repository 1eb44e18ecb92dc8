/** The report printed after the loop, as the lines of text it prints
    (colour and markup are not part of the text). */
module Reporting {
  import opened FileSystem
  import opened Selection
  import opened Verify

  const SuccessLine: string := "All files passed!"

  /** The line naming a file that did not pass. */
  function FailureLine(name: string): (line: string)
    ensures |line| > |name| && line[|line| - |name|..] == name
    ensures line != SuccessLine
  {
    var line := "Failed:\t" + name;
    assert line[0] != SuccessLine[0];
    line
  }

  /** A slot that the report reads as false. `False in file_passes` tests
      equality with `False`, which holds of `False` and of the integer 0
      (`False == 0`); `not file_passes[i]` tests truthiness, which among
      bools and ints also holds of exactly `False` and 0. */
  predicate Falsy(s: Slot) {
    match s
    case Placeholder(i) => i == 0
    case Verdict(b) => !b
  }

  /** Python's `False in file_passes`. */
  predicate ContainsFalse(slots: seq<Slot>) {
    exists i :: 0 <= i < |slots| && Falsy(slots[i])
  }

  /** One failure line per listed position, in the order listed. */
  function FailureLines(subset: seq<DirEntry>, idx: seq<nat>): (lines: seq<string>)
    requires forall k :: 0 <= k < |idx| ==> idx[k] < |subset|
  {
    seq(|idx|, k requires 0 <= k < |idx| => FailureLine(subset[idx[k]].name))
  }

  /** Listing one more position adds its failure line at the end. */
  lemma FailureLinesSnoc(subset: seq<DirEntry>, idx: seq<nat>, i: nat)
    requires forall k :: 0 <= k < |idx| ==> idx[k] < |subset|
    requires i < |subset|
    ensures FailureLines(subset, idx + [i]) == FailureLines(subset, idx) + [FailureLine(subset[i].name)]
  {
  }

  /** What the report prints for the slots of a completed loop. */
  function ReportLines(slots: seq<Slot>, subset: seq<DirEntry>): (lines: seq<string>)
    requires |slots| == |subset|
  {
    if !ContainsFalse(slots) then [SuccessLine]
    else FailureLines(subset, Positions(slots, Falsy))
  }

  /** Prints the success line when no slot is false; otherwise walks the
      slots in index order and prints a failure line for each false one. */
  method Report(slots: seq<Slot>, subset: seq<DirEntry>) returns (lines: seq<string>)
    requires |slots| == |subset|
    ensures lines == ReportLines(slots, subset)
  {
    if !ContainsFalse(slots) {
      return [SuccessLine];
    }
    lines := [];
    for i := 0 to |slots|
      invariant lines == FailureLines(subset, Positions(slots[..i], Falsy))
    {
      ghost var before := Positions(slots[..i], Falsy);
      assert slots[..i + 1][..i] == slots[..i];
      assert Positions(slots[..i + 1], Falsy) == before + (if Falsy(slots[i]) then [i] else []);
      if Falsy(slots[i]) {
        FailureLinesSnoc(subset, before, i);
        lines := lines + [FailureLine(subset[i].name)];
      }
    }
    assert slots[..|slots|] == slots;
  }

  /** The success line is printed exactly when no slot is false, and it is
      then the only line; this includes an empty list of slots. */
  lemma SuccessIffNoFalse(slots: seq<Slot>, subset: seq<DirEntry>)
    requires |slots| == |subset|
    ensures SuccessLine in ReportLines(slots, subset) <==> !ContainsFalse(slots)
    ensures !ContainsFalse(slots) ==> ReportLines(slots, subset) == [SuccessLine]
  {
  }

  /** When some slot is false, the report is one failure line per false slot,
      naming that slot's file, in increasing index order, and nothing else. */
  lemma FailuresExact(slots: seq<Slot>, subset: seq<DirEntry>)
    requires |slots| == |subset| && ContainsFalse(slots)
    ensures var lines := ReportLines(slots, subset);
      exists idx: seq<nat> ::
        && Increasing(idx)
        && |idx| == |lines|
        && (forall k :: 0 <= k < |idx| ==>
              idx[k] < |slots| && Falsy(slots[idx[k]]) && lines[k] == FailureLine(subset[idx[k]].name))
        && (forall j :: 0 <= j < |slots| && Falsy(slots[j]) ==> j in idx)
  {
    var idx := Positions(slots, Falsy);
    forall j | 0 <= j < |slots| && Falsy(slots[j]) ensures j in idx {
      PositionsComplete(slots, Falsy, j);
    }
  }

  /** Why every slot must be overwritten: a placeholder 0 surviving in the
      first slot would read as a failure, suppress the success line, and
      make the first line name the first file, whatever the other slots. */
  lemma PlaceholderZeroReadsAsFailure(slots: seq<Slot>, subset: seq<DirEntry>)
    requires |slots| == |subset| && |slots| > 0 && slots[0] == Placeholder(0)
    ensures var lines := ReportLines(slots, subset);
      |lines| > 0 && lines[0] == FailureLine(subset[0].name) && SuccessLine !in lines
  {
    assert Falsy(slots[0]);
    var idx := Positions(slots, Falsy);
    PositionsComplete(slots, Falsy, 0);
    assert idx[0] == 0;
    SuccessIffNoFalse(slots, subset);
  }
}
