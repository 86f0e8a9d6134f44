/**
 Source normalisation: the parser's constructor reads every line, trims it,
 and keeps the lines its filter accepts, in order. The filter is a parameter
 here: `SourceKeep` is the predicate the code passes (it accepts comments and
 blank lines, the opposite of what the assembler needs) and `InstructionKeep`
 is the evidently intended one. Every property below holds for any filter.
 */
module Source {
  import opened Strings

  /** `isComment`: the (trimmed) line opens with `//`. A `//` later in the line does not make
      it a comment line. */
  predicate IsComment(line: string): (r: bool)
    ensures r <==> |line| >= 2 && line[0] == '/' && line[1] == '/'
  {
    StartsWith(line, "//")
  }

  /** `isEmptyLine`: blank or empty. The `isEmpty` half adds nothing, since the empty line is
      already blank: the test is whitespace only. */
  predicate IsEmptyLine(line: string): (r: bool)
    ensures r <==> forall i :: 0 <= i < |line| ==> IsWhitespace(line[i])
    ensures |line| == 0 ==> r
  {
    IsBlank(line) || |line| == 0
  }

  /** The filter as written: keeps a line when it is a comment or empty. */
  predicate SourceKeep(line: string) {
    IsComment(line) || IsEmptyLine(line)
  }

  /** The intended filter: keeps a line when it is neither a comment nor empty. */
  predicate InstructionKeep(line: string) {
    !IsComment(line) && !IsEmptyLine(line)
  }

  /** `a` is `b` with some of its elements removed, the rest kept in order. */
  predicate IsSubsequence(a: seq<string>, b: seq<string>)
    decreases |b|
  {
    |a| == 0 || (|b| > 0 && ((a[0] == b[0] && IsSubsequence(a[1..], b[1..])) || IsSubsequence(a, b[1..])))
  }

  function TrimAll(lines: seq<string>): (r: seq<string>)
    ensures |r| == |lines|
    ensures forall i :: 0 <= i < |lines| ==> r[i] == Trim(lines[i])
  {
    if |lines| == 0 then []
    else
      var rest := TrimAll(lines[1..]);
      MapCons(lines, rest, Trim);
      [Trim(lines[0])] + rest
  }

  /** Prepending `f(xs[0])` to the image of `xs[1..]` gives the image of `xs`. */
  lemma MapCons<T, U>(xs: seq<T>, rest: seq<U>, f: T -> U)
    requires |xs| > 0 && |rest| == |xs| - 1
    requires forall i :: 0 <= i < |rest| ==> rest[i] == f(xs[1..][i])
    ensures forall i :: 0 <= i < |xs| ==> ([f(xs[0])] + rest)[i] == f(xs[i])
  {
    forall i | 0 <= i < |xs|
      ensures ([f(xs[0])] + rest)[i] == f(xs[i])
    {
      if i > 0 { assert xs[1..][i - 1] == xs[i]; }
    }
  }

  /** The constructor's pipeline `lines().map(String::trim).filter(keep)`: the trimmed lines
      that `keep` accepts, in their original order. */
  function Normalise(lines: seq<string>, keep: string -> bool): (r: seq<string>)
    ensures |r| <= |lines|
    ensures forall i :: 0 <= i < |r| ==> keep(r[i]) && IsTrimmed(r[i])
    ensures IsSubsequence(r, TrimAll(lines))
  {
    if |lines| == 0 then []
    else
      var t := Trim(lines[0]);
      var rest := Normalise(lines[1..], keep);
      TrimAllTail(lines);
      if keep(t) then
        SubsequenceCons(t, rest, TrimAll(lines));
        [t] + rest
      else
        SubsequenceSkip(rest, TrimAll(lines));
        rest
  }

  /** Matching the first element extends a subsequence. */
  lemma SubsequenceCons(x: string, a: seq<string>, b: seq<string>)
    requires |b| > 0 && b[0] == x && IsSubsequence(a, b[1..])
    ensures IsSubsequence([x] + a, b)
  {
    assert ([x] + a)[1..] == a;
  }

  /** Skipping the first element keeps a subsequence. */
  lemma SubsequenceSkip(a: seq<string>, b: seq<string>)
    requires |b| > 0 && IsSubsequence(a, b[1..])
    ensures IsSubsequence(a, b)
  {
  }

  /** Trimming every line but the first is the tail of trimming every line. */
  lemma TrimAllTail(lines: seq<string>)
    requires |lines| > 0
    ensures TrimAll(lines)[0] == Trim(lines[0]) && TrimAll(lines)[1..] == TrimAll(lines[1..])
  {
  }

  /** Every surviving line is a fixpoint of `trim`. */
  lemma NormalisedLinesAreTrimmed(lines: seq<string>, keep: string -> bool)
    ensures forall i :: 0 <= i < |Normalise(lines, keep)| ==>
      Trim(Normalise(lines, keep)[i]) == Normalise(lines, keep)[i]
  {
    var r := Normalise(lines, keep);
    forall i | 0 <= i < |r| ensures Trim(r[i]) == r[i] {
      TrimFixesTrimmed(r[i]);
    }
  }

  /** Nothing the filter accepts is lost: every accepted trimmed line occurs in the output. */
  lemma {:induction false} NormaliseKeepsAccepted(lines: seq<string>, keep: string -> bool)
    ensures forall i :: 0 <= i < |lines| && keep(Trim(lines[i])) ==> Trim(lines[i]) in Normalise(lines, keep)
  {
    if |lines| > 0 {
      var t := Trim(lines[0]);
      var rest := Normalise(lines[1..], keep);
      assert Normalise(lines, keep) == if keep(t) then [t] + rest else rest;
      NormaliseKeepsAccepted(lines[1..], keep);
      forall i | 0 <= i < |lines| && keep(Trim(lines[i])) ensures Trim(lines[i]) in Normalise(lines, keep) {
        if i > 0 {
          assert lines[1..][i - 1] == lines[i];
          assert Trim(lines[i]) in rest;
        }
      }
    }
  }

  /** Normalisation works line by line: normalising two blocks of lines one after the other
      gives the concatenation of their normal forms, so relative order is preserved. */
  lemma {:induction false} NormaliseAppend(a: seq<string>, b: seq<string>, keep: string -> bool)
    ensures Normalise(a + b, keep) == Normalise(a, keep) + Normalise(b, keep)
  {
    if |a| == 0 {
      assert a + b == b;
    } else {
      var ab := a + b;
      assert ab[0] == a[0] && ab[1..] == a[1..] + b;
      NormaliseAppend(a[1..], b, keep);
      NormaliseStep(ab, keep);
      NormaliseStep(a, keep);
      var head := if keep(Trim(a[0])) then [Trim(a[0])] else [];
      ConcatAssociative(head, Normalise(a[1..], keep), Normalise(b, keep));
    }
  }

  /** One line of normalisation: the first line, trimmed, if the filter accepts it. */
  lemma NormaliseStep(lines: seq<string>, keep: string -> bool)
    requires |lines| > 0
    ensures Normalise(lines, keep)
      == (if keep(Trim(lines[0])) then [Trim(lines[0])] else []) + Normalise(lines[1..], keep)
  {
  }

  /** With the filter as written every surviving line is a comment or blank: no line that could
      be an instruction survives. */
  lemma SourceFilterDropsInstructions(lines: seq<string>)
    ensures forall i :: 0 <= i < |Normalise(lines, SourceKeep)| ==>
      var line := Normalise(lines, SourceKeep)[i]; IsComment(line) || IsEmptyLine(line)
  {
  }

  /** A filter that rejects every trimmed line leaves nothing. */
  lemma {:induction false} NormaliseRejectingAll(lines: seq<string>, keep: string -> bool)
    requires forall i :: 0 <= i < |lines| ==> !keep(Trim(lines[i]))
    ensures Normalise(lines, keep) == []
  {
    if |lines| > 0 {
      assert forall i :: 0 <= i < |lines| - 1 ==> lines[1..][i] == lines[i + 1];
      NormaliseRejectingAll(lines[1..], keep);
    }
  }

  /** A trimmed line that starts with a character other than `/` and whitespace is neither a
      comment nor blank, so the filter as written drops it. */
  lemma SourceFilterDropsLine(line: string)
    requires |line| > 0 && IsTrimmed(line) && line[0] != '/' && !IsWhitespace(line[0])
    ensures Trim(line) == line && !SourceKeep(line)
  {
    TrimFixesTrimmed(line);
    assert !IsComment(line);
    assert !IsEmptyLine(line) by { assert !IsWhitespace(line[0]); }
  }

  /** A program of trimmed instruction lines (none starts with `/` or whitespace), such as
      `@2`, `(LOOP)`, `D=A`, normalises to nothing under the filter as written. */
  lemma SourceFilterDropsProgram(lines: seq<string>)
    requires forall i :: 0 <= i < |lines| ==>
      |lines[i]| > 0 && IsTrimmed(lines[i]) && lines[i][0] != '/' && !IsWhitespace(lines[i][0])
    ensures Normalise(lines, SourceKeep) == []
  {
    forall i | 0 <= i < |lines| ensures !SourceKeep(Trim(lines[i])) {
      SourceFilterDropsLine(lines[i]);
    }
    NormaliseRejectingAll(lines, SourceKeep);
  }

  /** A filter that accepts every line, on lines that `trim` leaves alone, keeps the program as
      it is. */
  lemma {:induction false} NormaliseAcceptingAll(lines: seq<string>, keep: string -> bool)
    requires forall i :: 0 <= i < |lines| ==> Trim(lines[i]) == lines[i] && keep(lines[i])
    ensures Normalise(lines, keep) == lines
  {
    if |lines| > 0 {
      var rest := lines[1..];
      forall i | 0 <= i < |rest| ensures Trim(rest[i]) == rest[i] && keep(rest[i]) {
        assert rest[i] == lines[i + 1];
      }
      NormaliseAcceptingAll(rest, keep);
      NormaliseStep(lines, keep);
      assert Trim(lines[0]) == lines[0] && keep(lines[0]);
      assert lines == [lines[0]] + rest;
    }
  }

  /** A trimmed line that starts with a character other than `/` and whitespace is neither a
      comment nor blank, so the intended filter keeps it. */
  lemma InstructionFilterKeepsLine(line: string)
    requires |line| > 0 && IsTrimmed(line) && line[0] != '/' && !IsWhitespace(line[0])
    ensures Trim(line) == line && InstructionKeep(line)
  {
    TrimFixesTrimmed(line);
    assert !IsComment(line);
    assert !IsEmptyLine(line) by { assert !IsWhitespace(line[0]); }
  }

  /** A program of trimmed instruction lines passes the intended filter unchanged. */
  lemma InstructionFilterKeepsProgram(lines: seq<string>)
    requires forall i :: 0 <= i < |lines| ==>
      |lines[i]| > 0 && IsTrimmed(lines[i]) && lines[i][0] != '/' && !IsWhitespace(lines[i][0])
    ensures Normalise(lines, InstructionKeep) == lines
  {
    forall i | 0 <= i < |lines| ensures Trim(lines[i]) == lines[i] && InstructionKeep(lines[i]) {
      InstructionFilterKeepsLine(lines[i]);
    }
    NormaliseAcceptingAll(lines, InstructionKeep);
  }

  /** With the intended filter the surviving lines are exactly the instruction lines: none is a
      comment or blank, and every trimmed line that is neither survives. */
  lemma InstructionFilterKeepsInstructions(lines: seq<string>)
    ensures forall i :: 0 <= i < |Normalise(lines, InstructionKeep)| ==>
      var line := Normalise(lines, InstructionKeep)[i]; !IsComment(line) && !IsEmptyLine(line) && |line| > 0
    ensures forall i :: 0 <= i < |lines| && !IsComment(Trim(lines[i])) && !IsEmptyLine(Trim(lines[i])) ==>
      Trim(lines[i]) in Normalise(lines, InstructionKeep)
  {
    NormaliseKeepsAccepted(lines, InstructionKeep);
  }
}
