/** The batch rename (BatchRename.py, `rename_all`) as functions over values:
    the duplicate pre-check over the trimmed candidates, then one step per row
    of the list, in list order, against the folder as the earlier steps left
    it. The folder is the set of names in the directory of the rows. */
module Batch {
  import opened PyStr
  import opened Validator
  import opened Scanner
  import opened Rows
  import opened SeqFacts

  // ---------------------------------------------------------------------------
  // The folder
  // ---------------------------------------------------------------------------

  /** `os.path.exists` for a name in the folder: "." and ".." always exist. */
  predicate PathExists(names: set<string>, name: string) {
    name in names || name == "." || name == ".."
  }

  /** Whether `os.rename(from, to)` in the folder returns normally: the source
      must exist and the environment must not refuse the pair (permissions, a
      lock, a name the file system rejects). */
  predicate RenameSucceeds(names: set<string>, refused: set<(string, string)>, from: string, to: string) {
    from in names && (from, to) !in refused
  }

  // ---------------------------------------------------------------------------
  // One row
  // ---------------------------------------------------------------------------

  /** The name a row is renamed to: its trimmed candidate followed by the
      extension of its current file name. */
  function Target(e: Entry): string {
    Strip(e.candidate) + SplitExt(e.filename).1
  }

  /** The three silent skips: an empty candidate, a forbidden character in it,
      or a target equal to the current name. None depends on the folder. */
  predicate Skips(e: Entry) {
    var base := Strip(e.candidate);
    base == [] || AnyInvalid(base) || Target(e) == e.filename
  }

  datatype Outcome = Skipped | Renamed | AlreadyExists | IoError

  datatype StepResult = StepResult(entry: Entry, names: set<string>, outcome: Outcome)

  /** The body of the loop of `rename_all` for one row. */
  function Step(e: Entry, names: set<string>, refused: set<(string, string)>): StepResult {
    var target := Target(e);
    if Skips(e) then
      StepResult(e, names, Skipped)
    else if PathExists(names, target) then
      StepResult(e.(status := FileExists), names, AlreadyExists)
    else if !RenameSucceeds(names, refused, e.fullPath.name, target) then
      StepResult(e.(status := Error), names, IoError)
    else
      StepResult(e.(fullPath := Path(e.fullPath.dir, target), filename := target, status := Success),
                 names - {e.fullPath.name} + {target}, Renamed)
  }

  /** What one step does. A skipped row causes no file-system call and no
      change. A target that exists counts an error, marks the row "File
      Exists!" and changes nothing else. A refused rename marks the row
      "Error" and changes nothing else. Otherwise the file is renamed within
      its folder, which keeps its number of names, and the row takes the new
      name and "Success". The candidate and the length label never change. */
  lemma StepContract(e: Entry, names: set<string>, refused: set<(string, string)>)
    ensures var r := Step(e, names, refused);
      && r.entry.candidate == e.candidate && r.entry.lenLabel == e.lenLabel
      && r.entry.fullPath.dir == e.fullPath.dir
      && |r.names| == |names|
      && (r.outcome == Skipped <==> Skips(e))
      && (r.outcome == Skipped ==> r.entry == e && r.names == names)
      && (r.outcome == AlreadyExists <==> !Skips(e) && PathExists(names, Target(e)))
      && (r.outcome == AlreadyExists ==> r.entry == e.(status := FileExists))
      && (r.outcome == IoError ==> r.entry == e.(status := Error))
      && (r.outcome != Renamed ==> r.names == names)
      && (r.outcome == Renamed <==>
            !Skips(e) && !PathExists(names, Target(e)) && RenameSucceeds(names, refused, e.fullPath.name, Target(e)))
      && (r.outcome == Renamed ==>
            && e.fullPath.name in names && Target(e) !in names
            && r.names == names - {e.fullPath.name} + {Target(e)}
            && r.entry == e.(fullPath := Path(e.fullPath.dir, Target(e)), filename := Target(e), status := Success))
  {
    var target, r := Target(e), Step(e, names, refused);
    if Skips(e) {
      assert r == StepResult(e, names, Skipped);
    } else if PathExists(names, target) {
      assert r == StepResult(e.(status := FileExists), names, AlreadyExists);
    } else if !RenameSucceeds(names, refused, e.fullPath.name, target) {
      assert r == StepResult(e.(status := Error), names, IoError);
    } else {
      assert r.outcome == Renamed && r.names == names - {e.fullPath.name} + {target};
      assert |names - {e.fullPath.name}| == |names| - 1;
    }
  }

  /** The extension survives a rename whose base is not made of dots alone. */
  lemma TargetKeepsExtension(e: Entry)
    requires SplitExt(e.filename).1 != [] && !AllDots(Strip(e.candidate))
    ensures SplitExt(Target(e)).1 == SplitExt(e.filename).1
  {
    ExtensionKept(Strip(e.candidate), SplitExt(e.filename).1);
  }

  /** A file whose every dot has only dots before it (".png", "..jpg") has
      no extension by `os.path.splitext`, so it is renamed to its trimmed
      candidate alone: the suffix that made it an image is dropped. */
  lemma LeadingDotNameLosesSuffix(e: Entry)
    requires forall k :: 0 <= k < |e.filename| && e.filename[k] == '.' ==> AllDots(e.filename[..k])
    ensures Target(e) == Strip(e.candidate)
  {
    var d := LastDot(e.filename);
    assert d >= 0 ==> AllDots(e.filename[..d]);
  }

  // ---------------------------------------------------------------------------
  // The loop
  // ---------------------------------------------------------------------------

  /** The rows, the folder and the two counters after the loop. */
  datatype RunState = RunState(entries: seq<Entry>, names: set<string>, count: nat, err: nat)

  /** The loop of `rename_all` over `es`, in order, starting from the folder
      `names`; a failing row does not stop the rows after it. */
  function Run(es: seq<Entry>, names: set<string>, refused: set<(string, string)>): (r: RunState)
    ensures |r.entries| == |es|
  {
    if es == [] then RunState([], names, 0, 0)
    else
      var prev := Run(es[..|es| - 1], names, refused);
      var s := Step(es[|es| - 1], prev.names, refused);
      RunState(prev.entries + [s.entry], s.names,
               prev.count + (if s.outcome == Renamed then 1 else 0),
               prev.err + (if s.outcome == AlreadyExists || s.outcome == IoError then 1 else 0))
  }

  /** Each row ends up as one step makes it, run against the folder left by
      the rows before it, whatever happened to those. */
  lemma {:induction false} RunAt(es: seq<Entry>, names: set<string>, refused: set<(string, string)>, i: nat)
    requires i < |es|
    ensures Run(es, names, refused).entries[i] == Step(es[i], Run(es[..i], names, refused).names, refused).entry
    decreases |es|
  {
    var init := es[..|es| - 1];
    if i == |es| - 1 {
      assert es[..i] == init;
    } else {
      RunAt(init, names, refused, i);
      assert init[..i] == es[..i];
      assert init[i] == es[i];
    }
  }

  /** The loop over the first i + 1 rows is the loop over the first i rows
      followed by one step on row i. */
  lemma RunPrefixStep(es: seq<Entry>, names: set<string>, refused: set<(string, string)>, i: nat)
    requires i < |es|
    ensures var prev := Run(es[..i], names, refused);
            var s := Step(es[i], prev.names, refused);
            Run(es[..i + 1], names, refused)
              == RunState(prev.entries + [s.entry], s.names,
                          prev.count + (if s.outcome == Renamed then 1 else 0),
                          prev.err + (if s.outcome == AlreadyExists || s.outcome == IoError then 1 else 0))
  {
    assert es[..i + 1][..i] == es[..i];
    assert es[..i + 1][i] == es[i];
  }

  /** The state of the loop after its first `i` rows: those rows, the folder
      and the counters are what `Run` gives for them, the other rows are
      untouched. */
  ghost predicate Progress(orig: seq<Entry>, names0: set<string>, refused: set<(string, string)>, i: nat,
                           list: seq<Entry>, names: set<string>, count: nat, err: nat)
  {
    && i <= |orig| && |list| == |orig|
    && list[i..] == orig[i..]
    && var r := Run(orig[..i], names0, refused);
       list[..i] == r.entries && names == r.names && count == r.count && err == r.err
  }

  lemma ProgressStart(orig: seq<Entry>, names0: set<string>, refused: set<(string, string)>)
    ensures Progress(orig, names0, refused, 0, orig, names0, 0, 0)
  {
    assert orig[..0] == [];
  }

  /** One step on row `i` of the list, against the current folder, advances
      the loop state. */
  lemma ProgressStep(orig: seq<Entry>, names0: set<string>, refused: set<(string, string)>, i: nat,
                     list: seq<Entry>, names: set<string>, count: nat, err: nat)
    requires Progress(orig, names0, refused, i, list, names, count, err) && i < |orig|
    ensures list[i] == orig[i]
    ensures var s := Step(list[i], names, refused);
            Progress(orig, names0, refused, i + 1, list[i := s.entry], s.names,
                     count + (if s.outcome == Renamed then 1 else 0),
                     err + (if s.outcome == AlreadyExists || s.outcome == IoError then 1 else 0))
  {
    assert list[i] == list[i..][0] == orig[i..][0] == orig[i];
    RunPrefixStep(orig, names0, refused, i);
    var s := Step(list[i], names, refused);
    var list' := list[i := s.entry];
    assert list'[..i + 1] == list[..i] + [s.entry];
    assert list'[i + 1..] == list[i + 1..] == orig[i + 1..];
  }

  lemma ProgressDone(orig: seq<Entry>, names0: set<string>, refused: set<(string, string)>,
                     list: seq<Entry>, names: set<string>, count: nat, err: nat)
    requires Progress(orig, names0, refused, |orig|, list, names, count, err)
    ensures var r := Run(orig, names0, refused);
            list == r.entries && names == r.names && count == r.count && err == r.err
  {
    assert orig[..|orig|] == orig;
    assert list[..|orig|] == list;
  }

  /** A row that is skipped comes out of the loop exactly as it went in. */
  lemma RunLeavesSkipped(es: seq<Entry>, names: set<string>, refused: set<(string, string)>, i: nat)
    requires i < |es| && Skips(es[i])
    ensures Run(es, names, refused).entries[i] == es[i]
  {
    RunAt(es, names, refused, i);
    StepContract(es[i], Run(es[..i], names, refused).names, refused);
  }

  /** The loop never writes a candidate field or a length label, and every
      row stays in its folder; its status is a rename's status or unchanged. */
  lemma RunKeepsFields(es: seq<Entry>, names: set<string>, refused: set<(string, string)>, i: nat)
    requires i < |es|
    ensures var e := Run(es, names, refused).entries[i];
              && e.candidate == es[i].candidate && e.lenLabel == es[i].lenLabel
              && e.fullPath.dir == es[i].fullPath.dir
              && (e.status == es[i].status || e.status in {FileExists, Error, Success})
  {
    RunAt(es, names, refused, i);
    StepContract(es[i], Run(es[..i], names, refused).names, refused);
  }

  /** A row whose name changed was renamed to its target and reads "Success". */
  lemma RunRenamedRow(es: seq<Entry>, names: set<string>, refused: set<(string, string)>, i: nat)
    requires i < |es|
    requires Run(es, names, refused).entries[i].filename != es[i].filename
    ensures var e := Run(es, names, refused).entries[i];
              && e.filename == Target(es[i]) && e.fullPath == Path(es[i].fullPath.dir, Target(es[i]))
              && e.status == Success && !Skips(es[i])
  {
    RunAt(es, names, refused, i);
    StepContract(es[i], Run(es[..i], names, refused).names, refused);
  }

  /** Renames never overwrite: the folder ends with as many names as it had. */
  lemma {:induction false} RunKeepsFileCount(es: seq<Entry>, names: set<string>, refused: set<(string, string)>)
    ensures |Run(es, names, refused).names| == |names|
  {
    if es != [] {
      RunKeepsFileCount(es[..|es| - 1], names, refused);
      StepContract(es[|es| - 1], Run(es[..|es| - 1], names, refused).names, refused);
    }
  }

  /** When nothing was renamed, the folder is as it was. */
  lemma {:induction false} RunWithoutRenameKeepsFolder(es: seq<Entry>, names: set<string>, refused: set<(string, string)>)
    requires Run(es, names, refused).count == 0
    ensures Run(es, names, refused).names == names
  {
    if es != [] {
      RunWithoutRenameKeepsFolder(es[..|es| - 1], names, refused);
      StepContract(es[|es| - 1], Run(es[..|es| - 1], names, refused).names, refused);
    }
  }

  /** Every name the loop adds to the folder is the final name of a row that
      reads "Success". */
  lemma {:induction false} RunNewNamesAreTargets(es: seq<Entry>, names: set<string>, refused: set<(string, string)>, x: string)
    requires x in Run(es, names, refused).names && x !in names
    ensures exists i :: 0 <= i < |es| && Run(es, names, refused).entries[i].filename == x
                        && Run(es, names, refused).entries[i].status == Success
  {
    var r := Run(es, names, refused);
    var init := es[..|es| - 1];
    var prev := Run(init, names, refused);
    if x in prev.names {
      RunNewNamesAreTargets(init, names, refused, x);
      var i :| 0 <= i < |init| && prev.entries[i].filename == x && prev.entries[i].status == Success;
      assert r.entries[i] == prev.entries[i];
    } else {
      StepContract(es[|es| - 1], prev.names, refused);
      assert r.entries[|es| - 1] == Step(es[|es| - 1], prev.names, refused).entry;
    }
  }

  // ---------------------------------------------------------------------------
  // Counting
  // ---------------------------------------------------------------------------

  /** `[i["new_name_var"].get().strip() for i in self.image_list if ...]`:
      the trimmed non-empty candidates, in list order. */
  function Inputs(es: seq<Entry>): (r: seq<string>)
    ensures |r| <= |es|
  {
    if es == [] then []
    else
      var base := Strip(es[|es| - 1].candidate);
      Inputs(es[..|es| - 1]) + (if base != [] then [base] else [])
  }

  /** The number of rows that reach the file system. */
  function Attempted(es: seq<Entry>): nat {
    if es == [] then 0
    else Attempted(es[..|es| - 1]) + (if Skips(es[|es| - 1]) then 0 else 1)
  }

  /** Every row that is not skipped ends as a success or as an error, so the
      two counters add up to the rows that reach the file system, which are at
      most the rows with a non-empty trimmed candidate. */
  lemma {:induction false} RunTotals(es: seq<Entry>, names: set<string>, refused: set<(string, string)>)
    ensures Run(es, names, refused).count + Run(es, names, refused).err == Attempted(es)
    ensures Attempted(es) <= |Inputs(es)|
  {
    if es != [] {
      RunTotals(es[..|es| - 1], names, refused);
      StepContract(es[|es| - 1], Run(es[..|es| - 1], names, refused).names, refused);
    }
  }

  // ---------------------------------------------------------------------------
  // The duplicate pre-check
  // ---------------------------------------------------------------------------

  /** `set(inputs)`. */
  function Elems(s: seq<string>): set<string> {
    set x | x in s
  }

  ghost predicate HasRepeat(s: seq<string>) {
    exists i, j :: 0 <= i < j < |s| && s[i] == s[j]
  }

  /** The trimmed candidate of every row, in list order. */
  function Bases(es: seq<Entry>): (r: seq<string>)
    ensures |r| == |es|
  {
    seq(|es|, i requires 0 <= i < |es| => Strip(es[i].candidate))
  }

  /** Some non-empty value occurs twice. */
  ghost predicate Shared(bs: seq<string>) {
    exists i, j :: 0 <= i < j < |bs| && bs[i] != [] && bs[i] == bs[j]
  }

  /** Two rows carry the same non-empty trimmed candidate, whatever their file
      names, extensions or characters. */
  ghost predicate SharedCandidate(es: seq<Entry>) {
    Shared(Bases(es))
  }

  lemma HasRepeatSnoc(s: seq<string>, x: string)
    ensures HasRepeat(s + [x]) <==> HasRepeat(s) || x in s
  {
    var t := s + [x];
    if HasRepeat(t) && !HasRepeat(s) {
      var i, j :| 0 <= i < j < |t| && t[i] == t[j];
      assert j == |s| && t[i] == s[i];
    }
    if x in s {
      var i :| 0 <= i < |s| && s[i] == x;
      assert t[i] == t[|s|];
    }
    if HasRepeat(s) {
      var i, j :| 0 <= i < j < |s| && s[i] == s[j];
      assert t[i] == t[j];
    }
  }

  lemma SharedSnoc(s: seq<string>, x: string)
    ensures Shared(s + [x]) <==> Shared(s) || (x != [] && x in s)
  {
    var t := s + [x];
    if Shared(t) && !Shared(s) {
      var i, j :| 0 <= i < j < |t| && t[i] != [] && t[i] == t[j];
      assert j == |s| && t[i] == s[i];
    }
    if x != [] && x in s {
      var i :| 0 <= i < |s| && s[i] == x;
      assert t[i] == t[|s|];
    }
    if Shared(s) {
      var i, j :| 0 <= i < j < |s| && s[i] != [] && s[i] == s[j];
      assert t[i] == t[j];
    }
  }

  /** `len(inputs) != len(set(inputs))` holds exactly when a value repeats. */
  lemma {:induction false} ElemsCount(s: seq<string>)
    ensures |Elems(s)| <= |s|
    ensures |Elems(s)| == |s| <==> !HasRepeat(s)
  {
    if s != [] {
      var init, x := s[..|s| - 1], s[|s| - 1];
      assert s == init + [x];
      ElemsCount(init);
      HasRepeatSnoc(init, x);
      assert Elems(s) == Elems(init) + {x};
      if x in init {
        assert Elems(s) == Elems(init);
      }
    }
  }

  lemma BasesSnoc(es: seq<Entry>)
    requires es != []
    ensures Bases(es) == Bases(es[..|es| - 1]) + [Strip(es[|es| - 1].candidate)]
  {
    var init := es[..|es| - 1];
    var b, c := Bases(es), Bases(init) + [Strip(es[|es| - 1].candidate)];
    forall k | 0 <= k < |es| ensures b[k] == c[k] {
      if k < |init| {
        assert init[k] == es[k];
      }
    }
  }

  /** The inputs are the non-empty bases. */
  lemma {:induction false} InputsMember(es: seq<Entry>, x: string)
    ensures x in Inputs(es) <==> x != [] && x in Bases(es)
  {
    if es != [] {
      InputsMember(es[..|es| - 1], x);
      BasesSnoc(es);
    }
  }

  lemma {:induction false} InputsRepeat(es: seq<Entry>)
    ensures HasRepeat(Inputs(es)) <==> SharedCandidate(es)
  {
    if es != [] {
      var init, b := es[..|es| - 1], Strip(es[|es| - 1].candidate);
      InputsRepeat(init);
      BasesSnoc(es);
      SharedSnoc(Bases(init), b);
      InputsMember(init, b);
      if b != [] {
        HasRepeatSnoc(Inputs(init), b);
      } else {
        assert Inputs(es) == Inputs(init);
      }
    }
  }

  /** The pre-check of `rename_all` fires exactly when two rows share a
      trimmed non-empty candidate, whatever their extensions and even when the
      candidate holds a forbidden character. */
  lemma DuplicateCheck(es: seq<Entry>)
    ensures |Inputs(es)| != |Elems(Inputs(es))| <==> SharedCandidate(es)
  {
    ElemsCount(Inputs(es));
    InputsRepeat(es);
  }

  // ---------------------------------------------------------------------------
  // Across operations
  // ---------------------------------------------------------------------------

  /** A second rename with the same inputs leaves a renamed row alone: its
      new name already is its target, as long as the file had an extension
      and the candidate is not made of dots alone. */
  lemma RenamedRowSkippedNextTime(es: seq<Entry>, names: set<string>, refused: set<(string, string)>, i: nat)
    requires i < |es|
    requires Run(es, names, refused).entries[i].filename != es[i].filename
    requires SplitExt(es[i].filename).1 != [] && !AllDots(Strip(es[i].candidate))
    ensures Skips(Run(es, names, refused).entries[i])
  {
    RunRenamedRow(es, names, refused, i);
    RunKeepsFields(es, names, refused, i);
    TargetKeepsExtension(es[i]);
  }

  /** Rows whose candidates are all blank give no inputs. */
  lemma {:induction false} InputsWithoutCandidates(es: seq<Entry>)
    requires forall i :: 0 <= i < |es| ==> Strip(es[i].candidate) == []
    ensures Inputs(es) == []
  {
    if es != [] {
      var init := es[..|es| - 1];
      assert forall i :: 0 <= i < |init| ==> init[i] == es[i];
      InputsWithoutCandidates(init);
    }
  }

  lemma StepBlank(e: Entry, names: set<string>, refused: set<(string, string)>)
    requires Strip(e.candidate) == []
    ensures Step(e, names, refused) == StepResult(e, names, Skipped)
  {
  }

  /** The loop skips every row whose candidate is blank. */
  lemma {:induction false} RunWithoutCandidates(es: seq<Entry>, names: set<string>, refused: set<(string, string)>)
    requires forall i :: 0 <= i < |es| ==> Strip(es[i].candidate) == []
    ensures Run(es, names, refused) == RunState(es, names, 0, 0)
  {
    if es != [] {
      var init, last := es[..|es| - 1], es[|es| - 1];
      forall i | 0 <= i < |init| ensures Strip(init[i].candidate) == [] {
        assert init[i] == es[i];
      }
      RunWithoutCandidates(init, names, refused);
      StepBlank(last, names, refused);
      SnocSplit(es);
    }
  }

  /** After `clear_inputs` a rename passes the pre-check, skips every row and
      renames nothing. */
  lemma RenameAfterClear(es: seq<Entry>, names: set<string>, refused: set<(string, string)>)
    ensures Inputs(Cleared(es)) == []
    ensures Run(Cleared(es), names, refused) == RunState(Cleared(es), names, 0, 0)
  {
    InputsWithoutCandidates(Cleared(es));
    RunWithoutCandidates(Cleared(es), names, refused);
  }

  /** After a paste that reaches every row, each row's trimmed candidate is
      its pasted line. */
  lemma PastedBases(es: seq<Entry>, text: string)
    requires |PasteLines(text)| >= |es|
    ensures Bases(Pasted(es, PasteLines(text))) == PasteLines(text)[..|es|]
  {
    var lines := PasteLines(text);
    CleanLinesFrom(SplitLines(text));
    forall i | 0 <= i < |es| ensures Strip(lines[i]) == lines[i] {
      assert lines[i] in lines;
      var l :| l in SplitLines(text) && lines[i] == Strip(l);
      StripIdempotent(l);
    }
  }

  /** After such a paste the duplicate warning fires exactly when two of the
      first pasted lines (as many as there are rows) are equal. */
  lemma PasteDuplicateCheck(es: seq<Entry>, text: string)
    requires |PasteLines(text)| >= |es|
    ensures SharedCandidate(Pasted(es, PasteLines(text))) <==> HasRepeat(PasteLines(text)[..|es|])
  {
    PastedBases(es, text);
    var s := PasteLines(text)[..|es|];
    assert forall i :: 0 <= i < |s| ==> s[i] != [];
  }
}
