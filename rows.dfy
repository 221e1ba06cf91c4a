/** The rows of the list (the dicts of `image_list`) and the text that reaches
    their "new name" fields: `create_row`, the trace that runs `on_change`
    whenever a field is written, and the lines of a clipboard paste
    (BatchRename.py, `create_row`, `paste_names`). */
module Rows {
  import opened PyStr
  import opened Validator
  import opened Scanner
  import opened SeqFacts

  /** The status label: "", "Invalid Char!", "File Exists!", "Success", "Error". */
  datatype Status = Blank | InvalidChar | FileExists | Success | Error

  /** One dict of `image_list`: its `full_path` and `filename`, the text of its
      `new_name_var`, and the two labels the row shows beside it. */
  datatype Entry = Entry(fullPath: Path, filename: string, candidate: string, lenLabel: nat, status: Status)

  /** `create_row`: an empty field, a counter at 0 and a blank status. */
  function NewRow(r: Record): Entry {
    Entry(r.fullPath, r.filename, "", 0, Blank)
  }

  /** The rows `create_row` appends for a list of records, in order. */
  function NewRows(rs: seq<Record>): (es: seq<Entry>)
    ensures |es| == |rs|
    ensures forall i :: 0 <= i < |rs| ==>
              && es[i].fullPath == rs[i].fullPath && es[i].filename == rs[i].filename
              && es[i].candidate == [] && es[i].lenLabel == 0 && es[i].status == Blank
  {
    seq(|rs|, i requires 0 <= i < |rs| => NewRow(rs[i]))
  }

  lemma NewRowsSnoc(rs: seq<Record>, r: Record)
    ensures NewRows(rs + [r]) == NewRows(rs) + [NewRow(r)]
  {
  }

  /** Writing `text` into a row's field (`new_name_var.set(text)` or typing):
      the trace on the variable runs `on_change`, which sets the counter and
      sets or clears the "Invalid Char!" status. Nothing else changes. */
  function Edited(e: Entry, text: string): (e': Entry)
    ensures e'.fullPath == e.fullPath && e'.filename == e.filename
    ensures e'.candidate == text && e'.lenLabel == |text|
    ensures e'.status == InvalidChar <==> exists k :: 0 <= k < |text| && text[k] in Forbidden
    ensures e'.status == InvalidChar || e'.status == Blank
  {
    var f := OnChange(text);
    e.(candidate := text, lenLabel := f.length, status := if f.invalid then InvalidChar else Blank)
  }

  /** A non-blank text with no whitespace at either end. */
  predicate Trimmed(x: string) {
    x != [] && !IsSpace(x[0]) && !IsSpace(x[|x| - 1])
  }

  /** `[l.strip() for l in lines if l.strip()]`: every kept line is non-blank
      and has no surrounding whitespace. */
  function CleanLines(lines: seq<string>): (r: seq<string>)
    ensures |r| <= |lines|
  {
    if lines == [] then []
    else (if Strip(lines[0]) != [] then [Strip(lines[0])] else []) + CleanLines(lines[1..])
  }

  /** Every kept line is the non-blank stripped form of one of the input
      lines. */
  lemma {:induction false} CleanLinesFrom(lines: seq<string>)
    ensures forall x :: x in CleanLines(lines) ==> x != [] && exists l :: l in lines && x == Strip(l)
  {
    if lines != [] {
      CleanLinesFrom(lines[1..]);
      var head := if Strip(lines[0]) != [] then [Strip(lines[0])] else [];
      assert CleanLines(lines) == head + CleanLines(lines[1..]);
      forall x | x in CleanLines(lines) ensures x != [] && exists l :: l in lines && x == Strip(l) {
        if x in head {
          assert lines[0] in lines;
        } else {
          var l :| l in lines[1..] && x == Strip(l);
          assert l in lines;
        }
      }
    }
  }

  /** Every kept line is non-blank with no whitespace at either end. */
  lemma CleanLinesTrimmed(lines: seq<string>)
    ensures forall i :: 0 <= i < |CleanLines(lines)| ==> Trimmed(CleanLines(lines)[i])
  {
    var r := CleanLines(lines);
    CleanLinesFrom(lines);
    forall i | 0 <= i < |r| ensures Trimmed(r[i]) {
      assert r[i] in r;
      var l :| l in lines && r[i] == Strip(l);
    }
  }

  /** Cleaning keeps the order of the lines: it works line by line. */
  lemma {:induction false} CleanLinesAppend(a: seq<string>, b: seq<string>)
    ensures CleanLines(a + b) == CleanLines(a) + CleanLines(b)
  {
    if a == [] {
      assert a + b == b;
    } else {
      var h := if Strip(a[0]) != [] then [Strip(a[0])] else [];
      calc {
        CleanLines(a + b);
      == { TailAppend(a, b); }
        h + CleanLines(a[1..] + b);
      == { CleanLinesAppend(a[1..], b); }
        h + (CleanLines(a[1..]) + CleanLines(b));
      ==
        (h + CleanLines(a[1..])) + CleanLines(b);
      }
    }
  }

  /** A line keeps its place exactly when it is not blank. */
  lemma CleanLine(l: string)
    ensures CleanLines([l]) == if Strip(l) == [] then [] else [Strip(l)]
  {
    assert [l][1..] == [];
  }

  /** Stripping a line without line boundaries leaves none. */
  lemma StripKeepsNoBreaks(l: string)
    requires forall k :: 0 <= k < |l| ==> !IsLineBreak(l[k])
    ensures forall k :: 0 <= k < |Strip(l)| ==> !IsLineBreak(Strip(l)[k])
  {
    StripChars(l);
  }

  /** The names a paste distributes: the non-blank lines of the clipboard
      text, stripped, in order. */
  function PasteLines(text: string): (r: seq<string>)
    ensures forall i :: 0 <= i < |r| ==> Trimmed(r[i])
  {
    CleanLinesTrimmed(SplitLines(text));
    CleanLines(SplitLines(text))
  }

  /** A kept line of text whose lines have no boundary has none either. */
  lemma CleanLineNoBreaks(lines: seq<string>, x: string)
    requires forall j, k :: 0 <= j < |lines| && 0 <= k < |lines[j]| ==> !IsLineBreak(lines[j][k])
    requires x in CleanLines(lines)
    ensures forall k :: 0 <= k < |x| ==> !IsLineBreak(x[k])
  {
    CleanLinesFrom(lines);
    var l :| l in lines && x == Strip(l);
    var j :| 0 <= j < |lines| && lines[j] == l;
    StripKeepsNoBreaks(l);
  }

  /** No pasted name spans a line boundary. */
  lemma PasteLinesNoBreaks(text: string)
    ensures forall i, k :: 0 <= i < |PasteLines(text)| && 0 <= k < |PasteLines(text)[i]| ==>
              !IsLineBreak(PasteLines(text)[i][k])
  {
    var r := PasteLines(text);
    forall i | 0 <= i < |r| ensures forall k :: 0 <= k < |r[i]| ==> !IsLineBreak(r[i][k]) {
      CleanLineNoBreaks(SplitLines(text), r[i]);
    }
  }

  /** The list after a paste of `lines`: row i takes line i when there is one,
      through `on_change`, so its status becomes "Invalid Char!" or blank;
      surplus lines are dropped and the rows past the last line keep their
      text and status. */
  function Pasted(es: seq<Entry>, lines: seq<string>): (r: seq<Entry>)
    ensures |r| == |es|
    ensures forall i :: 0 <= i < |es| ==> r[i].fullPath == es[i].fullPath && r[i].filename == es[i].filename
    ensures forall i :: 0 <= i < |es| && i < |lines| ==> r[i].candidate == lines[i] && r[i].lenLabel == |lines[i]|
    ensures forall i :: 0 <= i < |es| && i < |lines| ==> r[i] == Edited(es[i], lines[i])
    ensures forall i :: |lines| <= i < |es| ==> r[i] == es[i]
  {
    seq(|es|, i requires 0 <= i < |es| => if i < |lines| then Edited(es[i], lines[i]) else es[i])
  }

  /** The list after `clear_inputs`: every field empty, every counter at 0,
      every status blank (a "Success" or "File Exists!" label is wiped too). */
  function Cleared(es: seq<Entry>): (r: seq<Entry>)
    ensures |r| == |es|
    ensures forall i :: 0 <= i < |es| ==>
              && r[i].fullPath == es[i].fullPath && r[i].filename == es[i].filename
              && r[i].candidate == [] && r[i].lenLabel == 0 && r[i].status == Blank
  {
    seq(|es|, i requires 0 <= i < |es| => Edited(es[i], ""))
  }

  /** Clearing wipes whatever a paste wrote. */
  lemma ClearAfterPaste(es: seq<Entry>, lines: seq<string>)
    ensures Cleared(Pasted(es, lines)) == Cleared(es)
  {
    var a, b := Cleared(Pasted(es, lines)), Cleared(es);
    forall i | 0 <= i < |es| ensures a[i] == b[i] {
    }
  }
}
