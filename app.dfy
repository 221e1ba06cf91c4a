/** The application object (BatchRename.py, class `BatchRenameApp`): the list
    of rows it keeps, the buttons that write it, and the folder its renames
    act on. */
module App {
  import opened Options
  import opened PyStr
  import opened Validator
  import opened Scanner
  import opened Rows
  import opened Batch

  /** The directory the rows live in, as far as `rename_all` can observe it:
      the names it holds, and the renames the environment refuses with an
      exception (a locked file, missing permission, a name the file system
      rejects). */
  class Folder {
    var names: set<string>
    const refused: set<(string, string)>

    constructor (names0: set<string>, refused0: set<(string, string)>)
      ensures names == names0 && refused == refused0
    {
      names := names0;
      refused := refused0;
    }

    /** `os.path.exists` on a name in this folder. */
    predicate Exists(name: string)
      reads this
    {
      PathExists(names, name)
    }

    /** `os.rename` within this folder: `ok` is false where Python raises,
        and then the folder is unchanged. */
    method Rename(from: string, to: string) returns (ok: bool)
      modifies this
      ensures ok <==> RenameSucceeds(old(names), refused, from, to)
      ensures ok ==> names == old(names) - {from} + {to}
      ensures !ok ==> names == old(names)
    {
      ok := from in names && (from, to) !in refused;
      if ok {
        names := names - {from} + {to};
      }
    }
  }

  /** The message box `rename_all` ends with: "Renamed: {count}\nErrors: {err}". */
  datatype Summary = Summary(renamed: nat, errors: nat)

  class BatchRenameApp {
    /** `self.image_list`, one entry per row on screen. */
    var imageList: seq<Entry>

    constructor ()
      ensures imageList == []
    {
      imageList := [];
    }

    /** `browse_folder` followed by the loader thread and the queue polling
        that turns its records into rows: a cancelled dialog (an empty folder
        string) changes nothing; otherwise the list is cleared and then holds
        one fresh row per scanned record, in record order. */
    method BrowseFolder(folder: string, listing: Option<seq<string>>)
      modifies this
      ensures folder == [] ==> imageList == old(imageList)
      ensures folder != [] ==> imageList == NewRows(ScanRecords(folder, listing))
    {
      if folder == [] {
        return;
      }
      imageList := [];
      var records := Scan(folder, listing);
      ProcessLoadQueue(records);
    }

    /** `process_load_queue`: one `create_row` per queued record, in queue order. */
    method ProcessLoadQueue(records: seq<Record>)
      modifies this
      ensures imageList == old(imageList) + NewRows(records)
    {
      ghost var start := imageList;
      for k := 0 to |records|
        invariant imageList == start + NewRows(records[..k])
      {
        assert records[..k + 1] == records[..k] + [records[k]];
        NewRowsSnoc(records[..k], records[k]);
        CreateRow(records[k]);
      }
      assert records[..|records|] == records;
    }

    /** `create_row`: appends one fresh row for the record. */
    method CreateRow(r: Record)
      modifies this
      ensures imageList == old(imageList) + [NewRow(r)]
    {
      imageList := imageList + [NewRow(r)];
    }

    /** Typing `text` into the field of row `i`. */
    method Edit(i: nat, text: string)
      requires i < |imageList|
      modifies this
      ensures imageList == old(imageList)[i := Edited(old(imageList)[i], text)]
    {
      imageList := imageList[i := Edited(imageList[i], text)];
    }

    /** `paste_names`: `None` stands for a clipboard that cannot be read
        (the exception is swallowed and nothing changes). */
    method PasteNames(clipboard: Option<string>)
      modifies this
      ensures clipboard.None? ==> imageList == old(imageList)
      ensures clipboard.Some? ==> imageList == Pasted(old(imageList), PasteLines(clipboard.value))
    {
      if clipboard.None? {
        return;
      }
      var lines := PasteLines(clipboard.value);
      ghost var orig := imageList;
      for i := 0 to |lines|
        invariant |imageList| == |orig|
        invariant forall k :: 0 <= k < |orig| ==> imageList[k] == if k < i then Pasted(orig, lines)[k] else orig[k]
      {
        if i < |imageList| {
          imageList := imageList[i := Edited(imageList[i], lines[i])];
        }
      }
      assert imageList == Pasted(orig, lines);
    }

    /** `clear_inputs`. */
    method ClearInputs()
      modifies this
      ensures imageList == Cleared(old(imageList))
    {
      ghost var orig := imageList;
      for i := 0 to |imageList|
        invariant |imageList| == |orig|
        invariant forall k :: 0 <= k < |orig| ==> imageList[k] == if k < i then Cleared(orig)[k] else orig[k]
      {
        imageList := imageList[i := Edited(imageList[i], "")];
      }
      assert imageList == Cleared(orig);
    }

    /** `rename_all`: `None` is the duplicate warning, after which nothing has
        changed; otherwise the rows, the folder and the summary are those of
        the loop run over the list in order. */
    method RenameAll(fs: Folder) returns (result: Option<Summary>)
      modifies this, fs
      ensures var inputs := Inputs(old(imageList));
              if |inputs| != |Elems(inputs)| then
                result.None? && imageList == old(imageList) && fs.names == old(fs.names)
              else
                var r := Run(old(imageList), old(fs.names), fs.refused);
                result == Some(Summary(r.count, r.err)) && imageList == r.entries && fs.names == r.names
    {
      var inputs := Inputs(imageList);
      if |inputs| != |Elems(inputs)| {
        return None;
      }
      var count, err := RenameEach(fs);
      return Some(Summary(count, err));
    }

    /** The loop of `rename_all`, once the pre-check has passed. */
    method RenameEach(fs: Folder) returns (count: nat, err: nat)
      modifies this, fs
      ensures var r := Run(old(imageList), old(fs.names), fs.refused);
              imageList == r.entries && fs.names == r.names && count == r.count && err == r.err
    {
      ghost var orig, names0, refused := imageList, fs.names, fs.refused;
      count, err := 0, 0;
      ProgressStart(orig, names0, refused);
      for i := 0 to |imageList|
        invariant fs.refused == refused
        invariant Progress(orig, names0, refused, i, imageList, fs.names, count, err)
      {
        ProgressStep(orig, names0, refused, i, imageList, fs.names, count, err);
        var outcome := RenameRow(fs, i);
        if outcome == Renamed {
          count := count + 1;
        } else if outcome == AlreadyExists || outcome == IoError {
          err := err + 1;
        }
      }
      ProgressDone(orig, names0, refused, imageList, fs.names, count, err);
    }

    /** One pass of the loop body of `rename_all`, on row `i`. */
    method RenameRow(fs: Folder, i: nat) returns (outcome: Outcome)
      requires i < |imageList|
      modifies this, fs
      ensures var s := Step(old(imageList)[i], old(fs.names), fs.refused);
              imageList == old(imageList)[i := s.entry] && fs.names == s.names && outcome == s.outcome
    {
      var item := imageList[i];
      var newBase := Strip(item.candidate);
      outcome := Skipped;
      if newBase == [] || AnyInvalid(newBase) {
        return;
      }
      var newName := newBase + SplitExt(item.filename).1;
      if newName == item.filename {
        return;
      }
      if fs.Exists(newName) {
        imageList := imageList[i := item.(status := FileExists)];
        outcome := AlreadyExists;
      } else {
        var ok := fs.Rename(item.fullPath.name, newName);
        if ok {
          imageList := imageList[i := item.(fullPath := Path(item.fullPath.dir, newName), filename := newName, status := Success)];
          outcome := Renamed;
        } else {
          imageList := imageList[i := item.(status := Error)];
          outcome := IoError;
        }
      }
    }
  }
}
