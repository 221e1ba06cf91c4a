/** Loading a folder (BatchRename.py, `load_images_thread`): keep the names
    whose lower-cased form ends in one of six image extensions, sort them, and
    queue one record per name with ids 1..N. */
module Scanner {
  import opened Options
  import opened PyStr
  import opened SeqFacts

  /** A path kept as the pair os.path.join was called with. */
  datatype Path = Path(dir: string, name: string)

  /** The dict put on the load queue for one file. */
  datatype Record = Record(id: nat, fullPath: Path, filename: string)

  const ImageExtensions: seq<string> := [".png", ".jpg", ".jpeg", ".gif", ".bmp", ".webp"]

  /** `f.lower().endswith(('.png', '.jpg', '.jpeg', '.gif', '.bmp', '.webp'))`. */
  predicate IsImageName(f: string) {
    exists i :: 0 <= i < |ImageExtensions| && EndsWith(Lower(f), ImageExtensions[i])
  }

  /** The list comprehension over the directory listing: the image names with
      the multiplicity they have in the listing, and nothing else. */
  function ImageNames(listing: seq<string>): (r: seq<string>)
    ensures forall f :: f in r ==> IsImageName(f)
    ensures forall f :: IsImageName(f) ==> multiset(r)[f] == multiset(listing)[f]
  {
    if listing == [] then []
    else
      assert listing == [listing[0]] + listing[1..];
      (if IsImageName(listing[0]) then [listing[0]] else []) + ImageNames(listing[1..])
  }

  ghost predicate Sorted(s: seq<string>) {
    forall i, j :: 0 <= i < j < |s| ==> StrLe(s[i], s[j])
  }

  lemma LowerBound(x: string, s: seq<string>)
    requires Sorted(s) && s != [] && StrLe(x, s[0])
    ensures forall j :: 0 <= j < |s| ==> StrLe(x, s[j])
  {
    forall j | 0 <= j < |s| ensures StrLe(x, s[j]) {
      if j > 0 {
        StrLeTransitive(x, s[0], s[j]);
      }
    }
  }

  /** A lower bound of `x` and of every element of `s` bounds every element
      of a rearrangement of them. */
  lemma BoundedBy(lo: string, t: seq<string>, x: string, s: seq<string>)
    requires multiset(t) == multiset(s) + multiset{x}
    requires StrLe(lo, x) && forall k :: 0 <= k < |s| ==> StrLe(lo, s[k])
    ensures forall k :: 0 <= k < |t| ==> StrLe(lo, t[k])
  {
    forall k | 0 <= k < |t| ensures StrLe(lo, t[k]) {
      assert t[k] in multiset(t);
      if t[k] != x {
        assert t[k] in multiset(s);
        var j :| 0 <= j < |s| && s[j] == t[k];
      }
    }
  }

  /** One step of insertion sort. */
  function Insert(x: string, s: seq<string>): (r: seq<string>)
    requires Sorted(s)
    ensures Sorted(r)
    ensures multiset(r) == multiset(s) + multiset{x}
  {
    if s == [] then [x]
    else if StrLe(x, s[0]) then
      LowerBound(x, s);
      [x] + s
    else
      StrLeTotal(x, s[0]);
      ConsSplit(s);
      var t := Insert(x, s[1..]);
      forall k | 0 <= k < |s[1..]| ensures StrLe(s[0], s[1..][k]) {
        assert s[1..][k] == s[k + 1];
      }
      BoundedBy(s[0], t, x, s[1..]);
      [s[0]] + t
  }

  /** `list.sort()` on the image names: an ascending permutation. */
  function SortNames(s: seq<string>): (r: seq<string>)
    ensures Sorted(r)
    ensures multiset(r) == multiset(s)
  {
    if s == [] then []
    else
      assert s == [s[0]] + s[1..];
      Insert(s[0], SortNames(s[1..]))
  }

  /** There is only one ascending arrangement of a given collection of names,
      so the order of the directory listing does not matter. */
  lemma {:induction false} SortedUnique(a: seq<string>, b: seq<string>)
    requires Sorted(a) && Sorted(b) && multiset(a) == multiset(b)
    ensures a == b
    decreases |a|
  {
    assert |a| == |multiset(a)| == |multiset(b)| == |b|;
    if a != [] {
      assert a[0] == b[0] by {
        assert a[0] in multiset(b) && b[0] in multiset(a);
        var k :| 0 <= k < |b| && b[k] == a[0];
        var m :| 0 <= m < |a| && a[m] == b[0];
        if a[0] != b[0] {
          assert StrLe(b[0], b[k]) && StrLe(a[0], a[m]);
          StrLeAntisymmetric(a[0], b[0]);
        }
      }
      MultisetTail(a);
      MultisetTail(b);
      SortedTail(a);
      SortedTail(b);
      SortedUnique(a[1..], b[1..]);
      ConsSplit(a);
      ConsSplit(b);
    }
  }

  lemma SortedTail(s: seq<string>)
    requires Sorted(s) && s != []
    ensures Sorted(s[1..])
  {
    forall i, j | 0 <= i < j < |s| - 1 ensures StrLe(s[1..][i], s[1..][j]) {
      assert s[1..][i] == s[i + 1] && s[1..][j] == s[j + 1];
    }
  }

  function Filenames(r: seq<Record>): (names: seq<string>)
    ensures |names| == |r| && forall i :: 0 <= i < |r| ==> names[i] == r[i].filename
  {
    seq(|r|, i requires 0 <= i < |r| => r[i].filename)
  }

  /** The records for a sorted list of names: ids 1..N, paths in `folder`. */
  function RecordsOf(folder: string, files: seq<string>): (r: seq<Record>)
    ensures |r| == |files|
    ensures forall i :: 0 <= i < |r| ==>
              r[i].id == i + 1 && r[i].filename == files[i] && r[i].fullPath == Path(folder, files[i])
  {
    seq(|files|, i requires 0 <= i < |files| => Record(i + 1, Path(folder, files[i]), files[i]))
  }

  lemma RecordsOfSnoc(folder: string, files: seq<string>, f: string)
    ensures RecordsOf(folder, files + [f]) == RecordsOf(folder, files) + [Record(|files| + 1, Path(folder, f), f)]
  {
  }

  /** What the loader thread puts on the queue for a folder whose listing is
      `listing` (`None`: os.listdir raised, the error is printed, nothing is
      queued). */
  function ScanRecords(folder: string, listing: Option<seq<string>>): (r: seq<Record>)
    ensures listing.None? ==> r == []
    ensures forall i :: 0 <= i < |r| ==> r[i].id == i + 1 && r[i].fullPath == Path(folder, r[i].filename)
  {
    match listing
    case None => []
    case Some(names) => RecordsOf(folder, SortNames(ImageNames(names)))
  }

  /** The records of a listed folder are in ascending name order, name image
      files only, and hold every image name of the listing as often as the
      listing has it. */
  lemma ScanRecordsContents(folder: string, names: seq<string>)
    ensures var r := ScanRecords(folder, Some(names));
            && (forall i :: 0 <= i < |r| ==> IsImageName(r[i].filename))
            && (forall i, j :: 0 <= i < j < |r| ==> StrLe(r[i].filename, r[j].filename))
            && (forall f :: IsImageName(f) ==> multiset(Filenames(r))[f] == multiset(names)[f])
  {
    var files := SortNames(ImageNames(names));
    var r := ScanRecords(folder, Some(names));
    assert Filenames(r) == files;
    forall i | 0 <= i < |r| ensures IsImageName(r[i].filename) {
      assert r[i].filename == files[i];
      assert files[i] in multiset(ImageNames(names));
    }
  }

  /** Scanning twice a folder whose contents did not change gives the same
      records, whatever order the operating system lists the names in. */
  lemma ScanDeterministic(folder: string, l1: seq<string>, l2: seq<string>)
    requires multiset(l1) == multiset(l2)
    ensures ScanRecords(folder, Some(l1)) == ScanRecords(folder, Some(l2))
  {
    var a, b := ImageNames(l1), ImageNames(l2);
    assert multiset(a) == multiset(b) by {
      forall f ensures multiset(a)[f] == multiset(b)[f] {
        if !IsImageName(f) {
          assert f !in a && f !in b;
        }
      }
    }
    SortedUnique(SortNames(a), SortNames(b));
  }

  /** `load_images_thread`: the loop that queues one record per sorted name. */
  method Scan(folder: string, listing: Option<seq<string>>) returns (records: seq<Record>)
    ensures records == ScanRecords(folder, listing)
  {
    records := [];
    if listing.None? {
      return;
    }
    var files := SortNames(ImageNames(listing.value));
    for idx := 0 to |files|
      invariant records == RecordsOf(folder, files[..idx])
    {
      assert files[..idx + 1] == files[..idx] + [files[idx]];
      RecordsOfSnoc(folder, files[..idx], files[idx]);
      records := records + [Record(idx + 1, Path(folder, files[idx]), files[idx])];
    }
    assert files[..|files|] == files;
  }
}
