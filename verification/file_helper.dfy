/** FileHelper::findFiles and FileHelper::getDefinedNamespaces
    (src/Helpers/FileHelper.php, lines 70-120).

    The directory walk is replaced by the relative pathnames it yields, in
    enumeration order; `class_exists` is an uninterpreted predicate on names;
    the PSR-4 section of composer.json is an optional input that is absent when
    reading or decoding the manifest failed.

    The nested loop itself is stated for any way `nameOf` of combining a
    prefix with a pathname, so that its ordering and membership facts are
    proved once, apart from the string manipulation; findFiles uses it with
    ClassNames.Candidate. */
module FileHelper {
  import opened Options
  import opened ClassNames

  /** One entry of the `autoload.psr-4` object of composer.json: a namespace
      prefix and the directory (or list of directories) it maps to. The
      directory's type is left abstract because findFiles never looks at it. */
  datatype Psr4Entry<D> = Psr4Entry(prefix: string, directory: D)

  /** What findFiles returns, together with whether it consulted the
      manifest at all. */
  datatype Scan = Scan(classes: seq<string>, manifestRead: bool)

  /** A position in the nested loop: the index of a file and the index of a
      PSR-4 entry. */
  datatype Cell = Cell(file: nat, entry: nat)

  /** getDefinedNamespaces: the PSR-4 entries in manifest order, or none at
      all when the manifest could not be read or decoded or has no PSR-4
      section; none of these failures raises an exception. */
  function DefinedNamespaces<D>(manifest: Option<seq<Psr4Entry<D>>>): (r: seq<Psr4Entry<D>>)
    ensures manifest.None? ==> r == []
    ensures manifest.Some? ==> r == manifest.value
  {
    ValueOr(manifest, [])
  }

  // ---------------------------------------------------------------------------
  // The nested loop
  // ---------------------------------------------------------------------------

  /** What cell (i, j) appends: the name built from entry j's prefix and
      file i's pathname, if a class of that name exists. */
  function Hit<D>(files: seq<string>, ns: seq<Psr4Entry<D>>, nameOf: (string, string) -> string,
                  classExists: string -> bool, i: nat, j: nat): (r: seq<string>)
    requires i < |files| && j < |ns|
    ensures |r| <= 1
  {
    var name := nameOf(ns[j].prefix, files[i]);
    if classExists(name) then [name] else []
  }

  /** The inner loop for file i, from entry j on: what each entry appends,
      in manifest order. */
  function ScanRow<D>(files: seq<string>, ns: seq<Psr4Entry<D>>, nameOf: (string, string) -> string,
                      classExists: string -> bool, i: nat, j: nat): (r: seq<string>)
    requires i < |files| && j <= |ns|
    ensures forall k :: 0 <= k < |r| ==> classExists(r[k])
    decreases |ns| - j
  {
    if j == |ns| then []
    else Hit(files, ns, nameOf, classExists, i, j) + ScanRow(files, ns, nameOf, classExists, i, j + 1)
  }

  /** The outer loop from file i on: each file's inner loop, in enumeration
      order. */
  function ScanFiles<D>(files: seq<string>, ns: seq<Psr4Entry<D>>, nameOf: (string, string) -> string,
                        classExists: string -> bool, i: nat): (r: seq<string>)
    requires i <= |files|
    ensures forall k :: 0 <= k < |r| ==> classExists(r[k])
    decreases |files| - i
  {
    if i == |files| then []
    else ScanRow(files, ns, nameOf, classExists, i, 0) + ScanFiles(files, ns, nameOf, classExists, i + 1)
  }

  /** findFiles: nothing, and no manifest read, when the directory has no
      files; otherwise, for each file and each PSR-4 entry in order, the
      candidate class name if that class exists. */
  function FindFiles<D>(files: seq<string>, manifest: Option<seq<Psr4Entry<D>>>,
                        classExists: string -> bool): (r: Scan)
    ensures r.manifestRead <==> files != []
    ensures files == [] ==> r.classes == []
  {
    if files == [] then Scan([], false)
    else Scan(ScanFiles(files, DefinedNamespaces(manifest), Candidate, classExists, 0), true)
  }

  /** Entering the inner loop for file i. */
  lemma ScanFilesEnterRow<D>(files: seq<string>, ns: seq<Psr4Entry<D>>, nameOf: (string, string) -> string,
                             classExists: string -> bool, i: nat, done: seq<string>)
    requires i < |files|
    ensures done + ScanFiles(files, ns, nameOf, classExists, i)
         == done + ScanRow(files, ns, nameOf, classExists, i, 0) + ScanFiles(files, ns, nameOf, classExists, i + 1)
  {
  }

  /** One inner iteration moves the cell's contribution from the part still
      to be scanned to the part already collected. */
  lemma ScanRowAppendHit<D>(files: seq<string>, ns: seq<Psr4Entry<D>>, nameOf: (string, string) -> string,
                            classExists: string -> bool, i: nat, j: nat, done: seq<string>, later: seq<string>)
    requires i < |files| && j < |ns|
    ensures done + ScanRow(files, ns, nameOf, classExists, i, j) + later
         == done + Hit(files, ns, nameOf, classExists, i, j) + ScanRow(files, ns, nameOf, classExists, i, j + 1) + later
  {
  }

  /** The two foreach loops of findFiles, appending to an array. */
  method ScanLoop<D>(files: seq<string>, ns: seq<Psr4Entry<D>>, nameOf: (string, string) -> string,
                     classExists: string -> bool)
    returns (classes: seq<string>)
    ensures classes == ScanFiles(files, ns, nameOf, classExists, 0)
  {
    ghost var all := ScanFiles(files, ns, nameOf, classExists, 0);
    classes := [];
    var i := 0;
    while i < |files|
      invariant 0 <= i <= |files|
      invariant classes + ScanFiles(files, ns, nameOf, classExists, i) == all
    {
      ghost var later := ScanFiles(files, ns, nameOf, classExists, i + 1);
      ScanFilesEnterRow(files, ns, nameOf, classExists, i, classes);
      var j := 0;
      while j < |ns|
        invariant 0 <= j <= |ns|
        invariant classes + ScanRow(files, ns, nameOf, classExists, i, j) + later == all
      {
        var name := nameOf(ns[j].prefix, files[i]);
        var hit := if classExists(name) then [name] else [];
        ScanRowAppendHit(files, ns, nameOf, classExists, i, j, classes, later);
        assert hit == Hit(files, ns, nameOf, classExists, i, j);
        classes := classes + hit;
        j := j + 1;
      }
      assert ScanRow(files, ns, nameOf, classExists, i, j) == [];
      assert classes + [] + later == classes + later;
      i := i + 1;
    }
  }

  /** findFiles as a method: the early return on an empty directory, then the
      manifest read, then the nested loop. */
  method FindFilesLoop<D>(files: seq<string>, manifest: Option<seq<Psr4Entry<D>>>,
                          classExists: string -> bool)
    returns (classes: seq<string>, manifestRead: bool)
    ensures Scan(classes, manifestRead) == FindFiles(files, manifest, classExists)
  {
    if |files| == 0 {
      return [], false;
    }
    var ns := DefinedNamespaces(manifest);
    manifestRead := true;
    classes := ScanLoop(files, ns, Candidate, classExists);
  }

  // ---------------------------------------------------------------------------
  // How many names
  // ---------------------------------------------------------------------------

  /** Each remaining entry appends at most one name. */
  lemma {:induction false} ScanRowLength<D>(files: seq<string>, ns: seq<Psr4Entry<D>>,
                                            nameOf: (string, string) -> string,
                                            classExists: string -> bool, i: nat, j: nat)
    requires i < |files| && j <= |ns|
    ensures |ScanRow(files, ns, nameOf, classExists, i, j)| <= |ns| - j
    decreases |ns| - j
  {
    if j < |ns| {
      ScanRowLength(files, ns, nameOf, classExists, i, j + 1);
    }
  }

  /** Each remaining file appends at most one name per entry. */
  lemma {:induction false} ScanFilesLength<D>(files: seq<string>, ns: seq<Psr4Entry<D>>,
                                              nameOf: (string, string) -> string,
                                              classExists: string -> bool, i: nat)
    requires i <= |files|
    ensures |ScanFiles(files, ns, nameOf, classExists, i)| <= (|files| - i) * |ns|
    decreases |files| - i
  {
    if i < |files| {
      ScanRowLength(files, ns, nameOf, classExists, i, 0);
      ScanFilesLength(files, ns, nameOf, classExists, i + 1);
      assert (|files| - i) * |ns| == (|files| - (i + 1)) * |ns| + |ns|;
    }
  }

  /** At most one name per (file, entry) pair. */
  lemma FindFilesLength<D>(files: seq<string>, manifest: Option<seq<Psr4Entry<D>>>,
                           classExists: string -> bool)
    ensures |FindFiles(files, manifest, classExists).classes| <= |files| * |DefinedNamespaces(manifest)|
  {
    ScanFilesLength(files, DefinedNamespaces(manifest), Candidate, classExists, 0);
  }

  // ---------------------------------------------------------------------------
  // Which cells are kept, and in which order
  // ---------------------------------------------------------------------------

  /** Cell (a, b) lies in the loop and its name denotes an existing class. */
  ghost predicate Kept<D>(files: seq<string>, ns: seq<Psr4Entry<D>>, nameOf: (string, string) -> string,
                          classExists: string -> bool, a: nat, b: nat)
  {
    a < |files| && b < |ns| && classExists(nameOf(ns[b].prefix, files[a]))
  }

  /** The loop visits p before q: an earlier file, or the same file and an
      earlier entry. */
  predicate Before(p: Cell, q: Cell)
  {
    p.file < q.file || (p.file == q.file && p.entry < q.entry)
  }

  /** The cells of file i kept from entry j on, in manifest order. */
  ghost function CellsRow<D>(files: seq<string>, ns: seq<Psr4Entry<D>>, nameOf: (string, string) -> string,
                             classExists: string -> bool, i: nat, j: nat): seq<Cell>
    requires i < |files| && j <= |ns|
    decreases |ns| - j
  {
    if j == |ns| then []
    else
      var here := if classExists(nameOf(ns[j].prefix, files[i])) then [Cell(i, j)] else [];
      here + CellsRow(files, ns, nameOf, classExists, i, j + 1)
  }

  /** The cells kept from file i on, in visiting order. */
  ghost function CellsFiles<D>(files: seq<string>, ns: seq<Psr4Entry<D>>, nameOf: (string, string) -> string,
                               classExists: string -> bool, i: nat): seq<Cell>
    requires i <= |files|
    decreases |files| - i
  {
    if i == |files| then []
    else CellsRow(files, ns, nameOf, classExists, i, 0) + CellsFiles(files, ns, nameOf, classExists, i + 1)
  }

  /** The k-th cell kept in file i from entry j on is kept, belongs to file
      i, and has an entry index of at least j. */
  lemma {:induction false} RowCellKept<D>(files: seq<string>, ns: seq<Psr4Entry<D>>,
                                          nameOf: (string, string) -> string,
                                          classExists: string -> bool, i: nat, j: nat, k: nat)
    requires i < |files| && j <= |ns|
    requires k < |CellsRow(files, ns, nameOf, classExists, i, j)|
    ensures var c := CellsRow(files, ns, nameOf, classExists, i, j)[k];
            Kept(files, ns, nameOf, classExists, c.file, c.entry) && c.file == i && c.entry >= j
    decreases |ns| - j
  {
    var o := CellsRow(files, ns, nameOf, classExists, i, j);
    if j < |ns| {
      var rest := CellsRow(files, ns, nameOf, classExists, i, j + 1);
      if classExists(nameOf(ns[j].prefix, files[i])) {
        assert o == [Cell(i, j)] + rest;
        if k > 0 {
          RowCellKept(files, ns, nameOf, classExists, i, j + 1, k - 1);
          assert o[k] == rest[k - 1];
        }
      } else {
        assert o == rest;
        RowCellKept(files, ns, nameOf, classExists, i, j + 1, k);
      }
    }
  }

  /** The k-th cell kept from file i on is kept and belongs to file i or a
      later one. */
  lemma {:induction false} CellKept<D>(files: seq<string>, ns: seq<Psr4Entry<D>>,
                                       nameOf: (string, string) -> string,
                                       classExists: string -> bool, i: nat, k: nat)
    requires i <= |files|
    requires k < |CellsFiles(files, ns, nameOf, classExists, i)|
    ensures var c := CellsFiles(files, ns, nameOf, classExists, i)[k];
            Kept(files, ns, nameOf, classExists, c.file, c.entry) && c.file >= i
    decreases |files| - i
  {
    if i < |files| {
      var row := CellsRow(files, ns, nameOf, classExists, i, 0);
      var rest := CellsFiles(files, ns, nameOf, classExists, i + 1);
      if k < |row| {
        RowCellKept(files, ns, nameOf, classExists, i, 0, k);
        assert (row + rest)[k] == row[k];
      } else {
        CellKept(files, ns, nameOf, classExists, i + 1, k - |row|);
        assert (row + rest)[k] == rest[k - |row|];
      }
    }
  }

  /** The inner loop collects exactly one name per kept cell. */
  lemma {:induction false} RowLength<D>(files: seq<string>, ns: seq<Psr4Entry<D>>,
                                        nameOf: (string, string) -> string,
                                        classExists: string -> bool, i: nat, j: nat)
    requires i < |files| && j <= |ns|
    ensures |ScanRow(files, ns, nameOf, classExists, i, j)| == |CellsRow(files, ns, nameOf, classExists, i, j)|
    decreases |ns| - j
  {
    if j < |ns| {
      RowLength(files, ns, nameOf, classExists, i, j + 1);
    }
  }

  /** The k-th name the inner loop collects for file i from entry j on is the
      name of the k-th cell kept in that row. */
  lemma {:induction false} RowCellName<D>(files: seq<string>, ns: seq<Psr4Entry<D>>,
                                          nameOf: (string, string) -> string,
                                          classExists: string -> bool, i: nat, j: nat, k: nat)
    requires i < |files| && j <= |ns|
    requires k < |CellsRow(files, ns, nameOf, classExists, i, j)|
    ensures var c := CellsRow(files, ns, nameOf, classExists, i, j)[k];
            && c.entry < |ns|
            && k < |ScanRow(files, ns, nameOf, classExists, i, j)|
            && ScanRow(files, ns, nameOf, classExists, i, j)[k] == nameOf(ns[c.entry].prefix, files[i])
    decreases |ns| - j
  {
    if j < |ns| {
      var o := CellsRow(files, ns, nameOf, classExists, i, j);
      var r := ScanRow(files, ns, nameOf, classExists, i, j);
      var orest := CellsRow(files, ns, nameOf, classExists, i, j + 1);
      var rrest := ScanRow(files, ns, nameOf, classExists, i, j + 1);
      var name := nameOf(ns[j].prefix, files[i]);
      if classExists(name) {
        assert o == [Cell(i, j)] + orest;
        assert r == [name] + rrest;
        if k > 0 {
          RowCellName(files, ns, nameOf, classExists, i, j + 1, k - 1);
          assert o[k] == orest[k - 1] && r[k] == rrest[k - 1];
        }
      } else {
        assert o == orest && r == rrest;
        RowCellName(files, ns, nameOf, classExists, i, j + 1, k);
      }
    }
  }

  /** The k-th name the loop collects from file i on is the name of the k-th
      cell kept from file i on. */
  lemma {:induction false} CellName<D>(files: seq<string>, ns: seq<Psr4Entry<D>>,
                                       nameOf: (string, string) -> string,
                                       classExists: string -> bool, i: nat, k: nat)
    requires i <= |files|
    requires k < |CellsFiles(files, ns, nameOf, classExists, i)|
    ensures var c := CellsFiles(files, ns, nameOf, classExists, i)[k];
            && c.file < |files| && c.entry < |ns|
            && k < |ScanFiles(files, ns, nameOf, classExists, i)|
            && ScanFiles(files, ns, nameOf, classExists, i)[k] == nameOf(ns[c.entry].prefix, files[c.file])
    decreases |files| - i
  {
    if i < |files| {
      var row := CellsRow(files, ns, nameOf, classExists, i, 0);
      var rest := CellsFiles(files, ns, nameOf, classExists, i + 1);
      var names := ScanRow(files, ns, nameOf, classExists, i, 0);
      var later := ScanFiles(files, ns, nameOf, classExists, i + 1);
      RowLength(files, ns, nameOf, classExists, i, 0);
      if k < |row| {
        RowCellKept(files, ns, nameOf, classExists, i, 0, k);
        RowCellName(files, ns, nameOf, classExists, i, 0, k);
        assert (row + rest)[k] == row[k];
        assert (names + later)[k] == names[k];
      } else {
        CellName(files, ns, nameOf, classExists, i + 1, k - |row|);
        assert (row + rest)[k] == rest[k - |row|];
        assert (names + later)[k] == later[k - |row|];
      }
    }
  }

  /** The loop collects exactly one name per kept cell. */
  lemma {:induction false} CellsFilesLength<D>(files: seq<string>, ns: seq<Psr4Entry<D>>,
                                               nameOf: (string, string) -> string,
                                               classExists: string -> bool, i: nat)
    requires i <= |files|
    ensures |ScanFiles(files, ns, nameOf, classExists, i)| == |CellsFiles(files, ns, nameOf, classExists, i)|
    decreases |files| - i
  {
    if i < |files| {
      var row := ScanRow(files, ns, nameOf, classExists, i, 0);
      var cells := CellsRow(files, ns, nameOf, classExists, i, 0);
      assert ScanFiles(files, ns, nameOf, classExists, i) == row + ScanFiles(files, ns, nameOf, classExists, i + 1);
      assert CellsFiles(files, ns, nameOf, classExists, i) == cells + CellsFiles(files, ns, nameOf, classExists, i + 1);
      RowLength(files, ns, nameOf, classExists, i, 0);
      CellsFilesLength(files, ns, nameOf, classExists, i + 1);
    }
  }

  /** Within one file, kept cells come out in manifest order. */
  lemma {:induction false} RowOrdered<D>(files: seq<string>, ns: seq<Psr4Entry<D>>,
                                         nameOf: (string, string) -> string,
                                         classExists: string -> bool, i: nat, j: nat, k: nat, l: nat)
    requires i < |files| && j <= |ns|
    requires k < l < |CellsRow(files, ns, nameOf, classExists, i, j)|
    ensures var o := CellsRow(files, ns, nameOf, classExists, i, j);
            o[k].entry < o[l].entry
    decreases |ns| - j
  {
    var o := CellsRow(files, ns, nameOf, classExists, i, j);
    if j < |ns| {
      var rest := CellsRow(files, ns, nameOf, classExists, i, j + 1);
      if classExists(nameOf(ns[j].prefix, files[i])) {
        assert o == [Cell(i, j)] + rest;
        assert o[l] == rest[l - 1];
        if k == 0 {
          RowCellKept(files, ns, nameOf, classExists, i, j + 1, l - 1);
        } else {
          RowOrdered(files, ns, nameOf, classExists, i, j + 1, k - 1, l - 1);
          assert o[k] == rest[k - 1];
        }
      } else {
        assert o == rest;
        RowOrdered(files, ns, nameOf, classExists, i, j + 1, k, l);
      }
    }
  }

  /** Kept cells come out in visiting order. */
  lemma {:induction false} CellsOrdered<D>(files: seq<string>, ns: seq<Psr4Entry<D>>,
                                           nameOf: (string, string) -> string,
                                           classExists: string -> bool, i: nat, k: nat, l: nat)
    requires i <= |files|
    requires k < l < |CellsFiles(files, ns, nameOf, classExists, i)|
    ensures var o := CellsFiles(files, ns, nameOf, classExists, i);
            Before(o[k], o[l])
    decreases |files| - i
  {
    if i < |files| {
      var row := CellsRow(files, ns, nameOf, classExists, i, 0);
      var rest := CellsFiles(files, ns, nameOf, classExists, i + 1);
      var o := row + rest;
      if l < |row| {
        RowOrdered(files, ns, nameOf, classExists, i, 0, k, l);
        RowCellKept(files, ns, nameOf, classExists, i, 0, k);
        RowCellKept(files, ns, nameOf, classExists, i, 0, l);
        assert o[k] == row[k] && o[l] == row[l];
      } else if k < |row| {
        RowCellKept(files, ns, nameOf, classExists, i, 0, k);
        CellKept(files, ns, nameOf, classExists, i + 1, l - |row|);
        assert o[k] == row[k] && o[l] == rest[l - |row|];
      } else {
        CellsOrdered(files, ns, nameOf, classExists, i + 1, k - |row|, l - |row|);
        assert o[k] == rest[k - |row|] && o[l] == rest[l - |row|];
      }
    }
  }

  /** Every kept cell of file i from entry j on is among the cells kept in
      that row. */
  lemma {:induction false} RowCellPresent<D>(files: seq<string>, ns: seq<Psr4Entry<D>>,
                                             nameOf: (string, string) -> string,
                                             classExists: string -> bool, i: nat, j: nat, b: nat)
    requires i < |files| && j <= b
    requires Kept(files, ns, nameOf, classExists, i, b)
    ensures Cell(i, b) in CellsRow(files, ns, nameOf, classExists, i, j)
    decreases |ns| - j
  {
    var o := CellsRow(files, ns, nameOf, classExists, i, j);
    var rest := CellsRow(files, ns, nameOf, classExists, i, j + 1);
    var kept := classExists(nameOf(ns[j].prefix, files[i]));
    assert o == (if kept then [Cell(i, j)] else []) + rest;
    if b == j {
      assert o[0] == Cell(i, b);
    } else {
      RowCellPresent(files, ns, nameOf, classExists, i, j + 1, b);
    }
  }

  /** Every kept cell of file i or a later one is among the cells kept from
      file i on. */
  lemma {:induction false} CellPresent<D>(files: seq<string>, ns: seq<Psr4Entry<D>>,
                                          nameOf: (string, string) -> string,
                                          classExists: string -> bool, i: nat, a: nat, b: nat)
    requires i <= a
    requires Kept(files, ns, nameOf, classExists, a, b)
    ensures Cell(a, b) in CellsFiles(files, ns, nameOf, classExists, i)
    decreases |files| - i
  {
    var row := CellsRow(files, ns, nameOf, classExists, i, 0);
    var rest := CellsFiles(files, ns, nameOf, classExists, i + 1);
    if a == i {
      RowCellPresent(files, ns, nameOf, classExists, i, 0, b);
    } else {
      CellPresent(files, ns, nameOf, classExists, i + 1, a, b);
    }
    assert CellsFiles(files, ns, nameOf, classExists, i) == row + rest;
  }

  /** The cells of `o` are in strictly increasing visiting order. */
  predicate Increasing(o: seq<Cell>)
  {
    forall k, l :: 0 <= k < l < |o| ==> Before(o[k], o[l])
  }

  /** Every cell lies inside the loop's bounds. */
  predicate InBounds(n: nat, m: nat, o: seq<Cell>)
  {
    forall k :: 0 <= k < |o| ==> o[k].file < n && o[k].entry < m
  }

  /** The names of a sequence of cells. */
  function Names<D>(files: seq<string>, ns: seq<Psr4Entry<D>>, nameOf: (string, string) -> string,
                    o: seq<Cell>): (r: seq<string>)
    requires InBounds(|files|, |ns|, o)
    ensures |r| == |o|
  {
    seq(|o|, k requires 0 <= k < |o| => nameOf(ns[o[k].entry].prefix, files[o[k].file]))
  }

  /** The kept cells come out strictly in the order the two loops visit them. */
  lemma CellsIncreasing<D>(files: seq<string>, ns: seq<Psr4Entry<D>>, nameOf: (string, string) -> string,
                           classExists: string -> bool)
    ensures Increasing(CellsFiles(files, ns, nameOf, classExists, 0))
  {
    var o := CellsFiles(files, ns, nameOf, classExists, 0);
    forall k, l | 0 <= k < l < |o|
      ensures Before(o[k], o[l])
    {
      CellsOrdered(files, ns, nameOf, classExists, 0, k, l);
    }
  }

  /** A cell is listed if and only if the class named by its candidate exists. */
  lemma CellsExactlyKept<D>(files: seq<string>, ns: seq<Psr4Entry<D>>, nameOf: (string, string) -> string,
                            classExists: string -> bool)
    ensures forall a: nat, b: nat :: Kept(files, ns, nameOf, classExists, a, b)
                                     <==> Cell(a, b) in CellsFiles(files, ns, nameOf, classExists, 0)
  {
    var o := CellsFiles(files, ns, nameOf, classExists, 0);
    forall a: nat, b: nat
      ensures Kept(files, ns, nameOf, classExists, a, b) <==> Cell(a, b) in o
    {
      if Kept(files, ns, nameOf, classExists, a, b) {
        CellPresent(files, ns, nameOf, classExists, 0, a, b);
      }
      if Cell(a, b) in o {
        var k :| 0 <= k < |o| && o[k] == Cell(a, b);
        CellKept(files, ns, nameOf, classExists, 0, k);
      }
    }
  }

  /** The nested loop's output is the name of each kept cell, in the same order;
      every kept cell lies inside the two lists. */
  lemma ScanFilesIsNames<D>(files: seq<string>, ns: seq<Psr4Entry<D>>, nameOf: (string, string) -> string,
                            classExists: string -> bool)
    ensures var o := CellsFiles(files, ns, nameOf, classExists, 0);
            InBounds(|files|, |ns|, o) && ScanFiles(files, ns, nameOf, classExists, 0) == Names(files, ns, nameOf, o)
  {
    var o := CellsFiles(files, ns, nameOf, classExists, 0);
    var r := ScanFiles(files, ns, nameOf, classExists, 0);
    forall k | 0 <= k < |o|
      ensures o[k].file < |files| && o[k].entry < |ns|
      ensures k < |r| && r[k] == nameOf(ns[o[k].entry].prefix, files[o[k].file])
    {
      CellName(files, ns, nameOf, classExists, 0, k);
    }
    CellsFilesLength(files, ns, nameOf, classExists, 0);
  }

  /** Ordering: the result of findFiles is exactly the names of the kept
      cells, listed in the order the two loops visit them (file by file, and
      for each file entry by entry); a cell is listed if and only if its
      candidate class exists. */
  lemma FindFilesInVisitingOrder<D>(files: seq<string>, manifest: Option<seq<Psr4Entry<D>>>,
                                    classExists: string -> bool)
    ensures var ns := DefinedNamespaces(manifest);
            var o := CellsFiles(files, ns, Candidate, classExists, 0);
            && Increasing(o)
            && (forall a: nat, b: nat :: Kept(files, ns, Candidate, classExists, a, b) <==> Cell(a, b) in o)
            && InBounds(|files|, |ns|, o)
            && FindFiles(files, manifest, classExists).classes == Names(files, ns, Candidate, o)
  {
    var ns := DefinedNamespaces(manifest);
    CellsIncreasing(files, ns, Candidate, classExists);
    CellsExactlyKept(files, ns, Candidate, classExists);
    ScanFilesIsNames(files, ns, Candidate, classExists);
  }

  /** The nested loop collects a name exactly when it is built from some file
      and some entry and denotes an existing class. */
  lemma ScanFilesMembership<D>(files: seq<string>, ns: seq<Psr4Entry<D>>, nameOf: (string, string) -> string,
                               classExists: string -> bool, x: string)
    ensures x in ScanFiles(files, ns, nameOf, classExists, 0)
            <==> exists a, b :: 0 <= a < |files| && 0 <= b < |ns|
                                && x == nameOf(ns[b].prefix, files[a]) && classExists(x)
  {
    var o := CellsFiles(files, ns, nameOf, classExists, 0);
    var r := ScanFiles(files, ns, nameOf, classExists, 0);
    CellsFilesLength(files, ns, nameOf, classExists, 0);
    if x in r {
      var k :| 0 <= k < |r| && r[k] == x;
      CellName(files, ns, nameOf, classExists, 0, k);
      CellKept(files, ns, nameOf, classExists, 0, k);
      var a, b := o[k].file, o[k].entry;
      assert 0 <= a < |files| && 0 <= b < |ns| && x == nameOf(ns[b].prefix, files[a]) && classExists(x);
    }
    if exists a, b :: 0 <= a < |files| && 0 <= b < |ns| && x == nameOf(ns[b].prefix, files[a]) && classExists(x) {
      var a, b :| 0 <= a < |files| && 0 <= b < |ns| && x == nameOf(ns[b].prefix, files[a]) && classExists(x);
      CellPresent(files, ns, nameOf, classExists, 0, a, b);
      var k :| 0 <= k < |o| && o[k] == Cell(a, b);
      CellName(files, ns, nameOf, classExists, 0, k);
    }
  }

  /** Soundness and completeness: a name is in the result exactly when it is
      the candidate of some listed file under some PSR-4 prefix and that class
      exists. */
  lemma FindFilesMembership<D>(files: seq<string>, manifest: Option<seq<Psr4Entry<D>>>,
                               classExists: string -> bool, x: string)
    ensures var ns := DefinedNamespaces(manifest);
            x in FindFiles(files, manifest, classExists).classes
            <==> exists a, b :: 0 <= a < |files| && 0 <= b < |ns|
                                && x == Candidate(ns[b].prefix, files[a]) && classExists(x)
  {
    if files != [] {
      ScanFilesMembership(files, DefinedNamespaces(manifest), Candidate, classExists, x);
    }
  }

  // ---------------------------------------------------------------------------
  // Duplicates, directories, a missing manifest
  // ---------------------------------------------------------------------------

  /** findFiles on a single file: that file's inner loop. */
  lemma FindFilesOneFile<D>(file: string, manifest: Option<seq<Psr4Entry<D>>>, classExists: string -> bool)
    ensures FindFiles([file], manifest, classExists).classes
         == ScanRow([file], DefinedNamespaces(manifest), Candidate, classExists, 0, 0)
  {
    var ns := DefinedNamespaces(manifest);
    var row := ScanRow([file], ns, Candidate, classExists, 0, 0);
    assert ScanFiles([file], ns, Candidate, classExists, 1) == [];
    assert ScanFiles([file], ns, Candidate, classExists, 0) == row + [];
    assert row + [] == row;
  }

  /** Duplicates are kept: two PSR-4 entries whose prefixes differ only in
      trailing separators (`Foo\` and `Foo`) report the same class twice. */
  lemma FindFilesKeepsDuplicates<D>(file: string, e1: Psr4Entry<D>, e2: Psr4Entry<D>,
                                    classExists: string -> bool)
    requires TrimSeparators(e1.prefix) == TrimSeparators(e2.prefix)
    requires classExists(Candidate(e1.prefix, file))
    ensures var name := Candidate(e1.prefix, file);
            FindFiles([file], Some([e1, e2]), classExists).classes == [name, name]
  {
    var files, ns := [file], [e1, e2];
    var name := Candidate(e1.prefix, file);
    assert Candidate(e2.prefix, file) == name;
    FindFilesOneFile(file, Some(ns), classExists);
    assert ScanRow(files, ns, Candidate, classExists, 0, 1) == [name] + [];
  }

  /** Two manifests list the same prefixes in the same order. */
  predicate SamePrefixes<D, E>(ns1: seq<Psr4Entry<D>>, ns2: seq<Psr4Entry<E>>)
  {
    |ns1| == |ns2| && forall k :: 0 <= k < |ns1| ==> ns1[k].prefix == ns2[k].prefix
  }

  lemma {:induction false} ScanRowIgnoresDirectories<D, E>(files: seq<string>, ns1: seq<Psr4Entry<D>>,
                                                          ns2: seq<Psr4Entry<E>>,
                                                          nameOf: (string, string) -> string,
                                                          classExists: string -> bool, i: nat, j: nat)
    requires SamePrefixes(ns1, ns2)
    requires i < |files| && j <= |ns1|
    ensures ScanRow(files, ns1, nameOf, classExists, i, j) == ScanRow(files, ns2, nameOf, classExists, i, j)
    decreases |ns1| - j
  {
    if j < |ns1| {
      assert ns1[j].prefix == ns2[j].prefix;
      ScanRowIgnoresDirectories(files, ns1, ns2, nameOf, classExists, i, j + 1);
    }
  }

  lemma {:induction false} ScanFilesIgnoresDirectories<D, E>(files: seq<string>, ns1: seq<Psr4Entry<D>>,
                                                            ns2: seq<Psr4Entry<E>>,
                                                            nameOf: (string, string) -> string,
                                                            classExists: string -> bool, i: nat)
    requires SamePrefixes(ns1, ns2)
    requires i <= |files|
    ensures ScanFiles(files, ns1, nameOf, classExists, i) == ScanFiles(files, ns2, nameOf, classExists, i)
    decreases |files| - i
  {
    if i < |files| {
      ScanRowIgnoresDirectories(files, ns1, ns2, nameOf, classExists, i, 0);
      ScanFilesIgnoresDirectories(files, ns1, ns2, nameOf, classExists, i + 1);
    }
  }

  /** The directory half of every PSR-4 entry is never used: manifests that
      list the same prefixes in the same order give the same result, whatever
      directories they map them to. */
  lemma FindFilesIgnoresDirectories<D, E>(files: seq<string>, m1: Option<seq<Psr4Entry<D>>>,
                                          m2: Option<seq<Psr4Entry<E>>>, classExists: string -> bool)
    requires SamePrefixes(DefinedNamespaces(m1), DefinedNamespaces(m2))
    ensures FindFiles(files, m1, classExists) == FindFiles(files, m2, classExists)
  {
    if files != [] {
      ScanFilesIgnoresDirectories(files, DefinedNamespaces(m1), DefinedNamespaces(m2), Candidate,
                                  classExists, 0);
    }
  }

  lemma {:induction false} ScanFilesWithoutEntries<D>(files: seq<string>, ns: seq<Psr4Entry<D>>,
                                                     nameOf: (string, string) -> string,
                                                     classExists: string -> bool, i: nat)
    requires ns == [] && i <= |files|
    ensures ScanFiles(files, ns, nameOf, classExists, i) == []
    decreases |files| - i
  {
    if i < |files| {
      ScanFilesWithoutEntries(files, ns, nameOf, classExists, i + 1);
    }
  }

  /** Fail-soft manifest: an unreadable or undecodable manifest behaves
      exactly like one with an empty PSR-4 section, and both find nothing,
      without any error. */
  lemma FindFilesWithoutManifest<D>(files: seq<string>, classExists: string -> bool)
    ensures FindFiles<D>(files, None, classExists).classes == []
    ensures FindFiles<D>(files, None, classExists) == FindFiles<D>(files, Some([]), classExists)
  {
    if files != [] {
      ScanFilesWithoutEntries<D>(files, [], Candidate, classExists, 0);
    }
  }
}
