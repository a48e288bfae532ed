/** The shared list of locale files, and the recursive function that finds or makes a file in it. */
module LocaleList {
  import opened LocaleMasks
  import opened LocaleFiles
  import opened LocaleNames
  import opened Catalogue

  class L10nFile {
    const filename: string
    const decided: bool
    /** The number of successor pointers there is room for. */
    const slots: nat
    var successor: seq<L10nFile>

    constructor (filename: string, decided: bool, slots: nat)
      ensures this.filename == filename && this.decided == decided && this.slots == slots && successor == []
    {
      this.filename, this.decided, this.slots := filename, decided, slots;
      successor := [];
    }
  }

  function Names(files: seq<L10nFile>): seq<string> {
    seq(|files|, i requires 0 <= i < |files| => files[i].filename)
  }

  /** The list is in strictly decreasing order of names. */
  predicate Decreasing(files: seq<L10nFile>) {
    forall i, j {:trigger Larger(files[i], files[j])} :: 0 <= i < j < |files| ==> Larger(files[i], files[j])
  }

  predicate Larger(m: L10nFile, n: L10nFile) {
    Strcmp(m.filename, n.filename) > 0
  }

  /** Several directories, or both forms of the codeset: a file that is not looked for itself. */
  predicate Decided(dirs: seq<string>, mask: Mask) {
    DirCount(dirs) > 1 || (Has(mask, XPG_CODESET) && Has(mask, XPG_NORM_CODESET))
  }

  lemma DecidedIs(dirs: seq<string>, mask: Mask)
    ensures Decided(dirs, mask) <==> |dirs| > 1 || (mask % 2 == 1 && mask / 2 % 2 == 1)
  {
  }

  /** What is fixed about a file when it is made: its name, the room for successors, and whether it is decided. */
  predicate MadeFor(n: L10nFile, dirs: seq<string>, mask: Mask, loc: Locale) {
    n.filename == Name(dirs, mask, loc) && n.slots == Slots(dirs, mask) && n.decided == Decided(dirs, mask)
  }

  /**
   * A finished file: its successors are files of the list with shorter names, they are those its name stands for,
   * and there is room behind them for the null pointer.
   */
  ghost predicate Finished(n: L10nFile, files: seq<L10nFile>)
    reads n
  {
    && |n.successor| < n.slots
    && (forall i :: 0 <= i < |n.successor| ==>
          n.successor[i] in files && |n.successor[i].filename| < |n.filename|)
    && exists dirs, mask: Mask, loc ::
          MadeFor(n, dirs, mask, loc) && Names(n.successor) == NamesFrom(dirs, mask, loc, 0)
  }

  class FileList {
    var files: seq<L10nFile>

    /** All files are finished, except those that are being made. */
    ghost predicate Valid(open: set<L10nFile>)
      reads this, files
    {
      Decreasing(files) && forall n :: n in files && n !in open ==> Finished(n, files)
    }
  }

  lemma StillFinished(n: L10nFile, files: seq<L10nFile>, more: seq<L10nFile>)
    requires Finished(n, files) && forall f :: f in files ==> f in more
    ensures Finished(n, more)
  {
  }

  lemma Compares(a: string, b: string, c: string)
    ensures Strcmp(a, b) > 0 <==> Strcmp(b, a) < 0
    ensures Strcmp(a, b) == 0 <==> a == b
    ensures Strcmp(a, b) > 0 && Strcmp(b, c) > 0 ==> Strcmp(a, c) > 0
  {
    StrcmpOrders(a, b);
    StrcmpOrders(b, a);
    StrcmpOrders(b, c);
    StrcmpOrders(c, b);
    StrcmpOrders(c, a);
    StrcmpOrders(a, c);
    if Strcmp(a, b) > 0 && Strcmp(b, c) > 0 {
      StrcmpTransitive(c, b, a);
    }
  }

  /** The walk along the list: the file with the name, or the place where it belongs. */
  method FindFile(files: seq<L10nFile>, name: string) returns (retval: L10nFile?, lastp: nat)
    requires Decreasing(files)
    ensures retval != null ==> retval in files && retval.filename == name
    ensures retval == null ==> lastp <= |files|
    ensures retval == null ==> forall i :: 0 <= i < lastp ==> Strcmp(files[i].filename, name) > 0
    ensures retval == null ==> forall i :: lastp <= i < |files| ==> Strcmp(name, files[i].filename) > 0
  {
    lastp := 0;
    while lastp < |files|
      invariant lastp <= |files|
      invariant forall i :: 0 <= i < lastp ==> Strcmp(files[i].filename, name) > 0
    {
      var compare := Strcmp(files[lastp].filename, name);
      Compares(files[lastp].filename, name, name);
      if compare == 0 {
        return files[lastp], lastp;
      }
      if compare < 0 {
        Below(files, name, lastp);
        return null, lastp;
      }
      lastp := lastp + 1;
    }
    retval := null;
  }

  lemma Below(files: seq<L10nFile>, name: string, k: nat)
    requires Decreasing(files) && k < |files| && Strcmp(files[k].filename, name) < 0
    ensures forall i :: k <= i < |files| ==> Strcmp(name, files[i].filename) > 0
  {
    forall i | k <= i < |files|
      ensures Strcmp(name, files[i].filename) > 0
    {
      assert k < i ==> Larger(files[k], files[i]);
      Compares(name, files[k].filename, files[i].filename);
    }
  }

  lemma NotInList(files: seq<L10nFile>, k: nat, name: string)
    requires k <= |files|
    requires forall i :: 0 <= i < k ==> Strcmp(files[i].filename, name) > 0
    requires forall i :: k <= i < |files| ==> Strcmp(name, files[i].filename) > 0
    ensures forall f :: f in files ==> f.filename != name
  {
    Compares(name, name, "");
  }

  lemma InsertedIsDecreasing(files: seq<L10nFile>, k: nat, n: L10nFile)
    requires Decreasing(files) && k <= |files|
    requires forall i :: 0 <= i < k ==> Strcmp(files[i].filename, n.filename) > 0
    requires forall i :: k <= i < |files| ==> Strcmp(n.filename, files[i].filename) > 0
    ensures Decreasing(files[..k] + [n] + files[k..])
  {
  }

  /** Two files of the list with the same name are the same file. */
  lemma NamesAreUnique(files: seq<L10nFile>, i: nat, j: nat)
    requires Decreasing(files) && i < |files| && j < |files| && files[i].filename == files[j].filename
    ensures i == j
  {
    assert i < j ==> Larger(files[i], files[j]);
    assert j < i ==> Larger(files[j], files[i]);
    Compares(files[i].filename, files[j].filename, "");
    Compares(files[j].filename, files[i].filename, "");
  }

  /** The successors so far are files of the list with shorter names. */
  ghost predicate Linked(n: L10nFile, files: seq<L10nFile>)
    reads n
  {
    forall i :: 0 <= i < |n.successor| ==> n.successor[i] in files && |n.successor[i].filename| < |n.filename|
  }

  /** A file is being made, among others whose names are longer. */
  ghost predicate Making(list: FileList, open: set<L10nFile>, n: L10nFile, dirs: seq<string>, mask: Mask, loc: Locale)
    reads list, list.files, n
  {
    && list.Valid(open + {n}) && n in list.files && n !in open && Linked(n, list.files)
    && MadeFor(n, dirs, mask, loc)
    && (forall o :: o in open ==> o in list.files && |n.filename| < |o.filename|)
  }

  /** What a file inherits from has a shorter name. */
  lemma InheritedIsShorter(dirs: seq<string>, i: nat, cnt: Mask, mask: Mask, loc: Locale)
    requires Inherits(cnt, mask)
    ensures DirCount(dirs) > 1 && i < |dirs| ==> |Name([dirs[i]], cnt, loc)| < |Name(dirs, mask, loc)|
    ensures DirCount(dirs) == 1 && cnt < mask ==> |Name(dirs, cnt, loc)| < |Name(dirs, mask, loc)|
  {
    TailShortens(cnt, mask, loc);
    DirPrefixLength(dirs);
    if i < |dirs| {
      DirPrefixLength([dirs[i]]);
      OneDirShortens(dirs, i);
    }
  }

  function Several(dirs: seq<string>): nat {
    if DirCount(dirs) > 1 then 1 else 0
  }

  /** Enters a successor behind the others. */
  method EnterSuccessor(
      list: FileList, s: L10nFile, n: L10nFile,
      ghost open: set<L10nFile>, ghost all: seq<string>, ghost mask: Mask, ghost loc: Locale)
    requires Making(list, open, n, all, mask, loc) && s in list.files && |s.filename| < |n.filename|
    modifies n
    ensures Making(list, open, n, all, mask, loc)
    ensures Names(n.successor) == old(Names(n.successor)) + [s.filename]
  {
    n.successor := n.successor + [s];
  }

  /** Makes one successor and enters it; room has been reserved for it. */
  method AddSuccessor(
      list: FileList, dirs: seq<string>, cnt: Mask, loc: Locale, n: L10nFile,
      ghost open: set<L10nFile>, ghost all: seq<string>, ghost mask: Mask)
    requires Making(list, open, n, all, mask, loc) && Dirs(dirs, loc) == dirs
    requires |Name(dirs, cnt, loc)| < |n.filename| && |n.successor| + 1 < n.slots
    modifies list, n
    ensures Making(list, open, n, all, mask, loc)
    ensures forall f :: f in old(list.files) ==> f in list.files
    ensures Names(n.successor) == old(Names(n.successor)) + [Name(dirs, cnt, loc)]
    decreases Several(dirs), cnt, 5
  {
    var s := Make(list, dirs, cnt, loc, true, open + {n});
    EnterSuccessor(list, s, n, open, all, mask, loc);
  }

  /** The successors for one mask. */
  method AddMask(
      list: FileList, dirs: seq<string>, cnt: Mask, mask: Mask, loc: Locale, n: L10nFile, ghost open: set<L10nFile>)
    requires Making(list, open, n, dirs, mask, loc) && Dirs(dirs, loc) == dirs && cnt <= Top(dirs, mask)
    requires Names(n.successor) == NamesFrom(dirs, mask, loc, cnt + 1)
    modifies list, n
    ensures Making(list, open, n, dirs, mask, loc)
    ensures forall f :: f in old(list.files) ==> f in list.files
    ensures Names(n.successor) == NamesFrom(dirs, mask, loc, cnt)
    decreases Several(dirs), mask, 1
  {
    SuccessorsFit(dirs, mask, loc, cnt);
    if Inherits(cnt, mask) {
      if DirCount(dirs) > 1 {
        AddDirectories(list, dirs, cnt, mask, loc, n, open, NamesAt(dirs, cnt, mask, loc));
      } else {
        InheritedIsShorter(dirs, 0, cnt, mask, loc);
        AddSuccessor(list, dirs, cnt, loc, n, open, dirs, mask);
      }
    }
  }

  /** The loop over several directories. */
  method AddDirectories(
      list: FileList, dirs: seq<string>, cnt: Mask, mask: Mask, loc: Locale, n: L10nFile, ghost open: set<L10nFile>,
      ghost names: seq<string>)
    requires Making(list, open, n, dirs, mask, loc) && Dirs(dirs, loc) == dirs && DirCount(dirs) > 1
    requires Inherits(cnt, mask) && |n.successor| + |dirs| < n.slots
    requires |names| == |dirs| && forall i :: 0 <= i < |dirs| ==> names[i] == Name([dirs[i]], cnt, loc)
    modifies list, n
    ensures Making(list, open, n, dirs, mask, loc)
    ensures forall f :: f in old(list.files) ==> f in list.files
    ensures Names(n.successor) == old(Names(n.successor)) + names
    decreases Several(dirs), mask, 0
  {
    var i := 0;
    while i < |dirs|
      invariant i <= |dirs| && Making(list, open, n, dirs, mask, loc)
      invariant forall f :: f in old(list.files) ==> f in list.files
      invariant Names(n.successor) == old(Names(n.successor)) + names[..i]
    {
      InheritedIsShorter(dirs, i, cnt, mask, loc);
      AddSuccessor(list, [dirs[i]], cnt, loc, n, open, dirs, mask);
      assert names[..i + 1] == names[..i] + [names[i]];
      i := i + 1;
    }
    assert names[..i] == names;
  }

  /** The loop over the masks, from the file's own, or the one below it, down to 0; todo is one above the next. */
  method AddSuccessors(
      list: FileList, dirs: seq<string>, mask: Mask, loc: Locale, n: L10nFile, ghost open: set<L10nFile>)
    requires Making(list, open, n, dirs, mask, loc) && Dirs(dirs, loc) == dirs && n.successor == []
    modifies list, n
    ensures Making(list, open, n, dirs, mask, loc)
    ensures forall f :: f in old(list.files) ==> f in list.files
    ensures Names(n.successor) == NamesFrom(dirs, mask, loc, 0)
    decreases Several(dirs), mask, 2
  {
    var todo: nat := Top(dirs, mask) + 1;
    while todo > 0
      invariant todo <= Top(dirs, mask) + 1 && Making(list, open, n, dirs, mask, loc)
      invariant forall f :: f in old(list.files) ==> f in list.files
      invariant Names(n.successor) == NamesFrom(dirs, mask, loc, todo)
    {
      todo := todo - 1;
      AddMask(list, dirs, todo, mask, loc, n, open);
    }
  }

  /**
   * _nl_make_l10nflist: the file with the name for the directories and the mask; if it is not in the list it is
   * made, when that is asked for, together with all it inherits from.  Files in open are being made by callers.
   */
  method Make(
      list: FileList, dirlist: seq<string>, mask: Mask, loc: Locale, doAllocate: bool, ghost open: set<L10nFile>)
      returns (retval: L10nFile?)
    requires list.Valid(open)
    requires forall o :: o in open ==> o in list.files && |Name(Dirs(dirlist, loc), mask, loc)| < |o.filename|
    modifies list
    ensures list.Valid(open) && forall f :: f in old(list.files) ==> f in list.files
    ensures retval != null ==>
      retval in list.files && retval !in open && retval.filename == Name(Dirs(dirlist, loc), mask, loc)
    ensures doAllocate ==> retval != null
    ensures !doAllocate || retval in old(list.files) ==> list.files == old(list.files)
    ensures retval != null && retval !in old(list.files) ==>
      && fresh(retval) && MadeFor(retval, Dirs(dirlist, loc), mask, loc)
      && Names(retval.successor) == NamesFrom(Dirs(dirlist, loc), mask, loc, 0)
    ensures retval == null ==> forall f :: f in list.files ==> f.filename != Name(Dirs(dirlist, loc), mask, loc)
    decreases Several(Dirs(dirlist, loc)), mask, 4
  {
    var dirs := Dirs(dirlist, loc);
    var buf := BuildName(dirs, mask, loc);
    var absFilename := buf[..buf.Length - 1];
    var found, lastp := FindFile(list.files, absFilename);
    if found == null {
      NotInList(list.files, lastp, absFilename);
    }
    if found != null || !doAllocate {
      return found;
    }
    retval := MakeNew(list, absFilename, dirs, mask, loc, lastp, open);
  }

  /** The part that makes a file, at its place in the list. */
  method MakeNew(
      list: FileList, absFilename: string, dirs: seq<string>, mask: Mask, loc: Locale, lastp: nat,
      ghost open: set<L10nFile>)
      returns (n: L10nFile)
    requires list.Valid(open) && Dirs(dirs, loc) == dirs && absFilename == Name(dirs, mask, loc)
    requires forall o :: o in open ==> o in list.files && |Name(dirs, mask, loc)| < |o.filename|
    requires lastp <= |list.files|
    requires forall i :: 0 <= i < lastp ==> Strcmp(list.files[i].filename, Name(dirs, mask, loc)) > 0
    requires forall i :: lastp <= i < |list.files| ==> Strcmp(Name(dirs, mask, loc), list.files[i].filename) > 0
    modifies list
    ensures list.Valid(open) && forall f :: f in old(list.files) ==> f in list.files
    ensures n in list.files && n !in open && fresh(n)
    ensures MadeFor(n, dirs, mask, loc) && Names(n.successor) == NamesFrom(dirs, mask, loc, 0)
    decreases Several(dirs), mask, 3
  {
    var slots := CountSlots(dirs, mask);
    n := new L10nFile(absFilename,
      DirCount(dirs) > 1 || (Has(mask, XPG_CODESET) && Has(mask, XPG_NORM_CODESET)), slots);
    InsertFile(list, lastp, n, open);
    AddSuccessors(list, dirs, mask, loc, n, open);
    NowFinished(list, dirs, mask, loc, n, open);
  }

  /** Links a file into the list at its place. */
  method InsertFile(list: FileList, lastp: nat, n: L10nFile, ghost open: set<L10nFile>)
    requires list.Valid(open) && lastp <= |list.files|
    requires forall i :: 0 <= i < lastp ==> Strcmp(list.files[i].filename, n.filename) > 0
    requires forall i :: lastp <= i < |list.files| ==> Strcmp(n.filename, list.files[i].filename) > 0
    modifies list
    ensures list.Valid(open + {n}) && n in list.files && forall f :: f in old(list.files) ==> f in list.files
  {
    ghost var before := list.files;
    InsertedIsDecreasing(before, lastp, n);
    list.files := list.files[..lastp] + [n] + list.files[lastp..];
    assert list.files[lastp] == n;
    forall f | f in list.files && f !in open + {n}
      ensures Finished(f, list.files)
    {
      StillFinished(f, before, list.files);
    }
  }

  lemma NowFinished(
      list: FileList, dirs: seq<string>, mask: Mask, loc: Locale, n: L10nFile, open: set<L10nFile>)
    requires Making(list, open, n, dirs, mask, loc) && Names(n.successor) == NamesFrom(dirs, mask, loc, 0)
    ensures list.Valid(open)
  {
    SuccessorsFit(dirs, mask, loc, 0);
    assert Finished(n, list.files);
  }

  /** A way along successors through finished files. */
  ghost predicate Way(files: seq<L10nFile>, way: seq<L10nFile>)
    reads files
  {
    forall i, j :: 0 <= i < |way| && j == i + 1 && j < |way| ==>
      way[i] in files && Finished(way[i], files) && way[j] in way[i].successor
  }

  /** The graph of successors has no cycle: on every way the names get shorter and shorter. */
  lemma {:induction false} WaysShorten(files: seq<L10nFile>, way: seq<L10nFile>, i: nat, j: nat)
    requires Way(files, way) && i < j < |way|
    ensures |way[j].filename| + (j - i) <= |way[i].filename| && way[i] != way[j]
  {
    if i < j - 1 {
      WaysShorten(files, way, i, j - 1);
    }
    var last := way[j - 1];
    assert way[j] in last.successor;
  }
}
