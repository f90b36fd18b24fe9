/** Open files (db.C): File objects with their open counts, and the DB object with its hash
    table of open files. */
module OpenFiles {
  import opened StatusCodes
  import opened FileSpec
  import opened Disks
  import opened PoolSpec
  import opened PoolFree
  import opened PoolRefinement
  import opened PoolClient
  import opened HeapSession
  import opened Interference
  import PoolRing
  import opened BufMgrs
  import ChainedHash

  // ----- Open counts over runs -----

  datatype DbOp = Open(name: string) | Close(name: string)

  /** How often each open file has been opened and not closed again. */
  function StepCounts(m: map<string, int>, op: DbOp): map<string, int> {
    match op
    case Open(n) => m[n := 1 + if n in m then m[n] else 0]
    case Close(n) => if n !in m then m else if m[n] == 1 then m - {n} else m[n := m[n] - 1]
  }

  function RunCounts(m: map<string, int>, ops: seq<DbOp>): map<string, int> {
    if ops == [] then m else StepCounts(RunCounts(m, ops[..|ops| - 1]), ops[|ops| - 1])
  }

  /** Successful opens minus closes of one name. */
  function Balance(ops: seq<DbOp>, n: string): int {
    if ops == [] then 0
    else
      var last := ops[|ops| - 1];
      Balance(ops[..|ops| - 1], n) + (if last == Open(n) then 1 else if last == Close(n) then -1 else 0)
  }

  /** Every close is of an open file. */
  ghost predicate Legal(ops: seq<DbOp>) {
    forall i :: 0 <= i < |ops| && ops[i].Close? ==> Balance(ops[..i], ops[i].name) > 0
  }

  /** Over any run a name is in the table exactly while it has been opened more often than
      closed, and its open count is the difference. */
  lemma {:induction false} CountsAreBalances(ops: seq<DbOp>, n: string)
    requires Legal(ops)
    ensures var m := RunCounts(map[], ops);
      && Balance(ops, n) >= 0
      && (n in m <==> Balance(ops, n) > 0)
      && (n in m ==> m[n] == Balance(ops, n))
  {
    if ops != [] {
      var k := |ops| - 1;
      forall i | 0 <= i < k && ops[i].Close?
        ensures Balance(ops[..k][..i], ops[i].name) > 0
      {
        assert ops[..k][..i] == ops[..i];
      }
      CountsAreBalances(ops[..k], n);
      CountsAreBalances(ops[..k], ops[k].name);
      assert ops[k].Close? ==> Balance(ops[..k], ops[k].name) > 0;
    }
  }

  // ----- The last close -----

  lemma ClosedFrames(p: Pool, f: FileRef, j: nat)
    requires Inv(p) && Closed(p, f) && f != NullFile && j < |p.frames| && p.frames[j].file == f
    ensures p.frames[j].pinCnt == 0
  {
    assert FrameOK(p, j);
    assert p.frames[j].pinCnt > 0 ==> Pinned(p, KeyOf(p.frames[j]));
  }

  /** Durability at the last close: with no page of the file pinned, every page is on disk as
      clients saw it, and no frame or hash entry refers to the file. */
  lemma LastCloseDurable(p: Pool, f: FileRef, touched: set<Key>)
    requires Inv(p) && Coherent(p, touched) && f in p.disk && Closed(p, f)
    ensures var q := AfterFlush(p, f, 0);
      && FlushStatus(p, f, 0) == OK && SameViews(p, q) && Coherent(q, touched)
      && (forall k :: k in q.index ==> k.file != f)
      && (forall j :: 0 <= j < |q.frames| ==> q.frames[j].file != f)
      && (forall n :: n in ViewOf(p, f) ==> PageExists(q.disk, Key(f, n)) && q.disk[f][n] == ViewOf(p, f)[n])
  {
    hide Coherent, AfterFlush, FlushStatus, View, SameViews;
    FileFacts(p, f);
    forall j | 0 <= j < |p.frames| && p.frames[j].file == f
      ensures p.frames[j].pinCnt == 0
    {
      ClosedFrames(p, f, j);
    }
    FlushMakesDurable(p, f, touched);
    forall n | n in ViewOf(p, f)
      ensures PageExists(AfterFlush(p, f, 0).disk, Key(f, n))
    {
      assert PageExists(p.disk, Key(f, n)) && Key(f, n).file == f;
    }
  }

  /** flushFile never drops a pinned page. */
  lemma {:induction false} FlushKeepsPinned(p: Pool, f: FileRef, i: nat, k: Key)
    requires Inv(p) && i <= |p.frames| && Pinned(p, k)
    ensures Pinned(AfterFlush(p, f, i), k)
    decreases |p.frames| - i
  {
    hide Inv, Flushed;
    if i < |p.frames| {
      FrameFields(p, i);
      if p.frames[i].file != f {
        FlushKeepsPinned(p, f, i + 1, k);
      } else if p.frames[i].valid && p.frames[i].pinCnt <= 0 {
        InvFlushed(p, i);
        FlushedKeepsPinned(p, i, k);
        FlushKeepsPinned(Flushed(p, i), f, i + 1, k);
      }
    }
  }

  lemma FlushedKeepsPinned(p: Pool, i: nat, k: Key)
    requires Inv(p) && i < |p.frames| && p.frames[i].valid && p.frames[i].pinCnt == 0 && Pinned(p, k)
    ensures Pinned(Flushed(p, i), k)
  {
    assert IndexedOK(p, k);
    assert FrameOK(p, i);
  }

  /** The last close leaves nothing of the file in the pool exactly when no page was pinned;
      closeFile does not look at what flushFile returns. */
  lemma LastCloseEmptiesIff(p: Pool, f: FileRef, touched: set<Key>)
    requires Inv(p) && Coherent(p, touched) && f in p.disk
    ensures (forall k :: k in AfterFlush(p, f, 0).index ==> k.file != f) <==> Closed(p, f)
  {
    hide Inv, Coherent, AfterFlush, FlushStatus, View, SameViews;
    if Closed(p, f) {
      LastCloseDurable(p, f, touched);
    } else {
      var k :| Pinned(p, k) && k.file == f;
      FlushKeepsPinned(p, f, 0, k);
      assert k in AfterFlush(p, f, 0).index;
    }
  }

  // ----- Creating and destroying -----

  lemma InvCreated(p: Pool, f: FileRef)
    requires Inv(p) && f !in p.disk && f != NullFile
    ensures Inv(p.(disk := p.disk[f := [EmptyHeader()]]))
  {
    hide EmptyHeader, FileOK, Refines;
    EmptyFile();
    EmptyFileOK();
    InvDisk(p, p.disk[f := [EmptyHeader()]]);
  }

  /** A new file owes nothing and changes no page. */
  lemma CoherentCreated(p: Pool, f: FileRef, owed: set<Key>)
    requires Inv(p) && f !in p.disk && f != NullFile && Coherent(p, owed)
    ensures var q := p.(disk := p.disk[f := [EmptyHeader()]]); Inv(q) && Coherent(q, owed)
  {
    hide EmptyHeader, FileOK;
    InvCreated(p, f);
    var q := p.(disk := p.disk[f := [EmptyHeader()]]);
    forall i | 0 <= i < |q.frames|
      ensures Accounted(q, owed, i)
    {
      assert Accounted(p, owed, i) && FrameOK(p, i);
    }
    forall k | k in owed
      ensures Pinned(q, k)
    {
      assert Pinned(p, k);
    }
  }

  lemma NothingResident(p: Pool, f: FileRef)
    requires Inv(p) && f !in p.disk
    ensures forall k :: k in p.index ==> k.file != f
  {
    hide Inv;
    forall k | k in p.index
      ensures k.file != f
    {
      FileOfResident(p, k);
    }
  }

  lemma CreatedLeaves(p: Pool, f: FileRef, owed: set<Key>)
    requires Inv(p) && f !in p.disk && f != NullFile && Coherent(p, owed)
    ensures LeavesOthers(p, owed, p.(disk := p.disk[f := [EmptyHeader()]]), owed, f)
  {
    hide EmptyHeader, Inv, Coherent, LeavesOthers;
    CoherentCreated(p, f, owed);
    FileLeaves(p, p.disk[f := [EmptyHeader()]], f, owed);
  }

  /** A new file has no free page. */
  lemma ListsCreated(p: Pool, free: FreePages, f: FileRef)
    requires Inv(p) && ListsOK(p, free) && f !in p.disk
    ensures ListsOK(p.(disk := p.disk[f := [EmptyHeader()]]), free[f := []])
  {
    hide EmptyHeader, FreeList;
    EmptyFile();
    var q := p.(disk := p.disk[f := [EmptyHeader()]]);
    forall g | g in q.disk
      ensures Listed(q.disk, free[f := []], g)
    {
      assert g != f ==> Listed(p.disk, free, g);
    }
  }

  lemma EmptyFileOK()
    ensures FileOK([EmptyHeader()])
  {
    hide EmptyHeader;
    EmptyFile();
  }

  /** A file may be destroyed once no frame holds a page of it. */
  lemma InvDestroyed(p: Pool, f: FileRef)
    requires Inv(p) && forall k :: k in p.index ==> k.file != f
    ensures Inv(p.(disk := p.disk - {f}))
  {
    var q := p.(disk := p.disk - {f});
    forall i | 0 <= i < |q.frames|
      ensures FrameOK(q, i)
    {
      assert FrameOK(p, i);
    }
    forall k | k in q.index
      ensures IndexedOK(q, k)
    {
      assert IndexedOK(p, k);
    }
  }

  // ----- File and DB -----

  class File {
    const fileName: string
    var openCnt: int

    constructor (fileName: string)
      ensures this.fileName == fileName && openCnt == 0
    {
      this.fileName := fileName;
      openCnt := 0;
    }

    /** File::open: the unix file is opened the first time only. */
    method Open(disk: Disk) returns (status: Status)
      modifies this
      ensures status == if old(openCnt) == 0 && FileRef(fileName) !in disk.files then UNIXERR else OK
      ensures openCnt == if status != OK then old(openCnt) else old(openCnt) + 1
    {
      if openCnt == 0 {
        if FileRef(fileName) !in disk.files {
          return UNIXERR;
        }
        openCnt := 1;
      } else {
        openCnt := openCnt + 1;
      }
      return OK;
    }

    /** File::close: the last close flushes the pages of the file; what flushFile returns is
        ignored. */
    method Close(bm: BufMgr) returns (status: Status)
      requires bm.Valid()
      modifies this, bm.bufTable, bm.hashTable, bm.hashTable.ht, bm.hashTable.Repr, bm.disk
      ensures bm.Valid() && fresh(bm.hashTable.Repr - old(bm.hashTable.Repr))
      ensures status == if old(openCnt) <= 0 then FILENOTOPEN else OK
      ensures openCnt == if old(openCnt) <= 0 then old(openCnt) else old(openCnt) - 1
      ensures bm.Abs() == if old(openCnt) == 1 then AfterFlush(old(bm.Abs()), FileRef(fileName), 0) else old(bm.Abs())
    {
      hide ChainedHash.HashTable.Valid, Inv, BufMgr.Wired, AfterFlush, FlushStatus;
      if openCnt <= 0 {
        return FILENOTOPEN;
      }
      openCnt := openCnt - 1;
      if openCnt == 0 {
        var ignored := bm.FlushFile(FileRef(fileName));
      }
      return OK;
    }
  }

  /** The entry for name n is a File object of that name, and open. */
  ghost predicate EntryOK(m: map<string, File?>, n: string)
    requires n in m
    reads m.Values
  {
    m[n] != null && m[n].fileName == n && m[n].openCnt >= 1 && n != ""
  }

  ghost predicate TableOK(m: map<string, File?>)
    reads m.Values
  {
    forall n :: n in m ==> EntryOK(m, n)
  }

  ghost function CountsOf(m: map<string, File?>): map<string, int>
    requires TableOK(m)
    reads m.Values
  {
    map n | n in m :: assert EntryOK(m, n); m[n].openCnt
  }

  /** A File object that is in the table is there under its own name only. */
  lemma OneEntry(m: map<string, File?>, n: string)
    requires TableOK(m) && n in m
    ensures m[n] != null && m[n].fileName == n && n != "" && m[n].openCnt == CountsOf(m)[n]
    ensures forall k :: k in m && k != n ==> m[k] != m[n]
  {
    assert EntryOK(m, n);
    forall k | k in m && k != n
      ensures m[k] != m[n]
    {
      assert EntryOK(m, k);
    }
  }

  lemma NamesCounted(m: map<string, File?>)
    requires TableOK(m)
    ensures CountsOf(m).Keys == m.Keys && "" !in m
  {
    if "" in m {
      OneEntry(m, "");
    }
  }

  lemma Entered(m: map<string, File?>, file: File)
    requires TableOK(m) && file.fileName !in m && file.openCnt == 1 && file.fileName != ""
    ensures var m' := m[file.fileName := file]; TableOK(m') && CountsOf(m') == CountsOf(m)[file.fileName := 1]
  {
    var m' := m[file.fileName := file];
    forall k | k in m'
      ensures EntryOK(m', k)
    {
      assert k != file.fileName ==> EntryOK(m, k);
    }
  }

  /** One open more of a file that is open. */
  method OpenAgain(ghost m: map<string, File?>, file: File, disk: Disk) returns (status: Status)
    requires TableOK(m) && file.fileName in m && m[file.fileName] == file
    modifies file
    ensures status == OK && TableOK(m) && CountsOf(m) == StepCounts(old(CountsOf(m)), Open(file.fileName))
  {
    ghost var n := file.fileName;
    OneEntry(m, n);
    status := file.Open(disk);
    forall k | k in m
      ensures EntryOK(m, k)
      ensures k != n ==> m[k].openCnt == old(m[k].openCnt)
    {
      assert old(EntryOK(m, k));
    }
  }

  /** File::close of a file in the table.  At the last close it is no longer an open file, and
      what remains of the table is right without it. */
  method CloseOnce(ghost m: map<string, File?>, file: File, bm: BufMgr) returns (status: Status)
    requires TableOK(m) && file.fileName in m && m[file.fileName] == file && bm.Valid()
    modifies file, bm.bufTable, bm.hashTable, bm.hashTable.ht, bm.hashTable.Repr, bm.disk
    ensures bm.Valid() && fresh(bm.hashTable.Repr - old(bm.hashTable.Repr))
    ensures status == OK && (file.openCnt == 0 <==> old(CountsOf(m))[file.fileName] == 1)
    ensures var m' := if file.openCnt == 0 then m - {file.fileName} else m;
      TableOK(m') && CountsOf(m') == StepCounts(old(CountsOf(m)), Close(file.fileName))
    ensures bm.Abs() ==
      if file.openCnt == 0 then AfterFlush(old(bm.Abs()), FileRef(file.fileName), 0) else old(bm.Abs())
  {
    hide ChainedHash.HashTable.Valid, BufMgr.Wired, BufMgr.Abs, BufMgr.Valid, Inv, AfterFlush, CountsOf, TableOK;
    hide StepCounts;
    ghost var n := file.fileName;
    ghost var counts := CountsOf(m);
    Entries(m);
    status := file.Close(bm);
    CountedDown(m, n, counts);
  }

  /** What the table says of every file in it. */
  lemma Entries(m: map<string, File?>)
    requires TableOK(m)
    ensures CountsOf(m).Keys == m.Keys
    ensures forall k :: k in m ==> EntryOK(m, k) && m[k].openCnt == CountsOf(m)[k]
  {
    forall k | k in m
      ensures EntryOK(m, k) && m[k].openCnt == CountsOf(m)[k]
    {
    }
  }

  /** One close of file n, all other files as before. */
  lemma CountedDown(m: map<string, File?>, n: string, counts: map<string, int>)
    requires n in m && counts.Keys == m.Keys && n != "" && m[n] != null && m[n].fileName == n
    requires 0 <= m[n].openCnt == counts[n] - 1
    requires forall k :: k in m && k != n ==> EntryOK(m, k) && m[k].openCnt == counts[k]
    ensures var m' := if m[n].openCnt == 0 then m - {n} else m;
      TableOK(m') && CountsOf(m') == StepCounts(counts, Close(n))
  {
    var m' := if m[n].openCnt == 0 then m - {n} else m;
    forall k | k in m'
      ensures EntryOK(m', k) && m'[k].openCnt == StepCounts(counts, Close(n))[k]
    {
      assert k != n ==> EntryOK(m, k);
    }
  }

  class DB {
    const openFiles: ChainedHash.HashTable<string, File?>
    const bm: BufMgr
    ghost var files: set<File?>    // the objects in the table

    /** The table names exactly the open files. */
    ghost predicate Valid()
      reads this, openFiles, openFiles.ht, openFiles.Repr, files
      reads bm, bm.bufTable, bm.hashTable, bm.hashTable.ht, bm.hashTable.Repr, bm.disk, bm.mems
    {
      openFiles.Valid() && bm.Valid() && files == openFiles.M.Values && TableOK(openFiles.M)
    }

    /** The pool under the files. */
    ghost function PoolNow(): Pool
      reads this, openFiles, openFiles.ht, openFiles.Repr, files
      reads bm, bm.bufTable, bm.hashTable, bm.hashTable.ht, bm.hashTable.Repr, bm.disk, bm.mems
    {
      if Valid() then bm.Abs() else Pool([], [], [], map[], map[])
    }

    lemma BufValid()
      requires Valid()
      ensures bm.Valid() && bm.Wired() && Inv(bm.Abs()) && NullFile !in bm.Abs().disk && PoolNow() == bm.Abs()
    {
    }

    ghost function Counts(): (m: map<string, int>)
      requires Valid()
      reads this, openFiles, openFiles.ht, openFiles.Repr, files
      reads bm, bm.bufTable, bm.hashTable, bm.hashTable.ht, bm.hashTable.Repr, bm.disk, bm.mems
    {
      CountsOf(openFiles.M)
    }

    /** No file open; `hash` spreads file names over the bucket lists. */
    constructor (bm: BufMgr, hash: string -> int)
      requires bm.Valid()
      ensures Valid() && this.bm == bm && Counts() == map[] && fresh(openFiles) && fresh(openFiles.ht)
      ensures openFiles.Repr == {} && files == {} && openFiles.size == 113
    {
      this.bm, files := bm, {};
      openFiles := new ChainedHash.HashTable(113, hash);
    }

    /** The part of openFile for a file that is not open. */
    method OpenNew(fileName: string) returns (status: Status, file: File?)
      requires openFiles.Valid() && TableOK(openFiles.M) && fileName !in openFiles.M && fileName != ""
      modifies openFiles, openFiles.ht
      ensures openFiles.Valid() && fresh(openFiles.Repr - old(openFiles.Repr)) && TableOK(openFiles.M)
      ensures status == if FileRef(fileName) in bm.disk.files then OK else UNIXERR
      ensures status != OK ==> openFiles.M == old(openFiles.M)
      ensures status == OK ==> file != null && fresh(file) && openFiles.M == old(openFiles.M)[fileName := file]
      ensures status == OK ==> CountsOf(openFiles.M) == StepCounts(old(CountsOf(openFiles.M)), Open(fileName))
    {
      hide ChainedHash.HashTable.Valid, TableOK, CountsOf;
      NamesCounted(openFiles.M);
      file := new File(fileName);
      status := file.Open(bm.disk);
      if status != OK {
        return status, null;
      }
      ghost var m := openFiles.M;
      Entered(m, file);
      status := openFiles.Insert(fileName, file);
    }

    /** The same, with the objects in the table. */
    method OpenEntry(fileName: string) returns (status: Status, file: File?)
      requires Valid() && fileName !in openFiles.M && fileName != ""
      modifies `files, openFiles, openFiles.ht
      ensures Valid() && fresh(openFiles.Repr - old(openFiles.Repr)) && fresh(files - old(files))
      ensures status == if FileRef(fileName) in bm.disk.files then OK else UNIXERR
      ensures Counts() == if status == OK then StepCounts(old(Counts()), Open(fileName)) else old(Counts())
      ensures status == OK ==> fileName in openFiles.M && file == openFiles.M[fileName]
    {
      hide ChainedHash.HashTable.Valid, BufMgr.Valid, TableOK, CountsOf, StepCounts;
      status, file := OpenNew(fileName);
      files := openFiles.M.Values;
    }

    /** DB::openFile. */
    method OpenFile(fileName: string) returns (status: Status, file: File?)
      requires Valid()
      modifies `files, openFiles, openFiles.ht, files
      ensures Valid() && fresh(openFiles.Repr - old(openFiles.Repr))
      ensures fresh(files - old(files))
      ensures status == if fileName == "" then BADFILE
        else if fileName in old(Counts()) || FileRef(fileName) in bm.disk.files then OK else UNIXERR
      ensures Counts() == if status == OK then StepCounts(old(Counts()), Open(fileName)) else old(Counts())
      ensures status == OK ==> fileName in openFiles.M && file == openFiles.M[fileName]
    {
      hide ChainedHash.HashTable.Valid, BufMgr.Valid, TableOK, CountsOf, StepCounts;
      NamesCounted(openFiles.M);
      if fileName == "" {
        return BADFILE, null;
      }
      var found;
      found, file := openFiles.Lookup(fileName);
      if found == OK {
        OneEntry(openFiles.M, fileName);
        status := OpenAgain(openFiles.M, file, bm.disk);
      } else {
        status, file := OpenEntry(fileName);
      }
    }

    /** The part of closeFile after the handle has been found good. */
    method CloseEntry(file: File)
      requires openFiles.Valid() && bm.Valid() && TableOK(openFiles.M)
      requires file.fileName in openFiles.M && openFiles.M[file.fileName] == file
      modifies openFiles, openFiles.ht, openFiles.Repr, file
      modifies bm.bufTable, bm.hashTable, bm.hashTable.ht, bm.hashTable.Repr, bm.disk
      ensures openFiles.Valid() && bm.Valid() && TableOK(openFiles.M)
      ensures fresh(openFiles.Repr - old(openFiles.Repr)) && fresh(bm.hashTable.Repr - old(bm.hashTable.Repr))
      ensures openFiles.M.Values <= old(openFiles.M.Values)
      ensures CountsOf(openFiles.M) == StepCounts(old(CountsOf(openFiles.M)), Close(file.fileName))
      ensures old(file.fileName in CountsOf(openFiles.M))
      ensures bm.Abs() == if old(CountsOf(openFiles.M))[file.fileName] == 1
        then AfterFlush(old(bm.Abs()), FileRef(file.fileName), 0) else old(bm.Abs())
    {
      hide ChainedHash.HashTable.Valid, BufMgr.Wired, BufMgr.Abs, BufMgr.Valid, Inv, AfterFlush, TableOK, CountsOf;
      hide StepCounts;
      NamesCounted(openFiles.M);
      var closed := CloseOnce(openFiles.M, file, bm);
      if file.openCnt == 0 {
        closed := openFiles.Remove(file.fileName);
      }
    }

    /** The part of closeFile for a file that is open. */
    method CloseOpen(file: File)
      requires Valid() && file.fileName in openFiles.M && openFiles.M[file.fileName] == file
      modifies `files, openFiles, openFiles.ht, openFiles.Repr, files
      modifies bm.bufTable, bm.hashTable, bm.hashTable.ht, bm.hashTable.Repr, bm.disk
      ensures Valid() && fresh(openFiles.Repr - old(openFiles.Repr))
      ensures fresh(bm.hashTable.Repr - old(bm.hashTable.Repr)) && files <= old(files)
      ensures old(file.fileName in Counts()) && Counts() == StepCounts(old(Counts()), Close(file.fileName))
      ensures bm.Abs() == if old(Counts()[file.fileName]) == 1
        then AfterFlush(old(bm.Abs()), FileRef(file.fileName), 0) else old(bm.Abs())
    {
      hide ChainedHash.HashTable.Valid, BufMgr.Wired, BufMgr.Abs, BufMgr.Valid, Inv, AfterFlush, TableOK, CountsOf;
      hide StepCounts;
      NamesCounted(openFiles.M);
      CloseEntry(file);
      files := openFiles.M.Values;
    }

    /** DB::closeFile of a handle that openFile returned. */
    method CloseFile(file: File?) returns (status: Status)
      requires Valid()
      requires file != null ==> file.fileName in openFiles.M && openFiles.M[file.fileName] == file
      modifies `files, openFiles, openFiles.ht, openFiles.Repr, files
      modifies bm.bufTable, bm.hashTable, bm.hashTable.ht, bm.hashTable.Repr, bm.disk
      ensures Valid() && fresh(openFiles.Repr - old(openFiles.Repr))
      ensures fresh(bm.hashTable.Repr - old(bm.hashTable.Repr)) && files <= old(files)
      ensures status == if file == null then BADFILEPTR else OK
      ensures Counts() == if file == null then old(Counts()) else StepCounts(old(Counts()), Close(file.fileName))
      ensures bm.Abs() == if file != null && old(Counts()[file.fileName]) == 1
        then AfterFlush(old(bm.Abs()), FileRef(file.fileName), 0) else old(bm.Abs())
    {
      hide ChainedHash.HashTable.Valid, BufMgr.Wired, BufMgr.Abs, BufMgr.Valid, Inv, AfterFlush, TableOK, CountsOf;
      hide StepCounts;
      NamesCounted(openFiles.M);
      if file == null {
        return BADFILEPTR;
      }
      CloseOpen(file);
      return OK;
    }

    /** DB::createFile. */
    method CreateFile(fileName: string) returns (status: Status)
      requires Valid()
      modifies bm.disk
      ensures Valid() && Counts() == old(Counts())
      ensures status == if fileName == "" then BADFILE
        else if fileName in Counts() || FileRef(fileName) in old(bm.disk.files) then FILEEXISTS else OK
      ensures var p := old(bm.Abs());
        bm.Abs() == if status == OK then p.(disk := p.disk[FileRef(fileName) := [EmptyHeader()]]) else p
    {
      hide ChainedHash.HashTable.Valid, BufMgr.Wired, Inv, TableOK, CountsOf, EmptyHeader, PoolRing.Ring;
      hide PoolRing.FramesOf;
      if fileName == "" {
        return BADFILE;
      }
      NamesCounted(openFiles.M);
      var found, file := openFiles.Lookup(fileName);
      if found == OK {
        return FILEEXISTS;
      }
      ghost var p := bm.Abs();
      status := bm.disk.Create(FileRef(fileName));
      if status == OK {
        InvCreated(p, FileRef(fileName));
      }
    }

    /** DB::destroyFile. */
    method DestroyFile(fileName: string) returns (status: Status)
      requires Valid()
      requires fileName !in Counts() ==> forall k :: k in bm.Abs().index ==> k.file != FileRef(fileName)
      modifies bm.disk
      ensures Valid() && Counts() == old(Counts())
      ensures status == if fileName == "" then BADFILE else if fileName in Counts() then FILEOPEN
        else if FileRef(fileName) in old(bm.disk.files) then OK else UNIXERR
      ensures var p := old(bm.Abs());
        bm.Abs() == if status == OK then p.(disk := p.disk - {FileRef(fileName)}) else p
    {
      hide ChainedHash.HashTable.Valid, BufMgr.Wired, Inv, TableOK, CountsOf, PoolRing.Ring, PoolRing.FramesOf;
      if fileName == "" {
        return BADFILE;
      }
      NamesCounted(openFiles.M);
      var found, file := openFiles.Lookup(fileName);
      if found == OK {
        return FILEOPEN;
      }
      ghost var p := bm.Abs();
      status := bm.disk.Destroy(FileRef(fileName));
      if status == OK {
        InvDestroyed(p, FileRef(fileName));
      } else {
        assert p.disk - {FileRef(fileName)} == p.disk;
      }
    }

    /** What generateRun does to a run name before it opens the file: createFile, and destroyFile if
        that succeeds.  The name is tested, and no file is left behind. */
    method TestName(fileName: string) returns (status: Status)
      requires Valid()
      modifies bm.disk
      ensures Valid() && Counts() == old(Counts()) && bm.Abs() == old(bm.Abs()) && bm.disk.files == old(bm.disk.files)
      ensures status == if fileName == "" then BADFILE
        else if fileName in Counts() || FileRef(fileName) in old(bm.disk.files) then FILEEXISTS else OK
    {
      hide ChainedHash.HashTable.Valid, BufMgr.Wired, BufMgr.Valid, Inv, TableOK, CountsOf, EmptyHeader;
      BufValid();
      ghost var p := bm.Abs();
      status := CreateFile(fileName);
      if status == OK {
        NothingResident(p, FileRef(fileName));
        BufValid();
        status := DestroyFile(fileName);
        BufValid();
        assert p.disk[FileRef(fileName) := [EmptyHeader()]] - {FileRef(fileName)} == p.disk;
      }
    }

    /** Opening the run file next, as generateRun is written: the file is gone. */
    method OpenTested(fileName: string) returns (status: Status, file: File?)
      requires Valid()
      modifies `files, openFiles, openFiles.ht, files, bm.disk
      ensures Valid() && Counts() == old(Counts()) && bm.Abs() == old(bm.Abs()) && bm.disk.files == old(bm.disk.files)
      ensures status == if fileName == "" then BADFILE
        else if fileName in old(Counts()) || FileRef(fileName) in old(bm.disk.files) then FILEEXISTS else UNIXERR
    {
      hide ChainedHash.HashTable.Valid, BufMgr.Valid, Inv, TableOK, CountsOf;
      file := null;
      status := TestName(fileName);
      if status == OK {
        status, file := OpenFile(fileName);
      }
    }
  }
}
