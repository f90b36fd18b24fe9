/** The unix files behind the File objects of db.C.  Clients name a file by the handle
    the File object stands for; reads and writes of whole pages do not fail. */
module Disks {
  import opened Bytes
  import opened StatusCodes
  import opened PageSpec
  import opened FileSpec

  datatype FileRef = NullFile | FileRef(name: string)

  /** The page 0 that File::create writes. */
  function EmptyHeader(): (h: Image)
    ensures |h| == PAGESIZE
  {
    PutInt(PutInt(PutInt(ZeroPage(), NEXTFREE, -1), FIRSTPAGE, -1), NUMPAGES, 1)
  }

  lemma EmptyFile()
    ensures FileOK([EmptyHeader()]) && Refines([EmptyHeader()], FileModel(1, [], map[]))
  {
    hide PutInt, IntOf, IntAt, ZeroPage;
    var a := PutInt(ZeroPage(), NEXTFREE, -1);
    var b := PutInt(a, FIRSTPAGE, -1);
    PutIntFrame(a, FIRSTPAGE, -1, NEXTFREE);
    PutIntFrame(b, NUMPAGES, 1, NEXTFREE);
    PutIntFrame(b, NUMPAGES, 1, FIRSTPAGE);
  }

  class Disk {
    var files: map<FileRef, Pages>

    constructor ()
      ensures files == map[]
    {
      files := map[];
    }

    /** File::create: an empty file holds just its header page. */
    method Create(f: FileRef) returns (status: Status)
      modifies this
      ensures status == if f in old(files) then FILEEXISTS else OK
      ensures status != OK ==> files == old(files)
      ensures status == OK ==> files == old(files)[f := [EmptyHeader()]]
    {
      if f in files {
        return FILEEXISTS;
      }
      files := files[f := [EmptyHeader()]];
      return OK;
    }

    /** File::destroy. */
    method Destroy(f: FileRef) returns (status: Status)
      modifies this
      ensures status == if f in old(files) then OK else UNIXERR
      ensures files == old(files) - {f}
    {
      if f !in files {
        return UNIXERR;
      }
      files := files - {f};
      return OK;
    }

    method IntRead(f: FileRef, pageNo: int) returns (status: Status, page: Image)
      ensures status == if f in files && 0 <= pageNo < |files[f]| then OK else UNIXERR
      ensures status == OK ==> page == files[f][pageNo]
    {
      if f in files && 0 <= pageNo < |files[f]| {
        return OK, files[f][pageNo];
      } else {
        return UNIXERR, [];
      }
    }

    method IntWrite(f: FileRef, pageNo: int, page: Image) returns (status: Status)
      modifies this
      ensures status == if f in old(files) && 0 <= pageNo then OK else UNIXERR
      ensures status == OK ==> files == old(files)[f := WriteAt(old(files)[f], pageNo, page)]
      ensures status != OK ==> files == old(files)
    {
      if f in files && 0 <= pageNo {
        files := files[f := WriteAt(files[f], pageNo, page)];
        return OK;
      } else {
        return UNIXERR;
      }
    }

    /** File::readPage. */
    method ReadPage(f: FileRef, pageNo: int) returns (status: Status, page: Image)
      ensures status == if pageNo < 1 then BADPAGENO else if f in files && pageNo < |files[f]| then OK else UNIXERR
      ensures status == OK ==> page == files[f][pageNo]
    {
      if pageNo < 1 {
        return BADPAGENO, [];
      }
      status, page := IntRead(f, pageNo);
    }

    /** File::writePage. */
    method WritePage(f: FileRef, pageNo: int, page: Image) returns (status: Status)
      modifies this
      ensures status == if pageNo < 1 then BADPAGENO else if f in old(files) then OK else UNIXERR
      ensures status == OK ==> files == old(files)[f := WriteAt(old(files)[f], pageNo, page)]
      ensures status != OK ==> files == old(files)
    {
      if pageNo < 1 {
        return BADPAGENO;
      }
      status := IntWrite(f, pageNo, page);
    }

    /** File::getFirstPage. */
    method GetFirstPage(f: FileRef) returns (status: Status, pageNo: int)
      requires f in files ==> FileOK(files[f])
      ensures status == if f in files then OK else UNIXERR
      ensures status == OK ==> pageNo == if |files[f]| == 1 then -1 else 1
    {
      var header;
      status, header := IntRead(f, 0);
      if status != OK {
        return status, -1;
      }
      pageNo := First(header);
    }

    /** File::allocatePage. */
    method AllocatePage(f: FileRef) returns (status: Status, pageNo: int)
      requires f in files ==> FileOK(files[f]) && |files[f]| < MAXPAGES
      modifies this
      ensures status == if f in old(files) then OK else UNIXERR
      ensures status == OK ==> pageNo == AllocatedPage(old(files)[f])
      ensures status == OK ==> files == old(files)[f := Allocated(old(files)[f])]
      ensures status != OK ==> files == old(files)
    {
      hide IntAt, IntOf, PutInt, ZeroPage;
      var header;
      status, header := IntRead(f, 0);
      if status != OK {
        return status, -1;
      }
      if Next(header) != -1 {
        // take the first page of the free list
        pageNo := Next(header);
        var firstFree;
        status, firstFree := IntRead(f, pageNo);
        header := PutInt(header, NEXTFREE, Next(firstFree));
      } else {
        // no free page: extend the file
        pageNo := IntAt(header, NUMPAGES);
        status := IntWrite(f, pageNo, ZeroPage());
        header := PutInt(header, NUMPAGES, pageNo + 1);
        PutIntFrame(files[f][0], NUMPAGES, pageNo + 1, FIRSTPAGE);
        if First(header) == -1 {
          header := PutInt(header, FIRSTPAGE, pageNo);
        }
      }
      status := IntWrite(f, 0, header);
    }

    /** File::disposePage. */
    method DisposePage(f: FileRef, pageNo: int) returns (status: Status)
      requires f in files ==> FileOK(files[f])
      modifies this
      ensures status == if pageNo < 1 then BADPAGENO else if f !in old(files) then UNIXERR
                        else if MayDispose(old(files)[f], pageNo) then OK else BADPAGENO
      ensures status == OK ==> files == old(files)[f := Disposed(old(files)[f], pageNo)]
      ensures status != OK ==> files == old(files)
    {
      hide IntAt, IntOf, PutInt, ZeroPage;
      if pageNo < 1 {
        return BADPAGENO;
      }
      var header;
      status, header := IntRead(f, 0);
      if status != OK {
        return status;
      }
      if First(header) == pageNo || pageNo >= IntAt(header, NUMPAGES) {
        return BADPAGENO;
      }
      var away := PutInt(ZeroPage(), NEXTFREE, Next(header));
      header := PutInt(header, NEXTFREE, pageNo);
      status := IntWrite(f, pageNo, away);
      status := IntWrite(f, 0, header);
    }
  }
}
