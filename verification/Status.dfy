/** Status codes returned by the storage layers (error.h). */
module StatusCodes {
  datatype Status =
    | OK
    | BADFILEPTR | BADFILE | FILEOPEN | FILENOTOPEN | UNIXERR | BADPAGENO | FILEEXISTS
    | HASHTBLERROR | HASHNOTFOUND | BUFFEREXCEEDED | PAGENOTPINNED | BADBUFFER | PAGEPINNED
    | NOSPACE | NORECORDS | ENDOFPAGE | INVALIDSLOTNO
    | BADSCANPARM | FILEEOF
    | BADSORTPARM | INSUFMEM

  datatype RID = RID(pageNo: int, slotNo: int)

  const NULLRID := RID(-1, -1)
}
