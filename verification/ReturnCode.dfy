/** The return codes of src/dimserver/common/rc.h that the modelled code uses. */
module ReturnCode {

  datatype RC =
    | SUCCESS
    | FILE_NOT_FOUND
    | FILE_CREATE_ERR
    | FILE_OPEND
    | FILE_NOT_OPEN
    | FILE_FULL
    | FILE_NAME_INVALID
    | IOERR_READ
    | IOERR_SEEK
    | IOERR_WRITE
    | MESSAGE_INVALID
    | NO_MEM_POOL
    | BUFFERPOOL_OPENED
    | SCHEMA_DB_EXIST
    | OTHER(code: int)
    | THROWN // an exception leaves the call
  {
    predicate IsFail() {
      this != SUCCESS
    }
  }
}
