/** Return codes of the library, and a result that carries either a value or a code. */
module Results {
  datatype Error =
    | NoData              // AILSA_NO_DATA
    | PrefixOutOfRange    // AILSA_PREFIX_OUT_OF_RANGE
    | IpConvertFailed     // AILSA_IP_CONVERT_FAILED
    | WrongListLength     // AILSA_WRONG_LIST_LENGHT
    | RevZoneOverlap      // AILSA_REV_ZONE_OVERLAP
    | QueryFail           // AILSA_QUERY_FAIL
    | FileError           // AILSA_FILE_ERROR
    | CommandFail         // what system() returned
    | NoFields            // AILSA_NO_FIELDS
    | InvalidDbType       // AILSA_INVALID_DBTYPE
    | FetchFail           // what mysql_stmt_fetch returned
    | NoBuildIp           // NO_BUILD_IP
    | BuildIpInUse        // BUILD_IP_IN_USE
    | ListError           // the plain -1 of the list functions

  datatype Result<+T> = Ok(value: T) | Err(error: Error) {
    predicate IsFailure() { Err? }

    function PropagateFailure<U>(): Result<U>
      requires Err?
    {
      Err(error)
    }

    function Extract(): T
      requires Ok?
    {
      value
    }
  }

  datatype Option<+T> = None | Some(value: T)
}
