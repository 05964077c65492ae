/** The return codes the driver's functions share. */
module Odbc {

  datatype SqlReturn = SqlSuccess | SqlSuccessWithInfo | SqlError | SqlNeedData | SqlNoData | SqlParamDataAvailable

  /** SQL_SUCCEEDED */
  predicate Succeeded(rc: SqlReturn) {
    rc == SqlSuccess || rc == SqlSuccessWithInfo
  }
}
