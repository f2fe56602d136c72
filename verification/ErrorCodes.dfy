/** The error codes of an RPC call (common/error_code.h) that the modelled code sets. */
module ErrorCodes {
  import opened Bytes

  const ERROR_FAILED_DESERIALIZE: Int32 := 10000003
  const ERROR_FAILED_SERIALIZE: Int32 := 10000004
  const ERROR_RPC_CALL_TIMEOUT: Int32 := 10000007
  const ERROR_SERVICE_NOT_FOUND: Int32 := 10000008
  const ERROR_METHOD_NOT_FOUND: Int32 := 10000009
  const ERROR_PARSE_SERVICE_NAME: Int32 := 10000010
}
