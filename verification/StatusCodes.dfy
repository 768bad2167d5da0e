/** The status codes the operations tell apart (Arinc615a.hpp). */
module StatusCodes {
  import opened RawData

  const OPERATION_ACCEPTED: UInt16 := 0x0001
  const OPERATION_IN_PROGRESS: UInt16 := 0x0002
  const OPERATION_COMPLETED: UInt16 := 0x0003
  const OPERATION_IN_PROGRESS_ADDITIONAL_INFO: UInt16 := 0x0004
  const OPERATION_NOT_ACCEPTED: UInt16 := 0x1000
  const OPERATION_NOT_SUPPORTED: UInt16 := 0x1002
  const OPERATION_ABORTED_BY_TARGET_HW: UInt16 := 0x1003
  const OPERATION_ABORTED_BY_DLP: UInt16 := 0x1004
  const OPERATION_ABORTED_BY_OPERATOR: UInt16 := 0x1005
}
