/** Outcomes of calls that can fail with an OpenCL error code. */
module Wrappers {
  datatype Option<+T> = None | Some(value: T)

  datatype Result<+T> = Success(value: T) | Failure(error: int)

  const CL_SUCCESS := 0

  /** Execution states of an event; negative values are errors. */
  const CL_COMPLETE := 0
  const CL_RUNNING := 1
  const CL_SUBMITTED := 2
  const CL_QUEUED := 3

  const CL_OUT_OF_RESOURCES := -5
  const CL_MEM_COPY_OVERLAP := -8
  const CL_EXEC_STATUS_ERROR_FOR_EVENTS_IN_WAIT_LIST := -14
  const CL_INVALID_VALUE := -30
  const CL_INVALID_COMMAND_QUEUE := -36
  const CL_INVALID_WORK_DIMENSION := -53
  const CL_INVALID_WORK_GROUP_SIZE := -54
  const CL_INVALID_GLOBAL_OFFSET := -56
  const CL_INVALID_EVENT := -58
  const CL_INVALID_OPERATION := -59
  const CL_INVALID_GLOBAL_WORK_SIZE := -63
}
