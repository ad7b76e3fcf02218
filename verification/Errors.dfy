// Error codes of errors.def, and the reasons the interpreter stops with one.
module Errors {
  const OK := 0
  const TRUNCATED_LITERAL := -1
  const TRUNCATED_JUMP := -2
  const JUMP_OUT_OF_RANGE := -3
  const FELL_OFF_END := -10
  const DIV_BY_ZERO := -11
  const UNALIGNED := -12
  const OOB_MEMORY := -13
  const STACK_OVERFLOW := -14
  const STACK_UNDERFLOW := -15
  const INVALID_ARG := -16
  const DICTIONARY_FULL := -17
  const INVALID_WORD_IDX := -18
  const TASK_LIMIT := -20
  const MSG_QUEUE_FULL := -21
  const NO_MEMORY := -23
  const UNKNOWN_OP := -99
}
