/** Vocabulary shared by every part of the execution layer: the three-component
    `dim3` shape and the two-valued `qudaError_t` status. */
module QudaTypes {

  /** A launch shape, block/thread coordinate or logical width (`dim3`). */
  datatype Dim3 = Dim3(x: nat, y: nat, z: nat)

  /** The uniform status every launcher and shim call reports (`qudaError_t`). */
  datatype QudaStatus = QudaSuccess | QudaError

  /** A value that may be absent (a lane that returns early, a failed lookup). */
  datatype Option<+T> = None | Some(value: T)
}
