/** Error codes returned by the xHCI driver and a Result wrapper for
    operations that either produce a value or fail with one of them. */
module Errors {

  /** The errno values the modelled driver code returns. `Failed` stands for
      an error code coming from a collaborator whose source is not modelled
      (a controller command, an allocator); only its being non-EOK matters. */
  datatype Errno =
    | EOK
    | ENOENT
    | ENOMEM
    | EINVAL
    | EAGAIN
    | ENOTSUP
    | ENAK
    | Failed(code: nat)

  /** An optional value. */
  datatype Option<+T> = None | Some(value: T)

  /** Either a value or the errno that prevented producing it. */
  datatype Result<+T> = Ok(value: T) | Err(error: Errno)

  /** The outcome of a DMA or heap allocation made by a collaborator. */
  datatype Allocation = Allocated(phys: nat) | AllocFailed(error: Errno)
}
