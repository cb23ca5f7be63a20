/** Failure-carrying results shared by the partition handle and the disk space manager.
    Every panic of the storage layer becomes one of the `Error` values below. */
module Results {

  datatype Option<+T> = None | Some(value: T)

  /** The failures of the storage layer. */
  datatype Error =
    | IoError              // a seek, read or write failed, or a read came up short
    | OutOfSpace           // no header page has a free data page left
    | DoubleFree           // freeing a page whose bit is already clear
    | PageNotAllocated     // reading or writing a page whose bit is clear
    | PageOutOfRange       // a page number past the partition's capacity (a slice index panic)
    | ArithmeticOverflow   // a `u16` or `u64` add or subtract that a debug build checks and panics on
    | CorruptDirectory(name: string)  // a partition file name that is not an integer

  datatype Result<+T> = Ok(value: T) | Err(error: Error)
}
