/** The errors that the allocator of lib_mem.c reports. */
module LibErrors {
  datatype LibErr =
    | ErrNone
    | NullPtr
    | InvalidMemSize
    | InvalidMemAlign
    | InvalidSegSize
    | InvalidSegOverlap
    | InvalidPool
    | InvalidBlkNbr
    | InvalidBlkSize
    | InvalidBlkAlign
    | InvalidBlkIx
    | InvalidBlkAddr
    | InvalidBlkAddrInPool
    | SegEmpty
    | SegOvf
    | PoolFull
    | PoolEmpty
    | HeapEmpty
    | HeapOvf
}
