/** Values shared by every component: bytes, results, and hashes. */
module Types {

  type Byte = bv8
  type Bytes = seq<Byte>

  const MAX_UINT64: nat := 0xffff_ffff_ffff_ffff

  type Uint64 = n: nat | n <= MAX_UINT64

  datatype Option<+T> = None | Some(value: T)

  datatype Result<+T, +E> = Ok(value: T) | Err(error: E)

  /** SHA-256 as an ideal hash: one constructor per kind of preimage, so equal
      hashes come from equal preimages and a hash is never part of itself. */
  datatype Hash =
    | ZeroHash
    | LeafHash(index: nat, data: Bytes)
    | NodeHash(left: Hash, right: Hash)
    | TxRootHash(txs: seq<Bytes>)
    | HeaderHash(header: Header)
    | OtherHash(preimage: Bytes)

  datatype Header = Header(
    chainID: string,
    height: Uint64,
    timeUnixNano: int,
    previousBlockHash: Hash,
    appHash: Hash,
    validatorSetHash: Hash,
    consensusHash: Hash,
    txRoot: Hash)
}
