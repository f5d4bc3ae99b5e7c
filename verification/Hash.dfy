/**
  The hashes of a merk tree, as ideal hashes: equal only when they were computed the same
  way from the same parts. `Other` is any 32-byte value that is no such hash; a proof may
  hold one wherever it holds a hash.
*/
module Hash {
  import opened Bytes

  datatype Hash =
    | Null
    | ValueHash(value: Bytes)
    | KvHash(key: Bytes, valueHash: Hash)
    | NodeHash(kv: Hash, left: Hash, right: Hash)
    | Combined(first: Hash, second: Hash)
    | Other(id: nat)
}
