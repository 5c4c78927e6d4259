/** The key-value store and the inode metadata kept in it. */
module Store {
  import opened Bytes
  import opened Keys

  datatype EvictionState = Resident | DataEvicted

  /** The fields of `LogFSMetaData` that carry behaviour.  `fileInitialSize` is 0 throughout. */
  datatype Meta = Meta(
    handle: nat,
    fileTotalSize: nat,
    fileChunkSize: nat,
    evictionState: EvictionState)

  datatype Value = Inode(meta: Meta) | Data(bytes: Str)

  type Contents = map<string, Value>

  datatype Status = StatusOk | ObjectDoesntExist | InternalError

  /** A store whose puts succeed. */
  class KVStore {
    var data: Contents

    constructor ()
      ensures data == map[]
    {
      data := map[];
    }

    method Put(key: string, value: Value)
      modifies this
      ensures data == old(data)[key := value]
    {
      data := data[key := value];
    }

    /** The bytes under `key`; `found` is false for a hole (and then `value` is empty). */
    method GetBytes(key: string) returns (found: bool, value: Str)
      ensures found <==> key in data && data[key].Data?
      ensures value == BytesAt(data, key)
    {
      found := key in data && data[key].Data?;
      value := if found then data[key].bytes else [];
    }

    method Remove(key: string)
      modifies this
      ensures data == old(data) - {key}
    {
      data := data - {key};
    }
  }

  /** Bytes stored under a key, a hole reading as no bytes. */
  function BytesAt(d: Contents, key: string): Str
  {
    if key in d && d[key].Data? then d[key].bytes else []
  }

  /** A key that belongs neither to inode `h` nor to any of its chunks or partitions. */
  ghost predicate Foreign(key: string, h: nat)
  {
    key != Print(InodeKey(h)) && forall k: nat :: key != Print(SubKey(h, k))
  }

  /** `d'` differs from `d` at most under the keys of inode `h`. */
  ghost predicate SameElsewhere(d: Contents, d': Contents, h: nat)
  {
    forall key | Foreign(key, h) :: (key in d <==> key in d') && (key in d ==> d[key] == d'[key])
  }

  /** The metadata of inode `h` is the same in both. */
  ghost predicate InodeKept(d: Contents, d': Contents, h: nat)
  {
    var key := Print(InodeKey(h));
    (key in d <==> key in d') && (key in d ==> d[key] == d'[key])
  }

  /** Everything stored for inode `g` is the same in both. */
  ghost predicate SameInode(d: Contents, d': Contents, g: nat)
  {
    && InodeKept(d, d', g)
    && forall k: nat ::
         var key := Print(SubKey(g, k));
         (key in d <==> key in d') && (key in d ==> d[key] == d'[key])
  }

  /** Nothing changed but for the inodes in `changed`. */
  ghost predicate OthersSame(d: Contents, d': Contents, changed: set<nat>)
  {
    forall g: nat | g !in changed :: SameInode(d, d', g)
  }

  lemma ElsewhereIsOthers(d: Contents, d': Contents, h: nat)
    requires SameElsewhere(d, d', h)
    ensures forall g: nat | g != h :: SameInode(d, d', g)
    ensures OthersSame(d, d', {h})
  {
    hide Print;
    forall g: nat | g != h ensures SameInode(d, d', g) {
      KeysOfOthersAreForeign(g, h);
    }
  }

  lemma SameAsItself(d: Contents, h: nat)
    ensures SameElsewhere(d, d, h)
  {
  }

  lemma SameTwice(d: Contents, d': Contents, d'': Contents, h: nat)
    requires SameElsewhere(d, d', h) && SameElsewhere(d', d'', h)
    ensures SameElsewhere(d, d'', h)
  {
    hide Foreign;
  }

  lemma KeysOfOthersAreForeign(g: nat, h: nat)
    requires g != h
    ensures Foreign(Print(InodeKey(g)), h)
    ensures forall k: nat :: Foreign(Print(SubKey(g, k)), h)
  {
    hide Print;
  }

  /** The chunks of inode `h`, by chunk number. */
  ghost function TableOf(d: Contents, h: nat): imap<nat, Str>
  {
    imap k: nat | Print(SubKey(h, k)) in d :: BytesAt(d, Print(SubKey(h, k)))
  }

  /** Everything under the sub-keys of `h` is bytes, and the inode itself is as in `d0`. */
  ghost predicate ChunksOnly(d0: Contents, d: Contents, h: nat)
  {
    var key := Print(InodeKey(h));
    && key in d0 && key in d && d[key] == d0[key]
    && (forall k: nat | Print(SubKey(h, k)) in d :: d[Print(SubKey(h, k))].Data?)
    && SameElsewhere(d0, d, h)
  }

  lemma PutChunkKey(d0: Contents, d: Contents, d': Contents, h: nat, k: nat, value: Str)
    requires ChunksOnly(d0, d, h) && d' == d[Print(SubKey(h, k)) := Data(value)]
    ensures ChunksOnly(d0, d', h) && TableOf(d', h) == TableOf(d, h)[k := value]
  {
    hide Print;
    PrintInjective(SubKey(h, k), InodeKey(h));
    forall j: nat ensures Print(SubKey(h, j)) == Print(SubKey(h, k)) <==> j == k {
      PrintInjective(SubKey(h, j), SubKey(h, k));
    }
  }

  lemma RemoveChunkKey(d0: Contents, d: Contents, d': Contents, h: nat, k: nat)
    requires ChunksOnly(d0, d, h) && d' == d - {Print(SubKey(h, k))}
    ensures ChunksOnly(d0, d', h) && k !in TableOf(d', h)
    ensures forall j: nat | j != k :: j in TableOf(d', h) <==> j in TableOf(d, h)
    ensures forall j: nat | j != k && j in TableOf(d, h) :: TableOf(d', h)[j] == TableOf(d, h)[j]
  {
    hide Print;
    PrintInjective(SubKey(h, k), InodeKey(h));
    forall j: nat ensures Print(SubKey(h, j)) == Print(SubKey(h, k)) <==> j == k {
      PrintInjective(SubKey(h, j), SubKey(h, k));
    }
  }

  lemma PutInodeKey(d: Contents, d': Contents, h: nat, m: Meta)
    requires d' == d[Print(InodeKey(h)) := Inode(m)]
    ensures TableOf(d', h) == TableOf(d, h)
    ensures forall k: nat | Print(SubKey(h, k)) in d' ::
              Print(SubKey(h, k)) in d && d'[Print(SubKey(h, k))] == d[Print(SubKey(h, k))]
    ensures SameElsewhere(d, d', h)
  {
    hide Print;
    forall k: nat ensures Print(SubKey(h, k)) != Print(InodeKey(h)) {
      PrintInjective(SubKey(h, k), InodeKey(h));
    }
  }
}
