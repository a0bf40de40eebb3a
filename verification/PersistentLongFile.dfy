/** A number kept in a file, with a cache that is filled on first use. */
module PersistentLongFiles {
  import opened Disk

  class PersistentLongFile {
    const storage: Storage
    const file: LongName
    const defaultVal: int
    var value: int
    var loaded: bool

    /** What the durable cell holds, whatever the cache says. */
    ghost function Cell(): int
      reads storage
    {
      if file in storage.w.disk.longs then storage.w.disk.longs[file] else defaultVal
    }

    /** While the process lives, a filled cache agrees with the file. */
    ghost predicate Valid()
      reads this, storage
    {
      !storage.w.dead && loaded ==> value == Cell()
    }

    constructor (storage: Storage, file: LongName, defaultVal: int)
      ensures Valid() && !loaded
      ensures this.storage == storage && this.file == file && this.defaultVal == defaultVal
    {
      this.storage := storage;
      this.file := file;
      this.defaultVal := defaultVal;
      value := defaultVal;
      loaded := false;
    }

    /** A read of the cell; only the cache changes. */
    method Get() returns (result: int)
      requires Valid()
      modifies this
      ensures Valid()
      ensures !storage.w.dead ==> result == Cell()
    {
      if !loaded {
        value := ReadFile();
        loaded := true;
      }
      result := value;
    }

    /**
     * A write of the cell.  The file operation is skipped exactly when the cache shows the value is
     * there already; a failed write leaves the old value, in the cache and in the file.
     */
    method Set(newVal: int) returns (ok: bool)
      requires Valid()
      modifies this, storage
      ensures Valid()
      ensures old(value == newVal && loaded) ==> ok && storage.w == old(storage.w)
      ensures !old(value == newVal && loaded) ==>
                (storage.w, ok) == Perform(old(storage.w), WriteLong(file, newVal))
      ensures ok && !storage.w.dead ==> Cell() == newVal
      ensures !ok && !storage.w.dead ==> Cell() == old(Cell())
    {
      if value != newVal || !loaded {
        var written := storage.Run(WriteLong(file, newVal));
        if !written {
          return false;
        }
      }
      value := newVal;
      loaded := true;
      return true;
    }

    method ReadFile() returns (result: int)
      ensures result == Cell()
    {
      if file !in storage.w.disk.longs {
        return defaultVal;
      }
      return storage.w.disk.longs[file];
    }
  }
}
