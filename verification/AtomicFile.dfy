/**
 Replacing a file by writing a temporary one and renaming it (`write_string_atomic`,
 crates/execution/src/benchmark.rs), in a directory where every operation may fail and the process may die
 before any of them. A `rename` is one step of the file system; a write can be cut anywhere.
 */
module AtomicFile {
  import opened Wire

  /** A file: its text, or one that cannot be read as text. */
  datatype Entry = Text(s: string) | Broken

  class Directory {
    var entries: map<string, Entry>

    constructor (entries: map<string, Entry>)
      ensures this.entries == entries
    {
      this.entries := entries;
    }
  }

  function Lookup(entries: map<string, Entry>, name: string): (e: Option<Entry>) {
    if name in entries then Some(entries[name]) else None
  }

  /** What becomes of an operation: it works, it returns an error, or the process dies before it has worked. */
  datatype Fault = Works | Fails | Dies

  /**
   The fate of one replacement: the process id and time in the temporary name, what becomes of each
   operation in order, of a write that does not finish how much has arrived (None: not even the empty
   file), and whether the process dies right after the rename.
   */
  datatype Disk = Disk(stamp: string, mkdir: Fault, write: Fault, arrived: Option<nat>, rename: Fault, remove: Fault,
                       diesAfter: bool)

  /** The new contents are in place. */
  predicate Renames(disk: Disk) {
    disk.mkdir.Works? && disk.write.Works? && disk.rename.Works?
  }

  datatype Ended = Done | Failed | Died

  function TempName(name: string, stamp: string): (t: string)
    ensures t != name && "." + name + ".tmp-" <= t
  {
    "." + name + ".tmp-" + stamp
  }

  /** Two replacements of a file at different times have a temporary file each. */
  lemma TempNamesDiffer(name: string, a: string, b: string)
    ensures TempName(name, a) == TempName(name, b) <==> a == b
  {
    var n := |"." + name + ".tmp-"|;
    assert TempName(name, a)[n..] == a && TempName(name, b)[n..] == b;
  }

  /** Nothing changes but the entries `a` and `b`. */
  ghost predicate OnlyChanges(before: map<string, Entry>, after: map<string, Entry>, a: string, b: string) {
    forall name :: name != a && name != b ==> Lookup(after, name) == Lookup(before, name)
  }

  /** The temporary file as an unfinished replacement may leave it: as it was, gone, or a prefix of the new contents. */
  ghost predicate Leftover(before: Option<Entry>, after: Option<Entry>, contents: string) {
    after == before || after.None? || (after.value.Text? && after.value.s <= contents)
  }

  /**
   `write_string_atomic`: whatever fails and wherever the process dies, the name holds what it held before or
   the whole of the new contents, an error means what it held before, and only the temporary name can
   keep a part of the contents.
   */
  method WriteStringAtomic(dir: Directory, name: string, contents: string, disk: Disk) returns (r: Ended)
    modifies dir
    ensures Lookup(dir.entries, name) == if Renames(disk) then Some(Text(contents)) else Lookup(old(dir.entries), name)
    ensures r.Done? <==> Renames(disk) && !disk.diesAfter
    ensures r.Failed? ==> !Renames(disk)
    ensures r.Died? <==>
      || disk.mkdir.Dies?
      || (disk.mkdir.Works? && disk.write.Dies?)
      || (disk.mkdir.Works? && disk.write.Works? && disk.rename.Dies?)
      || (disk.mkdir.Works? && disk.write.Works? && disk.rename.Fails? && disk.remove.Dies?)
      || (Renames(disk) && disk.diesAfter)
    ensures disk.mkdir.Works? && disk.write.Works? && disk.rename.Fails? && disk.remove.Works? ==>
      TempName(name, disk.stamp) !in dir.entries
    ensures Renames(disk) ==> TempName(name, disk.stamp) !in dir.entries
    ensures OnlyChanges(old(dir.entries), dir.entries, name, TempName(name, disk.stamp))
    ensures Leftover(Lookup(old(dir.entries), TempName(name, disk.stamp)),
                     Lookup(dir.entries, TempName(name, disk.stamp)), contents)
  {
    if !disk.mkdir.Works? {
      return if disk.mkdir.Fails? then Failed else Died;
    }
    var temp := TempName(name, disk.stamp);
    if !disk.write.Works? {
      if disk.arrived.Some? {
        var n := if disk.arrived.value < |contents| then disk.arrived.value else |contents|;
        dir.entries := dir.entries[temp := Text(contents[..n])];
      }
      return if disk.write.Fails? then Failed else Died;
    }
    dir.entries := dir.entries[temp := Text(contents)];
    if disk.rename.Dies? {
      return Died;
    }
    if disk.rename.Fails? {
      if disk.remove.Works? {
        dir.entries := dir.entries - {temp};
      }
      return if disk.remove.Dies? then Died else Failed;
    }
    dir.entries := (dir.entries - {temp})[name := dir.entries[temp]];
    return if disk.diesAfter then Died else Done;
  }
}
