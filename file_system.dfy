/**
 * A file host: files are uploaded and copied at given timestamps, searched by name prefix,
 * and the whole store can be rolled back to a past timestamp by replaying the operation
 * history. Every upload and copy stores a file without a time to live.
 */
module FileSystem {
  import opened Wrappers
  import opened JavaLang
  import Ordering

  /** A stored file; `ttl` is `None` for a Java `null`. */
  datatype FileEntity = FileEntity(name: string, size: int32, timestamp: int64, ttl: Option<int64>)

  datatype OpKind = Upload | Copy

  /** A history record: when, what, the file stored, and for a copy its source. */
  datatype Operation = Operation(timestamp: int64, kind: OpKind, snapshot: FileEntity, source: Option<FileEntity>)

  /** `copyWithFile`: the same size under a new name and timestamp, with no ttl. */
  function CopyWithFile(f: FileEntity, newName: string, timestamp: int64): FileEntity {
    FileEntity(newName, f.size, timestamp, None)
  }

  /** `isAlive`: no ttl, or `now - timestamp < ttl` in `long` arithmetic. */
  predicate IsAlive(f: FileEntity, now: int64) {
    f.ttl.None? || Wrap64(now - f.timestamp) < f.ttl.value
  }

  /** What `FILE_GET_AT` returns: the size of a present, alive file, else `null`. */
  function SizeAt(files: map<string, FileEntity>, name: string, now: int64): (r: Option<int32>)
    ensures r.Some? <==> name in files && IsAlive(files[name], now)
    ensures r.Some? ==> r.value == files[name].size
  {
    if name in files && IsAlive(files[name], now) then Some(files[name].size) else None
  }

  /** Every file is stored under its own name. */
  ghost predicate NamesMatch(files: map<string, FileEntity>) {
    forall k :: k in files ==> files[k].name == k
  }

  /** The store rebuilt from an empty map by replaying, in order, the records stamped at or before `t`. */
  function Replay(history: seq<Operation>, t: int64): map<string, FileEntity> {
    if history == [] then map[]
    else
      var files := Replay(history[..|history| - 1], t);
      var op := history[|history| - 1];
      if op.timestamp <= t then files[op.snapshot.name := op.snapshot] else files
  }

  /** The exact total size of the replayed snapshots, overwritten ones included. */
  function ReplayedSize(history: seq<Operation>, t: int64): int {
    if history == [] then 0
    else
      var total := ReplayedSize(history[..|history| - 1], t);
      var op := history[|history| - 1];
      if op.timestamp <= t then total + op.snapshot.size else total
  }

  /** A replayed store always keeps each file under its own name. */
  lemma {:induction false} ReplayNamesMatch(history: seq<Operation>, t: int64)
    ensures NamesMatch(Replay(history, t))
  {
    if history != [] {
      ReplayNamesMatch(history[..|history| - 1], t);
    }
  }

  /**
   * A file is rebuilt exactly as the last record for its name stamped at or before `t`
   * stored it: later records for other names, and records after `t`, do not touch it.
   */
  lemma {:induction false} ReplayLastWins(history: seq<Operation>, t: int64, i: int)
    requires 0 <= i < |history| && history[i].timestamp <= t
    requires forall j :: i < j < |history| && history[j].timestamp <= t ==>
      history[j].snapshot.name != history[i].snapshot.name
    ensures history[i].snapshot.name in Replay(history, t)
    ensures Replay(history, t)[history[i].snapshot.name] == history[i].snapshot
    decreases |history|
  {
    var front := history[..|history| - 1];
    if i < |history| - 1 {
      assert front[i] == history[i];
      forall j | i < j < |front| && front[j].timestamp <= t
        ensures front[j].snapshot.name != front[i].snapshot.name
      {
        assert front[j] == history[j];
      }
      ReplayLastWins(front, t, i);
    }
  }

  /** A name is absent from the rebuilt store iff no record for it is stamped at or before `t`. */
  lemma {:induction false} ReplayAbsent(history: seq<Operation>, t: int64, name: string)
    ensures name !in Replay(history, t) <==>
      forall j :: 0 <= j < |history| && history[j].timestamp <= t ==> history[j].snapshot.name != name
    decreases |history|
  {
    if history != [] {
      var front := history[..|history| - 1];
      ReplayAbsent(front, t, name);
      assert forall j :: 0 <= j < |front| ==> front[j] == history[j];
    }
  }

  /** Records stamped after `t` play no part in a rollback to `t`. */
  lemma {:induction false} ReplaySkipsLater(history: seq<Operation>, t: int64, later: seq<Operation>)
    requires forall i :: 0 <= i < |later| ==> later[i].timestamp > t
    ensures Replay(history + later, t) == Replay(history, t)
  {
    if later != [] {
      var front := later[..|later| - 1];
      assert (history + later)[..|history + later| - 1] == history + front;
      ReplaySkipsLater(history, t, front);
    } else {
      assert history + later == history;
    }
  }

  /** A file without a ttl is alive at every time. */
  lemma NoTtlAlive(f: FileEntity, now: int64)
    requires f.ttl.None?
    ensures IsAlive(f, now)
  {
  }

  /** Without overflow, a file with a ttl is alive strictly before `timestamp + ttl` and dead from then on. */
  lemma TtlWindow(f: FileEntity, now: int64)
    requires f.ttl.Some? && IsLong(now - f.timestamp)
    ensures IsAlive(f, now) <==> now < f.timestamp + f.ttl.value
  {
  }

  /** The order of `FILE_SEARCH_AT`: larger size first, then name in `compareTo` order. */
  predicate Before(a: FileEntity, b: FileEntity) {
    a.size > b.size || (a.size == b.size && StrLess(a.name, b.name))
  }

  /** The files whose name starts with `prefix`. */
  function Matching(files: map<string, FileEntity>, prefix: string): set<FileEntity> {
    set f | f in files.Values && prefix <= f.name
  }

  /** With every file under its own name, `Before` orders the files totally. */
  lemma {:induction false} BeforeStrictTotal(files: map<string, FileEntity>, prefix: string)
    requires NamesMatch(files)
    ensures Ordering.StrictTotalOn(Before, Matching(files, prefix))
  {
    var s := Matching(files, prefix);
    forall x | x in s
      ensures !Before(x, x)
    {
      StrLessIrreflexive(x.name);
    }
    forall x, y, z | x in s && y in s && z in s && Before(x, y) && Before(y, z)
      ensures Before(x, z)
    {
      if x.size == y.size == z.size {
        StrLessTransitive(x.name, y.name, z.name);
      }
    }
    forall x, y | x in s && y in s && x != y
      ensures Before(x, y) || Before(y, x)
    {
      assert x.name != y.name by {
        var kx :| kx in files && files[kx] == x;
        var ky :| ky in files && files[ky] == y;
      }
      StrLessTotal(x.name, y.name);
    }
  }

  class FileHost {
    /** The file map (a static field of the Java class, here the state of one host). */
    var files: map<string, FileEntity>
    var history: seq<Operation>
    var currentSize: int32

    ghost predicate Valid()
      reads this
    {
      NamesMatch(files)
    }

    constructor()
      ensures Valid() && files == map[] && history == [] && currentSize == 0
    {
      files := map[];
      history := [];
      currentSize := 0;
    }

    /** `FILE_UPLOAD_AT`: throws when the name is taken; otherwise stores the file and records the upload. */
    method UploadAt(name: string, size: int32, timestamp: int64) returns (r: Result<(), string>)
      requires Valid()
      modifies this
      ensures Valid()
      ensures name in old(files) ==> r == Err("File Already Exists") && unchanged(this)
      ensures name !in old(files) ==> r.Ok? && currentSize == old(currentSize)
      ensures name !in old(files) ==> files == old(files)[name := FileEntity(name, size, timestamp, None)]
      ensures name !in old(files) ==> history == old(history) + [Operation(timestamp, Upload, files[name], None)]
    {
      if name in files {
        return Err("File Already Exists");
      }
      var file := FileEntity(name, size, timestamp, None);
      files := files[name := file];
      history := history + [Operation(timestamp, Upload, file, None)];
      r := Ok(());
    }

    /** `FILE_GET_AT`: the size of the file if it is present and alive at `timestamp`. */
    method GetAt(name: string, timestamp: int64) returns (r: Option<int32>)
      ensures r == SizeAt(files, name, timestamp)
    {
      if name in files && IsAlive(files[name], timestamp) {
        r := Some(files[name].size);
      } else {
        r := None;
      }
    }

    /**
     * `FILE_COPY_AT`: throws when the source is missing or dead; otherwise the destination
     * becomes a ttl-free copy stamped `timestamp`, replacing any file there, and the copy is recorded.
     */
    method CopyAt(source: string, destination: string, timestamp: int64) returns (r: Result<(), string>)
      requires Valid()
      modifies this
      ensures Valid()
      ensures SizeAt(old(files), source, timestamp).None? ==> r == Err("Source file doesn't exist") && unchanged(this)
      ensures SizeAt(old(files), source, timestamp).Some? ==>
        && r.Ok?
        && files == old(files)[destination := CopyWithFile(old(files)[source], destination, timestamp)]
        && history == old(history) + [Operation(timestamp, Copy, files[destination], Some(old(files)[source]))]
        && currentSize == old(currentSize)
    {
      if source !in files || !IsAlive(files[source], timestamp) {
        return Err("Source file doesn't exist");
      }
      var src := files[source];
      var des := CopyWithFile(src, destination, timestamp);
      files := files[destination := des];
      history := history + [Operation(timestamp, Copy, des, Some(src))];
      r := Ok(());
    }

    /**
     * `FILE_SEARCH_AT`: the (at most) ten files whose name starts with `prefix`, largest
     * first and by name among equal sizes. The timestamp plays no part.
     */
    method SearchAt(timestamp: int64, prefix: string) returns (r: seq<FileEntity>)
      requires Valid()
      ensures Ordering.IsFirstK(r, Matching(files, prefix), 10, Before)
    {
      BeforeStrictTotal(files, prefix);
      r := Ordering.FirstK(Matching(files, prefix), 10, Before);
    }

    /**
     * `ROLLBACK`: clears the store and replays, in order, every record stamped at or before
     * `t`, adding up the replayed sizes in `int` arithmetic. The history is kept whole.
     */
    method Rollback(t: int64)
      modifies this
      ensures Valid()
      ensures files == Replay(history, t) && history == old(history)
      ensures currentSize == Wrap32(ReplayedSize(history, t))
    {
      files := map[];
      currentSize := 0;
      var i := 0;
      while i < |history|
        invariant 0 <= i <= |history| && history == old(history)
        invariant files == Replay(history[..i], t)
        invariant currentSize == Wrap32(ReplayedSize(history[..i], t))
      {
        var op := history[i];
        assert history[..i + 1][..i] == history[..i];
        if op.timestamp <= t {
          files := files[op.snapshot.name := op.snapshot];
          Wrap32Add(ReplayedSize(history[..i], t), op.snapshot.size);
          currentSize := Wrap32(currentSize + op.snapshot.size);
        }
        i := i + 1;
      }
      assert history[..i] == history;
      ReplayNamesMatch(history, t);
    }
  }

  /** After an upload of a new name, reading it at any time gives the uploaded size. */
  lemma UploadThenGet(files: map<string, FileEntity>, name: string, size: int32, timestamp: int64, now: int64)
    ensures SizeAt(files[name := FileEntity(name, size, timestamp, None)], name, now) == Some(size)
  {
  }

  /** After a copy, the destination reads as the source's size at any time, and a distinct source is untouched. */
  lemma CopyThenGet(files: map<string, FileEntity>, source: string, destination: string, timestamp: int64, now: int64)
    requires source in files
    ensures var after := files[destination := CopyWithFile(files[source], destination, timestamp)];
      && SizeAt(after, destination, now) == Some(files[source].size)
      && (source != destination ==> after[source] == files[source])
  {
  }

  /** The demonstration's rollback to 3 keeps the three uploads stamped 1 to 3. */
  lemma DemoReplay(early: seq<Operation>, later: seq<Operation>)
    requires |early| == 3 && forall i :: 0 <= i < 3 ==> early[i].timestamp == i + 1 && early[i].kind == Upload
    requires early[0].snapshot.name == "file-1.zip" && early[1].snapshot.name == "file-2.zip"
    requires early[2].snapshot == FileEntity("file-3.zip", 5040, 3, None)
    requires forall i :: 0 <= i < |later| ==> later[i].timestamp > 3
    ensures Replay(early + later, 3).Keys == {"file-1.zip", "file-2.zip", "file-3.zip"}
    ensures Replay(early + later, 3)["file-3.zip"] == early[2].snapshot
  {
    ReplaySkipsLater(early, 3, later);
    assert early[..2][..1] == early[..1] && early[..1][..0] == [];
    assert Replay(early[..1], 3).Keys == {"file-1.zip"};
    assert Replay(early[..2], 3).Keys == {"file-1.zip", "file-2.zip"};
  }

  /**
   * The demonstration run: four uploads at times 1 to 4, a read of file-1.zip at 4, a copy
   * at 5, then a rollback to 3 after which file-3.zip is present again with its size.
   */
  method Demo() returns (size1: Option<int32>, size3: Option<int32>, copied: Option<int32>)
    ensures size1 == Some(1420) && size3 == Some(5040) && copied == None
  {
    var fs := new FileHost();
    var _ := fs.UploadAt("file-1.zip", 1420, 1);
    var _ := fs.UploadAt("file-2.zip", 2480, 2);
    var _ := fs.UploadAt("file-3.zip", 5040, 3);
    var _ := fs.UploadAt("file-4.zip", 1200, 4);
    size1 := fs.GetAt("file-1.zip", 4);
    ghost var early := fs.history;
    assert |early| == 4 && early[2].snapshot == FileEntity("file-3.zip", 5040, 3, None);
    var _ := fs.CopyAt("file-1.zip", "copy-file-1.zip", 5);
    assert fs.history == early[..3] + [early[3], fs.history[4]];
    DemoReplay(early[..3], [early[3], fs.history[4]]);
    fs.Rollback(3);
    size3 := fs.GetAt("file-3.zip", 3);
    copied := fs.GetAt("copy-file-1.zip", 3);
  }
}
