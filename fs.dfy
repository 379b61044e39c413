/** The in-memory filesystem of decompressed files (fs.go): file handles with
    a cursor, the name-keyed table they are opened from, and the builder that
    fills that table from a tree of `.gz` files. */
module FileSystem {
  import opened Common
  import opened Strings
  import Gzip

  const GzSuffix: string := ".gz"

  /** `fs.ModePerm` (0777): the mode every handle reports. */
  const ModePerm: int := 0x1FF

  /** The `whence` values of `io.Seeker`. */
  const SeekStart: int := 0
  const SeekCurrent: int := 1
  const SeekEnd: int := 2

  /** The `file` value stored in the table: opening copies it into a handle. */
  datatype FileEntry = FileEntry(name: string, pos: int, data: seq<byte>, modTime: Time)

  /** `decompressedFS`: the table from relative path to stored file. */
  datatype DecompressedFs = DecompressedFs(files: map<string, FileEntry>)

  /** What `Read` returns: `n` bytes and no error, `(0, io.EOF)`, or the
      slice-bounds panic Go raises on `data[pos:]` when `pos` is negative. */
  datatype ReadResult = Count(n: nat) | EOF | SliceOutOfRange

  /** A handle (`*file`): a private copy of a stored entry with its own cursor. */
  class File {
    var name: string
    var pos: int
    var data: seq<byte>
    var modTime: Time

    constructor (e: FileEntry)
      ensures Entry() == e
    {
      name, pos, data, modTime := e.name, e.pos, e.data, e.modTime;
    }

    /** The handle's state as a `file` value. */
    function Entry(): FileEntry
      reads this
    {
      FileEntry(name, pos, data, modTime)
    }

    /** The base name the handle reports, that of the entry it was opened from. */
    function Name(): (n: string)
      reads this
      ensures n == Entry().name
    {
      name
    }

    /** The length of the decompressed data, whatever the cursor. */
    function Size(): (n: int)
      reads this
      ensures n == |Entry().data|
    {
      |data|
    }

    /** Every handle reports the same permission bits and no type bits. */
    function Mode(): (m: int)
      ensures m == ModePerm
    {
      ModePerm
    }

    /** The time of the source file the entry was built from. */
    function ModTime(): (t: Time)
      reads this
      ensures t == Entry().modTime
    {
      modTime
    }

    /** No handle is a directory. */
    function IsDir(): (d: bool)
      ensures !d
    {
      false
    }

    /** The cursor is at or past the end of the data. */
    predicate AtEOF()
      reads this
    {
      pos >= |data|
    }

    /** `Stat` hands back the handle itself as its `fs.FileInfo`, so the
        metadata it reports follows later changes to the handle. */
    method Stat() returns (info: File, err: Option<Error>)
      ensures info == this && err == None
      ensures info.Name() == name && info.Size() == |data| && info.ModTime() == modTime
      ensures info.Mode() == ModePerm && !info.IsDir()
    {
      info, err := this, None;
    }

    /** `Read(p)`: at or past the end, `(0, io.EOF)` and nothing moves;
        otherwise copy `min(len(p), len(data) - pos)` bytes from the cursor
        into the front of `p` and advance the cursor by that count. */
    method Read(p: array<byte>) returns (r: ReadResult)
      modifies this, p
      ensures name == old(name) && data == old(data) && modTime == old(modTime)
      ensures old(pos) >= |data| ==> r == EOF && pos == old(pos) && p[..] == old(p[..])
      ensures old(pos) < 0 ==> r == SliceOutOfRange && pos == old(pos) && p[..] == old(p[..])
      ensures 0 <= old(pos) < |data| ==>
        var n := Min(p.Length, |data| - old(pos));
        && r == Count(n)
        && pos == old(pos) + n
        && p[..n] == data[old(pos)..old(pos) + n]
        && p[n..] == old(p[n..])
    {
      if pos >= |data| {
        return EOF;
      }
      if pos < 0 {
        return SliceOutOfRange;
      }
      var n := Min(p.Length, |data| - pos);
      forall i | 0 <= i < n {
        p[i] := data[pos + i];
      }
      pos := pos + n;
      r := Count(n);
    }

    /** `Seek`: set the cursor relative to the start, the cursor or the end;
        any other `whence` leaves it alone. No bounds check, never an error. */
    method Seek(offset: int, whence: int) returns (newPos: int, err: Option<Error>)
      modifies this`pos
      ensures whence == SeekStart ==> pos == offset
      ensures whence == SeekCurrent ==> pos == old(pos) + offset
      ensures whence == SeekEnd ==> pos == |data| + offset
      ensures whence != SeekStart && whence != SeekCurrent && whence != SeekEnd ==> pos == old(pos)
      ensures newPos == pos && err == None
    {
      if whence == SeekStart {
        pos := offset;
      } else if whence == SeekCurrent {
        pos := pos + offset;
      } else if whence == SeekEnd {
        pos := |data| + offset;
      }
      newPos, err := pos, None;
    }

    /** `Close` drops the handle's data: afterwards the size is 0 and, from
        any cursor that is not negative, every read is `io.EOF`. */
    method Close() returns (err: Option<Error>)
      modifies this`data
      ensures data == [] && Size() == 0 && err == None
      ensures pos >= 0 ==> AtEOF()
    {
      data, err := [], None;
    }
  }

  /** `decompressedFS.Open`: an exact-match lookup; a hit yields a new handle
      holding a copy of the stored entry, a miss yields `ErrNotFound`. */
  method Open(fsys: DecompressedFs, name: string) returns (f: File?, err: Option<Error>)
    ensures name !in fsys.files ==> f == null && err == Some(NotFound)
    ensures name in fsys.files ==> f != null && fresh(f) && f.Entry() == fsys.files[name] && err == None
  {
    if name !in fsys.files {
      return null, Some(NotFound);
    }
    f := new File(fsys.files[name]);
    err := None;
  }

  /** Two handles opened on the same path have their own cursors: reading
      `k` bytes through the first moves only its own cursor, the second handle
      is still exactly the stored entry, and a third handle opened afterwards
      is the stored entry too. */
  method OpenTwiceReadOne(fsys: DecompressedFs, name: string, k: nat)
    returns (first: FileEntry, second: FileEntry, reopened: FileEntry)
    requires name in fsys.files
    ensures first.name == fsys.files[name].name && first.data == fsys.files[name].data
    ensures first.modTime == fsys.files[name].modTime
    ensures 0 <= fsys.files[name].pos < |fsys.files[name].data| ==>
      first.pos == fsys.files[name].pos + Min(k, |fsys.files[name].data| - fsys.files[name].pos)
    ensures !(0 <= fsys.files[name].pos < |fsys.files[name].data|) ==> first.pos == fsys.files[name].pos
    ensures second == fsys.files[name] && reopened == fsys.files[name]
  {
    var a, _ := Open(fsys, name);
    var b, _ := Open(fsys, name);
    var buf := new byte[k];
    var _ := a.Read(buf);
    var c, _ := Open(fsys, name);
    first, second, reopened := a.Entry(), b.Entry(), c.Entry();
  }

  // ---------------------------------------------------------------------
  // Building the table from a tree of compressed files (DecompressFS).

  /** One entry of the source tree as the walk sees it: its path relative to
      the root, its base name, whether it is a regular file, the error the
      walk reports for it, the error opening it gives, its raw bytes, the
      error `Stat` gives, and its modification time. */
  datatype SourceEntry = SourceEntry(
    path: string,
    name: string,
    regular: bool,
    walkErr: Option<Error>,
    openErr: Option<Error>,
    raw: seq<byte>,
    statErr: Option<Error>,
    modTime: Time)

  /** The walk callback's verdict on one entry. */
  datatype Visit = Skip | Store(key: string, file: FileEntry) | Abort(err: Error)

  /** A regular file whose base name ends in `.gz`. */
  predicate Eligible(e: SourceEntry)
  {
    e.regular && HasSuffix(e.name, GzSuffix)
  }

  /** The table key of an entry: its path without the `.gz` suffix. */
  function Key(e: SourceEntry): string
  {
    TrimSuffix(e.path, GzSuffix)
  }

  /** The walk callback, in the order of its checks: the walk's own error,
      the filter, opening, the gzip header and stream, `Stat`. */
  function VisitEntry(e: SourceEntry, gz: Gzip.Decoder): (v: Visit)
    ensures e.walkErr.Some? ==> v == Abort(e.walkErr.value)
    ensures e.walkErr.None? && Eligible(e) && e.openErr.Some? ==> v == Abort(e.openErr.value)
    ensures e.walkErr.None? && Eligible(e) && e.openErr.None? && Gzip.Inflate(gz, e.raw).Failure? ==>
      v == Abort(Gzip.Inflate(gz, e.raw).error)
    ensures e.walkErr.None? && Eligible(e) && e.openErr.None? && Gzip.Inflate(gz, e.raw).Success? && e.statErr.Some? ==>
      v == Abort(e.statErr.value)
    ensures v.Skip? <==> e.walkErr.None? && !Eligible(e)
    ensures v.Store? <==>
      && e.walkErr.None? && Eligible(e) && e.openErr.None?
      && Gzip.Inflate(gz, e.raw).Success? && e.statErr.None?
    ensures v.Store? ==>
      && v.key == Key(e) && v.file.name + GzSuffix == e.name
      && v.file == FileEntry(v.file.name, 0, gz.output(e.raw), e.modTime)
  {
    if e.walkErr.Some? then Abort(e.walkErr.value)
    else if !Eligible(e) then Skip
    else if e.openErr.Some? then Abort(e.openErr.value)
    else match Gzip.Inflate(gz, e.raw)
      case Failure(err) => Abort(err)
      case Success(buf) =>
        if e.statErr.Some? then Abort(e.statErr.value)
        else Store(Key(e), FileEntry(TrimSuffix(e.name, GzSuffix), 0, buf, e.modTime))
  }

  /** The table after walking `tree` in order: the first aborting entry
      decides the error; otherwise every stored entry is written in turn,
      a later one replacing an earlier one under the same key. */
  function Walk(tree: seq<SourceEntry>, gz: Gzip.Decoder): (r: Result<map<string, FileEntry>, Error>)
    ensures r.Failure? ==> exists i | 0 <= i < |tree| :: VisitEntry(tree[i], gz) == Abort(r.error)
    decreases |tree|
  {
    if tree == [] then Success(map[])
    else
      match Walk(tree[..|tree| - 1], gz)
      case Failure(err) => Failure(err)
      case Success(h) =>
        match VisitEntry(tree[|tree| - 1], gz)
        case Skip => Success(h)
        case Store(key, f) => Success(h[key := f])
        case Abort(err) => Failure(err)
  }

  /** `DecompressFS`: walk the tree, storing every eligible entry's
      decompressed contents under its trimmed path; the first error ends the
      walk and is returned with no filesystem. */
  method DecompressFS(tree: seq<SourceEntry>, gz: Gzip.Decoder) returns (r: Result<DecompressedFs, Error>)
    ensures Walk(tree, gz).Success? ==> r == Success(DecompressedFs(Walk(tree, gz).value))
    ensures Walk(tree, gz).Failure? ==> r == Failure(Walk(tree, gz).error)
  {
    var h: map<string, FileEntry> := map[];
    var i := 0;
    while i < |tree|
      invariant 0 <= i <= |tree|
      invariant Walk(tree[..i], gz) == Success(h)
    {
      var e := tree[i];
      assert tree[..i + 1][..i] == tree[..i];
      if e.walkErr.Some? {
        WalkKeepsFailure(tree, i + 1, gz);
        return Failure(e.walkErr.value);
      }
      if !e.regular || !HasSuffix(e.name, GzSuffix) {
        i := i + 1;
        continue;
      }
      if e.openErr.Some? {
        WalkKeepsFailure(tree, i + 1, gz);
        return Failure(e.openErr.value);
      }
      var buf := Gzip.Inflate(gz, e.raw);
      if buf.Failure? {
        WalkKeepsFailure(tree, i + 1, gz);
        return Failure(buf.error);
      }
      if e.statErr.Some? {
        WalkKeepsFailure(tree, i + 1, gz);
        return Failure(e.statErr.value);
      }
      h := h[TrimSuffix(e.path, GzSuffix) := FileEntry(TrimSuffix(e.name, GzSuffix), 0, buf.value, e.modTime)];
      i := i + 1;
    }
    assert tree[..i] == tree;
    r := Success(DecompressedFs(h));
  }

  /** Once a prefix of the walk fails, the whole walk fails with that error. */
  lemma {:induction false} WalkKeepsFailure(tree: seq<SourceEntry>, k: nat, gz: Gzip.Decoder)
    requires k <= |tree|
    requires Walk(tree[..k], gz).Failure?
    ensures Walk(tree, gz) == Walk(tree[..k], gz)
    decreases |tree|
  {
    if k < |tree| {
      var init := tree[..|tree| - 1];
      assert init[..k] == tree[..k];
      WalkKeepsFailure(init, k, gz);
    } else {
      assert tree[..k] == tree;
    }
  }

  /** Entry `i` is the first entry at which the callback aborts. */
  ghost predicate FirstAbort(tree: seq<SourceEntry>, i: int, gz: Gzip.Decoder)
  {
    && 0 <= i < |tree|
    && VisitEntry(tree[i], gz).Abort?
    && forall j | 0 <= j < i :: !VisitEntry(tree[j], gz).Abort?
  }

  /** All or nothing: the build succeeds exactly when no entry aborts. */
  lemma {:induction false} WalkSucceedsIffNoAbort(tree: seq<SourceEntry>, gz: Gzip.Decoder)
    ensures Walk(tree, gz).Success? <==> forall i | 0 <= i < |tree| :: !VisitEntry(tree[i], gz).Abort?
    decreases |tree|
  {
    if tree != [] {
      var init := tree[..|tree| - 1];
      WalkSucceedsIffNoAbort(init, gz);
      assert forall i | 0 <= i < |init| :: init[i] == tree[i];
    }
  }

  /** The error the build returns is that of the first entry that aborts,
      whatever the entries after it hold. */
  lemma WalkFailsWithFirstAbort(tree: seq<SourceEntry>, i: int, gz: Gzip.Decoder)
    requires FirstAbort(tree, i, gz)
    ensures Walk(tree, gz) == Failure(VisitEntry(tree[i], gz).err)
  {
    var pre := tree[..i];
    WalkSucceedsIffNoAbort(pre, gz);
    assert tree[..i + 1][..i] == pre;
    WalkKeepsFailure(tree, i + 1, gz);
  }

  /** On success the keys are exactly the trimmed paths of the eligible
      entries: every other entry is skipped. */
  lemma {:induction false} WalkKeys(tree: seq<SourceEntry>, gz: Gzip.Decoder)
    requires Walk(tree, gz).Success?
    ensures Walk(tree, gz).value.Keys == set e | e in tree && Eligible(e) :: Key(e)
    decreases |tree|
  {
    if tree != [] {
      var init, last := tree[..|tree| - 1], tree[|tree| - 1];
      assert tree == init + [last];
      WalkKeys(init, gz);
      assert forall e :: e in tree <==> e in init || e == last;
    }
  }

  /** The file stored for an eligible entry that no later eligible entry
      overwrites: its name without `.gz`, cursor 0, the decompressed bytes and
      the entry's modification time. */
  lemma {:induction false} WalkStoresLast(tree: seq<SourceEntry>, i: int, gz: Gzip.Decoder)
    requires Walk(tree, gz).Success?
    requires 0 <= i < |tree| && Eligible(tree[i])
    requires forall j | i < j < |tree| && Eligible(tree[j]) :: Key(tree[j]) != Key(tree[i])
    ensures Gzip.Inflate(gz, tree[i].raw).Success?
    ensures Key(tree[i]) in Walk(tree, gz).value
    ensures Walk(tree, gz).value[Key(tree[i])] ==
      FileEntry(TrimSuffix(tree[i].name, GzSuffix), 0, gz.output(tree[i].raw), tree[i].modTime)
    decreases |tree|
  {
    var init := tree[..|tree| - 1];
    if i < |tree| - 1 {
      assert init[i] == tree[i];
      assert forall j | i < j < |init| :: init[j] == tree[j];
      WalkStoresLast(init, i, gz);
    }
  }

  /** Source trees as a walk produces them: distinct paths, each ending in
      its entry's base name. */
  ghost predicate WellFormedTree(tree: seq<SourceEntry>)
  {
    && (forall i | 0 <= i < |tree| :: HasSuffix(tree[i].path, tree[i].name))
    && (forall i, j | 0 <= i < j < |tree| :: tree[i].path != tree[j].path)
  }

  /** In a well-formed tree every eligible entry lands under its own key with
      its own decompressed contents. */
  lemma WalkStoresEach(tree: seq<SourceEntry>, i: int, gz: Gzip.Decoder)
    requires WellFormedTree(tree) && Walk(tree, gz).Success?
    requires 0 <= i < |tree| && Eligible(tree[i])
    ensures Key(tree[i]) in Walk(tree, gz).value
    ensures Walk(tree, gz).value[Key(tree[i])] ==
      FileEntry(TrimSuffix(tree[i].name, GzSuffix), 0, gz.output(tree[i].raw), tree[i].modTime)
  {
    forall j | i < j < |tree| && Eligible(tree[j])
      ensures Key(tree[j]) != Key(tree[i])
    {
      HasSuffixTransitive(tree[i].path, tree[i].name, GzSuffix);
      HasSuffixTransitive(tree[j].path, tree[j].name, GzSuffix);
      if Key(tree[j]) == Key(tree[i]) {
        TrimSuffixInjective(tree[j].path, tree[i].path, GzSuffix);
      }
    }
    WalkStoresLast(tree, i, gz);
  }
}

/** The walk-through of fs_test.go and the suffix-stripping example, stated
    as contracts over the model. */
module FileSystemScenarios {
  import opened Common
  import opened Strings
  import opened FileSystem
  import Gzip

  /** The table of fs_test.go's first entry. */
  function HelloFs(t: Time): DecompressedFs
  {
    DecompressedFs(map["a.txt" := FileEntry("a.txt", 0, Ascii("Hello, World!"), t)])
  }

  /** Reading the 13-byte entry through a 5-byte buffer gives 5, 5 and 3 bytes
      ("Hello", ", Wor", "ld!") and then `io.EOF`; its size is 13 and its
      time the stored one. */
  method ReadInChunks(t: Time)
    returns (size: int, modTime: Time, results: seq<ReadResult>, chunks: seq<seq<byte>>)
    ensures size == 13 && modTime == t
    ensures results == [Count(5), Count(5), Count(3), EOF]
    ensures chunks == [Ascii("Hello"), Ascii(", Wor"), Ascii("ld!")]
  {
    var text := "Hello, World!";
    AsciiSlice(text, 0, 5);
    AsciiSlice(text, 5, 10);
    AsciiSlice(text, 10, 13);
    assert text[0..5] == "Hello" && text[5..10] == ", Wor" && text[10..13] == "ld!";
    var a, _ := Open(HelloFs(t), "a.txt");
    var info, _ := a.Stat();
    size, modTime := info.Size(), info.ModTime();
    var buf := new byte[5];
    var r1 := a.Read(buf);
    var c1 := buf[..];
    assert c1 == buf[..5];
    var r2 := a.Read(buf);
    var c2 := buf[..];
    assert c2 == buf[..5];
    var r3 := a.Read(buf);
    var c3 := buf[..3];
    var r4 := a.Read(buf);
    results, chunks := [r1, r2, r3, r4], [c1, c2, c3];
  }

  /** After reading to the end, seeking 6 bytes back from the end lands on 7
      and the next 5-byte read gives "World"; a second handle starts over
      with "Hello". */
  method SeekFromEnd(t: Time) returns (seekPos: int, afterSeek: seq<byte>, reopened: seq<byte>)
    ensures seekPos == 7 && afterSeek == Ascii("World") && reopened == Ascii("Hello")
  {
    var text := "Hello, World!";
    AsciiSlice(text, 7, 12);
    AsciiSlice(text, 0, 5);
    assert text[7..12] == "World" && text[0..5] == "Hello";
    var a, _ := Open(HelloFs(t), "a.txt");
    var buf := new byte[20];
    var _ := a.Read(buf);
    var p, _ := a.Seek(-6, SeekEnd);
    seekPos := p;
    buf := new byte[5];
    var _ := a.Read(buf);
    afterSeek := buf[..];
    assert afterSeek == buf[..5];
    var b, _ := Open(HelloFs(t), "a.txt");
    var _ := b.Read(buf);
    reopened := buf[..];
    assert reopened == buf[..5];
  }

  /** An unknown path is `ErrNotFound`; a closed handle has size 0 and
      reads `io.EOF`, while a handle opened after it still has all 13 bytes. */
  method MissingAndClosed(t: Time) returns (missing: Option<Error>, closedSize: int, afterClose: ReadResult, otherSize: int)
    ensures missing == Some(NotFound)
    ensures closedSize == 0 && afterClose == EOF && otherSize == 13
  {
    var _, err := Open(HelloFs(t), "unknownfile");
    missing := err;
    var a, _ := Open(HelloFs(t), "a.txt");
    var info, _ := a.Stat();
    var _ := a.Close();
    closedSize := info.Size();
    var buf := new byte[5];
    afterClose := a.Read(buf);
    var b, _ := Open(HelloFs(t), "a.txt");
    otherSize := b.Size();
  }

  /** A tree with two directories, two compressed files and one plain file. */
  function SampleTree(ra: seq<byte>, rb: seq<byte>, t1: Time, t2: Time): seq<SourceEntry>
  {
    [ SourceEntry("dir", "dir", false, None, None, [], None, t1),
      SourceEntry("dir/sub", "sub", false, None, None, [], None, t1),
      SourceEntry("dir/sub/a.txt.gz", "a.txt.gz", true, None, None, ra, None, t1),
      SourceEntry("notes.txt", "notes.txt", true, None, None, [], None, t2),
      SourceEntry("top.bin.gz", "top.bin.gz", true, None, None, rb, None, t2) ]
  }

  /** The walk callback's verdict on each entry of the sample tree. */
  lemma SampleVisits(gz: Gzip.Decoder, ra: seq<byte>, rb: seq<byte>, t1: Time, t2: Time)
    ensures var tree := SampleTree(ra, rb, t1, t2);
      && VisitEntry(tree[0], gz) == Skip && VisitEntry(tree[1], gz) == Skip && VisitEntry(tree[3], gz) == Skip
      && VisitEntry(tree[2], gz) == (match Gzip.Inflate(gz, ra)
           case Failure(err) => Abort(err)
           case Success(buf) => Store("dir/sub/a.txt", FileEntry("a.txt", 0, buf, t1)))
      && VisitEntry(tree[4], gz) == (match Gzip.Inflate(gz, rb)
           case Failure(err) => Abort(err)
           case Success(buf) => Store("top.bin", FileEntry("top.bin", 0, buf, t2)))
  {
    assert "notes.txt"[..|"notes.txt"| - 3] + GzSuffix != "notes.txt";
    assert "a.txt.gz"[..|"a.txt.gz"| - 3] == "a.txt";
    assert "dir/sub/a.txt.gz"[..|"dir/sub/a.txt.gz"| - 3] == "dir/sub/a.txt";
    assert "top.bin.gz"[..|"top.bin.gz"| - 3] == "top.bin";
  }

  /** Building from the sample tree keeps only the two `.gz` files, under
      `dir/sub/a.txt` and `top.bin`, each named without `.gz` and stamped with
      its own time. */
  lemma SampleTreeBuilds(gz: Gzip.Decoder, ra: seq<byte>, rb: seq<byte>, t1: Time, t2: Time)
    requires Gzip.Inflate(gz, ra).Success? && Gzip.Inflate(gz, rb).Success?
    ensures Walk(SampleTree(ra, rb, t1, t2), gz) ==
      Success(map["dir/sub/a.txt" := FileEntry("a.txt", 0, gz.output(ra), t1),
                  "top.bin" := FileEntry("top.bin", 0, gz.output(rb), t2)])
  {
    var tree := SampleTree(ra, rb, t1, t2);
    SampleVisits(gz, ra, rb, t1, t2);
    var a := FileEntry("a.txt", 0, gz.output(ra), t1);
    assert tree[..1][..0] == [];
    assert Walk(tree[..1], gz) == Success(map[]);
    assert tree[..2][..1] == tree[..1];
    assert Walk(tree[..2], gz) == Success(map[]);
    assert tree[..3][..2] == tree[..2];
    assert Walk(tree[..3], gz) == Success(map["dir/sub/a.txt" := a]);
    assert tree[..4][..3] == tree[..3];
    assert Walk(tree[..4], gz) == Success(map["dir/sub/a.txt" := a]);
    assert tree[..4] == tree[..|tree| - 1];
  }

  /** If either compressed file of the sample tree does not decompress, the
      build fails with that file's error, although the other is well formed. */
  lemma SampleTreeCorrupt(gz: Gzip.Decoder, ra: seq<byte>, rb: seq<byte>, t1: Time, t2: Time)
    requires Gzip.Inflate(gz, ra).Failure? || Gzip.Inflate(gz, rb).Failure?
    ensures Walk(SampleTree(ra, rb, t1, t2), gz) ==
      Failure(if Gzip.Inflate(gz, ra).Failure? then Gzip.Inflate(gz, ra).error else Gzip.Inflate(gz, rb).error)
  {
    var tree := SampleTree(ra, rb, t1, t2);
    SampleVisits(gz, ra, rb, t1, t2);
    if Gzip.Inflate(gz, ra).Failure? {
      WalkFailsWithFirstAbort(tree, 2, gz);
    } else {
      WalkFailsWithFirstAbort(tree, 4, gz);
    }
  }
}
