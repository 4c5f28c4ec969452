/** The flat file system: a table of nodes with one 4096-character buffer each. It refines a list of
    items looked up by first match. */
module VfsModel {
  import opened Paths

  const MAX_NODES: nat := 128
  const PATH_LEN: nat := 128
  const DATA_MAX: nat := 4096
  const MAX_READ_SIZE: nat := 4096
  const PERM_READ_WRITE: nat := 3

  datatype Kind = Unused | File | Dir | Dev

  type LiveKind = k: Kind | k != Unused witness Dir

  /** hasData: the data pointer is set, and then to the node's own buffer. reader names the function
      of a dynamic node. */
  datatype Node = Node(path: cstr, kind: Kind, hasData: bool, reader: Option<nat>, size: nat, perm: nat) {
    predicate Readable() { perm % 2 == 1 }
    predicate Writable() { perm / 2 % 2 == 1 }
    predicate Live() { kind != Unused }
  }

  /** The node table, how many slots have been handed out, and the buffers one after another. */
  datatype Fs = Fs(nodes: seq<Node>, count: nat, pool: seq<char>)

  type PathArg = Option<cstr>

  ghost predicate Shape(fs: Fs) {
    |fs.nodes| == MAX_NODES && fs.count <= MAX_NODES && |fs.pool| == MAX_NODES * DATA_MAX
  }

  function Row(pool: seq<char>, i: nat): (row: seq<char>)
    requires |pool| == MAX_NODES * DATA_MAX && i < MAX_NODES
    ensures |row| == DATA_MAX
  {
    pool[DATA_MAX * i..DATA_MAX * (i + 1)]
  }

  /** The C string a buffer starts with. */
  function CStr(row: seq<char>): (s: cstr)
    ensures |s| <= |row| && s == row[..|s|]
    ensures |s| < |row| ==> row[|s|] == '\0'
  {
    if row == [] || row[0] == '\0' then ""
    else
      var t := CStr(row[1..]);
      assert row[..|t| + 1] == [row[0]] + row[1..][..|t|];
      [row[0]] + t
  }

  lemma {:induction false} CStrOfTerminated(s: seq<char>, rest: seq<char>)
    ensures CStr(s + ['\0'] + rest) == CStr(s)
    ensures '\0' !in s ==> CStr(s) == s
  {
    if s != [] {
      CStrOfTerminated(s[1..], rest);
      assert (s + ['\0'] + rest)[1..] == s[1..] + ['\0'] + rest;
    } else {
      assert s + ['\0'] + rest == ['\0'] + rest;
    }
  }

  function Clip(p: cstr): cstr {
    if |p| < PATH_LEN then p else p[..PATH_LEN - 1]
  }

  function Min(a: nat, b: nat): nat { if a < b then a else b }

  function SetRow(pool: seq<char>, i: nat, row: seq<char>): (r: seq<char>)
    requires |pool| == MAX_NODES * DATA_MAX && i < MAX_NODES && |row| == DATA_MAX
    ensures |r| == |pool|
  {
    pool[..DATA_MAX * i] + row + pool[DATA_MAX * (i + 1)..]
  }

  lemma RowsAfterSet(pool: seq<char>, i: nat, row: seq<char>, j: nat)
    requires |pool| == MAX_NODES * DATA_MAX && i < MAX_NODES && j < MAX_NODES && |row| == DATA_MAX
    ensures Row(SetRow(pool, i, row), j) == if j == i then row else Row(pool, j)
  {}

  /** A buffer set to a text, a terminator and whatever is left reads back as that text. */
  lemma TextInRow(pool: seq<char>, i: nat, text: seq<char>, rest: seq<char>)
    requires |pool| == MAX_NODES * DATA_MAX && i < MAX_NODES && |text| + 1 + |rest| == DATA_MAX
    ensures CStr(Row(SetRow(pool, i, text + ['\0'] + rest), i)) == CStr(text)
    ensures '\0' !in text ==> CStr(text) == text
  {
    hide Row, SetRow;
    CStrOfTerminated(text, rest);
    RowsAfterSet(pool, i, text + ['\0'] + rest, i);
  }

  /** Node i and its buffer replaced. */
  function Put(fs: Fs, i: nat, n: Node, row: seq<char>): (fs': Fs)
    requires Shape(fs) && i < MAX_NODES && |row| == DATA_MAX
    ensures Shape(fs') && fs'.count == fs.count && fs'.nodes == fs.nodes[i := n]
  {
    fs.(nodes := fs.nodes[i := n], pool := SetRow(fs.pool, i, row))
  }

  // ---- operations ----

  predicate LiveAt(fs: Fs, i: nat, path: cstr)
    requires i < |fs.nodes|
  {
    fs.nodes[i].Live() && fs.nodes[i].path == path
  }

  /** The first live node with this path from i on, or count. */
  function FindFrom(fs: Fs, path: cstr, i: nat): (r: nat)
    requires Shape(fs) && i <= fs.count
    ensures i <= r <= fs.count
    ensures r < fs.count ==> LiveAt(fs, r, path)
    ensures forall j :: i <= j < r ==> !LiveAt(fs, j, path)
    decreases fs.count - i
  {
    if i == fs.count || LiveAt(fs, i, path) then i else FindFrom(fs, path, i + 1)
  }

  /** vfs_lookup as an index; count if there is no such node or the path is not valid. */
  function Lookup(fs: Fs, path: PathArg): (r: nat)
    requires Shape(fs)
    ensures r <= fs.count
  {
    if path.Some? && ValidPath(path.value) then FindFrom(fs, path.value, 0) else fs.count
  }

  predicate Creatable(path: PathArg) {
    path.Some? && ValidPath(path.value) && |path.value| < 256
  }

  /** The next slot handed out and named; its permissions are what they were. */
  function Alloc(fs: Fs, path: cstr, kind: LiveKind, reader: Option<nat>): (fs': Fs)
    requires Shape(fs) && fs.count < MAX_NODES
    ensures Shape(fs')
  {
    var n := Node(Clip(path), kind, false, reader, 0, fs.nodes[fs.count].perm);
    fs.(nodes := fs.nodes[fs.count := n], count := fs.count + 1)
  }

  function Make(fs: Fs, path: PathArg, kind: LiveKind, reader: Option<nat>): (r: (Fs, int))
    requires Shape(fs)
    ensures Shape(r.0)
  {
    if !Creatable(path) || fs.count == MAX_NODES then (fs, -1)
    else (Alloc(fs, path.value, kind, reader), 0)
  }

  /** vfs_mkfile; the node is already in the table when the content turns out too long. */
  function MakeFile(fs: Fs, path: PathArg, content: Option<cstr>): (r: (Fs, int))
    requires Shape(fs)
    ensures Shape(r.0)
  {
    if !Creatable(path) || fs.count == MAX_NODES then (fs, -1)
    else
      var i := fs.count;
      var fs1 := Alloc(fs, path.value, File, None);
      var text := if content.Some? then content.value else "";
      if |text| >= DATA_MAX then (fs1, -1)
      else
        var row := text + ['\0'] + Row(fs.pool, i)[|text| + 1..];
        (Put(fs1, i, fs1.nodes[i].(hasData := true, size := |text|, perm := PERM_READ_WRITE), row), 0)
  }

  datatype ReadResult = Failed | Dynamic(reader: nat, size: nat) | Text(text: cstr)

  /** vfs_read into a buffer of the given size. */
  function Read(fs: Fs, path: PathArg, size: nat): ReadResult
    requires Shape(fs)
  {
    var max := Min(size, MAX_READ_SIZE);
    var i := Lookup(fs, path);
    if size == 0 || i == fs.count || fs.nodes[i].kind == Dir then Failed
    else
      var n := fs.nodes[i];
      if !n.Readable() && n.reader.None? then Failed
      else if n.reader.Some? then Dynamic(n.reader.value, max)
      else if n.hasData then
        var s := CStr(Row(fs.pool, i));
        Text(s[..Min(|s|, max - 1)])
      else Text("")
  }

  function Write(fs: Fs, path: PathArg, data: seq<char>, size: nat): (r: (Fs, int))
    requires Shape(fs) && size <= |data|
    ensures Shape(r.0)
  {
    var i := Lookup(fs, path);
    if i == fs.count || fs.nodes[i].kind != File || fs.nodes[i].reader.Some? || !fs.nodes[i].Writable() then (fs, -1)
    else
      var n := Min(size, DATA_MAX - 1);
      var row := data[..n] + ['\0'] + Row(fs.pool, i)[n + 1..];
      (Put(fs, i, fs.nodes[i].(hasData := true, size := n), row), n as int)
  }

  function Remove(fs: Fs, path: PathArg): (r: (Fs, int))
    requires Shape(fs)
    ensures Shape(r.0)
  {
    var i := Lookup(fs, path);
    if i == fs.count || !fs.nodes[i].Writable() then (fs, -1)
    else (Put(fs, i, fs.nodes[i].(kind := Unused, path := "", hasData := false, size := 0),
              ['\0'] + Row(fs.pool, i)[1..]), 0)
  }

  function Rename(fs: Fs, oldPath: PathArg, newPath: PathArg): (r: (Fs, int))
    requires Shape(fs)
    ensures Shape(r.0)
  {
    var i := Lookup(fs, oldPath);
    if !Creatable(newPath) || i == fs.count
       || (!fs.nodes[i].Writable() && fs.nodes[i].kind == File) || Lookup(fs, newPath) < fs.count then (fs, -1)
    else (fs.(nodes := fs.nodes[i := fs.nodes[i].(path := Clip(newPath.value))]), 0)
  }

  function Chmod(fs: Fs, path: PathArg, perm: nat): (r: (Fs, int))
    requires Shape(fs)
    ensures Shape(r.0)
  {
    var i := Lookup(fs, path);
    if i == fs.count then (fs, -1)
    else (fs.(nodes := fs.nodes[i := fs.nodes[i].(perm := perm)]), 0)
  }

  // ---- the invariant ----

  predicate StoredPath(p: cstr) {
    ValidPath(p) && |p| < PATH_LEN
  }

  /** Live nodes keep valid paths of at most 127 characters, and set data is terminated. */
  ghost predicate Inv(fs: Fs) {
    && Shape(fs)
    && (forall i :: 0 <= i < fs.count && fs.nodes[i].Live() ==> StoredPath(fs.nodes[i].path))
    && (forall i :: 0 <= i < fs.count && fs.nodes[i].hasData ==> |CStr(Row(fs.pool, i))| < DATA_MAX)
  }

  datatype Op =
    | DoMake(path: PathArg, kind: LiveKind, reader: Option<nat>)
    | DoMakeFile(path: PathArg, content: Option<cstr>)
    | DoWrite(path: PathArg, data: seq<char>)
    | DoRemove(path: PathArg)
    | DoRename(path: PathArg, newPath: PathArg)
    | DoChmod(path: PathArg, perm: nat)

  function Step(fs: Fs, op: Op): (r: (Fs, int))
    requires Shape(fs)
    ensures Shape(r.0)
  {
    match op
    case DoMake(path, kind, reader) => Make(fs, path, kind, reader)
    case DoMakeFile(path, content) => MakeFile(fs, path, content)
    case DoWrite(path, data) => Write(fs, path, data, |data|)
    case DoRemove(path) => Remove(fs, path)
    case DoRename(path, newPath) => Rename(fs, path, newPath)
    case DoChmod(path, perm) => Chmod(fs, path, perm)
  }

  /** The node a step touches: the one it looks up, or the next slot. */
  function Target(fs: Fs, op: Op): nat
    requires Shape(fs)
  {
    if op.DoMake? || op.DoMakeFile? then fs.count else Lookup(fs, op.path)
  }

  /** A step changes no node but its target, and no other node's buffer. */
  lemma OthersUntouched(fs: Fs, op: Op, j: nat)
    requires Shape(fs) && j < MAX_NODES && j != Target(fs, op)
    ensures var fs' := Step(fs, op).0;
      fs'.nodes[j] == fs.nodes[j] && Row(fs'.pool, j) == Row(fs.pool, j)
  {
    hide FindFrom, Row, SetRow, CStr;
    forall i: nat, row: seq<char> | i < MAX_NODES && |row| == DATA_MAX && i != j
      ensures Row(SetRow(fs.pool, i, row), j) == Row(fs.pool, j)
    {
      RowsAfterSet(fs.pool, i, row, j);
    }
  }

  /** What a step makes of its target. */
  lemma TargetOk(fs: Fs, op: Op)
    requires Inv(fs) && Target(fs, op) < MAX_NODES
    ensures var fs' := Step(fs, op).0; var i := Target(fs, op);
      && (i < fs'.count && fs'.nodes[i].Live() ==> StoredPath(fs'.nodes[i].path))
      && (i < fs'.count && fs'.nodes[i].hasData ==> |CStr(Row(fs'.pool, i))| < DATA_MAX)
  {
    hide FindFrom, Row, SetRow, CStr, StoredPath;
    var i := Target(fs, op);
    match op
    case DoMake(path, _, _) => ClipStored(path);
    case DoMakeFile(path, content) =>
      ClipStored(path);
      var text := if content.Some? then content.value else "";
      if |text| < DATA_MAX { TextInRow(fs.pool, i, text, Row(fs.pool, i)[|text| + 1..]); }
    case DoWrite(path, data) =>
      var n := Min(|data|, DATA_MAX - 1);
      TextInRow(fs.pool, i, data[..n], Row(fs.pool, i)[n + 1..]);
    case DoRemove(path) =>
      assert [] + ['\0'] + Row(fs.pool, i)[1..] == ['\0'] + Row(fs.pool, i)[1..];
      TextInRow(fs.pool, i, [], Row(fs.pool, i)[1..]);
    case DoRename(path, newPath) => ClipStored(newPath);
    case DoChmod(path, perm) =>
  }

  lemma ClipStored(path: PathArg)
    ensures Creatable(path) ==> StoredPath(Clip(path.value))
  {
    if Creatable(path) && |path.value| >= PATH_LEN { PrefixValid(path.value, PATH_LEN - 1); }
  }

  /** Every operation keeps the invariant. */
  lemma StepKeepsInv(fs: Fs, op: Op)
    requires Inv(fs)
    ensures Inv(Step(fs, op).0)
  {
    hide Row, CStr, StoredPath;
    var fs', i := Step(fs, op).0, Target(fs, op);
    if i < MAX_NODES { TargetOk(fs, op); }
    forall j | 0 <= j < MAX_NODES && j != i
      ensures fs'.nodes[j] == fs.nodes[j] && Row(fs'.pool, j) == Row(fs.pool, j)
    {
      OthersUntouched(fs, op, j);
    }
    CountAfter(fs, op);
    hide Step;
  }

  lemma CountAfter(fs: Fs, op: Op)
    requires Shape(fs)
    ensures var (fs', r) := Step(fs, op);
      && fs.count <= fs'.count <= fs.count + 1
      && (fs'.count > fs.count ==> (op.DoMake? || op.DoMakeFile?) && Target(fs, op) == fs.count < MAX_NODES)
      && (r == -1 && !op.DoMakeFile? ==> fs' == fs)
  {}

  function Run(fs: Fs, ops: seq<Op>): (r: Fs)
    requires Shape(fs)
    ensures Shape(r)
    decreases ops
  {
    if ops == [] then fs else Run(Step(fs, ops[0]).0, ops[1..])
  }

  /** Over every run live nodes keep non-empty stored paths without ".." that fit in 127 characters,
      and every buffer in use is terminated. */
  lemma {:induction false} RunKeepsInv(fs: Fs, ops: seq<Op>)
    requires Inv(fs)
    ensures Inv(Run(fs, ops))
    decreases ops
  {
    if ops != [] {
      StepKeepsInv(fs, ops[0]);
      RunKeepsInv(Step(fs, ops[0]).0, ops[1..]);
    }
  }

  // ---- single operations ----

  /** A write followed by a permitted read gives back the longest NUL-free prefix of the data that
      fits in the file and in the reader's buffer. */
  lemma WriteReadRoundTrip(fs: Fs, path: PathArg, data: seq<char>, size: nat)
    requires Shape(fs) && Write(fs, path, data, |data|).1 >= 0 && size > 0
    requires fs.nodes[Lookup(fs, path)].Readable()
    ensures var (fs', n) := Write(fs, path, data, |data|);
      && n == Min(|data|, DATA_MAX - 1)
      && Read(fs', path, size) == Text(CStr(data[..n])[..Min(|CStr(data[..n])|, Min(size, MAX_READ_SIZE) - 1)])
    ensures '\0' !in data ==>
      Read(Write(fs, path, data, |data|).0, path, size) == Text(data[..Min(|data|, Min(size, MAX_READ_SIZE) - 1)])
  {
    hide Row, SetRow, CStr, Lookup;
    var (fs', n) := Write(fs, path, data, |data|);
    var i := Lookup(fs, path);
    LookupStays(fs, fs', path);
    TextInRow(fs.pool, i, data[..n], Row(fs.pool, i)[n + 1..]);
    if '\0' !in data {
      var k := Min(n, Min(size, MAX_READ_SIZE) - 1);
      assert data[..n][..k] == data[..k];
    }
  }

  /** Lookups see kinds and paths only. */
  lemma LookupStays(fs: Fs, fs': Fs, path: PathArg)
    requires Shape(fs) && Shape(fs') && fs'.count == fs.count
    requires forall j :: 0 <= j < fs.count ==>
      fs'.nodes[j].path == fs.nodes[j].path && fs'.nodes[j].kind == fs.nodes[j].kind
    ensures Lookup(fs', path) == Lookup(fs, path)
  {
    if path.Some? && ValidPath(path.value) {
      var r, r' := Lookup(fs, path), Lookup(fs', path);
      assert r < fs.count ==> LiveAt(fs', r, path.value);
      assert r' < fs.count ==> LiveAt(fs, r', path.value);
    }
  }

  /** A new node is found under the path it was created with exactly when that path was not cut to
      127 characters and no earlier live node has it. */
  lemma FoundAfterMakeIff(fs: Fs, path: PathArg, kind: LiveKind, reader: Option<nat>)
    requires Shape(fs) && Make(fs, path, kind, reader).1 == 0
    ensures Lookup(Make(fs, path, kind, reader).0, path) == fs.count
      <==> |path.value| < PATH_LEN && Lookup(fs, path) == fs.count
  {
    var fs' := Make(fs, path, kind, reader).0;
    var r, r' := Lookup(fs, path), Lookup(fs', path);
    assert r < fs.count ==> LiveAt(fs', r, path.value);
    assert r' < fs.count ==> LiveAt(fs, r', path.value);
    assert LiveAt(fs', fs.count, path.value) <==> |path.value| < PATH_LEN;
  }

  /** A creation that reports failure leaves everything as it was, except that vfs_mkfile with
      content of 4096 characters or more has already entered the node. */
  lemma FailedMakeFileIff(fs: Fs, path: PathArg, content: Option<cstr>)
    requires Shape(fs) && MakeFile(fs, path, content).1 == -1
    ensures MakeFile(fs, path, content).0 == fs
      <==> !(Creatable(path) && fs.count < MAX_NODES && content.Some? && |content.value| >= DATA_MAX)
    ensures MakeFile(fs, path, content).0 != fs ==>
      MakeFile(fs, path, content).0.nodes[fs.count].Live() && !MakeFile(fs, path, content).0.nodes[fs.count].hasData
  {}

  /** Renaming succeeds exactly for an existing, permitted source and an unused valid target; the
      node keeps everything but its path. It is then found under the new path exactly when that has
      fewer than 128 characters, and under the old one a later node of the same path shows up. */
  lemma RenameOutcome(fs: Fs, oldPath: PathArg, newPath: PathArg)
    requires Shape(fs)
    ensures var (fs', r) := Rename(fs, oldPath, newPath); var i := Lookup(fs, oldPath);
      && (r == 0 || r == -1) && (r == -1 ==> fs' == fs)
      && (r == 0 <==> i < fs.count && Creatable(newPath) && Lookup(fs, newPath) == fs.count
                      && (fs.nodes[i].Writable() || fs.nodes[i].kind != File))
      && (r == 0 ==>
            && fs'.nodes == fs.nodes[i := fs.nodes[i].(path := Clip(newPath.value))] && fs'.pool == fs.pool
            && (Lookup(fs', newPath) == i <==> |newPath.value| < PATH_LEN)
            && Lookup(fs', oldPath) == (if Clip(newPath.value) == oldPath.value then i else FindFrom(fs, oldPath.value, i + 1)))
  {
    var (fs', r) := Rename(fs, oldPath, newPath);
    var i := Lookup(fs, oldPath);
    if r == 0 {
      var old_, new_ := oldPath.value, newPath.value;
      forall j | 0 <= j < i
        ensures !LiveAt(fs', j, old_) && !LiveAt(fs', j, new_)
      {
        assert !LiveAt(fs, j, old_) && !LiveAt(fs, j, new_);
      }
      FindPast(fs', new_, 0, i);
      FindPast(fs', old_, 0, i);
      FindSame(fs, fs', old_, i);
      assert Lookup(fs', newPath) == FindFrom(fs', new_, i);
      assert Lookup(fs', oldPath) == FindFrom(fs', old_, i);
      assert LiveAt(fs', i, new_) <==> |new_| < PATH_LEN;
      assert LiveAt(fs', i, old_) <==> Clip(new_) == old_;
    }
  }

  lemma FindPast(fs: Fs, path: cstr, a: nat, i: nat)
    requires Shape(fs) && a <= i <= fs.count
    requires forall j :: a <= j < i ==> !LiveAt(fs, j, path)
    ensures FindFrom(fs, path, a) == FindFrom(fs, path, i)
  {
    var r, r' := FindFrom(fs, path, a), FindFrom(fs, path, i);
    assert r < fs.count ==> LiveAt(fs, r, path);
    assert r' < fs.count ==> LiveAt(fs, r', path);
  }

  lemma FindSame(fs: Fs, fs': Fs, path: cstr, i: nat)
    requires Shape(fs) && Shape(fs') && fs'.count == fs.count && i < fs.count
    requires forall j :: 0 <= j < fs.count && j != i ==> fs'.nodes[j] == fs.nodes[j]
    ensures FindFrom(fs', path, i + 1) == FindFrom(fs, path, i + 1)
  {
    var r, r' := FindFrom(fs, path, i + 1), FindFrom(fs', path, i + 1);
    assert r < fs.count ==> LiveAt(fs', r, path);
    assert r' < fs.count ==> LiveAt(fs, r', path);
  }

  // ---- the association list ----

  /** What a path stands for. */
  datatype Item = Item(path: cstr, kind: Kind, perm: nat, size: nat, content: Option<cstr>, reader: Option<nat>)

  function ItemAt(fs: Fs, i: nat): Item
    requires Shape(fs) && i < MAX_NODES
  {
    var n := fs.nodes[i];
    Item(n.path, n.kind, n.perm, n.size, if n.hasData then Some(CStr(Row(fs.pool, i))) else None, n.reader)
  }

  /** The live items among nodes a to b, in order. */
  function Between(fs: Fs, a: nat, b: nat): seq<Item>
    requires Shape(fs) && a <= b <= MAX_NODES
    decreases b - a
  {
    if a == b then []
    else (if fs.nodes[a].Live() then [ItemAt(fs, a)] else []) + Between(fs, a + 1, b)
  }

  function Items(fs: Fs): seq<Item>
    requires Shape(fs)
  {
    Between(fs, 0, fs.count)
  }

  lemma {:induction false} BetweenSplit(fs: Fs, a: nat, b: nat, c: nat)
    requires Shape(fs) && a <= b <= c <= MAX_NODES
    ensures Between(fs, a, c) == Between(fs, a, b) + Between(fs, b, c)
    decreases b - a
  {
    if a < b { BetweenSplit(fs, a + 1, b, c); }
  }

  lemma {:induction false} BetweenSame(fs: Fs, fs': Fs, a: nat, b: nat)
    requires Shape(fs) && Shape(fs') && a <= b <= MAX_NODES
    requires forall j :: a <= j < b ==> fs'.nodes[j] == fs.nodes[j] && Row(fs'.pool, j) == Row(fs.pool, j)
    ensures Between(fs', a, b) == Between(fs, a, b)
    decreases b - a
  {
    if a < b { BetweenSame(fs, fs', a + 1, b); }
  }

  /** Index of the first item with this path, or the number of items. */
  function First(xs: seq<Item>, path: cstr): (k: nat)
    ensures k <= |xs|
  {
    if xs == [] || xs[0].path == path then 0 else 1 + First(xs[1..], path)
  }

  lemma {:induction false} FirstBeyond(fs: Fs, path: cstr, a: nat, b: nat, rest: seq<Item>)
    requires Shape(fs) && a <= b <= MAX_NODES
    requires forall j :: a <= j < b ==> !LiveAt(fs, j, path)
    ensures First(Between(fs, a, b) + rest, path) == |Between(fs, a, b)| + First(rest, path)
    decreases b - a
  {
    if a < b {
      assert !LiveAt(fs, a, path);
      FirstBeyond(fs, path, a + 1, b, rest);
      var xs := Between(fs, a + 1, b) + rest;
      if fs.nodes[a].Live() {
        assert Between(fs, a, b) + rest == [ItemAt(fs, a)] + xs;
        assert ([ItemAt(fs, a)] + xs)[1..] == xs;
      } else {
        assert Between(fs, a, b) + rest == xs;
      }
    } else {
      assert [] + rest == rest;
    }
  }

  /** Place of node i among the items. */
  function Place(fs: Fs, i: nat): nat
    requires Shape(fs) && i <= fs.count
  {
    |Between(fs, 0, i)|
  }

  /** The node found by a scan is the first item of that path. */
  lemma LookupIsFirst(fs: Fs, path: cstr)
    requires Shape(fs)
    ensures Place(fs, FindFrom(fs, path, 0)) == First(Items(fs), path)
    ensures FindFrom(fs, path, 0) < fs.count ==>
      First(Items(fs), path) < |Items(fs)| && Items(fs)[First(Items(fs), path)] == ItemAt(fs, FindFrom(fs, path, 0))
    ensures FindFrom(fs, path, 0) == fs.count ==> First(Items(fs), path) == |Items(fs)|
  {
    var i := FindFrom(fs, path, 0);
    BetweenSplit(fs, 0, i, fs.count);
    FirstBeyond(fs, path, 0, i, Between(fs, i, fs.count));
  }

  /** Changing one live node changes one item; making it unused removes that item. */
  lemma OneNodeOneItem(fs: Fs, fs': Fs, i: nat)
    requires Shape(fs) && Shape(fs') && fs'.count == fs.count && i < fs.count && fs.nodes[i].Live()
    requires forall j :: 0 <= j < fs.count && j != i ==>
      fs'.nodes[j] == fs.nodes[j] && Row(fs'.pool, j) == Row(fs.pool, j)
    ensures Place(fs, i) < |Items(fs)|
    ensures Items(fs') ==
      if fs'.nodes[i].Live() then Items(fs)[Place(fs, i) := ItemAt(fs', i)]
      else Items(fs)[..Place(fs, i)] + Items(fs)[Place(fs, i) + 1..]
  {
    hide Row, ItemAt, Between;
    BetweenSplit(fs, 0, i, fs.count);
    BetweenSplit(fs', 0, i, fs.count);
    BetweenSame(fs, fs', 0, i);
    BetweenSame(fs, fs', i + 1, fs.count);
    BetweenHead(fs, i);
    BetweenHead(fs', i);
    ReplaceMiddle(Between(fs, 0, i), [ItemAt(fs, i)], Between(fs, i + 1, fs.count), ItemAt(fs', i));
  }

  lemma BetweenHead(fs: Fs, i: nat)
    requires Shape(fs) && i < fs.count
    ensures Between(fs, i, fs.count) == (if fs.nodes[i].Live() then [ItemAt(fs, i)] else []) + Between(fs, i + 1, fs.count)
  {
    hide Row, ItemAt;
  }

  lemma ReplaceMiddle(a: seq<Item>, x: seq<Item>, c: seq<Item>, y: Item)
    requires |x| == 1
    ensures (a + (x + c))[|a| := y] == a + ([y] + c)
    ensures (a + (x + c))[..|a|] + (a + (x + c))[|a| + 1..] == a + ([] + c)
  {}

  lemma NewNodeNewItem(fs: Fs, fs': Fs)
    requires Shape(fs) && Shape(fs') && fs.count < MAX_NODES && fs'.count == fs.count + 1
    requires fs'.nodes[fs.count].Live()
    requires forall j :: 0 <= j < fs.count ==> fs'.nodes[j] == fs.nodes[j] && Row(fs'.pool, j) == Row(fs.pool, j)
    ensures Items(fs') == Items(fs) + [ItemAt(fs', fs.count)]
  {
    BetweenSplit(fs', 0, fs.count, fs.count + 1);
    BetweenSame(fs, fs', 0, fs.count);
    assert Between(fs', fs.count + 1, fs.count + 1) == [];
  }

  // The operations on a list of items.

  function ListFirst(xs: seq<Item>, path: PathArg): (k: nat)
    ensures k <= |xs|
  {
    if path.Some? && ValidPath(path.value) then First(xs, path.value) else |xs|
  }

  function ListRead(xs: seq<Item>, path: PathArg, size: nat): ReadResult {
    var k := ListFirst(xs, path);
    if size == 0 || k == |xs| || xs[k].kind == Dir then Failed
    else match xs[k].reader
      case Some(f) => Dynamic(f, Min(size, MAX_READ_SIZE))
      case None =>
        if xs[k].perm % 2 != 1 then Failed
        else if xs[k].content.None? then Text("")
        else
          var s := xs[k].content.value;
          Text(s[..Min(|s|, Min(size, MAX_READ_SIZE) - 1)])
  }

  function ListWrite(xs: seq<Item>, path: PathArg, data: seq<char>): (seq<Item>, int) {
    var k := ListFirst(xs, path);
    if k == |xs| || xs[k].kind != File || xs[k].reader.Some? || xs[k].perm / 2 % 2 != 1 then (xs, -1)
    else
      var n := Min(|data|, DATA_MAX - 1);
      (xs[k := xs[k].(content := Some(CStr(data[..n])), size := n)], n as int)
  }

  function ListRemove(xs: seq<Item>, path: PathArg): (seq<Item>, int) {
    var k := ListFirst(xs, path);
    if k == |xs| || xs[k].perm / 2 % 2 != 1 then (xs, -1) else (xs[..k] + xs[k + 1..], 0)
  }

  function ListRename(xs: seq<Item>, path: PathArg, newPath: PathArg): (seq<Item>, int) {
    var k := ListFirst(xs, path);
    if k == |xs| || !Creatable(newPath) || (xs[k].perm / 2 % 2 != 1 && xs[k].kind == File)
       || ListFirst(xs, newPath) < |xs| then (xs, -1)
    else (xs[k := xs[k].(path := Clip(newPath.value))], 0)
  }

  function ListChmod(xs: seq<Item>, path: PathArg, perm: nat): (seq<Item>, int) {
    var k := ListFirst(xs, path);
    if k == |xs| then (xs, -1) else (xs[k := xs[k].(perm := perm)], 0)
  }

  lemma ReadRefines(fs: Fs, path: PathArg, size: nat)
    requires Shape(fs)
    ensures Read(fs, path, size) == ListRead(Items(fs), path, size)
  {
    hide Items, FindFrom, First, Row, CStr;
    if path.Some? { LookupIsFirst(fs, path.value); }
  }

  /** The list after an operation, and its result; whether a slot is left is the table's matter. */
  function ListStep(xs: seq<Item>, op: Op, room: bool, perm: nat): (seq<Item>, int) {
    match op
    case DoMake(path, kind, reader) =>
      if !Creatable(path) || !room then (xs, -1)
      else (xs + [Item(Clip(path.value), kind, perm, 0, None, reader)], 0)
    case DoMakeFile(path, content) =>
      var text := if content.Some? then content.value else "";
      if !Creatable(path) || !room then (xs, -1)
      else if |text| >= DATA_MAX then (xs + [Item(Clip(path.value), File, perm, 0, None, None)], -1)
      else (xs + [Item(Clip(path.value), File, PERM_READ_WRITE, |text|, Some(text), None)], 0)
    case DoWrite(path, data) => ListWrite(xs, path, data)
    case DoRemove(path) => ListRemove(xs, path)
    case DoRename(path, newPath) => ListRename(xs, path, newPath)
    case DoChmod(path, perm) => ListChmod(xs, path, perm)
  }

  /** Permissions the next slot starts with: those its node was left with, 0 after boot. */
  function NextPerm(fs: Fs): nat
    requires Shape(fs)
  {
    if fs.count < MAX_NODES then fs.nodes[fs.count].perm else 0
  }

  lemma ListFirstIs(fs: Fs, path: PathArg)
    requires Shape(fs)
    ensures var i := Lookup(fs, path); var k := ListFirst(Items(fs), path); var xs := Items(fs);
      && k == (if i < fs.count then Place(fs, i) else |xs|)
      && (i < fs.count ==> k < |xs| && xs[k] == ItemAt(fs, i) && fs.nodes[i].Live())
      && (k < |xs| ==> i < fs.count)
  {
    hide Items;
    if path.Some? && ValidPath(path.value) { LookupIsFirst(fs, path.value); }
  }

  /** Every operation does to the list of items, and returns, what the list operation does: a
      creation appends, everything else acts on the first item of its path. */
  lemma StepRefines(fs: Fs, op: Op)
    requires Shape(fs)
    ensures (Items(Step(fs, op).0), Step(fs, op).1) == ListStep(Items(fs), op, fs.count < MAX_NODES, NextPerm(fs))
  {
    hide Items;
    if op.DoMake? || op.DoMakeFile? {
      MakeRefines(fs, op);
    } else {
      UpdateRefines(fs, op);
    }
  }

  lemma MakeRefines(fs: Fs, op: Op)
    requires Shape(fs) && (op.DoMake? || op.DoMakeFile?)
    ensures (Items(Step(fs, op).0), Step(fs, op).1) == ListStep(Items(fs), op, fs.count < MAX_NODES, NextPerm(fs))
  {
    hide Items, Row, SetRow;
    var (fs', r) := Step(fs, op);
    if Creatable(op.path) && fs.count < MAX_NODES {
      forall j | 0 <= j < fs.count
        ensures fs'.nodes[j] == fs.nodes[j] && Row(fs'.pool, j) == Row(fs.pool, j)
      {
        OthersUntouched(fs, op, j);
      }
      NewNodeNewItem(fs, fs');
      if op.DoMakeFile? {
        var text := if op.content.Some? then op.content.value else "";
        if |text| < DATA_MAX { TextInRow(fs.pool, fs.count, text, Row(fs.pool, fs.count)[|text| + 1..]); }
      }
    }
  }

  lemma UpdateRefines(fs: Fs, op: Op)
    requires Shape(fs) && !op.DoMake? && !op.DoMakeFile?
    ensures (Items(Step(fs, op).0), Step(fs, op).1) == ListStep(Items(fs), op, fs.count < MAX_NODES, NextPerm(fs))
  {
    hide Items, Row, SetRow, Lookup, ListFirst;
    var (fs', r) := Step(fs, op);
    var i := Lookup(fs, op.path);
    ListFirstIs(fs, op.path);
    if op.DoRename? { ListFirstIs(fs, op.newPath); }
    if i < fs.count {
      forall j | 0 <= j < fs.count && j != i
        ensures fs'.nodes[j] == fs.nodes[j] && Row(fs'.pool, j) == Row(fs.pool, j)
      {
        OthersUntouched(fs, op, j);
      }
      OneNodeOneItem(fs, fs', i);
      if op.DoWrite? {
        var n := Min(|op.data|, DATA_MAX - 1);
        TextInRow(fs.pool, i, op.data[..n], Row(fs.pool, i)[n + 1..]);
      }
    }
  }

  // ---- runs of table and list side by side ----

  /** Slots not handed out yet have the permissions they booted with. */
  ghost predicate Tail(fs: Fs)
    requires Shape(fs)
  {
    forall i :: fs.count <= i < MAX_NODES ==> fs.nodes[i].perm == 0
  }

  lemma StepKeepsTail(fs: Fs, op: Op)
    requires Shape(fs) && Tail(fs)
    ensures Tail(Step(fs, op).0)
  {
    hide Step, Target;
    CountAfter(fs, op);
    TargetBelow(fs, op);
    forall j | Step(fs, op).0.count <= j < MAX_NODES
      ensures Step(fs, op).0.nodes[j].perm == 0
    {
      if j != Target(fs, op) { OthersUntouched(fs, op, j); } else { FailureStays(fs, op); }
    }
  }

  lemma TargetBelow(fs: Fs, op: Op)
    requires Shape(fs)
    ensures Target(fs, op) <= fs.count
  {}

  /** An operation whose target is no slot in use afterwards changes nothing. */
  lemma FailureStays(fs: Fs, op: Op)
    requires Shape(fs) && Target(fs, op) >= Step(fs, op).0.count
    ensures Step(fs, op).0 == fs
  {}

  /** The list with the number of nodes ever created: slots are never given back, so after 128
      creations there is no room. */
  datatype Listing = Listing(items: seq<Item>, made: nat)

  predicate Adds(op: Op) {
    (op.DoMake? || op.DoMakeFile?) && Creatable(op.path)
  }

  function ListNext(l: Listing, op: Op): (Listing, int) {
    var (xs, r) := ListStep(l.items, op, l.made < MAX_NODES, 0);
    (Listing(xs, if Adds(op) && l.made < MAX_NODES then l.made + 1 else l.made), r)
  }

  function ListRun(l: Listing, ops: seq<Op>): (Listing, seq<int>)
    decreases ops
  {
    if ops == [] then (l, [])
    else
      var (l1, r) := ListNext(l, ops[0]);
      var (l2, rs) := ListRun(l1, ops[1..]);
      (l2, [r] + rs)
  }

  /** The results of the operations along a run. */
  function Results(fs: Fs, ops: seq<Op>): seq<int>
    requires Shape(fs)
    decreases ops
  {
    if ops == [] then [] else [Step(fs, ops[0]).1] + Results(Step(fs, ops[0]).0, ops[1..])
  }

  lemma NextRefines(fs: Fs, op: Op)
    requires Shape(fs) && Tail(fs)
    ensures var (fs', r) := Step(fs, op);
      (Listing(Items(fs'), fs'.count), r) == ListNext(Listing(Items(fs), fs.count), op)
  {
    hide Items, ListStep, Step;
    StepRefines(fs, op);
    CountIs(fs, op);
  }

  lemma CountIs(fs: Fs, op: Op)
    requires Shape(fs)
    ensures Step(fs, op).0.count == if Adds(op) && fs.count < MAX_NODES then fs.count + 1 else fs.count
  {
    hide Lookup;
  }

  /** Over every run: the results are those of the list, and so are the items at the end. */
  lemma {:induction false} RunRefines(fs: Fs, ops: seq<Op>)
    requires Shape(fs) && Tail(fs)
    ensures ListRun(Listing(Items(fs), fs.count), ops) ==
      (Listing(Items(Run(fs, ops)), Run(fs, ops).count), Results(fs, ops))
    decreases ops
  {
    hide Items, ListNext, Step, Tail;
    if ops != [] {
      NextRefines(fs, ops[0]);
      StepKeepsTail(fs, ops[0]);
      RunRefines(Step(fs, ops[0]).0, ops[1..]);
    }
  }

  /** The table after booting. */
  function Boot(pool: seq<char>): Fs {
    Fs(seq(MAX_NODES, _ => Node("", Unused, false, None, 0, 0)), 0, pool)
  }

  /** From boot, every run of operations returns what it returns on an empty list, and every read
      after it sees what the list holds. */
  lemma BootRunRefines(pool: seq<char>, ops: seq<Op>, path: PathArg, size: nat)
    requires |pool| == MAX_NODES * DATA_MAX
    ensures var (l, rs) := ListRun(Listing([], 0), ops);
      Results(Boot(pool), ops) == rs && Read(Run(Boot(pool), ops), path, size) == ListRead(l.items, path, size)
  {
    hide ListRun, Results, ListRead, Read, Run;
    var fs := Boot(pool);
    RunRefines(fs, ops);
    ReadRefines(Run(fs, ops), path, size);
  }

  /** Both shortcomings show right after booting: a path of 128 characters is accepted and then not
      found, and over-long content is refused with the node left behind. */
  lemma BootExamples(pool: seq<char>)
    requires |pool| == MAX_NODES * DATA_MAX
    ensures var path: PathArg := Some(seq(128, _ => 'a')); var (fs, r) := Make(Boot(pool), path, Dir, None);
      r == 0 && fs.count == 1 && Lookup(fs, path) == 1
    ensures var (fs, r) := MakeFile(Boot(pool), Some("a"), Some(seq(4096, _ => 'a')));
      r == -1 && fs.count == 1 && fs.nodes[0].Live() && Lookup(fs, Some("a")) == 0
  {
    hide FindFrom;
    var path: PathArg := Some(seq(128, _ => 'a'));
    FoundAfterMakeIff(Boot(pool), path, Dir, None);
    var fs := MakeFile(Boot(pool), Some("a"), Some(seq(4096, _ => 'a'))).0;
    assert LiveAt(fs, 0, "a");
  }
}
