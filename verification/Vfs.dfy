/** The code of the file system, on the node table and one character pool. */
module Vfs {
  import opened Paths
  import opened VfsModel

  // ---- listings ----

  ghost predicate ChildAt(fs: Fs, dir: cstr, j: nat)
    requires j < |fs.nodes|
  {
    fs.nodes[j].Live() && DirectChild(dir, fs.nodes[j].path)
  }

  /** The live nodes from i on that are direct children of dir, in slot order. */
  ghost function Children(fs: Fs, dir: cstr, i: nat): seq<nat>
    requires Shape(fs) && i <= fs.count
    decreases fs.count - i
  {
    if i == fs.count then []
    else (if ChildAt(fs, dir, i) then [i] else []) + Children(fs, dir, i + 1)
  }

  /** A listing holds live direct children only, each once and in slot order, and all of them. */
  lemma {:induction false} ChildrenOutcome(fs: Fs, dir: cstr, i: nat)
    requires Shape(fs) && i <= fs.count
    ensures forall k :: 0 <= k < |Children(fs, dir, i)| ==>
      i <= Children(fs, dir, i)[k] < fs.count && ChildAt(fs, dir, Children(fs, dir, i)[k])
    ensures forall k, m :: 0 <= k < m < |Children(fs, dir, i)| ==> Children(fs, dir, i)[k] < Children(fs, dir, i)[m]
    ensures forall j :: i <= j < fs.count && ChildAt(fs, dir, j) ==> j in Children(fs, dir, i)
    decreases fs.count - i
  {
    hide ChildAt;
    if i < fs.count {
      ChildrenOutcome(fs, dir, i + 1);
    }
  }

  lemma NoMoreChildren(fs: Fs, dir: cstr)
    requires Shape(fs)
    ensures Children(fs, dir, fs.count) == []
  {}

  lemma ChildrenNext(fs: Fs, dir: cstr, i: nat, out: seq<nat>)
    requires Shape(fs) && i < fs.count
    ensures out + Children(fs, dir, i) == (if ChildAt(fs, dir, i) then out + [i] else out) + Children(fs, dir, i + 1)
  {
    hide ChildAt;
    var rest := Children(fs, dir, i + 1);
    assert out + ([i] + rest) == (out + [i]) + rest;
    assert out + ([] + rest) == out + rest;
  }

  class FileSystem {
    const nodes: array<Node>
    const pool: array<char>
    var count: nat

    ghost function View(): Fs
      reads this, nodes, pool
    {
      Fs(nodes[..], count, pool[..])
    }

    constructor ()
      ensures fresh(nodes) && fresh(pool) && Inv(View()) && View() == Boot(pool[..])
    {
      nodes := new Node[MAX_NODES](_ => Node("", Unused, false, None, 0, 0));
      pool := new char[MAX_NODES * DATA_MAX](_ => '\0');
      count := 0;
    }

    method Init()
      requires Shape(View())
      modifies nodes, `count
      ensures Inv(View()) && count == 0 && Items(View()) == []
      ensures forall i :: 0 <= i < MAX_NODES ==> nodes[i] == old(nodes[i]).(kind := Unused)
    {
      for i := 0 to MAX_NODES
        invariant forall j :: 0 <= j < i ==> nodes[j] == old(nodes[j]).(kind := Unused)
        invariant forall j :: i <= j < MAX_NODES ==> nodes[j] == old(nodes[j])
      {
        nodes[i] := nodes[i].(kind := Unused);
      }
      count := 0;
    }

    /** vfs_alloc and the naming that every creator does next. */
    method AllocNode(path: cstr, kind: LiveKind, reader: Option<nat>)
      requires Shape(View()) && count < MAX_NODES
      modifies nodes, `count
      ensures View() == Alloc(old(View()), path, kind, reader)
    {
      var i := count;
      count := count + 1;
      nodes[i] := nodes[i].(hasData := false);
      nodes[i] := nodes[i].(reader := None);
      nodes[i] := nodes[i].(size := 0);
      var p := StrCpy(path, PATH_LEN);
      nodes[i] := nodes[i].(path := p);
      nodes[i] := nodes[i].(kind := kind);
      nodes[i] := nodes[i].(reader := reader);
    }

    /** vfs_mkdir, vfs_mkdev and vfs_mkproc, which differ in kind and reader only. */
    method MakeNode(path: PathArg, kind: LiveKind, reader: Option<nat>) returns (r: int)
      requires Shape(View())
      modifies nodes, `count
      ensures (View(), r) == Make(old(View()), path, kind, reader)
    {
      var ok := IsValidPath(path);
      if !ok { return -1; }
      ok := IsValidPathLen(path);
      if !ok { return -1; }
      if count >= MAX_NODES { return -1; }
      AllocNode(path.value, kind, reader);
      return 0;
    }

    method MkFile(path: PathArg, content: Option<cstr>) returns (r: int)
      requires Shape(View())
      modifies nodes, pool, `count
      ensures (View(), r) == MakeFile(old(View()), path, content)
    {
      hide SetRow, Row;
      var ok := IsValidPath(path);
      if !ok { return -1; }
      ok := IsValidPathLen(path);
      if !ok { return -1; }
      if count >= MAX_NODES { return -1; }
      var i := count;
      AllocNode(path.value, File, None);
      var text: cstr := if content.Some? then content.value else "";
      var len := StrLen(text);
      if len >= DATA_MAX { return -1; }
      StoreText(i, text, len);
      nodes[i] := nodes[i].(hasData := true);
      nodes[i] := nodes[i].(size := len);
      nodes[i] := nodes[i].(perm := PERM_READ_WRITE);
      assert text[..len] == text;
      assert View().nodes == MakeFile(old(View()), path, content).0.nodes;
      return 0;
    }

    /** Copies n characters and a terminator into buffer i. */
    method StoreText(i: nat, data: seq<char>, n: nat)
      requires pool.Length == MAX_NODES * DATA_MAX && i < MAX_NODES && n <= |data| && n < DATA_MAX
      modifies pool
      ensures pool[..] == SetRow(old(pool[..]), i, data[..n] + ['\0'] + Row(old(pool[..]), i)[n + 1..])
    {
      ghost var p := pool[..];
      var at := DATA_MAX * i;
      for k := 0 to n
        invariant forall j :: 0 <= j < pool.Length ==> pool[j] == if at <= j < at + k then data[j - at] else p[j]
      {
        pool[at + k] := data[k];
      }
      pool[at + n] := '\0';
      StoredText(p, pool[..], i, data[..n]);
    }

    static lemma StoredText(p: seq<char>, q: seq<char>, i: nat, text: seq<char>)
      requires |p| == |q| == MAX_NODES * DATA_MAX && i < MAX_NODES && |text| < DATA_MAX
      requires forall j :: 0 <= j < |p| ==>
        q[j] == if DATA_MAX * i <= j < DATA_MAX * i + |text| then text[j - DATA_MAX * i]
                else if j == DATA_MAX * i + |text| then '\0' else p[j]
      ensures q == SetRow(p, i, text + ['\0'] + Row(p, i)[|text| + 1..])
    {}

    method LookupNode(path: PathArg) returns (i: nat)
      requires Shape(View())
      ensures i == Lookup(View(), path)
    {
      var ok := IsValidPath(path);
      if !ok { return count; }
      i := 0;
      while i < count
        invariant i <= FindFrom(View(), path.value, 0)
      {
        if nodes[i].kind != Unused {
          var c := StrCmp(nodes[i].path, path.value);
          if c == 0 {
            assert LiveAt(View(), i, path.value);
            return;
          }
        }
        assert !LiveAt(View(), i, path.value);
        i := i + 1;
      }
    }

    /** vfs_list: the first max children of dir, as slot numbers. */
    method List(dir: cstr, max: int) returns (out: seq<nat>)
      requires Shape(View())
      ensures out == Children(View(), dir, 0)[..if max < 0 then 0 else Min(|Children(View(), dir, 0)|, max)]
    {
      hide DirectChild, Children;
      out := [];
      var i := 0;
      ghost var all := Children(View(), dir, 0);
      while i < count && |out| < max
        invariant i <= count && (out == [] || |out| <= max)
        invariant all == out + Children(View(), dir, i)
      {
        ChildrenNext(View(), dir, i, out);
        if nodes[i].kind != Unused {
          var child := IsDirectChild(dir, nodes[i].path);
          if child { out := out + [i]; }
        }
        i := i + 1;
      }
      NoMoreChildren(View(), dir);
    }

    /** vfs_read. The text and a terminator go to the start of buf; a dynamic node's reader is named
        in the result instead of being called. */
    method ReadNode(path: PathArg, buf: array?<char>, size: nat) returns (r: ReadResult)
      requires Inv(View()) && buf != pool
      requires buf != null ==> size <= buf.Length
      modifies buf
      ensures r == if buf == null then Failed else Read(View(), path, size)
      ensures r.Text? ==> buf != null && |r.text| < buf.Length && buf[..|r.text|] == r.text && buf[|r.text|] == '\0'
      ensures r.Text? ==> buf[|r.text| + 1..] == old(buf[|r.text| + 1..])
      ensures buf != null && !r.Text? ==> buf[..] == old(buf[..])
    {
      hide Row, FindFrom;
      if buf == null || size == 0 { return Failed; }
      var max := if size > MAX_READ_SIZE then MAX_READ_SIZE else size;
      var i := LookupNode(path);
      if i == count || nodes[i].kind == Dir { return Failed; }
      if !nodes[i].Readable() && nodes[i].reader == None { return Failed; }
      if nodes[i].reader.Some? { return Dynamic(nodes[i].reader.value, max); }
      if nodes[i].hasData {
        var len := TextLen(i);
        if len > max - 1 { len := max - 1; }
        CopyText(i, len, buf);
        return Text(buf[..len]);
      }
      buf[0] := '\0';
      return Text("");
    }

    /** The copying loop of vfs_read and the terminator. */
    method CopyText(i: nat, len: nat, buf: array<char>)
      requires pool.Length == MAX_NODES * DATA_MAX && i < MAX_NODES && buf != pool
      requires len < buf.Length && len <= DATA_MAX
      modifies buf
      ensures buf[..len] == Row(pool[..], i)[..len] && buf[len] == '\0' && buf[len + 1..] == old(buf[len + 1..])
    {
      for k := 0 to len
        invariant forall j :: 0 <= j < k ==> buf[j] == pool[DATA_MAX * i + j]
        invariant forall j :: k <= j < buf.Length ==> buf[j] == old(buf[j])
      {
        buf[k] := pool[DATA_MAX * i + k];
      }
      buf[len] := '\0';
    }

    /** strlen of buffer i. */
    method TextLen(i: nat) returns (n: nat)
      requires Inv(View()) && i < count && nodes[i].hasData
      ensures n == |CStr(Row(pool[..], i))| < DATA_MAX
    {
      ghost var s := CStr(Row(pool[..], i));
      n := 0;
      while pool[DATA_MAX * i + n] != '\0'
        invariant n <= |s| < DATA_MAX
        decreases |s| - n
      {
        assert n < |s|;
        n := n + 1;
      }
    }

    method WriteNode(path: PathArg, data: seq<char>, size: nat) returns (r: int)
      requires Shape(View()) && size <= |data|
      modifies nodes, pool
      ensures (View(), r) == Write(old(View()), path, data, size)
    {
      hide SetRow, Row;
      var i := LookupNode(path);
      if i == count || nodes[i].kind != File || nodes[i].reader.Some? { return -1; }
      if !nodes[i].Writable() { return -1; }
      var n := if size >= DATA_MAX then DATA_MAX - 1 else size;
      StoreText(i, data, n);
      nodes[i] := nodes[i].(hasData := true);
      nodes[i] := nodes[i].(size := n);
      assert View().nodes == Write(old(View()), path, data, size).0.nodes;
      return n;
    }

    method RemoveNode(path: PathArg) returns (r: int)
      requires Shape(View())
      modifies nodes, pool
      ensures (View(), r) == Remove(old(View()), path)
    {
      hide SetRow, Row;
      var i := LookupNode(path);
      if i == count { return -1; }
      if !nodes[i].Writable() { return -1; }
      nodes[i] := nodes[i].(kind := Unused);
      nodes[i] := nodes[i].(path := "");
      nodes[i] := nodes[i].(hasData := false);
      nodes[i] := nodes[i].(size := 0);
      StoreText(i, [], 0);
      assert View().nodes == Remove(old(View()), path).0.nodes;
      assert [][..0] + ['\0'] == ['\0'];
      return 0;
    }

    method RenameNode(oldPath: PathArg, newPath: PathArg) returns (r: int)
      requires Shape(View())
      modifies nodes
      ensures (View(), r) == Rename(old(View()), oldPath, newPath)
    {
      var ok := IsValidPath(oldPath);
      if !ok { return -1; }
      ok := IsValidPath(newPath);
      if !ok { return -1; }
      ok := IsValidPathLen(newPath);
      if !ok { return -1; }
      var i := LookupNode(oldPath);
      if i == count { return -1; }
      if !nodes[i].Writable() && nodes[i].kind == File { return -1; }
      var other := LookupNode(newPath);
      if other < count { return -1; }
      var p := StrCpy(newPath.value, PATH_LEN);
      nodes[i] := nodes[i].(path := p);
      return 0;
    }

    method ChmodNode(path: PathArg, perm: nat) returns (r: int)
      requires Shape(View())
      modifies nodes
      ensures (View(), r) == Chmod(old(View()), path, perm)
    {
      var i := LookupNode(path);
      if i == count { return -1; }
      nodes[i] := nodes[i].(perm := perm);
      return 0;
    }
  }
}
