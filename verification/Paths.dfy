/** The path strings of the file system: C strings, their comparison and copying, validity, direct
    children and base names. A C string is a Dafny string without NUL; reading at its length reads
    the terminator. */
module Paths {

  type cstr = s: string | '\0' !in s witness ""

  datatype Option<+T> = None | Some(value: T)

  /** The character at i, which may be the terminator. */
  function At(s: cstr, i: nat): char
    requires i <= |s|
  {
    if i < |s| then s[i] else '\0'
  }

  /** Not empty, and no ".." anywhere. */
  predicate ValidPath(p: string) {
    p != "" && forall i :: 0 <= i < |p| - 1 ==> !(p[i] == '.' && p[i + 1] == '.')
  }

  /** A prefix of a valid path is valid unless it is empty. */
  lemma PrefixValid(p: string, n: nat)
    requires ValidPath(p) && 0 < n <= |p|
    ensures ValidPath(p[..n])
  {}

  /** What a path of a direct child starts with. */
  function ChildPrefix(parent: string): string {
    if parent == "/" then "/" else parent + "/"
  }

  /** child is parent, a slash, and one non-empty name without a slash. */
  ghost predicate DirectChild(parent: string, child: string) {
    exists name :: child == ChildPrefix(parent) + name && name != "" && '/' !in name
  }

  /** The same by position, as the code looks at it. */
  lemma DirectChildByPosition(parent: string, child: string)
    ensures DirectChild(parent, child) <==>
      var n := |ChildPrefix(parent)|;
      n < |child| && child[..n] == ChildPrefix(parent) && '/' !in child[n..]
  {
    var pre := ChildPrefix(parent);
    if DirectChild(parent, child) {
      var name :| child == pre + name && name != "" && '/' !in name;
      assert child[..|pre|] == pre && child[|pre|..] == name;
    }
    if |pre| < |child| && child[..|pre|] == pre && '/' !in child[|pre|..] {
      assert child == pre + child[|pre|..];
    }
  }

  /** Where the base name starts: after the last slash that something follows. */
  ghost predicate BaseStart(path: string, n: nat) {
    && n <= |path|
    && (n == 0 || (n < |path| && path[n - 1] == '/'))
    && forall i :: n <= i < |path| - 1 ==> path[i] != '/'
  }

  /** The base name of a direct child is the name it has in its parent. */
  lemma BaseNameOfChild(parent: string, name: string, n: nat)
    requires name != "" && '/' !in name
    requires BaseStart(ChildPrefix(parent) + name, n)
    ensures (ChildPrefix(parent) + name)[n..] == name
  {
    var pre := ChildPrefix(parent);
    var path := pre + name;
    assert path[|pre| - 1] == '/';
    assert forall i :: |pre| <= i < |path| ==> path[i] == name[i - |pre|] && path[i] != '/';
    assert n == |pre|;
  }

  // ---- the code ----

  method StrLen(s: cstr) returns (n: nat)
    ensures n == |s|
  {
    n := 0;
    while At(s, n) != '\0'
      invariant n <= |s|
      decreases |s| - n
    {
      n := n + 1;
    }
  }

  /** vfs_strcpy into a buffer of max characters: at most max - 1 of them, and the terminator. */
  method StrCpy(src: cstr, max: nat) returns (dst: cstr)
    requires max > 0
    ensures dst == if |src| < max then src else src[..max - 1]
  {
    dst := "";
    var i := 0;
    while i < max - 1 && At(src, i) != '\0'
      invariant i <= |src| && i <= max - 1 && dst == src[..i]
    {
      dst := dst + [src[i]];
      i := i + 1;
    }
  }

  method StrCmp(a: cstr, b: cstr) returns (r: int)
    ensures r == 0 <==> a == b
  {
    var i := 0;
    while At(a, i) != '\0' && At(a, i) == At(b, i)
      invariant i <= |a| && i <= |b| && a[..i] == b[..i]
      decreases |a| - i
    {
      i := i + 1;
    }
    if At(a, i) == At(b, i) {
      assert i == |a| == |b|;
      assert a == a[..i] && b == b[..i];
    }
    return At(a, i) as int - At(b, i) as int;
  }

  function Take(s: cstr, n: nat): cstr {
    if |s| < n then s else s[..n]
  }

  method StrNCmp(a: cstr, b: cstr, n: nat) returns (r: int)
    ensures r == 0 <==> Take(a, n) == Take(b, n)
  {
    for i := 0 to n
      invariant i <= |a| && i <= |b| && a[..i] == b[..i]
    {
      if At(a, i) != At(b, i) || At(a, i) == '\0' {
        Differ(a, b, n, i);
        return At(a, i) as int - At(b, i) as int;
      }
    }
    return 0;
  }

  /** Strings that agree up to i agree beyond only if they agree there. */
  lemma Differ(a: cstr, b: cstr, n: nat, i: nat)
    requires i < n && i <= |a| && i <= |b| && a[..i] == b[..i]
    ensures At(a, i) != At(b, i) ==> Take(a, n) != Take(b, n)
    ensures At(a, i) == At(b, i) == '\0' ==> Take(a, n) == Take(b, n)
  {
    if i < |a| && i < |b| && a[i] != b[i] {
      assert Take(a, n)[i] != Take(b, n)[i];
    }
  }

  /** is_valid_path: the check of the two terminators and the scan for dots. */
  method IsValidPath(path: Option<cstr>) returns (ok: bool)
    ensures ok <==> path.Some? && ValidPath(path.value)
  {
    if path.None? || At(path.value, 0) == '\0' { return false; }
    var p := path.value;
    var i := 0;
    while At(p, i) != '\0'
      invariant i <= |p|
      invariant forall k :: 0 <= k < i && k < |p| - 1 ==> !(p[k] == '.' && p[k + 1] == '.')
      decreases |p| - i
    {
      if At(p, i) == '.' && At(p, i + 1) == '.' { return false; }
      i := i + 1;
    }
    return true;
  }

  method IsValidPathLen(path: Option<cstr>) returns (ok: bool)
    ensures ok <==> path.Some? && 0 < |path.value| < 256
  {
    if path.None? { return false; }
    var len := StrLen(path.value);
    return !(len == 0 || len >= 256);
  }

  /** The loop that rejects a further slash, as it stands twice in is_direct_child. */
  method NoSlashFrom(path: cstr, start: nat) returns (r: bool)
    requires start <= |path|
    ensures r <==> '/' !in path[start..]
  {
    var i := start;
    while At(path, i) != '\0'
      invariant start <= i <= |path| && '/' !in path[start..i]
      decreases |path| - i
    {
      if At(path, i) == '/' {
        assert path[start..][i - start] == '/';
        return false;
      }
      i := i + 1;
    }
    assert path[start..i] == path[start..];
    return true;
  }

  method IsDirectChild(parent: cstr, child: cstr) returns (r: bool)
    ensures r <==> DirectChild(parent, child)
  {
    DirectChildByPosition(parent, child);
    PrefixParts(parent, child);
    hide DirectChild;
    var plen := StrLen(parent);
    var c := StrCmp(parent, "/");
    if c == 0 {
      var clen := StrLen(child);
      if At(child, 0) != '/' || clen < 2 { return false; }
      assert child[..1] == "/";
      r := NoSlashFrom(child, 1);
      return;
    }
    c := StrNCmp(child, parent, plen);
    if c != 0 { return false; }
    if At(child, plen) != '/' { return false; }
    var ok := NoSlashFrom(child, plen + 1);
    if !ok { return false; }
    return At(child, plen + 1) != '\0';
  }

  lemma PrefixParts(parent: string, child: string)
    ensures |parent| < |child| ==>
      (child[..|parent| + 1] == parent + "/" <==> child[..|parent|] == parent && child[|parent|] == '/')
  {
    if |parent| < |child| {
      var n := |parent|;
      assert child[..n + 1] == child[..n] + [child[n]];
      assert (parent + "/")[..n] == parent && (parent + "/")[n] == '/';
    }
  }

  /** basename: the index of the character it points at. */
  method BaseName(path: cstr) returns (last: nat)
    ensures BaseStart(path, last)
  {
    last := 0;
    var p := 0;
    while At(path, p) != '\0'
      invariant last <= p <= |path|
      invariant last == 0 || (last < |path| && path[last - 1] == '/')
      invariant forall i :: last <= i < p && i < |path| - 1 ==> path[i] != '/'
      decreases |path| - p
    {
      if At(path, p) == '/' && At(path, p + 1) != '\0' {
        last := p + 1;
      }
      p := p + 1;
    }
  }
}
