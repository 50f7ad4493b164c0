/** The parts of Go's path/filepath that the converter uses, for '/'-separated
    paths: Ext, Base, Dir and Join. Dir and Join apply only the part of
    filepath.Clean that matters for clean inputs (dropping trailing
    separators, "." as the empty directory, one separator between parts). */
module Paths {
  import opened Text

  const Separator: char := '/'

  predicate NoSlash(s: string) {
    forall i :: 0 <= i < |s| ==> s[i] != Separator
  }

  /** filepath.Ext: the suffix from the last '.' of the final path element on,
      or "" when the final element has no '.'. */
  function Ext(path: string): (r: string)
    ensures EndsWith(path, r)
    ensures r == [] || (r[0] == '.' && NoDotNoSlash(r[1..]))
    decreases |path|
  {
    if path == [] || path[|path| - 1] == Separator then []
    else if path[|path| - 1] == '.' then "."
    else
      var e := Ext(path[..|path| - 1]);
      if e == [] then []
      else
        assert (e + [path[|path| - 1]])[1..] == e[1..] + [path[|path| - 1]];
        assert path == path[..|path| - 1] + [path[|path| - 1]];
        e + [path[|path| - 1]]
  }

  /** Appending characters that are neither '.' nor '/' extends the extension
      if there is one and leaves "no extension" as it is. */
  lemma {:induction false} ExtAppend(s: string, t: string)
    requires NoDotNoSlash(t)
    ensures Ext(s + t) == if Ext(s) == [] then [] else Ext(s) + t
    decreases |t|
  {
    if t == [] {
      assert s + t == s;
    } else {
      var t', c := t[..|t| - 1], t[|t| - 1];
      NoDotNoSlashInit(t);
      ExtAppend(s, t');
      ExtSnoc(s + t', c);
      SnocSplit(s, t);
      SnocSplit(Ext(s), t);
    }
  }

  lemma NoDotNoSlashInit(t: string)
    requires t != [] && NoDotNoSlash(t)
    ensures NoDotNoSlash(t[..|t| - 1]) && t[|t| - 1] != '.' && t[|t| - 1] != Separator
  {
  }

  /** One character that is neither '.' nor '/' extends an extension. */
  lemma ExtSnoc(p: string, c: char)
    requires c != '.' && c != Separator
    ensures Ext(p + [c]) == if Ext(p) == [] then [] else Ext(p) + [c]
  {
    assert (p + [c])[..|p|] == p;
  }

  /** The extension of "stem.x" is ".x" whenever x has no '.' and no '/'. */
  lemma ExtOfSplit(stem: string, x: string)
    requires NoDotNoSlash(x)
    ensures Ext(stem + "." + x) == "." + x
  {
    ExtAppend(stem + ".", x);
  }

  lemma ConcatNoSlash(a: string, b: string)
    requires NoSlash(a) && NoSlash(b)
    ensures NoSlash(a + b)
  {
    forall k | 0 <= k < |a + b| ensures (a + b)[k] != Separator {
      if k >= |a| { assert (a + b)[k] == b[k - |a|]; }
    }
  }

  /** Inserting characters that are neither '.' nor '/' between a file name
      and its extension keeps the extension and adds no separator. */
  lemma InsertBeforeExt(name: string, tail: string, ext: string)
    requires NoSlash(name) && NoDotNoSlash(tail) && tail != []
    requires ext == [] ==> Ext(name) == []
    requires ext != [] ==> ext[0] == '.' && NoDotNoSlash(ext[1..])
    ensures name + tail + ext != [] && NoSlash(name + tail + ext)
    ensures Ext(name + tail + ext) == ext
  {
    InsertNoSlash(name, tail, ext);
    if ext == [] {
      ExtAppend(name, tail);
      assert name + tail + ext == name + tail;
    } else {
      InsertBeforeDot(name + tail, ext);
    }
  }

  /** The same for a single path element: inserting such characters in
      front of its own extension keeps that extension. */
  lemma InsertBeforeOwnExt(base: string, tail: string)
    requires NoSlash(base) && NoDotNoSlash(tail) && tail != []
    ensures TrimSuffix(base, Ext(base)) + tail + Ext(base) != []
    ensures NoSlash(TrimSuffix(base, Ext(base)) + tail + Ext(base))
    ensures Ext(TrimSuffix(base, Ext(base)) + tail + Ext(base)) == Ext(base)
  {
    var ext := Ext(base);
    var name := TrimSuffix(base, ext);
    assert base == name + ext;
    assert NoSlash(name) by {
      forall k | 0 <= k < |name| ensures name[k] != Separator {
        assert name[k] == base[k];
      }
    }
    if ext == [] {
      assert name == base;
    }
    InsertBeforeExt(name, tail, ext);
  }

  lemma InsertNoSlash(name: string, tail: string, ext: string)
    requires NoSlash(name) && NoDotNoSlash(tail)
    requires ext != [] ==> ext[0] == '.' && NoDotNoSlash(ext[1..])
    ensures NoSlash(name + tail + ext)
  {
    assert NoSlash(tail);
    ConcatNoSlash(name, tail);
    if ext != [] {
      var x := ext[1..];
      assert NoSlash(ext) by {
        forall k | 0 <= k < |ext| ensures ext[k] != Separator {
          if k > 0 { assert ext[k] == x[k - 1]; }
        }
      }
      ConcatNoSlash(name + tail, ext);
    }
  }

  lemma InsertBeforeDot(front: string, ext: string)
    requires ext != [] && ext[0] == '.' && NoDotNoSlash(ext[1..])
    ensures Ext(front + ext) == ext
  {
    var x := ext[1..];
    assert ext == "." + x;
    ExtOfSplit(front, x);
    assert front + ext == front + "." + x;
  }

  /** The path without its trailing separators: only separators are
      removed, and all of them. */
  function StripTrailingSlashes(p: string): (r: string)
    ensures r <= p
    ensures r == [] || r[|r| - 1] != Separator
    ensures forall k :: |r| <= k < |p| ==> p[k] == Separator
  {
    if p != [] && p[|p| - 1] == Separator then StripTrailingSlashes(p[..|p| - 1]) else p
  }

  /** The characters after the last separator. */
  function LastElement(p: string): (r: string)
    ensures EndsWith(p, r) && NoSlash(r)
  {
    if p == [] || p[|p| - 1] == Separator then []
    else
      assert p == p[..|p| - 1] + [p[|p| - 1]];
      LastElement(p[..|p| - 1]) + [p[|p| - 1]]
  }

  lemma {:induction false} LastElementAppend(s: string, t: string)
    requires NoSlash(t)
    ensures LastElement(s + t) == LastElement(s) + t
    decreases |t|
  {
    if t == [] {
      assert s + t == s;
    } else {
      var t' := t[..|t| - 1];
      assert (s + t)[..|s + t| - 1] == s + t';
      LastElementAppend(s, t');
    }
  }

  /** filepath.Base: the last element after trailing separators are dropped;
      "." for the empty path and "/" for a path of separators only. */
  function Base(path: string): (r: string)
    ensures r != []
    ensures r == "/" || NoSlash(r)
  {
    if path == [] then "."
    else
      var s := StripTrailingSlashes(path);
      if s == [] then "/" else LastElement(s)
  }

  /** The base name of a path without its last extension, as both
      makeOutputFilename and ensureUniquePath compute it. */
  function Stem(path: string): (stem: string)
    ensures stem + Ext(Base(path)) == Base(path)
    ensures Base(path) != "/" ==> NoSlash(stem)
  {
    var base := Base(path);
    TrimSuffix(base, Ext(base))
  }

  /** filepath.Dir: everything up to the last separator, without trailing
      separators; "." when there is no separator, "/" for the root. */
  function Dir(path: string): (r: string)
    ensures r != []
    ensures r == "/" || r[|r| - 1] != Separator
  {
    DirOfHead(path[..|path| - |LastElement(path)|])
  }

  /** Dir, given the part of the path before its last element. */
  function DirOfHead(head: string): (r: string)
    ensures r != []
    ensures r == "/" || r[|r| - 1] != Separator
    ensures head == [] ==> r == "."
    ensures head != [] && (forall k :: 0 <= k < |head| ==> head[k] == Separator) ==> r == "/"
    ensures (exists k :: 0 <= k < |head| && head[k] != Separator) ==>
              r <= head && r[|r| - 1] != Separator && forall k :: |r| <= k < |head| ==> head[k] == Separator
  {
    if head == [] then "."
    else
      var s := StripTrailingSlashes(head);
      if s == [] then "/" else s
  }

  /** filepath.Join of a directory and one file name. */
  function JoinPath(dir: string, elem: string): (r: string)
    ensures EndsWith(r, elem)
  {
    if dir == [] || dir == "." then elem
    else if dir[|dir| - 1] == Separator then dir + elem
    else dir + "/" + elem
  }

  /** A file name joined onto a directory is the Base of the result. */
  lemma BaseOfJoin(dir: string, elem: string)
    requires elem != [] && NoSlash(elem)
    ensures Base(JoinPath(dir, elem)) == elem
  {
    var p := JoinPath(dir, elem);
    var front := p[..|p| - |elem|];
    assert p == front + elem;
    assert front == [] || front[|front| - 1] == Separator;
    assert LastElement(front) == [];
    LastElementAppend(front, elem);
  }

  lemma DirOfElement(front: string, elem: string)
    requires front == [] || front[|front| - 1] == Separator
    requires elem != [] && NoSlash(elem)
    ensures Dir(front + elem) == DirOfHead(front)
  {
    LastElementAppend(front, elem);
    assert LastElement(front + elem) == elem;
    assert (front + elem)[..|front + elem| - |elem|] == front;
  }

  /** Joining a file name onto a directory that Dir could have produced
      gives a path whose Dir is that directory again. */
  lemma DirOfJoin(dir: string, elem: string)
    requires dir != [] && (dir == "/" || dir[|dir| - 1] != Separator)
    requires elem != [] && NoSlash(elem)
    ensures Dir(JoinPath(dir, elem)) == dir
  {
    if dir == "." {
      DirOfElement([], elem);
      assert JoinPath(dir, elem) == [] + elem;
      assert DirOfHead([]) == ".";
    } else if dir == "/" {
      DirOfJoinRoot(elem);
    } else {
      DirOfJoinNested(dir, elem);
    }
  }

  /** A file name joined onto the directory of a path lies in that directory. */
  lemma JoinKeepsDir(path: string, elem: string)
    requires elem != [] && NoSlash(elem)
    ensures Dir(JoinPath(Dir(path), elem)) == Dir(path)
  {
    DirOfJoin(Dir(path), elem);
  }

  lemma DirOfJoinRoot(elem: string)
    requires elem != [] && NoSlash(elem)
    ensures Dir(JoinPath("/", elem)) == "/"
  {
    DirOfElement("/", elem);
    assert JoinPath("/", elem) == "/" + elem;
    assert StripTrailingSlashes("/") == StripTrailingSlashes([]) == [];
  }

  lemma DirOfJoinNested(dir: string, elem: string)
    requires dir != [] && dir != "." && dir[|dir| - 1] != Separator
    requires elem != [] && NoSlash(elem)
    ensures Dir(JoinPath(dir, elem)) == dir
  {
    var front := dir + "/";
    DirOfElement(front, elem);
    assert JoinPath(dir, elem) == front + elem;
    assert front[..|front| - 1] == dir;
    assert StripTrailingSlashes(front) == StripTrailingSlashes(dir) == dir;
  }
}
