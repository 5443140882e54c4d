/** The path logic of user/find.c: `fmtname`, which yields the last
    component of a path, and the part of `find` that lists a directory:
    the length guard, the entry filter and the child path written in place
    into the caller's 512-byte buffer. */
module Find {
  /** `DIRSIZ` of the file system: the longest directory-entry name. */
  const DIRSIZ: nat := 14
  /** Size of the path buffer `find` appends to. */
  const PATHBUF: nat := 512
  const NUL: char := '\0'

  // ---------------------------------------------------------------------
  // C strings

  /** The C string held by `s`: everything before the first NUL. */
  function CStr(s: seq<char>): (r: string)
    requires NUL in s
    ensures |r| < |s| && r == s[..|r|] && s[|r|] == NUL && NUL !in r
  {
    if s[0] == NUL then [] else [s[0]] + CStr(s[1..])
  }

  /** A NUL right after a NUL-free prefix ends the C string there. */
  lemma {:induction false} CStrOf(pre: string, rest: seq<char>)
    requires NUL !in pre
    ensures CStr(pre + [NUL] + rest) == pre
  {
    if pre != [] {
      assert (pre + [NUL] + rest)[1..] == pre[1..] + [NUL] + rest;
      CStrOf(pre[1..], rest);
      assert pre == [pre[0]] + pre[1..];
    }
  }

  /** `strlen`. */
  method Strlen(a: array<char>) returns (n: nat)
    requires NUL in a[..]
    ensures n == |CStr(a[..])|
  {
    ghost var r := CStr(a[..]);
    forall i | 0 <= i < |r| ensures a[i] != NUL {
      assert r[i] in r;
    }
    n := 0;
    while a[n] != NUL
      invariant n <= |r|
      decreases |r| - n
    {
      n := n + 1;
    }
  }

  /** `memmove(dst + at, s, strlen(s)); dst[at + strlen(s)] = 0`: copies the
      characters of `s` to position `at` and terminates them. */
  method PutString(dst: array<char>, at: nat, s: string)
    requires at + |s| < dst.Length
    modifies dst
    ensures dst[..at] == old(dst[..at])
    ensures dst[at..at + |s|] == s && dst[at + |s|] == NUL
    ensures dst[at + |s| + 1..] == old(dst[at + |s| + 1..])
  {
    var k := 0;
    while k < |s|
      invariant 0 <= k <= |s|
      invariant forall i :: 0 <= i < dst.Length ==>
                  dst[i] == (if at <= i < at + k then s[i - at] else old(dst[i]))
    {
      dst[at + k] := s[k];
      k := k + 1;
    }
    dst[at + |s|] := NUL;
  }

  // ---------------------------------------------------------------------
  // fmtname (user/find.c:6-23)

  /** The characters after the last `/` of `path`, or all of `path` when it
      has none: its longest suffix without a slash. */
  function LastComponent(path: string): (r: string)
    ensures |r| <= |path| && r == path[|path| - |r|..]
    ensures '/' !in r
    ensures |r| < |path| ==> path[|path| - |r| - 1] == '/'
  {
    if path == [] || path[|path| - 1] == '/' then []
    else
      var init := path[..|path| - 1];
      var r := LastComponent(init) + [path[|path| - 1]];
      assert path == init + [path[|path| - 1]];
      r
  }

  /** The three facts above pin the result down: a slash-free suffix that
      is the whole path or follows a `/` is the last component. */
  lemma {:induction false} LastComponentUnique(path: string, k: nat)
    requires k <= |path| && (k == 0 || path[k - 1] == '/')
    requires forall i :: k <= i < |path| ==> path[i] != '/'
    ensures LastComponent(path) == path[k..]
    decreases |path|
  {
    if k < |path| {
      var init, c := path[..|path| - 1], path[|path| - 1];
      assert c != '/';
      assert LastComponent(path) == LastComponent(init) + [c];
      LastComponentUnique(init, k);
      assert path[k..] == init[k..] + [c];
    } else {
      assert path[k..] == [];
    }
  }

  /** A path without `/` is its own last component. */
  lemma NoSlashIsWhole(path: string)
    requires '/' !in path
    ensures LastComponent(path) == path
  {
    forall i | 0 <= i < |path| ensures path[i] != '/' {
      assert path[i] in path;
    }
    LastComponentUnique(path, 0);
  }

  /** A path ending in `/` has an empty last component. */
  lemma TrailingSlashIsEmpty(path: string)
    requires |path| > 0 && path[|path| - 1] == '/'
    ensures LastComponent(path) == []
  {
  }

  /** The round trip `find` relies on at user/find.c:48: the child path it
      builds for an entry yields that entry's name again. */
  lemma ChildRoundTrip(dir: string, name: string)
    requires '/' !in name
    ensures LastComponent(dir + "/" + name) == name
  {
    var path := dir + "/" + name;
    forall i | |dir| + 1 <= i < |path| ensures path[i] != '/' {
      assert path[i] == name[i - |dir| - 1];
      assert name[i - |dir| - 1] in name;
    }
    LastComponentUnique(path, |dir| + 1);
    assert path[|dir| + 1..] == name;
  }

  /** The character `fmtname`'s pointer reads at position `p`; position
      `|path|` is the terminating NUL. */
  function At(path: string, p: nat): char
    requires p <= |path|
  {
    if p == |path| then NUL else path[p]
  }

  /** The loop at user/find.c:13-15: from the terminating NUL back to the
      last `/`, then one step forward. */
  method NameStart(path: string) returns (p: nat)
    ensures p <= |path| && path[p..] == LastComponent(path)
  {
    var q: int := |path|;
    while q >= 0 && At(path, q) != '/'
      invariant -1 <= q <= |path|
      invariant forall i :: q < i < |path| ==> path[i] != '/'
      decreases q
    {
      q := q - 1;
    }
    p := q + 1;
    LastComponentUnique(path, p);
  }

  /** `fmtname`: a last component of at least `DIRSIZ` characters is
      returned in place, a shorter one is copied into the static buffer
      `buf` and terminated there. Both give the same characters: no
      padding, no truncation. */
  method FmtName(path: string, buf: array<char>) returns (name: string, inBuf: bool)
    requires NUL !in path && buf.Length == DIRSIZ + 1
    modifies buf
    ensures name == LastComponent(path)
    ensures inBuf <==> |name| < DIRSIZ
    ensures inBuf ==> buf[..|name|] == name && buf[|name|] == NUL
                      && buf[|name| + 1..] == old(buf[|name| + 1..])
    ensures !inBuf ==> buf[..] == old(buf[..])
  {
    var p := NameStart(path);
    name := path[p..];
    if |name| >= DIRSIZ {
      return name, false;
    }
    PutString(buf, 0, name);
    inBuf := true;
  }

  /** The `T_FILE` case of `find` (user/find.c:47-52): the file is reported
      when its last component equals the target. */
  method FileMatches(path: string, target: string, buf: array<char>) returns (found: bool)
    requires NUL !in path && buf.Length == DIRSIZ + 1
    modifies buf
    ensures found <==> LastComponent(path) == target
  {
    var name, _ := FmtName(path, buf);
    found := name == target;
  }

  // ---------------------------------------------------------------------
  // Directory listing (user/find.c:54-76)

  /** A directory entry: inode number and name (the characters of `de.name`
      before its NUL). */
  datatype Dirent = Dirent(inum: nat, name: string)

  /** What `read` can put in `de.name`: at most `DIRSIZ` characters. */
  predicate WellFormed(e: Dirent) {
    |e.name| <= DIRSIZ && NUL !in e.name
  }

  /** `find` recurses into an entry unless it is unused or `.` or `..`. */
  predicate Descend(e: Dirent) {
    e.inum != 0 && e.name != "." && e.name != ".."
  }

  /** The paths `find` recurses with, in entry order, for directory `dir`. */
  function Visits(dir: string, es: seq<Dirent>): (r: seq<string>)
    ensures |r| <= |es|
  {
    if es == [] then []
    else
      var e := es[|es| - 1];
      Visits(dir, es[..|es| - 1]) + (if Descend(e) then [dir + "/" + e.name] else [])
  }

  /** A path is visited exactly when it is `dir + "/" + name` for an entry
      that is used and is neither `.` nor `..`. */
  lemma {:induction false} VisitsIff(dir: string, es: seq<Dirent>)
    ensures forall c :: c in Visits(dir, es) <==>
              exists e :: e in es && Descend(e) && c == dir + "/" + e.name
  {
    if es != [] {
      var init := es[..|es| - 1];
      var e := es[|es| - 1];
      VisitsIff(dir, init);
      assert es == init + [e];
      forall c | c in Visits(dir, es)
        ensures exists e' :: e' in es && Descend(e') && c == dir + "/" + e'.name
      {
        if c in Visits(dir, init) {
          var e' :| e' in init && Descend(e') && c == dir + "/" + e'.name;
          assert e' in es;
        } else {
          assert e in es;
        }
      }
      forall c, e' | e' in es && Descend(e') && c == dir + "/" + e'.name
        ensures c in Visits(dir, es)
      {
        if e' != e {
          assert e' in init;
        }
      }
    }
  }

  /** A slash-free entry name comes back from its visited path through
      `fmtname`, so a visited file is reported exactly when its name is the
      target. */
  lemma VisitedNameMatches(dir: string, es: seq<Dirent>, target: string)
    requires forall e :: e in es ==> '/' !in e.name
    ensures forall c :: c in Visits(dir, es) ==>
              exists e :: e in es && Descend(e) && c == dir + "/" + e.name
                          && (LastComponent(c) == target <==> e.name == target)
  {
    VisitsIff(dir, es);
    forall c | c in Visits(dir, es)
      ensures exists e :: e in es && Descend(e) && c == dir + "/" + e.name
                          && (LastComponent(c) == target <==> e.name == target)
    {
      var e :| e in es && Descend(e) && c == dir + "/" + e.name;
      ChildRoundTrip(dir, e.name);
    }
  }

  /** How the directory case ends. */
  datatype Listing = TooLong | Visited(children: seq<string>)

  /** Lines 71-73 for one entry: the entry's name and a NUL written after
      `dir + "/"`, giving the path the recursive call receives. */
  method PutChild(path: array<char>, p: nat, ghost dir: string, name: string) returns (child: string)
    requires p == |dir| + 1 && p + |name| < path.Length
    requires path[..p] == dir + "/" && NUL !in dir && NUL !in name
    modifies path
    ensures path[..p] == dir + "/"
    ensures child == dir + "/" + name && NUL in path[..] && child == CStr(path[..])
  {
    PutString(path, p, name);
    assert path[..p + |name| + 1] == dir + "/" + name + [NUL];
    assert path[..] == dir + "/" + name + [NUL] + path[p + |name| + 1..];
    CStrOf(dir + "/" + name, path[p + |name| + 1..]);
    child := CStr(path[..]);
  }

  /** The `T_DIR` case of `find`: refuse a path that leaves no room for `/`,
      a full-length name and its NUL; otherwise write `/` over the path's
      NUL and, for each entry it descends into, the entry's name and a NUL
      after it, recording the path the recursive call receives. The
      recursive call itself writes only past that path's end, which the
      next entry overwrites. */
  method ListDir(path: array<char>, entries: seq<Dirent>) returns (r: Listing)
    requires path.Length == PATHBUF && NUL in path[..]
    requires forall e :: e in entries ==> WellFormed(e)
    modifies path
    ensures var dir := CStr(old(path[..]));
            && (r.TooLong? <==> |dir| + 1 + DIRSIZ + 1 > PATHBUF)
            && (r.TooLong? ==> path[..] == old(path[..]))
            && (r.Visited? ==> r.children == Visits(dir, entries)
                               && path[..|dir| + 1] == dir + "/")
  {
    ghost var dir := CStr(path[..]);
    var len := Strlen(path);
    if len + 1 + DIRSIZ + 1 > PATHBUF {
      return TooLong;
    }
    path[len] := '/';
    var p := len + 1;
    assert path[..p] == dir + "/";
    var children: seq<string> := [];
    var k := 0;
    while k < |entries|
      invariant 0 <= k <= |entries|
      invariant path[..p] == dir + "/"
      invariant children == Visits(dir, entries[..k])
    {
      var e := entries[k];
      assert entries[..k + 1] == entries[..k] + [e];
      if e.inum == 0 || e.name == "." || e.name == ".." {
        k := k + 1;
        continue;
      }
      assert WellFormed(e);
      var child := PutChild(path, p, dir, e.name);
      // find(path, target)
      children := children + [child];
      k := k + 1;
    }
    assert entries[..k] == entries;
    r := Visited(children);
  }
}
