/**
 * The path arithmetic a file performs on its own website path: dropping the
 * leading '/', and node's posix `path.extname` and `path.dirname`.
 */
module WebPath {

  /** True when `s` begins with `prefix`. */
  predicate StartsWith(s: string, prefix: string) {
    |prefix| <= |s| && s[..|prefix|] == prefix
  }

  /** `getWebsitePath`: the path without one leading '/'. */
  function StripLeadingSlash(p: string): (r: string)
    ensures |r| <= |p| <= |r| + 1
    ensures r == p[|p| - |r|..]
    ensures r == p <==> !StartsWith(p, "/")
  {
    if |p| > 0 && p[0] == '/' then p[1..] else p
  }

  /** Exactly one '/' goes: re-adding it gives the path back. */
  lemma StripUndoesSlash(q: string)
    ensures StripLeadingSlash("/" + q) == q
  {
  }

  /** Index of the last occurrence of `c` in `s`, or -1. */
  function LastIndexOf(s: string, c: char): (r: int)
    ensures -1 <= r < |s|
    ensures r >= 0 ==> s[r] == c
  {
    if |s| == 0 then -1
    else if s[|s| - 1] == c then |s| - 1
    else LastIndexOf(s[..|s| - 1], c)
  }

  /** The path without its trailing '/' characters (node ignores them in basename and extname). */
  function TrimTrailingSlashes(p: string): (r: string)
    ensures |r| <= |p|
  {
    if |p| > 0 && p[|p| - 1] == '/' then TrimTrailingSlashes(p[..|p| - 1]) else p
  }

  /** The last path component. */
  function Basename(p: string): (r: string)
    ensures |r| <= |p|
  {
    var t := TrimTrailingSlashes(p);
    t[LastIndexOf(t, '/') + 1..]
  }

  /**
   * `getFileExtension`: node's `path.extname` without its dot. The text
   * after the last '.' of the last component, unless that '.' is the
   * component's first character (".bashrc" has no extension).
   */
  function Extension(p: string): (r: string)
    ensures |r| <= |p|
  {
    ComponentExtension(Basename(p))
  }

  /** The extension of one path component `b`. */
  function ComponentExtension(b: string): (r: string)
    ensures |r| <= |b|
  {
    var d := LastIndexOf(b, '.');
    if d <= 0 then "" else b[d + 1..]
  }

  /**
   * node's posix `path.dirname`: everything before the last '/' that is
   * followed by a non-'/' character ('/' at index 0 does not count), with
   * "/" and "//" for rooted paths and "." when there is no such '/'.
   */
  function Dirname(p: string): (r: string)
    ensures |r| <= |p| || r == "."
  {
    if |p| == 0 then "."
    else
      var t := TrimTrailingSlashes(p);
      var e := LastIndexOf(t, '/');
      if e < 1 then (if p[0] == '/' then "/" else ".")
      else if p[0] == '/' && e == 1 then "//"
      else p[..e]
  }

  // ------------------------------------------------------- characterisations
  // Kept apart from the functions so that a mention of a path function does
  // not bring its quantified description into every proof.

  /** Nothing after the index found is `c`; with -1, `c` does not occur at all. */
  lemma {:induction false} LastIndexOfIsLast(s: string, c: char)
    ensures forall k :: LastIndexOf(s, c) < k < |s| ==> s[k] != c
    ensures LastIndexOf(s, c) == -1 <==> c !in s
    decreases |s|
  {
    if |s| > 0 && s[|s| - 1] != c {
      var s' := s[..|s| - 1];
      LastIndexOfIsLast(s', c);
      forall k | LastIndexOf(s, c) < k < |s| - 1
        ensures s[k] != c
      {
        assert s[k] == s'[k];
      }
      if c in s {
        var k :| 0 <= k < |s| && s[k] == c;
        assert s'[k] == c;
      }
    }
  }

  /** The trimmed path is a prefix of the path, ends without '/', and only '/' was cut. */
  lemma {:induction false} TrimmedIsPrefix(p: string)
    ensures var r := TrimTrailingSlashes(p); r == p[..|r|]
    ensures var r := TrimTrailingSlashes(p); |r| == 0 || r[|r| - 1] != '/'
    ensures var r := TrimTrailingSlashes(p); forall k :: |r| <= k < |p| ==> p[k] == '/'
    decreases |p|
  {
    if |p| > 0 && p[|p| - 1] == '/' {
      var p' := p[..|p| - 1];
      TrimmedIsPrefix(p');
      var r := TrimTrailingSlashes(p);
      assert p'[..|r|] == p[..|r|];
      forall k | |r| <= k < |p|
        ensures p[k] == '/'
      {
        if k < |p| - 1 {
          assert p[k] == p'[k];
        }
      }
    }
  }

  /** The last component holds no '/'. */
  lemma BasenameHasNoSlash(p: string)
    ensures '/' !in Basename(p)
  {
    var t := TrimTrailingSlashes(p);
    LastIndexOfIsLast(t, '/');
  }

  /** The last component ends the trimmed path, and follows a '/' or starts it. */
  lemma BasenameIsLastComponent(p: string)
    ensures var r, t := Basename(p), TrimTrailingSlashes(p); |r| <= |t| && r == t[|t| - |r|..]
    ensures var r, t := Basename(p), TrimTrailingSlashes(p); |r| == |t| || t[|t| - |r| - 1] == '/'
  {
    var t := TrimTrailingSlashes(p);
    var e := LastIndexOf(t, '/');
    assert Basename(p) == t[e + 1..];
    assert |t| - |t[e + 1..]| == e + 1;
  }

  /**
   * The extension of a component holds no '.', follows a '.' at the end of
   * the component, and is empty exactly when the component has no '.' past
   * its first character or ends in '.'.
   */
  lemma ComponentExtensionAfterLastDot(b: string)
    ensures '.' !in ComponentExtension(b)
    ensures var r := ComponentExtension(b);
      r != [] ==> |r| + 2 <= |b| && b[|b| - |r| - 1] == '.' && b[|b| - |r|..] == r
    ensures ComponentExtension(b) == [] <==>
      (forall k :: 0 < k < |b| - 1 ==> b[k] != '.') || b[|b| - 1] == '.'
  {
    var d := LastIndexOf(b, '.');
    LastIndexOfIsLast(b, '.');
    var r := ComponentExtension(b);
    if d > 0 {
      forall k | 0 <= k < |r|
        ensures r[k] != '.'
      {
        assert r[k] == b[d + 1 + k];
      }
      if d < |b| - 1 {
        assert !(forall k :: 0 < k < |b| - 1 ==> b[k] != '.');
      }
    }
  }

  /** A character absent from a component is absent from its extension. */
  lemma ComponentExtensionKeepsOut(b: string, c: char)
    requires c !in b
    ensures c !in ComponentExtension(b)
  {
    var d := LastIndexOf(b, '.');
    if d > 0 {
      var r := b[d + 1..];
      forall k | 0 <= k < |r|
        ensures r[k] != c
      {
        assert r[k] == b[d + 1 + k];
      }
    }
  }

  /** The extension of a path lies inside its last component, so it holds no '/'. */
  lemma ExtensionHasNoSlash(p: string)
    ensures '/' !in Extension(p)
  {
    BasenameHasNoSlash(p);
    ComponentExtensionKeepsOut(Basename(p), '/');
  }

  /**
   * A path whose trimmed form holds no '/' (and does not start with one) has
   * dirname "."; a rooted path with no further '/' has dirname "/";
   * otherwise, short of the "//" case, the dirname is the path up to its
   * last '/' before the trailing ones: a non-empty prefix followed by '/',
   * with no '/' in the rest of the trimmed path.
   */
  lemma DirnameIsParent(p: string)
    ensures |p| == 0 || (p[0] != '/' && '/' !in TrimTrailingSlashes(p)) ==> Dirname(p) == "."
    ensures var t := TrimTrailingSlashes(p); |p| > 0 && p[0] == '/' && (|t| == 0 || '/' !in t[1..]) ==> Dirname(p) == "/"
    ensures var r, t := Dirname(p), TrimTrailingSlashes(p); |t| > 0 && '/' in t[1..] && r != "//" ==>
      0 < |r| < |t| && r == p[..|r|] && p[|r|] == '/' && '/' !in t[|r| + 1..]
  {
    if |p| > 0 {
      var t := TrimTrailingSlashes(p);
      TrimmedIsPrefix(p);
      LastIndexOfIsLast(t, '/');
      var e := LastIndexOf(t, '/');
      if |t| > 0 && '/' in t[1..] {
        var k :| 0 <= k < |t[1..]| && t[1..][k] == '/';
        assert t[k + 1] == '/';
        assert e >= 1;
        assert p[e] == t[e];
        if Dirname(p) != "//" {
          assert Dirname(p) == p[..e];
          var u := t[e + 1..];
          forall j | 0 <= j < |u|
            ensures u[j] != '/'
          {
            assert u[j] == t[e + 1 + j];
          }
        }
      }
    }
  }

  /** A rooted path never has dirname ".". */
  lemma DirnameOfRooted(p: string)
    requires StartsWith(p, "/")
    ensures Dirname(p) != "."
  {
  }

  /** A nested relative path's dirname: the prefix up to the last '/' before the trailing ones. */
  lemma DirnameOfNested(p: string)
    requires !StartsWith(p, "/") && '/' in TrimTrailingSlashes(p)
    ensures var r, t := Dirname(p), TrimTrailingSlashes(p);
      0 < |r| < |t| && p[..|r|] == r && p[|r|] == '/' && '/' !in t[|r| + 1..]
  {
    var t := TrimTrailingSlashes(p);
    TrimmedIsPrefix(p);
    assert t[0] == p[0];
    var k :| 0 <= k < |t| && t[k] == '/';
    assert t[1..][k - 1] == '/';
    DirnameIsParent(p);
  }

  /**
   * A relative path's dirname is "." exactly when its trimmed form holds no
   * '/', or is "./" followed by a name; otherwise it is the parent prefix.
   */
  lemma DirnameOfRelative(p: string)
    requires !StartsWith(p, "/")
    ensures var t := TrimTrailingSlashes(p);
      Dirname(p) == "." <==> '/' !in t || (|t| >= 2 && t[..2] == "./" && '/' !in t[2..])
    ensures var r, t := Dirname(p), TrimTrailingSlashes(p);
      r != "." ==> 0 < |r| < |t| && p[..|r|] == r && p[|r|] == '/' && '/' !in t[|r| + 1..]
  {
    var t := TrimTrailingSlashes(p);
    if '/' !in t {
      TrimmedIsPrefix(p);
      DirnameIsParent(p);
    } else {
      DirnameOfNested(p);
      var r := Dirname(p);
      TrimmedIsPrefix(p);
      if |t| >= 2 && t[..2] == "./" && '/' !in t[2..] {
        assert r == ".";
      }
    }
  }

  // ------------------------------------------------------------------ lemmas

  /** A path not ending in '/' has nothing to trim. */
  lemma TrimNothing(p: string)
    requires |p| > 0 && p[|p| - 1] != '/'
    ensures TrimTrailingSlashes(p) == p
  {
  }

  /** A bare name is its own last component. */
  lemma BasenameOfName(name: string)
    requires |name| > 0 && '/' !in name
    ensures Basename(name) == name
  {
    TrimNothing(name);
    assert LastIndexOf(name, '/') == -1;
  }

  /** The last component of `dir/name` is `name`. */
  lemma BasenameOfNested(dir: string, name: string)
    requires |name| > 0 && '/' !in name
    ensures Basename(dir + "/" + name) == name
  {
    var p := dir + "/" + name;
    TrimNothing(p);
    assert p[|dir|] == '/';
    forall k | |dir| < k < |p|
      ensures p[k] != '/'
    {
      assert p[k] == name[k - |dir| - 1];
    }
    LastIndexOfIsLast(p, '/');
    var e := LastIndexOf(p, '/');
    assert p[|dir| + 1..] == name;
  }

  /** The extension is what follows the last '.' of a name whose stem is not empty. */
  lemma ExtensionOfName(stem: string, ext: string)
    requires |stem| > 0 && |ext| > 0 && '/' !in stem && '/' !in ext && '.' !in ext
    ensures Extension(stem + "." + ext) == ext
  {
    var b := stem + "." + ext;
    assert '/' !in b by {
      forall k | 0 <= k < |b|
        ensures b[k] != '/'
      {
        if k > |stem| {
          assert b[k] == ext[k - |stem| - 1];
        }
      }
    }
    BasenameOfName(b);
    ComponentExtensionOfName(stem, ext);
  }

  /** Within one component, the extension is what follows the last '.'. */
  lemma ComponentExtensionOfName(stem: string, ext: string)
    requires |stem| > 0 && '.' !in ext
    ensures ComponentExtension(stem + "." + ext) == ext
  {
    var b := stem + "." + ext;
    assert b[|stem|] == '.';
    forall k | |stem| < k < |b|
      ensures b[k] != '.'
    {
      assert b[k] == ext[k - |stem| - 1];
    }
    LastIndexOfIsLast(b, '.');
    assert LastIndexOf(b, '.') == |stem|;
    assert b[|stem| + 1..] == ext;
  }

  /** A name without a '.' has no extension. */
  lemma NoDotNoExtension(name: string)
    requires |name| > 0 && '/' !in name && '.' !in name
    ensures Extension(name) == ""
  {
    BasenameOfName(name);
    assert LastIndexOf(name, '.') == -1;
  }

  /** Only the last component counts towards the extension. */
  lemma ExtensionOfNested(dir: string, name: string)
    requires |name| > 0 && '/' !in name
    ensures Extension(dir + "/" + name) == Extension(name)
  {
    BasenameOfNested(dir, name);
    BasenameOfName(name);
  }
}
