/** File-name handling of the generator: `os.path.splitext` and
    `os.path.join` (POSIX rules), the two extension sets, and the name a
    converted HEIC/HEIF file gets. */
module Paths {
  import opened Wrappers
  import opened Strings

  /** Index of the last occurrence of `c` in `s`, or -1 (Python `str.rfind`). */
  function LastIndex(s: string, c: char): (r: int)
    ensures -1 <= r < |s|
    ensures r >= 0 ==> s[r] == c
    ensures forall k :: r < k < |s| ==> s[k] != c
  {
    if s == [] then -1
    else if s[|s| - 1] == c then |s| - 1
    else LastIndex(s[..|s| - 1], c)
  }

  /** Whether `s[lo..hi]` holds a character other than '.'. */
  predicate HasNonDot(s: string, lo: int, hi: int)
    requires 0 <= lo && hi <= |s|
  {
    exists k :: lo <= k < hi && s[k] != '.'
  }

  /** `os.path.splitext(p)` on POSIX: the extension runs from the last dot of
      the last path component, unless everything before that dot in the
      component is dots (so ".jpg" and "..jpg" have no extension). */
  function SplitExt(p: string): (r: (string, string))
    ensures r.0 + r.1 == p
    ensures r.1 == [] || (r.1[0] == '.' && '.' !in r.1[1..] && '/' !in r.1)
    ensures r.1 != [] ==> HasNonDot(p, LastIndex(p, '/') + 1, |r.0|)
    ensures r.1 == [] ==> forall k :: LastIndex(p, '/') < k < |p| && p[k] == '.' ==>
      !HasNonDot(p, LastIndex(p, '/') + 1, k)
  {
    var sep := LastIndex(p, '/');
    var dot := LastIndex(p, '.');
    if !(dot > sep && HasNonDot(p, sep + 1, dot)) then
      NoExtensionDot(p, sep, dot);
      (p, "")
    else
      assert '/' !in p[dot..] by {
        forall k | 0 <= k < |p[dot..]| ensures p[dot..][k] != '/' { assert p[dot..][k] == p[dot + k]; }
      }
      assert '.' !in p[dot..][1..] by {
        forall k | 0 <= k < |p[dot..][1..]| ensures p[dot..][1..][k] != '.' { assert p[dot..][1..][k] == p[dot + 1 + k]; }
      }
      (p[..dot], p[dot..])
  }

  /** When the last dot does not start an extension, no dot of the last
      component has a non-dot ahead of it in that component. */
  lemma NoExtensionDot(p: string, sep: int, dot: int)
    requires sep == LastIndex(p, '/') && dot == LastIndex(p, '.')
    requires !(dot > sep && HasNonDot(p, sep + 1, dot))
    ensures forall k :: sep < k < |p| && p[k] == '.' ==> !HasNonDot(p, sep + 1, k)
  {
    forall k | sep < k < |p| && p[k] == '.' ensures !HasNonDot(p, sep + 1, k) {
      if dot > sep {
        assert forall m :: sep + 1 <= m < dot ==> p[m] == '.';
      } else {
        assert false;
      }
    }
  }

  function Stem(p: string): string { SplitExt(p).0 }

  function Ext(p: string): string { SplitExt(p).1 }

  /** `os.path.join(a, b)` on POSIX, two arguments. */
  function Join(a: string, b: string): (r: string)
    ensures |b| > 0 && b[0] == '/' ==> r == b
    ensures (|b| == 0 || b[0] != '/') && a != [] && a[|a| - 1] != '/' ==> r == a + "/" + b
    ensures (|b| == 0 || b[0] != '/') && (a == [] || a[|a| - 1] == '/') ==> r == a + b
  {
    if |b| > 0 && b[0] == '/' then b
    else if a == [] || a[|a| - 1] == '/' then a + b
    else a + "/" + b
  }

  const SupportedExtensions: set<string> := {".jpeg", ".jpg", ".png", ".gif", ".webp"}
  const HeicExtensions: set<string> := {".heic", ".heif"}

  /** A name the scan keeps: its lower-cased extension is a supported one. */
  predicate IsSupported(f: string)
  {
    Lower(Ext(f)) in SupportedExtensions
  }

  /** A name the first step converts. */
  predicate IsHeic(f: string)
  {
    Lower(Ext(f)) in HeicExtensions
  }

  /** The path `convert_heic_to_jpeg` writes: the input's stem plus ".jpeg". */
  function JpegPath(path: string): (r: string)
    ensures |r| >= 5 && r[|r| - 5..] == ".jpeg"
  {
    Stem(path) + ".jpeg"
  }

  /** `convert_heic_to_jpeg`'s result: no path when HEIF decoding is
      unavailable, otherwise the input's stem with the extension ".jpeg",
      a name the scan keeps and the conversion pass does not revisit.  The
      pass only hands it HEIC names, which always have an extension. */
  function ConvertHeicToJpeg(path: string, heifSupport: bool): (r: Option<string>)
    ensures r.Some? <==> heifSupport
    ensures r.Some? && Ext(path) != [] ==>
      SplitExt(r.value) == (Stem(path), ".jpeg") && IsSupported(r.value) && !IsHeic(r.value)
  {
    if !heifSupport then None
    else
      assert Ext(path) != [] ==> SplitExt(JpegPath(path)) == (Stem(path), ".jpeg") by {
        if Ext(path) != [] {
          JpegExtension();
          ReplaceExt(path, ".jpeg");
        }
      }
      assert Ext(path) != [] ==> IsSupported(JpegPath(path)) && !IsHeic(JpegPath(path)) by {
        if Ext(path) != [] {
          JpegExtIsSupported(JpegPath(path));
        }
      }
      Some(JpegPath(path))
  }

  /** A leading dot does not start an extension: ".jpg" and "..jpg" have none. */
  lemma LeadingDotsAreNoExtension()
    ensures SplitExt(".jpg") == (".jpg", "")
    ensures SplitExt("..jpg") == ("..jpg", "")
  {
    LastIndexIs(".jpg", '.', 0);
    LastIndexIs(".jpg", '/', -1);
    LastIndexIs("..jpg", '.', 1);
    LastIndexIs("..jpg", '/', -1);
  }

  /** The extension starts at the last dot, keeping its case. */
  lemma LastDotStartsExtension()
    ensures SplitExt(".a.jpg") == (".a", ".jpg")
    ensures SplitExt("a.b.JPG") == ("a.b", ".JPG")
  {
    var p, q := ".a.jpg", "a.b.JPG";
    assert p[1] == 'a' && q[0] == 'a';
    assert HasNonDot(p, 0, 2) && HasNonDot(q, 0, 3);
    LastIndexIs(p, '.', 2);
    LastIndexIs(p, '/', -1);
    LastIndexIs(q, '.', 3);
    LastIndexIs(q, '/', -1);
    assert p[..2] == ".a" && p[2..] == ".jpg";
    assert q[..3] == "a.b" && q[3..] == ".JPG";
  }

  /** A dot in a directory name is no extension. */
  lemma DirectoryDotIsNoExtension()
    ensures SplitExt("photos.d/pic") == ("photos.d/pic", "")
  {
    LastIndexIs("photos.d/pic", '/', 8);
    LastIndexIs("photos.d/pic", '.', 6);
  }

  /** A name whose extension is non-empty keeps a non-dot character ahead
      of its last dot, so any new dotted suffix becomes its extension. */
  lemma {:induction false} ReplaceExt(p: string, e: string)
    requires Ext(p) != []
    requires |e| > 0 && e[0] == '.' && '.' !in e[1..] && '/' !in e
    ensures SplitExt(Stem(p) + e) == (Stem(p), e)
  {
    var sep := LastIndex(p, '/');
    var dot := LastIndex(p, '.');
    assert dot > sep && HasNonDot(p, sep + 1, dot);
    var q := Stem(p) + e;
    assert Stem(p) == p[..dot];
    var k :| sep + 1 <= k < dot && p[k] != '.';
    assert q[k] == p[k];
    assert q[dot] == '.';
    forall m | dot < m < |q| ensures q[m] != '.' && q[m] != '/' {
      assert q[m] == e[m - dot];
      assert e[m - dot] in e;
      if m - dot >= 1 {
        assert e[1..][m - dot - 1] == e[m - dot];
      }
    }
    assert LastIndex(q, '.') == dot by {
      LastIndexIs(q, '.', dot);
    }
    forall m | sep < m < dot ensures q[m] != '/' {
      assert q[m] == p[m];
    }
    assert q[dot] != '/';
    assert LastIndex(q, '/') == sep by {
      if sep >= 0 {
        assert q[sep] == p[sep];
      }
      LastIndexIs(q, '/', sep);
    }
    assert HasNonDot(q, sep + 1, dot);
    assert q[..dot] == Stem(p) && q[dot..] == e;
  }

  /** `LastIndex` is the unique position after which `c` does not occur. */
  lemma {:induction false} LastIndexIs(s: string, c: char, r: int)
    requires -1 <= r < |s|
    requires r >= 0 ==> s[r] == c
    requires forall k :: r < k < |s| ==> s[k] != c
    ensures LastIndex(s, c) == r
  {
    if s != [] && s[|s| - 1] != c {
      LastIndexIs(s[..|s| - 1], c, r);
    }
  }

  /** Joining a directory and a plain name leaves the name's extension alone:
      dots in the directory never count. */
  lemma JoinSplit(dir: string, f: string)
    requires dir != [] && dir[|dir| - 1] != '/'
    requires '/' !in f
    ensures SplitExt(Join(dir, f)) == (Join(dir, Stem(f)), Ext(f))
  {
    var p := Join(dir, f);
    var n := |dir| + 1;
    JoinShape(dir, f);
    JoinLastSlash(dir, f);
    JoinLastDot(dir, f);
    assert LastIndex(f, '/') == -1 by {
      forall m | -1 < m < |f| ensures f[m] != '/' { assert f[m] in f; }
      LastIndexIs(f, '/', -1);
    }
    var fdot := LastIndex(f, '.');
    if fdot >= 0 {
      JoinNonDot(dir, f, fdot);
      if HasNonDot(f, 0, fdot) {
        assert p[..fdot + n] == dir + "/" + f[..fdot];
        assert p[fdot + n..] == f[fdot..];
        JoinRelative(dir, f[..fdot]);
      } else {
        JoinRelative(dir, f);
      }
    } else {
      JoinRelative(dir, f);
    }
  }

  lemma JoinShape(dir: string, f: string)
    requires dir != [] && dir[|dir| - 1] != '/'
    requires '/' !in f
    ensures Join(dir, f) == dir + "/" + f
    ensures Join(dir, f)[|dir|] == '/'
    ensures forall m :: |dir| < m < |Join(dir, f)| ==> Join(dir, f)[m] == f[m - |dir| - 1]
  {
    assert f == [] || f[0] != '/' by { if f != [] { assert f[0] in f; } }
  }

  lemma JoinLastSlash(dir: string, f: string)
    requires dir != [] && dir[|dir| - 1] != '/'
    requires '/' !in f
    ensures LastIndex(Join(dir, f), '/') == |dir|
  {
    var p := Join(dir, f);
    JoinShape(dir, f);
    forall m | |dir| < m < |p| ensures p[m] != '/' {
      assert f[m - |dir| - 1] in f;
    }
    LastIndexIs(p, '/', |dir|);
  }

  lemma JoinLastDot(dir: string, f: string)
    requires dir != [] && dir[|dir| - 1] != '/'
    requires '/' !in f
    ensures LastIndex(f, '.') >= 0 ==> LastIndex(Join(dir, f), '.') == LastIndex(f, '.') + |dir| + 1
    ensures LastIndex(f, '.') < 0 ==> LastIndex(Join(dir, f), '.') <= |dir|
  {
    var p := Join(dir, f);
    var n := |dir| + 1;
    var fdot := LastIndex(f, '.');
    JoinShape(dir, f);
    if fdot >= 0 {
      LastIndexIs(p, '.', fdot + n);
    } else {
      forall m | |dir| < m < |p| ensures p[m] != '.' {
        assert p[m] == f[m - n];
      }
    }
  }

  lemma JoinNonDot(dir: string, f: string, fdot: int)
    requires dir != [] && dir[|dir| - 1] != '/'
    requires '/' !in f
    requires 0 <= fdot < |f|
    ensures HasNonDot(Join(dir, f), |dir| + 1, fdot + |dir| + 1) <==> HasNonDot(f, 0, fdot)
  {
    var p := Join(dir, f);
    var n := |dir| + 1;
    JoinShape(dir, f);
    if HasNonDot(f, 0, fdot) {
      var k :| 0 <= k < fdot && f[k] != '.';
      assert p[k + n] == f[k];
    }
    if HasNonDot(p, n, fdot + n) {
      var k :| n <= k < fdot + n && p[k] != '.';
      assert f[k - n] == p[k];
    }
  }

  lemma ConvertedNameInDirectory(dir: string, f: string)
    requires dir != [] && dir[|dir| - 1] != '/'
    requires '/' !in f
    ensures JpegPath(Join(dir, f)) == Join(dir, JpegPath(f))
  {
    JpegOfJoinedPath(dir, f);
    JoinOfJpegName(dir, f);
  }

  lemma JpegOfJoinedPath(dir: string, f: string)
    requires dir != [] && dir[|dir| - 1] != '/'
    requires '/' !in f
    ensures JpegPath(Join(dir, f)) == dir + "/" + (Stem(f) + ".jpeg")
  {
    var p := Join(dir, f);
    var s := Stem(f);
    StemOfJoin(dir, f);
    StemRelative(f);
    JoinRelative(dir, s);
    JpegOfStem(p, dir + "/" + s);
  }

  lemma StemOfJoin(dir: string, f: string)
    requires dir != [] && dir[|dir| - 1] != '/'
    requires '/' !in f
    ensures Stem(Join(dir, f)) == Join(dir, Stem(f))
  {
    JoinSplit(dir, f);
  }

  lemma JoinOfJpegName(dir: string, f: string)
    requires dir != [] && dir[|dir| - 1] != '/'
    requires '/' !in f
    ensures Join(dir, JpegPath(f)) == dir + "/" + (Stem(f) + ".jpeg")
  {
    StemRelative(f);
    JpegOfStem(f, Stem(f));
    JoinRelative(dir, Stem(f) + ".jpeg");
  }

  lemma JpegOfStem(p: string, s: string)
    requires Stem(p) == s
    ensures JpegPath(p) == s + ".jpeg"
  {
  }

  lemma StemRelative(f: string)
    requires '/' !in f
    ensures Stem(f) == [] || Stem(f)[0] != '/'
  {
    var s := Stem(f);
    assert s + Ext(f) == f;
    if s != [] { assert f[0] == s[0]; assert f[0] in f; }
  }

  lemma JoinRelative(dir: string, b: string)
    requires dir != [] && dir[|dir| - 1] != '/'
    requires b == [] || b[0] != '/'
    ensures Join(dir, b) == dir + "/" + b
  {
  }

  /** A converted name is supported and no longer HEIC: the renamed output is
      scanned as a normal image, and a second run converts nothing. */
  lemma JpegNameIsSupported(f: string)
    requires IsHeic(f)
    ensures SplitExt(JpegPath(f)) == (Stem(f), ".jpeg")
    ensures IsSupported(JpegPath(f)) && !IsHeic(JpegPath(f))
  {
    HeicHasExtension(f);
    JpegExtension();
    ReplaceExt(f, ".jpeg");
    JpegExtIsSupported(JpegPath(f));
  }

  lemma HeicHasExtension(f: string)
    requires IsHeic(f)
    ensures Ext(f) != []
  {
    assert |Lower(Ext(f))| == |Ext(f)|;
  }

  lemma JpegExtIsSupported(g: string)
    requires Ext(g) == ".jpeg"
    ensures IsSupported(g) && !IsHeic(g)
  {
    JpegExtension();
  }

  lemma JpegExtension()
    ensures '.' !in ".jpeg"[1..] && '/' !in ".jpeg"
    ensures Lower(".jpeg") == ".jpeg"
  {
    var e := ".jpeg";
    assert e[1..] == "jpeg";
    assert Lower(e) == e by {
      assert forall i :: 0 <= i < |e| ==> !('A' <= e[i] <= 'Z');
    }
  }

  /** No name is both converted and scanned as it stands. */
  lemma HeicNotSupported(f: string)
    ensures !(IsHeic(f) && IsSupported(f))
  {
  }
}
