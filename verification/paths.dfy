/** The two string rewrites applied to every resource path before it is
    written (src/main.rs:90-94), and the one check the writer makes of the
    result before touching the file system (line 102).

    Both rewrites are `str::replace`, which scans left to right and replaces
    non-overlapping matches. The second one is a deliberately crude
    "remove ../" that is not idempotent; confinement of the writes to the
    output directory is left to the sandboxed writer. */
module Paths {

  /** Line 91: every backslash becomes a forward slash. */
  function NormalizeSeparators(name: string): (r: string)
    ensures |r| == |name|
  {
    if name == [] then []
    else [if name[0] == '\\' then '/' else name[0]] + NormalizeSeparators(name[1..])
  }

  /** The rewrite keeps the length and every character except backslashes,
      and leaves no backslash behind. */
  lemma {:induction false} NormalizeSeparatorsSpec(name: string)
    ensures |NormalizeSeparators(name)| == |name|
    ensures forall i :: 0 <= i < |name| ==>
      NormalizeSeparators(name)[i] == if name[i] == '\\' then '/' else name[i]
    ensures '\\' !in NormalizeSeparators(name)
  {
    if name != [] {
      NormalizeSeparatorsSpec(name[1..]);
      var r := NormalizeSeparators(name);
      assert r[1..] == NormalizeSeparators(name[1..]);
    }
  }

  /** Line 94: `replace("../", "")`. A match is looked for from the left; once
      found it is dropped and the scan resumes right after it. */
  function StripParentRefs(s: string): (r: string)
    ensures |r| <= |s|
  {
    if |s| >= 3 && s[..3] == "../" then StripParentRefs(s[3..])
    else if s == [] then []
    else [s[0]] + StripParentRefs(s[1..])
  }

  /** "../" occurs in `s` at index `i`. */
  predicate ParentRefAt(s: string, i: nat)
  {
    i + 3 <= |s| && s[i..i + 3] == "../"
  }

  ghost predicate HasParentRef(s: string)
  {
    exists i: nat :: ParentRefAt(s, i)
  }

  /** The rewrite never lengthens a path and never introduces a character
      that was not there. */
  lemma {:induction false} StripParentRefsShrinks(s: string)
    ensures |StripParentRefs(s)| <= |s|
    ensures forall c :: c in StripParentRefs(s) ==> c in s
  {
    if |s| >= 3 && s[..3] == "../" {
      StripParentRefsShrinks(s[3..]);
      assert forall c :: c in s[3..] ==> c in s;
    } else if s != [] {
      StripParentRefsShrinks(s[1..]);
      assert forall c :: c in s[1..] ==> c in s;
    }
  }

  /** The rewrite changes a path exactly when the path contains "../", and
      then it makes it strictly shorter. */
  lemma {:induction false} StripParentRefsChangesIff(s: string)
    ensures StripParentRefs(s) == s <==> !HasParentRef(s)
    ensures HasParentRef(s) ==> |StripParentRefs(s)| < |s|
  {
    if |s| >= 3 && s[..3] == "../" {
      assert ParentRefAt(s, 0);
      StripParentRefsShrinks(s[3..]);
    } else if s != [] {
      StripParentRefsChangesIff(s[1..]);
      var t := s[1..];
      if HasParentRef(s) {
        var i: nat :| ParentRefAt(s, i);
        assert i != 0;
        assert t[i - 1..i + 2] == s[i..i + 3];
        assert ParentRefAt(t, i - 1);
      }
      if HasParentRef(t) {
        var i: nat :| ParentRefAt(t, i);
        assert s[i + 1..i + 4] == t[i..i + 3];
        assert ParentRefAt(s, i + 1);
      }
      if StripParentRefs(s) == s {
        assert StripParentRefs(t) == StripParentRefs(s)[1..];
      }
    } else {
      assert !HasParentRef(s);
    }
  }

  /** The rewrite is a single pass: it is not idempotent, and its result may
      still hold "../". */
  lemma StripParentRefsNotIdempotent()
    ensures StripParentRefs("....//") == "../"
    ensures StripParentRefs(StripParentRefs("....//")) == ""
  {
    assert "....//"[..3] == "...";
    assert "....//"[1..] == "...//";
    assert "...//"[..3] == "...";
    assert "...//"[1..] == "..//";
    assert "..//"[..3] == "../";
    assert "..//"[3..] == "/";
    assert "/"[1..] == "";
    assert "../"[..3] == "../";
    assert "../"[3..] == "";
  }

  /** Lines 91 and 94 together. */
  function Sanitize(name: string): (r: string)
    ensures |r| <= |name|
  {
    StripParentRefs(NormalizeSeparators(name))
  }

  /** A sanitised path holds no backslash and is no longer than the original. */
  lemma SanitizeSpec(name: string)
    ensures '\\' !in Sanitize(name)
    ensures |Sanitize(name)| <= |name|
  {
    NormalizeSeparatorsSpec(name);
    StripParentRefsShrinks(NormalizeSeparators(name));
  }

  /** A traversal attempt loses its two "../" tokens, whatever follows them;
      the tail is rewritten as it would be on its own. */
  lemma SanitizeStripsTraversal(tail: string)
    ensures Sanitize("a/../../" + tail) == "a/" + Sanitize(tail)
  {
    NormalizeTraversal(tail);
    StripTraversal(NormalizeSeparators(tail));
  }

  /** The separator rewrite leaves the forward-slash traversal prefix alone. */
  lemma NormalizeTraversal(tail: string)
    ensures NormalizeSeparators("a/../../" + tail) == "a/" + ("../" + ("../" + NormalizeSeparators(tail)))
  {
    NormalizePlainPrefix("a/../../", tail);
    TraversalPieces(NormalizeSeparators(tail));
  }

  /** A prefix without backslashes passes through the rewrite unchanged. */
  lemma NormalizePlainPrefix(p: string, t: string)
    requires '\\' !in p
    ensures NormalizeSeparators(p + t) == p + NormalizeSeparators(t)
  {
    NormalizeConcat(p, t);
    NormalizeWithoutBackslash(p);
  }

  /** The traversal prefix read as its tokens "a/", "../" and "../". */
  lemma TraversalPieces(n: string)
    ensures "a/../../" + n == "a/" + ("../" + ("../" + n))
  {
    assert "a/../../" == "a/" + "../" + "../";
  }

  /** Stripping keeps the leading "a/" and drops both "../" tokens. */
  lemma StripTraversal(n: string)
    ensures StripParentRefs("a/" + ("../" + ("../" + n))) == "a/" + StripParentRefs(n)
  {
    StripKeepsPlainPrefix("a/", "../" + ("../" + n));
    StripDropsToken("../" + n);
    StripDropsToken(n);
  }

  /** So does a Windows-style one, once its separators are rewritten. */
  lemma SanitizeStripsWindowsTraversal(tail: string)
    ensures Sanitize("..\\..\\" + tail) == Sanitize(tail)
  {
    var n := NormalizeSeparators(tail);
    NormalizeConcat("..\\..\\", tail);
    NormalizeSeparatorsSpec("..\\..\\");
    assert NormalizeSeparators("..\\..\\") == "../../";
    assert "../../" + n == "../" + ("../" + n);
    StripDropsToken("../" + n);
    StripDropsToken(n);
  }

  /** With a tail free of dots and backslashes ("etc/passwd", say), nothing
      of the traversal is left but the leading "a/". */
  lemma SanitizeTraversal(tail: string)
    requires '.' !in tail && '\\' !in tail
    ensures Sanitize("a/../../" + tail) == "a/" + tail
  {
    SanitizeStripsTraversal(tail);
    NormalizeWithoutBackslash(tail);
    StripWithoutDots(tail);
  }

  /** And the Windows-style traversal leaves only the tail. */
  lemma SanitizeWindowsTraversal(tail: string)
    requires '.' !in tail && '\\' !in tail
    ensures Sanitize("..\\..\\" + tail) == tail
  {
    SanitizeStripsWindowsTraversal(tail);
    NormalizeWithoutBackslash(tail);
    StripWithoutDots(tail);
  }

  /** The separator rewrite works character by character, so it distributes
      over concatenation. */
  lemma NormalizeConcat(p: string, t: string)
    ensures NormalizeSeparators(p + t) == NormalizeSeparators(p) + NormalizeSeparators(t)
  {
    NormalizeSeparatorsSpec(p + t);
    NormalizeSeparatorsSpec(p);
    NormalizeSeparatorsSpec(t);
    assert forall i :: 0 <= i < |p| ==> (p + t)[i] == p[i];
    assert forall i :: |p| <= i < |p + t| ==> (p + t)[i] == t[i - |p|];
  }

  lemma NormalizeWithoutBackslash(s: string)
    requires '\\' !in s
    ensures NormalizeSeparators(s) == s
  {
    NormalizeSeparatorsSpec(s);
  }

  lemma StripPassesNonDot(c: char, s: string)
    requires c != '.'
    ensures StripParentRefs([c] + s) == [c] + StripParentRefs(s)
  {
    var t := [c] + s;
    assert t[0] == c;
    if |t| >= 3 {
      assert t[..3][0] == c;
    }
    assert t[1..] == s;
  }

  lemma StripDropsToken(s: string)
    ensures StripParentRefs("../" + s) == StripParentRefs(s)
  {
    assert ("../" + s)[..3] == "../";
    assert ("../" + s)[3..] == s;
  }

  lemma {:induction false} StripKeepsPlainPrefix(p: string, s: string)
    requires '.' !in p
    ensures StripParentRefs(p + s) == p + StripParentRefs(s)
  {
    if p != [] {
      assert p[0] != '.' && '.' !in p[1..];
      StripKeepsPlainPrefix(p[1..], s);
      StripPassesNonDot(p[0], p[1..] + s);
      SplitHead(p, s);
      SplitHead(p, StripParentRefs(s));
    } else {
      assert p + s == s && p + StripParentRefs(s) == StripParentRefs(s);
    }
  }

  lemma SplitHead<T>(p: seq<T>, s: seq<T>)
    requires p != []
    ensures p + s == [p[0]] + (p[1..] + s)
  {
  }

  lemma {:induction false} StripWithoutDots(s: string)
    requires '.' !in s
    ensures StripParentRefs(s) == s
  {
    if s != [] {
      assert s[0] != '.';
      assert s[1..] + [] == s[1..];
      StripWithoutDots(s[1..]);
      StripPassesNonDot(s[0], s[1..]);
      assert [s[0]] + s[1..] == s;
    }
  }

  /** Line 102: `Path::new(path).parent()` on a Unix target. `parent` is
      `None` exactly when the path has no last component or its last
      component is the root. Component iteration skips empty components
      (repeated '/') and every "." except a leading one, so this happens for
      the empty path and for an absolute path whose components after the
      root are all empty or ".". The unpacker then stops with
      "Invalid filename". */
  predicate IsRootOrEmpty(path: string)
  {
    path == [] ||
    (path[0] == '/' && forall i :: 0 <= i < |path| ==> SkippedAt(path, i))
  }

  /** The character at `i` is a separator or a lone "." component. */
  predicate SkippedAt(path: string, i: nat)
    requires i < |path|
  {
    path[i] == '/' ||
    (path[i] == '.' && 0 < i && path[i - 1] == '/' && (i + 1 == |path| || path[i + 1] == '/'))
  }

  predicate HasParent(path: string)
    ensures path != [] && path[0] != '/' ==> HasParent(path)
  {
    !IsRootOrEmpty(path)
  }

  /** Any relative path, and any path holding a character other than '/'
      and '.', has a parent (for a single component it is the empty path);
      the empty path and the bare roots "/", "//", "/." and "/./" do not,
      while "/.." does (its parent is "/"). */
  lemma HasParentSpec(path: string)
    ensures path != [] && path[0] != '/' ==> HasParent(path)
    ensures (exists i :: 0 <= i < |path| && path[i] != '/' && path[i] != '.') ==> HasParent(path)
    ensures !HasParent("") && !HasParent("/") && !HasParent("//")
    ensures !HasParent("/.") && !HasParent("/./")
    ensures HasParent("/..") && HasParent("a") && HasParent(".")
  {
    if exists i :: 0 <= i < |path| && path[i] != '/' && path[i] != '.' {
      var i :| 0 <= i < |path| && path[i] != '/' && path[i] != '.';
      assert !SkippedAt(path, i);
    }
    assert !SkippedAt("/..", 2);
  }
}
