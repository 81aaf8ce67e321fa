/** File paths as sequences of segments, with the Node `path` operations the
    watermarking tool calls: `extname`, `relative`, `join` (which normalises)
    and `dirname`, plus ASCII `toLowerCase`. A path is the list of its
    `/`-separated segments: `a/b` is `["a", "b"]`, an absolute path starts
    with an empty segment, and the empty path is Node's `.`. */
module Paths {

  type Path = seq<string>

  /** `toLowerCase` on one character (ASCII letters only). */
  function LowerChar(c: char): char
  {
    if 'A' <= c <= 'Z' then (c as int + 32) as char else c
  }

  function ToLower(s: string): string
  {
    if |s| == 0 then "" else [LowerChar(s[0])] + ToLower(s[1..])
  }

  /** Lower-casing works character by character: it keeps the length and
      lower-cases each character in its place. */
  lemma {:induction false} ToLowerChars(s: string)
    ensures |ToLower(s)| == |s|
    ensures forall i :: 0 <= i < |s| ==> ToLower(s)[i] == LowerChar(s[i])
  {
    if |s| > 0 {
      ToLowerChars(s[1..]);
      forall i | 1 <= i < |s| ensures ToLower(s)[i] == LowerChar(s[i]) {
        assert ToLower(s)[i] == ToLower(s[1..])[i - 1];
        assert s[1..][i - 1] == s[i];
      }
    }
  }

  /** Lower-casing a lower-cased string changes nothing. */
  lemma ToLowerIdempotent(s: string)
    ensures ToLower(ToLower(s)) == ToLower(s)
  {
    ToLowerChars(s);
    ToLowerChars(ToLower(s));
    forall i | 0 <= i < |s| ensures LowerChar(LowerChar(s[i])) == LowerChar(s[i]) {
    }
  }

  /** The last segment of a path: the file's own name. */
  function BaseName(p: Path): string
  {
    if |p| == 0 then "" else p[|p| - 1]
  }

  /** `path.dirname`: everything but the last segment; the root `/` is its
      own directory. */
  function Dirname(p: Path): (r: Path)
    ensures Absolute(p) ==> Absolute(r)
    ensures |p| > 0 && p != [""] ==> r + [p[|p| - 1]] == p
  {
    if p == [""] then p
    else if |p| == 0 then []
    else p[..|p| - 1]
  }

  /** The index of the last `.` in `s`, or -1. */
  function LastDot(s: string): (k: int)
    ensures -1 <= k < |s|
  {
    if |s| == 0 then -1
    else if s[|s| - 1] == '.' then |s| - 1
    else LastDot(s[..|s| - 1])
  }

  /** `LastDot` finds the last `.`, or reports that there is none. */
  lemma {:induction false} LastDotIsLast(s: string)
    ensures var k := LastDot(s);
      && -1 <= k < |s|
      && (0 <= k ==> s[k] == '.')
      && (forall j :: k < j < |s| ==> s[j] != '.')
  {
    if |s| > 0 && s[|s| - 1] != '.' {
      LastDotIsLast(s[..|s| - 1]);
    }
  }

  /** `path.extname` of a file name: from the last `.` to the end, except
      when there is no `.`, when the only place for it is the first character
      (a dot-file such as `.profile`), or when the name is `..`. */
  function Extname(name: string): string
  {
    var k := LastDot(name);
    if k <= 0 || name == ".." then "" else name[k..]
  }

  /** An extension is empty or a `.` followed by dot-free characters, and it
      is a proper suffix of the name. */
  lemma ExtnameShape(name: string)
    ensures var e := Extname(name);
      e == "" || (e[0] == '.' && '.' !in e[1..] && |e| < |name| && name[|name| - |e|..] == e)
  {
    var k := LastDot(name);
    LastDotIsLast(name);
    if 0 < k && name != ".." {
      var e := name[k..];
      assert forall j :: 0 <= j < |e| - 1 ==> e[1..][j] == name[k + 1 + j];
    }
  }

  /** A segment that `normalize` keeps as it is. */
  predicate Plain(seg: string)
  {
    seg != "" && seg != "." && seg != ".."
  }

  predicate Clean(p: Path)
  {
    forall i :: 0 <= i < |p| ==> Plain(p[i])
  }

  /** A path from the root: `/srv/out` is `["", "srv", "out"]`, and `/` is `[""]`. */
  predicate Absolute(p: Path)
  {
    |p| > 0 && p[0] == ""
  }

  /** `normalize`, segment by segment onto an already normalised prefix:
      empty and `.` segments vanish, `..` cancels the previous ordinary
      segment, a `..` at the root of an absolute path (`abs`) vanishes, and
      any other `..` with nothing to cancel is kept. */
  function NormalizeOnto(acc: Path, p: Path, abs: bool): Path
    decreases |p|
  {
    if |p| == 0 then acc
    else if p[0] == "" || p[0] == "." then NormalizeOnto(acc, p[1..], abs)
    else if p[0] == ".." && |acc| > 0 && acc[|acc| - 1] != ".." then NormalizeOnto(acc[..|acc| - 1], p[1..], abs)
    else if p[0] == ".." && abs && |acc| == 0 then NormalizeOnto(acc, p[1..], abs)
    else NormalizeOnto(acc + [p[0]], p[1..], abs)
  }

  /** `path.normalize`: an absolute path keeps its root. */
  function Normalize(p: Path): Path
  {
    if Absolute(p) then [""] + NormalizeOnto([], p[1..], true) else NormalizeOnto([], p, false)
  }

  /** `path.join(a, b)`: concatenate, then normalise. */
  function Join(a: Path, b: Path): Path
  {
    Normalize(a + b)
  }

  /** `path.resolve(p)` in the working directory `/cwd`: a relative path is
      taken below the working directory, and the result is normalised. */
  function Resolve(cwd: Path, p: Path): (r: Path)
    ensures Absolute(r)
  {
    Normalize(if Absolute(p) then p else [""] + cwd + p)
  }

  /** The length of the longest common prefix. */
  function CommonPrefix(a: Path, b: Path): (n: nat)
    ensures n <= |a| && n <= |b| && a[..n] == b[..n]
    ensures n < |a| && n < |b| ==> a[n] != b[n]
  {
    if |a| == 0 || |b| == 0 || a[0] != b[0] then 0
    else
      var n := 1 + CommonPrefix(a[1..], b[1..]);
      assert a[..n] == [a[0]] + a[1..][..n - 1];
      assert b[..n] == [b[0]] + b[1..][..n - 1];
      n
  }

  /** `path.relative(from, to)` in the working directory `/cwd`: both are
      resolved, then the walk climbs out of what `from` does not share with
      `to` and descends into the rest of `to`. */
  function Relative(cwd: Path, from: Path, to: Path): Path
  {
    var f, t := Resolve(cwd, from)[1..], Resolve(cwd, to)[1..];
    var c := CommonPrefix(f, t);
    seq(|f| - c, _ => "..") + t[c..]
  }

  /** Clean segments pass through `normalize` unchanged. */
  lemma {:induction false} NormalizeOntoClean(acc: Path, p: Path, abs: bool)
    requires Clean(p)
    ensures NormalizeOnto(acc, p, abs) == acc + p
    decreases |p|
  {
    if |p| > 0 {
      assert Plain(p[0]);
      assert Clean(p[1..]) by {
        forall i | 0 <= i < |p[1..]| ensures Plain(p[1..][i]) { assert p[1..][i] == p[i + 1]; }
      }
      NormalizeOntoClean(acc + [p[0]], p[1..], abs);
      assert acc + [p[0]] + p[1..] == acc + p;
    }
  }

  /** Normalising a concatenation normalises the second part onto the
      normalised first part. */
  lemma {:induction false} NormalizeOntoConcat(acc: Path, a: Path, b: Path, abs: bool)
    ensures NormalizeOnto(acc, a + b, abs) == NormalizeOnto(NormalizeOnto(acc, a, abs), b, abs)
    decreases |a|
  {
    if |a| == 0 {
      assert a + b == b;
    } else {
      assert (a + b)[0] == a[0] && (a + b)[1..] == a[1..] + b;
      if a[0] == "" || a[0] == "." {
        NormalizeOntoConcat(acc, a[1..], b, abs);
      } else if a[0] == ".." && |acc| > 0 && acc[|acc| - 1] != ".." {
        NormalizeOntoConcat(acc[..|acc| - 1], a[1..], b, abs);
      } else if a[0] == ".." && abs && |acc| == 0 {
        NormalizeOntoConcat(acc, a[1..], b, abs);
      } else {
        NormalizeOntoConcat(acc + [a[0]], a[1..], b, abs);
      }
    }
  }

  lemma NormalizeClean(p: Path)
    requires Clean(p)
    ensures Normalize(p) == p
  {
    assert |p| > 0 ==> Plain(p[0]);
    NormalizeOntoClean([], p, false);
  }

  /** Clean segments appended to any path survive normalisation as they are. */
  lemma NormalizeAppend(p: Path, rest: Path)
    requires Clean(rest)
    ensures Normalize(p + rest) == Normalize(p) + rest
  {
    if Absolute(p) {
      assert Absolute(p + rest) && (p + rest)[1..] == p[1..] + rest;
      NormalizeOntoConcat([], p[1..], rest, true);
      NormalizeOntoClean(NormalizeOnto([], p[1..], true), rest, true);
    } else {
      assert !Absolute(p + rest) by {
        if |p| == 0 && |rest| > 0 { assert Plain(rest[0]); }
      }
      NormalizeOntoConcat([], p, rest, false);
      NormalizeOntoClean(NormalizeOnto([], p, false), rest, false);
    }
  }

  /** Resolving a path and appending clean segments commute. */
  lemma ResolveAppend(cwd: Path, p: Path, rest: Path)
    requires Clean(rest)
    ensures Resolve(cwd, p + rest) == Resolve(cwd, p) + rest
  {
    if Absolute(p) {
      assert Absolute(p + rest);
      NormalizeAppend(p, rest);
    } else {
      assert !Absolute(p + rest) by {
        if |p| == 0 && |rest| > 0 { assert Plain(rest[0]); }
      }
      assert [""] + cwd + (p + rest) == ([""] + cwd + p) + rest;
      NormalizeAppend([""] + cwd + p, rest);
    }
  }

  /** A trailing `/` does not change where a path leads. */
  lemma TrailingSlash(cwd: Path, p: Path)
    requires |p| > 0
    ensures Resolve(cwd, p + [""]) == Resolve(cwd, p)
  {
    var q := if Absolute(p) then p else [""] + cwd + p;
    assert (if Absolute(p + [""]) then p + [""] else [""] + cwd + (p + [""])) == q + [""];
    assert (q + [""])[1..] == q[1..] + [""];
    NormalizeOntoConcat([], q[1..], [""], true);
  }

  /** A path below `root`, however `root` is spelled, is addressed relative
      to `root` by what follows it. */
  lemma RelativeBelow(cwd: Path, root: Path, rest: Path)
    requires Clean(rest)
    ensures Relative(cwd, root, root + rest) == rest
  {
    ResolveAppend(cwd, root, rest);
    var r := Resolve(cwd, root);
    var f, t := r[1..], (r + rest)[1..];
    assert t == f + rest;
    var c := CommonPrefix(f, t);
    assert c == |f|;
    assert t[c..] == rest;
  }
}
