/**
 * `normalizeTemplatePath` (garnet.js:12-33) and the parts of Node's POSIX
 * `path` module it calls: `extname`, `join` and `normalize`. A path is split
 * at `/` into segments; `normalize` replays the segments on a stack that drops
 * empty and `.` segments and lets `..` cancel the segment before it.
 */
module Paths {
  import opened Wrappers

  // ---------------------------------------------------------------------------
  // Segments

  /** No character of `s` is `c`. */
  predicate Lacks(s: string, c: char)
  {
    forall k :: 0 <= k < |s| ==> s[k] != c
  }

  /** Index of the first `/` in `p`, or `|p|` when there is none. */
  function FirstSlash(p: string): (i: nat)
    ensures i <= |p|
    ensures forall k :: 0 <= k < i ==> p[k] != '/'
    ensures i < |p| ==> p[i] == '/'
    decreases |p|
  {
    if p == [] || p[0] == '/' then 0 else 1 + FirstSlash(p[1..])
  }

  /** The segments of `p` between slashes, empty ones included: `"/a//b"` gives `["", "a", "", "b"]`. */
  function Split(p: string): (r: seq<string>)
    ensures |r| >= 1
    decreases |p|
  {
    var i := FirstSlash(p);
    if i == |p| then [p] else [p[..i]] + Split(p[i + 1..])
  }

  /** No segment holds a `/`. */
  lemma {:induction false} SplitSlashless(p: string)
    ensures Slashless(Split(p))
    decreases |p|
  {
    var i := FirstSlash(p);
    if i < |p| {
      SplitSlashless(p[i + 1..]);
    }
  }

  /** The segments written out again with `/` between them. */
  function JoinSegs(segs: seq<string>): string
    decreases |segs|
  {
    if |segs| == 0 then []
    else if |segs| == 1 then segs[0]
    else segs[0] + "/" + JoinSegs(segs[1..])
  }

  predicate Slashless(segs: seq<string>)
  {
    forall i :: 0 <= i < |segs| ==> Lacks(segs[i], '/')
  }

  lemma SplitNoSlash(a: string)
    requires Lacks(a, '/')
    ensures Split(a) == [a]
  {
    assert a[..|a|] == a;
  }

  lemma SplitSlash(a: string, rest: string)
    requires Lacks(a, '/')
    ensures Split(a + "/" + rest) == [a] + Split(rest)
  {
    var p := a + "/" + rest;
    var i := FirstSlash(p);
    assert p[|a|] == '/';
    assert forall k :: 0 <= k < |a| ==> p[k] == a[k];
    assert i == |a|;
    assert p[..i] == a;
    assert p[i + 1..] == rest;
  }

  /** Splitting what `JoinSegs` wrote gives the segments back. */
  lemma {:induction false} SplitJoinSegs(segs: seq<string>)
    requires |segs| >= 1 && Slashless(segs)
    ensures Split(JoinSegs(segs)) == segs
    decreases |segs|
  {
    if |segs| == 1 {
      SplitNoSlash(segs[0]);
    } else {
      SplitJoinSegs(segs[1..]);
      SplitSlash(segs[0], JoinSegs(segs[1..]));
      assert [segs[0]] + segs[1..] == segs;
    }
  }

  /** Splitting at the first `/` of `x`, with or without more text after `x`. */
  lemma SplitFirst(x: string, rest: string)
    requires FirstSlash(x) < |x|
    ensures var i := FirstSlash(x);
            && Split(x) == [x[..i]] + Split(x[i + 1..])
            && Split(x + "/" + rest) == [x[..i]] + Split(x[i + 1..] + "/" + rest)
  {
    var i := FirstSlash(x);
    var a := x[..i];
    assert Lacks(a, '/') by {
      forall k | 0 <= k < |a| ensures a[k] != '/' {
        assert a[k] == x[k];
      }
    }
    CutAtSlash(x, i, rest);
    SplitSlash(a, x[i + 1..] + "/" + rest);
  }

  /** A text with a `/` at `i`, cut there, with more text after it. */
  lemma CutAtSlash(x: string, i: nat, rest: string)
    requires i < |x| && x[i] == '/'
    ensures x + "/" + rest == x[..i] + "/" + (x[i + 1..] + "/" + rest)
  {
    assert x == x[..i] + "/" + x[i + 1..];
  }

  /** A `/` between two texts splits them apart. */
  lemma {:induction false} SplitAround(x: string, rest: string)
    ensures Split(x + "/" + rest) == Split(x) + Split(rest)
    decreases |x|
  {
    var i := FirstSlash(x);
    if i == |x| {
      SplitAroundSlashless(x, rest);
    } else {
      SplitAround(x[i + 1..], rest);
      SplitAroundFirst(x, rest);
    }
  }

  lemma SplitAroundSlashless(x: string, rest: string)
    requires FirstSlash(x) == |x|
    ensures Split(x + "/" + rest) == Split(x) + Split(rest)
  {
    assert x[..|x|] == x;
    SplitSlash(x, rest);
  }

  lemma SplitAroundFirst(x: string, rest: string)
    requires FirstSlash(x) < |x|
    requires var y := x[FirstSlash(x) + 1..]; Split(y + "/" + rest) == Split(y) + Split(rest)
    ensures Split(x + "/" + rest) == Split(x) + Split(rest)
  {
    var i := FirstSlash(x);
    var y := x[i + 1..];
    SplitFirst(x, rest);
    assert [x[..i]] + (Split(y) + Split(rest)) == [x[..i]] + Split(y) + Split(rest);
  }

  /** Non-empty slashless segments write out a text that neither starts nor ends with `/`. */
  lemma {:induction false} JoinSegsEnds(segs: seq<string>)
    requires |segs| >= 1 && Slashless(segs) && forall i :: 0 <= i < |segs| ==> segs[i] != []
    ensures var j := JoinSegs(segs); j != [] && j[0] != '/' && j[|j| - 1] != '/'
    decreases |segs|
  {
    if |segs| > 1 {
      JoinSegsEnds(segs[1..]);
      var j := JoinSegs(segs);
      assert j[0] == segs[0][0];
      assert j[|j| - 1] == JoinSegs(segs[1..])[|JoinSegs(segs[1..])| - 1];
    } else {
    }
  }

  // ---------------------------------------------------------------------------
  // The segment stack of `normalize`

  /**
   * One segment onto the stack: empty and `.` segments are dropped; `..` pops
   * the segment before it unless that is itself `..`; a `..` that has nothing
   * to pop is kept on a relative path and dropped on an absolute one.
   */
  function Push(stack: seq<string>, seg: string, abs: bool): seq<string>
  {
    if seg == [] || seg == "." then stack
    else if seg == ".." then
      if |stack| > 0 && stack[|stack| - 1] != ".." then stack[..|stack| - 1]
      else if abs then stack
      else stack + [".."]
    else stack + [seg]
  }

  function Resolve(stack: seq<string>, segs: seq<string>, abs: bool): seq<string>
    decreases |segs|
  {
    if segs == [] then stack else Resolve(Push(stack, segs[0], abs), segs[1..], abs)
  }

  /**
   * A stack `normalize` can leave: no empty, `.` or slashed segment, every
   * `..` before every other segment, and no `..` at all on an absolute path.
   */
  predicate Canonical(stack: seq<string>, abs: bool)
  {
    && (forall i :: 0 <= i < |stack| ==> stack[i] != [] && stack[i] != "." && Lacks(stack[i], '/'))
    && (forall i, j :: 0 <= i < j < |stack| && stack[j] == ".." ==> stack[i] == "..")
    && (abs ==> forall i :: 0 <= i < |stack| ==> stack[i] != "..")
  }

  lemma PushCanonical(stack: seq<string>, seg: string, abs: bool)
    requires Canonical(stack, abs) && Lacks(seg, '/')
    ensures Canonical(Push(stack, seg, abs), abs)
  {
  }

  lemma {:induction false} ResolveCanonical(stack: seq<string>, segs: seq<string>, abs: bool)
    requires Canonical(stack, abs) && Slashless(segs)
    ensures Canonical(Resolve(stack, segs, abs), abs)
    decreases |segs|
  {
    if segs != [] {
      PushCanonical(stack, segs[0], abs);
      ResolveCanonical(Push(stack, segs[0], abs), segs[1..], abs);
    }
  }

  lemma {:induction false} ResolveAppend(stack: seq<string>, a: seq<string>, b: seq<string>, abs: bool)
    ensures Resolve(stack, a + b, abs) == Resolve(Resolve(stack, a, abs), b, abs)
    decreases |a|
  {
    if a == [] {
      assert a + b == b;
    } else {
      assert (a + b)[1..] == a[1..] + b;
      ResolveAppend(Push(stack, a[0], abs), a[1..], b, abs);
    }
  }

  /** Replaying a canonical stack from any of its prefixes rebuilds it. */
  lemma {:induction false} ResolveCanonicalIdentity(s: seq<string>, i: nat, abs: bool)
    requires Canonical(s, abs) && i <= |s|
    ensures Resolve(s[..i], s[i..], abs) == s
    decreases |s| - i
  {
    if i == |s| {
      assert s[..i] == s;
    } else {
      assert s[i] == ".." ==> i == 0 || s[i - 1] == "..";
      assert Push(s[..i], s[i], abs) == s[..i + 1];
      assert s[i..][1..] == s[i + 1..];
      ResolveCanonicalIdentity(s, i + 1, abs);
    }
  }

  // ---------------------------------------------------------------------------
  // path.normalize, path.join, path.extname

  /**
   * `path.normalize(p)`: "." for the empty path; otherwise the resolved
   * segments, with the leading `/` of an absolute path and the trailing `/`
   * of the input kept.
   */
  function Normalize(p: string): (r: string)
    ensures r != []
  {
    if p == [] then "."
    else
      var abs := p[0] == '/';
      var trailing := p[|p| - 1] == '/';
      var body := JoinSegs(Resolve([], Split(p), abs));
      if body == [] then (if abs then "/" else if trailing then "./" else ".")
      else
        var tail := if trailing then body + "/" else body;
        if abs then "/" + tail else tail
  }

  /** The segments `Normalize` keeps, which form a canonical stack. */
  lemma NormalizeSegments(p: string)
    requires p != []
    ensures Canonical(Resolve([], Split(p), p[0] == '/'), p[0] == '/')
  {
    SplitSlashless(p);
    ResolveCanonical([], Split(p), p[0] == '/');
  }

  /** Normalizing keeps a path absolute or relative. */
  lemma NormalizeAbsolute(p: string)
    ensures var r := Normalize(p); (r[0] == '/') <==> (p != [] && p[0] == '/')
  {
    if p != [] {
      var segs := Resolve([], Split(p), p[0] == '/');
      NormalizeSegments(p);
      if segs != [] {
        JoinSegsEnds(segs);
      }
    }
  }

  /** The three results with no segment left are fixed points. */
  lemma NormalizeBare(q: string)
    requires q == "/" || q == "./" || q == "."
    ensures Normalize(q) == q
  {
    SplitNoSlash(".");
    SplitNoSlash([]);
    if q == "." {
      assert Resolve([], ["."], false) == [];
    } else if q == "/" {
      assert q == "/" + [];
      SplitLeading([]);
      assert Resolve([], [[], []], true) == [];
    } else {
      assert q == "." + "/";
      SplitTrailing(".");
      assert Resolve([], [".", []], false) == [];
    }
  }

  /** A `/` at the end adds one empty segment. */
  lemma SplitTrailing(b: string)
    ensures Split(b + "/") == Split(b) + [[]]
  {
    assert b + "/" == b + "/" + [];
    SplitAround(b, []);
    SplitNoSlash([]);
  }

  /** A `/` in front adds one empty segment. */
  lemma SplitLeading(b: string)
    ensures Split("/" + b) == [[]] + Split(b)
  {
    assert "/" + b == [] + "/" + b;
    SplitSlash([], b);
  }

  /** A path written from segments, with a leading `/` when absolute and a trailing one when asked. */
  function Written(segs: seq<string>, abs: bool, trailing: bool): string
  {
    var body := JoinSegs(segs);
    var tail := if trailing then body + "/" else body;
    if abs then "/" + tail else tail
  }

  /** The segments of a written path: an empty one for each end that carries a `/`. */
  function Marked(segs: seq<string>, abs: bool, trailing: bool): seq<string>
  {
    var tail := if trailing then segs + [[]] else segs;
    if abs then [[]] + tail else tail
  }

  /** The text of a normalized path split again: its segments, with the marks of its two ends. */
  lemma SplitNormalized(segs: seq<string>, abs: bool, trailing: bool)
    requires |segs| >= 1 && Slashless(segs)
    ensures Split(Written(segs, abs, trailing)) == Marked(segs, abs, trailing)
  {
    var b := JoinSegs(segs);
    var tail := if trailing then b + "/" else b;
    SplitJoinSegs(segs);
    if trailing {
      SplitTrailing(b);
    }
    if abs {
      SplitLeading(tail);
    }
  }

  /** Replaying the split text of a normalized path gives its segments back. */
  lemma ResolveNormalized(segs: seq<string>, abs: bool, trailing: bool)
    requires Canonical(segs, abs)
    ensures Resolve([], Marked(segs, abs, trailing), abs) == segs
  {
    var tail := if trailing then segs + [[]] else segs;
    ResolveCanonicalIdentity(segs, 0, abs);
    assert segs[..0] == [] && segs[0..] == segs;
    assert Resolve([], tail, abs) == segs by {
      if trailing {
        ResolveAppend([], segs, [[]], abs);
      }
    }
    if abs {
      assert ([[]] + tail)[1..] == tail;
    }
  }

  /** A path written from canonical segments is its own normal form. */
  lemma NormalizeWritten(segs: seq<string>, abs: bool, trailing: bool)
    requires |segs| >= 1 && Canonical(segs, abs)
    ensures Normalize(Written(segs, abs, trailing)) == Written(segs, abs, trailing)
  {
    var b := JoinSegs(segs);
    var q := Written(segs, abs, trailing);
    JoinSegsEnds(segs);
    assert q[0] == (if abs then '/' else b[0]);
    assert q[|q| - 1] == (if trailing then '/' else b[|b| - 1]);
    SplitNormalized(segs, abs, trailing);
    ResolveNormalized(segs, abs, trailing);
  }

  /** Normalizing twice is normalizing once. */
  lemma NormalizeIdempotent(p: string)
    ensures Normalize(Normalize(p)) == Normalize(p)
  {
    if p == [] {
      NormalizeBare(Normalize(p));
    } else {
      var abs := p[0] == '/';
      var segs := Resolve([], Split(p), abs);
      NormalizeSegments(p);
      if segs == [] {
        NormalizeBare(Normalize(p));
      } else {
        NormalizeWritten(segs, abs, p[|p| - 1] == '/');
      }
    }
  }

  /** `path.join(a, b)`: the non-empty arguments joined with `/` and normalized; "." when both are empty. */
  function JoinPaths(a: string, b: string): (r: string)
    ensures r != []
  {
    var joined := if a == [] then b else if b == [] then a else a + "/" + b;
    if joined == [] then "." else Normalize(joined)
  }

  /** The path with its trailing slashes removed. */
  function TrimTrailingSlashes(p: string): (r: string)
    ensures |r| <= |p| && r == p[..|r|]
    ensures r == [] || r[|r| - 1] != '/'
    decreases |p|
  {
    if p != [] && p[|p| - 1] == '/' then TrimTrailingSlashes(p[..|p| - 1]) else p
  }

  /** Index of the last `c` in `s`, or -1. */
  function LastIndex(s: string, c: char): (i: int)
    ensures -1 <= i < |s|
    ensures i >= 0 ==> s[i] == c
    ensures forall k :: i < k < |s| ==> s[k] != c
    decreases |s|
  {
    if s == [] then -1
    else if s[|s| - 1] == c then |s| - 1
    else LastIndex(s[..|s| - 1], c)
  }

  /** The text after the last `/`. */
  function AfterLastSlash(s: string): (r: string)
    ensures Lacks(r, '/')
  {
    s[LastIndex(s, '/') + 1..]
  }

  /** The last component of `p`, trailing slashes ignored. */
  function Basename(p: string): string
  {
    AfterLastSlash(TrimTrailingSlashes(p))
  }

  /**
   * `path.extname(p)`: from the last `.` of the last component to its end;
   * empty when the component has no `.`, starts with its only `.` (`.bashrc`)
   * or is `..`.
   */
  function ExtName(p: string): (r: string)
    ensures r == [] || (r[0] == '.' && Lacks(r[1..], '.') && Lacks(r, '/'))
  {
    var b := Basename(p);
    var d := LastIndex(b, '.');
    if d <= 0 || b == ".." then []
    else
      b[d..]
  }

  lemma AfterLastSlashAppend(s: string, t: string)
    requires Lacks(t, '/')
    ensures AfterLastSlash(s + t) == AfterLastSlash(s) + t
  {
    var u := s + t;
    var i := LastIndex(s, '/');
    var j := LastIndex(u, '/');
    assert forall k :: 0 <= k < |s| ==> u[k] == s[k];
    assert forall k :: |s| <= k < |u| ==> u[k] == t[k - |s|];
    assert j == i;
    assert u[i + 1..] == s[i + 1..] + t;
  }

  lemma LastDotAppend(s: string, x: string)
    requires Lacks(x, '.')
    ensures LastIndex(s + "." + x, '.') == |s|
  {
    var b := s + "." + x;
    var d := LastIndex(b, '.');
    assert b[|s|] == '.';
    assert d == |s|;
  }

  /**
   * Appending `"." + x` to a path whose last character is not `/` gives it the
   * extension `"." + x`: the reason `normalizeTemplatePath` appends
   * `templateExt` when `extname` finds none.
   */
  lemma ExtAppended(p: string, x: string)
    requires p != [] && p[|p| - 1] != '/'
    requires x != [] && Lacks(x, '.') && Lacks(x, '/')
    ensures ExtName(p + ("." + x)) == "." + x
  {
    var q := p + ("." + x);
    assert q[|q| - 1] == x[|x| - 1];
    assert TrimTrailingSlashes(q) == q;
    AfterLastSlashAppend(p, "." + x);
    var a := AfterLastSlash(p);
    assert a != [] by {
      assert AfterLastSlash(p) == AfterLastSlash(p[..|p| - 1]) + [p[|p| - 1]];
    }
    var b := a + ("." + x);
    assert Basename(q) == b;
    assert b == a + "." + x;
    LastDotAppend(a, x);
    assert |b| >= 3;
    assert b[|a|..] == "." + x;
  }

  /**
   * A last component that is the bare extension, as `"foo/" + ".garnet"`
   * writes it, is a dot-file with no extension of its own, so the extension
   * would be appended once more.
   */
  lemma DotFileHasNoExt(dir: string, x: string)
    requires Lacks(x, '.') && Lacks(x, '/') && x != []
    ensures ExtName(dir + "/" + ("." + x)) == []
  {
    var p := dir + "/" + ("." + x);
    assert p[|p| - 1] == x[|x| - 1];
    assert TrimTrailingSlashes(p) == p;
    AfterLastSlashAppend(dir + "/", "." + x);
    assert LastIndex(dir + "/", '/') == |dir|;
    assert AfterLastSlash(dir + "/") == [];
    LastDotAppend([], x);
    assert [] + "." + x == "." + x;
  }

  // ---------------------------------------------------------------------------
  // The last segment through join and normalize

  /** A segment `normalize` neither drops nor cancels. */
  predicate PlainSegment(s: string)
  {
    s != [] && s != "." && s != ".."
  }

  lemma AfterSlashless(s: string)
    requires Lacks(s, '/')
    ensures AfterLastSlash(s) == s
  {
    assert LastIndex(s, '/') == -1;
    assert s[0..] == s;
  }

  /** What precedes a `/` at `i` does not reach the text after the last `/`. */
  lemma AfterSlashAt(u: string, i: nat)
    requires i < |u| && u[i] == '/'
    ensures AfterLastSlash(u) == AfterLastSlash(u[i + 1..])
  {
    var w := u[i + 1..];
    var j := LastIndex(w, '/');
    var k := i + 1 + j;
    if j >= 0 {
      assert u[k] == w[j];
    }
    forall m | k < m < |u|
      ensures u[m] != '/'
    {
      assert u[m] == w[m - i - 1];
    }
    LastIndexIs(u, '/', k);
    assert u[k + 1..] == w[j + 1..];
  }

  lemma AfterSlash(x: string, w: string)
    ensures AfterLastSlash(x + "/" + w) == AfterLastSlash(w)
  {
    var u := x + "/" + w;
    AfterSlashAt(u, |x|);
    assert u[|x| + 1..] == w;
  }

  /** An index holding `c` with no `c` after it, or -1 with no `c` at all, is the last index of `c`. */
  lemma LastIndexIs(s: string, c: char, k: int)
    requires -1 <= k < |s| && (k >= 0 ==> s[k] == c)
    requires forall m :: k < m < |s| ==> s[m] != c
    ensures LastIndex(s, c) == k
  {
    var i := LastIndex(s, c);
    assert i >= k by {
      assert k >= 0 ==> s[k] == c;
    }
  }

  /** The last segment of a split is the text after the last `/`. */
  lemma {:induction false} LastSegment(q: string)
    ensures Split(q)[|Split(q)| - 1] == AfterLastSlash(q)
    decreases |q|
  {
    var i := FirstSlash(q);
    if i == |q| {
      assert Split(q) == [q];
      AfterSlashless(q);
    } else {
      var rest := q[i + 1..];
      LastSegment(rest);
      assert Split(q) == [q[..i]] + Split(rest);
      AfterSlashAt(q, i);
    }
  }

  /** Slashless segments written out end with the last of them. */
  lemma {:induction false} JoinSegsLast(segs: seq<string>)
    requires |segs| >= 1 && Slashless(segs)
    ensures AfterLastSlash(JoinSegs(segs)) == segs[|segs| - 1]
    decreases |segs|
  {
    if |segs| == 1 {
      AfterSlashless(segs[0]);
    } else {
      JoinSegsLast(segs[1..]);
      AfterSlash(segs[0], JoinSegs(segs[1..]));
    }
  }

  /** A plain last segment is pushed and stays on top of the stack. */
  lemma ResolveKeepsLast(segs: seq<string>, abs: bool)
    requires |segs| >= 1 && PlainSegment(segs[|segs| - 1])
    ensures var r := Resolve([], segs, abs); |r| >= 1 && r[|r| - 1] == segs[|segs| - 1]
  {
    var n := |segs|;
    ResolveAppend([], segs[..n - 1], [segs[n - 1]], abs);
    assert segs[..n - 1] + [segs[n - 1]] == segs;
    assert [segs[n - 1]][1..] == [];
  }

  /** Text after the last `/` is non-empty only when the path does not end with `/`. */
  lemma LastNotSlash(x: string)
    requires AfterLastSlash(x) != []
    ensures x != [] && x[|x| - 1] != '/'
  {
  }

  /** Where the path does not end with `/`, its basename is the text after the last `/`. */
  lemma BasenameUntrimmed(x: string)
    requires x != [] && x[|x| - 1] != '/'
    ensures Basename(x) == AfterLastSlash(x) && AfterLastSlash(x) != []
  {
    assert TrimTrailingSlashes(x) == x;
    assert LastIndex(x, '/') < |x| - 1;
  }

  /** The segments `normalize` keeps from a path with a plain last segment end with it. */
  lemma ResolvedBodyLast(q: string)
    requires PlainSegment(AfterLastSlash(q))
    ensures q != [] && q[|q| - 1] != '/'
    ensures var body := JoinSegs(Resolve([], Split(q), q[0] == '/'));
            body != [] && AfterLastSlash(body) == AfterLastSlash(q)
  {
    LastNotSlash(q);
    var segs := Resolve([], Split(q), q[0] == '/');
    LastSegment(q);
    ResolveKeepsLast(Split(q), q[0] == '/');
    NormalizeSegments(q);
    JoinSegsLast(segs);
  }

  /** `normalize` keeps a plain last segment. */
  lemma NormalizeKeepsLast(q: string)
    requires PlainSegment(AfterLastSlash(q))
    ensures AfterLastSlash(Normalize(q)) == AfterLastSlash(q)
  {
    ResolvedBodyLast(q);
    var abs := q[0] == '/';
    var body := JoinSegs(Resolve([], Split(q), abs));
    assert Normalize(q) == if abs then "/" + body else body;
    if abs {
      AfterSlashAt("/" + body, 0);
      assert ("/" + body)[1..] == body;
    }
  }

  /** `path.join` of a directory and a relative path with a plain last segment ends with that segment. */
  lemma JoinKeepsLast(dir: string, w: string)
    requires w != [] && PlainSegment(AfterLastSlash(w))
    ensures AfterLastSlash(JoinPaths(dir, w)) == AfterLastSlash(w)
  {
    var joined := if dir == [] then w else dir + "/" + w;
    if dir != [] {
      AfterSlash(dir, w);
    }
    NormalizeKeepsLast(joined);
  }

  /** Two paths that end with the same non-empty segment have the same extension. */
  lemma SameLastSameExt(a: string, b: string)
    requires AfterLastSlash(a) == AfterLastSlash(b) != []
    ensures ExtName(a) == ExtName(b)
  {
    LastNotSlash(a);
    BasenameUntrimmed(a);
    LastNotSlash(b);
    BasenameUntrimmed(b);
  }

  /**
   * Resolving a path with a plain last segment against any directory, or
   * leaving it as it is when absolute, and normalizing keeps its extension.
   */
  lemma ResolvedKeepsExt(dir: string, w: string)
    requires w != [] && PlainSegment(AfterLastSlash(w))
    ensures var absolute := if w[0] != '/' then JoinPaths(dir, w) else w;
            ExtName(Normalize(absolute)) == ExtName(w)
  {
    var absolute := if w[0] != '/' then JoinPaths(dir, w) else w;
    if w[0] != '/' {
      JoinKeepsLast(dir, w);
    }
    NormalizeKeepsLast(absolute);
    SameLastSameExt(Normalize(absolute), w);
  }

  // ---------------------------------------------------------------------------
  // normalizeTemplatePath

  /**
   * garnet.js:12-33: append `templateExt` when the path has no extension,
   * resolve a path not starting with `/` against `currentDir` (`templateDir`
   * when none is given), then normalize.
   */
  function NormalizeTemplatePath(templatePath: string, currentDir: Option<string>,
                                 templateDir: string, templateExt: string): (r: string)
    ensures r != []
    ensures IsAbsolute(BaseDir(currentDir, templateDir)) ==> IsAbsolute(r)
    ensures IsAbsolute(templatePath) ==> IsAbsolute(r)
  {
    var withExt := if ExtName(templatePath) == [] then templatePath + templateExt else templatePath;
    var dir := if currentDir.None? then templateDir else currentDir.value;
    var absolute := if withExt == [] || withExt[0] != '/' then JoinPaths(dir, withExt) else withExt;
    ResolvedAbsolute(dir, withExt);
    Normalize(absolute)
  }

  /** A path resolved against an absolute directory, or absolute already, stays absolute once normalized. */
  lemma ResolvedAbsolute(dir: string, withExt: string)
    ensures var absolute := if withExt == [] || withExt[0] != '/' then JoinPaths(dir, withExt) else withExt;
            IsAbsolute(dir) || IsAbsolute(withExt) ==> IsAbsolute(Normalize(absolute))
  {
    if withExt == [] || withExt[0] != '/' {
      var joined := if withExt == [] then dir else dir + "/" + withExt;
      NormalizeAbsolute(joined);
      NormalizeAbsolute(Normalize(joined));
    } else {
      NormalizeAbsolute(withExt);
    }
  }

  /** The directory a relative template path is resolved against. */
  function BaseDir(currentDir: Option<string>, templateDir: string): string
  {
    if currentDir.None? then templateDir else currentDir.value
  }

  predicate IsAbsolute(p: string)
  {
    p != [] && p[0] == '/'
  }

  /**
   * A path that already has an extension gets none appended, so `templateExt`
   * plays no part, and the extension survives resolution and normalization.
   */
  lemma ExistingExtKept(p: string, currentDir: Option<string>, templateDir: string, x: string, y: string)
    requires ExtName(p) != []
    ensures NormalizeTemplatePath(p, currentDir, templateDir, x) == NormalizeTemplatePath(p, currentDir, templateDir, y)
    ensures p != [] && p[|p| - 1] != '/' ==> ExtName(NormalizeTemplatePath(p, currentDir, templateDir, x)) == ExtName(p)
  {
    var dir := BaseDir(currentDir, templateDir);
    var resolved := Normalize(if p == [] || p[0] != '/' then JoinPaths(dir, p) else p);
    assert NormalizeTemplatePath(p, currentDir, templateDir, x) == resolved;
    assert NormalizeTemplatePath(p, currentDir, templateDir, y) == resolved;
    if p != [] && p[|p| - 1] != '/' {
      ExtPlain(p);
      ResolvedKeepsExt(BaseDir(currentDir, templateDir), p);
    }
  }

  /** A path that has an extension and does not end with `/` ends with a plain segment. */
  lemma ExtPlain(p: string)
    requires p != [] && p[|p| - 1] != '/' && ExtName(p) != []
    ensures PlainSegment(AfterLastSlash(p))
  {
    BasenameUntrimmed(p);
    var b := AfterLastSlash(p);
    if b == "." {
      LastIndexIs(b, '.', 0);
    }
  }

  /**
   * A path with no extension, whose last character is not `/`, leaves with
   * the extension `"." + y` appended, whatever directory it is resolved against.
   */
  lemma ExtensionAppended(p: string, currentDir: Option<string>, templateDir: string, y: string)
    requires p != [] && p[|p| - 1] != '/' && ExtName(p) == []
    requires y != [] && Lacks(y, '.') && Lacks(y, '/')
    ensures ExtName(NormalizeTemplatePath(p, currentDir, templateDir, "." + y)) == "." + y
  {
    var w := p + ("." + y);
    ExtAppended(p, y);
    AfterLastSlashAppend(p, "." + y);
    var last := AfterLastSlash(w);
    assert last[|last| - 1] == y[|y| - 1];
    ResolvedKeepsExt(BaseDir(currentDir, templateDir), w);
  }

  /** An absolute, normalized path with an extension is left as it is, whatever the directories. */
  lemma TemplatePathFixpoint(p: string, currentDir: Option<string>, templateDir: string, templateExt: string)
    requires IsAbsolute(p) && Normalize(p) == p && ExtName(p) != []
    ensures NormalizeTemplatePath(p, currentDir, templateDir, templateExt) == p
  {
  }

  /**
   * Normalizing a normalized template path again changes nothing once it has
   * an extension: `render` hands `compile` a normalized path, which `compile`
   * normalizes again, and finds the same cache key.
   */
  lemma TemplatePathStable(templatePath: string, currentDir: Option<string>, otherDir: Option<string>,
                           templateDir: string, templateExt: string)
    requires IsAbsolute(BaseDir(currentDir, templateDir))
    requires ExtName(NormalizeTemplatePath(templatePath, currentDir, templateDir, templateExt)) != []
    ensures var p := NormalizeTemplatePath(templatePath, currentDir, templateDir, templateExt);
            NormalizeTemplatePath(p, otherDir, templateDir, templateExt) == p
  {
    var p := NormalizeTemplatePath(templatePath, currentDir, templateDir, templateExt);
    var withExt := if ExtName(templatePath) == [] then templatePath + templateExt else templatePath;
    var dir := BaseDir(currentDir, templateDir);
    var absolute := if withExt == [] || withExt[0] != '/' then JoinPaths(dir, withExt) else withExt;
    NormalizeIdempotent(absolute);
    TemplatePathFixpoint(p, otherDir, templateDir, templateExt);
  }
}
