/** uri.join: joins path fragments into one path. Empty fragments are
    dropped; each fragment loses one trailing slash (all but the last) and
    one leading slash (all but the first) when that slash stands alone;
    fragments are cut at their lone inner slashes; "." segments are dropped
    and ".." segments pop the previous one; the segments are glued with "/"
    unless a slash is already there. */
module Uri {
  import opened Strings

  // ---------------------------------------------------------------------
  // The three slash patterns, as index predicates
  // ---------------------------------------------------------------------

  /** leftSlash: a "/" at the start that a non-slash follows. */
  predicate LeftSlashAt(s: string)
  {
    |s| >= 2 && s[0] == '/' && s[1] != '/'
  }

  /** rightSlash: a "/" at the end that a non-slash precedes. */
  predicate RightSlashAt(s: string)
  {
    |s| >= 2 && s[|s| - 1] == '/' && s[|s| - 2] != '/'
  }

  /** innerSlash: a "/" at i with a non-slash on both sides. */
  predicate InnerSlashAt(s: string, i: int)
  {
    0 < i < |s| - 1 && s[i] == '/' && s[i - 1] != '/' && s[i + 1] != '/'
  }

  /** replace(leftSlash, ""): drops a lone leading slash, nothing else. */
  function StripLeft(s: string): (r: string)
    ensures LeftSlashAt(s) ==> s == "/" + r && |r| > 0 && r[0] != '/'
    ensures !LeftSlashAt(s) ==> r == s
  {
    if LeftSlashAt(s) then s[1..] else s
  }

  /** replace(rightSlash, ""): drops a lone trailing slash, nothing else. */
  function StripRight(s: string): (r: string)
    ensures RightSlashAt(s) ==> s == r + "/" && |r| > 0 && r[|r| - 1] != '/'
    ensures !RightSlashAt(s) ==> r == s
  {
    if RightSlashAt(s) then s[..|s| - 1] else s
  }

  /** A "//" run at either end, or a lone "/", is never stripped. */
  lemma StripKeepsSlashRuns(s: string)
    ensures |s| >= 2 && s[0] == '/' && s[1] == '/' ==> StripLeft(s) == s
    ensures |s| >= 2 && s[|s| - 1] == '/' && s[|s| - 2] == '/' ==> StripRight(s) == s
    ensures StripLeft("/") == "/" && StripRight("/") == "/"
  {
  }

  // ---------------------------------------------------------------------
  // split(innerSlash)
  // ---------------------------------------------------------------------

  /** The pieces of s cut at every inner slash; the scan has passed the
      indices below i without finding one. */
  function SplitFrom(s: string, i: nat): (pieces: seq<string>)
    ensures |pieces| > 0
    decreases |s|, |s| - i
  {
    if i >= |s| then [s]
    else if InnerSlashAt(s, i) then [s[..i]] + SplitFrom(s[i + 1..], 0)
    else SplitFrom(s, i + 1)
  }

  function Split(s: string): (pieces: seq<string>)
    ensures |pieces| > 0
  {
    SplitFrom(s, 0)
  }

  /** Cutting at the inner slashes loses nothing: the pieces joined with
      "/" give back s. */
  lemma {:induction false} SplitFromJoins(s: string, i: nat)
    ensures JoinWith(SplitFrom(s, i), "/") == s
    decreases |s|, |s| - i
  {
    if i >= |s| {
    } else if InnerSlashAt(s, i) {
      SplitFromJoins(s[i + 1..], 0);
      var rest := SplitFrom(s[i + 1..], 0);
      assert ([s[..i]] + rest)[1..] == rest;
      assert s == s[..i] + "/" + s[i + 1..];
    } else {
      SplitFromJoins(s, i + 1);
    }
  }

  /** Every piece of a non-empty string is non-empty, and no piece holds an
      inner slash of its own. */
  lemma {:induction false} SplitFromPieces(s: string, i: nat)
    requires forall j :: 0 <= j < i ==> !InnerSlashAt(s, j)
    requires |s| > 0
    ensures forall k :: 0 <= k < |SplitFrom(s, i)| ==> |SplitFrom(s, i)[k]| > 0
    ensures forall k, j :: 0 <= k < |SplitFrom(s, i)| ==> !InnerSlashAt(SplitFrom(s, i)[k], j)
    decreases |s|, |s| - i
  {
    var pieces := SplitFrom(s, i);
    if i >= |s| {
    } else if InnerSlashAt(s, i) {
      var t := s[i + 1..];
      SplitFromPieces(t, 0);
      var rest := SplitFrom(t, 0);
      assert pieces == [s[..i]] + rest;
      forall j ensures !InnerSlashAt(s[..i], j)
      {
        if InnerSlashAt(s[..i], j) {
          assert InnerSlashAt(s, j);
        }
      }
      assert forall k :: 1 <= k < |pieces| ==> pieces[k] == rest[k - 1];
    } else {
      SplitFromPieces(s, i + 1);
    }
  }

  /** A cut never leaves a slash beside it: every piece but the last ends
      with a non-slash and every piece but the first starts with one. */
  lemma {:induction false} SplitFromEdges(s: string, i: nat)
    ensures forall k :: 0 <= k < |SplitFrom(s, i)| - 1 ==>
      |SplitFrom(s, i)[k]| > 0 && SplitFrom(s, i)[k][|SplitFrom(s, i)[k]| - 1] != '/'
    ensures forall k :: 0 < k < |SplitFrom(s, i)| ==>
      |SplitFrom(s, i)[k]| > 0 && SplitFrom(s, i)[k][0] != '/'
    decreases |s|, |s| - i
  {
    var pieces := SplitFrom(s, i);
    if i >= |s| {
    } else if InnerSlashAt(s, i) {
      var t := s[i + 1..];
      SplitFromEdges(t, 0);
      var rest := SplitFrom(t, 0);
      assert pieces == [s[..i]] + rest;
      assert rest[0] == SplitFrom(t, 0)[0];
      SplitFromHead(t);
      assert forall k :: 1 <= k < |pieces| ==> pieces[k] == rest[k - 1];
    } else {
      SplitFromEdges(s, i + 1);
    }
  }

  /** The first piece is a prefix of the string. */
  lemma {:induction false} SplitFromPrefix(s: string, i: nat)
    ensures StartsWith(s, SplitFrom(s, i)[0])
    decreases |s| - i
  {
    if i < |s| && !InnerSlashAt(s, i) {
      SplitFromPrefix(s, i + 1);
    }
  }

  /** The first piece of a string that does not start with a slash does
      not either. */
  lemma SplitFromHead(t: string)
    requires |t| > 0 && t[0] != '/'
    ensures |Split(t)[0]| > 0 && Split(t)[0][0] != '/'
  {
    SplitFromPrefix(t, 0);
    SplitFromNonEmptyHead(t, 0);
  }

  lemma {:induction false} SplitFromNonEmptyHead(s: string, i: nat)
    requires |s| > 0
    ensures |SplitFrom(s, i)[0]| > 0
    decreases |s| - i
  {
    if i < |s| && !InnerSlashAt(s, i) {
      SplitFromNonEmptyHead(s, i + 1);
    }
  }

  /** The scan passes over indices that hold no inner slash. */
  lemma {:induction false} SplitFromSkips(s: string, i: nat, j: nat)
    requires i <= j <= |s|
    requires forall k :: i <= k < j ==> !InnerSlashAt(s, k)
    ensures SplitFrom(s, i) == SplitFrom(s, j)
    decreases j - i
  {
    if i < j {
      SplitFromSkips(s, i + 1, j);
    }
  }

  /** A string with no inner slash is one piece. */
  lemma SplitWhole(s: string)
    requires forall k :: 0 <= k < |s| ==> !InnerSlashAt(s, k)
    ensures Split(s) == [s]
  {
    SplitFromSkips(s, 0, |s|);
  }

  /** The first inner slash cuts off the first piece. */
  lemma SplitCut(s: string, i: nat)
    requires InnerSlashAt(s, i)
    requires forall k :: 0 <= k < i ==> !InnerSlashAt(s, k)
    ensures Split(s) == [s[..i]] + Split(s[i + 1..])
  {
    SplitFromSkips(s, 0, i);
  }

  // ---------------------------------------------------------------------
  // filter, then map by position, then flat
  // ---------------------------------------------------------------------

  /** filter(path => path.length > 0). */
  function Fragments(paths: seq<string>): (fs: seq<string>)
    ensures forall k :: 0 <= k < |fs| ==> |fs[k]| > 0
    ensures |fs| <= |paths|
  {
    if |paths| == 0 then []
    else if |paths[0]| == 0 then Fragments(paths[1..])
    else [paths[0]] + Fragments(paths[1..])
  }

  lemma {:induction false} FragmentsAppend(a: seq<string>, b: seq<string>)
    ensures Fragments(a + b) == Fragments(a) + Fragments(b)
  {
    if |a| == 0 {
      assert a + b == b;
    } else {
      assert (a + b)[0] == a[0];
      assert (a + b)[1..] == a[1..] + b;
      FragmentsAppend(a[1..], b);
    }
  }

  /** The fragment at index of count: the first loses a lone right slash,
      the last a lone left slash, the others both (left first). A single
      fragment counts as the first. */
  function Prepare(f: string, index: nat, count: nat): (r: string)
    ensures |f| > 0 ==> |r| > 0
  {
    if index == 0 then StripRight(f)
    else if index == count - 1 then StripLeft(f)
    else StripRight(StripLeft(f))
  }

  /** Preparing drops at most one slash from each end: the first fragment
      keeps its start, the last one its end. */
  lemma PrepareKeepsEnds(f: string, index: nat, count: nat)
    ensures |f| - 2 <= |Prepare(f, index, count)| <= |f|
    ensures index == 0 ==> StartsWith(f, Prepare(f, index, count))
    ensures 0 < index && index == count - 1 ==> EndsWith(f, Prepare(f, index, count))
  {
  }

  /** map(...).flat() from the fragment at i onwards. */
  function SegmentsFrom(fs: seq<string>, i: nat): seq<string>
    decreases |fs| - i
  {
    if i >= |fs| then []
    else Split(Prepare(fs[i], i, |fs|)) + SegmentsFrom(fs, i + 1)
  }

  function Segments(fs: seq<string>): seq<string>
  {
    SegmentsFrom(fs, 0)
  }

  // ---------------------------------------------------------------------
  // Dot resolution
  // ---------------------------------------------------------------------

  predicate IsDot(seg: string) { seg == "." || seg == "/." || seg == "./" }
  predicate IsDotDot(seg: string) { seg == ".." || seg == "/.." || seg == "../" }
  predicate IsPlain(seg: string) { !IsDot(seg) && !IsDotDot(seg) }

  /** One step of the reduce: drop a "." form, pop on a ".." form (nothing
      happens on an empty stack), push anything else. */
  function Step(stack: seq<string>, seg: string): (r: seq<string>)
    ensures IsDot(seg) ==> r == stack
    ensures IsDotDot(seg) && |stack| > 0 ==> r == stack[..|stack| - 1]
    ensures IsDotDot(seg) && |stack| == 0 ==> r == []
    ensures IsPlain(seg) ==> r == stack + [seg]
  {
    if IsDot(seg) then stack
    else if IsDotDot(seg) then (if |stack| == 0 then stack else stack[..|stack| - 1])
    else stack + [seg]
  }

  /** The reduce over segs, starting from stack. */
  function ResolveFrom(stack: seq<string>, segs: seq<string>): (r: seq<string>)
    ensures |r| <= |stack| + |segs|
    decreases |segs|
  {
    if |segs| == 0 then stack else ResolveFrom(Step(stack, segs[0]), segs[1..])
  }

  function Resolve(segs: seq<string>): (r: seq<string>)
    ensures |r| <= |segs|
  {
    ResolveFrom([], segs)
  }

  /** The resolved stack holds no "." or ".." form. */
  lemma {:induction false} ResolveFromPlain(stack: seq<string>, segs: seq<string>)
    requires forall k :: 0 <= k < |stack| ==> IsPlain(stack[k])
    ensures forall k :: 0 <= k < |ResolveFrom(stack, segs)| ==> IsPlain(ResolveFrom(stack, segs)[k])
    decreases |segs|
  {
    if |segs| > 0 {
      var next := Step(stack, segs[0]);
      assert forall k :: 0 <= k < |next| ==> IsPlain(next[k]);
      ResolveFromPlain(next, segs[1..]);
    }
  }

  /** Segments with no "." or ".." form are pushed as they are. */
  lemma {:induction false} ResolveFromNoDots(stack: seq<string>, segs: seq<string>)
    requires forall k :: 0 <= k < |segs| ==> IsPlain(segs[k])
    ensures ResolveFrom(stack, segs) == stack + segs
    decreases |segs|
  {
    if |segs| > 0 {
      ResolveFromNoDots(stack + [segs[0]], segs[1..]);
      assert stack + [segs[0]] + segs[1..] == stack + segs;
    }
  }

  /** Resolution runs through a concatenation one part after the other. */
  lemma {:induction false} ResolveFromAppend(stack: seq<string>, a: seq<string>, b: seq<string>)
    ensures ResolveFrom(stack, a + b) == ResolveFrom(ResolveFrom(stack, a), b)
    decreases |a|
  {
    if |a| == 0 {
      assert a + b == b;
    } else {
      assert (a + b)[0] == a[0];
      assert (a + b)[1..] == a[1..] + b;
      ResolveFromAppend(Step(stack, a[0]), a[1..], b);
    }
  }

  /** A plain segment followed by a ".." form cancels out; a ".." form
      on an empty stack is dropped. */
  lemma ResolveCancels(stack: seq<string>, seg: string, up: string, rest: seq<string>)
    requires IsPlain(seg) && IsDotDot(up)
    ensures ResolveFrom(stack, [seg, up] + rest) == ResolveFrom(stack, rest)
    ensures ResolveFrom([], [up] + rest) == ResolveFrom([], rest)
  {
    assert ([seg, up] + rest)[1..] == [up] + rest;
    assert ([up] + rest)[1..] == rest;
    assert (stack + [seg])[..|stack|] == stack;
  }

  /** The loop version: the accumulator stack is pushed and popped in
      place. */
  method ResolveDots(segs: seq<string>) returns (stack: seq<string>)
    ensures stack == Resolve(segs)
  {
    stack := [];
    for i := 0 to |segs|
      invariant ResolveFrom(stack, segs[i..]) == Resolve(segs)
    {
      assert segs[i..][1..] == segs[i + 1..];
      var path := segs[i];
      if IsDot(path) {
      } else if IsDotDot(path) {
        if |stack| > 0 {
          stack := stack[..|stack| - 1];
        }
      } else {
        stack := stack + [path];
      }
    }
    assert segs[|segs|..] == [];
  }

  // ---------------------------------------------------------------------
  // Gluing
  // ---------------------------------------------------------------------

  /** path.endsWith("/") and segment.startsWith("/"). */
  predicate EndsWithSlash(s: string) { |s| > 0 && s[|s| - 1] == '/' }
  predicate StartsWithSlash(s: string) { |s| > 0 && s[0] == '/' }

  lemma SlashTests(s: string)
    ensures EndsWithSlash(s) <==> EndsWith(s, "/")
    ensures StartsWithSlash(s) <==> StartsWith(s, "/")
  {
    if |s| > 0 {
      assert EndsWith(s, "/") ==> s[|s| - 1] == s[|s| - 1..][0];
      assert StartsWith(s, "/") ==> s[0] == s[..1][0];
    }
  }

  /** One step of the final reduce: a "/" goes between the two only when
      the path so far is non-empty, does not end with "/" and the segment
      does not start with "/". */
  function GlueStep(path: string, seg: string): (r: string)
    ensures |path| == 0 ==> r == seg
    ensures |path| > 0 && (EndsWithSlash(path) || StartsWithSlash(seg)) ==> r == path + seg
    ensures |path| > 0 && !EndsWithSlash(path) && !StartsWithSlash(seg) ==> r == path + "/" + seg
  {
    if |path| == 0 then path + seg
    else if EndsWithSlash(path) || StartsWithSlash(seg) then path + seg
    else path + "/" + seg
  }

  function GlueFrom(path: string, segs: seq<string>): (r: string)
    ensures |r| >= |path|
    decreases |segs|
  {
    if |segs| == 0 then path else GlueFrom(GlueStep(path, segs[0]), segs[1..])
  }

  function Glue(segs: seq<string>): (r: string)
    ensures |segs| == 0 ==> r == ""
  {
    GlueFrom("", segs)
  }

  /** Gluing never drops a character: the path so far is a prefix. */
  lemma {:induction false} GlueFromExtends(path: string, segs: seq<string>)
    ensures StartsWith(GlueFrom(path, segs), path)
    decreases |segs|
  {
    if |segs| > 0 {
      var next := GlueStep(path, segs[0]);
      GlueFromExtends(next, segs[1..]);
      assert next[..|path|] == path;
    }
  }

  /** The glued path ends with the last segment, so a trailing slash there
      survives. */
  lemma {:induction false} GlueFromEndsWithLast(path: string, segs: seq<string>)
    requires |segs| > 0
    ensures EndsWith(GlueFrom(path, segs), segs[|segs| - 1])
    decreases |segs|
  {
    if |segs| == 1 {
      var r := GlueStep(path, segs[0]);
      assert GlueFrom(path, segs) == GlueFrom(r, []);
      assert r[|r| - |segs[0]|..] == segs[0];
    } else {
      GlueFromEndsWithLast(GlueStep(path, segs[0]), segs[1..]);
    }
  }

  /** Gluing pieces that no slash borders puts exactly one "/" between
      neighbours. */
  lemma {:induction false} GlueFromSlashFree(path: string, pieces: seq<string>)
    requires |path| > 0 && path[|path| - 1] != '/'
    requires |pieces| > 0
    requires forall k :: 0 <= k < |pieces| - 1 ==> |pieces[k]| > 0 && pieces[k][|pieces[k]| - 1] != '/'
    requires forall k :: 0 <= k < |pieces| ==> |pieces[k]| > 0 && pieces[k][0] != '/'
    ensures GlueFrom(path, pieces) == path + "/" + JoinWith(pieces, "/")
    decreases |pieces|
  {
    var next := GlueStep(path, pieces[0]);
    assert next == path + "/" + pieces[0];
    if |pieces| > 1 {
      GlueFromSlashFree(next, pieces[1..]);
      assert (path + "/" + pieces[0]) + "/" + JoinWith(pieces[1..], "/")
          == path + "/" + (pieces[0] + "/" + JoinWith(pieces[1..], "/"));
    }
  }

  /** Glued from the start, such pieces come out joined with "/". */
  lemma GlueSlashFree(pieces: seq<string>)
    requires |pieces| > 0
    requires forall k :: 0 <= k < |pieces| - 1 ==> |pieces[k]| > 0 && pieces[k][|pieces[k]| - 1] != '/'
    requires forall k :: 0 < k < |pieces| ==> |pieces[k]| > 0 && pieces[k][0] != '/'
    requires |pieces[0]| > 0
    ensures Glue(pieces) == JoinWith(pieces, "/")
  {
    var head := GlueStep("", pieces[0]);
    assert Glue(pieces) == GlueFrom(head, pieces[1..]);
    if |pieces| > 1 {
      GlueFromSlashFree(head, pieces[1..]);
      assert forall k :: 0 <= k < |pieces| - 1 ==> pieces[1..][k] == pieces[k + 1];
    } else {
      assert pieces[1..] == [];
    }
  }

  /** Gluing the pieces of a non-empty string gives the string back. */
  lemma GlueSplit(s: string)
    requires |s| > 0
    ensures Glue(Split(s)) == s
  {
    SplitFromJoins(s, 0);
    SplitFromPieces(s, 0);
    SplitFromEdges(s, 0);
    GlueSlashFree(Split(s));
  }

  // ---------------------------------------------------------------------
  // join
  // ---------------------------------------------------------------------

  /** What uri.join returns for the fragments paths. */
  function Joined(paths: seq<string>): (r: string)
    ensures |Fragments(paths)| == 0 ==> r == ""
  {
    Glue(Resolve(Segments(Fragments(paths))))
  }

  /** uri.join: filter, map and flat as expressions; the dot resolution
      pushes and pops a stack; the glue is a reduce. */
  method Join(paths: seq<string>) returns (r: string)
    ensures r == Joined(paths)
  {
    var fragments := Fragments(paths);
    var segments := Segments(fragments);
    var stack := ResolveDots(segments);
    r := Glue(stack);
  }

  /** Fragments of non-empty strings all pass the filter. */
  lemma {:induction false} FragmentsOfNonEmpty(paths: seq<string>)
    requires forall k :: 0 <= k < |paths| ==> |paths[k]| > 0
    ensures Fragments(paths) == paths
  {
    if |paths| > 0 {
      FragmentsOfNonEmpty(paths[1..]);
      assert paths == [paths[0]] + paths[1..];
    }
  }

  /** By position: a single fragment counts as the first and loses only a
      lone trailing slash. */
  lemma SegmentsOfOne(a: string)
    requires |a| > 0
    ensures Segments(Fragments([a])) == Split(StripRight(a))
  {
    FragmentsOfNonEmpty([a]);
    var pa := Split(StripRight(a));
    assert SegmentsFrom([a], 1) == [];
    assert Segments([a]) == pa + [];
    assert pa + [] == pa;
  }

  /** By position: the first of two loses a lone trailing slash, the last
      a lone leading slash. */
  lemma SegmentsOfTwo(a: string, b: string)
    requires |a| > 0 && |b| > 0
    ensures Segments(Fragments([a, b])) == Split(StripRight(a)) + Split(StripLeft(b))
  {
    var fs := [a, b];
    FragmentsOfNonEmpty(fs);
    var pa, pb := Split(StripRight(a)), Split(StripLeft(b));
    assert SegmentsFrom(fs, 2) == [];
    assert SegmentsFrom(fs, 1) == pb + [];
    assert pb + [] == pb;
    assert Segments(fs) == pa + pb;
  }

  /** By position: a middle fragment loses both lone end slashes. */
  lemma SegmentsOfThree(a: string, b: string, c: string)
    requires |a| > 0 && |b| > 0 && |c| > 0
    ensures Segments(Fragments([a, b, c]))
         == Split(StripRight(a)) + Split(StripRight(StripLeft(b))) + Split(StripLeft(c))
  {
    var fs := [a, b, c];
    FragmentsOfNonEmpty(fs);
    var pa, pb, pc := Split(StripRight(a)), Split(StripRight(StripLeft(b))), Split(StripLeft(c));
    assert SegmentsFrom(fs, 3) == [];
    assert SegmentsFrom(fs, 2) == pc + [];
    assert pc + [] == pc;
    assert SegmentsFrom(fs, 1) == pb + pc;
    assert Segments(fs) == pa + (pb + pc);
    assert pa + (pb + pc) == pa + pb + pc;
  }

  lemma SegmentsOfFour(a: string, b: string, c: string, d: string)
    requires |a| > 0 && |b| > 0 && |c| > 0 && |d| > 0
    ensures Segments(Fragments([a, b, c, d]))
         == Split(StripRight(a)) + Split(StripRight(StripLeft(b)))
          + Split(StripRight(StripLeft(c))) + Split(StripLeft(d))
  {
    var fs := [a, b, c, d];
    FragmentsOfNonEmpty(fs);
    var pa, pb := Split(StripRight(a)), Split(StripRight(StripLeft(b)));
    var pc, pd := Split(StripRight(StripLeft(c))), Split(StripLeft(d));
    assert SegmentsFrom(fs, 4) == [];
    assert SegmentsFrom(fs, 3) == pd + [];
    assert pd + [] == pd;
    assert SegmentsFrom(fs, 2) == pc + pd;
    assert SegmentsFrom(fs, 1) == pb + (pc + pd);
    assert Segments(fs) == pa + (pb + (pc + pd));
    assert pa + (pb + (pc + pd)) == pa + pb + pc + pd;
  }

  lemma JoinedOne(a: string)
    requires |a| > 0
    ensures Joined([a]) == Glue(Resolve(Split(StripRight(a))))
  {
    SegmentsOfOne(a);
  }

  lemma JoinedTwo(a: string, b: string)
    requires |a| > 0 && |b| > 0
    ensures Joined([a, b]) == Glue(Resolve(Split(StripRight(a)) + Split(StripLeft(b))))
  {
    SegmentsOfTwo(a, b);
  }

  lemma JoinedThree(a: string, b: string, c: string)
    requires |a| > 0 && |b| > 0 && |c| > 0
    ensures Joined([a, b, c]) == Glue(Resolve(
      Split(StripRight(a)) + Split(StripRight(StripLeft(b))) + Split(StripLeft(c))))
  {
    SegmentsOfThree(a, b, c);
  }

  lemma JoinedFour(a: string, b: string, c: string, d: string)
    requires |a| > 0 && |b| > 0 && |c| > 0 && |d| > 0
    ensures Joined([a, b, c, d]) == Glue(Resolve(
      Split(StripRight(a)) + Split(StripRight(StripLeft(b)))
      + Split(StripRight(StripLeft(c))) + Split(StripLeft(d))))
  {
    SegmentsOfFour(a, b, c, d);
  }

  /** Empty fragments are ignored wherever they stand. */
  lemma JoinedIgnoresEmpty(a: seq<string>, b: seq<string>)
    ensures Joined(a + [""] + b) == Joined(a + b)
  {
    FragmentsAppend(a + [""], b);
    FragmentsAppend(a, [""]);
    FragmentsAppend(a, b);
    assert Fragments([""]) == [];
    assert Fragments(a) + [] == Fragments(a);
  }

  /** Joining nothing, or only empty fragments, gives "". */
  lemma {:induction false} JoinedOfEmpties(paths: seq<string>)
    requires forall k :: 0 <= k < |paths| ==> paths[k] == ""
    ensures Joined(paths) == ""
  {
    EmptiesFilteredOut(paths);
  }

  lemma {:induction false} EmptiesFilteredOut(paths: seq<string>)
    requires forall k :: 0 <= k < |paths| ==> paths[k] == ""
    ensures Fragments(paths) == []
  {
    if |paths| > 0 {
      EmptiesFilteredOut(paths[1..]);
    }
  }

  /** A single fragment with no "." or ".." piece comes back with only its
      lone trailing slash removed. */
  lemma JoinedSingle(f: string)
    requires |f| > 0
    requires forall k :: 0 <= k < |Split(StripRight(f))| ==> IsPlain(Split(StripRight(f))[k])
    ensures Joined([f]) == StripRight(f)
  {
    var p := StripRight(f);
    assert Fragments([f]) == [f] by {
      assert [f][1..] == [];
    }
    assert Segments([f]) == Split(p) + SegmentsFrom([f], 1);
    assert Segments([f]) == Split(p);
    ResolveFromNoDots([], Split(p));
    assert Resolve(Split(p)) == Split(p);
    GlueSplit(p);
  }

  /** When the last segment is not a "." or ".." form, the joined path
      ends with it. */
  lemma JoinedEndsWithLastSegment(paths: seq<string>)
    requires |Segments(Fragments(paths))| > 0
    requires IsPlain(Segments(Fragments(paths))[|Segments(Fragments(paths))| - 1])
    ensures EndsWith(Joined(paths), Segments(Fragments(paths))[|Segments(Fragments(paths))| - 1])
  {
    var segs := Segments(Fragments(paths));
    var last := segs[|segs| - 1];
    assert segs == segs[..|segs| - 1] + [last];
    ResolveFromAppend([], segs[..|segs| - 1], [last]);
    var stack := Resolve(segs);
    assert stack == ResolveFrom([], segs[..|segs| - 1]) + [last];
    GlueFromEndsWithLast("", stack);
  }
}
