/** The input/output pairs of the join test suite and the documented
    examples, each worked through the stages of uri.join. */
module UriExamples {
  import opened Uri

  // Stage lemmas over arbitrary segments, which the worked examples below
  // instantiate.

  lemma ResolveOne(a: string)
    requires IsPlain(a)
    ensures Resolve([a]) == [a]
  {
    ResolveFromNoDots([], [a]);
  }

  lemma ResolveTwo(a: string, b: string)
    requires IsPlain(a) && IsPlain(b)
    ensures Resolve([a, b]) == [a, b]
  {
    ResolveFromNoDots([], [a, b]);
  }

  lemma ResolveThree(a: string, b: string, c: string)
    requires IsPlain(a) && IsPlain(b) && IsPlain(c)
    ensures Resolve([a, b, c]) == [a, b, c]
  {
    ResolveFromNoDots([], [a, b, c]);
  }

  /** A "." form between two plain segments is dropped. */
  lemma ResolveDropDot(a: string, d: string, b: string)
    requires IsPlain(a) && IsDot(d) && IsPlain(b)
    ensures Resolve([a, d, b]) == [a, b]
  {
    assert [a, d, b][1..] == [d, b] && [d, b][1..] == [b];
    assert Step([], a) == [a] && Step([a], d) == [a] && Step([a], b) == [a, b];
    assert ResolveFrom([], [a, d, b]) == ResolveFrom([a], [d, b]);
    assert ResolveFrom([a], [d, b]) == ResolveFrom([a], [b]);
    assert ResolveFrom([a], [b]) == ResolveFrom([a, b], []);
  }

  /** The first segment is pushed, and the rest resolved on top of it. */
  lemma ResolveFirst(a: string, rest: seq<string>)
    requires IsPlain(a)
    ensures Resolve([a] + rest) == ResolveFrom([a], rest)
  {
    assert ([a] + rest)[1..] == rest;
    assert Step([], a) == [a];
  }

  /** A ".." form right after a segment takes it off again. */
  lemma ResolvePopped(a: string, b: string, up: string, c: string)
    requires IsPlain(a) && IsPlain(b) && IsDotDot(up) && IsPlain(c)
    ensures Resolve([a, b, up, c]) == [a, c]
  {
    ResolveFirst(a, [b, up, c]);
    assert [b, up, c] == [b, up] + [c];
    ResolveCancels([a], b, up, [c]);
    ResolveFromNoDots([a], [c]);
  }

  lemma ResolveUpLast(a: string, b: string, up: string)
    requires IsPlain(a) && IsPlain(b) && IsDotDot(up)
    ensures Resolve([a, b, up]) == [a]
  {
    ResolveFirst(a, [b, up]);
    assert [b, up] == [b, up] + [];
    ResolveCancels([a], b, up, []);
  }

  lemma ResolveUpFirst(a: string, up: string, b: string)
    requires IsPlain(a) && IsDotDot(up) && IsPlain(b)
    ensures Resolve([a, up, b]) == [b]
  {
    assert [a, up, b] == [a, up] + [b];
    ResolveCancels([], a, up, [b]);
    ResolveOne(b);
  }

  /** A ".." form on the empty stack is dropped. */
  lemma ResolveUpOnEmpty(up: string, a: string)
    requires IsDotDot(up) && IsPlain(a)
    ensures Resolve([up, a]) == [a]
  {
    assert [up, a] == [up] + [a];
    ResolveCancels([], a, up, [a]);
    ResolveOne(a);
  }

  lemma ResolveUpTwice(a: string, b: string, up: string, c: string)
    requires IsPlain(a) && IsPlain(b) && IsDotDot(up) && IsPlain(c)
    ensures Resolve([a, b, up, up, c]) == [c]
  {
    ResolveFirst(a, [b, up, up, c]);
    assert [b, up, up, c] == [b, up] + [up, c] && [up, c] == [up] + [c];
    ResolveCancels([a], b, up, [up, c]);
    assert Step([a], up) == [];
    assert ResolveFrom([a], [up, c]) == ResolveFrom([], [c]);
    ResolveOne(c);
  }

  lemma ResolveUpPastEmpty(a: string, up: string, b: string)
    requires IsPlain(a) && IsDotDot(up) && IsPlain(b)
    ensures Resolve([a, up, up, b]) == [b]
  {
    assert [a, up, up, b] == [a, up] + [up, b] && [up, b] == [up] + [b];
    ResolveCancels([], a, up, [up, b]);
    ResolveCancels([], a, up, [b]);
    ResolveOne(b);
  }

  lemma GlueOne(a: string)
    ensures Glue([a]) == a
  {
    assert [a][1..] == [];
    assert GlueFrom("", [a]) == GlueFrom(GlueStep("", a), []);
  }

  /** Two segments without a slash at their joint are glued with one "/". */
  lemma GlueTwo(a: string, b: string)
    requires |a| > 0 && !EndsWithSlash(a) && !StartsWithSlash(b)
    ensures Glue([a, b]) == a + "/" + b
  {
    assert GlueFrom("", [a, b]) == GlueFrom(a, [b]);
    assert GlueFrom(a, [b]) == GlueFrom(a + "/" + b, []);
  }

  /** With a slash already at the joint, the two are concatenated. */
  lemma GlueTwoAtSlash(a: string, b: string)
    requires |a| > 0 && (EndsWithSlash(a) || StartsWithSlash(b))
    ensures Glue([a, b]) == a + b
  {
    assert GlueFrom("", [a, b]) == GlueFrom(a, [b]);
    assert GlueFrom(a, [b]) == GlueFrom(a + b, []);
  }

  lemma GlueThree(a: string, b: string, c: string)
    requires |a| > 0 && !EndsWithSlash(a) && |b| > 0 && b[0] != '/' && b[|b| - 1] != '/'
    requires !StartsWithSlash(c)
    ensures Glue([a, b, c]) == a + "/" + b + "/" + c
  {
    var ab := a + "/" + b;
    assert ab[|ab| - 1] == b[|b| - 1];
    assert GlueFrom("", [a, b, c]) == GlueFrom(a, [b, c]);
    assert GlueFrom(a, [b, c]) == GlueFrom(ab, [c]);
    assert GlueFrom(ab, [c]) == GlueFrom(ab + "/" + c, []);
  }

  lemma TrailingSlashOfLastKeptPieces()
    ensures Segments(Fragments(["a", "/b/"])) == ["a", "b/"]
  {
    SegmentsOfTwo("a", "/b/");
    assert StripRight("a") == "a";
    SplitWhole("a");
    assert StripLeft("/b/") == "b/";
    SplitWhole("b/");
  }

  lemma TrailingSlashOfLastKeptResolved()
    ensures Glue(Resolve(["a", "b/"])) == "a/b/"
  {
    ResolveTwo("a", "b/");
    GlueTwo("a", "b/");
    assert "a" + "/" + "b/" == "a/b/";
  }

  /** A trailing slash on the last fragment stays. */
  lemma TrailingSlashOfLastKept()
    ensures Joined(["a", "/b/"]) == "a/b/"
  {
    TrailingSlashOfLastKeptPieces();
    TrailingSlashOfLastKeptResolved();
  }

  lemma LeadingSlashOfFirstKeptPieces()
    ensures Segments(Fragments(["/a", "b"])) == ["/a", "b"]
  {
    SegmentsOfTwo("/a", "b");
    assert StripRight("/a") == "/a";
    SplitWhole("/a");
    assert StripLeft("b") == "b";
    SplitWhole("b");
  }

  lemma LeadingSlashOfFirstKeptResolved()
    ensures Glue(Resolve(["/a", "b"])) == "/a/b"
  {
    ResolveTwo("/a", "b");
    GlueTwo("/a", "b");
    assert "/a" + "/" + "b" == "/a/b";
  }

  /** A leading slash on the first fragment stays. */
  lemma LeadingSlashOfFirstKept()
    ensures Joined(["/a", "b"]) == "/a/b"
  {
    LeadingSlashOfFirstKeptPieces();
    LeadingSlashOfFirstKeptResolved();
  }

  lemma ProtocolRelativeHeadPieces()
    ensures Segments(Fragments(["//domain", "a/"])) == ["//domain", "a/"]
  {
    SegmentsOfTwo("//domain", "a/");
    assert StripRight("//domain") == "//domain";
    SplitWhole("//domain");
    assert StripLeft("a/") == "a/";
    SplitWhole("a/");
  }

  lemma ProtocolRelativeHeadResolved()
    ensures Glue(Resolve(["//domain", "a/"])) == "//domain/a/"
  {
    ResolveTwo("//domain", "a/");
    GlueTwo("//domain", "a/");
    assert "//domain" + "/" + "a/" == "//domain/a/";
  }

  /** A protocol-relative head stays. */
  lemma ProtocolRelativeHead()
    ensures Joined(["//domain", "a/"]) == "//domain/a/"
  {
    ProtocolRelativeHeadPieces();
    ProtocolRelativeHeadResolved();
  }

  lemma ProtocolRelativeHeadThreeFragmentsPieces()
    ensures Segments(Fragments(["//domain/", "/a/", "b"])) == ["//domain", "a", "b"]
  {
    SegmentsOfThree("//domain/", "/a/", "b");
    assert StripRight("//domain/") == "//domain";
    SplitWhole("//domain");
    assert StripRight(StripLeft("/a/")) == "a";
    SplitWhole("a");
    assert StripLeft("b") == "b";
    SplitWhole("b");
  }

  lemma ProtocolRelativeHeadThreeFragmentsResolved()
    ensures Glue(Resolve(["//domain", "a", "b"])) == "//domain/a/b"
  {
    ResolveThree("//domain", "a", "b");
    GlueThree("//domain", "a", "b");
    assert "//domain" + "/" + "a" + "/" + "b" == "//domain/a/b";
  }

  lemma ProtocolRelativeHeadThreeFragments()
    ensures Joined(["//domain/", "/a/", "b"]) == "//domain/a/b"
  {
    ProtocolRelativeHeadThreeFragmentsPieces();
    ProtocolRelativeHeadThreeFragmentsResolved();
  }

  lemma ThreePlainFragmentsPieces()
    ensures Segments(Fragments(["a", "b", "c"])) == ["a", "b", "c"]
  {
    SegmentsOfThree("a", "b", "c");
    assert StripRight("a") == "a";
    SplitWhole("a");
    assert StripRight(StripLeft("b")) == "b";
    SplitWhole("b");
    assert StripLeft("c") == "c";
    SplitWhole("c");
  }

  lemma ThreePlainFragmentsResolved()
    ensures Glue(Resolve(["a", "b", "c"])) == "a/b/c"
  {
    ResolveThree("a", "b", "c");
    GlueThree("a", "b", "c");
    assert "a" + "/" + "b" + "/" + "c" == "a/b/c";
  }

  lemma ThreePlainFragments()
    ensures Joined(["a", "b", "c"]) == "a/b/c"
  {
    ThreePlainFragmentsPieces();
    ThreePlainFragmentsResolved();
  }

  lemma TrailingSlashesDroppedPieces()
    ensures Segments(Fragments(["a/", "b/", "c"])) == ["a", "b", "c"]
  {
    SegmentsOfThree("a/", "b/", "c");
    assert StripRight("a/") == "a";
    SplitWhole("a");
    assert StripRight(StripLeft("b/")) == "b";
    SplitWhole("b");
    assert StripLeft("c") == "c";
    SplitWhole("c");
  }

  lemma TrailingSlashesDropped()
    ensures Joined(["a/", "b/", "c"]) == "a/b/c"
  {
    TrailingSlashesDroppedPieces();
    ThreePlainFragmentsResolved();
  }

  lemma SlashesOnBothSidesPieces()
    ensures Segments(Fragments(["/a/", "/b/", "/c"])) == ["/a", "b", "c"]
  {
    SegmentsOfThree("/a/", "/b/", "/c");
    assert StripRight("/a/") == "/a";
    SplitWhole("/a");
    assert StripRight(StripLeft("/b/")) == "b";
    SplitWhole("b");
    assert StripLeft("/c") == "c";
    SplitWhole("c");
  }

  lemma SlashesOnBothSidesResolved()
    ensures Glue(Resolve(["/a", "b", "c"])) == "/a/b/c"
  {
    ResolveThree("/a", "b", "c");
    GlueThree("/a", "b", "c");
    assert "/a" + "/" + "b" + "/" + "c" == "/a/b/c";
  }

  lemma SlashesOnBothSides()
    ensures Joined(["/a/", "/b/", "/c"]) == "/a/b/c"
  {
    SlashesOnBothSidesPieces();
    SlashesOnBothSidesResolved();
  }

  lemma DoubleSlashInsideKeptPieces()
    ensures Segments(Fragments(["a//b", "c"])) == ["a//b", "c"]
  {
    SegmentsOfTwo("a//b", "c");
    assert StripRight("a//b") == "a//b";
    SplitWhole("a//b");
    assert StripLeft("c") == "c";
    SplitWhole("c");
  }

  lemma DoubleSlashInsideKeptResolved()
    ensures Glue(Resolve(["a//b", "c"])) == "a//b/c"
  {
    ResolveTwo("a//b", "c");
    GlueTwo("a//b", "c");
    assert "a//b" + "/" + "c" == "a//b/c";
  }

  /** A slash run inside a fragment stays. */
  lemma DoubleSlashInsideKept()
    ensures Joined(["a//b", "c"]) == "a//b/c"
  {
    DoubleSlashInsideKeptPieces();
    DoubleSlashInsideKeptResolved();
  }

  lemma DoubleSlashHeadsKeptPieces()
    ensures Segments(Fragments(["//a", "//b"])) == ["//a", "//b"]
  {
    SegmentsOfTwo("//a", "//b");
    assert StripRight("//a") == "//a";
    SplitWhole("//a");
    assert StripLeft("//b") == "//b";
    SplitWhole("//b");
  }

  lemma DoubleSlashHeadsKeptResolved()
    ensures Glue(Resolve(["//a", "//b"])) == "//a//b"
  {
    ResolveTwo("//a", "//b");
    GlueTwoAtSlash("//a", "//b");
    assert "//a" + "//b" == "//a//b";
  }

  lemma DoubleSlashHeadsKept()
    ensures Joined(["//a", "//b"]) == "//a//b"
  {
    DoubleSlashHeadsKeptPieces();
    DoubleSlashHeadsKeptResolved();
  }

  lemma DotFragmentDroppedPieces()
    ensures Segments(Fragments(["a", ".", "b"])) == ["a", ".", "b"]
  {
    SegmentsOfThree("a", ".", "b");
    assert StripRight("a") == "a";
    SplitWhole("a");
    assert StripRight(StripLeft(".")) == ".";
    SplitWhole(".");
    assert StripLeft("b") == "b";
    SplitWhole("b");
  }

  lemma DotFragmentDroppedResolved()
    ensures Glue(Resolve(["a", ".", "b"])) == "a/b"
  {
    ResolveDropDot("a", ".", "b");
    GlueTwo("a", "b");
    assert "a" + "/" + "b" == "a/b";
  }

  lemma DotFragmentDropped()
    ensures Joined(["a", ".", "b"]) == "a/b"
  {
    DotFragmentDroppedPieces();
    DotFragmentDroppedResolved();
  }

  lemma DotPieceDroppedPieces()
    ensures Segments(Fragments(["a", "./b"])) == ["a", ".", "b"]
  {
    SegmentsOfTwo("a", "./b");
    assert StripRight("a") == "a";
    SplitWhole("a");
    assert StripLeft("./b") == "./b";
    assert "./b"[..1] == "." && "./b"[2..] == "b";
    SplitCut("./b", 1);
    SplitWhole("b");
  }

  lemma DotPieceDropped()
    ensures Joined(["a", "./b"]) == "a/b"
  {
    DotPieceDroppedPieces();
    DotFragmentDroppedResolved();
  }

  lemma DotDotPopsFragmentPieces()
    ensures Segments(Fragments(["a", "b", "..", "c"])) == ["a", "b", "..", "c"]
  {
    SegmentsOfFour("a", "b", "..", "c");
    assert StripRight("a") == "a";
    SplitWhole("a");
    assert StripRight(StripLeft("b")) == "b";
    SplitWhole("b");
    assert StripRight(StripLeft("..")) == "..";
    SplitWhole("..");
    assert StripLeft("c") == "c";
    SplitWhole("c");
  }

  lemma DotDotPopsFragmentResolved()
    ensures Glue(Resolve(["a", "b", "..", "c"])) == "a/c"
  {
    ResolvePopped("a", "b", "..", "c");
    GlueTwo("a", "c");
    assert "a" + "/" + "c" == "a/c";
  }

  lemma DotDotPopsFragment()
    ensures Joined(["a", "b", "..", "c"]) == "a/c"
  {
    DotDotPopsFragmentPieces();
    DotDotPopsFragmentResolved();
  }

  lemma DotDotPieceGoesUpPieces()
    ensures Segments(Fragments(["a", "../b"])) == ["a", "..", "b"]
  {
    SegmentsOfTwo("a", "../b");
    assert StripRight("a") == "a";
    SplitWhole("a");
    assert StripLeft("../b") == "../b";
    assert "../b"[..2] == ".." && "../b"[3..] == "b";
    SplitCut("../b", 2);
    SplitWhole("b");
  }

  lemma DotDotPieceGoesUpResolved()
    ensures Glue(Resolve(["a", "..", "b"])) == "b"
  {
    ResolveUpFirst("a", "..", "b");
    GlueOne("b");
  }

  lemma DotDotPieceGoesUp()
    ensures Joined(["a", "../b"]) == "b"
  {
    DotDotPieceGoesUpPieces();
    DotDotPieceGoesUpResolved();
  }

  lemma DotDotLastPieces()
    ensures Segments(Fragments(["/a", "b", ".."])) == ["/a", "b", ".."]
  {
    SegmentsOfThree("/a", "b", "..");
    assert StripRight("/a") == "/a";
    SplitWhole("/a");
    assert StripRight(StripLeft("b")) == "b";
    SplitWhole("b");
    assert StripLeft("..") == "..";
    SplitWhole("..");
  }

  lemma DotDotLastResolved()
    ensures Glue(Resolve(["/a", "b", ".."])) == "/a"
  {
    ResolveUpLast("/a", "b", "..");
    GlueOne("/a");
  }

  lemma DotDotLast()
    ensures Joined(["/a", "b", ".."]) == "/a"
  {
    DotDotLastPieces();
    DotDotLastResolved();
  }

  lemma TwoLevelsUpPieces()
    ensures Segments(Fragments(["a", "b", "../../c"])) == ["a", "b", "..", "..", "c"]
  {
    SegmentsOfThree("a", "b", "../../c");
    assert StripRight("a") == "a";
    SplitWhole("a");
    assert StripRight(StripLeft("b")) == "b";
    SplitWhole("b");
    assert StripLeft("../../c") == "../../c";
    assert "../../c"[..2] == ".." && "../../c"[3..] == "../c";
    SplitCut("../../c", 2);
    assert "../c"[..2] == ".." && "../c"[3..] == "c";
    SplitCut("../c", 2);
    SplitWhole("c");
  }

  lemma TwoLevelsUpResolved()
    ensures Glue(Resolve(["a", "b", "..", "..", "c"])) == "c"
  {
    ResolveUpTwice("a", "b", "..", "c");
    GlueOne("c");
  }

  lemma TwoLevelsUp()
    ensures Joined(["a", "b", "../../c"]) == "c"
  {
    TwoLevelsUpPieces();
    TwoLevelsUpResolved();
  }

  lemma DotDotOnEmptyStackPieces()
    ensures Segments(Fragments(["..", "a"])) == ["..", "a"]
  {
    SegmentsOfTwo("..", "a");
    assert StripRight("..") == "..";
    SplitWhole("..");
    assert StripLeft("a") == "a";
    SplitWhole("a");
  }

  lemma DotDotOnEmptyStackResolved()
    ensures Glue(Resolve(["..", "a"])) == "a"
  {
    ResolveUpOnEmpty("..", "a");
    GlueOne("a");
  }

  /** A ".." with nothing to pop is dropped. */
  lemma DotDotOnEmptyStack()
    ensures Joined(["..", "a"]) == "a"
  {
    DotDotOnEmptyStackPieces();
    DotDotOnEmptyStackResolved();
  }

  lemma DotDotTwiceOnOneSegmentPieces()
    ensures Segments(Fragments(["a", "..", "..", "b"])) == ["a", "..", "..", "b"]
  {
    SegmentsOfFour("a", "..", "..", "b");
    assert StripRight("a") == "a";
    SplitWhole("a");
    assert StripRight(StripLeft("..")) == "..";
    SplitWhole("..");
    assert StripRight(StripLeft("..")) == "..";
    SplitWhole("..");
    assert StripLeft("b") == "b";
    SplitWhole("b");
  }

  lemma DotDotTwiceOnOneSegmentResolved()
    ensures Glue(Resolve(["a", "..", "..", "b"])) == "b"
  {
    ResolveUpPastEmpty("a", "..", "b");
    GlueOne("b");
  }

  lemma DotDotTwiceOnOneSegment()
    ensures Joined(["a", "..", "..", "b"]) == "b"
  {
    DotDotTwiceOnOneSegmentPieces();
    DotDotTwiceOnOneSegmentResolved();
  }

  lemma RootedDotDotOnEmptyStackPieces()
    ensures Segments(Fragments(["/..", "a"])) == ["/..", "a"]
  {
    SegmentsOfTwo("/..", "a");
    assert StripRight("/..") == "/..";
    SplitWhole("/..");
    assert StripLeft("a") == "a";
    SplitWhole("a");
  }

  lemma RootedDotDotOnEmptyStackResolved()
    ensures Glue(Resolve(["/..", "a"])) == "a"
  {
    ResolveUpOnEmpty("/..", "a");
    GlueOne("a");
  }

  lemma RootedDotDotOnEmptyStack()
    ensures Joined(["/..", "a"]) == "a"
  {
    RootedDotDotOnEmptyStackPieces();
    RootedDotDotOnEmptyStackResolved();
  }

  lemma RootAlonePieces()
    ensures Segments(Fragments(["/"])) == ["/"]
  {
    SegmentsOfOne("/");
    assert StripRight("/") == "/";
    SplitWhole("/");
  }

  lemma RootAloneResolved()
    ensures Glue(Resolve(["/"])) == "/"
  {
    ResolveOne("/");
    GlueOne("/");
  }

  /** A lone "/" is never stripped. */
  lemma RootAlone()
    ensures Joined(["/"]) == "/"
  {
    RootAlonePieces();
    RootAloneResolved();
  }

  lemma RootThenSegmentPieces()
    ensures Segments(Fragments(["/", "a"])) == ["/", "a"]
  {
    SegmentsOfTwo("/", "a");
    assert StripRight("/") == "/";
    SplitWhole("/");
    assert StripLeft("a") == "a";
    SplitWhole("a");
  }

  lemma RootThenSegmentResolved()
    ensures Glue(Resolve(["/", "a"])) == "/a"
  {
    ResolveTwo("/", "a");
    GlueTwoAtSlash("/", "a");
    assert "/" + "a" == "/a";
  }

  lemma RootThenSegment()
    ensures Joined(["/", "a"]) == "/a"
  {
    RootThenSegmentPieces();
    RootThenSegmentResolved();
  }

  lemma SegmentThenRootPieces()
    ensures Segments(Fragments(["a", "/"])) == ["a", "/"]
  {
    SegmentsOfTwo("a", "/");
    assert StripRight("a") == "a";
    SplitWhole("a");
    assert StripLeft("/") == "/";
    SplitWhole("/");
  }

  lemma SegmentThenRootResolved()
    ensures Glue(Resolve(["a", "/"])) == "a/"
  {
    ResolveTwo("a", "/");
    GlueTwoAtSlash("a", "/");
    assert "a" + "/" == "a/";
  }

  lemma SegmentThenRoot()
    ensures Joined(["a", "/"]) == "a/"
  {
    SegmentThenRootPieces();
    SegmentThenRootResolved();
  }

  lemma HttpHeadKeptPieces()
    ensures Segments(Fragments(["http://a", "b"])) == ["http://a", "b"]
  {
    SegmentsOfTwo("http://a", "b");
    assert StripRight("http://a") == "http://a";
    SplitWhole("http://a");
    assert StripLeft("b") == "b";
    SplitWhole("b");
  }

  lemma HttpHeadKeptResolved()
    ensures Glue(Resolve(["http://a", "b"])) == "http://a/b"
  {
    ResolveTwo("http://a", "b");
    GlueTwo("http://a", "b");
    assert "http://a" + "/" + "b" == "http://a/b";
  }

  /** Protocol heads stay. */
  lemma HttpHeadKept()
    ensures Joined(["http://a", "b"]) == "http://a/b"
  {
    HttpHeadKeptPieces();
    HttpHeadKeptResolved();
  }

  lemma FileHeadKeptPieces()
    ensures Segments(Fragments(["file:///a", "b"])) == ["file:///a", "b"]
  {
    SegmentsOfTwo("file:///a", "b");
    assert StripRight("file:///a") == "file:///a";
    SplitWhole("file:///a");
    assert StripLeft("b") == "b";
    SplitWhole("b");
  }

  lemma FileHeadKeptResolved()
    ensures Glue(Resolve(["file:///a", "b"])) == "file:///a/b"
  {
    ResolveTwo("file:///a", "b");
    GlueTwo("file:///a", "b");
    assert "file:///a" + "/" + "b" == "file:///a/b";
  }

  lemma FileHeadKept()
    ensures Joined(["file:///a", "b"]) == "file:///a/b"
  {
    FileHeadKeptPieces();
    FileHeadKeptResolved();
  }

  lemma DocBasicJoinPieces()
    ensures Segments(Fragments(["/a/", "b", "/c"])) == ["/a", "b", "c"]
  {
    SegmentsOfThree("/a/", "b", "/c");
    assert StripRight("/a/") == "/a";
    SplitWhole("/a");
    assert StripRight(StripLeft("b")) == "b";
    SplitWhole("b");
    assert StripLeft("/c") == "c";
    SplitWhole("c");
  }

  /** Documented example: basic joining. */
  lemma DocBasicJoin()
    ensures Joined(["/a/", "b", "/c"]) == "/a/b/c"
  {
    DocBasicJoinPieces();
    SlashesOnBothSidesResolved();
  }

  lemma DocResolutionPieces()
    ensures Segments(Fragments(["/a/b/../c"])) == ["/a", "b", "..", "c"]
  {
    SegmentsOfOne("/a/b/../c");
    assert StripRight("/a/b/../c") == "/a/b/../c";
    assert "/a/b/../c"[..2] == "/a" && "/a/b/../c"[3..] == "b/../c";
    SplitCut("/a/b/../c", 2);
    assert "b/../c"[..1] == "b" && "b/../c"[2..] == "../c";
    SplitCut("b/../c", 1);
    assert "../c"[..2] == ".." && "../c"[3..] == "c";
    SplitCut("../c", 2);
    SplitWhole("c");
  }

  lemma DocResolutionResolved()
    ensures Glue(Resolve(["/a", "b", "..", "c"])) == "/a/c"
  {
    ResolvePopped("/a", "b", "..", "c");
    GlueTwo("/a", "c");
    assert "/a" + "/" + "c" == "/a/c";
  }

  /** Documented example: path resolution. */
  lemma DocResolution()
    ensures Joined(["/a/b/../c"]) == "/a/c"
  {
    DocResolutionPieces();
    DocResolutionResolved();
  }

  lemma DocProtocolHeadPieces()
    ensures Segments(Fragments(["http://example.com", "a"])) == ["http://example.com", "a"]
  {
    SegmentsOfTwo("http://example.com", "a");
    assert StripRight("http://example.com") == "http://example.com";
    SplitWhole("http://example.com");
    assert StripLeft("a") == "a";
    SplitWhole("a");
  }

  lemma DocProtocolHeadResolved()
    ensures Glue(Resolve(["http://example.com", "a"])) == "http://example.com/a"
  {
    ResolveTwo("http://example.com", "a");
    GlueTwo("http://example.com", "a");
    assert "http://example.com" + "/" + "a" == "http://example.com/a";
  }

  /** Documented example: a protocol head stays. */
  lemma DocProtocolHead()
    ensures Joined(["http://example.com", "a"]) == "http://example.com/a"
  {
    DocProtocolHeadPieces();
    DocProtocolHeadResolved();
  }

  /** An empty fragment changes nothing, e.g. join("", "a") is join("a"). */
  lemma EmptyFragmentIgnored()
    ensures Joined(["", "a"]) == Joined(["a"])
  {
    JoinedIgnoresEmpty([], ["a"]);
    assert [] + [""] + ["a"] == ["", "a"];
    assert [] + ["a"] == ["a"];
  }
}
