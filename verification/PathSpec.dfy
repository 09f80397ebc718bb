/** Paths as sequences of segments, and what normalising one means. */
module PathSpec {

  const MAX_SEGMENTS := 64
  const MAX_PATH := 255

  /** The length of the segment a path begins with. */
  function SegmentLength(p: string): (n: nat)
    ensures n <= |p|
    ensures forall i :: 0 <= i < n ==> p[i] != '/'
    ensures n < |p| ==> p[n] == '/'
  {
    if p != [] && p[0] != '/' then 1 + SegmentLength(p[1..]) else 0
  }

  /** The segments between the slashes. */
  function Tokens(p: string): seq<string>
    decreases |p|
  {
    if p == [] then []
    else if p[0] == '/' then Tokens(p[1..])
    else [p[..SegmentLength(p)]] + Tokens(p[SegmentLength(p)..])
  }

  /** One segment on a stack of directories, without a bound. */
  function Enter(stack: seq<string>, t: string): seq<string> {
    if t == "." then stack
    else if t == ".." then (if stack == [] then [] else stack[..|stack| - 1])
    else stack + [t]
  }

  /** Resolving segments from a directory. */
  function Resolve(stack: seq<string>, ts: seq<string>): seq<string>
    decreases |ts|
  {
    if ts == [] then stack else Resolve(Enter(stack, ts[0]), ts[1..])
  }

  /** The same with room for 64 segments: a segment that does not fit is dropped. */
  function EnterCapped(stack: seq<string>, t: string): seq<string> {
    if t != "." && t != ".." && |stack| >= MAX_SEGMENTS then stack else Enter(stack, t)
  }

  function ResolveCapped(stack: seq<string>, ts: seq<string>): seq<string>
    decreases |ts|
  {
    if ts == [] then stack else ResolveCapped(EnterCapped(stack, ts[0]), ts[1..])
  }

  function Join(segments: seq<string>): string {
    if segments == [] then "" else "/" + segments[0] + Join(segments[1..])
  }

  function Render(segments: seq<string>): string { if segments == [] then "/" else Join(segments) }

  function Truncated(p: string): string { if |p| <= MAX_PATH then p else p[..MAX_PATH] }

  /** `normalize_path` on a path that is not empty. */
  function Normalize(p: string): string { Render(ResolveCapped([], Tokens(Truncated(p)))) }

  // ---- Segments

  predicate IsSegment(t: string) { t != "" && forall i :: 0 <= i < |t| ==> t[i] != '/' }

  /** A segment a normal path may hold. */
  predicate Plain(t: string) { IsSegment(t) && t != "." && t != ".." }

  predicate AllPlain(ts: seq<string>) { forall i :: 0 <= i < |ts| ==> Plain(ts[i]) }

  lemma {:induction false} TokensAreSegments(p: string)
    ensures forall i :: 0 <= i < |Tokens(p)| ==> IsSegment(Tokens(p)[i])
    decreases |p|
  {
    if p != [] {
      if p[0] == '/' {
        TokensAreSegments(p[1..]);
      } else {
        TokensAreSegments(p[SegmentLength(p)..]);
      }
    }
  }

  lemma {:induction false} SegmentStops(t: string, rest: string)
    requires forall i :: 0 <= i < |t| ==> t[i] != '/'
    requires rest != [] ==> rest[0] == '/'
    ensures SegmentLength(t + rest) == |t|
  {
    if t == [] {
      assert t + rest == rest;
    } else {
      assert (t + rest)[1..] == t[1..] + rest;
      SegmentStops(t[1..], rest);
    }
  }

  /** Splitting undoes joining. */
  lemma {:induction false} TokensJoin(ts: seq<string>)
    requires forall i :: 0 <= i < |ts| ==> IsSegment(ts[i])
    ensures Tokens(Join(ts)) == ts
  {
    if ts != [] {
      var rest := Join(ts[1..]);
      TokensJoin(ts[1..]);
      JoinStarts(ts[1..]);
      FirstToken(ts[0], rest);
      JoinedTokens(ts[0], rest);
    }
  }

  lemma {:induction false} JoinedTokens(t: string, rest: string)
    ensures Tokens("/" + t + rest) == Tokens(t + rest)
  {
    SlashSkipped(t + rest);
    assert "/" + t + rest == "/" + (t + rest);
  }

  lemma {:induction false} JoinStarts(ts: seq<string>)
    ensures Join(ts) != [] ==> Join(ts)[0] == '/'
  {
  }

  lemma {:induction false} SlashSkipped(x: string)
    ensures Tokens("/" + x) == Tokens(x)
  {
    assert ("/" + x)[1..] == x;
  }

  lemma {:induction false} FirstToken(t: string, rest: string)
    requires IsSegment(t) && (rest != [] ==> rest[0] == '/')
    ensures Tokens(t + rest) == [t] + Tokens(rest)
  {
    SegmentStops(t, rest);
    assert (t + rest)[..|t|] == t && (t + rest)[|t|..] == rest;
  }

  /** A slash separates: the segments of both sides, one after the other. */
  lemma {:induction false} TokensConcat(a: string, b: string)
    ensures Tokens(a + "/" + b) == Tokens(a) + Tokens(b)
    decreases |a|
  {
    if a == [] {
      SlashSkipped(b);
      assert a + "/" + b == "/" + b;
    } else if a[0] == '/' {
      ConcatAfterSlash(a, b);
      TokensConcat(a[1..], b);
    } else {
      ConcatAfterSegment(a, b);
      TokensConcat(a[SegmentLength(a)..], b);
    }
  }

  lemma {:induction false} ConcatAfterSlash(a: string, b: string)
    requires a != [] && a[0] == '/'
    ensures Tokens(a) == Tokens(a[1..]) && Tokens(a + "/" + b) == Tokens(a[1..] + "/" + b)
  {
    SlashSkipped(a[1..] + "/" + b);
    assert a + "/" + b == "/" + (a[1..] + "/" + b);
  }

  lemma {:induction false} ConcatAfterSegment(a: string, b: string)
    requires a != [] && a[0] != '/'
    ensures var n := SegmentLength(a);
            && Tokens(a) == [a[..n]] + Tokens(a[n..])
            && Tokens(a + "/" + b) == [a[..n]] + Tokens(a[n..] + "/" + b)
  {
    var n := SegmentLength(a);
    FirstToken(a[..n], a[n..] + "/" + b);
    assert a + "/" + b == a[..n] + (a[n..] + "/" + b);
  }

  // ---- What resolving does

  lemma {:induction false} ResolveConcat(stack: seq<string>, a: seq<string>, b: seq<string>)
    ensures Resolve(stack, a + b) == Resolve(Resolve(stack, a), b)
    decreases |a|
  {
    if a == [] {
      assert a + b == b;
    } else {
      assert (a + b)[1..] == a[1..] + b;
      ResolveConcat(Enter(stack, a[0]), a[1..], b);
    }
  }

  /** A segment followed by ".." can be taken out anywhere, and so can a "."; a path of plain
      segments is its own result; ".." at the root stays there. With these every path is resolved. */
  lemma {:induction false} ParentCancels(stack: seq<string>, a: seq<string>, t: string, b: seq<string>)
    requires Plain(t)
    ensures Resolve(stack, a + [t, ".."] + b) == Resolve(stack, a + b)
  {
    ResolveConcat(stack, a, [t] + ([".."] + b));
    ResolveConcat(stack, a, b);
    ResolveOne(Resolve(stack, a), t, [".."] + b);
    ResolveOne(Enter(Resolve(stack, a), t), "..", b);
    EnterAndLeave(Resolve(stack, a), t);
    assert a + [t, ".."] + b == a + ([t] + ([".."] + b));
  }

  lemma {:induction false} ResolveOne(stack: seq<string>, t: string, b: seq<string>)
    ensures Resolve(stack, [t] + b) == Resolve(Enter(stack, t), b)
  {
    assert ([t] + b)[1..] == b;
  }

  lemma EnterAndLeave(stack: seq<string>, t: string)
    requires Plain(t)
    ensures Enter(Enter(stack, t), "..") == stack
  {
  }

  lemma {:induction false} DotIsNothing(stack: seq<string>, a: seq<string>, b: seq<string>)
    ensures Resolve(stack, a + ["."] + b) == Resolve(stack, a + b)
  {
    ResolveConcat(stack, a, ["."] + b);
    ResolveConcat(stack, a, b);
    ResolveOne(Resolve(stack, a), ".", b);
    assert a + ["."] + b == a + (["."] + b);
  }

  lemma {:induction false} RootHasNoParent(b: seq<string>)
    ensures Resolve([], [".."] + b) == Resolve([], b)
  {
    ResolveOne([], "..", b);
  }

  lemma {:induction false} PlainStays(stack: seq<string>, ts: seq<string>)
    requires AllPlain(ts)
    ensures Resolve(stack, ts) == stack + ts
    ensures |stack| + |ts| <= MAX_SEGMENTS ==> ResolveCapped(stack, ts) == stack + ts
    decreases |ts|
  {
    if ts != [] {
      PlainStays(stack + [ts[0]], ts[1..]);
      assert stack + [ts[0]] + ts[1..] == stack + ts;
    }
  }

  /** What is left are plain segments, at most 64 of them. */
  lemma {:induction false} ResolvedIsPlain(stack: seq<string>, ts: seq<string>)
    requires AllPlain(stack) && |stack| <= MAX_SEGMENTS
    requires forall i :: 0 <= i < |ts| ==> IsSegment(ts[i])
    ensures AllPlain(ResolveCapped(stack, ts)) && |ResolveCapped(stack, ts)| <= MAX_SEGMENTS
    decreases |ts|
  {
    if ts != [] {
      ResolvedIsPlain(EnterCapped(stack, ts[0]), ts[1..]);
    }
  }

  /** No prefix of the path leads more than 64 segments deep. */
  predicate Shallow(stack: seq<string>, ts: seq<string>)
    decreases |ts|
  {
    |stack| <= MAX_SEGMENTS && (ts == [] || Shallow(Enter(stack, ts[0]), ts[1..]))
  }

  /** At some point the path is at the root, and from there on it never goes too deep. */
  predicate Recovers(stack: seq<string>, ts: seq<string>)
    decreases |ts|
  {
    (stack == [] && Shallow([], ts)) || (ts != [] && Recovers(Enter(stack, ts[0]), ts[1..]))
  }

  /** The same as a place in the path. */
  lemma {:induction false} RecoversIs(stack: seq<string>, ts: seq<string>)
    ensures Recovers(stack, ts) <==> exists j :: RecoversAt(stack, ts, j)
    decreases |ts|
  {
    if ts != [] {
      var next, rest := Enter(stack, ts[0]), ts[1..];
      RecoversIs(next, rest);
      if j: nat :| RecoversAt(next, rest, j) {
        assert ts[..j + 1][1..] == rest[..j] && ts[..j + 1][0] == ts[0] && ts[j + 1..] == rest[j..];
        assert RecoversAt(stack, ts, j + 1);
      }
      if j: nat :| RecoversAt(stack, ts, j) {
        if j > 0 {
          assert ts[..j][1..] == rest[..j - 1] && ts[..j][0] == ts[0] && ts[j..] == rest[j - 1..];
          assert RecoversAt(next, rest, j - 1);
        } else {
          assert ts[..0] == [] && ts[0..] == ts;
        }
      }
    }
    if stack == [] && Shallow([], ts) {
      assert ts[..0] == [] && ts[0..] == ts;
      assert RecoversAt(stack, ts, 0);
    }
  }

  /** Place `j` of the path is the root, and from there on the path stays shallow. */
  predicate RecoversAt(stack: seq<string>, ts: seq<string>, j: nat) {
    j <= |ts| && Resolve(stack, ts[..j]) == [] && Shallow([], ts[j..])
  }

  lemma {:induction false} ShallowRecovers(ts: seq<string>)
    ensures Shallow([], ts) ==> Recovers([], ts)
  {
  }

  /** One segment: a stack that is behind stays behind unless both get to the root; one that is not
      falls behind only by a segment that does not fit. */
  lemma StaysBehind(capped: seq<string>, stack: seq<string>, t: string)
    requires |capped| < |stack| || (capped == stack && |stack| <= MAX_SEGMENTS)
    ensures var c, s := EnterCapped(capped, t), Enter(stack, t);
            && (|capped| < |stack| ==> |c| < |s| || c == s == [])
            && (capped == stack ==> if |s| <= MAX_SEGMENTS then c == s else |c| < |s|)
  {
  }

  /** A bounded stack that has fallen behind catches up only at the root; one that has not keeps up
      for as long as the path stays shallow. */
  lemma {:induction false} CatchesUpIff(capped: seq<string>, stack: seq<string>, ts: seq<string>)
    requires |capped| < |stack| || (capped == stack && |stack| <= MAX_SEGMENTS)
    ensures ResolveCapped(capped, ts) == Resolve(stack, ts) <==>
            (capped == stack && Shallow(stack, ts)) || Recovers(stack, ts)
    decreases |ts|
  {
    if ts != [] {
      var t, rest := ts[0], ts[1..];
      StaysBehind(capped, stack, t);
      CatchesUpIff(EnterCapped(capped, t), Enter(stack, t), rest);
      ShallowRecovers(rest);
      assert ResolveCapped(capped, ts) == ResolveCapped(EnterCapped(capped, t), rest);
      assert Resolve(stack, ts) == Resolve(Enter(stack, t), rest);
      assert stack != [] ==> (Recovers(stack, ts) <==> Recovers(Enter(stack, t), rest));
      assert Shallow(stack, ts) <==> |stack| <= MAX_SEGMENTS && Shallow(Enter(stack, t), rest);
    }
  }

  /** The bound of 64 segments makes no difference to the result exactly when the path comes through
      the root at some point from which on it never goes more than 64 segments deep. */
  lemma {:induction false} CapIsInvisibleIff(ts: seq<string>)
    ensures ResolveCapped([], ts) == Resolve([], ts) <==> exists j :: RecoversAt([], ts, j)
  {
    CatchesUpIff([], [], ts);
    ShallowRecovers(ts);
    RecoversIs([], ts);
  }

  // ---- Lengths

  lemma {:induction false} JoinConcat(a: seq<string>, b: seq<string>)
    ensures Join(a + b) == Join(a) + Join(b)
  {
    if a == [] {
      assert a + b == b;
    } else {
      assert (a + b)[1..] == a[1..] + b;
      JoinConcat(a[1..], b);
    }
  }

  lemma {:induction false} ResolvingShrinks(stack: seq<string>, ts: seq<string>)
    ensures |Join(ResolveCapped(stack, ts))| <= |Join(stack)| + |Join(ts)|
    decreases |ts|
  {
    if ts != [] {
      var next := EnterCapped(stack, ts[0]);
      ResolvingShrinks(next, ts[1..]);
      JoinConcat(stack, [ts[0]]);
      if stack != [] {
        var front, last := stack[..|stack| - 1], stack[|stack| - 1..];
        assert stack == front + last;
        JoinConcat(front, last);
      }
    }
  }

  lemma {:induction false} TokensFit(p: string)
    ensures |Join(Tokens(p))| <= |p| + (if p != [] && p[0] != '/' then 1 else 0)
    decreases |p|
  {
    if p != [] {
      if p[0] == '/' {
        TokensFit(p[1..]);
      } else {
        TokensFit(p[SegmentLength(p)..]);
      }
    }
  }

  /** A path that starts with a slash never grows; any other grows by one character at most. */
  lemma NeverGrows(p: string)
    requires p != []
    ensures |Normalize(p)| <= |Truncated(p)| + if p[0] == '/' then 0 else 1
  {
    var q := Truncated(p);
    TokensFit(q);
    ResolvingShrinks([], Tokens(q));
  }

  /** The result is an absolute path of plain segments. */
  lemma NormalForm(p: string)
    requires p != []
    ensures var segments := ResolveCapped([], Tokens(Truncated(p)));
            && Normalize(p) == Render(segments) && AllPlain(segments) && |segments| <= MAX_SEGMENTS
            && Tokens(Normalize(p)) == segments && Normalize(p)[0] == '/'
  {
    var q := Truncated(p);
    TokensAreSegments(q);
    ResolvedIsPlain([], Tokens(q));
    TokensJoin(ResolveCapped([], Tokens(q)));
  }

  lemma {:induction false} ResolvedIsSegments(stack: seq<string>, ts: seq<string>)
    requires AllPlain(stack)
    requires forall i :: 0 <= i < |ts| ==> IsSegment(ts[i])
    ensures AllPlain(Resolve(stack, ts))
    decreases |ts|
  {
    if ts != [] {
      ResolvedIsSegments(Enter(stack, ts[0]), ts[1..]);
    }
  }

  /** Different segments give different paths. */
  lemma RenderIsInjective(a: seq<string>, b: seq<string>)
    requires AllPlain(a) && AllPlain(b)
    ensures Render(a) == Render(b) <==> a == b
  {
    TokensJoin(a);
    TokensJoin(b);
    SlashSkipped("");
    assert "/" + "" == "/";
  }

  /** A path of at most 255 characters keeps its meaning, the unbounded resolution of its segments,
      exactly when it comes through the root at some point from which on it never goes more than 64
      segments deep. */
  lemma {:induction false} NormalizeResolvesIff(p: string)
    requires p != [] && |p| <= MAX_PATH
    ensures Normalize(p) == Render(Resolve([], Tokens(p))) <==> exists j :: RecoversAt([], Tokens(p), j)
  {
    var ts := Tokens(p);
    TokensAreSegments(p);
    ResolvedIsPlain([], ts);
    ResolvedIsSegments([], ts);
    RenderIsInjective(ResolveCapped([], ts), Resolve([], ts));
    CapIsInvisibleIff(ts);
  }

  function Repeated(t: string, n: nat): seq<string> { seq(n, _ => t) }

  lemma {:induction false} RepeatedLength(t: string, n: nat)
    ensures |Join(Repeated(t, n))| == n * (|t| + 1)
  {
    if n > 0 {
      assert Repeated(t, n)[1..] == Repeated(t, n - 1);
      RepeatedLength(t, n - 1);
    }
  }

  /** The path of 65 segments "a" loses one of them. */
  lemma TooDeep()
    ensures var p := Join(Repeated("a", 65));
            p != [] && |p| <= MAX_PATH && Normalize(p) != Render(Resolve([], Tokens(p)))
  {
    var ts := Repeated("a", 65);
    RepeatedLength("a", 65);
    TokensJoin(ts);
    NormalForm(Join(ts));
    PlainStays([], ts);
    assert [] + ts == ts;
    assert |Resolve([], ts)| == 65;
    RenderIsInjective(ResolveCapped([], ts), Resolve([], ts));
  }

  // ---- Normalising twice

  /** Resolving keeps every character only if every segment is plain and fits. */
  lemma {:induction false} KeepingAllIsPlain(stack: seq<string>, ts: seq<string>)
    requires |stack| <= MAX_SEGMENTS && forall i :: 0 <= i < |ts| ==> IsSegment(ts[i])
    requires |Join(ResolveCapped(stack, ts))| >= |Join(stack)| + |Join(ts)|
    ensures AllPlain(ts) && |stack| + |ts| <= MAX_SEGMENTS
    decreases |ts|
  {
    if ts != [] {
      var t, rest := ts[0], ts[1..];
      var next := EnterCapped(stack, t);
      ResolvingShrinks(next, rest);
      EnteringKeepsOnlyPlain(stack, t);
      KeepingAllIsPlain(next, rest);
      assert forall i :: 1 <= i < |ts| ==> ts[i] == rest[i - 1];
    }
  }

  lemma {:induction false} EnteringKeepsOnlyPlain(stack: seq<string>, t: string)
    requires IsSegment(t)
    ensures |Join(EnterCapped(stack, t))| >= |Join(stack)| + 1 + |t| ==> Plain(t) && |stack| < MAX_SEGMENTS
    ensures Plain(t) && |stack| < MAX_SEGMENTS ==> |Join(EnterCapped(stack, t))| == |Join(stack)| + 1 + |t|
  {
    JoinConcat(stack, [t]);
    if stack != [] {
      var front, last := stack[..|stack| - 1], stack[|stack| - 1..];
      assert stack == front + last;
      JoinConcat(front, last);
    }
  }

  /** The path gains a leading slash and loses nothing: it consists of at most 64 plain segments with
      single slashes between them and none at the ends. */
  predicate Grows(p: string) {
    |p| <= MAX_PATH && |Join(Tokens(p))| > |p| && AllPlain(Tokens(p)) && |Tokens(p)| <= MAX_SEGMENTS
  }

  /** Normalising makes a path longer exactly in this case; in place it then needs room for one more
      character than the path itself. */
  lemma GrowsIff(p: string)
    requires p != []
    ensures |Normalize(p)| > |p| <==> Grows(p)
  {
    var q := Truncated(p);
    var ts := Tokens(q);
    TokensFit(q);
    TokensAreSegments(q);
    ResolvingShrinks([], ts);
    if |Normalize(p)| > |p| {
      KeepingAllIsPlain([], ts);
    }
    if Grows(p) {
      PlainStays([], ts);
      assert [] + ts == ts;
    }
  }

  /** The path "a" becomes "/a". */
  lemma OneLetterGrows()
    ensures Grows("a") && Normalize("a") == "/a"
  {
    SegmentStops("a", []);
    assert "a" + [] == "a";
    assert Tokens("a") == ["a"] by {
      assert "a"[..1] == "a" && "a"[1..] == [];
    }
    assert Join(["a"]) == "/" + "a" + "";
    PlainStays([], ["a"]);
    assert [] + ["a"] == ["a"];
  }

  /** The first 255 characters of the path grow. */
  predicate Overlong(p: string) { |p| >= MAX_PATH && Grows(p[..MAX_PATH]) }

  lemma OverlongIff(p: string)
    requires p != []
    ensures |Normalize(p)| > MAX_PATH <==> Overlong(p)
  {
    var q := Truncated(p);
    assert |p| >= MAX_PATH ==> q == p[..MAX_PATH];
    assert Truncated(q) == q;
    GrowsIff(q);
    NeverGrows(p);
  }

  /** Normalising twice is normalising once, except exactly for the overlong paths; these do not
      start with a slash. */
  lemma IdempotentIff(p: string)
    requires p != []
    ensures Normalize(Normalize(p)) == Normalize(p) <==> !Overlong(p)
    ensures Overlong(p) ==> p[0] != '/'
  {
    NeverGrows(p);
    NormalForm(p);
    OverlongIff(p);
    var n := Normalize(p);
    if |n| <= MAX_PATH {
      PlainStays([], Tokens(n));
      assert [] + Tokens(n) == Tokens(n);
    } else {
      NeverGrows(n);
    }
  }

  /** A relative path of 255 letters grows to 256 characters, and loses one the second time. */
  lemma NotAlwaysIdempotent()
    ensures var p := seq(255, _ => 'a'); p != [] && Normalize(Normalize(p)) != Normalize(p)
  {
    var p := seq(255, _ => 'a');
    SegmentStops(p, []);
    assert p + [] == p;
    assert Tokens(p) == [p] by {
      assert p[..255] == p && p[255..] == [];
    }
    assert Join([p]) == "/" + p + "";
    assert p[..MAX_PATH] == p;
    assert Overlong(p);
    IdempotentIff(p);
  }

  // ---- Relative paths

  /** The path an input names from a working directory, before normalising. */
  function Whole(cwd: string, input: string): string {
    if input != [] && input[0] == '/' then input
    else if cwd == "/" then "/" + input
    else cwd + "/" + input
  }

  /** `make_abs_path` into a buffer of `room + 1` characters. */
  function MakeAbs(cwd: string, input: string, room: nat): string {
    var w := Whole(cwd, input);
    var cut := if |w| <= room then w else w[..room];
    if cut == "" then "" else Normalize(cut)
  }

  /** The result does not fit the buffer exactly when the joined path fills it and grows. */
  lemma MakeAbsOverrunsIff(cwd: string, input: string, room: nat)
    ensures |MakeAbs(cwd, input, room)| > room <==>
            room > 0 && |Whole(cwd, input)| >= room && Grows(Whole(cwd, input)[..room])
  {
    var w := Whole(cwd, input);
    var cut := if |w| <= room then w else w[..room];
    if cut != "" {
      NeverGrows(cut);
      GrowsIff(cut);
      assert |w| >= room ==> cut == w[..room];
    }
  }

  /** The directory a path starts from. */
  function From(cwd: string, input: string): seq<string> {
    if input != [] && input[0] == '/' then [] else Resolve([], Tokens(cwd))
  }

  /** A path that fits is resolved from the root if absolute, and from the directory that the
      working directory resolves to if not; exactly when the joined path recovers from every point
      that is too deep. */
  lemma {:induction false} MakeAbsResolvesIff(cwd: string, input: string, room: nat)
    requires |Whole(cwd, input)| <= room && |Whole(cwd, input)| <= MAX_PATH
    ensures MakeAbs(cwd, input, room) == Render(Resolve(From(cwd, input), Tokens(input))) <==>
            exists j :: RecoversAt([], Tokens(Whole(cwd, input)), j)
  {
    NormalizeResolvesIff(Whole(cwd, input));
    WholeTokens(cwd, input);
    ResolveConcat([], Tokens(cwd), Tokens(input));
  }

  lemma {:induction false} WholeTokens(cwd: string, input: string)
    ensures Tokens(Whole(cwd, input)) ==
            if input != [] && input[0] == '/' then Tokens(input) else Tokens(cwd) + Tokens(input)
  {
    if input == [] || input[0] != '/' {
      if cwd == "/" {
        SlashSkipped(input);
        SlashSkipped("");
        assert "/" + "" == "/";
        assert [] + Tokens(input) == Tokens(input);
      } else {
        TokensConcat(cwd, input);
      }
    }
  }
}
