/** `normalize_path` and `make_abs_path` on zero-terminated buffers. */
module Path {
  import opened PathSpec

  predicate NoZero(s: string) { forall i :: 0 <= i < |s| ==> s[i] != '\0' }

  /** A buffer holds a text from a position on, and a zero after it. */
  predicate HoldsAt(buf: string, at: nat, text: string) {
    at + |text| < |buf| && buf[at..at + |text|] == text && buf[at + |text|] == '\0'
  }

  /** The part of the text not yet split is still in the buffer. */
  predicate Unsplit(buf: string, text: string, at: nat) {
    at <= |text| && NoZero(text) && HoldsAt(buf, at, text[at..])
  }

  /** The offsets kept are those of the segments on the stack, all before `token`. */
  predicate Kept(buf: string, segments: seq<nat>, stack: seq<string>, token: nat) {
    && |segments| == |stack|
    && forall i :: 0 <= i < |stack| ==>
         NoZero(stack[i]) && HoldsAt(buf, segments[i], stack[i]) && segments[i] + |stack[i]| <= token
  }

  lemma UnsplitAt(buf: string, text: string, at: nat)
    requires Unsplit(buf, text, at)
    ensures buf[at] == (if at < |text| then text[at] else '\0')
    ensures at < |text| ==> Unsplit(buf, text, at + 1)
  {
    var rest := text[at..];
    assert buf[at..at + |rest|] == rest;
    if at < |text| {
      assert buf[at] == rest[0];
      assert text[at + 1..] == rest[1..];
      assert buf[at + 1..at + |rest|] == buf[at..at + |rest|][1..];
    }
  }

  method SkipSlashes(temp: array<char>, at: nat, ghost text: string) returns (to: nat)
    requires Unsplit(temp[..], text, at)
    ensures at <= to && Unsplit(temp[..], text, to) && temp[to] != '/'
    ensures Tokens(text[at..]) == Tokens(text[to..])
  {
    to := at;
    UnsplitAt(temp[..], text, to);
    while temp[to] == '/'
      invariant at <= to && Unsplit(temp[..], text, to)
      invariant to < temp.Length && temp[to] == (if to < |text| then text[to] else '\0')
      invariant Tokens(text[at..]) == Tokens(text[to..])
      decreases |text| - to
    {
      assert text[to..][1..] == text[to + 1..];
      to := to + 1;
      UnsplitAt(temp[..], text, to);
    }
  }

  method SegmentEnd(temp: array<char>, start: nat, ghost text: string) returns (to: nat)
    requires Unsplit(temp[..], text, start)
    ensures to == start + SegmentLength(text[start..]) && Unsplit(temp[..], text, to)
  {
    to := start;
    UnsplitAt(temp[..], text, to);
    while temp[to] != '\0' && temp[to] != '/'
      invariant start <= to && Unsplit(temp[..], text, to)
      invariant to < temp.Length && temp[to] == (if to < |text| then text[to] else '\0')
      invariant SegmentLength(text[start..]) == to - start + SegmentLength(text[to..])
      decreases |text| - to
    {
      assert text[to..][1..] == text[to + 1..];
      to := to + 1;
      UnsplitAt(temp[..], text, to);
    }
  }

  /** `strcmp` of the string at an offset with a constant. */
  function StrEqual(buf: string, at: nat, s: string): bool
    requires at < |buf|
  {
    HoldsAt(buf, at, s)
  }

  lemma NoZeroInside(buf: string, at: nat, t: string)
    requires HoldsAt(buf, at, t) && NoZero(t)
    ensures forall i :: at <= i < at + |t| ==> buf[i] != '\0'
  {
    assert forall i :: at <= i < at + |t| ==> buf[i] == buf[at..at + |t|][i - at];
  }

  lemma StrEqualIs(buf: string, at: nat, t: string, s: string)
    requires HoldsAt(buf, at, t) && NoZero(t) && NoZero(s)
    ensures HoldsAt(buf, at, s) <==> s == t
  {
    NoZeroInside(buf, at, t);
    if HoldsAt(buf, at, s) {
      NoZeroInside(buf, at, s);
      assert |s| == |t|;
    }
  }

  /** Cut the segment off: a zero over the slash behind it. */
  method Terminate(temp: array<char>, start: nat, end: nat, ghost text: string, ghost segments: seq<nat>, ghost stack: seq<string>)
    returns (token: nat)
    requires Unsplit(temp[..], text, start) && start < end <= |text| && Unsplit(temp[..], text, end)
    requires Kept(temp[..], segments, stack, start)
    modifies temp
    ensures end <= token && Unsplit(temp[..], text, token)
    ensures Tokens(text[token..]) == Tokens(text[end..]) || (end < |text| && text[end] != '/')
    ensures HoldsAt(temp[..], start, text[start..end])
    ensures Kept(temp[..], segments, stack, start)
  {
    ghost var before := temp[..];
    UnsplitAt(temp[..], text, end);
    SegmentThere(temp[..], text, start, end);
    if temp[end] == '\0' {
      return end;
    }
    temp[end] := '\0';
    token := end + 1;
    assert temp[..] == before[end := '\0'];
    assert text[end..][1..] == text[token..];
    StillUnsplit(before, text, token, end);
    assert temp[..][start..end] == before[start..end];
    StillKept(before, segments, stack, start, end);
  }

  lemma SegmentThere(buf: string, text: string, start: nat, end: nat)
    requires Unsplit(buf, text, start) && start <= end <= |text|
    ensures end < |buf| && buf[start..end] == text[start..end]
  {
    var rest := text[start..];
    assert buf[start..end] == buf[start..start + |rest|][..end - start];
    assert text[start..end] == rest[..end - start];
  }

  lemma StillUnsplit(buf: string, text: string, token: nat, end: nat)
    requires Unsplit(buf, text, token) && end < token
    ensures Unsplit(buf[end := '\0'], text, token)
  {
    var rest := text[token..];
    assert buf[end := '\0'][token..token + |rest|] == buf[token..token + |rest|];
  }

  lemma StillKept(buf: string, segments: seq<nat>, stack: seq<string>, start: nat, end: nat)
    requires Kept(buf, segments, stack, start) && start < end < |buf|
    ensures Kept(buf[end := '\0'], segments, stack, start)
  {
    forall i | 0 <= i < |stack| ensures HoldsAt(buf[end := '\0'], segments[i], stack[i]) {
      var a, t := segments[i], stack[i];
      assert buf[end := '\0'][a..a + |t|] == buf[a..a + |t|];
    }
  }

  /** One token: skip it, go up, or put its offset on the stack if there is room. */
  method Take(temp: array<char>, start: nat, token: nat, segments: array<nat>, top: nat, ghost t: string, ghost stack: seq<string>)
    returns (top': nat, ghost stack': seq<string>)
    requires top <= segments.Length == MAX_SEGMENTS && NoZero(t)
    requires Kept(temp[..], segments[..top], stack, start)
    requires HoldsAt(temp[..], start, t) && start + |t| <= token
    modifies segments
    ensures top' <= segments.Length && stack' == EnterCapped(stack, t)
    ensures Kept(temp[..], segments[..top'], stack', token)
  {
    StrEqualIs(temp[..], start, t, ".");
    StrEqualIs(temp[..], start, t, "..");
    stack' := EnterCapped(stack, t);
    top' := top;
    if StrEqual(temp[..], start, ".") {
      return;
    }
    if StrEqual(temp[..], start, "..") {
      if top > 0 {
        top' := top - 1;
      }
      return;
    }
    if top < MAX_SEGMENTS {
      ghost var before := segments[..top];
      segments[top] := start;
      top' := top + 1;
      assert segments[..top'] == before + [start];
    }
  }

  /** One turn of the tokenising loop; `end` tells that only slashes were left. */
  method TakeToken(temp: array<char>, at: nat, segments: array<nat>, top: nat, ghost text: string, ghost stack: seq<string>)
    returns (end: bool, token: nat, top': nat, ghost stack': seq<string>)
    requires Unsplit(temp[..], text, at) && at < |text|
    requires top <= segments.Length == MAX_SEGMENTS
    requires Kept(temp[..], segments[..top], stack, at)
    modifies temp, segments
    ensures top' <= segments.Length && Kept(temp[..], segments[..top'], stack', token)
    ensures end ==> stack' == ResolveCapped(stack, Tokens(text[at..]))
    ensures !end ==> at < token && Unsplit(temp[..], text, token)
                     && ResolveCapped(stack', Tokens(text[token..])) == ResolveCapped(stack, Tokens(text[at..]))
  {
    var start := SkipSlashes(temp, at, text);
    UnsplitAt(temp[..], text, start);
    KeptLater(temp[..], segments[..top], stack, at, start);
    if temp[start] == '\0' {
      return true, start, top, stack;
    }
    var stop := SegmentEnd(temp, start, text);
    ghost var t := text[start..stop];
    SegmentCut(text, start, stop);
    token := Terminate(temp, start, stop, text, segments[..top], stack);
    end := false;
    top', stack' := Take(temp, start, token, segments, top, t, stack);
  }

  /** The segment at a position of the text, and the segments behind it. */
  lemma {:induction false} SegmentCut(text: string, start: nat, stop: nat)
    requires start < |text| && text[start] != '/' && stop == start + SegmentLength(text[start..])
    ensures start < stop <= |text| && (stop < |text| ==> text[stop] == '/')
    ensures Tokens(text[start..]) == [text[start..stop]] + Tokens(text[stop..])
  {
    var rest := text[start..];
    assert rest[..stop - start] == text[start..stop] && rest[stop - start..] == text[stop..];
    assert stop < |text| ==> text[stop] == rest[stop - start];
  }

  lemma KeptLater(buf: string, segments: seq<nat>, stack: seq<string>, at: nat, to: nat)
    requires Kept(buf, segments, stack, at) && at <= to
    ensures Kept(buf, segments, stack, to)
  {
  }

  /** The tokenising loop of `normalize_path`: the offsets left on the stack are those of the
      resolved segments. */
  method Split(temp: array<char>, segments: array<nat>, ghost text: string) returns (top: nat, ghost stack: seq<string>)
    requires Unsplit(temp[..], text, 0) && segments.Length == MAX_SEGMENTS
    modifies temp, segments
    ensures top <= segments.Length && stack == ResolveCapped([], Tokens(text))
    ensures exists token :: Kept(temp[..], segments[..top], stack, token)
  {
    var token: nat := 0;
    top, stack := 0, [];
    assert text[0..] == text;
    UnsplitAt(temp[..], text, 0);
    while temp[token] != '\0'
      invariant token <= |text| && Unsplit(temp[..], text, token) && token < temp.Length
      invariant temp[token] == (if token < |text| then text[token] else '\0')
      invariant top <= segments.Length && Kept(temp[..], segments[..top], stack, token)
      invariant ResolveCapped(stack, Tokens(text[token..])) == ResolveCapped([], Tokens(text))
      decreases |text| - token
    {
      var end;
      end, token, top, stack := TakeToken(temp, token, segments, top, text, stack);
      if end {
        return;
      }
      UnsplitAt(temp[..], text, token);
    }
  }

  // ---- Putting the result together

  /** `strcat` of a string held in a buffer. */
  method Append(path: array<char>, at: nat, temp: array<char>, start: nat, ghost t: string) returns (to: nat)
    requires path != temp && NoZero(t) && HoldsAt(temp[..], start, t) && at + |t| < path.Length
    modifies path
    ensures to == at + |t| && path[..to] == old(path[..at]) + t && path[to] == '\0'
  {
    to := at;
    var i := start;
    NoZeroInside(temp[..], start, t);
    ghost var before := path[..at];
    assert t == temp[start..start + |t|];
    while temp[i] != '\0'
      invariant start <= i <= start + |t| && to == at + (i - start)
      invariant path[..to] == before + temp[start..i]
      decreases start + |t| - i
    {
      path[to] := temp[i];
      assert path[..to + 1] == before + temp[start..i] + [temp[i]];
      to, i := to + 1, i + 1;
    }
    assert temp[..][i] == temp[i];
    assert i == start + |t|;
    path[to] := '\0';
    assert path[..to] == before + temp[start..i];
  }

  /** The loop that rebuilds the path. */
  method Rebuild(path: array<char>, temp: array<char>, segments: array<nat>, top: nat, ghost stack: seq<string>)
    requires path != temp && top <= segments.Length && path.Length > |Join(stack)|
    requires exists token :: Kept(temp[..], segments[..top], stack, token)
    modifies path
    ensures path[..|Join(stack)|] == Join(stack) && path[|Join(stack)|] == '\0'
  {
    path[0] := '\0';
    var at: nat := 0;
    for i := 0 to top
      invariant |Join(stack[..i])| == at < path.Length && path[..at] == Join(stack[..i]) && path[at] == '\0'
      invariant Kept2(temp[..], segments[..top], stack)
    {
      Longer(stack, i);
      ghost var before := path[..at];
      path[at] := '/';
      assert path[..at + 1] == before + "/";
      at := Append(path, at + 1, temp, segments[i], stack[i]);
    }
    assert stack[..top] == stack;
  }

  ghost predicate Kept2(buf: string, segments: seq<nat>, stack: seq<string>) {
    |segments| == |stack| && forall i :: 0 <= i < |stack| ==> NoZero(stack[i]) && HoldsAt(buf, segments[i], stack[i])
  }

  lemma {:induction false} Longer(stack: seq<string>, i: nat)
    requires i < |stack|
    ensures Join(stack[..i + 1]) == Join(stack[..i]) + "/" + stack[i]
    ensures |Join(stack[..i + 1])| <= |Join(stack)|
  {
    assert stack[..i + 1] == stack[..i] + [stack[i]];
    JoinConcat(stack[..i], [stack[i]]);
    assert stack == stack[..i + 1] + stack[i + 1..];
    JoinConcat(stack[..i + 1], stack[i + 1..]);
  }

  /** `strncpy` of at most 255 characters into the temporary buffer, and the final zero. */
  method CopyPath(path: array<char>, temp: array<char>, ghost text: string)
    requires NoZero(text) && HoldsAt(path[..], 0, text) && temp.Length == MAX_PATH + 1 && path != temp
    modifies temp
    ensures Unsplit(temp[..], Truncated(text), 0)
  {
    var n: nat := 0;
    NoZeroInside(path[..], 0, text);
    assert forall i :: 0 <= i < |text| ==> path[i] == path[..][0..|text|][i];
    while n < MAX_PATH && path[n] != '\0'
      invariant n <= |text| && n <= MAX_PATH && temp[..n] == text[..n]
    {
      assert path[..][n] == path[n];
      temp[n] := path[n];
      assert temp[..n + 1] == text[..n] + [text[n]];
      n := n + 1;
    }
    assert path[..][n] == path[n];
    temp[n] := '\0';
    assert temp[..][0..n] == Truncated(text) == Truncated(text)[0..];
  }

  /** `normalize_path`: the buffer, which must have room for it, holds the normal form of the path it
      held. */
  method NormalizePath(path: array<char>, ghost text: string) returns (r: nat)
    requires NoZero(text) && HoldsAt(path[..], 0, text)
    requires text != "" ==> path.Length > |Normalize(text)|
    modifies path
    ensures text == "" ==> r == 0 && path[..] == old(path[..])
    ensures text != "" ==> r == 1 && HoldsAt(path[..], 0, Normalize(text))
  {
    assert text != "" ==> path[..][0] == text[0] by {
      if text != "" {
        assert path[..][0] == path[..][0..|text|][0];
      }
    }
    if path[0] == '\0' {
      return 0;
    }
    var temp := new char[256];
    var segments := new nat[64];
    CopyPath(path, temp, text);
    var top;
    ghost var stack;
    top, stack := Split(temp, segments, Truncated(text));
    if top == 0 {
      path[0], path[1] := '/', '\0';
      return 1;
    }
    Rebuild(path, temp, segments, top, stack);
    assert path[..][0..|Join(stack)|] == path[..|Join(stack)|];
    return 1;
  }

  /** `make_abs_path`: join, cut to the buffer, normalise. The buffer must have room for the result. */
  method MakeAbsPath(cwd: string, input: string, out: array<char>) returns (r: nat)
    requires NoZero(cwd) && NoZero(input)
    requires out.Length > 0 ==> out.Length > |MakeAbs(cwd, input, out.Length - 1)|
    modifies out
    ensures out.Length == 0 ==> r == 0
    ensures out.Length > 0 ==> r == if Whole(cwd, input) != "" && out.Length > 1 then 1 else 0
    ensures out.Length > 0 ==> HoldsAt(out[..], 0, MakeAbs(cwd, input, out.Length - 1))
  {
    if out.Length == 0 {
      return 0;
    }
    var w := Whole(cwd, input);
    var n := if |w| <= out.Length - 1 then |w| else out.Length - 1;
    forall i | 0 <= i < n {
      out[i] := w[i];
    }
    out[n] := '\0';
    assert out[..][0..n] == w[..n];
    assert n == |w| ==> w[..n] == w;
    r := NormalizePath(out, w[..n]);
  }
}
