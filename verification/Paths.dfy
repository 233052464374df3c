/** The path normaliser of the shell, which edits a 256-byte buffer in place. */
module Paths {

  const BUFFER := 256
  const NUL: char := '\0'

  // A C string: no NUL inside.
  type CString = s: string | NUL !in s witness ""

  // The number of characters before the first slash.
  function SegmentLength(t: string): (n: nat)
    ensures n <= |t| && '/' !in t[..n]
    ensures n < |t| ==> t[n] == '/'
  {
    if t == "" || t[0] == '/' then 0 else 1 + SegmentLength(t[1..])
  }

  predicate Segment(x: string) { x != "" && '/' !in x }

  predicate AllSegments(s: seq<string>) { forall i :: 0 <= i < |s| ==> Segment(s[i]) }

  // The parts between slashes, empty ones left out.
  function Segments(t: string): (s: seq<string>)
    ensures AllSegments(s)
  {
    if t == "" then []
    else if t[0] == '/' then Segments(t[1..])
    else
      var n := SegmentLength(t);
      [t[..n]] + Segments(t[n..])
  }

  // What one segment does to the stack of directory names.
  function Apply(stack: seq<string>, segment: string): seq<string> {
    if segment == ".." then if stack == [] then [] else stack[..|stack| - 1]
    else if segment == "." then stack
    else stack + [segment]
  }

  function ApplyAll(stack: seq<string>, segments: seq<string>): seq<string>
    decreases |segments|
  {
    if segments == [] then stack else ApplyAll(Apply(stack, segments[0]), segments[1..])
  }

  // Each name preceded by a slash.
  function Slashed(stack: seq<string>): (s: string)
    ensures stack != [] ==> s != ""
  {
    if stack == [] then "" else Slashed(stack[..|stack| - 1]) + "/" + stack[|stack| - 1]
  }

  function Render(stack: seq<string>): (s: string)
    ensures s != ""
  {
    if stack == [] then "/" else Slashed(stack)
  }

  // The meaning of a path.
  function Normalise(t: string): string {
    Render(ApplyAll([], Segments(t)))
  }

  // A directory name, as opposed to "", "." and "..".
  predicate Plain(x: string) { Segment(x) && x != "." && x != ".." }

  predicate AllPlain(stack: seq<string>) { forall i :: 0 <= i < |stack| ==> Plain(stack[i]) }

  // The root, or plain names each preceded by one slash.
  predicate Canonical(p: string) { p == Render(Segments(p)) && AllPlain(Segments(p)) }

  lemma {:induction false} SegmentLengthSplit(a: string, b: string)
    requires '/' !in a
    ensures SegmentLength(a + "/" + b) == |a|
  {
    if a != "" {
      assert (a + "/" + b)[1..] == a[1..] + "/" + b;
      SegmentLengthSplit(a[1..], b);
    }
  }

  lemma {:induction false} SegmentLengthAll(a: string)
    requires '/' !in a
    ensures SegmentLength(a) == |a|
  {
    if a != "" {
      SegmentLengthAll(a[1..]);
    }
  }

  lemma {:induction false} SegmentLengthPrefix(a: string, b: string)
    requires SegmentLength(a) < |a|
    ensures SegmentLength(a + b) == SegmentLength(a)
  {
    if a != "" && a[0] != '/' {
      assert (a + b)[1..] == a[1..] + b;
      SegmentLengthPrefix(a[1..], b);
    }
  }

  // A segment at the front stays a segment when something is joined on behind.
  lemma FirstSegment(a: string, b: string)
    requires a != "" && a[0] != '/'
    ensures var n := SegmentLength(a);
      n > 0 && SegmentLength(a + "/" + b) == n && (a + "/" + b)[..n] == a[..n] &&
      (a + "/" + b)[n..] == a[n..] + "/" + b
  {
    var n := SegmentLength(a);
    if n == |a| {
      SegmentLengthSplit(a, b);
    } else {
      SegmentLengthPrefix(a, "/" + b);
      assert a + ("/" + b) == a + "/" + b;
    }
  }

  // Joining two paths with a slash joins their segments.
  lemma {:induction false} SegmentsJoin(a: string, b: string)
    ensures Segments(a + "/" + b) == Segments(a) + Segments(b)
    decreases |a|
  {
    hide SegmentLength;
    var t := a + "/" + b;
    if a == "" {
      assert t[1..] == b;
    } else if a[0] == '/' {
      assert t[1..] == a[1..] + "/" + b;
      SegmentsJoin(a[1..], b);
    } else {
      FirstSegment(a, b);
      SegmentsJoin(a[SegmentLength(a)..], b);
    }
  }

  lemma {:induction false} ApplyJoin(stack: seq<string>, x: seq<string>, y: seq<string>)
    ensures ApplyAll(stack, x + y) == ApplyAll(ApplyAll(stack, x), y)
    decreases |x|
  {
    if x == [] {
      assert x + y == y;
    } else {
      assert (x + y)[1..] == x[1..] + y;
      ApplyJoin(Apply(stack, x[0]), x[1..], y);
    }
  }

  lemma {:induction false} ApplyPlain(stack: seq<string>, x: seq<string>)
    requires AllPlain(x)
    ensures ApplyAll(stack, x) == stack + x
    decreases |x|
  {
    if x == [] {
      assert stack + x == stack;
    } else {
      assert Plain(x[0]);
      ApplyPlain(Apply(stack, x[0]), x[1..]);
      assert stack + [x[0]] + x[1..] == stack + x;
    }
  }

  lemma {:induction false} ApplyKeepsPlain(stack: seq<string>, x: seq<string>)
    requires AllPlain(stack) && AllSegments(x)
    ensures AllPlain(ApplyAll(stack, x))
    decreases |x|
  {
    if x != [] {
      assert Segment(x[0]);
      ApplyKeepsPlain(Apply(stack, x[0]), x[1..]);
    }
  }

  lemma SegmentsOne(x: string)
    requires Segment(x)
    ensures Segments(x) == [x]
  {
    SegmentLengthAll(x);
    assert x[..|x|] == x && x[|x|..] == "";
  }

  // Reading back what was rendered.
  lemma {:induction false} SegmentsSlashed(stack: seq<string>)
    requires AllSegments(stack)
    ensures Segments(Slashed(stack)) == stack
  {
    if stack != [] {
      var front, last := stack[..|stack| - 1], stack[|stack| - 1];
      assert Segment(last);
      SegmentsSlashed(front);
      SegmentsJoin(Slashed(front), last);
      SegmentsOne(last);
      assert front + [last] == stack;
    }
  }

  lemma RenderRoundTrip(stack: seq<string>)
    requires AllSegments(stack)
    ensures Segments(Render(stack)) == stack
  {
    if stack == [] {
      assert Segments("/") == Segments("/"[1..]) == [];
    } else {
      SegmentsSlashed(stack);
    }
  }

  lemma NormalisedSegments(t: string)
    ensures AllPlain(ApplyAll([], Segments(t)))
    ensures Segments(Normalise(t)) == ApplyAll([], Segments(t))
  {
    ApplyKeepsPlain([], Segments(t));
    RenderRoundTrip(ApplyAll([], Segments(t)));
  }

  /** The result is always canonical, and the canonical paths are exactly the fixed points. */
  lemma NormaliseCanonical(t: string)
    ensures Canonical(Normalise(t))
    ensures Canonical(t) <==> Normalise(t) == t
  {
    NormalisedSegments(t);
    if Canonical(t) {
      ApplyPlain([], Segments(t));
      assert [] + Segments(t) == Segments(t);
    }
  }

  lemma NormaliseIdempotent(t: string)
    ensures Normalise(Normalise(t)) == Normalise(t)
  {
    NormaliseCanonical(t);
    NormaliseCanonical(Normalise(t));
  }

  /** The shell may normalise step by step: resolving b from the resolved a is resolving the
      joined path. */
  lemma NormaliseJoin(a: string, b: string)
    ensures Normalise(Normalise(a) + "/" + b) == Normalise(a + "/" + b)
  {
    SegmentsJoin(a, b);
    SegmentsJoin(Normalise(a), b);
    NormalisedSegments(a);
    var s := ApplyAll([], Segments(a));
    ApplyJoin([], Segments(a), Segments(b));
    ApplyJoin([], s, Segments(b));
    ApplyPlain([], s);
    assert [] + s == s;
  }

  /** Going into a directory and up again leads back. */
  lemma UpUndoesDown(a: string, x: string)
    requires Plain(x)
    ensures Normalise(a + "/" + x + "/" + "..") == Normalise(a)
  {
    SegmentsJoin(a + "/" + x, "..");
    SegmentsJoin(a, x);
    SegmentsOne(x);
    SegmentsOne("..");
    var s := ApplyAll([], Segments(a));
    ApplyJoin([], Segments(a) + [x], [".."]);
    ApplyJoin([], Segments(a), [x]);
    assert ApplyAll(s, [x]) == s + [x];
    assert ApplyAll(s + [x], [".."]) == (s + [x])[..|s|] == s;
  }

  lemma ApplyLast(a: string, x: string)
    requires Segment(x)
    ensures ApplyAll([], Segments(a + "/" + x)) == Apply(ApplyAll([], Segments(a)), x)
  {
    SegmentsJoin(a, x);
    SegmentsOne(x);
    ApplyJoin([], Segments(a), [x]);
    assert [x][1..] == [];
  }

  /** A name goes behind the path. */
  lemma NameAppends(a: string, x: string)
    requires Plain(x)
    ensures Normalise(a + "/" + x) == (if Normalise(a) == "/" then "" else Normalise(a)) + "/" + x
  {
    hide Segments, ApplyAll;
    var s := ApplyAll([], Segments(a));
    ApplyLast(a, x);
    ApplyKeepsPlain([], Segments(a));
    RenderedRoot(s);
    assert Apply(s, x) == s + [x];
    assert (s + [x])[..|s|] == s;
    assert Slashed(s + [x]) == Slashed(s) + "/" + x;
    assert Slashed([]) == "";
  }

  /** "." and a doubled slash change nothing. */
  lemma DotStays(a: string)
    ensures Normalise(a + "/" + ".") == Normalise(a) == Normalise(a + "/" + "")
  {
    ApplyLast(a, ".");
    SegmentsJoin(a, "");
    assert Segments(a) + [] == Segments(a);
  }

  /** The empty path is the root, and ".." stays there. */
  lemma RootStays(a: string)
    ensures Normalise("") == "/" && (Normalise(a) == "/" ==> Normalise(a + "/" + "..") == "/")
  {
    ApplyLast(a, "..");
    ApplyKeepsPlain([], Segments(a));
    RenderedRoot(ApplyAll([], Segments(a)));
  }

  // Only the empty stack is the root.
  lemma RenderedRoot(s: seq<string>)
    requires AllPlain(s)
    ensures Render(s) == "/" <==> s == []
  {
    if s != [] {
      assert Plain(s[|s| - 1]);
      assert Slashed(s) == Slashed(s[..|s| - 1]) + "/" + s[|s| - 1];
      assert |Slashed(s)| > 1;
    }
  }

  // Buffer a holds the string s.
  ghost predicate Holds(a: array<char>, s: string)
    reads a
  {
    NUL !in s && |s| < a.Length && a[..|s|] == s && a[|s|] == NUL
  }

  lemma HeldSlice(a: array<char>, s: string, i: nat, j: nat)
    requires Holds(a, s) && i <= j <= |s|
    ensures a[i..j] == s[i..j]
  {
    forall k | i <= k < j ensures a[k] == s[k] {
      assert a[k] == a[..|s|][k];
    }
  }

  lemma HeldChar(a: array<char>, s: string, i: nat)
    requires Holds(a, s) && i <= |s|
    ensures i < a.Length
    ensures if a[i] == NUL then i == |s| else i < |s| && a[i] == s[i]
  {
    assert i < |s| ==> a[i] == a[..|s|][i] == s[i];
  }

  method StrLen(a: array<char>, ghost s: string) returns (n: nat)
    requires Holds(a, s)
    ensures n == |s|
  {
    n := 0;
    HeldChar(a, s, 0);
    while a[n] != NUL
      invariant n <= |s|
      invariant n < a.Length && (a[n] == NUL <==> n == |s|)
      decreases |s| - n
    {
      n := n + 1;
      HeldChar(a, s, n);
    }
  }

  // Writes s and its terminator from position n on.
  method Write(a: array<char>, n: nat, s: CString)
    requires n + |s| < a.Length
    modifies a
    ensures a[..n] == old(a[..n]) && a[n..n + |s|] == s && a[n + |s|] == NUL
  {
    var k := 0;
    while k < |s|
      invariant k <= |s| && a[..n] == old(a[..n]) && a[n..n + k] == s[..k]
    {
      a[n + k] := s[k];
      k := k + 1;
    }
    a[n + k] := NUL;
  }

  method StrCpy(a: array<char>, s: CString)
    requires |s| < a.Length
    modifies a
    ensures Holds(a, s)
  {
    Write(a, 0, s);
    assert a[..|s|] == a[0..|s|];
  }

  method StrCat(a: array<char>, ghost was: string, s: CString)
    requires Holds(a, was) && |was| + |s| < a.Length
    modifies a
    ensures Holds(a, was + s)
  {
    var n := StrLen(a, was);
    Write(a, n, s);
    assert a[..n + |s|] == a[..n] + a[n..n + |s|];
  }

  // The text that the normaliser works on: an absolute path as it is, a relative one behind
  // the working directory.
  function Joined(cwd: CString, path: CString): CString {
    if path != "" && path[0] == '/' then path
    else cwd + (if |cwd| > 1 && cwd[|cwd| - 1] != '/' then "/" else "") + path
  }

  // One character more is written when the text does not start with a slash.
  function Room(t: string): nat { if t != "" && t[0] == '/' then |t| else |t| + 1 }

  lemma SlashedGrows(stack: seq<string>, x: string)
    ensures Slashed(stack + [x]) == Slashed(stack) + "/" + x
  {
    assert (stack + [x])[..|stack|] == stack;
  }

  // Takes the last name off the buffer, unless it is at the root.
  method Ascend(a: array<char>, ghost stack: seq<string>)
    requires Holds(a, Render(stack)) && AllPlain(stack) && a.Length == BUFFER
    modifies a
    ensures Holds(a, Render(Apply(stack, "..")))
  {
    ghost var s := Render(stack);
    assert forall k :: 0 <= k < |s| ==> a[k] == s[k];
    if !(a[0] == '/' && a[1] == NUL) {
      ghost var front, last := stack[..|stack| - 1], stack[|stack| - 1];
      assert Plain(last);
      ghost var cut := |Slashed(front)|;
      assert s == Slashed(front) + "/" + last;
      var length := StrLen(a, s);
      if length > 1 {
        var idx := length - 1;
        assert forall k :: cut < k < |s| ==> s[k] != '/' by {
          assert forall k :: cut < k < |s| ==> s[k] == last[k - cut - 1];
        }
        while idx > 0 && a[idx] != '/'
          invariant cut <= idx < |s|
        {
          assert s[cut] == '/';
          idx := idx - 1;
        }
        assert idx == cut;
        if idx == 0 && a[0] == '/' {
          a[1] := NUL;
          assert front == [] && a[..1] == "/";
        } else {
          a[idx] := NUL;
          assert a[..idx] == s[..idx] == Slashed(front);
        }
      }
    }
  }

  // Copies one name out of the text, character by character, as far as the buffer goes.
  method CopyName(a: array<char>, n: nat, temp: array<char>, start: nat, length: nat)
    requires a.Length == BUFFER && n + length < BUFFER && a != temp && start + length <= temp.Length
    modifies a
    ensures a[..n] == old(a[..n]) && a[n..n + length] == temp[start..start + length] && a[n + length] == NUL
  {
    var k := 0;
    while k < length && n + k < 255
      invariant k <= length && a[..n] == old(a[..n]) && a[n..n + k] == temp[start..start + k]
    {
      a[n + k] := temp[start + k];
      k := k + 1;
    }
    a[n + length] := NUL;
  }

  // Appends one name, with a slash before it unless the buffer is at the root.
  method Descend(a: array<char>, ghost stack: seq<string>, temp: array<char>, start: nat, length: nat, ghost x: string)
    requires Holds(a, Render(stack)) && AllPlain(stack) && a.Length == BUFFER && |Slashed(stack)| + 1 + |x| < BUFFER
    requires NUL !in x && a != temp
    requires length == |x| && start + length <= temp.Length && temp[start..start + length] == x
    modifies a
    ensures Holds(a, Render(stack + [x]))
  {
    ghost var s := Render(stack);
    ghost var base := Slashed(stack) + "/";
    RenderedBase(stack);
    HeldChar(a, s, 0);
    hide Slashed, Render, AllPlain, Holds;
    var n := StrLen(a, s);
    if n > 1 || a[0] != '/' {
      StrCat(a, s, "/");
    }
    n := StrLen(a, base);
    HeldText(a, base);
    CopyName(a, n, temp, start, length);
    Extended(a, base, x);
    assert Render(stack + [x]) == base + x by { RenderPushed(stack, x); }
  }

  lemma HeldText(a: array<char>, s: string)
    requires Holds(a, s)
    ensures |s| < a.Length && a[..|s|] == s && NUL !in s
  {
  }

  lemma Extended(a: array<char>, s: string, x: string)
    requires |s| + |x| < a.Length && NUL !in s && NUL !in x
    requires a[..|s|] == s && a[|s|..|s| + |x|] == x && a[|s| + |x|] == NUL
    ensures Holds(a, s + x)
  {
    assert a[..|s| + |x|] == a[..|s|] + a[|s|..|s| + |x|];
  }

  lemma RenderedBase(stack: seq<string>)
    requires AllPlain(stack)
    ensures Render(stack)[0] == '/' || |Render(stack)| > 1
    ensures Slashed(stack) + "/" == if |Render(stack)| > 1 then Render(stack) + "/" else Render(stack)
  {
    if stack != [] {
      assert Plain(stack[|stack| - 1]);
    } else {
      assert Slashed(stack) == "";
    }
  }

  lemma RenderPushed(stack: seq<string>, x: string)
    ensures Render(stack + [x]) == Slashed(stack) + "/" + x
  {
    SlashedGrows(stack, x);
  }

  lemma SegmentStep(stack: seq<string>, t: string)
    requires t != ""
    ensures t[0] == '/' ==> ApplyAll(stack, Segments(t)) == ApplyAll(stack, Segments(t[1..]))
    ensures t[0] != '/' ==>
      var n := SegmentLength(t);
      n > 0 && Segment(t[..n]) && ApplyAll(stack, Segments(t)) == ApplyAll(Apply(stack, t[..n]), Segments(t[n..]))
  {
    if t[0] != '/' {
      var n := SegmentLength(t);
      assert Segments(t)[1..] == Segments(t[n..]);
    }
  }

  // The scan of the text at position ptr, with the names gathered so far.
  ghost predicate Scanning(t: CString, ptr: nat, stack: seq<string>) {
    && ptr <= |t| && AllPlain(stack)
    && ApplyAll(stack, Segments(t[ptr..])) == ApplyAll([], Segments(t))
    && |Slashed(stack)| <= ptr + Room(t) - |t|
    && (ptr < |t| && t[ptr] != '/' ==> |Slashed(stack)| < ptr + Room(t) - |t|)
  }

  lemma SlashSkipped(t: CString, ptr: nat, stack: seq<string>)
    requires Scanning(t, ptr, stack) && ptr < |t| && t[ptr] == '/'
    requires ptr > 0 || stack == []
    ensures Scanning(t, ptr + 1, stack)
  {
    SegmentStep(stack, t[ptr..]);
    assert t[ptr..][1..] == t[ptr + 1..];
  }

  lemma ScanStarts(t: CString)
    ensures |t| <= Room(t) && Scanning(t, 0, [])
  {
    assert t[0..] == t;
  }

  lemma AppliedLength(stack: seq<string>, x: string)
    ensures |Slashed(Apply(stack, x))| <= |Slashed(stack)| + 1 + |x|
  {
    if x == ".." {
      if stack != [] {
        SlashedGrows(stack[..|stack| - 1], stack[|stack| - 1]);
        assert stack[..|stack| - 1] + [stack[|stack| - 1]] == stack;
      }
    } else if x != "." {
      SlashedGrows(stack, x);
    }
  }

  lemma SegmentFound(t: string, ptr: nat)
    requires ptr < |t| && t[ptr] != '/'
    ensures var n := SegmentLength(t[ptr..]);
      && 0 < n <= |t| - ptr && Segment(t[ptr..ptr + n]) && (ptr + n < |t| ==> t[ptr + n] == '/')
      && t[ptr..ptr + n] == t[ptr..][..n] && t[ptr + n..] == t[ptr..][n..]
  {
  }

  lemma AppliedPlain(stack: seq<string>, x: string)
    requires AllPlain(stack) && Segment(x)
    ensures AllPlain(Apply(stack, x))
  {
  }

  lemma SegmentTaken(t: CString, ptr: nat, stack: seq<string>, n: nat)
    requires Scanning(t, ptr, stack) && ptr < |t| && t[ptr] != '/' && n == SegmentLength(t[ptr..])
    ensures 0 < n <= |t| - ptr
    ensures Scanning(t, ptr + n, Apply(stack, t[ptr..ptr + n]))
    ensures AllPlain(stack) && |Slashed(stack)| + 1 + n <= Room(t)
  {
    hide Segments, SegmentLength, ApplyAll, Room, Slashed, Segment, Apply, AllPlain;
    SegmentFound(t, ptr);
    SegmentStep(stack, t[ptr..]);
    AppliedLength(stack, t[ptr..ptr + n]);
    AppliedPlain(stack, t[ptr..ptr + n]);
  }

  lemma ScanEnds(t: CString, stack: seq<string>)
    requires Scanning(t, |t|, stack)
    ensures Render(stack) == Normalise(t)
  {
    assert t[|t|..] == "";
  }

  // The text to normalise, put together in the first buffer.
  method BuildText(temp: array<char>, cwd: CString, path: CString)
    requires temp.Length == BUFFER && |Joined(cwd, path)| < BUFFER && |cwd| + 1 < BUFFER
    modifies temp
    ensures Holds(temp, Joined(cwd, path))
  {
    StrCpy(temp, "");
    if path != "" && path[0] == '/' {
      StrCpy(temp, path);
    } else {
      StrCpy(temp, cwd);
      var n := StrLen(temp, cwd);
      assert n > 0 ==> temp[n - 1] == temp[..n][n - 1];
      if n > 1 && temp[n - 1] != '/' {
        StrCat(temp, cwd, "/");
        StrCat(temp, cwd + "/", path);
      } else {
        StrCat(temp, cwd, path);
        assert cwd + "" == cwd;
      }
    }
  }

  // Where a segment that starts at ptr ends.
  method SegmentEnd(temp: array<char>, ghost t: CString, ptr: nat) returns (end: nat)
    requires Holds(temp, t) && ptr < |t| && t[ptr] != '/'
    ensures end == ptr + SegmentLength(t[ptr..]) && end <= |t| && temp[ptr..end] == t[ptr..end]
  {
    SegmentFound(t, ptr);
    ghost var n := SegmentLength(t[ptr..]);
    assert forall k :: ptr <= k < ptr + n ==> t[k] != '/' by {
      assert forall k :: ptr <= k < ptr + n ==> t[k] == t[ptr..ptr + n][k - ptr];
    }
    hide SegmentLength;
    end := ptr;
    HeldChar(temp, t, ptr);
    while temp[end] != NUL && temp[end] != '/'
      invariant ptr <= end <= ptr + n
      invariant end < temp.Length && if temp[end] == NUL then end == |t| else end < |t| && temp[end] == t[end]
      decreases |t| - end
    {
      end := end + 1;
      HeldChar(temp, t, end);
    }
    HeldSlice(temp, t, ptr, end);
  }

  // Applies one segment of the text to the buffer.
  method TakeSegment(a: array<char>, ghost stack: seq<string>, temp: array<char>, start: nat, length: nat,
                     ghost x: string)
    requires Holds(a, Render(stack)) && AllPlain(stack) && a.Length == BUFFER && |Slashed(stack)| + 1 + |x| < BUFFER
    requires NUL !in x && a != temp
    requires length == |x| && start + length <= temp.Length && temp[start..start + length] == x
    modifies a
    ensures Holds(a, Render(Apply(stack, x)))
  {
    hide AllPlain, Slashed, Render, Apply;
    ApplyCases(stack, x);
    assert forall k :: 0 <= k < length ==> temp[start + k] == x[k];
    if length == 2 && temp[start] == '.' && temp[start + 1] == '.' {
      Ascend(a, stack);
    } else if length == 1 && temp[start] == '.' {
    } else {
      Descend(a, stack, temp, start, length, x);
    }
  }

  lemma ApplyCases(stack: seq<string>, x: string)
    ensures |x| == 2 && x[0] == '.' && x[1] == '.' ==> Apply(stack, x) == Apply(stack, "..")
    ensures |x| == 1 && x[0] == '.' ==> Apply(stack, x) == stack
    ensures !(|x| == 2 && x[0] == '.' && x[1] == '.') && !(|x| == 1 && x[0] == '.') ==> Apply(stack, x) == stack + [x]
  {
  }

  // Works off the segment that starts at position ptr of the text.
  method WorkSegment(normalized: array<char>, temp: array<char>, ghost t: CString, ptr: nat, ghost stack: seq<string>)
    returns (end: nat, ghost stack': seq<string>)
    requires Holds(temp, t) && Room(t) < BUFFER && normalized.Length == BUFFER && normalized != temp
    requires Holds(normalized, Render(stack)) && Scanning(t, ptr, stack) && ptr < |t| && t[ptr] != '/'
    modifies normalized
    ensures ptr < end <= |t| && Scanning(t, end, stack') && Holds(normalized, Render(stack'))
  {
    hide Segments, SegmentLength, ApplyAll, Room, Slashed, Segment, Scanning, Apply, Render, AllPlain;
    ghost var n := SegmentLength(t[ptr..]);
    SegmentTaken(t, ptr, stack, n);
    end := SegmentEnd(temp, t, ptr);
    TakeSegment(normalized, stack, temp, ptr, end - ptr, t[ptr..end]);
    stack' := Apply(stack, t[ptr..end]);
  }

  // Runs over the text in temp and builds the normalised path in the second buffer.
  method NormaliseText(normalized: array<char>, temp: array<char>, ghost t: CString)
    requires Holds(temp, t) && Room(t) < BUFFER && normalized.Length == BUFFER && normalized != temp
    modifies normalized
    ensures Holds(normalized, Normalise(t))
  {
    ScanStarts(t);
    assert Render([]) == "/";
    hide Room, Scanning, Render, Normalise;
    StrCpy(normalized, "/");
    var ptr := 0;
    ghost var stack: seq<string> := [];
    while temp[ptr] != NUL
      invariant Holds(temp, t) && Holds(normalized, Render(stack)) && ptr <= |t| && Scanning(t, ptr, stack)
      invariant ptr == 0 ==> stack == []
      decreases |t| - ptr
    {
      HeldChar(temp, t, ptr);
      if temp[ptr] == '/' {
        SlashSkipped(t, ptr, stack);
        ptr := ptr + 1;
      } else {
        ptr, stack := WorkSegment(normalized, temp, t, ptr, stack);
      }
    }
    HeldChar(temp, t, ptr);
    ScanEnds(t, stack);
  }

  /** The buffer ends up holding the rendering of the stack of names: every name pushes, "."
      does nothing, ".." pops and stays at the root. */
  method ResolvePathDisplay(resolved: array<char>, cwd: CString, path: CString)
    requires resolved.Length == BUFFER && Room(Joined(cwd, path)) < BUFFER && |cwd| + 1 < BUFFER
    modifies resolved
    ensures Holds(resolved, Normalise(Joined(cwd, path)))
  {
    ghost var t := Joined(cwd, path);
    hide Normalise;
    if path != "" && path[0] == '/' {
      StrCpy(resolved, "/");
    }
    var temp := new char[BUFFER];
    BuildText(temp, cwd, path);
    var normalized := new char[BUFFER];
    NormaliseText(normalized, temp, t);
    var length := StrLen(normalized, Normalise(t));
    StrCpy(resolved, normalized[..length]);
  }

  /** The shell keeps its working directory canonical, and then a relative path means the same
      as the two joined with a slash; an absolute path forgets the working directory. */
  lemma RelativeMeansJoined(cwd: CString, path: CString)
    requires Canonical(cwd)
    ensures Normalise(Joined(cwd, path)) ==
            if path != "" && path[0] == '/' then Normalise(path) else Normalise(cwd + "/" + path)
    ensures Canonical(Normalise(Joined(cwd, path)))
  {
    NormaliseCanonical(Joined(cwd, path));
    if !(path != "" && path[0] == '/') {
      if cwd == "/" {
        assert (cwd + "/" + path)[1..] == Joined(cwd, path);
      } else {
        CanonicalEnds(cwd);
        assert Joined(cwd, path) == cwd + "/" + path;
      }
    }
  }

  lemma CanonicalEnds(p: string)
    requires Canonical(p) && p != "/"
    ensures |p| > 1 && p[|p| - 1] != '/'
  {
    var stack := Segments(p);
    if stack != [] {
      var last := stack[|stack| - 1];
      assert Plain(last) && p == Slashed(stack[..|stack| - 1]) + "/" + last;
      assert p[|p| - 1] == last[|last| - 1];
    }
  }
}
