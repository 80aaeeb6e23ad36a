/** resolve_path of the shell (init/main.c): a path edited in a character buffer,
    against a stack of components. */
module PathNormalizer {
  import opened Basics
  import opened VfsTree

  const BUFFER: nat := 128
  /** Characters the buffer holds in front of its terminator. */
  const ROOM: nat := 127

  // ---------------------------------------------------------------------------
  // Components
  // ---------------------------------------------------------------------------

  /** The non-empty pieces between slashes. */
  function Segments(p: string): (ss: seq<string>)
    decreases |p|
  {
    if p == "" then []
    else
      var n := UpToSlash(p);
      (if n == 0 then [] else [p[..n]]) + Segments(if n < |p| then p[n + 1..] else "")
  }

  predicate NoSlash(c: string) { forall i :: 0 <= i < |c| ==> c[i] != '/' }

  /** A component that names something below its directory. */
  predicate Plain(c: string) { c != "" && NoSlash(c) && c != "." && c != ".." }

  predicate AllPlain(stack: seq<string>) { forall i :: 0 <= i < |stack| ==> Plain(stack[i]) }

  function Joined(stack: seq<string>): string {
    if stack == [] then "" else Joined(stack[..|stack| - 1]) + "/" + stack[|stack| - 1]
  }

  function Render(stack: seq<string>): string {
    if stack == [] then "/" else Joined(stack)
  }

  /** One component of the input on the stack. */
  function Apply(stack: seq<string>, c: string): seq<string> {
    if c == "." then stack
    else if c == ".." then if stack == [] then [] else stack[..|stack| - 1]
    else stack + [c]
  }

  function Norm(stack: seq<string>, cs: seq<string>): seq<string>
    decreases |cs|
  {
    if cs == [] then stack else Norm(Apply(stack, cs[0]), cs[1..])
  }

  /** A path as cd keeps it: absolute, no empty, "." or ".." component, and no
      trailing slash except for the root. */
  predicate Canonical(p: string) {
    AllPlain(Segments(p)) && p == Render(Segments(p))
  }

  /** What resolve_path is for. */
  function Resolved(cwd: string, input: string): string {
    Render(Norm(if Absolute(input) then [] else Segments(cwd), Segments(input)))
  }

  // ---------------------------------------------------------------------------
  // Splitting
  // ---------------------------------------------------------------------------

  lemma NoSegments()
    ensures Segments("") == []
  {
  }

  /** A leading slash adds nothing. */
  lemma SegmentsSlash(p: string)
    ensures Segments("/" + p) == Segments(p)
  {
    UpToSlashIs("/" + p, 0);
    assert ("/" + p)[1..] == p;
  }

  /** A segment and what follows it, slash included. */
  lemma SegmentsCons(c: string, rest: string)
    requires c != "" && NoSlash(c) && (rest == "" || rest[0] == '/')
    ensures Segments(c + rest) == [c] + Segments(rest)
  {
    var p := c + rest;
    assert forall i :: 0 <= i < |c| ==> p[i] == c[i];
    UpToSlashIs(p, |c|);
    assert p[..|c|] == c;
    if rest == "" {
      NoSegments();
    } else {
      assert p[|c| + 1..] == rest[1..] && rest == "/" + rest[1..];
      SegmentsSlash(rest[1..]);
    }
  }

  lemma {:induction false} SegmentsSplit(a: string, b: string)
    ensures Segments(a + "/" + b) == Segments(a) + Segments(b)
    decreases |a|
  {
    hide Segments;
    if a == "" {
      NoSegments();
      SegmentsSlash(b);
      assert a + "/" + b == "/" + b;
    } else {
      var n := UpToSlash(a);
      var c, rest := a[..n], a[n..];
      assert a == c + rest && a + "/" + b == c + (rest + "/" + b);
      if n == 0 {
        assert a == "/" + a[1..] && a + "/" + b == "/" + (a[1..] + "/" + b);
        SegmentsSlash(a[1..]);
        SegmentsSlash(a[1..] + "/" + b);
        SegmentsSplit(a[1..], b);
      } else {
        SegmentsCons(c, rest);
        SegmentsCons(c, rest + "/" + b);
        SegmentsSplit(rest, b);
      }
    }
  }

  lemma OneSegment(c: string)
    requires c != "" && NoSlash(c)
    ensures Segments(c) == [c]
  {
    SegmentsCons(c, "");
    assert c + "" == c;
    NoSegments();
  }

  lemma {:induction false} SegmentsJoined(stack: seq<string>)
    requires AllPlain(stack)
    ensures Segments(Joined(stack)) == stack
    decreases |stack|
  {
    hide Segments;
    if stack == [] {
      NoSegments();
    } else {
      var front, last := stack[..|stack| - 1], stack[|stack| - 1];
      SegmentsJoined(front);
      SegmentsSplit(Joined(front), last);
      OneSegment(last);
      assert front + [last] == stack;
    }
  }

  /** The components of a rendered stack are the stack. */
  lemma SegmentsRender(stack: seq<string>)
    requires AllPlain(stack)
    ensures Segments(Render(stack)) == stack && Absolute(Render(stack))
  {
    if stack == [] {
      SegmentsSlash("");
      NoSegments();
      assert "/" + "" == "/";
    } else {
      SegmentsJoined(stack);
      JoinedStarts(stack);
    }
  }

  lemma {:induction false} JoinedStarts(stack: seq<string>)
    requires stack != []
    ensures |Joined(stack)| > 0 && Joined(stack)[0] == '/'
    decreases |stack|
  {
    if |stack| > 1 {
      JoinedStarts(stack[..|stack| - 1]);
    }
  }

  // ---------------------------------------------------------------------------
  // What the result means
  // ---------------------------------------------------------------------------

  lemma {:induction false} SegmentsHaveNoSlash(p: string)
    ensures forall i :: 0 <= i < |Segments(p)| ==> Segments(p)[i] != "" && NoSlash(Segments(p)[i])
    decreases |p|
  {
    if p != "" {
      SegmentsHaveNoSlash(if UpToSlash(p) < |p| then p[UpToSlash(p) + 1..] else "");
    }
  }

  lemma {:induction false} NormPlain(stack: seq<string>, cs: seq<string>)
    requires AllPlain(stack) && forall i :: 0 <= i < |cs| ==> cs[i] != "" && NoSlash(cs[i])
    ensures AllPlain(Norm(stack, cs))
    decreases |cs|
  {
    hide NoSlash;
    if cs != [] {
      NormPlain(Apply(stack, cs[0]), cs[1..]);
    }
  }

  lemma {:induction false} NormSplit(stack: seq<string>, a: seq<string>, b: seq<string>)
    ensures Norm(stack, a + b) == Norm(Norm(stack, a), b)
    decreases |a|
  {
    if a == [] {
      assert a + b == b;
    } else {
      NormSplit(Apply(stack, a[0]), a[1..], b);
      assert (a + b)[0] == a[0] && (a + b)[1..] == a[1..] + b;
    }
  }

  /** Plain components are all kept. */
  lemma {:induction false} NormOfPlain(stack: seq<string>, cs: seq<string>)
    requires AllPlain(cs)
    ensures Norm(stack, cs) == stack + cs
    decreases |cs|
  {
    if cs == [] {
      assert stack + cs == stack;
    } else {
      assert Plain(cs[0]);
      NormOfPlain(stack + [cs[0]], cs[1..]);
      assert stack + [cs[0]] + cs[1..] == stack + cs;
    }
  }

  /** The components behind a result. */
  function StackOf(cwd: string, input: string): seq<string> {
    Norm(if Absolute(input) then [] else Segments(cwd), Segments(input))
  }

  lemma ResultStack(cwd: string, input: string)
    requires Absolute(input) || Canonical(cwd)
    ensures AllPlain(StackOf(cwd, input)) && Segments(Resolved(cwd, input)) == StackOf(cwd, input)
    ensures Absolute(Resolved(cwd, input))
  {
    hide Segments, Norm, Render, NoSlash;
    SegmentsHaveNoSlash(input);
    NormPlain(if Absolute(input) then [] else Segments(cwd), Segments(input));
    SegmentsRender(StackOf(cwd, input));
  }

  /** The result is canonical. */
  lemma ResultCanonical(cwd: string, input: string)
    requires Absolute(input) || Canonical(cwd)
    ensures Canonical(Resolved(cwd, input)) && Absolute(Resolved(cwd, input))
  {
    ResultStack(cwd, input);
  }

  /** A canonical path resolves to itself, from anywhere. */
  lemma CanonicalFixed(cwd: string, p: string)
    requires Canonical(p)
    ensures Absolute(p) && Resolved(cwd, p) == p
  {
    hide Segments, Norm;
    SegmentsRender(Segments(p));
    NormOfPlain([], Segments(p));
    assert [] + Segments(p) == Segments(p);
  }

  /** Resolving twice changes nothing. */
  lemma Idempotent(cwd: string, other: string, input: string)
    requires Absolute(input) || Canonical(cwd)
    ensures Resolved(other, Resolved(cwd, input)) == Resolved(cwd, input)
  {
    ResultCanonical(cwd, input);
    CanonicalFixed(other, Resolved(cwd, input));
  }

  /** Going to a and then to b is going to a/b: for any a that is not empty and
      any b that is not absolute. */
  lemma ResolveInSteps(cwd: string, a: string, b: string)
    requires Canonical(cwd) && a != "" && !Absolute(b)
    ensures Resolved(Resolved(cwd, a), b) == Resolved(cwd, a + "/" + b)
  {
    hide Segments, Norm, Render, Canonical;
    ResultStack(cwd, a);
    SegmentsSplit(a, b);
    NormSplit(if Absolute(a) then [] else Segments(cwd), Segments(a), Segments(b));
    assert Absolute(a + "/" + b) <==> Absolute(a);
  }

  /** How many directories the components climb above a place that lies `depth`
      of their own below where they start. */
  function Climb(depth: nat, cs: seq<string>): nat
    decreases |cs|
  {
    if cs == [] then 0
    else if cs[0] == "." then Climb(depth, cs[1..])
    else if cs[0] == ".." then if depth == 0 then 1 + Climb(0, cs[1..]) else Climb(depth - 1, cs[1..])
    else Climb(depth + 1, cs[1..])
  }

  /** Of a stack below, exactly what is climbed over is lost. */
  lemma {:induction false} NormAbove(below: seq<string>, own: seq<string>, cs: seq<string>)
    ensures Norm(below + own, cs) == below[..|below| - Min(|below|, Climb(|own|, cs))] + Norm(own, cs)
    decreases |cs|
  {
    if cs == [] {
      assert below[..|below|] == below;
    } else if cs[0] == ".." && own == [] {
      assert below + own == below;
      var less := below[..|below| - Min(|below|, 1)];
      assert Apply(below, "..") == less == less + [];
      NormAbove(less, [], cs[1..]);
    } else {
      assert Apply(below + own, cs[0]) == below + Apply(own, cs[0]);
      NormAbove(below, Apply(own, cs[0]), cs[1..]);
    }
  }

  lemma RenderOneToOne(a: seq<string>, b: seq<string>)
    requires AllPlain(a) && AllPlain(b)
    ensures Render(a) == Render(b) <==> a == b
  {
    SegmentsRender(a);
    SegmentsRender(b);
  }

  /** With an empty a the slash makes the path absolute: going to a and then to b
      is going to a/b exactly when b climbs out of all of cwd. */
  lemma EmptyFirstStep(cwd: string, b: string)
    requires Canonical(cwd) && !Absolute(b)
    ensures Resolved(Resolved(cwd, ""), b) == Resolved(cwd, "" + "/" + b) <==>
            |Segments(cwd)| <= Climb(0, Segments(b))
  {
    hide Norm, Render, Climb;
    var from, cs := Segments(cwd), Segments(b);
    NoSegments();
    NormNothing(from);
    assert "" + "/" + b == "/" + b;
    SegmentsSlash(b);
    SegmentsHaveNoSlash(b);
    NormPlain(from, cs);
    NormPlain([], cs);
    RenderOneToOne(Norm(from, cs), Norm([], cs));
    NormAbove(from, [], cs);
    assert from + [] == from;
    hide Segments;
  }

  /** From /a, going to "" and then to x is not going to "/x". */
  lemma EmptyFirstStepFails()
    ensures Canonical("/a") && Resolved(Resolved("/a", ""), "x") != Resolved("/a", "" + "/" + "x")
  {
    assert AllPlain(["a"]);
    SegmentsRender(["a"]);
    assert Joined([]) == "" && Render(["a"]) == "/a";
    OneSegment("x");
    EmptyFirstStep("/a", "x");
    assert Climb(0, ["x"]) == 0;
  }

  lemma NormNothing(stack: seq<string>)
    ensures Norm(stack, []) == stack
  {
  }

  // ---------------------------------------------------------------------------
  // The buffer
  // ---------------------------------------------------------------------------

  /** The buffer text for a stack, with or without a slash at its end. */
  predicate Holds(text: string, stack: seq<string>) {
    text == Render(stack) || (stack != [] && text == Joined(stack) + "/")
  }

  /** Length of the longest prefix that ends in a slash. */
  function ToSlash(s: string): (n: nat)
    ensures n <= |s| && (n > 0 ==> s[n - 1] == '/') && forall i :: n <= i < |s| ==> s[i] != '/'
  {
    if s == "" then 0 else if s[|s| - 1] == '/' then |s| else ToSlash(s[..|s| - 1])
  }

  lemma ToSlashIs(s: string, n: nat)
    requires n <= |s| && (n > 0 ==> s[n - 1] == '/') && forall i :: n <= i < |s| ==> s[i] != '/'
    ensures ToSlash(s) == n
  {
    var m := ToSlash(s);
    assert m > 0 ==> s[m - 1] == '/';
  }

  /** The pop of "..": the last character goes, then everything behind a slash. */
  lemma PopHolds(text: string, stack: seq<string>)
    requires AllPlain(stack) && stack != [] && Holds(text, stack)
    ensures |text| > 1 && Holds(text[..ToSlash(text[..|text| - 1])], stack[..|stack| - 1])
  {
    var front, last := stack[..|stack| - 1], stack[|stack| - 1];
    assert Plain(last);
    var head := Joined(front) + "/";
    var cut := text[..|text| - 1];
    assert |last| >= 1 && Joined(stack) == head + last;
    assert cut[..|head|] == head;
    forall i | |head| <= i < |cut|
      ensures cut[i] != '/'
    {
      assert cut[i] == last[i - |head|];
    }
    ToSlashIs(cut, |head|);
    assert text[..|head|] == head;
  }

  /** Appending a component, with a slash in front where one is missing. */
  lemma AppendHolds(text: string, stack: seq<string>, c: string)
    requires AllPlain(stack) && Plain(c) && Holds(text, stack)
    ensures text != ""
    ensures var slash := |text| > 1 && text[|text| - 1] != '/';
            Holds(text + (if slash then "/" else "") + c, stack + [c])
            && text + (if slash then "/" else "") + c == Joined(stack + [c])
  {
    assert (stack + [c])[..|stack|] == stack;
    if stack != [] {
      JoinedStarts(stack);
      assert Plain(stack[|stack| - 1]);
      var j := Joined(stack);
      assert j[|j| - 1] == stack[|stack| - 1][|stack[|stack| - 1]| - 1];
      if text == j {
        assert text + "/" + c == Joined(stack + [c]);
      } else {
        assert text + "" + c == Joined(stack + [c]);
      }
    } else {
      assert text + "" + c == "/" + c == Joined([]) + "/" + c;
    }
  }

  lemma EndHolds(text: string, stack: seq<string>)
    requires AllPlain(stack) && Holds(text, stack)
    ensures text != ""
    ensures (if |text| > 1 && text[|text| - 1] == '/' then text[..|text| - 1] else text) == Render(stack)
  {
    if stack != [] {
      JoinedStarts(stack);
      assert Plain(stack[|stack| - 1]);
      var j := Joined(stack);
      assert j[|j| - 1] == stack[|stack| - 1][|stack[|stack| - 1]| - 1];
      assert (j + "/")[..|j|] == j;
    }
  }

  /** The "..": branch on the buffer. */
  method Pop(temp: array<char>, len: nat) returns (len': nat)
    requires temp.Length == BUFFER && 1 < len <= ROOM
    ensures len' == ToSlash(temp[..len - 1]) <= len
  {
    len' := len - 1;
    while len' > 0 && temp[len' - 1] != '/'
      invariant len' <= len - 1 && forall i :: len' <= i < len - 1 ==> temp[i] != '/'
    {
      len' := len' - 1;
    }
    ToSlashIs(temp[..len - 1], len');
  }

  /** The append branch on the buffer; characters past the room are dropped. */
  method Append(temp: array<char>, len: nat, c: string) returns (len': nat)
    requires temp.Length == BUFFER && 1 <= len <= ROOM
    requires var slash := len > 1 && temp[len - 1] != '/'; len + (if slash then 1 else 0) + |c| <= ROOM
    modifies temp
    ensures var slash := len > 1 && old(temp[len - 1]) != '/';
            && len' == len + (if slash then 1 else 0) + |c|
            && temp[..len'] == old(temp[..len]) + (if slash then "/" else "") + c
  {
    len' := len;
    if len > 1 && temp[len - 1] != '/' {
      temp[len] := '/';
      len' := len + 1;
    }
    ghost var start, head := len', temp[..len'];
    for k := 0 to |c|
      invariant len' == start + k && temp[..len'] == head + c[..k]
    {
      if len' < ROOM {
        temp[len'] := c[k];
        len' := len' + 1;
      }
    }
    assert c[..|c|] == c;
  }

  /** Copying the base path into the buffer. */
  method CopyBase(temp: array<char>, cwd: string, absolute: bool) returns (len: nat)
    requires temp.Length == BUFFER && (absolute || (|cwd| < 127 && Canonical(cwd)))
    modifies temp
    ensures 1 <= len <= ROOM && len <= |cwd| + 1 && temp[len - 1] == '/'
    ensures absolute ==> len == 1
    ensures Holds(temp[..len], if absolute then [] else Segments(cwd))
  {
    hide *;
    BufferSizes();
    if absolute {
      temp[0] := '/';
      len := 1;
      RootHolds();
      assert temp[..1] == "/";
      return;
    }
    BaseHolds(cwd);
    len := CopyString(temp, cwd);
    if len == 0 || temp[len - 1] != '/' {
      temp[len] := '/';
      len := len + 1;
      assert temp[..len] == cwd + "/";
    }
  }

  method CopyString(temp: array<char>, s: string) returns (len: nat)
    requires |s| <= temp.Length
    modifies temp
    ensures len == |s| && temp[..len] == s
  {
    len := 0;
    while len < |s|
      invariant len <= |s| && temp[..len] == s[..len]
    {
      temp[len] := s[len];
      len := len + 1;
    }
  }

  lemma BufferSizes()
    ensures 1 < ROOM == 127 < BUFFER
  {
  }

  lemma RootHolds()
    ensures Holds("/", [])
  {
  }

  lemma BaseHolds(cwd: string)
    requires Canonical(cwd)
    ensures cwd != ""
    ensures if cwd[|cwd| - 1] == '/' then Holds(cwd, Segments(cwd)) else Holds(cwd + "/", Segments(cwd))
  {
    hide Segments;
    if Segments(cwd) != [] {
      JoinedStarts(Segments(cwd));
    }
  }

  method SkipSlashes(input: string, p: nat) returns (q: nat)
    requires p <= |input|
    ensures p <= q <= |input| && (q < |input| ==> input[q] != '/') && (p < |input| && input[p] == '/' ==> p < q)
    ensures Segments(input[q..]) == Segments(input[p..])
  {
    hide Segments;
    q := p;
    while q < |input| && input[q] == '/'
      invariant p <= q <= |input| && Segments(input[q..]) == Segments(input[p..])
    {
      SegmentsSlash(input[q + 1..]);
      assert input[q..] == "/" + input[q + 1..];
      q := q + 1;
    }
  }

  method SegmentEnd(input: string, q: nat) returns (end: nat)
    requires q < |input| && input[q] != '/'
    ensures q < end <= |input| && NoSlash(input[q..end]) && (end < |input| ==> input[end] == '/')
    ensures Segments(input[q..]) == [input[q..end]] + Segments(input[end..])
  {
    hide Segments;
    end := q;
    while end < |input| && input[end] != '/'
      invariant q <= end <= |input| && forall i :: q <= i < end ==> input[i] != '/'
    {
      end := end + 1;
    }
    SegmentsCons(input[q..end], input[end..]);
    assert input[q..] == input[q..end] + input[end..];
  }

  lemma StartSegments(input: string, p: nat)
    requires p == if Absolute(input) then 1 else 0
    ensures p <= |input| && Segments(input[p..]) == Segments(input)
  {
    if p == 1 {
      SegmentsSlash(input[1..]);
      assert input == "/" + input[1..];
    }
  }

  lemma BaseIsPlain(cwd: string, input: string)
    requires Absolute(input) || Canonical(cwd)
    ensures AllPlain(if Absolute(input) then [] else Segments(cwd))
  {
  }

  /** The buffer holds one character exactly when the stack is empty. */
  lemma StackEmpty(text: string, stack: seq<string>)
    requires AllPlain(stack) && Holds(text, stack)
    ensures |text| <= 1 <==> stack == []
  {
    if stack != [] {
      assert Plain(stack[|stack| - 1]);
    }
  }

  /** One component off the input, onto the stack. */
  lemma ApplyNext(stack: seq<string>, c: string, rest: seq<string>)
    requires AllPlain(stack) && c != "" && NoSlash(c)
    ensures Norm(stack, [c] + rest) == Norm(Apply(stack, c), rest) && AllPlain(Apply(stack, c))
  {
    assert ([c] + rest)[0] == c && ([c] + rest)[1..] == rest;
  }

  /** What one component does to the buffer. */
  method EditBuffer(temp: array<char>, len: nat, c: string, ghost stack: seq<string>) returns (len': nat)
    requires temp.Length == BUFFER && 1 <= len <= ROOM && c != "" && NoSlash(c)
    requires AllPlain(stack) && Holds(temp[..len], stack) && |Joined(Apply(stack, c))| <= ROOM
    modifies temp
    ensures 1 <= len' <= ROOM
    ensures Holds(temp[..len'], Apply(stack, c))
  {
    hide Holds, NoSlash, AllPlain, Joined;
    len' := len;
    if c == "." {
    } else if c == ".." {
      StackEmpty(temp[..len], stack);
      if len > 1 {
        ghost var text := temp[..len];
        PopHolds(text, stack);
        PlainFront(stack);
        assert text[..|text| - 1] == temp[..len - 1];
        len' := Pop(temp, len);
        assert temp[..len'] == text[..len'];
        EndHolds(text[..len'], stack[..|stack| - 1]);
      }
    } else {
      AppendHolds(temp[..len], stack, c);
      len' := Append(temp, len, c);
    }
  }

  lemma PlainFront(stack: seq<string>)
    requires AllPlain(stack) && stack != []
    ensures AllPlain(stack[..|stack| - 1])
  {
  }

  /** Every path on the way fits the buffer. */
  predicate Roomy(stack: seq<string>, cs: seq<string>)
    decreases |cs|
  {
    cs == [] || (|Joined(Apply(stack, cs[0]))| <= 127 && Roomy(Apply(stack, cs[0]), cs[1..]))
  }

  lemma RoomyNext(stack: seq<string>, c: string, rest: seq<string>)
    requires Roomy(stack, [c] + rest)
    ensures |Joined(Apply(stack, c))| <= ROOM && Roomy(Apply(stack, c), rest)
  {
    assert ([c] + rest)[0] == c && ([c] + rest)[1..] == rest;
  }

  /** resolve_path.  The buffer must take the base path with a slash, and every path
      on the way from there; the function does not check that. */
  method ResolvePath(cwd: string, input: string) returns (dest: string)
    requires Absolute(input) || (Canonical(cwd) && |cwd| < 127)
    requires Roomy(if Absolute(input) then [] else Segments(cwd), Segments(input))
    ensures dest == Resolved(cwd, input)
  {
    hide *;
    BufferSizes();
    var temp := new char[BUFFER];
    var len := CopyBase(temp, cwd, Absolute(input));
    var p: nat := if Absolute(input) then 1 else 0;
    StartSegments(input, p);
    BaseIsPlain(cwd, input);
    ghost var stack;
    len, stack := Process(temp, len, input, p, if Absolute(input) then [] else Segments(cwd));
    EndHolds(temp[..len], stack);
    ResolvedIs(cwd, input);
    dest := temp[..len];
    if len > 1 && temp[len - 1] == '/' {
      assert temp[..len][..len - 1] == temp[..len - 1];
      dest := temp[..len - 1];
    }
  }

  lemma ResolvedIs(cwd: string, input: string)
    ensures Resolved(cwd, input) == Render(Norm(if Absolute(input) then [] else Segments(cwd), Segments(input)))
  {
  }

  /** The loop over the input. */
  method Process(temp: array<char>, start: nat, input: string, from: nat, ghost base: seq<string>)
    returns (len: nat, ghost stack: seq<string>)
    requires temp.Length == BUFFER && 1 <= start <= ROOM && from <= |input|
    requires AllPlain(base) && Holds(temp[..start], base) && Roomy(base, Segments(input[from..]))
    modifies temp
    ensures 1 <= len <= ROOM && stack == Norm(base, Segments(input[from..])) && AllPlain(stack)
    ensures Holds(temp[..len], stack)
  {
    hide *;
    BufferSizes();
    ghost var goal := Norm(base, Segments(input[from..]));
    var p := from;
    len, stack := start, base;
    while p < |input|
      invariant from <= p <= |input| && 1 <= len <= ROOM && AllPlain(stack) && Holds(temp[..len], stack)
      invariant Roomy(stack, Segments(input[p..]))
      invariant Norm(stack, Segments(input[p..])) == goal
    {
      var q := SkipSlashes(input, p);
      if q == |input| {
        p := q;
        break;
      }
      var end := SegmentEnd(input, q);
      var c := input[q..end];
      ApplyNext(stack, c, Segments(input[end..]));
      RoomyNext(stack, c, Segments(input[end..]));
      len := EditBuffer(temp, len, c, stack);
      stack := Apply(stack, c);
      p := end;
    }
    assert input[|input|..] == "";
    NoSegments();
    NormNothing(stack);
  }
}
