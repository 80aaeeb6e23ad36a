/** Short names, long-name slots and the checksum of fat32_vfs.c (FAT32 File
    System Specification, section "FAT Long Directory Entries"). */
module FatNames {
  import opened Basics
  import opened SectorDisk

  /** A C string without its terminator. */
  type Name = s: seq<byte> | forall i :: 0 <= i < |s| ==> s[i] != 0

  const SPACE: byte := 0x20
  const DOT: byte := 0x2E
  const TILDE: byte := 0x7E
  const ONE: byte := 0x31
  const QUESTION: byte := 0x3F

  predicate IsLower(c: byte) { 0x61 <= c <= 0x7A }
  predicate IsUpper(c: byte) { 0x41 <= c <= 0x5A }
  function Up(c: byte): byte { if IsLower(c) then c - 32 else c }
  function Low(c: byte): byte { if IsUpper(c) then c + 32 else c }

  function Uppers(s: seq<byte>): (u: seq<byte>)
    ensures |u| == |s| && forall i :: 0 <= i < |s| ==> u[i] == Up(s[i])
  {
    seq(|s|, i requires 0 <= i < |s| => Up(s[i]))
  }

  function Lowers(s: seq<byte>): (u: seq<byte>)
    ensures |u| == |s| && forall i :: 0 <= i < |s| ==> u[i] == Low(s[i])
  {
    seq(|s|, i requires 0 <= i < |s| => Low(s[i]))
  }

  /** my_strcasecmp(a, b) == 0 */
  predicate SameNoCase(a: seq<byte>, b: seq<byte>) {
    |a| == |b| && forall i :: 0 <= i < |a| ==> Up(a[i]) == Up(b[i])
  }

  method StrCaseCmpIsZero(a: Name, b: Name) returns (same: bool)
    ensures same <==> SameNoCase(a, b)
  {
    var i := 0;
    while i < |a| && i < |b|
      invariant 0 <= i <= |a| && i <= |b|
      invariant forall k :: 0 <= k < i ==> Up(a[k]) == Up(b[k])
    {
      if Up(a[i]) != Up(b[i]) {
        return false;
      }
      i := i + 1;
    }
    same := i == |a| && i == |b|;
  }

  /** Length of the longest prefix without `stop`. */
  function Run(s: seq<byte>, stop: byte): (n: nat)
    ensures n <= |s| && (forall i :: 0 <= i < n ==> s[i] != stop) && (n < |s| ==> s[n] == stop)
  {
    if s == [] || s[0] == stop then 0 else 1 + Run(s[1..], stop)
  }

  lemma RunUnique(s: seq<byte>, stop: byte, n: nat)
    requires n <= |s| && (forall i :: 0 <= i < n ==> s[i] != stop) && (n < |s| ==> s[n] == stop)
    ensures Run(s, stop) == n
  {
    var m := Run(s, stop);
    assert m < |s| ==> s[m] == stop;
  }

  function Pad(s: seq<byte>, n: nat): (p: seq<byte>)
    ensures |s| <= n ==> |p| == n
    ensures |p| >= |s| && p[..|s|] == s && forall i :: |s| <= i < |p| ==> p[i] == SPACE
  {
    s + if |s| < n then seq(n - |s|, _ => SPACE) else []
  }

  /** fat32_to_fat_name: eight characters before the first dot, three after it. */
  function ToFat(name: Name): (f: seq<byte>)
    ensures |f| == 11
  {
    var d := Run(name, DOT);
    Pad(Uppers(name[..Min(d, 8)]), 8)
    + Pad(if d < |name| then Uppers(name[d + 1..Min(d + 4, |name|)]) else [], 3)
  }

  /** fat32_to_normal_name: trimmed at the first space, in lower case. */
  function ToNormal(f: seq<byte>): seq<byte>
    requires |f| == 11
  {
    Lowers(f[..Run(f[..8], SPACE)])
    + if f[8] != SPACE then [DOT] + Lowers(f[8..8 + Run(f[8..], SPACE)]) else []
  }

  /** The names that survive the round trip through eight plus three characters. */
  predicate Fits83(name: Name) {
    var d := Run(name, DOT);
    && d <= 8
    && (forall i :: 0 <= i < |name| ==> name[i] != SPACE)
    && (d < |name| ==> d + 2 <= |name| <= d + 4)
  }

  /** A short name is found under the name it was made from exactly when that
      name has the 8.3 shape. */
  lemma ShortRoundTrip(name: Name)
    ensures SameNoCase(name, ToNormal(ToFat(name))) <==> Fits83(name)
  {
    var d := Run(name, DOT);
    var f := ToFat(name);
    var base := Uppers(name[..Min(d, 8)]);
    var rest := if d < |name| then Uppers(name[d + 1..Min(d + 4, |name|)]) else [];
    assert f[..8] == Pad(base, 8) && f[8..] == Pad(rest, 3);
    PadRun(base, 8);
    PadRun(rest, 3);
    BaseTrip(name, d, f);
    if Fits83(name) {
      RestTrip(name, d, f, rest);
    } else {
      NoTrip(name, d, f, base, rest);
    }
  }

  /** The trimmed length of a padded part is its length up to the first space. */
  lemma PadRun(s: seq<byte>, n: nat)
    requires |s| <= n
    ensures Run(Pad(s, n), SPACE) == Run(s, SPACE)
  {
    var p := Pad(s, n);
    var r := Run(s, SPACE);
    assert forall i :: 0 <= i < |s| ==> p[i] == s[i] by {
      assert p[..|s|] == s;
    }
    RunUnique(p, SPACE, r);
  }

  lemma BaseTrip(name: Name, d: nat, f: seq<byte>)
    requires d == Run(name, DOT) && f == ToFat(name)
    ensures forall i :: 0 <= i < Min(d, 8) ==> f[i] == Up(name[i])
    ensures forall i :: 0 <= i < Min(d, 8) ==> (f[i] == SPACE <==> name[i] == SPACE)
  {
    var base := Uppers(name[..Min(d, 8)]);
    assert f[..8] == Pad(base, 8);
    assert Pad(base, 8)[..|base|] == base;
    forall i | 0 <= i < Min(d, 8)
      ensures f[i] == Up(name[i])
    {
      assert f[i] == f[..8][i] == Pad(base, 8)[..|base|][i];
    }
  }

  lemma RestTrip(name: Name, d: nat, f: seq<byte>, rest: seq<byte>)
    requires d == Run(name, DOT) && f == ToFat(name) && Fits83(name)
    requires rest == if d < |name| then Uppers(name[d + 1..Min(d + 4, |name|)]) else []
    requires f[8..] == Pad(rest, 3) && Run(f[8..], SPACE) == Run(rest, SPACE)
    requires Run(f[..8], SPACE) == Run(Uppers(name[..Min(d, 8)]), SPACE)
    requires forall i :: 0 <= i < Min(d, 8) ==> f[i] == Up(name[i])
    ensures SameNoCase(name, ToNormal(f))
  {
    hide ToFat, Pad, Uppers, Lowers, Run;
    RunUnique(Uppers(name[..d]), SPACE, d);
    assert name[..Min(d, 8)] == name[..d];
    RunUnique(rest, SPACE, |rest|);
    var n := ToNormal(f);
    if d < |name| {
      assert rest == Uppers(name[d + 1..]);
      assert f[8] == f[8..][0] == rest[0];
      assert |n| == d + 1 + |rest|;
      forall i | d < i < |name|
        ensures n[i] == Low(Up(name[i]))
      {
        assert f[8 + (i - d - 1)] == f[8..][i - d - 1] == Pad(rest, 3)[..|rest|][i - d - 1] == rest[i - d - 1];
      }
    } else {
      assert f[8] == f[8..][0] == SPACE;
    }
  }

  lemma NoTrip(name: Name, d: nat, f: seq<byte>, base: seq<byte>, rest: seq<byte>)
    requires d == Run(name, DOT) && f == ToFat(name) && !Fits83(name)
    requires base == Uppers(name[..Min(d, 8)])
    requires rest == if d < |name| then Uppers(name[d + 1..Min(d + 4, |name|)]) else []
    requires f[8..] == Pad(rest, 3) && f[..8] == Pad(base, 8)
    requires Run(f[8..], SPACE) == Run(rest, SPACE) && Run(f[..8], SPACE) == Run(base, SPACE)
    ensures !SameNoCase(name, ToNormal(f))
  {
    hide ToFat, Pad, Uppers, Lowers, Run;
    var n := ToNormal(f);
    var b, r := Run(base, SPACE), Run(rest, SPACE);
    assert |n| == b + if f[8] != SPACE then 1 + r else 0;
    assert f[8] == f[8..][0];
    assert rest == [] ==> f[8] == SPACE;
    assert rest != [] ==> f[8] == rest[0] by {
      if rest != [] {
        assert Pad(rest, 3)[..|rest|][0] == rest[0];
      }
    }
    if SameNoCase(name, n) {
      NoSpaceSurvives(name, n, f);
    }
  }

  lemma NoSpaceSurvives(name: Name, n: seq<byte>, f: seq<byte>)
    requires |f| == 11 && n == ToNormal(f) && SameNoCase(name, n)
    ensures forall i :: 0 <= i < |name| ==> name[i] != SPACE
  {
    hide Lowers;
    var a, r := Run(f[..8], SPACE), Run(f[8..], SPACE);
    forall i | 0 <= i < |name|
      ensures name[i] != SPACE
    {
      if i < a {
        assert n[i] == Low(f[..8][i]);
      } else if i > a {
        assert n[i] == Low(f[8..][i - a - 1]);
      }
      assert Up(n[i]) == Up(name[i]);
    }
  }

  // ---------------------------------------------------------------------------
  // The loops over name buffers
  // ---------------------------------------------------------------------------

  method FillSpaces(out: array<byte>)
    modifies out
    ensures forall i :: 0 <= i < out.Length ==> out[i] == SPACE
  {
    for i := 0 to out.Length
      invariant forall k :: 0 <= k < i ==> out[k] == SPACE
    {
      out[i] := SPACE;
    }
  }

  method ToFatName(name: Name, out: array<byte>)
    requires out.Length == 11
    modifies out
    ensures out[..] == ToFat(name)
  {
    hide Up, ToFat, Run;
    FillSpaces(out);
    var i := CopyBase(name, out);
    RunMeans(name, DOT);
    while i < |name| && name[i] != DOT
      invariant Min(Run(name, DOT), 8) <= i <= Run(name, DOT)
    {
      i := i + 1;
    }
    CopyExtension(name, out, i);
    FatNameIs(name, out[..]);
  }

  lemma RunMeans(s: seq<byte>, b: byte)
    ensures Run(s, b) <= |s| && (forall i :: 0 <= i < Run(s, b) ==> s[i] != b) && (Run(s, b) < |s| ==> s[Run(s, b)] == b)
  {
  }

  /** The name part, up to eight characters in front of the dot. */
  method CopyBase(name: Name, out: array<byte>) returns (i: nat)
    requires out.Length == 11 && forall k :: 0 <= k < 11 ==> out[k] == SPACE
    modifies out
    ensures i == Min(Run(name, DOT), 8)
    ensures forall k :: 0 <= k < i ==> out[k] == Up(name[k])
    ensures forall k :: i <= k < 11 ==> out[k] == SPACE
  {
    hide Up, Run;
    RunMeans(name, DOT);
    i := 0;
    while i < |name| && name[i] != DOT && i < 8
      invariant i <= Min(Run(name, DOT), 8)
      invariant forall k :: 0 <= k < i ==> out[k] == Up(name[k])
      invariant forall k :: i <= k < 11 ==> out[k] == SPACE
    {
      out[i] := Up(name[i]);
      i := i + 1;
    }
  }

  /** The extension, up to three characters behind the dot at `d`. */
  method CopyExtension(name: Name, out: array<byte>, d: nat)
    requires out.Length == 11 && d <= |name| && forall k :: 8 <= k < 11 ==> out[k] == SPACE
    modifies out
    ensures forall k :: 0 <= k < 8 ==> out[k] == old(out[k])
    ensures forall k :: 8 <= k < 11 ==> out[k] == ExtAt(name, d, k - 8)
  {
    hide Up;
    if d < |name| {
      var i, j: nat := d + 1, 8;
      while i < |name| && j < 11
        invariant i == d + 1 + (j - 8) <= |name| && 8 <= j <= 11
        invariant forall k :: 0 <= k < 8 ==> out[k] == old(out[k])
        invariant forall k :: 8 <= k < j ==> out[k] == ExtAt(name, d, k - 8)
        invariant forall k :: j <= k < 11 ==> out[k] == SPACE
      {
        out[j] := Up(name[i]);
        j := j + 1;
        i := i + 1;
      }
    }
  }

  /** Character `k` of the extension field. */
  function ExtAt(name: Name, d: nat, k: nat): byte {
    if d + 1 + k < |name| then Up(name[d + 1 + k]) else SPACE
  }

  lemma FatNameIs(name: Name, f: seq<byte>)
    requires |f| == 11
    requires var d := Run(name, DOT);
             && (forall k :: 0 <= k < Min(d, 8) ==> f[k] == Up(name[k]))
             && (forall k :: Min(d, 8) <= k < 8 ==> f[k] == SPACE)
             && f[8] == ExtAt(name, d, 0) && f[9] == ExtAt(name, d, 1) && f[10] == ExtAt(name, d, 2)
    ensures f == ToFat(name)
  {
    var d := Run(name, DOT);
    var rest := if d < |name| then Uppers(name[d + 1..Min(d + 4, |name|)]) else [];
    BaseIs(name, d, f);
    ExtensionIs(name, d, f, rest);
    hide Pad, Uppers, Run;
    assert f == f[..8] + f[8..];
  }

  lemma BaseIs(name: Name, d: nat, f: seq<byte>)
    requires |f| == 11 && d <= |name|
    requires forall k :: 0 <= k < Min(d, 8) ==> f[k] == Up(name[k])
    requires forall k :: Min(d, 8) <= k < 8 ==> f[k] == SPACE
    ensures Pad(Uppers(name[..Min(d, 8)]), 8) == f[..8]
  {
    hide Pad, Uppers;
    PadIs(Uppers(name[..Min(d, 8)]), 8, f[..8]);
  }

  lemma ExtensionIs(name: Name, d: nat, f: seq<byte>, rest: seq<byte>)
    requires |f| == 11 && d <= |name|
    requires rest == if d < |name| then Uppers(name[d + 1..Min(d + 4, |name|)]) else []
    requires f[8] == ExtAt(name, d, 0) && f[9] == ExtAt(name, d, 1) && f[10] == ExtAt(name, d, 2)
    ensures Pad(rest, 3) == f[8..]
  {
    hide Pad, Uppers;
    var e := [f[8], f[9], f[10]];
    assert f[8..] == e;
    forall i: nat | i < 3
      ensures e[i] == if i < |rest| then rest[i] else SPACE
    {
      assert e[i] == ExtAt(name, d, i);
    }
    PadIs(rest, 3, e);
  }

  lemma PadIs(s: seq<byte>, n: nat, p: seq<byte>)
    requires |s| <= n == |p|
    requires forall i :: 0 <= i < n ==> p[i] == if i < |s| then s[i] else SPACE
    ensures Pad(s, n) == p
  {
    assert Pad(s, n)[..|s|] == s;
  }

  /** The part of a name the short name is built from: spaces dropped, capitals. */
  function Squeeze(s: seq<byte>): (r: seq<byte>)
    ensures |r| <= |s|
  {
    if s == [] then []
    else if Up(s[0]) == SPACE then Squeeze(s[1..])
    else [Up(s[0])] + Squeeze(s[1..])
  }

  function Take(s: seq<byte>, n: nat): (r: seq<byte>)
    ensures |r| == Min(|s|, n)
  {
    if |s| <= n then s else s[..n]
  }

  /** Index after the last dot; 0 when there is none. */
  function AfterLastDot(name: seq<byte>): (i: nat)
    ensures i <= |name| && (i > 0 ==> name[i - 1] == 0x2E) && forall k :: i <= k < |name| ==> name[k] != 0x2E
  {
    if name == [] then 0
    else if name[|name| - 1] == DOT then |name|
    else AfterLastDot(name[..|name| - 1])
  }

  function Extension(name: seq<byte>): seq<byte> {
    var i := AfterLastDot(name);
    if i == 0 then [] else name[i..]
  }

  /** make_short_name: six characters, "~1", three characters of extension. */
  function MakeShort(name: Name): (f: seq<byte>)
    ensures |f| == 11
  {
    Pad(Take(Squeeze(name[..Run(name, DOT)]), 6), 6) + [TILDE, ONE]
    + Pad(Uppers(Take(Extension(name), 3)), 3)
  }

  /** Byte for byte: the name part and the extension in capitals, each padded with
      spaces. */
  lemma ToFatBytes(name: Name)
    ensures var f, d := ToFat(name), Run(name, 0x2E);
            && (forall k :: 0 <= k < 8 ==> if k < d then IsCapital(name[k], f[k]) else f[k] == 0x20)
            && (forall k :: 8 <= k < 11 ==> if d + k - 7 < |name| then IsCapital(name[d + k - 7], f[k]) else f[k] == 0x20)
  {
    hide *;
    BaseBytes(name);
    ExtensionBytes(name);
  }

  lemma BaseBytes(name: Name)
    ensures var f, d := ToFat(name), Run(name, 0x2E);
            forall k :: 0 <= k < 8 ==> if k < d then IsCapital(name[k], f[k]) else f[k] == 0x20
  {
    hide Pad, Uppers, Run, Up, IsCapital;
    var base := Uppers(name[..Min(Run(name, DOT), 8)]);
    PadAt(base, 8);
    CapitalIsUp();
    assert ToFat(name)[..8] == Pad(base, 8);
    assert forall k :: 0 <= k < 8 ==> ToFat(name)[k] == ToFat(name)[..8][k];
  }

  lemma ExtensionBytes(name: Name)
    ensures var f, d := ToFat(name), Run(name, 0x2E);
            forall k :: 8 <= k < 11 ==> if d + k - 7 < |name| then IsCapital(name[d + k - 7], f[k]) else f[k] == 0x20
  {
    hide Pad, Uppers, Run, Up, IsCapital;
    var d := Run(name, DOT);
    var rest := if d < |name| then Uppers(name[d + 1..Min(d + 4, |name|)]) else [];
    PadAt(rest, 3);
    CapitalIsUp();
    assert ToFat(name)[8..] == Pad(rest, 3);
    assert forall k :: 8 <= k < 11 ==> ToFat(name)[k] == ToFat(name)[8..][k - 8];
  }

  /** `u` is the character in capitals, for ASCII letters. */
  predicate IsCapital(c: byte, u: byte) {
    if 0x61 <= c <= 0x7A then u == c - 0x20 else u == c
  }

  lemma CapitalIsUp()
    ensures forall c: byte :: IsCapital(c, Up(c))
  {
  }

  lemma PadAt(s: seq<byte>, n: nat)
    requires |s| <= n
    ensures forall k :: 0 <= k < n ==> Pad(s, n)[k] == if k < |s| then s[k] else 0x20
  {
    assert Pad(s, n)[..|s|] == s;
  }

  /** Characters other than the space. */
  function Solid(s: seq<byte>): (n: nat)
    ensures n <= |s|
  {
    if s == [] then 0 else Solid(s[..|s| - 1]) + if s[|s| - 1] == 0x20 then 0 else 1
  }

  lemma {:induction false} SqueezeMore(s: seq<byte>, c: byte)
    ensures Squeeze(s + [c]) == Squeeze(s) + if c == 0x20 then [] else [Up(c)]
  {
    if s != [] {
      assert (s + [c])[1..] == s[1..] + [c];
      SqueezeMore(s[1..], c);
    }
  }

  /** Each character but the spaces is kept, in order. */
  lemma {:induction false} SqueezeKeeps(s: seq<byte>, p: nat)
    requires p < |s|
    ensures |Squeeze(s)| == Solid(s) && (s[p] != 0x20 ==> Solid(s[..p]) < Solid(s))
    ensures s[p] != 0x20 ==> Squeeze(s)[Solid(s[..p])] == Up(s[p])
  {
    var front, c := s[..|s| - 1], s[|s| - 1];
    assert s == front + [c];
    SqueezeMore(front, c);
    if front != [] {
      SqueezeKeeps(front, if p < |front| then p else 0);
    }
    if p < |front| {
      assert front[..p] == s[..p];
    } else {
      assert s[..p] == front;
    }
  }

  /** Byte for byte: of the part in front of the first dot the first six characters
      that are no spaces, "~1", and what follows the last dot. */
  lemma MadeBytes(name: Name, p: nat)
    requires p < |name|
    ensures var f, d := MakeShort(name), Run(name, 0x2E);
            && f[6] == 0x7E && f[7] == 0x31
            && (p < d && name[p] != 0x20 && Solid(name[..p]) < 6 ==> IsCapital(name[p], f[Solid(name[..p])]))
            && (forall k :: Solid(name[..d]) <= k < 6 ==> f[k] == 0x20)
    ensures var f, e := MakeShort(name), AfterLastDot(name);
            forall k :: 8 <= k < 11 ==> if e > 0 && e + k - 8 < |name| then IsCapital(name[e + k - 8], f[k]) else f[k] == 0x20
  {
    hide MakeShort, Squeeze, Solid, Up, AfterLastDot, Run, Take, IsCapital;
    CapitalIsUp();
    MadeFields(name);
    MadeFront(name, p);
  }

  lemma MadeFields(name: Name)
    ensures var f, kept := MakeShort(name), Take(Squeeze(name[..Run(name, DOT)]), 6);
            && (forall k :: 0 <= k < 6 ==> f[k] == if k < |kept| then kept[k] else 0x20) && f[6] == 0x7E && f[7] == 0x31
            && var e := AfterLastDot(name);
               forall k :: 8 <= k < 11 ==> f[k] == if e > 0 && e + k - 8 < |name| then Up(name[e + k - 8]) else 0x20
  {
    hide Pad, Run, Up, Squeeze, AfterLastDot;
    var kept, e := Take(Squeeze(name[..Run(name, DOT)]), 6), Uppers(Take(Extension(name), 3));
    PadAt(kept, 6);
    PadAt(e, 3);
    assert MakeShort(name) == Pad(kept, 6) + [TILDE, ONE] + Pad(e, 3);
  }

  lemma MadeFront(name: Name, p: nat)
    requires p < |name|
    ensures var kept, d := Take(Squeeze(name[..Run(name, DOT)]), 6), Run(name, DOT);
            && (p < d && name[p] != 0x20 && Solid(name[..p]) < 6 ==>
                  Solid(name[..p]) < |kept| && kept[Solid(name[..p])] == Up(name[p]))
            && |kept| == Min(Solid(name[..d]), 6)
  {
    hide Run, Up, Squeeze, Solid;
    var d := Run(name, DOT);
    var front := name[..d];
    if front != [] {
      SqueezeKeeps(front, if p < d then p else 0);
    } else {
      SqueezeNothing();
    }
    assert p < d ==> front[..p] == name[..p];
  }

  lemma {:induction false} SqueezePrefix(s: seq<byte>, i: nat)
    requires i <= |s|
    ensures Squeeze(s[..i]) <= Squeeze(s)
    decreases |s| - i
  {
    if i < |s| {
      assert s[..i + 1] == s[..i] + [s[i]];
      SqueezeMore(s[..i], s[i]);
      SqueezePrefix(s, i + 1);
    } else {
      assert s[..i] == s;
    }
  }

  /** make_short_name */
  method MakeShortName(name: Name, out: array<byte>)
    requires out.Length == 11
    modifies out
    ensures out[..] == MakeShort(name)
  {
    hide Up, Squeeze, Run, MakeShort;
    FillSpaces(out);
    RunMeans(name, DOT);
    var i := CopySix(name, out);
    out[6], out[7] := TILDE, ONE;
    var ext := |name|;
    while ext > 0 && (ext == |name| || name[ext] != DOT)
      invariant 0 <= ext <= |name|
      invariant forall k :: ext < k < |name| ==> name[k] != DOT
    {
      ext := ext - 1;
    }
    var found := ext < |name| && name[ext] == DOT;
    LastDotIs(name, if found then ext + 1 else 0);
    if found {
      CopyExtension(name, out, ext);
    }
    MadeIs(name, out[..]);
  }

  lemma LastDotIs(name: Name, e: nat)
    requires e <= |name| && (e > 0 ==> name[e - 1] == DOT) && forall k :: e <= k < |name| ==> name[k] != DOT
    ensures AfterLastDot(name) == e
  {
    hide Run;
  }

  /** The first loop of make_short_name. */
  method CopySix(name: Name, out: array<byte>) returns (i: nat)
    requires out.Length == 11 && forall k :: 0 <= k < 11 ==> out[k] == SPACE
    modifies out
    ensures var kept := Take(Squeeze(name[..Run(name, DOT)]), 6);
            && (forall k :: 0 <= k < |kept| ==> out[k] == kept[k])
            && (forall k :: |kept| <= k < 11 ==> out[k] == SPACE)
  {
    hide Up, Squeeze, Run;
    RunMeans(name, DOT);
    ghost var front := name[..Run(name, DOT)];
    i := 0;
    var j: nat := 0;
    SqueezeNothing();
    assert front[..0] == [];
    while i < |name| && name[i] != DOT && j < 6
      invariant i <= |front| && j <= 6 && j == |Squeeze(front[..i])|
      invariant forall k :: 0 <= k < j ==> out[k] == Squeeze(front[..i])[k]
      invariant forall k :: j <= k < 11 ==> out[k] == SPACE
    {
      assert front[..i + 1] == front[..i] + [name[i]];
      SqueezeMore(front[..i], name[i]);
      if name[i] != SPACE {
        out[j] := Up(name[i]);
        j := j + 1;
      }
      i := i + 1;
    }
    SqueezePrefix(front, i);
    assert front[..|front|] == front;
  }

  lemma SqueezeNothing()
    ensures Squeeze([]) == [] && Solid([]) == 0
  {
  }

  lemma MadeIs(name: Name, f: seq<byte>)
    requires |f| == 11 && f[6] == TILDE && f[7] == ONE
    requires var kept := Take(Squeeze(name[..Run(name, DOT)]), 6);
             && (forall k :: 0 <= k < |kept| ==> f[k] == kept[k]) && (forall k :: |kept| <= k < 6 ==> f[k] == SPACE)
    requires var e := AfterLastDot(name);
             forall k :: 8 <= k < 11 ==> f[k] == if e > 0 && e + k - 8 < |name| then Up(name[e + k - 8]) else SPACE
    ensures f == MakeShort(name)
  {
    hide Run, Squeeze, AfterLastDot;
    var kept, e := Take(Squeeze(name[..Run(name, DOT)]), 6), Extension(name);
    PadIs(kept, 6, f[..6]);
    PadIs(Uppers(Take(e, 3)), 3, f[8..]);
    assert f == f[..6] + [TILDE, ONE] + f[8..];
  }

  /** lfn_checksum, one rotation and addition per byte. */
  function ChecksumBits(f: seq<byte>): bv8 {
    if f == [] then 0 else ChecksumBits(f[..|f| - 1]).RotateRight(1) + f[|f| - 1] as bv8
  }

  function Checksum(f: seq<byte>): byte { ChecksumBits(f) as byte }

  /** The FAT specification's form of it, in eight bits: the sum so far rotated right
      by one bit, plus the next character. */
  lemma ChecksumRotates(f: seq<byte>, b: byte)
    ensures Checksum([]) == 0
    ensures Checksum(f + [b]) as bv8 == (Checksum(f) as bv8).RotateRight(1) + b as bv8
  {
    hide ChecksumBits, Checksum;
    BitsRotate(f, b);
    ChecksumInBits(f);
    ChecksumInBits(f + [b]);
    ChecksumOfNothing();
  }

  lemma ChecksumOfNothing()
    ensures Checksum([]) == 0
  {
  }

  lemma ChecksumInBits(f: seq<byte>)
    ensures Checksum(f) as bv8 == ChecksumBits(f)
  {
    hide ChecksumBits;
    BackAndForth(ChecksumBits(f));
  }

  lemma BitsRotate(f: seq<byte>, b: byte)
    ensures ChecksumBits(f + [b]) == ChecksumBits(f).RotateRight(1) + b as bv8
  {
    assert (f + [b])[..|f|] == f;
  }

  lemma BackAndForth(x: bv8)
    ensures (x as byte) as bv8 == x
  {
  }

  /** The rotation as the code spells it. */
  lemma RotateRightIs(x: bv8)
    ensures x.RotateRight(1) == ((x & 1) << 7) | ((x & 0xFE) >> 1)
  {
  }

  lemma LastRotates(f: seq<byte>)
    ensures f == [] ==> Checksum(f) == 0
    ensures f != [] ==> Checksum(f) as bv8 == (Checksum(f[..|f| - 1]) as bv8).RotateRight(1) + f[|f| - 1] as bv8
  {
    hide ChecksumBits, Checksum;
    ChecksumOfNothing();
    if f != [] {
      assert f == f[..|f| - 1] + [f[|f| - 1]];
      ChecksumRotates(f[..|f| - 1], f[|f| - 1]);
    }
  }

  method LfnChecksum(f: seq<byte>) returns (sum: byte)
    ensures sum == Checksum(f)
    ensures f == [] ==> sum == 0
    ensures f != [] ==> sum as bv8 == (Checksum(f[..|f| - 1]) as bv8).RotateRight(1) + f[|f| - 1] as bv8
  {
    var bits: bv8 := 0;
    for i := 0 to |f|
      invariant bits == ChecksumBits(f[..i])
    {
      assert f[..i + 1][..i] == f[..i];
      RotateRightIs(bits);
      bits := (((bits & 1) << 7) | ((bits & 0xFE) >> 1)) + f[i] as bv8;
    }
    assert f[..|f|] == f;
    sum := bits as byte;
    LastRotates(f);
  }

  /** Whether the name gets long-name slots. */
  predicate NeedsLong(name: Name) {
    |name| > 8 || exists i :: 0 <= i < |name| && IsLower(name[i])
  }

  function ShortFor(name: Name): (f: seq<byte>)
    ensures |f| == 11
  {
    if NeedsLong(name) then MakeShort(name) else ToFat(name)
  }

  /** The test in front of fat32_create_entry. */
  method WantsLong(name: Name) returns (long: bool)
    ensures long <==> |name| > 8 || exists i :: 0 <= i < |name| && 0x61 <= name[i] <= 0x7A
    ensures long <==> NeedsLong(name)
  {
    long := |name| > 8;
    if !long {
      for i := 0 to |name|
        invariant long <==> exists k :: 0 <= k < i && 0x61 <= name[k] <= 0x7A
      {
        if 0x61 <= name[i] <= 0x7A {
          long := true;
        }
      }
    }
  }

  /** The short name fat32_create_entry gives an entry. */
  method ShortName(name: Name) returns (f: seq<byte>)
    ensures f == ShortFor(name)
  {
    var out := new byte[11](_ => 0);
    var long := WantsLong(name);
    if long {
      MakeShortName(name, out);
    } else {
      ToFatName(name, out);
    }
    f := out[..];
  }

  /** A short name never looks like the end of the directory. */
  lemma ShortStartsNonZero(name: Name)
    ensures ShortFor(name)[0] != 0
  {
    if NeedsLong(name) {
      var s := Take(Squeeze(name[..Run(name, DOT)]), 6);
      SqueezeNonZero(name[..Run(name, DOT)]);
      assert Pad(s, 6)[..|s|] == s;
      assert MakeShort(name)[0] == Pad(s, 6)[0];
    } else {
      var base := Uppers(name[..Min(Run(name, DOT), 8)]);
      assert Pad(base, 8)[..|base|] == base;
      assert ToFat(name)[0] == Pad(base, 8)[0];
    }
  }

  lemma {:induction false} SqueezeNonZero(s: seq<byte>)
    requires forall i :: 0 <= i < |s| ==> s[i] != 0
    ensures forall i :: 0 <= i < |Squeeze(s)| ==> Squeeze(s)[i] != 0
  {
    if s != [] {
      SqueezeNonZero(s[1..]);
    }
  }

  /** The 8.3 form of a name holds no terminator. */
  lemma ShortNonZero(name: Name)
    ensures forall i :: 0 <= i < 11 ==> ToFat(name)[i] != 0
    ensures forall i :: 0 <= i < |ToNormal(ToFat(name))| ==> ToNormal(ToFat(name))[i] != 0
  {
    var d, f := Run(name, DOT), ToFat(name);
    var base := Uppers(name[..Min(d, 8)]);
    var rest := if d < |name| then Uppers(name[d + 1..Min(d + 4, |name|)]) else [];
    assert f == Pad(base, 8) + Pad(rest, 3);
    hide *;
    PadNonZero(base, 8);
    PadNonZero(rest, 3);
    NormalNonZero(f);
  }

  lemma NormalNonZero(f: seq<byte>)
    requires |f| == 11 && forall i :: 0 <= i < 11 ==> f[i] != 0
    ensures forall i :: 0 <= i < |ToNormal(f)| ==> ToNormal(f)[i] != 0
  {
  }

  lemma PadNonZero(s: seq<byte>, n: nat)
    requires forall i :: 0 <= i < |s| ==> s[i] != 0
    ensures forall i :: 0 <= i < |Pad(s, n)| ==> Pad(s, n)[i] != 0
  {
    assert forall i :: 0 <= i < |s| ==> Pad(s, n)[..|s|][i] == s[i];
  }

  // ---------------------------------------------------------------------------
  // Names that their generated short name reads as
  // ---------------------------------------------------------------------------

  /** Fewer than six characters or six and "~1" in front of the only dot, at most
      three behind it, no spaces. */
  predicate FitsMade(name: Name) {
    var d := Run(name, DOT);
    && (d < 6 || (d == 8 && name[6] == TILDE && name[7] == ONE))
    && (forall i :: 0 <= i < |name| ==> name[i] != SPACE)
    && (d < |name| ==> d + 2 <= |name| <= d + 4 && forall i :: d < i < |name| ==> name[i] != DOT)
  }

  lemma {:induction false} SqueezePlain(s: seq<byte>)
    requires forall i :: 0 <= i < |s| ==> s[i] != SPACE
    ensures Squeeze(s) == Uppers(s)
  {
    if s != [] {
      SqueezePlain(s[1..]);
      assert Uppers(s) == [Up(s[0])] + Uppers(s[1..]);
    }
  }

  lemma {:induction false} SqueezeNoSpace(s: seq<byte>)
    ensures forall i :: 0 <= i < |Squeeze(s)| ==> Squeeze(s)[i] != SPACE
  {
    if s != [] {
      SqueezeNoSpace(s[1..]);
    }
  }

  /** The trimmed parts of a generated short name. */
  lemma MadeParts(name: Name)
    ensures var f, d, x := MakeShort(name), Run(name, DOT), Take(Extension(name), 3);
            && Run(f[..8], SPACE) == (if |Squeeze(name[..d])| < 6 then |Squeeze(name[..d])| else 8)
            && Run(f[8..], SPACE) == Run(Uppers(x), SPACE) <= |x|
            && (f[8] != SPACE <==> x != [] && x[0] != SPACE)
            && (forall i :: 0 <= i < Min(6, |Squeeze(name[..d])|) ==> f[i] == Squeeze(name[..d])[i])
            && f[6] == TILDE && f[7] == ONE
            && (forall i :: 0 <= i < |x| ==> f[8 + i] == Up(x[i]))
  {
    hide Squeeze, Extension, AfterLastDot, Run, Up;
    var f, d, x := MakeShort(name), Run(name, DOT), Take(Extension(name), 3);
    var q := Squeeze(name[..d]);
    SqueezeNoSpace(name[..d]);
    var t, u := Take(q, 6), Uppers(x);
    assert f[..8] == Pad(t, 6) + [TILDE, ONE] && f[8..] == Pad(u, 3);
    assert Pad(t, 6)[..|t|] == t && Pad(u, 3)[..|u|] == u;
    forall i | 0 <= i < |t|
      ensures f[i] == q[i]
    {
      assert f[i] == f[..8][i] == Pad(t, 6)[..|t|][i];
    }
    forall i | 0 <= i < |u|
      ensures f[8 + i] == u[i]
    {
      assert f[8 + i] == f[8..][i] == Pad(u, 3)[..|u|][i];
    }
    RunUnique(f[..8], SPACE, if |q| < 6 then |q| else 8);
    PadRun(u, 3);
    assert f[8] == f[8..][0];
    UpSpace();
  }

  lemma UpSpace()
    ensures forall b: byte :: Up(b) == SPACE <==> b == SPACE
    ensures forall b: byte :: Up(b) == DOT <==> b == DOT
    ensures forall b: byte :: Up(Low(Up(b))) == Up(b)
    ensures Up(Low(TILDE)) == TILDE && Up(Low(ONE)) == ONE
    ensures forall b: byte :: Up(b) == TILDE ==> b == TILDE
    ensures forall b: byte :: Up(b) == ONE ==> b == ONE
  {
  }

  lemma MadeNormal(name: Name)
    ensures var f, d, x := MakeShort(name), Run(name, DOT), Take(Extension(name), 3);
            var q, n := Squeeze(name[..d]), ToNormal(f);
            var b, r := if |q| < 6 then |q| else 8, Run(Uppers(x), SPACE);
            && |n| == b + (if x != [] && x[0] != SPACE then 1 + r else 0) && r <= |x|
            && (forall i :: 0 <= i < Min(6, b) ==> n[i] == Low(q[i]))
            && (b == 8 ==> n[6] == Low(TILDE) && n[7] == Low(ONE))
            && (x != [] && x[0] != SPACE ==> n[b] == DOT && forall i :: 0 <= i < r ==> n[b + 1 + i] == Low(Up(x[i])))
  {
    hide Squeeze, Extension, MakeShort, Run, Up, Low;
    MadeParts(name);
  }

  /** A name is its own generated short name, up to case, exactly when it has that
      shape. */
  lemma MadeRoundTrip(name: Name)
    ensures SameNoCase(name, ToNormal(MakeShort(name))) <==> FitsMade(name)
  {
    if FitsMade(name) {
      MadeTrip(name);
    } else if SameNoCase(name, ToNormal(MakeShort(name))) {
      NoSpaceSurvives(name, ToNormal(MakeShort(name)), MakeShort(name));
      MadeShape(name);
    }
  }

  lemma MadeExtension(name: Name)
    requires FitsMade(name)
    ensures var d := Run(name, DOT); Take(Extension(name), 3) == if d < |name| then name[d + 1..] else []
  {
    hide Run;
    RunMeans(name, DOT);
  }

  /** Nothing in such a name is dropped or trimmed. */
  lemma MadePlain(name: Name)
    requires FitsMade(name)
    ensures var d := Run(name, DOT);
            var x := if d < |name| then name[d + 1..] else [];
            && (d < 6 || d == 8) && Squeeze(name[..d]) == Uppers(name[..d])
            && Take(Extension(name), 3) == x && Run(Uppers(x), SPACE) == |x| && (x != [] ==> x[0] != SPACE)
            && (d < |name| ==> x != [])
  {
    hide Up, Squeeze, Extension, Run;
    var d := Run(name, DOT);
    RunMeans(name, DOT);
    SqueezePlain(name[..d]);
    MadeExtension(name);
    var x := if d < |name| then name[d + 1..] else [];
    UpSpace();
    RunUnique(Uppers(x), SPACE, |x|);
  }

  /** The generated short name of a name of that shape. */
  lemma MadeOf(name: Name)
    requires FitsMade(name)
    ensures var d, n := Run(name, DOT), ToNormal(MakeShort(name));
            && |n| == |name| && (forall i :: 0 <= i < Min(6, d) ==> n[i] == Low(Up(name[i])))
            && (d == 8 ==> n[6] == Low(TILDE) && n[7] == Low(ONE))
            && (d < |name| ==> n[d] == DOT && forall i :: d < i < |name| ==> n[i] == Low(Up(name[i])))
  {
    hide MakeShort, ToNormal, Up, Low, Squeeze, Extension, Run, FitsMade, Uppers;
    var d, n := Run(name, DOT), ToNormal(MakeShort(name));
    var x := if d < |name| then name[d + 1..] else [];
    RunMeans(name, DOT);
    MadeNormal(name);
    MadePlain(name);
    forall i | d < i < |name|
      ensures n[i] == Low(Up(name[i]))
    {
      assert x[i - d - 1] == name[i];
      assert n[d + 1 + (i - d - 1)] == n[i];
    }
  }

  lemma MadeTrip(name: Name)
    requires FitsMade(name)
    ensures SameNoCase(name, ToNormal(MakeShort(name)))
  {
    hide MakeShort, ToNormal, Up, Low, Run;
    MadeOf(name);
    RunMeans(name, DOT);
    UpSpace();
  }

  lemma MadeShape(name: Name)
    requires SameNoCase(name, ToNormal(MakeShort(name))) && forall i :: 0 <= i < |name| ==> name[i] != SPACE
    ensures FitsMade(name)
  {
    hide MakeShort, ToNormal, Up, Low, Squeeze;
    var d, n := Run(name, DOT), ToNormal(MakeShort(name));
    MadeNormal(name);
    SqueezePlain(name[..d]);
    UpSpace();
    var b := if d < 6 then d else 8;
    assert d == b;
  }

  /** A generated short name holds no terminator. */
  lemma MadeNonZero(name: Name)
    ensures forall i :: 0 <= i < |ToNormal(MakeShort(name))| ==> ToNormal(MakeShort(name))[i] != 0
  {
    var d := Run(name, DOT);
    var t, x := Take(Squeeze(name[..d]), 6), Uppers(Take(Extension(name), 3));
    var f := MakeShort(name);
    SqueezeNonZero(name[..d]);
    assert f == Pad(t, 6) + [TILDE, ONE] + Pad(x, 3);
    hide Squeeze, MakeShort, Pad, Run, AfterLastDot;
    PadNonZero(t, 6);
    PadNonZero(x, 3);
    NormalNonZero(f);
  }
}
