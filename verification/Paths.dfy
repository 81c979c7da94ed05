/** Path normalisation on strings: the Rust and Python versions, command paths, prefix filters. */
module Paths {
  import opened Prelude

  datatype Normalized = Path(path: string) | HasNul | NotAbsolute | Escapes

  const NUL: char := '\0'

  // ---------------------------------------------------------------- splitting at '/'

  function Split(s: string): (parts: seq<string>)
    ensures parts != []
  {
    if s == "" then [""]
    else
      var rest := Split(s[1..]);
      if s[0] == '/' then [""] + rest else [[s[0]] + rest[0]] + rest[1..]
  }

  /** The parts hold no slash, and no NUL unless the string does. */
  lemma {:induction false} SplitClean(s: string)
    ensures forall i :: 0 <= i < |Split(s)| ==> '/' !in Split(s)[i] && (NUL in Split(s)[i] ==> NUL in s)
  {
    if s != "" {
      SplitClean(s[1..]);
      assert s == [s[0]] + s[1..];
    }
  }

  lemma {:induction false} SplitCons(c: char, r: string)
    ensures Split([c] + r) == if c == '/' then [""] + Split(r) else [[c] + Split(r)[0]] + Split(r)[1..]
  {
    assert ([c] + r)[1..] == r;
  }

  lemma {:induction false} SplitJoin(s: string, t: string)
    ensures Split(s + "/" + t) == Split(s) + Split(t)
  {
    if s == "" {
      assert s + "/" + t == ['/'] + t;
      SplitCons('/', t);
    } else {
      var c, r := s[0], s[1..];
      SplitJoin(r, t);
      assert s == [c] + r && s + "/" + t == [c] + (r + "/" + t);
      SplitConsJoin(c, r, r + "/" + t, t);
    }
  }

  lemma {:induction false} SplitConsJoin(c: char, r: string, j: string, t: string)
    requires Split(j) == Split(r) + Split(t)
    ensures Split([c] + j) == Split([c] + r) + Split(t)
  {
    hide Split;
    SplitCons(c, r);
    SplitCons(c, j);
    var a, b := Split(r), Split(t);
    if c == '/' {
      Assoc([""], a, b);
    } else {
      assert (a + b)[0] == a[0] && (a + b)[1..] == a[1..] + b;
      Assoc([[c] + a[0]], a[1..], b);
    }
  }

  lemma Assoc(x: seq<string>, y: seq<string>, z: seq<string>)
    ensures x + (y + z) == (x + y) + z
  {
  }

  lemma {:induction false} SplitName(s: string)
    requires '/' !in s
    ensures Split(s) == [s]
  {
    if s != "" {
      SplitName(s[1..]);
      assert s[0] in s && s == [s[0]] + s[1..];
    }
  }

  predicate IsName(c: string) { c != "" && c != "." && c != ".." && '/' !in c }

  predicate AllNames(cs: seq<string>) { forall i :: 0 <= i < |cs| ==> IsName(cs[i]) }

  /** The canonical string of a component list. */
  function Render(cs: seq<string>): string { if cs == [] then "/" else Body(cs) }

  function Body(cs: seq<string>): string {
    if cs == [] then "" else Body(cs[..|cs| - 1]) + "/" + cs[|cs| - 1]
  }

  lemma {:induction false} SplitBody(cs: seq<string>)
    requires AllNames(cs)
    ensures Split(Body(cs)) == [""] + cs
  {
    if cs != [] {
      var init, last := cs[..|cs| - 1], cs[|cs| - 1];
      SplitBody(init);
      SplitJoin(Body(init), last);
      SplitName(last);
      assert cs == init + [last];
    }
  }

  // ---------------------------------------------------------------- resolving components

  function Apply(stack: seq<string>, c: string): Option<seq<string>> {
    if c == "" || c == "." then Some(stack)
    else if c == ".." then (if stack == [] then None else Some(stack[..|stack| - 1]))
    else Some(stack + [c])
  }

  function Resolve(start: seq<string>, parts: seq<string>): Option<seq<string>> {
    if parts == [] then Some(start) else
      match Resolve(start, parts[..|parts| - 1])
      case None => None
      case Some(stack) => Apply(stack, parts[|parts| - 1])
  }

  lemma {:induction false} ResolveOne(start: seq<string>, c: string)
    ensures Resolve(start, [c]) == Apply(start, c)
  {
    assert [c][..0] == [];
  }

  lemma {:induction false} ResolveSplit(start: seq<string>, a: seq<string>, b: seq<string>)
    ensures Resolve(start, a + b)
         == match Resolve(start, a) case None => None case Some(stack) => Resolve(stack, b)
  {
    if b == [] {
      assert a + b == a;
    } else {
      var n := |b| - 1;
      assert (a + b)[..|a| + n] == a + b[..n];
      ResolveSplit(start, a, b[..n]);
    }
  }

  lemma {:induction false} ResolveStuck(start: seq<string>, parts: seq<string>, k: nat)
    requires k <= |parts| && Resolve(start, parts[..k]).None?
    ensures Resolve(start, parts).None?
  {
    ResolveSplit(start, parts[..k], parts[k..]);
    assert parts[..k] + parts[k..] == parts;
  }

  lemma {:induction false} ResolveNames(start: seq<string>, cs: seq<string>)
    requires AllNames(cs)
    ensures Resolve(start, cs) == Some(start + cs)
  {
    if cs == [] {
      assert start + cs == start;
    } else {
      var n := |cs| - 1;
      ResolveNames(start, cs[..n]);
      assert start + cs == start + cs[..n] + [cs[n]];
    }
  }

  lemma {:induction false} ResolveKeepsNames(start: seq<string>, parts: seq<string>)
    requires AllNames(start) && forall i :: 0 <= i < |parts| ==> '/' !in parts[i]
    ensures Resolve(start, parts).Some? ==> AllNames(Resolve(start, parts).value)
  {
    if parts != [] { ResolveKeepsNames(start, parts[..|parts| - 1]); }
  }

  lemma {:induction false} ResolveKeepsNulFree(start: seq<string>, parts: seq<string>)
    requires forall i :: 0 <= i < |start| ==> NUL !in start[i]
    requires forall i :: 0 <= i < |parts| ==> NUL !in parts[i]
    ensures Resolve(start, parts).Some? ==>
              forall i :: 0 <= i < |Resolve(start, parts).value| ==> NUL !in Resolve(start, parts).value[i]
  {
    if parts != [] { ResolveKeepsNulFree(start, parts[..|parts| - 1]); }
  }

  /** Names minus '..' components. */
  function Depth(parts: seq<string>): int {
    if parts == [] then 0 else
      var c := parts[|parts| - 1];
      Depth(parts[..|parts| - 1]) + if c == "" || c == "." then 0 else if c == ".." then -1 else 1
  }

  /** Starting `height` levels below the root, no prefix of the parts climbs above it. */
  ghost predicate NeverAbove(height: int, parts: seq<string>) {
    forall k :: 0 <= k <= |parts| ==> height + Depth(parts[..k]) >= 0
  }

  lemma {:induction false} NeverAboveSnoc(height: int, parts: seq<string>)
    requires parts != []
    ensures NeverAbove(height, parts) <==> NeverAbove(height, parts[..|parts| - 1]) && height + Depth(parts) >= 0
  {
    hide Depth;
    var n := |parts| - 1;
    assert parts[..|parts|] == parts;
    forall k | 0 <= k <= n ensures parts[..n][..k] == parts[..k] {}
    if NeverAbove(height, parts[..n]) && height + Depth(parts) >= 0 {
      forall k | 0 <= k <= |parts| ensures height + Depth(parts[..k]) >= 0 {
        if k <= n { assert height + Depth(parts[..n][..k]) >= 0; }
      }
    }
    if NeverAbove(height, parts) {
      forall k | 0 <= k <= n ensures height + Depth(parts[..n][..k]) >= 0 {
        assert height + Depth(parts[..k]) >= 0;
      }
    }
  }

  /** Resolution works iff no prefix climbs above the start. */
  lemma {:induction false} ResolveIffNeverAbove(start: seq<string>, parts: seq<string>)
    ensures Resolve(start, parts).Some? <==> NeverAbove(|start|, parts)
    ensures Resolve(start, parts).Some? ==> |Resolve(start, parts).value| == |start| + Depth(parts)
  {
    if parts == [] {
      assert parts[..0] == [];
    } else {
      hide NeverAbove;
      ResolveIffNeverAbove(start, parts[..|parts| - 1]);
      NeverAboveSnoc(|start|, parts);
    }
  }

  // ---------------------------------------------------------------- normalisation, as a function

  function Normalize(path: string): Normalized {
    if NUL in path then HasNul
    else if path == "" || path[0] != '/' then NotAbsolute
    else match Resolve([], Split(path))
         case None => Escapes
         case Some(cs) => Path(Render(cs))
  }

  /** Canonical form, read off the string itself. */
  ghost predicate Canonical(p: string) {
    && p != "" && p[0] == '/' && NUL !in p
    && (p == "/" || forall i :: 1 <= i < |Split(p)| ==> IsName(Split(p)[i]))
  }

  /** Components of a canonical path. */
  function Components(p: string): seq<string> {
    if p == "/" then [] else Split(p)[1..]
  }

  lemma {:induction false} RenderSplits(cs: seq<string>)
    requires AllNames(cs)
    ensures Components(Render(cs)) == cs && Resolve([], Split(Render(cs))) == Some(cs)
    ensures Render(cs) != "" && Render(cs)[0] == '/'
  {
    if cs == [] {
      SplitJoin("", "");
      assert Split("/") == ["", ""] by { assert "" + "/" + "" == "/"; }
      assert Split("/")[..1] == [""] && [""][..0] == [];
      assert Resolve([], [""]) == Some([]);
    } else {
      SplitBody(cs);
      BodyStartsWithSlash(cs);
      BodyIsNotRoot(cs);
      ResolveSplit([], [""], cs);
      assert [""][..0] == [];
      assert Resolve([], [""]) == Some([]);
      ResolveNames([], cs);
      assert [] + cs == cs;
    }
  }

  lemma {:induction false} BodyStartsWithSlash(cs: seq<string>)
    requires cs != []
    ensures Body(cs) != "" && Body(cs)[0] == '/'
  {
    if |cs| > 1 { BodyStartsWithSlash(cs[..|cs| - 1]); }
  }

  lemma {:induction false} BodyIsNotRoot(cs: seq<string>)
    requires cs != [] && AllNames(cs)
    ensures Body(cs) != "/"
  {
    assert cs[|cs| - 1] != "";
    assert |Body(cs)| >= 1 + |cs[|cs| - 1]|;
  }

  lemma {:induction false} BodyNulFree(cs: seq<string>)
    requires forall i :: 0 <= i < |cs| ==> NUL !in cs[i]
    ensures NUL !in Body(cs)
  {
    if cs != [] { BodyNulFree(cs[..|cs| - 1]); }
  }

  lemma {:induction false} RenderIsCanonical(cs: seq<string>)
    requires AllNames(cs) && forall i :: 0 <= i < |cs| ==> NUL !in cs[i]
    ensures Canonical(Render(cs)) && Normalize(Render(cs)) == Path(Render(cs))
  {
    RenderSplits(cs);
    BodyNulFree(cs);
    if cs != [] { SplitBody(cs); }
  }

  lemma {:induction false} CanonicalIsRendered(p: string)
    requires Canonical(p)
    ensures AllNames(Components(p)) && p == Render(Components(p))
    ensures forall i :: 0 <= i < |Components(p)| ==> NUL !in Components(p)[i]
  {
    if p != "/" {
      var parts := Split(p);
      SplitClean(p);
      assert parts[0] == "";
      SplitIsBody(p);
    }
  }

  /** Reading a '/'-led string off its own parts. */
  lemma {:induction false} SplitIsBody(p: string)
    ensures p == Split(p)[0] + Body(Split(p)[1..])
  {
    if p != "" {
      SplitIsBody(p[1..]);
      var rest := Split(p[1..]);
      assert p == [p[0]] + p[1..];
      SplitCons(p[0], p[1..]);
      hide Split;
      if p[0] == '/' {
        assert Split(p)[1..] == rest;
        BodyCons(rest[0], rest[1..]);
        assert rest == [rest[0]] + rest[1..];
      } else {
        assert Split(p)[1..] == rest[1..];
      }
    }
  }

  lemma {:induction false} BodyCons(c: string, cs: seq<string>)
    ensures Body([c] + cs) == "/" + c + Body(cs)
  {
    if cs == [] {
      assert [c] + cs == [c] && [c][..0] == [];
    } else {
      var n := |cs| - 1;
      assert ([c] + cs)[..n + 1] == [c] + cs[..n];
      BodyCons(c, cs[..n]);
    }
  }

  /** A NUL-free absolute path normalises iff no component prefix has more '..' than names. */
  lemma {:induction false} NormalizeIffInside(path: string)
    requires NUL !in path && path != "" && path[0] == '/'
    ensures Normalize(path).Path? <==> NeverAbove(0, Split(path))
  {
    ResolveIffNeverAbove([], Split(path));
  }

  /** The results are exactly the canonical paths, and those are exactly the fixed points. */
  lemma {:induction false} NormalizeIsCanonical(path: string)
    ensures Normalize(path).Path? ==> Canonical(Normalize(path).path) && Normalize(Normalize(path).path) == Normalize(path)
    ensures Canonical(path) <==> Normalize(path) == Path(path)
  {
    if Normalize(path).Path? {
      var cs := Resolve([], Split(path)).value;
      SplitClean(path);
      ResolveKeepsNames([], Split(path));
      ResolveKeepsNulFree([], Split(path));
      RenderIsCanonical(cs);
    }
    if Canonical(path) {
      CanonicalIsRendered(path);
      RenderIsCanonical(Components(path));
    }
  }

  // ---------------------------------------------------------------- PathBuf push and pop

  function LastSlash(p: string): (i: int)
    ensures -1 <= i < |p|
    ensures i >= 0 ==> p[i] == '/'
    ensures forall k :: i < k < |p| ==> p[k] != '/'
  {
    if p == "" then -1
    else if p[|p| - 1] == '/' then |p| - 1
    else LastSlash(p[..|p| - 1])
  }

  function Push(p: string, c: string): string {
    if p != "" && p[|p| - 1] == '/' then p + c else p + "/" + c
  }

  /** PathBuf::pop on an absolute path without trailing slash: false at the root. */
  function Pop(p: string): (string, bool) {
    if p == "/" || LastSlash(p) < 0 then (p, false)
    else if LastSlash(p) == 0 then ("/", true)
    else (p[..LastSlash(p)], true)
  }

  lemma {:induction false} PushRender(cs: seq<string>, c: string)
    requires AllNames(cs)
    ensures Push(Render(cs), c) == Render(cs + [c])
  {
    assert (cs + [c])[..|cs|] == cs;
    assert Render(cs + [c]) == Body(cs) + "/" + c;
    if cs == [] {
      assert Body(cs) == "" && "" + "/" + c == "/" + c;
    } else {
      var last := cs[|cs| - 1];
      assert IsName(last) && last[|last| - 1] in last;
      assert Body(cs)[|Body(cs)| - 1] == last[|last| - 1];
    }
  }

  lemma {:induction false} PopRender(cs: seq<string>)
    requires AllNames(cs)
    ensures Pop(Render(cs)) == if cs == [] then ("/", false) else (Render(cs[..|cs| - 1]), true)
  {
    if cs != [] {
      var init, last := cs[..|cs| - 1], cs[|cs| - 1];
      BodyIsNotRoot(cs);
      var k := |Body(init)|;
      assert Body(cs)[k] == '/' && Body(cs)[k + 1..] == last;
      assert forall j :: k < j < |Body(cs)| ==> Body(cs)[j] == last[j - k - 1];
      assert LastSlash(Body(cs)) == k;
      assert Body(cs)[..|Body(init)|] == Body(init);
      if init != [] { BodyStartsWithSlash(init); }
    }
  }

  // ---------------------------------------------------------------- normalisation, law by law

  lemma {:induction false} LastSlashUnique(p: string, k: int)
    requires 0 <= k < |p| && p[k] == '/' && forall j :: k < j < |p| ==> p[j] != '/'
    ensures LastSlash(p) == k
  {
    hide LastSlash;
  }

  /** The string without its last component; the root for a component right below it. */
  function ParentString(x: string): string
    requires LastSlash(x) >= 0
  {
    if LastSlash(x) == 0 then "/" else x[..LastSlash(x)]
  }

  lemma {:induction false} ParentOfRender(cs: seq<string>)
    requires AllNames(cs) && cs != []
    ensures LastSlash(Render(cs)) >= 0 && ParentString(Render(cs)) == Render(cs[..|cs| - 1])
  {
    hide LastSlash;
    PopRender(cs);
    BodyIsNotRoot(cs);
  }

  /** What one more component does to a normalised path, on strings. */
  function Extended(x: string, c: string): Normalized {
    if c == "" || c == "." then Path(x)
    else if c == ".." then (if x == "/" || LastSlash(x) < 0 then Escapes else Path(ParentString(x)))
    else Path(if x == "/" then "/" + c else x + "/" + c)
  }

  lemma {:induction false} ExtendedRender(cs: seq<string>, c: string)
    requires AllNames(cs) && '/' !in c && NUL !in c
    ensures Extended(Render(cs), c) == match Apply(cs, c) case None => Escapes case Some(ds) => Path(Render(ds))
  {
    hide LastSlash, Body;
    RenderRootIff(cs);
    if c == "" || c == "." {
    } else if c == ".." {
      if cs != [] { ParentOfRender(cs); }
    } else {
      RenderSnoc(cs, c);
    }
  }

  lemma RenderRootIff(cs: seq<string>)
    requires AllNames(cs)
    ensures Render(cs) == "/" <==> cs == []
  {
    if cs != [] { BodyIsNotRoot(cs); }
  }

  lemma {:induction false} RenderSnoc(cs: seq<string>, c: string)
    ensures Render(cs + [c]) == if cs == [] then "/" + c else Render(cs) + "/" + c
  {
    assert (cs + [c])[..|cs|] == cs;
    assert Body(cs + [c]) == Body(cs) + "/" + c;
    if cs == [] { assert "" + "/" + c == "/" + c; }
  }

  lemma {:induction false} NulInParts(p: string, c: string)
    ensures NUL in p + "/" + c <==> NUL in p || NUL in c
  {
    var q := p + "/" + c;
    if NUL in p { var i :| 0 <= i < |p| && p[i] == NUL; assert q[i] == NUL; }
    if NUL in c { var i :| 0 <= i < |c| && c[i] == NUL; assert q[|p| + 1 + i] == NUL; }
  }

  /** Normalisation of an absolute path, one component after the other: the law that, with `before`
    * the root for the empty string, fixes the result for every NUL-free absolute path. An escape
    * stays an escape; '.' and empty components change nothing; '..' removes the last component and
    * fails at the root; any other component is appended. */
  lemma {:induction false} NormalizeByComponent(p: string, c: string)
    requires (p == "" || p[0] == '/') && NUL !in p && '/' !in c && NUL !in c
    ensures var before := if p == "" then Path("/") else Normalize(p);
            Normalize(p + "/" + c) == match before case Path(x) => Extended(x, c) case _ => Escapes
  {
    hide Split, Apply, Extended, Render, AllNames;
    NulInParts(p, c);
    assert (p + "/" + c)[0] == '/';
    SplitJoin(p, c);
    SplitName(c);
    SplitClean(p);
    ResolveSplit([], Split(p), [c]);
    ResolvedNames(p);
    if Resolve([], Split(p)).Some? {
      var cs := Resolve([], Split(p)).value;
      ResolveOne(cs, c);
      ExtendedRender(cs, c);
    }
  }

  lemma {:induction false} ResolvedNames(p: string)
    ensures Resolve([], Split(p)).Some? ==> AllNames(Resolve([], Split(p)).value)
    ensures p == "" ==> Resolve([], Split(p)) == Some([]) && Render([]) == "/"
  {
    SplitClean(p);
    ResolveKeepsNames([], Split(p));
    if p == "" { ResolveOne([], ""); }
  }

  /** Going down into a directory and up again is nothing. */
  lemma {:induction false} DownAndUp(p: string, c: string)
    requires p != "" && p[0] == '/' && NUL !in p && IsName(c) && NUL !in c
    ensures Normalize(p + "/" + c + "/" + "..") == Normalize(p)
  {
    hide Normalize, Extended, Canonical;
    NormalizeByComponent(p, c);
    NulInParts(p, c);
    NormalizeByComponent(p + "/" + c, "..");
    NormalizeErrors(p);
    if Normalize(p).Path? {
      NormalizeIsCanonical(p);
      ExtendedAndBack(Normalize(p).path, c);
    }
  }

  lemma {:induction false} ExtendedAndBack(x: string, c: string)
    requires Canonical(x) && IsName(c)
    ensures Extended(x, c).Path? && Extended(Extended(x, c).path, "..") == Path(x)
  {
    hide LastSlash;
    CanonicalNotEmpty(x);
    hide Canonical;
    var k := if x == "/" then 0 else |x|;
    var down := x[..k] + "/" + c;
    if x == "/" { assert x[..0] + "/" + c == "/" + c; } else { assert x[..k] == x; }
    assert down == Extended(x, c).path;
    assert |down| == k + 1 + |c| && down[k] == '/';
    forall j | k < j < |down| ensures down[j] != '/' { assert down[j] == c[j - k - 1]; }
    LastSlashUnique(down, k);
    assert down[..k] == x[..k];
  }

  lemma CanonicalNotEmpty(x: string)
    requires Canonical(x)
    ensures x != ""
  {
  }

  /** Which error, and when. */
  lemma {:induction false} NormalizeErrors(p: string)
    ensures Normalize(p) == HasNul <==> NUL in p
    ensures Normalize(p) == NotAbsolute <==> NUL !in p && (p == "" || p[0] != '/')
  {
  }

  // ---------------------------------------------------------------- the three implementations

  /** The Rust component loop, shared in shape by both Rust functions; None is an escape. */
  method WalkPath(start: string, parts: seq<string>, ghost cs: seq<string>) returns (r: Option<string>)
    requires AllNames(cs) && start == Render(cs) && forall i :: 0 <= i < |parts| ==> '/' !in parts[i]
    ensures r == match Resolve(cs, parts) case None => None case Some(stack) => Some(Render(stack))
  {
    var path := start;
    ghost var stack := cs;
    for i := 0 to |parts|
      invariant AllNames(stack) && path == Render(stack)
      invariant Resolve(cs, parts[..i]) == Some(stack)
    {
      var c := parts[i];
      assert parts[..i + 1][..i] == parts[..i];
      if c == "" || c == "." { continue; }
      if c == ".." {
        PopRender(stack);
        var (popped, ok) := Pop(path);
        if !ok {
          ResolveStuck(cs, parts, i + 1);
          return None;
        }
        path, stack := popped, stack[..|stack| - 1];
        continue;
      }
      PushRender(stack, c);
      path, stack := Push(path, c), stack + [c];
    }
    assert parts[..|parts|] == parts;
    r := Some(path);
  }

  method NormalizePath(path: string) returns (r: Normalized)
    ensures r == Normalize(path)
  {
    if NUL in path { return HasNul; }
    if path == "" || path[0] != '/' { return NotAbsolute; }
    SplitClean(path);
    var walked := WalkPath("/", Split(path), []);
    r := if walked.Some? then Path(walked.value) else Escapes;
  }

  function Join(cs: seq<string>): string {
    if cs == [] then "" else if |cs| == 1 then cs[0] else Join(cs[..|cs| - 1]) + "/" + cs[|cs| - 1]
  }

  lemma {:induction false} JoinIsRender(cs: seq<string>)
    ensures "/" + Join(cs) == Render(cs)
  {
    if |cs| == 1 {
      assert cs[..0] == [] && Body(cs) == "" + "/" + cs[0];
    } else if |cs| > 1 {
      JoinIsRender(cs[..|cs| - 1]);
      assert "/" + Join(cs) == ("/" + Join(cs[..|cs| - 1])) + "/" + cs[|cs| - 1];
    }
  }

  /** Python: a list of components, joined at the end. The callers check NUL and the leading slash. */
  method NormalizeAbsolutePath(path: string) returns (r: Normalized)
    ensures NUL !in path && path != "" && path[0] == '/' ==> r == Normalize(path)
    ensures r.Path? || r == Escapes
  {
    var components: seq<string> := [];
    var parts := Split(path);
    for i := 0 to |parts|
      invariant Resolve([], parts[..i]) == Some(components)
    {
      var c := parts[i];
      assert parts[..i + 1][..i] == parts[..i];
      if |c| == 0 || c == "." { continue; }
      if c == ".." {
        if |components| == 0 {
          ResolveStuck([], parts, i + 1);
          return Escapes;
        }
        components := components[..|components| - 1];
        continue;
      }
      components := components + [c];
    }
    assert parts[..|parts|] == parts;
    JoinIsRender(components);
    r := Path("/" + Join(components));
  }

  /** Rust: a relative command is walked from the working directory, then normalised again. */
  function NormalizeCommand(command: string, cwd: string): Normalized {
    if command != "" && command[0] == '/' then Normalize(command)
    else match Resolve(Components(cwd), Split(command))
         case None => Escapes
         case Some(stack) => Normalize(Render(stack))
  }

  method NormalizeCommandPath(command: string, cwd: string) returns (r: Normalized)
    requires Canonical(cwd)
    ensures r == NormalizeCommand(command, cwd)
  {
    if command != "" && command[0] == '/' {
      r := NormalizePath(command);
      return;
    }
    ghost var cs := Components(cwd);
    CanonicalIsRendered(cwd);
    SplitClean(command);
    var walked := WalkPath(cwd, Split(command), cs);
    if walked.None? { return Escapes; }
    r := NormalizePath(walked.value);
  }

  predicate Relative(command: string) { !(command != "" && command[0] == '/') }

  /** For a NUL-free relative command this is plain normalisation of the joined path, failures included. */
  lemma {:induction false} CommandIsNormalize(command: string, cwd: string)
    requires Canonical(cwd) && NUL !in command && Relative(command)
    ensures NormalizeCommand(command, cwd) == Normalize(cwd + "/" + command)
  {
    RelativeToCwd(cwd, command);
  }

  /** An absolute command does not depend on the working directory. */
  lemma AbsoluteCommand(command: string, cwd: string)
    requires !Relative(command)
    ensures NormalizeCommand(command, cwd) == Normalize(command)
  {
  }

  ghost predicate HoldsNul(cs: seq<string>) { exists i :: 0 <= i < |cs| && NUL in cs[i] }

  lemma {:induction false} BodyHoldsNul(cs: seq<string>)
    ensures NUL in Body(cs) <==> HoldsNul(cs)
  {
    if cs != [] {
      var n := |cs| - 1;
      BodyHoldsNul(cs[..n]);
      assert Body(cs) == Body(cs[..n]) + "/" + cs[n];
      assert HoldsNul(cs[..n]) ==> HoldsNul(cs) by {
        if HoldsNul(cs[..n]) {
          var i :| 0 <= i < n && NUL in cs[..n][i];
          assert NUL in cs[i];
        }
      }
      if HoldsNul(cs) && NUL !in cs[n] {
        var i :| 0 <= i < |cs| && NUL in cs[i];
        assert NUL in cs[..n][i];
      }
    }
  }

  /** The components a relative command resolves to. */
  function Resolved(command: string, cwd: string): Option<seq<string>> {
    Resolve(Components(cwd), Split(command))
  }

  /** With NUL bytes allowed: the NUL test comes after the walk, so the two agree iff there is no NUL
    * or one is left in the components that the command resolves to. A NUL in a component that a later
    * '..' removes goes unnoticed, and a command that escapes is reported as that. */
  lemma {:induction false} CommandIsNormalizeIff(command: string, cwd: string)
    requires Canonical(cwd) && Relative(command)
    ensures NormalizeCommand(command, cwd) == Normalize(cwd + "/" + command)
       <==> NUL !in command || (Resolved(command, cwd).Some? && HoldsNul(Resolved(command, cwd).value))
  {
    hide Canonical, Split, Components;
    if NUL !in command {
      RelativeToCwd(cwd, command);
    } else {
      var joined := cwd + "/" + command;
      assert NUL in joined by { assert NUL in command && joined == (cwd + "/") + command; }
      if Resolved(command, cwd).Some? {
        var stack := Resolved(command, cwd).value;
        BodyHoldsNul(stack);
        if stack == [] { assert Render(stack) == "/"; } else { assert Render(stack) == Body(stack); }
        assert NUL in Render(stack) <==> HoldsNul(stack);
      }
    }
  }

  /** Such a command reaches this function: the lookup through PATH checks its directory entries for
    * nothing, so the entry "\0" with the command ".." is walked as below. */
  lemma {:induction false} NulCanVanish()
    ensures NormalizeCommand("\0/..", "/") == Path("/") && Normalize("/" + "/" + "\0/..") == HasNul
  {
    SplitJoin("\0", "..");
    SplitName("\0");
    SplitName("..");
    assert "\0/.." == "\0" + "/" + "..";
    ResolveSplit([], ["\0"], [".."]);
    ResolveOne([], "\0");
    ResolveOne(["\0"], "..");
    assert Resolve([], Split("\0/..")) == Some([]);
    RenderIsCanonical([]);
    assert ("/" + "/" + "\0/..")[2] == NUL;
  }

  /** Walking from a canonical directory is resolving the concatenated path. */
  lemma {:induction false} RelativeToCwd(cwd: string, command: string)
    requires Canonical(cwd) && NUL !in command
    ensures Normalize(cwd + "/" + command)
         == match Resolve(Components(cwd), Split(command))
            case None => Escapes
            case Some(stack) => Normalize(Render(stack))
  {
    var cs := Components(cwd);
    CanonicalIsRendered(cwd);
    SplitJoin(cwd, command);
    RenderSplits(cs);
    ResolveSplit([], Split(cwd), Split(command));
    SplitClean(command);
    ResolveKeepsNames(cs, Split(command));
    ResolveKeepsNulFree(cs, Split(command));
    if Resolve(cs, Split(command)).Some? { RenderIsCanonical(Resolve(cs, Split(command)).value); }
  }

  // ---------------------------------------------------------------- the event path filter

  predicate PathMatchesPrefix(path: string, prefix: string) {
    prefix == "/" || path == prefix || prefix + "/" <= path
  }

  lemma {:induction false} BodyAppend(a: seq<string>, b: seq<string>)
    ensures Body(a + b) == Body(a) + Body(b)
  {
    if b == [] {
      assert a + b == a;
    } else {
      var n := |b| - 1;
      assert (a + b)[..|a| + n] == a + b[..n];
      BodyAppend(a, b[..n]);
      assert Body(a) + Body(b[..n]) + "/" + b[n] == Body(a) + (Body(b[..n]) + "/" + b[n]);
    }
  }

  lemma {:induction false} AncestorMatches(ds: seq<string>, rest: seq<string>)
    requires ds != [] && rest != []
    ensures Body(ds) + "/" <= Body(ds + rest)
  {
    BodyAppend(ds, rest);
    BodyStartsWithSlash(rest);
    assert Body(rest)[..1] == "/";
  }

  lemma {:induction false} MatchIsAncestor(cs: seq<string>, ds: seq<string>, rest: string)
    requires AllNames(cs) && AllNames(ds) && Body(cs) == Body(ds) + "/" + rest
    ensures ds <= cs
  {
    hide Split, Body;
    SplitJoin(Body(ds), rest);
    SplitBody(cs);
    SplitBody(ds);
    var tail := Split(rest);
    assert [""] + cs == ([""] + ds) + tail;
    assert cs == ([""] + cs)[1..] && (([""] + ds) + tail)[1..] == ds + tail;
  }

  /** The string test is component containment: "/ab" is not inside "/a". */
  lemma {:induction false} PrefixIsAncestry(path: string, prefix: string)
    requires Canonical(path) && Canonical(prefix)
    ensures PathMatchesPrefix(path, prefix) <==> Components(prefix) <= Components(path)
  {
    hide Canonical, Body, Components;
    var cs, ds := Components(path), Components(prefix);
    CanonicalIsRendered(path);
    CanonicalIsRendered(prefix);
    RenderSplits([]);
    if ds == [] {
    } else if ds <= cs {
      assert cs == ds + cs[|ds|..];
      if ds != cs { AncestorMatches(ds, cs[|ds|..]); }
    } else if prefix + "/" <= path {
      BodyIsNotRoot(ds);
      var rest := path[|prefix| + 1..];
      assert path == prefix + "/" + rest;
      if cs != [] {
        MatchIsAncestor(cs, ds, rest);
      } else {
        BodyStartsWithSlash(ds);
      }
    } else {
      BodyIsNotRoot(ds);
    }
  }
}
