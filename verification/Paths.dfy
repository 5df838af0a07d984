/** Absolute paths, their lexical normalisation, and putting a symbolic link's target back into the
    mount namespace. */
module Paths {

  type Components = seq<string>

  // ---- Splitting ----

  /** The pieces between slashes, empty ones included. */
  function Split(s: string): (r: Components)
    ensures |r| > 0
    decreases |s|
  {
    if s == "" then [""]
    else
      var rest := Split(s[1..]);
      if s[0] == '/' then [""] + rest else [[s[0]] + rest[0]] + rest[1..]
  }

  function Join(cs: Components): string {
    if cs == [] then "" else if |cs| == 1 then cs[0] else cs[0] + "/" + Join(cs[1..])
  }

  /** Splitting loses nothing and leaves no slash in a piece. */
  lemma {:induction false} SplitIsExact(s: string)
    ensures Join(Split(s)) == s && forall i :: 0 <= i < |Split(s)| ==> '/' !in Split(s)[i]
    decreases |s|
  {
    if s != "" {
      SplitIsExact(s[1..]);
      var rest := Split(s[1..]);
      if s[0] == '/' {
        var all := [""] + rest;
        assert all[1..] == rest;
        assert Join(all) == "" + "/" + Join(rest);
      } else {
        var all := [[s[0]] + rest[0]] + rest[1..];
        assert Split(s) == all && all[0] == [s[0]] + rest[0];
        if |rest| > 1 { assert all[1..] == rest[1..]; }
        assert Join(all) == [s[0]] + Join(rest);
      }
    }
  }

  /** Pieces with something in them. */
  function NonEmpty(cs: Components): Components {
    if cs == [] then [] else NonEmpty(cs[..|cs| - 1]) + if cs[|cs| - 1] == "" then [] else [cs[|cs| - 1]]
  }

  // ---- Normalising ----

  /** One component on the stack of those resolved so far; `..` at the root stays there. */
  function Step(stack: Components, c: string): Components {
    if c == "" || c == "." then stack
    else if c == ".." then (if stack == [] then [] else stack[..|stack| - 1])
    else stack + [c]
  }

  function Fold(stack: Components, cs: Components): Components {
    if cs == [] then stack else Step(Fold(stack, cs[..|cs| - 1]), cs[|cs| - 1])
  }

  method Normalize(cs: Components) returns (stack: Components)
    ensures stack == Fold([], cs)
  {
    stack := [];
    for i := 0 to |cs|
      invariant stack == Fold([], cs[..i])
    {
      assert cs[..i + 1][..i] == cs[..i];
      if cs[i] == "" || cs[i] == "." {
      } else if cs[i] == ".." {
        if stack != [] {
          stack := stack[..|stack| - 1];
        }
      } else {
        stack := stack + [cs[i]];
      }
    }
    assert cs[..|cs|] == cs;
  }

  predicate IsName(c: string) { c != "" && c != "." && c != ".." }

  /** Nothing left to resolve. */
  ghost predicate Normal(cs: Components) { forall i :: 0 <= i < |cs| ==> IsName(cs[i]) }

  lemma {:induction false} FoldAppend(stack: Components, a: Components, b: Components)
    ensures Fold(stack, a + b) == Fold(Fold(stack, a), b)
  {
    if b == [] {
      assert a + b == a;
    } else {
      var n := |b| - 1;
      FoldAppend(stack, a, b[..n]);
      assert (a + b)[..|a + b| - 1] == a + b[..n];
    }
  }

  lemma {:induction false} FoldNames(stack: Components, cs: Components)
    requires Normal(cs)
    ensures Fold(stack, cs) == stack + cs
  {
    if cs == [] {
      assert stack + cs == stack;
    } else {
      var n := |cs| - 1;
      FoldNames(stack, cs[..n]);
      assert stack + cs == stack + cs[..n] + [cs[n]];
    }
  }

  lemma {:induction false} FoldNormal(stack: Components, cs: Components)
    requires Normal(stack)
    ensures Normal(Fold(stack, cs))
  {
    if cs != [] { FoldNormal(stack, cs[..|cs| - 1]); }
  }

  /** Normalising leaves only names, changes nothing that has only names, and so once is enough. */
  lemma NormalizeIsIdempotent(cs: Components)
    ensures Normal(Fold([], cs)) && (Normal(cs) <==> Fold([], cs) == cs) && Fold([], Fold([], cs)) == Fold([], cs)
  {
    FoldNormal([], cs);
    FoldNames([], Fold([], cs));
    if Normal(cs) { FoldNames([], cs); }
    assert [] + Fold([], cs) == Fold([], cs) && [] + cs == cs;
  }

  /** Dropping empty pieces first, as parsing does, makes no difference. */
  lemma {:induction false} NonEmptyFoldsAlike(stack: Components, cs: Components)
    ensures Fold(stack, NonEmpty(cs)) == Fold(stack, cs)
  {
    if cs != [] {
      var n := |cs| - 1;
      NonEmptyFoldsAlike(stack, cs[..n]);
      if cs[n] == "" {
        assert NonEmpty(cs) == NonEmpty(cs[..n]);
      } else {
        assert NonEmpty(cs)[..|NonEmpty(cs)| - 1] == NonEmpty(cs[..n]);
      }
    }
  }

  // ---- Prefixes ----

  method StartsWith(path: Components, base: Components) returns (r: bool)
    ensures r <==> base <= path
  {
    if |base| > |path| {
      return false;
    }
    for i := 0 to |base|
      invariant path[..i] == base[..i]
    {
      if path[i] != base[i] {
        return false;
      }
    }
    r := true;
  }

  /** The part below `base`, or the path itself when it is elsewhere. */
  method StripPrefix(path: Components, base: Components) returns (r: Components)
    ensures base <= path ==> base + r == path
    ensures !(base <= path) ==> r == path
  {
    var below := StartsWith(path, base);
    r := if below then path[|base|..] else path;
  }

  // ---- Symbolic links ----

  datatype LinkEscape = Absolute(components: Components) | AboveMount(up: nat, components: Components)

  /** What the splicing loop holds after `cs`: components, and how often `..` ran past the first. */
  function Climb(start: Components, cs: Components): (Components, nat) {
    if cs == [] then (start, 0)
    else
      var (out, up) := Climb(start, cs[..|cs| - 1]);
      var c := cs[|cs| - 1];
      if c == "" || c == "." then (out, up)
      else if c == ".." then (if out == [] then (out, up + 1) else (out[..|out| - 1], up))
      else (out + [c], up)
  }

  method SpliceSymlink(prefix: Components, target: string, rest: Components) returns (r: LinkEscape)
    ensures var absolute := target != "" && target[0] == '/';
            var (out, up) := Climb(if absolute then [] else prefix, Split(target) + rest);
            r == if absolute then Absolute(out) else AboveMount(up, out)
  {
    var absolute := target != "" && target[0] == '/';
    var start := if absolute then [] else prefix;
    var cs := Split(target) + rest;
    var out, up := start, 0;
    for i := 0 to |cs|
      invariant (out, up) == Climb(start, cs[..i])
    {
      assert cs[..i + 1][..i] == cs[..i];
      if cs[i] == "" || cs[i] == "." {
      } else if cs[i] == ".." {
        if out == [] {
          up := up + 1;
        } else {
          out := out[..|out| - 1];
        }
      } else {
        out := out + [cs[i]];
      }
    }
    assert cs[..|cs|] == cs;
    r := if absolute then Absolute(out) else AboveMount(up, out);
  }

  /** The absolute path the link named; climbing past the root stays at the root. */
  function Escape(mount: Components, link: LinkEscape): Components {
    match link
    case Absolute(components) => components
    case AboveMount(up, components) => mount[..Keep(mount, up)] + components
  }

  function Keep(mount: Components, up: nat): nat { if up <= |mount| then |mount| - up else 0 }

  /** At every point of the loop, the components kept of the mount followed by those held are the
      normalisation so far. */
  lemma {:induction false} ClimbIsFold(mount: Components, start: Components, cs: Components)
    ensures var (out, up) := Climb(start, cs); Fold(mount + start, cs) == mount[..Keep(mount, up)] + out
  {
    if cs == [] {
      assert mount[..Keep(mount, 0)] == mount;
    } else {
      var n := |cs| - 1;
      ClimbIsFold(mount, start, cs[..n]);
      var (out, up) := Climb(start, cs[..n]);
      var kept := mount[..Keep(mount, up)];
      ClimbStep(mount, kept, out, up, cs[n]);
    }
  }

  lemma ClimbStep(mount: Components, kept: Components, out: Components, up: nat, c: string)
    requires kept == mount[..Keep(mount, up)]
    ensures c == ".." && out == [] ==> Step(kept + out, c) == mount[..Keep(mount, up + 1)] + out
    ensures c == ".." && out != [] ==> Step(kept + out, c) == kept + out[..|out| - 1]
    ensures IsName(c) ==> Step(kept + out, c) == kept + (out + [c])
  {
    if c == ".." {
      if out == [] {
        assert kept + out == kept;
        assert mount[..Keep(mount, up + 1)] + out == mount[..Keep(mount, up + 1)];
      } else {
        assert (kept + out)[..|kept + out| - 1] == kept + out[..|out| - 1];
      }
    }
  }

  /** A link resolves to the lexical normalisation of where it stands followed by what it says: from the
      mount and the components before it if relative, from the root if absolute. */
  lemma LinkResolvesLexically(mount: Components, prefix: Components, target: string, rest: Components, link: LinkEscape)
    requires Normal(mount) && Normal(prefix)
    requires var absolute := target != "" && target[0] == '/';
             var (out, up) := Climb(if absolute then [] else prefix, Split(target) + rest);
             link == if absolute then Absolute(out) else AboveMount(up, out)
    ensures Escape(mount, link) == Fold([],
              (if target != "" && target[0] == '/' then [] else mount + prefix) + (Split(target) + rest))
  {
    var cs := Split(target) + rest;
    if target != "" && target[0] == '/' {
      ClimbIsFold([], [], cs);
      var none: Components := [];
      assert none + cs == cs && none + none == none;
    } else {
      ClimbIsFold(mount, prefix, cs);
      FoldAppend([], mount + prefix, cs);
      FoldNames([], mount + prefix);
      assert [] + (mount + prefix) == mount + prefix;
    }
  }

  /** The filesystem's splice and the mount layer's escape together. */
  method ResolveLink(mount: Components, prefix: Components, target: string, rest: Components) returns (path: Components)
    requires Normal(mount) && Normal(prefix)
    ensures path == Fold([], (if target != "" && target[0] == '/' then [] else mount + prefix) + (Split(target) + rest))
    ensures Normal(path)
  {
    var link := SpliceSymlink(prefix, target, rest);
    LinkResolvesLexically(mount, prefix, target, rest, link);
    path := Escape(mount, link);
    NormalizeIsIdempotent((if target != "" && target[0] == '/' then [] else mount + prefix) + (Split(target) + rest));
  }
}
