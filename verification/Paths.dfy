/** Where a request's path lands under the data directory. */
module Paths {
  import opened Bytes

  const SLASH: byte := 47
  const DOT: seq<byte> := [46]
  const DOTDOT: seq<byte> := [46, 46]

  type Seg = seq<byte>

  /** The pieces between slashes; there is always at least one. */
  function Split(s: seq<byte>): (segs: seq<Seg>)
    ensures |segs| >= 1
    ensures forall g :: g in segs ==> SLASH !in g
  {
    if s == [] then [[]]
    else
      var rest := Split(s[1..]);
      if s[0] == SLASH then [[]] + rest else Widen(s[0], rest)
  }

  function Widen(c: byte, segs: seq<Seg>): seq<Seg>
    requires segs != []
  {
    [[c] + segs[0]] + segs[1..]
  }

  lemma WidenAppend(c: byte, x: seq<Seg>, y: seq<Seg>)
    requires x != []
    ensures Widen(c, x + y) == Widen(c, x) + y
  {
  }

  /** One step of lexical cleaning below a root: "" and "." vanish, ".." drops a level but never the root. */
  function Push(stack: seq<Seg>, g: Seg): seq<Seg> {
    if g == [] || g == DOT then stack
    else if g == DOTDOT then (if stack == [] then [] else stack[..|stack| - 1])
    else stack + [g]
  }

  function PushAll(stack: seq<Seg>, segs: seq<Seg>): seq<Seg>
    decreases |segs|
  {
    if segs == [] then stack else PushAll(Push(stack, segs[0]), segs[1..])
  }

  function Flat(stack: seq<Seg>): seq<byte> {
    if stack == [] then [] else [SLASH] + stack[0] + Flat(stack[1..])
  }

  /** The segments a rooted path cleans to, and Go's path.Clean of it. */
  function Segments(s: seq<byte>): seq<Seg> {
    PushAll([], Split(s))
  }

  function Clean(s: seq<byte>): seq<byte> {
    if Segments(s) == [] then [SLASH] else Flat(Segments(s))
  }

  function TrimSlash(s: seq<byte>): seq<byte> {
    if s != [] && s[0] == SLASH then s[1..] else s
  }

  /** filepath.Join of two elements, the first of them rooted: empty elements are skipped. */
  function Join(a: seq<byte>, b: seq<byte>): seq<byte> {
    if b == [] then Clean(a) else Clean(a + [SLASH] + b)
  }

  const CATEGORIES: set<seq<byte>> := {B("images"), B("config"), B("boot")}

  /** None stands for the 400 answers: an unknown category, or a result outside the category root. */
  function ResolvePath(dataDir: seq<byte>, category: seq<byte>, rel: seq<byte>): Option<seq<byte>> {
    if category !in CATEGORIES then None
    else
      var clean := TrimSlash(Clean([SLASH] + TrimSlash(rel)));
      var root := Join(dataDir, category);
      var full := Join(root, clean);
      if full != root && !(root + [SLASH] <= full) then None else Some(full)
  }

  // ---- splitting and cleaning ----

  ghost predicate Proper(g: Seg) {
    g != [] && g != DOT && g != DOTDOT && SLASH !in g
  }

  ghost predicate AllProper(stack: seq<Seg>) {
    forall g :: g in stack ==> Proper(g)
  }

  lemma {:induction false} SplitJoined(a: seq<byte>, b: seq<byte>)
    ensures Split(a + [SLASH] + b) == Split(a) + Split(b)
  {
    var s := a + [SLASH] + b;
    if a == [] {
      assert s[1..] == b;
    } else {
      SplitJoined(a[1..], b);
      assert s[1..] == a[1..] + [SLASH] + b && s[0] == a[0];
      if a[0] == SLASH {
        assert Split(s) == [[]] + (Split(a[1..]) + Split(b));
        assert [[]] + (Split(a[1..]) + Split(b)) == ([[]] + Split(a[1..])) + Split(b);
      } else {
        WidenAppend(a[0], Split(a[1..]), Split(b));
      }
    }
  }

  lemma {:induction false} SplitPlain(g: seq<byte>)
    requires SLASH !in g
    ensures Split(g) == [g]
  {
    if g != [] {
      SplitPlain(g[1..]);
      assert [g[0]] + g[1..] == g;
    }
  }

  lemma {:induction false} SplitAfter(g: Seg, stack: seq<Seg>)
    requires SLASH !in g && forall i :: 0 <= i < |stack| ==> SLASH !in stack[i]
    ensures Split(g + Flat(stack)) == [g] + stack
    decreases |stack|
  {
    SplitPlain(g);
    if stack == [] {
      assert g + Flat(stack) == g;
    } else {
      var rest := stack[0] + Flat(stack[1..]);
      SplitAfter(stack[0], stack[1..]);
      SplitJoined(g, rest);
      assert g + Flat(stack) == g + [SLASH] + rest;
    }
  }

  lemma SplitFlat(stack: seq<Seg>)
    requires AllProper(stack)
    ensures Split(Flat(stack)) == [[]] + stack
  {
    assert forall i :: 0 <= i < |stack| ==> Proper(stack[i]);
    SplitAfter([], stack);
    assert [] + Flat(stack) == Flat(stack);
  }

  lemma {:induction false} PushAllAppend(stack: seq<Seg>, a: seq<Seg>, b: seq<Seg>)
    ensures PushAll(stack, a + b) == PushAll(PushAll(stack, a), b)
    decreases |a|
  {
    if a == [] {
      assert a + b == b;
    } else {
      assert (a + b)[0] == a[0] && (a + b)[1..] == a[1..] + b;
      PushAllAppend(Push(stack, a[0]), a[1..], b);
      assert PushAll(stack, a + b) == PushAll(Push(stack, a[0]), a[1..] + b);
      assert PushAll(stack, a) == PushAll(Push(stack, a[0]), a[1..]);
    }
  }

  lemma {:induction false} PushAllProper(stack: seq<Seg>, segs: seq<Seg>)
    requires AllProper(segs)
    ensures PushAll(stack, segs) == stack + segs
    decreases |segs|
  {
    if segs != [] {
      assert Push(stack, segs[0]) == stack + [segs[0]] by { assert segs[0] in segs; }
      PushAllProper(stack + [segs[0]], segs[1..]);
      assert stack + [segs[0]] + segs[1..] == stack + segs;
    }
  }

  lemma {:induction false} PushAllKeepsProper(stack: seq<Seg>, segs: seq<Seg>)
    requires AllProper(stack) && forall g :: g in segs ==> SLASH !in g
    ensures AllProper(PushAll(stack, segs))
    decreases |segs|
  {
    if segs != [] {
      PushAllKeepsProper(Push(stack, segs[0]), segs[1..]);
    }
  }

  /** Cleaning gives proper segments only, and a clean path's segments are its own. */
  lemma CleanSegments(s: seq<byte>)
    ensures AllProper(Segments(s))
    ensures Segments(Clean(s)) == Segments(s)
  {
    PushAllKeepsProper([], Split(s));
    FlatSegments(Segments(s));
    SplitJoined([], []);
    assert Split([SLASH]) == [[], []] by { assert [] + [SLASH] + [] == [SLASH]; }
    assert PushAll([], [[], []]) == PushAll([], [[]]) == PushAll([], []);
  }

  lemma FlatSegments(stack: seq<Seg>)
    requires AllProper(stack)
    ensures Segments(Flat(stack)) == stack
  {
    SplitFlat(stack);
    PushAllAppend([], [[]], stack);
    PushAllProper([], stack);
    assert PushAll([], [[]]) == PushAll([], []) == [];
  }

  lemma JoinSegments(a: seq<byte>, b: seq<byte>)
    ensures Segments(a + [SLASH] + b) == PushAll(Segments(a), Split(b))
  {
    SplitJoined(a, b);
    PushAllAppend([], Split(a), Split(b));
  }

  lemma {:induction false} FlatAppend(a: seq<Seg>, b: seq<Seg>)
    ensures Flat(a + b) == Flat(a) + Flat(b)
  {
    if a == [] {
      assert a + b == b;
    } else {
      FlatAppend(a[1..], b);
      assert (a + b)[1..] == a[1..] + b;
    }
  }

  /** A non-empty stack without its leading slash splits back into itself. */
  lemma SplitRelative(rel: seq<Seg>)
    requires AllProper(rel) && rel != []
    ensures var b := TrimSlash(Flat(rel));
            b != [] && b[0] != SLASH && [SLASH] + b == Flat(rel) && Split(b) == rel
  {
    RelativeText(rel);
    assert forall i :: 0 <= i < |rel| ==> SLASH !in rel[i] by {
      forall i | 0 <= i < |rel|
        ensures Proper(rel[i])
      {
      }
    }
    SplitAfter(rel[0], rel[1..]);
    assert [rel[0]] + rel[1..] == rel;
  }

  lemma RelativeText(rel: seq<Seg>)
    requires AllProper(rel) && rel != []
    ensures var b := TrimSlash(Flat(rel));
            b == rel[0] + Flat(rel[1..]) && b != [] && b[0] != SLASH && [SLASH] + b == Flat(rel)
  {
    var b := rel[0] + Flat(rel[1..]);
    assert rel[0] in rel && rel[0][0] in rel[0];
    assert b[0] == rel[0][0];
    assert Flat(rel) == [SLASH] + rel[0] + Flat(rel[1..]) == [SLASH] + b;
    assert ([SLASH] + b)[1..] == b;
  }

  /** What Join does to a root and a cleaned relative path: it appends the segments. */
  lemma JoinUnder(root: seq<byte>, rel: seq<Seg>)
    requires AllProper(rel)
    ensures Segments(Join(root, TrimSlash(Flat(rel)))) == Segments(root) + rel
    ensures AllProper(Segments(root))
  {
    CleanSegments(root);
    if rel == [] {
      assert Flat(rel) == [];
    } else {
      var b := TrimSlash(Flat(rel));
      SplitRelative(rel);
      CleanSegments(root + [SLASH] + b);
      JoinSegments(root, b);
      PushAllProper(Segments(root), rel);
    }
  }

  /** The segments a request's relative path cleans to. */
  function RelSegments(rel: seq<byte>): seq<Seg> {
    Segments([SLASH] + TrimSlash(rel))
  }

  lemma CategoryIsProper(category: seq<byte>)
    requires category in CATEGORIES
    ensures Proper(category)
  {
  }

  /** For every relative path the answer is the category root or strictly beneath it: the guard never fires,
      and the segments below the root are exactly the cleaned ones. */
  lemma ResolvesBeneathRoot(dataDir: seq<byte>, category: seq<byte>, rel: seq<byte>)
    requires category in CATEGORIES
    ensures var root := Join(dataDir, category);
            && ResolvePath(dataDir, category, rel).Some?
            && var full := ResolvePath(dataDir, category, rel).value;
            && Segments(full) == Segments(root) + RelSegments(rel)
            && AllProper(RelSegments(rel))
            && (full == root <==> RelSegments(rel) == [])
            && (full != root ==> root + [SLASH] <= full)
  {
    var root := Join(dataDir, category);
    var segs := RelSegments(rel);
    CleanSegments([SLASH] + TrimSlash(rel));
    assert TrimSlash(Clean([SLASH] + TrimSlash(rel))) == TrimSlash(Flat(segs));
    var full := Join(root, TrimSlash(Flat(segs)));
    JoinUnder(root, segs);
    CategoryIsProper(category);
    JoinSegments(dataDir, category);
    SplitPlain(category);
    CleanSegments(dataDir);
    PushAllProper(Segments(dataDir), [category]);
    assert Segments(dataDir + [SLASH] + category) == Segments(dataDir) + [category];
    CleanSegments(dataDir + [SLASH] + category);
    assert root == Flat(Segments(root)) && Segments(root) != [];
    FullIsFlat(root, segs);
    FlatAppend(Segments(root), segs);
    if segs != [] {
      assert Flat(segs)[0] == SLASH;
    }
  }

  lemma FullIsFlat(root: seq<byte>, segs: seq<Seg>)
    requires AllProper(segs) && Segments(root) != [] && root == Flat(Segments(root))
    ensures Join(root, TrimSlash(Flat(segs))) == Flat(Segments(root) + segs)
  {
    JoinUnder(root, segs);
    var b := TrimSlash(Flat(segs));
    if segs == [] {
      assert Segments(root) + segs == Segments(root);
    } else {
      SplitRelative(segs);
      CleanSegments(root + [SLASH] + b);
      assert Segments(Join(root, b)) == Segments(root + [SLASH] + b);
    }
  }

  /** Resolving what a path cleans to lands in the same place. */
  lemma ResolveIsIdempotent(dataDir: seq<byte>, category: seq<byte>, rel: seq<byte>)
    ensures ResolvePath(dataDir, category, TrimSlash(Flat(RelSegments(rel)))) == ResolvePath(dataDir, category, rel)
  {
    var segs := RelSegments(rel);
    CleanSegments([SLASH] + TrimSlash(rel));
    FlatSegments(segs);
    var b := TrimSlash(Flat(segs));
    if segs == [] {
      assert b == [];
      assert TrimSlash(b) == [];
      assert Segments([SLASH]) == [] by {
        SplitJoined([], []);
        assert [] + [SLASH] + [] == [SLASH];
        assert PushAll([], [[], []]) == PushAll([], [[]]) == PushAll([], []);
      }
      assert [SLASH] + TrimSlash(b) == [SLASH];
    } else {
      SplitRelative(segs);
    }
    assert RelSegments(b) == segs;
  }

  // ---- what cleaning means, one step at a time ----

  lemma CleanStep(s: seq<byte>, g: seq<byte>)
    requires SLASH !in g
    ensures Segments(s + [SLASH] + g) == Push(Segments(s), g)
  {
    JoinSegments(s, g);
    SplitPlain(g);
    assert PushAll(Segments(s), [g]) == PushAll(Push(Segments(s), g), []);
  }

  /** Five laws that fix the segments of every path: nothing in the empty path; a trailing slash and "/." add nothing,
      "/.." takes the last segment away if there is one, and any other name is added. */
  lemma CleanLaws(s: seq<byte>, g: seq<byte>)
    requires SLASH !in g
    ensures Segments([]) == []
    ensures Segments(s + [SLASH]) == Segments(s)
    ensures Segments(s + B("/.")) == Segments(s)
    ensures Segments(s) == [] ==> Segments(s + B("/..")) == []
    ensures Segments(s) != [] ==> Segments(s + B("/..")) == Segments(s)[..|Segments(s)| - 1]
    ensures g !in {[], B("."), B("..")} ==> Segments(s + [SLASH] + g) == Segments(s) + [g]
  {
    assert B(".") == DOT && B("..") == DOTDOT;
    assert s + B("/.") == s + [SLASH] + DOT && s + B("/..") == s + [SLASH] + DOTDOT && s + [SLASH] == s + [SLASH] + [];
    CleanStep(s, []);
    CleanStep(s, DOT);
    CleanStep(s, DOTDOT);
    CleanStep(s, g);
    assert PushAll([], [[]]) == PushAll([], []);
  }

  lemma FlatOne(g: Seg)
    ensures Flat([g]) == [SLASH] + g
  {
    assert [g][1..] == [] && Flat([g]) == [SLASH] + g + Flat([]);
  }

  /** A cleaned path is its segments, each behind a slash, or a lone slash. */
  lemma CleanRenders(s: seq<byte>, t: seq<byte>, g: seq<byte>)
    ensures Segments(s) == [] ==> Clean(s) == B("/")
    ensures Segments(s) == [g] ==> Clean(s) == B("/") + g
    ensures Segments(s) != [] && Segments(t) == Segments(s) + [g] ==> Clean(t) == Clean(s) + B("/") + g
  {
    SlashText();
    FlatPush(Segments(s), g);
    FlatOne(g);
  }

  lemma SlashText()
    ensures B("/") == [SLASH]
  {
  }

  lemma FlatPush(stack: seq<Seg>, g: Seg)
    ensures Flat(stack + [g]) == Flat(stack) + ([SLASH] + g)
    ensures Flat(stack) + [SLASH] + g == Flat(stack) + ([SLASH] + g)
  {
    FlatAppend(stack, [g]);
    FlatOne(g);
  }

  /** A known category is exactly one of the three; then the answer is the data directory, the category and the cleaned
      path, one below the other. */
  lemma ResolvedPathIs(dataDir: seq<byte>, category: seq<byte>, rel: seq<byte>)
    ensures ResolvePath(dataDir, category, rel).Some?
       <==> category == B("images") || category == B("config") || category == B("boot")
    ensures ResolvePath(dataDir, category, rel).Some? ==>
              && ResolvePath(dataDir, category, rel).value == Flat(Segments(dataDir) + [category] + Segments(B("/") + rel))
              && Clean(ResolvePath(dataDir, category, rel).value) == ResolvePath(dataDir, category, rel).value
  {
    if category in CATEGORIES {
      ResolvesBeneathRoot(dataDir, category, rel);
      RootSegments(dataDir, category);
      LeadingSlash(rel);
      var root := Join(dataDir, category);
      CleanSegments([SLASH] + TrimSlash(rel));
      FullIsFlat(root, RelSegments(rel));
      CleanSegments(dataDir);
      CategoryIsProper(category);
      FlatSegments(Segments(dataDir) + [category] + RelSegments(rel));
    }
  }

  lemma RootSegments(dataDir: seq<byte>, category: seq<byte>)
    requires category in CATEGORIES
    ensures Segments(Join(dataDir, category)) == Segments(dataDir) + [category]
    ensures Join(dataDir, category) == Flat(Segments(dataDir) + [category])
  {
    CategoryIsProper(category);
    CleanStep(dataDir, category);
    CleanSegments(dataDir + [SLASH] + category);
  }

  lemma LeadingSlash(rel: seq<byte>)
    ensures RelSegments(rel) == Segments(B("/") + rel)
  {
    assert B("/") == [SLASH];
    var r := TrimSlash(rel);
    if r != rel {
      assert [SLASH] + rel == [SLASH] + [SLASH] + r;
      JoinSegments([], r);
      JoinSegments([SLASH], r);
      assert [] + [SLASH] + r == [SLASH] + r;
      assert Segments([SLASH]) == Segments([]) by { CleanLaws([], []); assert [] + [SLASH] == [SLASH]; }
    }
  }

  // ---- the guard against deleting a category root ----

  predicate OnlySlashes(s: seq<byte>) {
    forall i | 0 <= i < |s| :: s[i] == SLASH
  }

  lemma {:induction false} SlashesSplit(s: seq<byte>)
    requires OnlySlashes(s)
    ensures forall i :: 0 <= i < |Split(s)| ==> Split(s)[i] == []
  {
    if s != [] {
      SlashesSplit(s[1..]);
    }
  }

  lemma {:induction false} PushNothing(stack: seq<Seg>, segs: seq<Seg>)
    requires forall i :: 0 <= i < |segs| ==> segs[i] == []
    ensures PushAll(stack, segs) == stack
    decreases |segs|
  {
    if segs != [] {
      PushNothing(stack, segs[1..]);
    }
  }

  /** A path of slashes only resolves to the root, but so does every other path whose cleaned segments are none:
      refusing the first kind misses the second, "." and "a/.." among them. */
  lemma DeleteGuardCoversSlashesOnly(dataDir: seq<byte>, category: seq<byte>, rel: seq<byte>)
    requires category in CATEGORIES
    ensures ResolvePath(dataDir, category, rel) == Some(Join(dataDir, category)) <==> RelSegments(rel) == []
    ensures OnlySlashes(rel) ==> RelSegments(rel) == []
    ensures !OnlySlashes(DOT) && RelSegments(DOT) == []
  {
    ResolvesBeneathRoot(dataDir, category, rel);
    if OnlySlashes(rel) {
      SlashesSplit([SLASH] + TrimSlash(rel));
      PushNothing([], Split([SLASH] + TrimSlash(rel)));
    }
    DotIsRoot();
  }

  lemma DotIsRoot()
    ensures !OnlySlashes(DOT) && RelSegments(DOT) == []
  {
    assert DOT[0] != SLASH;
    assert [] + [SLASH] + DOT == [SLASH] + DOT;
    SplitJoined([], DOT);
    SplitPlain(DOT);
    var segs: seq<Seg> := [[], DOT];
    assert segs[1..] == [DOT] && segs[1..][1..] == [];
    assert PushAll([], segs) == PushAll([], segs[1..]) == PushAll([], segs[1..][1..]);
  }
}
