/**
 * Scope containment of src/kernel/capability-model.ts and the workspace-relative paths of
 * src/workspace: string normalisation and string-prefix tests against lists of segments.
 */
module Scope {
  import opened Text

  const DOT_SEGMENT: Str := [DOT]
  const UP_SEGMENT: Str := [DOT, DOT]

  // ---- normalizePath ----

  function PathText(segments: seq<Str>): Str { [SLASH] + Join(segments, SLASH) }

  /** The segment stack after the parts, or None when ".." finds the stack empty. */
  function Walk(stack: seq<Str>, parts: seq<Str>): Option<seq<Str>>
    decreases |parts|
  {
    if parts == [] then Some(stack)
    else if parts[0] == [] || parts[0] == DOT_SEGMENT then Walk(stack, parts[1..])
    else if parts[0] == UP_SEGMENT then
      if stack == [] then None else Walk(stack[..|stack| - 1], parts[1..])
    else Walk(stack + [parts[0]], parts[1..])
  }

  function Segments(path: Str): Option<seq<Str>> {
    if path == [] || path[0] != SLASH then None else Walk([], Split(path, SLASH))
  }

  method NormalizePath(path: Str) returns (r: Option<Str>)
    ensures r == Normalized(path)
  {
    if path == [] || path[0] != SLASH {
      return None;
    }
    var parts := Split(path, SLASH);
    var stack: seq<Str> := [];
    for k := 0 to |parts|
      invariant Walk([], parts) == Walk(stack, parts[k..])
    {
      var part := parts[k];
      assert parts[k..][1..] == parts[k + 1..];
      if part == [] || part == DOT_SEGMENT {
        continue;
      }
      if part == UP_SEGMENT {
        if stack == [] {
          return None;
        }
        stack := stack[..|stack| - 1];
        continue;
      }
      stack := stack + [part];
    }
    return Some(PathText(stack));
  }

  function Normalized(path: Str): Option<Str> {
    match Segments(path) case None => None case Some(stack) => Some(PathText(stack))
  }

  /** A segment that survives normalisation. */
  predicate Clean(segment: Str) {
    segment != [] && segment != DOT_SEGMENT && segment != UP_SEGMENT && SLASH !in segment
  }

  predicate AllClean(segments: seq<Str>) { forall i | 0 <= i < |segments| :: Clean(segments[i]) }

  lemma {:induction false} WalkClean(stack: seq<Str>, parts: seq<Str>)
    requires AllClean(stack) && (forall i | 0 <= i < |parts| :: SLASH !in parts[i])
    ensures Walk(stack, parts).Some? ==> AllClean(Walk(stack, parts).value)
    decreases |parts|
  {
    if parts == [] {
    } else {
      if parts[0] == [] || parts[0] == DOT_SEGMENT {
        WalkClean(stack, parts[1..]);
      } else if parts[0] == UP_SEGMENT {
        if stack != [] {
          WalkClean(stack[..|stack| - 1], parts[1..]);
        }
      } else {
        WalkClean(stack + [parts[0]], parts[1..]);
      }
    }
  }

  lemma SegmentsClean(path: Str)
    ensures Segments(path).Some? ==> AllClean(Segments(path).value)
  {
    SplitParts(path, SLASH);
    if path != [] && path[0] == SLASH {
      WalkClean([], Split(path, SLASH));
    }
  }

  lemma {:induction false} WalkOverClean(stack: seq<Str>, parts: seq<Str>)
    requires AllClean(parts)
    ensures Walk(stack, parts) == Some(stack + parts)
    decreases |parts|
  {
    if parts == [] {
      assert stack + parts == stack;
    } else {
      WalkOverClean(stack + [parts[0]], parts[1..]);
      assert stack + [parts[0]] + parts[1..] == stack + parts;
    }
  }

  /** What split("/") finds behind the leading slash of a normal form. */
  function PartsBehindRoot(segments: seq<Str>): seq<Str> { if segments == [] then [[]] else segments }

  lemma SplitPath(segments: seq<Str>)
    requires AllClean(segments)
    ensures Split(PathText(segments), SLASH) == [[]] + PartsBehindRoot(segments)
  {
    assert PathText(segments) == [] + [SLASH] + Join(segments, SLASH);
    SplitConcat([], SLASH, Join(segments, SLASH));
    if segments != [] {
      SplitJoin(segments, SLASH);
    }
  }

  /** The text of clean segments reads back as these segments. */
  lemma SegmentsOfText(segments: seq<Str>)
    requires AllClean(segments)
    ensures Segments(PathText(segments)) == Some(segments)
  {
    hide Split;
    SplitPath(segments);
    var parts: seq<Str> := Split(PathText(segments), SLASH);
    assert parts[0] == [] && parts[1..] == PartsBehindRoot(segments);
    assert Walk([], parts) == Walk([], PartsBehindRoot(segments));
    assert PathText(segments)[0] == SLASH;
    WalkOverClean([], segments);
    assert [] + segments == segments;
    if segments == [] {
      assert PartsBehindRoot(segments)[1..] == [];
    }
  }

  /** normalizePath is idempotent: a normal form is its own normal form. */
  lemma NormalizeIdempotent(path: Str)
    requires Normalized(path).Some?
    ensures Normalized(Normalized(path).value) == Normalized(path)
  {
    SegmentsClean(path);
    SegmentsOfText(Segments(path).value);
  }

  lemma {:induction false} WalkConcat(stack: seq<Str>, a: seq<Str>, b: seq<Str>)
    ensures Walk(stack, a + b) ==
      match Walk(stack, a) case None => None case Some(mid) => Walk(mid, b)
    decreases |a|
  {
    if a == [] {
      assert a + b == b;
    } else {
      assert (a + b)[1..] == a[1..] + b;
      if a[0] == [] || a[0] == DOT_SEGMENT {
        WalkConcat(stack, a[1..], b);
      } else if a[0] == UP_SEGMENT {
        if stack != [] {
          WalkConcat(stack[..|stack| - 1], a[1..], b);
        }
      } else {
        WalkConcat(stack + [a[0]], a[1..], b);
      }
    }
  }

  // ---- the laws of normalisation ----

  lemma WalkDrops(stack: seq<Str>, a: seq<Str>, x: Str, b: seq<Str>)
    requires x == [] || x == DOT_SEGMENT
    ensures Walk(stack, a + [x] + b) == Walk(stack, a + b)
  {
    WalkConcat(stack, a, b);
    WalkConcat(stack, a, [x] + b);
    assert a + [x] + b == a + ([x] + b) && ([x] + b)[1..] == b;
  }

  /** A segment and the ".." behind it cancel, wherever they stand. */
  lemma WalkCancels(stack: seq<Str>, a: seq<Str>, c: Str, b: seq<Str>)
    requires Clean(c)
    ensures Walk(stack, a + [c, UP_SEGMENT] + b) == Walk(stack, a + b)
  {
    WalkConcat(stack, a, b);
    WalkConcat(stack, a, [c, UP_SEGMENT] + b);
    var both := [c, UP_SEGMENT] + b;
    assert a + [c, UP_SEGMENT] + b == a + both;
    assert both[1..] == [UP_SEGMENT] + b && both[1..][1..] == b;
    if Walk(stack, a).Some? {
      var mid := Walk(stack, a).value;
      assert (mid + [c])[..|mid|] == mid;
    }
  }

  lemma WalkClimbs(b: seq<Str>)
    ensures Walk([], [UP_SEGMENT] + b) == None
  {
    assert ([UP_SEGMENT] + b)[0] == UP_SEGMENT;
  }

  /** What a normal form of lists of parts has to obey. */
  ghost predicate Normalizes(form: seq<Str> -> Option<seq<Str>>) {
    && (forall a | AllClean(a) :: form(a) == Some(a))
    && (forall a, x, b | x == [] || x == DOT_SEGMENT :: form(a + [x] + b) == form(a + b))
    && (forall a, c, b | Clean(c) :: form(a + [c, UP_SEGMENT] + b) == form(a + b))
    && (forall b :: form([UP_SEGMENT] + b) == None)
  }

  lemma WalkNormalizes()
    ensures Normalizes(parts => Walk([], parts))
  {
    hide Walk, Clean;
    forall a | AllClean(a) ensures Walk([], a) == Some(a) {
      WalkOverClean([], a);
      assert [] + a == a;
    }
    forall a, x, b | x == [] || x == DOT_SEGMENT ensures Walk([], a + [x] + b) == Walk([], a + b) {
      WalkDrops([], a, x, b);
    }
    forall a, c, b | Clean(c) ensures Walk([], a + [c, UP_SEGMENT] + b) == Walk([], a + b) {
      WalkCancels([], a, c, b);
    }
    forall b ensures Walk([], [UP_SEGMENT] + b) == None {
      WalkClimbs(b);
    }
  }

  /** The part at `k` is the first that is not clean. */
  predicate FirstUnclean(parts: seq<Str>, k: nat) { k < |parts| && AllClean(parts[..k]) && !Clean(parts[k]) }

  lemma {:induction false} CleanUpTo(parts: seq<Str>) returns (k: nat)
    ensures AllClean(parts) || FirstUnclean(parts, k)
    decreases |parts|
  {
    hide Clean;
    k := 0;
    if parts == [] {
    } else {
      var n := |parts| - 1;
      k := CleanUpTo(parts[..n]);
      if AllClean(parts[..n]) {
        k := n;
        assert parts == parts[..n] + [parts[n]];
      } else {
        assert parts[..n][..k] == parts[..k];
      }
    }
  }

  /** These laws leave no choice: every form that obeys them is the one computed with the stack. */
  lemma {:induction false} NormalFormIsDetermined(form: seq<Str> -> Option<seq<Str>>, parts: seq<Str>)
    requires Normalizes(form) && forall i | 0 <= i < |parts| :: SLASH !in parts[i]
    ensures form(parts) == Walk([], parts)
    decreases |parts|
  {
    hide Walk;
    var k := CleanUpTo(parts);
    if AllClean(parts) {
      WalkOverClean([], parts);
      assert [] + parts == parts;
    } else {
      var x, b := parts[k], parts[k + 1..];
      if x != UP_SEGMENT {
        assert parts == parts[..k] + [x] + b;
        WalkDrops([], parts[..k], x, b);
        NormalFormIsDetermined(form, parts[..k] + b);
      } else if k == 0 {
        assert parts == [UP_SEGMENT] + b;
        WalkClimbs(b);
      } else {
        var a, c := parts[..k - 1], parts[..k][k - 1];
        assert parts == a + [c, UP_SEGMENT] + b;
        WalkCancels([], a, c, b);
        NormalFormIsDetermined(form, a + b);
      }
    }
  }

  /** On texts: "/c/.." can be taken out of a path wherever a segment ends. */
  lemma PathCancels(a: Str, c: Str, b: Str)
    requires a != [] && a[0] == SLASH && Clean(c) && (b == [] || b[0] == SLASH)
    ensures Normalized(a + [SLASH] + c + [SLASH] + UP_SEGMENT + b) == Normalized(a + b)
  {
    hide Walk, Split;
    var front, parts := a + [SLASH] + c, Split(a, SLASH);
    var path := front + [SLASH] + UP_SEGMENT + b;
    var up: Str := UP_SEGMENT;
    assert SLASH !in up;
    SplitConcat(a, SLASH, c);
    SplitNone(c, SLASH);
    SplitNone(up, SLASH);
    if b == [] {
      assert path == front + [SLASH] + up && a + b == a;
      SplitConcat(front, SLASH, up);
      assert Split(path, SLASH) == parts + [c, up] + [];
      assert parts + [] == parts;
      WalkCancels([], parts, c, []);
    } else {
      var tail := b[1..];
      assert path == front + [SLASH] + (up + [SLASH] + tail) && a + b == a + [SLASH] + tail;
      SplitConcat(front, SLASH, up + [SLASH] + tail);
      SplitConcat(up, SLASH, tail);
      SplitConcat(a, SLASH, tail);
      assert Split(path, SLASH) == parts + [c, up] + Split(tail, SLASH);
      WalkCancels([], parts, c, Split(tail, SLASH));
    }
    assert path[0] == SLASH && (a + b)[0] == SLASH;
  }

  // ---- where normalizePath is defined ----

  /** How far a part moves away from the root. */
  function Climb(part: Str): int {
    if part == [] || part == DOT_SEGMENT then 0 else if part == UP_SEGMENT then -1 else 1
  }

  function Height(parts: seq<Str>): int {
    if parts == [] then 0 else Height(parts[..|parts| - 1]) + Climb(parts[|parts| - 1])
  }

  lemma {:induction false} HeightFront(parts: seq<Str>)
    requires parts != []
    ensures Height(parts) == Climb(parts[0]) + Height(parts[1..])
    decreases |parts|
  {
    var n := |parts| - 1;
    if n == 0 {
      assert parts[..n] == [] && parts[1..] == [];
    } else {
      HeightFront(parts[..n]);
      assert parts[..n][1..] == parts[1..][..n - 1];
    }
  }

  lemma {:induction false} WalkDefined(stack: seq<Str>, parts: seq<Str>)
    ensures Walk(stack, parts).Some? <==> forall k | 0 <= k <= |parts| :: |stack| + Height(parts[..k]) >= 0
    decreases |parts|
  {
    if parts == [] {
    } else {
      var rest := parts[1..];
      forall k | 0 <= k <= |rest| ensures Height(parts[..k + 1]) == Climb(parts[0]) + Height(rest[..k]) {
        HeightFront(parts[..k + 1]);
        assert parts[..k + 1][1..] == rest[..k];
      }
      assert Height(parts[..0]) == 0;
      assert Height(rest[..0]) == 0 && Height(parts[..1]) == Climb(parts[0]) by { assert parts[..0 + 1] == parts[..1]; }
      if parts[0] == UP_SEGMENT && stack == [] {
        assert |stack| + Height(parts[..1]) < 0;
      } else {
        var next := if Climb(parts[0]) == 0 then stack
                    else if Climb(parts[0]) < 0 then stack[..|stack| - 1] else stack + [parts[0]];
        assert |next| == |stack| + Climb(parts[0]);
        WalkDefined(next, rest);
        if forall k | 0 <= k <= |rest| :: |next| + Height(rest[..k]) >= 0 {
          forall k | 0 <= k <= |parts| ensures |stack| + Height(parts[..k]) >= 0 {
            if k > 0 {
              assert |next| + Height(rest[..k - 1]) >= 0;
              assert parts[..(k - 1) + 1] == parts[..k];
            }
          }
        }
        if forall k | 0 <= k <= |parts| :: |stack| + Height(parts[..k]) >= 0 {
          forall k | 0 <= k <= |rest| ensures |next| + Height(rest[..k]) >= 0 {
            assert |stack| + Height(parts[..k + 1]) >= 0;
          }
        }
      }
    }
  }

  predicate NeverAboveRoot(parts: seq<Str>) { forall k | 0 <= k <= |parts| :: Height(parts[..k]) >= 0 }

  /** An absolute path has a normal form exactly when no prefix of it climbs above the root. */
  lemma NormalizeDefined(path: Str)
    ensures Normalized(path).Some? <==> path != [] && path[0] == SLASH && NeverAboveRoot(Split(path, SLASH))
  {
    WalkDefined([], Split(path, SLASH));
  }

  // ---- containment of paths ----

  predicate PathWithin(scope: Str, resource: Str) {
    var s, r := Normalized(scope), Normalized(resource);
    s.Some? && r.Some? && (
      r == s
      || (if s.value == [SLASH] then [SLASH] <= r.value else s.value + [SLASH] <= r.value))
  }

  /** The string test with its separator is the prefix order on segments. */
  lemma TextPrefixIsSegmentPrefix(s: seq<Str>, r: seq<Str>)
    requires AllClean(s) && AllClean(r) && s != []
    ensures PathText(s) + [SLASH] <= PathText(r) <==> s < r
  {
    var ps, pr := PathText(s), PathText(r);
    if ps + [SLASH] <= pr {
      SegmentsUnderText(s, r, pr[|ps| + 1..]);
    }
    if s < r {
      var tail := r[|s|..];
      assert r == s + tail;
      JoinConcat(s, tail, SLASH);
      assert pr == ps + [SLASH] + Join(tail, SLASH);
    }
  }

  lemma SegmentsUnderText(s: seq<Str>, r: seq<Str>, x: Str)
    requires AllClean(s) && AllClean(r) && s != []
    requires PathText(r) == PathText(s) + [SLASH] + x
    ensures s < r
  {
    hide Split, Join, PathText;
    SplitConcat(PathText(s), SLASH, x);
    SplitPath(s);
    SplitPath(r);
    var parts := Split(PathText(r), SLASH);
    assert parts == [[]] + s + Split(x, SLASH);
    assert parts[1..] == PartsBehindRoot(r);
    assert parts[1..] == s + Split(x, SLASH);
    assert PartsBehindRoot(r)[0] == s[0] && Clean(s[0]);
  }

  lemma PathTextInjective(s: seq<Str>, r: seq<Str>)
    requires AllClean(s) && AllClean(r) && PathText(s) == PathText(r)
    ensures s == r
  {
    SegmentsOfText(s);
    SegmentsOfText(r);
  }

  /** Containment of path strings is the prefix order on their segment lists. */
  lemma PathWithinIsPrefix(scope: Str, resource: Str)
    ensures PathWithin(scope, resource) <==>
              Segments(scope).Some? && Segments(resource).Some? && Segments(scope).value <= Segments(resource).value
  {
    hide Segments;
    SegmentsClean(scope);
    SegmentsClean(resource);
    if Segments(scope).Some? && Segments(resource).Some? {
      var s, r := Segments(scope).value, Segments(resource).value;
      assert PathText([]) == [SLASH];
      assert [SLASH] <= PathText(r);
      if PathText(s) == [SLASH] {
        PathTextInjective(s, []);
      }
      if PathText(s) == PathText(r) {
        PathTextInjective(s, r);
      }
      if s != [] {
        TextPrefixIsSegmentPrefix(s, r);
        assert s <= r && |s| == |r| ==> s == r;
      }
    }
  }

  /** Containment is a partial order on well-formed paths, up to normal form. */
  lemma PathWithinIsPartialOrder(a: Str, b: Str, c: Str)
    ensures Normalized(a).Some? ==> PathWithin(a, a)
    ensures PathWithin(a, b) && PathWithin(b, c) ==> PathWithin(a, c)
    ensures PathWithin(a, b) && PathWithin(b, a) ==> Normalized(a) == Normalized(b)
  {
    PathWithinIsPrefix(a, a);
    PathWithinIsPrefix(a, b);
    PathWithinIsPrefix(b, c);
    PathWithinIsPrefix(a, c);
    PathWithinIsPrefix(b, a);
  }

  // ---- containment of domains ----

  predicate IsAlnum(u: CodeUnit) { IsDigit(u) || 0x61 <= u <= 0x7A }

  /** The expression ^[a-z0-9]([a-z0-9.-]{0,251}[a-z0-9])?$ */
  predicate DomainShape(d: Str) {
    && 1 <= |d| <= 253
    && IsAlnum(d[0]) && IsAlnum(d[|d| - 1])
    && forall i | 0 <= i < |d| :: IsAlnum(d[i]) || d[i] == DOT || d[i] == 0x2D
  }

  lemma DomainLetters(u: CodeUnit)
    ensures IsAlnum(u) <==> u in LOWER_CASE || u in DIGITS
  {
    LowerLetters(u);
    DigitLetters(u);
  }

  predicate DomainUnit(u: CodeUnit) { IsAlnum(u) || u in Ascii(".-") }

  /** The expression read from left to right: a letter, some more units, and a letter again. */
  predicate DomainExpression(x: CodeUnit, mid: Str, y: CodeUnit) {
    |mid| <= 251 && IsAlnum(x) && IsAlnum(y) && forall i | 0 <= i < |mid| :: DomainUnit(mid[i])
  }

  lemma DomainPunctuation(u: CodeUnit)
    ensures DomainUnit(u) <==> IsAlnum(u) || u == DOT || u == 0x2D
  {
    assert Ascii(".-") == [DOT, 0x2D];
  }

  lemma DomainParts(x: CodeUnit, mid: Str, y: CodeUnit)
    ensures DomainShape([x] + mid + [y]) <==> DomainExpression(x, mid, y)
  {
    hide IsAlnum, DomainUnit;
    var d := [x] + mid + [y];
    assert d[0] == x && d[|d| - 1] == y && forall i | 0 <= i < |mid| :: mid[i] == d[i + 1];
    forall i | 0 <= i < |mid| ensures DomainUnit(mid[i]) <==> IsAlnum(mid[i]) || mid[i] == DOT || mid[i] == 0x2D {
      DomainPunctuation(mid[i]);
    }
    forall i | 0 <= i < |d| ensures d[i] == if i == 0 then x else if i <= |mid| then mid[i - 1] else y {
    }
  }

  lemma DomainShapeExactly(d: Str)
    ensures DomainShape(d) <==>
              || (|d| == 1 && IsAlnum(d[0]))
              || exists x, mid: Str, y :: d == [x] + mid + [y] && DomainExpression(x, mid, y)
  {
    hide IsAlnum, DomainExpression;
    if |d| > 1 {
      var mid := d[1..|d| - 1];
      assert d == [d[0]] + mid + [d[|d| - 1]];
      DomainParts(d[0], mid, d[|d| - 1]);
    }
    forall x, mid: Str, y | d == [x] + mid + [y] && DomainExpression(x, mid, y) ensures DomainShape(d) {
      DomainParts(x, mid, y);
    }
  }

  /** `lower` is String.prototype.toLowerCase. */
  function NormalDomain(lower: Str -> Str, value: Str): Option<Str> {
    if DomainShape(lower(value)) then Some(lower(value)) else None
  }

  predicate EndsWith(s: Str, suffix: Str) {
    |suffix| <= |s| && s[|s| - |suffix|..] == suffix
  }

  predicate DomainWithin(lower: Str -> Str, scope: Str, resource: Str) {
    var s, r := NormalDomain(lower, scope), NormalDomain(lower, resource);
    s.Some? && r.Some? && (r == s || EndsWith(r.value, [DOT] + s.value))
  }

  function Labels(d: Str): seq<Str> { Split(d, DOT) }

  predicate IsSuffix(a: seq<Str>, b: seq<Str>) {
    |a| <= |b| && b[|b| - |a|..] == a
  }

  /** The string test is the suffix order on labels. */
  lemma TextSuffixIsLabelSuffix(s: Str, r: Str)
    ensures r == s || EndsWith(r, [DOT] + s) <==> IsSuffix(Labels(s), Labels(r))
  {
    hide Split, Join;
    JoinSplit(s, DOT);
    JoinSplit(r, DOT);
    if EndsWith(r, [DOT] + s) {
      var x := r[..|r| - |s| - 1];
      assert r == x + [DOT] + s;
      SplitConcat(x, DOT, s);
      assert Labels(r)[|Labels(r)| - |Labels(s)|..] == Labels(s);
    }
    if r == s {
      assert Labels(r)[0..] == Labels(s);
    }
    if IsSuffix(Labels(s), Labels(r)) {
      var front := Labels(r)[..|Labels(r)| - |Labels(s)|];
      assert Labels(r) == front + Labels(s);
      if front == [] {
        assert Labels(r) == Labels(s);
      } else {
        JoinConcat(front, Labels(s), DOT);
        Assoc(Join(front, DOT), [DOT], s);
      }
    }
  }

  lemma DomainWithinIsSuffix(lower: Str -> Str, scope: Str, resource: Str)
    ensures var s, r := NormalDomain(lower, scope), NormalDomain(lower, resource);
            DomainWithin(lower, scope, resource) <==> s.Some? && r.Some? && IsSuffix(Labels(s.value), Labels(r.value))
  {
    if NormalDomain(lower, scope).Some? && NormalDomain(lower, resource).Some? {
      TextSuffixIsLabelSuffix(NormalDomain(lower, scope).value, NormalDomain(lower, resource).value);
    }
  }

  lemma DomainWithinIsPartialOrder(lower: Str -> Str, a: Str, b: Str, c: Str)
    ensures NormalDomain(lower, a).Some? ==> DomainWithin(lower, a, a)
    ensures DomainWithin(lower, a, b) && DomainWithin(lower, b, c) ==> DomainWithin(lower, a, c)
    ensures DomainWithin(lower, a, b) && DomainWithin(lower, b, a) ==> NormalDomain(lower, a) == NormalDomain(lower, b)
  {
    DomainWithinIsSuffix(lower, a, b);
    DomainWithinIsSuffix(lower, b, c);
    DomainWithinIsSuffix(lower, a, c);
    DomainWithinIsSuffix(lower, b, a);
    if DomainWithin(lower, a, b) && DomainWithin(lower, b, a) {
      var s, r := NormalDomain(lower, a).value, NormalDomain(lower, b).value;
      JoinSplit(s, DOT);
      JoinSplit(r, DOT);
      assert Labels(s) == Labels(r)[0..] == Labels(r);
    }
  }

  // ---- workspace-relative paths ----

  const MAX_PATH_UNITS: nat := 1024

  /** validateRelativePath; the absent path is the root itself. */
  function ValidRelative(raw: Option<Str>): Option<Str> {
    if raw.None? then Some(DOT_SEGMENT)
    else
      var s := raw.value;
      if s == [] || |s| > MAX_PATH_UNITS || 0 in s || BACKSLASH in s || s[0] == SLASH then None
      else
        var segments := Split(s, SLASH);
        if UP_SEGMENT in segments || ([] in segments && s != DOT_SEGMENT) then None else Some(s)
  }

  /** A segment that a relative path may have. */
  predicate Admits(segments: seq<Str>, k: nat)
    requires k < |segments|
  {
    segments[k] != Ascii("..") && segments[k] != []
  }

  /** Which relative paths are accepted, and that they are taken as they are. */
  lemma RelativeExactly(s: Str)
    ensures ValidRelative(Some(s)).Some? <==>
              && 1 <= |s| <= 1024 && s[0] != '/' as int
              && (forall i | 0 <= i < |s| :: s[i] != 0 && s[i] != 0x5C)
              && (forall k | 0 <= k < |Split(s, SLASH)| :: Admits(Split(s, SLASH), k))
    ensures ValidRelative(Some(s)).Some? ==> ValidRelative(Some(s)) == Some(s)
    ensures ValidRelative(None) == Some(Ascii("."))
  {
    assert Ascii(".") == DOT_SEGMENT;
    NoDotException(s);
    AdmitsExactly(Split(s, SLASH));
    Forbidden(s);
    RelativeStages(s);
    hide Split, Admits, ValidRelative, UP_SEGMENT;
  }

  lemma RelativeStages(s: Str)
    ensures var segments := Split(s, SLASH);
            && (s == [] || |s| > 1024 || 0 in s || BACKSLASH in s ==> ValidRelative(Some(s)).None?)
            && (s != [] && |s| <= 1024 && 0 !in s && BACKSLASH !in s && s[0] == SLASH ==> ValidRelative(Some(s)).None?)
            && (s != [] && |s| <= 1024 && 0 !in s && BACKSLASH !in s && s[0] != SLASH ==>
                  ValidRelative(Some(s)) == if UP_SEGMENT in segments || ([] in segments && s != DOT_SEGMENT) then None else Some(s))
  {
    hide Split;
  }

  lemma NoDotException(s: Str)
    ensures s == DOT_SEGMENT ==> [] !in Split(s, SLASH)
  {
    if s == DOT_SEGMENT {
      SplitNone(s, SLASH);
    }
  }

  lemma Forbidden(s: Str)
    ensures 0 !in s && BACKSLASH !in s <==> forall i | 0 <= i < |s| :: s[i] != 0 && s[i] != 0x5C
  {
  }

  lemma AdmitsExactly(segments: seq<Str>)
    ensures (forall k | 0 <= k < |segments| :: Admits(segments, k)) <==> UP_SEGMENT !in segments && [] !in segments
  {
    assert Ascii("..") == UP_SEGMENT;
    if forall k | 0 <= k < |segments| :: Admits(segments, k) {
      forall x | x in segments ensures x != UP_SEGMENT && x != [] {
        var k :| 0 <= k < |segments| && segments[k] == x;
        assert Admits(segments, k);
      }
    }
    forall k | 0 <= k < |segments| && UP_SEGMENT !in segments && [] !in segments ensures Admits(segments, k) {
      assert segments[k] in segments;
    }
  }

  /** path.join(root, rel) for an absolute root. */
  function JoinPath(root: Str, rel: Str): Option<Str> { Normalized(root + [SLASH] + rel) }

  function Dropped(parts: seq<Str>): seq<Str> {
    if parts == [] then []
    else if parts[0] == DOT_SEGMENT || parts[0] == [] then Dropped(parts[1..])
    else [parts[0]] + Dropped(parts[1..])
  }

  lemma {:induction false} WalkForward(stack: seq<Str>, parts: seq<Str>)
    requires UP_SEGMENT !in parts
    ensures Walk(stack, parts) == Some(stack + Dropped(parts))
    decreases |parts|
  {
    if parts == [] {
      assert stack + [] == stack;
    } else if parts[0] == [] || parts[0] == DOT_SEGMENT {
      WalkForward(stack, parts[1..]);
    } else {
      WalkForward(stack + [parts[0]], parts[1..]);
      assert stack + [parts[0]] + Dropped(parts[1..]) == stack + Dropped(parts);
    }
  }

  /**
   * Every accepted relative path, joined to a root, lies within that root: its segments are the
   * root's followed by those of the relative path.
   */
  lemma AcceptedPathStaysInside(root: Str, raw: Option<Str>)
    requires Segments(root).Some? && ValidRelative(raw).Some?
    ensures var joined := JoinPath(root, ValidRelative(raw).value);
            && joined.Some?
            && PathWithin(root, joined.value)
            && Segments(joined.value) == Some(Segments(root).value + Dropped(Split(ValidRelative(raw).value, SLASH)))
  {
    var rel := ValidRelative(raw).value;
    var parts := Split(rel, SLASH);
    if raw.None? {
      assert SLASH !in DOT_SEGMENT;
      SplitNone(DOT_SEGMENT, SLASH);
    }
    var path := root + [SLASH] + rel;
    SplitConcat(root, SLASH, rel);
    WalkConcat([], Split(root, SLASH), parts);
    WalkForward(Segments(root).value, parts);
    var segments := Segments(root).value + Dropped(parts);
    assert path[0] == SLASH && Segments(path) == Some(segments);
    SegmentsClean(path);
    SegmentsOfText(segments);
    PathWithinIsPrefix(root, PathText(segments));
  }

  // ---- back to workspace-relative paths ----

  function CommonPrefix(a: seq<Str>, b: seq<Str>): (n: nat)
    ensures n <= |a| && n <= |b|
  {
    if a == [] || b == [] || a[0] != b[0] then 0 else 1 + CommonPrefix(a[1..], b[1..])
  }

  /** path.relative between two absolute paths, as segments. */
  function Relative(from: seq<Str>, to: seq<Str>): seq<Str> {
    var n := CommonPrefix(from, to);
    seq(|from| - n, _ => UP_SEGMENT) + to[n..]
  }

  /** toRelative: "." for the root, None for whatever starts with two dots. */
  function ToRelative(root: seq<Str>, absolute: seq<Str>): Option<Str> {
    var rel := Join(Relative(root, absolute), SLASH);
    if rel == [] then Some(DOT_SEGMENT)
    else if UP_SEGMENT <= rel then None
    else Some(rel)
  }

  lemma {:induction false} CommonPrefixWhole(a: seq<Str>, b: seq<Str>)
    ensures CommonPrefix(a, b) == |a| <==> a <= b
  {
    if a != [] && b != [] && a[0] == b[0] {
      CommonPrefixWhole(a[1..], b[1..]);
      assert a == [a[0]] + a[1..] && b == [b[0]] + b[1..];
    }
  }

  lemma JoinStart(parts: seq<Str>)
    requires parts != [] && parts[0] != []
    ensures Join(parts, SLASH) != []
    ensures Join(parts, SLASH)[0] == parts[0][0]
    ensures UP_SEGMENT <= Join(parts, SLASH) <==> UP_SEGMENT <= parts[0]
  {
    if |parts| > 1 {
      var j := Join(parts, SLASH);
      assert j == parts[0] + ([SLASH] + Join(parts[1..], SLASH));
      if |parts[0]| == 1 {
        assert j[1] == SLASH;
      }
    }
  }

  /** When the relative text is empty or starts with two dots. */
  lemma RelativeText(root: seq<Str>, absolute: seq<Str>)
    requires AllClean(root) && AllClean(absolute)
    ensures var rel := Join(Relative(root, absolute), SLASH);
            && (rel == [] <==> root == absolute)
            && (UP_SEGMENT <= rel <==> !(root <= absolute) || (root < absolute && UP_SEGMENT <= absolute[|root|]))
            && (root <= absolute ==> Relative(root, absolute) == absolute[|root|..])
  {
    hide Join;
    CommonPrefixWhole(root, absolute);
    var n := CommonPrefix(root, absolute);
    var parts := Relative(root, absolute);
    if n < |root| {
      assert parts[0] == UP_SEGMENT;
    } else {
      assert parts == absolute[n..];
    }
    if parts != [] {
      JoinStart(parts);
    } else {
      JoinNothing();
    }
  }

  lemma JoinNothing()
    ensures Join([], SLASH) == []
  {
  }

  /**
   * A path is mapped back exactly when it lies within the root and its first segment below the
   * root does not start with two dots. An entry named "..x" inside the root is thus dropped.
   */
  lemma ToRelativeExactly(root: seq<Str>, absolute: seq<Str>)
    requires AllClean(root) && AllClean(absolute)
    ensures ToRelative(root, absolute).Some? <==>
              root <= absolute && (root == absolute || !(UP_SEGMENT <= absolute[|root|]))
    ensures ToRelative(root, absolute).Some? ==>
              JoinPath(PathText(root), ToRelative(root, absolute).value) == Some(PathText(absolute))
  {
    hide Join, Relative, JoinPath, PathText;
    RelativeText(root, absolute);
    if root <= absolute {
      RoundTrip(root, absolute[|root|..]);
      assert root + absolute[|root|..] == absolute;
    }
  }

  lemma RoundTrip(root: seq<Str>, below: seq<Str>)
    requires AllClean(root) && AllClean(below)
    ensures JoinPath(PathText(root), if below == [] then DOT_SEGMENT else Join(below, SLASH)) == Some(PathText(root + below))
  {
    hide Split, Join;
    var rel := if below == [] then DOT_SEGMENT else Join(below, SLASH);
    if below == [] {
      SplitNone(DOT_SEGMENT, SLASH);
      assert [DOT_SEGMENT][1..] == [];
      assert root + below == root;
    } else {
      SplitJoin(below, SLASH);
      WalkOverClean(root, below);
    }
    SplitConcat(PathText(root), SLASH, rel);
    WalkConcat([], Split(PathText(root), SLASH), Split(rel, SLASH));
    SegmentsOfText(root);
    assert (PathText(root) + [SLASH] + rel)[0] == SLASH;
  }
}
