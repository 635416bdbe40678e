/** Scope matching and containment, src/delegation/scope-matcher.ts. */
module ScopeMatcher {
  import opened Wrappers

  const MAX_REGEX_LEN := 256
  const MAX_VALUE_LEN := 256

  const EXACT := "exact"
  const PREFIX := "prefix"
  const PATH_PREFIX := "path-prefix"
  const REGEX := "regex"

  /** One entry of a scope list. Credentials are untrusted: an entry may lack a string resource
      or matcher, and a matcher may be any string. */
  datatype Scope = Scope(resource: string, matcher: string) | Malformed(entry: Odd)

  /** An entry that is null, one whose matcher is no string, or one whose resource is none. */
  datatype Odd = NullEntry | OddMatcher | OddResource(resource: OddValue, matcher: string)

  /** A resource that is null or absent, or one that a pattern turns into text; a list may be long. */
  datatype OddValue = NoValue | Coerced(text: string, overlong: bool)

  /** Whether a pattern that is not rejected as risky fully matches a value; never throws. */
  type Regex = (string, string) -> bool

  predicate StartsWith(s: string, prefix: string) {
    prefix <= s
  }

  function PrefixBase(pattern: string): string {
    if pattern != [] && pattern[|pattern| - 1] == '*' then pattern[..|pattern| - 1] else pattern
  }

  function StripSlashes(base: string): string {
    if base != [] && base[|base| - 1] == '/' then StripSlashes(base[..|base| - 1]) else base
  }

  function PathBase(pattern: string): string {
    StripSlashes(PrefixBase(pattern))
  }

  /** Segments after one more character: a separator starts a new one. */
  function Extended(segments: seq<string>, c: char): seq<string> {
    if c == '/' || c == '\\' then segments + [""]
    else if segments == [] then [[c]]
    else segments[..|segments| - 1] + [segments[|segments| - 1] + [c]]
  }

  /** The parts between separators, `/` and `\`; there is always at least one. */
  function Segments(path: string): seq<string> {
    if path == [] then [""]
    else
      Extended(Segments(path[..|path| - 1]), path[|path| - 1])
  }

  predicate HasDotSegment(path: string) {
    "." in Segments(path) || ".." in Segments(path)
  }

  function BaseOf(scope: Scope): string
    requires scope.Scope?
  {
    if scope.matcher == PATH_PREFIX then PathBase(scope.resource) else PrefixBase(scope.resource)
  }

  function MatchScope(regex: Regex, pattern: string, matcher: string, value: string): bool {
    if matcher == EXACT then pattern == value
    else if matcher == PREFIX then
      var base := PrefixBase(pattern);
      base != [] && StartsWith(value, base)
    else if matcher == PATH_PREFIX then
      var base := PathBase(pattern);
      base != [] && !HasDotSegment(base) && !HasDotSegment(value) && (value == base || StartsWith(value, base + "/"))
    else if matcher == REGEX then
      |pattern| <= MAX_REGEX_LEN && |value| <= MAX_VALUE_LEN && regex(pattern, value)
    else false
  }

  /** `matchScope` of an entry that is no scope: a regex matcher coerces its resource, the prefix
      matchers throw (None), and nothing else matches. */
  function MatchOdd(regex: Regex, entry: Odd, value: string): Option<bool> {
    match entry
    case NullEntry => None
    case OddMatcher => Some(false)
    case OddResource(resource, matcher) =>
      if matcher == PREFIX || matcher == PATH_PREFIX then None
      else if matcher == REGEX then
        if resource.NoValue? then None
        else Some(!resource.overlong && |value| <= MAX_VALUE_LEN && regex(resource.text, value))
      else Some(false)
  }

  /** What an entry answers when asked for a value; None is a throw. */
  function Answer(regex: Regex, scope: Scope, value: string): Option<bool> {
    match scope
    case Scope(resource, matcher) => Some(MatchScope(regex, resource, matcher, value))
    case Malformed(entry) => MatchOdd(regex, entry, value)
  }

  predicate Grants(regex: Regex, scope: Scope, value: string) {
    Answer(regex, scope, value) == Some(true)
  }

  /** The entry is a pattern: what it grants it does not grant by equality. */
  predicate IsPattern(scope: Scope) {
    scope.Malformed? || scope.matcher != EXACT
  }

  /** The containment rules, by inner and outer matcher; no rule means no proof. */
  predicate RuleHolds(innerMatcher: string, outerMatcher: string, inner: string, outer: string) {
    if innerMatcher == PREFIX && outerMatcher == PREFIX then StartsWith(inner, outer)
    else if innerMatcher == PATH_PREFIX && outerMatcher == PATH_PREFIX then
      inner == outer || StartsWith(inner, outer + "/")
    else if innerMatcher == PATH_PREFIX && outerMatcher == PREFIX then StartsWith(inner, outer)
    else if innerMatcher == PREFIX && outerMatcher == PATH_PREFIX then StartsWith(inner, outer + "/")
    else false
  }

  predicate HasDottedBase(scope: Scope) {
    scope.Scope? && scope.matcher == PATH_PREFIX && HasDotSegment(BaseOf(scope))
  }

  predicate MatcherContains(regex: Regex, outer: Scope, inner: Scope) {
    if outer.Malformed? || inner.Malformed? then false
    else if outer.matcher == inner.matcher && outer.resource == inner.resource then true
    else if inner.matcher == EXACT then MatchScope(regex, outer.resource, outer.matcher, inner.resource)
    else if HasDottedBase(inner) || HasDottedBase(outer) then false
    else
      && BaseOf(inner) != [] && BaseOf(outer) != []
      && RuleHolds(inner.matcher, outer.matcher, BaseOf(inner), BaseOf(outer))
  }

  // ---- What containment means --------------------------------------------------------

  lemma {:induction false} PrefixTransitive(a: string, b: string, c: string)
    requires StartsWith(b, a) && StartsWith(c, b)
    ensures StartsWith(c, a)
  {
    assert c[..|b|] == b && b[..|a|] == a;
  }

  /** When `outer` contains `inner`, it grants every value `inner` grants, with one exception: a
      prefix inside a path prefix also grants values with dot segments, which no path prefix
      ever grants. */
  lemma {:induction false} ContainmentIsSound(regex: Regex, outer: Scope, inner: Scope, value: string)
    requires MatcherContains(regex, outer, inner) && Grants(regex, inner, value)
    ensures Grants(regex, outer, value) <==>
      !(inner.matcher == PREFIX && outer.matcher == PATH_PREFIX && HasDotSegment(value))
  {
    if outer.matcher == inner.matcher && outer.resource == inner.resource {
    } else if inner.matcher != EXACT {
      var (i, o) := (BaseOf(inner), BaseOf(outer));
      if outer.matcher == PREFIX {
        if StartsWith(value, i) {
          PrefixTransitive(o, i, value);
        }
      } else if inner.matcher == PREFIX {
        PrefixTransitive(o + "/", i, value);
      } else if value != i {
        if i == o {
        } else {
          PrefixTransitive(o + "/", i, i + "/");
          PrefixTransitive(o + "/", i + "/", value);
        }
      }
    }
  }

  lemma {:induction false} ExampleBases()
    ensures PathBase("a") == "a" && PrefixBase("a/") == "a/"
  {
    assert PrefixBase("a") == "a" && StripSlashes("a") == "a";
  }

  /** The exception is real: the containment check accepts a prefix under a path prefix that
      grants a value the path prefix does not. */
  lemma {:induction false} DotSegmentExample(regex: Regex)
    ensures var (outer, inner) := (Scope("a", PATH_PREFIX), Scope("a/", PREFIX));
      MatcherContains(regex, outer, inner) && Grants(regex, inner, "a/..") && !Grants(regex, outer, "a/..")
  {
    ExampleBases();
    SegmentsOfA();
    SegmentsOfUp();
    assert ".." in Segments("a/..");
    assert StartsWith("a/", "a" + "/") && StartsWith("a/..", "a/");
  }

  lemma {:induction false} SegmentsSnoc(path: string, c: char)
    ensures Segments(path + [c]) == Extended(Segments(path), c)
  {
    assert (path + [c])[..|path|] == path;
  }

  lemma {:induction false} SegmentsLetter(path: string, c: char, before: seq<string>, last: string)
    requires c != '/' && c != '\\' && Segments(path) == before + [last]
    ensures Segments(path + [c]) == before + [last + [c]]
  {
    SegmentsSnoc(path, c);
  }

  lemma {:induction false} SegmentsSlash(path: string)
    ensures Segments(path + ['/']) == Segments(path) + [""]
  {
    SegmentsSnoc(path, '/');
  }

  lemma {:induction false} SegmentsOfA()
    ensures Segments("a") == ["a"]
  {
    assert Segments("") == [] + [""];
    SegmentsLetter("", 'a', [], "");
    assert "" + ['a'] == "a" && [] + ["a"] == ["a"];
  }

  lemma {:induction false} SegmentsOfUp()
    ensures Segments("a/..") == ["a"] + [".."]
  {
    SegmentsOfA();
    SegmentsSlash("a");
    assert "a" + ['/'] == "a/";
    SegmentsLetter("a/", '.', ["a"], "");
    assert "a/" + ['.'] == "a/." && "" + ['.'] == ".";
    SegmentsLetter("a/.", '.', ["a"], ".");
    assert "a/." + ['.'] == "a/.." && "." + ['.'] == "..";
  }

  /** Between prefixes, between path prefixes, and for a path prefix in a prefix, containment
      decides exactly whether everything granted by the inner is granted by the outer. */
  lemma {:induction false} ContainmentIsExact(regex: Regex, outer: Scope, inner: Scope)
    requires outer.Scope? && inner.Scope?
    requires outer.matcher == PREFIX || outer.matcher == PATH_PREFIX
    requires inner.matcher == PATH_PREFIX || (inner.matcher == PREFIX && outer.matcher == PREFIX)
    requires BaseOf(inner) != [] && !HasDottedBase(inner)
    ensures MatcherContains(regex, outer, inner) <==>
      forall value :: Grants(regex, inner, value) ==> Grants(regex, outer, value)
  {
    if MatcherContains(regex, outer, inner) {
      forall value | Grants(regex, inner, value)
        ensures Grants(regex, outer, value)
      {
        ContainmentIsSound(regex, outer, inner, value);
      }
    } else {
      assert StartsWith(BaseOf(inner), BaseOf(inner));
      assert Grants(regex, inner, BaseOf(inner));
    }
  }

  /** An identical entry is contained, whatever its kind; an exact scope is contained exactly where it
      is granted; and a regex only where it is repeated. */
  lemma {:induction false} OtherContainment(regex: Regex, outer: Scope, inner: Scope)
    requires outer.Scope? && inner.Scope?
    ensures MatcherContains(regex, inner, inner)
    ensures inner.matcher == "exact" ==>
      (MatcherContains(regex, outer, inner) <==> outer == inner || Grants(regex, outer, inner.resource))
    ensures inner.matcher == "regex" ==> (MatcherContains(regex, outer, inner) <==> outer == inner)
  {
  }

  lemma {:induction false} LetterKeepsUndotted(path: string)
    requires !HasDotSegment(path)
    ensures !HasDotSegment(path + ['x'])
  {
    var (front, last) := (Segments(path)[..|Segments(path)| - 1], Segments(path)[|Segments(path)| - 1]);
    assert Segments(path) == front + [last];
    SegmentsLetter(path, 'x', front, last);
    assert forall s :: s in front ==> s in Segments(path);
    assert (last + ['x'])[|last|] == 'x';
  }

  /** A prefix without dot segments is inside a path prefix exactly when the path prefix grants all
      its values without dot segments. */
  lemma {:induction false} PrefixInPathIsExact(regex: Regex, outer: Scope, inner: Scope)
    requires outer.Scope? && inner.Scope? && outer.matcher == PATH_PREFIX && inner.matcher == PREFIX
    requires BaseOf(inner) != [] && !HasDotSegment(BaseOf(inner))
    ensures MatcherContains(regex, outer, inner) <==>
      forall value :: !HasDotSegment(value) && Grants(regex, inner, value) ==> Grants(regex, outer, value)
  {
    var i := BaseOf(inner);
    if MatcherContains(regex, outer, inner) {
      forall value | !HasDotSegment(value) && Grants(regex, inner, value)
        ensures Grants(regex, outer, value)
      {
        ContainmentIsSound(regex, outer, inner, value);
      }
    } else {
      LetterKeepsUndotted(i);
      assert Grants(regex, inner, i) && Grants(regex, inner, i + ['x']);
    }
  }

  // ---- What single entries grant -----------------------------------------------------

  /** The plain reading of the four kinds. */
  lemma {:induction false} KindsGrant(regex: Regex, text: string, value: string)
    ensures Grants(regex, Scope(text, "exact"), value) <==> value == text
    ensures Grants(regex, Scope(text + "*", "prefix"), value) <==> text != "" && text <= value
    ensures text == "" || text[|text| - 1] != '*' ==>
      (Grants(regex, Scope(text, "prefix"), value) <==> text != "" && text <= value)
    ensures Grants(regex, Scope(text, "regex"), value) <==> |text| <= 256 && |value| <= 256 && regex(text, value)
  {
    assert (text + "*")[..|text|] == text;
  }

  lemma {:induction false} OtherKindsGrantNothing(regex: Regex, text: string, matcher: string, value: string)
    requires matcher != "exact" && matcher != "prefix" && matcher != "path-prefix" && matcher != "regex"
    ensures !Grants(regex, Scope(text, matcher), value)
  {
  }

  function Slashes(n: nat): string {
    if n == 0 then "" else Slashes(n - 1) + "/"
  }

  lemma {:induction false} StripsSlashes(base: string, n: nat)
    requires base == "" || base[|base| - 1] != '/'
    ensures StripSlashes(base + Slashes(n)) == base
  {
    if n == 0 {
      assert base + Slashes(0) == base;
    } else {
      StripsSlashes(base, n - 1);
      var text := base + Slashes(n);
      assert text == base + Slashes(n - 1) + "/" && text[..|text| - 1] == base + Slashes(n - 1);
    }
  }

  /** A path prefix, with any number of slashes and an optional star behind it, grants the path itself
      and what lies below it, but nothing with a dot segment. */
  lemma {:induction false} PathPrefixGrants(regex: Regex, base: string, slashes: nat, star: bool, value: string)
    requires base == "" || base[|base| - 1] != '/'
    requires star || slashes > 0 || base == "" || base[|base| - 1] != '*'
    ensures Grants(regex, Scope(base + Slashes(slashes) + (if star then "*" else ""), "path-prefix"), value) <==>
      base != "" && !HasDotSegment(base) && !HasDotSegment(value) && (value == base || base + "/" <= value)
  {
    var text := base + Slashes(slashes);
    if star {
      assert (text + "*")[..|text|] == text;
    } else {
      assert text + "" == text;
      if slashes > 0 {
        assert text == base + Slashes(slashes - 1) + "/" && text[|text| - 1] == '/';
      } else {
        assert text == base;
      }
    }
    StripsSlashes(base, slashes);
  }

  /** An entry that is no scope: null throws, a regex reads the text of its resource, the prefix
      matchers throw, and everything else matches nothing. */
  lemma {:induction false} OddEntriesAnswer(
    regex: Regex, text: string, resource: OddValue, matcher: string, value: string)
    ensures Answer(regex, Malformed(NullEntry), value) == None
    ensures Answer(regex, Malformed(OddMatcher), value) == Some(false)
    ensures |text| <= 256 ==>
      Answer(regex, Malformed(OddResource(Coerced(text, false), "regex")), value) == Answer(regex, Scope(text, "regex"), value)
    ensures Answer(regex, Malformed(OddResource(Coerced(text, true), "regex")), value) == Some(false)
    ensures Answer(regex, Malformed(OddResource(NoValue, "regex")), value) == None
    ensures matcher == "prefix" || matcher == "path-prefix" ==>
      Answer(regex, Malformed(OddResource(resource, matcher)), value) == None
    ensures matcher != "prefix" && matcher != "path-prefix" && matcher != "regex" ==>
      Answer(regex, Malformed(OddResource(resource, matcher)), value) == Some(false)
  {
  }

  predicate IsSeparator(c: char) {
    c == '/' || c == '\\'
  }

  /** From i to j there is no separator, and both ends are ends of the path or at a separator. */
  predicate IsSegment(path: string, i: nat, j: nat) {
    && i <= j <= |path|
    && (i == 0 || IsSeparator(path[i - 1])) && (j == |path| || IsSeparator(path[j]))
    && forall k :: i <= k < j ==> !IsSeparator(path[k])
  }

  /** A segment of the path followed by one more character. */
  lemma {:induction false} SegmentExtends(path: string, c: char, i: nat, j: nat)
    requires i <= j <= |path| + 1
    ensures IsSegment(path + [c], i, j) <==>
      if j <= |path| then (i <= |path| && IsSegment(path, i, j) && (j == |path| ==> IsSeparator(c)))
      else if IsSeparator(c) then i == j else i <= |path| && IsSegment(path, i, |path|)
  {
    var more := path + [c];
    assert forall k :: 0 <= k < |path| ==> more[k] == path[k];
    assert more[|path|] == c;
  }

  /** The last segment is the open one at the end; the others are those that a separator closes. */
  ghost predicate SegmentsAre(path: string, segments: seq<string>) {
    && segments != []
    && (forall m :: 0 <= m < |segments| - 1 ==> OccursClosed(path, segments[m]))
    && OccursLast(path, segments[|segments| - 1])
    && (forall i: nat, j: nat {:trigger IsSegment(path, i, j)} :: IsSegment(path, i, j) ==>
          if j == |path| then path[i..j] == segments[|segments| - 1] else path[i..j] in segments[..|segments| - 1])
  }

  ghost predicate OccursClosed(path: string, segment: string) {
    exists i: nat, j: nat :: IsSegment(path, i, j) && j < |path| && path[i..j] == segment
  }

  ghost predicate OccursLast(path: string, segment: string) {
    exists i: nat :: IsSegment(path, i, |path|) && path[i..|path|] == segment
  }

  lemma {:induction false} ClosedAreSegments(path: string, c: char, i: nat, j: nat)
    requires SegmentsAre(path, Segments(path)) && IsSegment(path + [c], i, j) && j <= |path|
    ensures (path + [c])[i..j] in Segments(path + [c])[..|Segments(path + [c])| - 1]
  {
    var (more, before) := (path + [c], Segments(path));
    SegmentsSnoc(path, c);
    SegmentExtends(path, c, i, j);
    assert more[i..j] == path[i..j] && IsSegment(path, i, j);
    if IsSeparator(c) {
      assert Segments(more)[..|before|] == before == before[..|before| - 1] + [before[|before| - 1]];
    } else {
      assert Segments(more)[..|before| - 1] == before[..|before| - 1];
    }
  }

  lemma {:induction false} OpenIsLast(path: string, c: char, i: nat)
    requires SegmentsAre(path, Segments(path)) && IsSegment(path + [c], i, |path| + 1)
    ensures (path + [c])[i..] == Segments(path + [c])[|Segments(path + [c])| - 1]
  {
    SegmentsSnoc(path, c);
    SegmentExtends(path, c, i, |path| + 1);
    if !IsSeparator(c) {
      assert IsSegment(path, i, |path|) && (path + [c])[i..] == path[i..|path|] + [c];
    }
  }

  lemma {:induction false} LastOccurs(path: string, c: char)
    requires SegmentsAre(path, Segments(path))
    ensures OccursLast(path + [c], Segments(path + [c])[|Segments(path + [c])| - 1])
  {
    var (more, before) := (path + [c], Segments(path));
    SegmentsSnoc(path, c);
    if IsSeparator(c) {
      assert IsSegment(more, |more|, |more|) && more[|more|..|more|] == "";
    } else {
      var i: nat :| IsSegment(path, i, |path|) && path[i..|path|] == before[|before| - 1];
      SegmentExtends(path, c, i, |more|);
      assert more[i..|more|] == path[i..|path|] + [c];
    }
  }

  lemma {:induction false} ClosedOccurs(path: string, c: char, m: nat)
    requires SegmentsAre(path, Segments(path)) && m < |Segments(path + [c])| - 1
    ensures OccursClosed(path + [c], Segments(path + [c])[m])
  {
    var (more, before) := (path + [c], Segments(path));
    SegmentsSnoc(path, c);
    assert Segments(more)[m] == before[m];
    if m == |before| - 1 {
      var i: nat :| IsSegment(path, i, |path|) && path[i..|path|] == before[m];
      SegmentExtends(path, c, i, |path|);
      assert more[i..|path|] == path[i..|path|];
    } else {
      var i: nat, j: nat :| IsSegment(path, i, j) && j < |path| && path[i..j] == before[m];
      SegmentExtends(path, c, i, j);
      assert more[i..j] == path[i..j];
    }
  }

  lemma {:induction false} SegmentsMean(path: string)
    ensures SegmentsAre(path, Segments(path))
  {
    if path == "" {
      assert IsSegment("", 0, 0) && ""[0..0] == "";
    } else {
      var (front, c) := (path[..|path| - 1], path[|path| - 1]);
      assert path == front + [c];
      SegmentsMean(front);
      forall i: nat, j: nat | IsSegment(path, i, j)
        ensures if j == |path| then path[i..j] == Segments(path)[|Segments(path)| - 1]
                else path[i..j] in Segments(path)[..|Segments(path)| - 1]
      {
        if j == |path| {
          OpenIsLast(front, c, i);
          assert path[i..j] == path[i..];
        } else {
          ClosedAreSegments(front, c, i, j);
        }
      }
      forall m | 0 <= m < |Segments(path)| - 1
        ensures OccursClosed(path, Segments(path)[m])
      {
        ClosedOccurs(front, c, m);
      }
      LastOccurs(front, c);
    }
  }

  /** A path has a dot segment exactly when somewhere "." or ".." stands between separators or ends. */
  lemma {:induction false} DotSegmentMeans(path: string)
    ensures HasDotSegment(path) <==>
      exists i: nat, j: nat :: IsSegment(path, i, j) && (path[i..j] == "." || path[i..j] == "..")
  {
    SegmentsMean(path);
  }

  // ---- Authorities -------------------------------------------------------------------

  const NUL := '\0'

  function ScopeKey(scope: Scope): string
    requires scope.Scope?
  {
    scope.matcher + [NUL] + scope.resource
  }

  function Granted(authority: seq<Scope>): (granted: seq<Scope>)
    ensures forall s :: s in granted <==> s in authority && s.Scope?
  {
    if authority == [] then []
    else (if authority[0].Scope? then [authority[0]] else []) + Granted(authority[1..])
  }

  /** The fast check of one scope against an authority: an identical entry by key, or a pattern
      entry that contains it. */
  predicate AuthorityContains(regex: Regex, authority: seq<Scope>, scope: Scope) {
    var granted := Granted(authority);
    var identical := set s | s in granted :: ScopeKey(s);
    && scope.Scope?
    && (ScopeKey(scope) in identical
        || exists s :: s in granted && s.matcher != EXACT && MatcherContains(regex, s, scope))
  }

  predicate NulFree(s: string) {
    NUL !in s
  }

  /** Matcher names without NUL characters, which every known matcher kind has. */
  predicate PlainMatchers(scopes: seq<Scope>) {
    forall s :: s in scopes && s.Scope? ==> NulFree(s.matcher)
  }

  lemma {:induction false} FirstNul(scope: Scope)
    requires scope.Scope? && NulFree(scope.matcher)
    ensures ScopeKey(scope)[|scope.matcher|] == NUL
    ensures forall j :: 0 <= j < |scope.matcher| ==> ScopeKey(scope)[j] != NUL
  {
    assert forall j :: 0 <= j < |scope.matcher| ==> ScopeKey(scope)[j] == scope.matcher[j];
  }

  lemma {:induction false} KeyIdentifies(a: Scope, b: Scope)
    requires a.Scope? && b.Scope? && NulFree(a.matcher) && NulFree(b.matcher) && ScopeKey(a) == ScopeKey(b)
    ensures a == b
  {
    var (k, l) := (|a.matcher|, |b.matcher|);
    FirstNul(a);
    FirstNul(b);
    assert k == l;
    assert ScopeKey(a)[..k] == a.matcher && ScopeKey(b)[..k] == b.matcher;
    assert ScopeKey(a)[k + 1..] == a.resource && ScopeKey(b)[k + 1..] == b.resource;
  }

  /** Asking every entry. */
  predicate SomeEntryContains(regex: Regex, authority: seq<Scope>, scope: Scope) {
    exists s :: s in authority && MatcherContains(regex, s, scope)
  }

  predicate SharesKey(authority: seq<Scope>, scope: Scope) {
    scope.Scope? && exists s :: s in authority && s.Scope? && ScopeKey(s) == ScopeKey(scope)
  }

  /** An entry that shares the scope's key is there only when some entry contains the scope. */
  predicate HonestKey(regex: Regex, authority: seq<Scope>, scope: Scope) {
    SharesKey(authority, scope) ==> SomeEntryContains(regex, authority, scope)
  }

  /** Keys decide identity for matcher names without NUL characters, so they are honest there. */
  lemma {:induction false} PlainKeysAreHonest(regex: Regex, authority: seq<Scope>, scope: Scope)
    requires PlainMatchers(authority) && (scope.Scope? ==> NulFree(scope.matcher))
    ensures HonestKey(regex, authority, scope)
  {
    if SharesKey(authority, scope) {
      var s :| s in authority && s.Scope? && ScopeKey(s) == ScopeKey(scope);
      KeyIdentifies(s, scope);
      assert MatcherContains(regex, s, scope);
    }
  }

  lemma {:induction false} FastCheckParts(regex: Regex, authority: seq<Scope>, scope: Scope)
    ensures AuthorityContains(regex, authority, scope) <==>
      SharesKey(authority, scope) || SomeEntryContains(regex, authority, scope)
  {
    var granted := Granted(authority);
    if SomeEntryContains(regex, authority, scope) {
      var s :| s in authority && MatcherContains(regex, s, scope);
      assert s in granted;
      if s.matcher == EXACT {
        assert ScopeKey(s) in set g | g in granted :: ScopeKey(g);
      }
    }
    if SharesKey(authority, scope) {
      var s :| s in authority && s.Scope? && ScopeKey(s) == ScopeKey(scope);
      assert s in granted && ScopeKey(s) in set g | g in granted :: ScopeKey(g);
    }
  }

  /** The fast check equals asking every entry exactly when the scope's key is honest. */
  lemma {:induction false} FastCheckIsExact(regex: Regex, authority: seq<Scope>, scope: Scope)
    ensures (AuthorityContains(regex, authority, scope) <==> SomeEntryContains(regex, authority, scope))
      <==> HonestKey(regex, authority, scope)
  {
    FastCheckParts(regex, authority, scope);
  }

  /** A key need not be honest: it joins name and resource with NUL, so a name that contains NUL
      can share the key of another matcher that it does not contain. */
  lemma {:induction false} NulKeyExample(regex: Regex)
    ensures var (outer, inner) := (Scope("b", "prefix\0a"), Scope("a\0b", PREFIX));
      && AuthorityContains(regex, [outer], inner) && !SomeEntryContains(regex, [outer], inner)
      && Grants(regex, inner, "a\0bx") && !Grants(regex, outer, "a\0bx")
  {
    var (outer, inner) := (Scope("b", "prefix\0a"), Scope("a\0b", PREFIX));
    assert ScopeKey(outer) == "prefix\0a\0b" == ScopeKey(inner);
    assert outer in [outer];
    FastCheckParts(regex, [outer], inner);
    assert outer.matcher[6] == NUL;
    assert outer.matcher != PREFIX && outer.matcher != PATH_PREFIX && outer.matcher != EXACT && outer.matcher != REGEX;
    assert !RuleHolds(inner.matcher, outer.matcher, BaseOf(inner), BaseOf(outer));
    assert PrefixBase("a\0b") == "a\0b" && StartsWith("a\0bx", "a\0b");
  }

  /** Some path prefix of the authority contains this prefix. */
  predicate PrefixUnderPath(regex: Regex, authority: seq<Scope>, scope: Scope) {
    scope.Scope? && scope.matcher == PREFIX
    && exists s :: s in authority && s.Scope? && s.matcher == PATH_PREFIX && MatcherContains(regex, s, scope)
  }

  /** What a contained scope grants is granted by the authority: every value without dot segments,
      and every value at all unless the scope is a prefix under a path prefix. */
  lemma {:induction false} WiderAuthorityGrants(regex: Regex, wider: seq<Scope>, scope: Scope, value: string)
    requires HonestKey(regex, wider, scope) && AuthorityContains(regex, wider, scope) && Grants(regex, scope, value)
    requires !HasDotSegment(value) || !PrefixUnderPath(regex, wider, scope)
    ensures exists s :: s in wider && Grants(regex, s, value)
  {
    FastCheckParts(regex, wider, scope);
    var s :| s in wider && MatcherContains(regex, s, scope);
    ContainmentIsSound(regex, s, scope, value);
  }
}
