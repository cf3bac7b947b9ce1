/**
 Route patterns (pkg/iam/authorization.go): segments are literals, {parameters} or one {catch-all...}
 that takes the rest of the path. Matching is proved to be the inverse of filling a pattern in.
 */
module RouteMatching {
  import opened Options
  import opened Texts

  /** strings.Trim of slashes at both ends. */
  function TrimSlashes(s: string): string {
    if s != "" && s[0] == '/' then TrimSlashes(s[1..])
    else if s != "" && s[|s| - 1] == '/' then TrimSlashes(s[..|s| - 1])
    else s
  }

  /** splitRoutePath. Inner empty segments stay. */
  function SplitPath(path: string): (parts: seq<string>)
    ensures forall i :: 0 <= i < |parts| ==> '/' !in parts[i]
  {
    if TrimSlashes(path) == "" then [] else Split(TrimSlashes(path), '/')
  }

  lemma PartsJoinToPath(path: string)
    ensures Join(SplitPath(path), '/') == TrimSlashes(path)
  {
    JoinOfSplit(TrimSlashes(path), '/');
  }

  datatype Segment = Literal(text: string) | Parameter(name: string) | CatchAll(name: string)

  /** How matchRoutePattern reads one part of a pattern. */
  function Classify(part: string): Segment {
    if HasPrefix(part, "{") && HasSuffix(part, "...}") && |part| >= 5 then CatchAll(part[1..|part| - 4])
    else if HasPrefix(part, "{") && HasSuffix(part, "}") && |part| >= 2 then Parameter(part[1..|part| - 1])
    else Literal(part)
  }

  /** How a segment is written in a pattern. */
  function Written(segment: Segment): string {
    match segment
    case Literal(text) => text
    case Parameter(name) => "{" + name + "}"
    case CatchAll(name) => "{" + name + "...}"
  }

  /** Every part is read as a segment that is written just so; it is a parameter or a catch-all
      exactly when it stands in braces, with or without the three dots. */
  lemma ClassifyReadsBack(part: string)
    ensures Written(Classify(part)) == part
    ensures Classify(part).CatchAll? <==> exists name :: part == "{" + name + "...}"
    ensures Classify(part).Parameter? <==> (exists name :: part == "{" + name + "}") && !Classify(part).CatchAll?
  {
    if |part| >= 5 && HasPrefix(part, "{") && HasSuffix(part, "...}") {
      assert part == "{" + part[1..|part| - 4] + "...}";
    } else if |part| >= 2 && HasPrefix(part, "{") && HasSuffix(part, "}") {
      assert part == "{" + part[1..|part| - 1] + "}";
    }
    forall name | part == "{" + name + "...}" ensures Classify(part).CatchAll? { BracesAround(part, name, "...}"); }
    forall name | part == "{" + name + "}" ensures !Classify(part).Literal? { BracesAround(part, name, "}"); }
  }

  lemma BracesAround(part: string, name: string, end: string)
    requires part == "{" + name + end
    ensures |part| == 1 + |name| + |end| && HasPrefix(part, "{") && HasSuffix(part, end)
  {
    assert part[1 + |name|..] == end;
  }

  /** Only slashes are trimmed, from both ends, and all of them. */
  lemma {:induction false} TrimTakesOuterSlashes(s: string) returns (before: nat, after: nat)
    ensures before + after <= |s| && TrimSlashes(s) == s[before..|s| - after]
    ensures forall k :: 0 <= k < before || |s| - after <= k < |s| ==> s[k] == '/'
    ensures var t := TrimSlashes(s); t == "" || (t[0] != '/' && t[|t| - 1] != '/')
    decreases |s|
  {
    before, after := 0, 0;
    if s != "" && s[0] == '/' {
      before, after := TrimTakesOuterSlashes(s[1..]);
      assert s[1..][before..|s| - 1 - after] == s[before + 1..|s| - after];
      forall k | 0 < k < before + 1 || |s| - after <= k < |s| ensures s[k] == '/' {
        if k >= 1 { assert s[k] == s[1..][k - 1]; }
      }
      before := before + 1;
    } else if s != "" && s[|s| - 1] == '/' {
      var t := s[..|s| - 1];
      before, after := TrimTakesOuterSlashes(t);
      assert t[before..|t| - after] == s[before..|s| - (after + 1)];
      after := after + 1;
    } else {
      assert s[0..|s|] == s;
    }
  }

  function Segments(pattern: string): seq<Segment> {
    var parts := SplitPath(pattern);
    seq(|parts|, i requires 0 <= i < |parts| => Classify(parts[i]))
  }

  type Params = map<string, string>

  // ---- matching -------------------------------------------------------------------------------

  /** Matching from the i-th segment on, with the parameters bound so far. */
  function MatchFrom(pattern: seq<Segment>, path: seq<string>, i: nat, params: Params): Option<Params>
    requires i <= |pattern|
    decreases |pattern| - i
  {
    if i == |pattern| then (if |pattern| == |path| then Some(params) else None)
    else if i >= |path| then None
    else match pattern[i]
      case CatchAll(name) => Some(params[name := Join(path[i..], '/')])
      case Parameter(name) => MatchFrom(pattern, path, i + 1, params[name := path[i]])
      case Literal(text) => if text == path[i] then MatchFrom(pattern, path, i + 1, params) else None
  }

  /** The loop of matchRoutePattern. */
  method MatchPattern(pattern: string, path: string) returns (matched: Option<Params>)
    ensures matched == MatchFrom(Segments(pattern), SplitPath(path), 0, map[])
  {
    var patternParts, pathParts := SplitPath(pattern), SplitPath(path);
    var params: Params := map[];
    for index := 0 to |patternParts|
      invariant MatchFrom(Segments(pattern), pathParts, 0, map[])
                == MatchFrom(Segments(pattern), pathParts, index, params)
    {
      var part := patternParts[index];
      if HasPrefix(part, "{") && HasSuffix(part, "...}") && |part| >= 5 {
        if index >= |pathParts| { return None; }
        return Some(params[part[1..|part| - 4] := Join(pathParts[index..], '/')]);
      }
      if index >= |pathParts| { return None; }
      if HasPrefix(part, "{") && HasSuffix(part, "}") && |part| >= 2 {
        params := params[part[1..|part| - 1] := pathParts[index]];
      } else if part != pathParts[index] {
        return None;
      }
    }
    return if |patternParts| == |pathParts| then Some(params) else None;
  }

  // ---- filling in, the inverse ----------------------------------------------------------------

  /** The parameter names a match binds: those up to and including the first catch-all. */
  function NamesFrom(pattern: seq<Segment>, i: nat): set<string>
    requires i <= |pattern|
    decreases |pattern| - i
  {
    if i == |pattern| then {}
    else match pattern[i]
      case CatchAll(name) => {name}
      case Parameter(name) => {name} + NamesFrom(pattern, i + 1)
      case Literal(_) => NamesFrom(pattern, i + 1)
  }

  predicate DistinctNames(pattern: seq<Segment>, i: nat)
    requires i <= |pattern|
    decreases |pattern| - i
  {
    i == |pattern| ||
    match pattern[i]
    case CatchAll(_) => true
    case Parameter(name) => name !in NamesFrom(pattern, i + 1) && DistinctNames(pattern, i + 1)
    case Literal(_) => DistinctNames(pattern, i + 1)
  }

  /** The segments a pattern stands for under given parameters; a catch-all ends it. */
  function FillFrom(pattern: seq<Segment>, p: Params, i: nat): seq<string>
    requires i <= |pattern| && NamesFrom(pattern, i) <= p.Keys
    decreases |pattern| - i
  {
    if i == |pattern| then []
    else match pattern[i]
      case CatchAll(name) => Split(p[name], '/')
      case Parameter(name) => [p[name]] + FillFrom(pattern, p, i + 1)
      case Literal(text) => [text] + FillFrom(pattern, p, i + 1)
  }

  // ---- when a match gives back its path -------------------------------------------------------

  /** What a match that reaches segment i binds a name to from there on, the last binding winning. */
  function LastBound(pattern: seq<Segment>, path: seq<string>, i: nat, name: string): Option<string>
    requires i <= |pattern|
    decreases |pattern| - i
  {
    if i == |pattern| || i >= |path| then None
    else match pattern[i]
      case CatchAll(n) => if n == name then Some(Join(path[i..], '/')) else None
      case Parameter(n) =>
        var later := LastBound(pattern, path, i + 1, name);
        if later.None? && n == name then Some(path[i]) else later
      case Literal(_) => LastBound(pattern, path, i + 1, name)
  }

  /** Every parameter segment equals what its name is bound to last. */
  predicate Consistent(pattern: seq<Segment>, path: seq<string>, i: nat)
    requires i <= |pattern|
    decreases |pattern| - i
  {
    i == |pattern| || i >= |path| ||
    match pattern[i]
    case CatchAll(_) => true
    case Parameter(name) =>
      LastBound(pattern, path, i + 1, name) in {None, Some(path[i])} && Consistent(pattern, path, i + 1)
    case Literal(_) => Consistent(pattern, path, i + 1)
  }

  /** A match binds each name to its last binding, and keeps earlier ones for the other names. */
  lemma {:induction false} MatchBindsLast(pattern: seq<Segment>, path: seq<string>, i: nat, params: Params, p: Params,
                                          name: string)
    requires i <= |pattern| && MatchFrom(pattern, path, i, params) == Some(p)
    ensures name in NamesFrom(pattern, i) <==> LastBound(pattern, path, i, name).Some?
    ensures name in p <==> name in params || name in NamesFrom(pattern, i)
    ensures name in NamesFrom(pattern, i) ==> p[name] == LastBound(pattern, path, i, name).value
    ensures name in params && name !in NamesFrom(pattern, i) ==> p[name] == params[name]
    decreases |pattern| - i
  {
    if i < |pattern| && !pattern[i].CatchAll? {
      MatchBindsLast(pattern, path, i + 1,
        if pattern[i].Parameter? then params[pattern[i].name := path[i]] else params, p, name);
    }
  }

  lemma HeadFills(pattern: seq<Segment>, path: seq<string>, i: nat, p: Params)
    requires i < |pattern| && i < |path| && !pattern[i].CatchAll? && NamesFrom(pattern, i) <= p.Keys
    ensures NamesFrom(pattern, i + 1) <= p.Keys
    ensures FillFrom(pattern, p, i) == path[i..] <==>
      && (if pattern[i].Parameter? then p[pattern[i].name] else pattern[i].text) == path[i]
      && FillFrom(pattern, p, i + 1) == path[i + 1..]
  {
    var head := if pattern[i].Parameter? then p[pattern[i].name] else pattern[i].text;
    assert FillFrom(pattern, p, i) == [head] + FillFrom(pattern, p, i + 1);
    assert path[i..] == [path[i]] + path[i + 1..];
    assert FillFrom(pattern, p, i)[0] == head && FillFrom(pattern, p, i)[1..] == FillFrom(pattern, p, i + 1);
  }

  /** From any segment on, filling in what a match bound gives back the path exactly when the match
      was consistent. */
  lemma {:induction false} FillsBackFrom(pattern: seq<Segment>, path: seq<string>, i: nat, params: Params, p: Params)
    requires i <= |pattern| && MatchFrom(pattern, path, i, params) == Some(p)
    requires forall k :: 0 <= k < |path| ==> '/' !in path[k]
    ensures i <= |path| && NamesFrom(pattern, i) <= p.Keys
    ensures FillFrom(pattern, p, i) == path[i..] <==> Consistent(pattern, path, i)
    decreases |pattern| - i
  {
    forall name ensures name in NamesFrom(pattern, i) ==> name in p {
      MatchBindsLast(pattern, path, i, params, p, name);
    }
    if i < |pattern| {
      if pattern[i].CatchAll? {
        SplitOfJoin(path[i..], '/');
      } else {
        var params' := if pattern[i].Parameter? then params[pattern[i].name := path[i]] else params;
        FillsBackFrom(pattern, path, i + 1, params', p);
        if pattern[i].Parameter? { MatchBindsLast(pattern, path, i + 1, params', p, pattern[i].name); }
        HeadFills(pattern, path, i, p);
      }
    }
  }

  /** Conversely, a path that a filled pattern stands for matches and binds what was filled in. */
  lemma {:induction false} FilledMatches(pattern: seq<Segment>, path: seq<string>, i: nat, params: Params, p: Params)
    requires i <= |pattern| && i <= |path| && NamesFrom(pattern, i) <= p.Keys && FillFrom(pattern, p, i) == path[i..]
    ensures MatchFrom(pattern, path, i, params).Some?
    ensures forall name <- NamesFrom(pattern, i) ::
              name in MatchFrom(pattern, path, i, params).value
                && MatchFrom(pattern, path, i, params).value[name] == p[name]
    decreases |pattern| - i
  {
    if i == |pattern| {
      assert |path[i..]| == 0;
    } else if pattern[i].CatchAll? {
      JoinOfSplit(p[pattern[i].name], '/');
    } else {
      var head := if pattern[i].Parameter? then p[pattern[i].name] else pattern[i].text;
      assert FillFrom(pattern, p, i) == [head] + FillFrom(pattern, p, i + 1);
      assert path[i] == path[i..][0] == head && path[i + 1..] == path[i..][1..] == FillFrom(pattern, p, i + 1);
      var params' := if pattern[i].Parameter? then params[pattern[i].name := path[i]] else params;
      FilledMatches(pattern, path, i + 1, params', p);
      if pattern[i].Parameter? {
        MatchBindsLast(pattern, path, i + 1, params', MatchFrom(pattern, path, i + 1, params').value, pattern[i].name);
      }
    }
  }

  /** For every pattern, repeated names or not: p binds the pattern's names and fills it in to the
      path's segments exactly when the path matches with p and each parameter segment equals what its
      name is bound to last. A catch-all takes a non-empty rest. */
  lemma FillsExactlyWhenConsistent(pattern: string, path: string, p: Params)
    ensures p.Keys == NamesFrom(Segments(pattern), 0) && FillFrom(Segments(pattern), p, 0) == SplitPath(path) <==>
              && MatchFrom(Segments(pattern), SplitPath(path), 0, map[]) == Some(p)
              && Consistent(Segments(pattern), SplitPath(path), 0)
  {
    var segments, parts := Segments(pattern), SplitPath(path);
    assert parts[0..] == parts;
    if p.Keys == NamesFrom(segments, 0) && FillFrom(segments, p, 0) == parts {
      FilledMatches(segments, parts, 0, map[], p);
      var q := MatchFrom(segments, parts, 0, map[]).value;
      forall name ensures name in q <==> name in p { MatchBindsLast(segments, parts, 0, map[], q, name); }
      assert q == p;
    }
    if MatchFrom(segments, parts, 0, map[]) == Some(p) {
      FillsBackFrom(segments, parts, 0, map[], p);
      forall name ensures name in p <==> name in NamesFrom(segments, 0) {
        MatchBindsLast(segments, parts, 0, map[], p, name);
      }
    }
  }

  lemma {:induction false} BoundIsNamed(pattern: seq<Segment>, path: seq<string>, i: nat, name: string)
    requires i <= |pattern| && LastBound(pattern, path, i, name).Some?
    ensures name in NamesFrom(pattern, i)
    decreases |pattern| - i
  {
    if pattern[i].Literal? || (pattern[i].Parameter? && pattern[i].name != name) {
      BoundIsNamed(pattern, path, i + 1, name);
    }
  }

  /** Distinct names make every path consistent. */
  lemma {:induction false} DistinctIsConsistent(pattern: seq<Segment>, path: seq<string>, i: nat)
    requires i <= |pattern| && DistinctNames(pattern, i)
    ensures Consistent(pattern, path, i)
    decreases |pattern| - i
  {
    if i < |pattern| && i < |path| && !pattern[i].CatchAll? {
      DistinctIsConsistent(pattern, path, i + 1);
      if pattern[i].Parameter? && LastBound(pattern, path, i + 1, pattern[i].name).Some? {
        BoundIsNamed(pattern, path, i + 1, pattern[i].name);
      }
    }
  }

  /** So for every pattern with distinct parameter names, a path matches with parameters p exactly when
      p binds the pattern's names and filling the pattern with p gives back the path's segments. */
  lemma MatchInvertsFill(pattern: string, path: string, p: Params)
    requires DistinctNames(Segments(pattern), 0)
    ensures MatchFrom(Segments(pattern), SplitPath(path), 0, map[]) == Some(p) <==>
              p.Keys == NamesFrom(Segments(pattern), 0) && FillFrom(Segments(pattern), p, 0) == SplitPath(path)
  {
    DistinctIsConsistent(Segments(pattern), SplitPath(path), 0);
    FillsExactlyWhenConsistent(pattern, path, p);
  }

  /** A path that fits the pattern from segment i on: each literal itself, anything else a given text. */
  function Sample(pattern: seq<Segment>, i: nat, text: string): seq<string>
    requires i <= |pattern|
    decreases |pattern| - i
  {
    if i == |pattern| then []
    else match pattern[i]
      case CatchAll(_) => [text]
      case Parameter(_) => [text] + Sample(pattern, i + 1, text)
      case Literal(t) => [t] + Sample(pattern, i + 1, text)
  }

  lemma {:induction false} SampleMatches(pattern: seq<Segment>, front: seq<string>, text: string, params: Params)
    requires |front| <= |pattern|
    ensures var path := front + Sample(pattern, |front|, text);
      && MatchFrom(pattern, path, |front|, params).Some?
      && forall name <- NamesFrom(pattern, |front|) :: LastBound(pattern, path, |front|, name) == Some(text)
    decreases |pattern| - |front|
  {
    var i, rest := |front|, Sample(pattern, |front|, text);
    var path := front + rest;
    if i < |pattern| {
      assert path[i] == rest[0];
      if pattern[i].CatchAll? {
        assert path[i..] == [text];
      } else {
        var front' := front + [rest[0]];
        assert path == front' + Sample(pattern, i + 1, text);
        SampleMatches(pattern, front', text,
          if pattern[i].Parameter? then params[pattern[i].name := path[i]] else params);
        forall name <- NamesFrom(pattern, i) ensures LastBound(pattern, path, i, name) == Some(text) {
          if name !in NamesFrom(pattern, i + 1) && LastBound(pattern, path, i + 1, name).Some? {
            BoundIsNamed(pattern, path, i + 1, name);
          }
        }
      }
    }
  }

  predicate SlashFree(path: seq<string>) { forall k :: 0 <= k < |path| ==> '/' !in path[k] }

  predicate SlashFreePattern(pattern: seq<Segment>) {
    forall k :: 0 <= k < |pattern| && pattern[k].Literal? ==> '/' !in pattern[k].text
  }

  lemma {:induction false} SampleIsSlashFree(pattern: seq<Segment>, i: nat, text: string)
    requires i <= |pattern| && SlashFreePattern(pattern) && '/' !in text
    ensures SlashFree(Sample(pattern, i, text))
    decreases |pattern| - i
  {
    if i < |pattern| { SampleIsSlashFree(pattern, i + 1, text); }
  }

  /** A repeated name loses a segment on some matching path. */
  lemma {:induction false} RepeatedNamesLoseSegments(pattern: seq<Segment>, front: seq<string>, params: Params)
    returns (path: seq<string>)
    requires |front| <= |pattern| && !DistinctNames(pattern, |front|) && SlashFree(front) && SlashFreePattern(pattern)
    ensures front <= path && SlashFree(path)
    ensures MatchFrom(pattern, path, |front|, params).Some? && !Consistent(pattern, path, |front|)
    decreases |pattern| - |front|
  {
    var i := |front|;
    if pattern[i].Literal? {
      path := RepeatedNamesLoseSegments(pattern, front + [pattern[i].text], params);
    } else if !DistinctNames(pattern, i + 1) {
      path := RepeatedNamesLoseSegments(pattern, front + ["x"], params[pattern[i].name := "x"]);
    } else {
      SampleMatches(pattern, front + ["x"], "y", params[pattern[i].name := "x"]);
      SampleIsSlashFree(pattern, i + 1, "y");
      path := front + ["x"] + Sample(pattern, i + 1, "y");
    }
  }

  ghost predicate FillsBack(pattern: seq<Segment>, path: seq<string>) {
    MatchFrom(pattern, path, 0, map[]).Some? ==>
      var p := MatchFrom(pattern, path, 0, map[]).value;
      NamesFrom(pattern, 0) <= p.Keys && FillFrom(pattern, p, 0) == path
  }

  /** A pattern gives back every path it matches exactly when its parameter names are distinct. */
  lemma DistinctNamesIsExact(pattern: seq<Segment>)
    requires SlashFreePattern(pattern)
    ensures (forall path :: SlashFree(path) ==> FillsBack(pattern, path)) <==> DistinctNames(pattern, 0)
  {
    if DistinctNames(pattern, 0) {
      forall path | SlashFree(path) ensures FillsBack(pattern, path) {
        DistinctIsConsistent(pattern, path, 0);
        if MatchFrom(pattern, path, 0, map[]).Some? { FillsBackPath(pattern, path); }
      }
    } else {
      var path := RepeatedNamesLoseSegments(pattern, [], map[]);
      FillsBackPath(pattern, path);
    }
  }

  lemma FillsBackPath(pattern: seq<Segment>, path: seq<string>)
    requires SlashFree(path) && MatchFrom(pattern, path, 0, map[]).Some?
    ensures FillsBack(pattern, path) <==> Consistent(pattern, path, 0)
  {
    FillsBackFrom(pattern, path, 0, map[], MatchFrom(pattern, path, 0, map[]).value);
    assert path[0..] == path;
  }

  /** Which the patterns of the program are subject to: no literal of theirs holds a slash. */
  lemma PatternsAreSlashFree(pattern: string)
    ensures SlashFreePattern(Segments(pattern))
  {}

  // ---- routes ---------------------------------------------------------------------------------

  datatype Route = Route(httpMethod: string, pattern: string)

  predicate Matches(route: Route, path: string) {
    MatchFrom(Segments(route.pattern), SplitPath(path), 0, map[]).Some?
  }

  /** MatchRoute returns the first route of the method that matches, with its parameters. */
  method MatchRoute(routes: seq<Route>, httpMethod: string, path: string) returns (found: Option<(nat, Params)>)
    ensures found.Some? ==>
      && found.value.0 < |routes| && routes[found.value.0].httpMethod == httpMethod
      && Some(found.value.1) == MatchFrom(Segments(routes[found.value.0].pattern), SplitPath(path), 0, map[])
      && forall k :: 0 <= k < found.value.0 && routes[k].httpMethod == httpMethod ==> !Matches(routes[k], path)
    ensures found.None? ==>
      forall k :: 0 <= k < |routes| && routes[k].httpMethod == httpMethod ==> !Matches(routes[k], path)
  {
    for i := 0 to |routes|
      invariant forall k :: 0 <= k < i && routes[k].httpMethod == httpMethod ==> !Matches(routes[k], path)
    {
      if routes[i].httpMethod == httpMethod {
        var matched := MatchPattern(routes[i].pattern, path);
        if matched.Some? { return Some((i, matched.value)); }
      }
    }
    return None;
  }
}
