/** Filling in the environment of a service right before it is provisioned:
    InterpolateEnvVars in runner-v2/pkg/orchestrator/interpolator.go. References are found
    in the original value but replaced one after another in the text so far. */
module Interpolation {
  import opened Basics
  import opened References

  type Registry = map<string, Runtime>

  /** strings.ReplaceAll: leftmost occurrences that do not overlap. */
  function ReplaceAll(s: string, pattern: string, text: string): string
    requires pattern != ""
    decreases |s|
  {
    if |s| < |pattern| then s
    else if s[..|pattern|] == pattern then text + ReplaceAll(s[|pattern|..], pattern, text)
    else [s[0]] + ReplaceAll(s[1..], pattern, text)
  }

  /** Replacing one match wherever it occurs. */
  function ReplaceOne(registry: Registry, text: string, segment: Segment): string {
    if segment.Char? || !Resolve(registry, segment.inner).Resolved? then text
    else ReplaceAll(text, RenderOne(segment), Resolve(registry, segment.inner).text)
  }

  /** The text once the references among the first `n` segments have been replaced. */
  function Replaced(registry: Registry, text: string, segments: seq<Segment>, n: nat): string
    requires n <= |segments|
  {
    if n == 0 then text else ReplaceOne(registry, Replaced(registry, text, segments, n - 1), segments[n - 1])
  }

  ghost function Resolving(registry: Registry): Segment -> bool {
    (segment: Segment) => segment.Ref? ==> Resolve(registry, segment.inner).Resolved?
  }

  /** Every reference in the value resolves. */
  ghost predicate AllResolve(registry: Registry, value: string) {
    All(Scan(value), |Scan(value)|, Resolving(registry))
  }

  datatype Interpolated = Env(env: map<string, string>) | Unresolved(key: string, inner: string, why: Resolution)

  /** The loop over the matches of one value. */
  method InterpolateValue(registry: Registry, value: string) returns (resolved: string, bad: Option<string>)
    ensures bad.None? <==> AllResolve(registry, value)
    ensures bad.None? ==> resolved == Replaced(registry, value, Scan(value), |Scan(value)|)
    ensures bad.Some? ==> Ref(bad.value) in Scan(value) && !Resolve(registry, bad.value).Resolved?
  {
    resolved := value;
    var segments := Scan(value);
    ghost var resolving := Resolving(registry);
    for m := 0 to |segments|
      invariant All(segments, m, resolving)
      invariant resolved == Replaced(registry, value, segments, m)
    {
      AllStep(segments, resolving, m);
      if segments[m].Ref? {
        var replacement := Resolve(registry, segments[m].inner);
        if !replacement.Resolved? {
          assert segments[m] in segments;
          return resolved, Some(segments[m].inner);
        }
        resolved := ReplaceAll(resolved, RenderOne(segments[m]), replacement.text);
      }
    }
    bad := None;
  }

  /** InterpolateEnvVars succeeds exactly when every reference in every value resolves, and
      otherwise names one that does not. */
  method InterpolateEnvVars(registry: Registry, envVars: map<string, string>) returns (r: Interpolated)
    ensures r.Env? <==> forall key :: key in envVars ==> AllResolve(registry, envVars[key])
    ensures r.Env? ==>
              && r.env.Keys == envVars.Keys
              && forall key :: key in envVars ==>
                                 r.env[key] == Replaced(registry, envVars[key], Scan(envVars[key]), |Scan(envVars[key])|)
    ensures r.Unresolved? ==>
              && r.key in envVars && Ref(r.inner) in Scan(envVars[r.key])
              && r.why == Resolve(registry, r.inner) && !r.why.Resolved?
  {
    var env: map<string, string> := map[];
    var rest := envVars.Keys;
    while rest != {}
      invariant rest <= envVars.Keys && env.Keys == envVars.Keys - rest
      invariant forall key :: key in env ==> AllResolve(registry, envVars[key])
      invariant forall key :: key in env ==>
                                env[key] == Replaced(registry, envVars[key], Scan(envVars[key]), |Scan(envVars[key])|)
      decreases |rest|
    {
      var key :| key in rest;
      rest := rest - {key};
      var resolved, bad := InterpolateValue(registry, envVars[key]);
      if bad.Some? {
        return Unresolved(key, bad.value, Resolve(registry, bad.value));
      }
      env := env[key := resolved];
    }
    return Env(env);
  }

  // ---- What the replacements add up to ---------------------------------------------------

  function SubstituteOne(registry: Registry, segment: Segment): string {
    match segment
    case Char(c) => [c]
    case Ref(inner) =>
      var r := Resolve(registry, inner);
      if r.Resolved? then r.text else RenderOne(segment)
  }

  /** Every reference replaced at once by what it stands for. */
  function Substituted(registry: Registry, segments: seq<Segment>): string {
    if segments == [] then "" else SubstituteOne(registry, segments[0]) + Substituted(registry, segments[1..])
  }

  /** Half way: only references whose text is in `done` are replaced. */
  function PartOne(registry: Registry, done: set<string>, segment: Segment): string {
    if segment.Ref? && segment.inner in done then SubstituteOne(registry, segment) else RenderOne(segment)
  }

  function Partly(registry: Registry, done: set<string>, segments: seq<Segment>): string {
    if segments == [] then "" else PartOne(registry, done, segments[0]) + Partly(registry, done, segments[1..])
  }

  /** Text in which no reference can start, whatever follows: every dollar sign is followed,
      in the text itself, by something other than an opening brace. */
  predicate Inert(text: string) {
    forall i {:trigger text[i]} :: 0 <= i < |text| && text[i] == '$' ==> i + 1 < |text| && text[i + 1] != '{'
  }

  predicate NoOpening(inner: string) {
    forall i {:trigger inner[i]} :: 0 <= i < |inner| - 1 && inner[i] == '$' ==> inner[i + 1] != '{'
  }

  /** No reference starts inside this one, and it stands for inert text. */
  predicate TameReference(registry: Registry, inner: string) {
    NoOpening(inner) && Resolve(registry, inner).Resolved? && Inert(Resolve(registry, inner).text)
  }

  /** Every reference of the value is tame; and where a dollar sign stands right before one,
      that one's text is not empty and does not begin with an opening brace. */
  predicate Tame(registry: Registry, s: string) {
    if s == "" then true
    else if MatchesHere(s) then TameReference(registry, s[2..IndexOf(s, '}')]) && Tame(registry, s[IndexOf(s, '}') + 1..])
    else
      && (s[0] == '$' && MatchesHere(s[1..]) ==> KeepsDollarApart(registry, s[1..][2..IndexOf(s[1..], '}')]))
      && Tame(registry, s[1..])
  }

  predicate KeepsDollarApart(registry: Registry, inner: string) {
    var r := Resolve(registry, inner);
    r.Resolved? && r.text != "" && r.text[0] != '{'
  }

  // ---- Passing over text --------------------------------------------------------------------

  predicate IsPattern(pattern: string) {
    |pattern| >= 4 && pattern[0] == '$' && pattern[1] == '{' && pattern[2] != '}' && pattern[|pattern| - 1] == '}'
  }

  lemma StepOver(s: string, pattern: string, text: string)
    requires pattern != "" && s != "" && !(pattern <= s)
    ensures ReplaceAll(s, pattern, text) == [s[0]] + ReplaceAll(s[1..], pattern, text)
  {
    if |s| < |pattern| {
      assert s == [s[0]] + s[1..];
    }
  }

  lemma ConsAppend(c: char, a: string, b: string)
    ensures [c] + (a + b) == ([c] + a) + b
  {
  }

  lemma InertTail(text: string)
    requires Inert(text) && text != ""
    ensures Inert(text[1..])
  {
    var tail := text[1..];
    forall i {:trigger tail[i]} | 0 <= i < |tail| && tail[i] == '$'
      ensures i + 1 < |tail| && tail[i + 1] != '{'
    {
      assert text[i + 1] == '$';
    }
  }

  lemma InertHead(plain: string, s: string, pattern: string)
    requires IsPattern(pattern) && Inert(plain) && plain != ""
    ensures !(pattern <= plain + s)
  {
    var all := plain + s;
    assert all[0] == plain[0];
    if plain[0] == '$' {
      assert all[1] == plain[1];
    }
  }

  /** Inert text is passed over. */
  lemma {:induction false} SkipInert(plain: string, s: string, pattern: string, text: string)
    requires IsPattern(pattern) && Inert(plain)
    ensures ReplaceAll(plain + s, pattern, text) == plain + ReplaceAll(s, pattern, text)
    decreases |plain|
  {
    var all := plain + s;
    if plain == "" {
      assert all == s;
    } else {
      assert all[1..] == plain[1..] + s;
      InertTail(plain);
      SkipInert(plain[1..], s, pattern, text);
      InertHead(plain, s, pattern);
      StepOver(all, pattern, text);
      ConsAppend(plain[0], plain[1..], ReplaceAll(s, pattern, text));
      assert plain == [plain[0]] + plain[1..];
    }
  }

  lemma SkipDollar(plain: string, s: string, pattern: string, text: string)
    requires IsPattern(pattern) && Inert(plain)
    requires !(pattern <= ['$'] + plain + s)
    ensures ReplaceAll(['$'] + plain + s, pattern, text) == ['$'] + plain + ReplaceAll(s, pattern, text)
  {
    var all := ['$'] + plain + s;
    StepOver(all, pattern, text);
    assert all[1..] == plain + s;
    SkipInert(plain, s, pattern, text);
  }

  lemma Braced(other: string)
    requires NoOpening(other)
    ensures Inert("{" + other + "}")
  {
    var plain := "{" + other + "}";
    forall i {:trigger plain[i]} | 0 <= i < |plain| && plain[i] == '$'
      ensures i + 1 < |plain| && plain[i + 1] != '{'
    {
      assert other[i - 1] == '$';
    }
  }

  lemma IsReferencePattern(inner: string)
    requires inner != "" && '}' !in inner
    ensures IsPattern(RenderOne(Ref(inner)))
  {
    var pattern := RenderOne(Ref(inner));
    assert pattern[2] == inner[0];
  }

  /** A reference to something else is passed over too. */
  lemma SkipOther(other: string, inner: string, s: string, text: string)
    requires NoOpening(other) && '}' !in other && inner != "" && '}' !in inner && other != inner
    ensures
      var pattern := RenderOne(Ref(inner));
      ReplaceAll(RenderOne(Ref(other)) + s, pattern, text) == RenderOne(Ref(other)) + ReplaceAll(s, pattern, text)
  {
    var plain := "{" + other + "}";
    assert RenderOne(Ref(other)) == ['$'] + plain;
    if RenderOne(Ref(inner)) <= ['$'] + plain + s {
      SameReference(other, inner, s);
    }
    Braced(other);
    IsReferencePattern(inner);
    SkipDollar(plain, s, RenderOne(Ref(inner)), text);
  }

  lemma SameReference(other: string, inner: string, s: string)
    requires '}' !in other && '}' !in inner
    requires RenderOne(Ref(inner)) <= RenderOne(Ref(other)) + s
    ensures other == inner
  {
    var pattern, all := RenderOne(Ref(inner)), RenderOne(Ref(other)) + s;
    assert forall k :: 0 <= k < |inner| ==> pattern[k + 2] == inner[k];
    assert forall k :: 0 <= k < |other| ==> all[k + 2] == other[k];
    assert all[|other| + 2] == '}' && pattern[|inner| + 2] == '}';
    assert |other| == |inner|;
    assert inner == pattern[2..|inner| + 2] && other == all[2..|other| + 2];
  }

  lemma TakeMatch(pattern: string, s: string, text: string)
    requires pattern != ""
    ensures ReplaceAll(pattern + s, pattern, text) == text + ReplaceAll(s, pattern, text)
  {
    assert (pattern + s)[..|pattern|] == pattern && (pattern + s)[|pattern|..] == s;
  }

  // ---- One more reference text replaced everywhere --------------------------------------------

  lemma PartlyCons(registry: Registry, done: set<string>, segment: Segment, rest: seq<Segment>)
    ensures Partly(registry, done, [segment] + rest) == PartOne(registry, done, segment) + Partly(registry, done, rest)
  {
    assert ([segment] + rest)[1..] == rest;
  }

  lemma PartlyRef(registry: Registry, done: set<string>, s: string)
    requires MatchesHere(s)
    ensures
      var e := IndexOf(s, '}');
      Partly(registry, done, Scan(s)) == PartOne(registry, done, Ref(s[2..e])) + Partly(registry, done, Scan(s[e + 1..]))
  {
    var e := IndexOf(s, '}');
    PartlyCons(registry, done, Ref(s[2..e]), Scan(s[e + 1..]));
  }

  lemma PartlyChar(registry: Registry, done: set<string>, s: string)
    requires s != "" && !MatchesHere(s)
    ensures Partly(registry, done, Scan(s)) == [s[0]] + Partly(registry, done, Scan(s[1..]))
  {
    PartlyCons(registry, done, Char(s[0]), Scan(s[1..]));
  }

  lemma {:induction false} PartlyWithoutBrace(registry: Registry, done: set<string>, s: string)
    requires '}' !in s
    ensures Partly(registry, done, Scan(s)) == s
    decreases |s|
  {
    if s != "" {
      assert '}' !in s[1..];
      PartlyWithoutBrace(registry, done, s[1..]);
      PartlyChar(registry, done, s);
    }
  }

  lemma ReplaceHead(registry: Registry, done: set<string>, x: string, rest: string, inner: string)
    requires TameReference(registry, x) && '}' !in x
    requires inner != "" && '}' !in inner && Resolve(registry, inner).Resolved?
    ensures
      var pattern, text := RenderOne(Ref(inner)), Resolve(registry, inner).text;
      ReplaceAll(PartOne(registry, done, Ref(x)) + rest, pattern, text)
      == PartOne(registry, done + {inner}, Ref(x)) + ReplaceAll(rest, pattern, text)
  {
    var pattern, text := RenderOne(Ref(inner)), Resolve(registry, inner).text;
    if x in done {
      IsReferencePattern(inner);
      SkipInert(PartOne(registry, done, Ref(x)), rest, pattern, text);
    } else if x == inner {
      TakeMatch(pattern, rest, text);
    } else {
      SkipOther(x, inner, rest, text);
    }
  }

  /** After `${` that starts no reference, none comes about. */
  lemma NoPatternAfterBrace(registry: Registry, done: set<string>, s: string, pattern: string)
    requires |s| >= 2 && s[0] == '$' && s[1] == '{' && !MatchesHere(s) && IsPattern(pattern)
    ensures !(pattern <= "${" + Partly(registry, done, Scan(s[2..])))
  {
    var all := "${" + Partly(registry, done, Scan(s[2..]));
    if '}' in s {
      assert IndexOf(s, '}') == 2;
      PartlyChar(registry, done, s[2..]);
      assert all[2] == '}';
    } else {
      assert '}' !in s[2..];
      PartlyWithoutBrace(registry, done, s[2..]);
      assert all == s;
      if pattern <= all {
        PrefixHasBrace(pattern, all);
      }
    }
  }

  lemma PrefixHasBrace(pattern: string, s: string)
    requires IsPattern(pattern) && pattern <= s
    ensures '}' in s
  {
    assert s[|pattern| - 1] == '}';
  }

  lemma ApartFromReference(registry: Registry, done: set<string>, s: string)
    requires MatchesHere(s) && KeepsDollarApart(registry, s[2..IndexOf(s, '}')])
    ensures Partly(registry, done, Scan(s)) != "" && Partly(registry, done, Scan(s))[0] != '{'
  {
    PartlyRef(registry, done, s);
    var x := s[2..IndexOf(s, '}')];
    assert PartOne(registry, done, Ref(x)) != "" && PartOne(registry, done, Ref(x))[0] != '{';
  }

  /** Where no reference starts in the value, none comes about by replacing others. */
  lemma NoPatternHere(registry: Registry, done: set<string>, s: string, pattern: string)
    requires s != "" && !MatchesHere(s) && Tame(registry, s) && IsPattern(pattern)
    ensures !(pattern <= [s[0]] + Partly(registry, done, Scan(s[1..])))
  {
    var rest, after := s[1..], Partly(registry, done, Scan(s[1..]));
    if s[0] == '$' && rest != "" {
      if MatchesHere(rest) {
        ApartFromReference(registry, done, rest);
        SecondIsNoBrace(s[0], after, pattern);
      } else {
        PartlyChar(registry, done, rest);
        if s[1] == '{' {
          NoPatternAfterBrace(registry, done, s, pattern);
          assert rest[1..] == s[2..];
          assert [s[0]] + after == "${" + Partly(registry, done, Scan(s[2..]));
        } else {
          SecondIsNoBrace(s[0], after, pattern);
        }
      }
    }
  }

  lemma SecondIsNoBrace(c: char, s: string, pattern: string)
    requires IsPattern(pattern) && s != "" && s[0] != '{'
    ensures !(pattern <= [c] + s)
  {
    assert ([c] + s)[1] == s[0];
  }

  /** Replacing one more reference text everywhere. */
  lemma {:induction false} ReplaceStep(registry: Registry, done: set<string>, s: string, inner: string)
    requires Tame(registry, s) && inner != "" && '}' !in inner && Resolve(registry, inner).Resolved?
    ensures ReplaceAll(Partly(registry, done, Scan(s)), RenderOne(Ref(inner)), Resolve(registry, inner).text)
            == Partly(registry, done + {inner}, Scan(s))
    decreases |s|
  {
    if s != "" {
      if MatchesHere(s) {
        ReplaceStepRef(registry, done, s, inner);
      } else {
        ReplaceStep(registry, done, s[1..], inner);
        PartlyChar(registry, done, s);
        PartlyChar(registry, done + {inner}, s);
        IsReferencePattern(inner);
        NoPatternHere(registry, done, s, RenderOne(Ref(inner)));
        var all := [s[0]] + Partly(registry, done, Scan(s[1..]));
        StepOver(all, RenderOne(Ref(inner)), Resolve(registry, inner).text);
        assert all[1..] == Partly(registry, done, Scan(s[1..]));
      }
    }
  }

  lemma {:induction false} ReplaceStepRef(registry: Registry, done: set<string>, s: string, inner: string)
    requires MatchesHere(s) && Tame(registry, s) && inner != "" && '}' !in inner && Resolve(registry, inner).Resolved?
    ensures ReplaceAll(Partly(registry, done, Scan(s)), RenderOne(Ref(inner)), Resolve(registry, inner).text)
            == Partly(registry, done + {inner}, Scan(s))
    decreases |s|, 0
  {
    var e := IndexOf(s, '}');
    ReplaceStep(registry, done, s[e + 1..], inner);
    PartlyRef(registry, done, s);
    PartlyRef(registry, done + {inner}, s);
    ReplaceHead(registry, done, s[2..e], Partly(registry, done, Scan(s[e + 1..])), inner);
  }

  // ---- All of them ------------------------------------------------------------------------------

  /** The reference texts among the first n segments. */
  function InnersOf(segments: seq<Segment>, n: nat): set<string>
    requires n <= |segments|
  {
    set m | 0 <= m < n && segments[m].Ref? :: segments[m].inner
  }

  lemma {:induction false} PartlyNothing(registry: Registry, segments: seq<Segment>)
    ensures Partly(registry, {}, segments) == Render(segments)
  {
    if segments != [] {
      PartlyNothing(registry, segments[1..]);
    }
  }

  lemma {:induction false} PartlyAll(registry: Registry, done: set<string>, segments: seq<Segment>)
    requires forall m :: 0 <= m < |segments| && segments[m].Ref? ==> segments[m].inner in done
    ensures Partly(registry, done, segments) == Substituted(registry, segments)
  {
    if segments != [] {
      PartlyAll(registry, done, segments[1..]);
    }
  }

  lemma {:induction false} TameResolves(registry: Registry, s: string, m: nat)
    requires Tame(registry, s) && m < |Scan(s)| && Scan(s)[m].Ref?
    ensures Resolve(registry, Scan(s)[m].inner).Resolved?
    decreases |s|
  {
    if MatchesHere(s) {
      if m > 0 {
        TameResolves(registry, s[IndexOf(s, '}') + 1..], m - 1);
      }
    } else {
      TameResolves(registry, s[1..], m - 1);
    }
  }

  lemma InnersSnoc(segments: seq<Segment>, n: nat)
    requires n < |segments|
    ensures InnersOf(segments, n + 1)
            == if segments[n].Ref? then InnersOf(segments, n) + {segments[n].inner} else InnersOf(segments, n)
  {
  }

  lemma ReplaceOneStep(registry: Registry, done: set<string>, s: string, m: nat)
    requires Tame(registry, s) && m < |Scan(s)|
    ensures
      var last := Scan(s)[m];
      ReplaceOne(registry, Partly(registry, done, Scan(s)), last)
      == Partly(registry, if last.Ref? then done + {last.inner} else done, Scan(s))
  {
    if Scan(s)[m].Ref? {
      MatchedText(s, m);
      TameResolves(registry, s, m);
      ReplaceStep(registry, done, s, Scan(s)[m].inner);
    }
  }

  lemma {:induction false} ReplacedIsPart(registry: Registry, s: string, segments: seq<Segment>, n: nat)
    requires Tame(registry, s) && segments == Scan(s) && n <= |segments| && s == Partly(registry, {}, segments)
    ensures Replaced(registry, s, segments, n) == Partly(registry, InnersOf(segments, n), segments)
  {
    if n == 0 {
      assert InnersOf(segments, 0) == {};
    } else {
      ReplacedIsPart(registry, s, segments, n - 1);
      InnersSnoc(segments, n - 1);
      ReplaceOneStep(registry, InnersOf(segments, n - 1), s, n - 1);
    }
  }

  /** Replacing references one after another, each everywhere in the text so far, gives what
      replacing all of them at once gives, if the value is tame: stray dollar signs and dollar
      signs in what references stand for are allowed, as long as none of them can come to
      stand before an opening brace. */
  lemma ReplacingIsSubstituting(registry: Registry, value: string)
    requires Tame(registry, value)
    ensures Replaced(registry, value, Scan(value), |Scan(value)|) == Substituted(registry, Scan(value))
  {
    var segments := Scan(value);
    RenderScan(value);
    PartlyNothing(registry, segments);
    ReplacedIsPart(registry, value, segments, |segments|);
    PartlyAll(registry, InnersOf(segments, |segments|), segments);
  }

  /** Without that it need not: when the first of two references stands for the text of the
      second, the second replacement changes what the first one wrote. */
  lemma ReplacementIsReadAgain(registry: Registry, first: string, second: string, text: string)
    requires first != "" && second != "" && first != second
    requires '}' !in first && NoOpening(second) && '}' !in second
    requires Resolve(registry, first) == Resolved(RenderOne(Ref(second))) && Resolve(registry, second) == Resolved(text)
    ensures
      var value := RenderOne(Ref(first)) + RenderOne(Ref(second));
      && Replaced(registry, value, Scan(value), |Scan(value)|) == text + text
      && Substituted(registry, Scan(value)) == RenderOne(Ref(second)) + text
  {
    ScanTwo(first, second);
    ReadAgain(first, second, text);
    TwoSegments(registry, RenderOne(Ref(first)) + RenderOne(Ref(second)), Ref(first), Ref(second));
  }

  lemma TwoSegments(registry: Registry, value: string, x: Segment, y: Segment)
    ensures Replaced(registry, value, [x, y], 2) == ReplaceOne(registry, ReplaceOne(registry, value, x), y)
    ensures Substituted(registry, [x, y]) == SubstituteOne(registry, x) + SubstituteOne(registry, y)
  {
    assert Replaced(registry, value, [x, y], 1) == ReplaceOne(registry, value, x);
    assert [x, y][1..] == [y] && [y][1..] == [];
    assert Substituted(registry, [y]) == SubstituteOne(registry, y);
  }

  lemma ReadAgain(first: string, second: string, text: string)
    requires first != "" && first != second
    requires '}' !in first && NoOpening(second) && '}' !in second
    ensures
      var a, b := RenderOne(Ref(first)), RenderOne(Ref(second));
      ReplaceAll(ReplaceAll(a + b, a, b), b, text) == text + text
  {
    var a, b := RenderOne(Ref(first)), RenderOne(Ref(second));
    TakeMatch(a, b, b);
    SkipOther(second, first, "", b);
    assert b + "" == b;
    TakeMatch(b, b, text);
    TakeMatch(b, "", text);
    assert text + "" == text;
  }

  lemma ScanTwo(first: string, second: string)
    requires first != "" && second != "" && '}' !in first && '}' !in second
    ensures Scan(RenderOne(Ref(first)) + RenderOne(Ref(second))) == [Ref(first), Ref(second)]
  {
    ScanRef(first, RenderOne(Ref(second)));
    ScanRef(second, "");
    assert "${" + second + "}" + "" == RenderOne(Ref(second));
  }
}
