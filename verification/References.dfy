/** `${service.field}` references inside strings: how the bundle rewrites them
    (runner-v2/pkg/workflowbundle/bundle.go) and how the orchestrator reads them back
    (runner-v2/pkg/orchestrator/interpolator.go). */
module References {
  import opened Text

  /** First position of `c`, or the length when there is none. */
  function IndexOf(s: string, c: char): (i: nat)
    ensures i <= |s|
    ensures i < |s| ==> s[i] == c
    ensures forall k :: 0 <= k < i ==> s[k] != c
  {
    if s == "" || s[0] == c then 0 else 1 + IndexOf(s[1..], c)
  }

  // ---- The pattern \$\{([^}]+)\} ------------------------------------------------------

  datatype Segment = Char(c: char) | Ref(inner: string)

  /** The pattern matches at the start of `s`: `${`, a nonempty text without `}`, then `}`. */
  predicate MatchesHere(s: string) {
    |s| >= 2 && s[0] == '$' && s[1] == '{' && 2 < IndexOf(s, '}') < |s|
  }

  /** The successive leftmost matches, with the text between them. */
  function Scan(s: string): seq<Segment> {
    if s == "" then []
    else if MatchesHere(s) then
      var e := IndexOf(s, '}');
      [Ref(s[2..e])] + Scan(s[e + 1..])
    else [Char(s[0])] + Scan(s[1..])
  }

  function RenderOne(segment: Segment): string {
    match segment
    case Char(c) => [c]
    case Ref(inner) => "${" + inner + "}"
  }

  function Render(segments: seq<Segment>): string {
    if segments == [] then "" else RenderOne(segments[0]) + Render(segments[1..])
  }

  lemma RenderCons(segment: Segment, rest: seq<Segment>)
    ensures Render([segment] + rest) == RenderOne(segment) + Render(rest)
  {
    assert ([segment] + rest)[1..] == rest;
  }

  /** Matching loses nothing. */
  lemma {:induction false} RenderScan(s: string)
    ensures Render(Scan(s)) == s
    decreases |s|
  {
    if s == "" {
    } else if MatchesHere(s) {
      var e := IndexOf(s, '}');
      RenderScan(s[e + 1..]);
      RenderCons(Ref(s[2..e]), Scan(s[e + 1..]));
      SplitAround(s, e);
    } else {
      RenderScan(s[1..]);
      RenderCons(Char(s[0]), Scan(s[1..]));
    }
  }

  lemma SplitAround(s: string, e: nat)
    requires 2 <= e < |s| && s[0] == '$' && s[1] == '{' && s[e] == '}'
    ensures s == "${" + s[2..e] + "}" + s[e + 1..]
  {
  }

  /** What the pattern matches is never empty and never holds a closing brace. */
  lemma {:induction false} MatchedText(s: string, m: nat)
    requires m < |Scan(s)| && Scan(s)[m].Ref?
    ensures Scan(s)[m].inner != "" && '}' !in Scan(s)[m].inner
    decreases |s|
  {
    if MatchesHere(s) {
      if m > 0 {
        MatchedText(s[IndexOf(s, '}') + 1..], m - 1);
      }
    } else {
      MatchedText(s[1..], m - 1);
    }
  }

  // ---- Aliases -----------------------------------------------------------------------

  type Aliases = map<string, string>

  /** Go's map read: a missing key reads as the empty string. */
  function Alias(aliases: Aliases, token: string): string {
    if token in aliases then aliases[token] else ""
  }

  function FirstNonempty(a: string, b: string): string {
    if a != "" then a else b
  }

  /** The service a token stands for when validation reads it; empty when unknown. */
  function ValidatedTarget(aliases: Aliases, rawToken: string): string {
    var token := TrimSpace(rawToken);
    FirstNonempty(Alias(aliases, token), Alias(aliases, ToLower(token)))
  }

  /** The service name normalizeServiceReferences writes for a token. */
  function WrittenTarget(aliases: Aliases, token: string): string {
    FirstNonempty(Alias(aliases, token),
      FirstNonempty(Alias(aliases, TrimSpace(token)),
        FirstNonempty(Alias(aliases, ToLower(token)), ServiceName(token))))
  }

  predicate HasField(inner: string) {
    '.' in inner
  }

  /** The text before the first dot. */
  function Token(inner: string): string {
    inner[..IndexOf(inner, '.')]
  }

  function Rest(inner: string): string
    requires HasField(inner)
  {
    inner[IndexOf(inner, '.') + 1..]
  }

  function RewriteInner(aliases: Aliases, inner: string): string {
    if HasField(inner) then WrittenTarget(aliases, Token(inner)) + "." + Rest(inner) else inner
  }

  function RewriteSegment(aliases: Aliases, segment: Segment): Segment {
    match segment
    case Char(_) => segment
    case Ref(inner) => Ref(RewriteInner(aliases, inner))
  }

  function RewriteAll(aliases: Aliases, segments: seq<Segment>): (r: seq<Segment>)
    ensures |r| == |segments|
    ensures forall i :: 0 <= i < |segments| ==> r[i] == RewriteSegment(aliases, segments[i])
  {
    if segments == [] then [] else [RewriteSegment(aliases, segments[0])] + RewriteAll(aliases, segments[1..])
  }

  /** normalizeServiceReferences. */
  function Normalized(aliases: Aliases, value: string): string {
    Render(RewriteAll(aliases, Scan(value)))
  }

  ghost predicate SlugAliases(aliases: Aliases) {
    forall t :: t in aliases ==> IsSlug(aliases[t])
  }

  lemma WrittenTargetIsSlug(aliases: Aliases, token: string)
    requires SlugAliases(aliases)
    ensures IsSlug(WrittenTarget(aliases, token))
  {
    ServiceNameIsSlug(token);
  }

  lemma SlugHasNo(s: string, c: char)
    requires IsSlug(s) && (c == '.' || c == '}')
    ensures c !in s
  {
  }

  /** A rewritten reference is again matched as one, and its token is the written name. */
  lemma RewrittenInner(aliases: Aliases, inner: string)
    requires SlugAliases(aliases)
    requires inner != "" && '}' !in inner
    ensures RewriteInner(aliases, inner) != "" && '}' !in RewriteInner(aliases, inner)
    ensures HasField(RewriteInner(aliases, inner)) == HasField(inner)
    ensures HasField(inner) ==> Token(RewriteInner(aliases, inner)) == WrittenTarget(aliases, Token(inner))
    ensures HasField(inner) ==> Rest(RewriteInner(aliases, inner)) == Rest(inner)
  {
    if HasField(inner) {
      var target := WrittenTarget(aliases, Token(inner));
      WrittenTargetIsSlug(aliases, Token(inner));
      SlugHasNo(target, '.');
      SlugHasNo(target, '}');
      SplitAtDot(target, Rest(inner));
      assert '}' !in Rest(inner);
    }
  }

  lemma {:induction false} NoBraceNoRefs(aliases: Aliases, s: string)
    requires '}' !in s
    ensures Normalized(aliases, s) == s
    decreases |s|
  {
    if s != "" {
      assert '}' !in s[1..];
      NoBraceNoRefs(aliases, s[1..]);
      assert Scan(s) == [Char(s[0])] + Scan(s[1..]);
      assert RewriteAll(aliases, Scan(s))[1..] == RewriteAll(aliases, Scan(s[1..]));
    }
  }

  lemma NormalizedChar(aliases: Aliases, s: string)
    requires s != "" && !MatchesHere(s)
    ensures Normalized(aliases, s) == [s[0]] + Normalized(aliases, s[1..])
    ensures RewriteAll(aliases, Scan(s)) == [Char(s[0])] + RewriteAll(aliases, Scan(s[1..]))
  {
    assert Scan(s)[1..] == Scan(s[1..]);
  }

  lemma RewriteCons(aliases: Aliases, segment: Segment, rest: seq<Segment>)
    ensures RewriteAll(aliases, [segment] + rest) == [RewriteSegment(aliases, segment)] + RewriteAll(aliases, rest)
  {
    assert ([segment] + rest)[1..] == rest;
  }

  lemma NormalizedRef(aliases: Aliases, s: string)
    requires MatchesHere(s)
    ensures
      var e := IndexOf(s, '}');
      var inner := RewriteInner(aliases, s[2..e]);
      && Normalized(aliases, s) == "${" + inner + "}" + Normalized(aliases, s[e + 1..])
      && RewriteAll(aliases, Scan(s)) == [Ref(inner)] + RewriteAll(aliases, Scan(s[e + 1..]))
  {
    var e := IndexOf(s, '}');
    var found, rest := Ref(s[2..e]), Scan(s[e + 1..]);
    assert Scan(s) == [found] + rest;
    RewriteCons(aliases, found, rest);
    RenderCons(RewriteSegment(aliases, found), RewriteAll(aliases, rest));
  }

  /** Where the text after a character that starts no match would complete one, that text
      is left as it is, or closes the brace too early. */
  lemma NoNewMatchAfterBrace(aliases: Aliases, s: string)
    requires |s| >= 2 && s[0] == '$' && s[1] == '{' && !MatchesHere(s)
    ensures !MatchesHere("${" + Normalized(aliases, s[2..]))
  {
    var t := "${" + Normalized(aliases, s[2..]);
    if '}' in s {
      assert IndexOf(s, '}') == 2;
      NormalizedChar(aliases, s[2..]);
      assert t[2] == '}';
    } else {
      assert '}' !in s[2..];
      NoBraceNoRefs(aliases, s[2..]);
      assert t == s;
    }
  }

  /** Rewriting what follows a character that starts no match cannot make it start one. */
  lemma NoNewMatch(aliases: Aliases, s: string)
    requires s != "" && !MatchesHere(s)
    ensures !MatchesHere([s[0]] + Normalized(aliases, s[1..]))
  {
    if s[0] == '$' && |s| > 1 {
      var t, rest := [s[0]] + Normalized(aliases, s[1..]), s[1..];
      if MatchesHere(rest) {
        NormalizedRef(aliases, rest);
        assert t[1] == '$';
      } else {
        NormalizedChar(aliases, rest);
        assert t[1] == s[1];
        if s[1] == '{' {
          NoNewMatchAfterBrace(aliases, s);
          assert rest[1..] == s[2..];
          assert t == "${" + Normalized(aliases, s[2..]);
        }
      }
    }
  }

  /** Reading a rewritten value finds exactly the rewritten references, in order, and the
      same text between them: no reference is lost, split or made up. */
  lemma {:induction false} RewritingIsStable(aliases: Aliases, s: string)
    requires SlugAliases(aliases)
    ensures Scan(Normalized(aliases, s)) == RewriteAll(aliases, Scan(s))
    decreases |s|
  {
    if s == "" {
    } else if MatchesHere(s) {
      var e := IndexOf(s, '}');
      var inner := s[2..e];
      var rest := Normalized(aliases, s[e + 1..]);
      NormalizedRef(aliases, s);
      RewrittenInner(aliases, inner);
      RewritingIsStable(aliases, s[e + 1..]);
      ScanRef(RewriteInner(aliases, inner), rest);
    } else {
      NormalizedChar(aliases, s);
      NoNewMatch(aliases, s);
      RewritingIsStable(aliases, s[1..]);
      var t := Normalized(aliases, s);
      assert t[1..] == Normalized(aliases, s[1..]);
    }
  }

  lemma ScanRef(inner: string, rest: string)
    requires inner != "" && '}' !in inner
    ensures Scan("${" + inner + "}" + rest) == [Ref(inner)] + Scan(rest)
  {
    var t := "${" + inner + "}" + rest;
    var e := |inner| + 2;
    assert t[2..e] == inner;
    assert t[e] == '}' && t[e + 1..] == rest;
    assert forall k :: 0 <= k < e ==> t[k] != '}';
    assert IndexOf(t, '}') == e;
  }

  // ---- Resolving -----------------------------------------------------------------------

  datatype Runtime = Runtime(name: string, host: string, ports: map<string, string>, env: map<string, string>)

  datatype Resolution = Resolved(text: string) | BadForm | ServiceNotFound(service: string) | FieldMissing

  /** resolveReference: SERVICE.host, SERVICE.port.PORT or SERVICE.env.NAME. */
  function Resolve(registry: map<string, Runtime>, inner: string): Resolution {
    if !HasField(inner) then BadForm
    else
      var service := Token(inner);
      if service !in registry then ServiceNotFound(service)
      else
        var runtime, rest := registry[service], Rest(inner);
        var field := Token(rest);
        if field == "host" then
          (if runtime.host == "" then FieldMissing else Resolved(runtime.name))
        else if !HasField(rest) then FieldMissing
        else if field == "port" && Rest(rest) in runtime.ports then Resolved(runtime.ports[Rest(rest)])
        else if field == "env" && Rest(rest) in runtime.env then Resolved(runtime.env[Rest(rest)])
        else FieldMissing
  }

  /** A lookup fails for want of the service exactly when the token is not registered. */
  lemma NotFoundExactly(registry: map<string, Runtime>, inner: string)
    requires HasField(inner)
    ensures Resolve(registry, inner).ServiceNotFound? <==> Token(inner) !in registry
  {
  }

  lemma SplitAtDot(token: string, rest: string)
    requires '.' !in token
    ensures HasField(token + "." + rest) && Token(token + "." + rest) == token && Rest(token + "." + rest) == rest
  {
    var s := token + "." + rest;
    assert s[|token|] == '.';
    assert forall k :: 0 <= k < |token| ==> s[k] == token[k];
    assert s[..|token|] == token && s[|token| + 1..] == rest;
  }

  /** The three documented forms read what the provider reported for that service. */
  lemma ReferenceForms(registry: map<string, Runtime>, service: string, key: string)
    requires service in registry && '.' !in service
    ensures registry[service].host != "" ==> Resolve(registry, service + "." + "host") == Resolved(registry[service].name)
    ensures key in registry[service].ports ==>
              Resolve(registry, service + "." + ("port" + "." + key)) == Resolved(registry[service].ports[key])
    ensures key in registry[service].env ==>
              Resolve(registry, service + "." + ("env" + "." + key)) == Resolved(registry[service].env[key])
  {
    SplitAtDot(service, "host");
    SplitAtDot(service, "port" + "." + key);
    SplitAtDot(service, "env" + "." + key);
    SplitAtDot("port", key);
    SplitAtDot("env", key);
    assert Token("host") == "host" by { assert '.' !in "host"; }
  }

  /** A reference resolves to `text` exactly in one of three ways: it asks for the host of a
      registered service that has one, for a port it maps, or for a variable it has. */
  lemma ResolvesExactly(registry: map<string, Runtime>, inner: string, text: string)
    ensures Resolve(registry, inner) == Resolved(text) <==>
              && HasField(inner) && Token(inner) in registry
              && var runtime, rest := registry[Token(inner)], Rest(inner);
                 || ((rest == "host" || "host." <= rest) && runtime.host != "" && text == runtime.name)
                 || (exists key :: key in runtime.ports && rest == "port." + key && text == runtime.ports[key])
                 || (exists key :: key in runtime.env && rest == "env." + key && text == runtime.env[key])
  {
    if HasField(inner) && Token(inner) in registry {
      var rest := Rest(inner);
      FieldExactly(rest, "host");
      FieldExactly(rest, "port");
      FieldExactly(rest, "env");
      AfterField(rest, "port");
      AfterField(rest, "env");
    }
  }

  lemma FieldExactly(rest: string, field: string)
    requires '.' !in field
    ensures Token(rest) == field <==> rest == field || field + "." <= rest
  {
    var i := IndexOf(rest, '.');
    if Token(rest) == field && i < |rest| {
      assert rest[..i + 1] == field + ".";
    }
    if field + "." <= rest {
      assert rest == field + "." + rest[|field| + 1..];
      SplitAtDot(field, rest[|field| + 1..]);
    }
  }

  lemma AfterField(rest: string, field: string)
    requires '.' !in field
    ensures forall key :: HasField(rest) && Token(rest) == field && Rest(rest) == key <==> rest == field + "." + key
  {
    forall key
      ensures HasField(rest) && Token(rest) == field && Rest(rest) == key <==> rest == field + "." + key
    {
      if HasField(rest) && Token(rest) == field && Rest(rest) == key {
        assert rest == rest[..IndexOf(rest, '.')] + "." + rest[IndexOf(rest, '.') + 1..];
      }
      if rest == field + "." + key {
        SplitAtDot(field, key);
      }
    }
  }

  /** On a token without surrounding blanks that the alias map knows, the name that gets
      written is the name that validation checked. */
  lemma TargetsAgree(aliases: Aliases, token: string)
    requires TrimSpace(token) == token
    requires ValidatedTarget(aliases, token) != ""
    ensures WrittenTarget(aliases, token) == ValidatedTarget(aliases, token)
  {
  }

  /** The names differ: the raw token is an alias of another service; or the trimmed token
      is known only in lower case, and the raw one in lower case is an alias of another
      service or, failing that, its own service name is another. */
  predicate Diverted(aliases: Aliases, token: string) {
    var validated := ValidatedTarget(aliases, token);
    if Alias(aliases, token) != "" then Alias(aliases, token) != validated
    else
      && Alias(aliases, TrimSpace(token)) == ""
      && FirstNonempty(Alias(aliases, ToLower(token)), ServiceName(token)) != validated
  }

  /** For every token that validation knows, with or without surrounding blanks, the name
      written is the name validated exactly unless the token is diverted. */
  lemma TargetsAgreeExactly(aliases: Aliases, token: string)
    requires ValidatedTarget(aliases, token) != ""
    ensures WrittenTarget(aliases, token) == ValidatedTarget(aliases, token) <==> !Diverted(aliases, token)
  {
  }
}
