/** The variable context passed between steps, and template rendering. */
module Context {
  import opened Library
  import opened Wrappers

  /** A variable's value, as far as rendering sees it. */
  datatype Value = Nil | Text(s: string) | Other(printed: string)

  type Vars = map<string, Value>

  function ToString(v: Value): string {
    match v
    case Nil => ""
    case Text(s) => s
    case Other(p) => p
  }

  // ---------- Contexts ----------

  class CtxMap {
    var m: Vars

    constructor (m: Vars)
      ensures this.m == m
    {
      this.m := m;
    }
  }

  /** A new context; neither argument is written. */
  method Merge(base: CtxMap, overlay: CtxMap) returns (result: CtxMap)
    ensures fresh(result)
    ensures result.m == base.m + overlay.m
  {
    result := new CtxMap(map[]);
    var rest := base.m.Keys;
    while rest != {}
      invariant rest <= base.m.Keys
      invariant result.m == base.m - rest
      invariant fresh(result)
    {
      var k :| k in rest;
      result.m := result.m[k := base.m[k]];
      rest := rest - {k};
    }
    rest := overlay.m.Keys;
    while rest != {}
      invariant rest <= overlay.m.Keys
      invariant result.m == base.m + (overlay.m - rest)
      invariant fresh(result)
    {
      var k :| k in rest;
      result.m := result.m[k := overlay.m[k]];
      rest := rest - {k};
    }
  }

  // ---------- Looking up a key ----------

  function FirstDot(s: string): (r: Option<nat>)
    ensures r.Some? ==> r.value < |s| && s[r.value] == '.' && '.' !in s[..r.value]
    ensures r.None? ==> '.' !in s
  {
    if s == "" then None
    else if s[0] == '.' then Some(0)
    else
      match FirstDot(s[1..])
      case None => assert s == [s[0]] + s[1..]; None
      case Some(n) => assert s[..n + 1] == [s[0]] + s[1..][..n]; Some(n + 1)
  }

  /** The key itself first, then the part before the first dot with the rest as a JSON path. */
  function Resolve(lib: Lib, ctx: Vars, key: string): Option<string> {
    if key in ctx then Some(ToString(ctx[key]))
    else
      match FirstDot(key)
      case None => None
      case Some(d) =>
        if key[..d] !in ctx then None
        else lib.get(ToString(ctx[key[..d]]), key[d + 1..])
  }

  // ---------- The placeholder pattern ----------

  predicate IsStart(c: char) {
    'a' <= c <= 'z' || 'A' <= c <= 'Z' || c == '_'
  }

  predicate IsPart(c: char) {
    IsStart(c) || '0' <= c <= '9' || c == '.'
  }

  predicate IsBrace(c: char) {
    c == '{' || c == '}'
  }

  predicate BraceFree(s: string) {
    forall k :: 0 <= k < |s| ==> !IsBrace(s[k])
  }

  /** The texts the regular expression matches. */
  predicate Placeholder(s: string) {
    && |s| >= 5
    && s[..2] == "{{"
    && s[|s| - 2..] == "}}"
    && IsStart(s[2])
    && forall k :: 3 <= k < |s| - 2 ==> IsPart(s[k])
  }

  function Key(s: string): string
    requires |s| >= 4
  {
    s[2..|s| - 2]
  }

  /** Where the run of key characters from position i stops. */
  function RunEnd(s: string, i: nat): (e: nat)
    requires i <= |s|
    ensures i <= e <= |s|
    ensures forall k :: i <= k < e ==> IsPart(s[k])
    ensures e < |s| ==> !IsPart(s[e])
    decreases |s| - i
  {
    if i < |s| && IsPart(s[i]) then RunEnd(s, i + 1) else i
  }

  /** The length of the match at the front of s. */
  function MatchLen(s: string): (r: Option<nat>)
    ensures r.Some? ==> 5 <= r.value <= |s|
  {
    if |s| >= 5 && s[0] == '{' && s[1] == '{' && IsStart(s[2]) then
      var e := RunEnd(s, 3);
      if e + 2 <= |s| && s[e] == '}' && s[e + 1] == '}' then Some(e + 2) else None
    else None
  }

  /** The scanner finds exactly the matches of the pattern, and at most one starts at a position. */
  lemma ScannerIsPattern(s: string, n: nat)
    ensures MatchLen(s) == Some(n) <==> n <= |s| && Placeholder(s[..n])
  {
    if n <= |s| && Placeholder(s[..n]) {
      var p := s[..n];
      assert p[0] == '{' && p[1] == '{' by { assert p[..2][0] == '{' && p[..2][1] == '{'; }
      assert p[n - 2] == '}' && p[n - 1] == '}' by {
        assert p[n - 2..][0] == '}' && p[n - 2..][1] == '}';
      }
      assert forall k :: 3 <= k < n - 2 ==> s[k] == p[k];
    }
    if MatchLen(s) == Some(n) {
      var p := s[..n];
      assert p[..2] == "{{" && p[n - 2..] == "}}";
    }
  }

  // ---------- Rendering ----------

  function Replacement(lib: Lib, ctx: Vars, match_: string): string
    requires |match_| >= 4
  {
    match Resolve(lib, ctx, Key(match_))
    case Some(v) => v
    case None => match_
  }

  /** Leftmost, non-overlapping, one pass. */
  function Render(lib: Lib, template: string, ctx: Vars): string {
    if template == "" then ""
    else
      match MatchLen(template)
      case Some(n) => Replacement(lib, ctx, template[..n]) + Render(lib, template[n..], ctx)
      case None => [template[0]] + Render(lib, template[1..], ctx)
  }

  /** Rendering passes over text without braces. */
  lemma {:induction false} RenderPassesText(lib: Lib, text: string, rest: string, ctx: Vars)
    requires BraceFree(text)
    ensures Render(lib, text + rest, ctx) == text + Render(lib, rest, ctx)
  {
    if text == "" {
      assert text + rest == rest;
    } else {
      var s := text + rest;
      assert s[1..] == text[1..] + rest;
      assert IsBrace('{');
      assert MatchLen(s) == None;
      RenderPassesText(lib, text[1..], rest, ctx);
    }
  }

  lemma RenderAtPlaceholder(lib: Lib, p: string, rest: string, ctx: Vars)
    requires Placeholder(p)
    ensures Render(lib, p + rest, ctx) == Replacement(lib, ctx, p) + Render(lib, rest, ctx)
  {
    var s := p + rest;
    assert s[..|p|] == p && s[|p|..] == rest;
    ScannerIsPattern(s, |p|);
  }

  // ---------- Rendering in stages ----------

  /** Outside its placeholders the template has no two opening braces in a row. Every JSON text is like that, apart from
      its strings: after an opening brace come a quote, a closing brace or white space. */
  predicate Loose(t: string) {
    t == ""
    || match MatchLen(t)
       case Some(n) => Loose(t[n..])
       case None => (t[0] == '{' && |t| > 1 ==> t[1] != '{') && Loose(t[1..])
  }

  /** The keys of the placeholders of a template. */
  function Keys(t: string): set<string> {
    if t == "" then {}
    else
      match MatchLen(t)
      case Some(n) => {Key(t[..n])} + Keys(t[n..])
      case None => Keys(t[1..])
  }

  /** Nothing the template's keys resolve to contains a brace. */
  predicate InsertsNoBraces(lib: Lib, t: string, ctx: Vars) {
    forall k :: k in Keys(t) ==> Resolve(lib, ctx, k) == None || BraceFree(Resolve(lib, ctx, k).value)
  }

  /** First c1 and then c2 find the same as both at once. */
  predicate StagesAgree(lib: Lib, c1: Vars, c2: Vars, key: string) {
    Resolve(lib, c2 + c1, key)
    == if Resolve(lib, c1, key).Some? then Resolve(lib, c1, key) else Resolve(lib, c2, key)
  }

  /** Undotted keys always agree; a dotted one does when the first context
      holds the whole key or nothing under its root. */
  predicate StageSafe(c1: Vars, key: string) {
    match FirstDot(key)
    case None => true
    case Some(d) => key in c1 || key[..d] !in c1
  }

  lemma SafeKeysAgree(lib: Lib, c1: Vars, c2: Vars, key: string)
    requires StageSafe(c1, key)
    ensures StagesAgree(lib, c1, c2, key)
  {
  }

  /** For a dotted key whose root the first context holds, agreement in exact terms:
      a path it finds must not be shadowed by c2, and one it misses must stay missing. */
  lemma UnsafeKeysAgreeIff(lib: Lib, c1: Vars, c2: Vars, key: string)
    requires !StageSafe(c1, key)
    ensures
      var d := FirstDot(key).value;
      StagesAgree(lib, c1, c2, key)
      <==> match lib.get(ToString(c1[key[..d]]), key[d + 1..])
           case Some(v) => key !in c2 || ToString(c2[key]) == v
           case None => key in c2 || key[..d] !in c2 || lib.get(ToString(c2[key[..d]]), key[d + 1..]) == None
  {
  }

  /** A character outside the placeholders of a loose template does not begin one after rendering either. */
  lemma LooseCharacterStays(lib: Lib, t: string, ctx: Vars)
    requires t != "" && Loose(t) && MatchLen(t) == None
    ensures MatchLen([t[0]] + Render(lib, t[1..], ctx)) == None
  {
    if t[0] == '{' && |t| > 1 {
      assert MatchLen(t[1..]) == None;
      RenderPassesOne(lib, t[1..], ctx);
    }
  }

  /** Rendering with one context and then another is rendering with their merge, the first taking precedence. */
  lemma {:induction false} StagedIsMerged(lib: Lib, t: string, c1: Vars, c2: Vars)
    requires Loose(t) && InsertsNoBraces(lib, t, c1)
    requires forall k :: k in Keys(t) ==> StagesAgree(lib, c1, c2, k)
    ensures Render(lib, Render(lib, t, c1), c2) == Render(lib, t, c2 + c1)
    decreases |t|
  {
    if t != "" {
      match MatchLen(t) {
        case None =>
          LooseCharacterStays(lib, t, c1);
          RenderPassesOne(lib, [t[0]] + Render(lib, t[1..], c1), c2);
          StagedIsMerged(lib, t[1..], c1, c2);
        case Some(n) =>
          ScannerIsPattern(t, n);
          var p, rest := t[..n], Render(lib, t[n..], c1);
          assert Key(p) in Keys(t) && StagesAgree(lib, c1, c2, Key(p));
          match Resolve(lib, c1, Key(p)) {
            case Some(v) => RenderPassesText(lib, v, rest, c2);
            case None => RenderAtPlaceholder(lib, p, rest, c2);
          }
          StagedIsMerged(lib, t[n..], c1, c2);
      }
    }
  }

  /** The same with conditions a caller can check on the template's keys. */
  lemma StagedIsMergedForSafeKeys(lib: Lib, t: string, c1: Vars, c2: Vars)
    requires Loose(t) && InsertsNoBraces(lib, t, c1)
    requires forall k :: k in Keys(t) ==> StageSafe(c1, k)
    ensures Render(lib, Render(lib, t, c1), c2) == Render(lib, t, c2 + c1)
  {
    forall k | k in Keys(t)
      ensures StagesAgree(lib, c1, c2, k)
    {
      SafeKeysAgree(lib, c1, c2, k);
    }
    StagedIsMerged(lib, t, c1, c2);
  }

  /** The condition on a key is needed: a template that is just its placeholder renders alike in stages and merged
      only if the lookups agree. */
  lemma StagedIsMergedIff(lib: Lib, p: string, c1: Vars, c2: Vars)
    requires Placeholder(p)
    requires InsertsNoBraces(lib, p, c1) && InsertsNoBraces(lib, p, c2) && InsertsNoBraces(lib, p, c2 + c1)
    ensures Render(lib, Render(lib, p, c1), c2) == Render(lib, p, c2 + c1) <==> StagesAgree(lib, c1, c2, Key(p))
  {
    assert Key(p) in Keys(p) by { ScannerIsPattern(p, |p|); assert p[..|p|] == p; }
    assert IsBrace(p[0]);
    RenderWhole(lib, p, c1);
    RenderWhole(lib, p, c2);
    RenderWhole(lib, p, c2 + c1);
    match Resolve(lib, c1, Key(p)) {
      case None =>
      case Some(v) =>
        RenderPassesText(lib, v, "", c2);
        assert v + "" == v;
    }
  }

  lemma RenderWhole(lib: Lib, p: string, ctx: Vars)
    requires Placeholder(p)
    ensures Render(lib, p, ctx) == Replacement(lib, ctx, p)
  {
    RenderAtPlaceholder(lib, p, "", ctx);
    assert p + "" == p;
  }

  /** Rendering again with the same context changes nothing, dotted keys included. */
  lemma RenderIsIdempotent(lib: Lib, t: string, c: Vars)
    requires Loose(t) && InsertsNoBraces(lib, t, c)
    ensures Render(lib, Render(lib, t, c), c) == Render(lib, t, c)
  {
    assert c + c == c;
    StagedIsMerged(lib, t, c, c);
  }

  // ---------- When rendering changes nothing ----------

  function OpenBraces(s: string): nat {
    if s == "" then 0 else (if s[0] == '{' then 1 else 0) + OpenBraces(s[1..])
  }

  lemma {:induction false} OpenBracesAdd(a: string, b: string)
    ensures OpenBraces(a + b) == OpenBraces(a) + OpenBraces(b)
  {
    if a == "" {
      assert a + b == b;
    } else {
      assert (a + b)[1..] == a[1..] + b;
      OpenBracesAdd(a[1..], b);
    }
  }

  lemma {:induction false} BraceFreeHasNone(s: string)
    requires BraceFree(s)
    ensures OpenBraces(s) == 0
  {
    if s != "" {
      assert !IsBrace(s[0]);
      BraceFreeHasNone(s[1..]);
    }
  }

  predicate ResolvesNothing(lib: Lib, s: string, ctx: Vars) {
    forall k :: k in Keys(s) ==> Resolve(lib, ctx, k) == None
  }

  /** Every placeholder replaced costs opening braces. */
  lemma {:induction false} RenderLosesBraces(lib: Lib, s: string, ctx: Vars)
    requires InsertsNoBraces(lib, s, ctx)
    ensures OpenBraces(Render(lib, s, ctx)) <= OpenBraces(s)
    ensures !ResolvesNothing(lib, s, ctx) ==> OpenBraces(Render(lib, s, ctx)) < OpenBraces(s)
    decreases |s|
  {
    hide Resolve, OpenBraces, Key, BraceFree, MatchLen;
    if s != "" {
      match MatchLen(s) {
        case None =>
          RenderLosesBraces(lib, s[1..], ctx);
          OpenBracesAdd([s[0]], s[1..]);
          OpenBracesAdd([s[0]], Render(lib, s[1..], ctx));
          assert [s[0]] + s[1..] == s;
        case Some(n) =>
          var p := s[..n];
          assert Key(p) in Keys(s);
          RenderLosesBraces(lib, s[n..], ctx);
          OpenBracesAdd(p, s[n..]);
          OpenBracesAdd(Replacement(lib, ctx, p), Render(lib, s[n..], ctx));
          assert p + s[n..] == s;
          if Resolve(lib, ctx, Key(p)).Some? {
            BraceFreeHasNone(Resolve(lib, ctx, Key(p)).value);
            PlaceholderHasBraces(s, n);
          }
      }
    }
  }

  lemma PlaceholderHasBraces(s: string, n: nat)
    requires MatchLen(s) == Some(n)
    ensures n <= |s| && OpenBraces(s[..n]) > 0
  {
    assert s[..n][0] == '{';
  }

  lemma {:induction false} UnresolvedStays(lib: Lib, s: string, ctx: Vars)
    requires ResolvesNothing(lib, s, ctx)
    ensures Render(lib, s, ctx) == s
    decreases |s|
  {
    hide Resolve, Key, MatchLen;
    if s != "" {
      match MatchLen(s) {
        case None => UnresolvedStays(lib, s[1..], ctx);
        case Some(n) =>
          assert Key(s[..n]) in Keys(s);
          UnresolvedStays(lib, s[n..], ctx);
          assert s[..n] + s[n..] == s;
      }
    }
  }

  /** With brace-free values, rendering leaves a text as it is exactly if none of its keys resolves. */
  lemma RenderKeepsIff(lib: Lib, s: string, ctx: Vars)
    requires InsertsNoBraces(lib, s, ctx)
    ensures Render(lib, s, ctx) == s <==> ResolvesNothing(lib, s, ctx)
  {
    RenderLosesBraces(lib, s, ctx);
    if ResolvesNothing(lib, s, ctx) {
      UnresolvedStays(lib, s, ctx);
    }
  }

  /** For any template, rendering again changes nothing exactly if the first rendering left no key that resolves. */
  lemma IdempotentIff(lib: Lib, t: string, c: Vars)
    requires InsertsNoBraces(lib, Render(lib, t, c), c)
    ensures
      Render(lib, Render(lib, t, c), c) == Render(lib, t, c)
      <==> ResolvesNothing(lib, Render(lib, t, c), c)
  {
    RenderKeepsIff(lib, Render(lib, t, c), c);
  }

  predicate SingleBraces(s: string) {
    forall k :: 0 <= k < |s| - 1 ==> s[k] != '{' || s[k + 1] != '{'
  }

  /** Text with single braces begins no placeholder. */
  lemma {:induction false} TextBefore(a: string, rest: string)
    requires SingleBraces(a) && (a != "" && rest != "" ==> a[|a| - 1] != '{' || rest[0] != '{')
    ensures Keys(a + rest) == Keys(rest)
    ensures Loose(rest) ==> Loose(a + rest)
  {
    if a == "" {
      assert a + rest == rest;
    } else {
      var t := a + rest;
      assert t[1..] == a[1..] + rest;
      assert |t| > 1 ==> t[0] != '{' || t[1] != '{' by {
        if |a| > 1 { assert a[0] != '{' || a[1] != '{'; }
      }
      assert MatchLen(t) == None;
      assert forall k :: 0 <= k < |a[1..]| ==> a[1..][k] == a[k + 1];
      TextBefore(a[1..], rest);
    }
  }

  lemma LooseAround(a: string, p: string, b: string)
    requires SingleBraces(a) && SingleBraces(b) && Placeholder(p)
    requires a != "" ==> a[|a| - 1] != '{'
    ensures Loose(a + (p + b)) && Keys(a + (p + b)) == {Key(p)}
  {
    assert b + "" == b;
    TextBefore(b, "");
    assert Keys(b) == {} && Loose(b);
    var t := p + b;
    assert t[..|p|] == p && t[|p|..] == b;
    ScannerIsPattern(t, |p|);
    TextBefore(a, t);
  }

  /** A JSON object with a placeholder in it, as WebSocket sends and HTTP bodies have them, can be rendered
      in stages. */
  lemma JsonRendersInStages(lib: Lib, c1: Vars, c2: Vars)
    requires "x" in c1 ==> BraceFree(ToString(c1["x"]))
    ensures
      var t := "{\"a\":\"{{x}}\"}";
      Render(lib, Render(lib, t, c1), c2) == Render(lib, t, c2 + c1)
  {
    hide Render;
    var a, p, b := "{\"a\":\"", "{{x}}", "\"}";
    assert p[..2] == "{{" && p[3..] == "}}" && Key(p) == "x";
    LooseAround(a, p, b);
    assert FirstDot("x") == None;
    StagedIsMergedForSafeKeys(lib, a + (p + b), c1, c2);
    assert a + (p + b) == "{\"a\":\"{{x}}\"}";
  }

  /** Contexts that resolve the template's keys alike render it alike. */
  lemma {:induction false} RenderDependsOnKeys(lib: Lib, t: string, c1: Vars, c2: Vars)
    requires forall k :: k in Keys(t) ==> Resolve(lib, c1, k) == Resolve(lib, c2, k)
    ensures Render(lib, t, c1) == Render(lib, t, c2)
    decreases |t|
  {
    if t != "" {
      match MatchLen(t) {
        case None => RenderDependsOnKeys(lib, t[1..], c1, c2);
        case Some(n) =>
          assert Key(t[..n]) in Keys(t);
          RenderDependsOnKeys(lib, t[n..], c1, c2);
      }
    }
  }

  // ---------- Where staging fails ----------

  /** Braces around a placeholder: the first pass builds a new placeholder for the second. */
  lemma NestedBracesAreNotIdempotent(lib: Lib)
    ensures
      var c := map["a" := Text("b"), "b" := Text("x")];
      && Render(lib, "{{{{a}}}}", c) == "{{b}}"
      && Render(lib, "{{b}}", c) == "x"
  {
    hide Render, Replacement, Resolve, Key, RunEnd;
    var c := map["a" := Text("b"), "b" := Text("x")];
    RenderNothing(lib, c);
    var t := "{{{{a}}}}";
    RenderPassesOne(lib, t, c);
    assert t[1..] == "{{{a}}}}";
    RenderPassesOne(lib, t[1..], c);
    assert t[1..][1..] == "{{" + "a" + "}}" + "}}";
    RenderSimple(lib, "a", "}}", c);
    RenderPlain(lib, "}}", c) by { assert "}}"[1..][1..] == ""; }
    RenderSimple(lib, "b", "", c);
    assert "{{b}}" == "{{" + "b" + "}}" + "";
  }

  lemma RenderNothing(lib: Lib, c: Vars)
    ensures Render(lib, "", c) == ""
  {
  }

  lemma RenderPassesOne(lib: Lib, t: string, c: Vars)
    requires t != "" && MatchLen(t) == None
    ensures Render(lib, t, c) == [t[0]] + Render(lib, t[1..], c)
  {
  }

  lemma RenderSimple(lib: Lib, key: string, rest: string, c: Vars)
    requires |key| == 1 && IsStart(key[0]) && key in c
    ensures Render(lib, "{{" + key + "}}" + rest, c) == ToString(c[key]) + Render(lib, rest, c)
  {
    var p := "{{" + key + "}}";
    assert p[..2] == "{{" && p[3..] == "}}" && p[2] == key[0];
    assert Key(p) == key;
    RenderAtPlaceholder(lib, p, rest, c);
  }

  // ---------- Sends that cannot vanish ----------

  /** A quote is never part of a placeholder, so it survives rendering. */
  lemma {:induction false} QuoteSurvives(lib: Lib, t: string, ctx: Vars)
    requires '"' in t
    ensures '"' in Render(lib, t, ctx)
    decreases |t|
  {
    match MatchLen(t) {
      case None =>
        assert t == [t[0]] + t[1..];
        if t[0] != '"' { QuoteSurvives(lib, t[1..], ctx); }
      case Some(n) =>
        ScannerIsPattern(t, n);
        var p := t[..n];
        assert t == p + t[n..];
        assert '"' !in p by {
          assert p == "{{" + [p[2]] + p[3..n - 2] + "}}";
          assert forall c :: c in p[3..n - 2] ==> IsPart(c);
        }
        QuoteSurvives(lib, t[n..], ctx);
    }
  }

  /** Without a placeholder nothing is replaced. */
  lemma {:induction false} RenderPlain(lib: Lib, t: string, ctx: Vars)
    requires Keys(t) == {}
    ensures Render(lib, t, ctx) == t
  {
    if t != "" {
      assert MatchLen(t) == None;
      RenderPlain(lib, t[1..], ctx);
    }
  }

  // ---------- Placeholders and values, spelled out ----------

  /** An ASCII letter or the underscore, by code. */
  predicate IsLetter(c: char) {
    65 <= c as int <= 90 || 97 <= c as int <= 122 || c as int == 95
  }

  /** An ASCII digit or the dot, by code. */
  predicate IsDigitOrDot(c: char) {
    48 <= c as int <= 57 || c as int == 46
  }

  predicate IsKey(key: string) {
    && key != "" && IsLetter(key[0])
    && forall i :: 0 <= i < |key| ==> IsLetter(key[i]) || IsDigitOrDot(key[i])
  }

  /** A placeholder is a key in double braces; a key begins with a letter or underscore and goes on with letters,
      underscores, digits and dots. */
  lemma PlaceholderIsKey(key: string)
    ensures Placeholder("{{" + key + "}}") <==> IsKey(key)
    ensures Placeholder("{{" + key + "}}") ==> Key("{{" + key + "}}") == key
  {
    var p := "{{" + key + "}}";
    assert p[..2] == "{{" && p[|p| - 2..] == "}}" && p[2..|p| - 2] == key;
    assert forall k :: 2 <= k < |p| - 2 ==> p[k] == key[k - 2];
    assert forall i :: 0 <= i < |key| ==> key[i] == p[i + 2];
  }

  /** What a variable prints as. */
  lemma ValueText(s: string)
    ensures ToString(Nil) == "" && ToString(Text(s)) == s && ToString(Other(s)) == s
  {
  }

  /** A placeholder of a known variable renders to its text. Otherwise, one whose key is a variable and a path after
      its first dot renders to what is found there. Any other placeholder stays. */
  lemma RenderKey(lib: Lib, key: string, rest: string, ctx: Vars, root: string, path: string)
    requires IsKey(key)
    ensures
      var p, tail := "{{" + key + "}}", Render(lib, rest, ctx);
      var rendered := Render(lib, p + rest, ctx);
      && (key in ctx ==> rendered == ToString(ctx[key]) + tail)
      && (key !in ctx && '.' !in key ==> rendered == p + tail)
      && (key !in ctx && key == root + "." + path && '.' !in root ==>
            rendered
            == (if root !in ctx then p
                else match lib.get(ToString(ctx[root]), path) case Some(text) => text case None => p)
               + tail)
  {
    hide Render, IsKey;
    var p := "{{" + key + "}}";
    PlaceholderIsKey(key);
    RenderAtPlaceholder(lib, p, rest, ctx);
    ResolveMeaning(lib, ctx, key, root, path);
  }

  lemma ResolveMeaning(lib: Lib, ctx: Vars, key: string, root: string, path: string)
    ensures key in ctx ==> Resolve(lib, ctx, key) == Some(ToString(ctx[key]))
    ensures key !in ctx && '.' !in key ==> Resolve(lib, ctx, key) == None
    ensures key !in ctx && key == root + "." + path && '.' !in root ==>
              Resolve(lib, ctx, key) == if root !in ctx then None else lib.get(ToString(ctx[root]), path)
  {
    hide FirstDot;
    if key == root + "." + path && '.' !in root {
      var d := FirstDot(key);
      assert key[|root|] == '.' && '.' in key;
      assert forall k :: 0 <= k < |root| ==> key[k] == root[k] && root[k] in root;
      assert forall k :: 0 <= k < d.value ==> key[k] == key[..d.value][k] && key[k] != '.';
      assert d.value == |root|;
      assert key[..d.value] == root && key[d.value + 1..] == path;
    }
  }
}
