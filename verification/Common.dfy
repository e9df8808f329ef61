/** Captures and assertions, shared by the step executors. */
module Common {
  import opened Context
  import opened Library
  import opened Wrappers

  datatype CaptureRule = CaptureRule(source: string, path: string, as_: string)

  /** value is the printed form of the expected value. */
  datatype AssertionRule = AssertionRule(source: string, path: string, op: string, value: string)

  /** A response: printed status code, body, and header lookup. */
  datatype Response = Response(status: string, body: string, header: string -> string)

  /** A WebSocket message has no headers and counts as status 0. */
  function WsResponse(body: string): Response {
    Response("0", body, _ => "")
  }

  // ---------- Captures ----------

  function CaptureValue(lib: Lib, c: CaptureRule, resp: Response): string {
    if c.source == "header" then resp.header(c.path)
    else match lib.get(resp.body, c.path)
      case Some(v) => v
      case None => ""
  }

  /** The variables a list of rules captures; a later rule for the same name wins. */
  function Captured(lib: Lib, rules: seq<CaptureRule>, resp: Response): Vars {
    if rules == [] then map[]
    else
      var before := Captured(lib, rules[..|rules| - 1], resp);
      var c := rules[|rules| - 1];
      if c.as_ == "" then before else before[c.as_ := Text(CaptureValue(lib, c, resp))]
  }

  /** The names a list of rules captures, whatever the response. */
  function Names(rules: seq<CaptureRule>): set<string> {
    set c | c in rules && c.as_ != "" :: c.as_
  }

  lemma {:induction false} CapturedNames(lib: Lib, rules: seq<CaptureRule>, resp: Response)
    ensures Captured(lib, rules, resp).Keys == Names(rules)
  {
    if rules != [] {
      var n := |rules| - 1;
      CapturedNames(lib, rules[..n], resp);
      assert rules == rules[..n] + [rules[n]];
    }
  }

  /** A captured variable holds what the last rule naming it extracts. */
  lemma {:induction false} LastCaptureWins(lib: Lib, rules: seq<CaptureRule>, resp: Response, i: nat)
    requires i < |rules| && rules[i].as_ != ""
    requires forall j :: i < j < |rules| ==> rules[j].as_ != rules[i].as_
    ensures rules[i].as_ in Captured(lib, rules, resp)
    ensures Captured(lib, rules, resp)[rules[i].as_] == Text(CaptureValue(lib, rules[i], resp))
  {
    var n := |rules| - 1;
    if i < n {
      LastCaptureWins(lib, rules[..n], resp, i);
    }
  }

  /** Writes the captures into ctxMap and returns them. */
  method ExecuteCaptures(lib: Lib, rules: seq<CaptureRule>, resp: Response, ctxMap: CtxMap)
    returns (captured: Vars)
    modifies ctxMap
    ensures captured == Captured(lib, rules, resp)
    ensures ctxMap.m == old(ctxMap.m) + captured
  {
    captured := map[];
    for i := 0 to |rules|
      invariant captured == Captured(lib, rules[..i], resp)
      invariant ctxMap.m == old(ctxMap.m) + captured
    {
      var c := rules[i];
      assert rules[..i + 1][..i] == rules[..i];
      var val := "";
      if c.source == "header" {
        val := resp.header(c.path);
      } else {
        var r := lib.get(resp.body, c.path);
        if r.Some? {
          val := r.value;
        }
      }
      if c.as_ != "" {
        ctxMap.m := ctxMap.m[c.as_ := Text(val)];
        captured := captured[c.as_ := Text(val)];
      }
    }
    assert rules[..|rules|] == rules;
  }

  /** Copies captured variables into a collecting context. */
  method Collect(target: CtxMap, captured: Vars)
    modifies target
    ensures target.m == old(target.m) + captured
  {
    var rest := captured.Keys;
    while rest != {}
      invariant rest <= captured.Keys
      invariant target.m == old(target.m) + (captured - rest)
    {
      var k :| k in rest;
      target.m := target.m[k := captured[k]];
      rest := rest - {k};
    }
  }

  // ---------- Assertions ----------

  function Actual(lib: Lib, a: AssertionRule, resp: Response): string {
    if a.source == "status" then resp.status
    else if a.source == "header" then resp.header(a.path)
    else match lib.get(resp.body, a.path)
      case Some(v) => v
      case None => ""
  }

  predicate Contains(s: string, t: string) {
    t <= s || (s != "" && Contains(s[1..], t))
  }

  predicate TextLess(s: string, t: string) {
    t != "" && (s == "" || s[0] < t[0] || (s[0] == t[0] && TextLess(s[1..], t[1..])))
  }

  predicate CheckAssertion(lib: Lib, actual: string, op: string, expected: string) {
    if op == "eq" || op == "" then actual == expected
    else if op == "ne" then actual != expected
    else if op == "contains" then Contains(actual, expected)
    else if op == "gt" then
      (match lib.greater(actual, expected) case Some(b) => b case None => TextLess(expected, actual))
    else if op == "lt" then
      (match lib.less(actual, expected) case Some(b) => b case None => TextLess(actual, expected))
    else false
  }

  predicate Holds(lib: Lib, a: AssertionRule, resp: Response, vars: Vars) {
    CheckAssertion(lib, Actual(lib, a, resp), a.op, Render(lib, a.value, vars))
  }

  predicate AllHold(lib: Lib, rules: seq<AssertionRule>, resp: Response, vars: Vars) {
    forall i :: 0 <= i < |rules| ==> Holds(lib, rules[i], resp, vars)
  }

  /** The index of the first rule that fails. */
  method ExecuteAssertions(lib: Lib, rules: seq<AssertionRule>, resp: Response, vars: Vars)
    returns (failed: Option<nat>)
    ensures failed == None <==> AllHold(lib, rules, resp, vars)
    ensures failed.Some? ==>
      && failed.value < |rules|
      && !Holds(lib, rules[failed.value], resp, vars)
      && AllHold(lib, rules[..failed.value], resp, vars)
  {
    for i := 0 to |rules|
      invariant AllHold(lib, rules[..i], resp, vars)
    {
      var a := rules[i];
      var actual := "";
      if a.source == "status" {
        actual := resp.status;
      } else if a.source == "header" {
        actual := resp.header(a.path);
      } else {
        var r := lib.get(resp.body, a.path);
        if r.Some? {
          actual := r.value;
        }
      }
      var expected := Render(lib, a.value, vars);
      if !CheckAssertion(lib, actual, a.op, expected) {
        return Some(i);
      }
      assert rules[..i + 1] == rules[..i] + [a];
    }
    assert rules[..|rules|] == rules;
    return None;
  }

  /** The value template mentions one of the names, as a key or as the root of a dotted key. */
  predicate Mentions(t: string, names: set<string>) {
    exists k :: k in Context.Keys(t) && (k in names || (FirstDot(k).Some? && k[..FirstDot(k).value] in names))
  }

  /** New variables an assertion does not mention do not change its outcome. */
  lemma UnmentionedNamesDoNotMatter(lib: Lib, a: AssertionRule, resp: Response, vars: Vars, more: Vars)
    requires !Mentions(a.value, more.Keys)
    ensures Holds(lib, a, resp, vars + more) == Holds(lib, a, resp, vars)
  {
    forall k | k in Context.Keys(a.value)
      ensures Resolve(lib, vars + more, k) == Resolve(lib, vars, k)
    {
    }
    RenderDependsOnKeys(lib, a.value, vars + more, vars);
  }

  // ---------- Rules, spelled out ----------

  /** What a rule looks at: the status code, a header, or a path in the body, where a missing one reads as empty. */
  lemma SourceMeaning(lib: Lib, path: string, op: string, value: string, source: string, resp: Response)
    ensures Actual(lib, AssertionRule("status", path, op, value), resp) == resp.status
    ensures Actual(lib, AssertionRule("header", path, op, value), resp) == resp.header(path)
    ensures source != "status" && source != "header" ==>
              Actual(lib, AssertionRule(source, path, op, value), resp)
              == match lib.get(resp.body, path) case Some(v) => v case None => ""
    ensures CaptureValue(lib, CaptureRule("header", path, value), resp) == resp.header(path)
    ensures source != "header" ==>
              CaptureValue(lib, CaptureRule(source, path, value), resp)
              == match lib.get(resp.body, path) case Some(v) => v case None => ""
  {
  }

  /** A WebSocket message reads as status 0 without headers. */
  lemma MessageAsResponse(lib: Lib, m: string, path: string, op: string, value: string)
    ensures Actual(lib, AssertionRule("status", path, op, value), WsResponse(m)) == "0"
    ensures Actual(lib, AssertionRule("header", path, op, value), WsResponse(m)) == ""
    ensures Actual(lib, AssertionRule("body", path, op, value), WsResponse(m))
         == match lib.get(m, path) case Some(v) => v case None => ""
  {
  }

  /** One text stands somewhere in another. */
  predicate OccursAt(s: string, t: string, i: nat) {
    i + |t| <= |s| && s[i..i + |t|] == t
  }

  ghost predicate Occurs(s: string, t: string) {
    exists i :: OccursAt(s, t, i)
  }

  lemma {:induction false} ContainsMeaning(s: string, t: string)
    ensures Contains(s, t) <==> Occurs(s, t)
  {
    if t <= s {
      assert OccursAt(s, t, 0);
    } else if s == "" {
      assert t != "";
    } else {
      ContainsMeaning(s[1..], t);
      forall i: nat
        ensures OccursAt(s[1..], t, i) <==> OccursAt(s, t, i + 1)
      {
        if i + 1 + |t| <= |s| { assert s[1..][i..i + |t|] == s[i + 1..i + 1 + |t|]; }
      }
      assert !OccursAt(s, t, 0) by { assert |t| <= |s| ==> s[0..|t|] == s[..|t|]; }
      forall i: nat | OccursAt(s, t, i)
        ensures Occurs(s[1..], t)
      {
        assert i > 0;
        assert OccursAt(s[1..], t, i - 1);
      }
    }
  }

  /** The texts agree up to a place where the first ends or has the smaller character. */
  predicate PrecedesAt(s: string, t: string, n: nat) {
    n <= |s| && n < |t| && s[..n] == t[..n] && (n == |s| || s[n] < t[n])
  }

  ghost predicate Precedes(s: string, t: string) {
    exists n :: PrecedesAt(s, t, n)
  }

  lemma {:induction false} TextLessMeaning(s: string, t: string)
    ensures TextLess(s, t) <==> Precedes(s, t)
  {
    if t == "" {
    } else if s == "" || s[0] < t[0] {
      assert PrecedesAt(s, t, 0);
    } else {
      TextLessMeaning(s[1..], t[1..]);
      if s[0] == t[0] {
        forall n: nat
          ensures PrecedesAt(s[1..], t[1..], n) <==> PrecedesAt(s, t, n + 1)
        {
          if n + 1 <= |s| && n + 1 < |t| {
            assert s[..n + 1] == [s[0]] + s[1..][..n] && t[..n + 1] == [t[0]] + t[1..][..n];
            assert s[1..][..n] == s[..n + 1][1..] && t[1..][..n] == t[..n + 1][1..];
          }
        }
        assert !PrecedesAt(s, t, 0);
        forall n: nat | PrecedesAt(s, t, n)
          ensures Precedes(s[1..], t[1..])
        {
          assert PrecedesAt(s[1..], t[1..], n - 1);
        }
      } else {
        forall n: nat
          ensures !PrecedesAt(s, t, n)
        {
          if 0 < n <= |s| && n < |t| { assert s[..n][0] == s[0] && t[..n][0] == t[0]; }
        }
      }
    }
  }

  /** The operators. Greater and less compare numbers where both texts are numbers, and texts otherwise. */
  lemma OperatorMeaning(lib: Lib, actual: string, op: string, wanted: string)
    ensures CheckAssertion(lib, actual, "eq", wanted) <==> actual == wanted
    ensures CheckAssertion(lib, actual, "", wanted) <==> actual == wanted
    ensures CheckAssertion(lib, actual, "ne", wanted) <==> actual != wanted
    ensures CheckAssertion(lib, actual, "contains", wanted) <==> Occurs(actual, wanted)
    ensures CheckAssertion(lib, actual, "gt", wanted)
       <==> match lib.greater(actual, wanted) case Some(b) => b case None => Precedes(wanted, actual)
    ensures CheckAssertion(lib, actual, "lt", wanted)
       <==> match lib.less(actual, wanted) case Some(b) => b case None => Precedes(actual, wanted)
    ensures op !in {"eq", "", "ne", "contains", "gt", "lt"} ==> !CheckAssertion(lib, actual, op, wanted)
  {
    ContainsMeaning(actual, wanted);
    TextLessMeaning(wanted, actual);
    TextLessMeaning(actual, wanted);
  }

  /** A rule holds of what it looks at and its value rendered with the variables. */
  lemma RuleMeaning(lib: Lib, a: AssertionRule, resp: Response, vars: Vars)
    ensures Holds(lib, a, resp, vars)
       <==> CheckAssertion(lib, Actual(lib, a, resp), a.op, Render(lib, a.value, vars))
  {
  }

  /** A rule without a name captures nothing. */
  lemma NameMeaning(rules: seq<CaptureRule>, name: string)
    ensures name in Names(rules) <==> name != "" && exists i :: 0 <= i < |rules| && rules[i].as_ == name
  {
    if name in Names(rules) {
      var c :| c in rules && c.as_ != "" && c.as_ == name;
      var i :| 0 <= i < |rules| && rules[i] == c;
      assert rules[i].as_ == name;
    }
  }
}
