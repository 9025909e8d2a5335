/**
 Placeholders and step conditions of formulas: substituteVars and evaluateCondition.
 */
module Template {
  import opened Wrappers
  import opened Text

  type Vars = map<string, string>

  predicate IsWord(c: char) {
    'a' <= c <= 'z' || 'A' <= c <= 'Z' || '0' <= c <= '9' || c == '_'
  }

  /** How many word characters `s` starts with. */
  function WordLength(s: string): (n: nat)
    ensures n <= |s| && (forall i :: 0 <= i < n ==> IsWord(s[i])) && (n < |s| ==> !IsWord(s[n]))
  {
    if s != "" && IsWord(s[0]) then 1 + WordLength(s[1..]) else 0
  }

  /** The name in a placeholder that `s` starts with, by the pattern of two braces around a word. */
  function LeadingName(s: string): (name: Option<string>)
    ensures name.Some? ==> name.value != "" && Placeholder(name.value) <= s
  {
    if !("{{" <= s) then None
    else
      var n := WordLength(s[2..]);
      if n > 0 && "}}" <= s[2 + n..] then
        assert s == "{{" + s[2..2 + n] + "}}" + s[4 + n..];
        Some(s[2..2 + n])
      else None
  }

  function Placeholder(name: string): string {
    "{{" + name + "}}"
  }

  /** Leftmost placeholders are replaced where bound; what is put in is not scanned again. */
  function SubstituteVars(s: string, vars: Vars): string
    decreases |s|
  {
    if s == "" then ""
    else
      match LeadingName(s)
      case Some(name) =>
        (if name in vars then vars[name] else Placeholder(name)) + SubstituteVars(s[|Placeholder(name)|..], vars)
      case None => [s[0]] + SubstituteVars(s[1..], vars)
  }

  // ----- templates as token lists

  datatype Token = Char(c: char) | Var(name: string)

  function Show(tokens: seq<Token>): string {
    if tokens == [] then ""
    else (match tokens[0] case Char(c) => [c] case Var(name) => Placeholder(name)) + Show(tokens[1..])
  }

  function Scan(s: string): seq<Token>
    decreases |s|
  {
    if s == "" then []
    else
      match LeadingName(s)
      case Some(name) => [Var(name)] + Scan(s[|Placeholder(name)|..])
      case None => [Char(s[0])] + Scan(s[1..])
  }

  function Render(tokens: seq<Token>, vars: Vars): string {
    if tokens == [] then ""
    else
      (match tokens[0]
       case Char(c) => [c]
       case Var(name) => if name in vars then vars[name] else Placeholder(name)) + Render(tokens[1..], vars)
  }

  predicate IsName(s: string) {
    s != "" && forall c <- s :: IsWord(c)
  }

  /** Well-named placeholders and text without opening braces of its own. */
  predicate IsTemplate(tokens: seq<Token>) {
    forall t <- tokens :: match t case Char(c) => c != '{' case Var(name) => IsName(name)
  }

  /** Scanning loses nothing, whatever the text. */
  lemma {:induction false} ScanThenShow(s: string)
    ensures Show(Scan(s)) == s
    decreases |s|
  {
    if s != "" {
      match LeadingName(s)
      case Some(name) =>
        var rest := s[|Placeholder(name)|..];
        ScanThenShow(rest);
        assert Scan(s)[1..] == Scan(rest);
        assert s == Placeholder(name) + rest;
      case None =>
        ScanThenShow(s[1..]);
        assert Scan(s)[1..] == Scan(s[1..]);
    }
  }

  lemma {:induction false} WordLengthOfName(name: string, tail: string)
    requires forall c <- name :: IsWord(c)
    requires tail != "" && !IsWord(tail[0])
    ensures WordLength(name + tail) == |name|
  {
    if name == "" {
      assert name + tail == tail;
    } else {
      assert name[0] in name && forall c <- name[1..] :: c in name;
      assert (name + tail)[1..] == name[1..] + tail;
      WordLengthOfName(name[1..], tail);
    }
  }

  lemma LeadingNameOfPlaceholder(name: string, tail: string)
    requires IsName(name)
    ensures LeadingName(Placeholder(name) + tail) == Some(name)
  {
    var s, rest := Placeholder(name) + tail, name + ("}}" + tail);
    assert s == "{{" + rest;
    assert s[2..] == rest;
    WordLengthOfName(name, "}}" + tail);
    assert ("}}" + tail)[0] == '}';
    assert s[2 + |name|..] == "}}" + tail;
    assert s[2..2 + |name|] == name;
  }

  lemma ScanVar(name: string, rest: string)
    requires IsName(name)
    ensures Scan(Placeholder(name) + rest) == [Var(name)] + Scan(rest)
  {
    LeadingNameOfPlaceholder(name, rest);
    assert (Placeholder(name) + rest)[|Placeholder(name)|..] == rest;
  }

  lemma ScanChar(c: char, rest: string)
    requires c != '{'
    ensures Scan([c] + rest) == [Char(c)] + Scan(rest)
  {
    assert ([c] + rest)[0] == c && ([c] + rest)[1..] == rest;
    assert LeadingName([c] + rest).None?;
  }

  /** A template scans back to exactly its tokens. */
  lemma {:induction false} ShowThenScan(tokens: seq<Token>)
    requires IsTemplate(tokens)
    ensures Scan(Show(tokens)) == tokens
  {
    if tokens != [] {
      assert tokens == [tokens[0]] + tokens[1..];
      assert tokens[0] in tokens && forall t <- tokens[1..] :: t in tokens;
      ShowThenScan(tokens[1..]);
      match tokens[0]
      case Char(c) => ScanChar(c, Show(tokens[1..]));
      case Var(name) => ScanVar(name, Show(tokens[1..]));
    }
  }

  /** Substitution acts token by token, on any text. */
  lemma {:induction false} SubstituteIsTokenwise(s: string, vars: Vars)
    ensures SubstituteVars(s, vars) == Render(Scan(s), vars)
    decreases |s|
  {
    if s != "" {
      match LeadingName(s)
      case Some(name) =>
        SubstituteIsTokenwise(s[|Placeholder(name)|..], vars);
        assert Scan(s)[1..] == Scan(s[|Placeholder(name)|..]);
      case None =>
        SubstituteIsTokenwise(s[1..], vars);
        assert Scan(s)[1..] == Scan(s[1..]);
    }
  }

  /** On a template every bound placeholder is replaced, once, and nothing else changes. */
  lemma SubstituteTemplate(tokens: seq<Token>, vars: Vars)
    requires IsTemplate(tokens)
    ensures SubstituteVars(Show(tokens), vars) == Render(tokens, vars)
  {
    SubstituteIsTokenwise(Show(tokens), vars);
    ShowThenScan(tokens);
  }

  lemma {:induction false} RenderUnbound(tokens: seq<Token>, vars: Vars)
    requires forall t <- tokens :: t.Var? ==> t.name !in vars
    ensures Render(tokens, vars) == Show(tokens)
  {
    if tokens != [] {
      assert tokens[0] in tokens;
      assert forall t <- tokens[1..] :: t in tokens;
      RenderUnbound(tokens[1..], vars);
    }
  }

  lemma {:induction false} ScannedNames(s: string)
    ensures forall t <- Scan(s) :: t.Var? ==> IsName(t.name)
    decreases |s|
  {
    if s != "" {
      match LeadingName(s)
      case Some(name) =>
        ScannedNames(s[|Placeholder(name)|..]);
        assert s[2..2 + |name|] == name;
        assert IsName(name) by {
          NameIsWord(s);
        }
      case None =>
        ScannedNames(s[1..]);
    }
  }

  lemma NameIsWord(s: string)
    ensures LeadingName(s).Some? ==> IsName(LeadingName(s).value)
  {
  }

  function Opening(s: string): nat {
    if s == "" then 0 else (if s[0] == '{' then 1 else 0) + Opening(s[1..])
  }

  lemma {:induction false} OpeningConcat(a: string, b: string)
    ensures Opening(a + b) == Opening(a) + Opening(b)
  {
    if a == "" {
      assert a + b == b;
    } else {
      assert (a + b)[1..] == a[1..] + b;
      OpeningConcat(a[1..], b);
    }
  }

  lemma {:induction false} NoneOpening(s: string)
    requires '{' !in s
    ensures Opening(s) == 0
  {
    if s != "" {
      assert s[0] in s && forall c <- s[1..] :: c in s;
      NoneOpening(s[1..]);
    }
  }

  /** Filling a bound placeholder with a value free of opening braces uses some up. */
  lemma {:induction false} BoundUsesBraces(tokens: seq<Token>, vars: Vars)
    requires forall name <- vars :: '{' !in vars[name]
    ensures Opening(Render(tokens, vars)) <= Opening(Show(tokens))
    ensures (exists t <- tokens :: t.Var? && t.name in vars) ==> Opening(Render(tokens, vars)) < Opening(Show(tokens))
  {
    if tokens != [] {
      var first, rest := tokens[0], tokens[1..];
      assert tokens == [first] + rest;
      BoundUsesBraces(rest, vars);
      match first
      case Char(c) =>
        OpeningConcat([c], Render(rest, vars));
        OpeningConcat([c], Show(rest));
      case Var(name) =>
        OpeningConcat(Placeholder(name), Show(rest));
        assert Placeholder(name)[0] == '{';
        if name in vars {
          NoneOpening(vars[name]);
          OpeningConcat(vars[name], Render(rest, vars));
        } else {
          OpeningConcat(Placeholder(name), Render(rest, vars));
        }
    }
  }

  /** Substitution leaves a text alone iff it shows no bound placeholder, when no value brings in an opening brace. */
  lemma UnchangedIff(s: string, vars: Vars)
    requires forall name <- vars :: '{' !in vars[name]
    ensures SubstituteVars(s, vars) == s <==> forall t <- Scan(s) :: t.Var? ==> t.name !in vars
  {
    SubstituteIsTokenwise(s, vars);
    ScanThenShow(s);
    hide Scan, SubstituteVars;
    if forall t <- Scan(s) :: t.Var? ==> t.name !in vars {
      RenderUnbound(Scan(s), vars);
    } else {
      BoundUsesBraces(Scan(s), vars);
    }
  }

  /** A placeholder is two braces around letters, digits and underscores, at least one. */
  lemma LeadingNameIff(s: string, name: string)
    ensures LeadingName(s) == Some(name) <==>
      && name != "" && "{{" + name + "}}" <= s
      && forall c <- name :: 'a' <= c <= 'z' || 'A' <= c <= 'Z' || '0' <= c <= '9' || c == '_'
  {
    NameIsWord(s);
    if IsName(name) && Placeholder(name) <= s {
      LeadingNameOfPlaceholder(name, s[|Placeholder(name)|..]);
      assert s == Placeholder(name) + s[|Placeholder(name)|..];
    }
    hide LeadingName;
  }

  // ----- when one pass suffices

  /** `s` starts with a placeholder that has a value. */
  predicate StartsBound(s: string, vars: Vars) {
    var name := LeadingName(s);
    name.Some? && name.value in vars
  }

  ghost predicate BoundSomewhere(s: string, vars: Vars) {
    exists j: nat :: j < |s| && StartsBound(s[j..], vars)
  }

  /** Placeholders do not overlap. */
  lemma NoPlaceholderInside(s: string, j: nat)
    requires LeadingName(s).Some? && 0 < j < |Placeholder(LeadingName(s).value)|
    ensures j < |s| && LeadingName(s[j..]).None?
  {
    var name := LeadingName(s).value;
    var p := Placeholder(name);
    NameIsWord(s);
    assert s[j] == p[j];
    if j == 1 {
      assert s[2] == p[2] == name[0] && name[0] in name;
      assert s[1..][1] == s[2];
    } else if j < 2 + |name| {
      assert p[j] == name[j - 2] && name[j - 2] in name;
    }
  }

  lemma BoundPastFirst(s: string, k: nat, vars: Vars)
    requires 0 < k <= |s| && forall j :: 0 < j < k ==> LeadingName(s[j..]).None?
    ensures BoundSomewhere(s, vars) <==> StartsBound(s, vars) || BoundSomewhere(s[k..], vars)
  {
    hide LeadingName;
    assert s[0..] == s;
    if j: nat :| j < |s| && StartsBound(s[j..], vars) {
      if j >= k {
        assert s[k..][j - k..] == s[j..];
      }
    }
    if j: nat :| j < |s[k..]| && StartsBound(s[k..][j..], vars) {
      assert s[k..][j..] == s[k + j..];
    }
  }

  /** The left-to-right scan meets a placeholder that has a value iff there is one anywhere in the text. */
  lemma {:induction false} ScanFindsBound(s: string, vars: Vars)
    ensures (exists t <- Scan(s) :: t.Var? && t.name in vars) <==> BoundSomewhere(s, vars)
    decreases |s|
  {
    if s != "" {
      match LeadingName(s)
      case Some(name) =>
        var k := |Placeholder(name)|;
        forall j | 0 < j < k
          ensures LeadingName(s[j..]).None?
        {
          NoPlaceholderInside(s, j);
        }
        ScanFindsBound(s[k..], vars);
        assert Scan(s) == [Var(name)] + Scan(s[k..]);
        hide Scan, LeadingName;
        BoundPastFirst(s, k, vars);
      case None =>
        ScanFindsBound(s[1..], vars);
        assert Scan(s) == [Char(s[0])] + Scan(s[1..]);
        hide Scan, LeadingName;
        BoundPastFirst(s, 1, vars);
    }
  }

  /** The token at `i` is an opening brace with which, once what follows is filled in, a bound placeholder starts. */
  predicate Completes(tokens: seq<Token>, i: nat, vars: Vars) {
    i < |tokens| && tokens[i] == Char('{') && StartsBound(Render(tokens[i..], vars), vars)
  }

  lemma CompletesPastFirst(tokens: seq<Token>, vars: Vars)
    requires tokens != []
    ensures (exists i: nat :: Completes(tokens, i, vars)) <==>
            Completes(tokens, 0, vars) || exists i: nat :: Completes(tokens[1..], i, vars)
  {
    hide Render, StartsBound;
    if i: nat :| Completes(tokens, i, vars) {
      if i > 0 {
        assert tokens[1..][i - 1..] == tokens[i..];
        assert Completes(tokens[1..], i - 1, vars);
      }
    }
    if i: nat :| Completes(tokens[1..], i, vars) {
      assert tokens[1..][i..] == tokens[i + 1..];
      assert Completes(tokens, i + 1, vars);
    }
  }

  /** What one token is rendered to starts no bound placeholder, unless it is an opening brace of the text's own. */
  lemma FirstRendered(tokens: seq<Token>, vars: Vars)
    requires tokens != [] && (tokens[0].Var? ==> IsName(tokens[0].name)) && forall name <- vars :: '{' !in vars[name]
    ensures BoundSomewhere(Render(tokens, vars), vars) <==>
            Completes(tokens, 0, vars) || BoundSomewhere(Render(tokens[1..], vars), vars)
  {
    var s, rest := Render(tokens, vars), Render(tokens[1..], vars);
    assert tokens[0..] == tokens;
    match tokens[0]
    case Char(c) =>
      assert s == [c] + rest && s[0] == c && s[1..] == rest;
      assert StartsBound(s, vars) ==> c == '{';
      BoundPastFirst(s, 1, vars);
    case Var(name) =>
      if name !in vars {
        var k := |Placeholder(name)|;
        LeadingNameOfPlaceholder(name, rest);
        assert s == Placeholder(name) + rest && s[k..] == rest;
        forall j | 0 < j < k
          ensures LeadingName(s[j..]).None?
        {
          NoPlaceholderInside(s, j);
        }
        BoundPastFirst(s, k, vars);
      } else if vars[name] == "" {
        assert s == rest;
      } else {
        var k := |vars[name]|;
        assert s == vars[name] + rest && s[k..] == rest && s[0..] == s;
        forall j | 0 <= j < k
          ensures LeadingName(s[j..]).None?
        {
          assert s[j] == vars[name][j] && vars[name][j] in vars[name];
        }
        BoundPastFirst(s, k, vars);
      }
  }

  lemma {:induction false} RenderedBoundIff(tokens: seq<Token>, vars: Vars)
    requires (forall t <- tokens :: t.Var? ==> IsName(t.name)) && forall name <- vars :: '{' !in vars[name]
    ensures BoundSomewhere(Render(tokens, vars), vars) <==> exists i: nat :: Completes(tokens, i, vars)
  {
    if tokens != [] {
      assert tokens[0] in tokens && forall t <- tokens[1..] :: t in tokens;
      RenderedBoundIff(tokens[1..], vars);
      FirstRendered(tokens, vars);
      CompletesPastFirst(tokens, vars);
      hide Render, Completes, BoundSomewhere;
    }
  }

  /**
   A second pass changes something exactly when an opening brace of the text's own starts a bound
   placeholder once the text after it is filled in; no value may bring in an opening brace.
   */
  lemma OnePassSufficesIff(s: string, vars: Vars)
    requires forall name <- vars :: '{' !in vars[name]
    ensures var once := SubstituteVars(s, vars);
      SubstituteVars(once, vars) == once <==> !exists i: nat :: Completes(Scan(s), i, vars)
  {
    var once := SubstituteVars(s, vars);
    SubstituteIsTokenwise(s, vars);
    ScannedNames(s);
    UnchangedIff(once, vars);
    ScanFindsBound(once, vars);
    RenderedBoundIff(Scan(s), vars);
    hide Scan, Render, SubstituteVars, Completes, BoundSomewhere;
  }

  /** So one pass suffices for any text whose opening braces all belong to placeholders. */
  lemma SubstituteIdempotent(s: string, vars: Vars)
    requires Char('{') !in Scan(s) && forall name <- vars :: '{' !in vars[name]
    ensures var once := SubstituteVars(s, vars); SubstituteVars(once, vars) == once
  {
    OnePassSufficesIff(s, vars);
    hide Scan, SubstituteVars;
  }

  lemma CharKept(c: char, rest: string, vars: Vars)
    requires LeadingName([c] + rest).None?
    ensures SubstituteVars([c] + rest, vars) == [c] + SubstituteVars(rest, vars)
  {
    assert ([c] + rest)[1..] == rest;
  }

  lemma PlaceholderFilled(name: string, rest: string, vars: Vars)
    requires IsName(name) && name in vars
    ensures SubstituteVars(Placeholder(name) + rest, vars) == vars[name] + SubstituteVars(rest, vars)
  {
    LeadingNameOfPlaceholder(name, rest);
    assert (Placeholder(name) + rest)[|Placeholder(name)|..] == rest;
  }

  /** Two braces and a word are no placeholder when two more opening braces follow. */
  lemma UnclosedName(name: string, rest: string)
    requires IsName(name) && rest != "" && rest[0] == '{'
    ensures LeadingName("{{" + (name + rest)).None?
    ensures LeadingName(name + rest).None?
    ensures LeadingName("{" + (name + rest)).None?
  {
    var s := "{{" + (name + rest);
    assert s[2..] == name + rest;
    WordLengthOfName(name, rest);
    assert s[2 + |name|..][0] == '{';
    assert ("{" + (name + rest))[1] == name[0] && name[0] in name;
    assert (name + rest)[0] == name[0];
  }

  lemma NestedPlaceholderFilled(vars: Vars)
    requires vars == map["x" := "b", "ab" := "c"]
    ensures SubstituteVars("{" + ("{" + ("a" + (Placeholder("x") + "}}"))), vars) == "{" + ("{" + ("a" + ("b" + "}}")))
  {
    var inner := Placeholder("x") + "}}";
    NothingToReplace("}}", vars);
    PlaceholderFilled("x", "}}", vars);
    assert inner[0] == '{';
    UnclosedName("a", inner);
    CharKept('a', inner, vars);
    CharKept('{', "a" + inner, vars);
    assert "{" + ("{" + ("a" + inner)) == "{{" + ("a" + inner);
    CharKept('{', "{" + ("a" + inner), vars);
  }

  /** Opening braces of the text's own spoil that: filling the inner placeholder completes an outer one. */
  lemma NestedPlaceholderNotIdempotent()
    ensures var vars := map["x" := "b", "ab" := "c"];
      SubstituteVars("{{a{{x}}}}", vars) == "{{ab}}" && SubstituteVars("{{ab}}", vars) == "c"
  {
    var vars := map["x" := "b", "ab" := "c"];
    NestedPlaceholderFilled(vars);
    SameText();
    PlaceholderFilled("ab", "", vars);
  }

  lemma SameText()
    ensures "{" + ("{" + ("a" + (Placeholder("x") + "}}"))) == "{{a{{x}}}}"
    ensures "{" + ("{" + ("a" + ("b" + "}}"))) == "{{ab}}"
    ensures Placeholder("ab") + "" == "{{ab}}"
  {
  }

  /** Text without an opening brace is left alone. */
  lemma {:induction false} NothingToReplace(s: string, vars: Vars)
    requires '{' !in s
    ensures SubstituteVars(s, vars) == s
  {
    if s != "" {
      assert s[0] in s;
      assert forall c <- s[1..] :: c in s;
      assert LeadingName(s).None?;
      NothingToReplace(s[1..], vars);
    }
  }

  // ----- conditions

  predicate Truthy(value: string) {
    value != "" && value != "false" && value != "0"
  }

  predicate HasPlaceholder(s: string) {
    exists t <- Scan(s) :: t.Var?
  }

  function EvaluateCondition(cond0: string, vars: Vars): bool
    decreases |cond0|
  {
    var cond := TrimSpace(cond0);
    if "!" <= cond then !EvaluateCondition(cond[1..], vars) else EvaluateUnnegated(cond, vars)
  }

  function EvaluateUnnegated(cond: string, vars: Vars): bool {
    match Index(cond, "!=")
    case Some(i) => SubstituteVars(TrimSpace(cond[..i]), vars) != TrimSpace(cond[i + 2..])
    case None =>
      match Index(cond, "==")
      case Some(i) => SubstituteVars(TrimSpace(cond[..i]), vars) == TrimSpace(cond[i + 2..])
      case None =>
        var resolved := SubstituteVars(cond, vars);
        if resolved != cond then Truthy(resolved)
        else if HasPlaceholder(cond) then false
        else resolved != ""
  }

  /** What the text of a condition says, before any variable is looked at. */
  datatype Condition =
    | Not(c: Condition)
    | Differs(left: string, right: string)
    | Equals(left: string, right: string)
    | Holds(text: string)

  function Parse(cond0: string): Condition
    decreases |cond0|
  {
    var cond := TrimSpace(cond0);
    if "!" <= cond then Not(Parse(cond[1..])) else ParseUnnegated(cond)
  }

  function ParseUnnegated(cond: string): Condition {
    match Index(cond, "!=")
    case Some(i) => Differs(TrimSpace(cond[..i]), TrimSpace(cond[i + 2..]))
    case None =>
      match Index(cond, "==")
      case Some(i) => Equals(TrimSpace(cond[..i]), TrimSpace(cond[i + 2..]))
      case None => Holds(cond)
  }

  function Eval(c: Condition, vars: Vars): bool {
    match c
    case Not(d) => !Eval(d, vars)
    case Differs(left, right) => SubstituteVars(left, vars) != right
    case Equals(left, right) => SubstituteVars(left, vars) == right
    case Holds(text) =>
      var resolved := SubstituteVars(text, vars);
      if resolved == text then text != "" && !HasPlaceholder(text) else Truthy(resolved)
  }

  /** Variable values never move the operator: the condition is parsed from its text alone. */
  lemma {:induction false} ConditionParsedBeforeValues(cond: string, vars: Vars)
    ensures EvaluateCondition(cond, vars) == Eval(Parse(cond), vars)
    decreases |cond|
  {
    var c := TrimSpace(cond);
    if "!" <= c {
      ConditionParsedBeforeValues(c[1..], vars);
    }
  }

  function Bangs(k: nat): string {
    if k == 0 then "" else "!" + Bangs(k - 1)
  }

  function Negated(k: nat, b: bool): bool {
    if k == 0 then b else !Negated(k - 1, b)
  }

  lemma SameTrimmedSameTruth(a: string, b: string, vars: Vars)
    requires TrimSpace(a) == TrimSpace(b)
    ensures EvaluateCondition(a, vars) == EvaluateCondition(b, vars)
  {
    hide TrimSpace, EvaluateUnnegated;
  }

  lemma OneBang(rest: string, vars: Vars)
    ensures EvaluateCondition("!" + rest, vars) == !EvaluateCondition(rest, vars)
  {
    var s := "!" + rest;
    assert s[0] == '!';
    TrimRightAfter("!", rest);
    assert TrimSpace(s) == "!" + TrimRight(rest);
    assert ("!" + TrimRight(rest))[1..] == TrimRight(rest);
    TrimSpaceOfTrimRight(rest);
    SameTrimmedSameTruth(TrimRight(rest), rest, vars);
    hide EvaluateUnnegated, TrimRight, TrimLeft;
  }

  /** k leading exclamation marks negate any condition k times; no white space or operator interferes. */
  lemma {:induction false} BangsNegate(k: nat, cond: string, vars: Vars)
    ensures EvaluateCondition(Bangs(k) + cond, vars) == Negated(k, EvaluateCondition(cond, vars))
    decreases k
  {
    hide EvaluateCondition;
    if k == 0 {
      assert Bangs(0) + cond == cond;
    } else {
      BangsNegate(k - 1, cond, vars);
      OneBang(Bangs(k - 1) + cond, vars);
      assert Bangs(k) + cond == "!" + (Bangs(k - 1) + cond);
    }
  }

  predicate Plain(c: char) {
    c != '!' && c != '=' && !IsSpace(c)
  }

  lemma PlaceholderIsPlain(name: string)
    requires IsName(name)
    ensures forall i :: 0 <= i < |Placeholder(name)| ==> Plain(Placeholder(name)[i])
  {
    var p := Placeholder(name);
    forall i | 0 <= i < |p|
      ensures Plain(p[i])
    {
      if 2 <= i < 2 + |name| {
        assert p[i] == name[i - 2] && name[i - 2] in name;
      }
    }
  }

  lemma FirstChars(s: string, i: nat)
    ensures Occurs("!=", s, i) ==> s[i] == '!' && s[i + 1] == '='
    ensures Occurs("==", s, i) ==> s[i] == '=' && s[i + 1] == '='
  {
    if i + 2 <= |s| {
      assert s[i..i + 2][0] == s[i] && s[i..i + 2][1] == s[i + 1];
    }
  }

  /** What a lone placeholder stands for. */
  function ValueOf(name: string, vars: Vars): string {
    if name in vars then vars[name] else Placeholder(name)
  }

  lemma PlaceholderValue(name: string, vars: Vars)
    requires IsName(name)
    ensures SubstituteVars(Placeholder(name), vars) == ValueOf(name, vars)
    ensures HasPlaceholder(Placeholder(name))
  {
    assert Placeholder(name) == Placeholder(name) + "";
    ScanVar(name, "");
    assert Var(name) in Scan(Placeholder(name));
    LeadingNameOfPlaceholder(name, "");
    assert Placeholder(name)[|Placeholder(name)|..] == "";
  }

  /** A condition without operator or white space. */
  lemma EvaluatePlain(s: string, vars: Vars)
    requires s != "" && forall i :: 0 <= i < |s| ==> Plain(s[i])
    ensures EvaluateCondition(s, vars) == Eval(Holds(s), vars)
  {
    assert TrimSpace(s) == s;
    forall i: nat
      ensures !Occurs("!=", s, i) && !Occurs("==", s, i)
    {
      FirstChars(s, i);
    }
    IndexIsFirst(s, "!=");
    IndexIsFirst(s, "==");
    assert EvaluateCondition(s, vars) == EvaluateUnnegated(s, vars);
  }

  /** A lone placeholder holds iff its variable is bound to none of: "", "false", "0" and itself. */
  lemma PlaceholderCondition(name: string, vars: Vars)
    requires IsName(name)
    ensures EvaluateCondition(Placeholder(name), vars) <==>
      name in vars && vars[name] !in {"", "false", "0", Placeholder(name)}
  {
    hide EvaluateCondition;
    PlaceholderIsPlain(name);
    PlaceholderValue(name, vars);
    EvaluatePlain(Placeholder(name), vars);
  }

  /** No `!=` anywhere: the guard that lets a condition be read as an equality. */
  predicate NoBangEquals(s: string) {
    forall i: nat | i < |s| :: !Occurs("!=", s, i)
  }

  /** The trimmed comparison: everything up to the operator stays. */
  lemma ComparisonTrimmed(a: string, value: string)
    requires a != "" && !IsSpace(a[0]) && !IsSpace(a[|a| - 1])
    ensures TrimSpace(a + " " + value) == a + TrimRight(" " + value)
  {
    assert a + " " + value == a + (" " + value);
    TrimRightAfter(a, " " + value);
    assert (a + (" " + value))[0] == a[0] == (a + TrimRight(" " + value))[0];
  }

  lemma OccursLater(a: string, r: string, i: nat)
    ensures Occurs("!=", r, i) <==> Occurs("!=", a + r, |a| + i)
  {
    assert i + 2 <= |r| ==> (a + r)[|a| + i..|a| + i + 2] == r[i..i + 2];
  }

  lemma NoBangBefore(p: string, r: string, i: nat)
    requires (forall k :: 0 <= k < |p| ==> Plain(p[k])) && i < |p| + 3
    ensures !Occurs("!=", p + " ==" + r, i)
  {
    var s := p + " ==" + r;
    assert s[|p|] == ' ' && s[|p| + 1] == '=' && s[|p| + 2] == '=';
    FirstChars(s, i);
  }

  lemma BangEqualsAfter(p: string, r: string)
    requires forall i :: 0 <= i < |p| ==> Plain(p[i])
    ensures NoBangEquals(p + " ==" + r) <==> NoBangEquals(r)
    ensures forall i: nat :: Occurs("!=", p + " ==" + r, i) ==> i >= |p| + 3 && Occurs("!=", r, i - (|p| + 3))
  {
    var a := p + " ==";
    OccursWithin(r);
    hide Occurs;
    forall i: nat
      ensures Occurs("!=", a + r, i) ==> i >= |a| && Occurs("!=", r, i - |a|)
    {
      if i < |a| {
        NoBangBefore(p, r, i);
      } else {
        OccursLater(a, r, i - |a|);
      }
    }
    forall i: nat
      ensures Occurs("!=", r, i) ==> i < |r| && Occurs("!=", a + r, |a| + i)
    {
      OccursLater(a, r, i);
    }
  }

  /** White space around a text does not bring in or hide an operator. */
  lemma BangEqualsTrimmed(value: string)
    ensures NoBangEquals(TrimRight(" " + value)) <==> NoBangEquals(value)
  {
    var s := " " + value;
    var r := TrimRight(s);
    TrimRightCuts(s);
    forall i: nat | Occurs("!=", value, i)
      ensures Occurs("!=", r, i + 1)
    {
      FirstChars(value, i);
      assert s[i + 1] == value[i] && s[i + 2] == value[i + 1];
      assert i + 3 <= |r|;
      assert r[i + 1..i + 3] == value[i..i + 2];
    }
    forall i: nat | Occurs("!=", r, i)
      ensures i > 0 && Occurs("!=", value, i - 1)
    {
      FirstChars(r, i);
      assert r[i] == s[i] && r[i + 1] == s[i + 1];
      assert value[i - 1..i + 1] == r[i..i + 2];
    }
    hide TrimRight, Occurs;
    if NoBangEquals(r) {
      assert forall i: nat | i < |value| :: Occurs("!=", value, i) ==> i + 1 < |r| by {
        OccursWithin(r);
      }
    }
    if NoBangEquals(value) {
      OccursWithin(value);
    }
  }

  lemma OccursWithin(s: string)
    ensures forall i: nat :: Occurs("!=", s, i) ==> i < |s|
  {
  }

  /** Where the operators of a trimmed comparison are found. */
  lemma EqualsFound(p: string, r: string)
    requires forall i :: 0 <= i < |p| ==> Plain(p[i])
    ensures var s := p + " ==" + r;
      && (Index(s, "!=").None? <==> NoBangEquals(r))
      && Index(s, "==") == Some(|p| + 1)
  {
    var s, n := p + " ==" + r, |p|;
    assert s[n] == ' ' && s[n + 1] == '=' && s[n + 2] == '=';
    BangEqualsAfter(p, r);
    forall i: nat | i < n + 1
      ensures !Occurs("==", s, i)
    {
      FirstChars(s, i);
    }
    assert Occurs("==", s, n + 1);
    IndexIsFirst(s, "!=");
    IndexIsFirst(s, "==");
  }

  /** A comparison goes straight to the search for operators in its trimmed text. */
  lemma ComparisonUnnegated(p: string, value: string, vars: Vars)
    requires p != "" && forall i :: 0 <= i < |p| ==> Plain(p[i])
    ensures var t := p + " ==" + TrimRight(" " + value);
      && EvaluateCondition(p + " == " + value, vars) == EvaluateUnnegated(t, vars)
      && Parse(p + " == " + value) == ParseUnnegated(t)
  {
    var a := p + " ==";
    var t := a + TrimRight(" " + value);
    assert a[0] == p[0] && Plain(p[0]) && a[|a| - 1] == '=';
    assert p + " == " + value == a + " " + value;
    ComparisonTrimmed(a, value);
    assert t[0] == p[0];
    hide EvaluateUnnegated, ParseUnnegated, TrimSpace;
  }

  /** Cutting a trimmed comparison at its operator and trimming gives the two sides. */
  lemma SidesOf(p: string, op: string, value: string)
    requires p != "" && !IsSpace(p[0]) && !IsSpace(p[|p| - 1]) && |op| == 2
    ensures var t, i := p + " " + op + TrimRight(" " + value), |p| + 1;
      TrimSpace(t[..i]) == p && TrimSpace(t[i + 2..]) == TrimSpace(value)
  {
    hide TrimSpace, TrimRight;
    var t, i := p + " " + op + TrimRight(" " + value), |p| + 1;
    assert t[..i] == p + " ";
    TrimOneSpace(p);
    assert t[i + 2..] == TrimRight(" " + value);
    TrimSpaceOfTrimRight(" " + value);
    LeadingSpaceTrimmed(value);
  }

  lemma EvaluateTwoSides(p: string, value: string, vars: Vars)
    requires p != "" && forall i :: 0 <= i < |p| ==> Plain(p[i])
    requires NoBangEquals(value)
    ensures EvaluateCondition(p + " == " + value, vars) <==> SubstituteVars(p, vars) == TrimSpace(value)
  {
    hide EvaluateCondition, SubstituteVars, Index, TrimSpace, TrimRight, NoBangEquals, Parse;
    var r := TrimRight(" " + value);
    ComparisonUnnegated(p, value, vars);
    BangEqualsTrimmed(value);
    EqualsFound(p, r);
    SidesOf(p, "==", value);
    var t := p + " ==" + r;
    assert p + " " + "==" + r == t;
    UnnegatedAtEquals(t, |p| + 1, vars);
    hide EvaluateUnnegated, Plain;
  }

  lemma UnnegatedAtEquals(t: string, i: nat, vars: Vars)
    requires Index(t, "!=").None? && Index(t, "==") == Some(i)
    ensures EvaluateUnnegated(t, vars) <==> SubstituteVars(TrimSpace(t[..i]), vars) == TrimSpace(t[i + 2..])
  {
    hide SubstituteVars, TrimSpace, Index;
  }

  /** A comparison with `==` means what the help text says whenever the right side has no `!=`. */
  lemma EqualityCondition(name: string, value: string, vars: Vars)
    requires IsName(name) && NoBangEquals(value)
    ensures EvaluateCondition(Placeholder(name) + " == " + value, vars) <==> ValueOf(name, vars) == TrimSpace(value)
  {
    hide EvaluateCondition, SubstituteVars, Index, TrimSpace;
    PlaceholderIsPlain(name);
    PlaceholderValue(name, vars);
    EvaluateTwoSides(Placeholder(name), value, vars);
  }

  lemma LeadingSpaceTrimmed(s: string)
    ensures TrimSpace(" " + s) == TrimSpace(s)
  {
    assert (" " + s)[1..] == s;
  }

  lemma TrimOneSpace(s: string)
    requires s != "" && !IsSpace(s[0]) && !IsSpace(s[|s| - 1])
    ensures TrimSpace(s + " ") == s
  {
    assert TrimLeft(s + " ") == s + " ";
    assert (s + " ")[..|s|] == s;
  }

  /** Exactly those comparisons are read as equalities; any other is split at its first `!=`. */
  lemma ReadAsEqualityIff(name: string, value: string)
    requires IsName(name)
    ensures Parse(Placeholder(name) + " == " + value).Equals? <==> NoBangEquals(value)
  {
    hide Index, TrimSpace, TrimRight, NoBangEquals, EvaluateCondition, EvaluateUnnegated;
    var r := TrimRight(" " + value);
    PlaceholderIsPlain(name);
    ComparisonUnnegated(Placeholder(name), value, map[]);
    BangEqualsTrimmed(value);
    EqualsFound(Placeholder(name), r);
    hide Parse, Placeholder;
  }

  lemma UnnegatedAtBangEquals(t: string, i: nat, vars: Vars)
    requires Index(t, "!=") == Some(i)
    ensures EvaluateUnnegated(t, vars) <==> SubstituteVars(TrimSpace(t[..i]), vars) != TrimSpace(t[i + 2..])
  {
    hide SubstituteVars, TrimSpace, Index;
  }

  /** The first `!=` of a trimmed comparison lies in its right side. */
  lemma FirstBangEquals(p: string, value: string) returns (i: nat)
    requires (forall i :: 0 <= i < |p| ==> Plain(p[i])) && !NoBangEquals(value)
    ensures var t := p + " ==" + TrimRight(" " + value);
      Index(t, "!=") == Some(i) && |p| + 3 <= i <= |t| - 2 && |t[i + 2..]| <= |value|
  {
    var r := TrimRight(" " + value);
    var t := p + " ==" + r;
    BangEqualsTrimmed(value);
    EqualsFound(p, r);
    IndexIsFirst(t, "!=");
    BangEqualsAfter(p, r);
    TrimRightCuts(" " + value);
    hide TrimRight, Index, NoBangEquals, Plain;
    i := Index(t, "!=").value;
  }

  /** With `!=` in the right side the comparison is cut there. */
  lemma CutAtBangEquals(p: string, value: string) returns (left: string, right: string)
    requires p != "" && (forall i :: 0 <= i < |p| ==> Plain(p[i])) && !NoBangEquals(value)
    ensures p <= left && |right| <= |value|
    ensures forall vars :: EvaluateCondition(p + " == " + value, vars) <==> SubstituteVars(left, vars) != right
  {
    var r := TrimRight(" " + value);
    var t := p + " ==" + r;
    var i := FirstBangEquals(p, value);
    assert Plain(p[0]);
    LeftSideStarts(p, r, i);
    left, right := TrimSpace(t[..i]), TrimSpace(t[i + 2..]);
    hide *;
    forall vars: Vars
      ensures EvaluateCondition(p + " == " + value, vars) <==> SubstituteVars(left, vars) != right
    {
      ComparisonUnnegated(p, value, vars);
      UnnegatedAtBangEquals(t, i, vars);
    }
  }

  /** Then a variable longer than that side makes the condition hold, equal or not. */
  lemma LongValueHolds(name: string, value: string) returns (vars: Vars)
    requires IsName(name) && !NoBangEquals(value)
    ensures name in vars && |vars[name]| > |value|
    ensures EvaluateCondition(Placeholder(name) + " == " + value, vars)
  {
    hide EvaluateCondition, NoBangEquals, SubstituteVars;
    var p := Placeholder(name);
    PlaceholderIsPlain(name);
    var left, right := CutAtBangEquals(p, value);
    vars := map[name := seq(|value| + 1, _ => 'x')];
    hide Placeholder;
    PlaceholderFilled(name, left[|p|..], vars);
    assert left == p + left[|p|..];
  }

  lemma LeftSideStarts(p: string, r: string, i: nat)
    requires p != "" && !IsSpace(p[0]) && |p| + 3 <= i <= |p + " ==" + r|
    ensures p <= TrimSpace((p + " ==" + r)[..i])
  {
    var t, a := p + " ==" + r, p + " ==";
    var b := t[..i][|a|..];
    assert t[..i] == a + b;
    assert a[|a| - 1] == '=' && a[0] == p[0];
    TrimRightAfter(a, b);
    assert (a + TrimRight(b))[..|p|] == p;
  }

  /**
   A comparison with `==` compares the variable with its right side, whatever the variable is, iff that
   side has no `!=`.
   */
  lemma EqualityMeantIff(name: string, value: string)
    requires IsName(name)
    ensures NoBangEquals(value) <==>
            forall vars :: EvaluateCondition(Placeholder(name) + " == " + value, vars) <==>
                ValueOf(name, vars) == TrimSpace(value)
  {
    hide EvaluateCondition, TrimSpace, Placeholder;
    if NoBangEquals(value) {
      forall vars: Vars
        ensures EvaluateCondition(Placeholder(name) + " == " + value, vars) <==> ValueOf(name, vars) == TrimSpace(value)
      {
        EqualityCondition(name, value, vars);
      }
    } else {
      var vars := LongValueHolds(name, value);
      assert |TrimSpace(value)| <= |value| < |ValueOf(name, vars)|;
    }
  }

  /** With `!=` there is nothing to guard against: the variable is compared with the whole right side. */
  lemma InequalityCondition(name: string, value: string, vars: Vars)
    requires IsName(name)
    ensures EvaluateCondition(Placeholder(name) + " != " + value, vars) <==> ValueOf(name, vars) != TrimSpace(value)
  {
    var p, r := Placeholder(name), TrimRight(" " + value);
    var a := p + " " + "!=";
    PlaceholderIsPlain(name);
    assert Plain(p[0]) && Plain(p[|p| - 1]);
    assert a[0] == p[0] && a[|a| - 1] == '=';
    assert p + " != " + value == a + " " + value;
    ComparisonTrimmed(a, value);
    BangEqualsFirst(p, r);
    SidesOf(p, "!=", value);
    PlaceholderValue(name, vars);
    hide EvaluateUnnegated, SubstituteVars, TrimSpace, TrimRight, Index, Placeholder;
    assert (a + r)[0] == p[0];
    UnnegatedAtBangEquals(a + r, |p| + 1, vars);
  }

  lemma BangEqualsFirst(p: string, r: string)
    requires forall i :: 0 <= i < |p| ==> Plain(p[i])
    ensures Index(p + " " + "!=" + r, "!=") == Some(|p| + 1)
  {
    var s, n := p + " " + "!=" + r, |p|;
    assert s[n] == ' ' && s[n + 1..n + 3] == "!=";
    forall i: nat | i < n + 1
      ensures !Occurs("!=", s, i)
    {
      FirstChars(s, i);
    }
    assert Occurs("!=", s, n + 1);
    IndexIsFirst(s, "!=");
  }

  /** So `{{x}} == a!=b` does not compare x with `a!=b`. */
  lemma EqualityWithBangMisread()
    ensures exists vars :: EvaluateCondition(Placeholder("x") + " == " + "a!=b", vars) && ValueOf("x", vars) != "a!=b"
  {
    hide EvaluateCondition, Placeholder;
    assert "a!=b"[1..3] == "!=";
    assert Occurs("!=", "a!=b", 1);
    var vars := LongValueHolds("x", "a!=b");
    assert ValueOf("x", vars) != "a!=b";
  }
}
