/** Worked examples of the expression language, and the facts about literal
    text they rest on. */
module ExpressionExamples {
  import opened Php
  import opened Expression

  predicate Plain(p: string)
  {
    '{' !in p && '[' !in p
  }

  /** Text with no `{` and no `[` is one literal node. */
  lemma {:induction false} ParsePlain(p: string)
    requires p != [] && Plain(p)
    ensures Parse(p) == [Text(p)]
    decreases |p|
  {
    ParseTextCase(p);
    if |p| > 1 {
      ParsePlain(p[1..]);
      assert [p[0]] + p[1..] == p;
    } else {
      assert p[1..] == [] && Parse(p[1..]) == [];
      assert [p[0]] == p;
    }
  }

  /** Literal text in front of a placeholder or an optional segment is one node of its own. */
  lemma {:induction false} ParsePlainPrefix(p: string, t: string)
    requires p != [] && Plain(p)
    requires Parse(t) == [] || !Parse(t)[0].Text?
    ensures Parse(p + t) == [Text(p)] + Parse(t)
    decreases |p|
  {
    assert (p + t)[0] == p[0] && (p + t)[1..] == p[1..] + t;
    ParseTextCase(p + t);
    if |p| > 1 {
      ParsePlainPrefix(p[1..], t);
      assert [p[0]] + p[1..] == p;
    } else {
      assert p[1..] + t == t;
      assert [p[0]] == p;
    }
  }

  /** A one-letter placeholder at the front is one node of its own. */
  lemma ParseLetterHole(c: char, rest: string)
    requires 'a' <= c <= 'z'
    ensures Parse(['{', c, '}'] + rest) == [Hole(['{', c, '}'], false, false, [c], None)] + Parse(rest)
  {
    var s := ['{', c, '}'] + rest;
    assert s[0] == '{' && s[1] == c && s[2] == '}';
    assert SkipSpace(s, 1) == 1;
    assert !HasEmptyFlag(s) && !HasNegateFlag(s);
    assert NameStart(s) == 1;
    assert SkipWord(s, 2) == 2 && SkipWord(s, 1) == 2;
    assert SkipSpace(s, 2) == 2;
    assert s[..3] == ['{', c, '}'] && s[1..2] == [c];
    var h := Hole(['{', c, '}'], false, false, [c], None);
    assert HoleTail(s, 1, 2) == Some((h, 3));
    ParseHoleCase(s, h, 3);
    assert s[3..] == rest;
  }

  lemma ParseSimpleHole(s: string)
    requires s == "{a}"
    ensures Parse(s) == [Hole(s, false, false, "a", None)]
  {
    ParseLetterHole('a', "");
    assert s == ['{', 'a', '}'] + "";
  }

  lemma ParseNegatedHole()
    ensures Parse("{!a}post") == [Hole("{!a}", false, true, "a", None), Text("post")]
  {
    var s := "{!a}post";
    assert SkipSpace(s, 1) == 1;
    assert !HasEmptyFlag(s) && HasNegateFlag(s);
    assert NameStart(s) == 2;
    assert SkipWord(s, 3) == 3 && SkipWord(s, 2) == 3;
    assert SkipSpace(s, 3) == 3;
    assert s[..4] == "{!a}" && s[2..3] == "a";
    var h := Hole("{!a}", false, true, "a", None);
    assert HoleTail(s, 2, 3) == Some((h, 4));
    ParseHoleCase(s, h, 4);
    assert s[4..] == "post";
    ParsePlain("post");
  }

  lemma NameA()
    ensures NormKey("a") == StrKey("a")
  {
  }

  function A(v: string): PArray
  {
    [Entry(StrKey("a"), Str(v))]
  }

  /** `{a}` holds for a non-empty value and shows it. */
  lemma SimpleHoleHolds(v: string, matches: (string, string) -> bool)
    requires v != ""
    ensures Holds(Hole("{a}", false, false, "a", None), A(v), matches)
    ensures Substitute(Hole("{a}", false, false, "a", None), A(v)) == v
  {
    NamedAHolds(Hole("{a}", false, false, "a", None), v, matches);
  }

  /** Any plain placeholder named `a` holds for a non-empty value of `a` and shows it. */
  lemma NamedAHolds(h: Node, v: string, matches: (string, string) -> bool)
    requires h.Hole? && h.name == "a" && !h.negate && !h.empty && h.regex.None? && v != ""
    ensures Holds(h, A(v), matches) && Substitute(h, A(v)) == v
    ensures ToText(ParamValue(A(v), h.name)) == v
  {
    NameA();
    assert ParamValue(A(v), "a") == Str(v);
  }

  /** `{a}` fails when `a` is missing. */
  lemma SimpleHoleMissing(matches: (string, string) -> bool)
    ensures !Holds(Hole("{a}", false, false, "a", None), [], matches)
  {
    NameA();
    assert ParamValue([], "a") == Str("");
  }

  lemma EvalSimpleNodes(matches: (string, string) -> bool)
    ensures EvalNodes([Hole("{a}", false, false, "a", None)], A("x"), matches) == "x"
    ensures EvalNodes([Hole("{a}", false, false, "a", None)], [], matches) == ""
  {
    EvalSimpleShown(matches);
    EvalSimpleMissing(matches);
  }

  lemma EvalSimpleShown(matches: (string, string) -> bool)
    ensures EvalNodes([Hole("{a}", false, false, "a", None)], A("x"), matches) == "x"
  {
    var h := Hole("{a}", false, false, "a", None);
    SimpleHoleHolds("x", matches);
    NameA();
    assert ParamValue(A("x"), "a") == Str("x");
    EvalOneHole(h, A("x"), matches);
    TrimTrimmed("x");
  }

  lemma EvalSimpleMissing(matches: (string, string) -> bool)
    ensures EvalNodes([Hole("{a}", false, false, "a", None)], [], matches) == ""
  {
    SimpleHoleMissing(matches);
    VetoedBy([Hole("{a}", false, false, "a", None)], 0, [], matches);
  }

  /** `{a}` shows `a`, and nothing when `a` is missing. */
  lemma EvaluateSimpleHole(matches: (string, string) -> bool)
    ensures Evaluate("{a}", A("x"), matches) == "x"
    ensures Evaluate("{a}", [], matches) == ""
  {
    SimpleShown("{a}", matches);
    SimpleMissing("{a}", matches);
  }

  lemma SimpleShown(s: string, matches: (string, string) -> bool)
    requires s == "{a}"
    ensures Evaluate(s, A("x"), matches) == "x"
  {
    var h := Hole(s, false, false, "a", None);
    ParseSimpleHole(s);
    assert s[0] == '{';
    NamedAHolds(h, "x", matches);
    EvaluateOneHole(s, h, A("x"), matches);
    TrimTrimmed("x");
  }

  lemma SimpleMissing(s: string, matches: (string, string) -> bool)
    requires s == "{a}"
    ensures Evaluate(s, [], matches) == ""
  {
    var h := Hole("{a}", false, false, "a", None);
    ParseSimpleHole(s);
    assert s[0] == '{';
    SimpleHoleMissing(matches);
    VetoedBy([h], 0, [], matches);
    EvaluateVetoed(s, [], matches);
  }

  lemma NegatedMissingHolds(matches: (string, string) -> bool)
    ensures Holds(Hole("{!a}", false, true, "a", None), [], matches)
    ensures Substitute(Hole("{!a}", false, true, "a", None), []) == ""
  {
    NameA();
    assert ParamValue([], "a") == Str("");
  }

  lemma EvalNegatedNodes(nodes: seq<Node>, matches: (string, string) -> bool)
    requires nodes == [Text("pre"), Hole("{!a}", false, true, "a", None), Text("post")]
    ensures EvalNodes(nodes, [], matches) == "prepost"
  {
    NegatedMissingHolds(matches);
    NotVetoed(nodes, [], matches);
    assert Render(nodes[2..], [], matches) == "post" + "" by {
      assert nodes[2..][1..] == [];
    }
    assert Render(nodes[1..], [], matches) == "" + "post" by {
      assert nodes[1..][1..] == nodes[2..];
    }
    assert Render(nodes, [], matches) == "pre" + "post";
    assert "pre" + "post" == "prepost";
    TrimTrimmed("prepost");
  }

  lemma PrePostText()
    ensures "pre" + "{!a}post" == "pre{!a}post"
  {
  }

  lemma PrePostSplit()
    ensures Parse("pre{!a}post") == [Text("pre")] + Parse("{!a}post")
  {
    PrePostText();
    assert !Parse("{!a}post")[0].Text? by {
      ParseNegatedHole();
    }
    assert Plain("pre") by {
      assert forall c :: c in "pre" ==> c == 'p' || c == 'r' || c == 'e';
    }
    ParsePlainPrefix("pre", "{!a}post");
  }

  lemma ParsePrePost()
    ensures Parse("pre{!a}post") == [Text("pre"), Hole("{!a}", false, true, "a", None), Text("post")]
  {
    PrePostSplit();
    ParseNegatedHole();
  }

  /** A negated placeholder whose parameter is missing holds, shows nothing,
      and the text around it stays. */
  lemma EvaluateNegatedMissing(s: string, matches: (string, string) -> bool)
    requires s == "pre{!a}post"
    ensures Evaluate(s, [], matches) == "prepost"
  {
    var nodes := [Text("pre"), Hole("{!a}", false, true, "a", None), Text("post")];
    ParsePrePost();
    assert s[3] == '{';
    EvaluateTreeParsed(s, nodes, [], matches);
    EvalNegatedNodes(nodes, matches);
    NegatedIsolated(matches);
    EvaluateAgrees(s, [], matches);
  }

  lemma NegatedIsolated(matches: (string, string) -> bool)
    ensures Isolated([Text("pre"), Hole("{!a}", false, true, "a", None), Text("post")], [])
  {
    NegatedMissingHolds(matches);
    BraceFree("pre");
    BraceFree("post");
    assert Enclosed("{!a}");
  }

  /** Literal text of lower-case letters carries neither `{` nor `%`. */
  lemma BraceFree(t: string)
    requires forall i :: 0 <= i < |t| ==> 'a' <= t[i] <= 'z'
    ensures '{' !in t && '%' !in t
  {
  }

  lemma RegexHoleFails(matches: (string, string) -> bool)
    requires !matches("[0-9]+", "x")
    ensures !Holds(Hole("{a:[0-9]+}", false, false, "a", Some("[0-9]+")), A("x"), matches)
  {
    NameA();
    assert ParamValue(A("x"), "a") == Str("x");
  }

  /** A value that does not match the regex vetoes the expression. */
  lemma EvaluateRegexMismatch(matches: (string, string) -> bool)
    requires !matches("[0-9]+", "x")
    ensures Evaluate("{a:[0-9]+}", A("x"), matches) == ""
  {
    var h := Hole("{a:[0-9]+}", false, false, "a", Some("[0-9]+"));
    BracketInRegexParsed("{a:[0-9]+}");
    RegexHoleFails(matches);
    VetoedBy([h], 0, A("x"), matches);
    assert '{' in "{a:[0-9]+}" by {
      assert "{a:[0-9]+}"[0] == '{';
    }
    EvaluateVetoed("{a:[0-9]+}", A("x"), matches);
  }

  lemma ParseOptionalTail()
    ensures Parse("[{a}]y") == [Opt([Hole("{a}", false, false, "a", None)]), Text("y")]
  {
    var t := "[{a}]y";
    assert Closing(t, 1, 0, '[', ']') == Some(4);
    ParseOptCase(t, 4);
    assert t[1..4] == "{a}" && t[5..] == "y";
    ParseSimpleHole(t[1..4]);
    ParsePlain("y");
  }

  lemma OptionalText()
    ensures "x" + "[{a}]y" == "x[{a}]y"
  {
  }

  lemma OptionalSplit()
    ensures Parse("x[{a}]y") == [Text("x")] + Parse("[{a}]y")
  {
    OptionalText();
    ParseOptionalTail();
    ParsePlainPrefix("x", "[{a}]y");
  }

  lemma ParseOptionalHole()
    ensures Parse("x[{a}]y") == [Text("x"), Opt([Hole("{a}", false, false, "a", None)]), Text("y")]
  {
    OptionalSplit();
    ParseOptionalTail();
  }

  lemma OptionalBody(matches: (string, string) -> bool)
    ensures EvalOptional([Hole("{a}", false, false, "a", None)], A("1"), matches) == "1"
    ensures EvalOptional([Hole("{a}", false, false, "a", None)], [], matches) == ""
  {
    var h := Hole("{a}", false, false, "a", None);
    assert Unparse([h]) == "{a}";
    assert '{' in Unparse([h]) by {
      assert Unparse([h])[0] == '{';
    }
    assert EvalNodes([h], A("1"), matches) == "1" by {
      SimpleHoleHolds("1", matches);
      EvalOneHole(h, A("1"), matches);
      NameA();
      assert ParamValue(A("1"), "a") == Str("1");
      TrimDigits("1");
    }
    assert EvalNodes([h], [], matches) == "" by {
      EvalSimpleNodes(matches);
    }
  }

  lemma RenderOptionalPresent(matches: (string, string) -> bool)
    ensures Render([Text("x"), Opt([Hole("{a}", false, false, "a", None)]), Text("y")], A("1"), matches) == "x1y"
  {
    var nodes := [Text("x"), Opt([Hole("{a}", false, false, "a", None)]), Text("y")];
    OptionalBody(matches);
    RenderThree(nodes[0], nodes[1], nodes[2], A("1"), matches);
    assert RenderNode(nodes[1], A("1"), matches) == "1";
    assert "x" + "1" + "y" == "x1y";
  }

  lemma EvalOptionalNodesPresent(matches: (string, string) -> bool)
    ensures EvalNodes([Text("x"), Opt([Hole("{a}", false, false, "a", None)]), Text("y")], A("1"), matches) == "x1y"
  {
    var nodes := [Text("x"), Opt([Hole("{a}", false, false, "a", None)]), Text("y")];
    NotVetoed(nodes, A("1"), matches);
    RenderOptionalPresent(matches);
    TrimTrimmed("x1y");
  }

  lemma RenderOptionalMissing(matches: (string, string) -> bool)
    ensures Render([Text("x"), Opt([Hole("{a}", false, false, "a", None)]), Text("y")], [], matches) == "xy"
  {
    var nodes := [Text("x"), Opt([Hole("{a}", false, false, "a", None)]), Text("y")];
    OptionalBody(matches);
    RenderThree(nodes[0], nodes[1], nodes[2], [], matches);
    assert RenderNode(nodes[1], [], matches) == "";
    assert "x" + "" + "y" == "xy";
  }

  lemma EvalOptionalNodesMissing(matches: (string, string) -> bool)
    ensures EvalNodes([Text("x"), Opt([Hole("{a}", false, false, "a", None)]), Text("y")], [], matches) == "xy"
  {
    var nodes := [Text("x"), Opt([Hole("{a}", false, false, "a", None)]), Text("y")];
    NotVetoed(nodes, [], matches);
    RenderOptionalMissing(matches);
    TrimTrimmed("xy");
  }

  /** An optional segment whose placeholder fails drops out alone. */
  lemma EvaluateOptional(matches: (string, string) -> bool)
    ensures Evaluate("x[{a}]y", A("1"), matches) == "x1y"
    ensures Evaluate("x[{a}]y", [], matches) == "xy"
  {
    var nodes := [Text("x"), Opt([Hole("{a}", false, false, "a", None)]), Text("y")];
    ParseOptionalHole();
    assert '{' in "x[{a}]y" by {
      assert "x[{a}]y"[2] == '{';
    }
    EvaluateTreeParsed("x[{a}]y", nodes, A("1"), matches);
    EvaluateTreeParsed("x[{a}]y", nodes, [], matches);
    EvalOptionalNodesPresent(matches);
    EvalOptionalNodesMissing(matches);
    OptionalIsolated("1");
    OptionalIsolated("");
    EvaluateAgrees("x[{a}]y", A("1"), matches);
    EvaluateAgrees("x[{a}]y", [], matches);
  }

  lemma OptionalIsolated(v: string)
    requires v == "1" || v == ""
    ensures Isolated([Text("x"), Opt([Hole("{a}", false, false, "a", None)]), Text("y")], if v == "" then [] else A(v))
  {
    var h := Hole("{a}", false, false, "a", None);
    var params := if v == "" then [] else A(v);
    NameA();
    assert Substitute(h, params) == v;
    assert Isolated([h], params);
  }

  // ---------------------------------------------------------------------------
  // Replaced text is searched again

  function AB(): PArray
  {
    [Entry(StrKey("a"), Str("{b}")), Entry(StrKey("b"), Str("x"))]
  }

  lemma ParseSpaceHole()
    ensures Parse(" {b}") == [Text(" "), Hole("{b}", false, false, "b", None)]
  {
    ParseLetterHole('b', "");
    assert "{b}" == ['{', 'b', '}'] + "";
    assert " {b}" == " " + "{b}";
    assert Plain(" ");
    ParsePlainPrefix(" ", "{b}");
  }

  lemma ParseTwoHoles(s: string)
    requires s == "{a} {b}"
    ensures Parse(s) == [Hole("{a}", false, false, "a", None), Text(" "), Hole("{b}", false, false, "b", None)]
  {
    var rest := s[3..];
    assert s == ['{', 'a', '}'] + rest;
    ParseLetterHole('a', rest);
    assert rest == " {b}";
    ParseSpaceHole();
  }

  /** Two placeholders apart: `str_replace` on `p q` touches each as a whole. */
  lemma ReplacePair(p: string, q: string, r: string, v: string)
    requires Enclosed(p) && Enclosed(q) && Enclosed(r)
    ensures StrReplace(p + " " + q, r, v) == (if p == r then v else p) + " " + (if q == r then v else q)
  {
    assert p + " " + q == p + (" " + q);
    ReplaceEnclosed(p, " " + q, r, v);
    ReplaceBraceFree(" ", q, r, v);
    assert q == q + "";
    ReplaceEnclosed(q, "", r, v);
  }

  /** The values of the two placeholders. */
  lemma ABValues(matches: (string, string) -> bool)
    ensures Holds(Hole("{a}", false, false, "a", None), AB(), matches)
    ensures Holds(Hole("{b}", false, false, "b", None), AB(), matches)
    ensures Substitute(Hole("{a}", false, false, "a", None), AB()) == "{b}"
    ensures Substitute(Hole("{b}", false, false, "b", None), AB()) == "x"
  {
    NameA();
    assert NormKey("b") == StrKey("b");
    assert ParamValue(AB(), "a") == Str("{b}");
    assert ParamValue(AB(), "b") == Str("x");
  }

  /** With `a` = `{b}` and `b` = `x`, the expression `{a} {b}` shows `x x`:
      the text put in for `{a}` is itself replaced when `{b}` is, so the
      result differs from reading each placeholder on its own (`{b} x`). */
  lemma Resubstituted(s: string, matches: (string, string) -> bool)
    requires s == "{a} {b}"
    ensures Evaluate(s, AB(), matches) == "x x"
    ensures EvaluateTree(s, AB(), matches) == "{b} x"
  {
    TwoHolesSequential(s, matches);
    TwoHolesTree(s, matches);
  }

  lemma TwoHolesSequential(s: string, matches: (string, string) -> bool)
    requires s == "{a} {b}"
    ensures Evaluate(s, AB(), matches) == "x x"
  {
    ParseTwoHoles(s);
    assert s[0] == '{';
    ABValues(matches);
    ABEnclosed();
    ChainedTwoHoles(s, Hole("{a}", false, false, "a", None), Hole("{b}", false, false, "b", None), "x", AB(), matches);
    SpacedTexts();
  }

  lemma ChainedTwoHoles(s: string, ha: Node, hb: Node, v: string, params: PArray, matches: (string, string) -> bool)
    requires '{' in s && Parse(s) == [ha, Text(" "), hb]
    requires ha.Hole? && hb.Hole? && Enclosed(ha.raw) && Enclosed(hb.raw) && ha.raw != hb.raw
    requires Holds(ha, params, matches) && Holds(hb, params, matches)
    requires Substitute(ha, params) == hb.raw && Substitute(hb, params) == v
    requires v != [] && !IsTrimChar(v[0]) && !IsTrimChar(v[|v| - 1])
    ensures Evaluate(s, params, matches) == v + " " + v
  {
    ChainedEvaluate(s, ha, hb, v, params, matches);
    TrimSpaced(v, v);
  }

  lemma ABEnclosed()
    ensures Enclosed("{a}") && Enclosed("{b}") && "{a}" != "{b}"
  {
    assert "{a}"[1] != "{b}"[1];
  }

  /** `p q` where `p`'s value is the text of `q`: both end up as `q`'s value. */
  lemma ChainedLevel(p: Node, q: Node, v: string, params: PArray, matches: (string, string) -> bool)
    requires p.Hole? && q.Hole? && Enclosed(p.raw) && Enclosed(q.raw) && p.raw != q.raw
    requires Holds(p, params, matches) && Holds(q, params, matches)
    requires Substitute(p, params) == q.raw && Substitute(q, params) == v
    ensures EvalLevel([p, Text(" "), q], params, matches) == Trim(v + " " + v)
  {
    ThreeShape(p, q, params, matches);
    ReplacePair(p.raw, q.raw, p.raw, q.raw);
    ReplacePair(q.raw, q.raw, q.raw, v);
    assert [p, q][1..] == [q];
    var once := StrReplace(p.raw + " " + q.raw, p.raw, q.raw);
    assert once == q.raw + " " + q.raw;
    assert ReplaceHoles(p.raw + " " + q.raw, [p, q], params, matches) == ReplaceHoles(once, [q], params, matches);
    assert ReplaceHoles(once, [q], params, matches) == ReplaceHoles(v + " " + v, [], params, matches);
  }

  lemma ChainedEvaluate(s: string, p: Node, q: Node, v: string, params: PArray, matches: (string, string) -> bool)
    requires '{' in s && Parse(s) == [p, Text(" "), q]
    requires p.Hole? && q.Hole? && Enclosed(p.raw) && Enclosed(q.raw) && p.raw != q.raw
    requires Holds(p, params, matches) && Holds(q, params, matches)
    requires Substitute(p, params) == q.raw && Substitute(q, params) == v
    ensures Evaluate(s, params, matches) == Trim(v + " " + v)
  {
    EvaluateParsed(s, Parse(s), params, matches);
    ChainedLevel(p, q, v, params, matches);
  }

  lemma ThreeShape(p: Node, q: Node, params: PArray, matches: (string, string) -> bool)
    requires p.Hole? && q.Hole?
    ensures Partial([p, Text(" "), q], {}, 0, params) == p.raw + " " + q.raw
    ensures Holes([p, Text(" "), q]) == [p, q]
    ensures OptValues([p, Text(" "), q], params, matches) == []
  {
    var nodes := [p, Text(" "), q];
    assert nodes[1..] == [Text(" "), q] && nodes[1..][1..] == [q] && [q][1..] == [];
    assert Partial([q], {}, 0, params) == q.raw + "" == q.raw;
    assert Partial(nodes[1..], {}, 0, params) == " " + q.raw;
    assert Partial(nodes, {}, 0, params) == p.raw + (" " + q.raw);
    assert Holes([q]) == [q] + [];
    assert Holes(nodes[1..]) == [] + [q];
    assert Holes(nodes) == [p] + [q];
    assert OptValues([q], params, matches) == [] + [];
    assert OptValues(nodes[1..], params, matches) == [] + [];
    assert OptValues(nodes, params, matches) == [] + [];
    assert p.raw + (" " + q.raw) == p.raw + " " + q.raw;
  }

  lemma TwoHolesTree(s: string, matches: (string, string) -> bool)
    requires s == "{a} {b}"
    ensures EvaluateTree(s, AB(), matches) == "{b} x"
  {
    ParseTwoHoles(s);
    assert s[0] == '{';
    ABValues(matches);
    SeparateTwoHoles(s, Hole("{a}", false, false, "a", None), Hole("{b}", false, false, "b", None), "{b}", "x", AB(), matches);
    SpacedTexts();
  }

  lemma SpacedTexts()
    ensures "{b}" + " " + "x" == "{b} x" && "x" + " " + "x" == "x x"
  {
  }

  lemma SeparateTwoHoles(s: string, ha: Node, hb: Node, w: string, v: string, params: PArray, matches: (string, string) -> bool)
    requires '{' in s && Parse(s) == [ha, Text(" "), hb] && ha.Hole? && hb.Hole?
    requires Holds(ha, params, matches) && Holds(hb, params, matches)
    requires Substitute(ha, params) == w && Substitute(hb, params) == v
    requires w != [] && v != [] && !IsTrimChar(w[0]) && !IsTrimChar(v[|v| - 1])
    ensures EvaluateTree(s, params, matches) == w + " " + v
  {
    EvaluateTreeParsed(s, Parse(s), params, matches);
    TwoHolesNodes(Parse(s), ha, hb, w, v, params, matches);
    TrimSpaced(w, v);
  }

  /** Two words joined by a space need no trimming. */
  lemma TrimSpaced(w: string, v: string)
    requires w != [] && v != [] && !IsTrimChar(w[0]) && !IsTrimChar(v[|v| - 1])
    ensures Trim(w + " " + v) == w + " " + v
  {
    var t := w + " " + v;
    assert t[0] == w[0] && t[|t| - 1] == v[|v| - 1];
    TrimTrimmed(t);
  }

  /** Read node by node, `p q` shows each placeholder's own value. */
  lemma TwoHolesNodes(nodes: seq<Node>, p: Node, q: Node, w: string, v: string, params: PArray, matches: (string, string) -> bool)
    requires nodes == [p, Text(" "), q] && p.Hole? && q.Hole?
    requires Holds(p, params, matches) && Holds(q, params, matches)
    requires Substitute(p, params) == w && Substitute(q, params) == v
    ensures EvalNodes(nodes, params, matches) == Trim(w + " " + v)
  {
    NotVetoed(nodes, params, matches);
    RenderThree(p, Text(" "), q, params, matches);
  }
}
