/** The attribute expression language of `Element`: literal text, nestable
    optional segments `[...]` and placeholders `{@!name:regex}`.

    An expression is parsed into a tree by recursive descent and evaluated
    against a parameter array. A placeholder's `:regex` test is whatever the
    `matches(regex, value)` parameter says: it stands for "the whole value
    matches ^(regex)$" as PCRE decides it. */
module Expression {
  import opened Php

  /** A parsed expression is a sequence of these. A placeholder keeps the exact
      text it was written as, so that the tree prints back to its source. */
  datatype Node =
    | Text(s: string)
    | Opt(body: seq<Node>)
    | Hole(raw: string, empty: bool, negate: bool, name: string, regex: Option<string>)

  // ---------------------------------------------------------------------------
  // Lexical classes of the placeholder grammar (PCRE `\s` and `\w`)

  predicate IsSpace(c: char)
  {
    c == ' ' || c == '\t' || c == '\n' || c == '\U{B}' || c == '\U{C}' || c == '\r'
  }

  predicate IsWordChar(c: char)
  {
    'a' <= c <= 'z' || 'A' <= c <= 'Z' || '0' <= c <= '9' || c == '_'
  }

  function SkipSpace(s: string, i: nat): (j: nat)
    requires i <= |s|
    ensures i <= j <= |s|
    decreases |s| - i
  {
    if i < |s| && IsSpace(s[i]) then SkipSpace(s, i + 1) else i
  }

  function SkipWord(s: string, i: nat): (j: nat)
    requires i <= |s|
    ensures i <= j <= |s|
    ensures forall k :: i <= k < j ==> IsWordChar(s[k])
    decreases |s| - i
  {
    if i < |s| && IsWordChar(s[i]) then SkipWord(s, i + 1) else i
  }

  /** The position of the `close` that balances an `open` already read:
      the first `close` met at nesting depth zero, pairs in between balanced.
      It finds the `}` that ends a placeholder's regex and the `]` that ends
      an optional segment. */
  function Closing(s: string, i: nat, depth: nat, open: char, close: char): (r: Option<nat>)
    requires i <= |s|
    ensures r.Some? ==> i <= r.value < |s| && s[r.value] == close
    decreases |s| - i
  {
    if i == |s| then None
    else if s[i] == open then Closing(s, i + 1, depth + 1, open, close)
    else if s[i] == close then (if depth == 0 then Some(i) else Closing(s, i + 1, depth - 1, open, close))
    else Closing(s, i + 1, depth, open, close)
  }

  /** Where a placeholder's name starts: after `{`, spaces, and the optional
      `@` (empty allowed) and `!` (negated) flags. */
  function NameStart(s: string): (i: nat)
    requires s != []
    ensures 1 <= i <= |s|
  {
    var i1 := SkipSpace(s, 1);
    var i2 := if HasEmptyFlag(s) then i1 + 1 else i1;
    if i2 < |s| && s[i2] == '!' then i2 + 1 else i2
  }

  predicate HasEmptyFlag(s: string)
    requires s != []
  {
    SkipSpace(s, 1) < |s| && s[SkipSpace(s, 1)] == '@'
  }

  predicate HasNegateFlag(s: string)
    requires s != []
  {
    var i1 := SkipSpace(s, 1);
    var i2 := if HasEmptyFlag(s) then i1 + 1 else i1;
    i2 < |s| && s[i2] == '!'
  }

  /** The rest of a placeholder once its name `s[i3..i4]` is read: spaces,
      then `}` or `:` spaces regex `}`. */
  function HoleTail(s: string, i3: nat, i4: nat): (r: Option<(Node, nat)>)
    requires s != [] && i3 < i4 <= |s|
    requires forall k :: i3 <= k < i4 ==> IsWordChar(s[k])
    ensures r.Some? ==> 0 < r.value.1 <= |s| && r.value.0.Hole? && r.value.0.raw == s[..r.value.1]
    ensures r.Some? ==> r.value.0.name != [] && forall c :: c in r.value.0.name ==> IsWordChar(c)
  {
    var name := s[i3..i4];
    assert forall c :: c in name ==> IsWordChar(c) by {
      forall c | c in name ensures IsWordChar(c) {
        var k :| 0 <= k < |name| && name[k] == c;
        assert s[i3 + k] == c;
      }
    }
    var i5 := SkipSpace(s, i4);
    if i5 < |s| && s[i5] == '}' then
      Some((Hole(s[..i5 + 1], HasEmptyFlag(s), HasNegateFlag(s), name, None), i5 + 1))
    else if i5 < |s| && s[i5] == ':' then
      var i6 := SkipSpace(s, i5 + 1);
      match Closing(s, i6, 0, '{', '}')
      case Some(j) => Some((Hole(s[..j + 1], HasEmptyFlag(s), HasNegateFlag(s), name, Some(s[i6..j])), j + 1))
      case None => None
    else None
  }

  /** A placeholder at the start of `s`, and how many characters it spans:
      `{`, spaces, `@`?, `!`?, a word, spaces, then `}` or `:` spaces regex `}`. */
  function ParseHole(s: string): (r: Option<(Node, nat)>)
    requires s != [] && s[0] == '{'
    ensures r.Some? ==> 0 < r.value.1 <= |s| && r.value.0.Hole? && r.value.0.raw == s[..r.value.1]
    ensures r.Some? ==> r.value.0.name != [] && forall c :: c in r.value.0.name ==> IsWordChar(c)
  {
    var i3 := NameStart(s);
    var i4 := SkipWord(s, i3);
    if i4 == i3 then None else HoleTail(s, i3, i4)
  }

  /** Literal characters gather into one text node. */
  function AddText(c: char, rest: seq<Node>): seq<Node>
  {
    if rest != [] && rest[0].Text? then [Text([c] + rest[0].s)] + rest[1..]
    else [Text([c])] + rest
  }

  /** Recursive-descent parser. A `{` that does not start a well-formed
      placeholder, and a `[` without a balancing `]`, are literal text. */
  function Parse(s: string): seq<Node>
    decreases |s|
  {
    if s == [] then []
    else if s[0] == '{' && ParseHole(s).Some? then
      var (h, n) := ParseHole(s).value;
      [h] + Parse(s[n..])
    else if s[0] == '[' && Closing(s, 1, 0, '[', ']').Some? then
      var j := Closing(s, 1, 0, '[', ']').value;
      [Opt(Parse(s[1..j]))] + Parse(s[j + 1..])
    else AddText(s[0], Parse(s[1..]))
  }

  function UnparseNode(n: Node): string
    decreases n
  {
    match n
    case Text(t) => t
    case Opt(b) => "[" + Unparse(b) + "]"
    case Hole(raw, _, _, _, _) => raw
  }

  /** The source text a tree stands for. */
  function Unparse(nodes: seq<Node>): string
    decreases nodes
  {
    if nodes == [] then "" else UnparseNode(nodes[0]) + Unparse(nodes[1..])
  }

  lemma {:induction false} AddTextUnparse(c: char, rest: seq<Node>)
    ensures Unparse(AddText(c, rest)) == [c] + Unparse(rest)
  {
    if rest != [] && rest[0].Text? {
      assert ([Text([c] + rest[0].s)] + rest[1..])[1..] == rest[1..];
    } else {
      assert ([Text([c])] + rest)[1..] == rest;
    }
  }

  lemma UnparseCons(n: Node, rest: seq<Node>)
    ensures Unparse([n] + rest) == UnparseNode(n) + Unparse(rest)
  {
    assert ([n] + rest)[1..] == rest;
  }

  lemma ParseHoleCase(s: string, h: Node, n: nat)
    requires s != [] && s[0] == '{' && ParseHole(s) == Some((h, n))
    ensures Parse(s) == [h] + Parse(s[n..])
  {
  }

  lemma HoleConsUnparse(s: string, h: Node, n: nat, rest: seq<Node>)
    requires 0 < n <= |s| && h.Hole? && h.raw == s[..n] && Unparse(rest) == s[n..]
    ensures Unparse([h] + rest) == s
  {
    UnparseCons(h, rest);
    assert s == s[..n] + s[n..];
  }

  lemma HoleRoundTrip(s: string, h: Node, n: nat)
    requires s != [] && s[0] == '{' && ParseHole(s) == Some((h, n))
    requires Unparse(Parse(s[n..])) == s[n..]
    ensures Unparse(Parse(s)) == s
  {
    ParseHoleCase(s, h, n);
    HoleConsUnparse(s, h, n, Parse(s[n..]));
  }

  lemma ParseOptCase(s: string, j: nat)
    requires s != [] && s[0] == '[' && Closing(s, 1, 0, '[', ']') == Some(j)
    ensures Parse(s) == [Opt(Parse(s[1..j]))] + Parse(s[j + 1..])
  {
  }

  lemma UnparseOptCons(body: seq<Node>, rest: seq<Node>)
    ensures Unparse([Opt(body)] + rest) == "[" + Unparse(body) + "]" + Unparse(rest)
  {
    UnparseCons(Opt(body), rest);
  }

  lemma SplitBracketed(s: string, j: nat)
    requires s != [] && s[0] == '[' && 0 < j < |s| && s[j] == ']'
    ensures s == "[" + s[1..j] + "]" + s[j + 1..]
  {
  }

  lemma OptRoundTrip(s: string, j: nat)
    requires s != [] && s[0] == '[' && Closing(s, 1, 0, '[', ']') == Some(j)
    requires Unparse(Parse(s[1..j])) == s[1..j]
    requires Unparse(Parse(s[j + 1..])) == s[j + 1..]
    ensures Unparse(Parse(s)) == s
  {
    ParseOptCase(s, j);
    UnparseOptCons(Parse(s[1..j]), Parse(s[j + 1..]));
    SplitBracketed(s, j);
  }

  /** Printing a parsed expression gives back its source text. */
  lemma {:induction false} ParseRoundTrip(s: string)
    ensures Unparse(Parse(s)) == s
    decreases |s|
  {
    if s == [] {
    } else if s[0] == '{' && ParseHole(s).Some? {
      var (h, n) := ParseHole(s).value;
      ParseRoundTrip(s[n..]);
      HoleRoundTrip(s, h, n);
    } else if s[0] == '[' && Closing(s, 1, 0, '[', ']').Some? {
      var j := Closing(s, 1, 0, '[', ']').value;
      ParseRoundTrip(s[1..j]);
      ParseRoundTrip(s[j + 1..]);
      OptRoundTrip(s, j);
    } else {
      ParseRoundTrip(s[1..]);
      AddTextUnparse(s[0], Parse(s[1..]));
    }
  }

  /** An optional segment's inner text is strictly shorter than the whole text. */
  lemma {:induction false} UnparseOptLength(nodes: seq<Node>, i: int)
    requires 0 <= i < |nodes| && nodes[i].Opt?
    ensures |Unparse(nodes[i].body)| < |Unparse(nodes)|
  {
    if i > 0 {
      UnparseOptLength(nodes[1..], i - 1);
    }
  }

  lemma ParseTextCase(s: string)
    requires s != []
    requires !(s[0] == '{' && ParseHole(s).Some?) && !(s[0] == '[' && Closing(s, 1, 0, '[', ']').Some?)
    ensures Parse(s) == AddText(s[0], Parse(s[1..]))
  {
  }

  /** A sequence of nodes whose optional segments each parse back from their own text. */
  ghost predicate Reparses(nodes: seq<Node>)
  {
    forall k :: 0 <= k < |nodes| && nodes[k].Opt? ==> Parse(Unparse(nodes[k].body)) == nodes[k].body
  }

  lemma ReparsesCons(n: Node, rest: seq<Node>)
    requires !n.Opt? || Parse(Unparse(n.body)) == n.body
    requires Reparses(rest)
    ensures Reparses([n] + rest)
  {
    forall k | 0 <= k < |[n] + rest| && ([n] + rest)[k].Opt?
      ensures Parse(Unparse(([n] + rest)[k].body)) == ([n] + rest)[k].body
    {
      if k > 0 {
        assert ([n] + rest)[k] == rest[k - 1];
      }
    }
  }

  lemma ReparsesAddText(c: char, rest: seq<Node>)
    requires Reparses(rest)
    ensures Reparses(AddText(c, rest))
  {
    if rest != [] && rest[0].Text? {
      assert Reparses(rest[1..]) by {
        forall k | 0 <= k < |rest[1..]| && rest[1..][k].Opt?
          ensures Parse(Unparse(rest[1..][k].body)) == rest[1..][k].body
        {
          assert rest[1..][k] == rest[k + 1];
        }
      }
      ReparsesCons(Text([c] + rest[0].s), rest[1..]);
    } else {
      ReparsesCons(Text([c]), rest);
    }
  }

  /** Every optional segment of a parsed expression is itself what parsing its
      own text gives, so evaluating it again from its text (as the source's
      recursion does) sees the same tree. */
  lemma {:induction false} ParsedReparses(s: string)
    ensures Reparses(Parse(s))
    decreases |s|
  {
    if s == [] {
    } else if s[0] == '{' && ParseHole(s).Some? {
      var (h, n) := ParseHole(s).value;
      ParseHoleCase(s, h, n);
      ParsedReparses(s[n..]);
      ReparsesCons(h, Parse(s[n..]));
    } else if s[0] == '[' && Closing(s, 1, 0, '[', ']').Some? {
      var j := Closing(s, 1, 0, '[', ']').value;
      ParseOptCase(s, j);
      ParseRoundTrip(s[1..j]);
      ParsedReparses(s[j + 1..]);
      ReparsesCons(Opt(Parse(s[1..j])), Parse(s[j + 1..]));
    } else {
      ParseTextCase(s);
      ParsedReparses(s[1..]);
      ReparsesAddText(s[0], Parse(s[1..]));
    }
  }

  // ---------------------------------------------------------------------------
  // A placeholder is determined by its text

  /** The scanners look no further than where they stop, so on a prefix that
      contains the stopping point they stop at the same place. */
  lemma {:induction false} SkipSpacePrefix(s: string, t: string, i: nat)
    requires |t| <= |s| && t == s[..|t|] && i <= |t| && SkipSpace(s, i) < |t|
    ensures SkipSpace(t, i) == SkipSpace(s, i)
    decreases |t| - i
  {
    if IsSpace(s[i]) {
      SkipSpacePrefix(s, t, i + 1);
    }
  }

  lemma {:induction false} SkipWordPrefix(s: string, t: string, i: nat)
    requires |t| <= |s| && t == s[..|t|] && i <= |t| && SkipWord(s, i) < |t|
    ensures SkipWord(t, i) == SkipWord(s, i)
    decreases |t| - i
  {
    if IsWordChar(s[i]) {
      SkipWordPrefix(s, t, i + 1);
    }
  }

  lemma {:induction false} ClosingPrefix(s: string, t: string, i: nat, depth: nat, open: char, close: char)
    requires |t| <= |s| && t == s[..|t|] && i <= |t|
    requires Closing(s, i, depth, open, close).Some? && Closing(s, i, depth, open, close).value < |t|
    ensures Closing(t, i, depth, open, close) == Closing(s, i, depth, open, close)
    decreases |t| - i
  {
    if s[i] == open {
      ClosingPrefix(s, t, i + 1, depth + 1, open, close);
    } else if s[i] == close {
      if depth > 0 {
        ClosingPrefix(s, t, i + 1, depth - 1, open, close);
      }
    } else {
      ClosingPrefix(s, t, i + 1, depth, open, close);
    }
  }

  /** The flags and the name's start are read the same from a prefix that
      reaches past the name. */
  lemma NameStartPrefix(s: string, t: string)
    requires s != [] && |t| <= |s| && t == s[..|t|] && NameStart(s) < |t|
    ensures t != [] && NameStart(t) == NameStart(s)
    ensures HasEmptyFlag(t) == HasEmptyFlag(s) && HasNegateFlag(t) == HasNegateFlag(s)
  {
    SkipSpacePrefix(s, t, 1);
  }

  /** The end of a placeholder read from `s`: after the name, spaces, then `}`
      or `:` spaces regex `}`. */
  lemma HoleEnd(s: string, i3: nat, i4: nat)
    requires s != [] && i3 < i4 <= |s|
    requires forall k :: i3 <= k < i4 ==> IsWordChar(s[k])
    requires HoleTail(s, i3, i4).Some?
    ensures SkipSpace(s, i4) < HoleTail(s, i3, i4).value.1
  {
    var i5 := SkipSpace(s, i4);
    if !(i5 < |s| && s[i5] == '}') {
      var i6 := SkipSpace(s, i5 + 1);
      assert Closing(s, i6, 0, '{', '}').Some?;
    }
  }

  lemma HoleTailPrefix(s: string, t: string, i3: nat, i4: nat)
    requires s != [] && i3 < i4 <= |s|
    requires forall k :: i3 <= k < i4 ==> IsWordChar(s[k])
    requires HoleTail(s, i3, i4).Some? && t == s[..HoleTail(s, i3, i4).value.1]
    requires t != [] && HasEmptyFlag(t) == HasEmptyFlag(s) && HasNegateFlag(t) == HasNegateFlag(s)
    ensures i4 <= |t| && HoleTail(t, i3, i4) == HoleTail(s, i3, i4)
  {
    var i5 := SkipSpace(s, i4);
    HoleEnd(s, i3, i4);
    HoleTailEnds(s, i3, i4);
    assert |t| == HoleTail(s, i3, i4).value.1;
    SkipSpacePrefix(s, t, i4);
    if s[i5] == '}' {
      ClosedTailPrefix(s, t, i3, i4, i5);
    } else {
      RegexHolePrefix(s, t, i3, i4, i5);
    }
  }

  lemma RegexHolePrefix(s: string, t: string, i3: nat, i4: nat, i5: nat)
    requires s != [] && i3 < i4 <= |s|
    requires forall k :: i3 <= k < i4 ==> IsWordChar(s[k])
    requires i5 == SkipSpace(s, i4) && i5 < |s| && s[i5] == ':'
    requires Closing(s, SkipSpace(s, i5 + 1), 0, '{', '}').Some?
    requires t == s[..Closing(s, SkipSpace(s, i5 + 1), 0, '{', '}').value + 1] && SkipSpace(t, i4) == i5
    requires t != [] && HasEmptyFlag(t) == HasEmptyFlag(s) && HasNegateFlag(t) == HasNegateFlag(s)
    ensures HoleTail(t, i3, i4) == HoleTail(s, i3, i4)
  {
    var i6 := SkipSpace(s, i5 + 1);
    var j := Closing(s, i6, 0, '{', '}').value;
    SkipSpacePrefix(s, t, i5 + 1);
    ClosingPrefix(s, t, i6, 0, '{', '}');
    RegexTailPrefix(s, t, i3, i4, i5, i6, j);
  }

  /** Where a placeholder's tail ends: at its `}`, or after its regex. */
  lemma HoleTailEnds(s: string, i3: nat, i4: nat)
    requires s != [] && i3 < i4 <= |s|
    requires forall k :: i3 <= k < i4 ==> IsWordChar(s[k])
    requires HoleTail(s, i3, i4).Some?
    ensures var i5 := SkipSpace(s, i4);
            i5 < |s| && (s[i5] == '}' || s[i5] == ':')
            && (s[i5] == '}' ==> HoleTail(s, i3, i4).value.1 == i5 + 1)
            && (s[i5] != '}' ==> Closing(s, SkipSpace(s, i5 + 1), 0, '{', '}').Some?)
            && (s[i5] != '}' ==> HoleTail(s, i3, i4).value.1 == Closing(s, SkipSpace(s, i5 + 1), 0, '{', '}').value + 1)
  {
  }

  /** A placeholder without a regex ends at its `}`. */
  lemma ClosedTail(x: string, i3: nat, i4: nat, i5: nat)
    requires x != [] && i3 < i4 <= |x|
    requires forall k :: i3 <= k < i4 ==> IsWordChar(x[k])
    requires i5 == SkipSpace(x, i4) && i5 < |x| && x[i5] == '}'
    ensures HoleTail(x, i3, i4) == Some((Hole(x[..i5 + 1], HasEmptyFlag(x), HasNegateFlag(x), x[i3..i4], None), i5 + 1))
  {
  }

  lemma ClosedTailPrefix(s: string, t: string, i3: nat, i4: nat, i5: nat)
    requires s != [] && i3 < i4 <= |s|
    requires forall k :: i3 <= k < i4 ==> IsWordChar(s[k])
    requires i5 == SkipSpace(s, i4) && i5 < |s| && s[i5] == '}'
    requires t == s[..i5 + 1] && SkipSpace(t, i4) == i5
    requires t != [] && HasEmptyFlag(t) == HasEmptyFlag(s) && HasNegateFlag(t) == HasNegateFlag(s)
    ensures HoleTail(t, i3, i4) == HoleTail(s, i3, i4)
  {
    ClosedTail(s, i3, i4, i5);
    assert t[..i5 + 1] == s[..i5 + 1] && t[i3..i4] == s[i3..i4] && t[i5] == '}';
    assert forall k :: i3 <= k < i4 ==> t[k] == s[k];
    ClosedTail(t, i3, i4, i5);
  }

  /** A placeholder with a regex ends at the `}` that closes it. */
  lemma RegexTail(x: string, i3: nat, i4: nat, i5: nat, i6: nat, j: nat)
    requires x != [] && i3 < i4 <= |x|
    requires forall k :: i3 <= k < i4 ==> IsWordChar(x[k])
    requires i5 == SkipSpace(x, i4) && i5 < |x| && x[i5] == ':'
    requires i6 == SkipSpace(x, i5 + 1) && Closing(x, i6, 0, '{', '}') == Some(j)
    ensures HoleTail(x, i3, i4) == Some((Hole(x[..j + 1], HasEmptyFlag(x), HasNegateFlag(x), x[i3..i4], Some(x[i6..j])), j + 1))
  {
  }

  lemma RegexTailPrefix(s: string, t: string, i3: nat, i4: nat, i5: nat, i6: nat, j: nat)
    requires s != [] && i3 < i4 <= |s|
    requires forall k :: i3 <= k < i4 ==> IsWordChar(s[k])
    requires i5 == SkipSpace(s, i4) && i5 < |s| && s[i5] == ':'
    requires i6 == SkipSpace(s, i5 + 1) && Closing(s, i6, 0, '{', '}') == Some(j)
    requires t == s[..j + 1] && SkipSpace(t, i4) == i5 && SkipSpace(t, i5 + 1) == i6
    requires Closing(t, i6, 0, '{', '}') == Some(j)
    requires t != [] && HasEmptyFlag(t) == HasEmptyFlag(s) && HasNegateFlag(t) == HasNegateFlag(s)
    ensures HoleTail(t, i3, i4) == HoleTail(s, i3, i4)
  {
    RegexTail(s, i3, i4, i5, i6, j);
    assert t[i3..i4] == s[i3..i4] && t[i5] == ':';
    assert forall k :: i3 <= k < i4 ==> t[k] == s[k];
    assert t[..j + 1] == s[..j + 1] && t[i6..j] == s[i6..j];
    RegexTail(t, i3, i4, i5, i6, j);
  }

  /** Parsing a placeholder's own text gives back that placeholder: what a
      placeholder means depends on its text alone. */
  lemma HoleFromRaw(s: string)
    requires s != [] && s[0] == '{' && ParseHole(s).Some?
    ensures var (h, n) := ParseHole(s).value;
            h.raw != [] && h.raw[0] == '{' && ParseHole(h.raw) == Some((h, |h.raw|))
  {
    var (h, n) := ParseHole(s).value;
    var t := s[..n];
    var i3 := NameStart(s);
    var i4 := SkipWord(s, i3);
    HoleEnd(s, i3, i4);
    NameStartPrefix(s, t);
    SkipWordPrefix(s, t, i3);
    HoleTailPrefix(s, t, i3, i4);
  }

  /** Every placeholder of a tree, at every depth, is what its text parses to. */
  ghost predicate Determined(nodes: seq<Node>)
    decreases nodes
  {
    forall i :: 0 <= i < |nodes| ==>
      (nodes[i].Hole? ==>
         nodes[i].raw != [] && nodes[i].raw[0] == '{' && ParseHole(nodes[i].raw) == Some((nodes[i], |nodes[i].raw|)))
      && (nodes[i].Opt? ==> Determined(nodes[i].body))
  }

  lemma DeterminedCons(n: Node, rest: seq<Node>)
    requires n.Hole? ==> n.raw != [] && n.raw[0] == '{' && ParseHole(n.raw) == Some((n, |n.raw|))
    requires n.Opt? ==> Determined(n.body)
    requires Determined(rest)
    ensures Determined([n] + rest)
  {
    forall i | 1 <= i < |[n] + rest|
      ensures ([n] + rest)[i] == rest[i - 1]
    {
    }
  }

  lemma DeterminedAddText(c: char, rest: seq<Node>)
    requires Determined(rest)
    ensures Determined(AddText(c, rest))
  {
    if rest != [] && rest[0].Text? {
      assert Determined(rest[1..]) by {
        forall i | 0 <= i < |rest[1..]|
          ensures rest[1..][i] == rest[i + 1]
        {
        }
      }
      DeterminedCons(Text([c] + rest[0].s), rest[1..]);
    } else {
      DeterminedCons(Text([c]), rest);
    }
  }

  lemma {:induction false} ParsedDetermined(s: string)
    ensures Determined(Parse(s))
    decreases |s|
  {
    if s == [] {
    } else if s[0] == '{' && ParseHole(s).Some? {
      var (h, n) := ParseHole(s).value;
      ParseHoleCase(s, h, n);
      HoleFromRaw(s);
      ParsedDetermined(s[n..]);
      DeterminedCons(h, Parse(s[n..]));
    } else if s[0] == '[' && Closing(s, 1, 0, '[', ']').Some? {
      var j := Closing(s, 1, 0, '[', ']').value;
      ParseOptCase(s, j);
      ParsedDetermined(s[1..j]);
      ParsedDetermined(s[j + 1..]);
      DeterminedCons(Opt(Parse(s[1..j])), Parse(s[j + 1..]));
    } else {
      ParseTextCase(s);
      ParsedDetermined(s[1..]);
      DeterminedAddText(s[0], Parse(s[1..]));
    }
  }

  // ---------------------------------------------------------------------------
  // The source's two-pass scan, as written

  /** The source's first pass: every balanced `[...]` is cut out, numbered
      from `n + 1`, and replaced by a `sprintf` slot `%k$s`, before any
      placeholder is looked for. Brackets inside a placeholder's regex are cut
      out too. */
  function ExtractOptionals(s: string, n: nat): (r: (string, seq<string>))
    ensures '[' !in s ==> r == (s, [])
    ensures |r.1| <= |s|
    decreases |s|
  {
    if s == [] then ("", [])
    else if s[0] == '[' && Closing(s, 1, 0, '[', ']').Some? then
      var j := Closing(s, 1, 0, '[', ']').value;
      var rest := ExtractOptionals(s[j + 1..], n + 1);
      ("%" + NatToText(n + 1) + "$s" + rest.0, [s[1..j]] + rest.1)
    else
      var rest := ExtractOptionals(s[1..], n);
      assert '[' !in s ==> '[' !in s[1..];
      assert s == [s[0]] + s[1..];
      ([s[0]] + rest.0, rest.1)
  }

  lemma ExtractText(s: string, n: nat)
    requires s != [] && s[0] != '['
    ensures ExtractOptionals(s, n) == ([s[0]] + ExtractOptionals(s[1..], n).0, ExtractOptionals(s[1..], n).1)
  {
  }

  lemma ExtractBracket(s: string, n: nat, j: nat)
    requires s != [] && s[0] == '[' && Closing(s, 1, 0, '[', ']') == Some(j)
    ensures ExtractOptionals(s, n) ==
              ("%" + NatToText(n + 1) + "$s" + ExtractOptionals(s[j + 1..], n + 1).0,
               [s[1..j]] + ExtractOptionals(s[j + 1..], n + 1).1)
  {
  }

  /** Text without brackets passes through the first pass unchanged. */
  lemma {:induction false} ExtractPrefix(p: string, t: string, n: nat)
    requires '[' !in p
    ensures ExtractOptionals(p + t, n) == (p + ExtractOptionals(t, n).0, ExtractOptionals(t, n).1)
    decreases |p|
  {
    if p != [] {
      assert (p + t)[1..] == p[1..] + t;
      ExtractPrefix(p[1..], t, n);
      ExtractText(p + t, n);
      var rest := ExtractOptionals(t, n);
      assert [p[0]] + (p[1..] + rest.0) == p + rest.0 by {
        assert p == [p[0]] + p[1..];
      }
    } else {
      assert p + t == t && p + ExtractOptionals(t, n).0 == ExtractOptionals(t, n).0;
    }
  }

  lemma ExtractClassExample()
    ensures ExtractOptionals("[0-9]+}", 0) == ("%1$s+}", ["0-9"])
  {
    var opt := "[0-9]+}";
    assert Closing(opt, 1, 0, '[', ']') == Some(4);
    ExtractBracket(opt, 0, 4);
    var tail := opt[5..];
    assert tail == "+}";
    assert '[' !in tail;
    var rest := ExtractOptionals(tail, 1);
    assert rest == (tail, []);
    assert NatToText(1) == "1";
    assert ExtractOptionals(opt, 0).0 == "%" + NatToText(1) + "$s" + rest.0;
    assert ExtractOptionals(opt, 0).1 == [opt[1..4]] + rest.1;
    assert opt[1..4] == "0-9";
    assert [opt[1..4]] + rest.1 == ["0-9"];
    assert "%" + NatToText(1) + "$s" + rest.0 == "%1$s+}";
  }

  lemma HostHoleExample()
    ensures ParseHole("{a:%1$s+}").Some?
    ensures ParseHole("{a:%1$s+}").value.0.regex == Some("%1$s+")
  {
    var host := "{a:%1$s+}";
    assert SkipSpace(host, 1) == 1;
    assert !HasEmptyFlag(host) && !HasNegateFlag(host);
    assert NameStart(host) == 1;
    assert SkipWord(host, 2) == 2;
    assert SkipWord(host, 1) == 2;
    assert SkipSpace(host, 2) == 2;
    assert SkipSpace(host, 3) == 3;
    assert Closing(host, 3, 0, '{', '}') == Some(8);
    assert host[3..8] == "%1$s+" && host[..9] == host && host[1..2] == "a";
    assert HoleTail(host, 1, 2) == Some((Hole(host, false, false, "a", Some("%1$s+")), 9));
  }

  lemma ExtractExample()
    ensures ExtractOptionals("{a:[0-9]+}", 0) == ("{a:%1$s+}", ["0-9"])
  {
    ExtractClassExample();
    ExtractPrefix("{a:", "[0-9]+}", 0);
    PrefixTexts();
  }

  lemma PrefixTexts()
    ensures "{a:" + "[0-9]+}" == "{a:[0-9]+}"
    ensures "{a:" + "%1$s+}" == "{a:%1$s+}"
  {
  }

  /** As written, the character class of `{a:[0-9]+}` is taken for an
      optional segment: the text scanned for placeholders becomes
      `{a:%1$s+}`, and the regex the value is matched against is `%1$s+`, which
      no number matches. */
  lemma BracketInRegexAsWritten()
    ensures ExtractOptionals("{a:[0-9]+}", 0) == ("{a:%1$s+}", ["0-9"])
    ensures ParseHole("{a:%1$s+}").Some?
    ensures ParseHole("{a:%1$s+}").value.0.regex == Some("%1$s+")
  {
    ExtractExample();
    HostHoleExample();
  }

  /** Parsing placeholders before optional segments keeps the regex whole. */
  lemma BracketInRegexParsed(s: string)
    requires s == "{a:[0-9]+}"
    ensures Parse(s) == [Hole(s, false, false, "a", Some("[0-9]+"))]
  {
    var t := "{a:[0-9]+}";
    assert SkipSpace(t, 1) == 1;
    assert !HasEmptyFlag(t) && !HasNegateFlag(t);
    assert NameStart(t) == 1;
    assert SkipWord(t, 2) == 2;
    assert SkipWord(t, 1) == 2;
    assert SkipSpace(t, 2) == 2;
    assert SkipSpace(t, 3) == 3;
    assert Closing(t, 3, 0, '{', '}') == Some(9);
    assert t[3..9] == "[0-9]+";
    assert t[..10] == t && t[1..2] == "a";
    var h := Hole(t, false, false, "a", Some("[0-9]+"));
    assert HoleTail(t, 1, 2) == Some((h, 10));
    assert ParseHole(t) == Some((h, 10));
    ParseHoleCase(t, h, 10);
    assert t[10..] == [];
  }

  // ---------------------------------------------------------------------------
  // Placeholders

  /** `$params[$name] ?? ''`. */
  function ParamValue(params: PArray, name: string): (v: Value)
    ensures Lookup(params, NormKey(name)).None? ==> v == Str("")
  {
    match Lookup(params, NormKey(name))
    case Some(v) => if v == Null then Str("") else v
    case None => Str("")
  }

  /** A placeholder's condition: with a regex, whether the value matches it
      whole; without, whether the value is a non-empty string or truthy; `!`
      negates. */
  predicate Holds(h: Node, params: PArray, matches: (string, string) -> bool)
    requires h.Hole?
  {
    var v := ParamValue(params, h.name);
    var base := match h.regex
      case None => (v.Str? && v.s != "") || Truthy(v)
      case Some(re) => matches(re, ToText(v));
    base != h.negate
  }

  /** What a placeholder that holds is replaced by: its value, or nothing under `@`. */
  function Substitute(h: Node, params: PArray): string
    requires h.Hole?
  {
    if h.empty then "" else ToText(ParamValue(params, h.name))
  }

  /** Some placeholder at this level fails. */
  predicate Vetoed(nodes: seq<Node>, params: PArray, matches: (string, string) -> bool)
  {
    exists i :: 0 <= i < |nodes| && nodes[i].Hole? && !Holds(nodes[i], params, matches)
  }

  lemma VetoedBy(nodes: seq<Node>, i: int, params: PArray, matches: (string, string) -> bool)
    requires 0 <= i < |nodes| && nodes[i].Hole? && !Holds(nodes[i], params, matches)
    ensures Vetoed(nodes, params, matches)
  {
  }

  lemma NotVetoed(nodes: seq<Node>, params: PArray, matches: (string, string) -> bool)
    requires forall i :: 0 <= i < |nodes| && nodes[i].Hole? ==> Holds(nodes[i], params, matches)
    ensures !Vetoed(nodes, params, matches)
  {
  }

  // ---------------------------------------------------------------------------
  // Evaluation as the source does it: text replacement

  /** `str_replace($search, $replace, $subject)`: every occurrence, found
      from left to right without overlap, is replaced; the text put in is
      not searched again by this call. An empty search changes nothing. */
  function StrReplace(subject: string, search: string, replace: string): string
    decreases |subject|
  {
    if search == [] || |subject| < |search| then subject
    else if subject[..|search|] == search then replace + StrReplace(subject[|search|..], search, replace)
    else [subject[0]] + StrReplace(subject[1..], search, replace)
  }

  /** The placeholders of one level, in order: the matches `preg_match_all`
      reports on the first pass's output. */
  function Holes(nodes: seq<Node>): (hs: seq<Node>)
    ensures forall i :: 0 <= i < |hs| ==> hs[i].Hole? && hs[i] in nodes
  {
    if nodes == [] then []
    else (if nodes[0].Hole? then [nodes[0]] else []) + Holes(nodes[1..])
  }

  /** The `sprintf` directive the first pass writes for its k-th optional segment. */
  function Slot(k: nat): string
  {
    "%" + NatToText(k) + "$s"
  }

  /** `$output` inside the placeholder loop: the level's text with its
      optional segments as slots (numbered from `k0 + 1`), and every
      placeholder whose text is in `done` replaced. With nothing done it is
      what the first pass writes on the placeholder-first reading. */
  function Partial(nodes: seq<Node>, done: set<string>, k0: nat, params: PArray): string
  {
    if nodes == [] then ""
    else
      match nodes[0]
      case Text(t) => t + Partial(nodes[1..], done, k0, params)
      case Hole(raw, _, _, _, _) =>
        (if raw in done then Substitute(nodes[0], params) else raw) + Partial(nodes[1..], done, k0, params)
      case Opt(_) => Slot(k0 + 1) + Partial(nodes[1..], done, k0 + 1, params)
  }

  /** The placeholder loop: each placeholder in turn is tested, the first
      that fails empties the expression, and one that holds has every
      occurrence of its text in the current output replaced. */
  function ReplaceHoles(output: string, hs: seq<Node>, params: PArray, matches: (string, string) -> bool): Option<string>
    requires forall i :: 0 <= i < |hs| ==> hs[i].Hole?
    decreases |hs|
  {
    if hs == [] then Some(output)
    else if !Holds(hs[0], params, matches) then None
    else ReplaceHoles(StrReplace(output, hs[0].raw, Substitute(hs[0], params)), hs[1..], params, matches)
  }

  /** Where the run of digits from `i` ends. */
  function SkipDigits(s: string, i: nat): (j: nat)
    requires i <= |s|
    ensures i <= j <= |s|
    ensures forall k :: i <= k < j ==> IsDigit(s[k])
    decreases |s| - i
  {
    if i < |s| && IsDigit(s[i]) then SkipDigits(s, i + 1) else i
  }

  /** `sprintf($format, ...$args)` for the directives the first pass
      writes: `%k$s` is the k-th argument and `%%` a percent sign. Any other
      `%` is copied. */
  function Sprintf(f: string, args: seq<string>): string
    decreases |f|
  {
    if f == [] then ""
    else if f[0] == '%' && |f| >= 2 && f[1] == '%' then "%" + Sprintf(f[2..], args)
    else if f[0] == '%' && SlotAt(f) then
      var k := SlotNumber(f);
      (if 1 <= k <= |args| then args[k - 1] else "") + Sprintf(f[SkipDigits(f, 1) + 2..], args)
    else [f[0]] + Sprintf(f[1..], args)
  }

  /** A `%k$s` directive starts the format. */
  predicate SlotAt(f: string)
    requires f != []
  {
    var j := SkipDigits(f, 1);
    j > 1 && j + 1 < |f| && f[j] == '$' && f[j + 1] == 's'
  }

  /** The number `k` of a directive `%k$s`. */
  function SlotNumber(f: string): nat
    requires f != []
  {
    var j := SkipDigits(f, 1);
    assert AllDigits(f[1..j]) by {
      forall c | c in f[1..j] ensures IsDigit(c) {
        var k :| 0 <= k < |f[1..j]| && f[1..j][k] == c;
        assert f[1 + k] == c;
      }
    }
    ParseNat(f[1..j])
  }

  /** One level of `evaluateExpression` on a parsed expression: the
      placeholder loop on the first pass's output, then the optional
      segments evaluated and spliced into their slots, then `trim`. */
  function EvalLevel(nodes: seq<Node>, params: PArray, matches: (string, string) -> bool): (r: string)
    ensures r == [] || (!IsTrimChar(r[0]) && !IsTrimChar(r[|r| - 1]))
    decreases nodes, 1
  {
    match ReplaceHoles(Partial(nodes, {}, 0, params), Holes(nodes), params, matches)
    case None => ""
    case Some(output) =>
      var args := OptValues(nodes, params, matches);
      if args == [] then Trim(output) else Trim(Sprintf(output, args))
  }

  /** The values of the level's optional segments, in order. */
  function OptValues(nodes: seq<Node>, params: PArray, matches: (string, string) -> bool): seq<string>
    decreases nodes, 0
  {
    if nodes == [] then []
    else (if nodes[0].Opt? then [OptValue(nodes[0].body, params, matches)] else []) + OptValues(nodes[1..], params, matches)
  }

  /** An optional segment is evaluated from its own text, as the recursive
      call does: text without `{` is only trimmed. */
  function OptValue(body: seq<Node>, params: PArray, matches: (string, string) -> bool): string
    decreases body, 2
  {
    var t := Unparse(body);
    if '{' !in t then Trim(t) else EvalLevel(body, params, matches)
  }

  /** `evaluateExpression($expression, $params)`. */
  function Evaluate(s: string, params: PArray, matches: (string, string) -> bool): (r: string)
    ensures r == [] || (!IsTrimChar(r[0]) && !IsTrimChar(r[|r| - 1]))
  {
    if '{' !in s then Trim(s) else EvalLevel(Parse(s), params, matches)
  }

  lemma EvaluateParsed(s: string, nodes: seq<Node>, params: PArray, matches: (string, string) -> bool)
    requires '{' in s && nodes == Parse(s)
    ensures Evaluate(s, params, matches) == EvalLevel(nodes, params, matches)
  {
  }

  lemma OptValuesAt(nodes: seq<Node>, i: int, params: PArray, matches: (string, string) -> bool)
    requires 0 <= i < |nodes|
    ensures OptValues(nodes[i..], params, matches)
            == (if nodes[i].Opt? then [OptValue(nodes[i].body, params, matches)] else []) + OptValues(nodes[i + 1..], params, matches)
  {
    assert nodes[i..][0] == nodes[i] && nodes[i..][1..] == nodes[i + 1..];
  }

  /** Evaluating an optional segment from its text is evaluating its tree. */
  lemma OptValueFromText(body: seq<Node>, params: PArray, matches: (string, string) -> bool)
    requires Parse(Unparse(body)) == body
    ensures Evaluate(Unparse(body), params, matches) == OptValue(body, params, matches)
  {
  }

  /** An expression that is one placeholder which holds shows the trimmed
      text of its value, whatever that text is. */
  lemma EvaluateOneHole(s: string, h: Node, params: PArray, matches: (string, string) -> bool)
    requires '{' in s && Parse(s) == [h]
    requires h.Hole? && !h.empty && Holds(h, params, matches)
    ensures Evaluate(s, params, matches) == Trim(ToText(ParamValue(params, h.name)))
  {
    ParseRoundTrip(s);
    assert s == Unparse([h]) == h.raw + "";
    LevelOneHole(h, params, matches);
  }

  lemma LevelOneHole(h: Node, params: PArray, matches: (string, string) -> bool)
    requires h.Hole? && h.raw != [] && !h.empty && Holds(h, params, matches)
    ensures EvalLevel([h], params, matches) == Trim(ToText(ParamValue(params, h.name)))
  {
    var v := Substitute(h, params);
    assert [h][1..] == [];
    assert Partial([h], {}, 0, params) == h.raw by {
      assert Partial([h], {}, 0, params) == h.raw + Partial([], {}, 0, params);
    }
    StrReplaceWhole(h.raw, v);
    assert Holes([h]) == [h] by {
      assert Holes([h]) == [h] + Holes([]);
    }
    assert ReplaceHoles(h.raw, [h], params, matches) == Some(v) by {
      assert ReplaceHoles(h.raw, [h], params, matches) == ReplaceHoles(v, [], params, matches);
    }
    assert OptValues([h], params, matches) == [] by {
      assert OptValues([h], params, matches) == [] + OptValues([], params, matches);
    }
  }

  lemma StrReplaceWhole(r: string, v: string)
    requires r != []
    ensures StrReplace(r, r, v) == v
  {
    assert r[..|r|] == r && r[|r|..] == [];
    assert StrReplace(r, r, v) == v + "";
  }

  /** A failing placeholder empties the expression, as an early `return ''`. */
  lemma EvaluateVetoed(s: string, params: PArray, matches: (string, string) -> bool)
    requires '{' in s && Vetoed(Parse(s), params, matches)
    ensures Evaluate(s, params, matches) == ""
  {
    var nodes := Parse(s);
    HolesOf(nodes);
    ReplaceHolesFails(Partial(nodes, {}, 0, params), Holes(nodes), params, matches);
  }

  // ---------------------------------------------------------------------------
  // The tree reading: each placeholder replaced by its own value

  /** A parsed expression's value read node by node: nothing if one of its
      own placeholders fails, otherwise its pieces spliced together and
      trimmed. */
  function EvalNodes(nodes: seq<Node>, params: PArray, matches: (string, string) -> bool): string
    decreases nodes, 2
  {
    if Vetoed(nodes, params, matches) then "" else Trim(Render(nodes, params, matches))
  }

  function Render(nodes: seq<Node>, params: PArray, matches: (string, string) -> bool): string
    decreases nodes, 1
  {
    if nodes == [] then "" else RenderNode(nodes[0], params, matches) + Render(nodes[1..], params, matches)
  }

  function RenderNode(n: Node, params: PArray, matches: (string, string) -> bool): string
    decreases n
  {
    match n
    case Text(t) => t
    case Hole(_, _, _, _, _) => Substitute(n, params)
    case Opt(b) => EvalOptional(b, params, matches)
  }

  function EvalOptional(body: seq<Node>, params: PArray, matches: (string, string) -> bool): string
    decreases body, 3
  {
    var t := Unparse(body);
    if '{' !in t then Trim(t) else EvalNodes(body, params, matches)
  }

  /** The value of an expression read node by node. */
  function EvaluateTree(s: string, params: PArray, matches: (string, string) -> bool): (r: string)
    ensures r == [] || (!IsTrimChar(r[0]) && !IsTrimChar(r[|r| - 1]))
  {
    if '{' !in s then Trim(s) else EvalNodes(Parse(s), params, matches)
  }

  lemma EvaluateTreeParsed(s: string, nodes: seq<Node>, params: PArray, matches: (string, string) -> bool)
    requires '{' in s && nodes == Parse(s)
    ensures EvaluateTree(s, params, matches) == EvalNodes(nodes, params, matches)
  {
  }

  lemma RenderThree(a: Node, b: Node, c: Node, params: PArray, matches: (string, string) -> bool)
    ensures Render([a, b, c], params, matches) ==
              RenderNode(a, params, matches) + RenderNode(b, params, matches) + RenderNode(c, params, matches)
  {
    assert [a, b, c][1..] == [b, c] && [b, c][1..] == [c] && [c][1..] == [];
    var ra, rb, rc := RenderNode(a, params, matches), RenderNode(b, params, matches), RenderNode(c, params, matches);
    assert Render([c], params, matches) == rc + "" == rc;
    assert Render([b, c], params, matches) == rb + rc;
    assert Render([a, b, c], params, matches) == ra + (rb + rc);
  }

  lemma EvalOneHole(h: Node, params: PArray, matches: (string, string) -> bool)
    requires h.Hole? && !h.empty && Holds(h, params, matches)
    ensures EvalNodes([h], params, matches) == Trim(ToText(ParamValue(params, h.name)))
  {
    NotVetoed([h], params, matches);
    RenderOne(h, params, matches);
  }

  lemma RenderOne(h: Node, params: PArray, matches: (string, string) -> bool)
    requires h.Hole? && !h.empty
    ensures Render([h], params, matches) == ToText(ParamValue(params, h.name))
  {
    var v := ToText(ParamValue(params, h.name));
    assert [h][1..] == [];
    assert Render([h], params, matches) == v + "";
    assert v + "" == v;
  }

  // ---------------------------------------------------------------------------
  // When the two readings agree

  /** A placeholder's text with braces only at its two ends. */
  predicate Enclosed(w: string)
  {
    |w| >= 2 && w[0] == '{' && w[|w| - 1] == '}' && forall k :: 0 < k < |w| - 1 ==> w[k] != '{' && w[k] != '}'
  }

  /** No replacement can be mistaken for a placeholder or a directive: the
      literal text and the values put in carry no `{` and no `%`, and no
      placeholder has a brace inside it. */
  ghost predicate Isolated(nodes: seq<Node>, params: PArray)
    decreases nodes
  {
    forall i :: 0 <= i < |nodes| ==>
      (nodes[i].Text? ==> '{' !in nodes[i].s && '%' !in nodes[i].s)
      && (nodes[i].Hole? ==>
            Enclosed(nodes[i].raw) && '{' !in Substitute(nodes[i], params) && '%' !in Substitute(nodes[i], params))
      && (nodes[i].Opt? ==> Isolated(nodes[i].body, params))
  }

  lemma {:induction false} ReplaceBraceFree(p: string, rest: string, r: string, v: string)
    requires '{' !in p && r != [] && r[0] == '{'
    ensures StrReplace(p + rest, r, v) == p + StrReplace(rest, r, v)
    decreases |p|
  {
    if p != [] {
      var x := p + rest;
      assert x[0] == p[0] && x[1..] == p[1..] + rest;
      assert p[0] in p;
      if |x| >= |r| {
        assert x[..|r|][0] == p[0];
        assert StrReplace(x, r, v) == [p[0]] + StrReplace(p[1..] + rest, r, v);
        ReplaceBraceFree(p[1..], rest, r, v);
        assert [p[0]] + (p[1..] + StrReplace(rest, r, v)) == p + StrReplace(rest, r, v);
      } else {
        ShortUnchanged(x, r, v);
        ShortUnchanged(rest, r, v);
      }
    } else {
      assert p + rest == rest;
    }
  }

  lemma ShortUnchanged(x: string, r: string, v: string)
    requires |x| < |r|
    ensures StrReplace(x, r, v) == x
  {
  }

  lemma ReplaceEnclosed(p: string, rest: string, r: string, v: string)
    requires Enclosed(p) && Enclosed(r)
    ensures StrReplace(p + rest, r, v) == (if p == r then v else p) + StrReplace(rest, r, v)
  {
    if p == r {
      ReplaceEnclosedSame(p, rest, v);
    } else {
      ReplaceEnclosedOther(p, rest, r, v);
    }
  }

  lemma ReplaceEnclosedSame(p: string, rest: string, v: string)
    requires Enclosed(p)
    ensures StrReplace(p + rest, p, v) == v + StrReplace(rest, p, v)
  {
    var x := p + rest;
    assert x[..|p|] == p && x[|p|..] == rest;
  }

  lemma ReplaceEnclosedOther(p: string, rest: string, r: string, v: string)
    requires Enclosed(p) && Enclosed(r) && p != r
    ensures StrReplace(p + rest, r, v) == p + StrReplace(rest, r, v)
  {
    var x := p + rest;
    if |x| >= |r| {
      EnclosedNotPrefix(p, rest, r);
      assert x[1..] == p[1..] + rest;
      assert '{' !in p[1..] by {
        forall k | 0 <= k < |p[1..]| ensures p[1..][k] != '{' {
          assert p[1..][k] == p[k + 1];
        }
      }
      ReplaceBraceFree(p[1..], rest, r, v);
      assert [p[0]] + (p[1..] + StrReplace(rest, r, v)) == p + StrReplace(rest, r, v);
    } else {
      ShortUnchanged(rest, r, v);
    }
  }

  /** Another placeholder's text never starts where one placeholder starts. */
  lemma EnclosedNotPrefix(p: string, rest: string, r: string)
    requires Enclosed(p) && Enclosed(r) && p != r && |p + rest| >= |r|
    ensures (p + rest)[..|r|] != r
  {
    var x := p + rest;
    if |r| <= |p| {
      assert x[..|r|] == p[..|r|];
      if |r| < |p| {
        assert p[|r| - 1] != '}';
      } else {
        assert p[..|r|] == p;
      }
    } else {
      assert x[|p| - 1] == '}';
      assert r[|p| - 1] != '}';
    }
  }

  lemma SlotBraceFree(k: nat)
    ensures '{' !in Slot(k)
  {
    var d := NatToText(k);
    assert Slot(k) == ['%'] + d + ['$', 's'];
  }

  lemma IsolatedTail(nodes: seq<Node>, params: PArray)
    requires nodes != [] && Isolated(nodes, params)
    ensures Isolated(nodes[1..], params)
  {
    forall i | 0 <= i < |nodes[1..]|
      ensures nodes[1..][i] == nodes[i + 1]
    {
    }
  }

  /** One `str_replace` of the loop: the output with the placeholders in
      `done` replaced becomes the output with `r`'s placeholders replaced too. */
  lemma {:induction false} ReplaceStep(nodes: seq<Node>, done: set<string>, k0: nat, params: PArray, r: string, v: string)
    requires Isolated(nodes, params) && Enclosed(r)
    requires forall i :: 0 <= i < |nodes| && nodes[i].Hole? && nodes[i].raw == r ==> Substitute(nodes[i], params) == v
    ensures StrReplace(Partial(nodes, done, k0, params), r, v) == Partial(nodes, done + {r}, k0, params)
    decreases nodes
  {
    if nodes != [] {
      var rest := nodes[1..];
      IsolatedTail(nodes, params);
      match nodes[0]
      case Text(t) =>
        ReplaceStep(rest, done, k0, params, r, v);
        ReplaceBraceFree(t, Partial(rest, done, k0, params), r, v);
      case Opt(_) =>
        ReplaceStep(rest, done, k0 + 1, params, r, v);
        SlotBraceFree(k0 + 1);
        ReplaceBraceFree(Slot(k0 + 1), Partial(rest, done, k0 + 1, params), r, v);
      case Hole(raw, _, _, _, _) =>
        ReplaceStep(rest, done, k0, params, r, v);
        if raw in done {
          ReplaceBraceFree(Substitute(nodes[0], params), Partial(rest, done, k0, params), r, v);
        } else {
          ReplaceEnclosed(raw, Partial(rest, done, k0, params), r, v);
        }
    }
  }

  /** The texts of some placeholders. */
  function Raws(hs: seq<Node>): set<string>
    requires forall i :: 0 <= i < |hs| ==> hs[i].Hole?
  {
    set i | 0 <= i < |hs| :: hs[i].raw
  }

  /** Two placeholders of a determined level written alike are the same. */
  lemma SameText(nodes: seq<Node>, i: int, j: int)
    requires Determined(nodes) && 0 <= i < |nodes| && 0 <= j < |nodes|
    requires nodes[i].Hole? && nodes[j].Hole? && nodes[i].raw == nodes[j].raw
    ensures nodes[i] == nodes[j]
  {
  }

  /** The whole placeholder loop, when every placeholder holds: each
      placeholder's text is replaced by its value. */
  lemma {:induction false} ReplaceFold(nodes: seq<Node>, done: set<string>, hs: seq<Node>,
                                       params: PArray, matches: (string, string) -> bool)
    requires Isolated(nodes, params) && Determined(nodes)
    requires forall i :: 0 <= i < |hs| ==> hs[i].Hole? && hs[i] in nodes && Holds(hs[i], params, matches)
    ensures ReplaceHoles(Partial(nodes, done, 0, params), hs, params, matches)
            == Some(Partial(nodes, done + Raws(hs), 0, params))
    decreases |hs|
  {
    if hs == [] {
      assert done + Raws(hs) == done;
    } else {
      var h := hs[0];
      assert h in nodes && Holds(h, params, matches);
      SameSubstitute(nodes, h, params);
      var once := Partial(nodes, done + {h.raw}, 0, params);
      ReplaceStep(nodes, done, 0, params, h.raw, Substitute(h, params));
      assert ReplaceHoles(Partial(nodes, done, 0, params), hs, params, matches)
             == ReplaceHoles(once, hs[1..], params, matches);
      assert forall i :: 0 <= i < |hs[1..]| ==> hs[1..][i] == hs[i + 1];
      ReplaceFold(nodes, done + {h.raw}, hs[1..], params, matches);
      RawsCons(hs);
      assert done + {h.raw} + Raws(hs[1..]) == done + Raws(hs);
    }
  }

  /** Placeholders of one text are replaced by one value. */
  lemma SameSubstitute(nodes: seq<Node>, h: Node, params: PArray)
    requires Isolated(nodes, params) && Determined(nodes) && h.Hole? && h in nodes
    ensures Enclosed(h.raw)
    ensures forall i :: 0 <= i < |nodes| && nodes[i].Hole? && nodes[i].raw == h.raw ==>
              Substitute(nodes[i], params) == Substitute(h, params)
  {
    var j :| 0 <= j < |nodes| && nodes[j] == h;
    forall i | 0 <= i < |nodes| && nodes[i].Hole? && nodes[i].raw == h.raw
      ensures Substitute(nodes[i], params) == Substitute(h, params)
    {
      SameText(nodes, i, j);
    }
  }

  lemma RawsCons(hs: seq<Node>)
    requires hs != [] && forall i :: 0 <= i < |hs| ==> hs[i].Hole?
    ensures Raws(hs) == {hs[0].raw} + Raws(hs[1..])
  {
    forall x | x in Raws(hs) ensures x == hs[0].raw || x in Raws(hs[1..]) {
      var i :| 0 <= i < |hs| && hs[i].raw == x;
      if i > 0 {
        assert hs[1..][i - 1] == hs[i];
      }
    }
    forall x | x in Raws(hs[1..]) ensures x in Raws(hs) {
      var i :| 0 <= i < |hs[1..]| && hs[1..][i].raw == x;
      assert hs[i + 1] == hs[1..][i];
    }
  }

  /** The placeholder loop fails exactly when one of the placeholders fails. */
  lemma {:induction false} ReplaceHolesFails(output: string, hs: seq<Node>, params: PArray, matches: (string, string) -> bool)
    requires forall i :: 0 <= i < |hs| ==> hs[i].Hole?
    ensures ReplaceHoles(output, hs, params, matches).None? <==> exists i :: 0 <= i < |hs| && !Holds(hs[i], params, matches)
    decreases |hs|
  {
    if hs != [] {
      ReplaceHolesFails(StrReplace(output, hs[0].raw, Substitute(hs[0], params)), hs[1..], params, matches);
      if exists i :: 0 <= i < |hs| && !Holds(hs[i], params, matches) {
        var i :| 0 <= i < |hs| && !Holds(hs[i], params, matches);
        if i > 0 {
          assert hs[1..][i - 1] == hs[i];
        }
      }
      if exists i :: 0 <= i < |hs[1..]| && !Holds(hs[1..][i], params, matches) {
        var i :| 0 <= i < |hs[1..]| && !Holds(hs[1..][i], params, matches);
        assert hs[i + 1] == hs[1..][i];
      }
    }
  }

  /** `Holes` lists every placeholder of the level. */
  lemma {:induction false} HolesOf(nodes: seq<Node>)
    ensures forall i :: 0 <= i < |nodes| && nodes[i].Hole? ==> nodes[i] in Holes(nodes)
  {
    if nodes != [] {
      HolesOf(nodes[1..]);
      forall i | 1 <= i < |nodes| && nodes[i].Hole?
        ensures nodes[i] in Holes(nodes)
      {
        assert nodes[1..][i - 1] == nodes[i];
      }
    }
  }

  lemma {:induction false} SprintfPlain(p: string, rest: string, args: seq<string>)
    requires '%' !in p
    ensures Sprintf(p + rest, args) == p + Sprintf(rest, args)
    decreases |p|
  {
    if p != [] {
      var x := p + rest;
      assert x[0] == p[0] && x[1..] == p[1..] + rest;
      assert p[0] in p;
      assert Sprintf(x, args) == [p[0]] + Sprintf(p[1..] + rest, args);
      SprintfPlain(p[1..], rest, args);
      assert [p[0]] + (p[1..] + Sprintf(rest, args)) == p + Sprintf(rest, args);
    } else {
      assert p + rest == rest;
    }
  }

  lemma {:induction false} SkipDigitsRun(s: string, i: nat, j: nat)
    requires i <= j <= |s| && (forall k :: i <= k < j ==> IsDigit(s[k])) && (j == |s| || !IsDigit(s[j]))
    ensures SkipDigits(s, i) == j
    decreases j - i
  {
    if i < j {
      SkipDigitsRun(s, i + 1, j);
    }
  }

  /** A slot is replaced by its argument. */
  lemma SprintfSlot(k: nat, rest: string, args: seq<string>)
    requires 1 <= k <= |args|
    ensures Sprintf(Slot(k) + rest, args) == args[k - 1] + Sprintf(rest, args)
  {
    SlotRead(k, rest);
    SprintfDirective(Slot(k) + rest, k, |Slot(k)|, rest, args);
  }

  /** A format opening with a `%k$s` directive that ends at `n`. */
  lemma SprintfDirective(f: string, k: nat, n: nat, rest: string, args: seq<string>)
    requires |f| >= 2 && f[0] == '%' && f[1] != '%' && SlotAt(f) && SlotNumber(f) == k && 1 <= k <= |args|
    requires SkipDigits(f, 1) + 2 == n <= |f| && f[n..] == rest
    ensures Sprintf(f, args) == args[k - 1] + Sprintf(rest, args)
  {
  }

  /** The directive written for `k` is read back as `k`, and ends where it should. */
  lemma SlotRead(k: nat, rest: string)
    ensures Slot(k) + rest != []
    ensures (Slot(k) + rest)[0] == '%' && (Slot(k) + rest)[1] != '%'
    ensures SlotAt(Slot(k) + rest) && SlotNumber(Slot(k) + rest) == k
    ensures SkipDigits(Slot(k) + rest, 1) + 2 == |Slot(k)|
    ensures (Slot(k) + rest)[|Slot(k)|..] == rest
  {
    var d := NatToText(k);
    var f := Slot(k) + rest;
    var j := 1 + |d|;
    assert f == "%" + d + "$s" + rest;
    assert f[1..j] == d;
    assert forall c :: 1 <= c < j ==> f[c] == d[c - 1];
    assert d[0] in d;
    assert f[j] == '$' && f[j + 1] == 's';
    SkipDigitsRun(f, 1, j);
    ParseNatToText(k);
  }

  /** Every placeholder of the level is replaced, and each optional segment's
      value is its node-by-node value. */
  ghost predicate Filled(nodes: seq<Node>, done: set<string>, params: PArray, matches: (string, string) -> bool)
  {
    (forall i :: 0 <= i < |nodes| && nodes[i].Hole? ==> nodes[i].raw in done)
    && (forall i :: 0 <= i < |nodes| && nodes[i].Opt? ==>
          OptValue(nodes[i].body, params, matches) == EvalOptional(nodes[i].body, params, matches))
  }

  lemma FilledTail(nodes: seq<Node>, done: set<string>, params: PArray, matches: (string, string) -> bool)
    requires nodes != [] && Filled(nodes, done, params, matches)
    ensures Filled(nodes[1..], done, params, matches)
  {
    forall i | 0 <= i < |nodes[1..]|
      ensures nodes[1..][i] == nodes[i + 1]
    {
    }
  }

  /** Once every placeholder is replaced, splicing in the optional segments'
      values gives the node-by-node rendering. */
  lemma {:induction false} SprintfFilled(nodes: seq<Node>, done: set<string>, k0: nat, args: seq<string>,
                                         params: PArray, matches: (string, string) -> bool)
    requires Spliceable(nodes, done, params, matches)
    requires k0 + |OptValues(nodes, params, matches)| <= |args|
    requires args[k0..k0 + |OptValues(nodes, params, matches)|] == OptValues(nodes, params, matches)
    ensures Sprintf(Partial(nodes, done, k0, params), args) == Render(nodes, params, matches)
    decreases nodes
  {
    if nodes != [] {
      var rest := nodes[1..];
      if nodes[0].Opt? {
        OptArgsTail(nodes, k0, args, params, matches);
        SprintfFilled(rest, done, k0 + 1, args, params, matches);
        FilledOptStep(nodes, done, k0, args, params, matches);
      } else {
        PieceArgsTail(nodes, k0, args, params, matches);
        SprintfFilled(rest, done, k0, args, params, matches);
        FilledPieceStep(nodes, done, k0, args, params, matches);
      }
    }
  }

  /** Node by node, what splicing needs: literal text and replaced
      placeholders carry no `%`, and each optional segment's value is its
      node-by-node value. */
  ghost predicate Spliceable(nodes: seq<Node>, done: set<string>, params: PArray, matches: (string, string) -> bool)
    decreases nodes
  {
    nodes == [] || (Ready(nodes[0], done, params, matches) && Spliceable(nodes[1..], done, params, matches))
  }

  ghost predicate Ready(n: Node, done: set<string>, params: PArray, matches: (string, string) -> bool)
  {
    match n
    case Text(t) => '%' !in t
    case Hole(raw, _, _, _, _) => raw in done && '%' !in Substitute(n, params)
    case Opt(b) => OptValue(b, params, matches) == EvalOptional(b, params, matches)
  }

  lemma {:induction false} FilledSpliceable(nodes: seq<Node>, done: set<string>, params: PArray, matches: (string, string) -> bool)
    requires Isolated(nodes, params) && Filled(nodes, done, params, matches)
    ensures Spliceable(nodes, done, params, matches)
    decreases nodes
  {
    if nodes != [] {
      IsolatedTail(nodes, params);
      FilledTail(nodes, done, params, matches);
      FilledSpliceable(nodes[1..], done, params, matches);
      assert Ready(nodes[0], done, params, matches);
    }
  }

  /** The arguments left for the rest of the level after an optional segment. */
  lemma OptArgsTail(nodes: seq<Node>, k0: nat, args: seq<string>, params: PArray, matches: (string, string) -> bool)
    requires nodes != [] && nodes[0].Opt?
    requires k0 + |OptValues(nodes, params, matches)| <= |args|
    requires args[k0..k0 + |OptValues(nodes, params, matches)|] == OptValues(nodes, params, matches)
    ensures k0 + 1 + |OptValues(nodes[1..], params, matches)| <= |args|
    ensures args[k0 + 1..k0 + 1 + |OptValues(nodes[1..], params, matches)|] == OptValues(nodes[1..], params, matches)
    ensures args[k0] == OptValue(nodes[0].body, params, matches)
  {
    SliceTail(args, k0, [OptValue(nodes[0].body, params, matches)], OptValues(nodes[1..], params, matches));
  }

  /** The arguments left for the rest of the level after text or a placeholder. */
  lemma PieceArgsTail(nodes: seq<Node>, k0: nat, args: seq<string>, params: PArray, matches: (string, string) -> bool)
    requires nodes != [] && !nodes[0].Opt?
    requires k0 + |OptValues(nodes, params, matches)| <= |args|
    requires args[k0..k0 + |OptValues(nodes, params, matches)|] == OptValues(nodes, params, matches)
    ensures k0 + |OptValues(nodes[1..], params, matches)| <= |args|
    ensures args[k0..k0 + |OptValues(nodes[1..], params, matches)|] == OptValues(nodes[1..], params, matches)
  {
    assert OptValues(nodes, params, matches) == [] + OptValues(nodes[1..], params, matches);
  }

  lemma SliceTail<T>(args: seq<T>, k0: nat, head: seq<T>, tail: seq<T>)
    requires k0 + |head + tail| <= |args| && args[k0..k0 + |head + tail|] == head + tail
    ensures k0 + |head| + |tail| <= |args| && args[k0 + |head|..k0 + |head| + |tail|] == tail
    ensures head != [] ==> args[k0] == head[0]
  {
    assert args[k0 + |head|..k0 + |head| + |tail|] == args[k0..k0 + |head + tail|][|head|..];
  }

  lemma FilledOptStep(nodes: seq<Node>, done: set<string>, k0: nat, args: seq<string>,
                      params: PArray, matches: (string, string) -> bool)
    requires nodes != [] && nodes[0].Opt? && k0 < |args| && Ready(nodes[0], done, params, matches)
    requires args[k0] == OptValue(nodes[0].body, params, matches)
    requires Sprintf(Partial(nodes[1..], done, k0 + 1, params), args) == Render(nodes[1..], params, matches)
    ensures Sprintf(Partial(nodes, done, k0, params), args) == Render(nodes, params, matches)
  {
    SprintfSlot(k0 + 1, Partial(nodes[1..], done, k0 + 1, params), args);
  }

  lemma FilledPieceStep(nodes: seq<Node>, done: set<string>, k0: nat, args: seq<string>,
                        params: PArray, matches: (string, string) -> bool)
    requires nodes != [] && !nodes[0].Opt? && Ready(nodes[0], done, params, matches)
    requires Sprintf(Partial(nodes[1..], done, k0, params), args) == Render(nodes[1..], params, matches)
    ensures Sprintf(Partial(nodes, done, k0, params), args) == Render(nodes, params, matches)
  {
    var piece := RenderNode(nodes[0], params, matches);
    assert Partial(nodes, done, k0, params) == piece + Partial(nodes[1..], done, k0, params);
    SprintfPlain(piece, Partial(nodes[1..], done, k0, params), args);
  }

  /** A level without optional segments: its first pass, with every
      placeholder replaced, is already the rendering. */
  lemma {:induction false} PartialRenders(nodes: seq<Node>, done: set<string>, params: PArray, matches: (string, string) -> bool)
    requires OptValues(nodes, params, matches) == []
    requires forall i :: 0 <= i < |nodes| && nodes[i].Hole? ==> nodes[i].raw in done
    ensures Partial(nodes, done, 0, params) == Render(nodes, params, matches)
    decreases nodes
  {
    if nodes != [] {
      assert !nodes[0].Opt?;
      assert OptValues(nodes, params, matches) == [] + OptValues(nodes[1..], params, matches);
      assert forall i :: 0 <= i < |nodes[1..]| ==> nodes[1..][i] == nodes[i + 1];
      PartialRenders(nodes[1..], done, params, matches);
    }
  }

  /** Under `Isolated`, replacing placeholder texts one after another in the
      whole output is replacing each placeholder by its own value. */
  lemma {:induction false} LevelAgrees(nodes: seq<Node>, params: PArray, matches: (string, string) -> bool)
    requires Isolated(nodes, params) && Determined(nodes)
    ensures EvalLevel(nodes, params, matches) == EvalNodes(nodes, params, matches)
    decreases nodes, 1
  {
    if Vetoed(nodes, params, matches) {
      LevelVetoed(nodes, params, matches);
    } else {
      OptionalsAgree(nodes, params, matches);
      LevelFilled(nodes, params, matches);
    }
  }

  lemma {:induction false} OptionalsAgree(nodes: seq<Node>, params: PArray, matches: (string, string) -> bool)
    requires Isolated(nodes, params) && Determined(nodes)
    ensures forall i :: 0 <= i < |nodes| && nodes[i].Opt? ==>
              OptValue(nodes[i].body, params, matches) == EvalOptional(nodes[i].body, params, matches)
    decreases nodes, 0
  {
    forall i | 0 <= i < |nodes| && nodes[i].Opt?
      ensures OptValue(nodes[i].body, params, matches) == EvalOptional(nodes[i].body, params, matches)
    {
      var b := nodes[i].body;
      assert Isolated(b, params) && Determined(b);
      if '{' in Unparse(b) {
        LevelAgrees(b, params, matches);
      }
    }
  }

  lemma LevelVetoed(nodes: seq<Node>, params: PArray, matches: (string, string) -> bool)
    requires Vetoed(nodes, params, matches)
    ensures EvalLevel(nodes, params, matches) == ""
  {
    var hs := Holes(nodes);
    HolesOf(nodes);
    ReplaceHolesFails(Partial(nodes, {}, 0, params), hs, params, matches);
    var i :| 0 <= i < |nodes| && nodes[i].Hole? && !Holds(nodes[i], params, matches);
    var j :| 0 <= j < |hs| && hs[j] == nodes[i];
  }

  lemma LevelFilled(nodes: seq<Node>, params: PArray, matches: (string, string) -> bool)
    requires Isolated(nodes, params) && Determined(nodes) && !Vetoed(nodes, params, matches)
    requires forall i :: 0 <= i < |nodes| && nodes[i].Opt? ==>
               OptValue(nodes[i].body, params, matches) == EvalOptional(nodes[i].body, params, matches)
    ensures EvalLevel(nodes, params, matches) == Trim(Render(nodes, params, matches))
  {
    var done := AllReplaced(nodes, params, matches);
    assert Filled(nodes, done, params, matches);
    if OptValues(nodes, params, matches) == [] {
      FilledPlain(nodes, done, params, matches);
    } else {
      FilledSpliced(nodes, done, params, matches);
    }
  }

  lemma FilledPlain(nodes: seq<Node>, done: set<string>, params: PArray, matches: (string, string) -> bool)
    requires Filled(nodes, done, params, matches) && OptValues(nodes, params, matches) == []
    requires ReplaceHoles(Partial(nodes, {}, 0, params), Holes(nodes), params, matches) == Some(Partial(nodes, done, 0, params))
    ensures EvalLevel(nodes, params, matches) == Trim(Render(nodes, params, matches))
  {
    LevelPlain(nodes, Partial(nodes, done, 0, params), params, matches);
    PartialRenders(nodes, done, params, matches);
  }

  lemma FilledSpliced(nodes: seq<Node>, done: set<string>, params: PArray, matches: (string, string) -> bool)
    requires Isolated(nodes, params) && Filled(nodes, done, params, matches) && OptValues(nodes, params, matches) != []
    requires ReplaceHoles(Partial(nodes, {}, 0, params), Holes(nodes), params, matches) == Some(Partial(nodes, done, 0, params))
    ensures EvalLevel(nodes, params, matches) == Trim(Render(nodes, params, matches))
  {
    var args := OptValues(nodes, params, matches);
    assert args[0..|args|] == args;
    FilledSpliceable(nodes, done, params, matches);
    SprintfFilled(nodes, done, 0, args, params, matches);
    LevelSpliced(nodes, Partial(nodes, done, 0, params), Render(nodes, params, matches), params, matches);
  }

  /** A level whose placeholder loop succeeds and which has no optional segment. */
  lemma LevelPlain(nodes: seq<Node>, output: string, params: PArray, matches: (string, string) -> bool)
    requires ReplaceHoles(Partial(nodes, {}, 0, params), Holes(nodes), params, matches) == Some(output)
    requires OptValues(nodes, params, matches) == []
    ensures EvalLevel(nodes, params, matches) == Trim(output)
  {
  }

  /** A level whose placeholder loop succeeds and which has optional segments. */
  lemma LevelSpliced(nodes: seq<Node>, output: string, spliced: string, params: PArray, matches: (string, string) -> bool)
    requires ReplaceHoles(Partial(nodes, {}, 0, params), Holes(nodes), params, matches) == Some(output)
    requires OptValues(nodes, params, matches) != [] && Sprintf(output, OptValues(nodes, params, matches)) == spliced
    ensures EvalLevel(nodes, params, matches) == Trim(spliced)
  {
  }

  /** With no placeholder failing, the loop replaces every placeholder's text. */
  lemma AllReplaced(nodes: seq<Node>, params: PArray, matches: (string, string) -> bool) returns (done: set<string>)
    requires Isolated(nodes, params) && Determined(nodes) && !Vetoed(nodes, params, matches)
    ensures forall i :: 0 <= i < |nodes| && nodes[i].Hole? ==> nodes[i].raw in done
    ensures ReplaceHoles(Partial(nodes, {}, 0, params), Holes(nodes), params, matches) == Some(Partial(nodes, done, 0, params))
  {
    var hs := Holes(nodes);
    forall i | 0 <= i < |hs| ensures Holds(hs[i], params, matches) {
      var j :| 0 <= j < |nodes| && nodes[j] == hs[i];
    }
    ReplaceFold(nodes, {}, hs, params, matches);
    done := {} + Raws(hs);
    HolesOf(nodes);
    forall i | 0 <= i < |nodes| && nodes[i].Hole? ensures nodes[i].raw in done {
      var j :| 0 <= j < |hs| && hs[j] == nodes[i];
    }
  }

  /** The source's evaluation and the node-by-node reading give the same
      value whenever no replacement can be mistaken for a placeholder or a
      directive. */
  lemma EvaluateAgrees(s: string, params: PArray, matches: (string, string) -> bool)
    requires '{' in s ==> Isolated(Parse(s), params)
    ensures Evaluate(s, params, matches) == EvaluateTree(s, params, matches)
  {
    if '{' in s {
      ParsedDetermined(s);
      LevelAgrees(Parse(s), params, matches);
    }
  }

  /** With the placeholder read first, `{a:[0-9]+}` shows a number that matches. */
  lemma BracketInRegexEvaluated(s: string, params: PArray, matches: (string, string) -> bool)
    requires s == "{a:[0-9]+}" && params == [Entry(StrKey("a"), Str("42"))]
    requires matches("[0-9]+", "42")
    ensures Evaluate(s, params, matches) == "42"
  {
    var h := Hole(s, false, false, "a", Some("[0-9]+"));
    BracketInRegexParsed(s);
    assert '{' in s by {
      assert s[0] == '{';
    }
    assert ParamValue(params, "a") == Str("42") by {
      assert NormKey("a") == StrKey("a");
    }
    assert Holds(h, params, matches);
    EvaluateOneHole(s, h, params, matches);
    assert Trim("42") == "42" by {
      TrimDigits("42");
    }
  }

  // ---------------------------------------------------------------------------
  // The parse cache and the evaluator

  /** The placeholder loop of `evaluateExpression`. */
  method ReplacePlaceholders(template: string, hs: seq<Node>, params: PArray, matches: (string, string) -> bool)
    returns (output: Option<string>)
    requires forall i :: 0 <= i < |hs| ==> hs[i].Hole?
    ensures output == ReplaceHoles(template, hs, params, matches)
  {
    var out := template;
    var i := 0;
    while i < |hs|
      invariant 0 <= i <= |hs|
      invariant ReplaceHoles(out, hs[i..], params, matches) == ReplaceHoles(template, hs, params, matches)
    {
      assert hs[i..][0] == hs[i] && hs[i..][1..] == hs[i + 1..];
      if !Holds(hs[i], params, matches) {
        return None;
      }
      out := StrReplace(out, hs[i].raw, Substitute(hs[i], params));
      i := i + 1;
    }
    return Some(out);
  }

  /** The parser's memo table (a static array in the source), shared by every evaluation. */
  class ExpressionEngine {
    var memo: map<string, seq<Node>>

    ghost predicate Valid()
      reads this
    {
      forall s {:trigger memo[s]} :: s in memo ==> memo[s] == Parse(s)
    }

    constructor ()
      ensures Valid() && memo == map[]
    {
      memo := map[];
    }

    /** A cached parse is returned as it was stored; a new one is stored. */
    method ParseExpression(s: string) returns (nodes: seq<Node>)
      requires Valid()
      modifies this
      ensures Valid()
      ensures nodes == Parse(s)
      ensures memo == old(memo)[s := nodes]
    {
      if s in memo {
        nodes := memo[s];
        return;
      }
      nodes := Parse(s);
      memo := memo[s := nodes];
    }

    /** Evaluates an expression: the placeholders in order, each replaced
        throughout the output, returning nothing at the first that fails;
        then each optional segment evaluated recursively and spliced into
        its slot by `sprintf`. */
    method EvaluateExpression(s: string, params: PArray, matches: (string, string) -> bool)
      returns (r: string)
      requires Valid()
      modifies this
      ensures Valid()
      ensures r == Evaluate(s, params, matches)
      decreases |s|, 1
    {
      if '{' !in s {
        return Trim(s);
      }
      var nodes := ParseExpression(s);
      ParseRoundTrip(s);
      ParsedReparses(s);
      var output := ReplacePlaceholders(Partial(nodes, {}, 0, params), Holes(nodes), params, matches);
      if output.None? {
        return "";
      }
      var args := OptionalValues(nodes, params, matches);
      if args == [] {
        r := Trim(output.value);
      } else {
        r := Trim(Sprintf(output.value, args));
      }
    }

    /** The values of the optional segments of one level, each evaluated
        from its own text. */
    method OptionalValues(nodes: seq<Node>, params: PArray, matches: (string, string) -> bool)
      returns (args: seq<string>)
      requires Valid() && Reparses(nodes)
      modifies this
      ensures Valid()
      ensures args == OptValues(nodes, params, matches)
      decreases |Unparse(nodes)|, 0
    {
      args := [];
      var i := 0;
      while i < |nodes|
        invariant 0 <= i <= |nodes|
        invariant Valid()
        invariant args + OptValues(nodes[i..], params, matches) == OptValues(nodes, params, matches)
      {
        OptValuesAt(nodes, i, params, matches);
        var tail := OptValues(nodes[i + 1..], params, matches);
        if nodes[i].Opt? {
          UnparseOptLength(nodes, i);
          var value := EvaluateExpression(Unparse(nodes[i].body), params, matches);
          OptValueFromText(nodes[i].body, params, matches);
          Regroup(args, [value], tail);
          args := args + [value];
        } else {
          Regroup(args, [], tail);
        }
        i := i + 1;
      }
      assert nodes[i..] == [];
      Regroup(args, [], []);
    }
  }
}
