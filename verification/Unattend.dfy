/** Filling an unattend template: one string replacement per value, then a check for tokens left over. */
module Unattend {
  /** A template read as text and {NAME} tokens. */
  datatype Part = Lit(s: string) | Tok(name: string)

  function Token(name: string): string { "{" + name + "}" }

  function RenderPart(p: Part): string {
    match p
    case Lit(s) => s
    case Tok(name) => Token(name)
  }

  function Render(parts: seq<Part>): string {
    if parts == [] then "" else RenderPart(parts[0]) + Render(parts[1..])
  }

  predicate BraceFree(s: string) { '{' !in s && '}' !in s }

  /** Text holds no opening brace, and names hold no brace. */
  predicate GoodPart(p: Part) {
    match p
    case Lit(s) => '{' !in s
    case Tok(name) => BraceFree(name)
  }

  predicate Good(parts: seq<Part>) { forall i :: 0 <= i < |parts| ==> GoodPart(parts[i]) }

  function EscapeChar(c: char): string {
    if c == '<' then "&lt;"
    else if c == '>' then "&gt;"
    else if c == '"' then "&quot;"
    else if c == '\'' then "&apos;"
    else if c == '&' then "&amp;"
    else [c]
  }

  /** SecurityElement.Escape. */
  function Escape(s: string): string {
    if s == "" then "" else EscapeChar(s[0]) + Escape(s[1..])
  }

  /** The character an XML text starts with, and how much of the text stands for it: one of the predefined entities,
      or one character. */
  function FirstChar(s: string): (r: (char, nat))
    requires s != ""
    ensures 1 <= r.1 <= |s|
  {
    if s[0] != '&' then (s[0], 1)
    else if "&lt;" <= s then ('<', 4)
    else if "&gt;" <= s then ('>', 4)
    else if "&quot;" <= s then ('"', 6)
    else if "&apos;" <= s then ('\'', 6)
    else if "&amp;" <= s then ('&', 5)
    else ('&', 1)
  }

  /** The predefined entities of XML, read back. */
  function Unescape(s: string): string {
    if s == "" then "" else [FirstChar(s).0] + Unescape(s[FirstChar(s).1..])
  }

  lemma FirstCharOfEscaped(c: char, rest: string)
    ensures FirstChar(EscapeChar(c) + rest) == (c, |EscapeChar(c)|)
  {
    var e := EscapeChar(c);
    assert e <= e + rest && (e + rest)[0] == e[0];
    if e[0] == '&' { assert (e + rest)[1] == e[1] && (e + rest)[2] == e[2]; }
  }

  lemma UnescapeFirst(c: char, rest: string)
    ensures Unescape(EscapeChar(c) + rest) == [c] + Unescape(rest)
  {
    FirstCharOfEscaped(c, rest);
    assert (EscapeChar(c) + rest)[|EscapeChar(c)|..] == rest;
  }

  /** Character by character: five entities, and everything else as it is. */
  lemma EscapeLiterals(c: char, rest: string)
    ensures Escape("") == ""
    ensures Escape("<" + rest) == "&lt;" + Escape(rest) && Escape(">" + rest) == "&gt;" + Escape(rest)
    ensures Escape("\"" + rest) == "&quot;" + Escape(rest) && Escape("'" + rest) == "&apos;" + Escape(rest)
    ensures Escape("&" + rest) == "&amp;" + Escape(rest)
    ensures c != '<' && c != '>' && c != '"' && c != '\'' && c != '&' ==> Escape([c] + rest) == [c] + Escape(rest)
  {
    EscapeStep('<', rest);
    EscapeStep('>', rest);
    EscapeStep('"', rest);
    EscapeStep('\'', rest);
    EscapeStep('&', rest);
    EscapeStep(c, rest);
  }

  lemma EscapeStep(c: char, rest: string)
    ensures Escape([c] + rest) == EscapeChar(c) + Escape(rest)
  {
    var s := [c] + rest;
    assert s[0] == c && s[1..] == rest;
  }

  /** An escaped value is read back as the value. */
  lemma {:induction false} EscapedReadsBack(s: string)
    ensures Unescape(Escape(s)) == s
  {
    if s != "" {
      EscapedReadsBack(s[1..]);
      UnescapeFirst(s[0], Escape(s[1..]));
    }
  }

  predicate NoMarkup(s: string) { '<' !in s && '>' !in s && '"' !in s && '\'' !in s }

  /** An escaped value can neither open nor close an element or an attribute. */
  lemma {:induction false} EscapedHasNoMarkup(s: string)
    ensures NoMarkup(Escape(s))
  {
    if s != "" {
      EscapedHasNoMarkup(s[1..]);
      EscapedCharHasNoMarkup(s[0]);
    }
  }

  lemma EscapedCharHasNoMarkup(c: char)
    ensures NoMarkup(EscapeChar(c))
  {
  }

  /** String.Replace: every occurrence, left to right, not looking again at what was put in. */
  function Replace(s: string, t: string, v: string): string
    requires t != ""
    decreases |s|
  {
    if s == "" then ""
    else if t <= s then v + Replace(s[|t|..], t, v)
    else [s[0]] + Replace(s[1..], t, v)
  }

  /** The simultaneous substitution: each token with a value becomes that value, escaped. */
  function FillPart(p: Part, values: map<string, string>): Part {
    if p.Tok? && p.name in values then Lit(Escape(values[p.name])) else p
  }

  function Fill(parts: seq<Part>, values: map<string, string>): seq<Part> {
    seq(|parts|, i requires 0 <= i < |parts| => FillPart(parts[i], values))
  }

  // ---- one replacement ----

  /** No occurrence of t starts inside e, whatever follows e: no end of e is a front of t or begins with t. */
  predicate Inert(e: string, t: string) {
    forall i :: 0 <= i < |e| ==> !(e[i..] <= t) && !(t <= e[i..])
  }

  lemma InertTail(e: string, t: string)
    requires e != "" && Inert(e, t)
    ensures Inert(e[1..], t)
  {
    forall i | 0 <= i < |e| - 1
      ensures !(e[1..][i..] <= t) && !(t <= e[1..][i..])
    {
      assert e[1..][i..] == e[i + 1..];
    }
  }

  lemma BraceFreeIsInert(e: string, t: string)
    requires '{' !in e && t != "" && t[0] == '{'
    ensures Inert(e, t)
  {
    forall i | 0 <= i < |e|
      ensures !(e[i..] <= t) && !(t <= e[i..])
    {
      assert e[i..][0] == e[i] && e[i] in e;
    }
  }

  /** A replacement passes over inert text as a whole. */
  lemma {:induction false} ReplaceSkips(a: string, rest: string, t: string, v: string)
    requires t != "" && Inert(a, t)
    ensures Replace(a + rest, t, v) == a + Replace(rest, t, v)
  {
    if a == "" {
      assert a + rest == rest;
    } else {
      var s := a + rest;
      assert s[0] == a[0] && s[1..] == a[1..] + rest;
      assert a[0..] == a;
      NoMatchAcross(a, rest, t);
      InertTail(a, t);
      ReplaceSkips(a[1..], rest, t, v);
      assert [a[0]] + (a[1..] + Replace(rest, t, v)) == a + Replace(rest, t, v);
    }
  }

  lemma NoMatchAcross(a: string, rest: string, t: string)
    ensures t <= a + rest ==> a <= t || t <= a
  {
    if t <= a + rest && |t| > |a| {
      assert a == (a + rest)[..|a|] == t[..|a|];
    }
  }

  /** Replacing a text by itself changes nothing. */
  lemma {:induction false} ReplaceBySelf(s: string, t: string)
    requires t != ""
    ensures Replace(s, t, t) == s
    decreases |s|
  {
    if s != "" {
      if t <= s {
        ReplaceBySelf(s[|t|..], t);
        assert s == t + s[|t|..];
      } else {
        ReplaceBySelf(s[1..], t);
        assert s == [s[0]] + s[1..];
      }
    }
  }

  /** Replacing by anything else changes every string in which the text occurs. */
  lemma {:induction false} ReplaceChanges(s: string, t: string, v: string, i: nat)
    requires t != "" && v != t && i <= |s| && t <= s[i..]
    ensures Replace(s, t, v) != s
    decreases |s|
  {
    if t <= s {
      ReplaceGrows(s, t, v);
      if |v| == |t| {
        assert Replace(s, t, v)[..|t|] == v && s[..|t|] == t;
      }
    } else {
      assert s[0..] == s;
      assert s[1..][i - 1..] == s[i..];
      ReplaceChanges(s[1..], t, v, i - 1);
      assert Replace(s, t, v)[1..] == Replace(s[1..], t, v);
    }
  }

  /** Each replacement changes the length by the same amount. */
  lemma {:induction false} ReplaceGrows(s: string, t: string, v: string)
    requires t != ""
    ensures |v| >= |t| ==> |Replace(s, t, v)| >= |s|
    ensures |v| <= |t| ==> |Replace(s, t, v)| <= |s|
    ensures s != "" && t <= s && |v| > |t| ==> |Replace(s, t, v)| > |s|
    ensures s != "" && t <= s && |v| < |t| ==> |Replace(s, t, v)| < |s|
    decreases |s|
  {
    if s != "" {
      ReplaceGrows(if t <= s then s[|t|..] else s[1..], t, v);
    }
  }

  /** A token's text is matched by its own name only. */
  lemma {:induction false} TokenMatch(name: string, k: string, rest: string)
    requires '}' !in name && '}' !in k
    ensures k + "}" <= name + "}" + rest <==> k == name
  {
    var a, b := k + "}", name + "}" + rest;
    if k == name {
      assert b == a + rest;
    } else if k != "" && name != "" && k[0] == name[0] {
      TokenMatch(name[1..], k[1..], rest);
      assert a[1..] == k[1..] + "}" && b[1..] == name[1..] + "}" + rest;
      assert k == [k[0]] + k[1..] && name == [k[0]] + name[1..];
      assert a == [k[0]] + a[1..] && b == [k[0]] + b[1..];
    } else {
      assert a[0] != b[0];
    }
  }

  lemma ReplaceAtToken(name: string, k: string, rest: string, v: string)
    requires BraceFree(name) && BraceFree(k)
    ensures Replace(Token(name) + rest, Token(k), v) == (if name == k then v else Token(name)) + Replace(rest, Token(k), v)
  {
    var s, t := Token(name) + rest, Token(k);
    var tail := name + "}" + rest;
    assert s == "{" + tail && s[1..] == tail && t[1..] == k + "}";
    TokenMatch(name, k, rest);
    assert t <= s <==> k + "}" <= tail by {
      if k + "}" <= tail { assert "{" + (k + "}") <= "{" + tail; }
      if t <= s { assert t[1..] <= s[1..]; }
    }
    if name == k {
      assert s[|t|..] == rest;
    } else {
      BraceFreeIsInert(name + "}", t);
      ReplaceSkips(name + "}", rest, t, v);
      assert ["{"[0]] + (name + "}" + Replace(rest, t, v)) == Token(name) + Replace(rest, t, v);
    }
  }

  /** The values already put in are left alone by a replacement of k. */
  predicate Passed(values: map<string, string>, k: string) {
    forall j :: j in values ==> Inert(Escape(values[j]), Token(k))
  }

  /** On a well-read template, replacing one token's text substitutes exactly that token, provided the values put in
      before are passed over or the token stands for itself. */
  lemma {:induction false} ReplaceFillsOne(parts: seq<Part>, values: map<string, string>, k: string, value: string)
    requires Good(parts) && BraceFree(k) && k !in values
    requires Escape(value) != Token(k) ==> Passed(values, k)
    ensures Replace(Render(Fill(parts, values)), Token(k), Escape(value)) == Render(Fill(parts, values[k := value]))
    decreases |parts|
  {
    if Escape(value) == Token(k) {
      ReplaceBySelf(Render(Fill(parts, values)), Token(k));
      FillBySelf(parts, values, k, value);
    } else if parts != [] {
      var fill, more := Fill(parts, values), Fill(parts, values[k := value]);
      assert fill[1..] == Fill(parts[1..], values) && more[1..] == Fill(parts[1..], values[k := value]);
      ReplaceFillsOne(parts[1..], values, k, value);
      ReplaceAtPart(parts[0], values, k, value, Render(fill[1..]));
    }
  }

  lemma {:induction false} FillBySelf(parts: seq<Part>, values: map<string, string>, k: string, value: string)
    requires k !in values && Escape(value) == Token(k)
    ensures Render(Fill(parts, values[k := value])) == Render(Fill(parts, values))
  {
    if parts != [] {
      assert Fill(parts, values)[1..] == Fill(parts[1..], values);
      assert Fill(parts, values[k := value])[1..] == Fill(parts[1..], values[k := value]);
      FillBySelf(parts[1..], values, k, value);
    }
  }

  lemma ReplaceAtPart(p: Part, values: map<string, string>, k: string, value: string, rest: string)
    requires GoodPart(p) && BraceFree(k) && k !in values && Passed(values, k)
    ensures Replace(RenderPart(FillPart(p, values)) + rest, Token(k), Escape(value))
         == RenderPart(FillPart(p, values[k := value])) + Replace(rest, Token(k), Escape(value))
  {
    var t, v := Token(k), Escape(value);
    match FillPart(p, values)
    case Lit(s) =>
      if p.Lit? { BraceFreeIsInert(s, t); }
      ReplaceSkips(s, rest, t, v);
    case Tok(name) =>
      ReplaceAtToken(name, k, rest, v);
  }

  // ---- tokens left over ----

  predicate NameChar(c: char) { 'A' <= c <= 'Z' || '0' <= c <= '9' || c == '_' }

  predicate IsName(s: string) { s != "" && forall i :: 0 <= i < |s| ==> NameChar(s[i]) }

  function NameRun(s: string): (n: nat)
    ensures n <= |s|
  {
    if s != "" && NameChar(s[0]) then 1 + NameRun(s[1..]) else 0
  }

  /** The matches of \{[A-Z0-9_]+\}, left to right. */
  function Matches(s: string): seq<string>
    decreases |s|
  {
    if s == "" then []
    else
      var n := NameRun(s[1..]);
      if s[0] == '{' && n > 0 && n + 1 < |s| && s[n + 1] == '}' then [s[..n + 2]] + Matches(s[n + 2..])
      else Matches(s[1..])
  }

  /** Select-Object -Unique: the first of each. */
  function Unique(xs: seq<string>): seq<string> {
    if xs == [] then []
    else
      var front, last := Unique(xs[..|xs| - 1]), xs[|xs| - 1];
      if last in front then front else front + [last]
  }

  /** The tokens of parts a reader would recognise as such. */
  function Tokens(parts: seq<Part>): seq<string> {
    if parts == [] then []
    else (if parts[0].Tok? && IsName(parts[0].name) then [Token(parts[0].name)] else []) + Tokens(parts[1..])
  }

  lemma {:induction false} NameRunStops(name: string, rest: string)
    requires BraceFree(name)
    ensures NameRun(name + "}" + rest) == |name| <==> (forall i :: 0 <= i < |name| ==> NameChar(name[i]))
    ensures NameRun(name + "}" + rest) < |name| ==> (name + "}" + rest)[NameRun(name + "}" + rest)] != '}'
    ensures NameRun(name + "}" + rest) <= |name|
  {
    var s := name + "}" + rest;
    if name != "" {
      assert s[1..] == name[1..] + "}" + rest;
      NameRunStops(name[1..], rest);
      if NameChar(name[0]) {
        assert NameRun(s) == 1 + NameRun(s[1..]);
        if forall i :: 0 <= i < |name[1..]| ==> NameChar(name[1..][i]) {
          forall i | 0 <= i < |name| ensures NameChar(name[i]) {
            if i > 0 { assert name[i] == name[1..][i - 1]; }
          }
        }
      }
    }
  }

  /** Every opening brace in e is seen, inside e, not to open a recognisable token. */
  predicate Quiet(e: string) {
    forall i :: 0 <= i < |e| && e[i] == '{' ==> Settled(e, i)
  }

  predicate Settled(e: string, i: nat)
    requires i < |e|
  {
    var n := NameRun(e[i + 1..]);
    i + 1 + n < |e| && !(n > 0 && e[i + 1 + n] == '}')
  }

  lemma QuietTail(e: string)
    requires e != "" && Quiet(e)
    ensures Quiet(e[1..])
  {
    forall i | 0 <= i < |e| - 1 && e[1..][i] == '{'
      ensures Settled(e[1..], i)
    {
      assert e[i + 1] == '{' && Settled(e, i + 1);
      assert e[1..][i + 1..] == e[i + 2..];
    }
  }

  lemma {:induction false} NameRunEndsInside(s: string, rest: string)
    ensures NameRun(s) < |s| ==> NameRun(s + rest) == NameRun(s)
    ensures NameRun(s) == |s| ==> NameRun(s + rest) == |s| + NameRun(rest)
  {
    if s == "" {
      assert s + rest == rest;
    } else {
      assert (s + rest)[1..] == s[1..] + rest;
      NameRunEndsInside(s[1..], rest);
    }
  }

  lemma {:induction false} MatchesSkip(a: string, rest: string)
    requires Quiet(a)
    ensures Matches(a + rest) == Matches(rest)
  {
    if a == "" {
      assert a + rest == rest;
    } else {
      assert (a + rest)[1..] == a[1..] + rest;
      if a[0] == '{' {
        assert Settled(a, 0);
        NameRunEndsInside(a[1..], rest);
      }
      QuietTail(a);
      MatchesSkip(a[1..], rest);
    }
  }

  lemma MatchesAtToken(name: string, rest: string)
    requires BraceFree(name)
    ensures Matches(Token(name) + rest) == (if IsName(name) then [Token(name)] else []) + Matches(rest)
  {
    var s, tail := Token(name) + rest, name + "}" + rest;
    assert s[1..] == tail;
    NameRunStops(name, rest);
    var n := NameRun(tail);
    assert n < |tail| && s[n + 1] == tail[n];
    if IsName(name) {
      assert s[n + 1] == '}' && s[..n + 2] == Token(name) && s[n + 2..] == rest;
    } else {
      assert forall i :: 0 <= i < |name| ==> name[i] in name;
      MatchesSkip(name + "}", rest);
      assert name == "" ==> n == 0;
    }
  }

  /** A template, filled or not, in which only tokens look like tokens. */
  predicate OnlyTokens(parts: seq<Part>) {
    forall i :: 0 <= i < |parts| ==> if parts[i].Lit? then Quiet(parts[i].s) else BraceFree(parts[i].name)
  }

  lemma {:induction false} MatchesAreTokens(parts: seq<Part>)
    requires OnlyTokens(parts)
    ensures Matches(Render(parts)) == Tokens(parts)
  {
    if parts != [] {
      MatchesAreTokens(parts[1..]);
      match parts[0]
      case Lit(s) => MatchesSkip(s, Render(parts[1..]));
      case Tok(name) => MatchesAtToken(name, Render(parts[1..]));
    }
  }

  /** What is left after filling: the recognisable tokens of the template that have no value. */
  lemma {:induction false} UnfilledTokens(parts: seq<Part>, values: map<string, string>, t: string)
    ensures t in Tokens(Fill(parts, values)) <==>
            exists i :: 0 <= i < |parts| && parts[i].Tok? && IsName(parts[i].name) && parts[i].name !in values
                        && t == Token(parts[i].name)
  {
    if parts != [] {
      var fill := Fill(parts, values);
      assert fill[1..] == Fill(parts[1..], values);
      UnfilledTokens(parts[1..], values, t);
      if t in Tokens(fill[1..]) {
        var i :| 0 <= i < |parts[1..]| && parts[1..][i].Tok? && IsName(parts[1..][i].name)
                  && parts[1..][i].name !in values && t == Token(parts[1..][i].name);
        assert parts[i + 1] == parts[1..][i];
      }
      if i :| 0 <= i < |parts| && parts[i].Tok? && IsName(parts[i].name)
              && parts[i].name !in values && t == Token(parts[i].name) {
        if i > 0 { assert parts[1..][i - 1] == parts[i]; }
      }
    }
  }

  lemma {:induction false} UniqueSame(xs: seq<string>)
    ensures forall x :: x in Unique(xs) <==> x in xs
    ensures forall i, j :: 0 <= i < j < |Unique(xs)| ==> Unique(xs)[i] != Unique(xs)[j]
  {
    if xs != [] {
      UniqueSame(xs[..|xs| - 1]);
      assert xs == xs[..|xs| - 1] + [xs[|xs| - 1]];
    }
  }

  /** Wherever a match can be seen, there is one. */
  lemma {:induction false} SomeMatch(s: string, i: nat)
    requires i < |s| && s[i] == '{' && NameRun(s[i + 1..]) > 0
    requires i + 1 + NameRun(s[i + 1..]) < |s| && s[i + 1 + NameRun(s[i + 1..])] == '}'
    ensures Matches(s) != []
  {
    if i > 0 {
      assert s[1..][i..] == s[i + 1..];
      SomeMatch(s[1..], i - 1);
    }
  }

  /** A brace that is not settled opens a recognisable token, at once or once more text follows. */
  lemma UnsettledMatches(e: string, i: nat) returns (rest: string)
    requires i < |e| && e[i] == '{' && !Settled(e, i)
    ensures '{' !in rest && Matches(e + rest) != []
  {
    rest := if i + 1 + NameRun(e[i + 1..]) < |e| then "" else "A}";
    NameRunEndsInside(e[i + 1..], rest);
    assert (e + rest)[i + 1..] == e[i + 1..] + rest;
    NameRunOfAClosed();
    SomeMatch(e + rest, i);
  }

  lemma NameRunOfAClosed()
    ensures NameRun("A}") == 1 && NameRun("") == 0
  {
    assert "A}"[1..][0] == '}';
  }

  /** A token is reported exactly when its name is made of capital letters, digits and underscores, and not empty. */
  lemma TokenIsReported(name: string)
    requires BraceFree(name)
    ensures var recognised := name != "" && forall i :: 0 <= i < |name| ==>
                                               'A' <= name[i] <= 'Z' || '0' <= name[i] <= '9' || name[i] == '_';
            Matches("{" + name + "}") == if recognised then ["{" + name + "}"] else []
  {
    MatchesAtToken(name, "");
    assert Token(name) + "" == "{" + name + "}";
  }

  /** The list keeps the order in which tokens are first met. */
  lemma {:induction false} UniqueGrows(xs: seq<string>, ys: seq<string>)
    ensures Unique(xs) <= Unique(xs + ys)
    ensures forall x :: x !in xs ==> Unique(xs + [x]) == Unique(xs) + [x]
    decreases |ys|
  {
    forall x | x !in xs
      ensures Unique(xs + [x]) == Unique(xs) + [x]
    {
      UniqueSame(xs);
      assert (xs + [x])[..|xs|] == xs;
    }
    if ys == [] {
      assert xs + ys == xs;
    } else {
      var front := ys[..|ys| - 1];
      UniqueGrows(xs, front);
      assert (xs + ys)[..|xs + ys| - 1] == xs + front;
    }
  }

  // ---- the whole operation ----

  predicate NamesAreBraceFree(values: map<string, string>) { forall k :: k in values ==> BraceFree(k) }

  /** No value, once escaped, holds another key's token or could become one with the text behind it. A key that
      stands for itself does no harm. */
  predicate KeepApart(values: map<string, string>) {
    forall a, b :: a in values && b in values && a != b && Escape(values[b]) != Token(b) ==>
      Inert(Escape(values[a]), Token(b))
  }

  /** No value, once escaped, holds what the leftover check would take for a token, or could become it. */
  predicate AllQuiet(values: map<string, string>) { forall k :: k in values ==> Quiet(Escape(values[k])) }

  predicate Distinct(order: seq<string>) {
    forall i, j :: 0 <= i < j < |order| ==> order[i] != order[j]
  }

  /** Every key once. */
  ghost predicate IsOrder(order: seq<string>, values: map<string, string>) {
    Distinct(order) && forall k :: k in order <==> k in values
  }

  lemma FrontOfDistinct(order: seq<string>)
    requires order != [] && Distinct(order)
    ensures var (front, k) := (order[..|order| - 1], order[|order| - 1]);
            order == front + [k] && Distinct(front) && k !in front && forall x :: x in order <==> x in front || x == k
  {
    assert order == order[..|order| - 1] + [order[|order| - 1]];
  }

  function ReplaceAll(xml: string, order: seq<string>, values: map<string, string>): string
    requires forall k :: k in order ==> k in values
  {
    if order == [] then xml
    else
      var k := order[|order| - 1];
      Replace(ReplaceAll(xml, order[..|order| - 1], values), Token(k), Escape(values[k]))
  }

  /** The values of the first keys of an order. */
  function Taken(order: seq<string>, values: map<string, string>): map<string, string> {
    map k | k in order && k in values :: values[k]
  }

  lemma {:induction false} ReplaceAllFills(parts: seq<Part>, order: seq<string>, values: map<string, string>)
    requires Good(parts) && NamesAreBraceFree(values) && KeepApart(values)
    requires Distinct(order) && forall k :: k in order ==> k in values
    ensures ReplaceAll(Render(parts), order, values) == Render(Fill(parts, Taken(order, values)))
  {
    if order == [] {
      assert Fill(parts, Taken(order, values)) == parts;
    } else {
      var front, k := order[..|order| - 1], order[|order| - 1];
      FrontOfDistinct(order);
      ReplaceAllFills(parts, front, values);
      TakenOneMore(front, k, values);
      ReplaceFillsOne(parts, Taken(front, values), k, values[k]);
    }
  }

  lemma TakenOneMore(front: seq<string>, k: string, values: map<string, string>)
    requires k in values && k !in front && KeepApart(values)
    ensures Taken(front + [k], values) == Taken(front, values)[k := values[k]]
    ensures Escape(values[k]) != Token(k) ==> Passed(Taken(front, values), k)
  {
  }

  /** In any key order, one replacement after the other is the simultaneous substitution. */
  lemma ReplacedInAnyOrder(parts: seq<Part>, order: seq<string>, values: map<string, string>)
    requires Good(parts) && NamesAreBraceFree(values) && KeepApart(values) && IsOrder(order, values)
    ensures ReplaceAll(Render(parts), order, values) == Render(Fill(parts, values))
  {
    ReplaceAllFills(parts, order, values);
    assert Taken(order, values) == values;
  }

  /** The replacement loop, over the keys in the order the table yields them, then the leftover check. However the
      template is read into text and tokens, values that keep apart give the simultaneous substitution, and if they
      are quiet as well the warning names each recognisable token without a value once. */
  method SetUnattend(template: string, values: map<string, string>, order: seq<string>)
    returns (xml: string, left: seq<string>)
    requires IsOrder(order, values)
    ensures xml == ReplaceAll(template, order, values) && left == Unique(Matches(xml))
    ensures forall parts :: Good(parts) && NamesAreBraceFree(values) && template == Render(parts) && KeepApart(values) ==>
              && xml == Render(Fill(parts, values))
              && (AllQuiet(values) ==> left == Unique(Tokens(Fill(parts, values))))
  {
    xml := template;
    for i := 0 to |order|
      invariant xml == ReplaceAll(template, order[..i], values)
    {
      assert order[..i + 1][..i] == order[..i];
      xml := Replace(xml, Token(order[i]), Escape(values[order[i]]));
    }
    assert order[..|order|] == order;
    left := Unique(Matches(xml));
    forall parts | Good(parts) && NamesAreBraceFree(values) && template == Render(parts) && KeepApart(values)
      ensures xml == Render(Fill(parts, values))
      ensures AllQuiet(values) ==> left == Unique(Tokens(Fill(parts, values)))
    {
      ReplacedInAnyOrder(parts, order, values);
      if AllQuiet(values) {
        FillIsQuiet(parts, values);
        MatchesAreTokens(Fill(parts, values));
      }
    }
  }

  lemma FillIsQuiet(parts: seq<Part>, values: map<string, string>)
    requires Good(parts) && AllQuiet(values)
    ensures OnlyTokens(Fill(parts, values))
  {
    forall i | 0 <= i < |parts|
      ensures var p := FillPart(parts[i], values); if p.Lit? then Quiet(p.s) else BraceFree(p.name)
    {
      if parts[i].Lit? {
        var s := parts[i].s;
        assert forall j :: 0 <= j < |s| ==> s[j] in s;
      }
    }
  }

  /** A token in plain text is filled with the escaped value. */
  lemma TokenFilled(before: string, k: string, after: string, v: string)
    requires '{' !in before && BraceFree(k) && '{' !in after
    ensures ReplaceAll(before + "{" + k + "}" + after, [k], map[k := v]) == before + Escape(v) + after
  {
    var order := [k];
    assert order[..0] == [] && before + "{" + k + "}" + after == before + (Token(k) + after);
    BraceFreeIsInert(before, Token(k));
    ReplaceSkips(before, Token(k) + after, Token(k), Escape(v));
    ReplacePlain(k, after, k, Escape(v));
    assert before + (Escape(v) + after) == before + Escape(v) + after;
  }

  // ---- exactly when the order does not show ----

  lemma {:induction false} Enumerate(keys: set<string>) returns (order: seq<string>)
    ensures forall k :: k in order <==> k in keys
    ensures Distinct(order)
    decreases keys
  {
    order := [];
    if keys != {} {
      var k :| k in keys;
      var rest := Enumerate(keys - {k});
      order := rest + [k];
    }
  }

  /** Keys other than a leave a template of a's token and plain text alone. */
  lemma {:induction false} OthersPass(a: string, rest: string, order: seq<string>, values: map<string, string>)
    requires NamesAreBraceFree(values) && a in values && '{' !in rest
    requires a !in order && forall k :: k in order ==> k in values
    ensures ReplaceAll(Token(a) + rest, order, values) == Token(a) + rest
  {
    if order != [] {
      var k := order[|order| - 1];
      OthersPass(a, rest, order[..|order| - 1], values);
      ReplacePlain(a, rest, k, Escape(values[k]));
    }
  }

  lemma ReplacePlain(a: string, rest: string, k: string, v: string)
    requires BraceFree(a) && BraceFree(k) && '{' !in rest
    ensures Replace(Token(a) + rest, Token(k), v) == (if a == k then v else Token(a)) + rest
  {
    ReplaceAtToken(a, k, rest, v);
    BraceFreeIsInert(rest, Token(k));
    ReplaceSkips(rest, "", Token(k), v);
    assert rest + "" == rest;
  }

  /** What must follow a's value for b's token to be seen across the seam. */
  lemma ClashShows(e: string, b: string) returns (rest: string, i: nat)
    requires BraceFree(b) && !Inert(e, Token(b))
    ensures '{' !in rest && i <= |e + rest| && Token(b) <= (e + rest)[i..]
  {
    var t := Token(b);
    i :| 0 <= i < |e| && (e[i..] <= t || t <= e[i..]);
    if t <= e[i..] {
      rest := "";
      assert e + rest == e;
    } else {
      rest := t[|e| - i..];
      assert forall j :: 0 < j < |t| ==> t[j] == (b + "}")[j - 1];
      assert forall j :: 0 <= j < |rest| ==> rest[j] != '{';
      assert (e + rest)[i..] == e[i..] + rest == t;
    }
  }

  lemma OrderOf(others: seq<string>, x: string, y: string, values: map<string, string>)
    requires x in values && y in values && x != y
    requires forall k :: k in others <==> k in values && k != x && k != y
    requires Distinct(others)
    ensures IsOrder(others + [x] + [y], values)
  {
    var order := others + [x] + [y];
    assert forall k :: k in order <==> k in others || k == x || k == y;
    assert forall i :: 0 <= i < |others| ==> order[i] == others[i] && order[i] in others;
  }

  /** A template of one token and plain text. */
  function TokenThen(a: string, rest: string): seq<Part> { [Tok(a), Lit(rest)] }

  lemma TokenThenText(a: string, rest: string, values: map<string, string>)
    requires a in values
    ensures Render(TokenThen(a, rest)) == Token(a) + rest
    ensures Fill(TokenThen(a, rest), values) == [Lit(Escape(values[a])), Lit(rest)]
    ensures Render(Fill(TokenThen(a, rest), values)) == Escape(values[a]) + rest
  {
    RenderPair(Tok(a), Lit(rest));
    RenderPair(Lit(Escape(values[a])), Lit(rest));
    assert Fill(TokenThen(a, rest), values) == [Lit(Escape(values[a])), Lit(rest)];
  }

  /** The last two keys decide. */
  lemma BothOrders(values: map<string, string>, others: seq<string>, a: string, b: string, rest: string)
    requires NamesAreBraceFree(values) && a in values && b in values && a != b && '{' !in rest
    requires a !in others && forall k :: k in others ==> k in values
    ensures ReplaceAll(Token(a) + rest, others + [b] + [a], values) == Escape(values[a]) + rest
    ensures ReplaceAll(Token(a) + rest, others + [a] + [b], values)
         == Replace(Escape(values[a]) + rest, Token(b), Escape(values[b]))
  {
    OthersPass(a, rest, others, values);
    ReplacePlain(a, rest, a, Escape(values[a]));
    ReplacePlain(a, rest, b, Escape(values[b]));
    LastTwo(Token(a) + rest, others, b, a, values);
    LastTwo(Token(a) + rest, others, a, b, values);
  }

  /** If a value clashes with another key's token, a template and two key orders show it: with b before a the template
      is filled as it should be, with b after a it is not. */
  lemma ClashMakesOrderShow(values: map<string, string>, a: string, b: string)
    returns (parts: seq<Part>, before: seq<string>, after: seq<string>)
    requires NamesAreBraceFree(values) && a in values && b in values && a != b
    requires Escape(values[b]) != Token(b) && !Inert(Escape(values[a]), Token(b))
    ensures Good(parts) && IsOrder(before, values) && IsOrder(after, values)
    ensures ReplaceAll(Render(parts), before, values) == Render(Fill(parts, values))
    ensures ReplaceAll(Render(parts), after, values) != Render(Fill(parts, values))
  {
    var rest, i := ClashShows(Escape(values[a]), b);
    var others := Enumerate(values.Keys - {a, b});
    parts, before, after := TokenThen(a, rest), others + [b] + [a], others + [a] + [b];
    TokenThenText(a, rest, values);
    OrderOf(others, b, a, values);
    OrderOf(others, a, b, values);
    BothOrders(values, others, a, b, rest);
    ReplaceChanges(Escape(values[a]) + rest, Token(b), Escape(values[b]), i);
  }

  lemma RenderPair(p: Part, q: Part)
    ensures Render([p, q]) == RenderPart(p) + RenderPart(q)
  {
    assert [p, q][1..] == [q] && [q][1..] == [];
    assert Render([q]) == RenderPart(q) + "";
  }

  lemma LastTwo(xml: string, front: seq<string>, x: string, y: string, values: map<string, string>)
    requires x in values && y in values && forall k :: k in front ==> k in values
    ensures ReplaceAll(xml, front + [x] + [y], values)
         == Replace(Replace(ReplaceAll(xml, front, values), Token(x), Escape(values[x])), Token(y), Escape(values[y]))
  {
    var one, two := front + [x], front + [x] + [y];
    assert one[..|one| - 1] == front && two[..|two| - 1] == one;
  }

  /** The key order never shows, in any template, exactly when the values keep apart. */
  lemma OrderNeverShowsExactly(values: map<string, string>)
    requires NamesAreBraceFree(values)
    ensures KeepApart(values) <==>
            forall parts, before, after :: Good(parts) && IsOrder(before, values) && IsOrder(after, values) ==>
              ReplaceAll(Render(parts), before, values) == ReplaceAll(Render(parts), after, values)
    ensures KeepApart(values) <==>
            forall parts, order :: Good(parts) && IsOrder(order, values) ==>
              ReplaceAll(Render(parts), order, values) == Render(Fill(parts, values))
  {
    if KeepApart(values) {
      forall parts, order | Good(parts) && IsOrder(order, values)
        ensures ReplaceAll(Render(parts), order, values) == Render(Fill(parts, values))
      {
        ReplacedInAnyOrder(parts, order, values);
      }
    } else {
      var a, b :| a in values && b in values && a != b && Escape(values[b]) != Token(b)
                  && !Inert(Escape(values[a]), Token(b));
      var parts, before, after := ClashMakesOrderShow(values, a, b);
    }
  }

  /** The leftover check lists exactly the unfilled tokens, in every template, exactly when the values are quiet. */
  lemma LeftoversExactly(values: map<string, string>)
    requires NamesAreBraceFree(values)
    ensures AllQuiet(values) <==>
            forall parts :: Good(parts) ==>
              Unique(Matches(Render(Fill(parts, values)))) == Unique(Tokens(Fill(parts, values)))
  {
    if AllQuiet(values) {
      forall parts | Good(parts)
        ensures Matches(Render(Fill(parts, values))) == Tokens(Fill(parts, values))
      {
        FillIsQuiet(parts, values);
        MatchesAreTokens(Fill(parts, values));
      }
    } else {
      var k :| k in values && !Quiet(Escape(values[k]));
      var parts := UnquietShows(values, k);
    }
  }

  lemma UnquietShows(values: map<string, string>, k: string) returns (parts: seq<Part>)
    requires NamesAreBraceFree(values) && k in values && !Quiet(Escape(values[k]))
    ensures Good(parts) && Unique(Matches(Render(Fill(parts, values)))) != Unique(Tokens(Fill(parts, values)))
  {
    var e := Escape(values[k]);
    var i :| 0 <= i < |e| && e[i] == '{' && !Settled(e, i);
    var rest := UnsettledMatches(e, i);
    parts := TokenThen(k, rest);
    TokenThenText(k, rest, values);
    TextHasNoTokens(e, rest);
    UniqueSame(Matches(e + rest));
    assert Matches(e + rest)[0] in Unique(Matches(e + rest));
  }

  lemma TextHasNoTokens(e: string, rest: string)
    ensures Unique(Tokens([Lit(e), Lit(rest)])) == []
  {
    var parts: seq<Part> := [Lit(e), Lit(rest)];
    assert parts[1..] == [Lit(rest)] && parts[1..][1..] == [];
    assert Tokens(parts[1..]) == [] + Tokens(parts[1..][1..]) == [];
    assert Tokens(parts) == [] + Tokens(parts[1..]) == [];
  }

  /** An instance: with one key's token as another's value, the order of the two shows. */
  lemma BracesMakeOrderMatter()
    ensures var t := Token("A") + Token("B");
            var (a, b) := (Escape(Token("B")), Escape("x"));
            Replace(Replace(t, Token("A"), a), Token("B"), b) != Replace(Replace(t, Token("B"), b), Token("A"), a)
  {
    var a, b := Token("B"), "x";
    EscapeToken();
    TwoTokens(a, b);
    ReplaceAtToken("B", "B", Token("B"), b);
    ReplaceOne("B", "B", b);
    ReplacePlain("A", "x", "A", a);
    assert |Token("B") + "x"| == 4 && |"x" + "x"| == 2;
  }

  lemma ReplaceOne(name: string, k: string, v: string)
    requires BraceFree(name) && BraceFree(k)
    ensures Replace(Token(name), Token(k), v) == if name == k then v else Token(name)
  {
    ReplacePlain(name, "", k, v);
    assert Token(name) + "" == Token(name) && v + "" == v;
  }

  lemma TwoTokens(a: string, b: string)
    ensures Replace(Token("A") + Token("B"), Token("A"), a) == a + Token("B")
    ensures Replace(Token("A") + Token("B"), Token("B"), b) == Token("A") + b
  {
    ReplaceAtToken("A", "A", Token("B"), a);
    ReplaceAtToken("A", "B", Token("B"), b);
    ReplaceOne("B", "A", a);
    ReplaceOne("B", "B", b);
  }

  lemma EscapeToken()
    ensures Escape(Token("B")) == Token("B") && Escape("x") == "x"
  {
  }
}
