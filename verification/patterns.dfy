/**
 Match patterns built from localised templates. A template is read as a
 sequence of tokens: each runtime placeholder (`%@` for an object, `%d` for an
 integer) is a wildcard and every other character stands for itself.
 LanguageDictionary.getRegexPattern renders that sequence as a Java regex
 string; `Compile` reads such a string back, as java.util.regex would, for the
 fragment of regex syntax the rendering produces.
 */
module Patterns {
  import opened Results
  import opened Strings

  datatype Token = Lit(c: char) | Wild

  /** The regex that getRegexPattern puts in place of a placeholder. */
  const Wildcard: string := "(.*){1}"

  /** A placeholder `%@` or `%d` starts at index `i` of `s`. */
  predicate PlaceholderAt(s: string, i: int) {
    0 <= i && i + 1 < |s| && s[i] == '%' && (s[i + 1] == '@' || s[i + 1] == 'd')
  }

  predicate NoPlaceholder(s: string) {
    forall i :: 0 <= i < |s| ==> !PlaceholderAt(s, i)
  }

  /** The token reading of a template: placeholders become `Wild`, scanning left to right. */
  function Tokenize(t: string): seq<Token>
    decreases |t|
  {
    if PlaceholderAt(t, 0) then [Wild] + Tokenize(t[2..])
    else if t == [] then []
    else [Lit(t[0])] + Tokenize(t[1..])
  }

  /** Writes tokens back as text, spelling each `Wild` as `rep`. */
  function Render(toks: seq<Token>, rep: string): string
    decreases |toks|
  {
    if toks == [] then []
    else (match toks[0] case Lit(c) => [c] case Wild => rep) + Render(toks[1..], rep)
  }

  function WildCount(toks: seq<Token>): nat
    decreases |toks|
  {
    if toks == [] then 0 else (if toks[0].Wild? then 1 else 0) + WildCount(toks[1..])
  }

  /**
   getRegexPattern: first every `%@`, then every `%d` is replaced by the
   wildcard. The result is the template's token reading rendered with the
   wildcard: each placeholder replaced, every other character kept in order,
   and no placeholder left.
   */
  function GetRegexPattern(original: string): (p: string)
    ensures p == Render(Tokenize(original), Wildcard)
    ensures NoPlaceholder(p)
  {
    WildcardIsInert();
    TwoPassReplace(original, Wildcard);
    RenderHasNoPlaceholder(original, Wildcard);
    ReplaceAll(ReplaceAll(original, "%@", Wildcard), "%d", Wildcard)
  }

  /**
   A replacement text that the second pass (`%d`) cannot disturb: it does not
   start with `d`, does not end with `%` and holds no `%d` itself.
   */
  predicate Inert(rep: string) {
    |rep| > 0 && rep[0] != 'd' && rep[|rep| - 1] != '%' && forall i :: 0 <= i < |rep| ==> !OccursAt(rep, "%d", i)
  }

  lemma WildcardIsInert()
    ensures forall i :: 0 <= i < |Wildcard| ==> Wildcard[i] != '%'
    ensures Inert(Wildcard)
    ensures Wildcard[0] != '@' && Wildcard[0] != 'd'
  {
    forall i | 0 <= i < |Wildcard|
      ensures !OccursAt(Wildcard, "%d", i)
    {
      assert Wildcard[i] != '%';
    }
  }

  lemma FormatMarkerIsInert()
    ensures Inert("%s")
  {
    assert "%s"[1] != 'd';
  }

  /** The first character of a template's rendering. */
  lemma RenderHead(t: string, rep: string)
    requires t != [] && |rep| > 0
    ensures var r := Render(Tokenize(t), rep);
      |r| > 0 && r[0] == (if PlaceholderAt(t, 0) then rep[0] else t[0])
  {
  }

  /**
   The two replacement passes equal one left-to-right pass that replaces both
   placeholder kinds, for any inert replacement text.
   */
  lemma {:induction false} TwoPassReplace(t: string, rep: string)
    requires Inert(rep)
    ensures ReplaceAll(ReplaceAll(t, "%@", rep), "%d", rep) == Render(Tokenize(t), rep)
    decreases |t|
  {
    if PlaceholderAt(t, 0) {
      var u := t[2..];
      var ru := ReplaceAll(u, "%@", rep);
      TwoPassReplace(u, rep);
      if t[1] == '@' {
        assert t[..2] == "%@";
        assert ReplaceAll(t, "%@", rep) == rep + ru;
        ReplaceAllConcat(rep, ru, "%d", rep);
        ReplaceAllAbsent(rep, "%d", rep);
      } else {
        assert t[..2] == "%d" != "%@";
        var t1 := t[1..];
        assert !(2 <= |t1| && t1[..2] == "%@") by { assert t1[0] == 'd'; }
        assert t1[1..] == u;
        assert ReplaceAll(t1, "%@", rep) == ['d'] + ru;
        assert ReplaceAll(t, "%@", rep) == ['%'] + (['d'] + ru);
        var x := ['%'] + (['d'] + ru);
        assert x[..2] == "%d" && x[2..] == ru;
      }
    } else if t != [] {
      var t1 := t[1..];
      var r1 := ReplaceAll(t1, "%@", rep);
      TwoPassReplace(t1, rep);
      assert |t| >= 2 ==> t[..2] != "%@";
      assert ReplaceAll(t, "%@", rep) == [t[0]] + r1;
      if t1 != [] {
        ReplaceAllHead(t1, "%@", rep);
        if OccursAt(t1, "%@", 0) {
          assert t1[..2] == "%@";
        }
        assert t[0] == '%' ==> r1[0] != 'd';
      }
      ReplaceAllConcat([t[0]], r1, "%d", rep);
      assert ReplaceAll([t[0]], "%d", rep) == [t[0]];
    }
  }

  /**
   Rendering with a text free of `%` that does not start with `@` or `d`
   leaves no placeholder behind.
   */
  lemma {:induction false} RenderHasNoPlaceholder(t: string, rep: string)
    requires |rep| > 0 && rep[0] != '@' && rep[0] != 'd'
    requires forall i :: 0 <= i < |rep| ==> rep[i] != '%'
    ensures NoPlaceholder(Render(Tokenize(t), rep))
    decreases |t|
  {
    var r := Render(Tokenize(t), rep);
    if PlaceholderAt(t, 0) {
      var r' := Render(Tokenize(t[2..]), rep);
      RenderHasNoPlaceholder(t[2..], rep);
      assert r == rep + r';
      forall i | 0 <= i < |r|
        ensures !PlaceholderAt(r, i)
      {
        if i >= |rep| {
          assert r[i] == r'[i - |rep|];
          if i + 1 < |r| { assert r[i + 1] == r'[i + 1 - |rep|]; }
          assert !PlaceholderAt(r', i - |rep|);
        } else {
          assert r[i] == rep[i];
        }
      }
    } else if t != [] {
      var r' := Render(Tokenize(t[1..]), rep);
      RenderHasNoPlaceholder(t[1..], rep);
      assert r == [t[0]] + r';
      forall i | 0 <= i < |r|
        ensures !PlaceholderAt(r, i)
      {
        if i >= 1 {
          assert r[i] == r'[i - 1];
          if i + 1 < |r| { assert r[i + 1] == r'[i]; }
          assert !PlaceholderAt(r', i - 1);
        } else if |t| > 1 && t[0] == '%' {
          RenderHead(t[1..], rep);
          assert t[1] != '@' && t[1] != 'd';
          assert r[1] == r'[0];
        }
      }
    }
  }

  /** The characters java.util.regex reads as operators rather than literally. */
  predicate IsMeta(c: char) {
    c in "\\^$.|?*+()[]{}"
  }

  predicate NoMeta(s: string) {
    forall i :: 0 <= i < |s| ==> !IsMeta(s[i])
  }

  /**
   Reads a regex string made of wildcard blocks and non-metacharacters, which
   java.util.regex interprets exactly as the token semantics below. Any other
   string is outside this fragment (`None`).
   */
  function Compile(p: string): Option<seq<Token>>
    decreases |p|
  {
    if p == [] then Some([])
    else if |Wildcard| <= |p| && p[..|Wildcard|] == Wildcard then
      var rest :- Compile(p[|Wildcard|..]);
      Some([Wild] + rest)
    else if IsMeta(p[0]) then None
    else
      var rest :- Compile(p[1..]);
      Some([Lit(p[0])] + rest)
  }

  /**
   Whole-string match: a literal matches its own character, a wildcard
   `(.*){1}` matches any run, possibly empty, without line terminators.
   */
  predicate MatchTokens(toks: seq<Token>, s: string)
    decreases |toks|
  {
    if toks == [] then s == []
    else match toks[0]
      case Lit(c) => |s| > 0 && s[0] == c && MatchTokens(toks[1..], s[1..])
      case Wild => exists k :: 0 <= k <= |s| && NoLineTerminator(s[..k]) && MatchTokens(toks[1..], s[k..])
  }

  /** Every literal of the token reading of a metacharacter-free template is a non-metacharacter. */
  lemma {:induction false} TokenizeNoMeta(t: string)
    requires NoMeta(t)
    ensures forall j :: 0 <= j < |Tokenize(t)| && Tokenize(t)[j].Lit? ==> !IsMeta(Tokenize(t)[j].c)
    decreases |t|
  {
    if PlaceholderAt(t, 0) {
      TokenizeNoMeta(t[2..]);
    } else if t != [] {
      assert !IsMeta(t[0]);
      TokenizeNoMeta(t[1..]);
    }
  }

  /** Compiling a rendering whose literals are non-metacharacters gives back the tokens. */
  lemma {:induction false} CompileRender(toks: seq<Token>)
    requires forall j :: 0 <= j < |toks| && toks[j].Lit? ==> !IsMeta(toks[j].c)
    ensures Compile(Render(toks, Wildcard)) == Some(toks)
    decreases |toks|
  {
    if toks != [] {
      var p := Render(toks, Wildcard);
      var r' := Render(toks[1..], Wildcard);
      CompileRender(toks[1..]);
      match toks[0]
      case Lit(c) =>
        assert p == [c] + r';
        assert !IsMeta(c);
        assert p[0] == c;
        assert p[1..] == r';
        assert |Wildcard| <= |p| ==> p[..|Wildcard|] != Wildcard by {
          if |Wildcard| <= |p| { assert p[..|Wildcard|][0] == c; assert Wildcard[0] == '('; }
        }
        assert [Lit(c)] + toks[1..] == toks;
      case Wild =>
        assert p == Wildcard + r';
        assert p[..|Wildcard|] == Wildcard;
        assert p[|Wildcard|..] == r';
        assert [Wild] + toks[1..] == toks;
    }
  }

  /**
   The pattern built from a metacharacter-free template lies in the compiled
   fragment, and compiles to the template's token reading.
   */
  lemma PatternCompiles(t: string)
    requires NoMeta(t)
    ensures Compile(GetRegexPattern(t)) == Some(Tokenize(t))
  {
    TokenizeNoMeta(t);
    CompileRender(Tokenize(t));
  }

  /** A placeholder-free template is read as one literal per character. */
  lemma {:induction false} LiteralTemplateMatch(t: string, s: string)
    requires NoPlaceholder(t)
    ensures MatchTokens(Tokenize(t), s) <==> s == t
    decreases |t|
  {
    assert !PlaceholderAt(t, 0);
    if t != [] {
      forall i ensures !PlaceholderAt(t[1..], i) {
        if PlaceholderAt(t[1..], i) { assert PlaceholderAt(t, i + 1); }
      }
      if |s| > 0 {
        LiteralTemplateMatch(t[1..], s[1..]);
        if s[0] == t[0] && s[1..] == t[1..] {
          assert s == [s[0]] + s[1..] && t == [t[0]] + t[1..];
        }
      }
    }
  }

  /**
   A placeholder-free prefix followed by one wildcard matches exactly the
   strings that start with the prefix and continue without a line terminator.
   */
  lemma {:induction false} PrefixWildMatch(prefix: string, s: string)
    requires NoPlaceholder(prefix)
    ensures MatchTokens(Tokenize(prefix) + [Wild], s)
        <==> |prefix| <= |s| && s[..|prefix|] == prefix && NoLineTerminator(s[|prefix|..])
    decreases |prefix|
  {
    var toks := Tokenize(prefix) + [Wild];
    assert !PlaceholderAt(prefix, 0);
    if prefix == [] {
      assert toks == [Wild];
      assert toks[1..] == [];
      if NoLineTerminator(s) {
        assert s[..|s|] == s;
        assert NoLineTerminator(s[..|s|]) && MatchTokens(toks[1..], s[|s|..]);
      }
      if MatchTokens(toks, s) {
        var k :| 0 <= k <= |s| && NoLineTerminator(s[..k]) && MatchTokens(toks[1..], s[k..]);
        assert k == |s|;
        assert s[..k] == s;
      }
    } else {
      forall i ensures !PlaceholderAt(prefix[1..], i) {
        if PlaceholderAt(prefix[1..], i) { assert PlaceholderAt(prefix, i + 1); }
      }
      assert toks == [Lit(prefix[0])] + (Tokenize(prefix[1..]) + [Wild]);
      assert toks[1..] == Tokenize(prefix[1..]) + [Wild];
      if |s| > 0 {
        PrefixWildMatch(prefix[1..], s[1..]);
        if |prefix| <= |s| {
          assert s[1..][|prefix| - 1..] == s[|prefix|..];
          assert s[..|prefix|] == [s[0]] + s[1..][..|prefix| - 1];
          assert prefix == [prefix[0]] + prefix[1..];
        }
      }
    }
  }

  /** Splitting a template between two positions that no placeholder straddles. */
  lemma {:induction false} TokenizeConcat(a: string, b: string)
    requires !(|a| > 0 && |b| > 0 && a[|a| - 1] == '%' && (b[0] == '@' || b[0] == 'd'))
    ensures Tokenize(a + b) == Tokenize(a) + Tokenize(b)
    decreases |a|
  {
    if a == [] {
      assert a + b == b;
    } else if PlaceholderAt(a, 0) {
      assert PlaceholderAt(a + b, 0);
      assert (a + b)[2..] == a[2..] + b;
      TokenizeConcat(a[2..], b);
    } else {
      assert !PlaceholderAt(a + b, 0);
      assert (a + b)[1..] == a[1..] + b;
      TokenizeConcat(a[1..], b);
    }
  }
}
