/**
 The part of java.lang.String.format that LanguageDictionary.translate uses:
 after translate has turned every placeholder into `%s`, the format string is
 filled with the captured arguments in order.
 */
module Formatting {
  import opened Results
  import opened Strings
  import opened Patterns

  /**
   The format string uses only the conversions modelled here, `%s` and `%%`.
   Any other `%` sequence is outside the model: Java may format it (`%n`,
   `%5s`, `%1$s`, ...) or throw for an unknown conversion, and the model
   reports `FormatNotModelled` for all of them before looking at arguments.
   */
  predicate Supported(fmt: string)
    decreases |fmt|
  {
    if fmt == [] then true
    else if fmt[0] != '%' then Supported(fmt[1..])
    else 2 <= |fmt| && (fmt[1] == 's' || fmt[1] == '%') && Supported(fmt[2..])
  }

  /** Fills a supported format string: `%s` takes the next argument, `%%` gives `%`. */
  function Substitute(fmt: string, args: seq<string>): Result<string>
    requires Supported(fmt)
    decreases |fmt|
  {
    if fmt == [] then Ok([])
    else if fmt[0] != '%' then
      var rest :- Substitute(fmt[1..], args);
      Ok([fmt[0]] + rest)
    else if fmt[1] == '%' then
      var rest :- Substitute(fmt[2..], args);
      Ok(['%'] + rest)
    else if args == [] then Err(MissingFormatArgument)
    else
      var rest :- Substitute(fmt[2..], args[1..]);
      Ok(args[0] + rest)
  }

  /**
   String.format(fmt, args): unsupported conversions fail, too few arguments
   fail, arguments beyond the last `%s` are ignored.
   */
  function Format(fmt: string, args: seq<string>): Result<string> {
    if Supported(fmt) then Substitute(fmt, args) else Err(FormatNotModelled)
  }

  /** Reference instantiation of a token sequence: the i-th wildcard becomes the i-th argument. */
  function Fill(toks: seq<Token>, args: seq<string>): string
    requires WildCount(toks) <= |args|
    decreases |toks|
  {
    if toks == [] then []
    else match toks[0]
      case Lit(c) => [c] + Fill(toks[1..], args)
      case Wild => args[0] + Fill(toks[1..], args[1..])
  }

  /** Every `%` of the template begins a placeholder: there is no other `%` sequence. */
  predicate PercentOnlyInPlaceholders(t: string) {
    forall i :: 0 <= i < |t| && t[i] == '%' ==> PlaceholderAt(t, i)
  }

  lemma PercentOnlyInPlaceholdersSuffix(t: string, n: nat)
    requires PercentOnlyInPlaceholders(t) && n <= |t|
    ensures PercentOnlyInPlaceholders(t[n..])
  {
    forall i | 0 <= i < |t[n..]| && t[n..][i] == '%'
      ensures PlaceholderAt(t[n..], i)
    {
      assert t[n + i] == '%';
      assert PlaceholderAt(t, n + i);
    }
  }

  /**
   Formatting a template whose placeholders were spelled `%s` instantiates
   its token reading with the arguments in order, and fails exactly when there
   are fewer arguments than placeholders.
   */
  lemma {:induction false} FormatRenderedTemplate(t: string, args: seq<string>)
    requires PercentOnlyInPlaceholders(t)
    ensures Supported(Render(Tokenize(t), "%s"))
    ensures Format(Render(Tokenize(t), "%s"), args)
         == if WildCount(Tokenize(t)) <= |args| then Ok(Fill(Tokenize(t), args)) else Err(MissingFormatArgument)
    decreases |t|
  {
    var toks := Tokenize(t);
    var f := Render(toks, "%s");
    if PlaceholderAt(t, 0) {
      PercentOnlyInPlaceholdersSuffix(t, 2);
      var f' := Render(Tokenize(t[2..]), "%s");
      assert toks == [Wild] + Tokenize(t[2..]);
      assert toks[1..] == Tokenize(t[2..]);
      assert f == "%s" + f';
      assert f[2..] == f';
      if args != [] {
        FormatRenderedTemplate(t[2..], args[1..]);
      } else {
        FormatRenderedTemplate(t[2..], args);
      }
    } else if t != [] {
      assert t[0] != '%';
      PercentOnlyInPlaceholdersSuffix(t, 1);
      var f' := Render(Tokenize(t[1..]), "%s");
      assert toks == [Lit(t[0])] + Tokenize(t[1..]);
      assert toks[1..] == Tokenize(t[1..]);
      assert f == [t[0]] + f';
      assert f[1..] == f';
      FormatRenderedTemplate(t[1..], args);
    }
  }

  /**
   An instantiation matches the tokens it came from, provided no argument
   holds a line terminator.
   */
  lemma {:induction false} FillMatches(toks: seq<Token>, args: seq<string>)
    requires WildCount(toks) <= |args|
    requires forall i :: 0 <= i < |args| ==> NoLineTerminator(args[i])
    ensures MatchTokens(toks, Fill(toks, args))
    decreases |toks|
  {
    if toks != [] {
      var s := Fill(toks, args);
      match toks[0]
      case Lit(c) =>
        FillMatches(toks[1..], args);
        assert s[1..] == Fill(toks[1..], args);
      case Wild =>
        FillMatches(toks[1..], args[1..]);
        var k := |args[0]|;
        assert s[..k] == args[0];
        assert s[k..] == Fill(toks[1..], args[1..]);
        assert NoLineTerminator(s[..k]) && MatchTokens(toks[1..], s[k..]);
    }
  }
}
