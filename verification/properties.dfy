/**
 Properties of LanguageDictionary that relate several of its operations, or an
 operation to its reference definition.
 */
module DictionaryProperties {
  import opened Results
  import opened Strings
  import opened Patterns
  import opened Formatting
  import opened Locales
  import opened LanguageDictionary

  /**
   With a consistent language table, a language's legacy name yields a legacy
   dictionary for it and its new name a new-format one; neither fails.
   */
  lemma ConstructFromTableNames<L(!new)>(loc: Localizable<L>, l: L)
    requires ValidTable(loc)
    ensures NewDictionary(loc, loc.legacyName(l)) == Ok(Dictionary(l, true, map[]))
    ensures NewDictionary(loc, loc.newName(l)) == Ok(Dictionary(l, false, map[]))
  {
    assert !loc.isLegacyName(loc.newName(l));
  }

  /**
   A template without placeholders or regex metacharacters (after
   normalisation) matches exactly the candidates that normalise to it: the
   match is whole-string, not a substring search.
   */
  lemma LiteralTemplateMatchesExactly(norm: string -> string, engine: RegexEngine, candidate: string, template: string)
    requires NoPlaceholder(norm(template)) && NoMeta(norm(template))
    ensures Match(norm, engine, candidate, template) <==> norm(candidate) == norm(template)
  {
    PatternCompiles(norm(template));
    LiteralTemplateMatch(norm(template), norm(candidate));
  }

  const ShippingPrefix: string := "Shipping from: "
  const ShippingTemplate: string := ShippingPrefix + "%@"

  lemma ShippingPrefixIsPlain()
    ensures NoPlaceholder(ShippingPrefix) && NoMeta(ShippingPrefix) && NoMeta(ShippingTemplate)
  {
    assert forall i :: 0 <= i < |ShippingPrefix| ==> ShippingPrefix[i] != '%';
    assert ShippingTemplate[|ShippingPrefix|] == '%';
    assert ShippingTemplate[|ShippingPrefix| + 1] == '@';
  }

  /**
   The template `Shipping from: %@` (which NFKC leaves unchanged) matches the
   candidates whose normal form is the literal prefix followed by any text,
   possibly empty, without a line terminator.
   */
  lemma ShippingTemplateMatches(norm: string -> string, engine: RegexEngine, candidate: string)
    requires norm(ShippingTemplate) == ShippingTemplate
    ensures var n := norm(candidate);
      Match(norm, engine, candidate, ShippingTemplate)
      <==> |ShippingPrefix| <= |n| && n[..|ShippingPrefix|] == ShippingPrefix
           && NoLineTerminator(n[|ShippingPrefix|..])
  {
    ShippingPrefixIsPlain();
    TokenizeConcat(ShippingPrefix, "%@");
    assert Tokenize("%@") == [Wild] by {
      assert PlaceholderAt("%@", 0);
      assert "%@"[2..] == [];
    }
    PatternCompiles(ShippingTemplate);
    PrefixWildMatch(ShippingPrefix, norm(candidate));
  }

  /** `Shipping from: ` followed by any terminator-free text matches, the empty text included. */
  lemma ShippingFromAnyPlace(norm: string -> string, engine: RegexEngine, place: string)
    requires norm(ShippingTemplate) == ShippingTemplate
    requires norm(ShippingPrefix + place) == ShippingPrefix + place
    requires NoLineTerminator(place)
    ensures Match(norm, engine, ShippingPrefix + place, ShippingTemplate)
  {
    ShippingTemplateMatches(norm, engine, ShippingPrefix + place);
    var n := ShippingPrefix + place;
    assert n[..|ShippingPrefix|] == ShippingPrefix && n[|ShippingPrefix|..] == place;
  }

  /** A candidate whose literal prefix differs does not match. */
  lemma ShippingToDoesNotMatch(norm: string -> string, engine: RegexEngine)
    requires norm(ShippingTemplate) == ShippingTemplate
    requires norm("Shipping to: Berlin") == "Shipping to: Berlin"
    ensures !Match(norm, engine, "Shipping to: Berlin", ShippingTemplate)
  {
    ShippingTemplateMatches(norm, engine, "Shipping to: Berlin");
    var n := "Shipping to: Berlin";
    assert n[..|ShippingPrefix|][9] == 't' != ShippingPrefix[9];
  }

  /**
   A template whose pattern fails to compile is skipped: adding it under a new
   key changes no scan result, so every other key still matches as before.
   */
  lemma ScanSkipsBadTemplate<L>(d: Dictionary<L>, norm: string -> string, engine: RegexEngine,
                                s: string, key: string, template: string)
    requires key !in d.content
    requires Compile(GetRegexPattern(norm(template))) == None
    requires !engine.compiles(GetRegexPattern(norm(template)))
    ensures MatchingKeys(d.(content := d.content[key := template]), norm, engine, s)
         == MatchingKeys(d, norm, engine, s)
  {
    assert !Match(norm, engine, s, template);
  }

  /**
   When the normalisation is idempotent, as NFKC is, normalising either text
   beforehand does not change whether it matches.
   */
  lemma MatchIgnoresPriorNormalisation(norm: string -> string, engine: RegexEngine, candidate: string, template: string)
    requires forall x :: norm(norm(x)) == norm(x)
    ensures Match(norm, engine, norm(candidate), template) == Match(norm, engine, candidate, template)
    ensures Match(norm, engine, candidate, norm(template)) == Match(norm, engine, candidate, template)
  {
  }

  /**
   After loading, the scan sees exactly the loaded table: no key from before
   the load can be reported.
   */
  method LoadThenScan<L(==)>(d: Dictionary<L>, json: map<string, string>, norm: string -> string,
                             engine: RegexEngine, s: string)
    returns (res: seq<ContentResult<L>>)
    ensures forall r :: r in res ==> r.key in json && r.original == json[r.key] && r.language == d.language
    ensures (set r | r in res :: r.key) == set k | k in json && Match(norm, engine, s, json[k])
  {
    var loaded := AddJsonContent(d, json);
    res := GetPotentialMatches(loaded, norm, engine, s);
  }

  /** equals compares languages only: contents never matter, null and other classes never equal. */
  lemma EqualsIsLanguageEquality<L>(a: Dictionary<L>, b: Dictionary<L>, content: map<string, string>)
    ensures Equals(a, Dict(b)) <==> a.language == b.language
    ensures Equals(a, Dict(a.(content := content)))
    ensures !Equals(a, Null) && !Equals(a, Foreign)
  {
  }

  /** equals is an equivalence on dictionaries. */
  lemma EqualsIsEquivalence<L>(a: Dictionary<L>, b: Dictionary<L>, c: Dictionary<L>)
    ensures Equals(a, Dict(a))
    ensures Equals(a, Dict(b)) ==> Equals(b, Dict(a))
    ensures Equals(a, Dict(b)) && Equals(b, Dict(c)) ==> Equals(a, Dict(c))
  {
  }

  /** Equal dictionaries have equal hash codes, and the hash code ignores the table. */
  lemma HashCodeConsistent<L>(a: Dictionary<L>, b: Dictionary<L>, languageHash: L -> int32)
    requires Equals(a, Dict(b))
    ensures HashCode(a, languageHash) == HashCode(b, languageHash)
    ensures HashCode(a, languageHash) == HashCode(a.(content := b.content), languageHash)
  {
  }

  /**
   translate fills the template's placeholders with the arguments in order;
   it fails when there are fewer arguments than placeholders, and ignores
   arguments beyond them.
   */
  lemma TranslateFillsPlaceholders<L>(d: Dictionary<L>, res: ContentResult<L>)
    requires res.key in d.content
    requires PercentOnlyInPlaceholders(d.content[res.key])
    ensures var toks := Tokenize(d.content[res.key]);
      Translate(d, res)
      == if WildCount(toks) <= |res.args| then Ok(Fill(toks, res.args)) else Err(MissingFormatArgument)
  {
    FormatMarkerIsInert();
    TwoPassReplace(d.content[res.key], "%s");
    FormatRenderedTemplate(d.content[res.key], res.args);
  }

  /** A key absent from the table cannot be translated. */
  lemma TranslateMissingKey<L>(d: Dictionary<L>, res: ContentResult<L>)
    requires res.key !in d.content
    ensures Translate(d, res) == Err(MissingKey(res.key))
  {
  }

  /**
   Round trip: the text translate produces from a plain template is found
   again by the scan under the same key, when the arguments hold no line
   terminator and normalisation leaves both texts unchanged.
   */
  lemma TranslateThenMatch<L>(d: Dictionary<L>, res: ContentResult<L>, norm: string -> string, engine: RegexEngine)
    requires res.key in d.content
    requires var t := d.content[res.key];
      PercentOnlyInPlaceholders(t) && NoMeta(t) && norm(t) == t
    requires Translate(d, res).Ok? && norm(Translate(d, res).value) == Translate(d, res).value
    requires forall i :: 0 <= i < |res.args| ==> NoLineTerminator(res.args[i])
    ensures res.key in MatchingKeys(d, norm, engine, Translate(d, res).value)
  {
    var t := d.content[res.key];
    TranslateFillsPlaceholders(d, res);
    FillMatches(Tokenize(t), res.args);
    PatternCompiles(t);
  }
}
