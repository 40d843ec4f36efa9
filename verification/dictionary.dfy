/**
 LanguageDictionary: one language's table from localisation keys to
 templates, the fuzzy matching of on-screen text against those templates, and
 the reverse formatting of a match.
 */
module LanguageDictionary {
  import opened Results
  import opened Strings
  import opened Patterns
  import opened Formatting
  import opened Locales
  import Bundle

  /**
   A dictionary: its language, the naming convention its folder used
   (`legacyFormat`), and the key-to-template table.
   */
  datatype Dictionary<L> = Dictionary(language: L, legacyFormat: bool, content: map<string, string>)

  /**
   A match found for a candidate: the dictionary's language, the key, its
   template, the candidate text, and the arguments used by `Translate`
   (empty when the match is found).
   */
  datatype ContentResult<L> =
    ContentResult(language: L, key: string, original: string, candidate: string, args: seq<string>)

  /**
   java.util.regex for patterns outside the fragment `Compile` reads:
   `compiles(pattern)` is false when Pattern.compile throws a
   PatternSyntaxException, which depends on the pattern alone, and
   `matches(pattern, input)` is the whole-string match of a compiled pattern.
   */
  datatype RegexEngine = RegexEngine(compiles: string -> bool, matches: (string, string) -> bool)

  /**
   The constructor: the legacy form is tried first, then the new form; a name
   in neither form is refused. A new dictionary has an empty table.
   */
  function NewDictionary<L>(loc: Localizable<L>, name: string): (r: Result<Dictionary<L>>)
    ensures r.Ok? <==> loc.isLegacyName(name) || loc.isNewName(name)
    ensures r.Err? ==> r.error == UnrecognizedLanguage(name)
    ensures r.Ok? ==> r.value.content == map[]
    ensures r.Ok? ==> (r.value.legacyFormat <==> loc.isLegacyName(name))
    ensures r.Ok? && r.value.legacyFormat ==> r.value.language == loc.createFromLegacyName(name)
    ensures r.Ok? && !r.value.legacyFormat ==> r.value.language == loc.createFromNewName(name)
  {
    if loc.isLegacyName(name) then
      Ok(Dictionary(loc.createFromLegacyName(name), true, map[]))
    else if loc.isNewName(name) then
      Ok(Dictionary(loc.createFromNewName(name), false, map[]))
    else
      Err(UnrecognizedLanguage(name))
  }

  /**
   match(content, originalText): both texts are normalised with `norm` (NFKC
   in the source), the template becomes a pattern, and the candidate must
   match that pattern as a whole. A pattern that fails to compile gives false.
   */
  predicate Match(norm: string -> string, engine: RegexEngine, content: string, originalText: string) {
    var candidate := norm(content);
    var pattern := GetRegexPattern(norm(originalText));
    match Compile(pattern)
    case Some(toks) => MatchTokens(toks, candidate)
    case None => engine.compiles(pattern) && engine.matches(pattern, candidate)
  }

  /** The keys whose template matches `s`: the reference for `GetPotentialMatches`. */
  function MatchingKeys<L>(d: Dictionary<L>, norm: string -> string, engine: RegexEngine, s: string): set<string> {
    set k | k in d.content && Match(norm, engine, s, d.content[k])
  }

  /**
   getPotentialMatches: one result per matching key, in no particular order
   (the source walks a HashMap), each carrying this dictionary's language, the
   key, its template and the candidate.
   */
  method GetPotentialMatches<L(==)>(d: Dictionary<L>, norm: string -> string, engine: RegexEngine, s: string)
    returns (res: seq<ContentResult<L>>)
    ensures forall r :: r in res ==>
      r.key in d.content && r == ContentResult(d.language, r.key, d.content[r.key], s, [])
    ensures (set r | r in res :: r.key) == MatchingKeys(d, norm, engine, s)
    ensures forall i, j :: 0 <= i < j < |res| ==> res[i].key != res[j].key
  {
    res := [];
    var remaining := d.content.Keys;
    while remaining != {}
      invariant remaining <= d.content.Keys
      invariant forall r :: r in res ==>
        r.key in d.content && r.key !in remaining && r == ContentResult(d.language, r.key, d.content[r.key], s, [])
      invariant (set r | r in res :: r.key) == MatchingKeys(d, norm, engine, s) - remaining
      invariant forall i, j :: 0 <= i < j < |res| ==> res[i].key != res[j].key
      decreases remaining
    {
      var key :| key in remaining;
      var original := d.content[key];
      if Match(norm, engine, s, original) {
        var found := ContentResult(d.language, key, original, s, []);
        assert (set r | r in res + [found] :: r.key) == (set r | r in res :: r.key) + {key};
        res := res + [found];
      }
      remaining := remaining - {key};
    }
  }

  /** convertToMap: copies every key of the JSON object with its string value. */
  method ConvertToMap(json: map<string, string>) returns (res: map<string, string>)
    ensures res == json
  {
    res := map[];
    var keys := json.Keys;
    while keys != {}
      invariant keys <= json.Keys
      invariant res.Keys == json.Keys - keys
      invariant forall k :: k in res ==> res[k] == json[k]
      decreases keys
    {
      var key :| key in keys;
      res := res[key := json[key]];
      keys := keys - {key};
    }
  }

  /**
   addJSONContent: the table is cleared and refilled from the JSON object;
   language and naming convention are kept.
   */
  method AddJsonContent<L>(d: Dictionary<L>, json: map<string, string>) returns (d': Dictionary<L>)
    ensures d'.language == d.language && d'.legacyFormat == d.legacyFormat
    // The table is the object alone, so no key from before survives unless
    // the object has it.
    ensures d'.content == json
  {
    var converted := ConvertToMap(json);
    d' := d.(content := converted);
  }

  /**
   createFromFile, given the name of the resource file's parent folder and
   the outcome of reading the converted file: the language name is derived
   first, the constructor runs next, and only then is the content loaded.
   */
  method CreateFromFile<L>(loc: Localizable<L>, parentName: string, read: Result<map<string, string>>)
    returns (r: Result<Dictionary<L>>)
    ensures var name := Bundle.ExtractLanguageName(parentName);
      !(loc.isLegacyName(name) || loc.isNewName(name)) ==> r == Err(UnrecognizedLanguage(name))
    ensures var name := Bundle.ExtractLanguageName(parentName);
      (loc.isLegacyName(name) || loc.isNewName(name)) && read.Err? ==> r == Err(read.error)
    ensures var name := Bundle.ExtractLanguageName(parentName);
      r.Ok? ==> read.Ok? && r.value == NewDictionary(loc, name).value.(content := read.value)
    ensures var name := Bundle.ExtractLanguageName(parentName);
      (loc.isLegacyName(name) || loc.isNewName(name)) && read.Ok? ==>
        r == Ok(NewDictionary(loc, name).value.(content := read.value))
  {
    var name := Bundle.ExtractLanguageName(parentName);
    var dict :- NewDictionary(loc, name);
    var content :- read;
    dict := AddJsonContent(dict, content);
    return Ok(dict);
  }

  /** The argument of equals: null, an object of another class, or a dictionary. */
  datatype Object<L> = Null | Foreign | Dict(dict: Dictionary<L>)

  /**
   equals: dictionaries are equal when their languages are, whatever their
   tables hold. The source's `this == obj` shortcut is covered, since an
   object always has its own language.
   */
  predicate Equals<L(==)>(self: Dictionary<L>, obj: Object<L>) {
    match obj
    case Null => false
    case Foreign => false
    case Dict(other) => self.language == other.language
  }

  newtype int32 = x: int | -0x8000_0000 <= x < 0x8000_0000

  /** Java's two's-complement narrowing of an int result to 32 bits. */
  function Wrap32(x: int): (r: int32)
    ensures (r as int - x) % 0x1_0000_0000 == 0
  {
    var m := x % 0x1_0000_0000;
    if m < 0x8000_0000 then m as int32 else (m - 0x1_0000_0000) as int32
  }

  /** hashCode: `31 * 1 + language.hashCode()` in 32-bit arithmetic. */
  function HashCode<L>(d: Dictionary<L>, languageHash: L -> int32): int32 {
    Wrap32(31 * 1 + languageHash(d.language) as int)
  }

  /**
   translate: the key's template has every `%@` and then every `%d` turned
   into `%s`, and String.format fills those with the result's arguments. An
   absent key has no template, which the source dereferences.
   */
  function Translate<L>(d: Dictionary<L>, res: ContentResult<L>): Result<string> {
    if res.key !in d.content then
      Err(MissingKey(res.key))
    else
      var format := ReplaceAll(ReplaceAll(d.content[res.key], "%@", "%s"), "%d", "%s");
      Format(format, res.args)
  }
}
