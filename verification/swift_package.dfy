/** The package manifest as `swift package dump-package` prints it, and the
    three decoding decisions made by hand rather than by the synthesized
    decoders: a resource `Rule`, a resource `Localization`, and a
    `Dependency` with its `local` flag. */
module SwiftPackage {
  import opened Wrappers

  /** A JSON value. An object is a map, since the decoders only ask whether
      a key is present and what it holds. */
  datatype Json =
    | Null
    | Bool(b: bool)
    | Number(n: int)
    | Str(s: string)
    | Array(items: seq<Json>)
    | Object(fields: map<string, Json>)

  /** The kinds of `DecodingError` the decoders here can raise. */
  datatype DecodeError =
    | KeyNotFound(key: string)
    | ValueNotFound(expected: string)
    | TypeMismatch(expected: string)
    | DataCorrupted(value: string)

  /** Decoding a `String` from a single value. */
  function DecodeString(j: Json): (r: Result<string, DecodeError>)
    ensures r.Success? <==> j.Str?
    ensures r.Success? ==> r.value == j.s
  {
    match j
    case Str(s) => Success(s)
    case Null => Failure(ValueNotFound("String"))
    case _ => Failure(TypeMismatch("String"))
  }

  /** `container.decode(String.self, forKey: key)`. */
  function DecodeStringField(fields: map<string, Json>, key: string): (r: Result<string, DecodeError>)
    ensures r.Success? <==> key in fields && fields[key].Str?
    ensures r.Success? ==> r.value == fields[key].s
    ensures key !in fields ==> r == Failure(KeyNotFound(key))
  {
    if key in fields then DecodeString(fields[key]) else Failure(KeyNotFound(key))
  }

  // ---------------------------------------------------------------------
  // Resource rules

  datatype Rule = Process | Copy

  /** The raw value of a rule. */
  function RuleName(r: Rule): string {
    match r
    case Process => "process"
    case Copy => "copy"
  }

  /** `[String: String]`: an object whose values are all strings. */
  predicate IsStringDict(j: Json) {
    j.Object? && forall k :: k in j.fields ==> j.fields[k].Str?
  }

  /** `[String: [String: String]?]`: an object whose values are each null or
      a `[String: String]`. */
  predicate IsRuleDict(j: Json) {
    j.Object? && forall k :: k in j.fields ==> j.fields[k].Null? || IsStringDict(j.fields[k])
  }

  /** `Rule.init(from:)`: the raw string of a rule, or else a dictionary,
      which means `process` when it has that key and `copy` otherwise. A
      string that is not a rule's name falls through to the dictionary
      decode and fails there. */
  function DecodeRule(j: Json): (r: Result<Rule, DecodeError>)
  {
    if j == Str("process") then Success(Process)
    else if j == Str("copy") then Success(Copy)
    else if j.Null? then Failure(ValueNotFound("Dictionary"))
    else if !IsRuleDict(j) then Failure(TypeMismatch("Dictionary"))
    else if "process" in j.fields then Success(Process)
    else Success(Copy)
  }

  /** How a rule is written as a string. */
  function EncodeRule(r: Rule): Json {
    Str(RuleName(r))
  }

  /** How `dump-package` writes a rule: a dictionary keyed by the rule. */
  function EncodeRuleDict(r: Rule): Json {
    Object(map[RuleName(r) := Object(map[])])
  }

  lemma RuleRoundTrip(r: Rule)
    ensures DecodeRule(EncodeRule(r)) == Success(r)
    ensures DecodeRule(EncodeRuleDict(r)) == Success(r)
  {
    var d := EncodeRuleDict(r);
    assert IsStringDict(Object(map[]));
    assert d.fields.Keys == {RuleName(r)};
  }

  /** A string decodes exactly when it is the name of a rule, to that rule. */
  lemma RuleFromString(s: string, r: Rule)
    ensures DecodeRule(Str(s)) == Success(r) <==> s == RuleName(r)
    ensures DecodeRule(Str(s)).Success? <==> s == "process" || s == "copy"
  {
  }

  /** A well-typed dictionary decodes to `process` exactly when it has that
      key, and to `copy` otherwise. */
  lemma RuleFromDict(j: Json)
    requires IsRuleDict(j)
    ensures DecodeRule(j).Success?
    ensures DecodeRule(j) == Success(Process) <==> "process" in j.fields
  {
  }

  /** Only rule names and well-typed dictionaries decode. */
  lemma RuleDecodes(j: Json)
    ensures DecodeRule(j).Success? <==> j == Str("process") || j == Str("copy") || IsRuleDict(j)
  {
  }

  // ---------------------------------------------------------------------
  // Resource localizations

  datatype Localization = Default | Base

  function LocalizationName(l: Localization): string {
    match l
    case Default => "default"
    case Base => "base"
  }

  /** The synthesized decoder of a string-backed enum: a string that is the
      raw value of a case, and nothing else. */
  function DecodeLocalization(j: Json): (r: Result<Localization, DecodeError>)
  {
    match DecodeString(j)
    case Failure(e) => Failure(e)
    case Success(s) =>
      if s == "default" then Success(Default)
      else if s == "base" then Success(Base)
      else Failure(DataCorrupted(s))
  }

  /** A value decodes to a localization exactly when it is that
      localization's name. */
  lemma LocalizationIff(j: Json, l: Localization)
    ensures DecodeLocalization(j) == Success(l) <==> j == Str(LocalizationName(l))
  {
  }

  /** Only the two names decode. */
  lemma LocalizationDecodes(j: Json)
    ensures DecodeLocalization(j).Success? <==> j == Str("default") || j == Str("base")
  {
  }

  // ---------------------------------------------------------------------
  // Dependencies

  datatype Dependency = Dependency(identity: string, local: bool, url: Option<string>)

  /** `[String: String?]`: an object whose values are each a string or null. */
  predicate IsOptionalStringDict(j: Json) {
    j.Object? && forall k :: k in j.fields ==> j.fields[k].Str? || j.fields[k].Null?
  }

  /** The requirement marks a local package: it decodes as `[String: String?]`
      and has the key `localPackage`. */
  predicate IsLocalRequirement(fields: map<string, Json>) {
    "requirement" in fields && IsOptionalStringDict(fields["requirement"]) &&
    "localPackage" in fields["requirement"].fields
  }

  /** `Dependency.init(from:)`: `identity` and `location` are required strings,
      read in that order; a requirement that does not decode only makes the
      dependency non-local. */
  function DecodeDependency(j: Json): (r: Result<Dependency, DecodeError>)
  {
    if j.Null? then Failure(ValueNotFound("Dictionary"))
    else if !j.Object? then Failure(TypeMismatch("Dictionary"))
    else
      match DecodeStringField(j.fields, "identity")
      case Failure(e) => Failure(e)
      case Success(identity) =>
        var local := IsLocalRequirement(j.fields);
        match DecodeStringField(j.fields, "location")
        case Failure(e) => Failure(e)
        case Success(location) => Success(Dependency(identity, local, Some(location)))
  }

  /** A decoded dependency has its identity and location from the two
      required keys, so its url is always present; it is local exactly when
      its requirement is a local one. */
  lemma DependencyFields(j: Json)
    requires DecodeDependency(j).Success?
    ensures j.Object? && "identity" in j.fields && "location" in j.fields
    ensures var d := DecodeDependency(j).value;
      d.identity == j.fields["identity"].s && d.url == Some(j.fields["location"].s) &&
      (d.local <==> IsLocalRequirement(j.fields))
  {
  }

  /** A missing identity is reported before anything else is read; a
      missing location is reported once the identity is there. */
  lemma DependencyMissingKeys(j: Json)
    requires j.Object?
    ensures "identity" !in j.fields ==> DecodeDependency(j) == Failure(KeyNotFound("identity"))
    ensures "identity" in j.fields && j.fields["identity"].Str? && "location" !in j.fields ==>
      DecodeDependency(j) == Failure(KeyNotFound("location"))
  {
  }

  /** How `dump-package` writes a dependency: a local one has a
      `localPackage` requirement, a remote one a version range. */
  function EncodeDependency(d: Dependency): Json
    requires d.url.Some?
  {
    var requirement := if d.local then Object(map["localPackage" := Null]) else Object(map["range" := Array([])]);
    Object(map["identity" := Str(d.identity), "requirement" := requirement, "location" := Str(d.url.value)])
  }

  lemma DependencyRoundTrip(d: Dependency)
    requires d.url.Some?
    ensures DecodeDependency(EncodeDependency(d)) == Success(d)
  {
    var fields := EncodeDependency(d).fields;
    assert "identity" in fields && "location" in fields && "requirement" in fields;
    if !d.local {
      assert "range" in fields["requirement"].fields;
    }
  }

  // ---------------------------------------------------------------------
  // The rest of the manifest, as the queries read it

  /** A product; `kind` is the manifest's `type`, whose keys name the kind
      of product (`executable`, `library`, ...). */
  datatype Product = Product(name: string, kind: Option<map<string, Option<string>>>)

  datatype Resource = Resource(path: string, rule: Rule, localization: Option<Localization>)

  datatype Target = Target(name: string, path: Option<string>, sources: Option<seq<string>>,
                           resources: Option<seq<Resource>>)

  datatype NewDependency = NewDependency(scm: Option<seq<Dependency>>)

  datatype Package = Package(products: Option<seq<Product>>, targets: Option<seq<Target>>,
                             dependencies: Option<seq<NewDependency>>)
}
