/** Target selectors and option discovery of src/snarkyctl/providers/nordvpn.py. */
module NordVpn {
  import opened Prelude
  import opened Slug

  /** A JSON scalar in a selector document. */
  datatype Scalar = Null | Text(text: string) | Number(n: int) | Flag(on: bool)

  type Selector = map<string, Scalar>

  datatype ProviderError = InvalidTarget | OutputInvalid | OutputTooLarge

  const MAX_TARGET_OPTIONS := 256
  const MAX_DISCOVERY_LENGTH := 100
  const MAX_COUNTRY_LENGTH := 32

  // ---------------------------------------------------------------- Characters

  predicate Upper(c: char) { 'A' <= c <= 'Z' }
  predicate Lower(c: char) { 'a' <= c <= 'z' }
  predicate Digit(c: char) { '0' <= c <= '9' }
  predicate Alphanumeric(c: char) { Upper(c) || Lower(c) || Digit(c) }

  /** ^[A-Za-z0-9][A-Za-z0-9 ._#-]{0,99}$ */
  predicate IsTarget(text: string) {
    && 1 <= |text| <= 100 && Alphanumeric(text[0])
    && forall c :: c in text ==> Alphanumeric(c) || c in " ._#-"
  }

  /** ^[A-Za-z][A-Za-z0-9_-]{0,31}$ */
  predicate IsCode(text: string) {
    && 1 <= |text| <= 32 && (Upper(text[0]) || Lower(text[0]))
    && forall c :: c in text ==> Alphanumeric(c) || c == '_' || c == '-'
  }

  function Fold(c: char): char {
    if Upper(c) then ((c as int - 'A' as int) + 'a' as int) as char else c
  }

  /** casefold, on ASCII text. */
  function Casefold(text: string): (folded: string)
    ensures |folded| == |text| && forall i :: 0 <= i < |text| ==> folded[i] == Fold(text[i])
  {
    seq(|text|, i requires 0 <= i < |text| => Fold(text[i]))
  }

  lemma CasefoldKeeps(text: string)
    ensures Casefold(Casefold(text)) == Casefold(text)
    ensures IsCode(text) ==> IsCode(Casefold(text))
    ensures IsTarget(text) ==> IsTarget(Casefold(text))
    ensures (forall c :: c in text ==> !Upper(c)) ==> Casefold(text) == text
    ensures forall c :: c in Casefold(text) ==> !Upper(c)
  {
    forall c | c in Casefold(text) ensures exists d :: d in text && c == Fold(d) {
      var i :| 0 <= i < |text| && Casefold(text)[i] == c;
      assert text[i] in text;
    }
  }

  // ---------------------------------------------------------------- Selectors

  predicate Bounded(selector: Selector, key: string, shortest: nat, longest: nat) {
    key in selector && selector[key].Text? && shortest <= |selector[key].text| <= longest
  }

  /** The discriminated union that Pydantic validates: known kind, exactly its fields, bounded strings. */
  predicate WellShaped(selector: Selector) {
    "kind" in selector && selector["kind"].Text? &&
    var kind := selector["kind"].text;
    if kind == "recommended" then selector.Keys == {"kind"}
    else if kind == "country" then selector.Keys == {"kind", "country"} && Bounded(selector, "country", 2, 32)
    else if kind == "city" then
      selector.Keys == {"kind", "country", "city"} && Bounded(selector, "country", 2, 32) &&
        Bounded(selector, "city", 1, 100)
    else if kind == "group" then selector.Keys == {"kind", "group"} && Bounded(selector, "group", 1, 100)
    else if kind == "server" then selector.Keys == {"kind", "server"} && Bounded(selector, "server", 1, 100)
    else kind == "legacy" && selector.Keys == {"kind", "value"} && Bounded(selector, "value", 1, 100)
  }

  predicate SafeTexts(selector: Selector) {
    forall key :: key in selector && key != "kind" ==> selector[key].Text? && IsTarget(selector[key].text)
  }

  predicate CountryIsCode(selector: Selector) {
    "country" in selector ==> selector["country"].Text? && IsCode(selector["country"].text)
  }

  /** validate_selector */
  function ValidateSelector(selector: Selector): Result<Selector, ProviderError> {
    if !WellShaped(selector) || !SafeTexts(selector) || !CountryIsCode(selector) then Err(InvalidTarget)
    else if "country" in selector then Ok(selector["country" := Text(Casefold(selector["country"].text))])
    else Ok(selector)
  }

  function CountrySelector(country: string): Selector { map["kind" := Text("country"), "country" := Text(country)] }

  function CitySelector(country: string, city: string): Selector {
    map["kind" := Text("city"), "country" := Text(country), "city" := Text(city)]
  }

  function GroupSelector(group: string): Selector { map["kind" := Text("group"), "group" := Text(group)] }

  function ServerSelector(server: string): Selector { map["kind" := Text("server"), "server" := Text(server)] }

  function LegacySelector(value: string): Selector { map["kind" := Text("legacy"), "value" := Text(value)] }

  const RECOMMENDED_SELECTOR: Selector := map["kind" := Text("recommended")]

  /** A country code of the accepted length, and the same code in small letters. */
  ghost predicate FoldsTo(country: string, folded: string) {
    && 2 <= |country| && IsCode(country) && |folded| == |country|
    && forall i :: 0 <= i < |country| ==>
         if Upper(country[i]) then folded[i] as int == country[i] as int + 32 else folded[i] == country[i]
  }

  /** Everything the provider accepts, kind by kind, with what is stored for it. */
  ghost predicate Acceptable(selector: Selector, stored: Selector) {
    || (selector == stored == RECOMMENDED_SELECTOR)
    || (exists country, folded ::
          FoldsTo(country, folded) && selector == CountrySelector(country) && stored == CountrySelector(folded))
    || (exists country, folded, city ::
          FoldsTo(country, folded) && IsTarget(city) && selector == CitySelector(country, city) &&
          stored == CitySelector(folded, city))
    || (exists group :: IsTarget(group) && selector == stored == GroupSelector(group))
    || (exists server :: IsTarget(server) && selector == stored == ServerSelector(server))
    || (exists value :: IsTarget(value) && selector == stored == LegacySelector(value))
  }

  lemma FoldedOnly(country: string, folded: string)
    requires IsCode(country) && 2 <= |country|
    ensures FoldsTo(country, folded) <==> folded == Casefold(country)
  {
    if FoldsTo(country, folded) {
      forall i | 0 <= i < |country| ensures folded[i] == Casefold(country)[i] {}
    }
  }

  /** A map with two given entries and no others. */
  lemma TwoKeys(selector: Selector, key: string, value: string)
    requires key != "kind" && selector.Keys == {"kind", key} && selector[key] == Text(value)
    ensures selector == map["kind" := selector["kind"], key := Text(value)]
  {
  }

  lemma ThreeKeys(selector: Selector, country: string, city: string)
    requires selector.Keys == {"kind", "country", "city"} && selector["country"] == Text(country) &&
      selector["city"] == Text(city) && selector["kind"] == Text("city")
    ensures selector == CitySelector(country, city)
  {
  }

  lemma ValidatedIsAcceptable(selector: Selector)
    requires ValidateSelector(selector).Ok?
    ensures Acceptable(selector, ValidateSelector(selector).value)
  {
    var stored, kind := ValidateSelector(selector).value, selector["kind"].text;
    if kind == "recommended" {
      assert selector == RECOMMENDED_SELECTOR;
    } else if kind == "country" {
      var country := selector["country"].text;
      TwoKeys(selector, "country", country);
      FoldedOnly(country, Casefold(country));
      assert selector == CountrySelector(country) && stored == CountrySelector(Casefold(country));
    } else if kind == "city" {
      var country, city := selector["country"].text, selector["city"].text;
      ThreeKeys(selector, country, city);
      FoldedOnly(country, Casefold(country));
      assert selector == CitySelector(country, city) && stored == CitySelector(Casefold(country), city);
    } else if kind == "group" {
      TwoKeys(selector, "group", selector["group"].text);
    } else if kind == "server" {
      TwoKeys(selector, "server", selector["server"].text);
    } else {
      TwoKeys(selector, "value", selector["value"].text);
    }
  }

  lemma CountryAccepted(country: string, folded: string)
    requires FoldsTo(country, folded)
    ensures ValidateSelector(CountrySelector(country)) == Ok(CountrySelector(folded))
  {
    FoldedOnly(country, folded);
    assert CountrySelector(country)["country" := Text(folded)] == CountrySelector(folded);
  }

  lemma CityAccepted(country: string, folded: string, city: string)
    requires FoldsTo(country, folded) && IsTarget(city)
    ensures ValidateSelector(CitySelector(country, city)) == Ok(CitySelector(folded, city))
  {
    FoldedOnly(country, folded);
    assert CitySelector(country, city)["country" := Text(folded)] == CitySelector(folded, city);
  }

  lemma OtherAccepted(kind: string, key: string, value: string)
    requires (kind, key) in {("group", "group"), ("server", "server"), ("legacy", "value")} && IsTarget(value)
    ensures var selector: Selector := map["kind" := Text(kind), key := Text(value)];
      ValidateSelector(selector) == Ok(selector)
  {
    var selector: Selector := map["kind" := Text(kind), key := Text(value)];
    assert selector.Keys == {"kind", key};
  }

  lemma AcceptableIsValidated(selector: Selector, stored: Selector)
    requires Acceptable(selector, stored)
    ensures ValidateSelector(selector) == Ok(stored)
  {
    if selector == RECOMMENDED_SELECTOR {
    } else if country, folded :|
      FoldsTo(country, folded) && selector == CountrySelector(country) && stored == CountrySelector(folded)
    {
      CountryAccepted(country, folded);
    } else if country, folded, city :|
      && FoldsTo(country, folded) && IsTarget(city) && selector == CitySelector(country, city)
      && stored == CitySelector(folded, city)
    {
      CityAccepted(country, folded, city);
    } else if group :| IsTarget(group) && selector == stored == GroupSelector(group) {
      OtherAccepted("group", "group", group);
    } else if server :| IsTarget(server) && selector == stored == ServerSelector(server) {
      OtherAccepted("server", "server", server);
    } else {
      var value :| IsTarget(value) && selector == stored == LegacySelector(value);
      OtherAccepted("legacy", "value", value);
    }
  }

  /** validate_selector accepts exactly the six forms, and answers what is to be stored. */
  lemma ValidatesExactly(selector: Selector, stored: Selector)
    ensures ValidateSelector(selector) == Ok(stored) <==> Acceptable(selector, stored)
  {
    if ValidateSelector(selector) == Ok(stored) {
      ValidatedIsAcceptable(selector);
    } else if Acceptable(selector, stored) {
      AcceptableIsValidated(selector, stored);
    }
  }

  /** Validation is idempotent, keeps the kind and all other fields, and yields folded country codes. */
  lemma ValidationIdempotent(selector: Selector)
    requires ValidateSelector(selector).Ok?
    ensures var normal := ValidateSelector(selector).value;
      ValidateSelector(normal) == Ok(normal) && normal.Keys == selector.Keys &&
        normal - {"country"} == selector - {"country"}
      && normal["kind"] == selector["kind"]
  {
    var normal := ValidateSelector(selector).value;
    if "country" in selector {
      CasefoldKeeps(selector["country"].text);
      assert "kind" != "country";
      assert normal["country" := Text(Casefold(normal["country"].text))] == normal;
    }
  }

  /** connect_stored: the command-line arguments after `connect`. */
  function ConnectArguments(selector: Selector): Result<seq<string>, ProviderError> {
    var validated := ValidateSelector(selector);
    if validated.Err? then Err(validated.error)
    else
      var normal := validated.value;
      var kind := normal["kind"].text;
      if kind == "recommended" then Ok([])
      else if kind == "city" then Ok([normal["country"].text, normal["city"].text])
      else if kind == "country" then Ok([normal["country"].text])
      else if kind == "group" then Ok([normal["group"].text])
      else if kind == "server" then Ok([normal["server"].text])
      else Ok([normal["value"].text])
  }

  /** The fields of a selector other than its kind. */
  function FieldsOf(selector: Selector): set<string> { selector.Keys - {"kind"} }

  /** The arguments pass every field's text, one argument a field, a country before its city. */
  ghost predicate PassesFields(selector: Selector, arguments: seq<string>) {
    && |arguments| == |FieldsOf(selector)|
    && (forall key :: key in FieldsOf(selector) ==> selector[key].Text? && selector[key].text in arguments)
    && (forall argument :: argument in arguments ==>
      exists key :: key in FieldsOf(selector) && selector[key] == Text(argument))
    && ("city" in selector && "country" in selector ==>
      |arguments| == 2 && selector["country"] == Text(arguments[0]) && selector["city"] == Text(arguments[1]))
  }

  lemma NoArguments(selector: Selector)
    requires FieldsOf(selector) == {} && "city" !in selector
    ensures PassesFields(selector, [])
  {
  }

  lemma OneArgument(selector: Selector, key: string)
    requires FieldsOf(selector) == {key} && selector[key].Text? && ("city" !in selector || "country" !in selector)
    ensures PassesFields(selector, [selector[key].text])
  {
    assert key in FieldsOf(selector);
  }

  lemma TwoArguments(selector: Selector)
    requires FieldsOf(selector) == {"country", "city"} && selector["country"].Text? && selector["city"].Text?
    ensures PassesFields(selector, [selector["country"].text, selector["city"].text])
  {
    assert "country" != "city";
    assert "country" in FieldsOf(selector) && "city" in FieldsOf(selector);
  }

  /** A well-shaped selector is connected to by its field texts. */
  lemma WellShapedPasses(selector: Selector)
    requires ValidateSelector(selector) == Ok(selector)
    ensures ConnectArguments(selector).Ok? && PassesFields(selector, ConnectArguments(selector).value)
  {
    var kind := selector["kind"].text;
    if kind == "recommended" {
      NoArguments(selector);
    } else if kind == "city" {
      assert FieldsOf(selector) == {"country", "city"};
      TwoArguments(selector);
    } else {
      var key := if kind == "country" then "country" else if kind == "group" then "group"
                 else if kind == "server" then "server" else "value";
      assert FieldsOf(selector) == {key};
      OneArgument(selector, key);
    }
  }

  /** A selector that was validated once, as the daemon does before committing, connects later with
      exactly its own field texts, each starting with a letter or digit (so never as an option). */
  lemma CommittedSelectorConnects(selector: Selector)
    requires ValidateSelector(selector).Ok?
    ensures var stored := ValidateSelector(selector).value;
      ValidateSelector(stored) == Ok(stored) && ConnectArguments(stored).Ok? &&
      PassesFields(stored, ConnectArguments(stored).value) &&
      forall argument :: argument in ConnectArguments(stored).value ==> IsTarget(argument) && Alphanumeric(argument[0])
  {
    ValidationIdempotent(selector);
    var stored := ValidateSelector(selector).value;
    WellShapedPasses(stored);
    assert SafeTexts(stored);
  }

  // ---------------------------------------------------------------- Discovery

  /** A value produced by discovery: lower-case letters, digits and inner underscores. */
  predicate IsDiscovered(value: string) {
    && value != [] && value[0] != '_' && value[|value| - 1] != '_'
    && forall c :: c in value ==> Lower(c) || Digit(c) || c == '_'
  }

  /** _normalize_discovery_value, from the ASCII text on. The target pattern never refuses what the
      substitution leaves, unless it is empty or too long. */
  function NormalizeDiscovery(ascii: string, maxLength: nat): (result: Result<string, ProviderError>)
    requires maxLength <= 100
    ensures result.Ok? ==> IsDiscovered(result.value) && |result.value| <= maxLength
    ensures result.Ok? <==> 1 <= |Slugged(true, ascii)| <= maxLength
  {
    var stripped := Slugged(true, ascii);
    var value := Casefold(stripped);
    assert forall c :: c in value ==> Lower(c) || Digit(c) || c == '_' by {
      forall c | c in value ensures Lower(c) || Digit(c) || c == '_' {
        var i :| 0 <= i < |stripped| && value[i] == c;
        assert stripped[i] in stripped;
      }
    }
    if value == [] || |value| > maxLength || !IsTarget(value) then Err(OutputInvalid) else Ok(value)
  }

  /** Discovery leaves a text as it is exactly when it has the discovered form with single
      underscores and fits; and every normalised value is such a text. */
  lemma DiscoveryFixpoints(text: string, maxLength: nat)
    requires maxLength <= 100
    ensures NormalizeDiscovery(text, maxLength) == Ok(text) <==> IsDiscovered(text) && Neat(text) && |text| <= maxLength
    ensures NormalizeDiscovery(text, maxLength).Ok? ==> Neat(NormalizeDiscovery(text, maxLength).value)
  {
    SluggedIsNeat(true, text);
    assert Neat(Casefold(Slugged(true, text)));
    if IsDiscovered(text) && Neat(text) && |text| <= maxLength {
      SlugFixpoints(true, text);
      DiscoveredIsSafe(text);
    }
  }

  datatype DiscoveredOption = DiscoveredOption(value: string, caption: string)

  /** One output line after trimming: its printed caption, its ASCII form, and whether it is printable. */
  datatype Line = Line(caption: string, ascii: string, printable: bool)

  function ValueOf(line: Line): string {
    Casefold(Slugged(true, line.ascii))
  }

  predicate LineAccepted(line: Line, maxLength: nat, codes: bool) {
    && line.printable && 1 <= |line.caption| <= MAX_DISCOVERY_LENGTH
    && 1 <= |ValueOf(line)| <= maxLength && (codes ==> IsCode(ValueOf(line)))
  }

  /** What a line stands for: its value, or nothing when the line is refused. */
  function Meaning(line: Line, maxLength: nat, codes: bool): Option<string> {
    if LineAccepted(line, maxLength, codes) then Some(ValueOf(line)) else None
  }

  function Meanings(lines: seq<Line>, maxLength: nat, codes: bool): (meanings: seq<Option<string>>)
    ensures |meanings| == |lines|
  {
    if lines == [] then [] else [Meaning(lines[0], maxLength, codes)] + Meanings(lines[1..], maxLength, codes)
  }

  lemma {:induction false} MeaningAt(lines: seq<Line>, maxLength: nat, codes: bool, i: nat)
    requires i < |lines|
    ensures Meanings(lines, maxLength, codes)[i] == Meaning(lines[i], maxLength, codes)
  {
    if i > 0 { MeaningAt(lines[1..], maxLength, codes, i - 1); }
  }

  predicate Distinct<T(==)>(items: seq<T>) {
    forall i, j :: 0 <= i < j < |items| ==> items[i] != items[j]
  }

  /** The options' values are the given meanings, in order. */
  predicate Lists(options: seq<DiscoveredOption>, meanings: seq<Option<string>>) {
    |options| == |meanings| && forall i :: 0 <= i < |options| ==> meanings[i] == Some(options[i].value)
  }

  /** The checks on one line. */
  method ParseLine(line: Line, maxLength: nat, codes: bool) returns (result: Result<string, ProviderError>)
    requires maxLength <= 100
    ensures result ==
      match Meaning(line, maxLength, codes) case Some(value) => Ok(value) case None => Err(OutputInvalid)
  {
    if !line.printable || line.caption == [] || |line.caption| > MAX_DISCOVERY_LENGTH { return Err(OutputInvalid); }
    result := NormalizeDiscovery(line.ascii, maxLength);
    if result.Ok? && codes && !IsCode(result.value) { return Err(OutputInvalid); }
  }

  /** The line at one position, told by the list of meanings. */
  method ParseAt(lines: seq<Line>, i: nat, maxLength: nat, codes: bool, ghost meanings: seq<Option<string>>)
      returns (result: Result<string, ProviderError>)
    requires maxLength <= 100 && i < |lines| && meanings == Meanings(lines, maxLength, codes)
    ensures result == match meanings[i] case Some(value) => Ok(value) case None => Err(OutputInvalid)
  {
    MeaningAt(lines, maxLength, codes, i);
    result := ParseLine(lines[i], maxLength, codes);
  }

  function Values(options: seq<DiscoveredOption>): (values: seq<string>)
    ensures |values| == |options|
  {
    if options == [] then [] else Values(options[..|options| - 1]) + [options[|options| - 1].value]
  }

  lemma ValuesSnoc(options: seq<DiscoveredOption>, option: DiscoveredOption)
    ensures Values(options + [option]) == Values(options) + [option.value]
  {
    assert (options + [option])[..|options|] == options;
  }

  lemma {:induction false} ListsSnoc(options: seq<DiscoveredOption>, option: DiscoveredOption,
      meanings: seq<Option<string>>)
    requires |options| < |meanings| && Lists(options, meanings[..|options|]) &&
      meanings[|options|] == Some(option.value)
    ensures Lists(options + [option], meanings[..|options| + 1])
  {
    var more, upTo := options + [option], meanings[..|options| + 1];
    forall i | 0 <= i < |more| ensures upTo[i] == Some(more[i].value) {
      assert i < |options| ==> meanings[..|options|][i] == meanings[i];
    }
  }

  lemma DistinctSnoc<T>(items: seq<T>, item: T)
    requires Distinct(items) && item !in items
    ensures Distinct(items + [item])
  {
  }

  lemma {:induction false} ValueAt(options: seq<DiscoveredOption>, i: nat)
    requires i < |options|
    ensures Values(options)[i] == options[i].value
  {
    if i < |options| - 1 { ValueAt(options[..|options| - 1], i); }
  }

  /** The values of listed options are distinct exactly when the meanings are. */
  lemma SameDistinct(options: seq<DiscoveredOption>, meanings: seq<Option<string>>)
    requires Lists(options, meanings)
    ensures Distinct(meanings) <==> Distinct(Values(options))
  {
    forall i | 0 <= i < |options| ensures meanings[i] == Some(Values(options)[i]) { ValueAt(options, i); }
  }

  /** A value that comes again makes the meanings repeat. */
  lemma {:induction false} Repeated(options: seq<DiscoveredOption>, meanings: seq<Option<string>>, value: string)
    requires |options| < |meanings| && Lists(options, meanings[..|options|]) && meanings[|options|] == Some(value) &&
      value in Values(options)
    ensures !Distinct(meanings)
  {
    var k :| 0 <= k < |options| && Values(options)[k] == value;
    ValueAt(options, k);
    assert meanings[..|options|][k] == meanings[k];
  }

  /** _parse_discovery_options. It succeeds exactly when there are 1 to 256 lines, every line
      is accepted and no two stand for the same value; then it lists one option per line, in order. */
  method ParseOptions(lines: seq<Line>, maxLength: nat, codes: bool)
      returns (result: Result<seq<DiscoveredOption>, ProviderError>)
    requires maxLength <= 100
    ensures result.Ok? <==>
      1 <= |lines| <= MAX_TARGET_OPTIONS && None !in Meanings(lines, maxLength, codes) &&
        Distinct(Meanings(lines, maxLength, codes))
    ensures result.Ok? ==> Lists(result.value, Meanings(lines, maxLength, codes))
    ensures result.Ok? ==> forall i :: 0 <= i < |lines| ==> result.value[i].caption == lines[i].caption
    ensures result == Err(OutputTooLarge) <==> |lines| > MAX_TARGET_OPTIONS
  {
    if lines == [] { return Err(OutputInvalid); }
    if |lines| > MAX_TARGET_OPTIONS { return Err(OutputTooLarge); }
    var options: seq<DiscoveredOption> := [];
    var seen: set<string> := {};
    ghost var meanings := Meanings(lines, maxLength, codes);
    for i := 0 to |lines|
      invariant |options| == i && Lists(options, meanings[..i])
      invariant Distinct(Values(options)) && forall value :: value in seen <==> value in Values(options)
      invariant forall k :: 0 <= k < i ==> options[k].caption == lines[k].caption
    {
      var value := ParseAt(lines, i, maxLength, codes, meanings);
      if value.Err? { return Err(value.error); }
      if value.value in seen {
        Repeated(options, meanings, value.value);
        return Err(OutputInvalid);
      }
      var option := DiscoveredOption(value.value, lines[i].caption);
      ListsSnoc(options, option, meanings);
      ValuesSnoc(options, option);
      DistinctSnoc(Values(options), option.value);
      seen := seen + {value.value};
      options := options + [option];
    }
    assert meanings[..|lines|] == meanings;
    SameDistinct(options, meanings);
    return Ok(options);
  }

  /** Every value of an accepted list has the discovered form and respects the length bound, and
      different lines have different values. */
  lemma AcceptedValuesDiscovered(lines: seq<Line>, maxLength: nat, codes: bool, options: seq<DiscoveredOption>, i: nat)
    requires maxLength <= 100 && Lists(options, Meanings(lines, maxLength, codes)) && i < |options|
    ensures IsDiscovered(options[i].value) && |options[i].value| <= maxLength
    ensures codes ==> IsCode(options[i].value)
    ensures Distinct(Meanings(lines, maxLength, codes)) ==> forall j :: 0 <= j < |options| && j != i ==>
      options[j].value != options[i].value
  {
    MeaningAt(lines, maxLength, codes, i);
    var parsed := NormalizeDiscovery(lines[i].ascii, maxLength);
  }

  lemma DiscoveredIsSafe(value: string)
    requires IsDiscovered(value)
    ensures Casefold(value) == value
    ensures |value| <= 100 ==> IsTarget(value)
  {
    CasefoldKeeps(value);
    if |value| <= 100 { assert value[0] in value; }
  }

  /** A discovered country is accepted by the validator, unchanged, exactly when it has at least two
      characters: discovery lets a single letter through that the selector model then refuses. */
  lemma DiscoveredCountryAccepted(country: string)
    requires IsDiscovered(country) && IsCode(country)
    ensures ValidateSelector(CountrySelector(country)) == Ok(CountrySelector(country)) <==> |country| >= 2
    ensures |country| < 2 ==> ValidateSelector(CountrySelector(country)).Err?
  {
    DiscoveredIsSafe(country);
    var selector := CountrySelector(country);
    if |country| >= 2 { assert selector["country" := Text(country)] == selector; }
  }

  /** With such a country, every discovered city is accepted unchanged; so is every discovered group. */
  lemma DiscoveredCityAccepted(country: string, city: string)
    requires IsDiscovered(country) && IsCode(country) && |country| >= 2 && IsDiscovered(city) && |city| <= 100
    ensures ValidateSelector(CitySelector(country, city)) == Ok(CitySelector(country, city))
  {
    DiscoveredIsSafe(country);
    DiscoveredIsSafe(city);
    var selector := CitySelector(country, city);
    assert selector["country" := Text(country)] == selector;
  }

  lemma DiscoveredGroupAccepted(group: string)
    requires IsDiscovered(group) && |group| <= 100
    ensures ValidateSelector(GroupSelector(group)) == Ok(GroupSelector(group))
  {
    DiscoveredIsSafe(group);
  }
}
