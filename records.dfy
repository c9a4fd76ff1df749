/**
 * The record normaliser: turns the loosely typed JSON of `records.json` into
 * validated records, silently dropping the elements that do not qualify, and
 * resolves the image and footage references a record carries.
 */
module Records {
  import opened Wrappers
  import opened Text
  import opened Json

  datatype Status = Current | Former

  /** The status as the source spells it; the ordering of records compares these strings. */
  function StatusText(s: Status): string {
    match s
    case Current => "current"
    case Former => "former"
  }

  datatype Record = Record(
    name: string,
    title: string,
    description: string,
    image: Option<string>,
    footage: Option<string>,
    year: int,
    status: Status)

  /**
   * Where `new URL("../", <script URL>)` lands, the directory above the
   * scripts. The origin of the deployed page is not modelled; the directory
   * is written root-relative.
   */
  const SiteRoot := "/"
  const AssetsBase := SiteRoot + "Assets/"
  const PlaceholderImage := AssetsBase + "images/placeholder.png"

  /** A string that survives `asNonEmptyString` unchanged. */
  predicate Meaningful(s: string) {
    s != "" && IsTrimmed(s)
  }

  predicate MeaningfulOrAbsent(s: Option<string>) {
    s.None? || Meaningful(s.value)
  }

  /** What the normaliser guarantees of every record it lets through. */
  predicate WellFormed(r: Record) {
    Meaningful(r.name) && Meaningful(r.title) && Meaningful(r.description) &&
    MeaningfulOrAbsent(r.image) && MeaningfulOrAbsent(r.footage)
  }

  /** `asNonEmptyString` applied to a string. */
  function NonEmptyTrimmed(s: string): (r: Option<string>)
    ensures r.None? <==> AllSpace(s)
    ensures r.Some? ==> r.value == Trim(s) && Meaningful(r.value)
  {
    var t := Trim(s);
    if t == "" then None else Some(t)
  }

  /** `asNonEmptyString`: the trimmed string if the value is a string that is not blank. */
  function AsNonEmptyString(value: Option<Json>): (r: Option<string>)
    ensures r.Some? <==> value.Some? && value.value.JString? && !AllSpace(value.value.s)
    ensures r.Some? ==> r.value == Trim(value.value.s) && Meaningful(r.value)
  {
    match value
    case Some(JString(s)) => NonEmptyTrimmed(s)
    case _ => None
  }

  /** A string `asNonEmptyString` accepts is returned unchanged when given again. */
  lemma AsNonEmptyStringFixpoint(value: Option<Json>)
    requires AsNonEmptyString(value).Some?
    ensures AsNonEmptyString(Some(JString(AsNonEmptyString(value).value))) == AsNonEmptyString(value)
  {
    TrimIdempotent(value.value.s);
  }

  /**
   * `normalizeStatus`: "former" when the value is a string that is "former"
   * once trimmed and lower-cased, "current" for anything else. Lower-casing
   * is modelled on ASCII letters only; no other character lower-cases to a
   * letter of "former", so the comparison is the same.
   */
  function NormalizeStatus(status: Option<Json>): (st: Status)
    ensures st == Former <==>
      status.Some? && status.value.JString? && LowerAscii(Trim(status.value.s)) == "former"
  {
    match AsNonEmptyString(status)
    case Some(t) => if LowerAscii(t) == "former" then Former else Current
    case None => Current
  }

  /** Normalising the spelling of a status gives that status back. */
  lemma NormalizeStatusRoundTrip(st: Status)
    ensures NormalizeStatus(Some(JString(StatusText(st)))) == st
  {
    assert IsTrimmed(StatusText(st));
    if st == Current {
      assert LowerAscii("current")[0] == 'c';
    }
  }

  /** The case and the spaces around "former" do not matter. */
  lemma NormalizeStatusIgnoresCaseAndSpaces()
    ensures NormalizeStatus(Some(JString(" FORMER\n"))) == Former
  {
    TrimPaddedFormer();
    LowerFormer();
  }

  lemma TrimPaddedFormer()
    ensures Trim(" FORMER\n") == "FORMER"
  {
    assert " FORMER\n" == " " + "FORMER" + "\n";
    assert AllSpace(" ") && AllSpace("\n") && IsTrimmed("FORMER");
    TrimPadded(" ", "FORMER", "\n");
  }

  lemma LowerFormer()
    ensures LowerAscii("FORMER") == "former"
  {
    var low := LowerAscii("FORMER");
    assert low[0] == 'f' && low[1] == 'o' && low[2] == 'r' && low[3] == 'm' && low[4] == 'e' && low[5] == 'r';
  }

  /** The regular expression `/^https?:\/\//i`. */
  predicate HasHttpScheme(s: string) {
    StartsWithIgnoringCase(s, "http://") || StartsWithIgnoringCase(s, "https://")
  }

  /** The scheme test is case-insensitive and needs the two slashes. */
  lemma HttpSchemeExamples()
    ensures HasHttpScheme("https://example.org/a.png") && HasHttpScheme("HTTP://example.org")
    ensures !HasHttpScheme("http:/example.org") && !HasHttpScheme("ftp://example.org")
  {
    assert LowerAscii("https://") == "https://";
    assert LowerAscii("HTTP://") == "http://";
    var slash, ftp := "http:/example.org", "ftp://example.org";
    assert LowerAscii(slash[..7])[6] == 'e' && LowerAscii(slash[..8])[6] == 'e';
    assert LowerAscii(ftp[..7])[0] == 'f' && LowerAscii(ftp[..8])[0] == 'f';
  }

  /** The replacement `raw.replace(/^\.?\//, "")`, once the "/" prefix has been ruled out. */
  function StripDotSlash(s: string): (r: string)
    ensures StartsWith(s, "./") ==> r == s[2..]
    ensures !StartsWith(s, "./") && !StartsWith(s, "/") ==> r == s
    ensures |r| <= |s| && r == s[|s| - |r|..]
  {
    if StartsWith(s, "./") then s[2..] else if StartsWith(s, "/") then s[1..] else s
  }

  /**
   * `resolveImageHref`: the placeholder for a missing or blank reference,
   * absolute and root-relative references as they are, and anything else
   * under the assets directory.
   */
  function ResolveImageHref(image: Option<string>): (href: string)
    ensures href != ""
  {
    var raw := if image.Some? then NonEmptyTrimmed(image.value) else None;
    match raw
    case None => PlaceholderImage
    case Some(r) =>
      if HasHttpScheme(r) then r
      else if StartsWith(r, "/") then r
      else if StartsWith(r, "Assets/") then SiteRoot + r
      else AssetsBase + StripDotSlash(r)
  }

  /** The cases of `resolveImageHref`, one ensures each. */
  lemma ResolveImageHrefCases(image: Option<string>)
    ensures image.None? || AllSpace(image.value) ==> ResolveImageHref(image) == PlaceholderImage
    ensures image.Some? && !AllSpace(image.value) ==>
      var raw := Trim(image.value);
      && (HasHttpScheme(raw) || StartsWith(raw, "/") ==> ResolveImageHref(image) == raw)
      && (!HasHttpScheme(raw) && StartsWith(raw, "Assets/") ==>
            ResolveImageHref(image) == AssetsBase + raw[|"Assets/"|..])
      && (!HasHttpScheme(raw) && !StartsWith(raw, "/") && !StartsWith(raw, "Assets/") ==>
            ResolveImageHref(image) == AssetsBase + StripDotSlash(raw))
  {
    if image.Some? && !AllSpace(image.value) {
      var raw := Trim(image.value);
      assert NonEmptyTrimmed(image.value) == Some(raw);
      if !HasHttpScheme(raw) && !StartsWith(raw, "/") && StartsWith(raw, "Assets/") {
        AssetsPrefix(raw);
      }
    }
  }

  /** A reference starting "Assets/" lands under the assets directory. */
  lemma AssetsPrefix(raw: string)
    requires StartsWith(raw, "Assets/")
    ensures SiteRoot + raw == AssetsBase + raw[|"Assets/"|..]
  {
    assert raw == "Assets/" + raw[|"Assets/"|..];
  }

  /** A string that starts and ends with a non-space, followed by a suffix of a trimmed string, is trimmed. */
  lemma ConcatTrimmed(a: string, b: string)
    requires a != [] && !IsSpace(a[0]) && !IsSpace(a[|a| - 1])
    requires b == [] || !IsSpace(b[|b| - 1])
    ensures IsTrimmed(a + b)
  {
    var w := a + b;
    assert w[0] == a[0];
    if b != [] {
      assert w[|w| - 1] == b[|b| - 1];
    }
  }

  /** Every resolved image reference is trimmed and absolute or root-relative. */
  lemma ResolvedShape(image: Option<string>)
    ensures IsTrimmed(ResolveImageHref(image))
    ensures HasHttpScheme(ResolveImageHref(image)) || StartsWith(ResolveImageHref(image), "/")
  {
    var href := ResolveImageHref(image);
    if image.Some? && !AllSpace(image.value) {
      var raw := Trim(image.value);
      assert NonEmptyTrimmed(image.value) == Some(raw);
      if HasHttpScheme(raw) || StartsWith(raw, "/") {
        assert href == raw;
      } else if StartsWith(raw, "Assets/") {
        assert href == SiteRoot + raw;
        ConcatTrimmed(SiteRoot, raw);
        assert href[..1] == "/";
      } else {
        var tail := StripDotSlash(raw);
        assert href == AssetsBase + tail;
        assert tail != [] ==> tail[|tail| - 1] == raw[|raw| - 1];
        ConcatTrimmed(AssetsBase, tail);
        assert href[..1] == "/";
      }
    } else {
      assert href == PlaceholderImage;
      assert href[..1] == "/";
    }
  }

  /**
   * A resolved image reference is trimmed and either absolute or
   * root-relative, so resolving it again changes nothing.
   */
  lemma ResolveImageHrefIdempotent(image: Option<string>)
    ensures ResolveImageHref(Some(ResolveImageHref(image))) == ResolveImageHref(image)
  {
    var href := ResolveImageHref(image);
    ResolvedShape(image);
    assert NonEmptyTrimmed(href) == Some(href);
  }

  /**
   * `safeFootageHref`: every branch of the source returns the trimmed
   * string, so footage is never rooted under the assets directory.
   */
  function SafeFootageHref(value: Option<Json>): (href: Option<string>)
    ensures href.Some? ==> Meaningful(href.value)
    ensures href.None? <==> AsNonEmptyString(value).None?
  {
    match AsNonEmptyString(value)
    case None => None
    case Some(raw) =>
      if HasHttpScheme(raw) then Some(raw)
      else if StartsWith(raw, "/") then Some(raw)
      else Some(raw)
  }

  /** Footage is passed through, trimmed, whatever its form. */
  lemma SafeFootageHrefPassesThrough(s: string)
    requires !AllSpace(s)
    ensures SafeFootageHref(Some(JString(s))) == Some(Trim(s))
  {
  }

  /**
   * `Number(s)` for a string, restricted to integers: blank is 0, an
   * optionally signed run of decimal digits is its value, anything else is
   * `NaN` (`None`).
   */
  function ParseNumber(s: string): (n: Option<int>)
  {
    ParseTrimmed(Trim(s))
  }

  /** `Number` once the surrounding spaces are gone. */
  function ParseTrimmed(t: string): (n: Option<int>)
  {
    if t == "" then Some(0)
    else if (t[0] == '-' || t[0] == '+') && |t| > 1 && AllDigits(t[1..]) then
      Some(if t[0] == '-' then -(DigitsValue(t[1..]) as int) else DigitsValue(t[1..]) as int)
    else if AllDigits(t) then Some(DigitsValue(t))
    else None
  }

  /**
   * The three readings of a trimmed string: blank is 0, a run of digits is
   * its value, and anything other than a signed run of digits is `NaN`.
   */
  lemma ParseNumberCases(s: string)
    ensures AllSpace(s) ==> ParseNumber(s) == Some(0)
    ensures Trim(s) != "" && AllDigits(Trim(s)) ==> ParseNumber(s) == Some(DigitsValue(Trim(s)))
    ensures ParseNumber(s).Some? <==>
      AllSpace(s) || AllDigits(Trim(s)) ||
      (|Trim(s)| > 1 && (Trim(s)[0] == '-' || Trim(s)[0] == '+') && AllDigits(Trim(s)[1..]))
  {
    var t := Trim(s);
    if t != "" && AllDigits(t) {
      assert IsDigit(t[0]);
    }
  }

  /** `String(n)` for an integer. */
  function IntToString(n: int): (s: string) {
    if n < 0 then "-" + NatToString(-n) else NatToString(n)
  }

  /** Reading back the decimal form of an integer gives the integer. */
  lemma ParseNumberRoundTrip(n: int)
    ensures ParseNumber(IntToString(n)) == Some(n)
  {
    IntToStringTrimmed(n);
    ParseTrimmedRoundTrip(n);
  }

  /** The decimal form of an integer has no spaces around it. */
  lemma IntToStringTrimmed(n: int)
    ensures IsTrimmed(IntToString(n))
  {
    var s := IntToString(n);
    assert IsDigit(s[|s| - 1]);
  }

  lemma ParseTrimmedRoundTrip(n: int)
    ensures ParseTrimmed(IntToString(n)) == Some(n)
  {
    var digits := NatToString(if n < 0 then -n else n);
    NatToStringRoundTrip(if n < 0 then -n else n);
    if n < 0 {
      assert IntToString(n)[1..] == digits;
    }
  }

  /**
   * `Number(raw.year)`: `None` stands for a value that is not finite.
   * `undefined` is `NaN`, `null` is 0, booleans are 0 and 1, strings are
   * parsed, an empty array is 0, a one-element array is its element's
   * string form parsed, and larger arrays and objects are `NaN`.
   */
  function ToNumber(value: Option<Json>): (n: Option<int>)
  {
    match value
    case None => None
    case Some(j) => JsonToNumber(j)
  }

  function JsonToNumber(j: Json): (n: Option<int>)
    ensures j.JNumber? ==> n == Some(j.n)
    ensures j.JArray? && |j.items| == 1 && j.items[0].JNumber? ==> n == Some(j.items[0].n)
    ensures j.JObject? || (j.JArray? && |j.items| > 1) ==> n.None?
    decreases j, 0
  {
    match j
    case JNull => Some(0)
    case JBool(b) => Some(if b then 1 else 0)
    case JNumber(n) => Some(n)
    case JString(s) => ParseNumber(s)
    case JArray(items) =>
      if |items| == 0 then Some(0)
      else if |items| == 1 then ElementToNumber(items[0])
      else None
    case JObject(_) => None
  }

  /** `Number(String(x))` for the one element of an array: `String([null])` is "". */
  function ElementToNumber(x: Json): (n: Option<int>)
    ensures x.JNumber? ==> n == Some(x.n)
    ensures x.JBool? || x.JObject? ==> n.None?
    decreases x, 1
  {
    match x
    case JNull => Some(0)
    case JBool(_) => None
    case JNumber(n) => ParseNumberRoundTrip(n); ParseNumber(IntToString(n))
    case JString(s) => ParseNumber(s)
    case JArray(_) => JsonToNumber(x)
    case JObject(_) => None
  }

  /**
   * `Number(v)` throws a TypeError for an object with its own "toString"
   * property: a JSON value is never callable, so neither `valueOf` (which
   * gives the object itself) nor that `toString` yields a primitive. An
   * array converts through the string forms of its elements, so it throws
   * when any element, at any depth, does. For every other value the
   * conversion returns, as `ToNumber` gives it.
   */
  predicate ConversionThrows(j: Json) {
    match j
    case JObject(fields) => "toString" in fields
    case JArray(items) => exists k :: 0 <= k < |items| && ConversionThrows(items[k])
    case _ => false
  }

  /** `normalizeRecord` throws: `Number(raw.year)` runs for every object, before any check. */
  predicate NormalizeThrows(raw: Json) {
    raw.JObject? && "year" in raw.fields && ConversionThrows(raw.fields["year"])
  }

  /** The message of the TypeError that `Number` throws, as V8 words it. */
  const ConversionError := "Cannot convert object to primitive value"

  /** A number wrapped in an array is still that number. */
  lemma WrappedNumber(n: int)
    ensures ToNumber(Some(JArray([JNumber(n)]))) == Some(n)
  {
    ParseNumberRoundTrip(n);
    assert ElementToNumber(JNumber(n)) == Some(n);
    assert JsonToNumber(JArray([JNumber(n)])) == ElementToNumber(JNumber(n));
  }

  /**
   * `normalizeRecord`: a record when the element is an object whose name,
   * title and description are non-blank strings and whose year is a finite
   * number; nothing otherwise. For an element on which the source throws
   * (`NormalizeThrows`) the result is not used: `LoadRecords` fails first.
   */
  function NormalizeRecord(raw: Json): (r: Option<Record>)
    ensures r.Some? ==> WellFormed(r.value)
    ensures r.Some? <==>
      && raw.JObject?
      && AsNonEmptyString(Field(raw, "name")).Some?
      && AsNonEmptyString(Field(raw, "title")).Some?
      && AsNonEmptyString(Field(raw, "description")).Some?
      && ToNumber(Field(raw, "year")).Some?
    ensures r.Some? ==>
      && r.value.name == Trim(raw.fields["name"].s)
      && r.value.title == Trim(raw.fields["title"].s)
      && r.value.description == Trim(raw.fields["description"].s)
      && r.value.year == ToNumber(Field(raw, "year")).value
      && r.value.status == NormalizeStatus(Field(raw, "status"))
      && r.value.image == AsNonEmptyString(Field(raw, "image"))
      && r.value.footage == SafeFootageHref(Field(raw, "footage"))
  {
    if !(raw.JObject? || raw.JArray?) then None
    else
      var name := AsNonEmptyString(Field(raw, "name"));
      var title := AsNonEmptyString(Field(raw, "title"));
      var description := AsNonEmptyString(Field(raw, "description"));
      var year := ToNumber(Field(raw, "year"));
      if name.None? || title.None? || description.None? || year.None? then None
      else
        Some(Record(
          name.value,
          title.value,
          description.value,
          AsNonEmptyString(Field(raw, "image")),
          SafeFootageHref(Field(raw, "footage")),
          year.value,
          NormalizeStatus(Field(raw, "status"))))
  }

  /** The JSON a well-formed record would be written as. */
  function ToJson(r: Record): Json {
    var required := map[
      "name" := JString(r.name),
      "title" := JString(r.title),
      "description" := JString(r.description),
      "year" := JNumber(r.year),
      "status" := JString(StatusText(r.status))];
    var withImage := if r.image.Some? then required["image" := JString(r.image.value)] else required;
    var withFootage := if r.footage.Some? then withImage["footage" := JString(r.footage.value)] else withImage;
    JObject(withFootage)
  }

  /** The fields of the JSON a record is written as. */
  lemma ToJsonFields(r: Record)
    ensures Field(ToJson(r), "name") == Some(JString(r.name))
    ensures Field(ToJson(r), "title") == Some(JString(r.title))
    ensures Field(ToJson(r), "description") == Some(JString(r.description))
    ensures Field(ToJson(r), "year") == Some(JNumber(r.year))
    ensures Field(ToJson(r), "status") == Some(JString(StatusText(r.status)))
    ensures Field(ToJson(r), "image") == if r.image.Some? then Some(JString(r.image.value)) else None
    ensures Field(ToJson(r), "footage") == if r.footage.Some? then Some(JString(r.footage.value)) else None
  {
  }

  /** A meaningful string is read back as itself. */
  lemma MeaningfulReadBack(t: string)
    requires Meaningful(t)
    ensures AsNonEmptyString(Some(JString(t))) == Some(t)
    ensures SafeFootageHref(Some(JString(t))) == Some(t)
  {
  }

  /** Normalisation reads back every well-formed record exactly. */
  lemma NormalizeRecordRoundTrip(r: Record)
    requires WellFormed(r)
    ensures NormalizeRecord(ToJson(r)) == Some(r)
  {
    RequiredFieldsReadBack(r);
    OptionalFieldsReadBack(r);
  }

  lemma RequiredFieldsReadBack(r: Record)
    requires WellFormed(r)
    ensures AsNonEmptyString(Field(ToJson(r), "name")) == Some(r.name)
    ensures AsNonEmptyString(Field(ToJson(r), "title")) == Some(r.title)
    ensures AsNonEmptyString(Field(ToJson(r), "description")) == Some(r.description)
    ensures ToNumber(Field(ToJson(r), "year")) == Some(r.year)
    ensures NormalizeStatus(Field(ToJson(r), "status")) == r.status
  {
    ToJsonFields(r);
    NormalizeStatusRoundTrip(r.status);
    MeaningfulReadBack(r.name);
    MeaningfulReadBack(r.title);
    MeaningfulReadBack(r.description);
  }

  lemma OptionalFieldsReadBack(r: Record)
    requires WellFormed(r)
    ensures AsNonEmptyString(Field(ToJson(r), "image")) == r.image
    ensures SafeFootageHref(Field(ToJson(r), "footage")) == r.footage
  {
    ToJsonFields(r);
    if r.image.Some? {
      MeaningfulReadBack(r.image.value);
    }
    if r.footage.Some? {
      MeaningfulReadBack(r.footage.value);
    }
  }

  /** The payload as `response.json()` delivers it, or the parser's error message. */
  datatype Body = Parsed(json: Json) | Unparsable(message: string)

  /** What `fetch` settles with: a rejection's message, or a response. */
  datatype Fetched = NetworkFailure(message: string) | Response(ok: bool, status: nat, body: Body)

  /** `.filter(Boolean)` over the results of `normalizeRecord`: drops the nulls. */
  function Compact<T>(xs: seq<Option<T>>): (kept: seq<T>)
    ensures |kept| <= |xs|
    ensures forall k :: 0 <= k < |kept| ==> Some(kept[k]) in xs
  {
    if xs == [] then []
    else (if xs[0].Some? then [xs[0].value] else []) + Compact(xs[1..])
  }

  /**
   * Filtering keeps the input order: what survives of a concatenation is what
   * survives of the first part followed by what survives of the second.
   */
  lemma {:induction false} CompactAppend<T>(a: seq<Option<T>>, b: seq<Option<T>>)
    ensures Compact(a + b) == Compact(a) + Compact(b)
  {
    if a == [] {
      assert a + b == b;
    } else {
      assert (a + b)[0] == a[0] && (a + b)[1..] == a[1..] + b;
      CompactAppend(a[1..], b);
    }
  }

  /** A `null` is dropped and anything else kept. */
  lemma CompactSingle<T>(x: Option<T>)
    ensures Compact([x]) == if x.Some? then [x.value] else []
  {
  }

  /** `json.map(normalizeRecord).filter(Boolean)`. */
  function NormalizeAll(items: seq<Json>): (records: seq<Record>)
    ensures |records| <= |items|
    ensures forall k :: 0 <= k < |records| ==> WellFormed(records[k])
  {
    Compact(seq(|items|, i requires 0 <= i < |items| => NormalizeRecord(items[i])))
  }

  /** The records of a concatenation are those of the first part followed by those of the second. */
  lemma NormalizeAllAppend(a: seq<Json>, b: seq<Json>)
    ensures NormalizeAll(a + b) == NormalizeAll(a) + NormalizeAll(b)
  {
    var ma := seq(|a|, i requires 0 <= i < |a| => NormalizeRecord(a[i]));
    var mb := seq(|b|, i requires 0 <= i < |b| => NormalizeRecord(b[i]));
    assert seq(|a + b|, i requires 0 <= i < |a + b| => NormalizeRecord((a + b)[i])) == ma + mb;
    CompactAppend(ma, mb);
  }

  /** A single element contributes its normalised record, or nothing. */
  lemma NormalizeAllSingle(x: Json)
    ensures NormalizeAll([x]) == if NormalizeRecord(x).Some? then [NormalizeRecord(x).value] else []
  {
    assert seq(1, i requires 0 <= i < 1 => NormalizeRecord([x][i])) == [NormalizeRecord(x)];
    CompactSingle(NormalizeRecord(x));
  }

  /**
   * `loadRecords`. A throw inside `json.map(normalizeRecord)` rejects the
   * load like the errors it raises itself.
   */
  function LoadRecords(fetched: Fetched): (result: Result<seq<Record>>)
    ensures fetched.NetworkFailure? ==> result == Err(fetched.message)
    ensures fetched.Response? && !fetched.ok ==>
      result == Err("Failed to load records.json (" + NatToString(fetched.status) + ")")
    ensures fetched.Response? && fetched.ok && fetched.body.Unparsable? ==>
      result == Err(fetched.body.message)
    ensures fetched.Response? && fetched.ok && fetched.body.Parsed? && !fetched.body.json.JArray? ==>
      result == Err("records.json must be an array.")
    ensures
      && fetched.Response? && fetched.ok && fetched.body.Parsed? && fetched.body.json.JArray?
      && (exists k :: 0 <= k < |fetched.body.json.items| && NormalizeThrows(fetched.body.json.items[k]))
      ==> result == Err(ConversionError)
    ensures result.Ok? <==>
      && fetched.Response? && fetched.ok && fetched.body.Parsed? && fetched.body.json.JArray?
      && forall k :: 0 <= k < |fetched.body.json.items| ==> !NormalizeThrows(fetched.body.json.items[k])
    ensures result.Ok? ==> result.value == NormalizeAll(fetched.body.json.items)
    ensures result.Ok? ==>
      && |result.value| <= |fetched.body.json.items|
      && forall k :: 0 <= k < |result.value| ==> WellFormed(result.value[k])
  {
    match fetched
    case NetworkFailure(message) => Err(message)
    case Response(ok, status, body) =>
      if !ok then Err("Failed to load records.json (" + NatToString(status) + ")")
      else
        match body
        case Unparsable(message) => Err(message)
        case Parsed(json) =>
          if !json.JArray? then Err("records.json must be an array.")
          else if exists k :: 0 <= k < |json.items| && NormalizeThrows(json.items[k]) then Err(ConversionError)
          else Ok(NormalizeAll(json.items))
  }

  /**
   * A year given as `[{"toString": 1}]` makes `Number` throw, and the throw
   * escapes `json.map(normalizeRecord)`: the whole load fails, even though
   * the element would otherwise just be skipped.
   */
  lemma YearWithOwnToString(name: string)
    ensures var year := JArray([JObject(map["toString" := JNumber(1)])]);
      && NormalizeRecord(JObject(map["name" := JString(name), "year" := year])).None?
      && LoadRecords(Response(true, 200, Parsed(JArray([JObject(map["name" := JString(name), "year" := year])])))) ==
         Err(ConversionError)
  {
    var year := JArray([JObject(map["toString" := JNumber(1)])]);
    var raw := JObject(map["name" := JString(name), "year" := year]);
    assert ConversionThrows(year.items[0]);
    assert NormalizeThrows([raw][0]);
  }
}
