/**
 * The in-browser document-recognition service (`BlinkIdSdkService`): how the
 * loosely shaped result of the recognition engine is normalised into a
 * verification record, how the back-side scan accepts or rejects a document,
 * and the readiness life cycle of the engine handles.
 *
 * The engine itself (loading, frame processing, field extraction) is outside
 * the model: its outcomes are parameters, and the result it hands back is a
 * JavaScript value, `Js`.
 */
module BlinkId {
  import opened Wrappers
  import opened JsText
  import Decimal

  /** A JavaScript value as the engine's result exposes it. Numbers are integral. */
  datatype Js =
    | Undefined
    | Null
    | Bool(b: bool)
    | Num(n: int)
    | Str(s: string)
    | Obj(props: map<string, Js>)

  /** Optional chaining `j?.key`: absent properties and non-objects give `undefined`. */
  function Get(j: Js, key: string): (v: Js)
    ensures v != Undefined ==> j.Obj? && key in j.props && v == j.props[key]
  {
    if j.Obj? && key in j.props then j.props[key] else Undefined
  }

  /** JavaScript truthiness (`!!j`). */
  predicate Truthy(j: Js)
  {
    match j
    case Undefined => false
    case Null => false
    case Bool(b) => b
    case Num(n) => n != 0
    case Str(s) => s != ""
    case Obj(_) => true
  }

  /** `String(j)`, and what a template literal inserts for `j`. */
  function JsString(j: Js): string
  {
    match j
    case Undefined => "undefined"
    case Null => "null"
    case Bool(b) => if b then "true" else "false"
    case Num(n) => Decimal.IntToString(n)
    case Str(s) => s
    case Obj(_) => "[object Object]"
  }

  /** `s.padStart(2, '0')`. */
  function PadStart2(s: string): (r: string)
    ensures |s| >= 2 ==> r == s
    ensures |s| < 2 ==> |r| == 2 && r[2 - |s|..] == s && forall i :: 0 <= i < 2 - |s| ==> r[i] == '0'
  {
    if |s| >= 2 then s else if |s| == 1 then "0" + s else "00"
  }

  // ---------------------------------------------------------------------------
  // The ordered candidate resolver `val`
  // ---------------------------------------------------------------------------

  predicate IsStringProp(c: Js, key: string) { Get(c, key).Str? }

  predicate IsDateObject(c: Js)
  {
    c.Obj? && "year" in c.props && "month" in c.props && "day" in c.props
  }

  /** A candidate that `val` turns into its answer instead of skipping it. */
  predicate Usable(c: Js)
  {
    match c
    case Str(_) => true
    case Num(_) => true
    case Obj(_) =>
      || IsStringProp(c, "value") || IsStringProp(c, "latin")
      || IsStringProp(c, "raw") || IsStringProp(c, "originalString")
      || IsDateObject(c)
    case _ => false
  }

  /** A `{year, month, day}` object as `Y-MM-DD`: month and day padded to two characters, the year as is. */
  function DateText(c: Js): string
  {
    JsString(Get(c, "year")) + "-" + PadStart2(JsString(Get(c, "month"))) + "-" + PadStart2(JsString(Get(c, "day")))
  }

  /**
   * The answer `val` gives for a usable candidate. Strings are trimmed; an
   * object yields its first string-valued property among `value`, `latin`,
   * `raw` and `originalString`, trimmed, and failing those its date.
   */
  function Render(c: Js): (r: string)
    requires Usable(c)
    ensures c.Str? ==> r == Trim(c.s)
    ensures c.Num? ==> r == Decimal.IntToString(c.n)
    ensures c.Obj? && IsStringProp(c, "value") ==> r == Trim(Get(c, "value").s)
    ensures c.Obj? && !IsStringProp(c, "value") && IsStringProp(c, "latin") ==> r == Trim(Get(c, "latin").s)
    ensures (&& c.Obj? && !IsStringProp(c, "value") && !IsStringProp(c, "latin")
             && IsStringProp(c, "raw")) ==> r == Trim(Get(c, "raw").s)
    ensures (&& c.Obj? && !IsStringProp(c, "value") && !IsStringProp(c, "latin") && !IsStringProp(c, "raw")
             && IsStringProp(c, "originalString")) ==> r == Trim(Get(c, "originalString").s)
    ensures (&& c.Obj? && IsDateObject(c) && !IsStringProp(c, "value") && !IsStringProp(c, "latin")
             && !IsStringProp(c, "raw") && !IsStringProp(c, "originalString")) ==> r == DateText(c)
    ensures !(c.Obj? && IsDateObject(c)) ==> Trimmed(r)
  {
    match c
    case Str(s) => Trim(s)
    case Num(n) => Decimal.IntToString(n)
    case Obj(_) =>
      if IsStringProp(c, "value") then Trim(Get(c, "value").s)
      else if IsStringProp(c, "latin") then Trim(Get(c, "latin").s)
      else if IsStringProp(c, "raw") then Trim(Get(c, "raw").s)
      else if IsStringProp(c, "originalString") then Trim(Get(c, "originalString").s)
      else DateText(c)
  }

  /**
   * `val(...candidates)`: the answer of the first usable candidate, skipping
   * `null`, `undefined`, booleans and objects without a usable property;
   * the empty string when there is none.
   */
  function Val(cs: seq<Js>): (r: string)
    ensures (forall i :: 0 <= i < |cs| ==> !Usable(cs[i])) ==> r == ""
  {
    if |cs| == 0 then ""
    else if Usable(cs[0]) then Render(cs[0])
    else
      var r := Val(cs[1..]);
      assert forall i :: 1 <= i < |cs| ==> cs[1..][i - 1] == cs[i];
      r
  }

  /** `val` answers with the first usable candidate, whatever follows it. */
  lemma {:induction false} ValIsFirstUsable(cs: seq<Js>, k: nat)
    requires k < |cs| && Usable(cs[k])
    requires forall i :: 0 <= i < k ==> !Usable(cs[i])
    ensures Val(cs) == Render(cs[k])
  {
    if k > 0 {
      ValIsFirstUsable(cs[1..], k - 1);
    }
  }

  /** A blank string is usable: it ends the search with `""` even when a later candidate has text. */
  lemma ValStopsAtBlankString(later: Js)
    ensures Val([Str("  "), later]) == ""
  {
    ValIsFirstUsable([Str("  "), later], 0);
    assert Trimmed("");
    TrimOfTrimmed("");
    assert Trim("  ") == "" by {
      assert LeadingSpace("  ") == 2;
    }
  }

  function TwoDigits(n: nat): string
    requires n < 100
  {
    [Decimal.DigitChar(n / 10), Decimal.DigitChar(n % 10)]
  }

  /**
   * A numeric date with month and day below 100 is written as the year, a
   * dash, the month in exactly two digits, a dash and the day in exactly two digits.
   */
  lemma DateObjectText(year: int, month: nat, day: nat)
    requires month < 100 && day < 100
    ensures Render(Obj(map["year" := Num(year), "month" := Num(month), "day" := Num(day)]))
      == Decimal.IntToString(year) + "-" + TwoDigits(month) + "-" + TwoDigits(day)
  {
    var m := map["year" := Num(year), "month" := Num(month), "day" := Num(day)];
    assert m.Keys == {"year", "month", "day"};
    var c := Obj(m);
    assert Get(c, "year") == Num(year) && Get(c, "month") == Num(month) && Get(c, "day") == Num(day);
    assert !IsStringProp(c, "value") && !IsStringProp(c, "latin");
    assert !IsStringProp(c, "raw") && !IsStringProp(c, "originalString");
    PaddedTwoDigits(month);
    PaddedTwoDigits(day);
  }

  lemma PaddedTwoDigits(n: nat)
    requires n < 100
    ensures PadStart2(Decimal.IntToString(n)) == TwoDigits(n)
  {
    if n >= 10 {
      Decimal.NatToStringTwoDigits(n);
    }
  }

  // ---------------------------------------------------------------------------
  // Document kind
  // ---------------------------------------------------------------------------

  datatype DocKind = IdCard | Passport | Other

  /** The textual document type: class info first, then the top-level fields. */
  function DocTypeText(r: Js): string
  {
    Val([Get(Get(r, "classInfo"), "documentType"), Get(r, "documentType"), Get(r, "documentTypeText")])
  }

  function MrzCode(r: Js): string
  {
    Val([Get(Get(r, "mrz"), "documentCode")])
  }

  /**
   * The identity-card pattern `identity\s*card|id\s*card|personal\s*id|
   * lična\s*karta|licna\s*karta`, on already lower-cased text.
   */
  predicate IdPhrase(t: string)
  {
    || ContainsPhrase(t, "identity", "card")
    || ContainsPhrase(t, "id", "card")
    || ContainsPhrase(t, "personal", "id")
    || ContainsPhrase(t, "li\U{10D}na", "karta")
    || ContainsPhrase(t, "licna", "karta")
  }

  /**
   * `docKind`: an identity-card phrase in the textual type wins, then the word
   * "passport" in it, then an MRZ document code starting with `P`; anything
   * else is `other`.
   */
  function DocKindOf(r: Js): (k: DocKind)
    ensures k == IdCard <==> IdPhrase(ToLower(DocTypeText(r)))
    ensures k == Passport <==>
      && !IdPhrase(ToLower(DocTypeText(r)))
      && (Contains(ToLower(DocTypeText(r)), "passport") || StartsWith(MrzCode(r), "P"))
  {
    var rawTxt := ToLower(DocTypeText(r));
    if rawTxt != "" && IdPhrase(rawTxt) then IdCard
    else if rawTxt != "" && Contains(rawTxt, "passport") then Passport
    else if StartsWith(MrzCode(r), "P") then Passport
    else Other
  }

  /** A result typed "ID Card" is an identity card even when its MRZ code reads as a passport. */
  lemma IdCardTextBeatsPassportMrz()
    ensures DocKindOf(Obj(map["documentType" := Str("ID Card"),
                              "mrz" := Obj(map["documentCode" := Str("P<")])])) == IdCard
  {
    var m := map["documentType" := Str("ID Card"), "mrz" := Obj(map["documentCode" := Str("P<")])];
    var r := Obj(m);
    TypedIdCard(r);
    IdCardMatchesIdPhrase();
  }

  lemma TypedIdCard(r: Js)
    requires r == Obj(map["documentType" := Str("ID Card"), "mrz" := Obj(map["documentCode" := Str("P<")])])
    ensures DocTypeText(r) == "ID Card"
  {
    assert r.props.Keys == {"documentType", "mrz"};
    var a, b, c := Get(Get(r, "classInfo"), "documentType"), Get(r, "documentType"), Get(r, "documentTypeText");
    assert a == Undefined && b == Str("ID Card") && c == Undefined;
    FirstTextCandidate(a, b, c, "ID Card");
  }

  lemma FirstTextCandidate(a: Js, b: Js, c: Js, s: string)
    requires !Usable(a) && b == Str(s) && Trimmed(s)
    ensures Val([a, b, c]) == s
  {
    ValIsFirstUsable([a, b, c], 1);
    TrimOfTrimmed(s);
  }

  lemma IdCardMatchesIdPhrase()
    ensures IdPhrase(ToLower("ID Card"))
  {
    var t := ToLower("ID Card");
    assert t[0] == 'i' && t[1] == 'd' && t[2] == ' ';
    assert t[3] == 'c' && t[4] == 'a' && t[5] == 'r' && t[6] == 'd';
    assert t[..2] == "id";
    assert t[3..7] == "card";
    assert SkipSpace(t, 2) == 3;
    assert PhraseAt(t, "id", "card", 0);
  }

  /** With no textual type, an MRZ document code starting with `P` makes a passport. */
  lemma MrzCodeMakesPassport()
    ensures DocKindOf(Obj(map["mrz" := Obj(map["documentCode" := Str("P<")])])) == Passport
  {
    var r := Obj(map["mrz" := Obj(map["documentCode" := Str("P<")])]);
    UntypedMrzResult(r);
    EmptyTypeTextNamesNoKind();
    assert StartsWith("P<", "P");
  }

  lemma EmptyTypeTextNamesNoKind()
    ensures !IdPhrase(ToLower("")) && !Contains(ToLower(""), "passport")
  {
    assert ToLower("") == "";
  }

  lemma UntypedMrzResult(r: Js)
    requires r == Obj(map["mrz" := Obj(map["documentCode" := Str("P<")])])
    ensures DocTypeText(r) == "" && MrzCode(r) == "P<"
  {
    assert r.props.Keys == {"mrz"};
    NoUsableCandidate(Get(Get(r, "classInfo"), "documentType"), Get(r, "documentType"), Get(r, "documentTypeText"));
    assert Get(Get(r, "mrz"), "documentCode") == Str("P<");
    SingleTrimmedString("P<");
  }

  lemma NoUsableCandidate(a: Js, b: Js, c: Js)
    requires a == Undefined && b == Undefined && c == Undefined
    ensures Val([a, b, c]) == ""
  {
    assert forall i :: 0 <= i < 3 ==> [a, b, c][i] == Undefined;
  }

  lemma SingleTrimmedString(s: string)
    requires Trimmed(s)
    ensures Val([Str(s)]) == s
  {
    TrimOfTrimmed(s);
    ValIsFirstUsable([Str(s)], 0);
  }

  // ---------------------------------------------------------------------------
  // The verification record
  // ---------------------------------------------------------------------------

  datatype ClassInfo = ClassInfo(country: Option<string>, docType: Option<string>)

  datatype Fields = Fields(
    firstName: string, lastName: string, dateOfBirth: string, expires: string, documentNumber: string)

  datatype FrameQuality = GoodQuality | OkQuality | UnknownQuality

  datatype Liveness = Liveness(isScreenshotSuspected: bool, glareDetected: bool, frameQuality: FrameQuality)

  datatype VerificationCore = VerificationCore(
    raw: Js, classInfo: ClassInfo, fields: Fields, liveness: Liveness, confidence: real)

  /** `s || undefined`. */
  function NonEmpty(s: string): (o: Option<string>)
    ensures o.Some? <==> s != ""
    ensures o.Some? ==> o.value == s
  {
    if s == "" then None else Some(s)
  }

  /** The MRZ block, `r.mrz || r.mrzResult`, carries text or a document code. */
  predicate MrzPresent(r: Js)
  {
    var mrz := if Truthy(Get(r, "mrz")) then Get(r, "mrz") else Get(r, "mrzResult");
    Truthy(Get(mrz, "mrzText")) || Truthy(Get(mrz, "documentCode"))
  }

  /** A name field: its Latin form first, then its value, its raw text, the field itself. */
  function NameField(r: Js, key: string): string
  {
    var f := Get(r, key);
    Val([Get(f, "latin"), Get(f, "value"), Get(f, "raw"), f])
  }

  /**
   * `mapResult`: the engine result as a verification record. Empty texts
   * become absent, the confidence defaults to 0.9 when the engine gives no
   * number, and a result with MRZ data but no textual type is taken for a passport.
   */
  function MapResult(r: Js): (c: VerificationCore)
    ensures c.raw == r
    ensures c.classInfo.country == NonEmpty(Val([Get(Get(r, "classInfo"), "issuer"), Get(r, "issuer"), Get(r, "nationality")]))
    ensures c.classInfo.country.Some? ==> c.classInfo.country.value != ""
    ensures c.fields.firstName == NameField(r, "firstName") && c.fields.lastName == NameField(r, "lastName")
    ensures c.fields.dateOfBirth ==
      Val([Get(Get(r, "dateOfBirth"), "originalString"), Get(r, "dateOfBirth"), Get(r, "dob")])
    ensures c.fields.expires ==
      Val([Get(Get(r, "dateOfExpiry"), "originalString"), Get(r, "dateOfExpiry"), Get(r, "expiryDate")])
    ensures c.fields.documentNumber ==
      Val([Get(r, "documentNumber"), Get(Get(r, "mrz"), "documentNumber"),
           Get(Get(r, "mrz"), "primaryIdNumber"), Get(r, "idNumber")])
    ensures c.classInfo.docType.Some? ==> c.classInfo.docType.value != ""
    ensures DocTypeText(r) != "" ==> c.classInfo.docType == Some(DocTypeText(r))
    ensures DocTypeText(r) == "" ==> (c.classInfo.docType.Some? <==> MrzPresent(r))
    ensures DocTypeText(r) == "" && MrzPresent(r) ==> c.classInfo.docType == Some("Passport")
    ensures Get(r, "recognitionConfidence").Num? ==> c.confidence == Get(r, "recognitionConfidence").n as real
    ensures !Get(r, "recognitionConfidence").Num? ==> c.confidence == 0.9
    ensures c.liveness.isScreenshotSuspected <==> Truthy(Get(r, "isScreenshotSuspected"))
    ensures c.liveness.glareDetected <==> Truthy(Get(r, "isGlareDetected"))
    ensures c.liveness.frameQuality == GoodQuality
  {
    var country := Val([Get(Get(r, "classInfo"), "issuer"), Get(r, "issuer"), Get(r, "nationality")]);
    var docType := DocTypeText(r);
    var fields := Fields(
      NameField(r, "firstName"),
      NameField(r, "lastName"),
      Val([Get(Get(r, "dateOfBirth"), "originalString"), Get(r, "dateOfBirth"), Get(r, "dob")]),
      Val([Get(Get(r, "dateOfExpiry"), "originalString"), Get(r, "dateOfExpiry"), Get(r, "expiryDate")]),
      Val([Get(r, "documentNumber"), Get(Get(r, "mrz"), "documentNumber"),
           Get(Get(r, "mrz"), "primaryIdNumber"), Get(r, "idNumber")]));
    var liveness := Liveness(Truthy(Get(r, "isScreenshotSuspected")), Truthy(Get(r, "isGlareDetected")), GoodQuality);
    var confidence := if Get(r, "recognitionConfidence").Num? then Get(r, "recognitionConfidence").n as real else 0.9;
    var core := VerificationCore(r, ClassInfo(NonEmpty(country), NonEmpty(docType)), fields, liveness, confidence);
    if MrzPresent(r) && core.classInfo.docType.None? then
      core.(classInfo := core.classInfo.(docType := Some("Passport")))
    else core
  }

  // ---------------------------------------------------------------------------
  // The back-side acceptance checks
  // ---------------------------------------------------------------------------

  datatype AllowedDoc = AllowId | AllowPassport

  const DefaultAllowed: seq<AllowedDoc> := [AllowId, AllowPassport]

  /**
   * The type check of `scanBack`: identity cards and passports must be listed;
   * an unclassified document passes whenever anything is listed.
   */
  predicate OkType(kind: DocKind, allowed: seq<AllowedDoc>)
    ensures OkType(kind, allowed) ==> allowed != []
    ensures kind == IdCard ==> (OkType(kind, allowed) <==> AllowId in allowed)
    ensures kind == Passport ==> (OkType(kind, allowed) <==> AllowPassport in allowed)
    ensures kind == Other ==> (OkType(kind, allowed) <==> allowed != [])
    ensures allowed == DefaultAllowed ==> OkType(kind, allowed)
  {
    || (kind == IdCard && AllowId in allowed)
    || (kind == Passport && AllowPassport in allowed)
    || (kind == Other && |allowed| > 0)
  }

  function KindLabel(k: DocKind): string
  {
    match k
    case IdCard => "Identity Card"
    case Passport => "Passport"
    case Other => "Unknown"
  }

  datatype ScanError =
    | NotInitialized
    | EngineFailure
    | UnsupportedType(docType: string, allowed: seq<AllowedDoc>)
    | ScreenshotSuspected

  function AllowedName(a: AllowedDoc): string
  {
    match a
    case AllowId => "ID"
    case AllowPassport => "PASSPORT"
  }

  /** The upper-case names of the allow-list, joined by `" or "`. */
  function JoinAllowed(allowed: seq<AllowedDoc>): (r: string)
    ensures r == "" <==> allowed == []
  {
    if |allowed| == 0 then ""
    else if |allowed| == 1 then AllowedName(allowed[0])
    else AllowedName(allowed[0]) + " or " + JoinAllowed(allowed[1..])
  }

  /** The message of the error the service throws. */
  function ErrorMessage(e: ScanError): (m: string)
    ensures m != ""
    ensures e.UnsupportedType? ==>
      && StartsWith(m, "Unsupported document type (")
      && |m| > 27 + |e.docType|
      && m[27..27 + |e.docType|] == e.docType
      && m[27 + |e.docType|..] == "). Allowed: " + JoinAllowed(e.allowed)
  {
    match e
    case NotInitialized => "BlinkID SDK not initialized."
    case EngineFailure => "BlinkID engine failure."
    case UnsupportedType(t, allowed) =>
      "Unsupported document type (" + t + "). Allowed: " + JoinAllowed(allowed)
    case ScreenshotSuspected => "Detected screen image. Please scan a physical document."
  }

  /** With the default list, a rejected type names both allowed kinds in capitals. */
  lemma DefaultAllowedMessage(t: string)
    ensures ErrorMessage(UnsupportedType(t, DefaultAllowed)) ==
      "Unsupported document type (" + t + "). Allowed: ID or PASSPORT"
  {
    assert DefaultAllowed[1..] == [AllowPassport];
  }

  /** The type `scanBack` reports: the mapped type, or the kind's label when there is none. */
  function TypeLabel(r: Js): string
  {
    var t := MapResult(r).classInfo.docType;
    if t.Some? then t.value else KindLabel(DocKindOf(r))
  }

  /**
   * What `scanBack` does with the engine's result: normalise it, label a
   * missing type by the document kind, reject a kind the allow-list does not
   * admit, then reject a suspected screenshot.
   */
  function CheckBack(r: Js, allowed: seq<AllowedDoc>): (res: Result<VerificationCore, ScanError>)
    ensures res.Success? <==> OkType(DocKindOf(r), allowed) && !Truthy(Get(r, "isScreenshotSuspected"))
    ensures !OkType(DocKindOf(r), allowed) ==> res == Failure(UnsupportedType(TypeLabel(r), allowed))
    ensures OkType(DocKindOf(r), allowed) && Truthy(Get(r, "isScreenshotSuspected")) ==>
      res == Failure(ScreenshotSuspected)
    ensures allowed == [] ==> res.Failure?
    ensures res.Success? ==>
      && res.value == MapResult(r).(classInfo := res.value.classInfo)
      && res.value.classInfo.country == MapResult(r).classInfo.country
      && res.value.classInfo.docType.Some?
      && res.value.fields == MapResult(r).fields
      && (MapResult(r).classInfo.docType.None? ==> res.value.classInfo.docType == Some(KindLabel(DocKindOf(r))))
      && (MapResult(r).classInfo.docType.Some? ==> res.value.classInfo == MapResult(r).classInfo)
  {
    var core := MapResult(r);
    var kind := DocKindOf(r);
    var core := if core.classInfo.docType.None?
      then core.(classInfo := core.classInfo.(docType := Some(KindLabel(kind))))
      else core;
    if !OkType(kind, allowed) then Failure(UnsupportedType(core.classInfo.docType.value, allowed))
    else if core.liveness.isScreenshotSuspected then Failure(ScreenshotSuspected)
    else Success(core)
  }

  // ---------------------------------------------------------------------------
  // The service and its readiness life cycle
  // ---------------------------------------------------------------------------

  /** An engine object (module, recognizer or runner). */
  type Handle = nat

  /** How an asynchronous engine call ended: it threw, or it returned an object or nothing. */
  datatype Call = Throws | Returns(handle: Option<Handle>)

  datatype InitError = LicenseKeyRequired | LoadFailed

  datatype Side = FrontSide | BackSide

  class BlinkIdSdkService {
    var loaded: bool
    var sdk: Option<Handle>
    var runner: Option<Handle>
    var recognizer: Option<Handle>

    constructor ()
      ensures !loaded && sdk == None && runner == None && recognizer == None
    {
      loaded := false;
      sdk, runner, recognizer := None, None, None;
    }

    /** `isReady`: loaded and holding all three engine objects. */
    predicate IsReady()
      reads this
      ensures IsReady() ==> loaded && sdk.Some? && runner.Some? && recognizer.Some?
    {
      loaded && sdk.Some? && runner.Some? && recognizer.Some?
    }

    /**
     * `init(licenseKey)`: nothing to do once loaded; an empty key is an error;
     * otherwise load the module, create the recognizer, then the runner, and
     * only then mark the service loaded. A step that throws leaves what the
     * earlier steps stored.
     */
    method Init(licenseKey: string, load: Call, createRecognizer: Call, createRunner: Call)
      returns (res: Outcome<InitError>)
      modifies this
      ensures old(loaded) ==> res == Pass && unchanged(this)
      ensures !old(loaded) && licenseKey == "" ==> res == Fail(LicenseKeyRequired) && unchanged(this)
      ensures !old(loaded) && licenseKey != "" ==>
        (res == Pass <==> load.Returns? && createRecognizer.Returns? && createRunner.Returns?)
      ensures !old(loaded) && res.Fail? ==> !loaded && res.error == (if licenseKey == "" then LicenseKeyRequired else LoadFailed)
      ensures !old(loaded) && res == Pass ==>
        && loaded && sdk == load.handle && recognizer == createRecognizer.handle && runner == createRunner.handle
        && (IsReady() <==> load.handle.Some? && createRecognizer.handle.Some? && createRunner.handle.Some?)
      ensures !old(loaded) && licenseKey != "" && load.Throws? ==> unchanged(this) && res.Fail?
      ensures !old(loaded) && licenseKey != "" && load.Returns? && createRecognizer.Throws? ==>
        sdk == load.handle && recognizer == old(recognizer) && runner == old(runner) && !loaded
      ensures !old(loaded) && licenseKey != "" && load.Returns? && createRecognizer.Returns? && createRunner.Throws? ==>
        sdk == load.handle && recognizer == createRecognizer.handle && runner == old(runner) && !loaded
    {
      if loaded {
        return Pass;
      }
      if licenseKey == "" {
        return Fail(LicenseKeyRequired);
      }
      if load.Throws? {
        return Fail(LoadFailed);
      }
      sdk := load.handle;
      if createRecognizer.Throws? {
        return Fail(LoadFailed);
      }
      recognizer := createRecognizer.handle;
      if createRunner.Throws? {
        return Fail(LoadFailed);
      }
      runner := createRunner.handle;
      loaded := true;
      res := Pass;
    }

    /**
     * `dispose`: release the runner and recognizer (their errors are
     * swallowed) and mark the service not loaded; the module is kept.
     */
    method Dispose()
      modifies this
      ensures !loaded && runner == None && recognizer == None && sdk == old(sdk)
      ensures !IsReady()
    {
      recognizer := None;
      runner := None;
      loaded := false;
    }

    /** `scanFront`: refused when not ready; otherwise fails only if the engine throws. */
    method ScanFront(engineThrows: bool) returns (res: Outcome<ScanError>)
      ensures !IsReady() ==> res == Fail(NotInitialized)
      ensures IsReady() ==> (res == Pass <==> !engineThrows)
      ensures IsReady() && engineThrows ==> res == Fail(EngineFailure)
    {
      if !IsReady() {
        return Fail(NotInitialized);
      }
      res := if engineThrows then Fail(EngineFailure) else Pass;
    }

    /**
     * `scanBack`: refused when not ready; `recognition` is the engine's result,
     * absent when processing threw; a result is then put through `CheckBack`.
     */
    method ScanBack(recognition: Option<Js>, allowed: seq<AllowedDoc>) returns (res: Result<VerificationCore, ScanError>)
      ensures !IsReady() ==> res == Failure(NotInitialized)
      ensures IsReady() && recognition.None? ==> res == Failure(EngineFailure)
      ensures IsReady() && recognition.Some? ==> res == CheckBack(recognition.value, allowed)
      ensures res.Success? ==>
        IsReady() && recognition.Some? && !res.value.liveness.isScreenshotSuspected
        && OkType(DocKindOf(recognition.value), allowed)
    {
      if !IsReady() {
        return Failure(NotInitialized);
      }
      if recognition.None? {
        return Failure(EngineFailure);
      }
      res := CheckBack(recognition.value, allowed);
    }

    /**
     * `quickCheckSide`: trusts the picture (true) when the engine is not
     * ready; otherwise the truthiness of what processing returned, and false
     * when any step throws (`processed` absent).
     */
    method QuickCheckSide(expected: Side, processed: Option<Js>) returns (ok: bool)
      ensures !IsReady() ==> ok
      ensures IsReady() && processed.None? ==> !ok
      ensures IsReady() && processed.Some? ==> (ok <==> Truthy(processed.value))
    {
      if !IsReady() {
        return true;
      }
      ok := processed.Some? && Truthy(processed.value);
    }
  }
}
