/** The approved template of a message: what the catalog must hold for it to be sent
    (`parse_approved_template`), and the text and the parameters that are sent
    (`ApprovedTemplate.render`, `ApprovedTemplate.processed_params`). */
module ApprovedTemplates {
  import opened Wrappers
  import opened Text

  const MAX_BODY := 1024
  const MAX_SUFFIX := 2000

  datatype TemplateError = InvalidCall | Unavailable | Mismatch | ParametersMissing | KeyMissing

  // -------------------------------------------------------------------------
  // Placeholders
  // -------------------------------------------------------------------------

  /** A text is literal characters and placeholders, each with its digits. */
  datatype Piece = Literal(c: char) | Hole(digits: string)

  function DigitsOf(s: string): string {
    if s != "" && IsDigit(s[0]) then [s[0]] + DigitsOf(s[1..]) else ""
  }

  /** The digits of the placeholder `{{digits}}` that a text begins with. */
  function Leading(s: string): Option<string> {
    if |s| >= 5 && s[0] == '{' && s[1] == '{' then
      var digits := DigitsOf(s[2..]);
      if digits != "" && |s| >= |digits| + 4 && s[|digits| + 2] == '}' && s[|digits| + 3] == '}' then Some(digits) else None
    else None
  }

  /** The pieces of a text, from left to right. */
  function Pieces(s: string): seq<Piece>
    decreases |s|
  {
    if s == "" then []
    else
      match Leading(s)
      case Some(digits) => [Hole(digits)] + Pieces(s[|digits| + 4..])
      case None => [Literal(s[0])] + Pieces(s[1..])
  }

  function PieceText(piece: Piece): string {
    match piece
    case Literal(c) => [c]
    case Hole(digits) => "{{" + digits + "}}"
  }

  function Print(pieces: seq<Piece>): string {
    if pieces == [] then "" else PieceText(pieces[0]) + Print(pieces[1..])
  }

  /** The text with the placeholders filled, in one pass. */
  function Fill(pieces: seq<Piece>, values: map<string, string>): string
    requires forall digits :: Hole(digits) in pieces ==> digits in values
  {
    if pieces == [] then ""
    else
      assert pieces[0] in pieces;
      (match pieces[0] case Literal(c) => [c] case Hole(digits) => values[digits]) + Fill(pieces[1..], values)
  }

  function Literals(pieces: seq<Piece>): string {
    if pieces == [] then "" else (if pieces[0].Literal? then [pieces[0].c] else "") + Literals(pieces[1..])
  }

  lemma {:induction false} DigitsAreAPrefix(s: string)
    ensures DigitsOf(s) <= s && forall i :: 0 <= i < |DigitsOf(s)| ==> IsDigit(DigitsOf(s)[i])
  {
    if s != "" && IsDigit(s[0]) {
      DigitsAreAPrefix(s[1..]);
    }
  }

  lemma LeadingIsAPrefix(s: string)
    ensures Leading(s).Some? ==>
              var digits := Leading(s).value;
              && digits != "" && |s| >= |digits| + 4 && s[..|digits| + 4] == "{{" + digits + "}}"
              && forall i :: 0 <= i < |digits| ==> IsDigit(digits[i])
  {
    if Leading(s).Some? {
      var digits := Leading(s).value;
      DigitsAreAPrefix(s[2..]);
      assert s[2..|digits| + 2] == digits;
    }
  }

  lemma PrintFirst(piece: Piece, rest: seq<Piece>)
    ensures Print([piece] + rest) == PieceText(piece) + Print(rest)
  {
    assert ([piece] + rest)[1..] == rest;
  }

  lemma FirstPiece(s: string)
    requires s != ""
    ensures match Leading(s)
            case Some(digits) => |digits| + 4 <= |s| && s == PieceText(Hole(digits)) + s[|digits| + 4..]
            case None => s == PieceText(Literal(s[0])) + s[1..]
  {
    LeadingIsAPrefix(s);
    if Leading(s).Some? {
      assert s == s[..|Leading(s).value| + 4] + s[|Leading(s).value| + 4..];
    }
  }

  /** The pieces are the whole text, nothing more: only the placeholders are taken out. */
  lemma {:induction false} PiecesPartition(s: string)
    ensures Print(Pieces(s)) == s
    decreases |s|
  {
    if s != "" {
      FirstPiece(s);
      match Leading(s) {
        case Some(digits) =>
          PiecesPartition(s[|digits| + 4..]);
          PrintFirst(Hole(digits), Pieces(s[|digits| + 4..]));
        case None =>
          PiecesPartition(s[1..]);
          PrintFirst(Literal(s[0]), Pieces(s[1..]));
      }
    }
  }

  lemma {:induction false} DigitsBefore(digits: string, rest: string)
    requires (forall i :: 0 <= i < |digits| ==> IsDigit(digits[i])) && (rest != "" ==> !IsDigit(rest[0]))
    ensures DigitsOf(digits + rest) == digits
  {
    if digits == "" {
      assert digits + rest == rest;
    } else {
      assert (digits + rest)[1..] == digits[1..] + rest;
      DigitsBefore(digits[1..], rest);
      assert digits == [digits[0]] + digits[1..];
    }
  }

  lemma HoleLeads(digits: string, rest: string)
    requires digits != "" && forall i :: 0 <= i < |digits| ==> IsDigit(digits[i])
    ensures Pieces("{{" + digits + "}}" + rest) == [Hole(digits)] + Pieces(rest)
  {
    var s := "{{" + digits + "}}" + rest;
    assert s[2..] == digits + ("}}" + rest);
    DigitsBefore(digits, "}}" + rest);
    assert s[|digits| + 2] == '}' && s[|digits| + 3] == '}';
    assert s[|digits| + 4..] == rest;
  }

  lemma {:induction false} DigitsEndBefore(a: string, tail: string)
    requires tail != "" && !IsDigit(tail[0])
    ensures DigitsOf(a + tail) == DigitsOf(a)
  {
    if a == "" {
      assert a + tail == tail;
    } else {
      assert (a + tail)[0] == a[0] && (a + tail)[1..] == a[1..] + tail;
      DigitsEndBefore(a[1..], tail);
    }
  }

  /** A placeholder does not begin in one text and end in the next, which opens another. */
  lemma LeadingStays(a: string, tail: string)
    requires a != "" && "{{" <= tail
    ensures Leading(a + tail) == Leading(a)
  {
    var s := a + tail;
    assert tail[0] == '{' && tail[1] == '{';
    if |a| == 1 {
      assert s[2] == tail[1];
      assert DigitsOf(s[2..]) == "";
    } else {
      assert s[2..] == a[2..] + tail;
      DigitsEndBefore(a[2..], tail);
      DigitsAreAPrefix(a[2..]);
      var digits := DigitsOf(a[2..]);
      assert |digits| + 2 <= |a|;
      assert |digits| + 2 < |a| ==> s[|digits| + 2] == a[|digits| + 2];
      assert |digits| + 3 < |a| ==> s[|digits| + 3] == a[|digits| + 3];
      assert |digits| + 2 == |a| ==> s[|digits| + 2] == '{';
      assert |digits| + 3 == |a| ==> s[|digits| + 3] == '{';
    }
  }

  lemma LiteralLeads(c: char, rest: string)
    requires Leading([c] + rest).None?
    ensures Pieces([c] + rest) == [Literal(c)] + Pieces(rest)
  {
    assert ([c] + rest)[1..] == rest;
  }

  lemma HoleBefore(a: string, digits: string, tail: string)
    requires Leading(a) == Some(digits) && |digits| + 4 <= |a|
    requires Pieces(a[|digits| + 4..] + tail) == Pieces(a[|digits| + 4..]) + Pieces(tail)
    ensures Pieces(a + tail) == Pieces(a) + Pieces(tail)
  {
    var rest := a[|digits| + 4..];
    FirstPiece(a);
    LeadingIsAPrefix(a);
    HoleLeads(digits, rest);
    HoleLeads(digits, rest + tail);
    Associate("{{" + digits + "}}", rest, tail);
    Associate([Hole(digits)], Pieces(rest), Pieces(tail));
  }

  lemma LiteralBefore(a: string, tail: string)
    requires a != "" && Leading(a).None? && "{{" <= tail
    requires Pieces(a[1..] + tail) == Pieces(a[1..]) + Pieces(tail)
    ensures Pieces(a + tail) == Pieces(a) + Pieces(tail)
  {
    LeadingStays(a, tail);
    FirstPiece(a);
    Associate([a[0]], a[1..], tail);
    LiteralLeads(a[0], a[1..]);
    LiteralLeads(a[0], a[1..] + tail);
    Associate([Literal(a[0])], Pieces(a[1..]), Pieces(tail));
  }

  /** A text is taken apart on its own when a placeholder follows it, whatever it ends with. */
  lemma {:induction false} PiecesOfConcatenation(a: string, tail: string)
    requires "{{" <= tail
    ensures Pieces(a + tail) == Pieces(a) + Pieces(tail)
    decreases |a|
  {
    if a == "" {
      assert a + tail == tail;
    } else if Leading(a).Some? {
      var digits := Leading(a).value;
      FirstPiece(a);
      PiecesOfConcatenation(a[|digits| + 4..], tail);
      HoleBefore(a, digits, tail);
    } else {
      PiecesOfConcatenation(a[1..], tail);
      LiteralBefore(a, tail);
    }
  }

  lemma {:induction false} FillOfConcatenation(a: seq<Piece>, b: seq<Piece>, values: map<string, string>)
    requires forall digits :: Hole(digits) in a + b ==> digits in values
    ensures (forall digits :: Hole(digits) in a ==> digits in values) && (forall digits :: Hole(digits) in b ==> digits in values)
    ensures Fill(a + b, values) == Fill(a, values) + Fill(b, values)
  {
    assert forall p :: p in a + b <==> p in a || p in b;
    if a == [] {
      assert a + b == b;
    } else {
      assert (a + b)[1..] == a[1..] + b;
      FillOfConcatenation(a[1..], b, values);
    }
  }

  lemma {:induction false} FillOfLiterals(a: seq<Piece>, values: map<string, string>)
    requires forall digits :: Hole(digits) !in a
    ensures Fill(a, values) == Print(a)
  {
    if a != [] {
      assert a[0] in a;
      FillOfLiterals(a[1..], values);
    }
  }

  /** A text without placeholders stays as it is. */
  lemma LiteralTextStays(a: string, values: map<string, string>)
    requires forall digits :: Hole(digits) !in Pieces(a)
    ensures Fill(Pieces(a), values) == a
  {
    FillOfLiterals(Pieces(a), values);
    PiecesPartition(a);
  }

  lemma HoleIsFilled(digits: string, rest: string, values: map<string, string>)
    requires digits != "" && forall i :: 0 <= i < |digits| ==> IsDigit(digits[i])
    requires digits in values && forall d :: Hole(d) in Pieces(rest) ==> d in values
    ensures forall d :: Hole(d) in Pieces("{{" + digits + "}}" + rest) ==> d in values
    ensures Fill(Pieces("{{" + digits + "}}" + rest), values) == values[digits] + Fill(Pieces(rest), values)
  {
    HoleLeads(digits, rest);
    var pieces := [Hole(digits)] + Pieces(rest);
    assert pieces[1..] == Pieces(rest);
    assert forall p :: p in pieces <==> p == Hole(digits) || p in Pieces(rest);
  }

  /** One pass: the value goes in as it is, whatever it holds, and the filling goes on
      after the placeholder, not inside the value; what comes before it is filled on its own. */
  lemma ValuesStayVerbatim(a: string, digits: string, rest: string, values: map<string, string>)
    requires digits != "" && forall i :: 0 <= i < |digits| ==> IsDigit(digits[i])
    requires digits in values
    requires forall d :: Hole(d) in Pieces(a) || Hole(d) in Pieces(rest) ==> d in values
    ensures forall d :: Hole(d) in Pieces(a + ("{{" + digits + "}}" + rest)) ==> d in values
    ensures Fill(Pieces(a + ("{{" + digits + "}}" + rest)), values)
            == Fill(Pieces(a), values) + (values[digits] + Fill(Pieces(rest), values))
  {
    var tail := "{{" + digits + "}}" + rest;
    assert tail[0] == '{' && tail[1] == '{';
    assert "{{" <= tail;
    PiecesOfConcatenation(a, tail);
    HoleIsFilled(digits, rest, values);
    assert forall p :: p in Pieces(a) + Pieces(tail) <==> p in Pieces(a) || p in Pieces(tail);
    FillOfConcatenation(Pieces(a), Pieces(tail), values);
  }

  // -------------------------------------------------------------------------
  // Numerals
  // -------------------------------------------------------------------------

  /** The numeral is written as the number is: no zeros before it. */
  predicate Canonical(digits: string)
    requires forall i :: 0 <= i < |digits| ==> IsDigit(digits[i])
  {
    digits == Decimal(Number(digits))
  }

  lemma {:induction false} HolesAreDigits(s: string)
    ensures forall digits :: Hole(digits) in Pieces(s) ==>
              digits != "" && forall i :: 0 <= i < |digits| ==> IsDigit(digits[i])
    decreases |s|
  {
    if s != "" {
      LeadingIsAPrefix(s);
      match Leading(s) {
        case Some(digits) =>
          HolesAreDigits(s[|digits| + 4..]);
        case None =>
          HolesAreDigits(s[1..]);
      }
    }
  }

  /** The keys `"1"` to `"n"`. */
  function Expected(n: nat): set<string> {
    set i | 1 <= i <= n :: Decimal(i)
  }

  /** `{{1}}` to `{{n}}` are in the body, with no other number, and no "{{" is left over. */
  ghost predicate BodyFits(body: string, n: nat) {
    && Strip(body) != ""
    && (forall digits :: Hole(digits) in Pieces(body) ==> IsNumeralUpTo(digits, n))
    && (forall i :: 1 <= i <= n ==> HasNumber(body, i))
    && !Opens(Literals(Pieces(body)))
  }

  ghost predicate HasNumber(body: string, i: nat) {
    exists digits :: Hole(digits) in Pieces(body) && IsNumeralOf(digits, i)
  }

  predicate IsNumeralUpTo(digits: string, n: nat) {
    (forall i :: 0 <= i < |digits| ==> IsDigit(digits[i])) && 1 <= Number(digits) <= n
  }

  predicate IsNumeralOf(digits: string, n: nat) {
    (forall i :: 0 <= i < |digits| ==> IsDigit(digits[i])) && Number(digits) == n
  }

  /** "{{" is in the text. */
  predicate Opens(s: string) {
    |s| >= 2 && ((s[0] == '{' && s[1] == '{') || Opens(s[1..]))
  }

  // -------------------------------------------------------------------------
  // Rendering
  // -------------------------------------------------------------------------

  /** The media of the header of the template. */
  datatype MediaType = ImageMedia | VideoMedia

  datatype Media = Media(mediaType: MediaType, url: string)

  datatype Template = Template(
    name: string,
    language: string,
    category: string,
    body: string,
    parameterCount: nat,
    buttonUrl: Option<string>,
    headerMedia: Option<Media>)

  /** Five spaces in a row, a line break or a tab: Meta refuses the value. */
  predicate Refused(value: string) {
    '\n' in value || '\r' in value || '\t' in value || FiveSpaces(value)
  }

  predicate FiveSpaces(s: string) {
    |s| >= 5 && (s[..5] == "     " || FiveSpaces(s[1..]))
  }

  predicate GoodValue(value: string) {
    Strip(value) != "" && !Refused(value)
  }

  predicate HasKeys(body: string, values: map<string, string>) {
    forall p :: p in Pieces(body) && p.Hole? ==> p.digits in values
  }

  /** `render` */
  function Render(t: Template, values: map<string, string>): Result<string, TemplateError> {
    if values.Keys != Expected(t.parameterCount) then Failure(Mismatch)
    else if exists k :: k in values && !GoodValue(values[k]) then Failure(ParametersMissing)
    else if !HasKeys(t.body, values) then Failure(KeyMissing)
    else
      assert forall digits :: Hole(digits) in Pieces(t.body) ==> digits in values;
      var rendered := Fill(Pieces(t.body), values);
      if |rendered| > MAX_BODY then Failure(Mismatch) else Success(rendered)
  }

  lemma CanonicalIsExpected(digits: string, n: nat)
    requires IsNumeralUpTo(digits, n)
    ensures digits in Expected(n) <==> IsCanonical(digits)
  {
    if digits in Expected(n) {
      var i :| 1 <= i <= n && digits == Decimal(i);
      NumberOfDecimal(i);
    }
  }

  lemma EveryKeyIsUsed(body: string, n: nat, k: string)
    requires BodyFits(body, n) && k in Expected(n)
    requires forall digits :: Hole(digits) in Pieces(body) ==> IsCanonical(digits)
    ensures Hole(k) in Pieces(body)
  {
    var i :| 1 <= i <= n && k == Decimal(i);
    assert HasNumber(body, i);
    var digits :| Hole(digits) in Pieces(body) && IsNumeralOf(digits, i);
    assert IsCanonical(digits);
  }

  lemma KeysAreDigits(body: string, values: map<string, string>)
    ensures HasKeys(body, values) <==> forall digits :: Hole(digits) in Pieces(body) ==> digits in values
  {
    if HasKeys(body, values) {
      forall digits | Hole(digits) in Pieces(body)
        ensures digits in values
      {
        assert Hole(digits).Hole?;
      }
    }
    assert forall p: Piece :: p.Hole? ==> p == Hole(p.digits);
  }

  /** For a template whose body fits: the substitution finds every key exactly when the
      numerals are canonical; then every value is used. A body with "{{01}}" is accepted
      from the catalog, and no values render it. */
  lemma RenderFindsItsKeys(t: Template, values: map<string, string>)
    requires BodyFits(t.body, t.parameterCount) && values.Keys == Expected(t.parameterCount)
    ensures HasKeys(t.body, values) <==>
              forall digits :: Hole(digits) in Pieces(t.body) ==> IsCanonical(digits)
    ensures HasKeys(t.body, values) ==> forall k :: k in values ==> Hole(k) in Pieces(t.body)
  {
    KeysAreDigits(t.body, values);
    forall digits | Hole(digits) in Pieces(t.body)
      ensures digits in values <==> IsCanonical(digits)
    {
      assert IsNumeralUpTo(digits, t.parameterCount);
      CanonicalIsExpected(digits, t.parameterCount);
    }
    if HasKeys(t.body, values) {
      forall k | k in values
        ensures Hole(k) in Pieces(t.body)
      {
        EveryKeyIsUsed(t.body, t.parameterCount, k);
      }
    }
  }

  predicate IsCanonical(digits: string) {
    (forall i :: 0 <= i < |digits| ==> IsDigit(digits[i])) && Canonical(digits)
  }

  lemma ZeroOneIsOne()
    ensures IsNumeralOf("01", 1) && !IsCanonical("01")
  {
    assert "01"[..1] == "0" && "0"[..0] == "";
    assert Number("0") == 0 && Number("01") == 1;
  }

  lemma ZerosBeforeANumeral()
    ensures Pieces("{{01}}") == [Hole("01")] && BodyFits("{{01}}", 1)
    ensures Expected(1) == {"1"}
  {
    assert "{{01}}" == "{{" + "01" + "}}" + "";
    HoleLeads("01", "");
    ZeroOneIsOne();
    assert Literals([Hole("01")][1..]) == "";
    assert HasNumber("{{01}}", 1) by {
      assert Hole("01") in Pieces("{{01}}");
    }
    BracesAreNotSpace();
    OneKey();
  }

  lemma BracesAreNotSpace()
    ensures Strip("{{01}}") == "{{01}}"
  {
    var body := "{{01}}";
    assert !Space(body[0]) && !Space(body[|body| - 1]);
  }

  lemma OneKey()
    ensures Expected(1) == {"1"}
  {
    assert Decimal(1) == "1";
    assert "1" in Expected(1);
  }

  /** The body "{{01}}" fits one parameter, and no value of the one key expected renders it. */
  lemma ZerosBeforeANumeralDoNotRender(t: Template, value: string)
    requires t.body == "{{01}}" && t.parameterCount == 1 && GoodValue(value)
    ensures BodyFits(t.body, t.parameterCount) && Expected(t.parameterCount) == {"1"}
    ensures Render(t, map["1" := value]) == Failure(KeyMissing)
  {
    ZerosBeforeANumeral();
    var values := map["1" := value];
    assert values.Keys == {"1"};
    assert !HasKeys(t.body, values) by {
      assert Hole("01") in Pieces(t.body) && "01" !in values;
    }
  }

  // -------------------------------------------------------------------------
  // The parameters of the send
  // -------------------------------------------------------------------------

  datatype Params = Params(body: map<string, string>, header: Option<Media>, button: Option<string>)

  predicate GoodSuffix(suffix: string) {
    suffix != "" && |suffix| <= MAX_SUFFIX && forall i :: 0 <= i < |suffix| ==> !Space(suffix[i])
  }

  /** `processed_params` */
  function ProcessedParams(t: Template, values: map<string, string>, suffix: Option<string>): Result<Params, TemplateError> {
    var rendered := Render(t, values);
    if rendered.Failure? then Failure(rendered.error)
    else if t.buttonUrl.Some? then
      if suffix.Some? && GoodSuffix(suffix.value) then Success(Params(values, t.headerMedia, suffix))
      else Failure(ParametersMissing)
    else if suffix.Some? then Failure(Mismatch)
    else Success(Params(values, t.headerMedia, None))
  }

  // -------------------------------------------------------------------------
  // The catalog
  // -------------------------------------------------------------------------

  datatype Format = TextFormat | MediaFormat(media: MediaType) | OtherFormat

  datatype Button = QuickReply | UrlButton(url: Option<string>) | OtherButton

  /** A component; values that are not of the right type are `None`. A header without a
      format counts as text. */
  datatype Component =
    | BodyComponent(text: Option<string>)
    | Buttons(buttons: Option<seq<Button>>)
    | Header(format: Format, text: Option<string>)
    | Footer(text: Option<string>)
    | OtherComponent

  datatype CatalogTemplate = CatalogTemplate(
    name: string,
    language: Option<string>,
    approved: bool,
    category: Option<string>,
    components: Option<seq<Component>>)

  /** What the caller asks for. */
  datatype Request = Request(
    name: string,
    language: string,
    categories: set<string>,
    parameterCount: int,
    urlButton: Option<string>,
    headerMedia: Option<Media>,
    plainButtonsOnly: bool)
  {
    predicate Valid() {
      && Strip(name) != "" && parameterCount >= 1
      && (urlButton.Some? ==> ValidUrlButton(urlButton.value) && !plainButtonsOnly)
      && categories != {} && "" !in categories
    }
  }

  const SCHEME := "https://"
  const VARIABLE := "{{1}}"

  /** An https URL whose only variable is one `{{1}}` at the end. */
  predicate ValidUrlButton(url: string) {
    && |url| > |SCHEME| + |VARIABLE|
    && url[..|SCHEME|] == SCHEME && url[|url| - |VARIABLE|..] == VARIABLE
    && forall i :: |SCHEME| <= i < |url| - |VARIABLE| ==> !Space(url[i]) && url[i] !in "{}#"
  }

  predicate StaticUrl(url: Option<string>) {
    && url.Some? && SCHEME <= url.value && !Opens(url.value) && !Closes(url.value)
    && forall i :: 0 <= i < |url.value| ==> !Space(url.value[i])
  }

  predicate Closes(s: string) {
    |s| >= 2 && ((s[0] == '}' && s[1] == '}') || Closes(s[1..]))
  }

  predicate QuickReplies(buttons: seq<Button>) {
    forall i :: 0 <= i < |buttons| ==> buttons[i].QuickReply?
  }

  predicate ButtonsFit(buttons: seq<Button>, request: Request) {
    if request.plainButtonsOnly then
      forall i :: 0 <= i < |buttons| ==> buttons[i].QuickReply? || (buttons[i].UrlButton? && StaticUrl(buttons[i].url))
    else if request.urlButton.Some? then
      buttons != [] && buttons[0] == UrlButton(request.urlButton) && QuickReplies(buttons[1..])
    else QuickReplies(buttons)
  }

  /** The send can carry the component. */
  predicate Fits(c: Component, request: Request) {
    match c
    case BodyComponent(_) => true
    case Buttons(buttons) => buttons.Some? && ButtonsFit(buttons.value, request)
    case Header(MediaFormat(media), _) => request.headerMedia.Some? && request.headerMedia.value.mediaType == media
    case Header(TextFormat, text) => text.None? || !Opens(text.value)
    case Header(OtherFormat, _) => false
    case Footer(text) => text.None? || !Opens(text.value)
    case OtherComponent => false
  }

  predicate IsMediaHeader(c: Component) {
    c.Header? && c.format.MediaFormat?
  }

  function Count(components: seq<Component>, chosen: Component -> bool): nat {
    if components == [] then 0
    else Count(components[..|components| - 1], chosen) + if chosen(components[|components| - 1]) then 1 else 0
  }

  /** Every component fits, with the declared button and the declared media once each. */
  ghost predicate ComponentsFit(components: seq<Component>, request: Request) {
    && (forall c :: c in components ==> Fits(c, request))
    && (request.urlButton.Some? ==> Count(components, (c: Component) => c.Buttons?) == 1)
    && (request.headerMedia.Some? ==> Count(components, (c: Component) => IsMediaHeader(c)) == 1)
  }

  /** The loop over the components. */
  method CheckComponents(components: seq<Component>, request: Request) returns (ok: bool)
    requires request.Valid()
    ensures ok <==> ComponentsFit(components, request)
  {
    var hasButton, hasMedia := false, false;
    for i := 0 to |components|
      invariant forall k :: 0 <= k < i ==> Fits(components[k], request)
      invariant request.urlButton.Some? ==> Count(components[..i], (c: Component) => c.Buttons?) == if hasButton then 1 else 0
      invariant request.urlButton.None? ==> !hasButton
      invariant Count(components[..i], (c: Component) => IsMediaHeader(c)) == 0 || request.headerMedia.Some?
      invariant request.headerMedia.Some? ==>
                  Count(components[..i], (c: Component) => IsMediaHeader(c)) == if hasMedia then 1 else 0
    {
      var c := components[i];
      assert components[..i + 1][..i] == components[..i];
      assert c in components;
      if !Fits(c, request) {
        return false;
      }
      if c.Buttons? && request.urlButton.Some? {
        if hasButton {
          TwoIsTooMany(components, i, (c: Component) => c.Buttons?);
          return false;
        }
        hasButton := true;
      }
      if IsMediaHeader(c) {
        if hasMedia {
          TwoIsTooMany(components, i, (c: Component) => IsMediaHeader(c));
          return false;
        }
        hasMedia := true;
      }
    }
    assert components[..|components|] == components;
    return (request.urlButton.Some? ==> hasButton) && (request.headerMedia.Some? ==> hasMedia);
  }

  lemma {:induction false} CountGrows(components: seq<Component>, n: nat, chosen: Component -> bool)
    requires n <= |components|
    ensures Count(components[..n], chosen) <= Count(components, chosen)
  {
    if n < |components| {
      var init := components[..|components| - 1];
      assert init[..n] == components[..n];
      CountGrows(init, n, chosen);
    } else {
      assert components[..n] == components;
    }
  }

  lemma TwoIsTooMany(components: seq<Component>, i: nat, chosen: Component -> bool)
    requires i < |components| && Count(components[..i], chosen) == 1 && chosen(components[i])
    ensures Count(components, chosen) > 1
  {
    assert components[..i + 1][..i] == components[..i];
    CountGrows(components, i + 1, chosen);
  }

  /** The numbers of the placeholders. */
  function Numbers(pieces: seq<Piece>): set<int> {
    if pieces == [] then {}
    else
      (match pieces[0]
       case Literal(_) => {}
       case Hole(digits) => if forall i :: 0 <= i < |digits| ==> IsDigit(digits[i]) then {Number(digits)} else {})
      + Numbers(pieces[1..])
  }

  lemma {:induction false} NumbersMean(pieces: seq<Piece>)
    ensures forall n: nat :: n in Numbers(pieces) <==> exists digits :: Hole(digits) in pieces && IsNumeralOf(digits, n)
    ensures forall n :: n in Numbers(pieces) ==> n >= 0
  {
    if pieces != [] {
      NumbersMean(pieces[1..]);
      assert pieces == [pieces[0]] + pieces[1..];
      forall n: nat
        ensures n in Numbers(pieces) <==> exists digits :: Hole(digits) in pieces && IsNumeralOf(digits, n)
      {
        if n in Numbers(pieces) && n !in Numbers(pieces[1..]) {
          assert Hole(pieces[0].digits) in pieces && IsNumeralOf(pieces[0].digits, n);
        }
        if digits :| Hole(digits) in pieces && IsNumeralOf(digits, n) {
          assert Hole(digits) == pieces[0] || Hole(digits) in pieces[1..];
        }
      }
    }
  }

  function UpTo(n: nat): set<int> {
    if n == 0 then {} else UpTo(n - 1) + {n}
  }

  lemma {:induction false} UpToMeans(n: nat)
    ensures forall i :: i in UpTo(n) <==> 1 <= i <= n
  {
    if n > 0 {
      UpToMeans(n - 1);
    }
  }

  /** The checks of the body. */
  method CheckBody(body: string, n: nat) returns (ok: bool)
    ensures ok <==> BodyFits(body, n)
  {
    var pieces := Pieces(body);
    var wanted := UpTo(n);
    UpToMeans(n);
    var found := Numbers(pieces);
    ok := Strip(body) != "" && found == wanted && !Opens(Literals(pieces));
    NumbersMean(pieces);
    HolesAreDigits(body);
    if found == wanted {
      forall digits | Hole(digits) in pieces
        ensures IsNumeralUpTo(digits, n)
      {
        assert IsNumeralOf(digits, Number(digits));
        assert Number(digits) in found;
      }
      forall i | 1 <= i <= n
        ensures HasNumber(body, i)
      {
        assert i in found;
      }
    }
    if BodyFits(body, n) {
      forall i
        ensures i in found <==> i in wanted
      {
        if i in found {
          var digits :| Hole(digits) in pieces && IsNumeralOf(digits, i);
          assert IsNumeralUpTo(digits, n);
        }
        if i in wanted {
          assert HasNumber(body, i);
        }
      }
      assert found == wanted;
    }
  }

  // -------------------------------------------------------------------------
  // parse_approved_template
  // -------------------------------------------------------------------------

  predicate IsWanted(t: CatalogTemplate, request: Request) {
    t.name == Strip(request.name) && t.language.Some? && Strip(t.language.value) == Strip(request.language)
  }

  /** The texts of the components that are a body. */
  function Bodies(components: seq<Component>): seq<Option<string>> {
    if components == [] then []
    else (if components[0].BodyComponent? then [components[0].text] else []) + Bodies(components[1..])
  }

  function WantedOnes(catalog: seq<CatalogTemplate>, request: Request): seq<CatalogTemplate> {
    if catalog == [] then []
    else (if IsWanted(catalog[0], request) then [catalog[0]] else []) + WantedOnes(catalog[1..], request)
  }

  /** The one template of the catalog with that name and language may be sent as asked. */
  ghost predicate Sendable(t: CatalogTemplate, request: Request) {
    && t.approved
    && t.category.Some? && Strip(t.category.value) in request.categories
    && t.components.Some?
    && var bodies := Bodies(t.components.value);
       && |bodies| == 1 && bodies[0].Some? && request.parameterCount >= 1
       && BodyFits(bodies[0].value, request.parameterCount)
       && ComponentsFit(t.components.value, request)
  }

  /** What is sent is what the catalog has. */
  ghost predicate IsTemplateOf(r: Template, t: CatalogTemplate, request: Request) {
    && r.name == Strip(request.name) && t.language.Some? && r.language == Strip(t.language.value)
    && t.category.Some? && r.category == Strip(t.category.value)
    && t.components.Some? && |Bodies(t.components.value)| == 1 && Some(r.body) == Bodies(t.components.value)[0]
    && r.parameterCount == request.parameterCount
    && r.buttonUrl == request.urlButton && r.headerMedia == request.headerMedia
  }

  /** `parse_approved_template`: exactly one template of that name and language, and it
      may be sent; anything else is refused. */
  method ParseApprovedTemplate(catalog: Option<seq<CatalogTemplate>>, request: Request) returns (r: Result<Template, TemplateError>)
    ensures !request.Valid() <==> r == Failure(InvalidCall)
    ensures r.Success? <==>
              && request.Valid() && catalog.Some? && |WantedOnes(catalog.value, request)| == 1
              && Sendable(WantedOnes(catalog.value, request)[0], request)
    ensures r.Success? ==> IsTemplateOf(r.value, WantedOnes(catalog.value, request)[0], request)
    ensures r.Success? ==> BodyFits(r.value.body, r.value.parameterCount)
  {
    if !request.Valid() {
      return Failure(InvalidCall);
    }
    if catalog.None? {
      return Failure(Unavailable);
    }
    var wanted := WantedOnes(catalog.value, request);
    if |wanted| != 1 {
      return Failure(if exists t :: t in catalog.value && t.name == Strip(request.name) then Mismatch else Unavailable);
    }
    WantedAreWanted(catalog.value, request);
    var t := wanted[0];
    if !t.approved {
      return Failure(Unavailable);
    }
    if t.category.None? || Strip(t.category.value) !in request.categories || t.components.None? {
      return Failure(Mismatch);
    }
    var bodies := Bodies(t.components.value);
    if |bodies| != 1 || bodies[0].None? {
      return Failure(Mismatch);
    }
    var body := bodies[0].value;
    var fits := CheckBody(body, request.parameterCount);
    if !fits {
      return Failure(Mismatch);
    }
    var ok := CheckComponents(t.components.value, request);
    if !ok {
      return Failure(Mismatch);
    }
    return Success(Template(Strip(request.name), Strip(t.language.value), Strip(t.category.value), body,
                            request.parameterCount, request.urlButton, request.headerMedia));
  }

  lemma {:induction false} WantedAreWanted(catalog: seq<CatalogTemplate>, request: Request)
    ensures forall i :: 0 <= i < |WantedOnes(catalog, request)| ==> IsWanted(WantedOnes(catalog, request)[i], request)
  {
    if catalog != [] {
      WantedAreWanted(catalog[1..], request);
    }
  }

  /** The send of a template that was accepted: it carries a button exactly when a URL
      button was declared, and then the catalog opens with it; a header exactly when a
      media was declared, and then the catalog has that media header, once. */
  lemma SendCarriesWhatTheCatalogHas(
      t: Template, catalog: CatalogTemplate, request: Request, values: map<string, string>, suffix: Option<string>, c: Component)
    requires request.Valid() && Sendable(catalog, request) && IsTemplateOf(t, catalog, request)
    requires ProcessedParams(t, values, suffix).Success?
    requires c in catalog.components.value
    ensures var params := ProcessedParams(t, values, suffix).value;
            && params.body == values && |Render(t, values).value| <= MAX_BODY
            && (params.button.Some? <==> request.urlButton.Some?)
            && (params.button.Some? && c.Buttons? ==> c.buttons.value[0] == UrlButton(request.urlButton))
            && params.header == request.headerMedia
            && (params.header.Some? ==> Count(catalog.components.value, (x: Component) => IsMediaHeader(x)) == 1)
            && (IsMediaHeader(c) ==> params.header.Some? && params.header.value.mediaType == c.format.media)
  {
    assert Fits(c, request);
  }
}
