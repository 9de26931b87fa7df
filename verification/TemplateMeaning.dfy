/** What is accepted from the catalog and what is rendered and sent, in terms of the fields
    of the catalog, of the request and of the values. */
module TemplateMeaning {
  import opened Wrappers
  import opened Text
  import opened Positions
  import opened ApprovedTemplates

  // -------------------------------------------------------------------------
  // Texts
  // -------------------------------------------------------------------------

  /** Two equal characters in a row. */
  predicate HasPair(s: string, c: char) {
    exists i :: 0 <= i < |s| - 1 && s[i] == c && s[i + 1] == c
  }

  lemma {:induction false} OpensMeans(s: string)
    ensures Opens(s) <==> HasPair(s, '{')
  {
    if |s| >= 2 {
      OpensMeans(s[1..]);
      if i :| 0 <= i < |s| - 1 && s[i] == '{' && s[i + 1] == '{' {
        assert i > 0 ==> s[1..][i - 1] == '{' && s[1..][i] == '{';
      }
    }
  }

  lemma {:induction false} ClosesMeans(s: string)
    ensures Closes(s) <==> HasPair(s, '}')
  {
    if |s| >= 2 {
      ClosesMeans(s[1..]);
      if i :| 0 <= i < |s| - 1 && s[i] == '}' && s[i + 1] == '}' {
        assert i > 0 ==> s[1..][i - 1] == '}' && s[1..][i] == '}';
      }
    }
  }

  predicate FiveAt(s: string, i: int) {
    0 <= i && i + 5 <= |s| && forall j :: i <= j < i + 5 ==> s[j] == ' '
  }

  /** Five spaces in a row. */
  predicate HasFiveSpaces(s: string) {
    exists i :: 0 <= i < |s| && FiveAt(s, i)
  }

  lemma {:induction false} FiveSpacesMean(s: string)
    ensures FiveSpaces(s) <==> HasFiveSpaces(s)
  {
    if |s| >= 5 {
      FiveSpacesMean(s[1..]);
      assert s[..5] == "     " <==> FiveAt(s, 0);
      if i :| 0 <= i < |s[1..]| && FiveAt(s[1..], i) {
        assert forall j :: i + 1 <= j < i + 6 ==> s[j] == s[1..][j - 1];
        assert FiveAt(s, i + 1);
      }
      if i :| 0 <= i < |s| && FiveAt(s, i) {
        assert i > 0 ==> FiveAt(s[1..], i - 1);
      }
    }
  }

  // -------------------------------------------------------------------------
  // The request
  // -------------------------------------------------------------------------

  /** The declared URL is a fixed https one, without spaces, braces or fragments, and the
      variable at its end. */
  ghost predicate IsUrlOfAVariable(url: string) {
    exists fixed: string :: IsUrlOf(url, fixed)
  }

  predicate IsUrlOf(url: string, fixed: string) {
    && fixed != "" && url == "https://" + (fixed + "{{1}}")
    && forall i :: 0 <= i < |fixed| ==> !Space(fixed[i]) && fixed[i] != '{' && fixed[i] != '}' && fixed[i] != '#'
  }

  lemma ValidUrlButtonMeans(url: string)
    ensures ValidUrlButton(url) <==> IsUrlOfAVariable(url)
  {
    if ValidUrlButton(url) {
      TheFixedPart(url);
    }
    if fixed: string :| IsUrlOf(url, fixed) {
      WithAFixedPart(url, fixed);
    }
  }

  lemma TheFixedPart(url: string)
    requires ValidUrlButton(url)
    ensures IsUrlOf(url, url[8..|url| - 5])
  {
    var fixed := url[8..|url| - 5];
    assert url == url[..8] + (fixed + url[|url| - 5..]);
    forall i | 0 <= i < |fixed|
      ensures !Space(fixed[i]) && fixed[i] !in "{}#"
    {
      assert fixed[i] == url[i + 8];
    }
  }

  lemma WithAFixedPart(url: string, fixed: string)
    requires IsUrlOf(url, fixed)
    ensures ValidUrlButton(url)
  {
    var tail := fixed + "{{1}}";
    assert url[..8] == "https://" && url[8..] == tail;
    assert url[|url| - 5..] == tail[|fixed|..] == "{{1}}";
    forall i | 8 <= i < |url| - 5
      ensures !Space(url[i]) && url[i] !in "{}#"
    {
      assert url[i] == tail[i - 8] == fixed[i - 8];
    }
  }

  /** The call is in order: a name, at least one parameter, accepted categories, and a
      declared URL only of the right form and without asking for plain buttons. */
  lemma WhenTheCallIsInOrder(request: Request)
    ensures request.Valid() <==>
              && Strip(request.name) != "" && request.parameterCount >= 1
              && (exists c :: c in request.categories) && (forall c :: c in request.categories ==> c != "")
              && (request.urlButton.Some? ==> IsUrlOfAVariable(request.urlButton.value) && !request.plainButtonsOnly)
  {
    if request.urlButton.Some? {
      ValidUrlButtonMeans(request.urlButton.value);
    }
    assert (forall c :: c !in request.categories) ==> request.categories == {};
  }

  // -------------------------------------------------------------------------
  // The components
  // -------------------------------------------------------------------------

  /** A button the send fills with nothing: a quick reply, or a fixed https URL. */
  predicate IsPlain(b: Button) {
    || b.QuickReply?
    || (b.UrlButton? && b.url.Some? && "https://" <= b.url.value && !HasPair(b.url.value, '{') && !HasPair(b.url.value, '}')
        && forall i :: 0 <= i < |b.url.value| ==> !Space(b.url.value[i]))
  }

  /** The send can carry the component: a body; buttons, which are the declared URL first
      and then quick replies, or only plain ones or only quick replies, as asked; a media
      header of the declared type; a text header or a footer without variables. */
  predicate MayCarry(c: Component, request: Request) {
    match c
    case BodyComponent(_) => true
    case Buttons(None) => false
    case Buttons(Some(buttons)) =>
      if request.plainButtonsOnly then forall i :: 0 <= i < |buttons| ==> IsPlain(buttons[i])
      else if request.urlButton.Some? then
        && |buttons| > 0 && buttons[0] == UrlButton(request.urlButton)
        && forall i :: 0 < i < |buttons| ==> buttons[i] == QuickReply
      else forall i :: 0 <= i < |buttons| ==> buttons[i] == QuickReply
    case Header(MediaFormat(media), _) => request.headerMedia.Some? && request.headerMedia.value.mediaType == media
    case Header(TextFormat, text) => text.Some? ==> !HasPair(text.value, '{')
    case Header(OtherFormat, _) => false
    case Footer(text) => text.Some? ==> !HasPair(text.value, '{')
    case OtherComponent => false
  }

  lemma PlainMeans(b: Button)
    ensures IsPlain(b) <==> b.QuickReply? || (b.UrlButton? && StaticUrl(b.url))
  {
    if b.UrlButton? && b.url.Some? {
      OpensMeans(b.url.value);
      ClosesMeans(b.url.value);
    }
  }

  lemma FitsMeans(c: Component, request: Request)
    ensures Fits(c, request) <==> MayCarry(c, request)
  {
    match c
    case BodyComponent(_) =>
    case Buttons(None) =>
    case Buttons(Some(buttons)) =>
      forall b: Button
        ensures IsPlain(b) <==> b.QuickReply? || (b.UrlButton? && StaticUrl(b.url))
      {
        PlainMeans(b);
      }
      assert forall i :: 0 < i < |buttons| ==> buttons[i] == buttons[1..][i - 1];
    case Header(MediaFormat(_), _) =>
    case Header(TextFormat, text) =>
      if text.Some? {
        OpensMeans(text.value);
      }
    case Header(OtherFormat, _) =>
    case Footer(text) =>
      if text.Some? {
        OpensMeans(text.value);
      }
    case OtherComponent =>
  }

  /** Exactly one of the components is chosen. */
  ghost predicate OnlyOne(components: seq<Component>, chosen: Component -> bool) {
    exists i :: OnlyAt(components, chosen, i)
  }

  ghost predicate OnlyAt(components: seq<Component>, chosen: Component -> bool, i: int) {
    0 <= i < |components| && chosen(components[i]) && forall j :: 0 <= j < |components| && chosen(components[j]) ==> j == i
  }

  lemma {:induction false} CountMeans(components: seq<Component>, chosen: Component -> bool)
    ensures Count(components, chosen) == 0 <==> forall i :: 0 <= i < |components| ==> !chosen(components[i])
    ensures Count(components, chosen) == 1 <==> OnlyOne(components, chosen)
  {
    if components != [] {
      var init := components[..|components| - 1];
      CountMeans(init, chosen);
      OneMoreCounted(components, init, chosen);
    }
  }

  lemma OneMoreCounted(components: seq<Component>, init: seq<Component>, chosen: Component -> bool)
    requires components != [] && init == components[..|components| - 1]
    requires Count(init, chosen) == 0 <==> forall i :: 0 <= i < |init| ==> !chosen(init[i])
    requires Count(init, chosen) == 1 <==> OnlyOne(init, chosen)
    ensures Count(components, chosen) == 0 <==> forall i :: 0 <= i < |components| ==> !chosen(components[i])
    ensures Count(components, chosen) == 1 <==> OnlyOne(components, chosen)
  {
    var n := |init|;
    if chosen(components[n]) {
      if Count(init, chosen) == 0 {
        assert OnlyAt(components, chosen, n);
      }
      if i :| OnlyAt(components, chosen, i) {
        assert i == n;
        forall j | 0 <= j < n
          ensures !chosen(init[j])
        {
          assert components[j] == init[j];
        }
      }
    } else {
      if i :| OnlyAt(init, chosen, i) {
        assert OnlyAt(components, chosen, i);
      }
      if i :| OnlyAt(components, chosen, i) {
        assert OnlyAt(init, chosen, i);
      }
    }
  }

  // -------------------------------------------------------------------------
  // What is accepted
  // -------------------------------------------------------------------------

  function HasItsName(request: Request): CatalogTemplate -> bool {
    (t: CatalogTemplate) =>
      t.name == Strip(request.name) && t.language.Some? && Strip(t.language.value) == Strip(request.language)
  }

  /** The only template of the catalog with the name and the language of the request is at `i`. */
  ghost predicate IsTheOne(catalog: seq<CatalogTemplate>, request: Request, i: int) {
    && 0 <= i < |catalog| && HasItsName(request)(catalog[i])
    && forall j :: 0 <= j < |catalog| && HasItsName(request)(catalog[j]) ==> j == i
  }

  function IsBody(): Component -> bool {
    (c: Component) => c.BodyComponent?
  }

  function IsButtons(): Component -> bool {
    (c: Component) => c.Buttons?
  }

  function IsMedia(): Component -> bool {
    (c: Component) => c.Header? && c.format.MediaFormat?
  }

  /** The only body of the components is this text. */
  ghost predicate IsTheBody(components: seq<Component>, text: string) {
    exists i :: OnlyAt(components, IsBody(), i) && components[i] == BodyComponent(Some(text))
  }

  /** Two open braces between which nothing stands but placeholders. */
  ghost predicate LeftOver(pieces: seq<Piece>, i: int, j: int) {
    && 0 <= i < j < |pieces| && pieces[i] == Literal('{') && pieces[j] == Literal('{')
    && forall k :: i < k < j ==> pieces[k].Hole?
  }

  /** The character is the first one that stands there. */
  ghost predicate ComesFirst(pieces: seq<Piece>, c: char, j: int) {
    0 <= j < |pieces| && pieces[j] == Literal(c) && forall k :: 0 <= k < j ==> pieces[k].Hole?
  }

  lemma {:induction false} WhatComesFirst(pieces: seq<Piece>, c: char)
    ensures Literals(pieces) != "" && Literals(pieces)[0] == c <==> exists j :: ComesFirst(pieces, c, j)
  {
    if pieces != [] {
      WhatComesFirst(pieces[1..], c);
      if pieces[0].Literal? {
        assert pieces[0].c == c ==> ComesFirst(pieces, c, 0);
      } else {
        if j :| ComesFirst(pieces[1..], c, j) {
          assert ComesFirst(pieces, c, j + 1);
        }
        if j :| ComesFirst(pieces, c, j) {
          assert ComesFirst(pieces[1..], c, j - 1);
        }
      }
    }
  }

  lemma OpensOneMore(c: char, s: string)
    ensures Opens([c] + s) <==> (c == '{' && s != "" && s[0] == '{') || Opens(s)
  {
    assert ([c] + s)[1..] == s;
  }

  lemma LeftOverOneMore(pieces: seq<Piece>)
    requires pieces != []
    ensures (exists i, j :: LeftOver(pieces, i, j))
            <==> (pieces[0] == Literal('{') && exists j :: ComesFirst(pieces[1..], '{', j))
                 || exists i, j :: LeftOver(pieces[1..], i, j)
  {
    var rest := pieces[1..];
    if i, j :| LeftOver(rest, i, j) {
      assert LeftOver(pieces, i + 1, j + 1);
    }
    if j :| ComesFirst(rest, '{', j) {
      assert pieces[0] == Literal('{') ==> LeftOver(pieces, 0, j + 1);
    }
    if i, j :| LeftOver(pieces, i, j) {
      if i == 0 {
        assert ComesFirst(rest, '{', j - 1);
      } else {
        assert LeftOver(rest, i - 1, j - 1);
      }
    }
  }

  lemma {:induction false} LeftOverMeans(pieces: seq<Piece>)
    ensures Opens(Literals(pieces)) <==> exists i, j :: LeftOver(pieces, i, j)
  {
    if pieces != [] {
      LeftOverMeans(pieces[1..]);
      WhatComesFirst(pieces[1..], '{');
      LeftOverOneMore(pieces);
      if pieces[0].Literal? {
        OpensOneMore(pieces[0].c, Literals(pieces[1..]));
      } else {
        assert Literals(pieces) == Literals(pieces[1..]);
      }
    }
  }

  /** The body is not blank, each of its placeholders has the number of a parameter, each
      parameter has a placeholder, and besides them no braces open one. */
  ghost predicate HasItsPlaces(body: string, n: nat) {
    && (exists i :: 0 <= i < |body| && !Space(body[i]))
    && (forall digits :: Hole(digits) in Pieces(body) ==> IsNumeralUpTo(digits, n))
    && (forall i :: 1 <= i <= n ==> HasNumber(body, i))
    && !exists i, j :: LeftOver(Pieces(body), i, j)
  }

  lemma PlacesMean(body: string, n: nat)
    ensures BodyFits(body, n) <==> HasItsPlaces(body, n)
  {
    LeftOverMeans(Pieces(body));
    NotBlank(body);
  }

  /** It is approved, of an accepted category, with one body that holds exactly the
      placeholders asked for, components that the send can carry, and the declared button
      and media once each. */
  ghost predicate MayBeSent(t: CatalogTemplate, request: Request, body: string) {
    && t.approved && t.category.Some? && Strip(t.category.value) in request.categories && t.components.Some?
    && IsTheBody(t.components.value, body) && request.parameterCount >= 1 && HasItsPlaces(body, request.parameterCount)
    && (forall i :: 0 <= i < |t.components.value| ==> MayCarry(t.components.value[i], request))
    && (request.urlButton.Some? ==> OnlyOne(t.components.value, IsButtons()))
    && (request.headerMedia.Some? ==> OnlyOne(t.components.value, IsMedia()))
  }

  lemma {:induction false} WantedIsFiltered(catalog: seq<CatalogTemplate>, request: Request)
    ensures WantedOnes(catalog, request) == Filter(catalog, HasItsName(request))
  {
    if catalog != [] {
      WantedIsFiltered(catalog[1..], request);
    }
  }

  /** One is wanted exactly when there is the one. */
  lemma TheWantedOne(catalog: seq<CatalogTemplate>, request: Request)
    ensures |WantedOnes(catalog, request)| == 1 <==> exists i :: IsTheOne(catalog, request, i)
    ensures forall i :: IsTheOne(catalog, request, i) ==> WantedOnes(catalog, request) == [catalog[i]]
  {
    WantedIsFiltered(catalog, request);
    var ps := FilterPicks(catalog, HasItsName(request));
    if |ps| == 1 {
      forall j | 0 <= j < |catalog| && HasItsName(request)(catalog[j])
        ensures j == ps[0]
      {
        assert j in ps;
      }
      assert IsTheOne(catalog, request, ps[0]);
    }
    forall i | IsTheOne(catalog, request, i)
      ensures ps == [i]
    {
      PositionsAreUnique(catalog, HasItsName(request), ps, [i]);
    }
  }

  lemma {:induction false} BodiesMean(components: seq<Component>)
    ensures |Bodies(components)| == |Filter(components, IsBody())|
    ensures forall a :: 0 <= a < |Bodies(components)| ==>
              Filter(components, IsBody())[a] == BodyComponent(Bodies(components)[a])
  {
    if components != [] {
      BodiesMean(components[1..]);
    }
  }

  /** The bodies are the one body. */
  lemma TheOneBody(components: seq<Component>, text: string)
    ensures Bodies(components) == [Some(text)] <==> IsTheBody(components, text)
  {
    BodiesMean(components);
    var ps := FilterPicks(components, IsBody());
    if |ps| == 1 {
      forall j | 0 <= j < |components| && IsBody()(components[j])
        ensures j == ps[0]
      {
        assert j in ps;
      }
      assert OnlyAt(components, IsBody(), ps[0]);
    }
    if i :| OnlyAt(components, IsBody(), i) {
      PositionsAreUnique(components, IsBody(), ps, [i]);
    }
  }

  lemma ComponentsMayBeCarried(components: seq<Component>, request: Request)
    ensures ComponentsFit(components, request) <==>
              && (forall i :: 0 <= i < |components| ==> MayCarry(components[i], request))
              && (request.urlButton.Some? ==> OnlyOne(components, IsButtons()))
              && (request.headerMedia.Some? ==> OnlyOne(components, IsMedia()))
  {
    forall c: Component
      ensures Fits(c, request) <==> MayCarry(c, request)
    {
      FitsMeans(c, request);
    }
    SameCount(components, (c: Component) => c.Buttons?, IsButtons());
    SameCount(components, (c: Component) => IsMediaHeader(c), IsMedia());
    CountMeans(components, IsButtons());
    CountMeans(components, IsMedia());
  }

  lemma {:induction false} SameCount(components: seq<Component>, a: Component -> bool, b: Component -> bool)
    requires forall c :: a(c) == b(c)
    ensures Count(components, a) == Count(components, b)
  {
    if components != [] {
      SameCount(components[..|components| - 1], a, b);
    }
  }

  /** A template is accepted exactly when it is the one of its name and language and may be
      sent as asked. */
  lemma WhatIsAccepted(catalog: seq<CatalogTemplate>, request: Request)
    ensures |WantedOnes(catalog, request)| == 1 && Sendable(WantedOnes(catalog, request)[0], request)
            <==> exists i, body :: IsTheOne(catalog, request, i) && MayBeSent(catalog[i], request, body)
  {
    TheWantedOne(catalog, request);
    if |WantedOnes(catalog, request)| == 1 {
      var t := WantedOnes(catalog, request)[0];
      var i :| IsTheOne(catalog, request, i);
      assert t == catalog[i];
      SendableMeans(t, request);
      if Sendable(t, request) {
        var body :| MayBeSent(t, request, body);
        assert IsTheOne(catalog, request, i) && MayBeSent(catalog[i], request, body);
      }
    }
  }

  lemma SendableMeans(t: CatalogTemplate, request: Request)
    ensures Sendable(t, request) <==> exists body :: MayBeSent(t, request, body)
  {
    if t.components.Some? {
      var components := t.components.value;
      ComponentsMayBeCarried(components, request);
      forall body
        ensures Bodies(components) == [Some(body)] <==> IsTheBody(components, body)
      {
        TheOneBody(components, body);
      }
      if Bodies(components) != [] && Bodies(components)[0].Some? && request.parameterCount >= 1 {
        PlacesMean(Bodies(components)[0].value, request.parameterCount);
      }
      if Sendable(t, request) {
        var body := Bodies(components)[0].value;
        assert Bodies(components) == [Some(body)];
        assert MayBeSent(t, request, body);
      }
    }
  }

  /** What is accepted keeps the name and the language, trimmed, the category and the body
      of the catalog, and the parameters, the button and the media of the request. */
  lemma WhatIsKept(r: Template, t: CatalogTemplate, request: Request, body: string)
    requires IsTemplateOf(r, t, request) && MayBeSent(t, request, body)
    ensures r == Template(Strip(request.name), Strip(t.language.value), Strip(t.category.value), body,
                          request.parameterCount, request.urlButton, request.headerMedia)
  {
    TheOneBody(t.components.value, body);
  }

  // -------------------------------------------------------------------------
  // What is rendered and sent
  // -------------------------------------------------------------------------

  /** The value is not blank and has no line break, no tab and no five spaces in a row. */
  predicate MayFill(value: string) {
    && (exists i :: 0 <= i < |value| && !Space(value[i]))
    && (forall i :: 0 <= i < |value| ==> value[i] != '\n' && value[i] != '\r' && value[i] != '\t')
    && !HasFiveSpaces(value)
  }

  lemma {:induction false} BlankIsStripped(s: string)
    requires forall i :: 0 <= i < |s| ==> Space(s[i])
    ensures StripLeft(s) == ""
  {
    if s != "" {
      assert forall i :: 0 <= i < |s[1..]| ==> s[1..][i] == s[i + 1];
      BlankIsStripped(s[1..]);
    }
  }

  lemma {:induction false} SomethingStays(s: string, i: nat)
    requires i < |s| && !Space(s[i])
    ensures StripRight(s) != ""
  {
    if Space(s[|s| - 1]) {
      SomethingStays(s[..|s| - 1], i);
    }
  }

  lemma NotBlank(s: string)
    ensures Strip(s) != "" <==> exists i :: 0 <= i < |s| && !Space(s[i])
  {
    StripLeftIsASuffix(s);
    if exists i :: 0 <= i < |s| && !Space(s[i]) {
      if StripLeft(s) == "" {
        NothingButSpace(s);
      } else {
        SomethingStays(StripLeft(s), 0);
      }
    } else {
      BlankIsStripped(s);
    }
  }

  lemma {:induction false} NothingButSpace(s: string)
    requires StripLeft(s) == ""
    ensures forall i :: 0 <= i < |s| ==> Space(s[i])
  {
    if s != "" {
      NothingButSpace(s[1..]);
      assert forall i :: 0 < i < |s| ==> s[i] == s[1..][i - 1];
    }
  }

  lemma GoodValueMeans(value: string)
    ensures GoodValue(value) <==> MayFill(value)
  {
    NotBlank(value);
    FiveSpacesMean(value);
  }

  /** A text is rendered exactly when the values are those of the keys 1 to n, each may
      fill its place, every placeholder is one of those keys, and the text fits. */
  lemma WhenItRenders(t: Template, values: map<string, string>)
    ensures Render(t, values).Success? <==>
              && (forall k :: k in values <==> IsKey(k, t.parameterCount))
              && (forall k :: k in values ==> MayFill(values[k]))
              && (forall digits :: Hole(digits) in Pieces(t.body) ==> digits in values)
              && |Fill(Pieces(t.body), values)| <= 1024
    ensures Render(t, values).Success? ==>
              HasKeys(t.body, values) && Render(t, values).value == Fill(Pieces(t.body), values)
  {
    KeysAreDigits(t.body, values);
    AllMayFill(values);
    TheKeysAre(values, t.parameterCount);
  }

  /** The key of one of the parameters. */
  ghost predicate IsKey(k: string, n: nat) {
    exists i :: 1 <= i <= n && k == Decimal(i)
  }

  lemma TheKeysAre(values: map<string, string>, n: nat)
    ensures values.Keys == Expected(n) <==> forall k :: k in values <==> IsKey(k, n)
  {
    assert forall k :: k in Expected(n) <==> IsKey(k, n);
    if forall k :: k in values <==> IsKey(k, n) {
      assert values.Keys == Expected(n);
    }
  }

  lemma AllMayFill(values: map<string, string>)
    ensures (exists k :: k in values && !GoodValue(values[k])) <==> !forall k :: k in values ==> MayFill(values[k])
  {
    forall k | k in values
      ensures GoodValue(values[k]) <==> MayFill(values[k])
    {
      GoodValueMeans(values[k]);
    }
  }

  /** The parameters are ready exactly when the text is rendered, and a suffix comes exactly
      with a declared button, one of 1 to 2000 characters without spaces. */
  lemma WhenItIsReady(t: Template, values: map<string, string>, suffix: Option<string>)
    ensures ProcessedParams(t, values, suffix).Success? <==>
              && Render(t, values).Success? && (suffix.Some? <==> t.buttonUrl.Some?)
              && (suffix.Some? ==> 1 <= |suffix.value| <= 2000 && forall i :: 0 <= i < |suffix.value| ==> !Space(suffix.value[i]))
    ensures ProcessedParams(t, values, suffix).Success? ==>
              ProcessedParams(t, values, suffix).value == Params(values, t.headerMedia, suffix)
  {
  }
}
