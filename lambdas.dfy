/**
  The template context of templates/input.ts (lines 13-46): the data the template
  is rendered with and the three lambda helpers it offers.

  The helpers are written for the `(text, render)` lambda protocol: each one
  calls `render(text)` once, before doing anything else, and re-cases the
  string it gets back; an error from `render` is not caught. The renderer
  belongs to the template engine, so here it is a function parameter whose
  failure is an `Err` value.
 */
module Lambdas {
  import opened Chars
  import opened Text
  import CaseHelpers
  import KnownCases

  datatype Result<T, E> = Ok(value: T) | Err(error: E)

  /** The three lambda entries of the context. */
  datatype Helper = Capitalize | Camel | Snake

  /** What a helper does to the text `render` has produced. */
  function Transform(h: Helper, rendered: string): string
  {
    match h
    case Capitalize => CaseHelpers.Capitalize(rendered)
    case Camel => CaseHelpers.CamelCase(rendered)
    case Snake => CaseHelpers.SnakeCase(rendered)
  }

  /** A helper invoked by the template engine with the section text and the
      renderer: render once, then re-case the result; a failed render is passed
      on unchanged. */
  function Invoke<E>(h: Helper, text: string, render: string -> Result<string, E>): (r: Result<string, E>)
    ensures r.Err? <==> render(text).Err?
    ensures render(text).Err? ==> r == render(text)
  {
    match render(text)
    case Err(e) => Err(e)
    case Ok(rendered) => Ok(Transform(h, rendered))
  }

  /** The helper's answer is decided by what `render` returns for this text:
      two renderers that agree on it give the same answer. */
  lemma InvokeOnlyThroughRender<E>(h: Helper, text: string,
                                   render1: string -> Result<string, E>,
                                   render2: string -> Result<string, E>)
    requires render1(text) == render2(text)
    ensures Invoke(h, text, render1) == Invoke(h, text, render2)
  {
  }

  /** `camel` and `snake` trim the rendered text first, so renderings that differ
      only in surrounding whitespace give the same answer. `capitalize` does not
      trim (see `CapitalizeSeesOuterSpace`). */
  lemma TrimmingHelpersIgnoreOuterSpace<E>(h: Helper, text: string,
                                           render1: string -> Result<string, E>,
                                           render2: string -> Result<string, E>)
    requires h == Camel || h == Snake
    requires render1(text).Ok? && render2(text).Ok?
    requires Trim(render1(text).value) == Trim(render2(text).value)
    ensures Invoke(h, text, render1) == Invoke(h, text, render2)
  {
    var a, b := render1(text).value, render2(text).value;
    if h == Camel {
      CaseHelpers.CamelIgnoresOuterSpace(a);
      CaseHelpers.CamelIgnoresOuterSpace(b);
    } else {
      CaseHelpers.SnakeIgnoresOuterSpace(a);
      CaseHelpers.SnakeIgnoresOuterSpace(b);
    }
  }

  /** `capitalize` keeps surrounding whitespace: a leading space changes its answer. */
  lemma CapitalizeSeesOuterSpace()
    ensures Trim(" a") == Trim("a")
    ensures Transform(Capitalize, " a") != Transform(Capitalize, "a")
  {
    TrimIdentity("a");
    TrimPaddedA();
    KnownCases.CapitalizeKeepsSpace();
  }

  lemma TrimPaddedA()
    ensures Trim(" a") == "a"
  {
    TrimPadded(" ", "a", "");
    assert " " + "a" + "" == " a";
  }

  /** What a successful helper returns, helper by helper: `capitalize` keeps the
      length and changes nothing but case; `camel` leaves no whitespace, `_` or
      `-`; `snake` leaves no capital, whitespace or `-` and is its own fixed point. */
  lemma InvokeOutcome<E>(h: Helper, text: string, render: string -> Result<string, E>)
    requires render(text).Ok?
    ensures var rendered := render(text).value;
            var r := Invoke(h, text, render);
            r.Ok? && r.value == Transform(h, rendered) &&
            match h
            case Capitalize =>
              |r.value| == |rendered| && LowerStr(r.value) == LowerStr(rendered)
            case Camel =>
              NoneIn(r.value, Separator)
            case Snake =>
              NoneIn(r.value, Upper) && NoneIn(r.value, SpaceOrDash) &&
              CaseHelpers.SnakeCase(r.value) == r.value
  {
    var rendered := render(text).value;
    match h
    case Capitalize => CaseHelpers.CapitalizeOnlyRecases(rendered);
    case Camel => CaseHelpers.CamelHasNoSeparator(rendered);
    case Snake =>
      CaseHelpers.SnakeIsClean(rendered);
      CaseHelpers.SnakeIdempotent(rendered);
  }

  // ---------------------------------------------------------------------------
  // the context data
  // ---------------------------------------------------------------------------

  datatype Provider = Provider(name: string, resources: seq<string>)

  datatype Context = Context(provider: Provider, owner: string)

  /** The data of the template context; the helpers travel beside it. */
  const TemplateContext: Context :=
    Context(Provider("addy mail", ["domain", "mail_alias", "InboundRoute", "outbound-route"]), "AcmeCorp")

  /** A helper as a string function. */
  function AsFunction(h: Helper): string -> string
  {
    (rendered: string) => Transform(h, rendered)
  }

  /** Every name of a list re-cased by `f`, in order. */
  function MapNames(f: string -> string, names: seq<string>): (r: seq<string>)
    ensures |r| == |names|
    ensures forall i :: 0 <= i < |names| ==> r[i] == f(names[i])
  {
    seq(|names|, i requires 0 <= i < |names| => f(names[i]))
  }

  lemma MapFourNames(f: string -> string, a: string, b: string, c: string, d: string)
    ensures MapNames(f, [a, b, c, d]) == [f(a), f(b), f(c), f(d)]
  {
  }

  lemma CapitalizeEachResource()
    ensures Transform(Capitalize, "domain") == "Domain"
    ensures Transform(Capitalize, "mail_alias") == "Mail_alias"
    ensures Transform(Capitalize, "InboundRoute") == "InboundRoute"
    ensures Transform(Capitalize, "outbound-route") == "Outbound-Route"
  {
    KnownCases.CapitalizeDomain();
    KnownCases.CapitalizeMailAlias();
    KnownCases.CapitalizeInboundRoute();
    KnownCases.CapitalizeOutboundRoute();
  }

  lemma CapitalizeResources()
    ensures MapNames(AsFunction(Capitalize), TemplateContext.provider.resources) ==
            ["Domain", "Mail_alias", "InboundRoute", "Outbound-Route"]
  {
    CapitalizeEachResource();
    MapFourNames(AsFunction(Capitalize), "domain", "mail_alias", "InboundRoute", "outbound-route");
  }

  lemma CamelEachResource()
    ensures Transform(Camel, "domain") == "domain"
    ensures Transform(Camel, "mail_alias") == "mailAlias"
    ensures Transform(Camel, "InboundRoute") == "inboundroute"
    ensures Transform(Camel, "outbound-route") == "outboundRoute"
  {
    KnownCases.CamelDomain();
    KnownCases.CamelMailAlias();
    KnownCases.CamelInboundRoute();
    KnownCases.CamelOutboundRoute();
  }

  /** `InboundRoute` has no separator, so `camel` flattens it to lower case. */
  lemma CamelResources()
    ensures MapNames(AsFunction(Camel), TemplateContext.provider.resources) ==
            ["domain", "mailAlias", "inboundroute", "outboundRoute"]
  {
    CamelEachResource();
    MapFourNames(AsFunction(Camel), "domain", "mail_alias", "InboundRoute", "outbound-route");
  }

  lemma SnakeEachResource()
    ensures Transform(Snake, "domain") == "domain"
    ensures Transform(Snake, "mail_alias") == "mail_alias"
    ensures Transform(Snake, "InboundRoute") == "inbound_route"
    ensures Transform(Snake, "outbound-route") == "outbound_route"
  {
    KnownCases.SnakeDomain();
    KnownCases.SnakeMailAlias();
    KnownCases.SnakeInboundRoute();
    KnownCases.SnakeOutboundRoute();
  }

  lemma SnakeResources()
    ensures MapNames(AsFunction(Snake), TemplateContext.provider.resources) ==
            ["domain", "mail_alias", "inbound_route", "outbound_route"]
  {
    SnakeEachResource();
    MapFourNames(AsFunction(Snake), "domain", "mail_alias", "InboundRoute", "outbound-route");
  }

  /** The provider and owner names through the helpers. */
  lemma ContextNames()
    ensures Transform(Capitalize, TemplateContext.provider.name) == "Addy Mail"
    ensures Transform(Camel, TemplateContext.provider.name) == "addyMail"
    ensures Transform(Snake, TemplateContext.owner) == "acme_corp"
  {
    KnownCases.CapitalizeAddyMail();
    KnownCases.CamelAddyMail();
    KnownCases.SnakeAcmeCorp();
  }
}
