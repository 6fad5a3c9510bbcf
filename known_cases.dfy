/**
  Concrete inputs and outputs of the three helpers, including those of the
  resource names the template context lists, and the cases where `camel` and
  `snake` behave in ways their names do not suggest.

  `capitalize` is a per-position map, so its examples are evaluated directly.
  The `camel` and `snake` examples are proved in steps: a lemma about the input
  written as its pieces (`"mail" + "_" + "alias"`), which follows from a general
  lemma; a lemma that spells the pieces out as one string; and the example
  itself, which only puts the two together.
 */
module KnownCases {
  import opened Chars
  import opened Text
  import opened CaseHelpers

  // ---------------------------------------------------------------------------
  // capitalize
  // ---------------------------------------------------------------------------

  lemma CapitalizeEmpty()
    ensures Capitalize("") == ""
  {
  }

  /** Leading whitespace is kept: `capitalize` does not trim. */
  lemma CapitalizeKeepsSpace()
    ensures Capitalize(" a") == " A"
  {
  }

  lemma CapitalizeDomain()
    ensures Capitalize("domain") == "Domain"
  {
  }

  /** `_` is a word character, so `alias` does not start a word. */
  lemma CapitalizeMailAlias()
    ensures Capitalize("mail_alias") == "Mail_alias"
  {
  }

  /** Upper-case letters inside a word are left as they are. */
  lemma CapitalizeInboundRoute()
    ensures Capitalize("InboundRoute") == "InboundRoute"
  {
  }

  /** `-` is not a word character, so `route` starts a word. */
  lemma CapitalizeOutboundRoute()
    ensures Capitalize("outbound-route") == "Outbound-Route"
  {
  }

  /** The provider name of the template context. */
  lemma CapitalizeAddyMail()
    ensures Capitalize("addy mail") == "Addy Mail"
  {
  }

  lemma CapitalizeHelloWorld()
    ensures Capitalize("hello world") == "Hello World"
  {
  }

  // ---------------------------------------------------------------------------
  // the words the examples are made of
  // ---------------------------------------------------------------------------

  lemma LowerMail() ensures LowerStr("mail") == "mail" { }

  lemma LowerOutbound() ensures LowerStr("outbound") == "outbound" { }

  lemma LowerRoute() ensures LowerStr("route") == "route" { }

  lemma LowerInbound() ensures LowerStr("Inbound") == "inbound" { }

  lemma LowerOutboundCapital() ensures LowerStr("Outbound") == "outbound" { }

  lemma LowerRouteCapital() ensures LowerStr("Route") == "route" { }

  lemma LowerDomain() ensures LowerStr("domain") == "domain" { }

  lemma LowerAB() ensures LowerStr("aB") == "ab" { }

  lemma LowerAddy() ensures LowerStr("addy") == "addy" { }

  lemma LowerAcmeCorp() ensures LowerStr("Acme") == "acme" && LowerStr("Corp") == "corp" { }

  lemma UpperFirstMail() ensures UpperFirst("mail") == "Mail" { }

  lemma UpperFirstAlias() ensures UpperFirst("alias") == "Alias" { }

  lemma UpperFirstRoute() ensures UpperFirst("route") == "Route" && UpperFirst("Route") == "Route" { }

  lemma UpperFirstFoo() ensures UpperFirst("foo") == "Foo" { }

  lemma MailAliasSpellings()
    ensures "mail" + ['_'] + "alias" == "mail_alias"
    ensures "mail" + "_alias" == "mail_alias"
    ensures "  " + ("mail" + [' '] + "alias") + " " == "  mail alias "
    ensures "mail" + "Alias" == "mailAlias"
  {
  }

  lemma OutboundRouteSpellings()
    ensures "outbound" + "-" + "route" == "outbound-route"
    ensures "Outbound" + " " + "Route" == "Outbound Route"
    ensures "outbound" + "Route" == "outboundRoute"
    ensures "outbound" + "_" + "route" == "outbound_route"
  {
  }

  lemma InboundRouteSpellings()
    ensures "Inbound" + "Route" == "InboundRoute"
    ensures "Inbound" + "_" + "Route" == "Inbound_Route"
    ensures "inbound" + "route" == "inboundroute"
    ensures "inbound" + "Route" == "inboundRoute"
    ensures "inbound" + "_" + "route" == "inbound_route"
  {
  }

  lemma ShortSpellings()
    ensures ['_'] + "foo" == "_foo"
    ensures "a" + ['_'] + "b" == "a_b"
    ensures "a" + "BC" == "aBC" && "a" + "_" + "bc" == "a_bc"
    ensures "a" + "__" + "b" == "a__b"
    ensures "Acme" + "Corp" == "AcmeCorp" && "acme" + "_" + "corp" == "acme_corp"
    ensures "addy" + [' '] + "mail" == "addy mail" && "addy" + "Mail" == "addyMail"
    ensures "dom" + "ain" == "domain"
    ensures "already" + "_snake" + "_case" == "already_snake_case"
  {
  }

  // ---------------------------------------------------------------------------
  // camel
  // ---------------------------------------------------------------------------

  lemma CamelEmpty()
    ensures CamelCase("") == ""
  {
  }

  lemma CamelMailAliasParts(sep: char)
    requires sep == '_' || sep == ' '
    ensures CamelCase("mail" + [sep] + "alias") == "mail" + "Alias"
  {
    CamelTwoWords("mail", sep, "alias");
    LowerMail();
    UpperFirstAlias();
  }

  lemma CamelMailAlias()
    ensures CamelCase("mail_alias") == "mailAlias"
  {
    CamelMailAliasParts('_');
    MailAliasSpellings();
  }

  lemma CamelOutboundRouteParts()
    ensures CamelCase("outbound" + "-" + "route") == "outbound" + "Route"
  {
    CamelTwoWords("outbound", '-', "route");
    LowerOutbound();
    UpperFirstRoute();
  }

  lemma CamelOutboundRoute()
    ensures CamelCase("outbound-route") == "outboundRoute"
  {
    CamelOutboundRouteParts();
    OutboundRouteSpellings();
  }

  lemma CamelInboundUnderscoreRouteParts()
    ensures CamelCase("Inbound" + "_" + "Route") == "inbound" + "Route"
  {
    CamelTwoWords("Inbound", '_', "Route");
    LowerInbound();
    UpperFirstRoute();
  }

  /** The first word loses its capital, the second keeps one. */
  lemma CamelInboundUnderscoreRoute()
    ensures CamelCase("Inbound_Route") == "inboundRoute"
  {
    CamelInboundUnderscoreRouteParts();
    InboundRouteSpellings();
  }

  lemma CamelPaddedWordsParts()
    ensures CamelCase("  " + ("mail" + [' '] + "alias") + " ") == "mail" + "Alias"
  {
    TrimPadded("  ", "mail" + [' '] + "alias", " ");
    CamelIgnoresOuterSpace("  " + ("mail" + [' '] + "alias") + " ");
    CamelMailAliasParts(' ');
  }

  /** Surrounding whitespace is trimmed away before the split. */
  lemma CamelPaddedWords()
    ensures CamelCase("  mail alias ") == "mailAlias"
  {
    CamelPaddedWordsParts();
    MailAliasSpellings();
  }

  lemma CamelLeadingUnderscoreParts()
    ensures CamelCase(['_'] + "foo") == "Foo"
  {
    CamelLeadingSeparator('_', "foo");
    UpperFirstFoo();
  }

  /** The trim runs before `_` becomes a space, so a leading `_` leaves an empty
      first piece and `foo` is capitalised. */
  lemma CamelLeadingUnderscore()
    ensures CamelCase("_foo") == "Foo"
  {
    CamelLeadingUnderscoreParts();
    ShortSpellings();
  }

  lemma CamelInboundRouteParts()
    ensures CamelCase("Inbound" + "Route") == "inbound" + "route"
  {
    CamelOfUnseparated("Inbound" + "Route");
    LowerStrAppend("Inbound", "Route");
    LowerInbound();
    LowerRouteCapital();
  }

  /** Without a separator there is nothing to split: PascalCase is flattened. */
  lemma CamelInboundRoute()
    ensures CamelCase("InboundRoute") == "inboundroute"
  {
    CamelInboundRouteParts();
    InboundRouteSpellings();
  }

  lemma CamelOfAUnderscoreBParts()
    ensures CamelCase("a" + ['_'] + "b") == "aB"
  {
    CamelTwoWords("a", '_', "b");
  }

  lemma CamelOfAUnderscoreB()
    ensures CamelCase("a_b") == "aB"
  {
    CamelOfAUnderscoreBParts();
    ShortSpellings();
  }

  lemma CamelDomainLowered()
    ensures CamelCase("domain") == LowerStr("domain")
  {
    CamelOfUnseparated("domain");
  }

  /** A single lower-case word is left as it is. */
  lemma CamelDomain()
    ensures CamelCase("domain") == "domain"
  {
    CamelDomainLowered();
    LowerDomain();
  }

  lemma CamelOfABLowered()
    ensures CamelCase("aB") == LowerStr("aB")
  {
    CamelOfUnseparated("aB");
  }

  lemma CamelOfAB()
    ensures CamelCase("aB") == "ab"
  {
    CamelOfABLowered();
    LowerAB();
  }

  /** `camel` is not idempotent: applied to its own output it lower-cases it. */
  lemma CamelNotIdempotent()
    ensures CamelCase(CamelCase("a_b")) != CamelCase("a_b")
  {
    CamelOfAUnderscoreB();
    CamelOfAB();
  }

  // ---------------------------------------------------------------------------
  // snake
  // ---------------------------------------------------------------------------

  lemma SnakeInboundRouteParts()
    ensures SnakeCase("Inbound" + "Route") == "inbound" + "_" + "route"
  {
    NoLaterCapitalHumpFree("Inbound");
    NoLaterCapitalHumpFree("Route");
    SnakeHump("Inbound", "Route");
    LowerInbound();
    LowerRouteCapital();
  }

  lemma SnakeInboundRoute()
    ensures SnakeCase("InboundRoute") == "inbound_route"
  {
    SnakeInboundRouteParts();
    InboundRouteSpellings();
  }

  lemma SnakeOutboundSpaceRouteParts()
    ensures SnakeCase("Outbound" + " " + "Route") == "outbound" + "_" + "route"
  {
    NoLaterCapitalHumpFree("Outbound");
    NoLaterCapitalHumpFree("Route");
    SnakeTwoWords("Outbound", ' ', "Route");
    LowerOutboundCapital();
    LowerRouteCapital();
  }

  lemma SnakeOutboundSpaceRoute()
    ensures SnakeCase("Outbound Route") == "outbound_route"
  {
    SnakeOutboundSpaceRouteParts();
    OutboundRouteSpellings();
  }

  lemma SnakeOutboundRouteParts()
    ensures SnakeCase("outbound" + "-" + "route") == "outbound" + "_" + "route"
  {
    NoLaterCapitalHumpFree("outbound");
    NoLaterCapitalHumpFree("route");
    SnakeTwoWords("outbound", '-', "route");
    LowerOutbound();
    LowerRoute();
  }

  lemma SnakeOutboundRoute()
    ensures SnakeCase("outbound-route") == "outbound_route"
  {
    SnakeOutboundRouteParts();
    OutboundRouteSpellings();
  }

  lemma SnakeLowerThenCapitalsParts()
    ensures SnakeCase("a" + "BC") == "a" + "_" + "bc"
  {
    SnakeHump("a", "BC");
  }

  /** Only a lower-case letter or digit followed by a capital gets an `_`:
      `BC` is not split. */
  lemma SnakeLowerThenCapitals()
    ensures SnakeCase("aBC") == "a_bc"
  {
    SnakeLowerThenCapitalsParts();
    ShortSpellings();
  }

  lemma SnakeDomainParts()
    ensures SnakeCase("dom" + "ain") == "dom" + "ain"
  {
    SnakeFixedPoints("dom" + "ain");
  }

  lemma SnakeDomain()
    ensures SnakeCase("domain") == "domain"
  {
    SnakeDomainParts();
    ShortSpellings();
  }

  lemma SnakeMailAliasParts()
    ensures SnakeCase("mail" + "_alias") == "mail" + "_alias"
  {
    SnakeFixedPoints("mail" + "_alias");
  }

  lemma SnakeMailAlias()
    ensures SnakeCase("mail_alias") == "mail_alias"
  {
    SnakeMailAliasParts();
    MailAliasSpellings();
  }

  lemma SnakeAlreadySnakeParts()
    ensures SnakeCase("already" + "_snake" + "_case") == "already" + "_snake" + "_case"
  {
    SnakeFixedPoints("already" + "_snake" + "_case");
  }

  /** Strings already in snake case are left alone. */
  lemma SnakeAlreadySnake()
    ensures SnakeCase("already_snake_case") == "already_snake_case"
  {
    SnakeAlreadySnakeParts();
    ShortSpellings();
  }

  lemma SnakeKeepsUnderscoreRunParts()
    ensures SnakeCase("a" + "__" + "b") == "a" + "__" + "b"
  {
    SnakeFixedPoints("a" + "__" + "b");
  }

  /** A run of underscores is not collapsed. */
  lemma SnakeKeepsUnderscoreRun()
    ensures SnakeCase("a__b") == "a__b"
  {
    SnakeKeepsUnderscoreRunParts();
    ShortSpellings();
  }

  lemma SnakeAcmeCorpParts()
    ensures SnakeCase("Acme" + "Corp") == "acme" + "_" + "corp"
  {
    NoLaterCapitalHumpFree("Acme");
    NoLaterCapitalHumpFree("Corp");
    SnakeHump("Acme", "Corp");
    LowerAcmeCorp();
  }

  /** The owner name of the template context. */
  lemma SnakeAcmeCorp()
    ensures SnakeCase("AcmeCorp") == "acme_corp"
  {
    SnakeAcmeCorpParts();
    ShortSpellings();
  }

  lemma CamelAddyMailParts()
    ensures CamelCase("addy" + [' '] + "mail") == "addy" + "Mail"
  {
    CamelTwoWords("addy", ' ', "mail");
    LowerAddy();
    UpperFirstMail();
  }

  /** The provider name of the template context. */
  lemma CamelAddyMail()
    ensures CamelCase("addy mail") == "addyMail"
  {
    CamelAddyMailParts();
    ShortSpellings();
  }

  // ---------------------------------------------------------------------------
  // a run of mixed separators between two words
  // ---------------------------------------------------------------------------

  lemma LowerAlias() ensures LowerStr("alias") == "alias" { }

  lemma MailRunAliasSpellings()
    ensures "mail" + " - " + "alias" == "mail - alias"
    ensures "mail" + "_" + "alias" == "mail_alias"
  {
  }

  lemma CamelMailRunAliasParts()
    ensures CamelCase("mail" + " - " + "alias") == "mail" + "Alias"
  {
    var words, seams := ["mail", "alias"], [" - "];
    assert words[1..] == ["alias"] && seams[1..] == [];
    assert Interleave(words, seams) == "mail" + " - " + "alias";
    CamelOfWords(words, seams);
    assert UpperFirstAll(["alias"]) == UpperFirst("alias") + [];
    LowerMail();
    UpperFirstAlias();
  }

  /** A space, a dash and a space between two words act as one separator. */
  lemma CamelMailRunAlias()
    ensures CamelCase("mail - alias") == "mailAlias"
  {
    CamelMailRunAliasParts();
    MailRunAliasSpellings();
    MailAliasSpellings();
  }

  lemma SnakeMailRunAliasParts()
    ensures SnakeCase("mail" + " - " + "alias") == "mail" + "_" + "alias"
  {
    var words, seams := ["mail", "alias"], [" - "];
    NoLaterCapitalHumpFree("mail");
    NoLaterCapitalHumpFree("alias");
    assert words[1..] == ["alias"] && ["alias"][1..] == [] && seams[1..] == [];
    assert Interleave(words, seams) == "mail" + " - " + "alias";
    assert JoinWith(words, '_') == "mail" + "_" + "alias";
    SnakeOfWords(words, seams);
    LowerAroundUnderscore("mail", "alias");
    LowerMail();
    LowerAlias();
  }

  /** The whole run becomes one `_`. */
  lemma SnakeMailRunAlias()
    ensures SnakeCase("mail - alias") == "mail_alias"
  {
    SnakeMailRunAliasParts();
    MailRunAliasSpellings();
  }
}
