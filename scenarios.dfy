/** Worked inputs for the option accessors, each checked against the model. */
module Scenarios {
  import opened Wrappers
  import opened Strings
  import opened Dictionaries
  import opened DotNetServe

  /** Example: "api\v1/" becomes "/api/v1". */
  lemma GetPathBaseExample<A>(o: CommandLineOptions<A>)
    ensures GetPathBase(o.(pathBase := Some("api\\v1/"))) == Success(Some("/api/v1"))
  {
    assert Replace("api\\v1/", '\\', '/') == "api/v1/";
    assert TrimEnd("api/v1/", {'/'}) == "api/v1";
    assert "/" + "api/v1" == "/api/v1";
  }

  /** "txt,md" splits into its two tokens. */
  lemma SplitTxtMd()
    ensures Split("txt,md", ',') == ["txt", "md"]
  {
    assert Join(["txt", "md"], ',') == "txt,md";
    SplitJoin(["txt", "md"], ',');
  }

  /** Example: "txt,md" gives [".txt", ".md"]. */
  lemma DefaultExtensionsPrefixed<A>(o: CommandLineOptions<A>)
    ensures GetDefaultExtensions(o.(defaultExtensions := OptionalValue(true, Some("txt,md"))))
            == Some([".txt", ".md"])
  {
    SplitTxtMd();
    assert EnsureLeadingDot("txt") == ".txt" && EnsureLeadingDot("md") == ".md";
    var r := GetDefaultExtensions(o.(defaultExtensions := OptionalValue(true, Some("txt,md"))));
    assert r.Some? && |r.value| == 2 && r.value[0] == ".txt" && r.value[1] == ".md";
    assert r.value == [".txt", ".md"];
  }

  /** ".txt, md," splits into three tokens, the last one empty. */
  lemma SplitUntrimmed()
    ensures Split(".txt, md,", ',') == [".txt", " md", ""]
  {
    assert Join([".txt", " md", ""], ',') == ".txt, md,";
    SplitJoin([".txt", " md", ""], ',');
  }

  /** Example: a leading space is kept, and an empty token becomes ".". */
  lemma DefaultExtensionsUntrimmed<A>(o: CommandLineOptions<A>)
    ensures GetDefaultExtensions(o.(defaultExtensions := OptionalValue(true, Some(".txt, md,"))))
            == Some([".txt", ". md", "."])
  {
    SplitUntrimmed();
    assert EnsureLeadingDot(".txt") == ".txt" && EnsureLeadingDot(" md") == ". md" && EnsureLeadingDot("") == ".";
    var r := GetDefaultExtensions(o.(defaultExtensions := OptionalValue(true, Some(".txt, md,"))));
    assert r.Some? && |r.value| == 3 && r.value[0] == ".txt" && r.value[1] == ". md" && r.value[2] == ".";
    assert r.value == [".txt", ". md", "."];
  }

  /** Example: an extension without '.' gets one. */
  lemma ParseMimeMappingAddsDot()
    ensures ParseMimeMapping("json=application/json") == Success(Entry(".json", Some("application/json")))
  {
    assert EnsureLeadingDot("json") == ".json";
    assert "json=application/json" == "json" + "=" + "application/json";
    ParseMimeMappingOf("json", "application/json");
  }

  /** Example: an extension that has its '.' keeps it, and its case. */
  lemma ParseMimeMappingKeepsDot()
    ensures ParseMimeMapping(".JSON=text/plain") == Success(Entry(".JSON", Some("text/plain")))
  {
    assert ".JSON=text/plain" == ".JSON" + "=" + "text/plain";
    ParseMimeMappingOf(".JSON", "text/plain");
  }

  /** Example: the case of an extension is kept as written. */
  lemma ParseMimeMappingKeepsCase()
    ensures ParseMimeMapping("JSON=text/plain") == Success(Entry(".JSON", Some("text/plain")))
  {
    assert EnsureLeadingDot("JSON") == ".JSON";
    assert "JSON=text/plain" == "JSON" + "=" + "text/plain";
    ParseMimeMappingOf("JSON", "text/plain");
  }

  /** Example: an empty MIME is null, not "". */
  lemma ParseMimeMappingEmptyMime()
    ensures ParseMimeMapping("md=") == Success(Entry(".md", Option.None))
  {
    assert EnsureLeadingDot("md") == ".md";
    assert "md=" == "md" + "=" + "";
    ParseMimeMappingOf("md", "");
  }

  /** Example: a dictionary holding ".json" already contains ".JSON". */
  lemma JsonKeyCollides()
    ensures ContainsKey([Entry(".json", Some("application/json"))], ".JSON")
  {
    assert FoldCase(".json") == [ToUpperAscii('.'), ToUpperAscii('j'), ToUpperAscii('s'), ToUpperAscii('o'), ToUpperAscii('n')];
    assert ToUpperAscii('j') == 'J' && ToUpperAscii('s') == 'S' && ToUpperAscii('o') == 'O' && ToUpperAscii('n') == 'N';
    assert FoldCase(".JSON") == ".JSON";
    assert EqualsIgnoreCase([Entry(".json", Some("application/json"))][0].key, ".JSON");
  }

  /** Example: the entry "json=application/json" alone makes a one-entry dictionary. */
  lemma JsonDictionary()
    ensures ToDictionary(["json=application/json"], ParseMimeMapping)
            == Success([Entry(".json", Some("application/json"))])
  {
    ParseMimeMappingAddsDot();
    ToDictionarySingle("json=application/json", ParseMimeMapping);
  }

  /** Example: "json" and "JSON" collide, so the call throws instead of the last one winning. */
  lemma MimeMappingsCaseCollision<A>(o: CommandLineOptions<A>)
    ensures GetMimeMappings(o.(mimeMappings := Some(["json=application/json", "JSON=text/plain"])))
            == Failure(DuplicateKey(".JSON"))
  {
    ParseMimeMappingKeepsCase();
    JsonDictionary();
    JsonKeyCollides();
    assert ["json=application/json", "JSON=text/plain"][..1] == ["json=application/json"];
  }

  /** Example: "json" and ".JSON" collide too, once the '.' is added. */
  lemma MimeMappingsDotCollision<A>(o: CommandLineOptions<A>)
    ensures GetMimeMappings(o.(mimeMappings := Some(["json=application/json", ".JSON=text/plain"])))
            == Failure(DuplicateKey(".JSON"))
  {
    ParseMimeMappingKeepsDot();
    JsonDictionary();
    JsonKeyCollides();
    assert ["json=application/json", ".JSON=text/plain"][..1] == ["json=application/json"];
  }

  /** " DENY" trims to "DENY". */
  lemma TrimDeny()
    ensures Trim(" DENY") == "DENY"
  {
    assert 'Y' !in WhiteSpace && 'D' !in WhiteSpace && ' ' in WhiteSpace;
    assert TrimEnd(" DENY", WhiteSpace) == " DENY";
    assert " DENY"[1..] == "DENY";
    assert TrimStart(" DENY", WhiteSpace) == TrimStart("DENY", WhiteSpace) == "DENY";
  }

  /** Example: the value is trimmed and the name is not. */
  lemma ParseHeaderTrimsValue()
    ensures ParseHeader("X-Frame-Options: DENY") == Success(Entry("X-Frame-Options", Some("DENY")))
  {
    assert "X-Frame-Options: DENY" == "X-Frame-Options" + ":" + " DENY";
    ParseHeaderOf("X-Frame-Options", " DENY");
    TrimDeny();
  }

  /** Example: a value of spaces trims to "", while nothing after ':' is null. */
  lemma ParseHeaderEmptyValues()
    ensures ParseHeader("X: ") == Success(Entry("X", Some("")))
    ensures ParseHeader("X:") == Success(Entry("X", Option.None))
  {
    assert ' ' in WhiteSpace;
    assert TrimEnd(" ", WhiteSpace) == TrimEnd("", WhiteSpace) == "";
    assert "X: " == "X" + ":" + " " && "X:" == "X" + ":" + "";
    ParseHeaderOf("X", " ");
    ParseHeaderOf("X", "");
  }

  /** Example: one header makes a one-entry dictionary. */
  lemma GetHeadersSingle<A>(o: CommandLineOptions<A>)
    ensures GetHeaders(o.(headers := Some(["X-Frame-Options: DENY"])))
            == Success(Some([Entry("X-Frame-Options", Some("DENY"))]))
  {
    ParseHeaderTrimsValue();
    ToDictionarySingle("X-Frame-Options: DENY", ParseHeader);
  }
}
