/** The sentry-site configuration text: a `<configuration>` element holding
    one `<property>` element per setting, each with a `<name>` and a `<value>`.
    The harness writes it with a string builder; the parser below reads it back,
    so that what a property block holds can be stated as a round trip. */
module SentrySite {
  import opened Outcomes
  import opened Text

  datatype Property = Property(name: string, value: string)

  // The class name is split in two so that no proof has to unfold one long literal.
  const ProviderPackage := "org.apache.sentry.provider.file."
  const ProviderClass := ProviderPackage + "LocalGroupResourceAuthorizationProvider"
  const AuthProviderName := "test-authz-provider.ini"

  const ConfigOpen := "<configuration>\n"
  const ConfigClose := "</configuration>\n"
  const NameOpen := "<property>\n" + "<name>"
  const ValueOpen := "</name>\n" + "<value>"
  const PropertyClose := "</value>\n" + "</property>\n"

  /** The text of one property block, in the order the builder appends it. */
  function PropertyText(name: string, value: string): string {
    "<property>\n" + "<name>" + name + "</name>\n" + "<value>" + value + "</value>\n" + "</property>\n"
  }

  function RenderProperties(props: seq<Property>): string {
    if props == [] then "" else PropertyText(props[0].name, props[0].value) + RenderProperties(props[1..])
  }

  function ConfigurationText(props: seq<Property>): string {
    ConfigOpen + RenderProperties(props) + ConfigClose
  }

  /** The two settings of the sentry-site file: the provider class, and the
      policy file in the distributed file system's working directory. */
  function SentryProperties(workingDirectory: string, separator: string): seq<Property> {
    [ Property("sentry.provider", ProviderClass),
      Property("sentry.solr.provider.resource", workingDirectory + separator + AuthProviderName) ]
  }

  /** Appends one property block; what the builder held before stays as a prefix. */
  method AddPropertyToSentry(builder: StringBuilder, name: string, value: string)
    modifies builder
    ensures builder.contents == old(builder.contents) + PropertyText(name, value)
  {
    builder.Append("<property>\n");
    builder.Append("<name>");
    builder.Append(name);
    builder.Append("</name>\n");
    builder.Append("<value>");
    builder.Append(value);
    builder.Append("</value>\n");
    builder.Append("</property>\n");
    AppendPieces(old(builder.contents), "<property>\n", "<name>", name, "</name>\n", "<value>", value,
                 "</value>\n", "</property>\n");
  }

  /** Appending eight pieces one by one appends their concatenation. Dafny proves
      it unaided; AddPropertyToSentry calls it so that its own proof stays cheap. */
  lemma AppendPieces(c: string, a: string, b: string, n: string, d: string, e: string, v: string, g: string, h: string)
    ensures c + a + b + n + d + e + v + g + h == c + (a + b + n + d + e + v + g + h)
  {
  }

  /** The text setupSentry writes to the sentry-site file. The working directory
      and the file separator come from the file system and the platform. */
  method SentrySiteData(workingDirectory: string, separator: string) returns (siteData: string)
    ensures siteData == ConfigurationText(SentryProperties(workingDirectory, separator))
    ensures Plain(workingDirectory) && Plain(separator) ==>
              ParseConfiguration(siteData) == Some(SentryProperties(workingDirectory, separator))
  {
    var sentrySiteData := new StringBuilder();
    sentrySiteData.Append("<configuration>\n");
    assert sentrySiteData.contents == ConfigOpen;
    AddPropertyToSentry(sentrySiteData, "sentry.provider", ProviderClass);
    ghost var text0 := sentrySiteData.contents;
    assert text0 == ConfigOpen + PropertyText("sentry.provider", ProviderClass);
    AddPropertyToSentry(sentrySiteData, "sentry.solr.provider.resource",
      workingDirectory + separator + AuthProviderName);
    ghost var text1 := sentrySiteData.contents;
    assert text1 == text0 + PropertyText("sentry.solr.provider.resource",
                                         workingDirectory + separator + AuthProviderName);
    sentrySiteData.Append("</configuration>\n");
    assert sentrySiteData.contents == text1 + ConfigClose;
    siteData := sentrySiteData.contents;
    ghost var props := SentryProperties(workingDirectory, separator);
    assert props[0] == Property("sentry.provider", ProviderClass);
    assert props[1] == Property("sentry.solr.provider.resource", workingDirectory + separator + AuthProviderName);
    TwoPropertiesText(props);
    assert siteData == ConfigurationText(props);
    if Plain(workingDirectory) && Plain(separator) {
      SentryPropertiesPlain(workingDirectory, separator);
      ConfigurationRoundTrip(props);
    }
  }

  lemma SentryPropertiesPlain(workingDirectory: string, separator: string)
    requires Plain(workingDirectory) && Plain(separator)
    ensures PlainProperties(SentryProperties(workingDirectory, separator))
  {
    PlainConcat(workingDirectory, separator);
    AuthProviderNamePlain();
    PlainConcat(workingDirectory + separator, AuthProviderName);
    ProviderClassPlain();
  }

  lemma AuthProviderNamePlain()
    ensures Plain(AuthProviderName)
  {
  }

  lemma ProviderClassPlain()
    ensures Plain(ProviderClass)
  {
    assert Plain(ProviderPackage);
    assert Plain("LocalGroupResourceAuthorizationProvider");
    PlainConcat(ProviderPackage, "LocalGroupResourceAuthorizationProvider");
  }

  lemma TwoPropertiesText(props: seq<Property>)
    requires |props| == 2
    ensures ConfigurationText(props) == ConfigOpen + PropertyText(props[0].name, props[0].value)
                                        + PropertyText(props[1].name, props[1].value) + ConfigClose
  {
    assert props[1..][1..] == [];
    assert RenderProperties(props[1..]) == PropertyText(props[1].name, props[1].value) + "";
  }

  // ---- Reading the text back ----

  /** Text that holds no `<`, so it cannot be confused with markup. */
  predicate Plain(s: string) {
    '<' !in s
  }

  predicate PlainProperties(props: seq<Property>) {
    forall i :: 0 <= i < |props| ==> Plain(props[i].name) && Plain(props[i].value)
  }

  predicate StartsWith(s: string, prefix: string) {
    |prefix| <= |s| && s[..|prefix|] == prefix
  }

  /** Splits `s` before its first `<`. */
  function SplitAtMarkup(s: string): (r: (string, string))
    ensures r.0 + r.1 == s && Plain(r.0) && (r.1 == [] || r.1[0] == '<')
  {
    if s == [] || s[0] == '<' then ([], s)
    else
      var (a, b) := SplitAtMarkup(s[1..]);
      ([s[0]] + a, b)
  }

  /** One property block at the start of `s`, and the text after it. */
  function ParseProperty(s: string): (r: Option<(Property, string)>)
    ensures r.Some? ==> |r.value.1| < |s|
  {
    if !StartsWith(s, NameOpen) then None
    else
      var (name, r1) := SplitAtMarkup(s[|NameOpen|..]);
      if !StartsWith(r1, ValueOpen) then None
      else
        var (value, r2) := SplitAtMarkup(r1[|ValueOpen|..]);
        if !StartsWith(r2, PropertyClose) then None
        else Some((Property(name, value), r2[|PropertyClose|..]))
  }

  /** Property blocks up to the closing `</configuration>` line, which must end the text. */
  function ParseProperties(s: string): Option<seq<Property>>
    decreases |s|
  {
    if s == ConfigClose then Some([])
    else
      var r := ParseProperty(s);
      if r.None? then None
      else
        var tail := ParseProperties(r.value.1);
        if tail.None? then None else Some([r.value.0] + tail.value)
  }

  function ParseConfiguration(s: string): Option<seq<Property>> {
    if StartsWith(s, ConfigOpen) then ParseProperties(s[|ConfigOpen|..]) else None
  }

  lemma PlainConcat(a: string, b: string)
    requires Plain(a) && Plain(b)
    ensures Plain(a + b)
  {
  }

  lemma {:induction false} SplitAtMarkupOf(a: string, b: string)
    requires Plain(a) && (b == [] || b[0] == '<')
    ensures SplitAtMarkup(a + b) == (a, b)
  {
    if a == [] {
      assert a + b == b;
    } else {
      assert a[0] in a;
      assert (a + b)[1..] == a[1..] + b;
      SplitAtMarkupOf(a[1..], b);
      assert [a[0]] + a[1..] == a;
    }
  }

  /** A block whose name and value are plain reads back as that property. */
  lemma PropertyRoundTrip(p: Property, rest: string)
    requires Plain(p.name) && Plain(p.value)
    ensures ParseProperty(PropertyText(p.name, p.value) + rest) == Some((p, rest))
  {
    var tail2 := PropertyClose + rest;
    var tail1 := ValueOpen + (p.value + tail2);
    var s := NameOpen + (p.name + tail1);
    PropertyTextShape(p.name, p.value, rest);
    assert StartsWith(s, NameOpen) && s[|NameOpen|..] == p.name + tail1;
    SplitAtMarkupOf(p.name, tail1);
    assert StartsWith(tail1, ValueOpen) && tail1[|ValueOpen|..] == p.value + tail2;
    SplitAtMarkupOf(p.value, tail2);
    assert StartsWith(tail2, PropertyClose) && tail2[|PropertyClose|..] == rest;
  }

  lemma PropertyTextShape(name: string, value: string, rest: string)
    ensures PropertyText(name, value) + rest
         == NameOpen + (name + (ValueOpen + (value + (PropertyClose + rest))))
  {
  }

  lemma {:induction false} PropertiesRoundTrip(props: seq<Property>)
    requires PlainProperties(props)
    ensures ParseProperties(RenderProperties(props) + ConfigClose) == Some(props)
  {
    if props == [] {
      assert RenderProperties(props) + ConfigClose == ConfigClose;
    } else {
      var rest := RenderProperties(props[1..]) + ConfigClose;
      RenderFirst(props);
      PropertyRoundTrip(props[0], rest);
      PlainPropertiesTail(props);
      PropertiesRoundTrip(props[1..]);
      HeadTail(props);
    }
  }

  lemma HeadTail<T>(s: seq<T>)
    requires s != []
    ensures [s[0]] + s[1..] == s
  {
  }

  /** The rendering of a non-empty list, split after its first block; the text is
      longer than the closing line, so it is not taken for it. */
  lemma RenderFirst(props: seq<Property>)
    requires props != []
    ensures RenderProperties(props) + ConfigClose
         == PropertyText(props[0].name, props[0].value) + (RenderProperties(props[1..]) + ConfigClose)
    ensures RenderProperties(props) + ConfigClose != ConfigClose
  {
    var p := PropertyText(props[0].name, props[0].value);
    assert |p| >= |ConfigClose|;
  }

  lemma PlainPropertiesTail(props: seq<Property>)
    requires props != [] && PlainProperties(props)
    ensures PlainProperties(props[1..])
  {
    forall i | 0 <= i < |props[1..]|
      ensures Plain(props[1..][i].name) && Plain(props[1..][i].value)
    {
      assert props[1..][i] == props[i + 1];
    }
  }

  /** A configuration whose names and values are plain reads back as its properties. */
  lemma ConfigurationRoundTrip(props: seq<Property>)
    requires PlainProperties(props)
    ensures ParseConfiguration(ConfigurationText(props)) == Some(props)
  {
    var body := RenderProperties(props) + ConfigClose;
    assert ConfigurationText(props) == ConfigOpen + body;
    assert (ConfigOpen + body)[|ConfigOpen|..] == body;
    PropertiesRoundTrip(props);
  }
}
