// How a saved query's text travels through the item templates of
// djangoql/static/djangoql/js/save_query.js: the text is pasted between the double quotes of
// the `query_text` attribute, jQuery parses the markup when the element is inserted, and
// `.attr('query_text')` reads back the value the HTML parser found.

module Markup {
  import opened Wire

  /** The markup the templates write after the closing quote of `query_text`. */
  function AfterText(id: QueryId): string
  {
    " query_id=\"" + ShowNat(id) + "\" >"
  }

  /** The value an HTML parser reads for a double-quoted attribute whose markup starts at `s`:
      the characters up to the closing quote, with the character references `&amp;` and
      `&quot;` decoded. Other references are passed through as they stand; the escaped
      markup below contains none. */
  function AttributeValue(s: string): string
    decreases |s|
  {
    if s == [] || s[0] == '"' then []
    else if |s| >= 5 && s[..5] == "&amp;" then "&" + AttributeValue(s[5..])
    else if |s| >= 6 && s[..6] == "&quot;" then "\"" + AttributeValue(s[6..])
    else [s[0]] + AttributeValue(s[1..])
  }

  /** Text without a quote or an ampersand is read back as it stands, up to the quote that
      follows it. */
  lemma {:induction false} PlainTextEndsAtQuote(p: string, rest: string)
    requires forall i :: 0 <= i < |p| ==> p[i] != '"' && p[i] != '&'
    ensures AttributeValue(p + "\"" + rest) == p
    decreases |p|
  {
    if p != [] {
      var s := p + "\"" + rest;
      assert s[1..] == p[1..] + "\"" + rest;
      PlainTextEndsAtQuote(p[1..], rest);
    }
  }

  /** What `.attr('query_text')` reads from the element the templates build as written: the
      text is pasted between the quotes unescaped. */
  function TextAsWritten(e: Entry): string
  {
    AttributeValue(e.text + "\"" + AfterText(e.id))
  }

  /** A query holding a DjangoQL string literal, `name = "foo"`, reads back cut at the
      literal's opening quote. */
  lemma QuotedLiteralIsCut()
    ensures var e := Entry(1, "by name", "name = \"foo\"");
      TextAsWritten(e) == "name = " && TextAsWritten(e) != e.text
  {
    var e := Entry(1, "by name", "name = \"foo\"");
    assert e.text + "\"" + AfterText(1) == "name = " + "\"" + ("foo\"\"" + AfterText(1));
    PlainTextEndsAtQuote("name = ", "foo\"\"" + AfterText(1));
  }

  /** `&` and `"` written as character references, as a double-quoted attribute value needs. */
  function EscapeAttribute(t: string): (r: string)
    ensures forall i :: 0 <= i < |r| ==> r[i] != '"'
  {
    if t == [] then []
    else (if t[0] == '&' then "&amp;" else if t[0] == '"' then "&quot;" else [t[0]])
         + EscapeAttribute(t[1..])
  }

  /** Escaped text reads back as itself, whatever markup follows the closing quote. */
  lemma {:induction false} EscapedReadsBack(t: string, rest: string)
    ensures AttributeValue(EscapeAttribute(t) + "\"" + rest) == t
    decreases |t|
  {
    if t != [] {
      var tail := EscapeAttribute(t[1..]) + "\"" + rest;
      EscapedReadsBack(t[1..], rest);
      var s := EscapeAttribute(t) + "\"" + rest;
      if t[0] == '&' {
        assert s == "&amp;" + tail;
        assert s[..5] == "&amp;" && s[5..] == tail;
      } else if t[0] == '"' {
        assert s == "&quot;" + tail;
        assert s[..5] != "&amp;" by { assert s[1] == 'q'; }
        assert s[..6] == "&quot;" && s[6..] == tail;
      } else {
        assert s == [t[0]] + tail;
        assert s[0] == t[0] && s[1..] == tail;
      }
    }
  }

  /** What `.attr('query_text')` reads once the templates escape the text: the stored text. */
  function TextRendered(e: Entry): (r: string)
    ensures r == e.text
  {
    EscapedReadsBack(e.text, AfterText(e.id));
    AttributeValue(EscapeAttribute(e.text) + "\"" + AfterText(e.id))
  }
}
