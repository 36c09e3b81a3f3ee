/** The mailto URI encoded by the e-mail QR code (`qrcode_email`). */
module Mailto {
  import opened Results
  import opened Text
  import opened Percent

  /** The submitted form; a field the browser did not send reads as "". */
  datatype MailForm = MailForm(email: string, info: string)

  /** The error the handler renders when the address is missing:
      "Email là bắt buộc" ("the e-mail is required"). */
  const EmailRequired: string := "Email l\U{00E0} b\U{1EAF}t bu\U{1ED9}c"

  /** The fixed subject line, "Thông tin từ QR" ("information from QR"). */
  const Subject: string := "Th\U{00F4}ng tin t\U{1EEB} QR"

  /** The handler's outcome: the error when the stripped address is empty,
      otherwise the URI for the stripped address and stripped message. */
  function MailtoPayload(f: MailForm): Result<string> {
    var email := Strip(f.email);
    var info := Strip(f.info);
    if email == "" then Err(EmailRequired) else Ok(MailtoText(Subject, email, info))
  }

  /** The URI for an address, a subject line and a message: `mailto:` and
      the address verbatim, then the query part. */
  function MailtoText(subject: string, email: string, info: string): string {
    "mailto:" + email + Query(subject, info)
  }

  /** The query part: nothing when the message is empty, otherwise `?` and
      the `subject=` and `body=` header fields, values quoted. */
  function Query(subject: string, info: string): string {
    if info == "" then "" else "?" + HeaderFields(subject, info)
  }

  function HeaderFields(subject: string, info: string): string {
    "subject=" + Quote(subject) + "&body=" + Quote(info)
  }

  /** A mailto URI as this model reads it back: the address part taken
      verbatim (not percent-decoded, not split into a `,` list, with no `#`
      fragment cut off), and the header fields (name, value) in order, their
      values percent-decoded. */
  datatype MailtoUri = MailtoUri(to: string, headers: seq<(string, string)>)

  /** One `hfname=hfvalue` field, its value decoded. */
  function ParseHeader(field: string): Option<(string, string)> {
    var kv := Split(field, '=');
    if |kv| != 2 then None
    else
      match Unquote(kv[1])
      case None => None
      case Some(v) => Some((kv[0], v))
  }

  function ParseHeaders(fields: seq<string>): Option<seq<(string, string)>> {
    if fields == [] then Some([])
    else
      match ParseHeader(fields[0])
      case None => None
      case Some(h) =>
        match ParseHeaders(fields[1..])
        case None => None
        case Some(rest) => Some([h] + rest)
  }

  /** Reads a URI back: `mailto:` address, then optionally `?` and header
      fields separated by `&`. */
  function ParseMailto(u: string): Option<MailtoUri> {
    if !StartsWith(u, "mailto:") then None else ParseTarget(u[7..])
  }

  /** The part after the scheme: the address, then optionally `?` and the
      header fields. */
  function ParseTarget(t: string): Option<MailtoUri> {
    var parts := Split(t, '?');
    if |parts| == 1 then Some(MailtoUri(parts[0], []))
    else if |parts| == 2 then
      match ParseHeaders(Split(parts[1], '&'))
      case None => None
      case Some(h) => Some(MailtoUri(parts[0], h))
    else None
  }

  /** The handler refuses the form exactly when the address is blank. */
  lemma EmailRequiredIff(f: MailForm)
    ensures MailtoPayload(f).Err? <==> AllSpace(f.email)
    ensures MailtoPayload(f).Err? ==> MailtoPayload(f).message == EmailRequired
  {
    StripEmptyIff(f.email);
  }

  lemma MailtoTextShape(subject: string, email: string, info: string)
    ensures StartsWith(MailtoText(subject, email, info), "mailto:" + email)
    ensures MailtoText(subject, email, info) == "mailto:" + email <==> info == ""
  {
    var head := "mailto:" + email;
    StartsWithAppend(head, Query(subject, info));
    assert |MailtoText(subject, email, info)| == |head| + |Query(subject, info)|;
  }

  /** With a message, the URI is the address followed by `?subject=`, the
      quoted subject line, `&body=` and the quoted message. */
  lemma MailtoTextWithQuery(subject: string, email: string, info: string)
    requires info != ""
    ensures MailtoText(subject, email, info)
      == "mailto:" + email + "?subject=" + Quote(subject) + "&body=" + Quote(info)
  {
    assert "?" + "subject=" == "?subject=" by {}
    RegroupNested("mailto:" + email, "?", "subject=", Quote(subject), "&body=", Quote(info));
  }

  /** Every URI starts with `mailto:` and the stripped address, unencoded;
      it is exactly that when the message is blank, and it carries header
      fields only when there is one. */
  lemma MailtoShape(f: MailForm)
    requires MailtoPayload(f).Ok?
    ensures var u := MailtoPayload(f).value;
      StartsWith(u, "mailto:" + Strip(f.email))
      && (u == "mailto:" + Strip(f.email) <==> AllSpace(f.info))
  {
    StripEmptyIff(f.info);
    MailtoTextShape(Subject, Strip(f.email), Strip(f.info));
  }

  /** The two forms of the URI: the bare address when the message is blank,
      otherwise the address followed by `?subject=` with the quoted subject
      line and `&body=` with the quoted stripped message. */
  lemma MailtoCases(f: MailForm)
    requires !AllSpace(f.email)
    ensures AllSpace(f.info) ==> MailtoPayload(f) == Ok("mailto:" + Strip(f.email))
    ensures !AllSpace(f.info) ==>
      (MailtoPayload(f) == Ok("mailto:" + Strip(f.email) + "?subject=" + Quote(Subject) + "&body=" + Quote(Strip(f.info))))
  {
    StripEmptyIff(f.email);
    StripEmptyIff(f.info);
    MailtoTextShape(Subject, Strip(f.email), Strip(f.info));
    if Strip(f.info) != "" {
      MailtoTextWithQuery(Subject, Strip(f.email), Strip(f.info));
    }
  }

  lemma ParseField(name: string, value: string)
    requires '=' !in name
    ensures ParseHeader(name + "=" + Quote(value)) == Some((name, value))
  {
    QuoteAlphabet(value);
    SplitAfterPart(name, Quote(value), '=');
    SplitWithout(Quote(value), '=');
    UnquoteQuote(value);
  }

  lemma ParseHeadersPair(a: string, b: string, ha: (string, string), hb: (string, string))
    requires ParseHeader(a) == Some(ha) && ParseHeader(b) == Some(hb)
    ensures ParseHeaders([a, b]) == Some([ha, hb])
  {
    var one, two := [b], [a, b];
    assert one[0] == b && one[1..] == [];
    assert ParseHeaders(one[1..]) == Some([]);
    assert ParseHeaders(one) == Some([hb] + []);
    assert [hb] + [] == [hb];
    assert ParseHeaders(one) == Some([hb]);
    assert two[0] == a && two[1..] == one;
    assert ParseHeader(two[0]) == Some(ha);
    assert ParseHeaders(two[1..]) == Some([hb]);
    assert ParseHeaders(two) == Some([ha] + [hb]);
    assert [ha] + [hb] == [ha, hb];
  }

  /** The query part the handler writes parses back into its two fields. */
  lemma ParseQuery(subject: string, info: string)
    ensures ParseHeaders(Split(HeaderFields(subject, info), '&'))
      == Some([("subject", subject), ("body", info)])
  {
    var sub := "subject" + "=" + Quote(subject);
    var body := "body" + "=" + Quote(info);
    assert '&' !in sub && '&' !in body by {
      QuoteAlphabet(subject);
      QuoteAlphabet(info);
    }
    assert sub + "&" + body == HeaderFields(subject, info) by {
      assert "subject" + "=" == "subject=" by {}
      assert "&" + ("body" + "=") == "&body=" by {}
      RegroupInner("subject" + "=", Quote(subject), "&", "body" + "=", Quote(info));
    }
    SplitWithout(body, '&');
    SplitAfterPart(sub, body, '&');
    ParseField("subject", subject);
    ParseField("body", info);
    ParseHeadersPair(sub, body, ("subject", subject), ("body", info));
  }

  /** The scheme prefix is read off and the rest parsed as the target. */
  lemma ParseScheme(t: string)
    ensures ParseMailto("mailto:" + t) == ParseTarget(t)
  {
    StartsWithAppend("mailto:", t);
    assert ("mailto:" + t)[7..] == t;
  }

  lemma ParseAddressOnly(to: string)
    requires '?' !in to
    ensures ParseMailto("mailto:" + to) == Some(MailtoUri(to, []))
  {
    ParseScheme(to);
    SplitWithout(to, '?');
  }

  lemma ParseTargetWithQuery(to: string, query: string, h: seq<(string, string)>)
    requires '?' !in to && '?' !in query
    requires ParseHeaders(Split(query, '&')) == Some(h)
    ensures ParseTarget(to + "?" + query) == Some(MailtoUri(to, h))
  {
    SplitWithout(query, '?');
    SplitAfterPart(to, query, '?');
  }

  lemma ParseAddressAndQuery(to: string, query: string, h: seq<(string, string)>)
    requires '?' !in to && '?' !in query
    requires ParseHeaders(Split(query, '&')) == Some(h)
    ensures ParseMailto("mailto:" + to + ("?" + query)) == Some(MailtoUri(to, h))
  {
    var rest := to + "?" + query;
    RegroupTail("mailto:", to, "?", query);
    ParseScheme(rest);
    ParseTargetWithQuery(to, query, h);
  }

  lemma MailtoTextRoundTrip(subject: string, email: string, info: string)
    requires '?' !in email
    ensures ParseMailto(MailtoText(subject, email, info)) ==
      Some(MailtoUri(email, if info == "" then [] else [("subject", subject), ("body", info)]))
  {
    if info == "" {
      assert MailtoText(subject, email, info) == "mailto:" + email;
      ParseAddressOnly(email);
    } else {
      var query := HeaderFields(subject, info);
      assert MailtoText(subject, email, info) == "mailto:" + email + ("?" + query);
      assert '?' !in query by {
        QuoteAlphabet(subject);
        QuoteAlphabet(info);
      }
      ParseQuery(subject, info);
      ParseAddressAndQuery(email, query, [("subject", subject), ("body", info)]);
    }
  }

  /** Reading the URI back yields the stripped address and, when a message
      was given, the subject and the message: quoting keeps the header
      values from breaking the URI's structure. The address itself is not
      encoded, so this needs it to hold no `?`. */
  lemma MailtoRoundTrip(f: MailForm)
    requires MailtoPayload(f).Ok?
    requires '?' !in Strip(f.email)
    ensures ParseMailto(MailtoPayload(f).value) ==
      Some(MailtoUri(Strip(f.email), if Strip(f.info) == "" then [] else [("subject", Subject), ("body", Strip(f.info))]))
  {
    MailtoTextRoundTrip(Subject, Strip(f.email), Strip(f.info));
  }
}
