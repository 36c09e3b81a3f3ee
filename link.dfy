/** The text encoded by the link QR code (`qrcode_link`). */
module Link {
  import opened Results
  import opened Text

  /** The submitted form; a field the browser did not send reads as "". */
  datatype LinkForm = LinkForm(link: string, info: string)

  /** The error the handler renders when the link is missing:
      "Đường link là bắt buộc" ("the link is required"). */
  const LinkRequired: string := "\U{0110}\U{01B0}\U{1EDD}ng link l\U{00E0} b\U{1EAF}t bu\U{1ED9}c"

  /** The QR text: the stripped link, prefixed by the stripped description
      and ": " when there is one. */
  function LinkPayload(f: LinkForm): Result<string> {
    var link := Strip(f.link);
    var info := Strip(f.info);
    if link == "" then Err(LinkRequired)
    else if info == "" then Ok(link)
    else Ok(info + ": " + link)
  }

  /** There is a separator ": " starting at index `i` of `s`. */
  predicate SeparatorAt(s: string, i: int) {
    0 <= i && i + 1 < |s| && s[i] == ':' && s[i + 1] == ' '
  }

  predicate NoSeparator(s: string) {
    forall i :: 0 <= i < |s| ==> !SeparatorAt(s, i)
  }

  /** The index of the first separator at or after `from`. */
  function FindSeparator(s: string, from: nat): (r: Option<nat>)
    requires from <= |s|
    ensures r.Some? ==> from <= r.value && SeparatorAt(s, r.value)
    ensures forall i :: from <= i < |s| && (r.None? || i < r.value) ==> !SeparatorAt(s, i)
    decreases |s| - from
  {
    if from + 1 >= |s| then None
    else if SeparatorAt(s, from) then Some(from)
    else FindSeparator(s, from + 1)
  }

  /** Reads a payload back as (description, link), splitting at the first ": ". */
  function ParseLinkPayload(p: string): (string, string) {
    match FindSeparator(p, 0)
    case None => ("", p)
    case Some(i) => (p[..i], p[i + 2..])
  }

  /** The handler refuses the form exactly when the link is blank. */
  lemma LinkRequiredIff(f: LinkForm)
    ensures LinkPayload(f).Err? <==> AllSpace(f.link)
    ensures LinkPayload(f).Err? ==> LinkPayload(f).message == LinkRequired
  {
    StripEmptyIff(f.link);
  }

  /** The two forms of the payload: the stripped link alone when the
      description is blank, otherwise the stripped description, ": " and
      the stripped link. */
  lemma LinkPayloadCases(f: LinkForm)
    requires !AllSpace(f.link)
    ensures AllSpace(f.info) ==> LinkPayload(f) == Ok(Strip(f.link))
    ensures !AllSpace(f.info) ==> LinkPayload(f) == Ok(Strip(f.info) + ": " + Strip(f.link))
  {
    StripEmptyIff(f.link);
    StripEmptyIff(f.info);
  }

  /** A payload is never empty, carries no surrounding whitespace, and ends
      with the stripped link. */
  lemma LinkPayloadTrimmed(f: LinkForm)
    requires LinkPayload(f).Ok?
    ensures var p := LinkPayload(f).value;
      p != "" && Strip(p) == p && EndsWith(p, Strip(f.link))
  {
    var p := LinkPayload(f).value;
    var link := Strip(f.link);
    var info := Strip(f.info);
    StripInfix(f.link);
    StripInfix(f.info);
    assert p != [] && Trimmed(p) && EndsWith(p, link) by {
      if info != "" {
        assert p == info + ": " + link;
        assert p[|p| - 1] == link[|link| - 1] && p[0] == info[0];
        assert p[|p| - |link|..] == link;
      } else {
        assert p == link;
      }
    }
    StripTrimmed(p);
  }

  /** Surrounding whitespace in the form makes no difference. */
  lemma LinkPayloadStripInvariant(f: LinkForm)
    ensures LinkPayload(LinkForm(Strip(f.link), Strip(f.info))) == LinkPayload(f)
  {
    StripIdempotent(f.link);
    StripIdempotent(f.info);
  }

  /** Reading back a payload recovers the stripped fields, provided the
      part that comes first holds no ": " of its own. */
  lemma LinkPayloadParse(f: LinkForm)
    requires LinkPayload(f).Ok?
    requires NoSeparator(Strip(f.info))
    requires Strip(f.info) == "" ==> NoSeparator(Strip(f.link))
    ensures ParseLinkPayload(LinkPayload(f).value) == (Strip(f.info), Strip(f.link))
  {
    var p := LinkPayload(f).value;
    var link := Strip(f.link);
    var info := Strip(f.info);
    if info != "" {
      var n := |info|;
      assert SeparatorAt(p, n);
      forall i | 0 <= i < n ensures !SeparatorAt(p, i) {
        if i + 1 < n {
          assert !SeparatorAt(info, i);
        } else {
          assert p[i + 1] == ':';
        }
      }
      assert FindSeparator(p, 0) == Some(n);
      assert p[..n] == info && p[n + 2..] == link;
    } else {
      assert FindSeparator(p, 0).None?;
    }
  }

  /** Without that proviso the payload is ambiguous: a description `a`
      with link `b` gives the same QR text as the link "a: b" alone. */
  lemma LinkPayloadAmbiguous(a: string, b: string)
    requires a != "" && b != "" && Trimmed(a) && Trimmed(b)
    ensures LinkPayload(LinkForm(a + ": " + b, "")) == LinkPayload(LinkForm(b, a))
  {
    var joined := a + ": " + b;
    assert joined[0] == a[0] && joined[|joined| - 1] == b[|b| - 1];
    assert [] + joined + [] == joined && [] + a + [] == a && [] + b + [] == b;
    StripSurrounded([], joined, []);
    StripSurrounded([], a, []);
    StripSurrounded([], b, []);
    StripEmptyIff("");
  }
}
