/** The vCard 3.0 record assembled by the contact QR code handler
    (`qrcode_vcard`): a fixed schema of tag lines, written with bare line
    feeds and with the field values inserted unescaped. */
module VCard {
  import opened Results
  import opened Text

  /** The submitted form. A text field the browser did not send reads as "";
      `photo` is the filename of the uploaded file part, if there is one. */
  datatype VCardForm = VCardForm(
    name: string, lastname: string, phone: string, email: string, company: string,
    title: string, address: string, website: string, photo: Option<string>)

  /** The error the handler renders when the name is missing:
      "Tên là bắt buộc" ("the name is required"). */
  const NameRequired: string := "T\U{00EA}n l\U{00E0} b\U{1EAF}t bu\U{1ED9}c"

  const TelTag: string := "TEL;TYPE=CELL:"
  const EmailTag: string := "EMAIL:"
  const OrgTag: string := "ORG:"
  const TitleTag: string := "TITLE:"
  const AdrTag: string := "ADR:"
  const UrlTag: string := "URL:"
  const PhotoTag: string := "PHOTO;VALUE=URI:"

  /** The tags of the optional lines, in the order the handler writes them. */
  const OptionalTags: seq<string> := [TelTag, EmailTag, OrgTag, TitleTag, AdrTag, UrlTag]

  /** The values of the optional lines, in the same order, as submitted. */
  function OptionalValues(f: VCardForm): (vals: seq<string>)
    ensures |vals| == |OptionalTags|
  {
    [f.phone, f.email, f.company, f.title, f.address, f.website]
  }

  /** An uploaded file part is truthy exactly when its filename is non-empty. */
  predicate HasPhoto(f: VCardForm) {
    f.photo.Some? && f.photo.value != ""
  }

  /** `os.path.join("static", filename)` on a POSIX system: an absolute
      filename replaces the directory. */
  function PhotoPath(filename: string): string {
    if |filename| > 0 && filename[0] == '/' then filename else "static/" + filename
  }

  /** The line of one optional field: there is one only when the value is non-empty. */
  function OptionalLine(tag: string, value: string): seq<string> {
    if value == "" then [] else [tag + value]
  }

  function OptionalLines(tags: seq<string>, vals: seq<string>): seq<string>
    requires |tags| == |vals|
  {
    if tags == [] then [] else OptionalLine(tags[0], vals[0]) + OptionalLines(tags[1..], vals[1..])
  }

  function PhotoLines(f: VCardForm): seq<string> {
    if HasPhoto(f) then [PhotoTag + PhotoPath(f.photo.value)] else []
  }

  /** The fixed lines that open every record. */
  function HeaderLines(name: string, lastname: string): seq<string> {
    ["BEGIN:VCARD", "VERSION:3.0", "N:" + lastname + ";" + name + ";;;", "FN:" + name]
  }

  /** The lines of the record for an accepted (stripped, non-empty) name. */
  function CardLines(name: string, f: VCardForm): seq<string> {
    HeaderLines(name, f.lastname) + OptionalLines(OptionalTags, OptionalValues(f)) + PhotoLines(f) + ["END:VCARD"]
  }

  /** The assembled record, the value of `vcard` once `END:VCARD` has been
      appended: the error when the stripped name is empty, otherwise the
      record's lines joined by a bare line feed. */
  function BuildVCard(f: VCardForm): Result<string> {
    var name := Strip(f.name);
    if name == "" then Err(NameRequired) else Ok(Join(CardLines(name, f), '\n'))
  }

  /** The positions of the non-empty values, in increasing order. */
  function PresentFields(vals: seq<string>): seq<nat> {
    if vals == [] then []
    else PresentFields(vals[..|vals| - 1]) + (if vals[|vals| - 1] != "" then [|vals| - 1] else [])
  }

  // ---------------------------------------------------------------------
  // The step-by-step assembly

  lemma {:induction false} OptionalLinesAppend(t1: seq<string>, v1: seq<string>, t2: seq<string>, v2: seq<string>)
    requires |t1| == |v1| && |t2| == |v2|
    ensures OptionalLines(t1 + t2, v1 + v2) == OptionalLines(t1, v1) + OptionalLines(t2, v2)
  {
    if t1 == [] {
      assert t1 + t2 == t2 && v1 + v2 == v2;
    } else {
      assert (t1 + t2)[1..] == t1[1..] + t2 && (v1 + v2)[1..] == v1[1..] + v2;
      OptionalLinesAppend(t1[1..], v1[1..], t2, v2);
    }
  }

  lemma OptionalLinesSnoc(tags: seq<string>, vals: seq<string>, tag: string, value: string)
    requires |tags| == |vals|
    ensures OptionalLines(tags + [tag], vals + [value]) == OptionalLines(tags, vals) + OptionalLine(tag, value)
  {
    OptionalLinesAppend(tags, vals, [tag], [value]);
    assert OptionalLines([tag], [value]) == OptionalLine(tag, value) + OptionalLines([], []);
  }

  /** The text of the three `vcard` assignments that open every record. */
  lemma HeaderText(name: string, lastname: string)
    ensures "BEGIN:VCARD\nVERSION:3.0\n" + "N:" + lastname + ";" + name + ";;;\n" + "FN:" + name + "\n"
      == Terminated(HeaderLines(name, lastname), '\n')
  {
    var h := HeaderLines(name, lastname);
    TerminatedAppend([h[0], h[1]], [h[2], h[3]], '\n');
    TerminatedAppend([h[0]], [h[1]], '\n');
    TerminatedAppend([h[2]], [h[3]], '\n');
    assert [h[0], h[1]] + [h[2], h[3]] == h;
    assert [h[0]] + [h[1]] == [h[0], h[1]];
    assert [h[2]] + [h[3]] == [h[2], h[3]];
    assert "BEGIN:VCARD\nVERSION:3.0\n" == h[0] + "\n" + h[1] + "\n";
  }

  /** One guarded step `if present: vcard += f"{a}{b}\n"`: the text, which
      so far holds `head` and then the lines `done`, gains the line `a + b`
      exactly when `present` holds. */
  lemma LineStep(head: string, before: string, after: string, done: seq<string>, a: string, b: string, present: bool)
    requires before == head + Terminated(done, '\n')
    requires after == if present then before + a + b + "\n" else before
    ensures after == head + Terminated(done + (if present then [a + b] else []), '\n')
  {
    if present {
      TerminatedSnoc(done, a + b, '\n');
    } else {
      assert done + [] == done;
    }
  }

  /** One optional field's step `if value: vcard += f"{tag}{value}\n"`. */
  lemma FieldStep(head: string, before: string, after: string, done: seq<string>, tag: string, value: string)
    requires before == head + Terminated(done, '\n')
    requires after == if value != "" then before + tag + value + "\n" else before
    ensures after == head + Terminated(done + OptionalLine(tag, value), '\n')
  {
    LineStep(head, before, after, done, tag, value, value != "");
  }

  /** The guarded photo step: the text gains the photo line exactly when
      a photo was uploaded. */
  lemma PhotoStep(head: string, before: string, after: string, done: seq<string>, f: VCardForm)
    requires before == head + Terminated(done, '\n')
    requires after == if HasPhoto(f) then before + PhotoTag + PhotoPath(f.photo.value) + "\n" else before
    ensures after == head + Terminated(done + PhotoLines(f), '\n')
  {
    var path := if HasPhoto(f) then PhotoPath(f.photo.value) else "";
    LineStep(head, before, after, done, PhotoTag, path, HasPhoto(f));
  }

  /** The closing `vcard += "END:VCARD"`, which completes the record. */
  lemma EndStep(name: string, f: VCardForm, before: string, after: string)
    requires before == Terminated(HeaderLines(name, f.lastname), '\n')
      + Terminated(OptionalLines(OptionalTags, OptionalValues(f)) + PhotoLines(f), '\n')
    requires after == before + "END:VCARD"
    ensures after == Join(CardLines(name, f), '\n')
  {
    var header := HeaderLines(name, f.lastname);
    var optional := OptionalLines(OptionalTags, OptionalValues(f));
    var rest := optional + PhotoLines(f);
    TerminatedAppend(header, rest, '\n');
    JoinAsTerminated(header + rest, "END:VCARD", '\n');
    RegroupMiddle(header, optional, PhotoLines(f), ["END:VCARD"]);
  }

  /** The six optional lines, one guarded step after another. */
  lemma OptionalLinesInSteps(f: VCardForm)
    ensures OptionalLines(OptionalTags, OptionalValues(f))
      == OptionalLine(TelTag, f.phone) + OptionalLine(EmailTag, f.email) + OptionalLine(OrgTag, f.company)
         + OptionalLine(TitleTag, f.title) + OptionalLine(AdrTag, f.address) + OptionalLine(UrlTag, f.website)
  {
    OptionalLinesSnoc([], [], TelTag, f.phone);
    OptionalLinesSnoc([TelTag], [f.phone], EmailTag, f.email);
    OptionalLinesSnoc([TelTag, EmailTag], [f.phone, f.email], OrgTag, f.company);
    OptionalLinesSnoc([TelTag, EmailTag, OrgTag], [f.phone, f.email, f.company], TitleTag, f.title);
    OptionalLinesSnoc([TelTag, EmailTag, OrgTag, TitleTag], [f.phone, f.email, f.company, f.title], AdrTag, f.address);
    OptionalLinesSnoc([TelTag, EmailTag, OrgTag, TitleTag, AdrTag], [f.phone, f.email, f.company, f.title, f.address],
                      UrlTag, f.website);
    assert [] + [TelTag] == [TelTag] && [] + [f.phone] == [f.phone];
    assert [TelTag] + [EmailTag] == [TelTag, EmailTag];
    assert [f.phone] + [f.email] == [f.phone, f.email];
    assert [TelTag, EmailTag] + [OrgTag] == [TelTag, EmailTag, OrgTag];
    assert [f.phone, f.email] + [f.company] == [f.phone, f.email, f.company];
    assert [TelTag, EmailTag, OrgTag] + [TitleTag] == [TelTag, EmailTag, OrgTag, TitleTag];
    assert [f.phone, f.email, f.company] + [f.title] == [f.phone, f.email, f.company, f.title];
    assert [TelTag, EmailTag, OrgTag, TitleTag] + [AdrTag] == [TelTag, EmailTag, OrgTag, TitleTag, AdrTag];
    assert [f.phone, f.email, f.company, f.title] + [f.address] == [f.phone, f.email, f.company, f.title, f.address];
    assert [TelTag, EmailTag, OrgTag, TitleTag, AdrTag] + [UrlTag] == OptionalTags;
    assert [f.phone, f.email, f.company, f.title, f.address] + [f.website] == OptionalValues(f);
  }

  /** The handler's `vcard += …` accumulation, step by step: it yields the
      record `BuildVCard` describes, or the same error. */
  method AssembleVCard(f: VCardForm) returns (r: Result<string>)
    ensures r == BuildVCard(f)
  {
    var name := Strip(f.name);
    if name == "" {
      return Err(NameRequired);
    }
    var vcard := "BEGIN:VCARD\nVERSION:3.0\n";
    vcard := vcard + "N:" + f.lastname + ";" + name + ";;;\n";
    vcard := vcard + "FN:" + name + "\n";
    HeaderText(name, f.lastname);
    ghost var head := vcard;
    ghost var done: seq<string> := [];
    ghost var before := vcard;

    if f.phone != "" { vcard := vcard + TelTag + f.phone + "\n"; }
    FieldStep(head, before, vcard, done, TelTag, f.phone);
    done, before := done + OptionalLine(TelTag, f.phone), vcard;

    if f.email != "" { vcard := vcard + EmailTag + f.email + "\n"; }
    FieldStep(head, before, vcard, done, EmailTag, f.email);
    done, before := done + OptionalLine(EmailTag, f.email), vcard;

    if f.company != "" { vcard := vcard + OrgTag + f.company + "\n"; }
    FieldStep(head, before, vcard, done, OrgTag, f.company);
    done, before := done + OptionalLine(OrgTag, f.company), vcard;

    if f.title != "" { vcard := vcard + TitleTag + f.title + "\n"; }
    FieldStep(head, before, vcard, done, TitleTag, f.title);
    done, before := done + OptionalLine(TitleTag, f.title), vcard;

    if f.address != "" { vcard := vcard + AdrTag + f.address + "\n"; }
    FieldStep(head, before, vcard, done, AdrTag, f.address);
    done, before := done + OptionalLine(AdrTag, f.address), vcard;

    if f.website != "" { vcard := vcard + UrlTag + f.website + "\n"; }
    FieldStep(head, before, vcard, done, UrlTag, f.website);
    done, before := done + OptionalLine(UrlTag, f.website), vcard;

    if HasPhoto(f) {
      var photoPath := PhotoPath(f.photo.value);
      vcard := vcard + PhotoTag + photoPath + "\n";
    }
    PhotoStep(head, before, vcard, done, f);
    before := vcard;
    vcard := vcard + "END:VCARD";

    OptionalLinesInSteps(f);
    assert [] + OptionalLine(TelTag, f.phone) == OptionalLine(TelTag, f.phone);
    EndStep(name, f, before, vcard);
    r := Ok(vcard);
  }

  // ---------------------------------------------------------------------
  // Properties of the record

  /** The handler refuses the form, and builds no record, exactly when the
      name is blank; the refusal carries the handler's message. */
  lemma NameRequiredIff(f: VCardForm)
    ensures BuildVCard(f).Err? <==> AllSpace(f.name)
    ensures BuildVCard(f).Err? ==> BuildVCard(f).message == NameRequired
  {
    StripEmptyIff(f.name);
  }

  /** `PresentFields` lists exactly the positions of the non-empty values,
      each once, in increasing order. */
  lemma {:induction false} PresentFieldsSpec(vals: seq<string>)
    ensures forall j :: 0 <= j < |PresentFields(vals)| ==>
      PresentFields(vals)[j] < |vals| && vals[PresentFields(vals)[j]] != ""
    ensures forall j, k :: 0 <= j < k < |PresentFields(vals)| ==> PresentFields(vals)[j] < PresentFields(vals)[k]
    ensures forall i :: 0 <= i < |vals| && vals[i] != "" ==> i in PresentFields(vals)
  {
    if vals != [] {
      var n := |vals| - 1;
      var init := vals[..n];
      PresentFieldsSpec(init);
      var P, Q := PresentFields(vals), PresentFields(init);
      assert P == Q + (if vals[n] != "" then [n] else []);
      forall j | 0 <= j < |P| ensures P[j] < |vals| && vals[P[j]] != "" {
        if j < |Q| {
          assert P[j] == Q[j] && init[Q[j]] == vals[Q[j]];
        }
      }
      forall j, k | 0 <= j < k < |P| ensures P[j] < P[k] {
        if k >= |Q| {
          assert P[k] == n && P[j] == Q[j];
        }
      }
      forall i | 0 <= i < |vals| && vals[i] != "" ensures i in P {
        if i < n {
          assert init[i] == vals[i];
        } else {
          assert P[|P| - 1] == n;
        }
      }
    }
  }

  /** The optional section holds, in field order, one line `tag + value`
      for each field whose value is non-empty, and nothing else. */
  lemma {:induction false} OptionalLinesPresent(tags: seq<string>, vals: seq<string>)
    requires |tags| == |vals|
    ensures |OptionalLines(tags, vals)| == |PresentFields(vals)|
    ensures forall j :: 0 <= j < |PresentFields(vals)| ==>
      PresentFields(vals)[j] < |vals|
      && OptionalLines(tags, vals)[j] == tags[PresentFields(vals)[j]] + vals[PresentFields(vals)[j]]
  {
    if vals != [] {
      var n := |vals| - 1;
      assert tags[..n] + [tags[n]] == tags && vals[..n] + [vals[n]] == vals;
      OptionalLinesSnoc(tags[..n], vals[..n], tags[n], vals[n]);
      OptionalLinesPresent(tags[..n], vals[..n]);
    }
  }

  /** The shape of every record: the four header lines, then one line per
      non-empty optional field in field order with its value verbatim,
      then the photo line when there is a photo, then `END:VCARD`; so
      5 lines, plus one per non-empty optional field, plus one for a photo. */
  lemma CardLayout(name: string, f: VCardForm)
    ensures var lines := CardLines(name, f);
      var present := PresentFields(OptionalValues(f));
      && |lines| == 5 + |present| + (if HasPhoto(f) then 1 else 0)
      && lines[..4] == HeaderLines(name, f.lastname)
      && (forall j :: 0 <= j < |present| ==>
            present[j] < |OptionalTags|
            && lines[4 + j] == OptionalTags[present[j]] + OptionalValues(f)[present[j]])
      && (HasPhoto(f) ==> lines[|lines| - 2] == PhotoTag + PhotoPath(f.photo.value))
      && lines[|lines| - 1] == "END:VCARD"
  {
    OptionalLinesPresent(OptionalTags, OptionalValues(f));
  }

  /** The line of optional field `i` is in the record exactly when its value
      is non-empty; present lines keep the fields' relative order. */
  lemma OptionalFieldPresence(name: string, f: VCardForm, i: nat)
    requires i < |OptionalTags|
    ensures var present := PresentFields(OptionalValues(f));
      && (OptionalValues(f)[i] != "" <==> i in present)
      && (forall j :: 0 <= j < |present| && present[j] == i ==>
            4 + j < |CardLines(name, f)| && CardLines(name, f)[4 + j] == OptionalTags[i] + OptionalValues(f)[i])
      && (forall j, k :: 0 <= j < k < |present| ==> present[j] < present[k])
  {
    PresentFieldsSpec(OptionalValues(f));
    CardLayout(name, f);
  }

  /** The `PHOTO;VALUE=URI:` line is in the record exactly when a photo was
      uploaded (no other line starts with that tag). */
  lemma PhotoLineIff(name: string, f: VCardForm)
    ensures HasPhoto(f) <==> exists j :: 0 <= j < |CardLines(name, f)| && StartsWith(CardLines(name, f)[j], PhotoTag)
  {
    var lines := CardLines(name, f);
    var present := PresentFields(OptionalValues(f));
    CardLayout(name, f);
    if HasPhoto(f) {
      var j := |lines| - 2;
      assert lines[j][..|PhotoTag|] == PhotoTag;
    } else {
      forall j | 0 <= j < |lines| ensures !StartsWith(lines[j], PhotoTag) {
        if j < 4 {
          assert lines[j] == HeaderLines(name, f.lastname)[j];
          assert lines[j][0] != 'P';
        } else if j < 4 + |present| {
          var q := present[j - 4];
          assert lines[j] == OptionalTags[q] + OptionalValues(f)[q];
          assert OptionalTags[q][0] != 'P' by {
            assert q == 0 || q == 1 || q == 2 || q == 3 || q == 4 || q == 5;
          }
          assert lines[j][0] != 'P';
        } else {
          assert lines[j] == "END:VCARD";
        }
      }
    }
  }

  /** Splitting the fields at position `i`: the optional section is the
      lines before it, its own line (if any), and the lines after it. */
  lemma {:induction false} OptionalLinesSplit(tags: seq<string>, vals: seq<string>, i: nat)
    requires |tags| == |vals| && i < |vals|
    ensures OptionalLines(tags, vals) ==
      OptionalLines(tags[..i], vals[..i]) + OptionalLine(tags[i], vals[i]) + OptionalLines(tags[i + 1..], vals[i + 1..])
  {
    if i == 0 {
      assert tags[..0] == [] && vals[..0] == [];
    } else {
      var first := OptionalLine(tags[0], vals[0]);
      var own := OptionalLine(tags[i], vals[i]);
      var post := OptionalLines(tags[i + 1..], vals[i + 1..]);
      var pre := OptionalLines(tags[1..][..i - 1], vals[1..][..i - 1]);
      assert OptionalLines(tags[1..], vals[1..]) == pre + own + post by {
        OptionalLinesSplit(tags[1..], vals[1..], i - 1);
        assert tags[1..][i..] == tags[i + 1..] && vals[1..][i..] == vals[i + 1..];
      }
      assert OptionalLines(tags[..i], vals[..i]) == first + pre by {
        assert tags[..i][1..] == tags[1..][..i - 1] && vals[..i][1..] == vals[1..][..i - 1];
      }
      calc {
        OptionalLines(tags, vals);
        first + OptionalLines(tags[1..], vals[1..]);
        first + (pre + own + post);
        (first + pre) + own + post;
      }
    }
  }

  /** Emptying value `i` drops exactly the line of field `i`. */
  lemma OptionalLinesClear(tags: seq<string>, vals: seq<string>, i: nat)
    requires |tags| == |vals| && i < |vals|
    ensures OptionalLines(tags, vals[i := ""]) ==
      OptionalLines(tags[..i], vals[..i]) + OptionalLines(tags[i + 1..], vals[i + 1..])
  {
    var cleared := vals[i := ""];
    OptionalLinesSplit(tags, cleared, i);
    assert cleared[..i] == vals[..i] && cleared[i + 1..] == vals[i + 1..];
    assert OptionalLines(tags[..i], vals[..i]) + [] == OptionalLines(tags[..i], vals[..i]);
  }

  /** Leaving optional field `i` empty removes its line and changes nothing
      else: the record with the field filled is the record without it, with
      the field's line inserted at its place. */
  lemma AbsentFieldDropsOnlyItsLine(name: string, f: VCardForm, g: VCardForm, i: nat)
    requires i < |OptionalTags|
    requires g.lastname == f.lastname && g.photo == f.photo
    requires OptionalValues(g) == OptionalValues(f)[i := ""]
    ensures var m := 4 + |OptionalLines(OptionalTags[..i], OptionalValues(f)[..i])|;
      m <= |CardLines(name, g)|
      && CardLines(name, f)
         == CardLines(name, g)[..m] + OptionalLine(OptionalTags[i], OptionalValues(f)[i]) + CardLines(name, g)[m..]
  {
    var vf := OptionalValues(f);
    var pre := OptionalLines(OptionalTags[..i], vf[..i]);
    var own := OptionalLine(OptionalTags[i], vf[i]);
    var post := OptionalLines(OptionalTags[i + 1..], vf[i + 1..]);
    assert OptionalLines(OptionalTags, vf) == pre + own + post by {
      OptionalLinesSplit(OptionalTags, vf, i);
    }
    assert OptionalLines(OptionalTags, OptionalValues(g)) == pre + post by {
      OptionalLinesClear(OptionalTags, vf, i);
    }
    assert PhotoLines(g) == PhotoLines(f);
    Reinsert(HeaderLines(name, f.lastname), pre, own, post, PhotoLines(f), ["END:VCARD"]);
  }

  /** Putting `own` back between `pre` and `post` inside a longer sequence. */
  lemma Reinsert(head: seq<string>, pre: seq<string>, own: seq<string>, post: seq<string>,
                 photo: seq<string>, end: seq<string>)
    ensures var without := head + (pre + post) + photo + end;
      var m := |head| + |pre|;
      m <= |without| && head + (pre + own + post) + photo + end == without[..m] + own + without[m..]
  {
    var without := head + (pre + post) + photo + end;
    var m := |head| + |pre|;
    assert without[..m] == head + pre;
    assert without[m..] == post + photo + end;
  }

  /** Every record opens with `BEGIN:VCARD`, `VERSION:3.0`, the `N` line
      (family name, then the stripped given name) and the `FN` line, and
      closes with `END:VCARD` and no line feed after it. */
  lemma RecordFrame(f: VCardForm)
    requires BuildVCard(f).Ok?
    ensures var r := BuildVCard(f).value;
      var name := Strip(f.name);
      && StartsWith(r, "BEGIN:VCARD\nVERSION:3.0\n" + "N:" + f.lastname + ";" + name + ";;;\n" + "FN:" + name + "\n")
      && EndsWith(r, "\n" + "END:VCARD")
      && r[|r| - 1] != '\n'
  {
    var name := Strip(f.name);
    var r := BuildVCard(f).value;
    var header := HeaderLines(name, f.lastname);
    var rest := OptionalLines(OptionalTags, OptionalValues(f)) + PhotoLines(f);
    var head, mid := Terminated(header, '\n'), Terminated(rest, '\n');
    assert r == head + mid + "END:VCARD" by {
      EndStep(name, f, head + mid, head + mid + "END:VCARD");
    }
    TerminatedEndsWithSep(header, '\n');
    if rest != [] {
      TerminatedEndsWithSep(rest, '\n');
    }
    FrameText(head, mid, "END:VCARD");
    HeaderText(name, f.lastname);
  }

  /** Text made of lines that each end in a line feed, followed by a last
      piece: it starts with its first lines and ends with a line feed and
      that last piece. */
  lemma FrameText(head: string, mid: string, last: string)
    requires |head| > 0 && head[|head| - 1] == '\n'
    requires mid == [] || mid[|mid| - 1] == '\n'
    requires last != []
    ensures StartsWith(head + mid + last, head)
    ensures EndsWith(head + mid + last, "\n" + last)
    ensures (head + mid + last)[|head + mid + last| - 1] == last[|last| - 1]
  {
    var body := head + mid;
    assert head + mid + last == head + (mid + last);
    StartsWithAppend(head, mid + last);
    assert |body| > 0 && body[|body| - 1] == '\n' by {
      if mid == [] {
        assert body == head;
      }
    }
    EndsWithAppend(body, '\n', last);
  }

  /** No value the record carries verbatim (the last name, the optional
      fields, the photo filename) holds a line feed. The name is not among
      them: the record carries it stripped. */
  predicate NoLineBreaks(f: VCardForm) {
    && '\n' !in f.lastname
    && (forall i :: 0 <= i < |OptionalValues(f)| ==> '\n' !in OptionalValues(f)[i])
    && (HasPhoto(f) ==> '\n' !in f.photo.value)
  }

  lemma CardLinesNoBreaks(name: string, f: VCardForm)
    requires '\n' !in name && NoLineBreaks(f)
    ensures forall j :: 0 <= j < |CardLines(name, f)| ==> '\n' !in CardLines(name, f)[j]
  {
    var lines := CardLines(name, f);
    var present := PresentFields(OptionalValues(f));
    CardLayout(name, f);
    forall j | 0 <= j < |lines| ensures '\n' !in lines[j] {
      if j < 4 {
        assert lines[j] == HeaderLines(name, f.lastname)[j];
      } else if j < 4 + |present| {
        var p := present[j - 4];
        assert '\n' !in OptionalTags[p];
        assert '\n' !in OptionalValues(f)[p];
      }
    }
  }

  /** When neither the stripped name nor any value carried verbatim holds a
      line feed, reading the record back line by line gives exactly the
      lines `CardLines` lists, so the record has 5 lines, plus one per
      non-empty optional field, plus one for a photo. */
  lemma RecordLines(f: VCardForm)
    requires BuildVCard(f).Ok? && '\n' !in Strip(f.name) && NoLineBreaks(f)
    ensures Split(BuildVCard(f).value, '\n') == CardLines(Strip(f.name), f)
    ensures |Split(BuildVCard(f).value, '\n')|
      == 5 + |PresentFields(OptionalValues(f))| + (if HasPhoto(f) then 1 else 0)
  {
    var name := Strip(f.name);
    CardLinesNoBreaks(name, f);
    SplitJoin(CardLines(name, f), '\n');
    CardLayout(name, f);
  }

  /** Values are not escaped: a line feed inside the phone number splits
      its line in two, so the record reads back with more lines than the
      form has fields. */
  lemma UnescapedBreakAddsLines(f: VCardForm)
    requires BuildVCard(f).Ok? && '\n' in f.phone
    ensures |Split(BuildVCard(f).value, '\n')| > |CardLines(Strip(f.name), f)|
  {
    var name := Strip(f.name);
    var lines := CardLines(name, f);
    assert SumOccurrences(lines, '\n') > 0 by {
      var present := PresentFields(OptionalValues(f));
      assert exists j :: 0 <= j < |present| && present[j] == 0 by {
        OptionalFieldPresence(name, f, 0);
      }
      var j :| 0 <= j < |present| && present[j] == 0;
      assert lines[4 + j] == TelTag + f.phone by {
        CardLayout(name, f);
      }
      assert '\n' in lines[4 + j];
      SumOccurrencesAbsent(lines, '\n');
    }
    SplitJoinCount(lines, '\n');
  }
}
