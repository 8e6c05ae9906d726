/** The mail helper: the HTML-to-text fallback, the defaults `sendEmail`
    fills into the options it hands to the SMTP transport, the two
    convenience wrappers and the transport settings read from the
    environment. The transport itself is a parameter: the reply it gives to
    one `sendMail` call. */
module Email {
  import opened Wrappers
  import opened Js

  // ---------------------------------------------------------------------
  // htmlToText
  // ---------------------------------------------------------------------

  /** The position of the first `c` in `s`. */
  function IndexOf(s: string, c: char): (r: nat)
    requires c in s
    ensures r < |s| && s[r] == c
    ensures forall k :: 0 <= k < r ==> s[k] != c
  {
    if s[0] == c then 0
    else
      assert s == [s[0]] + s[1..];
      IndexOf(s[1..], c) + 1
  }

  /** `replace(/<[^>]*>/g, '')`: scanning left to right, a `<` that has a
      `>` somewhere after it starts a match running to the first such `>`,
      and the match is dropped; every other character is kept. */
  function StripTags(s: string): (r: string)
    ensures |r| <= |s|
    decreases |s|
  {
    if s == [] then []
    else if s[0] == '<' && '>' in s[1..] then
      var j := IndexOf(s[1..], '>');
      StripTags(s[j + 2..])
    else [s[0]] + StripTags(s[1..])
  }

  /** No `<` is followed, anywhere later, by a `>`. */
  ghost predicate NoTagSpan(r: string)
  {
    forall i, j :: 0 <= i < j < |r| && r[i] == '<' ==> r[j] != '>'
  }

  /** After tag stripping no `<` is followed later by a `>`: every span
      that the pattern could match is gone. */
  lemma {:induction false} StripTagsLeavesNoTag(s: string)
    ensures NoTagSpan(StripTags(s))
    decreases |s|
  {
    if s == [] {
    } else if s[0] == '<' && '>' in s[1..] {
      var j := IndexOf(s[1..], '>');
      StripTagsLeavesNoTag(s[j + 2..]);
    } else {
      var t := StripTags(s[1..]);
      StripTagsLeavesNoTag(s[1..]);
      if s[0] == '<' {
        StripTagsKeepsInput(s[1..]);
        forall k | 0 <= k < |t| ensures t[k] != '>' {
          assert t[k] in s[1..];
        }
      }
      NoTagCons(s[0], t);
    }
  }

  /** A character in front of text with no tag span starts none unless it
      is a `<` with a `>` after it. */
  lemma NoTagCons(c: char, t: string)
    requires NoTagSpan(t)
    requires c == '<' ==> forall k :: 0 <= k < |t| ==> t[k] != '>'
    ensures NoTagSpan([c] + t)
  {
    var r := [c] + t;
    forall i, j | 0 <= i < j < |r| && r[i] == '<' ensures r[j] != '>' {
      assert r[j] == t[j - 1];
      if i > 0 {
        assert r[i] == t[i - 1];
      }
    }
  }

  /** `r` is what remains of `s` after deleting some of its characters: the
      rest keeps its order. */
  ghost predicate Subsequence(r: string, s: string)
    decreases |s|
  {
    r == [] || (s != [] && ((r[0] == s[0] && Subsequence(r[1..], s[1..])) || Subsequence(r, s[1..])))
  }

  /** What remains of a suffix of `s` also remains of `s`. */
  lemma {:induction false} SubsequenceOfSuffix(r: string, s: string, k: nat)
    requires k <= |s| && Subsequence(r, s[k..])
    ensures Subsequence(r, s)
    decreases k
  {
    if k > 0 {
      assert s[k..] == s[1..][k - 1..];
      SubsequenceOfSuffix(r, s[1..], k - 1);
    }
  }

  /** Tag stripping only deletes: its output is the input with some
      characters removed, the others kept in their order. */
  lemma {:induction false} StripTagsSubsequence(s: string)
    ensures Subsequence(StripTags(s), s)
    decreases |s|
  {
    if s == [] {
    } else if s[0] == '<' && '>' in s[1..] {
      var j := IndexOf(s[1..], '>');
      StripTagsSubsequence(s[j + 2..]);
      SubsequenceOfSuffix(StripTags(s[j + 2..]), s, j + 2);
    } else {
      var r := StripTags(s);
      StripTagsSubsequence(s[1..]);
      assert r == [s[0]] + StripTags(s[1..]);
      assert r[0] == s[0] && r[1..] == StripTags(s[1..]);
    }
  }

  /** Every character of a subsequence of `s` occurs in `s`. */
  lemma {:induction false} SubsequenceMembers(r: string, s: string)
    requires Subsequence(r, s)
    ensures forall k :: 0 <= k < |r| ==> r[k] in s
    decreases |s|
  {
    if r != [] {
      assert s == [s[0]] + s[1..];
      if r[0] == s[0] && Subsequence(r[1..], s[1..]) {
        SubsequenceMembers(r[1..], s[1..]);
        forall k | 0 <= k < |r| ensures r[k] in s {
          if k > 0 {
            assert r[k] == r[1..][k - 1];
          }
        }
      } else {
        SubsequenceMembers(r, s[1..]);
      }
    }
  }

  /** Tag stripping only drops characters: whatever it keeps comes from the
      input. */
  lemma StripTagsKeepsInput(s: string)
    ensures forall k :: 0 <= k < |StripTags(s)| ==> StripTags(s)[k] in s
  {
    StripTagsSubsequence(s);
    SubsequenceMembers(StripTags(s), s);
  }

  /** Text with no tag span is kept as it is: no `<` in it has a `>` later
      on, so the scan never drops anything. */
  lemma {:induction false} NoTagSpanKept(s: string)
    requires NoTagSpan(s)
    ensures StripTags(s) == s
    decreases |s|
  {
    if s != [] {
      var t := s[1..];
      forall i, j | 0 <= i < j < |t| && t[i] == '<' ensures t[j] != '>' {
        assert s[i + 1] == t[i] && s[j + 1] == t[j];
      }
      if s[0] == '<' {
        forall j | 0 <= j < |t| ensures t[j] != '>' {
          assert s[j + 1] == t[j];
        }
      }
      NoTagSpanKept(t);
      assert s == [s[0]] + t;
    }
  }

  /** Tag stripping leaves text unchanged exactly when it has no tag span. */
  lemma StripTagsFixedPoint(s: string)
    ensures StripTags(s) == s <==> NoTagSpan(s)
  {
    StripTagsLeavesNoTag(s);
    if NoTagSpan(s) {
      NoTagSpanKept(s);
    }
  }

  /** A tag `<t>` whose inside holds no `>`, after text without `<`, is
      removed and the text before it kept. */
  lemma TagRemoved(before: string, inside: string, after: string)
    requires '<' !in before && '>' !in inside
    ensures StripTags(before + ("<" + inside + ">" + after)) == before + StripTags(after)
  {
    PlainPrefixKept(before, "<" + inside + ">" + after);
    TagAtStart(inside, after);
  }

  /** Text without `<` before the rest is kept as it is. */
  lemma {:induction false} PlainPrefixKept(before: string, rest: string)
    requires '<' !in before
    ensures StripTags(before + rest) == before + StripTags(rest)
    decreases |before|
  {
    if before == [] {
      assert before + rest == rest;
    } else {
      var s := before + rest;
      assert s[0] == before[0] && s[0] != '<';
      assert StripTags(s) == [s[0]] + StripTags(s[1..]);
      assert s[1..] == before[1..] + rest;
      PlainPrefixKept(before[1..], rest);
      assert [before[0]] + (before[1..] + StripTags(rest)) == before + StripTags(rest);
    }
  }

  /** A tag at the start of the text is dropped. */
  lemma TagAtStart(inside: string, after: string)
    requires '>' !in inside
    ensures StripTags("<" + inside + ">" + after) == StripTags(after)
  {
    var s := "<" + inside + ">" + after;
    var rest := s[1..];
    assert rest == inside + ">" + after;
    assert rest[|inside|] == '>';
    var j := IndexOf(rest, '>');
    assert j == |inside|;
    assert s[j + 2..] == after;
  }

  /** The entity `replace` calls, in the source's order: `&nbsp;` to a space,
      then `&amp;`, `&lt;`, `&gt;`, `&quot;` and `&#39;`. */
  function DecodeEntities(s: string): string
  {
    var s1 := ReplaceAll(s, "&nbsp;", " ");
    var s2 := ReplaceAll(s1, "&amp;", "&");
    var s3 := ReplaceAll(s2, "&lt;", "<");
    var s4 := ReplaceAll(s3, "&gt;", ">");
    var s5 := ReplaceAll(s4, "&quot;", "\"");
    ReplaceAll(s5, "&#39;", "'")
  }

  /** `htmlToText`: strip the tags, decode the entities, trim. The result has
      no white space at either end. */
  function HtmlToText(html: string): (r: string)
    ensures |r| > 0 ==> !IsWhiteSpace(r[0]) && !IsWhiteSpace(r[|r| - 1])
  {
    Trim(DecodeEntities(StripTags(html)))
  }

  /** Text without `&` has no entity to decode: every step leaves it
      alone. */
  lemma NoEntity(s: string)
    requires '&' !in s
    ensures ReplaceAll(s, "&nbsp;", " ") == s && ReplaceAll(s, "&amp;", "&") == s
    ensures ReplaceAll(s, "&lt;", "<") == s && ReplaceAll(s, "&gt;", ">") == s
    ensures ReplaceAll(s, "&quot;", "\"") == s && ReplaceAll(s, "&#39;", "'") == s
    ensures DecodeEntities(s) == s
  {
    ReplaceAllMissing(s, "&nbsp;", " ", '&');
    ReplaceAllMissing(s, "&amp;", "&", '&');
    ReplaceAllMissing(s, "&lt;", "<", '&');
    ReplaceAllMissing(s, "&gt;", ">", '&');
    ReplaceAllMissing(s, "&quot;", "\"", '&');
    ReplaceAllMissing(s, "&#39;", "'", '&');
  }

  /** Text without `<` has no tag to strip. */
  lemma NoTag(s: string)
    requires '<' !in s
    ensures StripTags(s) == s
  {
    PlainPrefixKept(s, "");
    assert s + "" == s;
  }

  /** Text holding neither `<` nor `&` comes back merely trimmed. */
  lemma PlainTextOnlyTrimmed(s: string)
    requires '<' !in s && '&' !in s
    ensures HtmlToText(s) == Trim(s)
  {
    NoTag(s);
    NoEntity(s);
  }

  /** Text with no tag span and no `&`, such as a lone `<` in a comparison,
      comes back merely trimmed. */
  lemma UnmarkedTextOnlyTrimmed(s: string)
    requires NoTagSpan(s) && '&' !in s
    ensures HtmlToText(s) == Trim(s)
  {
    NoTagSpanKept(s);
    NoEntity(s);
  }

  /** A comparison such as `3 < 5` is text, not a tag: a `<` with no `>`
      after it is kept, and text without white space at its ends comes back
      exactly. */
  lemma ComparisonKept(a: string, b: string)
    requires '>' !in a + b && '&' !in a + b
    ensures HtmlToText(a + " < " + b) == Trim(a + " < " + b)
    ensures |a| > 0 && |b| > 0 && !IsWhiteSpace(a[0]) && !IsWhiteSpace(b[|b| - 1])
            ==> HtmlToText(a + " < " + b) == a + " < " + b
  {
    var s := a + " < " + b;
    forall j | 0 <= j < |s| ensures s[j] != '>' && s[j] != '&' {
      if j < |a| {
        assert s[j] == (a + b)[j];
      } else if j >= |a| + 3 {
        assert s[j] == (a + b)[j - 3];
      }
    }
    UnmarkedTextOnlyTrimmed(s);
    if |a| > 0 && |b| > 0 && !IsWhiteSpace(a[0]) && !IsWhiteSpace(b[|b| - 1]) {
      assert s[0] == a[0] && s[|s| - 1] == b[|b| - 1];
      TrimKeeps(s);
    }
  }

  /** An entity `e` followed by text without `&` is left alone by the step
      for another entity `pat`: the two differ right after the `&`. */
  lemma Untouched(e: string, t: string, pat: string, rep: string)
    requires |e| >= 2 && |pat| >= 2 && e[0] == '&' && pat[0] == '&' && e[1] != pat[1]
    requires '&' !in e[1..] && '&' !in t
    ensures ReplaceAll(e + t, pat, rep) == e + t
  {
    ReplaceAllSkip(e, t, pat, rep, 1);
    ReplaceAllMissing(t, pat, rep, '&');
  }

  /** An entity followed by text without `&` is replaced by its step. */
  lemma Replaced(e: string, t: string, rep: string)
    requires |e| > 0 && e[0] == '&' && '&' !in t
    ensures ReplaceAll(e + t, e, rep) == rep + t
  {
    ReplaceAllLead(e, t, rep);
    ReplaceAllMissing(t, e, rep, '&');
  }

  /** Each of `&nbsp;` `&amp;` `&lt;` `&gt;` `&quot;` `&#39;`, followed by
      text without `&`, decodes to a space, `&`, `<`, `>`, `"` or `'`; for
      `&amp;` the text must also hold no `;`, or the `&` it yields could
      start a second entity. */
  lemma EntitiesDecode(t: string)
    requires '&' !in t
    ensures DecodeEntities("&nbsp;" + t) == " " + t
    ensures ';' !in t ==> DecodeEntities("&amp;" + t) == "&" + t
    ensures DecodeEntities("&lt;" + t) == "<" + t
    ensures DecodeEntities("&gt;" + t) == ">" + t
    ensures DecodeEntities("&quot;" + t) == "\"" + t
    ensures DecodeEntities("&#39;" + t) == "'" + t
  {
    DecodeNbsp(t);
    if ';' !in t {
      DecodeAmp(t);
    }
    DecodeLt(t);
    DecodeGt(t);
    DecodeQuot(t);
    DecodeApos(t);
  }

  lemma DecodeNbsp(t: string)
    requires '&' !in t
    ensures DecodeEntities("&nbsp;" + t) == " " + t
  {
    Replaced("&nbsp;", t, " ");
    NoEntity(" " + t);
  }

  lemma DecodeAmp(t: string)
    requires '&' !in t && ';' !in t
    ensures DecodeEntities("&amp;" + t) == "&" + t
  {
    Untouched("&amp;", t, "&nbsp;", " ");
    Replaced("&amp;", t, "&");
    var r := "&" + t;
    ReplaceAllMissing(r, "&lt;", "<", ';');
    ReplaceAllMissing(r, "&gt;", ">", ';');
    ReplaceAllMissing(r, "&quot;", "\"", ';');
    ReplaceAllMissing(r, "&#39;", "'", ';');
  }

  lemma DecodeLt(t: string)
    requires '&' !in t
    ensures DecodeEntities("&lt;" + t) == "<" + t
  {
    Untouched("&lt;", t, "&nbsp;", " ");
    Untouched("&lt;", t, "&amp;", "&");
    Replaced("&lt;", t, "<");
    NoEntity("<" + t);
  }

  lemma DecodeGt(t: string)
    requires '&' !in t
    ensures DecodeEntities("&gt;" + t) == ">" + t
  {
    Untouched("&gt;", t, "&nbsp;", " ");
    Untouched("&gt;", t, "&amp;", "&");
    Untouched("&gt;", t, "&lt;", "<");
    Replaced("&gt;", t, ">");
    NoEntity(">" + t);
  }

  lemma DecodeQuot(t: string)
    requires '&' !in t
    ensures DecodeEntities("&quot;" + t) == "\"" + t
  {
    Untouched("&quot;", t, "&nbsp;", " ");
    Untouched("&quot;", t, "&amp;", "&");
    Untouched("&quot;", t, "&lt;", "<");
    Untouched("&quot;", t, "&gt;", ">");
    Replaced("&quot;", t, "\"");
    ReplaceAllMissing("\"" + t, "&#39;", "'", '&');
  }

  lemma DecodeApos(t: string)
    requires '&' !in t
    ensures DecodeEntities("&#39;" + t) == "'" + t
  {
    Untouched("&#39;", t, "&nbsp;", " ");
    Untouched("&#39;", t, "&amp;", "&");
    Untouched("&#39;", t, "&lt;", "<");
    Untouched("&#39;", t, "&gt;", ">");
    Untouched("&#39;", t, "&quot;", "\"");
    Replaced("&#39;", t, "'");
  }

  /** `&amp;` is decoded before `&lt;`, so `&amp;lt;` decodes twice, to
      `<`. */
  lemma DoubleDecoding(t: string)
    requires '&' !in t
    ensures DecodeEntities("&amp;lt;" + t) == "<" + t
    ensures '<' !in t ==> HtmlToText("&amp;lt;" + t) == Trim("<" + t)
  {
    var s := "&amp;lt;" + t;
    DecodeAmpLt(t);
    if '<' !in t {
      assert '<' !in s by {
        forall k | 0 <= k < |s| ensures s[k] != '<' {
          if k >= 8 {
            assert s[k] == t[k - 8];
          }
        }
      }
      NoTag(s);
    }
  }

  lemma DecodeAmpLt(t: string)
    requires '&' !in t
    ensures DecodeEntities("&amp;lt;" + t) == "<" + t
  {
    var u := "lt;" + t;
    assert "&amp;lt;" + t == "&amp;" + u;
    Untouched("&amp;", u, "&nbsp;", " ");
    Replaced("&amp;", u, "&");
    assert "&" + u == "&lt;" + t;
    Replaced("&lt;", t, "<");
    NoEntity("<" + t);
  }

  /** Tags are stripped before entities are decoded, so escaped markup
      `&lt;…&gt;` survives as `<…>`. */
  lemma EscapedMarkupSurvives(t: string)
    requires '&' !in t && '<' !in t
    ensures HtmlToText("&lt;" + t + "&gt;") == "<" + t + ">"
  {
    var s := "&lt;" + t + "&gt;";
    assert '<' !in s;
    NoTag(s);
    EscapedMarkupDecodes(t);
    var r := "<" + t + ">";
    assert r[0] == '<' && r[|r| - 1] == '>';
    TrimKeeps(r);
  }

  lemma EscapedMarkupDecodes(t: string)
    requires '&' !in t
    ensures DecodeEntities("&lt;" + t + "&gt;") == "<" + t + ">"
  {
    var u := t + "&gt;";
    assert "&lt;" + t + "&gt;" == "&lt;" + u;
    SkipBoth(t, "&nbsp;", " ");
    SkipBoth(t, "&amp;", "&");
    ReplaceAllLead("&lt;", u, "<");
    ReplaceAllAfter(t, "&gt;", "&lt;", "<");
    Untouched("&gt;", "", "&lt;", "<");
    assert "&gt;" + "" == "&gt;";
    assert "<" + u == ("<" + t) + "&gt;";
    ReplaceAllAfter("<" + t, "&gt;", "&gt;", ">");
    Replaced("&gt;", "", ">");
    assert ">" + "" == ">";
    var r := "<" + t + ">";
    ReplaceAllMissing(r, "&quot;", "\"", '&');
    ReplaceAllMissing(r, "&#39;", "'", '&');
  }

  /** The steps for `&nbsp;` and `&amp;` leave `&lt;…&gt;` alone. */
  lemma SkipBoth(t: string, pat: string, rep: string)
    requires '&' !in t && (pat == "&nbsp;" || pat == "&amp;")
    ensures ReplaceAll("&lt;" + (t + "&gt;"), pat, rep) == "&lt;" + (t + "&gt;")
  {
    ReplaceAllSkip("&lt;", t + "&gt;", pat, rep, 1);
    ReplaceAllAfter(t, "&gt;", pat, rep);
    Untouched("&gt;", "", pat, rep);
    assert "&gt;" + "" == "&gt;";
  }

  // ---------------------------------------------------------------------
  // Transport settings and sendEmail
  // ---------------------------------------------------------------------

  /** The private environment the helper reads; an unset variable is the
      empty string. */
  datatype MailEnv = MailEnv(host: string, port: string, secure: string, user: string, pass: string, from: string)

  /** The settings handed to `createTransport`; `None` is a `NaN` port. */
  datatype TransportConfig = TransportConfig(host: string, port: Option<int>, secure: bool, user: string, pass: string)

  /** JavaScript `a || b` on strings: the empty string is falsy. */
  function OrElse(a: string, b: string): string
  {
    if a != "" then a else b
  }

  /** `a || b` where `a` may be undefined. */
  function OptionOrElse(a: Option<string>, b: string): string
  {
    OrElse(OptionOr(a, ""), b)
  }

  /** The transport settings: the port is `parseInt` of `EMAIL_PORT`, or of
      `'587'` when that is empty, and the connection is secure exactly when
      `EMAIL_SECURE` is the text `true`. */
  function Transport(env: MailEnv): (c: TransportConfig)
    ensures c.secure <==> env.secure == "true"
    ensures env.port != "" ==> c.port == ParseInt(env.port)
    ensures c.host == env.host && c.user == env.user && c.pass == env.pass
  {
    TransportConfig(env.host, ParseInt(OrElse(env.port, "587")), env.secure == "true", env.user, env.pass)
  }

  /** Without `EMAIL_PORT` the port is 587, and a port written as digits is
      read back as that number. */
  lemma TransportPort(env: MailEnv, n: nat)
    ensures env.port == "" ==> Transport(env).port == Some(587)
    ensures env.port == NatToString(n) ==> Transport(env).port == Some(n)
  {
    if env.port == "" {
      DefaultPortParses();
    } else if env.port == NatToString(n) {
      ParseIntNatToString(n);
    }
  }

  lemma DefaultPortParses()
    ensures ParseInt("587") == Some(587)
  {
    ParseIntNatToString(587);
    DefaultPortText();
  }

  lemma DefaultPortText()
    ensures NatToString(587) == "587"
  {
  }

  /** An attachment: a file name, its bytes and its content type. */
  datatype Attachment = Attachment(filename: string, content: seq<bv8>, contentType: string)

  /** The argument of `sendEmail`; `None` is a property left undefined. */
  datatype MailRequest = MailRequest(
    to: string, subject: string, html: string, text: Option<string>,
    from: Option<string>, replyTo: Option<string>, attachments: Option<seq<Attachment>>)

  /** The options handed to `sendMail`. */
  datatype MailOptions = MailOptions(
    from: string, to: string, subject: string, html: string, text: string,
    replyTo: string, attachments: seq<Attachment>)

  /** What `sendMail` did: it delivered, with an id and the server's
      response, or it threw. */
  datatype MailReply = Delivered(messageId: string, response: string) | MailFailed(message: string)

  /** What a successful `sendEmail` returns; `success` is always true. */
  datatype SendResult = SendResult(success: bool, messageId: string, response: string)

  /** One `sendEmail` call: the options it hands the transport and its
      result. */
  datatype SendRun = SendRun(options: MailOptions, result: Result<SendResult>)

  const SendFailurePrefix := "Failed to send email: "

  /** The sender when the caller gives none: `EMAIL_FROM`, or `EMAIL_USER`
      when that is empty. */
  function DefaultFrom(env: MailEnv): string
  {
    OrElse(env.from, env.user)
  }

  /** `attachments.map(...)`: each attachment copied field by field, which
      leaves the list as it was. */
  function CopyAttachments(atts: seq<Attachment>): (r: seq<Attachment>)
    ensures r == atts
  {
    if atts == [] then []
    else [Attachment(atts[0].filename, atts[0].content, atts[0].contentType)] + CopyAttachments(atts[1..])
  }

  /** The `mailOptions` literal of `sendEmail`, defaults filled in: the
      sender defaults to `EMAIL_FROM` or else `EMAIL_USER` only when none is
      given; an absent or empty text falls back to the HTML's text
      rendering; an absent or empty reply-to falls back to the sender; the
      attachments default to none. */
  function BuildOptions(env: MailEnv, req: MailRequest): (o: MailOptions)
    ensures o.to == req.to && o.subject == req.subject && o.html == req.html
    ensures req.from.Some? ==> o.from == req.from.value
    ensures req.from.None? && env.from != "" ==> o.from == env.from
    ensures req.from.None? && env.from == "" ==> o.from == env.user
    ensures (req.text.None? || req.text == Some("")) ==> o.text == HtmlToText(req.html)
    ensures req.text.Some? && req.text.value != "" ==> o.text == req.text.value
    ensures (req.replyTo.None? || req.replyTo == Some("")) ==> o.replyTo == o.from
    ensures req.replyTo.Some? && req.replyTo.value != "" ==> o.replyTo == req.replyTo.value
    ensures req.attachments.None? ==> o.attachments == []
    ensures req.attachments.Some? ==> o.attachments == req.attachments.value
  {
    var from := OptionOr(req.from, DefaultFrom(env));
    var attachments := OptionOr(req.attachments, []);
    MailOptions(from, req.to, req.subject, req.html,
                OptionOrElse(req.text, HtmlToText(req.html)),
                OptionOrElse(req.replyTo, from),
                CopyAttachments(attachments))
  }

  /** `sendEmail`: it hands the options to `sendMail` and reports success
      with the message id and response, or throws with the transport's
      message behind `Failed to send email: `. */
  function SendEmail(env: MailEnv, req: MailRequest, reply: MailReply): (run: SendRun)
    ensures run.options == BuildOptions(env, req)
    ensures run.result.Ok? <==> reply.Delivered?
    ensures reply.Delivered? ==> run.result.value == SendResult(true, reply.messageId, reply.response)
    ensures reply.MailFailed? ==> run.result == Thrown(SendFailurePrefix + reply.message)
  {
    var result := match reply
      case Delivered(id, response) => Ok(SendResult(true, id, response))
      case MailFailed(m) => Thrown(SendFailurePrefix + m);
    SendRun(BuildOptions(env, req), result)
  }

  /** `sendEmailWithAutoText`: the options spread into `sendEmail` with the
      text replaced by the HTML's text rendering. */
  function SendEmailWithAutoText(env: MailEnv, req: MailRequest, reply: MailReply): SendRun
  {
    SendEmail(env, req.(text := Some(HtmlToText(req.html))), reply)
  }

  /** `sendEmailWithAttachments`: as above, and the attachments, if absent,
      set to none. */
  function SendEmailWithAttachments(env: MailEnv, req: MailRequest, reply: MailReply): SendRun
  {
    var attachments := OptionOr(req.attachments, []);
    SendEmail(env, req.(text := Some(HtmlToText(req.html)), attachments := Some(attachments)), reply)
  }

  /** The automatic text always wins over a text the caller passes, and
      sends what `sendEmail` sends without any text. */
  lemma AutoTextDiscardsCallerText(env: MailEnv, req: MailRequest, reply: MailReply)
    ensures SendEmailWithAutoText(env, req, reply).options.text == HtmlToText(req.html)
    ensures SendEmailWithAutoText(env, req, reply) == SendEmail(env, req.(text := None), reply)
  {
  }

  /** The attachments variant sends the same as `sendEmail` given no text;
      absent attachments are sent as none. */
  lemma AttachmentsDefaultToNone(env: MailEnv, req: MailRequest, reply: MailReply)
    ensures SendEmailWithAttachments(env, req, reply) == SendEmail(env, req.(text := None), reply)
    ensures req.attachments.None? ==> SendEmailWithAttachments(env, req, reply).options.attachments == []
  {
  }
}
