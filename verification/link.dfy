/** The link builder of the setup form (components/SetupForm.tsx): the
    message is the template with its first `{table}` and then its first
    `{business}` replaced, and the link is the `wa.me` click-to-chat URL with
    the message percent-encoded in the `text` query parameter. A parser for
    such links is defined next to it as its partner. */
module Link {
  import opened Outcomes
  import opened JsString
  import Uri

  const TableToken: string := "{table}"
  const BusinessToken: string := "{business}"
  const WaPrefix: string := "https://wa.me/"
  const TextQuery: string := "?text="

  /** The outgoing message: `template.replace('{table}', tableLabel)` and then
      `.replace('{business}', business)` on that intermediate string. */
  function Message(template: string, tableLabel: string, business: string): string {
    Replace(Replace(template, TableToken, tableLabel), BusinessToken, business)
  }

  /** The click-to-chat link: the cleaned number after `https://wa.me/`, the
      encoded message after `?text=`. */
  function BuildLink(digits: string, message: string): string {
    WaPrefix + digits + TextQuery + Uri.EncodeUriComponent(message)
  }

  /** Reads a click-to-chat link back into its number and its message. */
  function ParseLink(url: string): Option<(string, string)> {
    if |url| < |WaPrefix| || url[..|WaPrefix|] != WaPrefix then None
    else
      var rest := url[|WaPrefix|..];
      var digits := LeadingDigits(rest);
      var query := rest[|digits|..];
      if |query| < |TextQuery| || query[..|TextQuery|] != TextQuery then None
      else
        match Uri.DecodeUriComponent(query[|TextQuery|..])
        case None => None
        case Some(message) => Some((digits, message))
  }

  /** Every link the builder makes for a digit string names that number and
      carries exactly that message. */
  lemma LinkRoundTrip(digits: string, message: string)
    requires AllDigits(digits)
    ensures ParseLink(BuildLink(digits, message)) == Some((digits, message))
  {
    var encoded := Uri.EncodeUriComponent(message);
    var url := BuildLink(digits, message);
    assert url[..|WaPrefix|] == WaPrefix;
    var rest := url[|WaPrefix|..];
    assert rest == digits + (TextQuery + encoded);
    LeadingDigitsOf(digits, TextQuery + encoded);
    assert rest[|digits|..] == TextQuery + encoded;
    assert (TextQuery + encoded)[|TextQuery|..] == encoded;
    Uri.UriRoundTrip(message);
  }

  /** The query part of a link never contains a second `?`, `&`, `#` or a
      space: the encoded message cannot break out of the `text` parameter. */
  lemma LinkQueryIsSafe(digits: string, message: string)
    ensures var url := BuildLink(digits, message);
            forall i :: |WaPrefix| + |digits| + |TextQuery| <= i < |url| ==>
              url[i] != '?' && url[i] != '&' && url[i] != '#' && url[i] != ' '
  {
    var encoded := Uri.EncodeUriComponent(message);
    var url := BuildLink(digits, message);
    var k := |WaPrefix| + |digits| + |TextQuery|;
    forall i | k <= i < |url|
      ensures url[i] != '?' && url[i] != '&' && url[i] != '#' && url[i] != ' '
    {
      assert url[i] == encoded[i - k];
    }
  }

  // ---------------------------------------------------------------------
  // the message template
  // ---------------------------------------------------------------------

  /** A string without `{` contains no occurrence of a token that begins
      with `{`, not even straddling into what follows it. */
  lemma NoBraceNoToken(p: string, tok: string, rest: string)
    requires '{' !in p && tok != [] && tok[0] == '{'
    ensures forall j :: 0 <= j < |p| ==> !OccursAt(p + rest, tok, j)
  {
    forall j | 0 <= j < |p|
      ensures !OccursAt(p + rest, tok, j)
    {
      assert (p + rest)[j] == p[j] != '{';
    }
  }

  /** A template with neither token is the message, verbatim. */
  lemma MessageWithoutTokens(template: string, tableLabel: string, business: string)
    requires !Contains(template, TableToken) && !Contains(template, BusinessToken)
    ensures Message(template, tableLabel, business) == template
  {
  }

  /** Replacing a token that begins with `{`, in text with no `{` before
      the token, puts the replacement where the token stood. */
  lemma ReplaceToken(p: string, tok: string, rest: string, rep: string)
    requires '{' !in p && tok != [] && tok[0] == '{' && '$' !in rep
    ensures Replace(p + tok + rest, tok, rep) == p + rep + rest
  {
    NoBraceNoToken(p, tok, tok + rest);
    assert p + tok + rest == p + (tok + rest);
    ReplaceFirst(p, tok, rest, rep);
  }

  /** Only the first `{table}` is replaced: whatever follows it, later
      `{table}` tokens included, is kept as it is. */
  lemma MessageReplacesFirstTableOnly(p: string, q: string, tableLabel: string, business: string)
    requires '{' !in p && '$' !in tableLabel
    ensures Replace(p + TableToken + q, TableToken, tableLabel) == p + tableLabel + q
  {
    ReplaceToken(p, TableToken, q, tableLabel);
  }

  /** Text assembled from pieces without `{` holds neither token. */
  lemma NoTokensLeft(a: string, b: string, c: string, d: string, e: string)
    requires '{' !in a && '{' !in b && '{' !in c && '{' !in d && '{' !in e
    ensures !Contains(a + b + c + d + e, TableToken)
    ensures !Contains(a + b + c + d + e, BusinessToken)
  {
    NoBraceString(a, b, c);
    NoBraceString(a + b + c, d, e);
    NoBraceNoContains(a + b + c + d + e, TableToken);
    NoBraceNoContains(a + b + c + d + e, BusinessToken);
  }

  /** A template holding `{table}` and then `{business}`, with no other `{`
      anywhere and no `{` or `$` in the label or the name, yields the
      template's text around them with the label and the name in place, and
      no token remains. */
  lemma MessageTableThenBusiness(p: string, q: string, w: string, tableLabel: string, business: string)
    requires '{' !in p && '{' !in q && '{' !in w
    requires '{' !in tableLabel && '{' !in business && '$' !in tableLabel && '$' !in business
    ensures Message(p + TableToken + q + BusinessToken + w, tableLabel, business) == p + tableLabel + q + business + w
    ensures !Contains(p + tableLabel + q + business + w, TableToken)
    ensures !Contains(p + tableLabel + q + business + w, BusinessToken)
  {
    assert p + TableToken + q + BusinessToken + w == p + TableToken + (q + BusinessToken + w);
    ReplaceToken(p, TableToken, q + BusinessToken + w, tableLabel);
    var mid := p + tableLabel + q;
    assert p + tableLabel + (q + BusinessToken + w) == mid + BusinessToken + w;
    NoBraceString(p, tableLabel, q);
    ReplaceToken(mid, BusinessToken, w, business);
    NoTokensLeft(p, tableLabel, q, business, w);
  }

  /** The same with `{business}` before `{table}` in the template. */
  lemma MessageBusinessThenTable(p: string, q: string, w: string, tableLabel: string, business: string)
    requires '{' !in p && '{' !in q && '{' !in w
    requires '{' !in tableLabel && '{' !in business && '$' !in tableLabel && '$' !in business
    ensures Message(p + BusinessToken + q + TableToken + w, tableLabel, business) == p + business + q + tableLabel + w
    ensures !Contains(p + business + q + tableLabel + w, TableToken)
    ensures !Contains(p + business + q + tableLabel + w, BusinessToken)
  {
    BusinessThenTableFirstStep(p, q, w, tableLabel);
    ReplaceToken(p, BusinessToken, q + tableLabel + w, business);
    assert p + business + (q + tableLabel + w) == p + business + q + tableLabel + w;
    NoTokensLeft(p, business, q, tableLabel, w);
  }

  /** With `{business}` first, replacing `{table}` touches only the token
      after it. */
  lemma BusinessThenTableFirstStep(p: string, q: string, w: string, tableLabel: string)
    requires '{' !in p && '{' !in q && '$' !in tableLabel
    ensures Replace(p + BusinessToken + q + TableToken + w, TableToken, tableLabel) == p + BusinessToken + (q + tableLabel + w)
  {
    var head := p + BusinessToken + q;
    TableAfterBusiness(p, q, w);
    ReplaceFirst(head, TableToken, w, tableLabel);
    assert head + tableLabel + w == p + BusinessToken + (q + tableLabel + w);
  }

  /** When `{business}` comes first and no other `{` precedes `{table}`,
      the first `{table}` is the one after `{business}`. */
  lemma TableAfterBusiness(p: string, q: string, w: string)
    requires '{' !in p && '{' !in q
    ensures forall j :: 0 <= j < |p + BusinessToken + q| ==>
              !OccursAt(p + BusinessToken + q + TableToken + w, TableToken, j)
  {
    var head := p + BusinessToken + q;
    var s := head + TableToken + w;
    forall j | 0 <= j < |head|
      ensures !OccursAt(s, TableToken, j)
    {
      if j + |TableToken| <= |s| {
        var k := if j == |p| then j + 1 else j;
        assert s[k] != TableToken[k - j] by {
          if j < |p| {
            assert s[j] == p[j];
          } else if j == |p| {
            assert s[k] == BusinessToken[1];
          } else if j < |p| + |BusinessToken| {
            assert s[j] == BusinessToken[j - |p|];
          } else {
            assert s[j] == q[j - |p| - |BusinessToken|];
          }
        }
        assert s[j..j + |TableToken|][k - j] == s[k];
      }
    }
  }

  // ---------------------------------------------------------------------
  // a placeholder inside the label
  // ---------------------------------------------------------------------

  /** The second `replace` scans the label the first one put in: a label
      that itself starts with `{business}` receives the name, and the
      template's own `{business}` is left in the message. */
  lemma LabelTokenExpanded(p: string, s: string, q: string, r: string, business: string)
    requires '{' !in p && '$' !in s && '$' !in business
    ensures Message(p + TableToken + q + BusinessToken + r, BusinessToken + s, business)
            == p + business + s + q + BusinessToken + r
  {
    var tagged, after := BusinessToken + s, q + (BusinessToken + r);
    var template := p + TableToken + q + BusinessToken + r;
    assert Replace(template, TableToken, tagged) == p + BusinessToken + (s + after) by {
      Nest(p, TableToken, q, BusinessToken, r);
      Assoc(p, TableToken, after);
      ReplaceToken(p, TableToken, after, tagged);
      Shift(p, BusinessToken, s, after);
    }
    assert Replace(p + BusinessToken + (s + after), BusinessToken, business) == p + business + (s + after) by {
      ReplaceToken(p, BusinessToken, s + after, business);
    }
    Unnest(p + business, s, q, BusinessToken, r);
  }

  lemma Shift(a: string, b: string, c: string, d: string)
    ensures a + (b + c) + d == a + b + (c + d)
  {
  }

  lemma Unnest(a: string, b: string, c: string, d: string, e: string)
    ensures a + (b + (c + (d + e))) == a + b + c + d + e
  {
  }

  /** The table prefix `{business}` with the template
      `At {table} of {business}` and the name `Cafe`: the message reads
      `At Cafe VIP of {business}`, the name in the label's place and the
      template's placeholder unfilled. */
  lemma PlaceholderInLabel()
    ensures Message("At {table} of {business}", "{business} VIP", "Cafe") == "At Cafe VIP of {business}"
  {
    PlaceholderPieces();
    LabelTokenExpanded("At ", " VIP", " of ", "", "Cafe");
  }

  /** The literal strings of PlaceholderInLabel, split at the placeholders
      for the verifier. */
  lemma PlaceholderPieces()
    ensures "At {table} of {business}" == "At " + TableToken + " of " + BusinessToken + ""
    ensures "{business} VIP" == BusinessToken + " VIP"
    ensures "At Cafe VIP of {business}" == "At " + "Cafe" + " VIP" + " of " + BusinessToken + ""
  {
  }

  // ---------------------------------------------------------------------
  // the message with each placeholder filled in once, in the template
  // ---------------------------------------------------------------------

  /** Fills the first `{table}` and the first `{business}` of the template
      itself, copying the label and the name in without scanning them
      again. The flags say which placeholder is already filled. */
  function Fill(s: string, tableLabel: string, business: string, tableDone: bool, businessDone: bool): string
    decreases |s|
  {
    if s == [] then []
    else if !tableDone && OccursAt(s, TableToken, 0) then
      tableLabel + Fill(s[|TableToken|..], tableLabel, business, true, businessDone)
    else if !businessDone && OccursAt(s, BusinessToken, 0) then
      business + Fill(s[|BusinessToken|..], tableLabel, business, tableDone, true)
    else [s[0]] + Fill(s[1..], tableLabel, business, tableDone, businessDone)
  }

  function CorrectedMessage(template: string, tableLabel: string, business: string): string {
    Fill(template, tableLabel, business, false, false)
  }

  /** Text without `{` is copied through unchanged. */
  lemma {:induction false} FillSkips(p: string, rest: string, tableLabel: string, business: string, t: bool, b: bool)
    requires '{' !in p
    ensures Fill(p + rest, tableLabel, business, t, b) == p + Fill(rest, tableLabel, business, t, b)
  {
    if p == [] {
      assert p + rest == rest;
    } else {
      var s, c, f := p + rest, [p[0]], Fill(rest, tableLabel, business, t, b);
      assert s[0] == p[0] && s[1..] == p[1..] + rest;
      assert Fill(s, tableLabel, business, t, b) == c + Fill(p[1..] + rest, tableLabel, business, t, b) by {
        NotAtBrace(s, TableToken);
        NotAtBrace(s, BusinessToken);
      }
      FillSkips(p[1..], rest, tableLabel, business, t, b);
      Assoc(c, p[1..], f);
      assert c + p[1..] == p;
    }
  }

  /** A token that begins with `{` does not start where `{` is not. */
  lemma NotAtBrace(s: string, tok: string)
    requires s != [] && s[0] != '{' && tok != [] && tok[0] == '{'
    ensures !OccursAt(s, tok, 0)
  {
    if |tok| <= |s| {
      assert s[0..|tok|][0] == s[0] != tok[0];
    }
  }

  /** A token followed by more text starts there, and after it comes the
      rest. */
  lemma AtToken(tok: string, rest: string)
    ensures OccursAt(tok + rest, tok, 0)
    ensures (tok + rest)[|tok|..] == rest
  {
    assert (tok + rest)[0..|tok|] == tok;
  }

  /** With both placeholders filled, the rest of the template is copied. */
  lemma {:induction false} FillDone(s: string, tableLabel: string, business: string)
    ensures Fill(s, tableLabel, business, true, true) == s
  {
    if s != [] {
      FillDone(s[1..], tableLabel, business);
      assert [s[0]] + s[1..] == s;
    }
  }

  /** Five pieces concatenated, nested to the right. */
  lemma Nest(a: string, b: string, c: string, d: string, e: string)
    ensures a + b + c + d + e == a + (b + (c + (d + e)))
  {
  }

  /** The intended message for a template with `{table}` before
      `{business}`: the label and the name in place, whatever they contain. */
  lemma CorrectedTableThenBusiness(p: string, q: string, r: string, tableLabel: string, business: string)
    requires '{' !in p && '{' !in q
    ensures CorrectedMessage(p + TableToken + q + BusinessToken + r, tableLabel, business)
            == p + tableLabel + q + business + r
  {
    var tail := BusinessToken + r;
    assert Fill(tail, tableLabel, business, true, false) == business + r by {
      AtToken(BusinessToken, r);
      FillDone(r, tableLabel, business);
    }
    assert Fill(q + tail, tableLabel, business, true, false) == q + (business + r) by {
      FillSkips(q, tail, tableLabel, business, true, false);
    }
    var mid := TableToken + (q + tail);
    assert Fill(mid, tableLabel, business, false, false) == tableLabel + (q + (business + r)) by {
      AtToken(TableToken, q + tail);
    }
    assert Fill(p + mid, tableLabel, business, false, false) == p + (tableLabel + (q + (business + r))) by {
      FillSkips(p, mid, tableLabel, business, false, false);
    }
    Nest(p, TableToken, q, BusinessToken, r);
    Nest(p, tableLabel, q, business, r);
  }

  /** The same with `{business}` before `{table}`. */
  lemma CorrectedBusinessThenTable(p: string, q: string, r: string, tableLabel: string, business: string)
    requires '{' !in p && '{' !in q
    ensures CorrectedMessage(p + BusinessToken + q + TableToken + r, tableLabel, business)
            == p + business + q + tableLabel + r
  {
    var tail := TableToken + r;
    assert Fill(tail, tableLabel, business, false, true) == tableLabel + r by {
      AtToken(TableToken, r);
      FillDone(r, tableLabel, business);
    }
    assert Fill(q + tail, tableLabel, business, false, true) == q + (tableLabel + r) by {
      FillSkips(q, tail, tableLabel, business, false, true);
    }
    var mid := BusinessToken + (q + tail);
    assert Fill(mid, tableLabel, business, false, false) == business + (q + (tableLabel + r)) by {
      BusinessNotTable(q + tail);
      AtToken(BusinessToken, q + tail);
    }
    assert Fill(p + mid, tableLabel, business, false, false) == p + (business + (q + (tableLabel + r))) by {
      FillSkips(p, mid, tableLabel, business, false, false);
    }
    Nest(p, BusinessToken, q, TableToken, r);
    Nest(p, business, q, tableLabel, r);
  }

  /** `{table}` does not start where `{business}` does. */
  lemma BusinessNotTable(rest: string)
    ensures !OccursAt(BusinessToken + rest, TableToken, 0)
  {
    var s := BusinessToken + rest;
    assert s[0..|TableToken|][1] == s[1] == BusinessToken[1] != TableToken[1];
  }

  /** Where the label and the name hold no `{` or `$`, the two `replace`
      calls already give the intended message. */
  lemma CorrectedAgrees(p: string, q: string, r: string, tableLabel: string, business: string)
    requires '{' !in p && '{' !in q && '{' !in r
    requires '{' !in tableLabel && '{' !in business && '$' !in tableLabel && '$' !in business
    ensures CorrectedMessage(p + TableToken + q + BusinessToken + r, tableLabel, business)
            == Message(p + TableToken + q + BusinessToken + r, tableLabel, business)
    ensures CorrectedMessage(p + BusinessToken + q + TableToken + r, tableLabel, business)
            == Message(p + BusinessToken + q + TableToken + r, tableLabel, business)
  {
    CorrectedTableThenBusiness(p, q, r, tableLabel, business);
    MessageTableThenBusiness(p, q, r, tableLabel, business);
    CorrectedBusinessThenTable(p, q, r, tableLabel, business);
    MessageBusinessThenTable(p, q, r, tableLabel, business);
  }

  /** The label `{business} VIP` keeps its text and the template's own
      `{business}` receives the name. */
  lemma CorrectedPlaceholderInLabel()
    ensures CorrectedMessage("At {table} of {business}", "{business} VIP", "Cafe") == "At {business} VIP of Cafe"
  {
    PlaceholderPieces();
    CorrectedTableThenBusiness("At ", " of ", "", "{business} VIP", "Cafe");
    assert "At {business} VIP of Cafe" == "At " + "{business} VIP" + " of " + "Cafe" + "";
  }

  lemma NoBraceString(a: string, b: string, c: string)
    requires '{' !in a && '{' !in b && '{' !in c
    ensures '{' !in a + b + c
  {
  }

  /** No token can occur in a string without `{`. */
  lemma NoBraceNoContains(s: string, tok: string)
    requires '{' !in s && tok != [] && tok[0] == '{'
    ensures !Contains(s, tok)
  {
    NoBraceNoToken(s, tok, []);
    assert s + [] == s;
  }
}
