/** The setup form's `handleGenerate` (components/SetupForm.tsx): the form
    fields are validated in a fixed order, the phone number is reduced to
    its digits, the table labels are expanded (numbered or one per line),
    and one code is built per label, in label order. */
module SetupForm {
  import opened Outcomes
  import opened JsString
  import opened Types
  import Link

  /** Which validation failed; the form shows one message per kind. */
  datatype ErrorKind = MissingRequired | InvalidPhoneNumber | InvalidTableCount | NoTableLabels

  /** The raw values of the form's fields, as typed. */
  datatype Form = Form(
    businessName: string,
    whatsappNumber: string,
    inputMethod: InputMethod,
    numTables: string,
    tablePrefix: string,
    tableList: string,
    customMessage: string)

  /** The fewest digits a WhatsApp number may have. */
  const MinPhoneDigits: nat := 7

  // ---------------------------------------------------------------------
  // phone number
  // ---------------------------------------------------------------------

  /** `whatsappNumber.replace(/[^0-9]/g, '')`: the number's digits, in order. */
  function CleanNumber(raw: string): (r: string)
    ensures AllDigits(r)
    ensures |r| <= |raw|
  {
    if raw == [] then []
    else (if IsDigit(raw[0]) then [raw[0]] else []) + CleanNumber(raw[1..])
  }

  /** Cleaning works piece by piece: cleaning a concatenation concatenates
      the cleaned pieces. With the one-character case (a digit is kept, any
      other character dropped), this pins the result down as exactly the
      digits of the input, in their original order. */
  lemma {:induction false} CleanNumberAppend(a: string, b: string)
    ensures CleanNumber(a + b) == CleanNumber(a) + CleanNumber(b)
  {
    if a == [] {
      assert a + b == b;
    } else {
      assert (a + b)[1..] == a[1..] + b;
      CleanNumberAppend(a[1..], b);
      var h := if IsDigit(a[0]) then [a[0]] else [];
      assert CleanNumber(a + b) == h + (CleanNumber(a[1..]) + CleanNumber(b));
    }
  }

  lemma CleanNumberChar(c: char)
    ensures CleanNumber([c]) == if IsDigit(c) then [c] else []
  {
  }

  /** A string of digits is already clean. */
  lemma {:induction false} CleanNumberOfDigits(raw: string)
    requires AllDigits(raw)
    ensures CleanNumber(raw) == raw
  {
    if raw != [] {
      CleanNumberOfDigits(raw[1..]);
      assert [raw[0]] + raw[1..] == raw;
    }
  }

  /** Cleaning is idempotent. */
  lemma CleanNumberIdempotent(raw: string)
    ensures CleanNumber(CleanNumber(raw)) == CleanNumber(raw)
  {
    CleanNumberOfDigits(CleanNumber(raw));
  }

  /** A number written with spaces, brackets and a dash. */
  lemma CleanNumberExample()
    ensures CleanNumber("+1 (234) 567-8901") == "12345678901"
  {
    SplitHintExample();
    CleanNumberPrefix();
    CleanNumberArea();
    CleanNumberExchange();
    CleanNumberOfDigits("8901");
    CleanNumberFour("+1 (", "234) ", "567-", "8901", "1", "234", "567", "8901");
    JoinHintDigits();
  }

  /** Cleaning four pieces cleans each piece. */
  lemma CleanNumberFour(a: string, b: string, c: string, d: string, ra: string, rb: string, rc: string, rd: string)
    requires CleanNumber(a) == ra && CleanNumber(b) == rb && CleanNumber(c) == rc && CleanNumber(d) == rd
    ensures CleanNumber(a + (b + (c + d))) == ra + (rb + (rc + rd))
  {
    CleanNumberAppend(a, b + (c + d));
    CleanNumberAppend(b, c + d);
    CleanNumberAppend(c, d);
  }

  // ---------------------------------------------------------------------
  // table labels
  // ---------------------------------------------------------------------

  /** Simple mode: the labels `prefix + " " + i` for `i` from 1 to `count`,
      in ascending order. The prefix is used as typed, untrimmed. */
  function SimpleLabels(prefix: string, count: nat): (r: seq<string>)
    ensures |r| == count
    ensures forall i :: 0 <= i < count ==> r[i] == prefix + " " + Decimal(i + 1)
  {
    if count == 0 then []
    else SimpleLabels(prefix, count - 1) + [prefix + " " + Decimal(count)]
  }

  /** The numbered labels are pairwise distinct, and the number after the
      prefix and the space reads back as the label's position plus one. */
  lemma SimpleLabelsNumbered(prefix: string, count: nat)
    ensures forall i :: 0 <= i < count ==>
              ParseInt(SimpleLabels(prefix, count)[i][|prefix| + 1..]) == Some(i + 1)
    ensures forall i, j :: 0 <= i < j < count ==> SimpleLabels(prefix, count)[i] != SimpleLabels(prefix, count)[j]
  {
    var r := SimpleLabels(prefix, count);
    forall i | 0 <= i < count
      ensures ParseInt(r[i][|prefix| + 1..]) == Some(i + 1)
    {
      assert r[i][|prefix| + 1..] == Decimal(i + 1) + [];
      ParseIntDecimal(i + 1, []);
    }
    forall i, j | 0 <= i < j < count
      ensures r[i] != r[j]
    {
      assert r[i][|prefix| + 1..] == Decimal(i + 1);
      assert r[j][|prefix| + 1..] == Decimal(j + 1);
      DecimalInjective(i + 1, j + 1);
    }
  }

  /** The one line kept from a list entry: its trim, unless that is empty. */
  function KeepLine(line: string): seq<string> {
    var t := Trim(line);
    if t == [] then [] else [t]
  }

  /** List mode, after the split: the lines whose trim is not empty, each
      trimmed, in their original order, duplicates kept. Every label is
      non-empty and already trimmed. */
  function KeepLabels(lines: seq<string>): (r: seq<string>)
    ensures |r| <= |lines|
    ensures forall i :: 0 <= i < |r| ==> r[i] != [] && IsTrimmed(r[i])
  {
    if lines == [] then []
    else
      KeepLine(lines[0]) + KeepLabels(lines[1..])
  }

  /** Keeping labels works line by line: the labels of two blocks of lines
      are the labels of the first block followed by those of the second.
      With KeepLine for a single line, this says the labels are exactly the
      non-blank lines, trimmed, in order, duplicates kept. */
  lemma {:induction false} KeepLabelsAppend(a: seq<string>, b: seq<string>)
    ensures KeepLabels(a + b) == KeepLabels(a) + KeepLabels(b)
  {
    if a == [] {
      assert a + b == b;
    } else {
      var h, t := a[0], a[1..];
      var k, kt, kb := KeepLine(h), KeepLabels(t), KeepLabels(b);
      ConsSplit(a, b);
      KeepCons(a + b, h, t + b);
      KeepCons(a, h, t);
      KeepLabelsAppend(t, b);
      LinesAssoc(k, kt, kb);
    }
  }

  lemma ConsSplit(a: seq<string>, b: seq<string>)
    requires a != []
    ensures a + b == [a[0]] + (a[1..] + b) && a == [a[0]] + a[1..]
  {
  }

  lemma LinesAssoc(a: seq<string>, b: seq<string>, c: seq<string>)
    ensures a + (b + c) == a + b + c
  {
  }

  /** The first line's label, then the labels of the other lines. */
  lemma KeepCons(lines: seq<string>, h: string, t: seq<string>)
    requires lines == [h] + t
    ensures KeepLabels(lines) == KeepLine(h) + KeepLabels(t)
  {
    assert lines[1..] == t;
  }

  lemma KeepLabelsOne(line: string)
    ensures KeepLabels([line]) == KeepLine(line)
    ensures KeepLabels([line]) == [] <==> AllWhitespace(line)
  {
  }

  /** List mode: the text is split on `\n` and the non-blank lines kept,
      trimmed. */
  function ListLabels(tableList: string): (r: seq<string>)
    ensures forall i :: 0 <= i < |r| ==> r[i] != [] && IsTrimmed(r[i]) && '\n' !in r[i]
  {
    var lines := Split(tableList, '\n');
    var r := KeepLabels(lines);
    KeepLabelsNoNewline(lines);
    r
  }

  lemma {:induction false} KeepLabelsNoNewline(lines: seq<string>)
    requires forall i :: 0 <= i < |lines| ==> '\n' !in lines[i]
    ensures forall i :: 0 <= i < |KeepLabels(lines)| ==> '\n' !in KeepLabels(lines)[i]
  {
    if lines != [] {
      KeepLabelsNoNewline(lines[1..]);
      var t := Trim(lines[0]);
      if t != [] {
        forall k | 0 <= k < |t|
          ensures t[k] != '\n'
        {
          TrimIsSlice(lines[0], k);
        }
      }
    }
  }

  /** Every character of a trimmed line comes from the line. */
  lemma TrimIsSlice(s: string, k: int)
    requires 0 <= k < |Trim(s)|
    ensures Trim(s)[k] in s
  {
    var a, b :| TrimmedSlice(s, a, b, Trim(s));
    assert Trim(s)[k] == s[a + k];
  }

  /** The fields that pass the first two checks. */
  predicate ContactValid(f: Form) {
    f.businessName != [] && f.whatsappNumber != [] && |CleanNumber(f.whatsappNumber)| >= MinPhoneDigits
  }

  /** The labels of the chosen mode, or the error of that mode's validation. */
  function TableLabels(f: Form): (r: Result<seq<string>, ErrorKind>)
    ensures r.Ok? ==> |r.value| > 0
    ensures r.Err? ==> r.error == (if f.inputMethod == Simple then InvalidTableCount else NoTableLabels)
  {
    match f.inputMethod
    case Simple =>
      (match ParseInt(f.numTables)
       case None => Err(InvalidTableCount)
       case Some(count) => if count <= 0 then Err(InvalidTableCount) else Ok(SimpleLabels(f.tablePrefix, count)))
    case List =>
      var labels := ListLabels(f.tableList);
      if |labels| == 0 then Err(NoTableLabels) else Ok(labels)
  }

  // ---------------------------------------------------------------------
  // code generation
  // ---------------------------------------------------------------------

  /** The code for one label: the label is kept, and the link carries the
      template filled with that label and the business name. */
  function CodeFor(digits: string, tableLabel: string, template: string, business: string): GeneratedQrCode {
    GeneratedQrCode(tableLabel, Link.BuildLink(digits, Link.Message(template, tableLabel, business)))
  }

  /** One code per label, in label order. */
  function BuildCodes(digits: string, labels: seq<string>, template: string, business: string): (r: seq<GeneratedQrCode>)
    ensures |r| == |labels|
    ensures forall i :: 0 <= i < |r| ==> r[i].tableLabel == labels[i]
  {
    seq(|labels|, i requires 0 <= i < |labels| => CodeFor(digits, labels[i], template, business))
  }

  /** The code's link, read back, names `digits` and carries the template
      filled with the code's own label and the business name. */
  predicate CarriesMessage(code: GeneratedQrCode, digits: string, template: string, business: string) {
    Link.ParseLink(code.qrValue) == Some((digits, Link.Message(template, code.tableLabel, business)))
  }

  /** Each built code reads back as the cleaned number and the message for
      its own label. */
  lemma BuildCodesParse(digits: string, labels: seq<string>, template: string, business: string)
    requires AllDigits(digits)
    ensures var r := BuildCodes(digits, labels, template, business);
            forall i :: 0 <= i < |r| ==> CarriesMessage(r[i], digits, template, business)
  {
    var r := BuildCodes(digits, labels, template, business);
    forall i | 0 <= i < |r|
      ensures CarriesMessage(r[i], digits, template, business)
    {
      Link.LinkRoundTrip(digits, Link.Message(template, labels[i], business));
    }
  }

  /** `handleGenerate`: the business name and the number must be non-empty
      as typed (a name of spaces passes), the number must have at least
      seven digits, and the chosen mode must yield at least one label;
      otherwise one error and no codes. On success there is one code per
      label, in label order. */
  function HandleGenerate(f: Form): (r: Result<seq<GeneratedQrCode>, ErrorKind>)
    ensures r == Err(MissingRequired) <==> f.businessName == [] || f.whatsappNumber == []
    ensures r.Ok? <==> ContactValid(f) && TableLabels(f).Ok?
    ensures r.Ok? ==> |r.value| == |TableLabels(f).value| > 0
    ensures r.Ok? ==> forall i :: 0 <= i < |r.value| ==> r.value[i].tableLabel == TableLabels(f).value[i]
  {
    if f.businessName == [] || f.whatsappNumber == [] then Err(MissingRequired)
    else
      var cleaned := CleanNumber(f.whatsappNumber);
      if |cleaned| < MinPhoneDigits then Err(InvalidPhoneNumber)
      else
        match TableLabels(f)
        case Err(e) => Err(e)
        case Ok(labels) =>
          Ok(BuildCodes(cleaned, labels, f.customMessage, f.businessName))
  }

  /** Every generated code's link names the cleaned number and carries the
      template filled with that code's own label and the business name. */
  lemma GeneratedLinks(f: Form)
    requires HandleGenerate(f).Ok?
    ensures var codes := HandleGenerate(f).value;
            forall i :: 0 <= i < |codes| ==>
              CarriesMessage(codes[i], CleanNumber(f.whatsappNumber), f.customMessage, f.businessName)
  {
    var cleaned := CleanNumber(f.whatsappNumber);
    var labels := TableLabels(f).value;
    assert HandleGenerate(f).value == BuildCodes(cleaned, labels, f.customMessage, f.businessName);
    BuildCodesParse(cleaned, labels, f.customMessage, f.businessName);
  }

  /** What reaches `onGenerate`: the codes when generation succeeded and the
      list is non-empty, nothing otherwise. The non-empty guard never
      rejects a successful generation. */
  function Submit(f: Form): (r: Option<seq<GeneratedQrCode>>)
    ensures r.Some? <==> HandleGenerate(f).Ok?
    ensures r.Some? ==> |r.value| > 0 && r.value == HandleGenerate(f).value
  {
    match HandleGenerate(f)
    case Err(_) => None
    case Ok(codes) => if |codes| > 0 then Some(codes) else None
  }

  // ---------------------------------------------------------------------
  // validation order and per-mode results
  // ---------------------------------------------------------------------

  /** With both fields present, a number of fewer than seven digits is
      rejected, and only such a number gets that error. */
  lemma PhoneValidation(f: Form)
    requires f.businessName != [] && f.whatsappNumber != []
    ensures HandleGenerate(f) == Err(InvalidPhoneNumber) <==> |CleanNumber(f.whatsappNumber)| < MinPhoneDigits
  {
  }

  /** Simple mode: a count that does not parse, or parses to zero or less,
      is rejected; otherwise there are exactly `count` codes labelled
      `prefix 1` up to `prefix count`, in that order. */
  lemma SimpleModeResult(f: Form)
    requires ContactValid(f) && f.inputMethod == Simple
    ensures ParseInt(f.numTables).None? ==> HandleGenerate(f) == Err(InvalidTableCount)
    ensures ParseInt(f.numTables).Some? && ParseInt(f.numTables).value <= 0 ==> HandleGenerate(f) == Err(InvalidTableCount)
    ensures ParseInt(f.numTables).Some? && ParseInt(f.numTables).value > 0 ==>
              var count := ParseInt(f.numTables).value;
              && HandleGenerate(f).Ok?
              && |HandleGenerate(f).value| == count
              && forall i :: 0 <= i < count ==> HandleGenerate(f).value[i].tableLabel == f.tablePrefix + " " + Decimal(i + 1)
  {
  }

  /** List mode: no non-blank line is rejected; otherwise the codes carry
      the non-blank lines, trimmed, in order, one code per line. */
  lemma ListModeResult(f: Form)
    requires ContactValid(f) && f.inputMethod == List
    ensures var labels := ListLabels(f.tableList);
            && (labels == [] <==> HandleGenerate(f) == Err(NoTableLabels))
            && (labels != [] ==>
                  && HandleGenerate(f).Ok?
                  && |HandleGenerate(f).value| == |labels|
                  && forall i :: 0 <= i < |labels| ==> HandleGenerate(f).value[i].tableLabel == labels[i])
  {
  }

  /** A business name made only of spaces passes the required-field check. */
  lemma WhitespaceNameAccepted(f: Form)
    requires f.businessName == "   " && f.whatsappNumber != []
    ensures HandleGenerate(f) != Err(MissingRequired)
  {
  }

  /** The list-mode example: blank and space-only lines are dropped. */
  lemma ListExample(text: string)
    requires text == "Patio - Booth 5\n\nBar Seat 1\n  \n"
    ensures ListLabels(text) == ["Patio - Booth 5", "Bar Seat 1"]
  {
    var lines := ["Patio - Booth 5", "", "Bar Seat 1", "  ", ""];
    ListExampleSplit(text, lines);
    ListExampleLines(lines);
    KeepTwoOfFive(lines);
    ListLabelsOf(text, lines, [lines[0], lines[2]]);
  }

  // ---------------------------------------------------------------------
  // helpers of the examples above: they only split literal strings and
  // lists into pieces the verifier can take one at a time
  // ---------------------------------------------------------------------

  lemma SplitHintExample()
    ensures "+1 (234) 567-8901" == "+1 (" + ("234) " + ("567-" + "8901"))
  {
  }

  lemma JoinHintDigits()
    ensures "1" + ("234" + ("567" + "8901")) == "12345678901"
  {
  }

  lemma CleanNumberPrefix()
    ensures CleanNumber("+1 (") == "1"
  {
  }

  lemma CleanNumberArea()
    ensures CleanNumber("234) ") == "234"
  {
    CleanNumberAppend("234", ") ");
    CleanNumberOfDigits("234");
  }

  lemma CleanNumberExchange()
    ensures CleanNumber("567-") == "567"
  {
    CleanNumberAppend("567", "-");
    CleanNumberOfDigits("567");
  }

  /** The example's lines: two labels, the rest blank. */
  lemma ListExampleLines(lines: seq<string>)
    requires lines == ["Patio - Booth 5", "", "Bar Seat 1", "  ", ""]
    ensures |lines| == 5
    ensures lines[0] != [] && IsTrimmed(lines[0]) && lines[2] != [] && IsTrimmed(lines[2])
    ensures AllWhitespace(lines[1]) && AllWhitespace(lines[3]) && AllWhitespace(lines[4])
  {
  }

  lemma ListLabelsOf(text: string, lines: seq<string>, labels: seq<string>)
    requires Split(text, '\n') == lines && KeepLabels(lines) == labels
    ensures ListLabels(text) == labels
  {
  }

  lemma ListExampleSplit(text: string, lines: seq<string>)
    requires text == "Patio - Booth 5\n\nBar Seat 1\n  \n"
    requires lines == ["Patio - Booth 5", "", "Bar Seat 1", "  ", ""]
    ensures Split(text, '\n') == lines
  {
    ListExampleJoin(lines);
    SplitJoin(lines, '\n');
  }

  lemma ListExampleJoin(lines: seq<string>)
    requires lines == ["Patio - Booth 5", "", "Bar Seat 1", "  ", ""]
    ensures Join(lines, '\n') == "Patio - Booth 5\n\nBar Seat 1\n  \n"
  {
    assert lines[4..] == [""];
    assert lines[3..] == ["  ", ""];
    assert lines[2..] == ["Bar Seat 1", "  ", ""];
    assert lines[1..] == ["", "Bar Seat 1", "  ", ""];
    assert Join(lines[3..], '\n') == "  " + "\n" + "";
    assert Join(lines[2..], '\n') == "Bar Seat 1" + "\n" + ("  " + "\n" + "");
    assert Join(lines[1..], '\n') == "" + "\n" + ("Bar Seat 1" + "\n" + ("  " + "\n" + ""));
    assert Join(lines, '\n') == "Patio - Booth 5" + "\n" + ("" + "\n" + ("Bar Seat 1" + "\n" + ("  " + "\n" + "")));
    assert "Patio - Booth 5" + "\n" + ("" + "\n" + ("Bar Seat 1" + "\n" + ("  " + "\n" + "")))
        == "Patio - Booth 5\n\nBar Seat 1\n  \n";
  }

  /** Two labels around three blank lines keep just the two labels. */
  lemma KeepTwoOfFive(lines: seq<string>)
    requires |lines| == 5
    requires lines[0] != [] && IsTrimmed(lines[0]) && lines[2] != [] && IsTrimmed(lines[2])
    requires AllWhitespace(lines[1]) && AllWhitespace(lines[3]) && AllWhitespace(lines[4])
    ensures KeepLabels(lines) == [lines[0], lines[2]]
  {
    KeepLineLabel(lines[0]);
    KeepLineLabel(lines[2]);
    KeepLineBlank(lines[1]);
    KeepLineBlank(lines[3]);
    KeepLineBlank(lines[4]);
    KeepStep(lines[4..]);
    assert lines[4..][1..] == [];
    KeepStep(lines[3..]);
    assert lines[3..][1..] == lines[4..];
    KeepStep(lines[2..]);
    assert lines[2..][1..] == lines[3..];
    KeepStep(lines[1..]);
    assert lines[1..][1..] == lines[2..];
    KeepStep(lines);
  }

  /** KeepLabels takes the first line's label, then the rest's. */
  lemma KeepStep(lines: seq<string>)
    requires lines != []
    ensures KeepLabels(lines) == KeepLine(lines[0]) + KeepLabels(lines[1..])
  {
  }

  lemma KeepLineLabel(line: string)
    requires line != [] && IsTrimmed(line)
    ensures KeepLine(line) == [line]
  {
    TrimOfTrimmed(line);
  }

  lemma KeepLineBlank(line: string)
    requires AllWhitespace(line)
    ensures KeepLine(line) == []
  {
  }
}
