/** The export side of the results screen (components/ResultsScreen.tsx):
    every card renders its QR symbol into a canvas whose DOM id is derived
    from the slug of its table label; the card's Save button and Save-All
    find canvases by that id and name the PNG files by the same slug.

    A canvas is modelled by its id and the link its symbol encodes (the
    picture is a function of that link), and the page by its canvases in
    card order. `document.getElementById` answers with the first canvas
    carrying the id. Because `slugify` is not injective, two cards can share
    an id; the functions below reproduce what happens then, and the
    `Corrected` members give index-keyed ids and archive names for which
    every card exports its own symbol. */
module ResultsScreen {
  import opened Outcomes
  import opened JsString
  import opened Types
  import opened Slug
  import opened Occurrences

  const CanvasPrefix: string := "qr-canvas-"
  const PngSuffix: string := ".png"
  const ArchiveName: string := "qr-codes.zip"

  /** A canvas on the page: its DOM id and the link its symbol encodes. */
  datatype Canvas = Canvas(id: string, qrValue: string)

  /** A saved PNG: the file name and the link its picture encodes. */
  datatype SavedImage = SavedImage(fileName: string, qrValue: string)

  /** The zip handed to `saveAs`: its name and its entries, file name to
      the link the entry's picture encodes. */
  datatype Archive = Archive(name: string, entries: map<string, string>)

  /** Why Save-All stopped before building an archive. */
  datatype SaveAllError = LibrariesMissing

  // ---------------------------------------------------------------------
  // ids and file names
  // ---------------------------------------------------------------------

  /** `downloadId`: the id of a card's canvas, also looked up by Save-All. */
  function CanvasId(tableLabel: string): string {
    CanvasPrefix + Slugify(tableLabel)
  }

  /** The PNG name of a card, for Save and for the Save-All entry. */
  function ImageFileName(tableLabel: string): string {
    Slugify(tableLabel) + PngSuffix
  }

  /** Two cards get the same canvas id exactly when their labels have the
      same slug. */
  lemma CanvasIdCollision(a: string, b: string)
    ensures CanvasId(a) == CanvasId(b) <==> Slugify(a) == Slugify(b)
  {
    if CanvasId(a) == CanvasId(b) {
      assert Slugify(a) == CanvasId(a)[|CanvasPrefix|..];
    }
  }

  /** Two cards get the same file name exactly when their labels have the
      same slug. */
  lemma FileNameCollision(a: string, b: string)
    ensures ImageFileName(a) == ImageFileName(b) <==> Slugify(a) == Slugify(b)
  {
    if ImageFileName(a) == ImageFileName(b) {
      assert Slugify(a) == ImageFileName(a)[..|ImageFileName(a)| - |PngSuffix|];
    }
  }

  /** A label without letters, digits or underscores is saved as `.png`. */
  lemma PunctuationFileName(tableLabel: string)
    requires forall i :: 0 <= i < |tableLabel| ==>
               !IsWordChar(tableLabel[i]) && tableLabel[i] != '\U{0130}' && tableLabel[i] != '\U{212A}'
    ensures ImageFileName(tableLabel) == ".png"
  {
    PunctuationSlugIsEmpty(tableLabel);
  }

  // ---------------------------------------------------------------------
  // the page and getElementById
  // ---------------------------------------------------------------------

  /** The slug of every code's label, in code order. */
  function Slugs(codes: seq<GeneratedQrCode>): seq<string> {
    seq(|codes|, i requires 0 <= i < |codes| => Slugify(codes[i].tableLabel))
  }

  /** The file name of every code, in code order. */
  function FileNames(codes: seq<GeneratedQrCode>): seq<string> {
    seq(|codes|, i requires 0 <= i < |codes| => ImageFileName(codes[i].tableLabel))
  }

  /** The rendered grid: one canvas per code, in code order. */
  function Page(codes: seq<GeneratedQrCode>): seq<Canvas> {
    seq(|codes|, i requires 0 <= i < |codes| => Canvas(CanvasId(codes[i].tableLabel), codes[i].qrValue))
  }

  function Ids(page: seq<Canvas>): seq<string> {
    seq(|page|, i requires 0 <= i < |page| => page[i].id)
  }

  /** Canvas ids and file names are the slugs with a fixed prefix or
      suffix, so they repeat exactly where the slugs repeat. */
  lemma PageKeys(codes: seq<GeneratedQrCode>)
    ensures Ids(Page(codes)) == Prefixed(CanvasPrefix, Slugs(codes))
    ensures FileNames(codes) == Suffixed(Slugs(codes), PngSuffix)
  {
  }

  /** Two codes share a file name exactly when they share a slug, so the
      file names are distinct exactly when the slugs are. */
  lemma FileNamesFollowSlugs(codes: seq<GeneratedQrCode>)
    ensures |FileNames(codes)| == |Slugs(codes)| && SameEqualities(FileNames(codes), Slugs(codes))
    ensures Distinct(FileNames(codes)) <==> Distinct(Slugs(codes))
  {
    PageKeys(codes);
    DistinctTransfer(FileNames(codes), Slugs(codes));
  }

  /** `document.getElementById`: the position of the first canvas with
      that id, or none. */
  function GetElementById(page: seq<Canvas>, id: string): (r: Option<nat>)
    ensures r.Some? ==> r.value < |page| && page[r.value].id == id
    ensures r.Some? ==> forall j :: 0 <= j < r.value ==> page[j].id != id
    ensures r.None? <==> forall j :: 0 <= j < |page| ==> page[j].id != id
  {
    if page == [] then None
    else if page[0].id == id then Some(0)
    else
      match GetElementById(page[1..], id)
      case None => None
      case Some(k) => Some(k + 1)
  }

  /** Looking up the id of the canvas at `k` finds the first canvas with
      that id. */
  lemma LookupFirst(page: seq<Canvas>, k: nat)
    requires k < |page|
    ensures GetElementById(page, page[k].id) == Some(FirstOccurrence(Ids(page), k))
  {
    var ids := Ids(page);
    var j := GetElementById(page, page[k].id).value;
    var f := FirstOccurrence(ids, k);
    assert ids[j] == ids[k] && ids[f] == ids[k];
    assert page[f].id == page[k].id;
    assert j >= f && f >= j;
  }

  /** Looking up a card's canvas id finds the canvas of the first card
      whose label has the same slug. */
  lemma LookupFindsFirst(codes: seq<GeneratedQrCode>, k: nat)
    requires k < |codes|
    ensures GetElementById(Page(codes), CanvasId(codes[k].tableLabel)) == Some(FirstOccurrence(Slugs(codes), k))
  {
    PageKeys(codes);
    LookupFirst(Page(codes), k);
    FirstOccurrenceTransfer(Ids(Page(codes)), Slugs(codes), k);
  }

  // ---------------------------------------------------------------------
  // Save on one card
  // ---------------------------------------------------------------------

  /** `handleSaveIndividual` of card `k`, as written: the canvas found by
      the card's id is saved under the card's file name. The picture is
      that of the first card sharing the slug, which need not be card `k`. */
  function SaveIndividual(codes: seq<GeneratedQrCode>, k: nat): (r: Option<SavedImage>)
    requires k < |codes|
    ensures r == Some(SavedImage(ImageFileName(codes[k].tableLabel), codes[FirstOccurrence(Slugs(codes), k)].qrValue))
  {
    var page := Page(codes);
    LookupFindsFirst(codes, k);
    match GetElementById(page, CanvasId(codes[k].tableLabel))
    case None => None
    case Some(j) => Some(SavedImage(ImageFileName(codes[k].tableLabel), page[j].qrValue))
  }

  /** When no earlier card shares its slug, a card saves its own symbol. */
  lemma SaveIndividualOwnImage(codes: seq<GeneratedQrCode>, k: nat)
    requires k < |codes|
    requires forall j :: 0 <= j < k ==> Slugify(codes[j].tableLabel) != Slugify(codes[k].tableLabel)
    ensures SaveIndividual(codes, k) == Some(SavedImage(ImageFileName(codes[k].tableLabel), codes[k].qrValue))
  {
    FirstOccurrenceSelf(Slugs(codes), k);
  }

  /** Of two cards whose labels share a slug, Save on the second saves
      the first card's symbol under the second card's file name. */
  lemma SaveSecondOfPair(a: string, b: string, v1: string, v2: string)
    requires Slugify(a) == Slugify(b)
    ensures SaveIndividual([GeneratedQrCode(a, v1), GeneratedQrCode(b, v2)], 1) == Some(SavedImage(ImageFileName(b), v1))
  {
    var slugs := Slugs([GeneratedQrCode(a, v1), GeneratedQrCode(b, v2)]);
    assert slugs[0] == slugs[1];
  }

  /** "Table #1" and "Table 1" are both saved as `table-1.png`. */
  lemma CollisionFileName(a: string, b: string)
    requires a == "Table #1" && b == "Table 1"
    ensures ImageFileName(a) == ImageFileName(b) == "table-1.png"
  {
    SlugCollision(a, b);
    FileNameOfSlug(a, "table-1");
    FileNameOfSlug(b, "table-1");
    CollisionName();
  }

  lemma CollisionName()
    ensures "table-1" + PngSuffix == "table-1.png"
  {
  }

  lemma FileNameOfSlug(tableLabel: string, slug: string)
    requires Slugify(tableLabel) == slug
    ensures ImageFileName(tableLabel) == slug + PngSuffix
  {
  }

  /** Two cards labelled "Table #1" and "Table 1" with different links:
      Save on the second writes `table-1.png` holding the FIRST card's
      link. */
  lemma SaveIndividualWrongImage(a: string, b: string, v1: string, v2: string)
    requires a == "Table #1" && b == "Table 1" && v1 != v2
    ensures SaveIndividual([GeneratedQrCode(a, v1), GeneratedQrCode(b, v2)], 1) == Some(SavedImage("table-1.png", v1))
  {
    SlugCollision(a, b);
    SaveSecondOfPair(a, b, v1, v2);
    CollisionFileName(a, b);
  }

  /** The index-keyed canvas id: card `k` renders into `qr-canvas-k`. */
  function CorrectedCanvasId(k: nat): string {
    CanvasPrefix + Decimal(k)
  }

  function CorrectedPage(codes: seq<GeneratedQrCode>): seq<Canvas> {
    seq(|codes|, i requires 0 <= i < |codes| => Canvas(CorrectedCanvasId(i), codes[i].qrValue))
  }

  /** Save on card `k` with index-keyed canvases: always the card's own
      symbol, under the card's file name. */
  function CorrectedSaveIndividual(codes: seq<GeneratedQrCode>, k: nat): (r: Option<SavedImage>)
    requires k < |codes|
    ensures r == Some(SavedImage(ImageFileName(codes[k].tableLabel), codes[k].qrValue))
  {
    var page := CorrectedPage(codes);
    CorrectedLookup(codes, k);
    match GetElementById(page, CorrectedCanvasId(k))
    case None => None
    case Some(j) => Some(SavedImage(ImageFileName(codes[k].tableLabel), page[j].qrValue))
  }

  /** Index-keyed ids are distinct, so the lookup finds the card itself. */
  lemma CorrectedLookup(codes: seq<GeneratedQrCode>, k: nat)
    requires k < |codes|
    ensures GetElementById(CorrectedPage(codes), CorrectedCanvasId(k)) == Some(k)
  {
    var page := CorrectedPage(codes);
    assert page[k].id == CorrectedCanvasId(k);
    var j := GetElementById(page, CorrectedCanvasId(k)).value;
    assert Decimal(j) == Decimal(k) by {
      assert page[j].id == CanvasPrefix + Decimal(j);
      assert Decimal(j) == page[j].id[|CanvasPrefix|..];
    }
    DecimalInjective(j, k);
  }

  // ---------------------------------------------------------------------
  // Save-All
  // ---------------------------------------------------------------------

  /** `handleSaveAll`: without JSZip or saveAs nothing is built; otherwise
      each code in turn has its canvas looked up by id and added under its
      file name, a later entry of the same name replacing an earlier one,
      and the archive is named `qr-codes.zip`. The entry names are the
      codes' file names; every entry holds the symbol of the first code
      with that slug; no two codes sharing a slug means one entry per
      code, and otherwise there are fewer. */
  method HandleSaveAll(codes: seq<GeneratedQrCode>, jsZipLoaded: bool, saveAsLoaded: bool)
    returns (r: Result<Archive, SaveAllError>)
    ensures r.Err? <==> !jsZipLoaded || !saveAsLoaded
    ensures r.Err? ==> r.error == LibrariesMissing
    ensures r.Ok? ==> r.value.name == ArchiveName
    ensures r.Ok? ==> r.value.entries.Keys == Elements(FileNames(codes))
    ensures r.Ok? ==> forall k :: 0 <= k < |codes| ==>
              r.value.entries[FileNames(codes)[k]] == codes[FirstOccurrence(Slugs(codes), k)].qrValue
    ensures r.Ok? ==> |r.value.entries| <= |codes|
    ensures r.Ok? ==> (|r.value.entries| == |codes| <==> Distinct(Slugs(codes)))
  {
    if !jsZipLoaded || !saveAsLoaded {
      return Err(LibrariesMissing);
    }
    var page := Page(codes);
    // The id looked up and the entry name of each code, in code order.
    var ids := Ids(page);
    var names := FileNames(codes);
    SaveAllInputs(codes);
    var zip := CollectEntries(page, ids, names);
    SaveAllOutputs(codes, zip);
    return Ok(Archive(ArchiveName, zip));
  }

  /** On the rendered page, every card's id finds the first card with its
      file name, which is the first card with its slug. */
  lemma SaveAllInputs(codes: seq<GeneratedQrCode>)
    ensures forall i :: 0 <= i < |codes| ==>
              GetElementById(Page(codes), Ids(Page(codes))[i]) == Some(FirstOccurrence(FileNames(codes), i))
  {
    var page, ids := Page(codes), Ids(Page(codes));
    forall i | 0 <= i < |codes|
      ensures GetElementById(page, ids[i]) == Some(FirstOccurrence(FileNames(codes), i))
    {
      assert ids[i] == CanvasId(codes[i].tableLabel);
      LookupFindsFirst(codes, i);
      FileNamesFollowSlugs(codes);
      FirstOccurrenceTransfer(FileNames(codes), Slugs(codes), i);
    }
  }

  /** Entries keyed by the file names, each holding the picture of the
      first card with its name, hold the links of the first codes with each
      slug, and there are as many entries as codes exactly when no slug
      repeats. */
  lemma SaveAllOutputs(codes: seq<GeneratedQrCode>, zip: map<string, string>)
    requires zip.Keys == Elements(FileNames(codes))
    requires forall k :: 0 <= k < |codes| ==>
               FileNames(codes)[k] in zip && zip[FileNames(codes)[k]] == Page(codes)[FirstOccurrence(FileNames(codes), k)].qrValue
    ensures forall k :: 0 <= k < |codes| ==> zip[FileNames(codes)[k]] == codes[FirstOccurrence(Slugs(codes), k)].qrValue
    ensures |zip| <= |codes|
    ensures |zip| == |codes| <==> Distinct(Slugs(codes))
  {
    forall k | 0 <= k < |codes|
      ensures zip[FileNames(codes)[k]] == codes[FirstOccurrence(Slugs(codes), k)].qrValue
    {
      FileNamesFollowSlugs(codes);
      FirstOccurrenceTransfer(FileNames(codes), Slugs(codes), k);
      var f := FirstOccurrence(Slugs(codes), k);
      assert Page(codes)[f].qrValue == codes[f].qrValue;
    }
    ArchiveSize(codes);
    assert |zip| == |zip.Keys|;
  }

  /** There are never more distinct file names than codes, and as many
      exactly when no slug repeats. */
  lemma ArchiveSize(codes: seq<GeneratedQrCode>)
    ensures |Elements(FileNames(codes))| <= |codes|
    ensures |Elements(FileNames(codes))| == |codes| <==> Distinct(Slugs(codes))
  {
    ElementsSize(FileNames(codes));
    FileNamesFollowSlugs(codes);
  }

  /** The loop of Save-All: card `i`'s id is looked up on the page, and the
      picture of the canvas found is stored under name `i`, a later entry of
      the same name replacing an earlier one. When every lookup finds the
      first card with the same name, the entries are keyed by the names and
      each holds the picture of the first card with that name. */
  method CollectEntries(page: seq<Canvas>, ids: seq<string>, names: seq<string>)
    returns (zip: map<string, string>)
    requires |page| == |ids| && |names| == |ids|
    requires forall i :: 0 <= i < |ids| ==> GetElementById(page, ids[i]) == Some(FirstOccurrence(names, i))
    ensures zip.Keys == Elements(names)
    ensures forall k :: 0 <= k < |names| ==> names[k] in zip && zip[names[k]] == page[FirstOccurrence(names, k)].qrValue
  {
    zip := map[];
    var i := 0;
    CollectStart(page, names);
    while i < |ids|
      invariant 0 <= i <= |ids|
      invariant Collected(zip, page, names, i)
    {
      var canvas := GetElementById(page, ids[i]);
      assert canvas == Some(FirstOccurrence(names, i));
      if canvas.Some? {
        CollectStep(zip, page, names, i);
        zip := zip[names[i] := page[canvas.value].qrValue];
      }
      i := i + 1;
    }
    CollectDone(zip, page, names);
  }

  /** After the first `i` cards: the entries are keyed by the first `i`
      names, and each of those names holds the picture of the first card
      with that name. */
  predicate Collected(zip: map<string, string>, page: seq<Canvas>, names: seq<string>, i: nat)
    requires |names| == |page| && i <= |page|
  {
    && zip.Keys == Elements(names[..i])
    && forall k :: 0 <= k < i ==> names[k] in zip && zip[names[k]] == page[FirstOccurrence(names, k)].qrValue
  }

  lemma CollectStart(page: seq<Canvas>, names: seq<string>)
    requires |names| == |page|
    ensures Collected(map[], page, names, 0)
  {
    ElementsEmpty(names[..0]);
  }

  lemma CollectDone(zip: map<string, string>, page: seq<Canvas>, names: seq<string>)
    requires |names| == |page|
    requires Collected(zip, page, names, |page|)
    ensures zip.Keys == Elements(names)
    ensures forall k :: 0 <= k < |names| ==> names[k] in zip && zip[names[k]] == page[FirstOccurrence(names, k)].qrValue
  {
    assert names[..|page|] == names;
  }

  /** Card `i` keeps the collected entries collected, one card further:
      a name shared with an earlier card has the same first card. */
  lemma CollectStep(zip: map<string, string>, page: seq<Canvas>, names: seq<string>, i: nat)
    requires |names| == |page| && i < |page|
    requires Collected(zip, page, names, i)
    ensures Collected(zip[names[i] := page[FirstOccurrence(names, i)].qrValue], page, names, i + 1)
  {
    var values := seq(|names|, k requires 0 <= k < |names| => page[FirstOccurrence(names, k)].qrValue);
    forall k | 0 <= k < i && names[k] == names[i]
      ensures values[k] == values[i]
    {
      FirstOccurrenceShared(names, k, i);
    }
    ValuesStep(zip, names, values, i);
    KeysStep(zip, names, i, values[i]);
  }

  /** Adding name `i` to a map keyed by the first `i` names keys it by the
      first `i + 1`. */
  lemma KeysStep(zip: map<string, string>, names: seq<string>, i: nat, v: string)
    requires i < |names| && zip.Keys == Elements(names[..i])
    ensures zip[names[i] := v].Keys == Elements(names[..i + 1])
  {
    ElementsStep(names, i);
  }

  /** Storing `values[i]` under `names[i]` keeps every earlier name's
      value when names that repeat carry the same value. */
  lemma ValuesStep(zip: map<string, string>, names: seq<string>, values: seq<string>, i: nat)
    requires |values| == |names| && i < |names|
    requires forall k :: 0 <= k < i && names[k] == names[i] ==> values[k] == values[i]
    requires forall k :: 0 <= k < i ==> names[k] in zip && zip[names[k]] == values[k]
    ensures var next := zip[names[i] := values[i]];
            forall k :: 0 <= k < i + 1 ==> names[k] in next && next[names[k]] == values[k]
  {
    var next := zip[names[i] := values[i]];
    forall k | 0 <= k < i && names[k] != names[i]
      ensures next[names[k]] == values[k]
    {
      assert next[names[k]] == zip[names[k]];
    }
  }

  /** Two cards labelled "Table #1" and "Table 1": the archive would have a
      single entry for the two codes. */
  lemma ArchiveLosesEntry(a: string, b: string, v1: string, v2: string)
    requires a == "Table #1" && b == "Table 1"
    ensures |Elements(FileNames([GeneratedQrCode(a, v1), GeneratedQrCode(b, v2)]))| == 1
  {
    var codes := [GeneratedQrCode(a, v1), GeneratedQrCode(b, v2)];
    SlugCollision(a, b);
    var names := FileNames(codes);
    assert names[0] == names[1];
    ElementsSize(names);
    assert !Distinct(names);
    assert Elements(names) != {};
  }

  /** The corrected entry name at position `k`: `key.png` for the first
      position holding the key, `key.N.png` (N the position counted from 1)
      for every later one. */
  function DisambiguatedName(keys: seq<string>, k: nat): string
    requires k < |keys|
  {
    if FirstOccurrence(keys, k) == k then keys[k] + PngSuffix
    else keys[k] + "." + Decimal(k + 1) + PngSuffix
  }

  /** Splitting at the first `.`: strings without `.` before it are
      equal exactly when both parts are. */
  lemma SplitAtDot(x: string, y: string, x': string, y': string)
    requires '.' !in x && '.' !in x'
    ensures x + "." + y == x' + "." + y' <==> x == x' && y == y'
  {
    var s, s' := x + "." + y, x' + "." + y';
    assert s[|x|] == '.' && s'[|x'|] == '.';
    assert forall i :: 0 <= i < |x| ==> s[i] == x[i];
    assert forall i :: 0 <= i < |x'| ==> s'[i] == x'[i];
    assert x == s[..|x|] && x' == s'[..|x'|];
    assert y == s[|x| + 1..] && y' == s'[|x'| + 1..];
  }

  /** Keys without `.` get pairwise different corrected names. */
  lemma DisambiguatedDistinct(keys: seq<string>, i: nat, j: nat)
    requires i < j < |keys|
    requires '.' !in keys[i] && '.' !in keys[j]
    ensures DisambiguatedName(keys, i) != DisambiguatedName(keys, j)
  {
    var fi, fj := FirstOccurrence(keys, i) == i, FirstOccurrence(keys, j) == j;
    var ti, tj := NameTail(fi, i), NameTail(fj, j);
    NameShape(keys, i);
    NameShape(keys, j);
    SplitAtDot(keys[i], ti, keys[j], tj);
    if keys[i] == keys[j] {
      assert !fj;
      TailsDiffer(i, j, fi);
    }
  }

  /** What follows the key's own `.` in a corrected name. */
  function NameTail(first: bool, k: nat): string {
    if first then "png" else Decimal(k + 1) + PngSuffix
  }

  lemma NameShape(keys: seq<string>, k: nat)
    requires k < |keys|
    ensures DisambiguatedName(keys, k) == keys[k] + "." + NameTail(FirstOccurrence(keys, k) == k, k)
  {
    if FirstOccurrence(keys, k) != k {
      assert keys[k] + "." + Decimal(k + 1) + PngSuffix == keys[k] + "." + (Decimal(k + 1) + PngSuffix);
    }
  }

  /** A later position's numbered tail differs from an earlier position's
      tail, numbered or not. */
  lemma TailsDiffer(i: nat, j: nat, first: bool)
    requires i < j
    ensures NameTail(first, i) != NameTail(false, j)
  {
    var a, b := NameTail(first, i), NameTail(false, j);
    assert b[..|b| - |PngSuffix|] == Decimal(j + 1);
    if !first {
      assert a[..|a| - |PngSuffix|] == Decimal(i + 1);
      DecimalInjective(i + 1, j + 1);
    }
  }

  lemma SlugsHaveNoDot(codes: seq<GeneratedQrCode>)
    ensures forall m :: 0 <= m < |codes| ==> '.' !in Slugs(codes)[m]
  {
    forall m | 0 <= m < |codes|
      ensures '.' !in Slugs(codes)[m]
    {
      var s := Slugify(codes[m].tableLabel);
      assert forall i :: 0 <= i < |s| ==> IsSlugChar(s[i]);
    }
  }

  /** The corrected archive names, one per code in code order. */
  function CorrectedNames(codes: seq<GeneratedQrCode>): seq<string> {
    seq(|codes|, k requires 0 <= k < |codes| => DisambiguatedName(Slugs(codes), k))
  }

  /** No two codes get the same corrected name. */
  lemma CorrectedNamesDistinct(codes: seq<GeneratedQrCode>)
    ensures Distinct(CorrectedNames(codes))
  {
    var names, slugs := CorrectedNames(codes), Slugs(codes);
    SlugsHaveNoDot(codes);
    forall i, j | 0 <= i < j < |codes|
      ensures names[i] != names[j]
    {
      DisambiguatedDistinct(slugs, i, j);
    }
  }

  /** Every file name the source gives survives among the corrected names:
      the first code of each slug keeps it. */
  lemma CorrectedNamesKeepFirst(codes: seq<GeneratedQrCode>)
    ensures Elements(FileNames(codes)) <= Elements(CorrectedNames(codes))
  {
    var slugs, names, files := Slugs(codes), CorrectedNames(codes), FileNames(codes);
    assert forall k :: 0 <= k < |codes| ==> files[k] == slugs[k] + PngSuffix;
    assert forall k :: 0 <= k < |codes| && FirstOccurrence(slugs, k) == k ==> names[k] == slugs[k] + PngSuffix;
    FirstNamesKept(slugs, files, names);
  }

  /** When every name is its key with a suffix, and every first occurrence
      of a key gets that same name in a second list, each name appears in
      the second list. */
  lemma FirstNamesKept(keys: seq<string>, files: seq<string>, names: seq<string>)
    requires |files| == |keys| && |names| == |keys|
    requires forall k :: 0 <= k < |keys| ==> files[k] == keys[k] + PngSuffix
    requires forall k :: 0 <= k < |keys| && FirstOccurrence(keys, k) == k ==> names[k] == keys[k] + PngSuffix
    ensures Elements(files) <= Elements(names)
  {
    forall n | n in Elements(files)
      ensures n in Elements(names)
    {
      var k :| 0 <= k < |keys| && files[k] == n;
      var f := FirstOccurrence(keys, k);
      FirstOccurrenceShared(keys, f, k);
      assert names[f] == n;
    }
  }

  /** Save-All with index-keyed canvases and corrected entry names: one
      entry per code, holding that code's own symbol, and every file name
      the source would use is still there. */
  method CorrectedSaveAll(codes: seq<GeneratedQrCode>, jsZipLoaded: bool, saveAsLoaded: bool)
    returns (r: Result<Archive, SaveAllError>)
    ensures r.Err? <==> !jsZipLoaded || !saveAsLoaded
    ensures r.Err? ==> r.error == LibrariesMissing
    ensures r.Ok? ==> r.value.name == ArchiveName
    ensures r.Ok? ==> |r.value.entries| == |codes|
    ensures r.Ok? ==> forall k :: 0 <= k < |codes| ==>
              CorrectedNames(codes)[k] in r.value.entries && r.value.entries[CorrectedNames(codes)[k]] == codes[k].qrValue
    ensures r.Ok? ==> Elements(FileNames(codes)) <= r.value.entries.Keys
  {
    if !jsZipLoaded || !saveAsLoaded {
      return Err(LibrariesMissing);
    }
    var page := CorrectedPage(codes);
    var ids := Ids(page);
    var names := CorrectedNames(codes);
    CorrectedInputs(codes);
    var zip := CollectEntries(page, ids, names);
    CorrectedOutputs(codes, zip);
    return Ok(Archive(ArchiveName, zip));
  }

  /** With index-keyed ids every lookup finds the card itself, which is the
      first card with its corrected name since those never repeat. */
  lemma CorrectedInputs(codes: seq<GeneratedQrCode>)
    ensures forall i :: 0 <= i < |codes| ==>
              GetElementById(CorrectedPage(codes), Ids(CorrectedPage(codes))[i]) == Some(FirstOccurrence(CorrectedNames(codes), i))
  {
    var page, ids, names := CorrectedPage(codes), Ids(CorrectedPage(codes)), CorrectedNames(codes);
    CorrectedNamesDistinct(codes);
    forall i | 0 <= i < |codes|
      ensures GetElementById(page, ids[i]) == Some(FirstOccurrence(names, i))
    {
      assert ids[i] == CorrectedCanvasId(i);
      CorrectedLookup(codes, i);
      FirstOccurrenceSelf(names, i);
    }
  }

  /** Entries keyed by distinct corrected names hold each code's own link,
      one entry per code, and keep every name the source would use. */
  lemma CorrectedOutputs(codes: seq<GeneratedQrCode>, zip: map<string, string>)
    requires zip.Keys == Elements(CorrectedNames(codes))
    requires forall k :: 0 <= k < |codes| ==>
               CorrectedNames(codes)[k] in zip &&
               zip[CorrectedNames(codes)[k]] == CorrectedPage(codes)[FirstOccurrence(CorrectedNames(codes), k)].qrValue
    ensures |zip| == |codes|
    ensures forall k :: 0 <= k < |codes| ==>
              CorrectedNames(codes)[k] in zip && zip[CorrectedNames(codes)[k]] == codes[k].qrValue
    ensures Elements(FileNames(codes)) <= zip.Keys
  {
    var names := CorrectedNames(codes);
    CorrectedNamesDistinct(codes);
    forall k | 0 <= k < |codes|
      ensures zip[names[k]] == codes[k].qrValue
    {
      FirstOccurrenceSelf(names, k);
    }
    ElementsSize(names);
    assert |zip| == |zip.Keys|;
    CorrectedNamesKeepFirst(codes);
  }
}
