/** The Zotero side of the plugin: which selection may open a chat, how the
    PDF text is found, the metadata block sent with it, and the preference
    fallbacks. Zotero's item, full-text and preference APIs are replaced by
    plain data: an item carries its fields, creators and attachments, and an
    attachment carries the text Zotero reports for it before and after an
    indexing request (empty when it reports nothing). */
module Zotero {
  import opened Text
  import opened Wrappers

  datatype Creator = Creator(firstName: string, lastName: string)

  datatype Attachment = Attachment(contentType: string, indexedText: string, textAfterIndexing: string)

  datatype Item = Item(
    regular: bool,
    title: string,
    year: string,
    date: string,
    doi: string,
    creators: seq<Creator>,
    attachments: seq<Attachment>)

  // ----------------------------------------------------------- selection

  /** `_onMenuShowing`: the menu entry is shown for exactly one selected regular item. */
  predicate MenuVisible(selection: seq<Item>) {
    |selection| == 1 && selection[0].regular
  }

  const ExactlyOneAlert: string := "ZoteroOllama: Please select exactly one item."
  const RegularItemAlert: string := "ZoteroOllama: Please select a regular item (not an attachment or note)."

  /** The selection guards of `openChatForSelectedItem`: the item to chat about, or the alert. */
  function SelectItem(selection: seq<Item>): (r: Result<Item>)
    ensures r.Ok? ==> |selection| == 1 && r.value == selection[0]
  {
    if |selection| != 1 then Err(ExactlyOneAlert)
    else if !selection[0].regular then Err(RegularItemAlert)
    else Ok(selection[0])
  }

  // ------------------------------------------------------------ PDF text

  const PdfType: string := "application/pdf"
  const NotRegularError: string := "Selected item is not a regular item."
  const NoAttachmentsError: string := "No attachments found for this item."
  const NoPdfError: string := "No PDF attachment found for this item."
  const NotIndexedError: string :=
    "Could not extract text from PDF. The PDF may not be properly indexed. "
    + "Try right-clicking the item and selecting 'Reindex Item'."

  /** The position of the first PDF attachment. */
  function FirstPdf(atts: seq<Attachment>): (r: Option<nat>)
    ensures r.Some? ==> r.value < |atts| && atts[r.value].contentType == PdfType
    ensures r.Some? ==> forall j :: 0 <= j < r.value ==> atts[j].contentType != PdfType
    ensures r.None? ==> forall j :: 0 <= j < |atts| ==> atts[j].contentType != PdfType
  {
    if |atts| == 0 then None
    else if atts[0].contentType == PdfType then Some(0)
    else match FirstPdf(atts[1..])
      case Some(k) => Some(k + 1)
      case None => None
  }

  /** `text && text.trim().length > 0`. */
  predicate Usable(text: string) {
    Trim(text) != ""
  }

  /** `extractPdfText`: only the first PDF attachment is consulted; its indexed text, or else its
      text after one indexing request, or an error. */
  function ExtractPdfText(item: Item): Result<string>
  {
    if !item.regular then Err(NotRegularError)
    else if |item.attachments| == 0 then Err(NoAttachmentsError)
    else match FirstPdf(item.attachments)
      case None => Err(NoPdfError)
      case Some(k) => PdfText(item.attachments[k])
  }

  /** The text of the chosen PDF: as indexed, or else after one indexing request. */
  function PdfText(a: Attachment): Result<string>
  {
    if Usable(a.indexedText) then Ok(a.indexedText)
    else if Usable(a.textAfterIndexing) then Ok(a.textAfterIndexing)
    else Err(NotIndexedError)
  }

  // ------------------------------------------------------------- metadata

  /** `items.join(sep)` for a text separator. */
  function JoinWith(parts: seq<string>, sep: string): string
  {
    if |parts| == 0 then "" else if |parts| == 1 then parts[0] else parts[0] + sep + JoinWith(parts[1..], sep)
  }

  function CreatorName(c: Creator): string
  {
    (if c.firstName != "" then c.firstName + " " else "") + c.lastName
  }

  function CreatorNames(cs: seq<Creator>): (r: seq<string>)
    ensures |r| == |cs|
    ensures forall k :: 0 <= k < |r| ==> r[k] == CreatorName(cs[k])
  {
    if |cs| == 0 then [] else [CreatorName(cs[0])] + CreatorNames(cs[1..])
  }

  function TitleOf(item: Item): string
  {
    if item.title != "" then item.title else "Untitled"
  }

  function AuthorsOf(item: Item): string
  {
    JoinWith(CreatorNames(item.creators), ", ")
  }

  function YearOf(item: Item): string
  {
    if item.year != "" then item.year else item.date
  }

  /** A labelled metadata line, present only when its value is non-empty. */
  function Labelled(tag: string, value: string): seq<string>
  {
    if value != "" then [tag + value] else []
  }

  /** The lines of the metadata block: the title always, then authors, year and DOI, each only
      when non-empty. */
  function MetadataLines(item: Item): seq<string>
  {
    ["Title: " + TitleOf(item)]
    + Labelled("Authors: ", AuthorsOf(item)) + Labelled("Year: ", YearOf(item)) + Labelled("DOI: ", item.doi)
  }

  /** The metadata string built in `openChatForSelectedItem`. */
  function Metadata(item: Item): string
  {
    Join(MetadataLines(item), '\n')
  }

  /** The fields a metadata block carries; absent ones are empty. */
  datatype MetadataFields = MetadataFields(title: string, authors: string, year: string, doi: string)

  function DropPrefix(s: string, prefix: string): string
    requires StartsWith(s, prefix)
  {
    s[|prefix|..]
  }

  /** Reads the labelled lines after the title line back into the fields. */
  function ParseLabelled(lines: seq<string>, acc: MetadataFields): Option<MetadataFields>
  {
    if |lines| == 0 then Some(acc)
    else if StartsWith(lines[0], "Authors: ") then ParseLabelled(lines[1..], acc.(authors := DropPrefix(lines[0], "Authors: ")))
    else if StartsWith(lines[0], "Year: ") then ParseLabelled(lines[1..], acc.(year := DropPrefix(lines[0], "Year: ")))
    else if StartsWith(lines[0], "DOI: ") then ParseLabelled(lines[1..], acc.(doi := DropPrefix(lines[0], "DOI: ")))
    else None
  }

  /** Reads a metadata block back: the inverse of `Metadata`. */
  function ParseMetadata(s: string): Option<MetadataFields>
  {
    var lines := Split(s, '\n');
    if StartsWith(lines[0], "Title: ") then ParseLabelled(lines[1..], MetadataFields(DropPrefix(lines[0], "Title: "), "", "", ""))
    else None
  }

  // ---------------------------------------------------------- preferences

  /** A preference as read: absent, or a value. */
  datatype Prefs = Prefs(model: Option<string>, ollamaUrl: Option<string>, contextWindowSize: Option<int>,
                         systemPrompt: Option<string>)

  const DefaultModel: string := "gpt-oss:20b"
  const DefaultUrl: string := "http://localhost:11434"
  const DefaultContextWindow: int := 32768
  const DefaultSystemPrompt: string :=
    "You are a helpful research assistant. Answer questions about the provided PDF document accurately and concisely."

  /** `pref || fallback` for a text preference: an absent or empty value is falsy. */
  function OrText(pref: Option<string>, fallback: string): string
  {
    if pref.Some? && pref.value != "" then pref.value else fallback
  }

  /** `pref || fallback` for a number: absent and zero are falsy. */
  function OrNumber(pref: Option<int>, fallback: int): int
  {
    if pref.Some? && pref.value != 0 then pref.value else fallback
  }

  /** What the chat dialog is opened with. */
  datatype DialogData = DialogData(pdfText: string, metadata: string, itemTitle: string, model: string,
                                   ollamaUrl: string, contextWindowSize: int, systemPrompt: string)

  /** `openChatForSelectedItem`: the dialog's data, or the alert shown instead. */
  function OpenChat(selection: seq<Item>, prefs: Prefs): Result<DialogData>
  {
    match SelectItem(selection)
    case Err(m) => Err(m)
    case Ok(item) =>
      match ExtractPdfText(item)
      case Err(m) => Err("ZoteroOllama: " + m)
      case Ok(text) =>
        Ok(DialogData(text, Metadata(item), TitleOf(item),
                      OrText(prefs.model, DefaultModel), OrText(prefs.ollamaUrl, DefaultUrl),
                      OrNumber(prefs.contextWindowSize, DefaultContextWindow),
                      OrText(prefs.systemPrompt, DefaultSystemPrompt)))
  }

  // ------------------------------------------------------------- lemmas

  /** The menu entry is visible exactly for the selections the command accepts: every other
      selection is turned away by one of the two selection alerts. */
  lemma MenuMatchesGuards(selection: seq<Item>)
    ensures MenuVisible(selection) <==> SelectItem(selection).Ok?
    ensures !MenuVisible(selection) ==>
      SelectItem(selection) == Err(if |selection| != 1 then ExactlyOneAlert else RegularItemAlert)
  {
  }

  /** The errors of `extractPdfText`, and which attachment's text it returns: the first PDF's
      indexed text when it is usable, with no indexing request; otherwise its text after one
      indexing request when that is usable; otherwise the not-indexed error. */
  lemma ExtractCases(item: Item)
    ensures !item.regular ==> ExtractPdfText(item) == Err(NotRegularError)
    ensures item.regular && |item.attachments| == 0 ==> ExtractPdfText(item) == Err(NoAttachmentsError)
    ensures item.regular && |item.attachments| > 0
            && (forall j :: 0 <= j < |item.attachments| ==> item.attachments[j].contentType != PdfType)
            ==> ExtractPdfText(item) == Err(NoPdfError)
    ensures ExtractPdfText(item).Ok? ==> Usable(ExtractPdfText(item).value)
    ensures ExtractPdfText(item).Ok? ==>
      exists k :: 0 <= k < |item.attachments| && item.attachments[k].contentType == PdfType
        && (forall j :: 0 <= j < k ==> item.attachments[j].contentType != PdfType)
        && ExtractPdfText(item).value in {item.attachments[k].indexedText, item.attachments[k].textAfterIndexing}
    ensures item.regular && FirstPdf(item.attachments).Some? ==>
      var a := item.attachments[FirstPdf(item.attachments).value];
      && (Usable(a.indexedText) ==> ExtractPdfText(item) == Ok(a.indexedText))
      && (!Usable(a.indexedText) && Usable(a.textAfterIndexing) ==> ExtractPdfText(item) == Ok(a.textAfterIndexing))
      && (!Usable(a.indexedText) && !Usable(a.textAfterIndexing) ==> ExtractPdfText(item) == Err(NotIndexedError))
  {
    if item.regular && FirstPdf(item.attachments).Some? {
      ExtractFromFirst(item, FirstPdf(item.attachments).value);
    }
  }

  /** Only the first PDF attachment matters: anything after it can be replaced, even by a PDF
      whose text would be usable, without changing the outcome. */
  lemma OnlyFirstPdfMatters(item: Item, others: seq<Attachment>)
    requires item.regular && FirstPdf(item.attachments).Some?
    ensures var k := FirstPdf(item.attachments).value;
      ExtractPdfText(item.(attachments := item.attachments[..k + 1] + others)) == ExtractPdfText(item)
  {
    var k := FirstPdf(item.attachments).value;
    var atts := item.attachments[..k + 1] + others;
    FirstPdfPrefix(item.attachments, k, others);
    assert atts[k] == item.attachments[k];
    ExtractFromFirst(item, k);
    ExtractFromFirst(item.(attachments := atts), k);
  }

  /** With a first PDF, the outcome is that attachment's text. */
  lemma ExtractFromFirst(item: Item, k: nat)
    requires item.regular && FirstPdf(item.attachments) == Some(k)
    ensures k < |item.attachments| && ExtractPdfText(item) == PdfText(item.attachments[k])
  {
  }

  lemma {:induction false} FirstPdfPrefix(atts: seq<Attachment>, k: nat, others: seq<Attachment>)
    requires FirstPdf(atts) == Some(k)
    ensures FirstPdf(atts[..k + 1] + others) == Some(k)
  {
    var b := atts[..k + 1] + others;
    if k > 0 {
      assert atts[0].contentType != PdfType;
      FirstPdfPrefix(atts[1..], k - 1, others);
      assert b[1..] == atts[1..][..k] + others;
    }
  }

  lemma {:induction false} JoinWithEmpty(parts: seq<string>, sep: string)
    requires sep != ""
    ensures JoinWith(parts, sep) == "" <==> |parts| == 0 || (|parts| == 1 && parts[0] == "")
  {
    if |parts| > 1 {
      assert |JoinWith(parts, sep)| >= |sep|;
    }
  }

  /** No `Authors` line exactly when the item has no creators, or a single creator without any
      name; with two or more creators the line is always there. */
  lemma AuthorsLinePresence(item: Item)
    ensures AuthorsOf(item) == "" <==>
      |item.creators| == 0 || (|item.creators| == 1 && item.creators[0].firstName == "" && item.creators[0].lastName == "")
  {
    JoinWithEmpty(CreatorNames(item.creators), ", ");
    if |item.creators| == 1 {
      var c := item.creators[0];
      if c.firstName != "" {
        assert |CreatorName(c)| >= |c.firstName| + 1;
      }
    }
  }

  /** `value ? "\n" + tag + value : ""`: how the source appends an optional field. */
  function Field(tag: string, value: string): string
  {
    if value != "" then "\n" + tag + value else ""
  }

  /** The metadata block, as the source concatenates it. */
  lemma MetadataText(item: Item)
    ensures Metadata(item) ==
      "Title: " + TitleOf(item) + Field("Authors: ", AuthorsOf(item)) + Field("Year: ", YearOf(item)) + Field("DOI: ", item.doi)
  {
    LinesText("Title: " + TitleOf(item), "Authors: ", AuthorsOf(item), "Year: ", YearOf(item), "DOI: ", item.doi);
  }

  /** Joining the title line with three optional labelled lines, for any labels. */
  lemma LinesText(t: string, ta: string, authors: string, ty: string, year: string, td: string, doi: string)
    ensures Join([t] + Labelled(ta, authors) + Labelled(ty, year) + Labelled(td, doi), '\n')
         == t + Field(ta, authors) + Field(ty, year) + Field(td, doi)
  {
    JoinOptionalLines(t, Labelled(ta, authors), Labelled(ty, year), Labelled(td, doi));
    NewlineLabelled(ta, authors);
    NewlineLabelled(ty, year);
    NewlineLabelled(td, doi);
    assert t + (Field(ta, authors) + Field(ty, year) + Field(td, doi))
        == t + Field(ta, authors) + Field(ty, year) + Field(td, doi);
  }

  lemma JoinOptionalLines(t: string, a: seq<string>, y: seq<string>, d: seq<string>)
    ensures Join([t] + a + y + d, '\n') == t + (NewlineEach(a) + NewlineEach(y) + NewlineEach(d))
  {
    assert [t] + a + y + d == [t] + (a + y + d);
    JoinConsStep(t, a + y + d);
    NewlineEachAppend(a + y, d);
    NewlineEachAppend(a, y);
  }

  lemma NewlineLabelled(tag: string, value: string)
    ensures NewlineEach(Labelled(tag, value)) == Field(tag, value)
  {
    if value != "" {
      assert Labelled(tag, value)[1..] == [];
    }
  }

  function NewlineEach(rest: seq<string>): string
  {
    if |rest| == 0 then "" else "\n" + rest[0] + NewlineEach(rest[1..])
  }

  /** Joining a first line with the rest: the rest, each preceded by a newline. */
  lemma {:induction false} JoinConsStep(first: string, rest: seq<string>)
    ensures Join([first] + rest, '\n') == first + NewlineEach(rest)
    decreases |rest|
  {
    if |rest| > 0 {
      var xs := [first] + rest;
      assert xs[0] == first && xs[1..] == rest == [rest[0]] + rest[1..];
      JoinConsStep(rest[0], rest[1..]);
      calc {
        Join(xs, '\n');
        first + ['\n'] + Join(rest, '\n');
        first + ['\n'] + (rest[0] + NewlineEach(rest[1..]));
        first + ("\n" + rest[0] + NewlineEach(rest[1..]));
      }
    }
  }

  /** Prefixing each line by a newline works piece by piece. */
  lemma {:induction false} NewlineEachAppend(a: seq<string>, b: seq<string>)
    ensures NewlineEach(a + b) == NewlineEach(a) + NewlineEach(b)
  {
    if |a| == 0 {
      assert a + b == b;
    } else {
      assert (a + b)[0] == a[0] && (a + b)[1..] == a[1..] + b;
      NewlineEachAppend(a[1..], b);
    }
  }

  /** The metadata block reads back into its fields when none of them spans several lines: the
      title (or `Untitled`), and the authors, year and DOI, empty when absent. */
  lemma MetadataRoundTrip(item: Item)
    requires '\n' !in item.title && '\n' !in AuthorsOf(item) && '\n' !in YearOf(item) && '\n' !in item.doi
    ensures ParseMetadata(Metadata(item)) == Some(MetadataFields(TitleOf(item), AuthorsOf(item), YearOf(item), item.doi))
  {
    LinesRoundTrip(TitleOf(item), AuthorsOf(item), YearOf(item), item.doi);
  }

  lemma LinesRoundTrip(title: string, authors: string, year: string, doi: string)
    requires '\n' !in title && '\n' !in authors && '\n' !in year && '\n' !in doi
    ensures var lines := ["Title: " + title] + Labelled("Authors: ", authors) + Labelled("Year: ", year) + Labelled("DOI: ", doi);
      ParseMetadata(Join(lines, '\n')) == Some(MetadataFields(title, authors, year, doi))
  {
    var t := "Title: " + title;
    var a := Labelled("Authors: ", authors);
    var y := Labelled("Year: ", year);
    var d := Labelled("DOI: ", doi);
    var lines := [t] + a + y + d;
    forall k | 0 <= k < |lines| ensures '\n' !in lines[k] {
    }
    SplitJoin(lines, '\n');
    assert StartsWith(t, "Title: ") && DropPrefix(t, "Title: ") == title;
    assert lines[0] == t && lines[1..] == a + (y + d);
    var f0 := MetadataFields(title, "", "", "");
    var f1 := f0.(authors := authors);
    var f2 := f1.(year := year);
    var f3 := f2.(doi := doi);
    ParseOne(a, y + d, f0, f1, "Authors: ", authors);
    ParseOne(y, d, f1, f2, "Year: ", year);
    ParseOne(d, [], f2, f3, "DOI: ", doi);
    assert d + [] == d;
  }

  lemma ParseOne(line: seq<string>, rest: seq<string>, before: MetadataFields, after: MetadataFields,
                 tag: string, value: string)
    requires tag in {"Authors: ", "Year: ", "DOI: "}
    requires line == Labelled(tag, value)
    requires value == "" ==> before == after
    requires value != "" ==> after == (if tag == "Authors: " then before.(authors := value)
                                       else if tag == "Year: " then before.(year := value)
                                       else before.(doi := value))
    ensures ParseLabelled(line + rest, before) == ParseLabelled(rest, after)
  {
    if value != "" {
      var l := tag + value;
      assert (line + rest)[0] == l && (line + rest)[1..] == rest;
      assert StartsWith(l, tag) && DropPrefix(l, tag) == value;
      assert !StartsWith(l, "Authors: ") || tag == "Authors: " by {
        if tag != "Authors: " { assert l[0] != 'A'; }
      }
      assert !StartsWith(l, "Year: ") || tag == "Year: " by {
        if tag != "Year: " { assert l[0] != 'Y'; }
      }
    } else {
      assert line + rest == rest;
    }
  }

  /** A preference that is set and truthy is used as is; otherwise the built-in default is, so
      the dialog never gets an empty model, URL or prompt, nor a zero context window. */
  lemma PrefsFallBack(prefs: Prefs)
    ensures OrText(prefs.model, DefaultModel) != ""
    ensures OrText(prefs.ollamaUrl, DefaultUrl) != ""
    ensures OrText(prefs.systemPrompt, DefaultSystemPrompt) != ""
    ensures OrNumber(prefs.contextWindowSize, DefaultContextWindow) != 0
    ensures prefs.model.Some? && prefs.model.value != "" ==> OrText(prefs.model, DefaultModel) == prefs.model.value
    ensures prefs.model.None? || prefs.model.value == "" ==> OrText(prefs.model, DefaultModel) == "gpt-oss:20b"
    ensures prefs.contextWindowSize.Some? && prefs.contextWindowSize.value != 0 ==>
      OrNumber(prefs.contextWindowSize, DefaultContextWindow) == prefs.contextWindowSize.value
    ensures prefs.contextWindowSize.None? || prefs.contextWindowSize.value == 0 ==>
      OrNumber(prefs.contextWindowSize, DefaultContextWindow) == 32768
    ensures prefs.ollamaUrl.Some? && prefs.ollamaUrl.value != "" ==> OrText(prefs.ollamaUrl, DefaultUrl) == prefs.ollamaUrl.value
    ensures prefs.ollamaUrl.None? || prefs.ollamaUrl.value == "" ==> OrText(prefs.ollamaUrl, DefaultUrl) == "http://localhost:11434"
    ensures prefs.systemPrompt.Some? && prefs.systemPrompt.value != "" ==>
      OrText(prefs.systemPrompt, DefaultSystemPrompt) == prefs.systemPrompt.value
    ensures prefs.systemPrompt.None? || prefs.systemPrompt.value == "" ==>
      OrText(prefs.systemPrompt, DefaultSystemPrompt)
      == "You are a helpful research assistant. Answer questions about the provided PDF document accurately and concisely."
  {
  }

  /** The dialog is opened with each preference when it is set and truthy, and with the
      built-in default otherwise. */
  lemma DialogUsesPrefs(selection: seq<Item>, prefs: Prefs)
    requires OpenChat(selection, prefs).Ok?
    ensures var d := OpenChat(selection, prefs).value;
      && (prefs.model.Some? && prefs.model.value != "" ==> d.model == prefs.model.value)
      && (prefs.model.None? || prefs.model.value == "" ==> d.model == "gpt-oss:20b")
      && (prefs.ollamaUrl.Some? && prefs.ollamaUrl.value != "" ==> d.ollamaUrl == prefs.ollamaUrl.value)
      && (prefs.ollamaUrl.None? || prefs.ollamaUrl.value == "" ==> d.ollamaUrl == "http://localhost:11434")
      && (prefs.contextWindowSize.Some? && prefs.contextWindowSize.value != 0 ==>
            d.contextWindowSize == prefs.contextWindowSize.value)
      && (prefs.contextWindowSize.None? || prefs.contextWindowSize.value == 0 ==> d.contextWindowSize == 32768)
      && (prefs.systemPrompt.Some? && prefs.systemPrompt.value != "" ==> d.systemPrompt == prefs.systemPrompt.value)
      && (prefs.systemPrompt.None? || prefs.systemPrompt.value == "" ==>
            d.systemPrompt
            == "You are a helpful research assistant. Answer questions about the provided PDF document accurately and concisely.")
  {
  }

  /** The dialog opens exactly for a single regular item whose first PDF yields text; it then
      gets that text, the item's metadata block and its title (or `Untitled`). Otherwise the
      alert carries the selection message or the extraction error. */
  lemma OpenChatOutcome(selection: seq<Item>, prefs: Prefs)
    ensures OpenChat(selection, prefs).Ok? <==> MenuVisible(selection) && ExtractPdfText(selection[0]).Ok?
    ensures OpenChat(selection, prefs).Ok? ==>
      var d := OpenChat(selection, prefs).value;
      d.pdfText == ExtractPdfText(selection[0]).value && d.metadata == Metadata(selection[0])
      && d.itemTitle == TitleOf(selection[0])
    ensures MenuVisible(selection) && ExtractPdfText(selection[0]).Err? ==>
      OpenChat(selection, prefs) == Err("ZoteroOllama: " + ExtractPdfText(selection[0]).message)
  {
  }
}
